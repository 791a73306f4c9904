/** `process_gt_file` (gen_val_half_gt.py, lines 5-63): keep the second half
    of a ground-truth table, renumber each track's frames from 1, sort by
    track then frame, and emit every formatted row twice. */
module GenValHalfGt {
  import opened GtRows
  import opened Ordering
  import opened HalfSplit
  import opened FrameRemap
  import opened TrackSort
  import opened GtOutput

  /** An empty table has no column 0: numpy raises an IndexError. */
  datatype Error = EmptyTable

  datatype Result<T> = Ok(value: T) | Err(error: Error)

  /** The rows `process_gt_file` writes, in order, before formatting. */
  function ValHalfRows(data: seq<Row>): seq<Row>
    requires |data| > 0
  {
    LexSort(Renumbered(SecondHalf(data, MidFrame(data))))
  }

  /** The transformation of a parsed table into the lines of the output file.
      It fails exactly on an empty table; otherwise line `j` is the
      rendering of row `j / 2` of `ValHalfRows`. */
  method ProcessGtFile(data: seq<Row>) returns (res: Result<seq<Line>>)
    ensures res.Err? <==> data == []
    ensures res.Ok? ==> |res.value| == 2 * |ValHalfRows(data)|
    ensures res.Ok? ==> forall j :: 0 <= j < |res.value| ==> res.value[j] == Rendered(ValHalfRows(data)[j / 2])
  {
    if |data| == 0 {
      return Err(EmptyTable);
    }
    var midFrame := MidFrame(data);
    var lastHalf := SecondHalf(data, midFrame);
    var remap := BuildRemap(lastHalf);
    var table := new Row[|lastHalf|](i requires 0 <= i < |lastHalf| => lastHalf[i]);
    assert table[..] == lastHalf;
    RemapHasEveryKey(lastHalf, remap);
    RenumberInPlace(table, remap);
    RewriteIsRenumbered(lastHalf, remap, table[..]);
    var sorted := LexSort(table[..]);
    assert sorted == ValHalfRows(data);
    var lines := WriteLines(sorted);
    return Ok(lines);
  }

  lemma RemapHasEveryKey(rows: seq<Row>, remap: map<(real, real), nat>)
    requires remap.Keys == KeySet(rows)
    ensures forall i :: 0 <= i < |rows| ==> KeyOf(rows[i]) in remap
  {
    forall i | 0 <= i < |rows| ensures KeyOf(rows[i]) in remap {
      assert rows[i] in rows;
    }
  }

  /** Rewriting column 0 through the finished dictionary yields `Renumbered`. */
  lemma RewriteIsRenumbered(rows: seq<Row>, remap: map<(real, real), nat>, s: seq<Row>)
    requires forall i :: 0 <= i < |rows| ==> KeyOf(rows[i]) in remap
    requires forall key :: key in remap ==> remap[key] == NewFrame(rows, key.0, key.1)
    requires |s| == |rows|
    requires forall i :: 0 <= i < |rows| ==> s[i] == rows[i].(frame := remap[KeyOf(rows[i])] as real)
    ensures s == Renumbered(rows)
  {
  }

  /** End to end: the output rows are ordered by track then frame and are
      exactly the retained rows after renumbering, each carried over from an
      input row with a frame after the split frame, unchanged except for a
      new frame in 1..K (K the number of retained rows of its track). */
  lemma ValHalfRowsProperties(data: seq<Row>)
    requires |data| > 0
    ensures var mid := MidFrame(data);
            var kept := SecondHalf(data, mid);
            var out := ValHalfRows(data);
            SortedByTrackThenFrame(out) && |out| == |kept| &&
            forall j :: 0 <= j < |out| ==>
              exists i :: 0 <= i < |kept| && kept[i].frame > mid && kept[i] in data &&
                RenumberedFrom(out[j], kept, i)
  {
    var mid := MidFrame(data);
    var kept := SecondHalf(data, mid);
    var out := ValHalfRows(data);
    PermutedRenumbering(kept, out);
    SecondHalfRowsAreAbove(data, mid);
    forall j | 0 <= j < |out|
      ensures exists i :: 0 <= i < |kept| && kept[i].frame > mid && kept[i] in data &&
                RenumberedFrom(out[j], kept, i)
    {
      assert ComesFromKept(out[j], kept);
      var i :| RenumberedFrom(out[j], kept, i);
      assert kept[i].frame > mid && kept[i] in data;
    }
  }

  /** Row `o` is row `i` of `kept` with only its frame changed, to a value
      in 1..K, K the number of rows of `kept` on the same track. */
  ghost predicate RenumberedFrom(o: Row, kept: seq<Row>, i: int)
  {
    0 <= i < |kept| && o == kept[i].(frame := o.frame) &&
    1.0 <= o.frame <= |TrackFrames(kept, kept[i].track)| as real
  }

  /** Row `o` is some row of `kept` renumbered. */
  ghost predicate ComesFromKept(o: Row, kept: seq<Row>)
  {
    exists i :: RenumberedFrom(o, kept, i)
  }

  /** Any reordering of the renumbered rows consists of the original rows
      with only the frame changed, each to a value in 1..K. */
  lemma PermutedRenumbering(kept: seq<Row>, out: seq<Row>)
    requires multiset(out) == multiset(Renumbered(kept))
    ensures |out| == |kept|
    ensures forall j :: 0 <= j < |out| ==> ComesFromKept(out[j], kept)
  {
    var renumbered := Renumbered(kept);
    assert |out| == |renumbered| by {
      assert |multiset(out)| == |multiset(renumbered)|;
    }
    forall j | 0 <= j < |out| ensures ComesFromKept(out[j], kept) {
      assert out[j] in multiset(renumbered);
      var i :| 0 <= i < |renumbered| && renumbered[i] == out[j];
      NewFrameBounds(kept, i);
      assert RenumberedFrom(out[j], kept, i);
    }
  }

  /** A table with at most two distinct frames yields an empty file, and a
      table with more yields at least one pair of lines. */
  lemma EmptyOutputIff(data: seq<Row>)
    requires |data| > 0
    ensures ValHalfRows(data) == [] <==> |FrameSet(data)| <= 2
  {
    SecondHalfEmptyIff(data);
    ValHalfRowsProperties(data);
  }

  /** Two frames, one track: the split frame is frame 2 (index 2 / 2 = 1),
      nothing lies after it and the output is empty. */
  lemma ScenarioTwoFrames()
    ensures MidFrame([Row(1.0, 1.0, 0.0, 0.0, 10.0, 10.0, 1.0, 1.0, 0.9),
                      Row(2.0, 1.0, 0.0, 0.0, 10.0, 10.0, 1.0, 1.0, 0.8)]) == 2.0
    ensures ValHalfRows([Row(1.0, 1.0, 0.0, 0.0, 10.0, 10.0, 1.0, 1.0, 0.9),
                         Row(2.0, 1.0, 0.0, 0.0, 10.0, 10.0, 1.0, 1.0, 0.8)]) == []
  {
    var data := [Row(1.0, 1.0, 0.0, 0.0, 10.0, 10.0, 1.0, 1.0, 0.9),
                 Row(2.0, 1.0, 0.0, 0.0, 10.0, 10.0, 1.0, 1.0, 0.8)];
    assert FrameColumn(data) == [1.0, 2.0];
    assert UniqueSorted([2.0]) == [2.0];
    assert MidFrame(data) == 2.0;
  }

  /** The table of the three-frame scenario. */
  function ThreeFrameTable(): seq<Row>
  {
    [Row(1.0, 1.0, 0.0, 0.0, 10.0, 10.0, 1.0, 1.0, 0.9),
     Row(2.0, 1.0, 0.0, 0.0, 10.0, 10.0, 1.0, 1.0, 0.8),
     Row(3.0, 1.0, 0.0, 0.0, 10.0, 10.0, 1.0, 1.0, 0.7)]
  }

  /** Three frames, one track: the split frame is frame 2 (index 3 / 2 = 1)
      and only the frame-3 row is kept. */
  lemma ScenarioThreeFramesSplit()
    ensures MidFrame(ThreeFrameTable()) == 2.0
    ensures SecondHalf(ThreeFrameTable(), 2.0) == [Row(3.0, 1.0, 0.0, 0.0, 10.0, 10.0, 1.0, 1.0, 0.7)]
  {
    var data := ThreeFrameTable();
    assert FrameColumn(data) == [1.0, 2.0, 3.0];
    assert UniqueSorted([3.0]) == [3.0];
    assert UniqueSorted([2.0, 3.0]) == [2.0, 3.0];
    assert UniqueSorted([1.0, 2.0, 3.0]) == [1.0, 2.0, 3.0];
    assert SecondHalf(data[2..], 2.0) == [data[2]];
    assert SecondHalf(data[1..], 2.0) == [data[2]];
  }

  /** The kept frame-3 row becomes frame 1, and the output is that row. */
  lemma ScenarioThreeFrames()
    ensures ValHalfRows(ThreeFrameTable()) == [Row(1.0, 1.0, 0.0, 0.0, 10.0, 10.0, 1.0, 1.0, 0.7)]
  {
    ScenarioThreeFramesSplit();
    var kept := [Row(3.0, 1.0, 0.0, 0.0, 10.0, 10.0, 1.0, 1.0, 0.7)];
    assert TrackFrames(kept, 1.0) == [3.0];
    assert NewFrame(kept, 3.0, 1.0) == 1;
    var renumbered := Renumbered(kept);
    assert renumbered == [Row(1.0, 1.0, 0.0, 0.0, 10.0, 10.0, 1.0, 1.0, 0.7)];
    assert LexSort(renumbered) == renumbered;
  }
}
