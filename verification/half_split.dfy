/** Choosing the split frame and keeping the rows after it
    (gen_val_half_gt.py, lines 21-27). */
module HalfSplit {
  import opened GtRows
  import opened Ordering

  /** The split frame: the element at index `|F| / 2` of the ascending
      distinct frame numbers F, the distinct frame with exactly `|F| / 2`
      frames below it (the upper median when `|F|` is even). It is always a frame of
      the input; an empty table has no such element. */
  function MidFrame(data: seq<Row>): (mid: real)
    requires |data| > 0
    ensures mid in FrameSet(data)
  {
    var frameIds := UniqueSorted(FrameColumn(data));
    assert data[0].frame in FrameColumn(data);
    FrameIdsAreFrameSet(data);
    frameIds[|frameIds| / 2]
  }

  /** The distinct frames of the table as numpy lists them. */
  lemma FrameIdsAreFrameSet(data: seq<Row>)
    ensures (set f | f in UniqueSorted(FrameColumn(data))) == FrameSet(data)
  {
    var col := FrameColumn(data);
    forall f | f in FrameSet(data) ensures f in UniqueSorted(col) {
      var i :| 0 <= i < |data| && data[i].frame == f;
      assert col[i] == f;
    }
    forall f | f in UniqueSorted(col) ensures f in FrameSet(data) {
      var i :| 0 <= i < |col| && col[i] == f;
    }
  }

  /** The split frame has exactly `|F| / 2` distinct frames below it and
      `|F| - |F| / 2 - 1` above it. */
  lemma MidFrameRank(data: seq<Row>)
    requires |data| > 0
    ensures |set f | f in FrameSet(data) && f < MidFrame(data)| == |FrameSet(data)| / 2
    ensures |set f | f in FrameSet(data) && f > MidFrame(data)|
            == |FrameSet(data)| - |FrameSet(data)| / 2 - 1
  {
    var u := UniqueSorted(FrameColumn(data));
    FrameIdsAreFrameSet(data);
    assert data[0].frame in FrameColumn(data);
    CountBelowInStrictlyAscending(u, |u| / 2);
    CountAboveInStrictlyAscending(u, |u| / 2);
    assert (set f | f in FrameSet(data) && f < MidFrame(data)) == set f | f in u && f < u[|u| / 2];
    assert (set f | f in FrameSet(data) && f > MidFrame(data)) == set f | f in u && f > u[|u| / 2];
  }

  /** `data[data[:, 0] > mid_frame]`: the rows whose frame is strictly
      greater than `mid`, in their original order. */
  function SecondHalf(rows: seq<Row>, mid: real): seq<Row>
  {
    if rows == [] then []
    else (if rows[0].frame > mid then [rows[0]] else []) + SecondHalf(rows[1..], mid)
  }

  /** The filter keeps the input order: for every `(frame, track)` key, the
      rows carrying it are all kept, in their input order, when the frame
      exceeds `mid`, and none of them is kept otherwise. */
  lemma {:induction false} SecondHalfKeepsOrder(rows: seq<Row>, mid: real, t: real, f: real)
    ensures WithKey(SecondHalf(rows, mid), t, f) == if f > mid then WithKey(rows, t, f) else []
    decreases |rows|
  {
    if rows != [] {
      var x, tail := rows[0], rows[1..];
      SecondHalfKeepsOrder(tail, mid, t, f);
      var own := if x.track == t && x.frame == f then [x] else [];
      assert WithKey(rows, t, f) == own + WithKey(tail, t, f);
      if x.frame > mid {
        var kept := [x] + SecondHalf(tail, mid);
        assert SecondHalf(rows, mid) == kept;
        assert kept[0] == x && kept[1..] == SecondHalf(tail, mid);
        assert WithKey(kept, t, f) == own + WithKey(SecondHalf(tail, mid), t, f);
      } else {
        assert SecondHalf(rows, mid) == SecondHalf(tail, mid);
      }
    }
  }

  /** A row is kept, with all its copies, exactly when its frame exceeds
      `mid`; every other row is dropped. */
  lemma {:induction false} SecondHalfKeeps(rows: seq<Row>, mid: real)
    ensures forall r :: multiset(SecondHalf(rows, mid))[r] == if r.frame > mid then multiset(rows)[r] else 0
    decreases |rows|
  {
    if rows != [] {
      assert rows == [rows[0]] + rows[1..];
      SecondHalfKeeps(rows[1..], mid);
    }
  }

  /** Nothing is kept exactly when the split frame is the largest frame,
      which happens exactly when the table has at most two distinct frames. */
  lemma SecondHalfEmptyIff(data: seq<Row>)
    requires |data| > 0
    ensures SecondHalf(data, MidFrame(data)) == []
            <==> (forall i :: 0 <= i < |data| ==> data[i].frame <= MidFrame(data))
    ensures SecondHalf(data, MidFrame(data)) == [] <==> |FrameSet(data)| <= 2
  {
    var mid := MidFrame(data);
    var kept := SecondHalf(data, mid);
    var above := set f | f in FrameSet(data) && f > mid;
    MidFrameRank(data);
    SecondHalfKeeps(data, mid);
    if kept == [] {
      forall i | 0 <= i < |data| ensures data[i].frame <= mid {
        assert multiset(kept)[data[i]] == 0;
        assert data[i] in multiset(data);
      }
      assert above == {};
    } else {
      assert kept[0] in multiset(kept);
      assert kept[0] in multiset(data);
      var i :| 0 <= i < |data| && data[i] == kept[0];
      assert data[i].frame in above;
    }
  }

  /** Every kept row is a row of the input whose frame exceeds `mid`. */
  lemma SecondHalfRowsAreAbove(rows: seq<Row>, mid: real)
    ensures forall i :: 0 <= i < |SecondHalf(rows, mid)| ==>
              SecondHalf(rows, mid)[i].frame > mid && SecondHalf(rows, mid)[i] in rows
  {
    var kept := SecondHalf(rows, mid);
    SecondHalfKeeps(rows, mid);
    forall i | 0 <= i < |kept| ensures kept[i].frame > mid && kept[i] in rows {
      assert kept[i] in multiset(kept);
    }
  }
}
