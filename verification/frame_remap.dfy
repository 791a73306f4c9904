/** Renumbering the frames of each track from 1 (gen_val_half_gt.py,
    lines 30-45): the dictionary `new_frame_nums` built track by track,
    then column 0 of the retained table rewritten in place. */
module FrameRemap {
  import opened GtRows
  import opened Ordering

  /** `last_half_data[last_half_data[:, 1] == t, 0]`: the frames of the rows
      of track `t`, in table order, repetitions included. */
  function TrackFrames(rows: seq<Row>, t: real): (fs: seq<real>)
    ensures |fs| == multiset(TrackColumn(rows))[t]
  {
    if rows == [] then []
    else
      assert TrackColumn(rows) == [rows[0].track] + TrackColumn(rows[1..]);
      (if rows[0].track == t then [rows[0].frame] else []) + TrackFrames(rows[1..], t)
  }

  /** The keys `(frame, track)` that occur in a table. */
  function KeySet(rows: seq<Row>): set<(real, real)>
  {
    set r | r in rows :: KeyOf(r)
  }

  /** The value the dictionary holds for key `(f, t)` once the loop at lines
      33-39 is done: positions are 1-based in the ascending frames of track
      `t` and a later assignment overwrites an earlier one, so `f` ends up
      mapped to its last position, which is the number of rows of track `t`
      whose frame is at most `f`. */
  function NewFrame(rows: seq<Row>, f: real, t: real): nat
  {
    CountLe(TrackFrames(rows, t), f)
  }

  /** The retained table after lines 42-45: only column 0 differs, and it
      holds the remapped frame of the row's own key. */
  function Renumbered(rows: seq<Row>): (out: seq<Row>)
    ensures |out| == |rows|
    ensures forall i :: 0 <= i < |rows| ==> out[i] == rows[i].(frame := out[i].frame)
  {
    seq(|rows|, i requires 0 <= i < |rows| => rows[i].(frame := NewFrame(rows, rows[i].frame, rows[i].track) as real))
  }

  /** Track `t` does not repeat a frame: no two of its rows share a
      `(frame, track)` key. Other tracks may repeat theirs. */
  ghost predicate NoRepeatedFrames(rows: seq<Row>, t: real)
  {
    forall i, j :: 0 <= i < j < |rows| && rows[i].track == t && rows[j].track == t
      ==> rows[i].frame != rows[j].frame
  }

  lemma {:induction false} TrackFramesMembers(rows: seq<Row>, t: real)
    ensures forall f :: f in TrackFrames(rows, t)
              <==> exists i :: 0 <= i < |rows| && rows[i].track == t && rows[i].frame == f
    decreases |rows|
  {
    if rows != [] {
      var tail := rows[1..];
      TrackFramesMembers(tail, t);
      forall f | f in TrackFrames(rows, t)
        ensures exists i :: 0 <= i < |rows| && rows[i].track == t && rows[i].frame == f
      {
        if rows[0].track == t && f == rows[0].frame {
          assert rows[0].track == t && rows[0].frame == f;
        } else {
          assert f in TrackFrames(tail, t);
          var i :| 0 <= i < |tail| && tail[i].track == t && tail[i].frame == f;
          assert rows[i + 1] == tail[i];
        }
      }
      forall f | exists i :: 0 <= i < |rows| && rows[i].track == t && rows[i].frame == f
        ensures f in TrackFrames(rows, t)
      {
        var i :| 0 <= i < |rows| && rows[i].track == t && rows[i].frame == f;
        if i > 0 {
          assert tail[i - 1] == rows[i];
          assert f in TrackFrames(tail, t);
        }
      }
    }
  }

  /** When track `t` repeats no frame, its frames are pairwise different. */
  lemma {:induction false} TrackFramesDistinct(rows: seq<Row>, t: real)
    requires NoRepeatedFrames(rows, t)
    ensures Distinct(TrackFrames(rows, t))
    decreases |rows|
  {
    if rows != [] {
      var tail := rows[1..];
      assert NoRepeatedFrames(tail, t) by {
        forall i, j | 0 <= i < j < |tail| && tail[i].track == t && tail[j].track == t
          ensures tail[i].frame != tail[j].frame
        {
          assert tail[i] == rows[i + 1] && tail[j] == rows[j + 1];
        }
      }
      TrackFramesDistinct(tail, t);
      if rows[0].track == t {
        var x, rest := rows[0].frame, TrackFrames(tail, t);
        TrackFramesMembers(tail, t);
        forall i | 0 <= i < |tail| && tail[i].track == t ensures tail[i].frame != x {
          assert rows[i + 1] == tail[i];
        }
        assert x !in rest;
        assert TrackFrames(rows, t) == [x] + rest;
        forall i, j | 0 <= i < j < |[x] + rest| ensures ([x] + rest)[i] != ([x] + rest)[j] {
          if i == 0 {
            assert ([x] + rest)[j] == rest[j - 1];
          }
        }
      }
    }
  }

  /** Every new frame is a whole number in 1..K, K being the number of
      retained rows of the row's track. */
  lemma NewFrameBounds(rows: seq<Row>, i: nat)
    requires i < |rows|
    ensures var k := NewFrame(rows, rows[i].frame, rows[i].track);
            1 <= k <= |TrackFrames(rows, rows[i].track)| && Renumbered(rows)[i].frame == k as real
  {
    TrackFramesMembers(rows, rows[i].track);
    assert rows[i].frame in TrackFrames(rows, rows[i].track);
    CountLeBounds(TrackFrames(rows, rows[i].track), rows[i].frame);
  }

  /** Within a track the renumbering keeps the order of the old frames:
      a smaller old frame gets a smaller new frame, equal old frames get
      equal new frames. */
  lemma NewFrameMonotone(rows: seq<Row>, i: nat, j: nat)
    requires i < |rows| && j < |rows|
    requires rows[i].track == rows[j].track
    ensures rows[i].frame < rows[j].frame ==> Renumbered(rows)[i].frame < Renumbered(rows)[j].frame
    ensures rows[i].frame <= rows[j].frame ==> Renumbered(rows)[i].frame <= Renumbered(rows)[j].frame
  {
    var t := rows[i].track;
    TrackFramesMembers(rows, t);
    assert rows[j].frame in TrackFrames(rows, t);
    if rows[i].frame <= rows[j].frame {
      CountLeMonotone(TrackFrames(rows, t), rows[i].frame, rows[j].frame);
    }
  }

  /** When track `t` repeats no frame, no two of its rows share a new
      frame. */
  lemma RemapInjective(rows: seq<Row>, t: real)
    requires NoRepeatedFrames(rows, t)
    ensures forall i, j :: 0 <= i < j < |rows| && rows[i].track == t && rows[j].track == t
              ==> Renumbered(rows)[i].frame != Renumbered(rows)[j].frame
  {
    forall i, j | 0 <= i < j < |rows| && rows[i].track == t && rows[j].track == t
      ensures Renumbered(rows)[i].frame != Renumbered(rows)[j].frame
    {
      NewFrameMonotone(rows, i, j);
      NewFrameMonotone(rows, j, i);
    }
  }

  /** When track `t` repeats no frame, every value of 1..K, K the number of
      retained rows of track `t`, is the new frame of some row of that track;
      with `RemapInjective` the new frames are exactly 1..K. */
  lemma RemapOnto(rows: seq<Row>, t: real)
    requires NoRepeatedFrames(rows, t)
    ensures forall v :: v in OneTo(|TrackFrames(rows, t)|)
              ==> exists i :: 0 <= i < |rows| && rows[i].track == t && Renumbered(rows)[i].frame == v
  {
    var out := Renumbered(rows);
    var tf := TrackFrames(rows, t);
    TrackFramesDistinct(rows, t);
    TrackFramesMembers(rows, t);
    RanksCoverRange(tf);
    forall v | v in OneTo(|tf|)
      ensures exists i :: 0 <= i < |rows| && rows[i].track == t && out[i].frame == v
    {
      var m :| 0 <= m < |tf| && CountLe(tf, tf[m]) as real == v;
      assert tf[m] in tf;
      var i :| 0 <= i < |rows| && rows[i].track == t && rows[i].frame == tf[m];
      assert out[i].frame == v;
    }
  }

  /** Lines 30-39: for each distinct track, zip the ascending frames of that
      track with 1, 2, 3, ... and store each pair under `(frame, track)`.
      The finished map has one key per retained `(frame, track)` pair and
      holds the new frame `NewFrame` for it. */
  method BuildRemap(rows: seq<Row>) returns (remap: map<(real, real), nat>)
    ensures remap.Keys == KeySet(rows)
    ensures forall key :: key in remap ==> remap[key] == NewFrame(rows, key.0, key.1)
  {
    var tracks := UniqueSorted(TrackColumn(rows));
    remap := map[];
    var i := 0;
    while i < |tracks|
      invariant 0 <= i <= |tracks|
      invariant RemapCovers(rows, tracks[..i], remap)
    {
      var t := tracks[i];
      var trackFrames := TrackFrames(rows, t);
      var sortedFrames := SortAsc(trackFrames);
      assert forall key :: key in remap ==> key.1 != t by {
        forall key | key in remap ensures key.1 != t {
          var p :| 0 <= p < i && tracks[p] == key.1;
        }
      }
      ghost var before := remap;
      remap := NumberTrack(remap, t, sortedFrames);
      NumberTrackStep(rows, tracks, i, before, remap, sortedFrames);
      i := i + 1;
    }
    assert tracks[..i] == tracks;
    RemapKeys(rows, tracks, remap);
  }

  /** The map holds exactly the keys of the tracks in `done`, each with its
      new frame. */
  ghost predicate RemapCovers(rows: seq<Row>, done: seq<real>, remap: map<(real, real), nat>)
  {
    (forall key :: key in remap <==> key.1 in done && key.0 in TrackFrames(rows, key.1)) &&
    (forall key :: key in remap ==> remap[key] == NewFrame(rows, key.0, key.1))
  }

  /** One pass of the loop over tracks (lines 33-39) extends `RemapCovers`
      by the track it handles. */
  lemma NumberTrackStep(rows: seq<Row>, tracks: seq<real>, i: nat, before: map<(real, real), nat>,
                        after: map<(real, real), nat>, sortedFrames: seq<real>)
    requires i < |tracks|
    requires multiset(sortedFrames) == multiset(TrackFrames(rows, tracks[i]))
    requires RemapCovers(rows, tracks[..i], before)
    requires forall key :: key in after <==> key in before || (key.1 == tracks[i] && key.0 in sortedFrames)
    requires forall key :: key in before ==> after[key] == before[key]
    requires forall f :: f in sortedFrames ==> after[(f, tracks[i])] == CountLe(sortedFrames, f)
    ensures RemapCovers(rows, tracks[..i + 1], after)
  {
    var t := tracks[i];
    assert tracks[..i + 1] == tracks[..i] + [t];
    forall key | key in after ensures after[key] == NewFrame(rows, key.0, key.1) {
      if key !in before {
        CountLePermutation(sortedFrames, TrackFrames(rows, t), key.0);
      }
    }
    forall key ensures key in after <==> key.1 in tracks[..i + 1] && key.0 in TrackFrames(rows, key.1) {
      assert key.0 in multiset(sortedFrames) <==> key.0 in multiset(TrackFrames(rows, t));
    }
  }

  /** The loop at lines 38-39 for one track `t`: assign 1, 2, 3, ... to the
      ascending frames in turn, a later assignment overwriting an earlier one
      for a repeated frame. Each frame ends with its count of frames at most
      it; the entries of other tracks are left alone. */
  method NumberTrack(remap0: map<(real, real), nat>, t: real, sortedFrames: seq<real>)
    returns (remap: map<(real, real), nat>)
    requires Ascending(sortedFrames)
    requires forall key :: key in remap0 ==> key.1 != t
    ensures forall key :: key in remap <==> key in remap0 || (key.1 == t && key.0 in sortedFrames)
    ensures forall key :: key in remap0 ==> remap[key] == remap0[key]
    ensures forall f :: f in sortedFrames ==> remap[(f, t)] == CountLe(sortedFrames, f)
  {
    remap := remap0;
    var j := 0;
    while j < |sortedFrames|
      invariant 0 <= j <= |sortedFrames|
      invariant forall key :: key in remap <==> key in remap0 || (key.1 == t && key.0 in sortedFrames[..j])
      invariant forall key :: key in remap0 ==> remap[key] == remap0[key]
      invariant forall f :: f in sortedFrames[..j] ==> remap[(f, t)] == CountLe(sortedFrames[..j], f)
    {
      var f0 := sortedFrames[j];
      assert sortedFrames[..j + 1] == sortedFrames[..j] + [f0];
      assert sortedFrames[..j + 1][..j] == sortedFrames[..j];
      forall f | f in sortedFrames[..j] && f != f0
        ensures CountLe(sortedFrames[..j + 1], f) == CountLe(sortedFrames[..j], f)
      {
        var p :| 0 <= p < j && sortedFrames[p] == f;
      }
      CountLeAll(sortedFrames[..j + 1], f0);
      remap := remap[(f0, t) := j + 1];
      j := j + 1;
    }
    assert sortedFrames[..j] == sortedFrames;
  }

  /** Once every distinct track has been processed, the keys are exactly the
      `(frame, track)` pairs of the table. */
  lemma RemapKeys(rows: seq<Row>, tracks: seq<real>, remap: map<(real, real), nat>)
    requires forall y :: y in tracks <==> y in TrackColumn(rows)
    requires RemapCovers(rows, tracks, remap)
    ensures remap.Keys == KeySet(rows)
    ensures forall key :: key in remap ==> remap[key] == NewFrame(rows, key.0, key.1)
  {
    forall key | key in KeySet(rows) ensures key.1 in tracks && key.0 in TrackFrames(rows, key.1) {
      TrackFramesMembers(rows, key.1);
      var r :| r in rows && KeyOf(r) == key;
      var p :| 0 <= p < |rows| && rows[p] == r;
      assert TrackColumn(rows)[p] == key.1;
      assert rows[p].track == key.1 && rows[p].frame == key.0;
    }
    forall key: (real, real) | key.0 in TrackFrames(rows, key.1) ensures key in KeySet(rows) {
      TrackFramesMembers(rows, key.1);
      var p :| 0 <= p < |rows| && rows[p].track == key.1 && rows[p].frame == key.0;
      assert KeyOf(rows[p]) == key && rows[p] in rows;
    }
  }

  /** Lines 42-45: rewrite column 0 of every row with the dictionary entry
      for the row's own `(frame, track)` key; no other column and no other
      row changes. */
  method RenumberInPlace(a: array<Row>, remap: map<(real, real), nat>)
    requires forall i :: 0 <= i < a.Length ==> KeyOf(a[i]) in remap
    modifies a
    ensures forall i :: 0 <= i < a.Length ==> a[i] == old(a[i]).(frame := remap[KeyOf(old(a[i]))] as real)
  {
    for i := 0 to a.Length
      invariant forall k :: 0 <= k < i ==> a[k] == old(a[k]).(frame := remap[KeyOf(old(a[k]))] as real)
      invariant forall k :: i <= k < a.Length ==> a[k] == old(a[k])
    {
      var oldFrame := a[i].frame;
      var trackId := a[i].track;
      a[i] := a[i].(frame := remap[(oldFrame, trackId)] as real);
    }
  }
}
