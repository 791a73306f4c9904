/** The reordering at lines 48-49 of gen_val_half_gt.py:
    `np.lexsort((frame, track))`, a stable sort whose primary key is the
    track id and whose secondary key is the (new) frame number. */
module TrackSort {
  import opened GtRows

  /** The lexicographic order on (track, frame). */
  predicate KeyLe(a: Row, b: Row)
  {
    a.track < b.track || (a.track == b.track && a.frame <= b.frame)
  }

  ghost predicate SortedByTrackThenFrame(s: seq<Row>)
  {
    forall i, j :: 0 <= i < j < |s| ==> KeyLe(s[i], s[j])
  }

  /** Inserts `x` before the first row whose key is not below it, so that `x`
      precedes every row with the same key. */
  function InsertByKey(x: Row, s: seq<Row>): (r: seq<Row>)
    requires SortedByTrackThenFrame(s)
    ensures SortedByTrackThenFrame(r)
    ensures multiset(r) == multiset(s) + multiset{x}
  {
    if s == [] || KeyLe(x, s[0]) then [x] + s
    else
      var rest := InsertByKey(x, s[1..]);
      HeadBelowInsert(x, s, rest);
      assert s == [s[0]] + s[1..];
      [s[0]] + rest
  }

  lemma HeadBelowInsert(x: Row, s: seq<Row>, rest: seq<Row>)
    requires SortedByTrackThenFrame(s) && s != [] && !KeyLe(x, s[0])
    requires multiset(rest) == multiset(s[1..]) + multiset{x}
    ensures forall k :: 0 <= k < |rest| ==> KeyLe(s[0], rest[k])
  {
    forall k | 0 <= k < |rest| ensures KeyLe(s[0], rest[k]) {
      assert rest[k] in multiset(rest);
      if rest[k] != x {
        assert rest[k] in multiset(s[1..]);
        var i :| 0 <= i < |s[1..]| && s[1..][i] == rest[k];
        assert s[i + 1] == rest[k];
      }
    }
  }

  /** `last_half_data[np.lexsort((last_half_data[:, 0], last_half_data[:, 1]))]`:
      the rows ordered by track id, then by frame, as a permutation of the input. */
  function LexSort(s: seq<Row>): (r: seq<Row>)
    ensures SortedByTrackThenFrame(r)
    ensures multiset(r) == multiset(s)
  {
    if s == [] then []
    else
      assert s == [s[0]] + s[1..];
      InsertByKey(s[0], LexSort(s[1..]))
  }

  lemma {:induction false} InsertByKeyStable(x: Row, s: seq<Row>, t: real, f: real)
    requires SortedByTrackThenFrame(s)
    ensures WithKey(InsertByKey(x, s), t, f)
            == (if x.track == t && x.frame == f then [x] else []) + WithKey(s, t, f)
    decreases |s|
  {
    var r := InsertByKey(x, s);
    if s == [] || KeyLe(x, s[0]) {
      assert r[1..] == s;
    } else {
      var rest := InsertByKey(x, s[1..]);
      assert r == [s[0]] + rest && r[1..] == rest;
      assert SortedByTrackThenFrame(s[1..]);
      InsertByKeyStable(x, s[1..], t, f);
      var hit := if x.track == t && x.frame == f then [x] else [];
      assert WithKey(rest, t, f) == hit + WithKey(s[1..], t, f);
      if x.track == t && x.frame == f {
        assert !(s[0].track == t && s[0].frame == f);
        assert WithKey(r, t, f) == WithKey(rest, t, f);
        assert WithKey(s, t, f) == WithKey(s[1..], t, f);
      } else {
        assert hit + WithKey(s[1..], t, f) == WithKey(s[1..], t, f);
      }
    }
  }

  /** The sort is stable: for every (track, frame) key, the rows carrying it
      appear in the output in the same relative order as in the input. */
  lemma {:induction false} LexSortStable(s: seq<Row>, t: real, f: real)
    ensures WithKey(LexSort(s), t, f) == WithKey(s, t, f)
    decreases |s|
  {
    if s != [] {
      LexSortStable(s[1..], t, f);
      InsertByKeyStable(s[0], LexSort(s[1..]), t, f);
    }
  }
}
