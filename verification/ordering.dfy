/** Sorting, de-duplication and counting over sequences of numbers: the
    meaning given here to Python's `sorted` and numpy's `np.unique`. */
module Ordering {

  ghost predicate Ascending(s: seq<real>)
  {
    forall i, j :: 0 <= i < j < |s| ==> s[i] <= s[j]
  }

  ghost predicate StrictlyAscending(s: seq<real>)
  {
    forall i, j :: 0 <= i < j < |s| ==> s[i] < s[j]
  }

  ghost predicate Distinct<T>(s: seq<T>)
  {
    forall i, j :: 0 <= i < j < |s| ==> s[i] != s[j]
  }

  /** Inserts `x` into an ascending sequence, keeping it ascending. */
  function InsertAsc(x: real, s: seq<real>): (r: seq<real>)
    requires Ascending(s)
    ensures Ascending(r)
    ensures multiset(r) == multiset(s) + multiset{x}
  {
    if s == [] || x <= s[0] then [x] + s
    else
      var rest := InsertAsc(x, s[1..]);
      LowerBoundOfInsert(x, s, rest);
      assert s == [s[0]] + s[1..];
      [s[0]] + rest
  }

  lemma LowerBoundOfInsert(x: real, s: seq<real>, rest: seq<real>)
    requires Ascending(s) && s != [] && s[0] < x
    requires multiset(rest) == multiset(s[1..]) + multiset{x}
    ensures forall k :: 0 <= k < |rest| ==> s[0] <= rest[k]
  {
    forall k | 0 <= k < |rest| ensures s[0] <= rest[k] {
      assert rest[k] in multiset(rest);
      if rest[k] != x {
        assert rest[k] in multiset(s[1..]);
        var i :| 0 <= i < |s[1..]| && s[1..][i] == rest[k];
        assert s[i + 1] == rest[k];
      }
    }
  }

  /** Python's `sorted` on a list of numbers: an ascending permutation. */
  function SortAsc(xs: seq<real>): (r: seq<real>)
    ensures Ascending(r)
    ensures multiset(r) == multiset(xs)
  {
    if xs == [] then []
    else
      assert xs == [xs[0]] + xs[1..];
      InsertAsc(xs[0], SortAsc(xs[1..]))
  }

  /** Inserts `x` into a strictly ascending sequence unless it is already there. */
  function InsertUnique(x: real, s: seq<real>): (r: seq<real>)
    requires StrictlyAscending(s)
    ensures StrictlyAscending(r)
    ensures forall y :: y in r <==> y in s || y == x
  {
    if s == [] || x < s[0] then [x] + s
    else if x == s[0] then s
    else
      var rest := InsertUnique(x, s[1..]);
      assert forall k :: 0 <= k < |rest| ==> s[0] < rest[k] by {
        forall k | 0 <= k < |rest| ensures s[0] < rest[k] {
          assert rest[k] in rest;
        }
      }
      [s[0]] + rest
  }

  /** numpy's `np.unique` on one column: the distinct values, ascending. */
  function UniqueSorted(xs: seq<real>): (r: seq<real>)
    ensures StrictlyAscending(r)
    ensures forall y :: y in r <==> y in xs
  {
    if xs == [] then [] else InsertUnique(xs[0], UniqueSorted(xs[1..]))
  }

  /** How many elements of `s` are at most `f`. */
  function CountLe(s: seq<real>, f: real): nat
  {
    if s == [] then 0
    else CountLe(s[..|s| - 1], f) + (if s[|s| - 1] <= f then 1 else 0)
  }

  lemma {:induction false} CountLeAppend(p: seq<real>, q: seq<real>, f: real)
    ensures CountLe(p + q, f) == CountLe(p, f) + CountLe(q, f)
    decreases |q|
  {
    if q == [] {
      assert p + q == p;
    } else {
      var q' := q[..|q| - 1];
      assert (p + q)[..|p + q| - 1] == p + q';
      CountLeAppend(p, q', f);
    }
  }

  /** The count depends only on the multiset of elements. */
  lemma {:induction false} CountLePermutation(a: seq<real>, b: seq<real>, f: real)
    requires multiset(a) == multiset(b)
    ensures CountLe(a, f) == CountLe(b, f)
    decreases |a|
  {
    if a == [] {
      assert |multiset(b)| == 0;
    } else {
      var x := a[|a| - 1];
      var a' := a[..|a| - 1];
      assert a == a' + [x];
      assert x in multiset(b);
      var i :| 0 <= i < |b| && b[i] == x;
      var b' := b[..i] + b[i + 1..];
      assert b == b[..i] + [x] + b[i + 1..];
      assert multiset(b) == multiset(b') + multiset{x};
      assert multiset(a) == multiset(a') + multiset{x};
      assert multiset(a') == multiset(a) - multiset{x};
      assert multiset(b') == multiset(b) - multiset{x};
      CountLePermutation(a', b', f);
      CountLeAppend(b[..i] + [x], b[i + 1..], f);
      CountLeAppend(b[..i], [x], f);
      CountLeAppend(b[..i], b[i + 1..], f);
      assert [x][..0] == [];
    }
  }

  lemma {:induction false} CountLeBounds(s: seq<real>, f: real)
    ensures CountLe(s, f) <= |s|
    ensures f in s ==> 1 <= CountLe(s, f)
    decreases |s|
  {
    if s != [] {
      var s' := s[..|s| - 1];
      assert s == s' + [s[|s| - 1]];
      CountLeBounds(s', f);
    }
  }

  /** Counting is monotone in the bound, strictly so when the larger bound
      is itself an element. */
  lemma {:induction false} CountLeMonotone(s: seq<real>, a: real, b: real)
    requires a <= b
    ensures CountLe(s, a) <= CountLe(s, b)
    ensures a < b && b in s ==> CountLe(s, a) < CountLe(s, b)
    decreases |s|
  {
    if s != [] {
      var s' := s[..|s| - 1];
      assert s == s' + [s[|s| - 1]];
      CountLeMonotone(s', a, b);
    }
  }

  /** When every element is at most `f`, all of them are counted. */
  lemma {:induction false} CountLeAll(s: seq<real>, f: real)
    requires forall k :: 0 <= k < |s| ==> s[k] <= f
    ensures CountLe(s, f) == |s|
    decreases |s|
  {
    if s != [] {
      CountLeAll(s[..|s| - 1], f);
    }
  }

  /** A sequence without repetitions has as many distinct elements as it is long. */
  lemma {:induction false} DistinctCard<T>(s: seq<T>)
    requires Distinct(s)
    ensures |set x | x in s| == |s|
    decreases |s|
  {
    if s != [] {
      var s' := s[..|s| - 1];
      var x := s[|s| - 1];
      assert s == s' + [x];
      DistinctCard(s');
      assert x !in s';
      assert (set y | y in s) == (set y | y in s') + {x};
    }
  }

  /** Pigeonhole: `n` distinct values taken from 1..n take every value of 1..n. */
  lemma Pigeonhole(s: seq<int>)
    requires Distinct(s)
    requires forall k :: 0 <= k < |s| ==> 1 <= s[k] <= |s|
    ensures forall k :: 1 <= k <= |s| ==> k in s
  {
    var n := |s|;
    var oneToN := seq(n, i requires 0 <= i < n => i + 1);
    var values := set x | x in s;
    var range := set x | x in oneToN;
    DistinctCard(s);
    DistinctCard(oneToN);
    assert values <= range by {
      forall x | x in values ensures x in range {
        assert oneToN[x - 1] == x;
      }
    }
    assert values * range == values;
    assert |range - values| == 0;
    forall k | 1 <= k <= n ensures k in s {
      assert oneToN[k - 1] == k;
      assert k in range;
      assert k !in range - values;
    }
  }

  /** In a strictly ascending sequence exactly `k` distinct elements lie
      below `u[k]`. */
  lemma CountBelowInStrictlyAscending(u: seq<real>, k: nat)
    requires StrictlyAscending(u)
    requires k < |u|
    ensures |set f | f in u && f < u[k]| == k
  {
    var below := u[..k];
    assert (set f | f in u && f < u[k]) == set f | f in below by {
      forall f | f in u && f < u[k] ensures f in below {
        var i :| 0 <= i < |u| && u[i] == f;
        assert i < k;
      }
    }
    DistinctCard(below);
  }

  /** In a strictly ascending sequence exactly `|u| - k - 1` distinct
      elements lie above `u[k]`, out of `|u|` distinct elements. */
  lemma CountAboveInStrictlyAscending(u: seq<real>, k: nat)
    requires StrictlyAscending(u)
    requires k < |u|
    ensures |set f | f in u && f > u[k]| == |u| - k - 1
    ensures |set f | f in u| == |u|
  {
    var above := u[k + 1..];
    assert (set f | f in u && f > u[k]) == set f | f in above by {
      forall f | f in u && f > u[k] ensures f in above {
        var i :| 0 <= i < |u| && u[i] == f;
        assert i > k;
      }
    }
    DistinctCard(above);
    DistinctCard(u);
  }

  /** The frame numbers 1, 2, ..., n. */
  function OneTo(n: nat): (s: seq<real>)
    ensures |s| == n
    ensures forall k :: 0 <= k < n ==> s[k] == (k + 1) as real
  {
    seq(n, k requires 0 <= k < n => (k + 1) as real)
  }

  /** In a sequence without repetitions, the ranks `CountLe(s, s[m])` of its
      elements take every value of 1..|s|. */
  lemma RanksCoverRange(s: seq<real>)
    requires Distinct(s)
    ensures forall v :: v in OneTo(|s|) ==> exists m :: 0 <= m < |s| && CountLe(s, s[m]) as real == v
  {
    var ranks := seq(|s|, m requires 0 <= m < |s| => CountLe(s, s[m]));
    forall m, n | 0 <= m < n < |ranks| ensures ranks[m] != ranks[n] {
      assert s[m] in s && s[n] in s;
      if s[m] < s[n] {
        CountLeMonotone(s, s[m], s[n]);
      } else {
        CountLeMonotone(s, s[n], s[m]);
      }
    }
    forall m | 0 <= m < |ranks| ensures 1 <= ranks[m] <= |ranks| {
      assert s[m] in s;
      CountLeBounds(s, s[m]);
    }
    Pigeonhole(ranks);
    forall v | v in OneTo(|s|) ensures exists m :: 0 <= m < |s| && CountLe(s, s[m]) as real == v {
      var k :| 0 <= k < |s| && OneTo(|s|)[k] == v;
      assert k + 1 in ranks;
      var m :| 0 <= m < |ranks| && ranks[m] == k + 1;
      assert CountLe(s, s[m]) as real == v;
    }
  }
}
