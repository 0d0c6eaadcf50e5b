/** Averaging two ping times and ranking providers by the average; the
    same rules serve the interactive speed test and the background one. */
module Ranking {
  import opened Text

  /** A way of probing one address: a latency in milliseconds, or none. */
  type Pinger = string -> Option<real>

  /** The mean of the times that are present: `None` when neither is, the
      one that is when only one is, their half-sum when both are. */
  function AvgPing(primary: Option<real>, secondary: Option<real>): (r: Option<real>)
    ensures r.None? <==> primary.None? && secondary.None?
    ensures primary.Some? && secondary.Some? ==>
      r.value * 2.0 == primary.value + secondary.value
      && Min(primary.value, secondary.value) <= r.value <= Max(primary.value, secondary.value)
    ensures primary.Some? && secondary.None? ==> r == primary
    ensures primary.None? && secondary.Some? ==> r == secondary
  {
    match (primary, secondary)
    case (Some(p), Some(s)) => Some((p + s) / 2.0)
    case (Some(p), None) => Some(p)
    case (None, Some(s)) => Some(s)
    case (None, None) => None
  }

  function Min(a: real, b: real): real { if a <= b then a else b }
  function Max(a: real, b: real): real { if a <= b then b else a }

  function Sum(xs: seq<real>): real {
    if |xs| == 0 then 0.0 else Sum(xs[..|xs| - 1]) + xs[|xs| - 1]
  }

  /** The averaging step as the source writes it: push the times that are
      present into a list, then divide the list's sum by its length. */
  method AveragePing(primary: Option<real>, secondary: Option<real>) returns (avg: Option<real>)
    ensures avg == AvgPing(primary, secondary)
  {
    var pings: seq<real> := [];
    if primary.Some? {
      pings := pings + [primary.value];
    }
    if secondary.Some? {
      pings := pings + [secondary.value];
    }
    assert pings == Present(primary, secondary);
    MeanOfPresent(primary, secondary, pings);
    if |pings| > 0 {
      avg := Some(Sum(pings) / |pings| as real);
    } else {
      avg := None;
    }
  }

  /** The times that are present, primary first. */
  function Present(primary: Option<real>, secondary: Option<real>): seq<real> {
    (if primary.Some? then [primary.value] else []) + (if secondary.Some? then [secondary.value] else [])
  }

  lemma MeanOfPresent(primary: Option<real>, secondary: Option<real>, pings: seq<real>)
    requires pings == Present(primary, secondary)
    ensures |pings| == 0 <==> AvgPing(primary, secondary).None?
    ensures |pings| > 0 ==> AvgPing(primary, secondary) == Some(Sum(pings) / |pings| as real)
  {
    match (primary, secondary)
    case (Some(a), Some(b)) =>
      assert pings == [a, b] && pings[..1] == [a] && [a][..0] == [];
      var n := |pings| as real;
      assert n == 2.0;
      assert Sum(pings) == a + b;
      assert Sum(pings) / n == (a + b) / 2.0;
      assert AvgPing(primary, secondary) == Some((a + b) / 2.0);
    case (Some(a), None) =>
      assert pings == [a] && pings[..0] == [];
      assert Sum(pings) / |pings| as real == a / 1.0;
    case (None, Some(b)) =>
      assert pings == [b] && pings[..0] == [];
      assert Sum(pings) / |pings| as real == b / 1.0;
    case (None, None) =>
  }

  // ---- Ranking -----------------------------------------------------------------

  /** The comparator's "less": a present time before a larger one, and any
      present time before a missing one. */
  predicate Before(a: Option<real>, b: Option<real>) {
    (a.Some? && b.Some? && a.value < b.value) || (a.Some? && b.None?)
  }

  /** `Before` is a strict weak order: irreflexive, transitive, and
      "not after" is transitive too, so a stable sort by it is well defined. */
  lemma BeforeIsStrictWeakOrder(a: Option<real>, b: Option<real>, c: Option<real>)
    ensures !Before(a, a)
    ensures Before(a, b) ==> !Before(b, a)
    ensures Before(a, b) && Before(b, c) ==> Before(a, c)
    ensures !Before(a, b) && !Before(b, c) ==> !Before(a, c)
    ensures !Before(a, b) && !Before(b, a) <==> a == b
  {
  }

  /** Ordered by `key`: no element is strictly before one that precedes it. */
  predicate Sorted<T>(s: seq<T>, key: T -> Option<real>) {
    forall i, j :: 0 <= i < j < |s| ==> !Before(key(s[j]), key(s[i]))
  }

  /** Puts `x` into `s` after every element it is not strictly before. */
  function Insert<T>(x: T, s: seq<T>, key: T -> Option<real>): (r: seq<T>)
    ensures |r| == |s| + 1
  {
    if |s| == 0 then [x]
    else if Before(key(x), key(s[|s| - 1])) then Insert(x, s[..|s| - 1], key) + [s[|s| - 1]]
    else s + [x]
  }

  /** `sort_by` with the ranking comparator: a stable sort, written as
      insertion of each element, in order, into the sorted prefix. */
  function SortBy<T>(xs: seq<T>, key: T -> Option<real>): (r: seq<T>)
    ensures |r| == |xs|
  {
    if |xs| == 0 then [] else Insert(xs[|xs| - 1], SortBy(xs[..|xs| - 1], key), key)
  }

  lemma {:induction false} InsertElements<T>(x: T, s: seq<T>, key: T -> Option<real>)
    ensures multiset(Insert(x, s, key)) == multiset(s) + multiset{x}
  {
    if |s| > 0 && Before(key(x), key(s[|s| - 1])) {
      var p := s[..|s| - 1];
      InsertElements(x, p, key);
      assert s == p + [s[|s| - 1]];
    }
  }

  lemma {:induction false} InsertSorted<T>(x: T, s: seq<T>, key: T -> Option<real>)
    requires Sorted(s, key)
    ensures Sorted(Insert(x, s, key), key)
  {
    if |s| == 0 {
    } else {
      var last := s[|s| - 1];
      var p := s[..|s| - 1];
      if Before(key(x), key(last)) {
        InsertSorted(x, p, key);
        var q := Insert(x, p, key);
        InsertElements(x, p, key);
        forall i | 0 <= i < |q| ensures !Before(key(last), key(q[i])) {
          assert q[i] in multiset(q);
          if q[i] != x {
            assert q[i] in multiset(p);
            var k :| 0 <= k < |p| && p[k] == q[i];
            assert s[k] == p[k];
          } else {
            BeforeIsStrictWeakOrder(key(x), key(last), key(x));
          }
        }
        assert Insert(x, s, key) == q + [last];
      } else {
        forall i | 0 <= i < |s| ensures !Before(key(x), key(s[i])) {
          BeforeIsStrictWeakOrder(key(x), key(last), key(s[i]));
        }
      }
    }
  }

  /** The elements whose key is exactly `v`, in order. */
  function WithKey<T>(s: seq<T>, key: T -> Option<real>, v: Option<real>): seq<T> {
    if |s| == 0 then []
    else WithKey(s[..|s| - 1], key, v) + (if key(s[|s| - 1]) == v then [s[|s| - 1]] else [])
  }

  lemma {:induction false} InsertWithKey<T>(x: T, s: seq<T>, key: T -> Option<real>, v: Option<real>)
    ensures WithKey(Insert(x, s, key), key, v) == WithKey(s, key, v) + (if key(x) == v then [x] else [])
  {
    if |s| > 0 && Before(key(x), key(s[|s| - 1])) {
      var p := s[..|s| - 1];
      var last := s[|s| - 1];
      InsertWithKey(x, p, key, v);
      var q := Insert(x, p, key);
      assert (q + [last])[..|q|] == q;
      assert key(x) == v ==> key(last) != v;
    } else if |s| > 0 {
      assert (s + [x])[..|s|] == s;
    }
  }

  lemma {:induction false} SortByElements<T>(xs: seq<T>, key: T -> Option<real>)
    ensures multiset(SortBy(xs, key)) == multiset(xs)
  {
    if |xs| > 0 {
      var p := xs[..|xs| - 1];
      SortByElements(p, key);
      InsertElements(xs[|xs| - 1], SortBy(p, key), key);
      assert xs == p + [xs[|xs| - 1]];
    }
  }

  lemma {:induction false} SortBySorted<T>(xs: seq<T>, key: T -> Option<real>)
    ensures Sorted(SortBy(xs, key), key)
  {
    if |xs| > 0 {
      SortBySorted(xs[..|xs| - 1], key);
      InsertSorted(xs[|xs| - 1], SortBy(xs[..|xs| - 1], key), key);
    }
  }

  lemma {:induction false} SortByStable<T>(xs: seq<T>, key: T -> Option<real>, v: Option<real>)
    ensures WithKey(SortBy(xs, key), key, v) == WithKey(xs, key, v)
  {
    if |xs| > 0 {
      SortByStable(xs[..|xs| - 1], key, v);
      InsertWithKey(xs[|xs| - 1], SortBy(xs[..|xs| - 1], key), key, v);
    }
  }

  /** The ranking is ordered (every present time before every missing one,
      present times ascending), a permutation of its input, and stable:
      results with equal averages keep their original order. */
  lemma Ranked<T>(xs: seq<T>, key: T -> Option<real>)
    ensures Sorted(SortBy(xs, key), key)
    ensures multiset(SortBy(xs, key)) == multiset(xs)
    ensures forall v :: WithKey(SortBy(xs, key), key, v) == WithKey(xs, key, v)
  {
    SortBySorted(xs, key);
    SortByElements(xs, key);
    forall v ensures WithKey(SortBy(xs, key), key, v) == WithKey(xs, key, v) {
      SortByStable(xs, key, v);
    }
  }
}
