/** Sequence operations the valuation code takes from Python's builtins:
    `sum`, list comprehensions with a condition, the stable `sorted` with a
    key, `list.index`, and `min`/`max` over a list of floats.
 */
module Seqs {
  import opened Wrappers

  /** No element occurs twice: the head is not in the tail, and so on down
      the list. */
  predicate Distinct<T(==)>(s: seq<T>) {
    |s| == 0 || (s[0] !in s[1..] && Distinct(s[1..]))
  }

  /** Two positions of a distinct sequence hold different elements. */
  lemma {:induction false} DistinctAt<T>(s: seq<T>, i: nat, j: nat)
    requires Distinct(s) && i < j < |s|
    ensures s[i] != s[j]
  {
    if i == 0 {
      assert s[j] == s[1..][j - 1];
    } else {
      DistinctAt(s[1..], i - 1, j - 1);
    }
  }

  /** A sequence whose positions hold pairwise different elements is
      distinct. */
  lemma {:induction false} DistinctFrom<T>(s: seq<T>)
    requires forall i, j :: 0 <= i < j < |s| ==> s[i] != s[j]
    ensures Distinct(s)
  {
    if |s| > 0 {
      var t := s[1..];
      assert forall k :: 0 <= k < |t| ==> t[k] == s[k + 1];
      DistinctFrom(t);
    }
  }

  /** A distinct sequence with an element appended: the front is distinct
      and does not hold that element. */
  lemma {:induction false} DistinctInit<T>(s: seq<T>, x: T)
    requires Distinct(s + [x])
    ensures Distinct(s) && x !in s
  {
    if |s| > 0 {
      assert (s + [x])[1..] == s[1..] + [x];
      DistinctInit(s[1..], x);
    }
  }

  /** Appending a new element keeps a sequence distinct. */
  lemma {:induction false} DistinctAppend<T>(s: seq<T>, x: T)
    requires Distinct(s) && x !in s
    ensures Distinct(s + [x])
  {
    if |s| > 0 {
      assert (s + [x])[1..] == s[1..] + [x];
      DistinctAppend(s[1..], x);
    }
  }

  /** Python's `sum` over a list of floats. */
  function Sum(s: seq<real>): real
  {
    if |s| == 0 then 0.0 else s[0] + Sum(s[1..])
  }

  lemma {:induction false} SumAppend(a: seq<real>, b: seq<real>)
    ensures Sum(a + b) == Sum(a) + Sum(b)
  {
    if |a| == 0 {
      assert a + b == b;
    } else {
      assert (a + b)[1..] == a[1..] + b;
      SumAppend(a[1..], b);
    }
  }

  /** Changing one element changes the sum by exactly the difference. */
  lemma {:induction false} SumUpdate(s: seq<real>, i: nat, v: real)
    requires i < |s|
    ensures Sum(s[i := v]) == Sum(s) - s[i] + v
  {
    if i == 0 {
      assert s[i := v][1..] == s[1..];
    } else {
      assert s[i := v][1..] == s[1..][i - 1 := v];
      SumUpdate(s[1..], i - 1, v);
    }
  }

  lemma {:induction false} SumNonNegative(s: seq<real>)
    requires forall i :: 0 <= i < |s| ==> s[i] >= 0.0
    ensures Sum(s) >= 0.0
  {
    if |s| > 0 {
      SumNonNegative(s[1..]);
    }
  }

  /** Every element divided by `t`, as in `[v / t for v in s]`. */
  function DivideEach(s: seq<real>, t: real): (r: seq<real>)
    requires t != 0.0
    ensures |r| == |s|
    ensures forall i :: 0 <= i < |s| ==> r[i] * t == s[i]
  {
    if |s| == 0 then [] else [s[0] / t] + DivideEach(s[1..], t)
  }

  /** Dividing every element by `t` divides the sum by `t`. */
  lemma {:induction false} SumDivideEach(s: seq<real>, t: real)
    requires t != 0.0
    ensures Sum(DivideEach(s, t)) * t == Sum(s)
  {
    if |s| > 0 {
      SumDivideEach(s[1..], t);
      var r := DivideEach(s, t);
      assert r[1..] == DivideEach(s[1..], t);
      assert Sum(r) * t == r[0] * t + Sum(r[1..]) * t;
    }
  }

  /** The order-preserving sublist `[x for x in s if p(x)]`. */
  function Filter<T>(p: T -> bool, s: seq<T>): (r: seq<T>)
    ensures |r| <= |s|
  {
    if |s| == 0 then []
    else if p(s[0]) then [s[0]] + Filter(p, s[1..])
    else Filter(p, s[1..])
  }

  /** The filter keeps exactly the elements that satisfy `p`. */
  lemma {:induction false} FilterMembers<T>(p: T -> bool, s: seq<T>)
    ensures forall i :: 0 <= i < |Filter(p, s)| ==> Filter(p, s)[i] in s && p(Filter(p, s)[i])
    ensures forall i :: 0 <= i < |s| && p(s[i]) ==> s[i] in Filter(p, s)
  {
    if |s| > 0 {
      FilterMembers(p, s[1..]);
      var r := Filter(p, s);
      var rest := Filter(p, s[1..]);
      assert forall k :: 0 <= k < |s| - 1 ==> s[1..][k] == s[k + 1];
      if p(s[0]) {
        assert forall k :: 0 <= k < |rest| ==> r[k + 1] == rest[k];
      }
    }
  }

  /** Filtering distributes over concatenation; together with the one-element
      case this pins the filter down as order preserving. */
  lemma {:induction false} FilterAppend<T>(p: T -> bool, a: seq<T>, b: seq<T>)
    ensures Filter(p, a + b) == Filter(p, a) + Filter(p, b)
  {
    if |a| == 0 {
      assert a + b == b;
    } else {
      assert (a + b)[1..] == a[1..] + b;
      FilterAppend(p, a[1..], b);
    }
  }

  /** Two filters applied one after the other commute. */
  lemma {:induction false} FilterCommutes<T>(p: T -> bool, q: T -> bool, s: seq<T>)
    ensures Filter(p, Filter(q, s)) == Filter(q, Filter(p, s))
  {
    if |s| > 0 {
      FilterCommutes(p, q, s[1..]);
    }
  }

  /** Filtering twice by the same predicate changes nothing further. */
  lemma {:induction false} FilterIdempotent<T>(p: T -> bool, s: seq<T>)
    ensures Filter(p, Filter(p, s)) == Filter(p, s)
  {
    if |s| > 0 {
      FilterIdempotent(p, s[1..]);
    }
  }

  /** A narrower filter applied after a wider one gives what the narrower
      filter alone gives. */
  lemma {:induction false} FilterNarrower<T>(p: T -> bool, q: T -> bool, s: seq<T>)
    requires forall x :: p(x) ==> q(x)
    ensures Filter(p, Filter(q, s)) == Filter(p, s)
  {
    if |s| > 0 {
      FilterNarrower(p, q, s[1..]);
    }
  }

  /** Number of elements satisfying `p`. */
  function Count<T>(p: T -> bool, s: seq<T>): nat
  {
    if |s| == 0 then 0 else (if p(s[0]) then 1 else 0) + Count(p, s[1..])
  }

  lemma {:induction false} FilterLength<T>(p: T -> bool, s: seq<T>)
    ensures |Filter(p, s)| == Count(p, s)
  {
    if |s| > 0 {
      FilterLength(p, s[1..]);
    }
  }

  /** Partitioning a list of amounts by a predicate and its complement
      preserves its sum. */
  lemma {:induction false} SumPartition<T>(p: T -> bool, q: T -> bool, amount: T -> real, s: seq<T>)
    requires forall x :: q(x) == !p(x)
    ensures SumOf(amount, Filter(p, s)) + SumOf(amount, Filter(q, s)) == SumOf(amount, s)
  {
    if |s| > 0 {
      SumPartition(p, q, amount, s[1..]);
    }
  }

  /** `sum(f(x) for x in s)`. */
  function SumOf<T>(f: T -> real, s: seq<T>): real
  {
    if |s| == 0 then 0.0 else f(s[0]) + SumOf(f, s[1..])
  }

  lemma {:induction false} SumOfNonNegative<T>(f: T -> real, s: seq<T>)
    requires forall i :: 0 <= i < |s| ==> f(s[i]) >= 0.0
    ensures SumOf(f, s) >= 0.0
  {
    if |s| > 0 {
      SumOfNonNegative(f, s[1..]);
    }
  }

  // ---------------------------------------------------------------------
  // Stable sort by key (Python's `sorted(s, key=key)`)
  // ---------------------------------------------------------------------

  predicate SortedBy<T>(key: T -> real, s: seq<T>)
  {
    forall i, j :: 0 <= i < j < |s| ==> key(s[i]) <= key(s[j])
  }

  /** Inserts `x` in front of the first element whose key is not smaller,
      so that `x` precedes the equal-keyed elements that came after it. */
  function Insert<T>(key: T -> real, x: T, s: seq<T>): (r: seq<T>)
    ensures |r| == |s| + 1
  {
    if |s| == 0 then [x]
    else if key(x) <= key(s[0]) then [x] + s
    else [s[0]] + Insert(key, x, s[1..])
  }

  /** Insertion adds `x` and nothing else. */
  lemma {:induction false} InsertPermutes<T>(key: T -> real, x: T, s: seq<T>)
    ensures multiset(Insert(key, x, s)) == multiset(s) + multiset{x}
  {
    if |s| > 0 && key(x) > key(s[0]) {
      InsertPermutes(key, x, s[1..]);
      assert s == [s[0]] + s[1..];
    }
  }

  /** Insertion into a sorted sequence keeps it sorted. */
  lemma {:induction false} InsertSorted<T>(key: T -> real, x: T, s: seq<T>)
    requires SortedBy(key, s)
    ensures SortedBy(key, Insert(key, x, s))
  {
    if |s| > 0 && key(x) > key(s[0]) {
      var rest := Insert(key, x, s[1..]);
      InsertSorted(key, x, s[1..]);
      InsertPermutes(key, x, s[1..]);
      assert s == [s[0]] + s[1..];
      forall i | 0 <= i < |rest|
        ensures key(s[0]) <= key(rest[i])
      {
        assert rest[i] in multiset(rest);
        if rest[i] != x {
          assert rest[i] in multiset(s[1..]);
          var j :| 0 <= j < |s[1..]| && s[1..][j] == rest[i];
          assert key(s[0]) <= key(s[j + 1]);
        }
      }
      var r := Insert(key, x, s);
      assert forall i :: 0 <= i < |rest| ==> r[i + 1] == rest[i];
    }
  }

  /** Python's stable `sorted(s, key=key)`, as an insertion sort. */
  function SortBy<T>(key: T -> real, s: seq<T>): (r: seq<T>)
    ensures |r| == |s|
  {
    if |s| == 0 then [] else Insert(key, s[0], SortBy(key, s[1..]))
  }

  /** The sort only reorders. */
  lemma {:induction false} SortByPermutes<T>(key: T -> real, s: seq<T>)
    ensures multiset(SortBy(key, s)) == multiset(s)
  {
    if |s| > 0 {
      SortByPermutes(key, s[1..]);
      InsertPermutes(key, s[0], SortBy(key, s[1..]));
      assert s == [s[0]] + s[1..];
    }
  }

  /** The sort's result is ordered by key. */
  lemma {:induction false} SortBySorted<T>(key: T -> real, s: seq<T>)
    ensures SortedBy(key, SortBy(key, s))
  {
    if |s| > 0 {
      SortBySorted(key, s[1..]);
      InsertSorted(key, s[0], SortBy(key, s[1..]));
    }
  }

  lemma {:induction false} InsertStable<T>(key: T -> real, x: T, s: seq<T>, p: T -> bool, k: real)
    requires forall y :: p(y) == (key(y) == k)
    ensures Filter(p, Insert(key, x, s)) == (if key(x) == k then [x] else []) + Filter(p, s)
  {
    if |s| > 0 && key(x) > key(s[0]) {
      InsertStable(key, x, s[1..], p, k);
      assert Insert(key, x, s)[1..] == Insert(key, x, s[1..]);
    }
  }

  /** Stability: among elements with equal keys (those `p` picks out) the
      input order is kept. */
  lemma {:induction false} SortByStable<T>(key: T -> real, s: seq<T>, p: T -> bool, k: real)
    requires forall y :: p(y) == (key(y) == k)
    ensures Filter(p, SortBy(key, s)) == Filter(p, s)
  {
    if |s| > 0 {
      SortByStable(key, s[1..], p, k);
      InsertStable(key, s[0], SortBy(key, s[1..]), p, k);
    }
  }

  // ---------------------------------------------------------------------
  // Searching and extrema
  // ---------------------------------------------------------------------

  /** `s.index(x)`, with `None` for the `ValueError` of a missing value. */
  function IndexOf<T(==)>(s: seq<T>, x: T): (r: Option<nat>)
    ensures r.Some? ==> r.value < |s| && s[r.value] == x
    ensures r.Some? ==> forall j :: 0 <= j < r.value ==> s[j] != x
    ensures r.None? <==> x !in s
  {
    if |s| == 0 then None
    else if s[0] == x then Some(0)
    else
      match IndexOf(s[1..], x)
      case None => None
      case Some(i) => Some(i + 1)
  }

  /** Python's `min` over a non-empty list of floats: keeps the running value
      and replaces it by a later element only when that one is smaller. */
  function MinOf(s: seq<real>): (r: real)
    requires |s| > 0
    ensures r in s
    ensures forall i :: 0 <= i < |s| ==> r <= s[i]
  {
    if |s| == 1 then s[0]
    else
      var m := MinOf(s[..|s| - 1]);
      assert forall i :: 0 <= i < |s| - 1 ==> s[..|s| - 1][i] == s[i];
      if s[|s| - 1] < m then s[|s| - 1] else m
  }

  /** Python's `max` over a non-empty list of floats. */
  function MaxOf(s: seq<real>): (r: real)
    requires |s| > 0
    ensures r in s
    ensures forall i :: 0 <= i < |s| ==> s[i] <= r
  {
    if |s| == 1 then s[0]
    else
      var m := MaxOf(s[..|s| - 1]);
      assert forall i :: 0 <= i < |s| - 1 ==> s[..|s| - 1][i] == s[i];
      if s[|s| - 1] > m then s[|s| - 1] else m
  }
}
