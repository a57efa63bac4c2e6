/** Sequence facts used throughout: ordering, `numpy.unique`, `numpy.where`, counting. */
module Seqs {

  /** Every element is strictly smaller than every later one (sorted, no duplicates). */
  predicate StrictlyIncreasing(s: seq<real>) {
    forall i, j :: 0 <= i < j < |s| ==> s[i] < s[j]
  }

  /** No value occurs twice. */
  predicate Distinct<T(==)>(s: seq<T>) {
    forall i, j :: 0 <= i < j < |s| ==> s[i] != s[j]
  }

  /** No entry is negative; the entity keys of a loaded file are such. */
  predicate NoneNegative(s: seq<int>) {
    forall k :: 0 <= k < |s| ==> 0 <= s[k]
  }

  /** The number of occurrences of `x` in `s`. */
  function Count<T(==)>(s: seq<T>, x: T): (n: nat)
    ensures n <= |s|
    ensures n == 0 <==> x !in s
  {
    if |s| == 0 then 0
    else Count(s[..|s| - 1], x) + (if s[|s| - 1] == x then 1 else 0)
  }

  /** Inserts `x` into a sorted duplicate-free sequence, keeping it sorted and duplicate-free. */
  function InsertSorted(x: real, s: seq<real>): (r: seq<real>)
    requires StrictlyIncreasing(s)
    ensures StrictlyIncreasing(r)
    ensures forall y :: y in r <==> y == x || y in s
  {
    if |s| == 0 then [x]
    else if x < s[0] then [x] + s
    else if x == s[0] then s
    else
      var rest := InsertSorted(x, s[1..]);
      BoundedBelow(s[0], x, s[1..], rest);
      [s[0]] + rest
  }

  /** Every element of a sequence drawn from `{x}` and a sequence above `lo` is above `lo`, when
      `x` is. */
  lemma BoundedBelow(lo: real, x: real, s: seq<real>, r: seq<real>)
    requires lo < x && (forall k :: 0 <= k < |s| ==> lo < s[k])
    requires forall y :: y in r ==> y == x || y in s
    ensures forall k :: 0 <= k < |r| ==> lo < r[k]
  {
    forall k | 0 <= k < |r| ensures lo < r[k] {
      assert r[k] in r;
    }
  }

  /** `numpy.unique`: the distinct values of `s`, in ascending order. */
  function Unique(s: seq<real>): (r: seq<real>)
    ensures StrictlyIncreasing(r)
    ensures forall y :: y in r <==> y in s
  {
    if |s| == 0 then []
    else InsertSorted(s[|s| - 1], Unique(s[..|s| - 1]))
  }

  /** A sorted duplicate-free sequence is determined by its elements, so `Unique` is the only
      possible answer: any sorted duplicate-free listing of the same values equals it. */
  lemma {:induction false} SortedListingIsUnique(a: seq<real>, b: seq<real>)
    requires StrictlyIncreasing(a) && StrictlyIncreasing(b)
    requires forall y :: y in a <==> y in b
    ensures a == b
    decreases |a|
  {
    assert |a| > 0 ==> a[0] in a;
    assert |b| > 0 ==> b[0] in b;
    if |a| != 0 {
      assert a[0] == b[0] by {
        assert a[0] in b && b[0] in a;
      }
      forall y | y in a[1..] ensures y in b[1..] {
        assert y in b && y != b[0];
      }
      forall y | y in b[1..] ensures y in a[1..] {
        assert y in a && y != a[0];
      }
      SortedListingIsUnique(a[1..], b[1..]);
      assert a == [a[0]] + a[1..] && b == [b[0]] + b[1..];
    }
  }

  /** `numpy.where(s == v)[0]`: the positions holding `v`, in ascending order. */
  function Where<T(==)>(s: seq<T>, v: T): (idx: seq<nat>)
    ensures forall k :: 0 <= k < |idx| ==> idx[k] < |s| && s[idx[k]] == v
    ensures forall i :: 0 <= i < |s| && s[i] == v ==> i in idx
    ensures forall k, l :: 0 <= k < l < |idx| ==> idx[k] < idx[l]
  {
    if |s| == 0 then []
    else
      var rest := Where(s[..|s| - 1], v);
      if s[|s| - 1] == v then rest + [|s| - 1] else rest
  }

  /** The number of positions `Where` reports is the number of occurrences. */
  lemma {:induction false} WhereCountsOccurrences<T>(s: seq<T>, v: T)
    ensures |Where(s, v)| == Count(s, v)
  {
    if |s| != 0 {
      WhereCountsOccurrences(s[..|s| - 1], v);
    }
  }

  /** In a duplicate-free sequence every member occurs exactly once. */
  lemma {:induction false} DistinctCountOne<T>(s: seq<T>, x: T)
    requires Distinct(s) && x in s
    ensures Count(s, x) == 1
  {
    var p := s[..|s| - 1];
    if s[|s| - 1] == x {
      forall i | 0 <= i < |p| ensures p[i] != x {
        assert p[i] == s[i];
      }
    } else {
      assert x in p;
      DistinctCountOne(p, x);
    }
  }

  /** The position of the first occurrence of `x` in `s`. */
  function IndexOf<T(==)>(s: seq<T>, x: T): (i: nat)
    requires x in s
    ensures i < |s| && s[i] == x
    ensures forall k :: 0 <= k < i ==> s[k] != x
  {
    if s[0] == x then 0 else 1 + IndexOf(s[1..], x)
  }

  /** The set `{0, ..., n - 1}`. */
  function Range(n: nat): (r: set<nat>)
    ensures forall j: int :: j in r <==> 0 <= j < n
    ensures |r| == n
  {
    if n == 0 then {} else Range(n - 1) + {n - 1}
  }

  /** A subset is no larger than its superset. */
  lemma SubsetCard<T>(a: set<T>, b: set<T>)
    requires a <= b
    ensures |a| <= |b|
  {
    assert b == a + (b - a);
  }

  /** The image of a set under a map that is injective on it has the size of the set. */
  lemma {:induction false} InjectiveImageCard(s: set<nat>, f: seq<nat>)
    requires forall j :: j in s ==> j < |f|
    requires forall j, k :: j in s && k in s && j != k ==> f[j] != f[k]
    ensures |set j | j in s :: f[j]| == |s|
    decreases |s|
  {
    if s != {} {
      var x :| x in s;
      var s' := s - {x};
      InjectiveImageCard(s', f);
      assert (set j | j in s :: f[j]) == (set j | j in s' :: f[j]) + {f[x]};
      assert f[x] !in (set j | j in s' :: f[j]);
    }
  }
}
