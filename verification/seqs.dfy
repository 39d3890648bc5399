/** Sequence operations of JavaScript arrays that the blog layer relies
    on (`filter`, `slice`, insertion-ordered `Map` keys), with the facts
    about them that the queries are proved from. */
module Seqs {

  /** `Array.prototype.filter`. */
  function Filter<T>(s: seq<T>, f: T -> bool): (r: seq<T>)
    ensures |r| <= |s|
    ensures forall x :: x in r ==> x in s && f(x)
  {
    if s == [] then [] else (if f(s[0]) then [s[0]] else []) + Filter(s[1..], f)
  }

  /** `a` is `b` with some elements removed, order kept. */
  ghost predicate IsSubseq<T>(a: seq<T>, b: seq<T>)
    decreases |b|
  {
    if a == [] then true
    else if b == [] then false
    else (a[0] == b[0] && IsSubseq(a[1..], b[1..])) || IsSubseq(a, b[1..])
  }

  lemma {:induction false} FilterIsSubseq<T>(s: seq<T>, f: T -> bool)
    ensures IsSubseq(Filter(s, f), s)
  {
    if s != [] {
      FilterIsSubseq(s[1..], f);
      if f(s[0]) {
        assert Filter(s, f)[1..] == Filter(s[1..], f);
      } else {
        assert Filter(s, f) == Filter(s[1..], f);
      }
    }
  }

  /** A filter keeps every element that passes, as often as it occurs, and
      no other. */
  lemma {:induction false} FilterCount<T>(s: seq<T>, f: T -> bool)
    ensures forall x :: multiset(Filter(s, f))[x] == if f(x) then multiset(s)[x] else 0
  {
    if s != [] {
      FilterCount(s[1..], f);
      assert s == [s[0]] + s[1..];
    }
  }

  lemma {:induction false} FilterConcat<T>(a: seq<T>, b: seq<T>, f: T -> bool)
    ensures Filter(a + b, f) == Filter(a, f) + Filter(b, f)
  {
    if a != [] {
      assert (a + b)[1..] == a[1..] + b;
      FilterConcat(a[1..], b, f);
    } else {
      assert a + b == b;
    }
  }

  /** Filtering with a predicate every element passes changes nothing. */
  lemma {:induction false} FilterAll<T>(s: seq<T>, f: T -> bool)
    requires forall x :: x in s ==> f(x)
    ensures Filter(s, f) == s
  {
    if s != [] { FilterAll(s[1..], f); }
  }

  /** Filtering with a predicate no element passes leaves nothing. */
  lemma {:induction false} FilterNone<T>(s: seq<T>, f: T -> bool)
    requires forall x :: x in s ==> !f(x)
    ensures Filter(s, f) == []
  {
    if s != [] { FilterNone(s[1..], f); }
  }

  /** Every element that passes is kept. */
  lemma FilterKeeps<T>(s: seq<T>, f: T -> bool, x: T)
    requires x in s && f(x)
    ensures x in Filter(s, f)
  {
    FilterCount(s, f);
    assert multiset(Filter(s, f))[x] > 0;
  }

  /** Filters with predicates that agree on the elements coincide. */
  lemma {:induction false} FilterSame<T>(s: seq<T>, f: T -> bool, g: T -> bool)
    requires forall x :: x in s ==> f(x) == g(x)
    ensures Filter(s, f) == Filter(s, g)
  {
    if s != [] { FilterSame(s[1..], f, g); }
  }

  /** Two filters in a row are one filter by the conjunction. */
  lemma {:induction false} FilterFilter<T>(s: seq<T>, f: T -> bool, g: T -> bool, h: T -> bool)
    requires forall x :: h(x) == (f(x) && g(x))
    ensures Filter(Filter(s, f), g) == Filter(s, h)
  {
    if s != [] {
      FilterFilter(s[1..], f, g, h);
      var rest := Filter(s[1..], f);
      if f(s[0]) {
        var fs := [s[0]] + rest;
        assert Filter(s, f) == fs;
        assert fs[0] == s[0] && fs[1..] == rest;
        assert Filter(fs, g) == (if g(s[0]) then [s[0]] else []) + Filter(rest, g);
      } else {
        assert Filter(s, f) == rest;
      }
      assert Filter(s, h) == (if h(s[0]) then [s[0]] else []) + Filter(s[1..], h);
    }
  }

  /** The index an argument of `slice` denotes: a negative one counts back
      from the end, and both are clamped to the array. */
  function JsIndex(len: nat, k: int): (r: nat)
    ensures r <= len
    ensures 0 <= k ==> r == if k < len then k else len
    ensures k < 0 ==> r == if len + k < 0 then 0 else len + k
  {
    if k < 0 then (if len + k < 0 then 0 else len + k)
    else if k < len then k else len
  }

  /** `Array.prototype.slice(start, end)`. */
  function JsSlice<T>(s: seq<T>, start: int, end: int): (r: seq<T>)
    ensures |r| == if JsIndex(|s|, start) < JsIndex(|s|, end) then JsIndex(|s|, end) - JsIndex(|s|, start) else 0
    ensures forall i :: 0 <= i < |r| ==> r[i] == s[JsIndex(|s|, start) + i]
  {
    var lo, hi := JsIndex(|s|, start), JsIndex(|s|, end);
    if lo < hi then s[lo..hi] else []
  }

  predicate NoDuplicates<T(==)>(s: seq<T>) {
    forall i, j :: 0 <= i < j < |s| ==> s[i] != s[j]
  }

  /** Position of the first occurrence of `x` in `s` (`indexOf`). */
  function IndexOf<T(==)>(s: seq<T>, x: T): (k: nat)
    requires x in s
    ensures k < |s| && s[k] == x && x !in s[..k]
  {
    if s[0] == x then 0 else 1 + IndexOf(s[1..], x)
  }

  lemma {:induction false} IndexOfSnoc<T>(s: seq<T>, y: T, x: T)
    requires x in s
    ensures IndexOf(s + [y], x) == IndexOf(s, x)
  {
    if s[0] != x {
      assert (s + [y])[1..] == s[1..] + [y];
      IndexOfSnoc(s[1..], y, x);
    }
  }

  /** The keys of a JavaScript `Map` filled from `s` by `set`: each value
      once, where it first occurs, in order of first occurrence. */
  function Distinct<T(==,!new)>(s: seq<T>): (r: seq<T>)
    ensures forall x :: x in r <==> x in s
    ensures NoDuplicates(r)
  {
    if s == [] then []
    else
      var d := Distinct(s[..|s| - 1]);
      assert s == s[..|s| - 1] + [s[|s| - 1]];
      if s[|s| - 1] in d then d else d + [s[|s| - 1]]
  }

  lemma DistinctSnoc<T(!new)>(s: seq<T>, y: T)
    ensures Distinct(s + [y]) == if y in s then Distinct(s) else Distinct(s) + [y]
  {
    assert (s + [y])[..|s|] == s;
  }

  /** `Distinct` lists the values in the order of their first occurrence. */
  lemma {:induction false} DistinctInFirstOccurrenceOrder<T(!new)>(s: seq<T>)
    ensures forall i, j :: 0 <= i < j < |Distinct(s)| ==>
      IndexOf(s, Distinct(s)[i]) < IndexOf(s, Distinct(s)[j])
  {
    if s != [] {
      var init, y := s[..|s| - 1], s[|s| - 1];
      assert s == init + [y];
      DistinctInFirstOccurrenceOrder(init);
      var d := Distinct(init);
      forall x | x in init ensures IndexOf(s, x) == IndexOf(init, x) {
        IndexOfSnoc(init, y, x);
      }
      if y !in d {
        assert IndexOf(s, y) == |init| by {
          assert y !in init;
          assert s[|init|] == y;
          assert s[..|init|] == init;
        }
      }
    }
  }

  /** Sum, over `keys`, of how often each key occurs in `s`. */
  function SumCounts<T(==)>(keys: seq<T>, s: seq<T>): nat
  {
    if keys == [] then 0 else multiset(s)[keys[0]] + SumCounts(keys[1..], s)
  }

  lemma {:induction false} SumCountsSnocValue<T>(keys: seq<T>, s: seq<T>, y: T)
    requires NoDuplicates(keys)
    ensures SumCounts(keys, s + [y]) == SumCounts(keys, s) + if y in keys then 1 else 0
  {
    if keys != [] {
      assert multiset(s + [y]) == multiset(s) + multiset{y};
      SumCountsSnocValue(keys[1..], s, y);
      assert y in keys <==> y == keys[0] || y in keys[1..];
    }
  }

  lemma {:induction false} SumCountsSnocKey<T>(keys: seq<T>, k: T, s: seq<T>)
    ensures SumCounts(keys + [k], s) == SumCounts(keys, s) + multiset(s)[k]
  {
    if keys != [] {
      assert (keys + [k])[1..] == keys[1..] + [k];
      SumCountsSnocKey(keys[1..], k, s);
    } else {
      assert keys + [k] == [k];
    }
  }

  /** Every element of `s` is counted once under its own key. */
  lemma {:induction false} DistinctCountsSum<T(!new)>(s: seq<T>)
    ensures SumCounts(Distinct(s), s) == |s|
  {
    if s != [] {
      var init, y := s[..|s| - 1], s[|s| - 1];
      assert s == init + [y];
      DistinctCountsSum(init);
      var d := Distinct(init);
      SumCountsSnocValue(d, init, y);
      if y !in d {
        SumCountsSnocKey(d, y, s);
        assert multiset(init)[y] == 0;
        assert multiset(s) == multiset(init) + multiset{y};
      }
    }
  }
}
