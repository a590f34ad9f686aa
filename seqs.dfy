/** Sequence helpers shared by the models: the filtering list comprehension
    `[x for x in s if p(x)]`, and first-occurrence search. */
module Seqs {

  /** `[x for x in s if p(x)]`: the elements of `s` that satisfy `p`, in order. */
  function Filter<T>(p: T -> bool, s: seq<T>): (r: seq<T>)
    ensures |r| <= |s|
    ensures forall x :: x in r ==> x in s && p(x)
    ensures forall x :: x in s && p(x) ==> x in r
    decreases |s|
  {
    if |s| == 0 then []
    else (if p(s[0]) then [s[0]] else []) + Filter(p, s[1..])
  }

  /** Filtering distributes over concatenation; with `FilterSingleton` this
      pins `Filter` down completely: kept elements stay in their order. */
  lemma {:induction false} FilterAppend<T>(p: T -> bool, a: seq<T>, b: seq<T>)
    ensures Filter(p, a + b) == Filter(p, a) + Filter(p, b)
    decreases |a|
  {
    if |a| == 0 {
      assert a + b == b;
    } else {
      assert (a + b)[1..] == a[1..] + b;
      FilterAppend(p, a[1..], b);
    }
  }

  lemma FilterSingleton<T>(p: T -> bool, x: T)
    ensures Filter(p, [x]) == if p(x) then [x] else []
  {
    assert [x][1..] == [];
  }

  /** Filtering keeps every element exactly when every element satisfies `p`. */
  lemma {:induction false} FilterKeepsAll<T>(p: T -> bool, s: seq<T>)
    ensures Filter(p, s) == s <==> forall i :: 0 <= i < |s| ==> p(s[i])
    decreases |s|
  {
    if |s| > 0 {
      FilterKeepsAll(p, s[1..]);
      if !p(s[0]) {
        assert |Filter(p, s)| < |s|;
      } else {
        assert Filter(p, s) == [s[0]] + Filter(p, s[1..]);
        forall i | 0 <= i < |s[1..]| ensures s[1..][i] == s[i + 1] { }
      }
    }
  }

  /** Of three elements, a middle one failing `p` is the only one dropped. */
  lemma FilterDropsMiddle<T>(p: T -> bool, a: T, b: T, c: T)
    requires p(a) && !p(b) && p(c)
    ensures Filter(p, [a, b, c]) == [a, c]
  {
    assert [a, b, c][1..] == [b, c];
    assert [b, c][1..] == [c];
    assert [c][1..] == [];
  }

  /** A property of each of three elements, stated over their sequence. This
      and `EveryOfTwo` keep `p` uninterpreted while the quantifier is built,
      which keeps the worked examples cheap to verify. */
  lemma EveryOfThree<T>(p: T -> bool, a: T, b: T, c: T)
    requires p(a) && p(b) && p(c)
    ensures forall i :: 0 <= i < |[a, b, c]| ==> p([a, b, c][i])
  {
  }

  lemma EveryOfTwo<T>(p: T -> bool, a: T, b: T)
    requires p(a) && p(b)
    ensures forall i :: 0 <= i < |[a, b]| ==> p([a, b][i])
  {
  }

  /** Index of the first occurrence of `x` in `s`. */
  function FirstIndex<T(==)>(s: seq<T>, x: T): (k: nat)
    requires x in s
    ensures k < |s| && s[k] == x
    ensures forall j :: 0 <= j < k ==> s[j] != x
    decreases |s|
  {
    if s[0] == x then 0 else 1 + FirstIndex(s[1..], x)
  }

  /** A first occurrence inside a prefix is the first occurrence in the whole. */
  lemma FirstIndexPrefix<T>(s: seq<T>, n: nat, x: T)
    requires n <= |s| && x in s[..n]
    ensures x in s && FirstIndex(s[..n], x) == FirstIndex(s, x)
  {
    var i1, i2 := FirstIndex(s[..n], x), FirstIndex(s, x);
    assert s[i1] == x;
    assert i2 <= i1;
    assert s[..n][i2] == x;
  }

  /** `Array.from(new Set(s))`: every element once, in insertion order, so
      an element seen again later is not moved. */
  function Distinct<T(==,!new)>(s: seq<T>): (r: seq<T>)
    ensures forall x :: x in r <==> x in s
    ensures forall i, j :: 0 <= i < j < |r| ==> r[i] != r[j]
    decreases |s|
  {
    if |s| == 0 then []
    else
      var d := Distinct(s[..|s| - 1]);
      assert forall x :: x in s <==> x in s[..|s| - 1] || x == s[|s| - 1] by {
        assert s == s[..|s| - 1] + [s[|s| - 1]];
      }
      if s[|s| - 1] in d then d else d + [s[|s| - 1]]
  }

  /** The elements of `Distinct(s)` are in the order of their first occurrence in `s`. */
  lemma {:induction false} DistinctOrder<T(!new)>(s: seq<T>, i: nat, j: nat)
    requires i < j < |Distinct(s)|
    ensures FirstIndex(s, Distinct(s)[i]) < FirstIndex(s, Distinct(s)[j])
    decreases |s|
  {
    var n := |s| - 1;
    var p := s[..n];
    var d := Distinct(p);
    var x, y := Distinct(s)[i], Distinct(s)[j];
    assert x == d[i];
    FirstIndexPrefix(s, n, x);
    if j < |d| {
      assert y == d[j];
      FirstIndexPrefix(s, n, y);
      DistinctOrder(p, i, j);
    } else {
      assert y == s[n] && y !in p;
    }
  }

  /** Filtering more never keeps more. */
  lemma {:induction false} FilterOfFilterShorter<T>(p: T -> bool, q: T -> bool, s: seq<T>)
    ensures |Filter(q, Filter(p, s))| <= |Filter(q, s)|
    decreases |s|
  {
    if |s| > 0 {
      FilterOfFilterShorter(p, q, s[1..]);
      var head := if p(s[0]) then [s[0]] else [];
      FilterAppend(q, head, Filter(p, s[1..]));
      if p(s[0]) { FilterSingleton(q, s[0]); }
    }
  }
}
