/** Finite counting facts: the pigeonhole principle on integer sequences.
    A table over a finite alphabet that loses no information must also
    miss nothing; this module supplies the counting argument. */
module Counting {

  predicate NoDuplicates<T(==)>(s: seq<T>) {
    forall i, j :: 0 <= i < j < |s| ==> s[i] != s[j]
  }

  lemma AppendFresh<T>(s: seq<T>, x: T)
    requires NoDuplicates(s)
    requires x !in s
    ensures NoDuplicates(s + [x])
  {
  }

  /** The set `{0, ..., n - 1}`. */
  function Range(n: nat): (r: set<int>)
    ensures forall k :: k in r <==> 0 <= k < n
  {
    if n == 0 then {} else Range(n - 1) + {n - 1}
  }

  function Elements<T>(s: seq<T>): set<T> {
    set x | x in s
  }

  lemma {:induction false} RangeCardinality(n: nat)
    ensures |Range(n)| == n
  {
    if n > 0 {
      RangeCardinality(n - 1);
    }
  }

  /** A sequence without repetitions has as many distinct elements as entries. */
  lemma {:induction false} ElementsCardinality<T>(s: seq<T>)
    requires NoDuplicates(s)
    ensures |Elements(s)| == |s|
  {
    if |s| > 0 {
      var init := s[..|s| - 1];
      assert NoDuplicates(init);
      ElementsCardinality(init);
      assert Elements(s) == Elements(init) + {s[|s| - 1]};
      assert s[|s| - 1] !in Elements(init);
    }
  }

  /** Pigeonhole: `n` distinct values drawn from `0..n` cover all of `0..n`. */
  lemma Pigeonhole(s: seq<int>, n: nat)
    requires |s| == n
    requires NoDuplicates(s)
    requires forall k :: 0 <= k < |s| ==> 0 <= s[k] < n
    ensures forall v :: 0 <= v < n ==> v in s
  {
    ElementsCardinality(s);
    RangeCardinality(n);
    assert Elements(s) <= Range(n);
    assert |Range(n) - Elements(s)| == |Range(n)| - |Elements(s)| == 0;
    assert Range(n) - Elements(s) == {};
    forall v | 0 <= v < n
      ensures v in s
    {
      assert v in Range(n);
    }
  }
}
