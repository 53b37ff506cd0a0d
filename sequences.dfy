/** Sequence helpers shared by the stages of the pipeline: the order-preserving
    filter that Python's list-building loops and `filter` compute, the reversal
    that `[::-1]` computes, and occurrence counting. */
module Sequences {

  /** The elements of `s` that satisfy `P`, in their original order.
      Defined from the end, the way a loop that appends builds it. */
  function Keep<T(==)>(s: seq<T>, P: T -> bool): (r: seq<T>)
    ensures |r| <= |s|
    ensures forall x :: x in r ==> x in s && P(x)
  {
    if s == [] then []
    else
      var k := Keep(s[..|s| - 1], P);
      if P(s[|s| - 1]) then k + [s[|s| - 1]] else k
  }

  /** `s` read back to front: `s[::-1]`. */
  function Reversed<T(==)>(s: seq<T>): (r: seq<T>)
    ensures |r| == |s|
    ensures forall k :: 0 <= k < |s| ==> r[k] == s[|s| - 1 - k]
    ensures multiset(r) == multiset(s)
    ensures forall x :: x in r ==> x in s
    ensures forall x :: x in s ==> x in r
  {
    if s == [] then []
    else
      assert s == s[..|s| - 1] + [s[|s| - 1]];
      [s[|s| - 1]] + Reversed(s[..|s| - 1])
  }

  /** How many times `x` occurs in `s`. */
  function Count<T(==)>(s: seq<T>, x: T): nat
  {
    if s == [] then 0
    else Count(s[..|s| - 1], x) + (if s[|s| - 1] == x then 1 else 0)
  }

  /** No element of `s` occurs twice. */
  predicate Distinct<T(==)>(s: seq<T>)
  {
    forall i, j :: 0 <= i < j < |s| ==> s[i] != s[j]
  }

  /** `idx` lists, in increasing order, exactly the positions of `s` whose
      element satisfies `P`, and `r` holds the elements at those positions.
      This describes an order-preserving filter without computing it. */
  ghost predicate PicksPositions<T>(s: seq<T>, P: T -> bool, idx: seq<int>, r: seq<T>)
  {
    && |idx| == |r|
    && (forall k :: 0 <= k < |idx| ==> 0 <= idx[k] < |s| && r[k] == s[idx[k]])
    && (forall k1, k2 :: 0 <= k1 < k2 < |idx| ==> idx[k1] < idx[k2])
    && (forall i :: 0 <= i < |s| ==> (P(s[i]) <==> i in idx))
  }

  lemma {:induction false} KeepMembers<T>(s: seq<T>, P: T -> bool, x: T)
    ensures x in Keep(s, P) <==> x in s && P(x)
  {
    if s != [] {
      KeepMembers(s[..|s| - 1], P, x);
      assert s == s[..|s| - 1] + [s[|s| - 1]];
    }
  }

  /** Appending an element that satisfies `P` adds its position. */
  lemma PicksKept<T>(s: seq<T>, P: T -> bool, idx: seq<int>, r: seq<T>, x: T)
    requires PicksPositions(s, P, idx, r) && P(x)
    ensures PicksPositions(s + [x], P, idx + [|s|], r + [x])
  {
    var s', idx', r' := s + [x], idx + [|s|], r + [x];
    forall j | 0 <= j < |idx'| ensures 0 <= idx'[j] < |s'| && r'[j] == s'[idx'[j]] {
      if j < |idx| { assert idx'[j] == idx[j] && r'[j] == r[j] && s'[idx[j]] == s[idx[j]]; }
    }
    forall i | 0 <= i < |s'| ensures P(s'[i]) <==> i in idx' {
      assert i in idx' <==> i in idx || i == |s|;
      if i < |s| { assert s'[i] == s[i]; }
    }
  }

  /** Appending an element that fails `P` adds no position. */
  lemma PicksSkipped<T>(s: seq<T>, P: T -> bool, idx: seq<int>, r: seq<T>, x: T)
    requires PicksPositions(s, P, idx, r) && !P(x)
    ensures PicksPositions(s + [x], P, idx, r)
  {
    var s' := s + [x];
    forall j | 0 <= j < |idx| ensures 0 <= idx[j] < |s'| && r[j] == s'[idx[j]] {
      assert s'[idx[j]] == s[idx[j]];
    }
    forall i | 0 <= i < |s'| ensures P(s'[i]) <==> i in idx {
      if i < |s| { assert s'[i] == s[i]; } else { assert |s| !in idx; }
    }
  }

  /** Keep is the filter `PicksPositions` describes: it selects exactly the
      positions that satisfy `P`, in order. */
  lemma {:induction false} KeepPicksPositions<T>(s: seq<T>, P: T -> bool)
    ensures exists idx :: PicksPositions(s, P, idx, Keep(s, P))
  {
    if s == [] {
      assert PicksPositions(s, P, [], Keep(s, P));
    } else {
      var n := |s| - 1;
      var pre := s[..n];
      KeepPicksPositions(pre, P);
      var idx :| PicksPositions(pre, P, idx, Keep(pre, P));
      assert s == pre + [s[n]];
      if P(s[n]) {
        PicksKept(pre, P, idx, Keep(pre, P), s[n]);
        assert PicksPositions(s, P, idx + [n], Keep(s, P));
      } else {
        PicksSkipped(pre, P, idx, Keep(pre, P), s[n]);
        assert PicksPositions(s, P, idx, Keep(s, P));
      }
    }
  }

  /** Filtering twice with the same predicate changes nothing more. */
  lemma {:induction false} KeepIdempotent<T>(s: seq<T>, P: T -> bool)
    ensures Keep(Keep(s, P), P) == Keep(s, P)
  {
    if s != [] {
      var n := |s| - 1;
      var k := Keep(s[..n], P);
      KeepIdempotent(s[..n], P);
      if P(s[n]) {
        assert (k + [s[n]])[..|k|] == k;
      }
    }
  }

  /** Two predicates that agree on every element of `s` filter it alike. */
  lemma {:induction false} KeepCongruent<T>(s: seq<T>, P: T -> bool, Q: T -> bool)
    requires forall x :: x in s ==> P(x) == Q(x)
    ensures Keep(s, P) == Keep(s, Q)
  {
    if s != [] {
      var n := |s| - 1;
      assert forall x :: x in s[..n] ==> x in s;
      KeepCongruent(s[..n], P, Q);
      assert s[n] in s;
    }
  }

  /** Appending one element either appends it to the result or leaves the
      result alone. */
  lemma KeepSnoc<T>(s: seq<T>, P: T -> bool, x: T)
    ensures Keep(s + [x], P) == if P(x) then Keep(s, P) + [x] else Keep(s, P)
  {
    assert (s + [x])[..|s|] == s;
  }

  /** Filtering by a stronger predicate picks from the result of a weaker
      one: the stronger filter's result is a subsequence of the weaker's. */
  lemma {:induction false} KeepNested<T>(s: seq<T>, P: T -> bool, Q: T -> bool)
    requires forall x :: x in s && P(x) ==> Q(x)
    ensures Keep(s, P) == Keep(Keep(s, Q), P)
  {
    if s != [] {
      var n := |s| - 1;
      var pre, x := s[..n], s[n];
      assert forall y :: y in pre ==> y in s;
      KeepNested(pre, P, Q);
      assert x in s;
      if Q(x) {
        KeepSnoc(Keep(pre, Q), P, x);
      }
    }
  }

  lemma {:induction false} CountPositive<T>(s: seq<T>, x: T)
    ensures Count(s, x) > 0 <==> x in s
  {
    if s != [] {
      CountPositive(s[..|s| - 1], x);
      assert s == s[..|s| - 1] + [s[|s| - 1]];
    }
  }

  lemma {:induction false} CountConcat<T>(a: seq<T>, b: seq<T>, x: T)
    ensures Count(a + b, x) == Count(a, x) + Count(b, x)
    decreases |b|
  {
    if b != [] {
      var n := |b| - 1;
      assert (a + b)[..|a + b| - 1] == a + b[..n];
      CountConcat(a, b[..n], x);
    } else {
      assert a + b == a;
    }
  }

  /** In a sequence without repeats an element occurs at most once. */
  lemma {:induction false} CountDistinct<T>(s: seq<T>, x: T)
    requires Distinct(s)
    ensures Count(s, x) == if x in s then 1 else 0
  {
    if s != [] {
      var n := |s| - 1;
      assert Distinct(s[..n]);
      CountDistinct(s[..n], x);
      assert s == s[..n] + [s[n]];
      assert s[n] !in s[..n];
    }
  }
}
