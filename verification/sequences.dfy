/** Order-preserving selection on sequences: the relation "is a
    subsequence of", used to state that a selection keeps document order
    or input order. */
module Sequences {
  import opened Wrappers

  /** `a` can be obtained from `b` by deleting elements (order kept). */
  predicate IsSubsequence<T(==)>(a: seq<T>, b: seq<T>)
    decreases |b|
  {
    |a| == 0 || (|b| > 0 && ((a[0] == b[0] && IsSubsequence(a[1..], b[1..])) || IsSubsequence(a, b[1..])))
  }

  /** Elements added in front of the larger sequence do not matter. */
  lemma {:induction false} SubsequenceExtendLeft<T>(a: seq<T>, c: seq<T>, b: seq<T>)
    requires IsSubsequence(a, b)
    ensures IsSubsequence(a, c + b)
    decreases |c|
  {
    if |c| > 0 && |a| > 0 {
      SubsequenceExtendLeft(a, c[1..], b);
      assert (c + b)[1..] == c[1..] + b;
    } else if |c| == 0 {
      assert c + b == b;
    }
  }

  /** Subsequences of consecutive parts combine into a subsequence of the whole. */
  lemma {:induction false} SubsequenceConcat<T>(a1: seq<T>, b1: seq<T>, a2: seq<T>, b2: seq<T>)
    requires IsSubsequence(a1, b1) && IsSubsequence(a2, b2)
    ensures IsSubsequence(a1 + a2, b1 + b2)
    decreases |b1|
  {
    if |a1| == 0 {
      assert a1 + a2 == a2;
      SubsequenceExtendLeft(a2, b1, b2);
    } else {
      assert (b1 + b2)[1..] == b1[1..] + b2;
      if a1[0] == b1[0] && IsSubsequence(a1[1..], b1[1..]) {
        SubsequenceConcat(a1[1..], b1[1..], a2, b2);
        assert (a1 + a2)[1..] == a1[1..] + a2;
      } else {
        SubsequenceConcat(a1, b1[1..], a2, b2);
      }
    }
  }

  /** Applies `f` to each element in order and keeps the present results:
      the shape of a loop that skips the items it cannot convert. */
  function FilterMap<A, B>(xs: seq<A>, f: A -> Option<B>): (r: seq<B>)
    ensures |r| <= |xs|
  {
    if |xs| == 0 then []
    else (if f(xs[0]).Some? then [f(xs[0]).value] else []) + FilterMap(xs[1..], f)
  }

  /** `FilterMap` distributes over concatenation. */
  lemma {:induction false} FilterMapAppend<A, B>(a: seq<A>, b: seq<A>, f: A -> Option<B>)
    ensures FilterMap(a + b, f) == FilterMap(a, f) + FilterMap(b, f)
  {
    if |a| > 0 {
      assert (a + b)[1..] == a[1..] + b;
      FilterMapAppend(a[1..], b, f);
    } else {
      assert a + b == b;
    }
  }

  /** Every index moved one position to the right. */
  function Shift(idx: seq<nat>): (r: seq<nat>)
    ensures |r| == |idx|
    ensures forall k :: 0 <= k < |idx| ==> r[k] == idx[k] + 1
  {
    if |idx| == 0 then [] else [idx[0] + 1] + Shift(idx[1..])
  }

  /** The positions of `xs` that `f` converts, in increasing order. */
  function Convertible<A, B>(xs: seq<A>, f: A -> Option<B>): seq<nat> {
    if |xs| == 0 then []
    else (if f(xs[0]).Some? then [0] else []) + Shift(Convertible(xs[1..], f))
  }

  lemma {:induction false} ConvertibleYields<A, B>(xs: seq<A>, f: A -> Option<B>)
    ensures |Convertible(xs, f)| == |FilterMap(xs, f)|
    ensures forall k :: 0 <= k < |Convertible(xs, f)| ==>
      Convertible(xs, f)[k] < |xs| && f(xs[Convertible(xs, f)[k]]) == Some(FilterMap(xs, f)[k])
  {
    if |xs| > 0 {
      ConvertibleYields(xs[1..], f);
      var rest, tail := Convertible(xs[1..], f), FilterMap(xs[1..], f);
      var shifted := Shift(rest);
      forall k | 0 <= k < |rest|
        ensures shifted[k] < |xs| && f(xs[shifted[k]]) == Some(tail[k])
      {
        assert xs[shifted[k]] == xs[1..][rest[k]];
      }
      var idx := Convertible(xs, f);
      var head: seq<B> := if f(xs[0]).Some? then [f(xs[0]).value] else [];
      assert FilterMap(xs, f) == head + tail;
      forall k | 0 <= k < |idx|
        ensures idx[k] < |xs| && f(xs[idx[k]]) == Some(FilterMap(xs, f)[k])
      {
        if f(xs[0]).Some? && k > 0 {
          assert idx[k] == shifted[k - 1];
          assert FilterMap(xs, f)[k] == tail[k - 1];
        }
      }
    }
  }

  lemma {:induction false} ConvertibleIncreasing<A, B>(xs: seq<A>, f: A -> Option<B>)
    ensures forall k, l :: 0 <= k < l < |Convertible(xs, f)| ==> Convertible(xs, f)[k] < Convertible(xs, f)[l]
  {
    if |xs| > 0 {
      ConvertibleIncreasing(xs[1..], f);
    }
  }

  lemma {:induction false} ConvertibleCovers<A, B>(xs: seq<A>, f: A -> Option<B>)
    ensures forall i :: 0 <= i < |xs| && f(xs[i]).Some? ==> i in Convertible(xs, f)
  {
    if |xs| > 0 {
      ConvertibleCovers(xs[1..], f);
      var rest := Convertible(xs[1..], f);
      var shifted := Shift(rest);
      var idx := Convertible(xs, f);
      forall i | 0 < i < |xs| && f(xs[i]).Some?
        ensures i in idx
      {
        var j: nat := i - 1;
        assert xs[1..][j] == xs[i];
        var k :| 0 <= k < |rest| && rest[k] == j;
        assert shifted[k] == i;
        assert f(xs[0]).Some? ==> idx[k + 1] == i;
      }
    }
  }

  /** `FilterMap` keeps one result per convertible element, in input order:
      its output is `f` applied to exactly the convertible positions, listed
      in increasing order. */
  lemma FilterMapEnumerates<A, B>(xs: seq<A>, f: A -> Option<B>) returns (idx: seq<nat>)
    ensures |idx| == |FilterMap(xs, f)|
    ensures forall k :: 0 <= k < |idx| ==> idx[k] < |xs| && f(xs[idx[k]]) == Some(FilterMap(xs, f)[k])
    ensures forall k, l :: 0 <= k < l < |idx| ==> idx[k] < idx[l]
    ensures forall i :: 0 <= i < |xs| && f(xs[i]).Some? ==> i in idx
  {
    idx := Convertible(xs, f);
    ConvertibleYields(xs, f);
    ConvertibleIncreasing(xs, f);
    ConvertibleCovers(xs, f);
  }
}
