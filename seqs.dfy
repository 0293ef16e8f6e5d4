/** Order-preserving selection and element-wise mapping over sequences: the
    comprehensions `[f(x) for x in s]` and `[x for x in s if p(x)]`. */
module Seqs {

  /** `[f(x) for x in s]`. */
  function Map<A, B>(f: A -> B, s: seq<A>): (r: seq<B>)
    ensures |r| == |s|
    ensures forall i :: 0 <= i < |s| ==> r[i] == f(s[i])
  {
    seq(|s|, i requires 0 <= i < |s| => f(s[i]))
  }

  lemma MapSnoc<A, B>(f: A -> B, s: seq<A>, x: A)
    ensures Map(f, s + [x]) == Map(f, s) + [f(x)]
  {
    assert forall i :: 0 <= i < |s| + 1 ==> Map(f, s + [x])[i] == (Map(f, s) + [f(x)])[i];
  }

  /** `[x for x in s if p(x)]`, defined from the last element so that a loop
      appending to a list follows it step by step. */
  function Filter<T>(s: seq<T>, p: T -> bool): (r: seq<T>)
    ensures |r| <= |s|
  {
    if s == [] then []
    else Filter(s[..|s| - 1], p) + (if p(s[|s| - 1]) then [s[|s| - 1]] else [])
  }

  /** The positions of `s` that `Filter` keeps, in increasing order. */
  function Kept<T>(s: seq<T>, p: T -> bool): seq<nat>
  {
    if s == [] then []
    else Kept(s[..|s| - 1], p) + (if p(s[|s| - 1]) then [|s| - 1] else [])
  }

  lemma FilterSnoc<T>(s: seq<T>, x: T, p: T -> bool)
    ensures Filter(s + [x], p) == Filter(s, p) + (if p(x) then [x] else [])
  {
    assert (s + [x])[..|s + [x]| - 1] == s;
  }

  /** `Filter` keeps exactly the elements that satisfy `p`, each one once,
      in their original order: its result is `s` read at the positions
      `Kept(s, p)`, which increase strictly and are exactly the positions
      whose element satisfies `p`. */
  lemma {:induction false} FilterSelects<T>(s: seq<T>, p: T -> bool)
    ensures |Kept(s, p)| == |Filter(s, p)|
    ensures forall k :: 0 <= k < |Kept(s, p)| ==>
      Kept(s, p)[k] < |s| && Filter(s, p)[k] == s[Kept(s, p)[k]]
    ensures forall k1, k2 :: 0 <= k1 < k2 < |Kept(s, p)| ==> Kept(s, p)[k1] < Kept(s, p)[k2]
    ensures forall i :: 0 <= i < |s| ==> (p(s[i]) <==> i in Kept(s, p))
  {
    if s != [] {
      var init := s[..|s| - 1];
      FilterSelects(init, p);
      assert forall i :: 0 <= i < |init| ==> init[i] == s[i];
      assert forall k :: 0 <= k < |Kept(init, p)| ==> Kept(init, p)[k] < |s| - 1;
    }
  }

  /** An element is kept exactly when it occurs in `s` and satisfies `p`. */
  lemma {:induction false} FilterMember<T>(s: seq<T>, p: T -> bool, x: T)
    ensures x in Filter(s, p) <==> x in s && p(x)
  {
    if s != [] {
      var init := s[..|s| - 1];
      FilterMember(init, p, x);
      assert s == init + [s[|s| - 1]];
    }
  }

  /** When no element satisfies `p`, nothing is kept. */
  lemma {:induction false} FilterNone<T>(s: seq<T>, p: T -> bool)
    requires forall x :: x in s ==> !p(x)
    ensures Filter(s, p) == []
  {
    if s != [] {
      var init := s[..|s| - 1];
      assert forall x :: x in init ==> x in s;
      FilterNone(init, p);
      assert s[|s| - 1] in s;
    }
  }

  /** An element of `s` that fails `p` makes the result strictly shorter. */
  lemma {:induction false} FilterDrops<T>(s: seq<T>, p: T -> bool, x: T)
    requires x in s && !p(x)
    ensures |Filter(s, p)| < |s|
  {
    var init := s[..|s| - 1];
    if s[|s| - 1] != x {
      assert s == init + [s[|s| - 1]];
      assert x in init;
      FilterDrops(init, p, x);
    }
  }

  lemma {:induction false} MapConcat<A, B>(f: A -> B, s: seq<A>, t: seq<A>)
    ensures Map(f, s + t) == Map(f, s) + Map(f, t)
  {
    assert forall i :: 0 <= i < |s + t| ==> Map(f, s + t)[i] == (Map(f, s) + Map(f, t))[i];
  }

  lemma {:induction false} FilterConcat<T>(s: seq<T>, t: seq<T>, p: T -> bool)
    ensures Filter(s + t, p) == Filter(s, p) + Filter(t, p)
  {
    if t == [] {
      assert s + t == s;
    } else {
      var init := t[..|t| - 1];
      assert s + t == (s + init) + [t[|t| - 1]];
      assert t == init + [t[|t| - 1]];
      FilterSnoc(s + init, t[|t| - 1], p);
      FilterSnoc(init, t[|t| - 1], p);
      FilterConcat(s, init, p);
    }
  }

  /** Where the last element of `s` sits in a rearrangement `t`, and what
      is left of `t` without it. */
  lemma PickOccurrence<T>(s: seq<T>, t: seq<T>) returns (i: nat)
    requires s != [] && multiset(s) == multiset(t)
    ensures i < |t| && t[i] == s[|s| - 1]
    ensures multiset(s[..|s| - 1]) == multiset(t[..i] + t[i + 1..])
  {
    var x := s[|s| - 1];
    var init := s[..|s| - 1];
    assert s == init + [x];
    assert x in multiset(t);
    i :| 0 <= i < |t| && t[i] == x;
    assert t == t[..i] + [x] + t[i + 1..];
    assert multiset(t) == multiset(t[..i]) + multiset{x} + multiset(t[i + 1..]);
    assert multiset(init) == multiset(s) - multiset{x};
  }

  /** Filtering `t` is filtering `t` without element `i`, plus that element
      when it passes. */
  lemma FilterWithout<T>(a: seq<T>, x: T, b: seq<T>, p: T -> bool)
    ensures multiset(Filter(a + [x] + b, p)) ==
      multiset(Filter(a + b, p)) + (if p(x) then multiset{x} else multiset{})
  {
    FilterAround(a, x, b, p);
    FilterConcat(a, b, p);
  }

  lemma FilterAround<T>(a: seq<T>, x: T, b: seq<T>, p: T -> bool)
    ensures Filter(a + [x] + b, p) == Filter(a, p) + (if p(x) then [x] else []) + Filter(b, p)
  {
    FilterConcat(a + [x], b, p);
    FilterSnoc(a, x, p);
  }

  /** Mapping `t` is mapping `t` without element `i`, plus its image. */
  lemma MapWithout<A, B>(f: A -> B, t: seq<A>, i: nat)
    requires i < |t|
    ensures multiset(Map(f, t)) == multiset(Map(f, t[..i] + t[i + 1..])) + multiset{f(t[i])}
  {
    assert t == t[..i] + [t[i]] + t[i + 1..];
    MapConcat(f, t[..i] + [t[i]], t[i + 1..]);
    MapSnoc(f, t[..i], t[i]);
    MapConcat(f, t[..i], t[i + 1..]);
  }

  /** Filtering a rearrangement gives a rearrangement of the filtered
      sequence. */
  lemma {:induction false} FilterPermutation<T>(s: seq<T>, t: seq<T>, p: T -> bool)
    requires multiset(s) == multiset(t)
    ensures multiset(Filter(s, p)) == multiset(Filter(t, p))
    decreases |s|
  {
    if s != [] {
      var init, x := s[..|s| - 1], s[|s| - 1];
      var i := PickOccurrence(s, t);
      FilterPermutation(init, t[..i] + t[i + 1..], p);
      assert s == init + [x];
      FilterSnoc(init, x, p);
      assert t == t[..i] + [x] + t[i + 1..];
      FilterWithout(t[..i], x, t[i + 1..], p);
    }
  }

  /** Mapping a rearrangement gives a rearrangement of the mapped sequence. */
  lemma {:induction false} MapPermutation<A, B>(f: A -> B, s: seq<A>, t: seq<A>)
    requires multiset(s) == multiset(t)
    ensures multiset(Map(f, s)) == multiset(Map(f, t))
    decreases |s|
  {
    if s != [] {
      var init, x := s[..|s| - 1], s[|s| - 1];
      var i := PickOccurrence(s, t);
      MapPermutation(f, init, t[..i] + t[i + 1..]);
      assert s == init + [x];
      MapSnoc(f, init, x);
      MapWithout(f, t, i);
    }
  }

  /** A second filter by a stronger condition makes the first one redundant. */
  lemma {:induction false} FilterImplied<T>(s: seq<T>, p: T -> bool, q: T -> bool)
    requires forall x :: q(x) ==> p(x)
    ensures Filter(Filter(s, p), q) == Filter(s, q)
  {
    if s != [] {
      var init := s[..|s| - 1];
      var x := s[|s| - 1];
      FilterImplied(init, p, q);
      assert Filter(s, q) == Filter(init, q) + (if q(x) then [x] else []);
      if p(x) {
        assert Filter(s, p) == Filter(init, p) + [x];
        FilterSnoc(Filter(init, p), x, q);
      } else {
        assert Filter(s, p) == Filter(init, p);
      }
    }
  }
}
