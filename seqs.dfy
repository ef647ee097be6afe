/** Generic sequence operations: order-preserving filtering, index selection, flattening. */
module Seqs {

  /** The elements of `s` that satisfy `p`, in their original order. */
  function Filter<T>(p: T -> bool, s: seq<T>): (r: seq<T>)
    ensures |r| <= |s|
    ensures forall x :: x in r ==> x in s && p(x)
  {
    if s == [] then [] else (if p(s[0]) then [s[0]] else []) + Filter(p, s[1..])
  }

  /** The filter's result, position by position, satisfies the predicate. */
  lemma FilterAt<T>(p: T -> bool, s: seq<T>)
    ensures forall k :: 0 <= k < |Filter(p, s)| ==> p(Filter(p, s)[k])
  {
    var r := Filter(p, s);
    forall k | 0 <= k < |r| ensures p(r[k]) {
      assert r[k] in r;
    }
  }

  /** Every element of `s` that satisfies `p` survives the filter. */
  lemma {:induction false} FilterComplete<T>(p: T -> bool, s: seq<T>, x: T)
    requires x in s && p(x)
    ensures x in Filter(p, s)
  {
    if s[0] != x {
      FilterComplete(p, s[1..], x);
    }
  }

  /** A predicate that holds throughout `s` keeps all of it. */
  lemma {:induction false} FilterAll<T>(p: T -> bool, s: seq<T>)
    requires forall x :: x in s ==> p(x)
    ensures Filter(p, s) == s
  {
    if s != [] {
      FilterAll(p, s[1..]);
      assert [s[0]] + s[1..] == s;
    }
  }

  /** Two predicates that agree on `s` select the same elements. */
  lemma {:induction false} FilterCongruent<T>(p: T -> bool, q: T -> bool, s: seq<T>)
    requires forall x :: x in s ==> p(x) == q(x)
    ensures Filter(p, s) == Filter(q, s)
  {
    if s != [] {
      FilterCongruent(p, q, s[1..]);
    }
  }

  /** The conjunction of two predicates. */
  function And<T>(p: T -> bool, q: T -> bool): T -> bool {
    x => p(x) && q(x)
  }

  /** Filtering twice is filtering once by the conjunction. */
  lemma {:induction false} FilterTwice<T>(p: T -> bool, q: T -> bool, s: seq<T>)
    ensures Filter(q, Filter(p, s)) == Filter(And(p, q), s)
  {
    if s != [] {
      FilterTwice(p, q, s[1..]);
      FilterAppend(q, if p(s[0]) then [s[0]] else [], Filter(p, s[1..]));
    }
  }

  lemma {:induction false} FilterAppend<T>(p: T -> bool, a: seq<T>, b: seq<T>)
    ensures Filter(p, a + b) == Filter(p, a) + Filter(p, b)
  {
    if a != [] {
      assert (a + b)[1..] == a[1..] + b;
      FilterAppend(p, a[1..], b);
    } else {
      assert a + b == b;
    }
  }

  /** The integers `lo`, `lo + 1`, ..., `hi - 1`. */
  function Range(lo: int, hi: int): (r: seq<int>)
    ensures |r| == if lo <= hi then hi - lo else 0
    ensures forall k :: 0 <= k < |r| ==> r[k] == lo + k
    decreases hi - lo
  {
    if lo >= hi then [] else [lo] + Range(lo + 1, hi)
  }

  /** The elements of `s` at the positions `idx`, in the order of `idx`. */
  function Pick<T>(s: seq<T>, idx: seq<int>): (r: seq<T>)
    requires forall k :: 0 <= k < |idx| ==> 0 <= idx[k] < |s|
    ensures |r| == |idx|
    ensures forall k :: 0 <= k < |idx| ==> r[k] == s[idx[k]]
  {
    seq(|idx|, k requires 0 <= k < |idx| => s[idx[k]])
  }

  /** Index predicate of `p` over `s`: position `j` holds an element satisfying `p`. */
  function AtIndex<T>(s: seq<T>, p: T -> bool): int -> bool {
    j => 0 <= j < |s| && p(s[j])
  }

  /**
   * Filtering the positions of `s` and picking the elements there is filtering `s`:
   * an index-based filter keeps the same elements, in the same order.
   */
  lemma {:induction false} PickFilteredRange<T>(s: seq<T>, p: T -> bool, lo: nat)
    requires lo <= |s|
    ensures var idx := Filter(AtIndex(s, p), Range(lo, |s|));
      forall k :: 0 <= k < |idx| ==> 0 <= idx[k] < |s|
    ensures Pick(s, Filter(AtIndex(s, p), Range(lo, |s|))) == Filter(p, s[lo..])
    decreases |s| - lo
  {
    var q := AtIndex(s, p);
    FilterAt(q, Range(lo, |s|));
    if lo < |s| {
      PickFilteredRange(s, p, lo + 1);
      var rest := Filter(q, Range(lo + 1, |s|));
      FilterAt(q, Range(lo + 1, |s|));
      assert Range(lo, |s|)[1..] == Range(lo + 1, |s|);
      assert s[lo..][1..] == s[lo + 1..];
      if p(s[lo]) {
        assert Filter(q, Range(lo, |s|)) == [lo] + rest;
        PickCons(s, lo, rest);
      } else {
        assert Filter(q, Range(lo, |s|)) == rest;
      }
    }
  }

  /** Picking one more position first puts its element first. */
  lemma PickCons<T>(s: seq<T>, i: int, idx: seq<int>)
    requires 0 <= i < |s| && forall k :: 0 <= k < |idx| ==> 0 <= idx[k] < |s|
    ensures Pick(s, [i] + idx) == [s[i]] + Pick(s, idx)
  {
    var both := [i] + idx;
    assert forall k :: 0 <= k < |both| ==> 0 <= both[k] < |s| by {
      forall k | 0 <= k < |both| ensures 0 <= both[k] < |s| {
        if k > 0 { assert both[k] == idx[k - 1]; }
      }
    }
    var a, b := Pick(s, both), [s[i]] + Pick(s, idx);
    forall k | 0 <= k < |a| ensures a[k] == b[k] {
      if k > 0 { assert both[k] == idx[k - 1]; }
    }
  }

  /** `f` applied to each element, in order. */
  function Map<A, B>(f: A -> B, s: seq<A>): (r: seq<B>)
    ensures |r| == |s| && forall i :: 0 <= i < |s| ==> r[i] == f(s[i])
  {
    seq(|s|, i requires 0 <= i < |s| => f(s[i]))
  }

  /** The first components of a sequence of pairs, in order (the keys of a dictionary's items). */
  function Firsts<A, B>(s: seq<(A, B)>): (r: seq<A>)
    ensures |r| == |s| && forall i :: 0 <= i < |s| ==> r[i] == s[i].0
  {
    seq(|s|, i requires 0 <= i < |s| => s[i].0)
  }

  /** The second components of a sequence of pairs, in order (the values of a dictionary's items). */
  function Seconds<A, B>(s: seq<(A, B)>): (r: seq<B>)
    ensures |r| == |s| && forall i :: 0 <= i < |s| ==> r[i] == s[i].1
  {
    seq(|s|, i requires 0 <= i < |s| => s[i].1)
  }

  lemma MapSnoc<A, B>(f: A -> B, s: seq<A>, i: nat)
    requires i < |s|
    ensures Map(f, s[..i + 1]) == Map(f, s[..i]) + [f(s[i])]
  {
    assert s[..i + 1][..i] == s[..i];
  }

  /** All the inner sequences, one after the other. */
  function Concat<T>(ss: seq<seq<T>>): (r: seq<T>)
    ensures |ss| == 0 ==> r == []
  {
    if ss == [] then [] else ss[0] + Concat(ss[1..])
  }

  lemma {:induction false} ConcatAppend<T>(a: seq<seq<T>>, b: seq<seq<T>>)
    ensures Concat(a + b) == Concat(a) + Concat(b)
  {
    if a != [] {
      assert (a + b)[1..] == a[1..] + b;
      ConcatAppend(a[1..], b);
    } else {
      assert a + b == b;
    }
  }
}
