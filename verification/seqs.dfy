/** Sequence helpers shared by the in-memory collections: first match and filtering. */
module Seqs {

  /** Position of the first element of `s` that satisfies `p`, or `|s|` when there is none. */
  function FirstIndex<T>(s: seq<T>, p: T -> bool): (k: nat)
    ensures k <= |s|
    ensures k < |s| ==> p(s[k])
    ensures forall j :: 0 <= j < k ==> !p(s[j])
  {
    if s == [] || p(s[0]) then 0 else 1 + FirstIndex(s[1..], p)
  }

  /** The elements of `s` that satisfy `p`, in their original order (a store query with a filter). */
  function Filter<T(==,!new)>(s: seq<T>, p: T -> bool): (r: seq<T>)
    ensures |r| <= |s|
  {
    if s == [] then []
    else
      var n := |s| - 1;
      Filter(s[..n], p) + (if p(s[n]) then [s[n]] else [])
  }

  /** The filter keeps each element that satisfies `p` exactly as many times as `s` holds it, and nothing else. */
  lemma {:induction false} FilterCounts<T(!new)>(s: seq<T>, p: T -> bool)
    ensures forall x :: multiset(Filter(s, p))[x] == if p(x) then multiset(s)[x] else 0
    ensures forall x :: x in Filter(s, p) <==> x in s && p(x)
  {
    if s != [] {
      var n := |s| - 1;
      FilterCounts(s[..n], p);
      assert s == s[..n] + [s[n]];
      assert multiset(s) == multiset(s[..n]) + multiset{s[n]};
      forall x ensures x in Filter(s, p) <==> x in s && p(x) {
        assert x in Filter(s, p) <==> multiset(Filter(s, p))[x] > 0;
      }
    }
  }

  /** Filtering keeps order: filtering two consecutive parts and joining them filters the whole. */
  lemma {:induction false} FilterConcat<T(!new)>(a: seq<T>, b: seq<T>, p: T -> bool)
    ensures Filter(a + b, p) == Filter(a, p) + Filter(b, p)
    decreases |b|
  {
    if b == [] {
      assert a + b == a;
    } else {
      var init, x := b[..|b| - 1], b[|b| - 1];
      FilterConcat(a, init, p);
      assert b == init + [x];
      assert a + b == (a + init) + [x];
      FilterSnoc(a + init, x, p);
      FilterSnoc(init, x, p);
    }
  }

  /** Filtering a sequence with one more element at its end appends that element when it passes. */
  lemma FilterSnoc<T(!new)>(s: seq<T>, x: T, p: T -> bool)
    ensures Filter(s + [x], p) == Filter(s, p) + (if p(x) then [x] else [])
  {
    assert (s + [x])[..|s|] == s;
  }

  /** A prefix holds each element at most as often as the whole sequence does. */
  lemma PrefixSubMultiset<T>(s: seq<T>, n: nat)
    requires n <= |s|
    ensures multiset(s[..n]) <= multiset(s)
  {
    assert s == s[..n] + s[n..];
  }

  /** A first match found in `s` is still the first match once more elements are appended. */
  lemma FirstIndexAppend<T>(s: seq<T>, t: seq<T>, p: T -> bool)
    requires FirstIndex(s, p) < |s|
    ensures FirstIndex(s + t, p) == FirstIndex(s, p)
  {
    var k := FirstIndex(s, p);
    assert (s + t)[k] == s[k];
    forall j | 0 <= j < k ensures !p((s + t)[j]) {
      assert (s + t)[j] == s[j];
    }
  }

  /** With no match in `s`, the first match in `s + t` is the first match in `t`, shifted by `|s|`. */
  lemma FirstIndexAfterNoMatch<T>(s: seq<T>, t: seq<T>, p: T -> bool)
    requires FirstIndex(s, p) == |s|
    ensures FirstIndex(s + t, p) == |s| + FirstIndex(t, p)
  {
    var k := FirstIndex(t, p);
    if k < |t| {
      assert (s + t)[|s| + k] == t[k];
    }
    forall j | 0 <= j < |s| + k ensures !p((s + t)[j]) {
      if j < |s| { assert (s + t)[j] == s[j]; } else { assert (s + t)[j] == t[j - |s|]; }
    }
  }
}
