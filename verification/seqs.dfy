/** Order-preserving selection over sequences, used wherever the source filters a list. */
module Seqs {

  /** The elements of `s` that satisfy `keep`, in their original order. */
  function Filter<T>(keep: T -> bool, s: seq<T>): (r: seq<T>)
    ensures |r| <= |s|
    ensures forall i :: 0 <= i < |r| ==> r[i] in s && keep(r[i])
    ensures forall i :: 0 <= i < |s| && keep(s[i]) ==> s[i] in r
  {
    if |s| == 0 then []
    else if keep(s[0]) then [s[0]] + Filter(keep, s[1..])
    else Filter(keep, s[1..])
  }

  /** `f` applied to every element of `s`, in order. */
  function Map<T, U>(f: T -> U, s: seq<T>): (r: seq<U>)
    ensures |r| == |s|
    ensures forall i :: 0 <= i < |s| ==> r[i] == f(s[i])
  {
    if |s| == 0 then [] else [f(s[0])] + Map(f, s[1..])
  }

  /** Filtering distributes over concatenation, so relative order is kept. */
  lemma {:induction false} FilterAppend<T>(keep: T -> bool, a: seq<T>, b: seq<T>)
    ensures Filter(keep, a + b) == Filter(keep, a) + Filter(keep, b)
  {
    if |a| == 0 {
      assert a + b == b;
    } else {
      assert (a + b)[1..] == a[1..] + b;
      FilterAppend(keep, a[1..], b);
    }
  }

  /** A filter that keeps everything is the identity. */
  lemma {:induction false} FilterKeepsAll<T>(keep: T -> bool, s: seq<T>)
    requires forall i :: 0 <= i < |s| ==> keep(s[i])
    ensures Filter(keep, s) == s
  {
    if |s| > 0 {
      FilterKeepsAll(keep, s[1..]);
    }
  }

  /** The index of the first element satisfying `hit`, or `|s|` when there is none. */
  function FirstIndex<T>(hit: T -> bool, s: seq<T>): (i: nat)
    ensures i <= |s|
    ensures i < |s| ==> hit(s[i])
    ensures forall j :: 0 <= j < i ==> !hit(s[j])
  {
    if |s| == 0 then 0
    else if hit(s[0]) then 0
    else 1 + FirstIndex(hit, s[1..])
  }

  /** The first hit in `a + b` is the first hit in `a`, or else the first hit in `b`. */
  lemma FirstIndexAppend<T>(hit: T -> bool, a: seq<T>, b: seq<T>)
    ensures FirstIndex(hit, a + b)
         == if FirstIndex(hit, a) < |a| then FirstIndex(hit, a) else |a| + FirstIndex(hit, b)
  {
    var i := FirstIndex(hit, a + b);
    var k := FirstIndex(hit, a);
    if k < |a| {
      assert (a + b)[k] == a[k];
    } else {
      var m := FirstIndex(hit, b);
      assert forall j :: 0 <= j < |a| ==> (a + b)[j] == a[j];
      if |a| + m < |a + b| {
        assert (a + b)[|a| + m] == b[m];
      }
      if i >= |a| && i < |a + b| {
        assert (a + b)[i] == b[i - |a|];
      }
    }
  }
}
