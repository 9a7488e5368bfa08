/** Searches over sequences: the first and the last position whose element satisfies a test. The
    collectors' "first match wins" and "last match wins" rules are stated with them. */
module Seqs {

  /** Position of the first element satisfying `p`, or |xs| when there is none. */
  function FirstIndex<T>(xs: seq<T>, p: T -> bool): (k: nat)
    ensures k <= |xs|
    ensures forall j :: 0 <= j < k ==> !p(xs[j])
    ensures k < |xs| ==> p(xs[k])
  {
    if |xs| == 0 || p(xs[0]) then 0
    else
      var k := 1 + FirstIndex(xs[1..], p);
      assert forall j :: 1 <= j < k ==> xs[j] == xs[1..][j - 1];
      k
  }

  /** The first index is the only position with a match and no match before it. */
  lemma FirstIndexIs<T>(xs: seq<T>, p: T -> bool, k: nat)
    requires k <= |xs|
    requires forall j :: 0 <= j < k ==> !p(xs[j])
    requires k < |xs| ==> p(xs[k])
    ensures FirstIndex(xs, p) == k
  {
  }

  /** Position of the last element satisfying `p`, or |xs| when there is none. */
  function LastIndex<T>(xs: seq<T>, p: T -> bool): (k: nat)
    ensures k <= |xs|
    ensures k < |xs| ==> p(xs[k]) && forall j :: k < j < |xs| ==> !p(xs[j])
    ensures k == |xs| ==> forall j :: 0 <= j < |xs| ==> !p(xs[j])
  {
    if |xs| == 0 then 0
    else if p(xs[|xs| - 1]) then |xs| - 1
    else
      var k := LastIndex(xs[..|xs| - 1], p);
      if k == |xs| - 1 then |xs| else k
  }

  /** Appending an element moves the last match to it when it matches, and keeps it otherwise. */
  lemma LastIndexAppend<T>(xs: seq<T>, x: T, p: T -> bool)
    ensures LastIndex(xs + [x], p) ==
      if p(x) then |xs|
      else if LastIndex(xs, p) == |xs| then |xs| + 1
      else LastIndex(xs, p)
  {
    assert (xs + [x])[..|xs|] == xs;
  }

  /** Applies `f` to each element in turn, from the left. */
  function FoldLeft<S, T>(s: S, xs: seq<T>, f: (S, T) -> S): S
    decreases |xs|
  {
    if |xs| == 0 then s else f(FoldLeft(s, xs[..|xs| - 1], f), xs[|xs| - 1])
  }

  /** When the elements failing `p` leave the state alone, a fold ends where the last element
      satisfying `p` took it, or where it started when there is none. */
  lemma {:induction false} FoldEndsAtLast<S, T>(s: S, xs: seq<T>, f: (S, T) -> S, p: T -> bool)
    requires forall a, x :: !p(x) ==> f(a, x) == a
    ensures var k := LastIndex(xs, p);
      FoldLeft(s, xs, f) == if k < |xs| then f(FoldLeft(s, xs[..k], f), xs[k]) else s
    decreases |xs|
  {
    if |xs| > 0 {
      var n := |xs| - 1;
      var prefix := xs[..n];
      assert xs == prefix + [xs[n]];
      LastIndexAppend(prefix, xs[n], p);
      if !p(xs[n]) {
        FoldEndsAtLast(s, prefix, f, p);
        var k := LastIndex(prefix, p);
        if k < n {
          assert prefix[..k] == xs[..k];
          assert prefix[k] == xs[k];
        }
      }
    }
  }

  /** A property every step preserves holds after a fold that starts where it holds. */
  lemma {:induction false} FoldKeeps<S, T>(s: S, xs: seq<T>, f: (S, T) -> S, inv: S -> bool)
    requires forall a, x :: inv(a) ==> inv(f(a, x))
    ensures inv(s) ==> inv(FoldLeft(s, xs, f))
    decreases |xs|
  {
    if |xs| > 0 {
      FoldKeeps(s, xs[..|xs| - 1], f, inv);
    }
  }
}
