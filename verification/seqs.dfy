/** Positions of the elements of a sequence that satisfy a predicate: the
    reference definition of "the order-preserving sub-sequence of the elements
    that pass a test", which every filter of the transfer pipeline follows. */
module Seqs {

  /** Every element is strictly smaller than the next one. */
  predicate StrictlyIncreasing(s: seq<int>) {
    forall i, j | 0 <= i < j < |s| :: s[i] < s[j]
  }

  /** The indices `i` of `xs`, in increasing order, for which `p(xs[i])` holds. */
  function Positions<T>(xs: seq<T>, p: T -> bool): (r: seq<nat>)
    ensures |r| <= |xs|
    ensures forall k | 0 <= k < |r| :: r[k] < |xs| && p(xs[r[k]])
  {
    if xs == [] then []
    else
      var n := |xs| - 1;
      var front := Positions(xs[..n], p);
      assert forall i | 0 <= i < n :: xs[..n][i] == xs[i];
      front + (if p(xs[n]) then [n] else [])
  }

  /** The positions are listed in increasing order. */
  lemma {:induction false} PositionsIncreasing<T>(xs: seq<T>, p: T -> bool)
    ensures StrictlyIncreasing(Positions(xs, p))
  {
    if xs != [] {
      PositionsIncreasing(xs[..|xs| - 1], p);
    }
  }

  /** The positions of a sequence extend those of its prefix without the
      last element. */
  lemma PositionsSnoc<T>(xs: seq<T>, p: T -> bool)
    requires xs != []
    ensures Positions(xs, p)
            == Positions(xs[..|xs| - 1], p) + (if p(xs[|xs| - 1]) then [|xs| - 1] else [])
  {
  }

  /** The positions are complete: every index whose element passes the
      test is listed, at the returned place. */
  lemma {:induction false} PositionOf<T>(xs: seq<T>, p: T -> bool, i: nat) returns (k: nat)
    requires i < |xs| && p(xs[i])
    ensures k < |Positions(xs, p)| && Positions(xs, p)[k] == i
  {
    var n := |xs| - 1;
    var front := Positions(xs[..n], p);
    assert Positions(xs, p) == front + (if p(xs[n]) then [n] else []);
    if i < n {
      assert xs[..n][i] == xs[i];
      k := PositionOf(xs[..n], p, i);
    } else {
      k := |front|;
    }
  }

  /** When every element passes the test, the positions are all the indices. */
  lemma {:induction false} PositionsOfAll<T>(xs: seq<T>, p: T -> bool)
    requires forall i | 0 <= i < |xs| :: p(xs[i])
    ensures |Positions(xs, p)| == |xs|
    ensures forall k | 0 <= k < |xs| :: Positions(xs, p)[k] == k
  {
    if xs != [] {
      var n := |xs| - 1;
      assert forall i | 0 <= i < n :: xs[..n][i] == xs[i];
      PositionsOfAll(xs[..n], p);
    }
  }

  /** A member of a sequence sits at some index, returned. */
  lemma IndexOf<T>(s: seq<T>, x: T) returns (k: nat)
    requires x in s
    ensures k < |s| && s[k] == x
  {
    k :| 0 <= k < |s| && s[k] == x;
  }

  /** Indexing a prefix is indexing the sequence. */
  lemma TakeIndex<T>(s: seq<T>, n: nat, i: nat)
    requires i < n <= |s|
    ensures s[..n][i] == s[i]
  {
  }

  /** The index of the first element that passes the test, or -1 when none
      does. */
  function FirstIndex<T>(xs: seq<T>, p: T -> bool): (r: int)
    ensures -1 <= r < |xs|
    ensures r == -1 <==> forall i | 0 <= i < |xs| :: !p(xs[i])
    ensures r >= 0 ==> p(xs[r]) && forall i | 0 <= i < r :: !p(xs[i])
  {
    if xs == [] then -1
    else if p(xs[0]) then 0
    else
      var rest := FirstIndex(xs[1..], p);
      assert forall i | 1 <= i < |xs| :: xs[1..][i - 1] == xs[i];
      if rest == -1 then -1 else rest + 1
  }

  /** An element that passes the test, after elements that do not, is the
      first one found. */
  lemma {:induction false} FirstIndexAt<T>(xs: seq<T>, n: nat, p: T -> bool)
    requires n < |xs| && p(xs[n])
    requires forall i | 0 <= i < n :: !p(xs[i])
    ensures FirstIndex(xs, p) == n
  {
    if n > 0 {
      assert forall i | 0 <= i < n - 1 :: xs[1..][i] == xs[i + 1];
      FirstIndexAt(xs[1..], n - 1, p);
    }
  }
}
