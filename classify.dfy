/**
  Membership tests for Thompson's groups F < T < V, read off the two label
  sequences of a tree pair (the domain's and the range's, in dictionary order
  of the leaves).

  F: the element keeps the leaf order, so the sequences agree entry by entry.
  T: the element keeps the cyclic leaf order, so the domain sequence is the
     range sequence read from some starting point round the circle.
  V: every element qualifies.
*/
module Classify {
  import opened PrefCode
  import opened CodeOps
  import opened Pairs

  /** InF: the range sequence agrees with the domain sequence at each of its indices. */
  predicate InFSpec(dp: seq<nat>, rp: seq<nat>)
    requires |rp| <= |dp|
  {
    forall k | 0 <= k < |rp| :: rp[k] == dp[k]
  }

  /** The first index of v in s, or |s| when v does not occur. */
  function FirstIndex(s: seq<nat>, v: nat): (i: nat)
    ensures i <= |s|
    ensures i < |s| ==> s[i] == v
    ensures forall j | 0 <= j < i :: s[j] != v
  {
    if s == [] then 0
    else if s[0] == v then 0
    else 1 + FirstIndex(s[1..], v)
  }

  /** InT: dp[0] occurs in the range sequence, and reading the range sequence twice
      over from its first occurrence spells the first |rp| entries of dp. */
  predicate InTSpec(dp: seq<nat>, rp: seq<nat>)
    requires |dp| >= 1 && |rp| <= |dp|
  {
    var j := FirstIndex(rp, dp[0]);
    j < |rp| && forall i | 0 <= i < |rp| :: dp[i] == (rp + rp)[j + i]
  }

  /** Position x of a circle of n positions, for x < 2n. */
  function Wrap(x: nat, n: nat): (y: nat)
    requires x < 2 * n
    ensures y < n
  {
    if x < n then x else x - n
  }

  /** dp is rp rotated: read cyclically from position j, rp spells dp. */
  predicate RotatedBy(dp: seq<nat>, rp: seq<nat>, j: nat)
    requires |dp| == |rp| && j < |rp|
  {
    forall i | 0 <= i < |rp| :: dp[i] == rp[Wrap(j + i, |rp|)]
  }

  predicate IsRotation(dp: seq<nat>, rp: seq<nat>) {
    |dp| == |rp| && exists j | 0 <= j < |rp| :: RotatedBy(dp, rp, j)
  }

  /** InV holds for every element. */
  predicate InVSpec(dp: seq<nat>, rp: seq<nat>) {
    true
  }

  /** Reading the doubled sequence at x is reading the circle at x. */
  lemma DoubledAt(rp: seq<nat>, x: nat)
    requires x < 2 * |rp|
    ensures (rp + rp)[x] == rp[Wrap(x, |rp|)]
  {
  }

  /** The first occurrence of v in rp read twice over lies in the first copy,
      at FirstIndex. */
  lemma FirstInDoubled(rp: seq<nat>, v: nat, k: nat)
    requires k < 2 * |rp| && (rp + rp)[k] == v
    requires forall j | 0 <= j < k :: (rp + rp)[j] != v
    ensures k < |rp| && k == FirstIndex(rp, v)
  {
    assert forall j | |rp| <= j < 2 * |rp| :: (rp + rp)[j] == (rp + rp)[j - |rp|];
    assert forall j | 0 <= j < |rp| :: (rp + rp)[j] == rp[j];
  }

  /** A value missing from rp read twice over is missing from rp. */
  lemma AbsentFromDoubled(rp: seq<nat>, v: nat)
    requires forall j | 0 <= j < 2 * |rp| :: (rp + rp)[j] != v
    ensures FirstIndex(rp, v) == |rp|
  {
    assert forall j | 0 <= j < |rp| :: (rp + rp)[j] == rp[j];
  }

  /** An element of F is an element of T. */
  lemma InFImpliesInT(dp: seq<nat>, rp: seq<nat>)
    requires 1 <= |rp| <= |dp|
    ensures InFSpec(dp, rp) ==> InTSpec(dp, rp)
  {
    if InFSpec(dp, rp) {
      assert FirstIndex(rp, dp[0]) == 0;
    }
  }

  /** With distinct labels, the InT test holds exactly when the domain sequence is
      a rotation of the range sequence. */
  lemma InTIsRotation(dp: seq<nat>, rp: seq<nat>)
    requires 1 <= |rp| == |dp| && Distinct(rp)
    ensures InTSpec(dp, rp) <==> IsRotation(dp, rp)
  {
    if InTSpec(dp, rp) {
      InTRotated(dp, rp);
    }
    if IsRotation(dp, rp) {
      var j :| 0 <= j < |rp| && RotatedBy(dp, rp, j);
      RotatedInT(dp, rp, j);
    }
  }

  /** A pair passing the T test is rotated by the first index of dp[0]. */
  lemma {:induction false} InTRotated(dp: seq<nat>, rp: seq<nat>)
    requires 1 <= |rp| == |dp| && InTSpec(dp, rp)
    ensures RotatedBy(dp, rp, FirstIndex(rp, dp[0]))
  {
    var j0 := FirstIndex(rp, dp[0]);
    forall i | 0 <= i < |rp| ensures dp[i] == rp[Wrap(j0 + i, |rp|)] {
      DoubledAt(rp, j0 + i);
    }
  }

  /** With distinct labels, a rotation by j passes the T test, j being where dp[0] sits. */
  lemma {:induction false} RotatedInT(dp: seq<nat>, rp: seq<nat>, j: nat)
    requires 1 <= |rp| == |dp| && Distinct(rp) && j < |rp| && RotatedBy(dp, rp, j)
    ensures InTSpec(dp, rp)
  {
    var n := |rp|;
    assert dp[0] == rp[Wrap(j, n)];
    assert FirstIndex(rp, dp[0]) == j;
    forall i | 0 <= i < n ensures dp[i] == (rp + rp)[j + i] {
      DoubledAt(rp, j + i);
    }
  }

  /** f never sends two different entries of s to the same value. */
  predicate InjectiveOn(f: nat -> nat, s: seq<nat>) {
    forall a, b | a in s && b in s :: f(a) == f(b) ==> a == b
  }

  /** Relabelling both sequences by one injective map does not change the F test. */
  lemma InFRelabel(dp: seq<nat>, rp: seq<nat>, f: nat -> nat)
    requires |rp| <= |dp| && InjectiveOn(f, dp + rp)
    ensures InFSpec(MapSeq(dp, f), MapSeq(rp, f)) == InFSpec(dp, rp)
  {
    forall k | 0 <= k < |rp| ensures MapSeq(rp, f)[k] == MapSeq(dp, f)[k] <==> rp[k] == dp[k] {
      RelabelEntry(dp, rp, f, k, k);
    }
  }

  /** Relabelling both sequences by one injective map does not change the T test. */
  lemma {:induction false} InTRelabel(dp: seq<nat>, rp: seq<nat>, f: nat -> nat)
    requires 1 <= |dp| && |rp| <= |dp| && InjectiveOn(f, dp + rp)
    ensures InTSpec(MapSeq(dp, f), MapSeq(rp, f)) == InTSpec(dp, rp)
  {
    var dq, rq := MapSeq(dp, f), MapSeq(rp, f);
    var j := FirstIndex(rp, dp[0]);
    assert FirstIndex(rq, dq[0]) == j by {
      assert dp[0] in dp + rp;
      assert forall x | x in rp :: x in dp + rp;
      FirstIndexRelabel(rp, dp[0], f, dp + rp);
    }
    if j < |rp| {
      forall i | 0 <= i < |rp| ensures dq[i] == (rq + rq)[j + i] <==> dp[i] == (rp + rp)[j + i] {
        RelabelShifted(dp, rp, f, j, i);
      }
    }
  }

  /** An injective relabelling keeps equality between entry i and the doubled
      entry j + i. */
  lemma RelabelShifted(dp: seq<nat>, rp: seq<nat>, f: nat -> nat, j: nat, i: nat)
    requires i < |dp| && j < |rp| && i < |rp| && InjectiveOn(f, dp + rp)
    ensures var dq, rq := MapSeq(dp, f), MapSeq(rp, f);
            dq[i] == (rq + rq)[j + i] <==> dp[i] == (rp + rp)[j + i]
  {
    DoubledAt(rp, j + i);
    DoubledAt(MapSeq(rp, f), j + i);
    RelabelEntry(dp, rp, f, i, Wrap(j + i, |rp|));
  }

  /** An injective relabelling keeps equality between an entry of each sequence. */
  lemma RelabelEntry(dp: seq<nat>, rp: seq<nat>, f: nat -> nat, i: nat, k: nat)
    requires i < |dp| && k < |rp| && InjectiveOn(f, dp + rp)
    ensures MapSeq(dp, f)[i] == MapSeq(rp, f)[k] <==> dp[i] == rp[k]
  {
    assert (dp + rp)[i] == dp[i] && (dp + rp)[|dp| + k] == rp[k];
  }

  /** Under an injective relabelling the first occurrence stays where it was. */
  lemma {:induction false} FirstIndexRelabel(s: seq<nat>, v: nat, f: nat -> nat, dom: seq<nat>)
    requires v in dom && (forall x | x in s :: x in dom) && InjectiveOn(f, dom)
    ensures FirstIndex(MapSeq(s, f), f(v)) == FirstIndex(s, v)
    decreases s
  {
    if s != [] {
      assert s[0] in dom;
      assert MapSeq(s, f)[1..] == MapSeq(s[1..], f);
      FirstIndexRelabel(s[1..], v, f, dom);
    }
  }

  /** PermuteLabels on a well-formed pair changes neither test: membership is a
      property of the element, not of its labelling. */
  lemma PermuteKeepsClass(P: Pair, perm: map<int, int>)
    requires WellFormed(P) && IsPermOn(perm, Size(P.dom))
    ensures var Q := PermuteOf(P, perm).0;
            1 <= Size(P.dom) == Size(Q.dom) == Size(Q.ran)
    ensures var Q := PermuteOf(P, perm).0;
            && InFSpec(Labels(Q.dom), Labels(Q.ran)) == InFSpec(Labels(P.dom), Labels(P.ran))
            && InTSpec(Labels(Q.dom), Labels(Q.ran)) == InTSpec(Labels(P.dom), Labels(P.ran))
  {
    var f := PermFn(perm);
    ApplyPermCode(P.alpha, P.dom, perm);
    ApplyPermCode(P.alpha, P.ran, perm);
    SizePositive(P.dom, |P.alpha|);
    forall a, b | a in Labels(P.dom) + Labels(P.ran) && b in Labels(P.dom) + Labels(P.ran) && f(a) == f(b)
      ensures a == b
    {
      PermFnInjective(perm, Size(P.dom), a, b);
    }
    InFRelabel(Labels(P.dom), Labels(P.ran), f);
    InTRelabel(Labels(P.dom), Labels(P.ran), f);
  }
}
