/**
  Tree pairs as values: what each engine operation computes, stated as a
  function of the pair it starts from, and what those functions preserve.

  A pair holds an alphabet, a domain code and a range code. The element it
  denotes sends each domain leaf to the range leaf with the same label.
*/
module Pairs {
  import opened PrefCode
  import opened CodeOps

  datatype Pair = Pair(alpha: string, dom: Tree, ran: Tree)

  /** At least two symbols, none repeated. */
  predicate GoodAlphabet(alpha: string) {
    |alpha| >= 2 && Distinct(alpha)
  }

  /** Both codes valid over a good alphabet, with the same number of leaves. */
  predicate WellFormed(P: Pair) {
    && GoodAlphabet(P.alpha)
    && IsCode(P.alpha, P.dom)
    && IsCode(P.alpha, P.ran)
    && Size(P.dom) == Size(P.ran)
  }

  /** The element sends domain leaf d to range leaf r. */
  predicate Paired(P: Pair, d: string, r: string) {
    && IsLeaf(P.alpha, P.dom, d)
    && IsLeaf(P.alpha, P.ran, r)
    && LabelAtLeaf(P.alpha, P.dom, d) == LabelAtLeaf(P.alpha, P.ran, r)
  }

  /** The domain labels read 0 .. n-1 in dictionary order. */
  predicate Natural(P: Pair) {
    Labels(P.dom) == Range(0, Size(P.dom))
  }

  /** Two pairs with the same shapes that denote the same element. */
  ghost predicate Equivalent(P: Pair, Q: Pair) {
    && P.alpha == Q.alpha
    && SameShape(P.dom, Q.dom)
    && SameShape(P.ran, Q.ran)
    && (forall d, r :: Paired(P, d, r) <==> Paired(Q, d, r))
  }

  // ---------------------------------------------------------------------------
  // Inversion and relabelling

  function Invert(P: Pair): Pair {
    Pair(P.alpha, P.ran, P.dom)
  }

  /** The same map applied to the labels of both codes, and whether both accepted it. */
  function PermuteOf(P: Pair, perm: map<int, int>): (Pair, bool) {
    var (d, okd) := ApplyPerm(P.dom, perm);
    var (r, okr) := ApplyPerm(P.ran, perm);
    (Pair(P.alpha, d, r), okd && okr)
  }

  /** ResetLabels: both codes relabelled by the inverse of the domain's permutation. */
  function ResetOf(P: Pair): (Pair, bool) {
    PermuteOf(P, InverseOf(Labels(P.dom)))
  }

  function Reset(P: Pair): Pair {
    ResetOf(P).0
  }

  /** Inverting swaps the roles of the codes: the inverse element sends r to d. */
  lemma InvertPaired(P: Pair, d: string, r: string)
    ensures Invert(Invert(P)) == P
    ensures Paired(Invert(P), r, d) <==> Paired(P, d, r)
    ensures WellFormed(Invert(P)) <==> WellFormed(P)
  {
  }

  /** Relabelling both codes by one permutation keeps the pair well formed, keeps
      its shapes and keeps the element it denotes. */
  lemma PermuteSpec(P: Pair, perm: map<int, int>)
    requires WellFormed(P) && IsPermOn(perm, Size(P.dom))
    ensures PermuteOf(P, perm).1
    ensures WellFormed(PermuteOf(P, perm).0)
    ensures Equivalent(P, PermuteOf(P, perm).0)
    ensures Labels(PermuteOf(P, perm).0.dom) == MapSeq(Labels(P.dom), PermFn(perm))
  {
    var Q := PermuteOf(P, perm).0;
    var f := PermFn(perm);
    ApplyPermCode(P.alpha, P.dom, perm);
    ApplyPermCode(P.alpha, P.ran, perm);
    forall d, r
      ensures Paired(P, d, r) <==> Paired(Q, d, r)
    {
      MapLabelsAt(P.alpha, P.dom, f, d);
      MapLabelsAt(P.alpha, P.ran, f, r);
      if IsLeaf(P.alpha, P.dom, d) && IsLeaf(P.alpha, P.ran, r) {
        var a, b := LabelAtLeaf(P.alpha, P.dom, d), LabelAtLeaf(P.alpha, P.ran, r);
        if f(a) == f(b) {
          PermFnInjective(perm, Size(P.dom), a, b);
        }
      }
    }
  }

  /** ResetLabels succeeds on a well-formed pair, makes the domain labels natural
      and keeps the shapes and the element. */
  lemma ResetSpec(P: Pair)
    requires WellFormed(P)
    ensures ResetOf(P).1
    ensures WellFormed(Reset(P)) && Natural(Reset(P))
    ensures Equivalent(P, Reset(P))
  {
    var L := Labels(P.dom);
    var inv := InverseOf(L);
    InverseOfPerm(L);
    PermuteSpec(P, inv);
    var M := MapSeq(L, PermFn(inv));
    assert M == Range(0, |L|) by {
      forall k | 0 <= k < |L| ensures M[k] == k {
        assert inv[L[k]] == k;
      }
    }
  }

  /** ResetLabels changes nothing on a pair whose domain labels are already natural. */
  lemma ResetNatural(P: Pair)
    requires WellFormed(P) && Natural(P)
    ensures Reset(P) == P
  {
    var L := Labels(P.dom);
    var n := |L|;
    var inv := InverseOf(L);
    InverseOfPerm(L);
    var f := PermFn(inv);
    forall m: nat | m in L
      ensures f(m) == m
    {
      var k :| 0 <= k < n && L[k] == m;
      assert inv[L[k]] == k;
    }
    forall m: nat | m in Labels(P.ran)
      ensures f(m) == m
    {
      assert m < n;
      assert L[m] == m;
      assert inv[L[m]] == m;
    }
    MapLabelsId(P.dom, f);
    MapLabelsId(P.ran, f);
  }

  /** Relabelling a natural pair by any permutation and resetting gives the pair back. */
  lemma PermuteThenReset(P: Pair, perm: map<int, int>)
    requires WellFormed(P) && Natural(P) && IsPermOn(perm, Size(P.dom))
    ensures Reset(PermuteOf(P, perm).0) == P
  {
    PermuteSpec(P, perm);
    ResetCanonical(P, PermuteOf(P, perm).0);
    ResetNatural(P);
  }

  /** A second ResetLabels changes nothing. */
  lemma ResetIdempotent(P: Pair)
    requires WellFormed(P)
    ensures Reset(Reset(P)) == Reset(P)
  {
    ResetSpec(P);
    ResetNatural(Reset(P));
  }

  // ---------------------------------------------------------------------------
  // Expansion

  /** ExpandDomainAt: find the domain leaf that is a prefix of s (nothing happens
      when there is none and the domain is not a single leaf); expand the domain at
      s and the range at the leaf with the same label followed by the rest of s. */
  function ExpandDomainOf(P: Pair, s: string): Pair {
    var pl := GetPrefixOf(P.alpha, P.dom, s);
    if pl == [] && LeafAtLabel(P.alpha, P.dom, 0) != [] then P
    else
      var l := LabelAtLeaf(P.alpha, P.dom, pl);
      var q := LeafAtLabel(P.alpha, P.ran, l);
      Pair(P.alpha, ExpandAt(P.alpha, P.dom, s), ExpandAt(P.alpha, P.ran, q + s[|pl|..]))
  }

  /** ExpandRangeAt: invert, expand the domain, invert back. */
  function ExpandRangeOf(P: Pair, s: string): Pair {
    Invert(ExpandDomainOf(Invert(P), s))
  }

  /** The range leaf paired with the domain leaf that an expansion at s replaces. */
  function RangePoint(P: Pair, s: string): string
    requires Expands(P.alpha, P.dom, s)
  {
    LeafAtLabel(P.alpha, P.ran, ExpandLabel(P.alpha, P.dom, s))
  }

  /** The element after an expansion: below the expanded leaves p and q the leaves
      with the same chain suffix are paired, elsewhere the pairing is the old one,
      and no leaf below one of them is paired with a leaf outside the other. */
  ghost predicate ExpandedPairing(P: Pair, p: string, q: string, ch: Tree, d: string, r: string) {
    if IsPrefix(p, d) && IsPrefix(q, r) then IsLeaf(P.alpha, ch, d[|p|..]) && d[|p|..] == r[|q|..]
    else !IsPrefix(p, d) && !IsPrefix(q, r) && Paired(P, d, r)
  }

  /** In a well-formed pair the expansion's range point is the leaf paired with
      the replaced domain leaf, and the range expands there with the same rest. */
  lemma RangePointSpec(P: Pair, s: string)
    requires WellFormed(P) && Expands(P.alpha, P.dom, s)
    ensures var p := ExpandLeaf(P.alpha, P.dom, s);
            var q := RangePoint(P, s);
            var u := ExpandRest(P.alpha, P.dom, s);
            && Paired(P, p, q)
            && Expands(P.alpha, P.ran, q + u)
            && ExpandLeaf(P.alpha, P.ran, q + u) == q
            && ExpandRest(P.alpha, P.ran, q + u) == u
            && ExpandLabel(P.alpha, P.ran, q + u) == ExpandLabel(P.alpha, P.dom, s)
  {
    var p := ExpandLeaf(P.alpha, P.dom, s);
    var u := ExpandRest(P.alpha, P.dom, s);
    var l := ExpandLabel(P.alpha, P.dom, s);
    LeafLabelIn(P.alpha, P.dom, p);
    assert l < Size(P.ran);
    assert l in Labels(P.ran);
    FindLabelComplete(P.alpha, P.ran, l);
    FindLabelSound(P.alpha, P.ran, l);
    var q := RangePoint(P, s);
    assert LabelAtLeaf(P.alpha, P.ran, q) == l;
    SubtreeOverAlpha(P.alpha, P.ran, q);
    assert OverAlpha(P.alpha, q + u) by {
      forall j | 0 <= j < |q + u| ensures (q + u)[j] in P.alpha {
        if j >= |q| {
          assert (q + u)[j] == u[j - |q|];
        }
      }
    }
    assert IsPrefix(q, q + u) by {
      assert (q + u)[..|q|] == q;
    }
    PrefixLeafFinds(P.alpha, P.ran, q + u, q);
    var u2 := ExpandRest(P.alpha, P.ran, q + u);
    assert u2 == u by {
      assert q + u2 == q + u;
      assert u2 == (q + u2)[|q|..];
      assert u == (q + u)[|q|..];
    }
  }

  /** With no leaf above s, or s off the alphabet, ExpandDomainAt changes nothing. */
  lemma ExpandDomainNoop(P: Pair, s: string)
    requires WellFormed(P) && !Expands(P.alpha, P.dom, s)
    ensures ExpandDomainOf(P, s) == P
  {
    var pl := GetPrefixOf(P.alpha, P.dom, s);
    match PrefixLeaf(P.alpha, P.dom, s)
    case None =>
      assert P.dom.Node?;
      SizePositive(P.dom, |P.alpha|);
      assert 0 in Labels(P.dom);
      FindLabelComplete(P.alpha, P.dom, 0);
      FindLabelSound(P.alpha, P.dom, 0);
      var w := FindLabel(P.alpha, P.dom, 0).value;
      assert w != [];
    case Some(p) =>
      assert !OverAlpha(P.alpha, s);
      PrefixLeafSpec(P.alpha, P.dom, s);
      SubtreeOverAlpha(P.alpha, P.dom, p);
      var q := LeafAtLabel(P.alpha, P.ran, LabelAtLeaf(P.alpha, P.dom, p));
      var j :| 0 <= j < |s| && s[j] !in P.alpha;
      assert j >= |p|;
      var v := q + s[|p|..];
      assert v[|q| + j - |p|] == s[j];
      assert !OverAlpha(P.alpha, v);
  }

  /** When expansion has an effect, ExpandDomainAt expands the domain at s and the
      range at the paired leaf followed by the rest of s. */
  lemma ExpandDomainParts(P: Pair, s: string)
    requires WellFormed(P) && Expands(P.alpha, P.dom, s)
    ensures ExpandDomainOf(P, s)
            == Pair(P.alpha, ExpandAt(P.alpha, P.dom, s),
                    ExpandAt(P.alpha, P.ran, RangePoint(P, s) + ExpandRest(P.alpha, P.dom, s)))
  {
    var p := ExpandLeaf(P.alpha, P.dom, s);
    assert GetPrefixOf(P.alpha, P.dom, s) == p;
    if p == [] {
      assert P.dom.Leaf?;
      assert Labels(P.dom) == [P.dom.lbl];
      assert Labels(P.dom)[0] < 1;
      assert FindLabel(P.alpha, P.dom, 0) == Some([]);
    }
    assert s[|p|..] == ExpandRest(P.alpha, P.dom, s);
  }

  /** ExpandDomainAt on a well-formed pair with a leaf above s: the result is well
      formed, both codes gain the same number of leaves, s becomes an exposed caret
      of the domain, and the element is the old one refined below the expanded leaves. */
  lemma ExpandDomainSpec(P: Pair, s: string)
    requires WellFormed(P) && Expands(P.alpha, P.dom, s)
    ensures var E := ExpandDomainOf(P, s);
            var u := ExpandRest(P.alpha, P.dom, s);
            && WellFormed(E)
            && Size(E.dom) == Size(P.dom) + ChainSize(|P.alpha|, u) - 1
            && Size(E.ran) == Size(P.ran) + ChainSize(|P.alpha|, u) - 1
            && IsExposedCaret(P.alpha, E.dom, s)
  {
    var u := ExpandRest(P.alpha, P.dom, s);
    var q := RangePoint(P, s);
    ExpandDomainParts(P, s);
    RangePointSpec(P, s);
    ExpandAtCode(P.alpha, P.dom, s);
    ExpandAtCode(P.alpha, P.ran, q + u);
    ExpandAtCaret(P.alpha, P.dom, s);
  }

  /** Two leaves are paired after ExpandDomainAt exactly as ExpandedPairing says. */
  lemma ExpandDomainPairing(P: Pair, s: string, d: string, r: string)
    requires WellFormed(P) && Expands(P.alpha, P.dom, s)
    ensures var p := ExpandLeaf(P.alpha, P.dom, s);
            var ch := Chain(P.alpha, ExpandLabel(P.alpha, P.dom, s), ExpandRest(P.alpha, P.dom, s));
            Paired(ExpandDomainOf(P, s), d, r) <==> ExpandedPairing(P, p, RangePoint(P, s), ch, d, r)
  {
    var p := ExpandLeaf(P.alpha, P.dom, s);
    var q := RangePoint(P, s);
    ExpandDomainParts(P, s);
    RangePointSpec(P, s);
    if IsPrefix(p, d) && IsPrefix(q, r) {
      ExpandPairedBelow(P.alpha, P.dom, P.ran, s, q + ExpandRest(P.alpha, P.dom, s), d, r);
    } else if IsPrefix(p, d) {
      ExpandPairedAcross(P.alpha, P.dom, P.ran, s, q + ExpandRest(P.alpha, P.dom, s), d, r);
    } else if IsPrefix(q, r) {
      ExpandPairedAcross(P.alpha, P.ran, P.dom, q + ExpandRest(P.alpha, P.dom, s), s, r, d);
    } else {
      ExpandPairedOutside(P.alpha, P.dom, P.ran, s, q + ExpandRest(P.alpha, P.dom, s), d, r);
    }
  }

  /** Two codes expanded at points with the same label and the same rest: leaves
      below both expanded leaves carry the same label exactly when they are the
      same chain leaf. */
  lemma ExpandPairedBelow(alpha: string, A: Tree, B: Tree, sa: string, sb: string, a: string, b: string)
    requires Expands(alpha, A, sa) && Expands(alpha, B, sb)
    requires ExpandLabel(alpha, A, sa) == ExpandLabel(alpha, B, sb)
    requires ExpandRest(alpha, A, sa) == ExpandRest(alpha, B, sb)
    requires IsPrefix(ExpandLeaf(alpha, A, sa), a) && IsPrefix(ExpandLeaf(alpha, B, sb), b)
    ensures var A1, B1 := ExpandAt(alpha, A, sa), ExpandAt(alpha, B, sb);
            var x, y := a[|ExpandLeaf(alpha, A, sa)|..], b[|ExpandLeaf(alpha, B, sb)|..];
            var ch := Chain(alpha, ExpandLabel(alpha, A, sa), ExpandRest(alpha, A, sa));
            (IsLeaf(alpha, A1, a) && IsLeaf(alpha, B1, b) && LabelAtLeaf(alpha, A1, a) == LabelAtLeaf(alpha, B1, b))
            <==> (IsLeaf(alpha, ch, x) && x == y)
  {
    var l, u := ExpandLabel(alpha, A, sa), ExpandRest(alpha, A, sa);
    var ch := Chain(alpha, l, u);
    var x, y := a[|ExpandLeaf(alpha, A, sa)|..], b[|ExpandLeaf(alpha, B, sb)|..];
    ExpandAtWords(alpha, A, sa, a);
    ExpandAtWords(alpha, B, sb, b);
    if IsLeaf(alpha, ch, x) && IsLeaf(alpha, ch, y) && LabelAtLeaf(alpha, ch, x) == LabelAtLeaf(alpha, ch, y) {
      ChainLabels(alpha, l, u);
      LeafUnique(alpha, ch, x, y);
    }
  }

  /** Two valid codes expanded at points with the same label and the same rest:
      a leaf below the first expanded leaf never shares its label with a leaf of
      the second code outside its expanded leaf. */
  lemma ExpandPairedAcross(alpha: string, A: Tree, B: Tree, sa: string, sb: string, a: string, b: string)
    requires Distinct(alpha) && IsCode(alpha, B)
    requires Expands(alpha, A, sa) && Expands(alpha, B, sb)
    requires ExpandLabel(alpha, A, sa) == ExpandLabel(alpha, B, sb)
    requires ExpandRest(alpha, A, sa) == ExpandRest(alpha, B, sb)
    requires IsPrefix(ExpandLeaf(alpha, A, sa), a) && !IsPrefix(ExpandLeaf(alpha, B, sb), b)
    ensures var A1, B1 := ExpandAt(alpha, A, sa), ExpandAt(alpha, B, sb);
            !(IsLeaf(alpha, A1, a) && IsLeaf(alpha, B1, b) && LabelAtLeaf(alpha, A1, a) == LabelAtLeaf(alpha, B1, b))
  {
    var l, u := ExpandLabel(alpha, A, sa), ExpandRest(alpha, A, sa);
    var pb := ExpandLeaf(alpha, B, sb);
    var A1, B1 := ExpandAt(alpha, A, sa), ExpandAt(alpha, B, sb);
    var x := a[|ExpandLeaf(alpha, A, sa)|..];
    ExpandAtWords(alpha, A, sa, a);
    ExpandAtWords(alpha, B, sb, b);
    if IsLeaf(alpha, A1, a) && IsLeaf(alpha, B1, b) {
      // a lies in the chain, whose labels are l .. l+c-1; b keeps a label outside it
      ChainLabels(alpha, l, u);
      LeafLabelIn(alpha, Chain(alpha, l, u), x);
      assert l <= LabelAtLeaf(alpha, A1, a) < l + ChainSize(|alpha|, u);
      assert b != pb by { assert IsPrefix(pb, pb); }
      LeafAtLabelSpec(alpha, B, b);
      LeafAtLabelSpec(alpha, B, pb);
      assert LabelAtLeaf(alpha, B, b) != l;
    }
  }

  /** Two codes expanded at points with the same label and the same rest: leaves
      outside both expanded leaves share a label afterwards exactly when they did
      before. */
  lemma ExpandPairedOutside(alpha: string, A: Tree, B: Tree, sa: string, sb: string, a: string, b: string)
    requires Expands(alpha, A, sa) && Expands(alpha, B, sb)
    requires ExpandLabel(alpha, A, sa) == ExpandLabel(alpha, B, sb)
    requires ExpandRest(alpha, A, sa) == ExpandRest(alpha, B, sb)
    requires !IsPrefix(ExpandLeaf(alpha, A, sa), a) && !IsPrefix(ExpandLeaf(alpha, B, sb), b)
    ensures var A1, B1 := ExpandAt(alpha, A, sa), ExpandAt(alpha, B, sb);
            (IsLeaf(alpha, A1, a) && IsLeaf(alpha, B1, b) && LabelAtLeaf(alpha, A1, a) == LabelAtLeaf(alpha, B1, b))
            <==> (IsLeaf(alpha, A, a) && IsLeaf(alpha, B, b) && LabelAtLeaf(alpha, A, a) == LabelAtLeaf(alpha, B, b))
  {
    var f := Shift(ExpandLabel(alpha, A, sa), ChainSize(|alpha|, ExpandRest(alpha, A, sa)) - 1);
    ExpandAtWords(alpha, A, sa, a);
    ExpandAtWords(alpha, B, sb, b);
    if IsLeaf(alpha, A, a) && IsLeaf(alpha, B, b) {
      var la: nat, lb: nat := LabelAtLeaf(alpha, A, a), LabelAtLeaf(alpha, B, b);
      assert f(la) == f(lb) ==> la == lb;
    }
  }

  /** ExpandRangeAt on a well-formed pair with a range leaf above s: the result is
      well formed, both codes gain the same number of leaves and s becomes an
      exposed caret of the range. */
  lemma ExpandRangeSpec(P: Pair, s: string)
    requires WellFormed(P) && Expands(P.alpha, P.ran, s)
    ensures var E := ExpandRangeOf(P, s);
            var u := ExpandRest(P.alpha, P.ran, s);
            && WellFormed(E)
            && Size(E.dom) == Size(P.dom) + ChainSize(|P.alpha|, u) - 1
            && Size(E.ran) == Size(P.ran) + ChainSize(|P.alpha|, u) - 1
            && IsExposedCaret(P.alpha, E.ran, s)
  {
    ExpandDomainSpec(Invert(P), s);
  }

  /** With no range leaf above s, or s off the alphabet, ExpandRangeAt changes nothing. */
  lemma ExpandRangeNoop(P: Pair, s: string)
    requires WellFormed(P) && !Expands(P.alpha, P.ran, s)
    ensures ExpandRangeOf(P, s) == P
  {
    ExpandDomainNoop(Invert(P), s);
  }

  /** A pair with one code on both sides stays so when its domain is expanded:
      the range is expanded at the same word. */
  lemma ExpandDomainDiagonal(P: Pair, s: string)
    requires WellFormed(P) && P.dom == P.ran
    ensures WellFormed(ExpandDomainOf(P, s)) && ExpandDomainOf(P, s).dom == ExpandDomainOf(P, s).ran
  {
    if Expands(P.alpha, P.dom, s) {
      ExpandDomainParts(P, s);
      ExpandDomainSpec(P, s);
      var p := ExpandLeaf(P.alpha, P.dom, s);
      LeafAtLabelSpec(P.alpha, P.dom, p);
      assert RangePoint(P, s) == p;
    } else {
      ExpandDomainNoop(P, s);
    }
  }

  /** The same for expanding the range. */
  lemma ExpandRangeDiagonal(P: Pair, s: string)
    requires WellFormed(P) && P.dom == P.ran
    ensures WellFormed(ExpandRangeOf(P, s)) && ExpandRangeOf(P, s).dom == ExpandRangeOf(P, s).ran
  {
    assert Invert(P) == P;
    ExpandDomainDiagonal(P, s);
  }

  // ---------------------------------------------------------------------------
  // Reduction

  /** The leaves below root, in alphabet order, carry l, l+1, ... */
  predicate ChildrenRun(alpha: string, t: Tree, root: string, l: int) {
    forall k | 0 <= k < |alpha| :: LabelAtLeaf(alpha, t, root + [alpha[k]]) == l + k
  }

  /** The range word whose caret ReduceDomainAt tries to match with the domain caret
      at s: the parent of the range leaf that, after relabelling, carries the label
      of s's first child. */
  function MatchedRoot(P: Pair, s: string): string
    requires |P.alpha| >= 1
  {
    var R := Reset(P);
    var w := LeafAtLabel(R.alpha, R.ran, LabelAtLeaf(R.alpha, R.dom, s + [R.alpha[0]]));
    if w == [] then [] else w[..|w| - 1]
  }

  /** ReduceDomainAt: relabel; unless s is an exposed domain caret whose first
      child's label sits in the range below a word whose children carry that label
      and its successors in alphabet order, report failure with only the relabelling
      done; otherwise reduce both carets and relabel again. */
  function ReduceDomainOf(P: Pair, s: string): (Pair, bool)
    requires |P.alpha| >= 1
  {
    var R := Reset(P);
    var l := LabelAtLeaf(R.alpha, R.dom, s + [R.alpha[0]]);
    if s !in Carets(R.alpha, R.dom) then (R, false)
    else if LeafAtLabel(R.alpha, R.ran, l) == [] then (R, false)
    else if !ChildrenRun(R.alpha, R.ran, MatchedRoot(P, s), l) then (R, false)
    else
      (Reset(Pair(R.alpha, ReduceAt(R.alpha, R.dom, s), ReduceAt(R.alpha, R.ran, MatchedRoot(P, s)))), true)
  }

  /** ReduceRangeAt: invert, reduce the domain, invert back and relabel. */
  function ReduceRangeOf(P: Pair, s: string): (Pair, bool)
    requires |P.alpha| >= 1
  {
    var (Q, ok) := ReduceDomainOf(Invert(P), s);
    (Reset(Invert(Q)), ok)
  }

  /** The range has an exposed caret at root whose children are paired, in alphabet
      order, with the children of the domain caret at s. */
  ghost predicate CaretsMatch(P: Pair, s: string, root: string) {
    && IsExposedCaret(P.alpha, P.ran, root)
    && forall k | 0 <= k < |P.alpha| :: Paired(P, s + [P.alpha[k]], root + [P.alpha[k]])
  }

  /** Matching carets depend only on the shapes and the element. */
  lemma CaretsMatchEquivalent(P: Pair, Q: Pair, s: string, root: string)
    requires Equivalent(P, Q)
    ensures CaretsMatch(P, s, root) <==> CaretsMatch(Q, s, root)
    ensures IsExposedCaret(P.alpha, P.dom, s) <==> IsExposedCaret(Q.alpha, Q.dom, s)
  {
    assert IsExposedCaret(P.alpha, P.dom, s) == IsExposedCaret(Q.alpha, Q.dom, s) by {
      SameShapeAt(P.alpha, P.dom, Q.dom, s);
    }
    assert IsExposedCaret(P.alpha, P.ran, root) == IsExposedCaret(Q.alpha, Q.ran, root) by {
      SameShapeAt(P.alpha, P.ran, Q.ran, root);
    }
  }

  /** In a well-formed pair with natural labels, a successful check finds matching carets. */
  lemma NaturalMatchFound(R: Pair, s: string)
    requires WellFormed(R) && Natural(R) && IsExposedCaret(R.alpha, R.dom, s)
    requires var l := LabelAtLeaf(R.alpha, R.dom, s + [R.alpha[0]]);
             var w := LeafAtLabel(R.alpha, R.ran, l);
             w != [] && ChildrenRun(R.alpha, R.ran, w[..|w| - 1], l)
    ensures var l := LabelAtLeaf(R.alpha, R.dom, s + [R.alpha[0]]);
            var w := LeafAtLabel(R.alpha, R.ran, l);
            CaretsMatch(R, s, w[..|w| - 1])
  {
    var alpha := R.alpha;
    var l := LabelAtLeaf(alpha, R.dom, s + [alpha[0]]);
    var w := LeafAtLabel(alpha, R.ran, l);
    var root := w[..|w| - 1];
    NaturalCaretOrdered(alpha, R.dom, s);
    forall k | 0 <= k < |alpha| ensures Paired(R, s + [alpha[k]], root + [alpha[k]]) {
      OrderedCaretLeaves(alpha, R.dom, s, k);
      OrderedCaretLeaves(alpha, R.dom, s, 0);
      assert LabelAtLeaf(alpha, R.ran, root + [alpha[k]]) == l + k;
    }
    assert IsExposedCaret(alpha, R.ran, root) by {
      assert LabelAtLeaf(alpha, R.ran, root + [alpha[0]]) == l;
      SubtreeParent(alpha, R.ran, root, alpha[0]);
      var kids := Subtree(alpha, R.ran, root).value.kids;
      FullSubtree(alpha, R.ran, |alpha|, root);
      forall j | 0 <= j < |kids| ensures kids[j].Leaf? {
        SubtreeChild(alpha, R.ran, root, j);
        assert LabelAtLeaf(alpha, R.ran, root + [alpha[j]]) == l + j;
      }
    }
  }

  /** In a well-formed pair with natural labels, matching carets pass the check,
      and the matched range caret is the one the check computes. */
  lemma NaturalMatchChecked(R: Pair, s: string, root: string)
    requires WellFormed(R) && Natural(R) && IsExposedCaret(R.alpha, R.dom, s) && CaretsMatch(R, s, root)
    ensures var l := LabelAtLeaf(R.alpha, R.dom, s + [R.alpha[0]]);
            var w := LeafAtLabel(R.alpha, R.ran, l);
            w == root + [R.alpha[0]] && ChildrenRun(R.alpha, R.ran, root, l)
  {
    var alpha := R.alpha;
    var l := LabelAtLeaf(alpha, R.dom, s + [alpha[0]]);
    NaturalCaretOrdered(alpha, R.dom, s);
    assert Paired(R, s + [alpha[0]], root + [alpha[0]]);
    LeafAtLabelSpec(alpha, R.ran, root + [alpha[0]]);
    forall k | 0 <= k < |alpha| ensures LabelAtLeaf(alpha, R.ran, root + [alpha[k]]) == l + k {
      OrderedCaretLeaves(alpha, R.dom, s, k);
      OrderedCaretLeaves(alpha, R.dom, s, 0);
      assert Paired(R, s + [alpha[k]], root + [alpha[k]]);
    }
  }

  /** ReduceDomainAt succeeds exactly when s is an exposed domain caret and some
      range caret's children are paired with s's children in alphabet order; that
      range caret is the one it finds; on failure only the relabelling is done. */
  lemma ReduceDomainOk(P: Pair, s: string)
    requires WellFormed(P)
    ensures ReduceDomainOf(P, s).1
            <==> IsExposedCaret(P.alpha, P.dom, s) && exists root :: CaretsMatch(P, s, root)
    ensures ReduceDomainOf(P, s).1 ==> CaretsMatch(P, s, MatchedRoot(P, s))
    ensures forall root :: IsExposedCaret(P.alpha, P.dom, s) && CaretsMatch(P, s, root) ==> root == MatchedRoot(P, s)
    ensures !ReduceDomainOf(P, s).1 ==> ReduceDomainOf(P, s).0 == Reset(P)
  {
    var R := Reset(P);
    var alpha := P.alpha;
    ResetSpec(P);
    CaretsSpec(alpha, R.dom, s);
    var l := LabelAtLeaf(alpha, R.dom, s + [alpha[0]]);
    var w := LeafAtLabel(alpha, R.ran, l);
    if ReduceDomainOf(P, s).1 {
      NaturalMatchFound(R, s);
      CaretsMatchEquivalent(P, R, s, MatchedRoot(P, s));
    }
    forall root | IsExposedCaret(alpha, P.dom, s) && CaretsMatch(P, s, root)
      ensures root == MatchedRoot(P, s) && ReduceDomainOf(P, s).1
    {
      CaretsMatchEquivalent(P, R, s, root);
      NaturalMatchChecked(R, s, root);
      assert w[..|w| - 1] == root;
    }
  }

  /** Leaf a of A and leaf b of B carry the same label. */
  predicate SharedLabel(alpha: string, A: Tree, B: Tree, a: string, b: string) {
    IsLeaf(alpha, A, a) && IsLeaf(alpha, B, b) && LabelAtLeaf(alpha, A, a) == LabelAtLeaf(alpha, B, b)
  }

  /** The caret label run l .. l+k-1 shared by two ordered carets. */
  predicate SameRun(alpha: string, A: Tree, B: Tree, sa: string, sb: string) {
    && Distinct(alpha) && IsCode(alpha, A) && IsCode(alpha, B)
    && OrderedCaret(alpha, A, sa) && OrderedCaret(alpha, B, sb)
    && Subtree(alpha, A, sa).value.kids[0].lbl == Subtree(alpha, B, sb).value.kids[0].lbl
  }

  /** After reducing both carets, their roots are leaves with the same label. */
  lemma ReduceBothRoots(alpha: string, A: Tree, B: Tree, sa: string, sb: string)
    requires SameRun(alpha, A, B, sa, sb)
    ensures SharedLabel(alpha, ReduceAt(alpha, A, sa), ReduceAt(alpha, B, sb), sa, sb)
  {
    ReduceAtWords(alpha, A, sa, sa);
    ReduceAtWords(alpha, B, sb, sb);
  }

  /** After reducing both carets, the first root shares its label with no other leaf. */
  lemma ReduceOneRoot(alpha: string, A: Tree, B: Tree, sa: string, sb: string, b: string)
    requires SameRun(alpha, A, B, sa, sb) && b != sb
    ensures !SharedLabel(alpha, ReduceAt(alpha, A, sa), ReduceAt(alpha, B, sb), sa, b)
  {
    var kids := Subtree(alpha, B, sb).value.kids;
    var l := kids[0].lbl;
    ReduceAtWords(alpha, A, sa, sa);
    ReduceAtWords(alpha, B, sb, b);
    if !IsPrefix(sb, b) && IsLeaf(alpha, B, b) {
      CaretLabelOwner(alpha, B, sb, b);
      var m := LabelAtLeaf(alpha, B, b);
      assert m < l || m >= l + |kids|;
      assert Unshift(l, |kids| - 1)(m) != l;
    }
  }

  /** After reducing a caret, no word strictly below its root is a leaf. */
  lemma ReduceBelow(alpha: string, A: Tree, sa: string, a: string)
    requires IsExposedCaret(alpha, A, sa) && IsPrefix(sa, a) && a != sa
    ensures !IsLeaf(alpha, ReduceAt(alpha, A, sa), a)
  {
    ReduceAtWords(alpha, A, sa, a);
  }

  /** Away from both carets, leaves share a label after the reduction exactly when
      they did before. */
  lemma ReduceOutside(alpha: string, A: Tree, B: Tree, sa: string, sb: string, a: string, b: string)
    requires SameRun(alpha, A, B, sa, sb) && !IsPrefix(sa, a) && !IsPrefix(sb, b)
    ensures SharedLabel(alpha, ReduceAt(alpha, A, sa), ReduceAt(alpha, B, sb), a, b)
            <==> SharedLabel(alpha, A, B, a, b)
  {
    ReduceAway(alpha, A, sa, a);
    ReduceAway(alpha, B, sb, b);
  }

  /** A leaf away from a reduced caret stays a leaf; its label drops by k-1 when
      it lay above the caret's run of k labels and stays otherwise. */
  lemma ReduceAway(alpha: string, t: Tree, s: string, v: string)
    requires Distinct(alpha) && IsCode(alpha, t) && OrderedCaret(alpha, t, s) && !IsPrefix(s, v)
    ensures IsLeaf(alpha, ReduceAt(alpha, t, s), v) == IsLeaf(alpha, t, v)
    ensures var l := Subtree(alpha, t, s).value.kids[0].lbl;
            var m := LabelAtLeaf(alpha, t, v);
            IsLeaf(alpha, t, v) ==>
              && (m < l || m >= l + |alpha|)
              && LabelAtLeaf(alpha, ReduceAt(alpha, t, s), v) == if m < l then m else m - (|alpha| - 1)
  {
    var kids := Subtree(alpha, t, s).value.kids;
    FullSubtree(alpha, t, |alpha|, s);
    ReduceAtWords(alpha, t, s, v);
    if IsLeaf(alpha, t, v) {
      CaretLabelOwner(alpha, t, s, v);
    }
  }

  /** Reducing two carets with the same label run: the roots become leaves that
      share a label, words strictly below them disappear, and every other pair of
      leaves shares a label exactly when it did before. */
  lemma ReduceShared(alpha: string, A: Tree, B: Tree, sa: string, sb: string, a: string, b: string)
    requires SameRun(alpha, A, B, sa, sb)
    ensures SharedLabel(alpha, ReduceAt(alpha, A, sa), ReduceAt(alpha, B, sb), a, b)
            <==> if a == sa || b == sb then a == sa && b == sb
                 else !IsPrefix(sa, a) && !IsPrefix(sb, b) && SharedLabel(alpha, A, B, a, b)
  {
    if a == sa && b == sb {
      ReduceBothRoots(alpha, A, B, sa, sb);
    } else if a == sa {
      ReduceOneRoot(alpha, A, B, sa, sb, b);
    } else if b == sb {
      ReduceOneRoot(alpha, B, A, sb, sa, a);
    } else if IsPrefix(sa, a) {
      ReduceBelow(alpha, A, sa, a);
    } else if IsPrefix(sb, b) {
      ReduceBelow(alpha, B, sb, b);
    } else {
      ReduceOutside(alpha, A, B, sa, sb, a, b);
    }
  }

  /** The element after a reduction: the two caret roots are paired, nothing
      strictly below them is a leaf, and every other pairing is the old one. */
  ghost predicate ReducedPairing(P: Pair, s: string, root: string, d: string, r: string) {
    if d == s || r == root then d == s && r == root
    else !IsPrefix(s, d) && !IsPrefix(root, r) && Paired(P, d, r)
  }

  /** Matching carets of a well-formed pair with natural labels carry the same run of labels. */
  lemma MatchSameRun(R: Pair, s: string, root: string)
    requires WellFormed(R) && Natural(R) && IsExposedCaret(R.alpha, R.dom, s) && CaretsMatch(R, s, root)
    ensures SameRun(R.alpha, R.dom, R.ran, s, root)
  {
    var alpha := R.alpha;
    NaturalCaretOrdered(alpha, R.dom, s);
    var kids := Subtree(alpha, R.ran, root).value.kids;
    FullSubtree(alpha, R.ran, |alpha|, root);
    OrderedCaretLeaves(alpha, R.dom, s, 0);
    forall j | 0 <= j < |kids| ensures kids[j].lbl == kids[0].lbl + j {
      SubtreeChild(alpha, R.ran, root, j);
      SubtreeChild(alpha, R.ran, root, 0);
      OrderedCaretLeaves(alpha, R.dom, s, j);
      assert Paired(R, s + [alpha[j]], root + [alpha[j]]);
      assert Paired(R, s + [alpha[0]], root + [alpha[0]]);
    }
    SubtreeChild(alpha, R.ran, root, 0);
    assert Paired(R, s + [alpha[0]], root + [alpha[0]]);
  }

  /** A successful ReduceDomainAt on a well-formed pair leaves a well-formed pair
      with natural labels and k-1 fewer leaves on each side, denoting the element
      with the matched carets collapsed. */
  lemma ReduceDomainSpec(P: Pair, s: string)
    requires WellFormed(P) && ReduceDomainOf(P, s).1
    ensures var Q := ReduceDomainOf(P, s).0;
            && WellFormed(Q) && Natural(Q)
            && Size(Q.dom) == Size(P.dom) - (|P.alpha| - 1)
            && forall d, r :: Paired(Q, d, r) <==> ReducedPairing(P, s, MatchedRoot(P, s), d, r)
  {
    var alpha := P.alpha;
    var R := Reset(P);
    var root := MatchedRoot(P, s);
    ResetSpec(P);
    ReduceDomainOk(P, s);
    CaretsMatchEquivalent(P, R, s, root);
    CaretsSpec(alpha, R.dom, s);
    MatchSameRun(R, s, root);
    var M := Pair(alpha, ReduceAt(alpha, R.dom, s), ReduceAt(alpha, R.ran, root));
    ReduceAtCode(alpha, R.dom, s);
    ReduceAtCode(alpha, R.ran, root);
    SameShapeSize(P.dom, R.dom);
    assert WellFormed(M);
    ResetSpec(M);
    var Q := Reset(M);
    SameShapeSize(M.dom, Q.dom);
    forall d, r ensures Paired(Q, d, r) <==> ReducedPairing(P, s, root, d, r) {
      ReduceShared(alpha, R.dom, R.ran, s, root, d, r);
    }
  }

  /** Equivalence is symmetric and transitive. */
  lemma EquivalentSymmetric(P: Pair, Q: Pair)
    requires Equivalent(P, Q)
    ensures Equivalent(Q, P)
  {
    SameShapeSymmetric(P.dom, Q.dom);
    SameShapeSymmetric(P.ran, Q.ran);
  }

  lemma EquivalentTrans(P: Pair, Q: Pair, S: Pair)
    requires Equivalent(P, Q) && Equivalent(Q, S)
    ensures Equivalent(P, S)
  {
    SameShapeTransitive(P.dom, Q.dom, S.dom);
    SameShapeTransitive(P.ran, Q.ran, S.ran);
  }

  /** ResetLabels gives one and the same result on all equivalent well-formed
      pairs: the natural labelling of an element's shapes is unique. */
  lemma ResetCanonical(X: Pair, Y: Pair)
    requires WellFormed(X) && WellFormed(Y) && Equivalent(X, Y)
    ensures Reset(X) == Reset(Y)
  {
    var alpha := X.alpha;
    var A, B := Reset(X), Reset(Y);
    ResetSpec(X);
    ResetSpec(Y);
    EquivalentSymmetric(X, A);
    EquivalentTrans(A, X, Y);
    EquivalentTrans(A, Y, B);
    SameShapeSize(A.dom, B.dom);
    forall w | IsLeaf(alpha, A.dom, w) ensures LabelAtLeaf(alpha, A.dom, w) == LabelAtLeaf(alpha, B.dom, w) {
      SameShapeAt(alpha, A.dom, B.dom, w);
      LeafLabelAtOffset(alpha, A.dom, w);
      LeafLabelAtOffset(alpha, B.dom, w);
    }
    LeafLabelsDetermine(alpha, A.dom, B.dom);
    forall r | IsLeaf(alpha, A.ran, r) ensures LabelAtLeaf(alpha, A.ran, r) == LabelAtLeaf(alpha, B.ran, r) {
      var m := LabelAtLeaf(alpha, A.ran, r);
      LeafLabelIn(alpha, A.ran, r);
      assert m in Labels(A.dom);
      FindLabelComplete(alpha, A.dom, m);
      FindLabelSound(alpha, A.dom, m);
      var d := FindLabel(alpha, A.dom, m).value;
      assert Paired(A, d, r);
    }
    LeafLabelsDetermine(alpha, A.ran, B.ran);
  }

  /** Inverting equivalent pairs gives equivalent pairs. */
  lemma EquivalentInvert(P: Pair, Q: Pair)
    requires Equivalent(P, Q)
    ensures Equivalent(Invert(P), Invert(Q))
  {
    forall d, r ensures Paired(Invert(P), d, r) <==> Paired(Invert(Q), d, r) {
      InvertPaired(P, r, d);
      InvertPaired(Q, r, d);
    }
  }

  /** ReduceDomainAt fails on P exactly when it fails on any pair equivalent to P. */
  lemma ReduceDomainEquivalent(P: Pair, Q: Pair, s: string)
    requires WellFormed(P) && WellFormed(Q) && Equivalent(P, Q)
    ensures ReduceDomainOf(P, s).1 == ReduceDomainOf(Q, s).1
  {
    ReduceDomainOk(P, s);
    ReduceDomainOk(Q, s);
    forall root ensures CaretsMatch(P, s, root) <==> CaretsMatch(Q, s, root) {
      CaretsMatchEquivalent(P, Q, s, root);
    }
    CaretsMatchEquivalent(P, Q, s, []);
  }

  /** ReduceRangeAt mirrors ReduceDomainAt: it succeeds exactly when s is an exposed
      range caret whose children are paired in alphabet order with the children of
      a domain caret; on failure only the relabelling is done; on success the pair
      is well formed and natural, has k-1 fewer leaves on each side, and denotes the
      element with the matched carets collapsed. */
  lemma ReduceRangeSpec(P: Pair, s: string)
    requires WellFormed(P)
    ensures ReduceRangeOf(P, s).1
            <==> IsExposedCaret(P.alpha, P.ran, s) && exists root :: CaretsMatch(Invert(P), s, root)
    ensures !ReduceRangeOf(P, s).1 ==> ReduceRangeOf(P, s).0 == Reset(P)
    ensures var Q := ReduceRangeOf(P, s).0;
            ReduceRangeOf(P, s).1 ==>
              && WellFormed(Q) && Natural(Q)
              && Size(Q.dom) == Size(P.dom) - (|P.alpha| - 1)
              && forall d, r :: Paired(Q, d, r) <==> ReducedPairing(Invert(P), s, MatchedRoot(Invert(P), s), r, d)
  {
    var I := Invert(P);
    var (Q1, ok) := ReduceDomainOf(I, s);
    var Q := Reset(Invert(Q1));
    ReduceDomainOk(I, s);
    if ok {
      ReduceDomainSpec(I, s);
      ResetSpec(Invert(Q1));
      SameShapeSize(Invert(Q1).dom, Q.dom);
      forall d, r ensures Paired(Q, d, r) <==> Paired(Q1, r, d) {
        InvertPaired(Q1, r, d);
      }
    } else {
      ResetSpec(I);
      EquivalentInvert(I, Q1);
      ResetCanonical(P, Invert(Q1));
    }
  }

  // ---------------------------------------------------------------------------
  // Minimisation

  /** One ReduceDomainAt keeps a well-formed pair well formed; it removes k-1 leaves
      when it succeeds and only relabels when it fails. */
  lemma ReduceStep(P: Pair, s: string)
    requires WellFormed(P)
    ensures WellFormed(ReduceDomainOf(P, s).0)
    ensures ReduceDomainOf(P, s).1 ==> Size(ReduceDomainOf(P, s).0.dom) < Size(P.dom)
    ensures !ReduceDomainOf(P, s).1 ==> ReduceDomainOf(P, s).0 == Reset(P)
    ensures Size(ReduceDomainOf(P, s).0.dom) <= Size(P.dom)
  {
    ReduceDomainOk(P, s);
    ResetSpec(P);
    SameShapeSize(P.dom, Reset(P).dom);
    if ReduceDomainOf(P, s).1 {
      ReduceDomainSpec(P, s);
    }
  }

  /** ReduceDomainAt on any pair whose domain is a full tree over a good alphabet,
      labels and range aside: the domain stays full, and it loses leaves exactly
      when the call reports success. */
  lemma ReduceShrinksAnyPair(P: Pair, s: string)
    requires GoodAlphabet(P.alpha) && Full(P.dom, |P.alpha|)
    ensures var (Q, ok) := ReduceDomainOf(P, s);
            && Q.alpha == P.alpha && Full(Q.dom, |P.alpha|)
            && (ok ==> Size(Q.dom) < Size(P.dom))
            && (!ok ==> Size(Q.dom) == Size(P.dom))
  {
    var R := Reset(P);
    ApplyPermShape(P.dom, InverseOf(Labels(P.dom)));
    SameShapeFull(P.dom, R.dom, |P.alpha|);
    SameShapeSize(P.dom, R.dom);
    if ReduceDomainOf(P, s).1 {
      CaretsSpec(R.alpha, R.dom, s);
      ReduceAtShape(R.alpha, R.dom, s);
      var D := ReduceAt(R.alpha, R.dom, s);
      var E := Pair(R.alpha, D, ReduceAt(R.alpha, R.ran, MatchedRoot(P, s)));
      ApplyPermShape(D, InverseOf(Labels(D)));
      SameShapeFull(D, Reset(E).dom, |P.alpha|);
      SameShapeSize(D, Reset(E).dom);
    }
  }

  /** One round of Minimise: ReduceDomainAt at each listed word in turn, and whether
      any of them reduced. A round that reduces shrinks the domain; a well-formed
      pair stays well formed. */
  function Pass(P: Pair, spots: seq<string>): (r: (Pair, bool))
    requires GoodAlphabet(P.alpha) && Full(P.dom, |P.alpha|)
    ensures r.0.alpha == P.alpha && Full(r.0.dom, |P.alpha|)
    ensures WellFormed(P) ==> WellFormed(r.0)
    ensures Size(r.0.dom) <= Size(P.dom)
    ensures r.1 ==> Size(r.0.dom) < Size(P.dom)
    decreases |spots|
  {
    if spots == [] then (P, false)
    else
      ReduceShrinksAnyPair(P, spots[0]);
      var step := ReduceDomainOf(P, spots[0]);
      assert WellFormed(P) ==> WellFormed(step.0) by {
        if WellFormed(P) { ReduceStep(P, spots[0]); }
      }
      var rest := Pass(step.0, spots[1..]);
      (rest.0, step.1 || rest.1)
  }

  /** Minimise: rounds over the domain's exposed carets, as listed at the start of
      each round, until a round reduces nothing. The rounds end on every pair whose
      domain is full, well formed or not, since each round that reduces shrinks
      the domain. */
  function MinimiseOf(P: Pair): (M: Pair)
    requires GoodAlphabet(P.alpha) && Full(P.dom, |P.alpha|)
    ensures M.alpha == P.alpha && Full(M.dom, |P.alpha|)
    ensures WellFormed(P) ==> WellFormed(M)
    decreases Size(P.dom)
  {
    var (Q, changed) := Pass(P, Carets(P.alpha, P.dom));
    if changed then MinimiseOf(Q) else Q
  }

  /** A round that reduces nothing has only relabelled, and every ReduceDomainAt in
      it failed on the pair the round started from. */
  lemma {:induction false} PassUnchanged(P: Pair, spots: seq<string>)
    requires WellFormed(P) && !Pass(P, spots).1
    ensures Pass(P, spots).0 == if spots == [] then P else Reset(P)
    ensures forall j | 0 <= j < |spots| :: !ReduceDomainOf(P, spots[j]).1
    decreases |spots|
  {
    if spots != [] {
      ReduceStep(P, spots[0]);
      var Q := Reset(P);
      ResetSpec(P);
      PassUnchanged(Q, spots[1..]);
      if spots[1..] != [] {
        ResetIdempotent(P);
      }
      forall j | 1 <= j < |spots| ensures !ReduceDomainOf(P, spots[j]).1 {
        assert spots[j] == spots[1..][j - 1];
        ReduceDomainEquivalent(P, Q, spots[j]);
      }
    }
  }

  /** On a natural pair where ReduceDomainAt fails at every listed word, a round
      changes nothing at all. */
  lemma {:induction false} PassAllFail(P: Pair, spots: seq<string>)
    requires WellFormed(P) && Natural(P)
    requires forall j | 0 <= j < |spots| :: !ReduceDomainOf(P, spots[j]).1
    ensures Pass(P, spots) == (P, false)
    decreases |spots|
  {
    if spots != [] {
      ReduceStep(P, spots[0]);
      ResetNatural(P);
      forall j | 0 <= j < |spots[1..]| ensures !ReduceDomainOf(P, spots[1..][j]).1 {
        assert spots[1..][j] == spots[j + 1];
      }
      PassAllFail(P, spots[1..]);
    }
  }

  /** Minimise stops at a fixpoint: ReduceDomainAt fails at every exposed domain
      caret of the result, whose labels are natural unless it has no caret. */
  lemma {:induction false} MinimiseFixpoint(P: Pair)
    requires WellFormed(P)
    ensures var M := MinimiseOf(P);
            && (forall s | s in Carets(M.alpha, M.dom) :: !ReduceDomainOf(M, s).1)
            && (Natural(M) || Carets(M.alpha, M.dom) == [])
    decreases Size(P.dom)
  {
    var C := Carets(P.alpha, P.dom);
    var (Q, changed) := Pass(P, C);
    if changed {
      MinimiseFixpoint(Q);
    } else {
      PassUnchanged(P, C);
      if C != [] {
        var M := Reset(P);
        ResetSpec(P);
        forall s | s in Carets(M.alpha, M.dom) ensures !ReduceDomainOf(M, s).1 {
          CaretsSpec(P.alpha, M.dom, s);
          CaretsSpec(P.alpha, P.dom, s);
          SameShapeAt(P.alpha, P.dom, M.dom, s);
          var j :| 0 <= j < |C| && C[j] == s;
          ReduceDomainEquivalent(P, M, s);
        }
      }
    }
  }

  /** A second Minimise changes nothing. */
  lemma MinimiseIdempotent(P: Pair)
    requires WellFormed(P)
    ensures MinimiseOf(MinimiseOf(P)) == MinimiseOf(P)
  {
    var M := MinimiseOf(P);
    var C := Carets(M.alpha, M.dom);
    MinimiseFixpoint(P);
    if C != [] {
      forall j | 0 <= j < |C| ensures !ReduceDomainOf(M, C[j]).1 {
        assert C[j] in C;
      }
      PassAllFail(M, C);
    }
  }

  /** A round over a list ending in x is the round over the rest followed by one
      ReduceDomainAt at x. */
  lemma {:induction false} PassSnoc(P: Pair, xs: seq<string>, x: string)
    requires GoodAlphabet(P.alpha) && Full(P.dom, |P.alpha|)
    ensures var r := Pass(P, xs);
            var step := ReduceDomainOf(r.0, x);
            Pass(P, xs + [x]) == (step.0, r.1 || step.1)
    decreases |xs|
  {
    if xs == [] {
      assert [x][1..] == [];
    } else {
      ReduceShrinksAnyPair(P, xs[0]);
      assert (xs + [x])[1..] == xs[1..] + [x];
      PassSnoc(ReduceDomainOf(P, xs[0]).0, xs[1..], x);
    }
  }

  // ---------------------------------------------------------------------------
  // The identity element

  /** The pair a new tree pair starts from: both codes are one caret whose
      children, in alphabet order, are labelled 0, 1, ... */
  function Trivial(alpha: string): Pair {
    Pair(alpha, Node(Leaves(0, |alpha|)), Node(Leaves(0, |alpha|)))
  }

  /** The leaves of a single caret are the one-symbol words, labelled by the
      symbol's position. */
  lemma CaretLeaf(alpha: string, d: string)
    ensures IsLeaf(alpha, Node(Leaves(0, |alpha|)), d) <==> |d| == 1 && d[0] in alpha
    ensures IsLeaf(alpha, Node(Leaves(0, |alpha|)), d) ==>
              LabelAtLeaf(alpha, Node(Leaves(0, |alpha|)), d) == IndexOf(alpha, d[0])
  {
    var t := Node(Leaves(0, |alpha|));
    if d != [] {
      var i := IndexOf(alpha, d[0]);
      if 0 <= i {
        assert Subtree(alpha, t, d) == Subtree(alpha, Leaf(i), d[1..]);
        if d[1..] != [] {
          assert Subtree(alpha, Leaf(i), d[1..]) == None;
        } else {
          assert |d| == 1;
        }
      }
    }
  }

  /** The trivial pair is well formed and natural, and denotes the identity: each
      one-symbol word is paired with itself and with nothing else. */
  lemma TrivialSpec(alpha: string)
    requires GoodAlphabet(alpha)
    ensures WellFormed(Trivial(alpha)) && Natural(Trivial(alpha))
    ensures forall d, r :: Paired(Trivial(alpha), d, r) <==> |d| == 1 && d[0] in alpha && r == d
  {
    var k := |alpha|;
    var t := Node(Leaves(0, k));
    LeavesLabels(0, k);
    assert Labels(t) == Range(0, k);
    assert ValidLabels(Range(0, k)) by {
      forall v | 0 <= v < k ensures v in Range(0, k) {
        assert Range(0, k)[v] == v;
      }
    }
    assert Full(t, k);
    forall d, r ensures Paired(Trivial(alpha), d, r) <==> |d| == 1 && d[0] in alpha && r == d {
      CaretLeaf(alpha, d);
      CaretLeaf(alpha, r);
      if Paired(Trivial(alpha), d, r) {
        assert alpha[IndexOf(alpha, d[0])] == d[0];
        assert d == [d[0]] && r == [r[0]];
      }
    }
  }

  /** The trivial pair expanded in the domain at one word and in the range at
      another is still one code on both sides. */
  lemma TrivialExpansions(alpha: string, s: string, t: string)
    requires GoodAlphabet(alpha)
    ensures var E := ExpandRangeOf(ExpandDomainOf(Trivial(alpha), s), t);
            WellFormed(E) && E.dom == E.ran
  {
    TrivialSpec(alpha);
    ExpandDomainDiagonal(Trivial(alpha), s);
    ExpandRangeDiagonal(ExpandDomainOf(Trivial(alpha), s), t);
  }
}
