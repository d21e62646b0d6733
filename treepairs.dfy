/**
  The engine's tree pair as an object: an alphabet and two prefix codes that
  the operations rewrite in place. Each method follows the engine's own steps
  and states its new state as the matching function of Pairs applied to the
  old state, so what Pairs proves about those functions holds of the object.
*/
module TreePairs {
  import opened PrefCode
  import opened CodeOps
  import opened Pairs
  import opened Classify

  class TreePair {
    const alphabet: string
    var dom: Tree
    var ran: Tree

    /** The pair the object currently holds. */
    function Value(): Pair
      reads this
    {
      Pair(alphabet, dom, ran)
    }

    predicate Valid()
      reads this
    {
      WellFormed(Value())
    }

    /** Both codes start as a single caret labelled in alphabet order: the identity. */
    constructor (alpha: string)
      requires GoodAlphabet(alpha)
      ensures Value() == Trivial(alpha)
      ensures Valid() && Natural(Value())
    {
      alphabet := alpha;
      dom := Node(Leaves(0, |alpha|));
      ran := Node(Leaves(0, |alpha|));
      new;
      TrivialSpec(alpha);
    }

    /** NewTreePairAlpha: the identity over alpha, or nothing when the library
        refuses the alphabet. */
    static method NewTreePairAlpha(alpha: string) returns (tp: TreePair?)
      ensures tp == null <==> !GoodAlphabet(alpha)
      ensures tp != null ==> fresh(tp) && tp.Value() == Trivial(alpha) && tp.Valid()
    {
      if !GoodAlphabet(alpha) {
        return null;
      }
      tp := new TreePair(alpha);
    }

    /** The number of domain leaves, which is also the range's. */
    function Size(): (n: nat)
      reads this
      ensures Valid() ==> n >= 1 && n == PrefCode.Size(ran)
    {
      if Valid() then SizePositive(dom, |alphabet|); PrefCode.Size(dom) else PrefCode.Size(dom)
    }

    method ApplyPermDomain(perm: map<int, int>) returns (ok: bool)
      modifies this
      ensures (dom, ok) == ApplyPerm(old(dom), perm) && ran == old(ran)
    {
      var r := ApplyPerm(dom, perm);
      dom := r.0;
      ok := r.1;
    }

    method ApplyPermRange(perm: map<int, int>) returns (ok: bool)
      modifies this
      ensures (ran, ok) == ApplyPerm(old(ran), perm) && dom == old(dom)
    {
      var r := ApplyPerm(ran, perm);
      ran := r.0;
      ok := r.1;
    }

    /** The same relabelling on both sides; a map that permutes the labels keeps
        the pair well formed and the element it denotes. */
    method PermuteLabels(perm: map<int, int>) returns (ok: bool)
      modifies this
      ensures (Value(), ok) == PermuteOf(old(Value()), perm)
      ensures old(Valid()) && IsPermOn(perm, PrefCode.Size(old(dom))) ==>
                ok && Valid() && Equivalent(old(Value()), Value())
    {
      ghost var P := Value();
      var domSuccess := ApplyPermDomain(perm);
      var ranSuccess := ApplyPermRange(perm);
      ok := domSuccess && ranSuccess;
      if WellFormed(P) && IsPermOn(perm, PrefCode.Size(P.dom)) {
        PermuteSpec(P, perm);
      }
    }

    /** ResetLabels: invert the domain's label sequence into a map, entry by
        entry, and apply it to both sides. */
    method ResetLabels() returns (ok: bool)
      modifies this
      ensures (Value(), ok) == ResetOf(old(Value()))
      ensures old(Valid()) ==> ok && Valid() && Natural(Value()) && Equivalent(old(Value()), Value())
    {
      ghost var P := Value();
      var currentPerm := Labels(dom);
      var inversePerm: map<int, int> := map[];
      var k := 0;
      while k < |currentPerm|
        invariant 0 <= k <= |currentPerm|
        invariant inversePerm == InverseOf(currentPerm[..k])
      {
        assert currentPerm[..k + 1][..k] == currentPerm[..k];
        inversePerm := inversePerm[currentPerm[k] := k];
        k := k + 1;
      }
      assert currentPerm[..k] == currentPerm;
      ok := PermuteLabels(inversePerm);
      if WellFormed(P) {
        ResetSpec(P);
      }
    }

    /** Invert: the codes trade places; labels are left as they are. */
    method Invert()
      modifies this
      ensures Value() == Pairs.Invert(old(Value()))
      ensures Valid() <==> old(Valid())
    {
      dom, ran := ran, dom;
      InvertPaired(old(Value()), [], []);
    }

    /** ExpandDomainAt: make s an exposed domain caret and expand the range at the
        matching place; s shallower than the domain's leaves changes nothing. */
    method ExpandDomainAt(s: string)
      modifies this
      ensures Value() == ExpandDomainOf(old(Value()), s)
      ensures old(Valid()) ==> Valid() && (Expands(alphabet, old(dom), s) <==> Size() > old(Size()))
    {
      ghost var P := Value();
      var prefixLeaf := GetPrefixOf(alphabet, dom, s);
      if WellFormed(P) {
        SizeClaim(P, s);
      }
      if prefixLeaf == [] && LeafAtLabel(alphabet, dom, 0) != [] {
        return;
      }
      var suffix := s[|prefixLeaf|..];
      var permValue := LabelAtLeaf(alphabet, dom, prefixLeaf);
      var newPrefix := LeafAtLabel(alphabet, ran, permValue);
      var ranExpandPt := newPrefix + suffix;
      dom := ExpandAt(alphabet, dom, s);
      ran := ExpandAt(alphabet, ran, ranExpandPt);
    }

    /** What an expansion does to the size of a well-formed pair. */
    static lemma SizeClaim(P: Pair, s: string)
      requires WellFormed(P)
      ensures WellFormed(ExpandDomainOf(P, s))
      ensures Expands(P.alpha, P.dom, s) <==> PrefCode.Size(ExpandDomainOf(P, s).dom) > PrefCode.Size(P.dom)
    {
      var E := ExpandDomainOf(P, s);
      if Expands(P.alpha, P.dom, s) {
        var u := ExpandRest(P.alpha, P.dom, s);
        var c := ChainSize(|P.alpha|, u);
        assert WellFormed(E) && PrefCode.Size(E.dom) == PrefCode.Size(P.dom) + c - 1 by {
          ExpandDomainSpec(P, s);
        }
      } else {
        ExpandDomainNoop(P, s);
      }
    }

    /** ExpandRangeAt: invert, expand the domain, invert back. */
    method ExpandRangeAt(s: string)
      modifies this
      ensures Value() == ExpandRangeOf(old(Value()), s)
      ensures old(Valid()) ==> Valid()
    {
      Invert();
      ExpandDomainAt(s);
      Invert();
    }

    /** ReduceDomainAt: relabel; check that s is an exposed domain caret and that
        its children's labels sit in order below one range word; if so reduce both
        carets and relabel again. */
    method ReduceDomainAt(s: string) returns (ok: bool)
      requires |alphabet| >= 1
      modifies this
      ensures (Value(), ok) == ReduceDomainOf(old(Value()), s)
      ensures old(Valid()) ==> Valid() && (ok ==> Size() < old(Size()))
    {
      ghost var P := Value();
      if WellFormed(P) {
        ReduceStep(P, s);
      }
      var _ := ResetLabels();
      var sRootOfExposedCaret := ContainsWord(Carets(alphabet, dom), s);
      if !sRootOfExposedCaret {
        return false;
      }
      var firstLeaf := s + [alphabet[0]];
      var leftLeafLabelDomain := LabelAtLeaf(alphabet, dom, firstLeaf);
      var firstImageLeaf := LeafAtLabel(alphabet, ran, leftLeafLabelDomain);
      if firstImageLeaf == [] {
        return false;
      }
      var rangeRoot := firstImageLeaf[..|firstImageLeaf| - 1];
      var inOrder := CheckChildrenRun(alphabet, ran, rangeRoot, leftLeafLabelDomain);
      if !inOrder {
        return false;
      }
      dom := ReduceAt(alphabet, dom, s);
      ran := ReduceAt(alphabet, ran, rangeRoot);
      var _ := ResetLabels();
      return true;
    }

    /** The scan of the exposed domain carets for s. */
    static method ContainsWord(ws: seq<string>, s: string) returns (found: bool)
      ensures found <==> s in ws
    {
      var i := 0;
      while i < |ws|
        invariant 0 <= i <= |ws|
        invariant s !in ws[..i]
      {
        if ws[i] == s {
          return true;
        }
        assert ws[..i + 1] == ws[..i] + [ws[i]];
        i := i + 1;
      }
      assert ws[..i] == ws;
      return false;
    }

    /** The check that root's children in t carry l, l+1, ... in alphabet order. */
    static method CheckChildrenRun(alpha: string, t: Tree, root: string, l: int) returns (ok: bool)
      ensures ok <==> ChildrenRun(alpha, t, root, l)
    {
      var k := 0;
      while k < |alpha|
        invariant 0 <= k <= |alpha|
        invariant forall j | 0 <= j < k :: LabelAtLeaf(alpha, t, root + [alpha[j]]) == l + j
      {
        if l + k != LabelAtLeaf(alpha, t, root + [alpha[k]]) {
          return false;
        }
        k := k + 1;
      }
      return true;
    }

    /** ReduceRangeAt: invert, reduce the domain, invert back, relabel. */
    method ReduceRangeAt(s: string) returns (ok: bool)
      requires |alphabet| >= 1
      modifies this
      ensures (Value(), ok) == ReduceRangeOf(old(Value()), s)
      ensures old(Valid()) ==> Valid() && Natural(Value())
    {
      Invert();
      ok := ReduceDomainAt(s);
      Invert();
      var _ := ResetLabels();
    }

    /** Minimise: try a reduction at every exposed domain caret listed at the start
        of the round, and go round again while some reduction succeeded. */
    method Minimise()
      requires GoodAlphabet(alphabet) && PrefCode.Full(dom, |alphabet|)
      modifies this
      ensures Value() == MinimiseOf(old(Value()))
      ensures old(Valid()) ==> Valid()
      decreases PrefCode.Size(dom)
    {
      ghost var P := Value();
      var domExposed := Carets(alphabet, dom);
      var madeReduction := false;
      var i := 0;
      while i < |domExposed|
        invariant 0 <= i <= |domExposed|
        invariant alphabet == P.alpha
        invariant (Value(), madeReduction) == Pass(P, domExposed[..i])
      {
        PassSnoc(P, domExposed[..i], domExposed[i]);
        var reduced := ReduceDomainAt(domExposed[i]);
        if reduced {
          madeReduction := true;
        }
        assert domExposed[..i + 1] == domExposed[..i] + [domExposed[i]];
        i := i + 1;
      }
      assert domExposed[..i] == domExposed;
      if madeReduction {
        Minimise();
      }
    }

    method Minimize()
      requires GoodAlphabet(alphabet) && PrefCode.Full(dom, |alphabet|)
      modifies this
      ensures Value() == MinimiseOf(old(Value()))
      ensures old(Valid()) ==> Valid()
    {
      Minimise();
    }

    /** InF: the range's label sequence agrees with the domain's at each index. */
    method InF() returns (b: bool)
      requires PrefCode.Size(ran) <= PrefCode.Size(dom)
      ensures b <==> InFSpec(Labels(dom), Labels(ran))
    {
      var domainPerm := Labels(dom);
      var rangePerm := Labels(ran);
      var k := 0;
      while k < |rangePerm|
        invariant 0 <= k <= |rangePerm|
        invariant forall j | 0 <= j < k :: rangePerm[j] == domainPerm[j]
      {
        if rangePerm[k] != domainPerm[k] {
          return false;
        }
        k := k + 1;
      }
      return true;
    }

    /** InT: copy the range's label sequence twice into a buffer, find the first
        copy of the domain's first label, and compare from there. Every read of the
        buffer and of the domain sequence is in bounds. */
    method InT() returns (b: bool)
      requires 1 <= PrefCode.Size(dom) && PrefCode.Size(ran) <= PrefCode.Size(dom)
      ensures b <==> InTSpec(Labels(dom), Labels(ran))
    {
      var domainPerm := Labels(dom);
      var rangePerm := Labels(ran);
      var lrp := |rangePerm|;
      var doubleRange := DoubleCopy(rangePerm);
      var lenDR := |doubleRange|;
      var firstVal := domainPerm[0];
      var startFound := false;
      var startSpot := 2 * lrp;
      ghost var j0 := FirstIndex(rangePerm, firstVal);
      var k := 0;
      while k < lenDR
        invariant 0 <= k <= lenDR
        invariant !startFound ==> startSpot == 2 * lrp && forall j | 0 <= j < k :: doubleRange[j] != firstVal
        invariant startFound ==> startSpot == j0 < lrp && startSpot < k <= startSpot + lrp - 1
        invariant startFound ==> forall i | 0 <= i < k - startSpot :: domainPerm[i] == doubleRange[startSpot + i]
      {
        if !startFound && doubleRange[k] == firstVal {
          FirstInDoubled(rangePerm, firstVal, k);
          startSpot := k;
          startFound := true;
        }
        if startFound && k < startSpot + lrp {
          if domainPerm[k - startSpot] != doubleRange[k] {
            return false;
          }
        }
        if k == startSpot + lrp - 1 {
          return true;
        }
        k := k + 1;
      }
      AbsentFromDoubled(rangePerm, firstVal);
      return false;
    }

    /** The buffer InT searches: each entry of rp stored at k and at k + |rp|. */
    static method DoubleCopy(rp: seq<nat>) returns (dr: seq<nat>)
      ensures dr == rp + rp
    {
      var lrp := |rp|;
      dr := seq(2 * lrp, _ => 0);
      var k := 0;
      while k < lrp
        invariant 0 <= k <= lrp && |dr| == 2 * lrp
        invariant forall j | 0 <= j < k :: dr[j] == rp[j] && dr[j + lrp] == rp[j]
      {
        dr := dr[k := rp[k]][k + lrp := rp[k]];
        k := k + 1;
      }
      forall j | 0 <= j < 2 * lrp
        ensures dr[j] == (rp + rp)[j]
      {
        if j >= lrp {
          assert dr[(j - lrp) + lrp] == rp[j - lrp];
        }
      }
    }

    /** InV: every element is in V. */
    function InV(): (b: bool)
      ensures b == InVSpec(Labels(dom), Labels(ran))
      reads this
    {
      true
    }
  }
}
