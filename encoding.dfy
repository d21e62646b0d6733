/**
  Reading a tree pair from its depth-first notation, as in "{11000,10100,1 2 0}":
  the shape of the domain code, the shape of the range code, and the
  permutation that relabels the range so that the i-th domain leaf goes to the
  range leaf labelled i.
*/
module Encoding {
  import opened PrefCode
  import opened CodeOps
  import opened Pairs
  import opened Text
  import opened Dfs
  import opened TreePairs

  // ---------------------------------------------------------------------------
  // The notation as the engine reads it

  /** The integers of the first k tokens, keyed by position. */
  function PermPrefix(tokens: seq<string>, k: nat): map<int, int>
    requires k <= |tokens|
  {
    map i | 0 <= i < k && Atoi(tokens[i]).Some? :: Atoi(tokens[i]).value
  }

  lemma PermPrefixStep(tokens: seq<string>, k: nat)
    requires k < |tokens| && Atoi(tokens[k]).Some?
    ensures PermPrefix(tokens, k + 1) == PermPrefix(tokens, k)[k := Atoi(tokens[k]).value]
  {
  }

  /** The permutation field: token k read as an integer becomes the entry for
      key k; a token that is not an integer spoils the whole field. */
  function ParsePerm(tokens: seq<string>): Option<map<int, int>> {
    if forall i | 0 <= i < |tokens| :: Atoi(tokens[i]).Some? then Some(PermPrefix(tokens, |tokens|))
    else None
  }

  /** Three comma-separated fields, the first opening with '{' and the last closing with '}'. */
  predicate Braced(s: seq<string>) {
    |s| == 3 && |s[0]| >= 1 && s[0][0] == '{' && |s[2]| >= 1 && s[2][|s[2]| - 1] == '}'
  }

  /** What EncodeDFS leaves in the pair and reports, field by field as the
      engine goes: badly formed notation or a shape that fails the check leaves
      the pair alone; once the domain is decoded it stays, even when a later
      step fails; and the outcome of relabelling the range is not looked at. */
  function EncodeOf(P: Pair, dfs: string): (Pair, bool) {
    var s := Split(dfs, ',');
    if !Braced(s) then (P, false)
    else
      var k := |P.alpha|;
      var d := s[0][1..];
      var r := s[1];
      var p := s[2][..|s[2]| - 1];
      if !ValidDfs(k, d) || !ValidDfs(k, r) then (P, false)
      else
        match DecodeDfs(d, k)
        case None => (P, false)
        case Some(D) =>
          match DecodeDfs(r, k)
          case None => (Pair(P.alpha, D, P.ran), false)
          case Some(R) =>
            match ParsePerm(Split(p, ' '))
            case None => (Pair(P.alpha, D, R), false)
            case Some(perm) => (Pair(P.alpha, D, ApplyPerm(R, perm).0), true)
  }

  /** The loop of EncodeDFS over the permutation tokens: each token in turn read
      as an integer and stored under its position, stopping at the first token
      that is not one. */
  method ReadPerm(tokens: seq<string>) returns (perm: Option<map<int, int>>)
    ensures perm == ParsePerm(tokens)
  {
    var m: map<int, int> := map[];
    var k := 0;
    while k < |tokens|
      invariant 0 <= k <= |tokens|
      invariant forall i | 0 <= i < k :: Atoi(tokens[i]).Some?
      invariant m == PermPrefix(tokens, k)
    {
      var pv := Atoi(tokens[k]);
      if pv.None? {
        return None;
      }
      PermPrefixStep(tokens, k);
      m := m[k := pv.value];
      k := k + 1;
    }
    return Some(m);
  }

  /** EncodeDFS: reads the notation into the pair, step by step. */
  method EncodeDFS(tp: TreePair, dfs: string) returns (ok: bool)
    modifies tp
    ensures (tp.Value(), ok) == EncodeOf(old(tp.Value()), dfs)
  {
    ghost var P := tp.Value();
    var s := Split(dfs, ',');
    if |s| != 3 {
      return false;
    }
    if !(|s[0]| >= 1 && s[0][0] == '{') || !(|s[2]| >= 1 && s[2][|s[2]| - 1] == '}') {
      return false;
    }
    var field0 := s[0][1..];
    var field2 := s[2][..|s[2]| - 1];
    var alphaSize := |tp.alphabet|;
    if !ValidDfs(alphaSize, field0) || !ValidDfs(alphaSize, s[1]) {
      return false;
    }
    var d := DecodeDfs(field0, alphaSize);
    if d.None? {
      return false;
    }
    tp.dom := d.value;
    var r := DecodeDfs(s[1], alphaSize);
    if r.None? {
      assert EncodeOf(P, dfs) == (Pair(P.alpha, d.value, P.ran), false);
      return false;
    }
    tp.ran := r.value;
    var perm := ReadPerm(Split(field2, ' '));
    if perm.None? {
      return false;
    }
    var _ := tp.ApplyPermRange(perm.value);
    return true;
  }

  // ---------------------------------------------------------------------------
  // Writing the notation

  /** Each label in decimal. */
  function Numerals(L: seq<nat>): (r: seq<string>)
    ensures |r| == |L|
  {
    seq(|L|, i requires 0 <= i < |L| => NatToString(L[i]))
  }

  /** The notation of two codes: their shapes, then the range's labels in
      dictionary order separated by spaces. */
  function Notation(D: Tree, R: Tree): string
    requires Size(R) >= 1
  {
    "{" + Shape(D) + "," + Shape(R) + "," + Join(Numerals(Labels(R)), ' ') + "}"
  }

  /** The map sending position i to entry i of a labelling. */
  function PositionMap(L: seq<nat>): map<int, int> {
    map i | 0 <= i < |L| :: L[i]
  }

  lemma PositionMapPerm(L: seq<nat>)
    requires ValidLabels(L)
    ensures IsPermOn(PositionMap(L), |L|)
  {
    var m := PositionMap(L);
    forall v | 0 <= v < |L|
      ensures HasPreimage(m, |L|, v)
    {
      assert v in L;
      var j :| 0 <= j < |L| && L[j] == v;
      assert j in m && m[j] == v;
    }
  }

  /** The three fields of a notation come apart at the commas. */
  lemma {:induction false} NotationFields(D: Tree, R: Tree)
    requires Size(R) >= 1
    ensures var s := Split(Notation(D, R), ',');
            Braced(s) && s[0][1..] == Shape(D) && s[1] == Shape(R) &&
            s[2][..|s[2]| - 1] == Join(Numerals(Labels(R)), ' ')
  {
    var A := Shape(D);
    var B := Shape(R);
    var ns := Numerals(Labels(R));
    var C := Join(ns, ' ');
    ShapeBits(D);
    ShapeBits(R);
    assert ',' !in A && ',' !in B;
    forall i | 0 <= i < |ns|
      ensures ',' !in ns[i]
    {
      assert AllDigits(ns[i]);
    }
    JoinAvoids(ns, ' ', ',');
    BracedFields(A, B, C);
  }

  /** Three comma-free fields, braced and joined by commas, split back apart. */
  lemma {:induction false} BracedFields(a: string, b: string, c: string)
    requires ',' !in a && ',' !in b && ',' !in c
    ensures var s := Split("{" + a + "," + b + "," + c + "}", ',');
            Braced(s) && s[0][1..] == a && s[1] == b && s[2][..|s[2]| - 1] == c
  {
    var ps := ["{" + a, b, c + "}"];
    assert Join(ps, ',') == "{" + a + "," + b + "," + c + "}" by {
      assert ps[1..][1..] == [c + "}"];
      assert Join(ps[1..][1..], ',') == c + "}";
      assert Join(ps[1..], ',') == b + [','] + (c + "}");
      assert Join(ps, ',') == ("{" + a) + [','] + (b + [','] + (c + "}"));
    }
    JoinSplit(ps, ',');
    assert ("{" + a)[1..] == a;
    assert (c + "}")[..|c + "}"| - 1] == c;
  }

  /** The permutation field of a notation reads back as the position map. */
  lemma NumeralsParse(L: seq<nat>)
    requires |L| >= 1 && forall i | 0 <= i < |L| :: L[i] <= MaxInt
    ensures ParsePerm(Split(Join(Numerals(L), ' '), ' ')) == Some(PositionMap(L))
  {
    var ns := Numerals(L);
    forall i | 0 <= i < |ns|
      ensures ' ' !in ns[i]
    {
      assert AllDigits(ns[i]);
    }
    JoinSplit(ns, ' ');
    forall i | 0 <= i < |ns|
      ensures Atoi(ns[i]) == Some(L[i] as int)
    {
      AtoiNatToString(L[i]);
    }
    assert PermPrefix(ns, |ns|) == PositionMap(L);
  }

  /** A valid code relabelled 0 .. n-1 in dictionary order: the code the decoder
      returns for its shape. */
  lemma Canonical(alpha: string, R: Tree) returns (N: Tree)
    requires IsCode(alpha, R)
    ensures Full(N, |alpha|) && SameShape(R, N) && Labels(N) == Range(0, Size(R))
  {
    var L := Labels(R);
    var inv := InverseOf(L);
    InverseOfPerm(L);
    N := MapLabels(R, PermFn(inv));
    MapLabelsLabels(R, PermFn(inv));
    SameShapeFull(R, N, |alpha|);
  }

  /** How each field of a notation reads back: the domain shape decodes to the
      domain, the range shape to the range relabelled 0 .. n-1, and the
      permutation field to the map that restores the range's labels. */
  lemma NotationReads(Q: Pair, D: Tree, R: Tree) returns (N: Tree)
    requires GoodAlphabet(Q.alpha) && D.Node? && R.Node?
    requires IsCode(Q.alpha, D) && Labels(D) == Range(0, Size(D))
    requires IsCode(Q.alpha, R) && 1 <= Size(R) <= MaxInt
    ensures var s := Split(Notation(D, R), ',');
            var k := |Q.alpha|;
            && Braced(s) && s[0][1..] == Shape(D) && s[1] == Shape(R)
            && s[2][..|s[2]| - 1] == Join(Numerals(Labels(R)), ' ')
            && ValidDfs(k, Shape(D)) && ValidDfs(k, Shape(R))
            && DecodeDfs(Shape(D), k) == Some(D) && DecodeDfs(Shape(R), k) == Some(N)
            && ParsePerm(Split(Join(Numerals(Labels(R)), ' '), ' ')) == Some(PositionMap(Labels(R)))
            && Size(N) == Size(R) && IsPermOn(PositionMap(Labels(R)), Size(N))
            && ApplyPerm(N, PositionMap(Labels(R))).0 == R
  {
    var k := |Q.alpha|;
    SizePositive(R, k);
    NotationFields(D, R);
    ShapeValid(D, k);
    ShapeValid(R, k);
    ShapeBits(D);
    ShapeBits(R);
    DecodeShape(D, k);
    N := Canonical(Q.alpha, R);
    SameShapeShape(R, N);
    SameShapeSize(R, N);
    DecodeShape(N, k);
    var L := Labels(R);
    NumeralsParse(L);
    PositionMapPerm(L);
    var perm := PositionMap(L);
    RangeValid(Size(N));
    ApplyPermCode(Q.alpha, N, perm);
    var R2 := ApplyPerm(N, perm).0;
    assert Labels(R2) == L;
    SameShapeTransitive(R, N, R2);
    ShapeLabelsEqual(R, R2);
  }

  /** Round trip: the notation of a domain code labelled 0 .. n-1 and of any
      range code reads back as exactly those codes, and EncodeDFS succeeds.
      Nothing requires the two codes to have the same number of leaves. */
  lemma EncodeNotation(Q: Pair, D: Tree, R: Tree)
    requires GoodAlphabet(Q.alpha) && D.Node? && R.Node?
    requires IsCode(Q.alpha, D) && Labels(D) == Range(0, Size(D))
    requires IsCode(Q.alpha, R) && 1 <= Size(R) <= MaxInt
    ensures EncodeOf(Q, Notation(D, R)) == (Pair(Q.alpha, D, R), true)
  {
    var N := NotationReads(Q, D, R);
  }

  /** Every natural well-formed pair of non-trivial codes is read back from its
      notation, whatever the pair held before. */
  lemma EncodeRoundTrip(Q: Pair, P: Pair)
    requires WellFormed(P) && Natural(P) && Q.alpha == P.alpha
    requires P.dom.Node? && P.ran.Node? && 1 <= Size(P.ran) <= MaxInt
    ensures EncodeOf(Q, Notation(P.dom, P.ran)) == (P, true)
  {
    EncodeNotation(Q, P.dom, P.ran);
  }

  /** What a reported success guarantees as written: both codes are full over
      the alphabet and the domain is labelled 0 .. n-1 in dictionary order;
      nothing about the range's labels or the sizes. */
  lemma EncodeSuccess(P: Pair, dfs: string)
    requires EncodeOf(P, dfs).1
    ensures var Q := EncodeOf(P, dfs).0;
            Q.alpha == P.alpha && Full(Q.dom, |P.alpha|) && Full(Q.ran, |P.alpha|) && Natural(Q)
  {
    var s := Split(dfs, ',');
    var k := |P.alpha|;
    DecodeSound(s[0][1..], k);
    DecodeSound(s[1], k);
    var R := DecodeDfs(s[1], k).value;
    var perm := ParsePerm(Split(s[2][..|s[2]| - 1], ' ')).value;
    ApplyPermShape(R, perm);
    SameShapeFull(R, ApplyPerm(R, perm).0, k);
  }

  // ---------------------------------------------------------------------------
  // As written, success does not mean a tree pair

  /** The two-leaf code over "01", labelled 0, 1. */
  function Caret2(): Tree {
    Node([Leaf(0), Leaf(1)])
  }

  /** The three-leaf code 00, 01, 1 over "01", labelled 0, 1, 2. */
  function Caret3(): Tree {
    Node([Node([Leaf(0), Leaf(1)]), Leaf(2)])
  }

  /** "{100,11000,0 1 2}" describes a two-leaf domain and a three-leaf range;
      EncodeDFS accepts it and reports success, leaving a pair that is no
      element at all. */
  lemma {:induction false} EncodeAcceptsUnequalSizes(Q: Pair)
    requires Q.alpha == "01"
    ensures EncodeOf(Q, Notation(Caret2(), Caret3())).1
    ensures !WellFormed(EncodeOf(Q, Notation(Caret2(), Caret3())).0)
  {
    assert Distinct(Q.alpha);
    assert Labels(Caret2()) == [0, 1] == Range(0, 2);
    assert Labels(Caret3()) == [0, 1, 2];
    EncodeNotation(Q, Caret2(), Caret3());
  }

  // ---------------------------------------------------------------------------
  // Reading the notation all or nothing

  /** The reading the engine evidently intends: the pair changes only when the
      notation describes two codes of one size and a permutation of their
      labels, and then it holds exactly those. */
  function EncodeFixedOf(P: Pair, dfs: string): (Pair, bool) {
    var s := Split(dfs, ',');
    if !Braced(s) then (P, false)
    else
      var k := |P.alpha|;
      var d := s[0][1..];
      var r := s[1];
      var p := s[2][..|s[2]| - 1];
      if !ValidDfs(k, d) || !ValidDfs(k, r) then (P, false)
      else
        match (DecodeDfs(d, k), DecodeDfs(r, k), ParsePerm(Split(p, ' ')))
        case (Some(D), Some(R), Some(perm)) =>
          if Size(D) == Size(R) && IsPermOn(perm, Size(R)) then
            (Pair(P.alpha, D, ApplyPerm(R, perm).0), true)
          else (P, false)
        case _ => (P, false)
  }

  /** The corrected reading never leaves a partial result, and what it accepts
      over a good alphabet is a natural, well-formed tree pair. */
  lemma EncodeFixedSound(P: Pair, dfs: string)
    requires GoodAlphabet(P.alpha)
    ensures !EncodeFixedOf(P, dfs).1 ==> EncodeFixedOf(P, dfs).0 == P
    ensures EncodeFixedOf(P, dfs).1 ==>
              WellFormed(EncodeFixedOf(P, dfs).0) && Natural(EncodeFixedOf(P, dfs).0)
  {
    if EncodeFixedOf(P, dfs).1 {
      var s := Split(dfs, ',');
      var k := |P.alpha|;
      DecodeSound(s[0][1..], k);
      DecodeSound(s[1], k);
      var D := DecodeDfs(s[0][1..], k).value;
      var R := DecodeDfs(s[1], k).value;
      var perm := ParsePerm(Split(s[2][..|s[2]| - 1], ' ')).value;
      RangeValid(Size(D));
      RangeValid(Size(R));
      ApplyPermCode(P.alpha, R, perm);
    }
  }

  /** Where the corrected reading succeeds, the engine's own reading agrees with it. */
  lemma EncodeFixedAgrees(P: Pair, dfs: string)
    requires EncodeFixedOf(P, dfs).1
    ensures EncodeOf(P, dfs) == EncodeFixedOf(P, dfs)
  {
  }

  /** The corrected reading still reads every natural tree pair back from its notation. */
  lemma EncodeFixedRoundTrip(Q: Pair, P: Pair)
    requires WellFormed(P) && Natural(P) && Q.alpha == P.alpha
    requires P.dom.Node? && P.ran.Node? && 1 <= Size(P.ran) <= MaxInt
    ensures EncodeFixedOf(Q, Notation(P.dom, P.ran)) == (P, true)
  {
    var N := NotationReads(Q, P.dom, P.ran);
  }

  /** Labels 0 .. n-1 are a valid labelling. */
  lemma RangeValid(n: nat)
    ensures ValidLabels(Range(0, n))
  {
    var r := Range(0, n);
    forall v | 0 <= v < n
      ensures v in r
    {
      assert r[v] == v;
    }
  }
}
