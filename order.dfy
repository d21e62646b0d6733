/**
  The full description of a tree pair, the comparison of two pairs as formal
  objects, and the order on pairs by domain size and then by description.
*/
module Order {
  import opened PrefCode
  import opened Pairs
  import opened Text

  // ---------------------------------------------------------------------------
  // Leaves in dictionary order

  /** The words of the leaves, in dictionary order. */
  function Words(alpha: string, t: Tree): seq<string>
    decreases t, 0
  {
    match t
    case Leaf(_) => [[]]
    case Node(kids) => WordsOf(alpha, kids, 0)
  }

  function WordsOf(alpha: string, kids: seq<Tree>, i: nat): seq<string>
    requires i <= |kids|
    decreases kids, |kids| - i
  {
    if i == |kids| || i >= |alpha| then []
    else Prefixed(alpha[i], Words(alpha, kids[i])) + WordsOf(alpha, kids, i + 1)
  }

  /** In a full code, entry i of the list is the leaf i-th in dictionary order, so
      its label is entry i of the code's labelling. */
  lemma {:induction false} WordsSpec(alpha: string, t: Tree)
    requires Distinct(alpha) && Full(t, |alpha|)
    ensures |Words(alpha, t)| == Size(t)
    ensures forall n | 0 <= n < Size(t) ::
              IsLeaf(alpha, t, Words(alpha, t)[n]) && Offset(alpha, t, Words(alpha, t)[n]) == n
    decreases t, 1
  {
    if t.Node? {
      WordsOfSpec(alpha, t.kids, 0);
      assert t.kids[0..] == t.kids;
      assert |LabelsOf(t.kids[..0])| == 0;
    }
  }

  lemma {:induction false} WordsOfSpec(alpha: string, kids: seq<Tree>, i: nat)
    requires Distinct(alpha) && |kids| == |alpha| && i <= |kids|
    requires forall j | 0 <= j < |kids| :: Full(kids[j], |alpha|)
    ensures |WordsOf(alpha, kids, i)| == |LabelsOf(kids[i..])|
    ensures forall n | 0 <= n < |WordsOf(alpha, kids, i)| ::
              && IsLeaf(alpha, Node(kids), WordsOf(alpha, kids, i)[n])
              && Offset(alpha, Node(kids), WordsOf(alpha, kids, i)[n]) == |LabelsOf(kids[..i])| + n
    decreases kids, |kids| - i
  {
    if i < |kids| {
      var W := Words(alpha, kids[i]);
      WordsSpec(alpha, kids[i]);
      WordsOfSpec(alpha, kids, i + 1);
      var ws := WordsOf(alpha, kids, i);
      var rest := WordsOf(alpha, kids, i + 1);
      assert ws == Prefixed(alpha[i], W) + rest;
      assert LabelsOf(kids[i..]) == Labels(kids[i]) + LabelsOf(kids[i + 1..]) by {
        assert kids[i..][0] == kids[i] && kids[i..][1..] == kids[i + 1..];
      }
      assert |LabelsOf(kids[..i + 1])| == |LabelsOf(kids[..i])| + Size(kids[i]) by {
        LabelsOfPrefix(kids, i, i + 1);
        assert kids[i..i + 1] == [kids[i]];
        assert LabelsOf([kids[i]]) == Labels(kids[i]) by {
          assert [kids[i]][1..] == [];
        }
      }
      forall n | 0 <= n < |W|
        ensures IsLeaf(alpha, Node(kids), ws[n])
        ensures Offset(alpha, Node(kids), ws[n]) == |LabelsOf(kids[..i])| + n
      {
        assert ws[n] == [alpha[i]] + W[n];
        ChildLeaf(alpha, kids, i, W[n]);
      }
      forall n | |W| <= n < |ws|
        ensures IsLeaf(alpha, Node(kids), ws[n])
        ensures Offset(alpha, Node(kids), ws[n]) == |LabelsOf(kids[..i])| + n
      {
        assert ws[n] == rest[n - |W|];
      }
    }
  }

  /** A leaf v of child i is the leaf alpha[i] v of the node, offset by the
      leaves of the children before it. */
  lemma ChildLeaf(alpha: string, kids: seq<Tree>, i: nat, v: string)
    requires Distinct(alpha) && i < |kids| == |alpha| && IsLeaf(alpha, kids[i], v)
    ensures IsLeaf(alpha, Node(kids), [alpha[i]] + v)
    ensures Offset(alpha, Node(kids), [alpha[i]] + v) == |LabelsOf(kids[..i])| + Offset(alpha, kids[i], v)
  {
    var w := [alpha[i]] + v;
    IndexOfDistinct(alpha, i);
    assert w[0] == alpha[i] && w[1..] == v;
    assert Subtree(alpha, Node(kids), w) == Subtree(alpha, kids[i], v);
  }

  // ---------------------------------------------------------------------------
  // Descriptions

  /** One leaf: its word and its label in square brackets. */
  function Entry(w: string, l: nat): string {
    "[" + w + " " + NatToString(l) + "]"
  }

  /** Entries for paired words and labels, separated by ", ". */
  function Render(ws: seq<string>, L: seq<nat>): string
    decreases |ws|
  {
    if ws == [] || L == [] then []
    else if |ws| == 1 || |L| == 1 then Entry(ws[0], L[0])
    else Entry(ws[0], L[0]) + ", " + Render(ws[1..], L[1..])
  }

  /** A code's description: each leaf in dictionary order with its label. */
  function CodeString(alpha: string, t: Tree): string {
    Render(Words(alpha, t), Labels(t))
  }

  /** FullString: the description of both codes. */
  function FullString(P: Pair): string {
    "{D: " + CodeString(P.alpha, P.dom) + " || R: " + CodeString(P.alpha, P.ran) + "}"
  }

  /** Equals: the same description, which is comparison as formal objects and
      not as maps. */
  predicate Equals(A: Pair, B: Pair) {
    FullString(A) == FullString(B)
  }

  /** A description lists the leaves of the code: entry n names the leaf n-th in
      dictionary order and carries that leaf's label. */
  lemma CodeStringEntries(alpha: string, t: Tree)
    requires Distinct(alpha) && Full(t, |alpha|)
    ensures |Words(alpha, t)| == |Labels(t)|
    ensures forall n | 0 <= n < |Labels(t)| ::
              IsLeaf(alpha, t, Words(alpha, t)[n]) && LabelAtLeaf(alpha, t, Words(alpha, t)[n]) == Labels(t)[n]
  {
    WordsSpec(alpha, t);
    forall n | 0 <= n < |Labels(t)|
      ensures LabelAtLeaf(alpha, t, Words(alpha, t)[n]) == Labels(t)[n]
    {
      LeafLabelAtOffset(alpha, t, Words(alpha, t)[n]);
    }
  }

  // ---------------------------------------------------------------------------
  // Go's order on strings

  /** a <= b in dictionary order of characters. */
  predicate StrLessEq(a: string, b: string)
    decreases |a|
  {
    a == [] || (b != [] && (a[0] < b[0] || (a[0] == b[0] && StrLessEq(a[1..], b[1..]))))
  }

  lemma {:induction false} StrLessEqRefl(a: string)
    ensures StrLessEq(a, a)
    decreases |a|
  {
    if a != [] {
      StrLessEqRefl(a[1..]);
    }
  }

  lemma {:induction false} StrLessEqTotal(a: string, b: string)
    ensures StrLessEq(a, b) || StrLessEq(b, a)
    decreases |a|
  {
    if a != [] && b != [] && a[0] == b[0] {
      StrLessEqTotal(a[1..], b[1..]);
    }
  }

  lemma {:induction false} StrLessEqAntisym(a: string, b: string)
    requires StrLessEq(a, b) && StrLessEq(b, a)
    ensures a == b
    decreases |a|
  {
    if a != [] {
      StrLessEqAntisym(a[1..], b[1..]);
      assert a == [a[0]] + a[1..] && b == [b[0]] + b[1..];
    }
  }

  lemma {:induction false} StrLessEqTrans(a: string, b: string, c: string)
    requires StrLessEq(a, b) && StrLessEq(b, c)
    ensures StrLessEq(a, c)
    decreases |a|
  {
    if a != [] && a[0] == b[0] && b[0] == c[0] {
      StrLessEqTrans(a[1..], b[1..], c[1..]);
    }
  }

  /** Strings with a common beginning compare as what follows it. */
  lemma {:induction false} StrLessEqCommon(p: string, a: string, b: string)
    ensures StrLessEq(p + a, p + b) == StrLessEq(a, b)
    decreases |p|
  {
    if p == [] {
      assert p + a == a && p + b == b;
    } else {
      assert (p + a)[1..] == p[1..] + a && (p + b)[1..] == p[1..] + b;
      StrLessEqCommon(p[1..], a, b);
    }
  }

  /** The first difference decides. */
  lemma StrLessEqAt(a: string, b: string, i: nat)
    requires i < |a| && i < |b| && a[..i] == b[..i] && a[i] < b[i]
    ensures StrLessEq(a, b)
  {
    assert a == a[..i] + a[i..] && b == b[..i] + b[i..];
    StrLessEqCommon(a[..i], a[i..], b[i..]);
  }

  // ---------------------------------------------------------------------------
  // The order on tree pairs, as written

  /** LessEqual: a smaller domain comes first; otherwise the descriptions decide,
      whichever domain is larger. */
  predicate LessEqual(A: Pair, B: Pair) {
    Size(A.dom) < Size(B.dom) || StrLessEq(FullString(A), FullString(B))
  }

  /** Pairs that Equals identifies are each LessEqual to the other. */
  lemma EqualsLessEqual(A: Pair, B: Pair)
    requires Equals(A, B)
    ensures LessEqual(A, B) && LessEqual(B, A)
  {
    StrLessEqRefl(FullString(A));
  }

  /** The order as written compares every pair with every other, and each with itself. */
  lemma LessEqualTotal(A: Pair, B: Pair)
    ensures LessEqual(A, A)
    ensures LessEqual(A, B) || LessEqual(B, A)
  {
    StrLessEqRefl(FullString(A));
    StrLessEqTotal(FullString(A), FullString(B));
  }

  /** A description opens with the domain's first leaf. */
  lemma DescriptionStart(P: Pair)
    requires |Words(P.alpha, P.dom)| >= 1 && |Labels(P.dom)| >= 1
    ensures var e := Entry(Words(P.alpha, P.dom)[0], Labels(P.dom)[0]);
            |FullString(P)| >= 4 + |e| && FullString(P)[..4 + |e|] == "{D: " + e
  {
    var ws := Words(P.alpha, P.dom);
    var L := Labels(P.dom);
    var e := Entry(ws[0], L[0]);
    var c := CodeString(P.alpha, P.dom);
    assert |c| >= |e| && c[..|e|] == e;
    var f := FullString(P);
    assert f == "{D: " + c + (" || R: " + CodeString(P.alpha, P.ran) + "}");
    assert f[..4 + |e|] == ("{D: " + c)[..4 + |e|];
  }

  /** The identity on four leaves 0, 10, 110, 111. */
  function Identity4(): Pair {
    var t := Node([Leaf(0), Node([Leaf(1), Node([Leaf(2), Leaf(3)])])]);
    Pair("01", t, t)
  }

  /** The identity on three leaves 00, 01, 1. */
  function Identity3(): Pair {
    var t := Node([Node([Leaf(0), Leaf(1)]), Leaf(2)]);
    Pair("01", t, t)
  }

  lemma Identity4Code()
    ensures WellFormed(Identity4()) && Size(Identity4().dom) == 4
  {
    var A := Identity4();
    assert Labels(A.dom) == [0, 1, 2, 3];
    assert Distinct(A.alpha);
  }

  lemma Identity4First()
    ensures |Words("01", Identity4().dom)| >= 1 && Words("01", Identity4().dom)[0] == "0"
    ensures |Labels(Identity4().dom)| >= 1 && Labels(Identity4().dom)[0] == 0
  {
    var kids := Identity4().dom.kids;
    assert Words("01", kids[0]) == [[]];
    assert Words("01", Identity4().dom) == Prefixed('0', [[]]) + WordsOf("01", kids, 1);
    assert Labels(Identity4().dom) == [0] + LabelsOf(kids[1..]);
  }

  lemma Identity4Start()
    ensures FullString(Identity4())[..9] == "{D: [0 0]"
  {
    var P := Identity4();
    Identity4First();
    assert Entry(Words(P.alpha, P.dom)[0], Labels(P.dom)[0]) == "[0 0]" by {
      assert Entry("0", 0) == "[0 0]";
    }
    DescriptionStart(P);
    OpensWith(FullString(P), Entry(Words(P.alpha, P.dom)[0], Labels(P.dom)[0]), "[0 0]");
    assert "{D: " + "[0 0]" == "{D: [0 0]";
  }

  /** Text opening with "{D: " and then e, where e is a given entry, opens with
      the two run together. */
  lemma {:induction false} OpensWith(f: string, e: string, lit: string)
    requires |f| >= 4 + |e| && f[..4 + |e|] == "{D: " + e && e == lit
    ensures |f| >= 4 + |lit| && f[..4 + |lit|] == "{D: " + lit
  {
  }

  lemma Identity3Code()
    ensures WellFormed(Identity3()) && Size(Identity3().dom) == 3
  {
    var B := Identity3();
    assert Labels(B.dom) == [0, 1, 2];
    assert Distinct(B.alpha);
  }

  lemma Identity3First()
    ensures |Words("01", Identity3().dom)| >= 1 && Words("01", Identity3().dom)[0] == "00"
    ensures |Labels(Identity3().dom)| >= 1 && Labels(Identity3().dom)[0] == 0
  {
    var kids := Identity3().dom.kids;
    var grand := kids[0].kids;
    assert Words("01", grand[0]) == [[]];
    var w0 := Words("01", kids[0]);
    assert w0 == Prefixed('0', [[]]) + WordsOf("01", grand, 1);
    assert Words("01", Identity3().dom) == Prefixed('0', w0) + WordsOf("01", kids, 1);
    assert Labels(Identity3().dom) == [0, 1, 2];
  }

  lemma Identity3Start()
    ensures FullString(Identity3())[..10] == "{D: [00 0]"
  {
    var P := Identity3();
    Identity3First();
    assert Entry(Words(P.alpha, P.dom)[0], Labels(P.dom)[0]) == "[00 0]" by {
      assert Entry("00", 0) == "[00 0]";
    }
    DescriptionStart(P);
    OpensWith(FullString(P), Entry(Words(P.alpha, P.dom)[0], Labels(P.dom)[0]), "[00 0]");
    assert "{D: " + "[00 0]" == "{D: [00 0]";
  }

  /** A larger pair whose description sorts first is placed both below and above
      a smaller one: the order as written is not antisymmetric. */
  lemma LessEqualBothWays()
    ensures WellFormed(Identity4()) && WellFormed(Identity3())
    ensures LessEqual(Identity4(), Identity3()) && LessEqual(Identity3(), Identity4())
    ensures !Equals(Identity4(), Identity3())
  {
    Identity4Code();
    Identity4Start();
    Identity3Code();
    Identity3Start();
    var a := FullString(Identity4());
    var b := FullString(Identity3());
    assert a[..6] == a[..9][..6] == "{D: [0";
    assert b[..6] == b[..10][..6] == "{D: [0";
    assert a[6] == a[..9][6] == ' ';
    assert b[6] == b[..10][6] == '0';
    StrLessEqAt(a, b, 6);
  }

  // ---------------------------------------------------------------------------
  // The order as intended: size of domain, then description

  /** Dictionary order on the pair (domain size, description). */
  predicate LessEqualFixed(A: Pair, B: Pair) {
    Size(A.dom) < Size(B.dom) || (Size(A.dom) == Size(B.dom) && StrLessEq(FullString(A), FullString(B)))
  }

  /** The intended order is a total preorder whose ties are exactly the pairs
      Equals cannot tell apart. */
  lemma LessEqualFixedOrder(A: Pair, B: Pair, C: Pair)
    ensures LessEqualFixed(A, A)
    ensures LessEqualFixed(A, B) || LessEqualFixed(B, A)
    ensures LessEqualFixed(A, B) && LessEqualFixed(B, C) ==> LessEqualFixed(A, C)
    ensures LessEqualFixed(A, B) && LessEqualFixed(B, A) ==> Equals(A, B)
  {
    StrLessEqRefl(FullString(A));
    StrLessEqTotal(FullString(A), FullString(B));
    if LessEqualFixed(A, B) && LessEqualFixed(B, C) && Size(A.dom) == Size(B.dom) == Size(C.dom) {
      StrLessEqTrans(FullString(A), FullString(B), FullString(C));
    }
    if LessEqualFixed(A, B) && LessEqualFixed(B, A) {
      StrLessEqAntisym(FullString(A), FullString(B));
    }
  }

  /** The two orders differ only where the first pair's domain is larger. */
  lemma LessEqualFixedAgrees(A: Pair, B: Pair)
    ensures Size(A.dom) <= Size(B.dom) ==> (LessEqual(A, B) <==> LessEqualFixed(A, B))
    ensures Size(A.dom) > Size(B.dom) ==> !LessEqualFixed(A, B)
  {
  }
}
