/**
  Minimisation of one concrete pair over the alphabet "01", worked step by step:
  the five-leaf pair with domain shape 111000100 and range shape 111100000, both
  labelled in order, minimises to the three-leaf pair with domain leaves 0, 10,
  11 and range leaves 00, 01, 1.
*/
module Golden {
  import opened PrefCode
  import opened CodeOps
  import opened Pairs
  import opened Text
  import opened Dfs
  import opened Encoding
  import opened Order

  function L(n: nat): Tree { Leaf(n) }

  function D5(): Tree { Node([Node([Node([L(0), L(1)]), L(2)]), Node([L(3), L(4)])]) }
  function R5(): Tree { Node([Node([Node([Node([L(0), L(1)]), L(2)]), L(3)]), L(4)]) }
  function D4(): Tree { Node([Node([L(0), L(1)]), Node([L(2), L(3)])]) }
  function R4(): Tree { Node([Node([Node([L(0), L(1)]), L(2)]), L(3)]) }
  function D3(): Tree { Node([L(0), Node([L(1), L(2)])]) }
  function R3(): Tree { Node([Node([L(0), L(1)]), L(2)]) }

  function P(d: Tree, r: Tree): Pair { Pair("01", d, r) }

  /** Two full codes over "01" both labelled 0 .. n-1 in order form a natural,
      well-formed pair. */
  lemma NaturalPair(d: Tree, r: Tree, n: nat)
    requires Full(d, 2) && Full(r, 2) && Labels(d) == Range(0, n) && Labels(r) == Range(0, n)
    ensures WellFormed(P(d, r)) && Natural(P(d, r))
  {
    RangeValid(n);
  }

  lemma RangeFive()
    ensures Range(0, 5) == [0, 1, 2, 3, 4]
  {
  }

  lemma LabelsD5()
    ensures Labels(D5()) == Range(0, 5)
  {
    RangeFive();
  }

  lemma LabelsR5()
    ensures Labels(R5()) == Range(0, 5)
  {
    RangeFive();
  }

  lemma Natural5()
    ensures WellFormed(P(D5(), R5())) && Natural(P(D5(), R5()))
  {
    LabelsD5();
    LabelsR5();
    assert Full(D5(), 2) && Full(R5(), 2);
    NaturalPair(D5(), R5(), 5);
  }

  lemma PrefixedOne(c: char, w: string)
    ensures Prefixed(c, [w]) == [[c] + w]
  {
    assert Prefixed(c, [w])[0] == [c] + w;
  }

  lemma CaretsOfStep(alpha: string, kids: seq<Tree>, i: nat, c: char, head: seq<string>)
    requires i < |kids| && i < |alpha| && alpha[i] == c && Carets(alpha, kids[i]) == head
    ensures CaretsOf(alpha, kids, i) == Prefixed(c, head) + CaretsOf(alpha, kids, i + 1)
  {
  }

  lemma Carets5()
    ensures Carets("01", D5()) == ["00", "1"]
  {
    var c, k0, k1 := Node([L(0), L(1)]), Node([Node([L(0), L(1)]), L(2)]), Node([L(3), L(4)]);
    assert Carets("01", c) == [[]];
    PrefixedOne('0', []);
    CaretsOfStep("01", [c, L(2)], 0, '0', [[]]);
    CaretsOfStep("01", [c, L(2)], 1, '1', []);
    assert CaretsOf("01", [c, L(2)], 2) == [];
    assert Prefixed('1', []) == [];
    assert CaretsOf("01", [c, L(2)], 1) == [];
    assert ['0'] + [] == "0";
    assert CaretsOf("01", [c, L(2)], 0) == ["0"];
    assert !AllLeaves([c, L(2)]);
    assert Carets("01", k0) == ["0"];
    PrefixedOne('0', "0");
    PrefixedOne('1', []);
    CaretsOfStep("01", [k0, k1], 0, '0', ["0"]);
    CaretsOfStep("01", [k0, k1], 1, '1', [[]]);
    assert CaretsOf("01", [k0, k1], 2) == [];
    assert ['1'] + [] == "1" && ['0'] + "0" == "00";
    assert CaretsOf("01", [k0, k1], 1) == ["1"];
    assert CaretsOf("01", [k0, k1], 0) == ["00", "1"];
    assert !AllLeaves([k0, k1]);
    assert D5() == Node([k0, k1]);
  }

  lemma LabelsFour()
    ensures Range(0, 4) == [0, 1, 2, 3]
    ensures Labels(D4()) == [0, 1, 2, 3] && Labels(R4()) == [0, 1, 2, 3]
  {
  }

  lemma Natural4()
    ensures WellFormed(P(D4(), R4())) && Natural(P(D4(), R4()))
  {
    LabelsFour();
    assert Full(D4(), 2) && Full(R4(), 2);
    NaturalPair(D4(), R4(), 4);
  }

  /** ReduceDomainAt on a natural well-formed pair succeeds when its tests pass,
      and leaves the reduced pair, when that is natural and well formed. */
  lemma Reduces(Q: Pair, s: string, l: int, w: string, root: string, E: Pair)
    requires WellFormed(Q) && Natural(Q)
    requires s in Carets(Q.alpha, Q.dom)
    requires LabelAtLeaf(Q.alpha, Q.dom, s + [Q.alpha[0]]) == l
    requires LeafAtLabel(Q.alpha, Q.ran, l) == w && w != [] && root == w[..|w| - 1]
    requires ChildrenRun(Q.alpha, Q.ran, root, l)
    requires E == Pair(Q.alpha, ReduceAt(Q.alpha, Q.dom, s), ReduceAt(Q.alpha, Q.ran, root))
    requires WellFormed(E) && Natural(E)
    ensures ReduceDomainOf(Q, s) == (E, true)
  {
    ResetNatural(Q);
    ResetNatural(E);
  }

  /** ReduceDomainAt on a natural well-formed pair fails, changing nothing, when
      the range caret it finds does not carry the run of labels. */
  lemma FailsAt(Q: Pair, s: string, l: int, w: string, root: string)
    requires WellFormed(Q) && Natural(Q)
    requires LabelAtLeaf(Q.alpha, Q.dom, s + [Q.alpha[0]]) == l
    requires LeafAtLabel(Q.alpha, Q.ran, l) == w && w != [] && root == w[..|w| - 1]
    requires !ChildrenRun(Q.alpha, Q.ran, root, l)
    ensures ReduceDomainOf(Q, s) == (Q, false)
  {
    ResetNatural(Q);
  }

  lemma FindInFirst(alpha: string, kids: seq<Tree>, l: int, w: string)
    requires |kids| >= 1 && |alpha| >= 1 && FindLabel(alpha, kids[0], l) == Some(w)
    ensures FindLabel(alpha, Node(kids), l) == Some([alpha[0]] + w)
  {
  }

  lemma Tests5()
    ensures LabelAtLeaf("01", D5(), "00" + ['0']) == 0
    ensures LeafAtLabel("01", R5(), 0) == "0000" && "0000"[..3] == "000"
    ensures ChildrenRun("01", R5(), "000", 0)
  {
    assert "00" + ['0'] == "000";
    assert "0000"[..3] == "000";
    FindR5();
    RunR5();
  }

  lemma FindR5()
    ensures LeafAtLabel("01", R5(), 0) == "0000"
  {
    var c := Node([L(0), L(1)]);
    assert ['0'] + [] == "0" && ['0'] + "0" == "00";
    assert ['0'] + "00" == "000" && ['0'] + "000" == "0000";
    FindInFirst("01", [L(0), L(1)], 0, []);
    FindInFirst("01", [c, L(2)], 0, "0");
    FindInFirst("01", [Node([c, L(2)]), L(3)], 0, "00");
    FindInFirst("01", [Node([Node([c, L(2)]), L(3)]), L(4)], 0, "000");
  }

  lemma RunR5()
    ensures ChildrenRun("01", R5(), "000", 0)
  {
    assert "000" + ['0'] == "0000" && "000" + ['1'] == "0001";
    assert LabelAtLeaf("01", R5(), "0000") == 0 && LabelAtLeaf("01", R5(), "0001") == 1;
  }

  lemma FirstReduction()
    ensures ReduceDomainOf(P(D5(), R5()), "00") == (P(D4(), R4()), true)
  {
    Natural5();
    Natural4();
    Carets5();
    Tests5();
    ReduceD5();
    ReduceR5();
    Reduces(P(D5(), R5()), "00", 0, "0000", "000", P(D4(), R4()));
  }

  lemma MapPair(a: Tree, b: Tree, f: nat -> nat)
    ensures MapLabels(Node([a, b]), f) == Node([MapLabels(a, f), MapLabels(b, f)])
  {
    assert MapLabelsOf([a, b], f) == [MapLabels(a, f), MapLabels(b, f)];
  }

  lemma UpdatePair(a: Tree, b: Tree, z: Tree)
    ensures [a, b][0 := z] == [z, b] && [a, b][1 := z] == [a, z]
  {
  }

  lemma ReduceD5()
    ensures ReduceAt("01", D5(), "00") == D4()
  {
    assert Subtree("01", D5(), "00") == Some(Node([L(0), L(1)]));
    var c := Replace("01", D5(), "00", L(0));
    assert "00"[1..] == "0" && "0"[1..] == [];
    assert Replace("01", Node([Node([L(0), L(1)]), L(2)]), "0", L(0)) == Node([L(0), L(2)]) by {
      UpdatePair(Node([L(0), L(1)]), L(2), L(0));
    }
    UpdatePair(Node([Node([L(0), L(1)]), L(2)]), Node([L(3), L(4)]), Node([L(0), L(2)]));
    assert c == Node([Node([L(0), L(2)]), Node([L(3), L(4)])]);
    var f := Unshift(0, 1);
    MapPair(Node([L(0), L(2)]), Node([L(3), L(4)]), f);
    MapPair(L(0), L(2), f);
    MapPair(L(3), L(4), f);
  }

  lemma ReduceR5()
    ensures ReduceAt("01", R5(), "000") == R4()
  {
    assert Subtree("01", R5(), "000") == Some(Node([L(0), L(1)]));
    var c := Replace("01", R5(), "000", L(0));
    assert "000"[1..] == "00" && "00"[1..] == "0" && "0"[1..] == [];
    assert Replace("01", Node([Node([L(0), L(1)]), L(2)]), "0", L(0)) == Node([L(0), L(2)]) by {
      UpdatePair(Node([L(0), L(1)]), L(2), L(0));
    }
    assert Replace("01", Node([Node([Node([L(0), L(1)]), L(2)]), L(3)]), "00", L(0)) == Node([Node([L(0), L(2)]), L(3)]) by {
      UpdatePair(Node([Node([L(0), L(1)]), L(2)]), L(3), Node([L(0), L(2)]));
    }
    UpdatePair(Node([Node([Node([L(0), L(1)]), L(2)]), L(3)]), L(4), Node([Node([L(0), L(2)]), L(3)]));
    assert c == Node([Node([Node([L(0), L(2)]), L(3)]), L(4)]);
    var f := Unshift(0, 1);
    MapPair(Node([Node([L(0), L(2)]), L(3)]), L(4), f);
    MapPair(Node([L(0), L(2)]), L(3), f);
    MapPair(L(0), L(2), f);
  }

  lemma LabelsThree()
    ensures Range(0, 3) == [0, 1, 2]
    ensures Labels(D3()) == [0, 1, 2] && Labels(R3()) == [0, 1, 2]
  {
  }

  lemma Natural3()
    ensures WellFormed(P(D3(), R3())) && Natural(P(D3(), R3()))
  {
    LabelsThree();
    assert Full(D3(), 2) && Full(R3(), 2);
    NaturalPair(D3(), R3(), 3);
  }

  lemma Carets4()
    ensures Carets("01", D4()) == ["0", "1"]
  {
    var a, b := Node([L(0), L(1)]), Node([L(2), L(3)]);
    assert Carets("01", a) == [[]] && Carets("01", b) == [[]];
    PrefixedOne('0', []);
    PrefixedOne('1', []);
    CaretsOfStep("01", [a, b], 0, '0', [[]]);
    CaretsOfStep("01", [a, b], 1, '1', [[]]);
    assert CaretsOf("01", [a, b], 2) == [];
    assert ['0'] + [] == "0" && ['1'] + [] == "1";
    assert CaretsOf("01", [a, b], 1) == ["1"];
    assert CaretsOf("01", [a, b], 0) == ["0", "1"];
    assert !AllLeaves([a, b]);
    assert D4() == Node([a, b]);
  }

  lemma Carets3()
    ensures Carets("01", D3()) == ["1"]
  {
    var b := Node([L(1), L(2)]);
    assert Carets("01", b) == [[]] && Carets("01", L(0)) == [];
    PrefixedOne('1', []);
    CaretsOfStep("01", [L(0), b], 0, '0', []);
    CaretsOfStep("01", [L(0), b], 1, '1', [[]]);
    assert CaretsOf("01", [L(0), b], 2) == [];
    assert ['1'] + [] == "1";
    assert Prefixed('0', []) == [];
    assert CaretsOf("01", [L(0), b], 1) == ["1"];
    assert CaretsOf("01", [L(0), b], 0) == ["1"];
    assert !AllLeaves([L(0), b]);
    assert D3() == Node([L(0), b]);
  }

  lemma Tests4()
    ensures LabelAtLeaf("01", D4(), "0" + ['0']) == 0
    ensures LeafAtLabel("01", R4(), 0) == "000" && "000"[..2] == "00"
    ensures ChildrenRun("01", R4(), "00", 0)
  {
    assert "0" + ['0'] == "00";
    assert "000"[..2] == "00";
    FindR4();
    RunR4();
  }

  lemma FindR4()
    ensures LeafAtLabel("01", R4(), 0) == "000"
  {
    var c := Node([L(0), L(1)]);
    assert ['0'] + [] == "0" && ['0'] + "0" == "00" && ['0'] + "00" == "000";
    FindInFirst("01", [L(0), L(1)], 0, []);
    FindInFirst("01", [c, L(2)], 0, "0");
    FindInFirst("01", [Node([c, L(2)]), L(3)], 0, "00");
  }

  lemma RunR4()
    ensures ChildrenRun("01", R4(), "00", 0)
  {
    assert "00" + ['0'] == "000" && "00" + ['1'] == "001";
    assert LabelAtLeaf("01", R4(), "000") == 0 && LabelAtLeaf("01", R4(), "001") == 1;
  }

  lemma ReduceD4()
    ensures ReduceAt("01", D4(), "0") == D3()
  {
    assert Subtree("01", D4(), "0") == Some(Node([L(0), L(1)]));
    var c := Replace("01", D4(), "0", L(0));
    assert "0"[1..] == [];
    UpdatePair(Node([L(0), L(1)]), Node([L(2), L(3)]), L(0));
    assert c == Node([L(0), Node([L(2), L(3)])]);
    var f := Unshift(0, 1);
    MapPair(L(0), Node([L(2), L(3)]), f);
    MapPair(L(2), L(3), f);
  }

  lemma ReduceR4()
    ensures ReduceAt("01", R4(), "00") == R3()
  {
    assert Subtree("01", R4(), "00") == Some(Node([L(0), L(1)]));
    var c := Replace("01", R4(), "00", L(0));
    assert "00"[1..] == "0" && "0"[1..] == [];
    assert Replace("01", Node([Node([L(0), L(1)]), L(2)]), "0", L(0)) == Node([L(0), L(2)]) by {
      UpdatePair(Node([L(0), L(1)]), L(2), L(0));
    }
    UpdatePair(Node([Node([L(0), L(1)]), L(2)]), L(3), Node([L(0), L(2)]));
    assert c == Node([Node([L(0), L(2)]), L(3)]);
    var f := Unshift(0, 1);
    MapPair(Node([L(0), L(2)]), L(3), f);
    MapPair(L(0), L(2), f);
  }

  lemma SecondReduction()
    ensures ReduceDomainOf(P(D4(), R4()), "0") == (P(D3(), R3()), true)
  {
    Natural4();
    Natural3();
    Carets4();
    Tests4();
    ReduceD4();
    ReduceR4();
    Reduces(P(D4(), R4()), "0", 0, "000", "00", P(D3(), R3()));
  }

  /** At "1" the domain caret's first child carries 2, which sits in the range at
      01; the range's 00 is no leaf, so the test fails. */
  lemma FailAt4()
    ensures ReduceDomainOf(P(D4(), R4()), "1") == (P(D4(), R4()), false)
  {
    Natural4();
    Tests4Fail();
    FailsAt(P(D4(), R4()), "1", 2, "01", "0");
  }

  lemma Tests4Fail()
    ensures LabelAtLeaf("01", D4(), "1" + ['0']) == 2
    ensures LeafAtLabel("01", R4(), 2) == "01" && "01"[..1] == "0"
    ensures !ChildrenRun("01", R4(), "0", 2)
  {
    assert "1" + ['0'] == "10" && "0" + ['0'] == "00";
    assert LabelAtLeaf("01", D4(), "10") == 2;
    FindLabelSecond4();
    assert "01"[..1] == "0";
    assert LabelAtLeaf("01", R4(), "00") == -1;
  }

  lemma FindLabelSecond4()
    ensures LeafAtLabel("01", R4(), 2) == "01"
  {
    var c := Node([L(0), L(1)]);
    assert FindLabel("01", c, 2) == None;
    assert FindLabel("01", L(2), 2) == Some([]) && ['1'] + [] == "1";
    assert FindLabelOf("01", [c, L(2)], 2, 1) == Some("1");
    assert FindLabel("01", Node([c, L(2)]), 2) == Some("1");
    FindInFirst("01", [Node([c, L(2)]), L(3)], 2, "1");
    assert ['0'] + "1" == "01";
  }

  /** At "1" the domain caret's first child carries 1, which sits in the range at
      01; the range's 00 carries 0, not 1, so the test fails. */
  lemma FailAt3()
    ensures ReduceDomainOf(P(D3(), R3()), "1") == (P(D3(), R3()), false)
  {
    Natural3();
    Tests3Fail();
    FailsAt(P(D3(), R3()), "1", 1, "01", "0");
  }

  lemma Tests3Fail()
    ensures LabelAtLeaf("01", D3(), "1" + ['0']) == 1
    ensures LeafAtLabel("01", R3(), 1) == "01" && "01"[..1] == "0"
    ensures !ChildrenRun("01", R3(), "0", 1)
  {
    assert "1" + ['0'] == "10" && "0" + ['0'] == "00";
    assert LabelAtLeaf("01", D3(), "10") == 1;
    assert FindLabel("01", L(0), 1) == None;
    assert FindLabel("01", L(1), 1) == Some([]) && ['1'] + [] == "1";
    assert FindLabelOf("01", [L(0), L(1)], 1, 1) == Some("1");
    FindInFirst("01", [Node([L(0), L(1)]), L(2)], 1, "1");
    assert ['0'] + "1" == "01";
    assert "01"[..1] == "0";
    assert LabelAtLeaf("01", R3(), "00") == 0;
  }

  /** A round of one failing reduction on a natural pair changes nothing. */
  lemma PassOneFails(Q: Pair, s: string)
    requires WellFormed(Q) && ReduceDomainOf(Q, s) == (Q, false)
    ensures Pass(Q, [s]) == (Q, false)
  {
    assert [s][1..] == [];
  }

  /** The last round: the one caret 1 fails, so the three-leaf pair is minimal. */
  lemma MinimiseThree()
    ensures MinimiseOf(P(D3(), R3())) == P(D3(), R3())
  {
    Natural3();
    FailAt3();
    PassOneFails(P(D3(), R3()), "1");
    Carets3();
  }

  /** The second round: 0 reduces, then 1 fails on the result. */
  lemma RoundTwo()
    ensures Pass(P(D4(), R4()), Carets("01", D4())) == (P(D3(), R3()), true)
  {
    Natural4();
    Natural3();
    FailAt3();
    PassOneFails(P(D3(), R3()), "1");
    SecondReduction();
    assert ["0", "1"][1..] == ["1"];
    Carets4();
  }

  lemma MinimiseFour()
    ensures MinimiseOf(P(D4(), R4())) == P(D3(), R3())
  {
    Natural4();
    RoundTwo();
    MinimiseThree();
  }

  /** The first round: 00 reduces, then 1 fails on the result. */
  lemma RoundOne()
    ensures Pass(P(D5(), R5()), Carets("01", D5())) == (P(D4(), R4()), true)
  {
    Natural5();
    Natural4();
    FailAt4();
    PassOneFails(P(D4(), R4()), "1");
    FirstReduction();
    assert ["00", "1"][1..] == ["1"];
    Carets5();
  }

  /** The five-leaf pair minimises, over three rounds, to the three-leaf pair. */
  lemma MinimiseFive()
    ensures MinimiseOf(P(D5(), R5())) == P(D3(), R3())
  {
    Natural5();
    RoundOne();
    MinimiseFour();
  }

  lemma ShapePair(a: Tree, b: Tree)
    ensures Shape(Node([a, b])) == "1" + Shape(a) + Shape(b)
  {
    assert [a, b][1..] == [b];
    assert [b][1..] == [];
    assert ShapeOf([b]) == Shape(b);
    assert ShapeOf([a, b]) == Shape(a) + Shape(b);
  }

  lemma ShapeCaret()
    ensures Shape(Node([L(0), L(1)])) == "100" && Shape(Node([L(3), L(4)])) == "100"
  {
    ShapePair(L(0), L(1));
    ShapePair(L(3), L(4));
  }

  lemma ShapeD5()
    ensures Shape(D5()) == "111000100"
  {
    var c := Node([L(0), L(1)]);
    ShapeCaret();
    ShapePair(c, L(2));
    assert Shape(Node([c, L(2)])) == "11000";
    ShapePair(Node([c, L(2)]), Node([L(3), L(4)]));
  }

  lemma ShapeR5()
    ensures Shape(R5()) == "111100000"
  {
    var c := Node([L(0), L(1)]);
    ShapeCaret();
    ShapePair(c, L(2));
    assert Shape(Node([c, L(2)])) == "11000";
    ShapePair(Node([c, L(2)]), L(3));
    assert Shape(Node([Node([c, L(2)]), L(3)])) == "1110000";
    ShapePair(Node([Node([c, L(2)]), L(3)]), L(4));
  }

  lemma Shapes5()
    ensures Shape(D5()) == "111000100" && Shape(R5()) == "111100000"
  {
    ShapeD5();
    ShapeR5();
  }

  lemma Numerals5()
    ensures Numerals([0, 1, 2, 3, 4]) == ["0", "1", "2", "3", "4"]
  {
    var ns := Numerals([0, 1, 2, 3, 4]);
    assert ns[0] == "0" && ns[1] == "1" && ns[2] == "2" && ns[3] == "3" && ns[4] == "4";
  }

  lemma JoinFive(ns: seq<string>)
    requires ns == ["0", "1", "2", "3", "4"]
    ensures Join(ns, ' ') == "0 1 2 3 4"
  {
    assert ns[1..] == ["1", "2", "3", "4"] && ns[1..][1..] == ["2", "3", "4"];
    assert ns[1..][1..][1..] == ["3", "4"] && ns[1..][1..][1..][1..] == ["4"];
    assert Join(["3", "4"], ' ') == "3 4";
    assert Join(["2", "3", "4"], ' ') == "2 3 4";
  }

  lemma Permutation5()
    ensures Join(Numerals(Labels(R5())), ' ') == "0 1 2 3 4"
  {
    LabelsR5();
    RangeFive();
    Numerals5();
    JoinFive(Numerals(Labels(R5())));
  }

  lemma NotationGlue(a: string, b: string, c: string)
    requires a == "111000100" && b == "111100000" && c == "0 1 2 3 4"
    ensures "{" + a + "," + b + "," + c + "}" == "{111000100,111100000,0 1 2 3 4}"
  {
    assert "{" + a + "," == "{111000100,";
    assert "{111000100," + b + "," == "{111000100,111100000,";
  }

  /** The notation of the five-leaf pair is the one the minimisation test reads. */
  lemma Notation5()
    ensures Notation(D5(), R5()) == "{111000100,111100000,0 1 2 3 4}"
  {
    Shapes5();
    Permutation5();
    NotationGlue(Shape(D5()), Shape(R5()), Join(Numerals(Labels(R5())), ' '));
  }

  /** A new pair over "01", given that notation, holds the five-leaf pair, and
      minimising it leaves domain leaves 0, 10, 11 and range leaves 00, 01, 1,
      labelled 0, 1, 2 on both sides. */
  lemma MinimiseTest(dfs: string)
    requires dfs == "{111000100,111100000,0 1 2 3 4}"
    ensures var (Q, ok) := EncodeOf(Trivial("01"), dfs);
            ok && Q == P(D5(), R5()) && MinimiseOf(Q) == P(D3(), R3())
  {
    EncodeFive(dfs);
    MinimiseFive();
  }

  /** A new pair over "01" reads the notation as the five-leaf pair. */
  lemma EncodeFive(dfs: string)
    requires dfs == "{111000100,111100000,0 1 2 3 4}"
    ensures EncodeOf(Trivial("01"), dfs) == (P(D5(), R5()), true)
  {
    var Q5 := P(D5(), R5());
    Natural5();
    Notation5();
    assert Size(Q5.ran) == 5 && Q5.dom.Node? && Q5.ran.Node?;
    EncodeRoundTrip(Trivial("01"), Q5);
  }

  /** The words of a caret's two leaves. */
  lemma WordsCaret(a: Tree, b: Tree)
    requires a.Leaf? && b.Leaf?
    ensures Words("01", Node([a, b])) == ["0", "1"]
  {
    PrefixedOne('0', []);
    PrefixedOne('1', []);
    assert ['0'] + [] == "0" && ['1'] + [] == "1";
    assert Words("01", a) == [[]] && Words("01", b) == [[]];
    assert WordsOf("01", [a, b], 2) == [];
    assert WordsOf("01", [a, b], 1) == ["1"];
    assert WordsOf("01", [a, b], 0) == ["0"] + ["1"];
  }

  /** The words of a two-child node, from the words of its children. */
  lemma WordsPair(a: Tree, b: Tree, wa: seq<string>, wb: seq<string>)
    requires Words("01", a) == wa && Words("01", b) == wb
    ensures Words("01", Node([a, b])) == Prefixed('0', wa) + Prefixed('1', wb)
  {
    assert WordsOf("01", [a, b], 2) == [];
    assert WordsOf("01", [a, b], 1) == Prefixed('1', wb);
  }

  lemma PrefixedTwo(c: char, v: string, w: string)
    ensures Prefixed(c, [v, w]) == [[c] + v, [c] + w]
  {
    assert Prefixed(c, [v, w])[0] == [c] + v;
    assert Prefixed(c, [v, w])[1] == [c] + w;
  }

  lemma Words3()
    ensures Words("01", D3()) == ["0", "10", "11"]
    ensures Words("01", R3()) == ["00", "01", "1"]
  {
    WordsCaret(L(1), L(2));
    WordsCaret(L(0), L(1));
    WordsPair(L(0), Node([L(1), L(2)]), [[]], ["0", "1"]);
    WordsPair(Node([L(0), L(1)]), L(2), ["0", "1"], [[]]);
    PrefixedOne('0', []);
    PrefixedOne('1', []);
    PrefixedTwo('1', "0", "1");
    PrefixedTwo('0', "0", "1");
    assert ['0'] + [] == "0" && ['1'] + [] == "1";
    assert ['1'] + "0" == "10" && ['1'] + "1" == "11" && ['0'] + "0" == "00" && ['0'] + "1" == "01";
  }

  lemma Render3(a: string, b: string, c: string, x: nat, y: nat, z: nat)
    ensures Render([a, b, c], [x, y, z]) == Entry(a, x) + ", " + Entry(b, y) + ", " + Entry(c, z)
  {
    assert [a, b, c][1..] == [b, c] && [x, y, z][1..] == [y, z];
    assert [b, c][1..] == [c] && [y, z][1..] == [z];
    assert Render([c], [z]) == Entry(c, z);
    assert Render([b, c], [y, z]) == Entry(b, y) + ", " + Entry(c, z);
  }

  lemma EntryDigit(w: string, d: nat, e: string)
    requires d < 10 && e == "[" + w + " " + [DigitChar(d)] + "]"
    ensures Entry(w, d) == e
  {
  }

  lemma EntriesD3()
    ensures Entry("0", 0) == "[0 0]" && Entry("10", 1) == "[10 1]" && Entry("11", 2) == "[11 2]"
  {
    assert DigitChar(0) == '0' && DigitChar(1) == '1' && DigitChar(2) == '2';
    EntryDigit("0", 0, "[0 0]");
    EntryDigit("10", 1, "[10 1]");
    EntryDigit("11", 2, "[11 2]");
  }

  lemma EntriesR3()
    ensures Entry("00", 0) == "[00 0]" && Entry("01", 1) == "[01 1]" && Entry("1", 2) == "[1 2]"
  {
    assert DigitChar(0) == '0' && DigitChar(1) == '1' && DigitChar(2) == '2';
    EntryDigit("00", 0, "[00 0]");
    EntryDigit("01", 1, "[01 1]");
    EntryDigit("1", 2, "[1 2]");
  }

  lemma CodeStringD3()
    ensures CodeString("01", D3()) == "[0 0], [10 1], [11 2]"
  {
    Words3();
    LabelsThree();
    Render3("0", "10", "11", 0, 1, 2);
    EntriesD3();
    ListD3(Entry("0", 0), Entry("10", 1), Entry("11", 2));
  }

  lemma CodeStringR3()
    ensures CodeString("01", R3()) == "[00 0], [01 1], [1 2]"
  {
    Words3();
    LabelsThree();
    Render3("00", "01", "1", 0, 1, 2);
    EntriesR3();
    ListR3(Entry("00", 0), Entry("01", 1), Entry("1", 2));
  }

  lemma ListD3(a: string, b: string, c: string)
    requires a == "[0 0]" && b == "[10 1]" && c == "[11 2]"
    ensures a + ", " + b + ", " + c == "[0 0], [10 1], [11 2]"
  {
    assert a + ", " == "[0 0], ";
    assert "[0 0], " + b + ", " == "[0 0], [10 1], ";
  }

  lemma ListR3(a: string, b: string, c: string)
    requires a == "[00 0]" && b == "[01 1]" && c == "[1 2]"
    ensures a + ", " + b + ", " + c == "[00 0], [01 1], [1 2]"
  {
    assert a + ", " == "[00 0], ";
    assert "[00 0], " + b + ", " == "[00 0], [01 1], ";
  }

  lemma Glue(d: string, r: string)
    requires d == "[0 0], [10 1], [11 2]" && r == "[00 0], [01 1], [1 2]"
    ensures "{D: " + d + " || R: " + r + "}" == "{D: [0 0], [10 1], [11 2] || R: [00 0], [01 1], [1 2]}"
  {
    HeadGlue(d);
    assert "{D: [0 0], [10 1], [11 2] || R: " + r == "{D: [0 0], [10 1], [11 2] || R: [00 0], [01 1], [1 2]";
  }

  lemma HeadGlue(d: string)
    requires d == "[0 0], [10 1], [11 2]"
    ensures "{D: " + d + " || R: " == "{D: [0 0], [10 1], [11 2] || R: "
  {
    assert "{D: " + d == "{D: [0 0], [10 1], [11 2]";
  }

  /** The minimised pair's description is the one the minimisation test expects. */
  lemma Description3(Q: Pair)
    requires Q == P(D3(), R3())
    ensures FullString(Q) == "{D: [0 0], [10 1], [11 2] || R: [00 0], [01 1], [1 2]}"
  {
    var d, r := CodeString(Q.alpha, Q.dom), CodeString(Q.alpha, Q.ran);
    CodeStringD3();
    CodeStringR3();
    Glue(d, r);
  }

  /** The minimisation test end to end: a new pair over "01" reads the notation
      with success, and after Minimise its description is the expected one. */
  lemma MinimiseTestDescription(dfs: string, want: string)
    requires dfs == "{111000100,111100000,0 1 2 3 4}"
    requires want == "{D: [0 0], [10 1], [11 2] || R: [00 0], [01 1], [1 2]}"
    ensures var (Q, ok) := EncodeOf(Trivial("01"), dfs);
            ok && Q == P(D5(), R5()) && FullString(MinimiseOf(Q)) == want
  {
    MinimiseTest(dfs);
    var E := EncodeOf(Trivial("01"), dfs);
    assert E.0 == P(D5(), R5());
    Natural5();
    var M := MinimiseOf(E.0);
    assert M == P(D3(), R3());
    Description3(M);
    assert FullString(M) == want;
  }
}
