/**
  Depth-first descriptions of tree shapes. A full k-ary tree is written by
  visiting it in dictionary order, '1' for an internal node and '0' for a leaf.
  Reading such a word with a stack counter that starts at one, gains k-1 on a
  '1' and loses one on a '0', the counter first reaches zero exactly at the
  end of the word.

  badSpeed is the engine's validator for such words; ValidDfs and DecodeDfs
  stand in for the prefix-code library's validator and decoder, which label
  the decoded leaves 0 .. n-1 in dictionary order.
*/
module Dfs {
  import opened PrefCode
  import opened CodeOps

  // ---------------------------------------------------------------------------
  // The stack counter

  function Step(c: char, cap: int): int {
    if c == '1' then cap - 1 else if c == '0' then -1 else 0
  }

  /** The counter after reading s; characters other than '0' and '1' leave it alone. */
  function Height(s: string, cap: int): int
    decreases |s|
  {
    if s == [] then 1 else Height(s[..|s| - 1], cap) + Step(s[|s| - 1], cap)
  }

  lemma HeightSnoc(s: string, cap: int, i: nat)
    requires i < |s|
    ensures Height(s[..i + 1], cap) == Height(s[..i], cap) + Step(s[i], cap)
  {
    assert s[..i + 1][..i] == s[..i];
  }

  /** Reading a then b: the counter moves by b's net change after a's. */
  lemma {:induction false} HeightConcat(a: string, b: string, cap: int)
    ensures Height(a + b, cap) == Height(a, cap) + Height(b, cap) - 1
    decreases |b|
  {
    if b != [] {
      var b0 := b[..|b| - 1];
      HeightConcat(a, b0, cap);
      assert (a + b)[..|a + b| - 1] == a + b0;
      assert (a + b)[|a + b| - 1] == b[|b| - 1];
      assert Height(a + b, cap) == Height(a + b0, cap) + Step(b[|b| - 1], cap);
      assert Height(b, cap) == Height(b0, cap) + Step(b[|b| - 1], cap);
    } else {
      assert a + b == a;
    }
  }

  // ---------------------------------------------------------------------------
  // badSpeed as written

  /** The counter reaches zero on a '0' at index ii, and ii is below cap-1. */
  predicate EarlyEmpty(s: string, cap: int, ii: nat)
    requires ii < |s|
  {
    s[ii] == '0' && Height(s[..ii + 1], cap) == 0 && ii < cap - 1
  }

  /** badSpeed rejects (answers true) for the empty word, for a word whose counter
      runs out on a '0' below index cap-1, and for a word that does not end at zero. */
  predicate BadSpeedSpec(dfs: string, cap: int) {
    || |dfs| < 1
    || (exists ii | 0 <= ii < |dfs| :: EarlyEmpty(dfs, cap, ii))
    || Height(dfs, cap) != 0
  }

  method BadSpeed(dfs: string, cap: int) returns (fast: bool)
    ensures fast == BadSpeedSpec(dfs, cap)
  {
    if |dfs| < 1 {
      return true;
    }
    var stackHeight := 1;
    var limit := cap - 1;
    var ii := 0;
    while ii < |dfs|
      invariant 0 <= ii <= |dfs|
      invariant stackHeight == Height(dfs[..ii], cap)
      invariant forall j | 0 <= j < ii :: !EarlyEmpty(dfs, cap, j)
    {
      HeightSnoc(dfs, cap, ii);
      var v := dfs[ii];
      if v == '1' {
        stackHeight := stackHeight + cap - 1;
        ii := ii + 1;
        continue;
      }
      if v == '0' {
        stackHeight := stackHeight - 1;
        if 0 == stackHeight && ii < limit {
          assert EarlyEmpty(dfs, cap, ii);
          return true;
        }
      }
      ii := ii + 1;
    }
    assert dfs[..ii] == dfs;
    if 0 == stackHeight {
      return false;
    }
    return true;
  }

  // ---------------------------------------------------------------------------
  // What badSpeed is meant to accept

  /** The counter stays positive until the end of the word and is zero there. */
  predicate WellNested(s: string, cap: int) {
    && |s| >= 1
    && Height(s, cap) == 0
    && forall i | 0 <= i < |s| :: Height(s[..i], cap) >= 1
  }

  /** A well-nested word at least cap characters long. Over '0' and '1' alone this
      is the shape of a tree with at least one caret (ValidDfsStartsWithCaret);
      a character the counter ignores can pad the lone leaf to that length, as
      "x0" does for cap 2 (PaddedLeafPasses). */
  predicate ValidShape(s: string, cap: int) {
    WellNested(s, cap) && |s| >= cap
  }

  /** badSpeed with the missing check added: the counter may reach zero only at
      the last index. It rejects exactly the words that are not valid shapes, that
      is, not well nested or shorter than cap; other characters stay ignored. */
  method BadSpeedFixed(dfs: string, cap: int) returns (fast: bool)
    requires cap >= 1
    ensures fast <==> !ValidShape(dfs, cap)
  {
    if |dfs| < 1 {
      return true;
    }
    var stackHeight := 1;
    var limit := cap - 1;
    var ii := 0;
    while ii < |dfs|
      invariant 0 <= ii <= |dfs|
      invariant stackHeight == Height(dfs[..ii], cap)
      invariant forall j | 0 <= j <= ii && j < |dfs| :: Height(dfs[..j], cap) >= 1
      invariant stackHeight == 0 ==> ii >= cap
    {
      HeightSnoc(dfs, cap, ii);
      var v := dfs[ii];
      if v == '1' {
        stackHeight := stackHeight + cap - 1;
        ii := ii + 1;
        continue;
      }
      if v == '0' {
        stackHeight := stackHeight - 1;
        if 0 == stackHeight && (ii < limit || ii < |dfs| - 1) {
          return true;
        }
      }
      ii := ii + 1;
    }
    assert dfs[..ii] == dfs;
    if 0 == stackHeight {
      return false;
    }
    return true;
  }

  /** As written, badSpeed accepts "10010" for a binary alphabet: the shape of a
      single caret "100" followed by the fragment "10", which is no tree. It is
      not a valid shape, because the counter is already zero after "100". */
  lemma BadSpeedAcceptsTrailingWord()
    ensures !BadSpeedSpec("10010", 2)
    ensures !ValidShape("10010", 2)
    ensures "10010" == "100" + "10" && ValidShape("100", 2) && !WellNested("10", 2)
  {
    var s := "10010";
    assert s[..0] == [];
    HeightSnoc(s, 2, 0);
    HeightSnoc(s, 2, 1);
    HeightSnoc(s, 2, 2);
    HeightSnoc(s, 2, 3);
    HeightSnoc(s, 2, 4);
    assert s[..5] == s;
    assert Height(s[..3], 2) == 0;
    assert Height(s, 2) == 0;
    forall ii | 0 <= ii < |s| ensures !EarlyEmpty(s, 2, ii) {
    }
  }

  /** Two complete trees in a row never pass badSpeed, as written or corrected:
      the counter ends at -1. What the missing check lets through is a valid
      shape followed by a fragment whose net change is zero. */
  lemma TreesInARowRejected(a: string, b: string, cap: int)
    requires WellNested(a, cap) && WellNested(b, cap)
    ensures Height(a + b, cap) == -1
    ensures BadSpeedSpec(a + b, cap)
  {
    HeightConcat(a, b, cap);
  }

  /** A valid shape has no other valid shape as a proper prefix, so a word holds at
      most one tree description from its start. */
  lemma ValidShapePrefixFree(a: string, b: string, cap: int)
    requires ValidShape(a, cap) && WellNested(b, cap) && IsPrefix(a, b)
    ensures a == b
  {
  }

  // ---------------------------------------------------------------------------
  // The shape of a tree

  function Shape(t: Tree): string
    decreases t
  {
    match t
    case Leaf(_) => "0"
    case Node(kids) => "1" + ShapeOf(kids)
  }

  function ShapeOf(ts: seq<Tree>): string
    decreases ts
  {
    if ts == [] then "" else Shape(ts[0]) + ShapeOf(ts[1..])
  }

  /** The shape of a full tree is well nested. */
  lemma {:induction false} ShapeHeight(t: Tree, cap: nat)
    requires Full(t, cap) && cap >= 1
    ensures Height(Shape(t), cap) == 0
    ensures forall i | 0 <= i < |Shape(t)| :: Height(Shape(t)[..i], cap) >= 1
    decreases t, 1
  {
    match t
    case Leaf(_) =>
      assert Shape(t)[..0] == [];
      assert Height("0", cap) == Height([], cap) - 1;
    case Node(kids) =>
      var x := ShapeOf(kids);
      ShapeOfHeight(kids, cap);
      assert Height("1", cap) == cap by {
        assert "1"[..0] == [];
      }
      HeightConcat("1", x, cap);
      forall i | 0 <= i < |Shape(t)| ensures Height(Shape(t)[..i], cap) >= 1 {
        if i == 0 {
          assert Shape(t)[..0] == [];
        } else {
          assert Shape(t)[..i] == "1" + x[..i - 1];
          HeightConcat("1", x[..i - 1], cap);
        }
      }
  }

  /** The shapes of m full trees side by side: the counter falls by m overall and
      never below 2-m before the end. */
  lemma {:induction false} ShapeOfHeight(ts: seq<Tree>, cap: nat)
    requires cap >= 1 && forall j | 0 <= j < |ts| :: Full(ts[j], cap)
    ensures Height(ShapeOf(ts), cap) == 1 - |ts|
    ensures forall i | 0 <= i < |ShapeOf(ts)| :: Height(ShapeOf(ts)[..i], cap) >= 2 - |ts|
    decreases ts, 0
  {
    if ts == [] {
      assert ShapeOf(ts) == [];
    } else {
      var a, b := Shape(ts[0]), ShapeOf(ts[1..]);
      ShapeHeight(ts[0], cap);
      ShapeOfHeight(ts[1..], cap);
      HeightConcat(a, b, cap);
      forall i | 0 <= i < |a + b| ensures Height((a + b)[..i], cap) >= 2 - |ts| {
        if i < |a| {
          assert (a + b)[..i] == a[..i];
        } else {
          assert (a + b)[..i] == a + b[..i - |a|];
          HeightConcat(a, b[..i - |a|], cap);
        }
      }
    }
  }

  lemma {:induction false} ShapeOfLength(ts: seq<Tree>)
    ensures |ShapeOf(ts)| >= |ts|
    decreases ts
  {
    if ts != [] {
      ShapeOfLength(ts[1..]);
    }
  }

  /** The shape of a full tree with at least one internal node is a valid shape,
      so the corrected badSpeed accepts it; so does the one as written. */
  lemma ShapeValid(t: Tree, cap: nat)
    requires Full(t, cap) && cap >= 1 && t.Node?
    ensures ValidShape(Shape(t), cap)
    ensures !BadSpeedSpec(Shape(t), cap)
  {
    ShapeHeight(t, cap);
    ShapeOfLength(t.kids);
    var s := Shape(t);
    forall ii | 0 <= ii < |s| ensures !EarlyEmpty(s, cap, ii) {
      if ii < |s| - 1 {
        assert Height(s[..ii + 1], cap) >= 1;
      }
    }
  }

  /** A shape is written with '0' and '1' only. */
  lemma {:induction false} ShapeBits(t: Tree)
    ensures forall i | 0 <= i < |Shape(t)| :: Shape(t)[i] == '0' || Shape(t)[i] == '1'
    decreases t, 1
  {
    if t.Node? {
      ShapeOfBits(t.kids);
    }
  }

  lemma {:induction false} ShapeOfBits(ts: seq<Tree>)
    ensures forall i | 0 <= i < |ShapeOf(ts)| :: ShapeOf(ts)[i] == '0' || ShapeOf(ts)[i] == '1'
    decreases ts, 0
  {
    if ts != [] {
      ShapeBits(ts[0]);
      ShapeOfBits(ts[1..]);
    }
  }

  /** Trees of the same shape have the same description, whatever their labels. */
  lemma {:induction false} SameShapeShape(t1: Tree, t2: Tree)
    requires SameShape(t1, t2)
    ensures Shape(t1) == Shape(t2)
    decreases t1, 1
  {
    if t1.Node? {
      SameShapeShapeOf(t1.kids, t2.kids);
    }
  }

  lemma {:induction false} SameShapeShapeOf(ts1: seq<Tree>, ts2: seq<Tree>)
    requires |ts1| == |ts2| && forall i | 0 <= i < |ts1| :: SameShape(ts1[i], ts2[i])
    ensures ShapeOf(ts1) == ShapeOf(ts2)
    decreases ts1, 0
  {
    if ts1 != [] {
      SameShapeShape(ts1[0], ts2[0]);
      SameShapeShapeOf(ts1[1..], ts2[1..]);
    }
  }

  // ---------------------------------------------------------------------------
  // Decoding a shape

  /** Reads one tree from the front of s, labelling its leaves l, l+1, ... in
      dictionary order; the result is the tree and how much of s it used. */
  function ParseTree(s: string, k: nat, l: nat): (r: Option<(Tree, nat)>)
    ensures r.Some? ==> 1 <= r.value.1 <= |s|
    decreases |s|, 0
  {
    if s == [] then None
    else if s[0] == '0' then Some((Leaf(l), 1))
    else if s[0] == '1' then
      match ParseKids(s[1..], k, k, l)
      case None => None
      case Some(res) => Some((Node(res.0), res.1 + 1))
    else None
  }

  /** Reads m trees in a row from the front of s, the first labelled from l. */
  function ParseKids(s: string, k: nat, m: nat, l: nat): (r: Option<(seq<Tree>, nat)>)
    ensures r.Some? ==> r.value.1 <= |s| && |r.value.0| == m
    decreases |s|, 1, m
  {
    if m == 0 then Some(([], 0))
    else
      match ParseTree(s, k, l)
      case None => None
      case Some(first) =>
        match ParseKids(s[first.1..], k, m - 1, l + Size(first.0))
        case None => None
        case Some(rest) => Some(([first.0] + rest.0, first.1 + rest.1))
  }

  /** The library's DFSToPrefCode: the code a whole word describes, labelled
      0 .. n-1 in dictionary order, or None. */
  function DecodeDfs(s: string, k: nat): Option<Tree> {
    match ParseTree(s, k, 0)
    case None => None
    case Some(res) => if res.1 == |s| then Some(res.0) else None
  }

  /** The library's ValidDFSForPrefC: a valid shape over '0' and '1'. */
  predicate ValidDfs(k: nat, s: string) {
    ValidShape(s, k) && forall i | 0 <= i < |s| :: s[i] == '0' || s[i] == '1'
  }

  /** Over '0' and '1' alone, a valid shape for an alphabet of two or more symbols
      opens with a caret, so it is never the lone leaf. */
  lemma ValidDfsStartsWithCaret(k: nat, s: string)
    requires k >= 2 && ValidDfs(k, s)
    ensures s[0] == '1'
  {
    HeightSnoc(s, k, 0);
    assert s[..0] == [];
    assert Height(s[..1], k) >= 1;
  }

  /** Both badSpeed and its correction ignore characters other than '0' and '1',
      so "x0" passes both for cap 2 although it describes only a leaf; the
      library's validator refuses it. */
  lemma PaddedLeafPasses()
    ensures ValidShape("x0", 2) && !BadSpeedSpec("x0", 2)
    ensures !ValidDfs(2, "x0")
  {
    var s := "x0";
    assert s[..0] == [];
    HeightSnoc(s, 2, 0);
    HeightSnoc(s, 2, 1);
    assert s[..2] == s;
    assert Height(s[..1], 2) == 1;
    assert Height(s, 2) == 0;
    assert s[0] == 'x';
  }

  /** What ParseTree reads is a full tree labelled from l, and the part of s it used
      is that tree's shape. */
  lemma {:induction false} ParseTreeSound(s: string, k: nat, l: nat)
    ensures ParseTree(s, k, l).Some? ==>
              var (t, n) := ParseTree(s, k, l).value;
              Full(t, k) && Labels(t) == Range(l, Size(t)) && Shape(t) == s[..n]
    decreases |s|, 0
  {
    if s != [] && s[0] == '1' && ParseKids(s[1..], k, k, l).Some? {
      ParseKidsSound(s[1..], k, k, l);
      var n := ParseKids(s[1..], k, k, l).value.1;
      assert s[..n + 1] == "1" + s[1..][..n];
    }
  }

  lemma {:induction false} ParseKidsSound(s: string, k: nat, m: nat, l: nat)
    ensures ParseKids(s, k, m, l).Some? ==> KidsRead(s, k, l, ParseKids(s, k, m, l).value)
    decreases |s|, 1, m
  {
    if m > 0 && ParseTree(s, k, l).Some? {
      var first := ParseTree(s, k, l).value;
      var l2 := l + Size(first.0);
      var s2 := s[first.1..];
      if ParseKids(s2, k, m - 1, l2).Some? {
        var rest := ParseKids(s2, k, m - 1, l2).value;
        assert ParseKids(s, k, m, l) == Some(([first.0] + rest.0, first.1 + rest.1));
        ParseTreeSound(s, k, l);
        ParseKidsSound(s2, k, m - 1, l2);
        ConsTree(first.0, rest.0, k, l);
        assert s[..first.1 + rest.1] == s[..first.1] + s2[..rest.1];
      }
    }
  }

  /** res is trees side by side, full and labelled on from l, whose shapes spell the
      first res.1 characters of s. */
  predicate KidsRead(s: string, k: nat, l: nat, res: (seq<Tree>, nat)) {
    && res.1 <= |s|
    && (forall j | 0 <= j < |res.0| :: Full(res.0[j], k))
    && LabelsOf(res.0) == Range(l, |LabelsOf(res.0)|)
    && ShapeOf(res.0) == s[..res.1]
  }

  /** One tree labelled from l followed by trees labelled on from it. */
  lemma ConsTree(t: Tree, ts: seq<Tree>, k: nat, l: nat)
    requires Full(t, k) && Labels(t) == Range(l, Size(t))
    requires forall j | 0 <= j < |ts| :: Full(ts[j], k)
    requires LabelsOf(ts) == Range(l + Size(t), |LabelsOf(ts)|)
    ensures forall j | 0 <= j < |[t] + ts| :: Full(([t] + ts)[j], k)
    ensures LabelsOf([t] + ts) == Range(l, |LabelsOf([t] + ts)|)
    ensures ShapeOf([t] + ts) == Shape(t) + ShapeOf(ts)
  {
    var us := [t] + ts;
    assert us[0] == t && us[1..] == ts;
    RangeConcat(l, Size(t), |LabelsOf(ts)|);
  }

  /** The parts of the labels of trees side by side. */
  lemma ConsLabels(ts: seq<Tree>, l: nat)
    requires ts != [] && LabelsOf(ts) == Range(l, |LabelsOf(ts)|)
    ensures Labels(ts[0]) == Range(l, Size(ts[0]))
    ensures LabelsOf(ts[1..]) == Range(l + Size(ts[0]), |LabelsOf(ts[1..])|)
  {
    var n := Size(ts[0]);
    assert LabelsOf(ts) == Labels(ts[0]) + LabelsOf(ts[1..]);
    assert Labels(ts[0]) == LabelsOf(ts)[..n];
    assert LabelsOf(ts[1..]) == LabelsOf(ts)[n..];
  }

  /** Decoding the shape of a full tree labelled from l gives the tree back and
      uses exactly its shape, whatever follows. */
  lemma {:induction false} ParseShape(t: Tree, k: nat, l: nat, rest: string)
    requires Full(t, k) && Labels(t) == Range(l, Size(t))
    ensures ParseTree(Shape(t) + rest, k, l) == Some((t, |Shape(t)|))
    decreases t, 1
  {
    match t
    case Leaf(x) =>
      assert (Shape(t) + rest)[0] == '0';
      assert Labels(t)[0] == Range(l, 1)[0];
    case Node(kids) =>
      ParseShapeOf(kids, k, l, rest);
      var s := Shape(t) + rest;
      assert s[1..] == ShapeOf(kids) + rest;
  }

  lemma {:induction false} ParseShapeOf(ts: seq<Tree>, k: nat, l: nat, rest: string)
    requires forall j | 0 <= j < |ts| :: Full(ts[j], k)
    requires LabelsOf(ts) == Range(l, |LabelsOf(ts)|)
    ensures ParseKids(ShapeOf(ts) + rest, k, |ts|, l) == Some((ts, |ShapeOf(ts)|))
    decreases ts, 0
  {
    if ts != [] {
      assert forall j | 0 <= j < |ts[1..]| :: Full(ts[1..][j], k) by {
        forall j | 0 <= j < |ts[1..]| ensures Full(ts[1..][j], k) { assert ts[1..][j] == ts[j + 1]; }
      }
      ConsLabels(ts, l);
      ParseShapeOf(ts[1..], k, l + Size(ts[0]), rest);
      ParseShape(ts[0], k, l, ShapeOf(ts[1..]) + rest);
      var n1, n2 := |Shape(ts[0])|, |ShapeOf(ts[1..])|;
      ParseKidsCons(Shape(ts[0]), ShapeOf(ts[1..]) + rest, k, |ts|, l, ts[0], n1, ts[1..], n2);
      ParseShapeOfStep(ts, k, l, rest, n1, n2);
    }
  }

  /** The parse of ShapeOf(ts) + rest is the parse of its first tree's shape
      followed by the rest. */
  lemma {:induction false} ParseShapeOfStep(ts: seq<Tree>, k: nat, l: nat, rest: string, n1: nat, n2: nat)
    requires ts != [] && n1 == |Shape(ts[0])| && n2 == |ShapeOf(ts[1..])|
    requires ParseKids(Shape(ts[0]) + (ShapeOf(ts[1..]) + rest), k, |ts|, l) == Some(([ts[0]] + ts[1..], n1 + n2))
    ensures ParseKids(ShapeOf(ts) + rest, k, |ts|, l) == Some((ts, |ShapeOf(ts)|))
  {
    assert ShapeOf(ts) + rest == Shape(ts[0]) + (ShapeOf(ts[1..]) + rest) && |ShapeOf(ts)| == n1 + n2 by {
      assert ShapeOf(ts) == Shape(ts[0]) + ShapeOf(ts[1..]);
    }
    assert [ts[0]] + ts[1..] == ts;
  }

  /** ParseKids reads a first tree and then the others after it. */
  lemma {:induction false} ParseKidsCons(a: string, b: string, k: nat, m: nat, l: nat, t: Tree, n1: nat, us: seq<Tree>, n2: nat)
    requires m >= 1 && n1 == |a| && ParseTree(a + b, k, l) == Some((t, n1))
    requires ParseKids(b, k, m - 1, l + Size(t)) == Some((us, n2))
    ensures ParseKids(a + b, k, m, l) == Some(([t] + us, n1 + n2))
  {
    assert (a + b)[n1..] == b;
  }

  /** The decoder inverts Shape on codes labelled 0 .. n-1 in dictionary order. */
  lemma DecodeShape(t: Tree, k: nat)
    requires Full(t, k) && Labels(t) == Range(0, Size(t))
    ensures DecodeDfs(Shape(t), k) == Some(t)
  {
    ParseShape(t, k, 0, []);
    assert Shape(t) + [] == Shape(t);
  }

  /** Whatever the decoder returns is a code labelled 0 .. n-1 in dictionary order
      whose shape is the word it read. */
  lemma DecodeSound(s: string, k: nat)
    ensures DecodeDfs(s, k).Some? ==>
              var t := DecodeDfs(s, k).value;
              Full(t, k) && Labels(t) == Range(0, Size(t)) && Shape(t) == s
  {
    ParseTreeSound(s, k, 0);
    if ParseTree(s, k, 0).Some? {
      assert s[..|s|] == s;
    }
  }

  // ---------------------------------------------------------------------------
  // Every valid word decodes

  /** Reading past the first q characters: the counter continues from where it was. */
  lemma HeightDrop(s: string, q: nat, j: nat, cap: int)
    requires q + j <= |s|
    ensures Height(s[..q + j], cap) == Height(s[..q], cap) + Height(s[q..][..j], cap) - 1
  {
    assert s[..q + j] == s[..q] + s[q..][..j];
    HeightConcat(s[..q], s[q..][..j], cap);
  }

  /** The counter falls by at most one per character, so on its way down to a
      value at or below target (and below one) it meets target first at some q. */
  lemma {:induction false} FirstReach(s: string, cap: int, target: int, p: nat) returns (q: nat)
    requires cap >= 1 && p <= |s| && Height(s[..p], cap) <= target < 1
    ensures q <= p && Height(s[..q], cap) == target
    ensures forall i | 0 <= i < q :: Height(s[..i], cap) > target
    decreases p
  {
    if exists i | 0 <= i < p :: Height(s[..i], cap) <= target {
      var i :| 0 <= i < p && Height(s[..i], cap) <= target;
      q := FirstReach(s, cap, target, i);
    } else {
      assert s[..0] == [];
      HeightSnoc(s, cap, p - 1);
      q := p;
    }
  }

  /** ParseTree reads exactly up to the first place the counter reaches zero. */
  lemma {:induction false} ParseTreeComplete(s: string, k: nat, l: nat, p: nat)
    requires k >= 1 && forall i | 0 <= i < |s| :: s[i] == '0' || s[i] == '1'
    requires 1 <= p <= |s| && Height(s[..p], k) == 0
    requires forall i | 0 <= i < p :: Height(s[..i], k) >= 1
    ensures ParseTree(s, k, l).Some? && ParseTree(s, k, l).value.1 == p
    decreases |s|, 0
  {
    assert s[..0] == [];
    HeightSnoc(s, k, 0);
    if s[0] == '1' {
      var s1 := s[1..];
      forall j | 0 <= j <= p - 1 ensures Height(s1[..j], k) == Height(s[..1 + j], k) - k + 1 {
        HeightDrop(s, 1, j, k);
      }
      assert forall i | 0 <= i < |s1| :: s1[i] == s[i + 1];
      ParseKidsComplete(s1, k, k, l, p - 1);
    }
  }

  /** ParseKids for m trees reads exactly up to the first place the counter, started
      at m, reaches zero. */
  lemma {:induction false} ParseKidsComplete(s: string, k: nat, m: nat, l: nat, p: nat)
    requires k >= 1 && forall i | 0 <= i < |s| :: s[i] == '0' || s[i] == '1'
    requires p <= |s| && Height(s[..p], k) == 1 - m
    requires forall i | 0 <= i < p :: Height(s[..i], k) > 1 - m
    ensures ParseKids(s, k, m, l).Some? && ParseKids(s, k, m, l).value.1 == p
    decreases |s|, 1, m
  {
    assert s[..0] == [];
    if m > 0 {
      var q := FirstReach(s, k, 0, p);
      ParseTreeComplete(s, k, l, q);
      var first := ParseTree(s, k, l).value;
      var s2 := s[q..];
      forall j | 0 <= j <= p - q ensures Height(s2[..j], k) == Height(s[..q + j], k) + 1 {
        HeightDrop(s, q, j, k);
      }
      assert forall i | 0 <= i < |s2| :: s2[i] == s[q + i];
      ParseKidsComplete(s2, k, m - 1, l + Size(first.0), p - q);
    }
  }

  /** Every word the validator accepts decodes to a code whose shape it is. */
  lemma DecodeComplete(s: string, k: nat)
    requires k >= 1 && ValidDfs(k, s)
    ensures DecodeDfs(s, k).Some? && Shape(DecodeDfs(s, k).value) == s
  {
    assert s[..|s|] == s;
    ParseTreeComplete(s, k, 0, |s|);
    DecodeSound(s, k);
  }
}
