/**
  A stand-in for the prefix-code library that the tree-pair engine drives.

  A complete prefix code over an alphabet of k symbols is a labelled k-ary tree:
  the i-th child of a node hangs under the i-th symbol of the alphabet, so the
  word of a leaf is the sequence of symbols on the path to it, and the leaves
  read left to right are in dictionary order. Every leaf carries a label; in a
  valid code the labels are exactly 0 .. n-1 for n leaves.

  Nothing here claims fidelity to the library's own storage, text rendering or
  label numbering; the assumptions are the ones listed in README.md.
*/
module PrefCode {

  datatype Option<T> = None | Some(value: T)

  datatype Tree = Leaf(lbl: nat) | Node(kids: seq<Tree>)

  predicate Distinct<T(==)>(s: seq<T>) {
    forall i, j | 0 <= i < j < |s| :: s[i] != s[j]
  }

  /** The sequence l, l+1, ..., l+n-1. */
  function Range(l: nat, n: nat): (r: seq<nat>)
    ensures |r| == n
  {
    seq(n, j requires 0 <= j < n => l + j)
  }

  function MapSeq(s: seq<nat>, f: nat -> nat): (r: seq<nat>)
    ensures |r| == |s|
  {
    seq(|s|, i requires 0 <= i < |s| => f(s[i]))
  }

  function IsPrefix(p: string, s: string): bool {
    |p| <= |s| && s[..|p|] == p
  }

  // ---------------------------------------------------------------------------
  // Alphabet

  /** Position of symbol c in the alphabet, or -1 when it is not a symbol. */
  function IndexOf(alpha: string, c: char): (i: int)
    ensures -1 <= i < |alpha|
    ensures 0 <= i ==> alpha[i] == c && c !in alpha[..i]
    ensures i < 0 <==> c !in alpha
  {
    if alpha == [] then -1
    else if alpha[0] == c then 0
    else
      var j := IndexOf(alpha[1..], c);
      assert alpha[1..][..j + 1] == alpha[1..j + 2] by {}
      if j < 0 then -1 else j + 1
  }

  lemma IndexOfDistinct(alpha: string, i: nat)
    requires Distinct(alpha) && i < |alpha|
    ensures IndexOf(alpha, alpha[i]) == i
  {
    var j := IndexOf(alpha, alpha[i]);
    assert alpha[j] == alpha[i];
  }

  predicate OverAlpha(alpha: string, u: string) {
    forall j | 0 <= j < |u| :: u[j] in alpha
  }

  // ---------------------------------------------------------------------------
  // Shape and labels

  /** Every internal node has exactly k children. */
  predicate Full(t: Tree, k: nat) {
    match t
    case Leaf(_) => true
    case Node(kids) => |kids| == k && forall i | 0 <= i < |kids| :: Full(kids[i], k)
  }

  /** Two trees with the same nodes, whatever their labels. */
  predicate SameShape(t1: Tree, t2: Tree) {
    match t1
    case Leaf(_) => t2.Leaf?
    case Node(k1) =>
      t2.Node? && |k1| == |t2.kids| &&
      forall i | 0 <= i < |k1| :: SameShape(k1[i], t2.kids[i])
  }

  /** The labels of the leaves in dictionary order: the code's permutation. */
  function Labels(t: Tree): seq<nat>
    decreases t
  {
    match t
    case Leaf(l) => [l]
    case Node(kids) => LabelsOf(kids)
  }

  function LabelsOf(ts: seq<Tree>): seq<nat>
    decreases ts
  {
    if ts == [] then [] else Labels(ts[0]) + LabelsOf(ts[1..])
  }

  /** The number of leaves. */
  function Size(t: Tree): nat {
    |Labels(t)|
  }

  /** The labels are exactly 0 .. n-1, each once. */
  predicate ValidLabels(s: seq<nat>) {
    && (forall i | 0 <= i < |s| :: s[i] < |s|)
    && Distinct(s)
    && (forall v | 0 <= v < |s| :: v in s)
  }

  /** A valid code: full k-ary over the alphabet, labels a permutation of 0 .. n-1. */
  predicate IsCode(alpha: string, t: Tree) {
    Full(t, |alpha|) && ValidLabels(Labels(t))
  }

  lemma LabelsOfConcat(a: seq<Tree>, b: seq<Tree>)
    ensures LabelsOf(a + b) == LabelsOf(a) + LabelsOf(b)
  {
    if a == [] {
      assert a + b == b;
    } else {
      assert (a + b)[0] == a[0] && (a + b)[1..] == a[1..] + b;
      LabelsOfConcat(a[1..], b);
    }
  }

  lemma {:induction false} LabelsOfSplit(ts: seq<Tree>, i: nat)
    requires i < |ts|
    ensures LabelsOf(ts) == LabelsOf(ts[..i]) + Labels(ts[i]) + LabelsOf(ts[i + 1..])
  {
    assert LabelsOf([ts[i]]) == Labels(ts[i]) by {
      assert [ts[i]][1..] == [];
    }
    LabelsOfConcat(ts[..i], [ts[i]]);
    LabelsOfConcat(ts[..i] + [ts[i]], ts[i + 1..]);
    assert ts == ts[..i] + [ts[i]] + ts[i + 1..];
  }

  lemma LabelsOfAround(a: seq<Tree>, c: Tree, b: seq<Tree>)
    ensures LabelsOf(a + [c] + b) == LabelsOf(a) + Labels(c) + LabelsOf(b)
  {
    LabelsOfSplit(a + [c] + b, |a|);
    assert (a + [c] + b)[..|a|] == a && (a + [c] + b)[|a| + 1..] == b;
  }

  lemma LabelsOfPrefix(ts: seq<Tree>, i: nat, j: nat)
    requires i <= j <= |ts|
    ensures LabelsOf(ts[..j]) == LabelsOf(ts[..i]) + LabelsOf(ts[i..j])
  {
    assert ts[..j] == ts[..i] + ts[i..j];
    LabelsOfConcat(ts[..i], ts[i..j]);
  }

  lemma SizePositive(t: Tree, k: nat)
    requires Full(t, k) && k >= 1
    ensures Size(t) >= 1
  {
    if t.Node? {
      LabelsOfSplit(t.kids, 0);
      SizePositive(t.kids[0], k);
    }
  }

  // ---------------------------------------------------------------------------
  // Walking a word down the tree

  /** The subtree at word w, if w addresses a node. */
  function Subtree(alpha: string, t: Tree, w: string): Option<Tree>
    decreases w
  {
    if w == [] then Some(t)
    else match t
      case Leaf(_) => None
      case Node(kids) =>
        var i := IndexOf(alpha, w[0]);
        if 0 <= i < |kids| then Subtree(alpha, kids[i], w[1..]) else None
  }

  predicate IsLeaf(alpha: string, t: Tree, w: string) {
    Subtree(alpha, t, w).Some? && Subtree(alpha, t, w).value.Leaf?
  }

  /** The label of leaf w, or -1 when w is not a leaf. */
  function LabelAtLeaf(alpha: string, t: Tree, w: string): int {
    match Subtree(alpha, t, w)
    case Some(Leaf(l)) => l
    case _ => -1
  }

  predicate AllLeaves(ts: seq<Tree>) {
    forall i | 0 <= i < |ts| :: ts[i].Leaf?
  }

  /** w is an internal node all of whose children are leaves. */
  predicate IsExposedCaret(alpha: string, t: Tree, w: string) {
    match Subtree(alpha, t, w)
    case Some(Node(kids)) => |kids| > 0 && AllLeaves(kids)
    case _ => false
  }

  /** The number of leaves to the left of the node at w. */
  function Offset(alpha: string, t: Tree, w: string): nat
    decreases w
  {
    if w == [] then 0
    else match t
      case Leaf(_) => 0
      case Node(kids) =>
        var i := IndexOf(alpha, w[0]);
        if 0 <= i < |kids| then |LabelsOf(kids[..i])| + Offset(alpha, kids[i], w[1..]) else 0
  }

  /** The labels under the node at w form a contiguous block of the permutation. */
  lemma {:induction false} SubtreeLabels(alpha: string, t: Tree, w: string)
    requires Subtree(alpha, t, w).Some?
    ensures Offset(alpha, t, w) + Size(Subtree(alpha, t, w).value) <= Size(t)
    ensures Labels(t)[Offset(alpha, t, w) .. Offset(alpha, t, w) + Size(Subtree(alpha, t, w).value)]
            == Labels(Subtree(alpha, t, w).value)
    decreases w
  {
    if w != [] {
      var kids := t.kids;
      var i := IndexOf(alpha, w[0]);
      SubtreeLabels(alpha, kids[i], w[1..]);
      var a := LabelsOf(kids[..i]);
      var o := Offset(alpha, kids[i], w[1..]);
      var n := Size(Subtree(alpha, kids[i], w[1..]).value);
      assert Offset(alpha, t, w) == |a| + o && Subtree(alpha, t, w) == Subtree(alpha, kids[i], w[1..]);
      assert Labels(t) == a + Labels(kids[i]) + LabelsOf(kids[i + 1..]) by {
        LabelsOfSplit(kids, i);
      }
      SliceInMiddle(a, Labels(kids[i]), LabelsOf(kids[i + 1..]), Labels(t), o, n);
    }
  }

  /** A slice of the middle block of a + m + c, read in the whole. */
  lemma {:induction false} SliceInMiddle(a: seq<nat>, m: seq<nat>, c: seq<nat>, L: seq<nat>, o: nat, n: nat)
    requires L == a + m + c && o + n <= |m|
    ensures |a| + o + n <= |L| && L[|a| + o .. |a| + o + n] == m[o .. o + n]
  {
  }

  /** The label of a leaf sits at the leaf's offset in the permutation. */
  lemma LeafLabelAtOffset(alpha: string, t: Tree, w: string)
    requires IsLeaf(alpha, t, w)
    ensures Offset(alpha, t, w) < Size(t)
    ensures Labels(t)[Offset(alpha, t, w)] == LabelAtLeaf(alpha, t, w)
  {
    SubtreeLabels(alpha, t, w);
    var o := Offset(alpha, t, w);
    assert Labels(t)[o .. o + 1] == [LabelAtLeaf(alpha, t, w)];
  }

  /** Different leaves have different offsets. */
  lemma {:induction false} OffsetInjective(alpha: string, t: Tree, w1: string, w2: string)
    requires IsLeaf(alpha, t, w1) && IsLeaf(alpha, t, w2)
    requires Offset(alpha, t, w1) == Offset(alpha, t, w2)
    ensures w1 == w2
    decreases w1
  {
    if t.Node? {
      var kids := t.kids;
      var i1, i2 := IndexOf(alpha, w1[0]), IndexOf(alpha, w2[0]);
      if i1 == i2 {
        OffsetInjective(alpha, kids[i1], w1[1..], w2[1..]);
        assert w1 == [w1[0]] + w1[1..] && w2 == [w2[0]] + w2[1..];
      } else if i1 < i2 {
        OffsetOrdered(alpha, kids, i1, i2, w1[1..], w2[1..]);
      } else {
        OffsetOrdered(alpha, kids, i2, i1, w2[1..], w1[1..]);
      }
    }
  }

  lemma OffsetOrdered(alpha: string, kids: seq<Tree>, i1: nat, i2: nat, v1: string, v2: string)
    requires i1 < i2 < |kids|
    requires IsLeaf(alpha, kids[i1], v1) && Subtree(alpha, kids[i2], v2).Some?
    ensures |LabelsOf(kids[..i1])| + Offset(alpha, kids[i1], v1)
          < |LabelsOf(kids[..i2])| + Offset(alpha, kids[i2], v2)
  {
    LeafLabelAtOffset(alpha, kids[i1], v1);
    LabelsOfPrefix(kids, i1, i2);
    LabelsOfSplit(kids[..i2], i1);
    assert kids[..i2][..i1] == kids[..i1];
  }

  /** In a code with distinct labels, a label names at most one leaf. */
  lemma LeafUnique(alpha: string, t: Tree, w1: string, w2: string)
    requires Distinct(Labels(t))
    requires IsLeaf(alpha, t, w1) && IsLeaf(alpha, t, w2)
    requires LabelAtLeaf(alpha, t, w1) == LabelAtLeaf(alpha, t, w2)
    ensures w1 == w2
  {
    LeafLabelAtOffset(alpha, t, w1);
    LeafLabelAtOffset(alpha, t, w2);
    OffsetInjective(alpha, t, w1, w2);
  }

  /** A leaf's label is one of the code's labels. */
  lemma LeafLabelIn(alpha: string, t: Tree, w: string)
    requires IsLeaf(alpha, t, w)
    ensures LabelAtLeaf(alpha, t, w) in Labels(t)
  {
    LeafLabelAtOffset(alpha, t, w);
  }

  // ---------------------------------------------------------------------------
  // Relabelling: the same tree with every label l replaced by f(l)

  function MapLabels(t: Tree, f: nat -> nat): Tree
    decreases t
  {
    match t
    case Leaf(l) => Leaf(f(l))
    case Node(kids) => Node(MapLabelsOf(kids, f))
  }

  function MapLabelsOf(ts: seq<Tree>, f: nat -> nat): (r: seq<Tree>)
    ensures |r| == |ts|
    decreases ts
  {
    seq(|ts|, i requires 0 <= i < |ts| => MapLabels(ts[i], f))
  }

  lemma {:induction false} MapLabelsLabels(t: Tree, f: nat -> nat)
    ensures Labels(MapLabels(t, f)) == MapSeq(Labels(t), f)
    ensures SameShape(t, MapLabels(t, f))
    decreases t, 0
  {
    match t
    case Leaf(l) =>
    case Node(kids) => MapLabelsOfLabels(kids, f);
  }

  lemma {:induction false} MapLabelsOfLabels(ts: seq<Tree>, f: nat -> nat)
    ensures LabelsOf(MapLabelsOf(ts, f)) == MapSeq(LabelsOf(ts), f)
    ensures forall i | 0 <= i < |ts| :: SameShape(ts[i], MapLabelsOf(ts, f)[i])
    decreases ts, 1
  {
    if ts != [] {
      MapLabelsLabels(ts[0], f);
      MapLabelsOfLabels(ts[1..], f);
      assert MapLabelsOf(ts, f)[1..] == MapLabelsOf(ts[1..], f);
      assert MapSeq(LabelsOf(ts), f) == MapSeq(Labels(ts[0]), f) + MapSeq(LabelsOf(ts[1..]), f);
    }
  }

  /** Relabelling leaves every word where it was and maps the label of each leaf. */
  lemma {:induction false} MapLabelsAt(alpha: string, t: Tree, f: nat -> nat, w: string)
    ensures IsLeaf(alpha, MapLabels(t, f), w) == IsLeaf(alpha, t, w)
    ensures LabelAtLeaf(alpha, MapLabels(t, f), w)
            == if IsLeaf(alpha, t, w) then f(LabelAtLeaf(alpha, t, w)) else -1
    decreases w
  {
    if w != [] && t.Node? {
      var i := IndexOf(alpha, w[0]);
      if 0 <= i < |t.kids| {
        MapLabelsAt(alpha, t.kids[i], f, w[1..]);
      }
    }
  }

  // ---------------------------------------------------------------------------
  // What depends on the shape only

  lemma {:induction false} SameShapeSize(t1: Tree, t2: Tree)
    requires SameShape(t1, t2)
    ensures Size(t1) == Size(t2)
    decreases t1, 0
  {
    if t1.Node? {
      SameShapeSizeOf(t1.kids, t2.kids);
    }
  }

  lemma {:induction false} SameShapeSizeOf(ts1: seq<Tree>, ts2: seq<Tree>)
    requires |ts1| == |ts2|
    requires forall i | 0 <= i < |ts1| :: SameShape(ts1[i], ts2[i])
    ensures |LabelsOf(ts1)| == |LabelsOf(ts2)|
    decreases ts1, 1
  {
    if ts1 != [] {
      SameShapeSize(ts1[0], ts2[0]);
      SameShapeSizeOf(ts1[1..], ts2[1..]);
    }
  }

  /** A tree is determined by its shape and its labels in dictionary order. */
  lemma {:induction false} ShapeLabelsEqual(t1: Tree, t2: Tree)
    requires SameShape(t1, t2) && Labels(t1) == Labels(t2)
    ensures t1 == t2
    decreases t1, 1
  {
    match t1
    case Leaf(_) =>
      assert Labels(t1)[0] == Labels(t2)[0];
    case Node(k1) =>
      ShapeLabelsEqualOf(k1, t2.kids);
  }

  lemma {:induction false} ShapeLabelsEqualOf(ts1: seq<Tree>, ts2: seq<Tree>)
    requires |ts1| == |ts2| && forall i | 0 <= i < |ts1| :: SameShape(ts1[i], ts2[i])
    requires LabelsOf(ts1) == LabelsOf(ts2)
    ensures ts1 == ts2
    decreases ts1, 0
  {
    if ts1 != [] {
      SameShapeSize(ts1[0], ts2[0]);
      var n := Size(ts1[0]);
      assert Labels(ts1[0]) == LabelsOf(ts1)[..n];
      assert Labels(ts2[0]) == LabelsOf(ts2)[..n];
      assert LabelsOf(ts1[1..]) == LabelsOf(ts1)[n..];
      assert LabelsOf(ts2[1..]) == LabelsOf(ts2)[n..];
      ShapeLabelsEqual(ts1[0], ts2[0]);
      ShapeLabelsEqualOf(ts1[1..], ts2[1..]);
      assert ts1 == [ts1[0]] + ts1[1..];
      assert ts2 == [ts2[0]] + ts2[1..];
    }
  }

  lemma SameShapePrefixSizes(ts1: seq<Tree>, ts2: seq<Tree>, i: nat)
    requires |ts1| == |ts2| && i <= |ts1|
    requires forall j | 0 <= j < |ts1| :: SameShape(ts1[j], ts2[j])
    ensures |LabelsOf(ts1[..i])| == |LabelsOf(ts2[..i])|
  {
    SameShapeSizeOf(ts1[..i], ts2[..i]);
  }

  lemma SameShapeSymmetric(t1: Tree, t2: Tree)
    requires SameShape(t1, t2)
    ensures SameShape(t2, t1)
  {
  }

  lemma {:induction false} SameShapeTransitive(t1: Tree, t2: Tree, t3: Tree)
    requires SameShape(t1, t2) && SameShape(t2, t3)
    ensures SameShape(t1, t3)
    decreases t1
  {
    if t1.Node? {
      forall i | 0 <= i < |t1.kids|
        ensures SameShape(t1.kids[i], t3.kids[i])
      {
        SameShapeTransitive(t1.kids[i], t2.kids[i], t3.kids[i]);
      }
    }
  }

  lemma {:induction false} SameShapeFull(t1: Tree, t2: Tree, k: nat)
    requires SameShape(t1, t2)
    ensures Full(t1, k) == Full(t2, k)
    decreases t1
  {
    if t1.Node? {
      forall i | 0 <= i < |t1.kids|
        ensures Full(t1.kids[i], k) == Full(t2.kids[i], k)
      {
        SameShapeFull(t1.kids[i], t2.kids[i], k);
      }
    }
  }

  /** Same-shaped trees have the same nodes, leaves, exposed carets and offsets. */
  lemma {:induction false} SameShapeAt(alpha: string, t1: Tree, t2: Tree, w: string)
    requires SameShape(t1, t2)
    ensures Subtree(alpha, t1, w).Some? == Subtree(alpha, t2, w).Some?
    ensures Subtree(alpha, t1, w).Some? ==>
              SameShape(Subtree(alpha, t1, w).value, Subtree(alpha, t2, w).value)
    ensures IsLeaf(alpha, t1, w) == IsLeaf(alpha, t2, w)
    ensures IsExposedCaret(alpha, t1, w) == IsExposedCaret(alpha, t2, w)
    ensures Offset(alpha, t1, w) == Offset(alpha, t2, w)
    decreases w
  {
    if w != [] && t1.Node? {
      var i := IndexOf(alpha, w[0]);
      if 0 <= i < |t1.kids| {
        SameShapeAt(alpha, t1.kids[i], t2.kids[i], w[1..]);
        SameShapePrefixSizes(t1.kids, t2.kids, i);
      }
    }
  }

  // ---------------------------------------------------------------------------
  // Replacing the subtree at a word

  function Replace(alpha: string, t: Tree, w: string, sub: Tree): Tree
    decreases w
  {
    if w == [] then sub
    else match t
      case Leaf(_) => t
      case Node(kids) =>
        var i := IndexOf(alpha, w[0]);
        if 0 <= i < |kids| then Node(kids[i := Replace(alpha, kids[i], w[1..], sub)]) else t
  }

  /** Replacing the node at w splices the new labels into the block of the old ones. */
  lemma {:induction false} ReplaceLabels(alpha: string, t: Tree, w: string, sub: Tree)
    requires Subtree(alpha, t, w).Some?
    ensures Offset(alpha, t, w) + Size(Subtree(alpha, t, w).value) <= Size(t)
    ensures Labels(Replace(alpha, t, w, sub))
            == Labels(t)[..Offset(alpha, t, w)] + Labels(sub)
               + Labels(t)[Offset(alpha, t, w) + Size(Subtree(alpha, t, w).value)..]
    decreases w
  {
    if w == [] {
      assert Labels(t)[..0] == [] && Labels(t)[Size(t)..] == [];
    } else {
      var i := IndexOf(alpha, w[0]);
      ReplaceLabels(alpha, t.kids[i], w[1..], sub);
      ReplaceLabelsStep(alpha, t, w, sub);
    }
  }

  /** One level of ReplaceLabels: what holds for the child on w's path holds for t. */
  lemma {:induction false} ReplaceLabelsStep(alpha: string, t: Tree, w: string, sub: Tree)
    requires w != [] && Subtree(alpha, t, w).Some?
    requires var c, v := t.kids[IndexOf(alpha, w[0])], w[1..];
             && Offset(alpha, c, v) + Size(Subtree(alpha, c, v).value) <= Size(c)
             && Labels(Replace(alpha, c, v, sub))
                == Labels(c)[..Offset(alpha, c, v)] + Labels(sub) + Labels(c)[Offset(alpha, c, v) + Size(Subtree(alpha, c, v).value)..]
    ensures Offset(alpha, t, w) + Size(Subtree(alpha, t, w).value) <= Size(t)
    ensures Labels(Replace(alpha, t, w, sub))
            == Labels(t)[..Offset(alpha, t, w)] + Labels(sub)
               + Labels(t)[Offset(alpha, t, w) + Size(Subtree(alpha, t, w).value)..]
  {
    var kids := t.kids;
    var i := IndexOf(alpha, w[0]);
    var r := Replace(alpha, kids[i], w[1..], sub);
    var kids2 := kids[i := r];
    var o, n := Offset(alpha, kids[i], w[1..]), Size(Subtree(alpha, kids[i], w[1..]).value);
    assert Offset(alpha, t, w) == |LabelsOf(kids[..i])| + o && Subtree(alpha, t, w) == Subtree(alpha, kids[i], w[1..]);
    assert Labels(Replace(alpha, t, w, sub)) == LabelsOf(kids2) by {
      assert Replace(alpha, t, w, sub) == Node(kids2);
    }
    assert Labels(t) == LabelsOf(kids);
    ReplaceChildLabels(kids, i, r, o, n, Labels(sub));
  }

  lemma {:induction false} ReplaceChildLabels(kids: seq<Tree>, i: nat, r: Tree, o: nat, n: nat, x: seq<nat>)
    requires i < |kids| && o + n <= Size(kids[i])
    requires Labels(r) == Labels(kids[i])[..o] + x + Labels(kids[i])[o + n..]
    ensures |LabelsOf(kids[..i])| + o + n <= |LabelsOf(kids)|
    ensures LabelsOf(kids[i := r])
            == LabelsOf(kids)[..|LabelsOf(kids[..i])| + o] + x + LabelsOf(kids)[|LabelsOf(kids[..i])| + o + n..]
  {
    var kids2 := kids[i := r];
    var a, m, c := LabelsOf(kids[..i]), Labels(kids[i]), LabelsOf(kids[i + 1..]);
    assert LabelsOf(kids) == a + m + c by {
      LabelsOfSplit(kids, i);
    }
    assert LabelsOf(kids2) == a + Labels(r) + c by {
      LabelsOfSplit(kids2, i);
      assert kids2[..i] == kids[..i] && kids2[i + 1..] == kids[i + 1..];
    }
    Splice(a, m, c, Labels(r), o, n, x, LabelsOf(kids), LabelsOf(kids2));
  }

  /** Splicing inside the middle block of a + m + c is splicing inside the whole. */
  lemma {:induction false} Splice(a: seq<nat>, m: seq<nat>, c: seq<nat>, m2: seq<nat>, o: nat, n: nat, x: seq<nat>, L: seq<nat>, L2: seq<nat>)
    requires o + n <= |m|
    requires m2 == m[..o] + x + m[o + n..]
    requires L == a + m + c && L2 == a + m2 + c
    ensures |a| + o + n <= |L|
    ensures L2 == L[..|a| + o] + x + L[|a| + o + n..]
  {
    assert L[..|a| + o] == a + m[..o];
    assert L[|a| + o + n..] == m[o + n..] + c;
  }

  /** After replacing the node at w, leaves below w come from the new subtree and
      every other word keeps its label. */
  lemma {:induction false} ReplaceAt(alpha: string, t: Tree, w: string, sub: Tree, v: string)
    requires Subtree(alpha, t, w).Some?
    ensures IsPrefix(w, v) ==> Subtree(alpha, Replace(alpha, t, w, sub), v) == Subtree(alpha, sub, v[|w|..])
    ensures !IsPrefix(w, v) ==> IsLeaf(alpha, Replace(alpha, t, w, sub), v) == IsLeaf(alpha, t, v)
    ensures !IsPrefix(w, v) ==> LabelAtLeaf(alpha, Replace(alpha, t, w, sub), v) == LabelAtLeaf(alpha, t, v)
    decreases w
  {
    if w != [] {
      var kids := t.kids;
      var i := IndexOf(alpha, w[0]);
      var r := Replace(alpha, kids[i], w[1..], sub);
      if v != [] {
        var j := IndexOf(alpha, v[0]);
        if j == i {
          ReplaceAt(alpha, kids[i], w[1..], sub, v[1..]);
          assert w[0] == v[0];
          PrefixCons(w, v);
          assert Subtree(alpha, Replace(alpha, t, w, sub), v) == Subtree(alpha, r, v[1..]);
          assert Subtree(alpha, t, v) == Subtree(alpha, kids[i], v[1..]);
        } else if v[0] == w[0] {
          assert false;
        } else {
          assert Subtree(alpha, Replace(alpha, t, w, sub), v) == Subtree(alpha, t, v);
        }
      }
    }
  }

  /** Two words with the same first letter: one is a prefix of the other just
      when their tails are. */
  lemma {:induction false} PrefixCons(w: string, v: string)
    requires w != [] && v != [] && w[0] == v[0]
    ensures IsPrefix(w, v) <==> IsPrefix(w[1..], v[1..])
    ensures IsPrefix(w, v) ==> v[|w|..] == v[1..][|w| - 1..]
  {
    if IsPrefix(w[1..], v[1..]) {
      assert v[..|w|] == [v[0]] + v[1..][..|w| - 1];
      assert w == [w[0]] + w[1..];
    }
  }

  lemma {:induction false} ReplaceFull(alpha: string, t: Tree, w: string, sub: Tree)
    requires Full(t, |alpha|) && Full(sub, |alpha|)
    ensures Full(Replace(alpha, t, w, sub), |alpha|)
    decreases w
  {
    if w != [] && t.Node? {
      var i := IndexOf(alpha, w[0]);
      if 0 <= i < |t.kids| {
        ReplaceFull(alpha, t.kids[i], w[1..], sub);
      }
    }
  }

  // ---------------------------------------------------------------------------
  // Exposed carets, listed in dictionary order

  function Carets(alpha: string, t: Tree): seq<string>
    decreases t, 0
  {
    match t
    case Leaf(_) => []
    case Node(kids) => if |kids| > 0 && AllLeaves(kids) then [[]] else CaretsOf(alpha, kids, 0)
  }

  function CaretsOf(alpha: string, kids: seq<Tree>, i: nat): seq<string>
    requires i <= |kids|
    decreases kids, |kids| - i
  {
    if i == |kids| || i >= |alpha| then []
    else Prefixed(alpha[i], Carets(alpha, kids[i])) + CaretsOf(alpha, kids, i + 1)
  }

  function Prefixed(c: char, ws: seq<string>): (r: seq<string>)
    ensures |r| == |ws|
  {
    seq(|ws|, j requires 0 <= j < |ws| => [c] + ws[j])
  }

  /** The listed carets are exactly the exposed carets. */
  lemma {:induction false} CaretsSpec(alpha: string, t: Tree, w: string)
    requires Distinct(alpha) && Full(t, |alpha|)
    ensures w in Carets(alpha, t) <==> IsExposedCaret(alpha, t, w)
    decreases t, 0
  {
    if t.Node? {
      var kids := t.kids;
      if |kids| > 0 && AllLeaves(kids) {
        if w != [] {
          var i := IndexOf(alpha, w[0]);
          if 0 <= i < |kids| {
            assert kids[i].Leaf?;
            assert Subtree(alpha, t, w) == Subtree(alpha, kids[i], w[1..]);
            if w[1..] != [] {
              assert Subtree(alpha, kids[i], w[1..]) == None;
            }
          }
        }
      } else {
        if w in Carets(alpha, t) {
          CaretsOfMember(alpha, kids, 0, w);
        }
        if IsExposedCaret(alpha, t, w) {
          if w == [] {
            assert false;
          }
          var i := IndexOf(alpha, w[0]);
          CaretsSpec(alpha, kids[i], w[1..]);
          CaretsOfHas(alpha, kids, 0, i, w[1..]);
          assert w == [alpha[i]] + w[1..];
        }
      }
    }
  }

  lemma {:induction false} CaretsOfMember(alpha: string, kids: seq<Tree>, i: nat, w: string)
    requires Distinct(alpha) && |kids| == |alpha| && i <= |kids|
    requires forall j | 0 <= j < |kids| :: Full(kids[j], |alpha|)
    requires w in CaretsOf(alpha, kids, i)
    ensures IsExposedCaret(alpha, Node(kids), w)
    decreases kids, |kids| - i
  {
    var ws := Prefixed(alpha[i], Carets(alpha, kids[i]));
    if w in ws {
      var j :| 0 <= j < |ws| && ws[j] == w;
      var v := Carets(alpha, kids[i])[j];
      CaretsSpec(alpha, kids[i], v);
      IndexOfDistinct(alpha, i);
      assert w[1..] == v;
    } else {
      CaretsOfMember(alpha, kids, i + 1, w);
    }
  }

  lemma {:induction false} CaretsOfHas(alpha: string, kids: seq<Tree>, i: nat, j: nat, v: string)
    requires i <= j < |kids| && j < |alpha|
    requires v in Carets(alpha, kids[j])
    ensures [alpha[j]] + v in CaretsOf(alpha, kids, i)
    decreases j - i
  {
    var w := [alpha[j]] + v;
    var head, rest := Prefixed(alpha[i], Carets(alpha, kids[i])), CaretsOf(alpha, kids, i + 1);
    assert CaretsOf(alpha, kids, i) == head + rest;
    if i < j {
      assert w in rest by { CaretsOfHas(alpha, kids, i + 1, j, v); }
    } else {
      assert w in head by { PrefixedHas(alpha[j], Carets(alpha, kids[j]), v); }
    }
  }

  lemma PrefixedHas(c: char, ws: seq<string>, v: string)
    requires v in ws
    ensures [c] + v in Prefixed(c, ws)
  {
    var n :| 0 <= n < |ws| && ws[n] == v;
    assert Prefixed(c, ws)[n] == [c] + v;
  }

  // ---------------------------------------------------------------------------
  // The leaf that is a prefix of a word

  /** The leaf whose word is a prefix of s, if there is one. */
  function PrefixLeaf(alpha: string, t: Tree, s: string): Option<string>
    decreases s
  {
    match t
    case Leaf(_) => Some([])
    case Node(kids) =>
      if s == [] then None
      else
        var i := IndexOf(alpha, s[0]);
        if 0 <= i < |kids| then
          match PrefixLeaf(alpha, kids[i], s[1..])
          case Some(p) => Some([s[0]] + p)
          case None => None
        else None
  }

  /** The library's GetPrefixOf: the leaf prefix of s, or "" when there is none. */
  function GetPrefixOf(alpha: string, t: Tree, s: string): (p: string)
    ensures IsPrefix(p, s)
  {
    PrefixLeafSpec(alpha, t, s);
    match PrefixLeaf(alpha, t, s)
    case Some(p) => p
    case None => []
  }

  lemma {:induction false} PrefixLeafSpec(alpha: string, t: Tree, s: string)
    ensures PrefixLeaf(alpha, t, s).Some? ==>
              IsPrefix(PrefixLeaf(alpha, t, s).value, s) && IsLeaf(alpha, t, PrefixLeaf(alpha, t, s).value)
    decreases s
  {
    if t.Node? && s != [] {
      var i := IndexOf(alpha, s[0]);
      if 0 <= i < |t.kids| {
        PrefixLeafSpec(alpha, t.kids[i], s[1..]);
        if PrefixLeaf(alpha, t.kids[i], s[1..]).Some? {
          var p := PrefixLeaf(alpha, t.kids[i], s[1..]).value;
          assert ([s[0]] + p)[1..] == p;
          assert s[..|p| + 1] == [s[0]] + s[1..][..|p|];
        }
      }
    }
  }

  lemma {:induction false} PrefixLeafFinds(alpha: string, t: Tree, s: string, p: string)
    requires IsLeaf(alpha, t, p) && IsPrefix(p, s)
    ensures PrefixLeaf(alpha, t, s) == Some(p)
    decreases s
  {
    if p != [] {
      var i := IndexOf(alpha, s[0]);
      assert p[0] == s[0];
      PrefixLeafFinds(alpha, t.kids[i], s[1..], p[1..]);
      assert p == [s[0]] + p[1..];
    }
  }

  lemma {:induction false} SameShapePrefixLeaf(alpha: string, t1: Tree, t2: Tree, s: string)
    requires SameShape(t1, t2)
    ensures PrefixLeaf(alpha, t1, s) == PrefixLeaf(alpha, t2, s)
    decreases s
  {
    if t1.Node? && s != [] {
      var i := IndexOf(alpha, s[0]);
      if 0 <= i < |t1.kids| {
        SameShapePrefixLeaf(alpha, t1.kids[i], t2.kids[i], s[1..]);
      }
    }
  }

  // ---------------------------------------------------------------------------
  // The leaf that carries a label

  function FindLabel(alpha: string, t: Tree, l: int): Option<string>
    decreases t, 0
  {
    match t
    case Leaf(m) => if m == l then Some([]) else None
    case Node(kids) => FindLabelOf(alpha, kids, l, 0)
  }

  function FindLabelOf(alpha: string, kids: seq<Tree>, l: int, i: nat): Option<string>
    requires i <= |kids|
    decreases kids, |kids| - i
  {
    if i == |kids| || i >= |alpha| then None
    else match FindLabel(alpha, kids[i], l)
      case Some(w) => Some([alpha[i]] + w)
      case None => FindLabelOf(alpha, kids, l, i + 1)
  }

  /** The library's LeafAtLabel: the leaf carrying label l, or "" when there is none. */
  function LeafAtLabel(alpha: string, t: Tree, l: int): string {
    match FindLabel(alpha, t, l)
    case Some(w) => w
    case None => []
  }

  lemma {:induction false} FindLabelSound(alpha: string, t: Tree, l: int)
    requires Distinct(alpha)
    ensures FindLabel(alpha, t, l).Some? ==> LabelAtLeaf(alpha, t, FindLabel(alpha, t, l).value) == l
    decreases t, 0
  {
    if t.Node? {
      FindLabelOfSound(alpha, t.kids, l, 0);
    }
  }

  lemma {:induction false} FindLabelOfSound(alpha: string, kids: seq<Tree>, l: int, i: nat)
    requires Distinct(alpha) && i <= |kids|
    ensures FindLabelOf(alpha, kids, l, i).Some? ==>
              LabelAtLeaf(alpha, Node(kids), FindLabelOf(alpha, kids, l, i).value) == l
    decreases kids, |kids| - i
  {
    if i < |kids| && i < |alpha| {
      FindLabelSound(alpha, kids[i], l);
      FindLabelOfSound(alpha, kids, l, i + 1);
      if FindLabel(alpha, kids[i], l).Some? {
        var w := FindLabel(alpha, kids[i], l).value;
        IndexOfDistinct(alpha, i);
        assert ([alpha[i]] + w)[1..] == w;
      }
    }
  }

  lemma {:induction false} FindLabelComplete(alpha: string, t: Tree, l: int)
    requires Full(t, |alpha|) && l in Labels(t)
    ensures FindLabel(alpha, t, l).Some?
    decreases t, 0
  {
    if t.Node? {
      FindLabelOfComplete(alpha, t.kids, l, 0);
    }
  }

  lemma {:induction false} FindLabelOfComplete(alpha: string, kids: seq<Tree>, l: int, i: nat)
    requires |kids| == |alpha| && i <= |kids|
    requires forall j | 0 <= j < |kids| :: Full(kids[j], |alpha|)
    requires l in LabelsOf(kids[i..])
    ensures FindLabelOf(alpha, kids, l, i).Some?
    decreases kids, |kids| - i
  {
    assert kids[i..] != [];
    assert kids[i..][1..] == kids[i + 1..];
    if l in Labels(kids[i]) {
      FindLabelComplete(alpha, kids[i], l);
    } else {
      FindLabelOfComplete(alpha, kids, l, i + 1);
    }
  }

  /** In a valid code, LeafAtLabel finds exactly the leaf that carries the label. */
  lemma LeafAtLabelSpec(alpha: string, t: Tree, w: string)
    requires Distinct(alpha) && IsCode(alpha, t) && IsLeaf(alpha, t, w)
    ensures LeafAtLabel(alpha, t, LabelAtLeaf(alpha, t, w)) == w
  {
    var l := LabelAtLeaf(alpha, t, w);
    LeafLabelIn(alpha, t, w);
    FindLabelComplete(alpha, t, l);
    FindLabelSound(alpha, t, l);
    LeafUnique(alpha, t, FindLabel(alpha, t, l).value, w);
  }

  // ---------------------------------------------------------------------------
  // How replacement and relabelling compose

  /** Replacing a node by itself changes nothing. */
  lemma {:induction false} ReplaceSame(alpha: string, t: Tree, w: string)
    requires Subtree(alpha, t, w).Some?
    ensures Replace(alpha, t, w, Subtree(alpha, t, w).value) == t
    decreases w
  {
    if w != [] {
      var i := IndexOf(alpha, w[0]);
      ReplaceSame(alpha, t.kids[i], w[1..]);
      assert t.kids[i := t.kids[i]] == t.kids;
    }
  }

  /** A second replacement at the same word overrides the first. */
  lemma {:induction false} ReplaceTwice(alpha: string, t: Tree, w: string, a: Tree, b: Tree)
    requires Subtree(alpha, t, w).Some?
    ensures Replace(alpha, Replace(alpha, t, w, a), w, b) == Replace(alpha, t, w, b)
    decreases w
  {
    if w != [] {
      var i := IndexOf(alpha, w[0]);
      ReplaceTwice(alpha, t.kids[i], w[1..], a, b);
    }
  }

  /** The node at w of a relabelled tree is the relabelled node. */
  lemma {:induction false} MapLabelsSubtree(alpha: string, t: Tree, f: nat -> nat, w: string)
    ensures Subtree(alpha, MapLabels(t, f), w).Some? == Subtree(alpha, t, w).Some?
    ensures Subtree(alpha, t, w).Some? ==>
              Subtree(alpha, MapLabels(t, f), w).value == MapLabels(Subtree(alpha, t, w).value, f)
    decreases w
  {
    if w != [] && t.Node? {
      var i := IndexOf(alpha, w[0]);
      if 0 <= i < |t.kids| {
        MapLabelsSubtree(alpha, t.kids[i], f, w[1..]);
      }
    }
  }

  /** Relabelling by f and then by g is the identity when g undoes f on the labels present. */
  lemma {:induction false} MapLabelsInverse(t: Tree, f: nat -> nat, g: nat -> nat)
    requires forall m | m in Labels(t) :: g(f(m)) == m
    ensures MapLabels(MapLabels(t, f), g) == t
    decreases t, 0
  {
    if t.Node? {
      MapLabelsOfInverse(t.kids, f, g);
    }
  }

  lemma {:induction false} MapLabelsOfInverse(ts: seq<Tree>, f: nat -> nat, g: nat -> nat)
    requires forall m | m in LabelsOf(ts) :: g(f(m)) == m
    ensures MapLabelsOf(MapLabelsOf(ts, f), g) == ts
    decreases ts, 1
  {
    forall i | 0 <= i < |ts|
      ensures MapLabels(MapLabels(ts[i], f), g) == ts[i]
    {
      LabelsOfSplit(ts, i);
      MapLabelsInverse(ts[i], f, g);
    }
  }

  /** Relabelling commutes with replacement. */
  lemma {:induction false} MapLabelsReplace(alpha: string, t: Tree, f: nat -> nat, w: string, sub: Tree)
    requires Subtree(alpha, t, w).Some?
    ensures MapLabels(Replace(alpha, t, w, sub), f) == Replace(alpha, MapLabels(t, f), w, MapLabels(sub, f))
    decreases w
  {
    if w != [] {
      var i := IndexOf(alpha, w[0]);
      MapLabelsReplace(alpha, t.kids[i], f, w[1..], sub);
      var r := Replace(alpha, t.kids[i], w[1..], sub);
      assert MapLabelsOf(t.kids[i := r], f) == MapLabelsOf(t.kids, f)[i := MapLabels(r, f)];
    }
  }

  /** The labels of a run of leaves are their labels in order. */
  lemma {:induction false} LabelsOfLeaves(ts: seq<Tree>)
    requires AllLeaves(ts)
    ensures LabelsOf(ts) == seq(|ts|, i requires 0 <= i < |ts| => ts[i].lbl)
    decreases ts
  {
    if ts != [] {
      LabelsOfLeaves(ts[1..]);
    }
  }

  /** Below a full node every node is full. */
  lemma {:induction false} FullSubtree(alpha: string, t: Tree, k: nat, w: string)
    requires Full(t, k) && Subtree(alpha, t, w).Some?
    ensures Full(Subtree(alpha, t, w).value, k)
    decreases w
  {
    if w != [] {
      FullSubtree(alpha, t.kids[IndexOf(alpha, w[0])], k, w[1..]);
    }
  }

  /** A word that addresses a node is spelt over the alphabet. */
  lemma {:induction false} SubtreeOverAlpha(alpha: string, t: Tree, w: string)
    requires Subtree(alpha, t, w).Some?
    ensures OverAlpha(alpha, w)
    decreases w
  {
    if w != [] {
      var i := IndexOf(alpha, w[0]);
      SubtreeOverAlpha(alpha, t.kids[i], w[1..]);
      forall j | 0 <= j < |w| ensures w[j] in alpha {
        if j > 0 {
          assert w[j] == w[1..][j - 1];
        }
      }
    }
  }

  /** Relabelling by a map that fixes every label present changes nothing. */
  lemma {:induction false} MapLabelsId(t: Tree, f: nat -> nat)
    requires forall m | m in Labels(t) :: f(m) == m
    ensures MapLabels(t, f) == t
    decreases t, 0
  {
    if t.Node? {
      MapLabelsOfId(t.kids, f);
    }
  }

  lemma {:induction false} MapLabelsOfId(ts: seq<Tree>, f: nat -> nat)
    requires forall m | m in LabelsOf(ts) :: f(m) == m
    ensures MapLabelsOf(ts, f) == ts
    decreases ts, 1
  {
    forall i | 0 <= i < |ts|
      ensures MapLabels(ts[i], f) == ts[i]
    {
      LabelsOfSplit(ts, i);
      MapLabelsId(ts[i], f);
    }
  }

  lemma {:induction false} SameShapeRefl(t: Tree)
    ensures SameShape(t, t)
    decreases t
  {
    if t.Node? {
      forall i | 0 <= i < |t.kids| ensures SameShape(t.kids[i], t.kids[i]) {
        SameShapeRefl(t.kids[i]);
      }
    }
  }

  /** The word of a node followed by the i-th symbol addresses its i-th child. */
  lemma {:induction false} SubtreeChild(alpha: string, t: Tree, w: string, i: nat)
    requires Distinct(alpha) && i < |alpha|
    requires Subtree(alpha, t, w).Some? && Subtree(alpha, t, w).value.Node?
    requires i < |Subtree(alpha, t, w).value.kids|
    ensures Subtree(alpha, t, w + [alpha[i]]) == Some(Subtree(alpha, t, w).value.kids[i])
    decreases w
  {
    var v := w + [alpha[i]];
    if w == [] {
      IndexOfDistinct(alpha, i);
      assert v[1..] == [];
    } else {
      var j := IndexOf(alpha, w[0]);
      assert v[0] == w[0] && v[1..] == w[1..] + [alpha[i]];
      SubtreeChild(alpha, t.kids[j], w[1..], i);
    }
  }

  /** A word that addresses something below its last symbol addresses that
      symbol's child of an internal node. */
  lemma {:induction false} SubtreeParent(alpha: string, t: Tree, w: string, c: char)
    requires Subtree(alpha, t, w + [c]).Some?
    ensures Subtree(alpha, t, w).Some? && Subtree(alpha, t, w).value.Node?
    ensures 0 <= IndexOf(alpha, c) < |Subtree(alpha, t, w).value.kids|
    ensures Subtree(alpha, t, w + [c]) == Some(Subtree(alpha, t, w).value.kids[IndexOf(alpha, c)])
    decreases w
  {
    var v := w + [c];
    if w == [] {
      assert v[0] == c && v[1..] == [];
    } else {
      assert v[0] == w[0] && v[1..] == w[1..] + [c];
      SubtreeParent(alpha, t.kids[IndexOf(alpha, w[0])], w[1..], c);
    }
  }

  /** A full code is determined by its shape and the labels at its leaves. */
  lemma {:induction false} LeafLabelsDetermine(alpha: string, t1: Tree, t2: Tree)
    requires Distinct(alpha) && SameShape(t1, t2) && Full(t1, |alpha|)
    requires forall w :: IsLeaf(alpha, t1, w) ==> LabelAtLeaf(alpha, t1, w) == LabelAtLeaf(alpha, t2, w)
    ensures t1 == t2
    decreases t1
  {
    match t1
    case Leaf(l) =>
      assert IsLeaf(alpha, t1, []);
    case Node(kids1) =>
      var kids2 := t2.kids;
      forall i | 0 <= i < |kids1| ensures kids1[i] == kids2[i] {
        IndexOfDistinct(alpha, i);
        forall w | IsLeaf(alpha, kids1[i], w)
          ensures LabelAtLeaf(alpha, kids1[i], w) == LabelAtLeaf(alpha, kids2[i], w)
        {
          var v := [alpha[i]] + w;
          assert v[0] == alpha[i] && v[1..] == w;
          assert Subtree(alpha, t1, v) == Subtree(alpha, kids1[i], w);
          assert Subtree(alpha, t2, v) == Subtree(alpha, kids2[i], w);
          assert IsLeaf(alpha, t1, v);
        }
        LeafLabelsDetermine(alpha, kids1[i], kids2[i]);
      }
  }
}
