/**
  The operations the tree-pair engine asks of a prefix code: expansion at a
  word, reduction of an exposed caret and relabelling by a permutation map.

  Label numbering (an assumption about the library, chosen to agree with the
  golden outputs of the expansion test): expanding leaf p, labelled l, into a
  subtree of c leaves labels those leaves l .. l+c-1 in dictionary order and
  moves every label above l up by c-1; reducing a caret whose first child is
  labelled l gives the new leaf l and moves every label above l+k-1 down by k-1.
*/
module CodeOps {
  import opened PrefCode

  // ---------------------------------------------------------------------------
  // Runs of leaves and chains

  /** n leaves labelled l, l+1, ..., l+n-1. */
  function Leaves(l: nat, n: nat): (r: seq<Tree>)
    ensures |r| == n && AllLeaves(r)
  {
    seq(n, j requires 0 <= j < n => Leaf(l + j))
  }

  lemma {:induction false} LeavesLabels(l: nat, n: nat)
    ensures LabelsOf(Leaves(l, n)) == Range(l, n)
    decreases n
  {
    if n > 0 {
      LeavesLabels(l + 1, n - 1);
      assert Leaves(l, n)[1..] == Leaves(l + 1, n - 1);
      assert Range(l, n) == [l] + Range(l + 1, n - 1);
    }
  }

  /** The number of leaves of the chain that makes u an exposed caret below a leaf. */
  function ChainSize(k: nat, u: string): (c: nat)
    requires k >= 1
    ensures c >= k
  {
    k + (k - 1) * |u|
  }

  /** The subtree that replaces a leaf when the word u below it becomes an exposed
      caret: every node on the path to u, and u itself, gets all k children. */
  function Chain(alpha: string, l: nat, u: string): Tree
    requires |alpha| >= 1 && OverAlpha(alpha, u)
    decreases |u|
  {
    var k := |alpha|;
    if u == [] then Node(Leaves(l, k))
    else
      var i := IndexOf(alpha, u[0]);
      assert OverAlpha(alpha, u[1..]) by {
        forall j | 0 <= j < |u[1..]| ensures u[1..][j] in alpha {
          assert u[1..][j] == u[j + 1];
        }
      }
      Node(Leaves(l, i) + [Chain(alpha, l + i, u[1..])] + Leaves(l + i + ChainSize(k, u[1..]), k - i - 1))
  }

  lemma ChainSizeStep(k: nat, u: string)
    requires k >= 1 && u != []
    ensures ChainSize(k, u) == ChainSize(k, u[1..]) + k - 1
  {
    MulSucc(k - 1, |u[1..]|);
  }

  lemma {:induction false} ChainFull(alpha: string, l: nat, u: string)
    requires |alpha| >= 1 && OverAlpha(alpha, u)
    ensures Full(Chain(alpha, l, u), |alpha|)
    decreases |u|
  {
    if u != [] {
      var i := IndexOf(alpha, u[0]);
      assert OverAlpha(alpha, u[1..]) by {
        forall j | 0 <= j < |u[1..]| ensures u[1..][j] in alpha {
          assert u[1..][j] == u[j + 1];
        }
      }
      ChainFull(alpha, l + i, u[1..]);
    }
  }

  /** A chain's labels run l .. l+ChainSize-1 in dictionary order. */
  lemma {:induction false} ChainLabels(alpha: string, l: nat, u: string)
    requires |alpha| >= 1 && OverAlpha(alpha, u)
    ensures Labels(Chain(alpha, l, u)) == Range(l, ChainSize(|alpha|, u))
    decreases |u|
  {
    var k := |alpha|;
    if u == [] {
      LeavesLabels(l, k);
    } else {
      var i := IndexOf(alpha, u[0]);
      var m := ChainSize(k, u[1..]);
      assert OverAlpha(alpha, u[1..]) by {
        forall j | 0 <= j < |u[1..]| ensures u[1..][j] in alpha {
          assert u[1..][j] == u[j + 1];
        }
      }
      var c := Chain(alpha, l + i, u[1..]);
      assert Chain(alpha, l, u) == Node(Leaves(l, i) + [c] + Leaves(l + i + m, k - i - 1));
      assert Labels(c) == Range(l + i, m) by { ChainLabels(alpha, l + i, u[1..]); }
      assert ChainSize(k, u) == i + m + (k - i - 1) by { ChainSizeStep(k, u); }
      WrappedLabels(l, i, m, k - i - 1, c);
    }
  }

  /** A node of i leaves, then c, then j leaves, numbered on from l, is numbered l onwards. */
  lemma WrappedLabels(l: nat, i: nat, m: nat, j: nat, c: Tree)
    requires Labels(c) == Range(l + i, m)
    ensures Labels(Node(Leaves(l, i) + [c] + Leaves(l + i + m, j))) == Range(l, i + m + j)
  {
    var a, b := Leaves(l, i), Leaves(l + i + m, j);
    assert Labels(Node(a + [c] + b)) == Range(l, i) + Range(l + i, m) + Range(l + i + m, j) by {
      LeavesLabels(l, i);
      LeavesLabels(l + i + m, j);
      LabelsOfAround(a, c, b);
    }
    RangeConcat(l, i, m);
    RangeConcat(l, i + m, j);
  }

  lemma MulSucc(a: int, b: int)
    ensures a * (b + 1) == a * b + a
  {
  }

  lemma RangeConcat(l: nat, a: nat, b: nat)
    ensures Range(l, a) + Range(l + a, b) == Range(l, a + b)
  {
  }

  /** Inside its chain, u is an exposed caret. */
  lemma {:induction false} ChainCaret(alpha: string, l: nat, u: string)
    requires |alpha| >= 1 && Distinct(alpha) && OverAlpha(alpha, u)
    ensures IsExposedCaret(alpha, Chain(alpha, l, u), u)
    decreases |u|
  {
    if u != [] {
      var i := IndexOf(alpha, u[0]);
      assert OverAlpha(alpha, u[1..]) by {
        forall j | 0 <= j < |u[1..]| ensures u[1..][j] in alpha {
          assert u[1..][j] == u[j + 1];
        }
      }
      ChainCaret(alpha, l + i, u[1..]);
    }
  }

  // ---------------------------------------------------------------------------
  // Label shifts

  /** Expansion's relabelling: labels above l move up by d. */
  function Shift(l: nat, d: nat): nat -> nat {
    (m: nat) => if m > l then m + d else m
  }

  /** Reduction's relabelling: labels above l+d move down by d. */
  function Unshift(l: nat, d: nat): nat -> nat {
    (m: nat) => if m > l + d then m - d else m
  }

  // ---------------------------------------------------------------------------
  // Expansion

  /** Expansion at s has an effect: s is a word over the alphabet that lies at or
      below a leaf. */
  predicate Expands(alpha: string, t: Tree, s: string) {
    |alpha| >= 1 && OverAlpha(alpha, s) && PrefixLeaf(alpha, t, s).Some?
  }

  /** The leaf that an expansion at s replaces. */
  function ExpandLeaf(alpha: string, t: Tree, s: string): (p: string)
    requires Expands(alpha, t, s)
    ensures IsPrefix(p, s) && IsLeaf(alpha, t, p)
  {
    PrefixLeafSpec(alpha, t, s);
    PrefixLeaf(alpha, t, s).value
  }

  /** The part of s below the replaced leaf. */
  function ExpandRest(alpha: string, t: Tree, s: string): (u: string)
    requires Expands(alpha, t, s)
    ensures OverAlpha(alpha, u) && s == ExpandLeaf(alpha, t, s) + u
  {
    var p := ExpandLeaf(alpha, t, s);
    var u := s[|p|..];
    assert OverAlpha(alpha, u) by {
      forall j | 0 <= j < |u| ensures u[j] in alpha {
        assert u[j] == s[|p| + j];
      }
    }
    assert s == p + u;
    u
  }

  /** The label of the replaced leaf. */
  function ExpandLabel(alpha: string, t: Tree, s: string): nat
    requires Expands(alpha, t, s)
  {
    Subtree(alpha, t, ExpandLeaf(alpha, t, s)).value.lbl
  }

  /** Expands t so that s becomes an exposed caret: the leaf p that is a prefix of s
      is replaced by the chain for the rest of s, and the labels above p's label move
      up to make room. Nothing changes when no leaf is a prefix of s or s leaves the
      alphabet. */
  function ExpandAt(alpha: string, t: Tree, s: string): Tree {
    if Expands(alpha, t, s) then
      var l := ExpandLabel(alpha, t, s);
      var u := ExpandRest(alpha, t, s);
      Replace(alpha, MapLabels(t, Shift(l, ChainSize(|alpha|, u) - 1)), ExpandLeaf(alpha, t, s), Chain(alpha, l, u))
    else t
  }

  // ---------------------------------------------------------------------------
  // Reduction

  /** Collapses the exposed caret at s into one leaf labelled like its first child.
      Nothing changes when s is not an exposed caret. */
  function ReduceAt(alpha: string, t: Tree, s: string): Tree {
    if IsExposedCaret(alpha, t, s) then
      var kids := Subtree(alpha, t, s).value.kids;
      var l := kids[0].lbl;
      MapLabels(Replace(alpha, t, s, Leaf(l)), Unshift(l, |kids| - 1))
    else t
  }

  // ---------------------------------------------------------------------------
  // Relabelling by a permutation map

  /** A map that permutes 0 .. n-1. */
  predicate IsPermOn(perm: map<int, int>, n: nat) {
    && (forall k | k in perm :: 0 <= k < n)
    && (forall k | 0 <= k < n :: k in perm)
    && (forall k | k in perm :: 0 <= perm[k] < n)
    && (forall k1, k2 | k1 in perm && k2 in perm && k1 != k2 :: perm[k1] != perm[k2])
    && (forall v | 0 <= v < n :: HasPreimage(perm, n, v))
  }

  predicate HasPreimage(perm: map<int, int>, n: nat, v: int) {
    exists k | 0 <= k < n :: k in perm && perm[k] == v
  }

  /** Label m becomes perm[m]; labels outside the map stay. */
  function PermFn(perm: map<int, int>): nat -> nat {
    (m: nat) => if m in perm && perm[m] >= 0 then perm[m] as nat else m
  }

  /** The library's ApplyPerm: relabels by a permutation of the code's labels and
      reports success; any other map is refused and the code is left alone. */
  function ApplyPerm(t: Tree, perm: map<int, int>): (Tree, bool) {
    if IsPermOn(perm, Size(t)) then (MapLabels(t, PermFn(perm)), true) else (t, false)
  }

  /** The inverse of a permutation sequence, built as the engine builds it: entry
      k of p sets key p[k] to k, later entries overwriting earlier ones. */
  function InverseOf(p: seq<nat>): map<int, int>
    decreases |p|
  {
    if p == [] then map[]
    else InverseOf(p[..|p| - 1])[p[|p| - 1] := |p| - 1]
  }

  // ---------------------------------------------------------------------------
  // Label sequences after an expansion or a reduction

  /** Entry i of the labelling after expanding entry o of L into c labels. */
  function ExpandedEntry(L: seq<nat>, o: nat, c: nat, i: nat): nat
    requires o < |L| && c >= 1 && i < |L| + c - 1
  {
    var l := L[o];
    if i < o then Shift(l, c - 1)(L[i])
    else if i < o + c then l + (i - o)
    else Shift(l, c - 1)(L[i - c + 1])
  }

  lemma ExpandedEntries(L: seq<nat>, o: nat, c: nat)
    requires o < |L| && c >= 1
    ensures var S := MapSeq(L, Shift(L[o], c - 1))[..o] + Range(L[o], c) + MapSeq(L, Shift(L[o], c - 1))[o + 1..];
            |S| == |L| + c - 1 && forall i | 0 <= i < |S| :: S[i] == ExpandedEntry(L, o, c, i)
  {
  }

  lemma ExpandedDistinct(L: seq<nat>, o: nat, c: nat, i: nat, j: nat)
    requires ValidLabels(L) && o < |L| && c >= 1 && i < j < |L| + c - 1
    ensures ExpandedEntry(L, o, c, i) != ExpandedEntry(L, o, c, j)
  {
    var l := L[o];
    var si := if i < o then i else i - c + 1;
    var sj := if j < o then j else j - c + 1;
    if o <= i < o + c && o <= j < o + c {
    } else if o <= i < o + c {
      assert L[sj] != l;
    } else if o <= j < o + c {
      assert L[si] != l;
    } else {
      assert L[si] != L[sj];
    }
  }

  lemma ExpandedCovers(L: seq<nat>, o: nat, c: nat, v: nat) returns (i: nat)
    requires ValidLabels(L) && o < |L| && c >= 1 && v < |L| + c - 1
    ensures i < |L| + c - 1 && ExpandedEntry(L, o, c, i) == v
  {
    var l := L[o];
    if v < l {
      assert v in L;
      var x :| 0 <= x < |L| && L[x] == v;
      i := if x < o then x else x + c - 1;
    } else if v < l + c {
      i := o + (v - l);
    } else {
      var w := v - (c - 1);
      assert w in L;
      var x :| 0 <= x < |L| && L[x] == w;
      i := if x < o then x else x + c - 1;
    }
  }

  /** Splicing l .. l+c-1 in place of the entry l of a valid labelling, with the
      labels above l moved up by c-1, gives a valid labelling. */
  lemma ExpandValid(L: seq<nat>, o: nat, c: nat)
    requires ValidLabels(L) && o < |L| && c >= 1
    ensures ValidLabels(MapSeq(L, Shift(L[o], c - 1))[..o] + Range(L[o], c) + MapSeq(L, Shift(L[o], c - 1))[o + 1..])
  {
    var S := MapSeq(L, Shift(L[o], c - 1))[..o] + Range(L[o], c) + MapSeq(L, Shift(L[o], c - 1))[o + 1..];
    ExpandedEntries(L, o, c);
    forall i, j | 0 <= i < j < |S|
      ensures S[i] != S[j]
    {
      ExpandedDistinct(L, o, c, i, j);
    }
    forall v | 0 <= v < |S|
      ensures v in S
    {
      var i := ExpandedCovers(L, o, c, v);
      assert S[i] == v;
    }
  }

  /** The caret block of a labelling: k consecutive entries from o that run l .. l+k-1. */
  predicate RunAt(L: seq<nat>, o: nat, k: nat) {
    o + k <= |L| && forall j | o <= j < o + k :: L[j] == L[o] + (j - o)
  }

  /** Entry i of the labelling after collapsing the run of k entries at o. */
  function ReducedEntry(L: seq<nat>, o: nat, k: nat, i: nat): nat
    requires k >= 1 && o + k <= |L| && i < |L| - k + 1
  {
    if i <= o then Unshift(L[o], k - 1)(L[i])
    else Unshift(L[o], k - 1)(L[i + k - 1])
  }

  lemma ReducedEntries(L: seq<nat>, o: nat, k: nat)
    requires k >= 1 && o + k <= |L|
    ensures var S := MapSeq(L[..o] + [L[o]] + L[o + k..], Unshift(L[o], k - 1));
            |S| == |L| - k + 1 && forall i | 0 <= i < |S| :: S[i] == ReducedEntry(L, o, k, i)
  {
  }

  /** In a valid labelling, the labels of a run sit nowhere else. */
  lemma RunOwns(L: seq<nat>, o: nat, k: nat, x: nat)
    requires ValidLabels(L) && k >= 1 && RunAt(L, o, k) && x < |L|
    ensures L[o] <= L[x] < L[o] + k ==> o <= x < o + k
  {
    if L[o] <= L[x] < L[o] + k {
      var j := o + (L[x] - L[o]);
      assert L[j] == L[x];
    }
  }

  lemma OutsideRun(L: seq<nat>, o: nat, k: nat, x: nat)
    requires ValidLabels(L) && k >= 1 && RunAt(L, o, k) && x < |L| && (x < o || x >= o + k)
    ensures L[x] < L[o] || L[x] > L[o] + k - 1
  {
    RunOwns(L, o, k, x);
  }

  lemma ReducedBounded(L: seq<nat>, o: nat, k: nat, i: nat)
    requires ValidLabels(L) && k >= 1 && RunAt(L, o, k) && i < |L| - k + 1
    ensures ReducedEntry(L, o, k, i) < |L| - k + 1
  {
    if i < o {
      OutsideRun(L, o, k, i);
      assert L[o + k - 1] == L[o] + k - 1;
    } else if i > o {
      OutsideRun(L, o, k, i + k - 1);
      assert L[o + k - 1] == L[o] + k - 1;
    }
  }

  lemma ReducedDistinct(L: seq<nat>, o: nat, k: nat, i: nat, j: nat)
    requires ValidLabels(L) && k >= 1 && RunAt(L, o, k) && i < j < |L| - k + 1
    ensures ReducedEntry(L, o, k, i) != ReducedEntry(L, o, k, j)
  {
    var si := if i <= o then i else i + k - 1;
    var sj := if j <= o then j else j + k - 1;
    assert L[si] != L[sj];
    if si != o {
      OutsideRun(L, o, k, si);
    }
    if sj != o {
      OutsideRun(L, o, k, sj);
    }
  }

  lemma ReducedCovers(L: seq<nat>, o: nat, k: nat, v: nat) returns (i: nat)
    requires ValidLabels(L) && k >= 1 && RunAt(L, o, k) && v < |L| - k + 1
    ensures i < |L| - k + 1 && ReducedEntry(L, o, k, i) == v
  {
    var l := L[o];
    var w := if v <= l then v else v + k - 1;
    assert w in L;
    var x :| 0 <= x < |L| && L[x] == w;
    if v == l {
      i := o;
    } else {
      OutsideRun(L, o, k, x);
      i := if x < o then x else x - k + 1;
    }
  }

  /** Collapsing a run l .. l+k-1 of a valid labelling to l, with the labels above
      l+k-1 moved down by k-1, gives a valid labelling. */
  lemma ReduceValid(L: seq<nat>, o: nat, k: nat)
    requires ValidLabels(L) && k >= 1 && RunAt(L, o, k)
    ensures ValidLabels(MapSeq(L[..o] + [L[o]] + L[o + k..], Unshift(L[o], k - 1)))
  {
    var S := MapSeq(L[..o] + [L[o]] + L[o + k..], Unshift(L[o], k - 1));
    ReducedEntries(L, o, k);
    forall i | 0 <= i < |S|
      ensures S[i] < |S|
    {
      ReducedBounded(L, o, k, i);
    }
    forall i, j | 0 <= i < j < |S|
      ensures S[i] != S[j]
    {
      ReducedDistinct(L, o, k, i, j);
    }
    forall v | 0 <= v < |S|
      ensures v in S
    {
      var i := ReducedCovers(L, o, k, v);
      assert S[i] == v;
    }
  }

  // ---------------------------------------------------------------------------
  // What an expansion does

  /** An effective expansion keeps a valid code valid and grows it by the chain's
      size less the one leaf it replaces. */
  lemma ExpandAtCode(alpha: string, t: Tree, s: string)
    requires Expands(alpha, t, s) && IsCode(alpha, t)
    ensures IsCode(alpha, ExpandAt(alpha, t, s))
    ensures Size(ExpandAt(alpha, t, s)) == Size(t) + ChainSize(|alpha|, ExpandRest(alpha, t, s)) - 1
  {
    var p, u := ExpandLeaf(alpha, t, s), ExpandRest(alpha, t, s);
    var l, c := ExpandLabel(alpha, t, s), ChainSize(|alpha|, u);
    var e := ExpandAt(alpha, t, s);
    assert e == Replace(alpha, MapLabels(t, Shift(l, c - 1)), p, Chain(alpha, l, u));
    assert ValidLabels(Labels(e)) && Size(e) == Size(t) + c - 1 by {
      ChainLabels(alpha, l, u);
      SpliceChainLabels(alpha, t, p, Chain(alpha, l, u), c);
    }
    assert Full(e, |alpha|) by {
      SpliceChainFull(alpha, t, p, u, l, c - 1);
    }
  }

  /** Replacing leaf p of a valid code by a chain, after moving the labels above
      p's label up by the chain's size less one, gives a valid code. */
  /** The labelling after splicing a chain in at a leaf is valid and c-1 longer. */
  lemma SpliceChainLabels(alpha: string, t: Tree, p: string, ch: Tree, c: nat)
    requires IsCode(alpha, t) && IsLeaf(alpha, t, p) && c >= 1
    requires Labels(ch) == Range(Subtree(alpha, t, p).value.lbl, c)
    ensures var l := Subtree(alpha, t, p).value.lbl;
            var e := Replace(alpha, MapLabels(t, Shift(l, c - 1)), p, ch);
            ValidLabels(Labels(e)) && Size(e) == Size(t) + c - 1
  {
    var l := Subtree(alpha, t, p).value.lbl;
    var L := Labels(t);
    var o := Offset(alpha, t, p);
    var t1 := MapLabels(t, Shift(l, c - 1));
    var e := Replace(alpha, t1, p, ch);
    assert Labels(t1) == MapSeq(L, Shift(l, c - 1)) && SameShape(t, t1) by {
      MapLabelsLabels(t, Shift(l, c - 1));
    }
    assert IsLeaf(alpha, t1, p) && Offset(alpha, t1, p) == o by {
      SameShapeAt(alpha, t, t1, p);
    }
    assert o < |L| && L[o] == l by {
      LeafLabelAtOffset(alpha, t, p);
    }
    assert Labels(e) == MapSeq(L, Shift(l, c - 1))[..o] + Range(l, c) + MapSeq(L, Shift(l, c - 1))[o + 1..] by {
      ReplaceLabels(alpha, t1, p, ch);
    }
    ExpandValid(L, o, c);
  }


  /** Splicing a chain in at any word of a full tree, after any relabelling,
      keeps it full. */
  lemma SpliceChainFull(alpha: string, t: Tree, p: string, u: string, l: nat, d: nat)
    requires |alpha| >= 1 && OverAlpha(alpha, u) && Full(t, |alpha|)
    ensures Full(Replace(alpha, MapLabels(t, Shift(l, d)), p, Chain(alpha, l, u)), |alpha|)
  {
    var t1 := MapLabels(t, Shift(l, d));
    assert Full(t1, |alpha|) by {
      MapLabelsLabels(t, Shift(l, d));
      SameShapeFull(t, t1, |alpha|);
    }
    ChainFull(alpha, l, u);
    ReplaceFull(alpha, t1, p, Chain(alpha, l, u));
  }



  /** After an effective expansion, the words below the replaced leaf p are the
      chain's leaves and every other leaf keeps its word, with its label moved up
      when it was above p's label. */
  lemma ExpandAtWords(alpha: string, t: Tree, s: string, v: string)
    requires Expands(alpha, t, s)
    ensures var p := ExpandLeaf(alpha, t, s);
            var u := ExpandRest(alpha, t, s);
            var l := ExpandLabel(alpha, t, s);
            IsPrefix(p, v) ==>
              Subtree(alpha, ExpandAt(alpha, t, s), v) == Subtree(alpha, Chain(alpha, l, u), v[|p|..])
    ensures var p := ExpandLeaf(alpha, t, s);
            var u := ExpandRest(alpha, t, s);
            var l := ExpandLabel(alpha, t, s);
            !IsPrefix(p, v) ==>
              && IsLeaf(alpha, ExpandAt(alpha, t, s), v) == IsLeaf(alpha, t, v)
              && LabelAtLeaf(alpha, ExpandAt(alpha, t, s), v)
                 == if IsLeaf(alpha, t, v) then Shift(l, ChainSize(|alpha|, u) - 1)(LabelAtLeaf(alpha, t, v)) else -1
  {
    var p := ExpandLeaf(alpha, t, s);
    var l := ExpandLabel(alpha, t, s);
    var u := ExpandRest(alpha, t, s);
    var t1 := MapLabels(t, Shift(l, ChainSize(|alpha|, u) - 1));
    MapLabelsLabels(t, Shift(l, ChainSize(|alpha|, u) - 1));
    SameShapeAt(alpha, t, t1, p);
    ReplaceAt(alpha, t1, p, Chain(alpha, l, u), v);
    MapLabelsAt(alpha, t, Shift(l, ChainSize(|alpha|, u) - 1), v);
  }

  /** An effective expansion at s makes s an exposed caret. */
  lemma ExpandAtCaret(alpha: string, t: Tree, s: string)
    requires Expands(alpha, t, s) && Distinct(alpha)
    ensures IsExposedCaret(alpha, ExpandAt(alpha, t, s), s)
  {
    var p := ExpandLeaf(alpha, t, s);
    ExpandAtWords(alpha, t, s, s);
    assert s[|p|..] == ExpandRest(alpha, t, s);
    ChainCaret(alpha, ExpandLabel(alpha, t, s), ExpandRest(alpha, t, s));
  }

  // ---------------------------------------------------------------------------
  // What a reduction does

  /** An exposed caret whose children are labelled l, l+1, ..., in alphabet order. */
  predicate OrderedCaret(alpha: string, t: Tree, s: string) {
    IsExposedCaret(alpha, t, s) &&
    var kids := Subtree(alpha, t, s).value.kids;
    forall i | 0 <= i < |kids| :: kids[i].lbl == kids[0].lbl + i
  }

  /** The labels of an ordered caret form a run of the code's labelling. */
  lemma {:induction false} OrderedCaretRun(alpha: string, t: Tree, s: string)
    requires OrderedCaret(alpha, t, s)
    ensures var kids := Subtree(alpha, t, s).value.kids;
            && Size(Subtree(alpha, t, s).value) == |kids|
            && RunAt(Labels(t), Offset(alpha, t, s), |kids|)
            && Labels(t)[Offset(alpha, t, s)] == kids[0].lbl
  {
    var sub := Subtree(alpha, t, s).value;
    var kids := sub.kids;
    var o := Offset(alpha, t, s);
    var b := LabelsOf(kids);
    assert Labels(sub) == b;
    assert |b| == |kids| >= 1 && (forall i | 0 <= i < |b| :: b[i] == b[0] + i) && b[0] == kids[0].lbl by {
      LabelsOfLeaves(kids);
    }
    assert o + |b| <= |Labels(t)| && Labels(t)[o..o + |b|] == b by {
      SubtreeLabels(alpha, t, s);
    }
    RunFromBlock(Labels(t), o, b);
  }

  /** A block of consecutive labels inside a labelling is a run there. */
  lemma RunFromBlock(L: seq<nat>, o: nat, b: seq<nat>)
    requires |b| >= 1 && o + |b| <= |L| && L[o..o + |b|] == b
    requires forall i | 0 <= i < |b| :: b[i] == b[0] + i
    ensures RunAt(L, o, |b|) && L[o] == b[0]
  {
    assert forall j | o <= j < o + |b| :: L[j] == b[j - o];
  }

  /** Reducing an ordered caret of a valid code gives a valid code with k-1 fewer leaves. */
  lemma ReduceAtCode(alpha: string, t: Tree, s: string)
    requires IsCode(alpha, t) && OrderedCaret(alpha, t, s)
    ensures IsCode(alpha, ReduceAt(alpha, t, s))
    ensures Size(ReduceAt(alpha, t, s)) == Size(t) - (|alpha| - 1)
  {
    var kids := Subtree(alpha, t, s).value.kids;
    FullSubtree(alpha, t, |alpha|, s);
    CollapseRun(alpha, t, s, |kids|);
  }

  lemma CollapseRun(alpha: string, t: Tree, s: string, k: nat)
    requires IsCode(alpha, t) && OrderedCaret(alpha, t, s) && k == |Subtree(alpha, t, s).value.kids|
    ensures var l := Subtree(alpha, t, s).value.kids[0].lbl;
            var e := MapLabels(Replace(alpha, t, s, Leaf(l)), Unshift(l, k - 1));
            IsCode(alpha, e) && Size(e) == Size(t) - (k - 1)
  {
    var l := Subtree(alpha, t, s).value.kids[0].lbl;
    var r := Replace(alpha, t, s, Leaf(l));
    var e := MapLabels(r, Unshift(l, k - 1));
    CollapseRunLabels(alpha, t, s, k);
    assert Full(e, |alpha|) by {
      ReplaceFull(alpha, t, s, Leaf(l));
      MapLabelsLabels(r, Unshift(l, k - 1));
      SameShapeFull(r, e, |alpha|);
    }
  }

  /** The labelling after collapsing an ordered caret's run is valid and k-1 shorter. */
  lemma CollapseRunLabels(alpha: string, t: Tree, s: string, k: nat)
    requires ValidLabels(Labels(t)) && OrderedCaret(alpha, t, s) && k == |Subtree(alpha, t, s).value.kids|
    ensures var l := Subtree(alpha, t, s).value.kids[0].lbl;
            var e := MapLabels(Replace(alpha, t, s, Leaf(l)), Unshift(l, k - 1));
            ValidLabels(Labels(e)) && Size(e) == Size(t) - (k - 1)
  {
    var l := Subtree(alpha, t, s).value.kids[0].lbl;
    var L := Labels(t);
    var o := Offset(alpha, t, s);
    var r := Replace(alpha, t, s, Leaf(l));
    var e := MapLabels(r, Unshift(l, k - 1));
    OrderedCaretRun(alpha, t, s);
    assert Labels(r) == L[..o] + [l] + L[o + k..] by {
      ReplaceLabels(alpha, t, s, Leaf(l));
    }
    assert Labels(e) == MapSeq(Labels(r), Unshift(l, k - 1)) by {
      MapLabelsLabels(r, Unshift(l, k - 1));
    }
    ReduceValid(L, o, k);
  }

  /** After reducing the exposed caret at s, s is a leaf labelled like the caret's
      first child, the words below s are gone, and every other leaf keeps its word,
      with its label moved down when it was above the caret's labels. */
  lemma {:induction false} ReduceAtWords(alpha: string, t: Tree, s: string, v: string)
    requires IsExposedCaret(alpha, t, s)
    ensures var kids := Subtree(alpha, t, s).value.kids;
            v == s ==> Subtree(alpha, ReduceAt(alpha, t, s), v) == Some(Leaf(kids[0].lbl))
    ensures IsPrefix(s, v) && v != s ==> Subtree(alpha, ReduceAt(alpha, t, s), v).None?
    ensures var kids := Subtree(alpha, t, s).value.kids;
            !IsPrefix(s, v) ==>
              && IsLeaf(alpha, ReduceAt(alpha, t, s), v) == IsLeaf(alpha, t, v)
              && LabelAtLeaf(alpha, ReduceAt(alpha, t, s), v)
                 == if IsLeaf(alpha, t, v) then Unshift(kids[0].lbl, |kids| - 1)(LabelAtLeaf(alpha, t, v)) else -1
  {
    var kids := Subtree(alpha, t, s).value.kids;
    var l := kids[0].lbl;
    var r := Replace(alpha, t, s, Leaf(l));
    ReplaceAt(alpha, t, s, Leaf(l), v);
    MapLabelsAt(alpha, r, Unshift(l, |kids| - 1), v);
    MapLabelsSubtree(alpha, r, Unshift(l, |kids| - 1), v);
    if IsPrefix(s, v) && v != s {
      assert v[|s|..] != [];
    }
    if v == s {
      assert v[|s|..] == [];
    }
  }

  // ---------------------------------------------------------------------------
  // Expansion and reduction undo each other

  /** Expanding at a leaf and reducing the new caret gives back the code. */
  lemma ReduceExpandAt(alpha: string, t: Tree, p: string)
    requires |alpha| >= 1 && IsLeaf(alpha, t, p)
    ensures ReduceAt(alpha, ExpandAt(alpha, t, p), p) == t
  {
    var k := |alpha|;
    SubtreeOverAlpha(alpha, t, p);
    assert IsPrefix(p, p);
    PrefixLeafFinds(alpha, t, p, p);
    assert Expands(alpha, t, p);
    assert ExpandLeaf(alpha, t, p) == p;
    var u := ExpandRest(alpha, t, p);
    assert u == [] by {
      assert p == p + u;
    }
    var l := ExpandLabel(alpha, t, p);
    var ch := Chain(alpha, l, u);
    assert ch == Node(Leaves(l, k));
    var t1 := MapLabels(t, Shift(l, k - 1));
    var e := Replace(alpha, t1, p, ch);
    assert ExpandAt(alpha, t, p) == e;
    assert Subtree(alpha, t1, p) == Some(Leaf(l)) by {
      MapLabelsSubtree(alpha, t, Shift(l, k - 1), p);
    }
    assert Subtree(alpha, e, p) == Some(ch) by {
      ReplaceAt(alpha, t1, p, ch, p);
      assert p[|p|..] == [];
    }
    assert IsExposedCaret(alpha, e, p);
    assert ReduceAt(alpha, e, p) == MapLabels(Replace(alpha, e, p, Leaf(l)), Unshift(l, k - 1));
    assert Replace(alpha, e, p, Leaf(l)) == t1 by {
      ReplaceTwice(alpha, t1, p, ch, Leaf(l));
      ReplaceSame(alpha, t1, p);
    }
    MapLabelsInverse(t, Shift(l, k - 1), Unshift(l, k - 1));
  }

  /** Reducing an ordered caret and expanding its root again gives back the code. */
  lemma ExpandReduceAt(alpha: string, t: Tree, s: string)
    requires IsCode(alpha, t) && OrderedCaret(alpha, t, s)
    ensures ExpandAt(alpha, ReduceAt(alpha, t, s), s) == t
  {
    var k := |alpha|;
    var kids := Subtree(alpha, t, s).value.kids;
    var l := kids[0].lbl;
    FullSubtree(alpha, t, k, s);
    assert |kids| == k;
    var r0 := Replace(alpha, t, s, Leaf(l));
    var r := ReduceAt(alpha, t, s);
    assert r == MapLabels(r0, Unshift(l, k - 1));
    assert IsLeaf(alpha, r, s) && LabelAtLeaf(alpha, r, s) == l by {
      ReduceAtWords(alpha, t, s, s);
    }
    SubtreeOverAlpha(alpha, t, s);
    assert IsPrefix(s, s);
    PrefixLeafFinds(alpha, r, s, s);
    assert ExpandLeaf(alpha, r, s) == s;
    var u := ExpandRest(alpha, r, s);
    assert u == [] by {
      assert s == s + u;
    }
    assert ExpandLabel(alpha, r, s) == l;
    assert Chain(alpha, l, u) == Node(Leaves(l, k));
    assert ExpandAt(alpha, r, s) == Replace(alpha, MapLabels(r, Shift(l, k - 1)), s, Node(Leaves(l, k)));
    assert MapLabels(r, Shift(l, k - 1)) == r0 by {
      ShiftUndoesUnshift(alpha, t, s, k);
      MapLabelsInverse(r0, Unshift(l, k - 1), Shift(l, k - 1));
    }
    assert kids == Leaves(l, k);
    ReplaceTwice(alpha, t, s, Leaf(l), Node(Leaves(l, k)));
    ReplaceSame(alpha, t, s);
  }

  lemma {:induction false} ShiftUndoesUnshift(alpha: string, t: Tree, s: string, k: nat)
    requires IsCode(alpha, t) && OrderedCaret(alpha, t, s) && k == |Subtree(alpha, t, s).value.kids|
    ensures var l := Subtree(alpha, t, s).value.kids[0].lbl;
            forall m | m in Labels(Replace(alpha, t, s, Leaf(l))) :: Shift(l, k - 1)(Unshift(l, k - 1)(m)) == m
  {
    var l := Subtree(alpha, t, s).value.kids[0].lbl;
    var L := Labels(t);
    var o := Offset(alpha, t, s);
    OrderedCaretRun(alpha, t, s);
    FullSubtree(alpha, t, |alpha|, s);
    ReplaceLabels(alpha, t, s, Leaf(l));
    ShiftUnshiftRun(L, o, k, Labels(Replace(alpha, t, s, Leaf(l))));
  }

  /** Outside a run, moving labels down past it and back up again is the identity. */
  lemma ShiftUnshiftRun(L: seq<nat>, o: nat, k: nat, R: seq<nat>)
    requires ValidLabels(L) && k >= 1 && RunAt(L, o, k) && R == L[..o] + [L[o]] + L[o + k..]
    ensures forall m | m in R :: Shift(L[o], k - 1)(Unshift(L[o], k - 1)(m)) == m
  {
    forall m | m in R
      ensures Shift(L[o], k - 1)(Unshift(L[o], k - 1)(m)) == m
    {
      var j :| 0 <= j < |R| && R[j] == m;
      if j < o {
        OutsideRun(L, o, k, j);
      } else if j > o {
        OutsideRun(L, o, k, j + k - 1);
        assert R[j] == L[j + k - 1];
      }
    }
  }

  // ---------------------------------------------------------------------------
  // Permutation maps

  /** The inverse map has the entries of p as keys, and entry k's key maps to k. */
  lemma {:induction false} InverseOfKeys(p: seq<nat>)
    requires Distinct(p)
    ensures forall key :: key in InverseOf(p) <==> key >= 0 && key as nat in p
    ensures forall k | 0 <= k < |p| :: p[k] in InverseOf(p) && InverseOf(p)[p[k]] == k
    decreases |p|
  {
    if p != [] {
      var q := p[..|p| - 1];
      InverseOfKeys(q);
      assert p == q + [p[|p| - 1]];
      forall k | 0 <= k < |q|
        ensures p[k] != p[|p| - 1]
      {
      }
    }
  }

  /** The engine's inverse of a valid labelling permutes 0 .. n-1 and undoes it. */
  lemma InverseOfPerm(p: seq<nat>)
    requires ValidLabels(p)
    ensures IsPermOn(InverseOf(p), |p|)
    ensures forall k | 0 <= k < |p| :: InverseOf(p)[p[k]] == k
  {
    var inv := InverseOf(p);
    InverseOfKeys(p);
    forall key | key in inv
      ensures 0 <= inv[key] < |p|
    {
      var j :| 0 <= j < |p| && p[j] == key;
      assert inv[p[j]] == j;
    }
    forall k1, k2 | k1 in inv && k2 in inv && k1 != k2
      ensures inv[k1] != inv[k2]
    {
      var j1 :| 0 <= j1 < |p| && p[j1] == k1;
      var j2 :| 0 <= j2 < |p| && p[j2] == k2;
      assert inv[p[j1]] == j1 && inv[p[j2]] == j2;
    }
    forall v | 0 <= v < |p|
      ensures HasPreimage(inv, |p|, v)
    {
      assert p[v] in inv && inv[p[v]] == v;
    }
  }

  /** Relabelling by a permutation map is one-to-one on all labels. */
  lemma PermFnInjective(perm: map<int, int>, n: nat, a: nat, b: nat)
    requires IsPermOn(perm, n) && PermFn(perm)(a) == PermFn(perm)(b)
    ensures a == b
  {
  }

  /** Applying a permutation of a valid code's labels keeps the code valid and its
      shape, and maps its labelling entry by entry. */
  lemma ApplyPermCode(alpha: string, t: Tree, perm: map<int, int>)
    requires IsCode(alpha, t) && IsPermOn(perm, Size(t))
    ensures ApplyPerm(t, perm).1
    ensures IsCode(alpha, ApplyPerm(t, perm).0) && SameShape(t, ApplyPerm(t, perm).0)
    ensures Labels(ApplyPerm(t, perm).0) == MapSeq(Labels(t), PermFn(perm))
  {
    var f := PermFn(perm);
    var L := Labels(t);
    var n := |L|;
    var e := MapLabels(t, f);
    MapLabelsLabels(t, f);
    SameShapeFull(t, e, |alpha|);
    var M := MapSeq(L, f);
    forall i, j | 0 <= i < j < n
      ensures M[i] != M[j]
    {
      if M[i] == M[j] {
        PermFnInjective(perm, n, L[i], L[j]);
      }
    }
    forall v | 0 <= v < n
      ensures v in M
    {
      assert HasPreimage(perm, n, v);
      var m :| 0 <= m < n && m in perm && perm[m] == v;
      assert m in L;
      var j :| 0 <= j < n && L[j] == m;
      assert M[j] == v;
    }
  }

  /** Whatever the labels, reducing an exposed caret of a full code removes k-1 leaves. */
  lemma ReduceAtShape(alpha: string, t: Tree, s: string)
    requires Full(t, |alpha|) && IsExposedCaret(alpha, t, s)
    ensures Full(ReduceAt(alpha, t, s), |alpha|)
    ensures Size(ReduceAt(alpha, t, s)) + |alpha| - 1 == Size(t)
  {
    var kids := Subtree(alpha, t, s).value.kids;
    var l := kids[0].lbl;
    var r := Replace(alpha, t, s, Leaf(l));
    FullSubtree(alpha, t, |alpha|, s);
    LabelsOfLeaves(kids);
    ReplaceLabels(alpha, t, s, Leaf(l));
    ReplaceFull(alpha, t, s, Leaf(l));
    MapLabelsLabels(r, Unshift(l, |kids| - 1));
    SameShapeFull(r, MapLabels(r, Unshift(l, |kids| - 1)), |alpha|);
  }

  /** Applying a map never changes a code's shape. */
  lemma ApplyPermShape(t: Tree, perm: map<int, int>)
    ensures SameShape(t, ApplyPerm(t, perm).0)
  {
    SameShapeRefl(t);
    MapLabelsLabels(t, PermFn(perm));
  }

  /** In a code labelled 0 .. n-1 in dictionary order the children of every
      exposed caret carry consecutive labels. */
  lemma {:induction false} NaturalCaretOrdered(alpha: string, t: Tree, s: string)
    requires Labels(t) == Range(0, Size(t)) && IsExposedCaret(alpha, t, s)
    ensures OrderedCaret(alpha, t, s)
  {
    var kids := Subtree(alpha, t, s).value.kids;
    var o := Offset(alpha, t, s);
    SubtreeLabels(alpha, t, s);
    LabelsOfLeaves(kids);
    forall i | 0 <= i < |kids| ensures kids[i].lbl == kids[0].lbl + i {
      assert Labels(t)[o + i] == LabelsOf(kids)[i];
      assert Labels(t)[o] == LabelsOf(kids)[0];
    }
  }

  /** The leaf words below an ordered caret at s in a full code: the i-th child
      is the leaf s + alpha[i], labelled l + i. */
  lemma OrderedCaretLeaves(alpha: string, t: Tree, s: string, i: nat)
    requires Distinct(alpha) && Full(t, |alpha|) && OrderedCaret(alpha, t, s) && i < |alpha|
    ensures |Subtree(alpha, t, s).value.kids| == |alpha|
    ensures IsLeaf(alpha, t, s + [alpha[i]])
    ensures LabelAtLeaf(alpha, t, s + [alpha[i]]) == Subtree(alpha, t, s).value.kids[0].lbl + i
  {
    FullSubtree(alpha, t, |alpha|, s);
    SubtreeChild(alpha, t, s, i);
  }

  /** In a valid code only the children of an ordered caret carry its labels. */
  lemma CaretLabelOwner(alpha: string, t: Tree, s: string, v: string)
    requires Distinct(alpha) && IsCode(alpha, t) && OrderedCaret(alpha, t, s) && IsLeaf(alpha, t, v)
    ensures var kids := Subtree(alpha, t, s).value.kids;
            var m := LabelAtLeaf(alpha, t, v);
            kids[0].lbl <= m < kids[0].lbl + |kids| ==> IsPrefix(s, v)
  {
    var kids := Subtree(alpha, t, s).value.kids;
    var m := LabelAtLeaf(alpha, t, v);
    FullSubtree(alpha, t, |alpha|, s);
    if kids[0].lbl <= m < kids[0].lbl + |kids| {
      var i := m - kids[0].lbl;
      OrderedCaretLeaves(alpha, t, s, i);
      LeafUnique(alpha, t, v, s + [alpha[i]]);
      assert (s + [alpha[i]])[..|s|] == s;
    }
  }
}
