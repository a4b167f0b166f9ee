/**
  The colour rules kept by the repaired `insert` (src/rb_tree.rs:39-71) and its fix-up
  `in_fix_up` (src/rb_tree.rs:247-326). The loop keeps the textbook invariant: the tree is
  valid and balanced, `z` is Red, and `z` is the only node that may be Red under a Red
  parent (or, being the root, a Red root). Case 1 moves that breach two levels up, case 2
  moves it onto the former parent, and case 3 removes it.
 */
module RbInsertColor {
  import opened RbArena
  import opened RbShape
  import opened RbRotate
  import opened RbInsert
  import opened RbColor

  /** The invariant of the loop in `in_fix_up` at node `z`. */
  ghost predicate FixUpInv<V>(t: RbTree<V>, z: nat) {
    && Valid(t) && z in Indices(Abs(t)) && z < |t.nodes| && t.nodes[z].color == Red
    && (t.root == Ptr(z) || RootBlack(t))
    && Balanced(t.nodes, Abs(t)) && RedRedOnlyAt(t, Ptr(z))
  }

  /** Between cases 2 and 3: `z` is the outer grandchild of `zpp`, below a Red parent that
      hangs on side `d` of `zpp`, whose other child is not Red. */
  ghost predicate StraightInv<V>(t: RbTree<V>, z: nat, zpp: nat, d: Dir) {
    && Valid(t) && RootBlack(t) && Balanced(t.nodes, Abs(t))
    && z in Indices(Abs(t)) && z < |t.nodes| && zpp in Indices(Abs(t)) && zpp < |t.nodes|
    && RedRedOnlyAt(t, Ptr(z))
    && t.nodes[z].parent.Ptr? && t.nodes[z].parent.index < |t.nodes|
    && Child(t.nodes[zpp], d) == t.nodes[z].parent
    && Child(t.nodes[t.nodes[z].parent.index], d) == Ptr(z)
    && t.nodes[t.nodes[z].parent.index].color == Red
    && !IsRed(t.nodes, Child(t.nodes[zpp], Flip(d)))
  }

  // ---------------------------------------------------------------- black paths, case by case

  /** A branch is its two sides around its node. */
  lemma SidesOf(b: Shape, d: Dir)
    requires b.Branch?
    ensures b == BranchD(d, Side(b, d), b.index, Side(b, Flip(d)))
  {
  }

  /** Relinking keeps every node's colour. */
  lemma RelinkedBlackness<V>(n0: seq<Node<V>>, n1: seq<Node<V>>)
    requires Relinked(n0, n1)
    ensures forall j :: Blackness(n1, j) == Blackness(n0, j)
  {
    forall j: nat ensures Blackness(n1, j) == Blackness(n0, j) {
      if j < |n0| {
        RelinkedAt(n0, n1, j);
      }
    }
  }

  /** Case 1: a Black node with two Red children that turns Red while they turn Black
      keeps the count of every path through it. */
  lemma PushPaths<V>(n0: seq<Node<V>>, n1: seq<Node<V>>, b: Shape, h: int)
    requires Links(n0, b) && b.Branch? && b.left.Branch? && b.right.Branch?
    requires BlackPaths(n0, b, h)
    requires Blackness(n0, b.index) == 1 && Blackness(n0, b.left.index) == 0 && Blackness(n0, b.right.index) == 0
    requires Blackness(n1, b.index) == 0 && Blackness(n1, b.left.index) == 1 && Blackness(n1, b.right.index) == 1
    requires forall j :: j in Indices(b) && j != b.index && j != b.left.index && j != b.right.index ==>
      Blackness(n1, j) == Blackness(n0, j)
    ensures BlackPaths(n1, b, h)
  {
    var l, r := b.left, b.right;
    assert r.index in Indices(r) && l.index in Indices(l);
    assert b.index !in Indices(l) && b.index !in Indices(r) && Indices(l) !! Indices(r);
    BlackenChild(n0, n1, l, h - 1);
    BlackenChild(n0, n1, r, h - 1);
  }

  /** A Red node that turns Black, the nodes below it keeping their colours, adds one to
      the count of every path through it. */
  lemma BlackenChild<V>(n0: seq<Node<V>>, n1: seq<Node<V>>, c: Shape, h: int)
    requires Links(n0, c) && c.Branch? && BlackPaths(n0, c, h)
    requires Blackness(n0, c.index) == 0 && Blackness(n1, c.index) == 1
    requires forall j :: j in Indices(c) && j != c.index ==> Blackness(n1, j) == Blackness(n0, j)
    ensures BlackPaths(n1, c, h + 1)
  {
    PathsFrame(n0, n1, c.left, h);
    PathsFrame(n0, n1, c.right, h);
  }

  /** Case 2: rotating a Red node whose far child is Red keeps every path's count. */
  lemma RedRotatedPaths<V>(nodes: seq<Node<V>>, b: Shape, d: Dir, h: int)
    requires b.Branch? && Side(b, Flip(d)).Branch?
    requires Blackness(nodes, b.index) == 0 && Blackness(nodes, Side(b, Flip(d)).index) == 0
    requires BlackPaths(nodes, b, h)
    ensures BlackPaths(nodes, Rotated(b, d), h)
  {
    var y := Side(b, Flip(d));
    SidesOf(b, d);
    SidesOf(y, d);
    PathsBranchD(nodes, d, Side(b, d), b.index, y, h);
    PathsBranchD(nodes, d, Side(y, d), y.index, Side(y, Flip(d)), h);
    PathsBranchD(nodes, d, BranchD(d, Side(b, d), b.index, Side(y, d)), y.index, Side(y, Flip(d)), h);
    PathsBranchD(nodes, d, Side(b, d), b.index, Side(y, d), h);
  }

  /** Case 3: rotating a Black node towards `e` while it turns Red and its Red far child
      turns Black keeps every path's count. */
  lemma SwapRotatedPaths<V>(n0: seq<Node<V>>, n1: seq<Node<V>>, b: Shape, e: Dir, h: int)
    requires Links(n0, b) && b.Branch? && Side(b, Flip(e)).Branch?
    requires BlackPaths(n0, b, h)
    requires Blackness(n0, b.index) == 1 && Blackness(n0, Side(b, Flip(e)).index) == 0
    requires Blackness(n1, b.index) == 0 && Blackness(n1, Side(b, Flip(e)).index) == 1
    requires forall j :: j in Indices(b) && j != b.index && j != Side(b, Flip(e)).index ==> Blackness(n1, j) == Blackness(n0, j)
    ensures BlackPaths(n1, Rotated(b, e), h)
  {
    var y := Side(b, Flip(e));
    var a, c1, c2 := Side(b, e), Side(y, e), Side(y, Flip(e));
    SidesOf(b, e);
    SidesOf(y, e);
    SwapFrames(n0, n1, b, e, h);
    PathsBranchD(n1, e, a, b.index, c1, h - 1);
    PathsBranchD(n1, e, BranchD(e, a, b.index, c1), y.index, c2, h);
  }

  /** The three subtrees a case-3 rotation moves keep their counts, one less than the
      rotated node's. */
  lemma SwapFrames<V>(n0: seq<Node<V>>, n1: seq<Node<V>>, b: Shape, e: Dir, h: int)
    requires Links(n0, b) && b.Branch? && Side(b, Flip(e)).Branch?
    requires BlackPaths(n0, b, h)
    requires Blackness(n0, b.index) == 1 && Blackness(n0, Side(b, Flip(e)).index) == 0
    requires forall j :: j in Indices(b) && j != b.index && j != Side(b, Flip(e)).index ==> Blackness(n1, j) == Blackness(n0, j)
    ensures BlackPaths(n1, Side(b, e), h - 1)
    ensures BlackPaths(n1, Side(Side(b, Flip(e)), e), h - 1)
    ensures BlackPaths(n1, Side(Side(b, Flip(e)), Flip(e)), h - 1)
  {
    var y := Side(b, Flip(e));
    var a, c1, c2 := Side(b, e), Side(y, e), Side(y, Flip(e));
    SidesApart(n0, b, e);
    assert BlackPaths(n0, a, h - 1) && BlackPaths(n0, y, h - 1);
    assert BlackPaths(n0, c1, h - 1) && BlackPaths(n0, c2, h - 1);
    PathsFrameApart(n0, n1, a, h - 1, Indices(b), b.index, y.index);
    PathsFrameApart(n0, n1, c1, h - 1, Indices(b), b.index, y.index);
    PathsFrameApart(n0, n1, c2, h - 1, Indices(b), b.index, y.index);
  }

  /** Where the three subtrees a rotation moves sit: inside the rotated subtree, apart from
      its two top nodes. */
  lemma SidesApart<V>(n0: seq<Node<V>>, b: Shape, e: Dir)
    requires Links(n0, b) && b.Branch? && Side(b, Flip(e)).Branch?
    ensures
      var y := Side(b, Flip(e));
      && Indices(Side(b, e)) <= Indices(b) && b.index !in Indices(Side(b, e)) && y.index !in Indices(Side(b, e))
      && Indices(Side(y, e)) <= Indices(b) && b.index !in Indices(Side(y, e)) && y.index !in Indices(Side(y, e))
      && Indices(Side(y, Flip(e))) <= Indices(b) && b.index !in Indices(Side(y, Flip(e)))
      && y.index !in Indices(Side(y, Flip(e)))
  {
    var y := Side(b, Flip(e));
    assert Links(n0, y) && y.index in Indices(y);
  }

  /** Black paths through nodes of `big` other than `x1` and `x2` are kept when those keep
      their colours. */
  lemma PathsFrameApart<V>(n0: seq<Node<V>>, n1: seq<Node<V>>, c: Shape, h: int, big: set<nat>, x1: nat, x2: nat)
    requires BlackPaths(n0, c, h) && Indices(c) <= big && x1 !in Indices(c) && x2 !in Indices(c)
    requires forall j :: j in big && j != x1 && j != x2 ==> Blackness(n1, j) == Blackness(n0, j)
    ensures BlackPaths(n1, c, h)
  {
    PathsFrame(n0, n1, c, h);
  }

  /** Blackening the root of a balanced tree keeps it balanced. */
  lemma BlackenBalanced<V>(n0: seq<Node<V>>, n1: seq<Node<V>>, s: Shape)
    requires Links(n0, s) && Balanced(n0, s)
    requires forall j :: j in Indices(s) && Ptr(j) != Root(s) ==> Blackness(n1, j) == Blackness(n0, j)
    ensures Balanced(n1, s)
  {
    match s
    case Leaf =>
    case Branch(l, i, r) =>
      var h := BlackHeight(n0, s) - Blackness(n0, i);
      PathsFrame(n0, n1, l, h);
      PathsFrame(n0, n1, r, h);
      PathsHeight(n1, l, h);
  }

  /** The new leaf of `insert` is Red, so the descent keeps every path's count. */
  lemma {:induction false} InsertPaths<V>(nodes: seq<Node<V>>, nodes': seq<Node<V>>, s: Shape, k: int, n: nat, h: int)
    requires Links(nodes, s) && BlackPaths(nodes, s, h)
    requires forall j :: j in Indices(s) ==> Blackness(nodes', j) == Blackness(nodes, j)
    requires Blackness(nodes', n) == 0
    ensures BlackPaths(nodes', InsertShape(nodes, s, k, n), h)
  {
    match s
    case Leaf =>
    case Branch(l, i, r) =>
      var b := Blackness(nodes, i);
      if k < nodes[i].key {
        InsertPaths(nodes, nodes', l, k, n, h - b);
        PathsFrame(nodes, nodes', r, h - b);
      } else {
        PathsFrame(nodes, nodes', l, h - b);
        InsertPaths(nodes, nodes', r, k, n, h - b);
      }
  }

  /** Relinking keeps every node's colour. */
  lemma RelinkedColors<V>(n0: seq<Node<V>>, n1: seq<Node<V>>)
    requires Relinked(n0, n1)
    ensures |n1| == |n0| && forall j :: 0 <= j < |n0| ==> n1[j].color == n0[j].color
  {
    forall j | 0 <= j < |n0| ensures n1[j].color == n0[j].color {
      RelinkedAt(n0, n1, j);
    }
  }

  /** A rotation of a valid tree, seen node by node: the same nodes, the arena rewritten
      as `RotatedArena` says, colours kept. */
  lemma RotateNodes<V>(t: RbTree<V>, x: nat, d: Dir)
    requires Valid(t) && x in Indices(Abs(t)) && x < |t.nodes| && Child(t.nodes[x], Flip(d)).Ptr?
    ensures Rotate(t, x, d).Ok? && Indices(Abs(Rotate(t, x, d).value)) == Indices(Abs(t))
    ensures RotatedArena(t.nodes, Rotate(t, x, d).value.nodes, x, Child(t.nodes[x], Flip(d)).index, d)
    ensures |Rotate(t, x, d).value.nodes| == |t.nodes|
    ensures forall i :: 0 <= i < |t.nodes| ==> Rotate(t, x, d).value.nodes[i].color == t.nodes[i].color
  {
    RotateValid(t, x, d);
    RelinkedColors(t.nodes, Rotate(t, x, d).value.nodes);
  }

  // ---------------------------------------------------------------- case 1

  /** Case 1 keeps every path's count: the grandparent, Black, turns Red while its two Red
      children turn Black. */
  lemma PushBlackBalanced<V>(t: RbTree<V>, zp: nat, y: nat, zpp: nat)
    requires Valid(t) && Balanced(t.nodes, Abs(t)) && zpp in Indices(Abs(t))
    requires zp < |t.nodes| && y < |t.nodes| && zpp < |t.nodes|
    requires (t.nodes[zpp].left == Ptr(zp) && t.nodes[zpp].right == Ptr(y))
          || (t.nodes[zpp].left == Ptr(y) && t.nodes[zpp].right == Ptr(zp))
    requires t.nodes[zpp].color == Black && t.nodes[zp].color == Red && t.nodes[y].color == Red
    ensures Balanced(PushBlack(t, zp, y, zpp).nodes, Abs(t))
  {
    var s := Abs(t);
    var n1 := PushBlack(t, zp, y, zpp).nodes;
    DistinctChildren(t.nodes, s, Null, zpp);
    PushSubPaths(t.nodes, n1, s, zp, y, zpp);
    PushOutside(t.nodes, n1, s, zp, y, zpp);
    ReplaceBalanced(t.nodes, n1, s, zpp, Sub(s, zpp));
    ReplaceSelf(s, zpp);
  }

  /** Case 1 within the grandparent's subtree keeps its count. */
  lemma PushSubPaths<V>(n0: seq<Node<V>>, n1: seq<Node<V>>, s: Shape, zp: nat, y: nat, zpp: nat)
    requires Links(n0, s) && Balanced(n0, s) && zpp in Indices(s) && |n1| == |n0|
    requires zp < |n0| && y < |n0| && zpp < |n0|
    requires (n0[zpp].left == Ptr(zp) && n0[zpp].right == Ptr(y)) || (n0[zpp].left == Ptr(y) && n0[zpp].right == Ptr(zp))
    requires n0[zpp].color == Black && n0[zp].color == Red && n0[y].color == Red
    requires n1[zpp].color == Red && n1[zp].color == Black && n1[y].color == Black
    requires forall i :: 0 <= i < |n0| && i != zp && i != y && i != zpp ==> n1[i].color == n0[i].color
    ensures BlackPaths(n1, Sub(s, zpp), BlackHeight(n0, Sub(s, zpp)))
  {
    SubLinks(n0, s, zpp);
    var b := Sub(s, zpp);
    assert b.left.Branch? && b.right.Branch?;
    LinksInArena(n0, b);
    SubPaths(n0, s, BlackHeight(n0, s), zpp);
    PushPaths(n0, n1, b, BlackHeight(n0, b));
  }

  /** Case 1 recolours only nodes of the grandparent's subtree. */
  lemma PushOutside<V>(n0: seq<Node<V>>, n1: seq<Node<V>>, s: Shape, zp: nat, y: nat, zpp: nat)
    requires Links(n0, s) && zpp in Indices(s) && |n1| == |n0|
    requires zp < |n0| && y < |n0| && zpp < |n0|
    requires (n0[zpp].left == Ptr(zp) && n0[zpp].right == Ptr(y)) || (n0[zpp].left == Ptr(y) && n0[zpp].right == Ptr(zp))
    requires forall i :: 0 <= i < |n0| && i != zp && i != y && i != zpp ==> n1[i].color == n0[i].color
    ensures forall j :: j in Outside(s, zpp) ==> Blackness(n1, j) == Blackness(n0, j)
  {
    SubLinks(n0, s, zpp);
    var b := Sub(s, zpp);
    assert b.left.Branch? && b.right.Branch?;
    assert b.left.index in Indices(b.left) && b.right.index in Indices(b.right);
    assert zp in Indices(b) && y in Indices(b) && zpp in Indices(b);
  }

  /** After case 1 the only node that may be Red under a Red parent is the grandparent. */
  lemma PushBlackRed<V>(t: RbTree<V>, z: nat, zp: nat, y: nat, zpp: nat)
    requires Valid(t) && RedRedOnlyAt(t, Ptr(z)) && z < |t.nodes| && t.nodes[z].parent == Ptr(zp)
    requires zpp in Indices(Abs(t)) && zp < |t.nodes| && y < |t.nodes| && zpp < |t.nodes|
    requires (t.nodes[zpp].left == Ptr(zp) && t.nodes[zpp].right == Ptr(y))
          || (t.nodes[zpp].left == Ptr(y) && t.nodes[zpp].right == Ptr(zp))
    ensures RedRedOnlyAt(PushBlack(t, zp, y, zpp), Ptr(zpp))
  {
    var s := Abs(t);
    var t' := PushBlack(t, zp, y, zpp);
    RecolorValid(t, t');
    DistinctChildren(t.nodes, s, Null, zpp);
    PushRed(t.nodes, t'.nodes, s, z, zp, y, zpp);
  }

  /** Case 1 on the arena: with the parent and uncle Black, only the grandparent may be
      Red under a Red parent. */
  lemma PushRed<V>(n0: seq<Node<V>>, n1: seq<Node<V>>, s: Shape, z: nat, zp: nat, y: nat, zpp: nat)
    requires Wf(n0, s, Null) && |n1| == |n0| && z < |n0| && zp < |n0| && y < |n0| && zpp < |n0|
    requires (n0[zpp].left == Ptr(zp) && n0[zpp].right == Ptr(y)) || (n0[zpp].left == Ptr(y) && n0[zpp].right == Ptr(zp))
    requires forall j :: j in Indices(s) && j != z ==> !RedUnderRed(n0, j)
    requires n0[z].parent == Ptr(zp) && n1[zp].color == Black && n1[y].color == Black
    requires forall i :: 0 <= i < |n0| ==> n1[i].parent == n0[i].parent
    requires forall i :: 0 <= i < |n0| && i != zp && i != y && i != zpp ==> n1[i].color == n0[i].color
    ensures forall j :: j in Indices(s) && Ptr(j) != Ptr(zpp) ==> !RedUnderRed(n1, j)
  {
    forall j | j in Indices(s) && Ptr(j) != Ptr(zpp) ensures !RedUnderRed(n1, j) {
      ParentInside(n0, s, Null, j);
      PushRedAt(n0, n1, j, z, zp, y, zpp);
    }
  }

  /** One node after case 1. */
  lemma PushRedAt<V>(n0: seq<Node<V>>, n1: seq<Node<V>>, j: nat, z: nat, zp: nat, y: nat, zpp: nat)
    requires |n1| == |n0| && j < |n0| && z < |n0| && zp < |n0| && y < |n0| && zpp < |n0| && j != zpp
    requires (n0[zpp].left == Ptr(zp) && n0[zpp].right == Ptr(y)) || (n0[zpp].left == Ptr(y) && n0[zpp].right == Ptr(zp))
    requires j != z ==> !RedUnderRed(n0, j)
    requires n0[z].parent == Ptr(zp) && n1[zp].color == Black && n1[y].color == Black
    requires n1[j].parent == n0[j].parent
    requires n0[j].parent.Ptr? ==> n0[j].parent.index < |n0| && n1[n0[j].parent.index].parent == n0[n0[j].parent.index].parent
    requires n0[j].parent == Ptr(zpp) ==> n0[zpp].left == Ptr(j) || n0[zpp].right == Ptr(j)
    requires forall i :: 0 <= i < |n0| && i != zp && i != y && i != zpp ==> n1[i].color == n0[i].color
    ensures !RedUnderRed(n1, j)
  {
  }

  /** Case 1 keeps the invariant, with the grandparent as the new `z`. */
  lemma PushBlackKeeps<V>(t: RbTree<V>, z: nat, zp: nat, zpp: nat, d: Dir)
    requires FixUpInv(t, z)
    requires t.nodes[z].parent == Ptr(zp) && zp < |t.nodes| && t.nodes[zp].color == Red && t.nodes[zp].parent == Ptr(zpp)
    requires zpp < |t.nodes| && Child(t.nodes[zpp], d) == Ptr(zp) && IsRed(t.nodes, Child(t.nodes[zpp], Flip(d)))
    ensures FixUpInv(PushBlack(t, zp, Child(t.nodes[zpp], Flip(d)).index, zpp), zpp)
  {
    var y := Child(t.nodes[zpp], Flip(d)).index;
    Case1Setup(t, z, zp, zpp, d);
    PushBlackFacts(t, z, zp, y, zpp);
  }

  /** Where case 1 applies: `z` under its Red parent `zp`, whose sibling `y` is Red too,
      under the Black grandparent `zpp`. */
  ghost predicate Case1<V>(t: RbTree<V>, z: nat, zp: nat, y: nat, zpp: nat) {
    && Valid(t) && RootBlack(t) && Balanced(t.nodes, Abs(t)) && RedRedOnlyAt(t, Ptr(z))
    && z in Indices(Abs(t)) && zpp in Indices(Abs(t))
    && z < |t.nodes| && zp < |t.nodes| && y < |t.nodes| && zpp < |t.nodes|
    && t.nodes[z].parent == Ptr(zp) && t.nodes[zp].parent == Ptr(zpp)
    && ((t.nodes[zpp].left == Ptr(zp) && t.nodes[zpp].right == Ptr(y))
        || (t.nodes[zpp].left == Ptr(y) && t.nodes[zpp].right == Ptr(zp)))
    && t.nodes[zpp].color == Black && t.nodes[zp].color == Red && t.nodes[y].color == Red
  }

  /** The loop's invariant with a Red uncle puts the tree in case 1. */
  lemma Case1Setup<V>(t: RbTree<V>, z: nat, zp: nat, zpp: nat, d: Dir)
    requires FixUpInv(t, z)
    requires t.nodes[z].parent == Ptr(zp) && zp < |t.nodes| && t.nodes[zp].color == Red && t.nodes[zp].parent == Ptr(zpp)
    requires zpp < |t.nodes| && Child(t.nodes[zpp], d) == Ptr(zp) && IsRed(t.nodes, Child(t.nodes[zpp], Flip(d)))
    ensures Case1(t, z, zp, Child(t.nodes[zpp], Flip(d)).index, zpp)
  {
    LoopSite(t, z, zp);
    assert !RedUnderRed(t.nodes, zp);
  }

  /** Case 1 leaves the loop's invariant at the grandparent. */
  lemma PushBlackFacts<V>(t: RbTree<V>, z: nat, zp: nat, y: nat, zpp: nat)
    requires Case1(t, z, zp, y, zpp)
    ensures FixUpInv(PushBlack(t, zp, y, zpp), zpp)
  {
    PushBlackValid(t, z, zp, y, zpp);
    PushBlackBalanced(t, zp, y, zpp);
    PushBlackRed(t, z, zp, y, zpp);
  }

  // ---------------------------------------------------------------- case 2

  /** Case 2 keeps every path's count: the parent and `z` are both Red. */
  lemma StraightenBalanced<V>(t: RbTree<V>, zp: nat, d: Dir)
    requires Valid(t) && Balanced(t.nodes, Abs(t)) && zp in Indices(Abs(t)) && zp < |t.nodes|
    requires IsRed(t.nodes, Ptr(zp)) && IsRed(t.nodes, Child(t.nodes[zp], Flip(d)))
    ensures Rotate(t, zp, d).Ok? && Balanced(Rotate(t, zp, d).value.nodes, Abs(Rotate(t, zp, d).value))
  {
    var s := Abs(t);
    RotateValid(t, zp, d);
    RotationSite(t.nodes, s, zp, d);
    var b := Sub(s, zp);
    var n1 := Rotate(t, zp, d).value.nodes;
    SubPaths(t.nodes, s, BlackHeight(t.nodes, s), zp);
    RedRotatedPaths(t.nodes, b, d, BlackHeight(t.nodes, b));
    RelinkedBlackness(t.nodes, n1);
    PathsFrame(t.nodes, n1, Rotated(b, d), BlackHeight(t.nodes, b));
    ReplaceBalanced(t.nodes, n1, s, zp, Rotated(b, d));
  }

  /** After case 2 the only node that may be Red under a Red parent is the former parent. */
  lemma StraightenRed<V>(t: RbTree<V>, z: nat, zp: nat, zpp: nat, d: Dir)
    requires Valid(t) && RedRedOnlyAt(t, Ptr(z)) && z in Indices(Abs(t)) && z < |t.nodes| && t.nodes[z].color == Red
    requires zp in Indices(Abs(t)) && zp < |t.nodes| && t.nodes[zp].color == Red && t.nodes[z].parent == Ptr(zp)
    requires t.nodes[zp].parent == Ptr(zpp) && Child(t.nodes[zp], Flip(d)) == Ptr(z)
    ensures Rotate(t, zp, d).Ok? && RedRedOnlyAt(Rotate(t, zp, d).value, Ptr(zp))
  {
    var s := Abs(t);
    RotateNodes(t, zp, d);
    var n1 := Rotate(t, zp, d).value.nodes;
    LinksInArena(t.nodes, s);
    StraightenBeta(t, z, zp, zpp, d);
    StraightenRedAll(t.nodes, n1, Indices(s), z, zp, zpp, d);
  }

  /** Around case 2: the grandparent is not Red, nor is `z`'s inner child. */
  lemma StraightenBeta<V>(t: RbTree<V>, z: nat, zp: nat, zpp: nat, d: Dir)
    requires Valid(t) && RedRedOnlyAt(t, Ptr(z)) && z in Indices(Abs(t)) && z < |t.nodes| && t.nodes[z].color == Red
    requires zp in Indices(Abs(t)) && zp < |t.nodes| && t.nodes[zp].color == Red && t.nodes[z].parent == Ptr(zp)
    requires t.nodes[zp].parent == Ptr(zpp) && Child(t.nodes[zp], Flip(d)) == Ptr(z)
    ensures !IsRed(t.nodes, Ptr(zpp))
    ensures Child(t.nodes[z], d).Ptr? ==> !IsRed(t.nodes, Child(t.nodes[z], d))
  {
    var s := Abs(t);
    DistinctChildren(t.nodes, s, Null, zp);
    assert !RedUnderRed(t.nodes, zp);
    var beta := Child(t.nodes[z], d);
    if beta.Ptr? {
      ChildLinkIsParent(t.nodes, s, Null, z, beta.index);
      DistinctChildren(t.nodes, s, Null, z);
      assert !RedUnderRed(t.nodes, beta.index);
    }
  }

  /** Case 2 on the arena: only the old parent may be Red under a Red parent. */
  lemma StraightenRedAll<V>(n0: seq<Node<V>>, n1: seq<Node<V>>, ids: set<nat>, z: nat, zp: nat, zpp: nat, d: Dir)
    requires RotatedArena(n0, n1, zp, z, d)
    requires forall i :: 0 <= i < |n0| ==> n1[i].color == n0[i].color
    requires forall j :: j in ids ==> j < |n0|
    requires forall j :: j in ids && Ptr(j) != Ptr(z) ==> !RedUnderRed(n0, j)
    requires n0[zp].parent == Ptr(zpp) && !IsRed(n0, Ptr(zpp))
    requires Child(n0[z], d).Ptr? ==> !IsRed(n0, Child(n0[z], d))
    ensures forall j :: j in ids && Ptr(j) != Ptr(zp) ==> !RedUnderRed(n1, j)
  {
    forall j | j in ids && Ptr(j) != Ptr(zp) ensures !RedUnderRed(n1, j) {
      StraightenRedAt(n0, n1, j, z, zp, zpp, d);
    }
  }

  /** One node after case 2: the rotation moves `z` under the grandparent, which is not
      Red, and `z`'s inner child under the parent; it is not Red either. */
  lemma StraightenRedAt<V>(n0: seq<Node<V>>, n1: seq<Node<V>>, j: nat, z: nat, zp: nat, zpp: nat, d: Dir)
    requires RotatedArena(n0, n1, zp, z, d)
    requires forall i :: 0 <= i < |n0| ==> n1[i].color == n0[i].color
    requires j < |n0| && j != zp && (j != z ==> !RedUnderRed(n0, j))
    requires n0[zp].parent == Ptr(zpp) && !IsRed(n0, Ptr(zpp))
    requires Child(n0[z], d).Ptr? ==> !IsRed(n0, Child(n0[z], d))
    ensures !RedUnderRed(n1, j)
  {
  }

  /** Case 2 (when it rotates) or nothing (when `z` is already the outer child) leads to
      the state case 3 starts from. */
  lemma StraightenKeeps<V>(t: RbTree<V>, z: nat, zp: nat, zpp: nat, d: Dir)
    requires FixUpInv(t, z)
    requires t.nodes[z].parent == Ptr(zp) && zp < |t.nodes| && t.nodes[zp].color == Red && t.nodes[zp].parent == Ptr(zpp)
    requires zpp < |t.nodes| && Child(t.nodes[zpp], d) == Ptr(zp) && !IsRed(t.nodes, Child(t.nodes[zpp], Flip(d)))
    ensures StraightInv(Straighten(t, z, zp, d).0, Straighten(t, z, zp, d).1, zpp, d)
  {
    LoopSite(t, z, zp);
    if Child(t.nodes[zp], Flip(d)) == Ptr(z) {
      StraightenRotates(t, z, zp, zpp, d);
      assert Straighten(t, z, zp, d) == (Rotate(t, zp, d).value, zp);
    } else {
      assert Straighten(t, z, zp, d) == (t, z);
    }
  }

  /** Case 2 proper: `z` is the inner grandchild, and rotating its parent makes the parent
      the outer one. */
  lemma StraightenRotates<V>(t: RbTree<V>, z: nat, zp: nat, zpp: nat, d: Dir)
    requires FixUpInv(t, z) && RootBlack(t) && zp in Indices(Abs(t)) && zpp in Indices(Abs(t))
    requires t.nodes[z].parent == Ptr(zp) && zp < |t.nodes| && t.nodes[zp].color == Red && t.nodes[zp].parent == Ptr(zpp)
    requires zpp < |t.nodes| && Child(t.nodes[zpp], d) == Ptr(zp) && !IsRed(t.nodes, Child(t.nodes[zpp], Flip(d)))
    requires Child(t.nodes[zp], Flip(d)) == Ptr(z)
    ensures Rotate(t, zp, d).Ok? && StraightInv(Rotate(t, zp, d).value, zp, zpp, d)
  {
    StraightenBalanced(t, zp, d);
    StraightenRed(t, z, zp, zpp, d);
    StraightenLinks(t, z, zp, zpp, d);
    RotateKeeps(t, zp, d);
  }

  /** The links and colours around the grandparent after case 2's rotation. */
  lemma StraightenLinks<V>(t: RbTree<V>, z: nat, zp: nat, zpp: nat, d: Dir)
    requires Valid(t) && z < |t.nodes| && t.nodes[z].color == Red
    requires zp in Indices(Abs(t)) && zpp in Indices(Abs(t)) && zp < |t.nodes| && zpp < |t.nodes|
    requires t.nodes[z].parent == Ptr(zp) && t.nodes[zp].parent == Ptr(zpp)
    requires Child(t.nodes[zpp], d) == Ptr(zp) && !IsRed(t.nodes, Child(t.nodes[zpp], Flip(d)))
    requires Child(t.nodes[zp], Flip(d)) == Ptr(z)
    ensures Rotate(t, zp, d).Ok?
    ensures
      var r := Rotate(t, zp, d).value;
      && Indices(Abs(r)) == Indices(Abs(t)) && |r.nodes| == |t.nodes|
      && r.nodes[zp].parent == Ptr(z) && Child(r.nodes[z], d) == Ptr(zp) && r.nodes[z].color == Red
      && Child(r.nodes[zpp], d) == Ptr(z) && !IsRed(r.nodes, Child(r.nodes[zpp], Flip(d)))
  {
    RotateNodes(t, zp, d);
    var n1 := Rotate(t, zp, d).value.nodes;
    assert n1[zpp] == SetChild(t.nodes[zpp], d, Ptr(z));
  }

  /** A rotation below the root keeps the tree valid and its root Black. */
  lemma RotateKeeps<V>(t: RbTree<V>, x: nat, d: Dir)
    requires Valid(t) && RootBlack(t) && x in Indices(Abs(t)) && x < |t.nodes|
    requires Child(t.nodes[x], Flip(d)).Ptr? && t.nodes[x].parent.Ptr?
    ensures Rotate(t, x, d).Ok? && Valid(Rotate(t, x, d).value) && RootBlack(Rotate(t, x, d).value)
  {
    RotateValid(t, x, d);
    RelinkedColors(t.nodes, Rotate(t, x, d).value.nodes);
  }

  // ---------------------------------------------------------------- case 3

  /** The recolouring of case 3, before its rotation. */
  ghost function Recolored<V>(t: RbTree<V>, q: nat, zpp: nat): (r: RbTree<V>)
    requires Closed(t) && q < |t.nodes| && zpp < |t.nodes|
  {
    SetColor(SetColor(t, Ptr(q), Black), Ptr(zpp), Red)
  }

  /** Facts shared by the two halves of case 3: the nodes involved, and that the
      grandparent is Black before it. */
  lemma LiftSetup<V>(t: RbTree<V>, z: nat, zpp: nat, d: Dir)
    requires StraightInv(t, z, zpp, d)
    ensures
      var q := t.nodes[z].parent.index;
      && q in Indices(Abs(t)) && q != z && q != zpp && z != zpp
      && t.nodes[q].parent == Ptr(zpp) && t.nodes[zpp].color == Black
      && Valid(Recolored(t, q, zpp)) && Abs(Recolored(t, q, zpp)) == Abs(t)
      && Lift(t, Ptr(q), zpp, d) == Rotate(Recolored(t, q, zpp), zpp, Flip(d))
      && Child(Recolored(t, q, zpp).nodes[zpp], Flip(Flip(d))) == Ptr(q)
  {
    var s := Abs(t);
    var q := t.nodes[z].parent.index;
    LiftSite(t, z, zpp, d);
    ChildLinkIsParent(t.nodes, s, Null, zpp, q);
    DistinctChildren(t.nodes, s, Null, q);
    assert !RedUnderRed(t.nodes, q);
    var t1 := SetColor(t, Ptr(q), Black);
    RecolorValid(t, t1);
    RecolorValid(t1, Recolored(t, q, zpp));
    assert Flip(Flip(d)) == d;
  }

  /** What the recolouring of case 3 changes: the parent turns Black, the grandparent Red,
      and nothing else. */
  lemma RecoloredFacts<V>(t: RbTree<V>, q: nat, zpp: nat)
    requires Closed(t) && q < |t.nodes| && zpp < |t.nodes| && q != zpp
    ensures
      var n2 := Recolored(t, q, zpp).nodes;
      && |n2| == |t.nodes| && n2[q].color == Black && n2[zpp].color == Red
      && forall i :: 0 <= i < |t.nodes| ==>
           && SameLinks(n2[i], t.nodes[i])
           && (i != q && i != zpp ==> n2[i].color == t.nodes[i].color)
  {
  }

  /** What case 3 leaves behind: the grandparent's subtree rotated away from `z`, the
      parent Black, the grandparent Red, and every other colour as it was. */
  lemma LiftResult<V>(t: RbTree<V>, z: nat, zpp: nat, d: Dir)
    requires StraightInv(t, z, zpp, d)
    ensures Lift(t, t.nodes[z].parent, zpp, d).Ok?
    ensures |Lift(t, t.nodes[z].parent, zpp, d).value.nodes| == |t.nodes|
    ensures Sub(Abs(t), zpp).Branch? && Side(Sub(Abs(t), zpp), Flip(Flip(d))).Branch?
    ensures Abs(Lift(t, t.nodes[z].parent, zpp, d).value) == Replace(Abs(t), zpp, Rotated(Sub(Abs(t), zpp), Flip(d)))
    ensures Lift(t, t.nodes[z].parent, zpp, d).value.nodes[t.nodes[z].parent.index].color == Black
    ensures Lift(t, t.nodes[z].parent, zpp, d).value.nodes[zpp].color == Red
    ensures forall i :: 0 <= i < |t.nodes| && i != t.nodes[z].parent.index && i != zpp ==>
      Lift(t, t.nodes[z].parent, zpp, d).value.nodes[i].color == t.nodes[i].color
  {
    var q := t.nodes[z].parent.index;
    LiftSetup(t, z, zpp, d);
    var t2 := Recolored(t, q, zpp);
    RecoloredFacts(t, q, zpp);
    assert t.nodes[z].parent == Ptr(q);
    var r := Lift(t, t.nodes[z].parent, zpp, d);
    assert r == Rotate(t2, zpp, Flip(d));
    RotateNodes(t2, zpp, Flip(d));
    RotateShape(t2, zpp, Flip(d));
    var s2 := Abs(t2);
    assert Abs(r.value) == Replace(s2, zpp, Rotated(Sub(s2, zpp), Flip(d)));
    assert s2 == Abs(t);
  }

  /** The shape a rotation leaves, on its own. */
  lemma RotateShape<V>(t: RbTree<V>, x: nat, d: Dir)
    requires Valid(t) && x in Indices(Abs(t)) && x < |t.nodes| && Child(t.nodes[x], Flip(d)).Ptr?
    ensures Rotate(t, x, d).Ok?
    ensures Sub(Abs(t), x).Branch? && Side(Sub(Abs(t), x), Flip(d)).Branch?
    ensures Abs(Rotate(t, x, d).value) == Replace(Abs(t), x, Rotated(Sub(Abs(t), x), d))
  {
    RotateValid(t, x, d);
  }

  /** Case 3 keeps every path's count: the Black grandparent turns Red and rotates down
      while the Red parent turns Black and takes its place. */
  lemma LiftBalanced<V>(t: RbTree<V>, z: nat, zpp: nat, d: Dir)
    requires StraightInv(t, z, zpp, d)
    ensures Lift(t, t.nodes[z].parent, zpp, d).Ok?
    ensures Balanced(Lift(t, t.nodes[z].parent, zpp, d).value.nodes, Abs(Lift(t, t.nodes[z].parent, zpp, d).value))
  {
    var q := t.nodes[z].parent.index;
    LiftSetup(t, z, zpp, d);
    LiftResult(t, z, zpp, d);
    assert Flip(Flip(d)) == d;
    LiftPaths(t.nodes, Lift(t, t.nodes[z].parent, zpp, d).value.nodes, Abs(t), zpp, q, Flip(d));
  }

  /** The shape side of case 3: rotating the subtree of the Black grandparent `u`, whose
      Red child `q` on the far side swaps colours with it, keeps the tree balanced. */
  lemma LiftPaths<V>(n0: seq<Node<V>>, n1: seq<Node<V>>, s: Shape, u: nat, q: nat, e: Dir)
    requires Links(n0, s) && Balanced(n0, s) && u in Indices(s) && u < |n0| && q < |n0| && |n1| == |n0|
    requires Child(n0[u], Flip(e)) == Ptr(q)
    requires n0[u].color == Black && n0[q].color == Red && n1[u].color == Red && n1[q].color == Black
    requires forall i :: 0 <= i < |n0| && i != q && i != u ==> n1[i].color == n0[i].color
    ensures Sub(s, u).Branch? && Side(Sub(s, u), Flip(e)).Branch?
    ensures Balanced(n1, Replace(s, u, Rotated(Sub(s, u), e)))
  {
    SubLinks(n0, s, u);
    var b := Sub(s, u);
    assert Child(n0[u], Flip(e)) == Root(Side(b, Flip(e)));
    assert q in Indices(Side(b, Flip(e)));
    LinksInArena(n0, s);
    SubPaths(n0, s, BlackHeight(n0, s), u);
    SwapRotatedPaths(n0, n1, b, e, BlackHeight(n0, b));
    ReplaceBalanced(n0, n1, s, u, Rotated(b, e));
  }

  /** What case 3 does to the arena around the grandparent `zpp`, its Red child `q` on side
      `d` and `z` below: `n2` recolours `n0`, `n3` is `n2` rotated at `zpp`. */
  ghost predicate LiftCtx<V>(n0: seq<Node<V>>, n2: seq<Node<V>>, n3: seq<Node<V>>, z: nat, q: nat, zpp: nat, d: Dir) {
    && q < |n0| && zpp < |n0| && q != zpp && |n2| == |n0| && |n3| == |n0|
    && RotatedArena(n2, n3, zpp, q, Flip(d))
    && (forall i :: 0 <= i < |n0| ==> SameLinks(n2[i], n0[i]))
    && (forall i :: 0 <= i < |n0| && i != q && i != zpp ==> n3[i].color == n0[i].color)
    && n3[q].color == Black && n3[zpp].color == Red
    && (Child(n0[q], Flip(d)).Ptr? ==>
         Child(n0[q], Flip(d)).index != q && Child(n0[q], Flip(d)).index != zpp && !IsRed(n0, Child(n0[q], Flip(d))))
    && Child(n0[zpp], d) == Ptr(q) && !IsRed(n0, Child(n0[zpp], Flip(d)))
  }

  /** Case 3 seen from the arena: its result is the recoloured tree rotated at `zpp`. */
  lemma LiftRedSetup<V>(t: RbTree<V>, z: nat, zpp: nat, d: Dir)
    requires StraightInv(t, z, zpp, d)
    ensures Lift(t, t.nodes[z].parent, zpp, d).Ok?
    ensures Indices(Abs(Lift(t, t.nodes[z].parent, zpp, d).value)) == Indices(Abs(t))
    ensures LiftCtx(t.nodes, Recolored(t, t.nodes[z].parent.index, zpp).nodes,
                    Lift(t, t.nodes[z].parent, zpp, d).value.nodes, z, t.nodes[z].parent.index, zpp, d)
  {
    var s := Abs(t);
    var q := t.nodes[z].parent.index;
    LiftSetup(t, z, zpp, d);
    var t2 := Recolored(t, q, zpp);
    RecoloredFacts(t, q, zpp);
    RotateNodes(t2, zpp, Flip(d));
    LiftBeta(t, z, zpp, d);
    assert t.nodes[z].parent == Ptr(q);
    assert Lift(t, t.nodes[z].parent, zpp, d) == Rotate(t2, zpp, Flip(d));
  }

  /** The parent's inner child, which case 3 hands to the grandparent, is neither of them
      and is not Red. */
  lemma LiftBeta<V>(t: RbTree<V>, z: nat, zpp: nat, d: Dir)
    requires StraightInv(t, z, zpp, d)
    ensures
      var q := t.nodes[z].parent.index;
      var beta := Child(t.nodes[q], Flip(d));
      beta.Ptr? ==> beta.index != q && beta.index != zpp && !IsRed(t.nodes, beta)
  {
    var s := Abs(t);
    var q := t.nodes[z].parent.index;
    ParentInside(t.nodes, s, Null, z);
    var beta := Child(t.nodes[q], Flip(d));
    DistinctChildren(t.nodes, s, Null, q);
    GrandchildApart(t.nodes, s, zpp, q, d, Flip(d));
    if beta.Ptr? {
      ChildLinkIsParent(t.nodes, s, Null, q, beta.index);
      assert beta != Ptr(z);
      assert !RedUnderRed(t.nodes, beta.index);
    }
  }

  /** A grandchild is never its own grandparent. */
  lemma GrandchildApart<V>(nodes: seq<Node<V>>, s: Shape, u: nat, q: nat, e: Dir, f: Dir)
    requires Links(nodes, s) && u in Indices(s) && u < |nodes| && q < |nodes| && Child(nodes[u], e) == Ptr(q)
    ensures Child(nodes[q], f).Ptr? ==> Child(nodes[q], f).index != u
  {
    SubLinks(nodes, s, u);
    var b := Sub(s, u);
    var c := Side(b, e);
    assert Child(nodes[u], e) == Root(c);
    assert Links(nodes, c) && u !in Indices(c);
    var g := Side(c, f);
    assert Child(nodes[q], f) == Root(g);
    if g.Branch? {
      assert g.index in Indices(g);
    }
  }

  /** After case 3 no node but `z` may be Red under a Red parent, and `z`'s parent is Black. */
  lemma LiftRed<V>(t: RbTree<V>, z: nat, zpp: nat, d: Dir)
    requires StraightInv(t, z, zpp, d)
    ensures Lift(t, t.nodes[z].parent, zpp, d).Ok?
    ensures RedRedOnlyAt(Lift(t, t.nodes[z].parent, zpp, d).value, Ptr(z))
  {
    var s := Abs(t);
    var q := t.nodes[z].parent.index;
    LiftRedSetup(t, z, zpp, d);
    var n2 := Recolored(t, q, zpp).nodes;
    var n3 := Lift(t, t.nodes[z].parent, zpp, d).value.nodes;
    LinksInArena(t.nodes, s);
    forall j | j in Indices(Abs(Lift(t, t.nodes[z].parent, zpp, d).value)) && Ptr(j) != Ptr(z)
      ensures !RedUnderRed(n3, j)
    {
      assert j in Indices(s) && j < |t.nodes|;
      assert !RedUnderRed(t.nodes, j);
      ParentInside(t.nodes, s, Null, j);
      LiftRedAt(t.nodes, n2, n3, j, z, q, zpp, d);
    }
  }

  /** One node after case 3. */
  lemma LiftRedAt<V>(n0: seq<Node<V>>, n2: seq<Node<V>>, n3: seq<Node<V>>, j: nat, z: nat, q: nat, zpp: nat, d: Dir)
    requires LiftCtx(n0, n2, n3, z, q, zpp, d)
    requires j < |n0| && j != z && !RedUnderRed(n0, j)
    requires n0[j].parent == Ptr(zpp) ==> n0[zpp].left == Ptr(j) || n0[zpp].right == Ptr(j)
    ensures !RedUnderRed(n3, j)
  {
    assert Flip(Flip(d)) == d;
    if j != q && j != zpp && Ptr(j) != Child(n0[q], Flip(d)) {
      assert n3[j].parent == n0[j].parent;
    }
  }

  /** Case 3 ends the loop in a red-black tree. */
  lemma LiftKeeps<V>(t: RbTree<V>, z: nat, zpp: nat, d: Dir, fuel: nat)
    requires StraightInv(t, z, zpp, d)
    ensures Lift(t, t.nodes[z].parent, zpp, d).Ok?
    ensures InFixUp(Lift(t, t.nodes[z].parent, zpp, d).value, z, fuel, Repaired).Ok?
    ensures RedBlack(InFixUp(Lift(t, t.nodes[z].parent, zpp, d).value, z, fuel, Repaired).value)
  {
    LiftBalanced(t, z, zpp, d);
    LiftRed(t, z, zpp, d);
    LiftValid(t, z, zpp, d);
    LiftResult(t, z, zpp, d);
    var t3 := Lift(t, t.nodes[z].parent, zpp, d).value;
    ExitRedBlack(t3, z);
    InFixUpEnds(t3, z, fuel);
  }

  // ---------------------------------------------------------------- the loop

  /** When the loop stops, blackening the root leaves a red-black tree. */
  lemma ExitRedBlack<V>(t: RbTree<V>, z: nat)
    requires Valid(t) && z in Indices(Abs(t)) && z < |t.nodes| && Balanced(t.nodes, Abs(t)) && RedRedOnlyAt(t, Ptr(z))
    requires t.nodes[z].parent.Null? || (t.nodes[z].parent.index < |t.nodes| && t.nodes[t.nodes[z].parent.index].color != Red)
    ensures RedBlack(BlackenRoot(t))
  {
    var r := BlackenRoot(t);
    RecolorValid(t, r);
    ExitRed(t, z);
    NoRedRedByParents(r);
    ExitBalanced(t);
  }

  /** Blackening the root makes no node Red under a Red parent, given that only `z` could
      be and its parent is not Red. */
  lemma ExitRed<V>(t: RbTree<V>, z: nat)
    requires Valid(t) && z < |t.nodes| && RedRedOnlyAt(t, Ptr(z))
    requires t.nodes[z].parent.Null? || (t.nodes[z].parent.index < |t.nodes| && t.nodes[t.nodes[z].parent.index].color != Red)
    ensures RedRedOnlyAt(BlackenRoot(t), Null)
  {
    var r := BlackenRoot(t);
    assert r == SetColor(t, t.root, Black);
    RecolorValid(t, r);
    forall j | j in Indices(Abs(r)) ensures !RedUnderRed(r.nodes, j) {
      assert RedUnderRed(r.nodes, j) ==> RedUnderRed(t.nodes, j);
    }
  }

  /** Blackening the root keeps a balanced tree balanced. */
  lemma ExitBalanced<V>(t: RbTree<V>)
    requires Valid(t) && Balanced(t.nodes, Abs(t))
    ensures Balanced(BlackenRoot(t).nodes, Abs(BlackenRoot(t)))
  {
    var s := Abs(t);
    var r := BlackenRoot(t);
    assert r == SetColor(t, t.root, Black);
    RecolorValid(t, r);
    LinksInArena(t.nodes, s);
    BlackenBalanced(t.nodes, r.nodes, s);
  }

  /** The repaired loop ends in a red-black tree from any state that keeps its invariant,
      given fuel for the climb from `z` to the root. */
  lemma {:induction false} InFixUpKeepsColors<V>(t: RbTree<V>, z: nat, fuel: nat)
    requires FixUpInv(t, z) && Depth(Abs(t), z) <= fuel
    ensures InFixUp(t, z, fuel, Repaired).Ok? && RedBlack(InFixUp(t, z, fuel, Repaired).value)
    decreases fuel, 1
  {
    var zp := t.nodes[z].parent;
    if zp.Null? || t.nodes[zp.index].color != Red {
      InFixUpEnds(t, z, fuel);
      ExitRedBlack(t, z);
    } else {
      LoopSite(t, z, zp.index);
      var zpp := t.nodes[zp.index].parent.index;
      var d := if t.nodes[zpp].left == zp then Left else Right;
      if ColorOf(t.nodes, Child(t.nodes[zpp], Flip(d))) == Red {
        RedUncleKeepsColors(t, z, fuel, zp.index, zpp, d);
      } else {
        RestructureKeepsColors(t, z, fuel, zp.index, zpp, d);
      }
    }
  }

  /** A Red uncle: case 1, then the rest of the loop from the grandparent. */
  lemma {:induction false} RedUncleKeepsColors<V>(t: RbTree<V>, z: nat, fuel: nat, zp: nat, zpp: nat, d: Dir)
    requires FixUpInv(t, z) && fuel > 0
    requires t.nodes[z].parent == Ptr(zp) && zp < |t.nodes| && t.nodes[zp].color == Red && t.nodes[zp].parent == Ptr(zpp)
    requires zpp < |t.nodes| && d == (if t.nodes[zpp].left == Ptr(zp) then Left else Right) && Child(t.nodes[zpp], d) == Ptr(zp)
    requires Depth(Abs(t), zpp) + 2 == Depth(Abs(t), z) && Depth(Abs(t), z) <= fuel
    requires IsRed(t.nodes, Child(t.nodes[zpp], Flip(d)))
    ensures InFixUp(t, z, fuel, Repaired).Ok? && RedBlack(InFixUp(t, z, fuel, Repaired).value)
    decreases fuel, 0
  {
    var y := Child(t.nodes[zpp], Flip(d)).index;
    PushBlackKeeps(t, z, zp, zpp, d);
    LoopSite(t, z, zp);
    PushBlackValid(t, z, zp, y, zpp);
    var t' := PushBlack(t, zp, y, zpp);
    InFixUpKeepsColors(t', zpp, OneLess(fuel));
    UnfoldStep(t, z, fuel, zp, Repaired);
    assert FixStep(t, z, zp, Repaired) == Ok((t', zpp));
  }

  /** A Black uncle: cases 2 and 3 end the loop. */
  lemma RestructureKeepsColors<V>(t: RbTree<V>, z: nat, fuel: nat, zp: nat, zpp: nat, d: Dir)
    requires FixUpInv(t, z) && fuel > 0
    requires t.nodes[z].parent == Ptr(zp) && zp < |t.nodes| && t.nodes[zp].color == Red && t.nodes[zp].parent == Ptr(zpp)
    requires zpp < |t.nodes| && d == (if t.nodes[zpp].left == Ptr(zp) then Left else Right) && Child(t.nodes[zpp], d) == Ptr(zp)
    requires !IsRed(t.nodes, Child(t.nodes[zpp], Flip(d)))
    ensures InFixUp(t, z, fuel, Repaired).Ok? && RedBlack(InFixUp(t, z, fuel, Repaired).value)
  {
    StraightenKeeps(t, z, zp, zpp, d);
    var (t1, z1) := Straighten(t, z, zp, d);
    LiftKeeps(t1, z1, zpp, d, OneLess(fuel));
    RestructureIs(t, z, zp, zpp, d);
    FixStepRestructures(t, z, zp, zpp, d);
    UnfoldStep(t, z, fuel, zp, Repaired);
  }

  /** The repaired cases 2 and 3 are case 3 applied to the straightened tree. */
  lemma RestructureIs<V>(t: RbTree<V>, z: nat, zp: nat, zpp: nat, d: Dir)
    requires Closed(t) && z < |t.nodes| && zp < |t.nodes| && zpp < |t.nodes|
    requires
      var p := Straighten(t, z, zp, d);
      Lift(p.0, p.0.nodes[p.1].parent, zpp, d).Ok?
    ensures
      var p := Straighten(t, z, zp, d);
      Restructure(t, z, zp, zpp, d, Repaired) == Ok((Lift(p.0, p.0.nodes[p.1].parent, zpp, d).value, p.1))
  {
  }

  /** With a Black uncle, a step of the loop is cases 2 and 3. */
  lemma FixStepRestructures<V>(t: RbTree<V>, z: nat, zp: nat, zpp: nat, d: Dir)
    requires Closed(t) && z < |t.nodes| && zp < |t.nodes| && zpp < |t.nodes| && t.nodes[zp].parent == Ptr(zpp)
    requires d == (if t.nodes[zpp].left == Ptr(zp) then Left else Right)
    requires !IsRed(t.nodes, Child(t.nodes[zpp], Flip(d)))
    ensures FixStep(t, z, zp, Repaired) == Restructure(t, z, zp, zpp, d, Repaired)
  {
  }

  // ---------------------------------------------------------------- insert

  /** Attaching the Red node to a red-black tree establishes the loop's invariant. */
  lemma AttachKeeps<V>(t: RbTree<V>, k: int, v: V)
    requires Valid(t) && RedBlack(t)
    ensures FixUpInv(Attach(t, k, v), |t.nodes|)
  {
    AttachValid(t, k, v);
    AttachColors(t, k, v);
    AttachBalanced(t, k, v);
    AttachRed(t, k, v);
  }

  /** The attachment recolours nothing and relinks no parent; the new node is Red. */
  lemma AttachColors<V>(t: RbTree<V>, k: int, v: V)
    requires WellLinked(t)
    ensures
      var a := Attach(t, k, v).nodes;
      && a[|t.nodes|].color == Red
      && forall j :: 0 <= j < |t.nodes| ==> a[j].color == t.nodes[j].color && a[j].parent == t.nodes[j].parent
  {
    var q := InsertionParent(t.nodes, t.root, Null, k, Abs(t));
    assert Attach(t, k, v).nodes == AttachArena(t.nodes, q, k, v);
  }

  /** The Red leaf leaves every path's count as it was. */
  lemma AttachBalanced<V>(t: RbTree<V>, k: int, v: V)
    requires Valid(t) && RedBlack(t)
    ensures Balanced(Attach(t, k, v).nodes, Abs(Attach(t, k, v)))
  {
    var s := Abs(t);
    var a := Attach(t, k, v);
    AttachValid(t, k, v);
    AttachColors(t, k, v);
    LinksInArena(t.nodes, s);
    InsertPaths(t.nodes, a.nodes, s, k, |t.nodes|, BlackHeight(t.nodes, s));
    PathsHeight(a.nodes, Abs(a), BlackHeight(t.nodes, s));
  }

  /** Only the new node may be Red under a Red parent. */
  lemma AttachRed<V>(t: RbTree<V>, k: int, v: V)
    requires Valid(t) && RedBlack(t)
    ensures RedRedOnlyAt(Attach(t, k, v), Ptr(|t.nodes|))
  {
    var s := Abs(t);
    var a := Attach(t, k, v);
    var n := |t.nodes|;
    AttachValid(t, k, v);
    AttachColors(t, k, v);
    InsertShapeIndices(t.nodes, s, k, n);
    NoRedRedByParents(t);
    KeptRed(t.nodes, a.nodes, s);
  }

  /** Nodes that keep their colours and parents, below parents that keep their colours,
      stay clear of the Red rule. */
  lemma KeptRed<V>(n0: seq<Node<V>>, n1: seq<Node<V>>, s: Shape)
    requires Wf(n0, s, Null) && |n0| <= |n1|
    requires forall j :: j in Indices(s) ==> !RedUnderRed(n0, j)
    requires forall j :: 0 <= j < |n0| ==> n1[j].color == n0[j].color && n1[j].parent == n0[j].parent
    ensures forall j :: j in Indices(s) ==> !RedUnderRed(n1, j)
  {
    forall j | j in Indices(s) ensures !RedUnderRed(n1, j) {
      ParentInside(n0, s, Null, j);
    }
  }

  /** The repaired `insert` takes a red-black tree to a red-black tree: no Red node with a
      Red child, and as many Black nodes on every path, with a Black root. */
  lemma InsertKeepsRedBlack<V>(t: RbTree<V>, k: int, v: V)
    requires Valid(t) && RedBlack(t)
    ensures Insert(t, k, v, Repaired).Ok? && RedBlack(Insert(t, k, v, Repaired).value)
  {
    var a := Attach(t, k, v);
    AttachKeeps(t, k, v);
    DepthBound(a.nodes, Abs(a), |t.nodes|);
    InFixUpKeepsColors(a, |t.nodes|, |a.nodes|);
  }
}
