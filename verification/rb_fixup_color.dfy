/**
  The colour rules kept by the repaired `delete_fixup` (src/rb_tree.rs:418-521). When a
  Black node leaves the tree, the paths through the place it vacated pass one Black node
  fewer than the others. The loop keeps that slot, side `d` of node `p`, as its state and
  keeps the textbook invariant: the tree is valid; every path through the slot is one
  Black node short; no node is Red under a Red parent, except next to the node `x` in the
  slot; and the root is Black unless `x` is the root. Case 1 turns a Red sibling into a Black
  one, case 2 moves the shortfall one level up, and cases 3 and 4 remove it.
 */
module RbFixupColor {
  import opened RbArena
  import opened RbShape
  import opened RbRotate
  import opened RbDelete
  import opened RbFixup
  import opened RbColor
  import opened RbPaths
  import opened RbInsertColor

  /** No node of `s` is Red under a Red parent. */
  ghost predicate NoRedUnderRed<V>(nodes: seq<Node<V>>, s: Shape) {
    forall j :: j in Indices(s) ==> !RedUnderRed(nodes, j)
  }

  /** Only `x`, or a child of `x`, may be Red under a Red parent. */
  ghost predicate RedRedNear<V>(t: RbTree<V>, x: Ptr) {
    forall j :: j in Indices(Abs(t)) && RedUnderRed(t.nodes, j) ==> Ptr(j) == x || t.nodes[j].parent == x
  }

  /** The paths through the slot on side `d` of `p` pass one Black node fewer than the
      others: around `p` the rest of the tree counts `h` for the whole tree, and `p`'s slot
      side counts one less than its other side. With no `p` the tree is balanced. */
  ghost predicate Short<V>(nodes: seq<Node<V>>, s: Shape, p: Ptr, d: Dir, h: int) {
    if p.Null? then Balanced(nodes, s)
    else
      var k := Below(nodes, s, h, p.index);
      && Sub(s, p.index).Branch?
      && Around(nodes, s, h, p.index, k)
      && BlackPaths(nodes, Side(Sub(s, p.index), d), k - Blackness(nodes, p.index) - 1)
      && BlackPaths(nodes, Side(Sub(s, p.index), Flip(d)), k - Blackness(nodes, p.index))
  }

  /** The invariant of the repaired loop at the slot on side `d` of `p`. */
  ghost predicate FixInv<V>(t: RbTree<V>, p: Ptr, d: Dir, h: int) {
    && Valid(t) && SlotIn(t, p)
    && Settled(t, SlotChild(t, p, d))
    && RedRedNear(t, SlotChild(t, p, d))
    && Short(t.nodes, Abs(t), p, d, h)
  }

  /** Enough fuel for the climb: while the loop goes on, `p` lies less than `fuel` deep. */
  ghost predicate Fueled<V>(t: RbTree<V>, p: Ptr, d: Dir, fuel: nat)
    requires Closed(t) && InArena(t.nodes, p)
  {
    var x := SlotChild(t, p, d);
    ColorOf(t.nodes, x) == Black && x != t.root ==> p.Ptr? && Depth(Abs(t), p.index) < fuel
  }

  /** The loop may go on from the outcome `r` of an iteration: it succeeded, and the
      invariant and the fuel bound hold at the slot it gives. */
  ghost predicate Continues<V>(r: Result<(RbTree<V>, Ptr, Dir)>, h: int, fuel: nat) {
    && r.Ok? && Closed(r.value.0) && InArena(r.value.0.nodes, r.value.1)
    && FixInv(r.value.0, r.value.1, r.value.2, h) && Fueled(r.value.0, r.value.1, r.value.2, fuel)
  }

  // ---------------------------------------------------------------- facts about a slot

  /** With a Black node in the slot, no node at all is Red under a Red parent. */
  lemma NearBlack<V>(t: RbTree<V>, x: Ptr)
    requires Closed(t) && InArena(t.nodes, x) && RedRedNear(t, x) && ColorOf(t.nodes, x) == Black
    ensures NoRedUnderRed(t.nodes, Abs(t))
  {
  }

  /** The slot of a node holds one of its children, never the root. */
  lemma SlotNotRoot<V>(t: RbTree<V>, p: nat, d: Dir)
    requires Linked(t) && p in Indices(Abs(t)) && p < |t.nodes|
    ensures SlotChild(t, Ptr(p), d) != t.root
  {
    var x := Child(t.nodes[p], d);
    if x.Ptr? {
      ChildIn(t, p, d);
      RootHasNoParent(t, x.index);
    }
  }

  /** The subtree at the slot's node `p`, seen through the arena. */
  lemma SlotSub<V>(t: RbTree<V>, p: nat)
    requires Linked(t) && p in Indices(Abs(t)) && p < |t.nodes|
    ensures Distinct(Abs(t)) && Sub(Abs(t), p).Branch? && Sub(Abs(t), p).index == p
    ensures Links(t.nodes, Sub(Abs(t), p)) && Indices(Sub(Abs(t), p)) <= Indices(Abs(t))
    ensures forall e :: Child(t.nodes[p], e) == Root(Side(Sub(Abs(t), p), e))
  {
    LinksDistinct(t.nodes, Abs(t));
    SubInside(Abs(t), p);
    SubLinks(t.nodes, Abs(t), p);
  }

  // ---------------------------------------------------------------- leaving the loop

  /** Painting the node in the slot Black ends the loop in a red-black tree, when it is the
      root or Red. */
  lemma ExitKeeps<V>(t: RbTree<V>, p: Ptr, d: Dir, h: int)
    requires FixInv(t, p, d, h)
    requires SlotChild(t, p, d) == t.root || ColorOf(t.nodes, SlotChild(t, p, d)) != Black
    ensures RedBlack(SetColor(t, SlotChild(t, p, d), Black))
  {
    var x := SlotChild(t, p, d);
    var r := SetColor(t, x, Black);
    RecolorValid(t, r);
    assert Balanced(r.nodes, Abs(r)) by { ExitBalanced(t, p, d, h); }
    ExitNoRedRed(t, x);
  }

  /** The paths of the tree the loop leaves are balanced. */
  lemma ExitBalanced<V>(t: RbTree<V>, p: Ptr, d: Dir, h: int)
    requires FixInv(t, p, d, h)
    requires SlotChild(t, p, d) == t.root || ColorOf(t.nodes, SlotChild(t, p, d)) != Black
    ensures Balanced(SetColor(t, SlotChild(t, p, d), Black).nodes, Abs(t))
  {
    var r := SetColor(t, SlotChild(t, p, d), Black);
    var s := Abs(t);
    LinksInArena(t.nodes, s);
    if p.Null? {
      BlackenBalanced(t.nodes, r.nodes, s);
    } else {
      SlotNotRoot(t, p.index, d);
      ExitPaths(t, p.index, d, h);
    }
  }

  /** Painting the slot's node Black leaves no Red node under a Red parent. */
  lemma ExitNoRedRed<V>(t: RbTree<V>, x: Ptr)
    requires Valid(t) && InArena(t.nodes, x) && RedRedNear(t, x)
    ensures NoRedRed(SetColor(t, x, Black))
  {
    var r := SetColor(t, x, Black);
    RecolorValid(t, r);
    var s := Abs(t);
    forall j | j in Indices(s) ensures !RedUnderRed(r.nodes, j) {
      BlackenedNotUnder(t, x, j);
    }
    NoRedRedByParents(r);
  }

  /** A node Red under a Red parent only at `x` or below it is not so once `x` is Black. */
  lemma BlackenedNotUnder<V>(t: RbTree<V>, x: Ptr, j: nat)
    requires Closed(t) && InArena(t.nodes, x)
    requires RedUnderRed(t.nodes, j) ==> Ptr(j) == x || t.nodes[j].parent == x
    ensures !RedUnderRed(SetColor(t, x, Black).nodes, j)
  {
    var r := SetColor(t, x, Black);
    assert RedUnderRed(r.nodes, j) ==> RedUnderRed(t.nodes, j);
  }

  /** Blackening the Red node in a short slot makes up the missing Black node. */
  lemma ExitPaths<V>(t: RbTree<V>, p: nat, d: Dir, h: int)
    requires FixInv(t, Ptr(p), d, h)
    requires IsRed(t.nodes, SlotChild(t, Ptr(p), d))
    ensures Balanced(SetColor(t, SlotChild(t, Ptr(p), d), Black).nodes, Abs(t))
  {
    var x := SlotChild(t, Ptr(p), d);
    SlotSub(t, p);
    assert Root(Side(Sub(Abs(t), p), d)) == x;
    Blackened(t, x);
    ShortBlacken(t.nodes, SetColor(t, x, Black).nodes, Abs(t), p, d, h);
    PathsHeight(SetColor(t, x, Black).nodes, Abs(t), h);
  }

  /** Blackening a Red node changes the count of that node alone. */
  lemma Blackened<V>(t: RbTree<V>, x: Ptr)
    requires Closed(t) && InArena(t.nodes, x) && IsRed(t.nodes, x)
    ensures Blackness(t.nodes, x.index) == 0 && Blackness(SetColor(t, x, Black).nodes, x.index) == 1
    ensures forall j :: j != x.index ==> Blackness(SetColor(t, x, Black).nodes, j) == Blackness(t.nodes, j)
  {
  }

  /** The arena side of `ExitPaths`. */
  lemma ShortBlacken<V>(n0: seq<Node<V>>, n1: seq<Node<V>>, s: Shape, p: nat, d: Dir, h: int)
    requires Distinct(s) && p in Indices(s) && Short(n0, s, Ptr(p), d, h)
    requires Side(Sub(s, p), d).Branch?
    requires Blackness(n0, Side(Sub(s, p), d).index) == 0 && Blackness(n1, Side(Sub(s, p), d).index) == 1
    requires forall j :: j in Indices(s) && j != Side(Sub(s, p), d).index ==> Blackness(n1, j) == Blackness(n0, j)
    ensures BlackPaths(n1, s, h)
  {
    SubInside(s, p);
    SubDistinct(s, p);
    var P := Sub(s, p);
    var k := Below(n0, s, h, p);
    BlackenSide(n0, n1, P, d, k);
    assert forall j :: j in Outside(s, p) ==> Blackness(n1, j) == Blackness(n0, j);
    AroundFrame(n0, n1, s, h, p, k);
    AroundJoin(n1, s, h, p, k, P);
    ReplaceSelf(s, p);
  }

  /** A branch whose side `d` is one Black node short, with a Red root there that turns
      Black, has every path count `k`. */
  lemma BlackenSide<V>(n0: seq<Node<V>>, n1: seq<Node<V>>, P: Shape, d: Dir, k: int)
    requires Distinct(P) && P.Branch? && Side(P, d).Branch?
    requires BlackPaths(n0, Side(P, d), k - Blackness(n0, P.index) - 1)
    requires BlackPaths(n0, Side(P, Flip(d)), k - Blackness(n0, P.index))
    requires Blackness(n0, Side(P, d).index) == 0 && Blackness(n1, Side(P, d).index) == 1
    requires forall j :: j in Indices(P) && j != Side(P, d).index ==> Blackness(n1, j) == Blackness(n0, j)
    ensures BlackPaths(n1, P, k)
  {
    var b := Blackness(n0, P.index);
    var X, W := Side(P, d), Side(P, Flip(d));
    SidesOf(P, d);
    assert Indices(X) <= Indices(P) && Indices(W) <= Indices(P);
    assert P.index !in Indices(X) && P.index !in Indices(W);
    assert BlackPaths(n1, X, k - b) by {
      assert X.index !in Indices(X.left) && X.index !in Indices(X.right);
      PathsFrame(n0, n1, X.left, k - b - 1);
      PathsFrame(n0, n1, X.right, k - b - 1);
    }
    assert BlackPaths(n1, W, k - b) by {
      assert X.index in Indices(X) && X.index !in Indices(W);
      PathsFrame(n0, n1, W, k - b);
    }
    assert Blackness(n1, P.index) == b;
    PathsBranchD(n1, d, X, P.index, W, k);
  }

  // ---------------------------------------------------------------- case 2

  /** Case 2 on the arena: the Black sibling turning Red makes `p`'s whole subtree one
      Black node short, the rest of the tree unchanged around it. */
  lemma BothBlackPaths<V>(n0: seq<Node<V>>, n1: seq<Node<V>>, s: Shape, p: nat, d: Dir, h: int)
    requires Distinct(s) && p in Indices(s) && Short(n0, s, Ptr(p), d, h)
    requires Side(Sub(s, p), Flip(d)).Branch?
    requires Blackness(n0, Side(Sub(s, p), Flip(d)).index) == 1 && Blackness(n1, Side(Sub(s, p), Flip(d)).index) == 0
    requires forall j :: j in Indices(s) && j != Side(Sub(s, p), Flip(d)).index ==> Blackness(n1, j) == Blackness(n0, j)
    ensures Around(n1, s, h, p, Below(n0, s, h, p)) && BlackPaths(n1, Sub(s, p), Below(n0, s, h, p) - 1)
  {
    SubInside(s, p);
    SubDistinct(s, p);
    var P := Sub(s, p);
    var k := Below(n0, s, h, p);
    var b := Blackness(n0, p);
    var X, W := Side(P, d), Side(P, Flip(d));
    SidesOf(P, d);
    assert W.index in Indices(W);
    assert Indices(X) <= Indices(P) && Indices(W) <= Indices(P);
    assert P.index !in Indices(X) && P.index !in Indices(W) && W.index !in Indices(X);
    assert W.index !in Indices(W.left) && W.index !in Indices(W.right);
    PathsFrame(n0, n1, W.left, k - b - 1);
    PathsFrame(n0, n1, W.right, k - b - 1);
    PathsFrame(n0, n1, X, k - b - 1);
    assert Blackness(n1, p) == b;
    PathsBranchD(n1, d, X, p, W, k - 1);
    assert forall j :: j in Outside(s, p) ==> Blackness(n1, j) == Blackness(n0, j);
    AroundFrame(n0, n1, s, h, p, k);
  }

  /** Case 2 in the tree: the slot `p` fills is next, one Black node short, and `p`, now
      in the slot, may be Red over the Red sibling. */
  lemma BothBlackKeeps<V>(t: RbTree<V>, p: nat, d: Dir, h: int, w: nat)
    requires FixInv(t, Ptr(p), d, h) && ColorOf(t.nodes, SlotChild(t, Ptr(p), d)) == Black
    requires Child(t.nodes[p], Flip(d)) == Ptr(w) && t.nodes[w].color == Black
    requires ColorOf(t.nodes, t.nodes[w].left) == Black && ColorOf(t.nodes, t.nodes[w].right) == Black
    ensures SlotBlackSibling(t, p, w, d).Ok?
    ensures var r := SlotBlackSibling(t, p, w, d).value;
      && FixInv(r.0, r.1, r.2, h) && SlotChild(r.0, r.1, r.2) == Ptr(p) && r.1 == t.nodes[p].parent
      && r.0.nodes[p].color == t.nodes[p].color && Abs(r.0) == Abs(t)
  {
    var s := Abs(t);
    var t1 := SetColor(t, Ptr(w), Red);
    var up := SlotOf(t1.nodes, p);
    assert SlotBlackSibling(t, p, w, d) == Ok((t1, up.0, up.1));
    assert Valid(t1) && Abs(t1) == s by {
      RecolorReshapes(t, Ptr(w), Red);
    }
    assert t1.nodes[p].color == t.nodes[p].color by {
      SlotSub(t, p);
      DistinctChildren(t.nodes, s, Null, p);
    }
    assert SlotIn(t1, up.0) && Short(t1.nodes, s, up.0, up.1, h) && SlotChild(t1, up.0, up.1) == Ptr(p) by {
      BothBlackSlot(t, t1, p, d, h, w);
    }
    assert RedRedNear(t1, Ptr(p)) by {
      NearBlack(t, SlotChild(t, Ptr(p), d));
      BothBlackRed(t, t1, p, d, w);
    }
    assert RootBlack(t1) by {
      BothBlackRoot(t, t1, p, d, h, w);
    }
  }

  /** Case 2 keeps the root Black: the sibling it recolours is not the root. */
  lemma BothBlackRoot<V>(t: RbTree<V>, t1: RbTree<V>, p: nat, d: Dir, h: int, w: nat)
    requires FixInv(t, Ptr(p), d, h) && Child(t.nodes[p], Flip(d)) == Ptr(w) && w < |t.nodes|
    requires t1 == SetColor(t, Ptr(w), Red)
    ensures RootBlack(t1)
  {
    SlotNotRoot(t, p, d);
    ChildIn(t, p, Flip(d));
    RootHasNoParent(t, w);
  }

  /** After case 2 the slot `p` fills is next, one Black node short. */
  lemma BothBlackSlot<V>(t: RbTree<V>, t1: RbTree<V>, p: nat, d: Dir, h: int, w: nat)
    requires Linked(t) && Linked(t1) && Abs(t1) == Abs(t)
    requires p in Indices(Abs(t)) && p < |t.nodes| && Short(t.nodes, Abs(t), Ptr(p), d, h)
    requires Child(t.nodes[p], Flip(d)) == Ptr(w) && t.nodes[w].color == Black
    requires |t1.nodes| == |t.nodes| && t1.nodes[w].color == Red
    requires forall i :: 0 <= i < |t.nodes| && i != w ==> t1.nodes[i].color == t.nodes[i].color
    ensures var up := SlotOf(t1.nodes, p);
      SlotIn(t1, up.0) && Short(t1.nodes, Abs(t1), up.0, up.1, h) && SlotChild(t1, up.0, up.1) == Ptr(p)
  {
    BothBlackShort(t, t1.nodes, p, d, h, w);
    BothBlackMove(t1, p, h, Below(t.nodes, Abs(t), h, p));
  }

  /** The counts after case 2, before the slot moves up. */
  lemma BothBlackShort<V>(t: RbTree<V>, n1: seq<Node<V>>, p: nat, d: Dir, h: int, w: nat)
    requires Linked(t) && p in Indices(Abs(t)) && p < |t.nodes| && Short(t.nodes, Abs(t), Ptr(p), d, h)
    requires Child(t.nodes[p], Flip(d)) == Ptr(w) && t.nodes[w].color == Black
    requires |n1| == |t.nodes| && n1[w].color == Red
    requires forall i :: 0 <= i < |t.nodes| && i != w ==> n1[i].color == t.nodes[i].color
    ensures Around(n1, Abs(t), h, p, Below(t.nodes, Abs(t), h, p))
    ensures BlackPaths(n1, Sub(Abs(t), p), Below(t.nodes, Abs(t), h, p) - 1)
  {
    var s := Abs(t);
    SlotSub(t, p);
    assert Side(Sub(s, p), Flip(d)).Branch? && Side(Sub(s, p), Flip(d)).index == w;
    assert Blackness(t.nodes, w) == 1 && Blackness(n1, w) == 0;
    BothBlackPaths(t.nodes, n1, s, p, d, h);
  }

  /** The slot a node `p` fills, in a linked tree: the root slot, or side `e` of its parent. */
  lemma UpSlot<V>(t: RbTree<V>, p: nat)
    requires Linked(t) && p in Indices(Abs(t)) && p < |t.nodes|
    ensures var q := t.nodes[p].parent;
      var e := if IsLeftChild(t.nodes, p) then Left else Right;
      && (q.Null? ==> Abs(t).index == p && t.root == Ptr(p))
      && (q.Ptr? ==>
            && q.index in Indices(Abs(t)) && q.index < |t.nodes| && Sub(Abs(t), q.index).Branch?
            && Side(Sub(Abs(t), q.index), e).Branch? && Side(Sub(Abs(t), q.index), e).index == p
            && Child(t.nodes[q.index], e) == Ptr(p) && Depth(Abs(t), q.index) + 1 == Depth(Abs(t), p))
  {
    var s := Abs(t);
    ParentInside(t.nodes, s, Null, p);
    var q := t.nodes[p].parent;
    if q.Ptr? {
      DepthParent(t.nodes, s, Null, p);
      SlotSub(t, q.index);
    }
  }

  /** After case 2 the loop moves to the slot `p` fills. */
  lemma BothBlackMove<V>(t1: RbTree<V>, p: nat, h: int, k: int)
    requires Linked(t1) && p in Indices(Abs(t1)) && p < |t1.nodes|
    requires Around(t1.nodes, Abs(t1), h, p, k) && BlackPaths(t1.nodes, Sub(Abs(t1), p), k - 1)
    ensures var up := SlotOf(t1.nodes, p);
      SlotIn(t1, up.0) && Short(t1.nodes, Abs(t1), up.0, up.1, h) && SlotChild(t1, up.0, up.1) == Ptr(p)
  {
    var s := Abs(t1);
    UpSlot(t1, p);
    LinksDistinct(t1.nodes, s);
    var up := SlotOf(t1.nodes, p);
    BothBlackUp(t1.nodes, s, p, up.0, up.1, h, k);
  }

  /** After case 2 the slot `p` fills is one Black node short. */
  lemma BothBlackUp<V>(n1: seq<Node<V>>, s: Shape, p: nat, q: Ptr, e: Dir, h: int, k: int)
    requires Distinct(s) && p in Indices(s)
    requires Around(n1, s, h, p, k) && BlackPaths(n1, Sub(s, p), k - 1)
    requires q.Null? ==> s.Branch? && s.index == p
    requires q.Ptr? ==>
      q.index in Indices(s) && Sub(s, q.index).Branch? && Side(Sub(s, q.index), e).Branch? && Side(Sub(s, q.index), e).index == p
    ensures Short(n1, s, q, e, h)
  {
    if q.Null? {
      AroundBelow(n1, s, h, p, k);
      PathsHeight(n1, s, k - 1);
    } else {
      SubChild(s, q.index, e);
      AroundUp(n1, s, h, q.index, e, k);
      AroundBelow(n1, s, h, q.index, k + Blackness(n1, q.index));
    }
  }

  /** After case 2 only the sibling, now Red, may be Red under a Red parent, and that parent is `p`. */
  lemma BothBlackRed<V>(t: RbTree<V>, t1: RbTree<V>, p: nat, d: Dir, w: nat)
    requires Valid(t) && Abs(t1) == Abs(t) && |t1.nodes| == |t.nodes|
    requires forall i :: 0 <= i < |t.nodes| ==> SameLinks(t1.nodes[i], t.nodes[i])
    requires forall i :: 0 <= i < |t.nodes| && i != w ==> t1.nodes[i].color == t.nodes[i].color
    requires p in Indices(Abs(t)) && p < |t.nodes| && Child(t.nodes[p], Flip(d)) == Ptr(w) && w < |t.nodes|
    requires NoRedUnderRed(t.nodes, Abs(t))
    requires ColorOf(t.nodes, t.nodes[w].left) == Black && ColorOf(t.nodes, t.nodes[w].right) == Black
    ensures RedRedNear(t1, Ptr(p))
  {
    var s := Abs(t);
    ChildLinkIsParent(t.nodes, s, Null, p, w);
    forall j | j in Indices(s) && j != w ensures !RedUnderRed(t1.nodes, j) {
      ParentInside(t.nodes, s, Null, j);
      assert !RedUnderRed(t.nodes, j);
    }
  }

  // ---------------------------------------------------------------- case 1: a Red sibling

  /** Case 1 on the arena, inside the subtree of `p`: the Red sibling `w` turns Black and
      the Black `p` turns Red. `w`'s near child exists, and the three subtrees the rotation
      moves keep their counts. */
  lemma RedCaseInside<V>(n0: seq<Node<V>>, n3: seq<Node<V>>, P: Shape, d: Dir, k: int, w: nat)
    requires Links(n0, P) && P.Branch? && Side(P, Flip(d)).Branch? && Side(P, Flip(d)).index == w && w < |n0|
    requires BlackPaths(n0, Side(P, d), k - 2) && BlackPaths(n0, Side(P, Flip(d)), k - 1) && Blackness(n0, w) == 0
    requires forall j :: j in Indices(P) && j != P.index && j != w ==> Blackness(n3, j) == Blackness(n0, j)
    ensures var W := Side(P, Flip(d));
      && Side(W, d).Branch? && Child(n0[w], d) == Root(Side(W, d))
      && BlackPaths(n3, Side(P, d), k - 2)
      && BlackPaths(n3, Side(W, d), k - 1) && BlackPaths(n3, Side(W, Flip(d)), k - 1)
  {
    var p := P.index;
    var X, W := Side(P, d), Side(P, Flip(d));
    var WN, WF := Side(W, d), Side(W, Flip(d));
    SidesOf(W, d);
    assert BlackPaths(n0, WN, k - 1) && BlackPaths(n0, WF, k - 1);
    PathsNonNeg(n0, X, k - 2);
    assert WN.Branch?;
    assert Links(n0, W) && Child(n0[w], d) == Root(WN);
    SidesApart(n0, P, d);
    PathsFrameApart(n0, n3, X, k - 2, Indices(P), p, w);
    PathsFrameApart(n0, n3, WN, k - 1, Indices(P), p, w);
    PathsFrameApart(n0, n3, WF, k - 1, Indices(P), p, w);
  }

  /** Case 1 on the arena, above `p`: the recolouring leaves the rest of the tree as it was. */
  lemma RedCaseFrames<V>(n0: seq<Node<V>>, n3: seq<Node<V>>, s: Shape, p: nat, d: Dir, h: int, w: nat, k: int)
    requires Links(n0, s) && p in Indices(s) && w < |n0| && Around(n0, s, h, p, k)
    requires Sub(s, p).Branch? && Side(Sub(s, p), Flip(d)).Branch? && Side(Sub(s, p), Flip(d)).index == w
    requires BlackPaths(n0, Side(Sub(s, p), d), k - 2) && BlackPaths(n0, Side(Sub(s, p), Flip(d)), k - 1)
    requires Blackness(n0, w) == 0
    requires forall j :: j in Indices(s) && j != p && j != w ==> Blackness(n3, j) == Blackness(n0, j)
    ensures Side(Side(Sub(s, p), Flip(d)), d).Branch? && Child(n0[w], d) == Root(Side(Side(Sub(s, p), Flip(d)), d))
    ensures w !in Outside(s, p) && Around(n3, s, h, p, k)
    ensures BlackPaths(n3, Side(Sub(s, p), d), k - 2)
    ensures BlackPaths(n3, Side(Side(Sub(s, p), Flip(d)), d), k - 1)
    ensures BlackPaths(n3, Side(Side(Sub(s, p), Flip(d)), Flip(d)), k - 1)
  {
    SubLinks(n0, s, p);
    RedCaseInside(n0, n3, Sub(s, p), d, k, w);
    RedCaseOutside(n0, n3, s, p, d, h, w, k);
  }

  /** Case 1 above `p`: the recolouring touches no node outside the subtree at `p`. */
  lemma RedCaseOutside<V>(n0: seq<Node<V>>, n3: seq<Node<V>>, s: Shape, p: nat, d: Dir, h: int, w: nat, k: int)
    requires Links(n0, s) && p in Indices(s) && Around(n0, s, h, p, k)
    requires Sub(s, p).Branch? && Side(Sub(s, p), Flip(d)).Branch? && Side(Sub(s, p), Flip(d)).index == w
    requires forall j :: j in Indices(s) && j != p && j != w ==> Blackness(n3, j) == Blackness(n0, j)
    ensures w !in Outside(s, p) && Around(n3, s, h, p, k)
  {
    var P := Sub(s, p);
    LinksDistinct(n0, s);
    SubInside(s, p);
    assert w in Indices(Side(P, Flip(d)));
    assert forall j :: j in Outside(s, p) ==> Blackness(n3, j) == Blackness(n0, j);
    AroundFrame(n0, n3, s, h, p, k);
  }

  /** Case 1 on the arena, around the rotated subtree `R`: `w` on top, Black, and `p` below
      it on side `d`, Red, over the slot's side `X` and the new sibling `WN`. */
  lemma RedCaseAround<V>(n3: seq<Node<V>>, s: Shape, p: nat, d: Dir, h: int, k: int, R: Shape, X: Shape, w: nat, WN: Shape, WF: Shape)
    requires Distinct(s) && p in Indices(s) && Around(n3, s, h, p, k)
    requires R == BranchD(d, BranchD(d, X, p, WN), w, WF) && w !in Outside(s, p)
    requires Distinct(Replace(s, p, R))
    requires Blackness(n3, p) == 0 && Blackness(n3, w) == 1
    requires BlackPaths(n3, X, k - 2) && BlackPaths(n3, WN, k - 1) && BlackPaths(n3, WF, k - 1)
    ensures Short(n3, Replace(s, p, R), Ptr(p), d, h)
  {
    var s3 := Replace(s, p, R);
    AroundReplace(n3, s, h, p, k, R);
    SubReplaceAt(s, p, R);
    AroundBelow(n3, s3, h, w, k);
    AroundDown(n3, s3, h, w, d, k);
    SubChild(s3, w, d);
    AroundBelow(n3, s3, h, p, k - 1);
  }

  /** A short slot under a Black `p`, with the counts written out. */
  lemma ShortBelowBlack<V>(n0: seq<Node<V>>, s: Shape, p: nat, d: Dir, h: int)
    requires p < |n0| && n0[p].color == Black && Short(n0, s, Ptr(p), d, h)
    ensures Around(n0, s, h, p, Below(n0, s, h, p))
    ensures BlackPaths(n0, Side(Sub(s, p), d), Below(n0, s, h, p) - 2)
    ensures BlackPaths(n0, Side(Sub(s, p), Flip(d)), Below(n0, s, h, p) - 1)
  {
    assert Blackness(n0, p) == 1;
  }

  /** Case 1 on the arena: the slot on side `d` of `p` keeps its shortfall after the
      rotation, and `w`'s near child, which exists, is the new sibling. */
  lemma RedCasePaths<V>(n0: seq<Node<V>>, n3: seq<Node<V>>, s: Shape, p: nat, d: Dir, h: int, w: nat)
    requires Links(n0, s) && p in Indices(s) && p < |n0| && w < |n0| && |n3| == |n0| && Short(n0, s, Ptr(p), d, h)
    requires Sub(s, p).Branch? && Side(Sub(s, p), Flip(d)).Branch? && Side(Sub(s, p), Flip(d)).index == w
    requires Distinct(Replace(s, p, Rotated(Sub(s, p), d)))
    requires n0[p].color == Black && n0[w].color == Red && n3[p].color == Red && n3[w].color == Black
    requires forall i :: 0 <= i < |n0| && i != p && i != w ==> n3[i].color == n0[i].color
    ensures Child(n0[w], d).Ptr? && Short(n3, Replace(s, p, Rotated(Sub(s, p), d)), Ptr(p), d, h)
  {
    var k := Below(n0, s, h, p);
    RedCaseRecolored(n0, n3, s, p, d, h, w, k);
    assert Blackness(n3, p) == 0 && Blackness(n3, w) == 1;
    RedCaseRotated(n0, n3, s, p, d, h, w, k);
  }

  /** Case 1 on the arena before the rotation: the counts the recolouring leaves around `p`. */
  lemma RedCaseRecolored<V>(n0: seq<Node<V>>, n3: seq<Node<V>>, s: Shape, p: nat, d: Dir, h: int, w: nat, k: int)
    requires Links(n0, s) && p in Indices(s) && p < |n0| && w < |n0| && |n3| == |n0| && Short(n0, s, Ptr(p), d, h)
    requires k == Below(n0, s, h, p)
    requires Sub(s, p).Branch? && Side(Sub(s, p), Flip(d)).Branch? && Side(Sub(s, p), Flip(d)).index == w
    requires n0[p].color == Black && n0[w].color == Red
    requires forall i :: 0 <= i < |n0| && i != p && i != w ==> n3[i].color == n0[i].color
    ensures Side(Side(Sub(s, p), Flip(d)), d).Branch? && Child(n0[w], d) == Root(Side(Side(Sub(s, p), Flip(d)), d))
    ensures w !in Outside(s, p) && Around(n3, s, h, p, k)
    ensures BlackPaths(n3, Side(Sub(s, p), d), k - 2)
    ensures BlackPaths(n3, Side(Side(Sub(s, p), Flip(d)), d), k - 1)
    ensures BlackPaths(n3, Side(Side(Sub(s, p), Flip(d)), Flip(d)), k - 1)
  {
    ShortBelowBlack(n0, s, p, d, h);
    BlacknessKept(n0, n3, p, w);
    RedCaseFrames(n0, n3, s, p, d, h, w, k);
  }

  /** Case 1 on the arena, once the counts around `p` are known: the rotated subtree
      leaves the slot short by one. */
  lemma RedCaseRotated<V>(n0: seq<Node<V>>, n3: seq<Node<V>>, s: Shape, p: nat, d: Dir, h: int, w: nat, k: int)
    requires Links(n0, s) && p in Indices(s) && Around(n3, s, h, p, k) && w !in Outside(s, p)
    requires Sub(s, p).Branch? && Side(Sub(s, p), Flip(d)).Branch? && Side(Sub(s, p), Flip(d)).index == w
    requires Distinct(Replace(s, p, Rotated(Sub(s, p), d)))
    requires Blackness(n3, p) == 0 && Blackness(n3, w) == 1
    requires BlackPaths(n3, Side(Sub(s, p), d), k - 2)
    requires BlackPaths(n3, Side(Side(Sub(s, p), Flip(d)), d), k - 1)
    requires BlackPaths(n3, Side(Side(Sub(s, p), Flip(d)), Flip(d)), k - 1)
    ensures Short(n3, Replace(s, p, Rotated(Sub(s, p), d)), Ptr(p), d, h)
  {
    var P := Sub(s, p);
    var X, W := Side(P, d), Side(P, Flip(d));
    var WN, WF := Side(W, d), Side(W, Flip(d));
    LinksDistinct(n0, s);
    SubInside(s, p);
    var R := Rotated(P, d);
    assert R == BranchD(d, BranchD(d, X, p, WN), w, WF);
    RedCaseAround(n3, s, p, d, h, k, R, X, w, WN, WF);
  }

  /** What case 1 does to the arena around `p` and its Red child `w` on side `Flip(d)`:
      `n2` recolours `n0`, `n3` is `n2` rotated at `p`. */
  ghost predicate RedCaseCtx<V>(n0: seq<Node<V>>, n2: seq<Node<V>>, n3: seq<Node<V>>, p: nat, w: nat, d: Dir) {
    && p < |n0| && w < |n0| && p != w && |n2| == |n0| && |n3| == |n0|
    && RotatedArena(n2, n3, p, w, d)
    && (forall i :: 0 <= i < |n0| ==> SameLinks(n2[i], n0[i]))
    && (forall i :: 0 <= i < |n0| && i != p && i != w ==> n3[i].color == n0[i].color)
    && n3[p].color == Red && n3[w].color == Black
    && Child(n0[p], Flip(d)) == Ptr(w) && !IsRed(n0, Child(n0[p], d))
    && (Child(n0[p], d).Ptr? ==> Child(n0[p], d).index != p && Child(n0[p], d).index != w)
    && (Child(n0[w], d).Ptr? ==>
         Child(n0[w], d).index != p && Child(n0[w], d).index != w && !IsRed(n0, Child(n0[w], d)))
  }

  /** One node after case 1: none is Red under a Red parent. */
  lemma RedCaseRedAt<V>(n0: seq<Node<V>>, n2: seq<Node<V>>, n3: seq<Node<V>>, j: nat, p: nat, w: nat, d: Dir)
    requires RedCaseCtx(n0, n2, n3, p, w, d)
    requires j < |n0| && !RedUnderRed(n0, j)
    requires n0[j].parent == Ptr(p) ==> n0[p].left == Ptr(j) || n0[p].right == Ptr(j)
    ensures !RedUnderRed(n3, j)
  {
    if j != p && j != w && Ptr(j) != Child(n0[w], d) {
      assert n3[j].parent == n0[j].parent;
    }
  }

  /** The nodes case 1 moves around `p` and its Red child `w`: `p`'s other child and `w`'s
      near child are neither of them and are not Red. */
  lemma RedCaseKids<V>(t: RbTree<V>, p: nat, d: Dir, w: nat)
    requires Valid(t) && p in Indices(Abs(t)) && p < |t.nodes| && NoRedUnderRed(t.nodes, Abs(t))
    requires Child(t.nodes[p], Flip(d)) == Ptr(w) && t.nodes[w].color == Red && ColorOf(t.nodes, Child(t.nodes[p], d)) == Black
    ensures p != w && !IsRed(t.nodes, Child(t.nodes[p], d)) && t.nodes[p].color == Black
    ensures Child(t.nodes[p], d).Ptr? ==> Child(t.nodes[p], d).index != p && Child(t.nodes[p], d).index != w
    ensures Child(t.nodes[w], d).Ptr? ==>
      Child(t.nodes[w], d).index != p && Child(t.nodes[w], d).index != w && !IsRed(t.nodes, Child(t.nodes[w], d))
  {
    var s := Abs(t);
    DistinctChildren(t.nodes, s, Null, p);
    ChildIn(t, p, Flip(d));
    assert !RedUnderRed(t.nodes, w);
    GrandchildApart(t.nodes, s, p, w, Flip(d), d);
    var beta := Child(t.nodes[w], d);
    ChildIn(t, w, d);
    if beta.Ptr? {
      DistinctChildren(t.nodes, s, Null, w);
      assert !RedUnderRed(t.nodes, beta.index);
    }
  }

  /** Case 1 seen from the arena: its result is the recoloured tree rotated at `p`. */
  lemma RedCaseSetup<V>(t: RbTree<V>, p: nat, d: Dir, w: nat)
    requires Valid(t) && p in Indices(Abs(t)) && p < |t.nodes| && NoRedUnderRed(t.nodes, Abs(t))
    requires Child(t.nodes[p], Flip(d)) == Ptr(w) && t.nodes[w].color == Red && ColorOf(t.nodes, Child(t.nodes[p], d)) == Black
    ensures var t2 := SetColor(SetColor(t, Ptr(w), Black), Ptr(p), Red);
      && Rotate(t2, p, d).Ok? && Valid(t2) && Abs(t2) == Abs(t)
      && RedCaseCtx(t.nodes, t2.nodes, Rotate(t2, p, d).value.nodes, p, w, d)
    ensures t.nodes[p].color == Black
  {
    RedCaseKids(t, p, d, w);
    var t2 := SetColor(SetColor(t, Ptr(w), Black), Ptr(p), Red);
    RedCaseRecolorShape(t, p, w);
    RedCaseRecolorColors(t, p, w);
    assert Child(t2.nodes[p], Flip(d)) == Ptr(w);
    RotateNodes(t2, p, d);
    RedCaseCtxOf(t.nodes, t2.nodes, Rotate(t2, p, d).value.nodes, p, w, d);
  }

  /** The recolouring of case 1 keeps the tree's shape. */
  lemma RedCaseRecolorShape<V>(t: RbTree<V>, p: nat, w: nat)
    requires Valid(t) && p < |t.nodes| && w < |t.nodes|
    ensures Valid(SetColor(SetColor(t, Ptr(w), Black), Ptr(p), Red))
    ensures Abs(SetColor(SetColor(t, Ptr(w), Black), Ptr(p), Red)) == Abs(t)
  {
    RecolorReshapes(t, Ptr(w), Black);
    RecolorReshapes(SetColor(t, Ptr(w), Black), Ptr(p), Red);
  }

  /** The colours the recolouring of case 1 gives, and the links it keeps. */
  lemma RedCaseRecolorColors<V>(t: RbTree<V>, p: nat, w: nat)
    requires Closed(t) && p < |t.nodes| && w < |t.nodes| && p != w
    ensures |SetColor(SetColor(t, Ptr(w), Black), Ptr(p), Red).nodes| == |t.nodes|
    ensures forall i :: 0 <= i < |t.nodes| ==> SameLinks(SetColor(SetColor(t, Ptr(w), Black), Ptr(p), Red).nodes[i], t.nodes[i])
    ensures forall i :: 0 <= i < |t.nodes| && i != p && i != w ==>
      SetColor(SetColor(t, Ptr(w), Black), Ptr(p), Red).nodes[i].color == t.nodes[i].color
    ensures SetColor(SetColor(t, Ptr(w), Black), Ptr(p), Red).nodes[p].color == Red
    ensures SetColor(SetColor(t, Ptr(w), Black), Ptr(p), Red).nodes[w].color == Black
  {
  }

  /** `RedCaseCtx` from the recolouring and the rotation, one after the other. */
  lemma RedCaseCtxOf<V>(n0: seq<Node<V>>, n2: seq<Node<V>>, n3: seq<Node<V>>, p: nat, w: nat, d: Dir)
    requires p < |n0| && w < |n0| && p != w && |n2| == |n0| && |n3| == |n0|
    requires RotatedArena(n2, n3, p, w, d)
    requires forall i :: 0 <= i < |n0| ==> SameLinks(n2[i], n0[i])
    requires forall i :: 0 <= i < |n0| && i != p && i != w ==> n2[i].color == n0[i].color
    requires n2[p].color == Red && n2[w].color == Black
    requires forall i :: 0 <= i < |n2| ==> n3[i].color == n2[i].color
    requires Child(n0[p], Flip(d)) == Ptr(w) && !IsRed(n0, Child(n0[p], d))
    requires Child(n0[p], d).Ptr? ==> Child(n0[p], d).index != p && Child(n0[p], d).index != w
    requires Child(n0[w], d).Ptr? ==>
      Child(n0[w], d).index != p && Child(n0[w], d).index != w && !IsRed(n0, Child(n0[w], d))
    ensures RedCaseCtx(n0, n2, n3, p, w, d)
  {
  }

  /** The tree case 1 leaves: the recoloured tree rotated at `p`. */
  ghost function RedCaseTree<V>(t: RbTree<V>, p: nat, d: Dir, w: nat): RbTree<V>
    requires Valid(t) && p in Indices(Abs(t)) && p < |t.nodes| && NoRedUnderRed(t.nodes, Abs(t))
    requires Child(t.nodes[p], Flip(d)) == Ptr(w) && t.nodes[w].color == Red && ColorOf(t.nodes, Child(t.nodes[p], d)) == Black
  {
    RedCaseSetup(t, p, d, w);
    Rotate(SetColor(SetColor(t, Ptr(w), Black), Ptr(p), Red), p, d).value
  }

  /** Case 1 keeps the slot one Black node short, and the new sibling exists. */
  lemma RedCaseShort<V>(t: RbTree<V>, p: nat, d: Dir, h: int, w: nat)
    requires Valid(t) && p in Indices(Abs(t)) && p < |t.nodes| && NoRedUnderRed(t.nodes, Abs(t))
    requires Child(t.nodes[p], Flip(d)) == Ptr(w) && t.nodes[w].color == Red && ColorOf(t.nodes, Child(t.nodes[p], d)) == Black
    requires Short(t.nodes, Abs(t), Ptr(p), d, h)
    ensures var t3 := RedCaseTree(t, p, d, w);
      && Valid(t3) && Indices(Abs(t3)) == Indices(Abs(t))
      && Child(t.nodes[w], d).Ptr? && Short(t3.nodes, Abs(t3), Ptr(p), d, h)
  {
    var s := Abs(t);
    RedCaseSetup(t, p, d, w);
    var t2 := SetColor(SetColor(t, Ptr(w), Black), Ptr(p), Red);
    var t3 := RedCaseTree(t, p, d, w);
    var s3 := Abs(t3);
    var n0, n3 := t.nodes, t3.nodes;
    assert Valid(t3) && s3 == Replace(s, p, Rotated(Sub(s, p), d)) && Indices(s3) == Indices(s) by {
      RotateValid(t2, p, d);
    }
    SlotSub(t, p);
    assert Distinct(Replace(s, p, Rotated(Sub(s, p), d))) by {
      LinksDistinct(n3, s3);
    }
    RedCasePaths(n0, n3, s, p, d, h, w);
  }

  /** After case 1 no node is Red under a Red parent. */
  lemma RedCaseRed<V>(t: RbTree<V>, p: nat, d: Dir, w: nat)
    requires Valid(t) && p in Indices(Abs(t)) && p < |t.nodes| && NoRedUnderRed(t.nodes, Abs(t))
    requires Child(t.nodes[p], Flip(d)) == Ptr(w) && t.nodes[w].color == Red && ColorOf(t.nodes, Child(t.nodes[p], d)) == Black
    ensures var t3 := RedCaseTree(t, p, d, w);
      NoRedUnderRed(t3.nodes, Abs(t3))
  {
    var s := Abs(t);
    RedCaseSetup(t, p, d, w);
    var t2 := SetColor(SetColor(t, Ptr(w), Black), Ptr(p), Red);
    var t3 := RedCaseTree(t, p, d, w);
    assert Indices(Abs(t3)) == Indices(s) by {
      RotateValid(t2, p, d);
    }
    forall j | j in Indices(Abs(t3)) ensures !RedUnderRed(t3.nodes, j) {
      ParentInside(t.nodes, s, Null, j);
      RedCaseRedAt(t.nodes, t2.nodes, t3.nodes, j, p, w, d);
    }
  }

  /** What case 1 gives: its tree, with `p` Red over the same slot, and the new sibling,
      Black. */
  lemma RedCaseIs<V>(t: RbTree<V>, p: nat, d: Dir, w: nat)
    requires Valid(t) && p in Indices(Abs(t)) && p < |t.nodes| && NoRedUnderRed(t.nodes, Abs(t))
    requires Child(t.nodes[p], Flip(d)) == Ptr(w) && t.nodes[w].color == Red && ColorOf(t.nodes, Child(t.nodes[p], d)) == Black
    requires Child(t.nodes[w], d).Ptr?
    ensures var t3 := RedCaseTree(t, p, d, w);
      var beta := Child(t.nodes[w], d).index;
      && SlotRedSibling(t, p, w, d) == Ok((t3, beta))
      && Child(t3.nodes[p], d) == Child(t.nodes[p], d) && ColorOf(t3.nodes, Child(t3.nodes[p], d)) == Black
      && t3.nodes[p].color == Red && t3.nodes[beta].color == Black
  {
    RedCaseSetup(t, p, d, w);
    var t2 := SetColor(SetColor(t, Ptr(w), Black), Ptr(p), Red);
    var t3 := RedCaseTree(t, p, d, w);
    assert t3 == Rotate(t2, p, d).value;
    assert RedCaseCtx(t.nodes, t2.nodes, t3.nodes, p, w, d);
  }

  /** Case 1 in the tree: the slot stays where it is, as short as before, now with a Red
      `p` over a Black sibling; no node is Red under a Red parent and the root stays Black. */
  lemma RedCaseKeeps<V>(t: RbTree<V>, p: nat, d: Dir, h: int, w: nat)
    requires Valid(t) && p in Indices(Abs(t)) && p < |t.nodes| && NoRedUnderRed(t.nodes, Abs(t)) && RootBlack(t)
    requires Child(t.nodes[p], Flip(d)) == Ptr(w) && t.nodes[w].color == Red && ColorOf(t.nodes, Child(t.nodes[p], d)) == Black
    requires Short(t.nodes, Abs(t), Ptr(p), d, h)
    ensures SlotRedSibling(t, p, w, d).Ok?
    ensures var r := SlotRedSibling(t, p, w, d).value;
      && Valid(r.0) && p in Indices(Abs(r.0)) && NoRedUnderRed(r.0.nodes, Abs(r.0)) && RootBlack(r.0)
      && Short(r.0.nodes, Abs(r.0), Ptr(p), d, h)
      && Child(r.0.nodes[p], d) == Child(t.nodes[p], d) && ColorOf(r.0.nodes, Child(r.0.nodes[p], d)) == Black
      && r.0.nodes[p].color == Red && r.0.nodes[r.1].color == Black
  {
    RedCaseSetup(t, p, d, w);
    var t3 := RedCaseTree(t, p, d, w);
    var beta := Child(t.nodes[w], d);
    assert Valid(t3) && p in Indices(Abs(t3)) && beta.Ptr? && Short(t3.nodes, Abs(t3), Ptr(p), d, h) by {
      RedCaseShort(t, p, d, h, w);
    }
    assert NoRedUnderRed(t3.nodes, Abs(t3)) by {
      RedCaseRed(t, p, d, w);
    }
    RedCaseIs(t, p, d, w);
    assert RootBlack(t3) by {
      SlotRedSiblingRoot(t, p, w, d);
    }
  }

  // ---------------------------------------------------------------- case 3: a Red near child only

  /** Case 3 on the arena, inside the subtree of `p`: the Black sibling turns Red and its
      Red near child turns Black and rotates up in its place. The slot's side keeps its
      count, one less than that of the rotated sibling. */
  lemma FarBlackInside<V>(n0: seq<Node<V>>, n3: seq<Node<V>>, P: Shape, d: Dir, k: int)
    requires Links(n0, P) && P.Branch? && Side(P, Flip(d)).Branch? && Side(Side(P, Flip(d)), d).Branch?
    requires BlackPaths(n0, Side(P, d), k - 1) && BlackPaths(n0, Side(P, Flip(d)), k)
    requires var W := Side(P, Flip(d));
      var n := Side(W, d).index;
      && Blackness(n0, W.index) == 1 && Blackness(n0, n) == 0 && Blackness(n3, W.index) == 0 && Blackness(n3, n) == 1
      && forall j :: j in Indices(P) && j != W.index && j != n ==> Blackness(n3, j) == Blackness(n0, j)
    ensures BlackPaths(n3, Side(P, d), k - 1) && BlackPaths(n3, Rotated(Side(P, Flip(d)), Flip(d)), k)
  {
    var X, W := Side(P, d), Side(P, Flip(d));
    var n := Side(W, d).index;
    assert Flip(Flip(d)) == d;
    assert Links(n0, W) && Indices(W) <= Indices(P);
    SwapRotatedPaths(n0, n3, W, Flip(d), k);
    assert W.index in Indices(W) && n in Indices(Side(W, d));
    assert Indices(X) !! Indices(W) && Indices(X) <= Indices(P);
    PathsFrameApart(n0, n3, X, k - 1, Indices(P), W.index, n);
  }

  /** Case 3 on the arena, around `p`: with the rotated sibling `R` spliced in, the slot on
      side `d` of `p` is as short as before. */
  lemma FarBlackAround<V>(n3: seq<Node<V>>, s: Shape, p: nat, d: Dir, h: int, k: int, R: Shape)
    requires Distinct(s) && p in Indices(s) && Around(n3, s, h, p, k)
    requires Sub(s, p).Branch? && Side(Sub(s, p), Flip(d)).Branch?
    requires BlackPaths(n3, Side(Sub(s, p), d), k - Blackness(n3, p) - 1) && BlackPaths(n3, R, k - Blackness(n3, p))
    ensures Short(n3, Replace(s, Side(Sub(s, p), Flip(d)).index, R), Ptr(p), d, h)
  {
    var P := Sub(s, p);
    var w := Side(P, Flip(d)).index;
    SubInside(s, p);
    SubDistinct(s, p);
    assert w in Indices(Side(P, Flip(d)));
    AroundSplice(n3, s, h, p, k, w, R);
    ReplaceSide(P, Flip(d), R);
    assert Flip(Flip(d)) == d;
    AroundBelow(n3, Replace(s, w, R), h, p, k);
  }

  /** Case 3 on the arena: rotating the recoloured sibling `w` keeps the slot on side `d`
      of `p` one Black node short. */
  lemma FarBlackPaths<V>(n0: seq<Node<V>>, n3: seq<Node<V>>, s: Shape, p: nat, d: Dir, h: int, w: nat, n: nat, k: int)
    requires Links(n0, s) && p in Indices(s) && Short(n0, s, Ptr(p), d, h) && k == Below(n0, s, h, p)
    requires Sub(s, p).Branch? && Side(Sub(s, p), Flip(d)).Branch? && Side(Sub(s, p), Flip(d)).index == w
    requires Side(Side(Sub(s, p), Flip(d)), d).Branch? && Side(Side(Sub(s, p), Flip(d)), d).index == n
    requires Blackness(n0, w) == 1 && Blackness(n0, n) == 0 && Blackness(n3, w) == 0 && Blackness(n3, n) == 1
    requires forall j :: j != w && j != n ==> Blackness(n3, j) == Blackness(n0, j)
    ensures Short(n3, Replace(s, w, Rotated(Side(Sub(s, p), Flip(d)), Flip(d))), Ptr(p), d, h)
  {
    FarBlackSides(n0, n3, s, p, d, h, w, n, k);
    FarBlackFrame(n0, n3, s, p, d, h, w, n, k);
    FarBlackAround(n3, s, p, d, h, k, Rotated(Side(Sub(s, p), Flip(d)), Flip(d)));
  }

  /** Case 3 below `p`: the slot's side and the rotated sibling keep their counts in `n3`. */
  lemma FarBlackSides<V>(n0: seq<Node<V>>, n3: seq<Node<V>>, s: Shape, p: nat, d: Dir, h: int, w: nat, n: nat, k: int)
    requires Links(n0, s) && p in Indices(s) && Short(n0, s, Ptr(p), d, h) && k == Below(n0, s, h, p)
    requires Sub(s, p).Branch? && Side(Sub(s, p), Flip(d)).Branch? && Side(Sub(s, p), Flip(d)).index == w
    requires Side(Side(Sub(s, p), Flip(d)), d).Branch? && Side(Side(Sub(s, p), Flip(d)), d).index == n
    requires Blackness(n0, w) == 1 && Blackness(n0, n) == 0 && Blackness(n3, w) == 0 && Blackness(n3, n) == 1
    requires forall j :: j != w && j != n ==> Blackness(n3, j) == Blackness(n0, j)
    ensures Distinct(s)
    ensures BlackPaths(n3, Side(Sub(s, p), d), k - Blackness(n3, p) - 1)
    ensures BlackPaths(n3, Rotated(Side(Sub(s, p), Flip(d)), Flip(d)), k - Blackness(n3, p))
  {
    var P := Sub(s, p);
    var W := Side(P, Flip(d));
    var b := Blackness(n0, p);
    SubLinks(n0, s, p);
    LinksDistinct(n0, s);
    SubInside(s, p);
    assert w in Indices(W) && n in Indices(Side(W, d)) && Indices(W) <= Indices(P);
    assert p != w && p != n && Blackness(n3, p) == b;
    FarBlackInside(n0, n3, P, d, k - b);
  }

  /** Case 3 above `p`: the counts around `p` are those of `n0`. */
  lemma FarBlackFrame<V>(n0: seq<Node<V>>, n3: seq<Node<V>>, s: Shape, p: nat, d: Dir, h: int, w: nat, n: nat, k: int)
    requires Links(n0, s) && p in Indices(s) && Short(n0, s, Ptr(p), d, h) && k == Below(n0, s, h, p)
    requires Sub(s, p).Branch? && Side(Sub(s, p), Flip(d)).Branch? && Side(Sub(s, p), Flip(d)).index == w
    requires Side(Side(Sub(s, p), Flip(d)), d).Branch? && Side(Side(Sub(s, p), Flip(d)), d).index == n
    requires Blackness(n0, w) == 1 && Blackness(n0, n) == 0 && Blackness(n3, w) == 0 && Blackness(n3, n) == 1
    requires forall j :: j != w && j != n ==> Blackness(n3, j) == Blackness(n0, j)
    ensures Around(n3, s, h, p, k)
  {
    LinksDistinct(n0, s);
    SubInside(s, p);
    var W := Side(Sub(s, p), Flip(d));
    assert w in Indices(W) && n in Indices(Side(W, d)) && Indices(W) <= Indices(Sub(s, p));
    assert forall j :: j in Outside(s, p) ==> Blackness(n3, j) == Blackness(n0, j);
    AroundFrame(n0, n3, s, h, p, k);
  }

  /** What case 3 does to the arena around the Black sibling `w` and its Red near child
      `n`: `n2` recolours `n0`, `n3` is `n2` rotated at `w` away from the slot. */
  ghost predicate FarBlackCtx<V>(n0: seq<Node<V>>, n2: seq<Node<V>>, n3: seq<Node<V>>, w: nat, n: nat, d: Dir) {
    && w < |n0| && n < |n0| && w != n && |n2| == |n0| && |n3| == |n0|
    && RotatedArena(n2, n3, w, n, Flip(d))
    && (forall i :: 0 <= i < |n0| ==> SameLinks(n2[i], n0[i]))
    && (forall i :: 0 <= i < |n0| && i != w && i != n ==> n3[i].color == n0[i].color)
    && n3[w].color == Red && n3[n].color == Black
    && Child(n0[w], d) == Ptr(n) && !IsRed(n0, Child(n0[w], Flip(d)))
    && !IsRed(n0, n0[n].left) && !IsRed(n0, n0[n].right)
    && (Child(n0[n], Flip(d)).Ptr? ==> Child(n0[n], Flip(d)).index != w && Child(n0[n], Flip(d)).index != n)
  }

  /** One node after case 3: none is Red under a Red parent. */
  lemma FarBlackRedAt<V>(n0: seq<Node<V>>, n2: seq<Node<V>>, n3: seq<Node<V>>, j: nat, w: nat, n: nat, d: Dir)
    requires FarBlackCtx(n0, n2, n3, w, n, d)
    requires j < |n0| && !RedUnderRed(n0, j)
    requires n0[j].parent == Ptr(w) ==> n0[w].left == Ptr(j) || n0[w].right == Ptr(j)
    requires n0[j].parent == Ptr(n) ==> n0[n].left == Ptr(j) || n0[n].right == Ptr(j)
    ensures !RedUnderRed(n3, j)
  {
    assert Flip(Flip(d)) == d;
    if j != w && j != n && Ptr(j) != Child(n0[n], Flip(d)) {
      assert n3[j].parent == n0[j].parent;
    }
  }

  /** The nodes case 3 moves: the sibling `w` and its Red near child are nodes of the tree
      apart from `p`, and the near child's children are not Red. */
  lemma FarBlackKids<V>(t: RbTree<V>, p: nat, d: Dir, w: nat)
    requires Valid(t) && p in Indices(Abs(t)) && p < |t.nodes| && NoRedUnderRed(t.nodes, Abs(t))
    requires Child(t.nodes[p], Flip(d)) == Ptr(w) && t.nodes[w].color == Black
    requires IsRed(t.nodes, Child(t.nodes[w], d)) && ColorOf(t.nodes, Child(t.nodes[w], Flip(d))) == Black
    ensures w in Indices(Abs(t)) && w < |t.nodes| && p != w
    ensures var n := Child(t.nodes[w], d).index;
      && n in Indices(Abs(t)) && n != w && n != p && t.nodes[n].parent == Ptr(w)
      && !IsRed(t.nodes, t.nodes[n].left) && !IsRed(t.nodes, t.nodes[n].right)
      && (Child(t.nodes[n], Flip(d)).Ptr? ==> Child(t.nodes[n], Flip(d)).index != w && Child(t.nodes[n], Flip(d)).index != n)
  {
    var s := Abs(t);
    DistinctChildren(t.nodes, s, Null, p);
    ChildIn(t, p, Flip(d));
    ChildIn(t, w, d);
    var n := Child(t.nodes[w], d).index;
    DistinctChildren(t.nodes, s, Null, w);
    GrandchildApart(t.nodes, s, p, w, Flip(d), d);
    DistinctChildren(t.nodes, s, Null, n);
    GrandchildApart(t.nodes, s, w, n, d, Flip(d));
    ChildIn(t, n, Left);
    ChildIn(t, n, Right);
    if t.nodes[n].left.Ptr? {
      assert !RedUnderRed(t.nodes, t.nodes[n].left.index);
    }
    if t.nodes[n].right.Ptr? {
      assert !RedUnderRed(t.nodes, t.nodes[n].right.index);
    }
  }

  /** The tree case 3 recolours before it rotates. */
  ghost function FarBlackColored<V>(t: RbTree<V>, w: nat, d: Dir): RbTree<V>
    requires Closed(t) && w < |t.nodes|
  {
    SetColor(SetColor(t, Child(t.nodes[w], d), Black), Ptr(w), Red)
  }

  /** The recolouring of case 3: `w` Red, its near child `n` Black, the links and every
      other colour as they were. */
  lemma FarBlackRecolor<V>(t: RbTree<V>, w: nat, d: Dir)
    requires Valid(t) && w < |t.nodes| && Child(t.nodes[w], d).Ptr? && Child(t.nodes[w], d).index != w
    ensures var t2 := FarBlackColored(t, w, d);
      var n := Child(t.nodes[w], d).index;
      && Valid(t2) && Abs(t2) == Abs(t) && |t2.nodes| == |t.nodes|
      && (forall i :: 0 <= i < |t.nodes| ==> SameLinks(t2.nodes[i], t.nodes[i]))
      && (forall i :: 0 <= i < |t.nodes| && i != w && i != n ==> t2.nodes[i].color == t.nodes[i].color)
      && t2.nodes[w].color == Red && t2.nodes[n].color == Black
  {
    var t1 := SetColor(t, Child(t.nodes[w], d), Black);
    RecolorReshapes(t, Child(t.nodes[w], d), Black);
    RecolorReshapes(t1, Ptr(w), Red);
  }

  /** Case 3 seen from the arena: its result is the recoloured tree rotated at `w`. */
  lemma FarBlackSetup<V>(t: RbTree<V>, p: nat, d: Dir, w: nat)
    requires Valid(t) && p in Indices(Abs(t)) && p < |t.nodes| && NoRedUnderRed(t.nodes, Abs(t))
    requires Child(t.nodes[p], Flip(d)) == Ptr(w) && t.nodes[w].color == Black
    requires IsRed(t.nodes, Child(t.nodes[w], d)) && ColorOf(t.nodes, Child(t.nodes[w], Flip(d))) == Black
    ensures w in Indices(Abs(t)) && w < |t.nodes|
    ensures var t2 := FarBlackColored(t, w, d);
      && Rotate(t2, w, Flip(d)).Ok? && Valid(t2) && Abs(t2) == Abs(t)
      && FarBlackCtx(t.nodes, t2.nodes, Rotate(t2, w, Flip(d)).value.nodes, w, Child(t.nodes[w], d).index, d)
  {
    FarBlackKids(t, p, d, w);
    var n := Child(t.nodes[w], d).index;
    var t2 := FarBlackColored(t, w, d);
    FarBlackRecolor(t, w, d);
    assert Flip(Flip(d)) == d;
    assert Child(t2.nodes[w], Flip(Flip(d))) == Ptr(n);
    RotateNodes(t2, w, Flip(d));
    FarBlackCtxOf(t.nodes, t2.nodes, Rotate(t2, w, Flip(d)).value.nodes, w, n, d);
  }

  /** `FarBlackCtx` from the recolouring and the rotation, one after the other. */
  lemma FarBlackCtxOf<V>(n0: seq<Node<V>>, n2: seq<Node<V>>, n3: seq<Node<V>>, w: nat, n: nat, d: Dir)
    requires w < |n0| && n < |n0| && w != n && |n2| == |n0| && |n3| == |n0|
    requires RotatedArena(n2, n3, w, n, Flip(d))
    requires forall i :: 0 <= i < |n0| ==> SameLinks(n2[i], n0[i])
    requires forall i :: 0 <= i < |n0| && i != w && i != n ==> n2[i].color == n0[i].color
    requires n2[w].color == Red && n2[n].color == Black
    requires forall i :: 0 <= i < |n2| ==> n3[i].color == n2[i].color
    requires Child(n0[w], d) == Ptr(n) && !IsRed(n0, Child(n0[w], Flip(d)))
    requires !IsRed(n0, n0[n].left) && !IsRed(n0, n0[n].right)
    requires Child(n0[n], Flip(d)).Ptr? ==> Child(n0[n], Flip(d)).index != w && Child(n0[n], Flip(d)).index != n
    ensures FarBlackCtx(n0, n2, n3, w, n, d)
  {
  }

  /** The tree case 3 leaves: the recoloured tree rotated at `w`. */
  ghost function FarBlackTree<V>(t: RbTree<V>, p: nat, d: Dir, w: nat): RbTree<V>
    requires Valid(t) && p in Indices(Abs(t)) && p < |t.nodes| && NoRedUnderRed(t.nodes, Abs(t))
    requires Child(t.nodes[p], Flip(d)) == Ptr(w) && t.nodes[w].color == Black
    requires IsRed(t.nodes, Child(t.nodes[w], d)) && ColorOf(t.nodes, Child(t.nodes[w], Flip(d))) == Black
  {
    FarBlackSetup(t, p, d, w);
    Rotate(FarBlackColored(t, w, d), w, Flip(d)).value
  }

  /** Case 3 keeps the slot one Black node short. */
  lemma FarBlackShort<V>(t: RbTree<V>, p: nat, d: Dir, h: int, w: nat)
    requires Valid(t) && p in Indices(Abs(t)) && p < |t.nodes| && NoRedUnderRed(t.nodes, Abs(t))
    requires Child(t.nodes[p], Flip(d)) == Ptr(w) && t.nodes[w].color == Black
    requires IsRed(t.nodes, Child(t.nodes[w], d)) && ColorOf(t.nodes, Child(t.nodes[w], Flip(d))) == Black
    requires Short(t.nodes, Abs(t), Ptr(p), d, h)
    ensures var t3 := FarBlackTree(t, p, d, w);
      && Valid(t3) && Indices(Abs(t3)) == Indices(Abs(t)) && Short(t3.nodes, Abs(t3), Ptr(p), d, h)
  {
    var s := Abs(t);
    FarBlackSetup(t, p, d, w);
    var n := Child(t.nodes[w], d).index;
    var t2 := FarBlackColored(t, w, d);
    var t3 := FarBlackTree(t, p, d, w);
    var n0, n3 := t.nodes, t3.nodes;
    assert Valid(t3) && Abs(t3) == Replace(s, w, Rotated(Sub(s, w), Flip(d))) && Indices(Abs(t3)) == Indices(s) by {
      RotateValid(t2, w, Flip(d));
    }
    SlotSub(t, p);
    var P := Sub(s, p);
    assert Side(P, Flip(d)).Branch? && Side(P, Flip(d)).index == w;
    assert Sub(s, w) == Side(P, Flip(d)) by {
      SubChild(s, p, Flip(d));
    }
    assert Links(n0, Side(P, Flip(d)));
    assert Side(Side(P, Flip(d)), d).Branch? && Side(Side(P, Flip(d)), d).index == n;
    assert forall j :: j != w && j != n ==> Blackness(n3, j) == Blackness(n0, j) by {
      BlacknessKept(n0, n3, w, n);
    }
    FarBlackPaths(n0, n3, s, p, d, h, w, n, Below(n0, s, h, p));
  }

  /** After case 3 no node is Red under a Red parent. */
  lemma FarBlackRed<V>(t: RbTree<V>, p: nat, d: Dir, w: nat)
    requires Valid(t) && p in Indices(Abs(t)) && p < |t.nodes| && NoRedUnderRed(t.nodes, Abs(t))
    requires Child(t.nodes[p], Flip(d)) == Ptr(w) && t.nodes[w].color == Black
    requires IsRed(t.nodes, Child(t.nodes[w], d)) && ColorOf(t.nodes, Child(t.nodes[w], Flip(d))) == Black
    ensures var t3 := FarBlackTree(t, p, d, w);
      NoRedUnderRed(t3.nodes, Abs(t3))
  {
    var s := Abs(t);
    FarBlackSetup(t, p, d, w);
    var n := Child(t.nodes[w], d).index;
    var t2 := FarBlackColored(t, w, d);
    var t3 := FarBlackTree(t, p, d, w);
    assert Indices(Abs(t3)) == Indices(s) by {
      RotateValid(t2, w, Flip(d));
    }
    forall j | j in Indices(Abs(t3)) ensures !RedUnderRed(t3.nodes, j) {
      ParentInside(t.nodes, s, Null, j);
      FarBlackRedAt(t.nodes, t2.nodes, t3.nodes, j, w, n, d);
    }
  }

  /** What case 3 gives: its tree, and the new sibling, Black, whose far child `w` is Red. */
  lemma FarBlackIs<V>(t: RbTree<V>, p: nat, d: Dir, w: nat)
    requires Valid(t) && p in Indices(Abs(t)) && p < |t.nodes| && NoRedUnderRed(t.nodes, Abs(t))
    requires Child(t.nodes[p], Flip(d)) == Ptr(w) && t.nodes[w].color == Black
    requires IsRed(t.nodes, Child(t.nodes[w], d)) && ColorOf(t.nodes, Child(t.nodes[w], Flip(d))) == Black
    ensures var t3 := FarBlackTree(t, p, d, w);
      var n := Child(t.nodes[w], d).index;
      && SlotFarBlack(t, p, w, d) == Ok((t3, n))
      && t3.nodes[n].color == Black && Child(t3.nodes[n], Flip(d)) == Ptr(w) && t3.nodes[w].color == Red
  {
    FarBlackSetup(t, p, d, w);
    ChildIn(t, p, Flip(d));
    var n := Child(t.nodes[w], d).index;
    var t2 := FarBlackColored(t, w, d);
    var t3 := FarBlackTree(t, p, d, w);
    assert t3 == Rotate(t2, w, Flip(d)).value;
    assert FarBlackCtx(t.nodes, t2.nodes, t3.nodes, w, n, d);
    assert t2.nodes[w].parent == Ptr(p);
    assert Child(t3.nodes[p], Flip(d)) == Ptr(n);
  }

  /** Case 3 in the tree: the slot stays where it is, as short as before, now with a Black
      sibling whose far child is Red; no node is Red under a Red parent. */
  lemma FarBlackKeeps<V>(t: RbTree<V>, p: nat, d: Dir, h: int, w: nat)
    requires Valid(t) && p in Indices(Abs(t)) && p < |t.nodes| && NoRedUnderRed(t.nodes, Abs(t))
    requires Child(t.nodes[p], Flip(d)) == Ptr(w) && t.nodes[w].color == Black
    requires IsRed(t.nodes, Child(t.nodes[w], d)) && ColorOf(t.nodes, Child(t.nodes[w], Flip(d))) == Black
    requires Short(t.nodes, Abs(t), Ptr(p), d, h)
    ensures SlotFarBlack(t, p, w, d).Ok?
    ensures var r := SlotFarBlack(t, p, w, d).value;
      && Valid(r.0) && p in Indices(Abs(r.0)) && NoRedUnderRed(r.0.nodes, Abs(r.0))
      && Short(r.0.nodes, Abs(r.0), Ptr(p), d, h)
      && r.0.nodes[r.1].color == Black && IsRed(r.0.nodes, Child(r.0.nodes[r.1], Flip(d)))
  {
    var t3 := FarBlackTree(t, p, d, w);
    assert Valid(t3) && p in Indices(Abs(t3)) && Short(t3.nodes, Abs(t3), Ptr(p), d, h) by {
      FarBlackShort(t, p, d, h, w);
    }
    assert NoRedUnderRed(t3.nodes, Abs(t3)) by {
      FarBlackRed(t, p, d, w);
    }
    FarBlackIs(t, p, d, w);
  }

  // ---------------------------------------------------------------- case 4: a Red far child

  /** Case 4 on the arena, inside the subtree of `p`: `p` turns Black and rotates down
      towards the slot, the Black sibling `w` takes `p`'s colour and its place, and `w`'s
      Red far child turns Black. The rotated subtree has the count `p`'s had. */
  lemma FarRedInside<V>(n0: seq<Node<V>>, n4: seq<Node<V>>, P: Shape, d: Dir, k: int)
    requires Links(n0, P) && P.Branch? && Side(P, Flip(d)).Branch? && Side(Side(P, Flip(d)), Flip(d)).Branch?
    requires BlackPaths(n0, Side(P, d), k - Blackness(n0, P.index) - 1)
    requires BlackPaths(n0, Side(P, Flip(d)), k - Blackness(n0, P.index))
    requires Blackness(n0, Side(P, Flip(d)).index) == 1 && Blackness(n0, Side(Side(P, Flip(d)), Flip(d)).index) == 0
    requires Blackness(n4, P.index) == 1 && Blackness(n4, Side(P, Flip(d)).index) == Blackness(n0, P.index)
    requires Blackness(n4, Side(Side(P, Flip(d)), Flip(d)).index) == 1
    requires forall j :: j != P.index && j != Side(P, Flip(d)).index && j != Side(Side(P, Flip(d)), Flip(d)).index ==>
      Blackness(n4, j) == Blackness(n0, j)
    ensures BlackPaths(n4, Rotated(P, d), k)
  {
    var p := P.index;
    var X, W := Side(P, d), Side(P, Flip(d));
    FarRedParts(n0, n4, P, d, k);
    RotatedPaths(n4, P, d, k, Blackness(n0, p));
  }

  /** A rotation at `P` is balanced once the lowered root's two sides, Black above them,
      and the far subtree, under the lifted node's count `c`, pass the right counts. */
  lemma RotatedPaths<V>(n4: seq<Node<V>>, P: Shape, d: Dir, k: int, c: int)
    requires P.Branch? && Side(P, Flip(d)).Branch?
    requires Blackness(n4, P.index) == 1 && Blackness(n4, Side(P, Flip(d)).index) == c
    requires BlackPaths(n4, Side(P, d), k - c - 1)
    requires BlackPaths(n4, Side(Side(P, Flip(d)), d), k - c - 1)
    requires BlackPaths(n4, Side(Side(P, Flip(d)), Flip(d)), k - c)
    ensures BlackPaths(n4, Rotated(P, d), k)
  {
    var X, W := Side(P, d), Side(P, Flip(d));
    PathsBranchD(n4, d, X, P.index, Side(W, d), k - c);
    PathsBranchD(n4, d, BranchD(d, X, P.index, Side(W, d)), W.index, Side(W, Flip(d)), k);
  }

  /** Case 4 below `p`: the slot's side and the sibling's near subtree keep their counts,
      and the far subtree, its root turned Black, gains one. */
  lemma FarRedParts<V>(n0: seq<Node<V>>, n4: seq<Node<V>>, P: Shape, d: Dir, k: int)
    requires Links(n0, P) && P.Branch? && Side(P, Flip(d)).Branch? && Side(Side(P, Flip(d)), Flip(d)).Branch?
    requires BlackPaths(n0, Side(P, d), k - Blackness(n0, P.index) - 1)
    requires BlackPaths(n0, Side(P, Flip(d)), k - Blackness(n0, P.index))
    requires Blackness(n0, Side(P, Flip(d)).index) == 1 && Blackness(n0, Side(Side(P, Flip(d)), Flip(d)).index) == 0
    requires Blackness(n4, P.index) == 1 && Blackness(n4, Side(P, Flip(d)).index) == Blackness(n0, P.index)
    requires Blackness(n4, Side(Side(P, Flip(d)), Flip(d)).index) == 1
    requires forall j :: j != P.index && j != Side(P, Flip(d)).index && j != Side(Side(P, Flip(d)), Flip(d)).index ==>
      Blackness(n4, j) == Blackness(n0, j)
    ensures BlackPaths(n4, Side(P, d), k - Blackness(n0, P.index) - 1)
    ensures BlackPaths(n4, Side(Side(P, Flip(d)), d), k - Blackness(n0, P.index) - 1)
    ensures BlackPaths(n4, Side(Side(P, Flip(d)), Flip(d)), k - Blackness(n0, P.index))
  {
    var p := P.index;
    var X, W := Side(P, d), Side(P, Flip(d));
    var WN, F := Side(W, d), Side(W, Flip(d));
    var f := F.index;
    var c := Blackness(n0, p);
    SidesOf(W, d);
    assert BlackPaths(n0, WN, k - c - 1) && BlackPaths(n0, F, k - c - 1);
    SidesApart(n0, P, d);
    assert Links(n0, W) && Links(n0, F) && f in Indices(F) && Indices(F) <= Indices(W);
    assert f !in Indices(X) && f !in Indices(WN);
    PathsFrameApart(n0, n4, X, k - c - 1, Indices(X), p, W.index);
    PathsFrameApart(n0, n4, WN, k - c - 1, Indices(WN), p, W.index);
    BlackenChild(n0, n4, F, k - c - 1);
  }

  /** Case 4 on the arena: the rotated subtree makes up the missing Black node, and the
      whole tree is balanced. */
  lemma FarRedBalanced<V>(n0: seq<Node<V>>, n4: seq<Node<V>>, s: Shape, p: nat, d: Dir, h: int, w: nat, f: nat, k: int)
    requires Links(n0, s) && p in Indices(s) && Short(n0, s, Ptr(p), d, h) && k == Below(n0, s, h, p)
    requires Sub(s, p).Branch? && Side(Sub(s, p), Flip(d)).Branch? && Side(Sub(s, p), Flip(d)).index == w
    requires Side(Side(Sub(s, p), Flip(d)), Flip(d)).Branch? && Side(Side(Sub(s, p), Flip(d)), Flip(d)).index == f
    requires Blackness(n0, w) == 1 && Blackness(n0, f) == 0
    requires Blackness(n4, p) == 1 && Blackness(n4, w) == Blackness(n0, p) && Blackness(n4, f) == 1
    requires forall j :: j != p && j != w && j != f ==> Blackness(n4, j) == Blackness(n0, j)
    ensures Balanced(n4, Replace(s, p, Rotated(Sub(s, p), d)))
  {
    var P := Sub(s, p);
    var W := Side(P, Flip(d));
    SubLinks(n0, s, p);
    LinksDistinct(n0, s);
    SubInside(s, p);
    FarRedInside(n0, n4, P, d, k);
    assert w in Indices(W) && f in Indices(Side(W, Flip(d))) && Indices(W) <= Indices(P);
    assert forall j :: j in Outside(s, p) ==> Blackness(n4, j) == Blackness(n0, j);
    AroundFrame(n0, n4, s, h, p, k);
    AroundJoin(n4, s, h, p, k, Rotated(P, d));
    PathsHeight(n4, Replace(s, p, Rotated(P, d)), h);
  }

  /** What case 4 does to the arena around `p`, its Black child `w` on side `Flip(d)` and
      `w`'s Red far child `f`: `n3` recolours `n0`, `n4` is `n3` rotated at `p`. */
  ghost predicate FarRedCtx<V>(n0: seq<Node<V>>, n3: seq<Node<V>>, n4: seq<Node<V>>, p: nat, w: nat, f: nat, d: Dir) {
    && p < |n0| && w < |n0| && f < |n0| && p != w && p != f && w != f && |n3| == |n0| && |n4| == |n0|
    && RotatedArena(n3, n4, p, w, d)
    && (forall i :: 0 <= i < |n0| ==> SameLinks(n3[i], n0[i]))
    && (forall i :: 0 <= i < |n0| && i != p && i != w && i != f ==> n4[i].color == n0[i].color)
    && n4[p].color == Black && n4[w].color == n0[p].color && n4[f].color == Black
    && Child(n0[p], Flip(d)) == Ptr(w) && Child(n0[w], Flip(d)) == Ptr(f) && !RedUnderRed(n0, p)
    && (n0[p].parent.Ptr? ==> n0[p].parent.index != p && n0[p].parent.index != w && n0[p].parent.index != f)
    && (Child(n0[w], d).Ptr? ==> Child(n0[w], d).index != p && Child(n0[w], d).index != w && Child(n0[w], d).index != f)
  }

  /** One node after case 4: none is Red under a Red parent. */
  lemma FarRedRedAt<V>(n0: seq<Node<V>>, n3: seq<Node<V>>, n4: seq<Node<V>>, j: nat, p: nat, w: nat, f: nat, d: Dir)
    requires FarRedCtx(n0, n3, n4, p, w, f, d)
    requires j < |n0| && !RedUnderRed(n0, j)
    requires n0[j].parent == Ptr(w) ==> n0[w].left == Ptr(j) || n0[w].right == Ptr(j)
    ensures !RedUnderRed(n4, j)
  {
    if j == w {
      assert n4[w].parent == n0[p].parent;
    } else if j != p && j != f && Ptr(j) != Child(n0[w], d) {
      assert n4[j].parent == n0[j].parent;
    }
  }

  /** The nodes case 4 moves around `p`: its Black child `w` on side `Flip(d)`, `w`'s Red
      far child and `w`'s near child are nodes of the tree apart from one another, and
      apart from `p`'s parent. */
  lemma FarRedKids<V>(t: RbTree<V>, p: nat, d: Dir, w: nat)
    requires Valid(t) && p in Indices(Abs(t)) && p < |t.nodes| && NoRedUnderRed(t.nodes, Abs(t))
    requires Child(t.nodes[p], Flip(d)) == Ptr(w) && t.nodes[w].color == Black && IsRed(t.nodes, Child(t.nodes[w], Flip(d)))
    ensures w in Indices(Abs(t)) && w < |t.nodes| && p != w && !RedUnderRed(t.nodes, p)
    ensures var f := Child(t.nodes[w], Flip(d)).index;
      && f < |t.nodes| && f != p && f != w
      && (t.nodes[p].parent.Ptr? ==>
            t.nodes[p].parent.index != p && t.nodes[p].parent.index != w && t.nodes[p].parent.index != f)
      && (Child(t.nodes[w], d).Ptr? ==>
            Child(t.nodes[w], d).index != p && Child(t.nodes[w], d).index != w && Child(t.nodes[w], d).index != f)
  {
    var s := Abs(t);
    var f := Child(t.nodes[w], Flip(d)).index;
    DistinctChildren(t.nodes, s, Null, p);
    ChildIn(t, p, Flip(d));
    ChildIn(t, w, Flip(d));
    DistinctChildren(t.nodes, s, Null, w);
    GrandchildApart(t.nodes, s, p, w, Flip(d), d);
    GrandchildApart(t.nodes, s, p, w, Flip(d), Flip(d));
    assert Ptr(w) != t.root && Ptr(f) != t.root by {
      RootHasNoParent(t, w);
      RootHasNoParent(t, f);
    }
    DepthParent(t.nodes, s, Null, w);
    DepthParent(t.nodes, s, Null, f);
    ParentInside(t.nodes, s, Null, p);
    if t.nodes[p].parent.Ptr? {
      DepthParent(t.nodes, s, Null, p);
    }
  }

  /** The tree case 4 recolours before it rotates. */
  ghost function FarRedColored<V>(t: RbTree<V>, p: nat, w: nat, d: Dir): RbTree<V>
    requires Closed(t) && p < |t.nodes| && w < |t.nodes|
  {
    var t2 := SetColor(SetColor(t, Ptr(w), t.nodes[p].color), Ptr(p), Black);
    SetColor(t2, Child(t2.nodes[w], Flip(d)), Black)
  }

  /** The recolouring of case 4: `w` takes `p`'s colour, `p` and `w`'s far child `f` turn
      Black, the links and every other colour as they were. */
  lemma FarRedRecolor<V>(t: RbTree<V>, p: nat, w: nat, d: Dir)
    requires Valid(t) && p < |t.nodes| && w < |t.nodes| && p != w
    requires Child(t.nodes[w], Flip(d)).Ptr? && Child(t.nodes[w], Flip(d)).index != p && Child(t.nodes[w], Flip(d)).index != w
    ensures var t3 := FarRedColored(t, p, w, d);
      var f := Child(t.nodes[w], Flip(d)).index;
      && Valid(t3) && Abs(t3) == Abs(t) && |t3.nodes| == |t.nodes|
      && (forall i :: 0 <= i < |t.nodes| ==> SameLinks(t3.nodes[i], t.nodes[i]))
      && (forall i :: 0 <= i < |t.nodes| && i != p && i != w && i != f ==> t3.nodes[i].color == t.nodes[i].color)
      && t3.nodes[p].color == Black && t3.nodes[w].color == t.nodes[p].color && t3.nodes[f].color == Black
  {
    FarRedRecolorShape(t, p, w, d);
    FarRedRecolorColors(t, p, w, d);
  }

  /** The recolouring of case 4 keeps the tree's shape. */
  lemma FarRedRecolorShape<V>(t: RbTree<V>, p: nat, w: nat, d: Dir)
    requires Valid(t) && p < |t.nodes| && w < |t.nodes|
    ensures Valid(FarRedColored(t, p, w, d)) && Abs(FarRedColored(t, p, w, d)) == Abs(t)
  {
    var t1 := SetColor(t, Ptr(w), t.nodes[p].color);
    var t2 := SetColor(t1, Ptr(p), Black);
    RecolorReshapes(t, Ptr(w), t.nodes[p].color);
    RecolorReshapes(t1, Ptr(p), Black);
    RecolorReshapes(t2, Child(t2.nodes[w], Flip(d)), Black);
  }

  /** The colours the recolouring of case 4 gives, and the links it keeps. */
  lemma FarRedRecolorColors<V>(t: RbTree<V>, p: nat, w: nat, d: Dir)
    requires Closed(t) && p < |t.nodes| && w < |t.nodes| && p != w
    requires Child(t.nodes[w], Flip(d)).Ptr? && Child(t.nodes[w], Flip(d)).index != p && Child(t.nodes[w], Flip(d)).index != w
    ensures |FarRedColored(t, p, w, d).nodes| == |t.nodes|
    ensures forall i :: 0 <= i < |t.nodes| ==> SameLinks(FarRedColored(t, p, w, d).nodes[i], t.nodes[i])
    ensures forall i :: 0 <= i < |t.nodes| && i != p && i != w && i != Child(t.nodes[w], Flip(d)).index ==>
      FarRedColored(t, p, w, d).nodes[i].color == t.nodes[i].color
    ensures FarRedColored(t, p, w, d).nodes[p].color == Black
    ensures FarRedColored(t, p, w, d).nodes[w].color == t.nodes[p].color
    ensures FarRedColored(t, p, w, d).nodes[Child(t.nodes[w], Flip(d)).index].color == Black
  {
    var t1 := SetColor(t, Ptr(w), t.nodes[p].color);
    var t2 := SetColor(t1, Ptr(p), Black);
    assert Child(t2.nodes[w], Flip(d)) == Child(t.nodes[w], Flip(d));
  }

  /** `FarRedCtx` from the recolouring and the rotation, one after the other. */
  lemma FarRedCtxOf<V>(n0: seq<Node<V>>, n3: seq<Node<V>>, n4: seq<Node<V>>, p: nat, w: nat, f: nat, d: Dir)
    requires p < |n0| && w < |n0| && f < |n0| && p != w && p != f && w != f && |n3| == |n0| && |n4| == |n0|
    requires RotatedArena(n3, n4, p, w, d)
    requires forall i :: 0 <= i < |n0| ==> SameLinks(n3[i], n0[i])
    requires forall i :: 0 <= i < |n0| && i != p && i != w && i != f ==> n3[i].color == n0[i].color
    requires n3[p].color == Black && n3[w].color == n0[p].color && n3[f].color == Black
    requires forall i :: 0 <= i < |n3| ==> n4[i].color == n3[i].color
    requires Child(n0[p], Flip(d)) == Ptr(w) && Child(n0[w], Flip(d)) == Ptr(f) && !RedUnderRed(n0, p)
    requires n0[p].parent.Ptr? ==> n0[p].parent.index != p && n0[p].parent.index != w && n0[p].parent.index != f
    requires Child(n0[w], d).Ptr? ==> Child(n0[w], d).index != p && Child(n0[w], d).index != w && Child(n0[w], d).index != f
    ensures FarRedCtx(n0, n3, n4, p, w, f, d)
  {
  }

  /** Case 4 seen from the arena: its result is the recoloured tree rotated at `p`. */
  lemma FarRedSetup<V>(t: RbTree<V>, p: nat, d: Dir, w: nat)
    requires Valid(t) && p in Indices(Abs(t)) && p < |t.nodes| && NoRedUnderRed(t.nodes, Abs(t))
    requires Child(t.nodes[p], Flip(d)) == Ptr(w) && t.nodes[w].color == Black && IsRed(t.nodes, Child(t.nodes[w], Flip(d)))
    ensures w in Indices(Abs(t)) && w < |t.nodes|
    ensures var t3 := FarRedColored(t, p, w, d);
      && Rotate(t3, p, d).Ok? && Valid(t3) && Abs(t3) == Abs(t) && SlotFarRed(t, p, w, d) == Rotate(t3, p, d)
      && FarRedCtx(t.nodes, t3.nodes, Rotate(t3, p, d).value.nodes, p, w, Child(t.nodes[w], Flip(d)).index, d)
  {
    FarRedKids(t, p, d, w);
    var f := Child(t.nodes[w], Flip(d)).index;
    var t3 := FarRedColored(t, p, w, d);
    FarRedRecolor(t, p, w, d);
    assert Child(t3.nodes[p], Flip(d)) == Ptr(w);
    RotateNodes(t3, p, d);
    FarRedCtxOf(t.nodes, t3.nodes, Rotate(t3, p, d).value.nodes, p, w, f, d);
  }

  /** The tree case 4 leaves: the recoloured tree rotated at `p`. */
  ghost function FarRedTree<V>(t: RbTree<V>, p: nat, d: Dir, w: nat): RbTree<V>
    requires Valid(t) && p in Indices(Abs(t)) && p < |t.nodes| && NoRedUnderRed(t.nodes, Abs(t))
    requires Child(t.nodes[p], Flip(d)) == Ptr(w) && t.nodes[w].color == Black && IsRed(t.nodes, Child(t.nodes[w], Flip(d)))
  {
    FarRedSetup(t, p, d, w);
    Rotate(FarRedColored(t, p, w, d), p, d).value
  }

  /** Case 4 balances the tree. */
  lemma FarRedEven<V>(t: RbTree<V>, p: nat, d: Dir, h: int, w: nat)
    requires Valid(t) && p in Indices(Abs(t)) && p < |t.nodes| && NoRedUnderRed(t.nodes, Abs(t))
    requires Child(t.nodes[p], Flip(d)) == Ptr(w) && t.nodes[w].color == Black && IsRed(t.nodes, Child(t.nodes[w], Flip(d)))
    requires Short(t.nodes, Abs(t), Ptr(p), d, h)
    ensures var t4 := FarRedTree(t, p, d, w);
      Valid(t4) && Balanced(t4.nodes, Abs(t4))
  {
    var s := Abs(t);
    FarRedSetup(t, p, d, w);
    var f := Child(t.nodes[w], Flip(d)).index;
    var t3 := FarRedColored(t, p, w, d);
    var t4 := FarRedTree(t, p, d, w);
    var n0, n4 := t.nodes, t4.nodes;
    assert Valid(t4) && Abs(t4) == Replace(s, p, Rotated(Sub(s, p), d)) by {
      RotateValid(t3, p, d);
    }
    SlotSub(t, p);
    var P := Sub(s, p);
    assert Side(P, Flip(d)).Branch? && Side(P, Flip(d)).index == w;
    assert Links(n0, Side(P, Flip(d)));
    assert Side(Side(P, Flip(d)), Flip(d)).Branch? && Side(Side(P, Flip(d)), Flip(d)).index == f;
    assert forall j :: j != p && j != w && j != f ==> Blackness(n4, j) == Blackness(n0, j) by {
      BlacknessKept3(n0, n4, p, w, f);
    }
    FarRedBalanced(n0, n4, s, p, d, h, w, f, Below(n0, s, h, p));
  }

  /** After case 4 no node is Red under a Red parent. */
  lemma FarRedRed<V>(t: RbTree<V>, p: nat, d: Dir, w: nat)
    requires Valid(t) && p in Indices(Abs(t)) && p < |t.nodes| && NoRedUnderRed(t.nodes, Abs(t))
    requires Child(t.nodes[p], Flip(d)) == Ptr(w) && t.nodes[w].color == Black && IsRed(t.nodes, Child(t.nodes[w], Flip(d)))
    ensures var t4 := FarRedTree(t, p, d, w);
      NoRedUnderRed(t4.nodes, Abs(t4))
  {
    var s := Abs(t);
    FarRedSetup(t, p, d, w);
    var f := Child(t.nodes[w], Flip(d)).index;
    var t3 := FarRedColored(t, p, w, d);
    var t4 := FarRedTree(t, p, d, w);
    assert Indices(Abs(t4)) == Indices(s) by {
      RotateValid(t3, p, d);
    }
    forall j | j in Indices(Abs(t4)) ensures !RedUnderRed(t4.nodes, j) {
      ParentInside(t.nodes, s, Null, j);
      FarRedRedAt(t.nodes, t3.nodes, t4.nodes, j, p, w, f, d);
    }
  }

  /** Case 4 in the tree: it ends the loop with a valid, balanced tree in which no node is
      Red under a Red parent. */
  lemma FarRedKeeps<V>(t: RbTree<V>, p: nat, d: Dir, h: int, w: nat)
    requires Valid(t) && p in Indices(Abs(t)) && p < |t.nodes| && NoRedUnderRed(t.nodes, Abs(t))
    requires Child(t.nodes[p], Flip(d)) == Ptr(w) && t.nodes[w].color == Black && IsRed(t.nodes, Child(t.nodes[w], Flip(d)))
    requires Short(t.nodes, Abs(t), Ptr(p), d, h)
    ensures SlotFarRed(t, p, w, d).Ok?
    ensures var r := SlotFarRed(t, p, w, d).value;
      Valid(r) && NoRedUnderRed(r.nodes, Abs(r)) && Balanced(r.nodes, Abs(r))
  {
    FarRedSetup(t, p, d, w);
    var t4 := FarRedTree(t, p, d, w);
    assert Valid(t4) && Balanced(t4.nodes, Abs(t4)) by {
      FarRedEven(t, p, d, h, w);
    }
    assert NoRedUnderRed(t4.nodes, Abs(t4)) by {
      FarRedRed(t, p, d, w);
    }
  }

  // ---------------------------------------------------------------- the loop

  /** The invariant at a slot whose node is Black, in the form the cases use. */
  lemma FixLight<V>(t: RbTree<V>, p: nat, d: Dir, h: int)
    requires FixInv(t, Ptr(p), d, h) && ColorOf(t.nodes, SlotChild(t, Ptr(p), d)) == Black
    ensures p in Indices(Abs(t)) && p < |t.nodes| && NoRedUnderRed(t.nodes, Abs(t)) && RootBlack(t)
  {
    NearBlack(t, SlotChild(t, Ptr(p), d));
    SlotNotRoot(t, p, d);
  }

  /** The cases' facts give back the invariant. */
  lemma LightFix<V>(t: RbTree<V>, p: nat, d: Dir, h: int)
    requires Valid(t) && p in Indices(Abs(t)) && p < |t.nodes| && NoRedUnderRed(t.nodes, Abs(t)) && RootBlack(t)
    requires Short(t.nodes, Abs(t), Ptr(p), d, h)
    ensures FixInv(t, Ptr(p), d, h)
  {
  }

  /** A balanced tree with no Red node under a Red parent satisfies the invariant at the
      root slot, where the loop ends. */
  lemma EndFix<V>(t: RbTree<V>, h: int, fuel: nat)
    requires Valid(t) && NoRedUnderRed(t.nodes, Abs(t)) && Balanced(t.nodes, Abs(t))
    ensures FixInv(t, Null, Left, h) && Fueled(t, Null, Left, fuel)
  {
  }

  /** A short slot has a sibling: the other side counts at least one Black node. */
  lemma SiblingExists<V>(t: RbTree<V>, p: nat, d: Dir, h: int)
    requires Linked(t) && p in Indices(Abs(t)) && p < |t.nodes| && Short(t.nodes, Abs(t), Ptr(p), d, h)
    ensures Child(t.nodes[p], Flip(d)).Ptr?
  {
    var s := Abs(t);
    SlotSub(t, p);
    var P := Sub(s, p);
    var k := Below(t.nodes, s, h, p);
    PathsNonNeg(t.nodes, Side(P, d), k - Blackness(t.nodes, p) - 1);
    assert Side(P, Flip(d)).Branch?;
  }

  /** Case 2 as a step of the loop: the invariant holds at the next slot, and the fuel
      still covers the climb, since that slot is one level higher. */
  lemma BothBlackStep<V>(t: RbTree<V>, p: nat, d: Dir, h: int, w: nat, fuel: nat)
    requires Valid(t) && p in Indices(Abs(t)) && p < |t.nodes| && NoRedUnderRed(t.nodes, Abs(t)) && RootBlack(t)
    requires Short(t.nodes, Abs(t), Ptr(p), d, h) && ColorOf(t.nodes, Child(t.nodes[p], d)) == Black
    requires Child(t.nodes[p], Flip(d)) == Ptr(w) && t.nodes[w].color == Black
    requires ColorOf(t.nodes, t.nodes[w].left) == Black && ColorOf(t.nodes, t.nodes[w].right) == Black
    requires fuel > 0 && (t.nodes[p].color == Black ==> Depth(Abs(t), p) < fuel)
    ensures Continues(SlotBlackSibling(t, p, w, d), h, fuel - 1)
  {
    LightFix(t, p, d, h);
    BothBlackKeeps(t, p, d, h, w);
    UpSlot(t, p);
    var r := SlotBlackSibling(t, p, w, d).value;
    assert r.0.root == t.root by {
      assert Root(Abs(r.0)) == r.0.root && Root(Abs(t)) == t.root;
    }
  }

  /** Cases 3 and 4 as a step of the loop: it ends at the root slot with the invariant. */
  lemma FarStep<V>(t: RbTree<V>, p: nat, d: Dir, h: int, w: nat, fuel: nat)
    requires Valid(t) && p in Indices(Abs(t)) && p < |t.nodes| && NoRedUnderRed(t.nodes, Abs(t))
    requires Short(t.nodes, Abs(t), Ptr(p), d, h)
    requires Child(t.nodes[p], Flip(d)) == Ptr(w) && t.nodes[w].color == Black
    requires ColorOf(t.nodes, t.nodes[w].left) == Red || ColorOf(t.nodes, t.nodes[w].right) == Red
    ensures Continues(SlotBlackSibling(t, p, w, d), h, fuel)
  {
    if ColorOf(t.nodes, Child(t.nodes[w], Flip(d))) == Black {
      FarBlackStep(t, p, d, h, w, fuel);
    } else {
      assert IsRed(t.nodes, Child(t.nodes[w], Flip(d)));
      FarRedStep(t, p, d, h, w, fuel);
      assert SlotBlackSibling(t, p, w, d) == SlotFarRedStep(t, p, w, d);
    }
  }

  /** Case 4 as the last step of the loop. */
  lemma FarRedStep<V>(t: RbTree<V>, p: nat, d: Dir, h: int, w: nat, fuel: nat)
    requires Valid(t) && p in Indices(Abs(t)) && p < |t.nodes| && NoRedUnderRed(t.nodes, Abs(t))
    requires Short(t.nodes, Abs(t), Ptr(p), d, h)
    requires Child(t.nodes[p], Flip(d)) == Ptr(w) && t.nodes[w].color == Black
    requires IsRed(t.nodes, Child(t.nodes[w], Flip(d)))
    ensures Continues(SlotFarRedStep(t, p, w, d), h, fuel)
  {
    FarRedKeeps(t, p, d, h, w);
    EndFix(SlotFarRed(t, p, w, d).value, h, fuel);
  }

  /** With a Black far child, the iteration is case 3 and then case 4 on its result. */
  lemma FarBlackThen<V>(t: RbTree<V>, p: nat, w: nat, d: Dir)
    requires Closed(t) && p < |t.nodes| && w < |t.nodes|
    requires ColorOf(t.nodes, t.nodes[w].left) == Red || ColorOf(t.nodes, t.nodes[w].right) == Red
    requires ColorOf(t.nodes, Child(t.nodes[w], Flip(d))) == Black && SlotFarBlack(t, p, w, d).Ok?
    ensures var r1 := SlotFarBlack(t, p, w, d).value;
      SlotBlackSibling(t, p, w, d) == SlotFarRedStep(r1.0, p, r1.1, d)
  {
    var r1 := SlotFarBlack(t, p, w, d).value;
    assert SlotFarBlack(t, p, w, d) == Ok((r1.0, r1.1));
  }

  /** Case 3 followed by case 4 as the last step of the loop. */
  lemma FarBlackStep<V>(t: RbTree<V>, p: nat, d: Dir, h: int, w: nat, fuel: nat)
    requires Valid(t) && p in Indices(Abs(t)) && p < |t.nodes| && NoRedUnderRed(t.nodes, Abs(t))
    requires Short(t.nodes, Abs(t), Ptr(p), d, h)
    requires Child(t.nodes[p], Flip(d)) == Ptr(w) && t.nodes[w].color == Black
    requires ColorOf(t.nodes, t.nodes[w].left) == Red || ColorOf(t.nodes, t.nodes[w].right) == Red
    requires ColorOf(t.nodes, Child(t.nodes[w], Flip(d))) == Black
    ensures Continues(SlotBlackSibling(t, p, w, d), h, fuel)
  {
    assert IsRed(t.nodes, Child(t.nodes[w], d));
    FarBlackKeeps(t, p, d, h, w);
    var r1 := SlotFarBlack(t, p, w, d).value;
    FarBlackThen(t, p, w, d);
    FarRedStep(r1.0, p, d, h, r1.1, fuel);
  }

  /** The iteration with a Black sibling keeps the invariant and the fuel bound. */
  lemma BlackSiblingKeeps<V>(t: RbTree<V>, p: nat, d: Dir, h: int, w: nat, fuel: nat)
    requires Valid(t) && p in Indices(Abs(t)) && p < |t.nodes| && NoRedUnderRed(t.nodes, Abs(t)) && RootBlack(t)
    requires Short(t.nodes, Abs(t), Ptr(p), d, h) && ColorOf(t.nodes, Child(t.nodes[p], d)) == Black
    requires Child(t.nodes[p], Flip(d)) == Ptr(w) && t.nodes[w].color == Black
    requires fuel > 0 && (t.nodes[p].color == Black ==> Depth(Abs(t), p) < fuel)
    ensures Continues(SlotBlackSibling(t, p, w, d), h, fuel - 1)
  {
    if ColorOf(t.nodes, t.nodes[w].left) == Black && ColorOf(t.nodes, t.nodes[w].right) == Black {
      BothBlackStep(t, p, d, h, w, fuel);
    } else {
      FarStep(t, p, d, h, w, fuel - 1);
    }
  }

  /** One iteration of the repaired loop keeps the invariant, and the fuel bound with one
      unit less. */
  lemma StepKeeps<V>(t: RbTree<V>, p: nat, d: Dir, h: int, fuel: nat)
    requires FixInv(t, Ptr(p), d, h) && ColorOf(t.nodes, SlotChild(t, Ptr(p), d)) == Black
    requires Fueled(t, Ptr(p), d, fuel)
    ensures fuel > 0 && Continues(SlotStep(t, p, d), h, fuel - 1)
  {
    FixLight(t, p, d, h);
    SlotNotRoot(t, p, d);
    SiblingExists(t, p, d, h);
    var w := Child(t.nodes[p], Flip(d)).index;
    if t.nodes[w].color == Red {
      RedCaseKeeps(t, p, d, h, w);
      var r1 := SlotRedSibling(t, p, w, d).value;
      BlackSiblingKeeps(r1.0, p, d, h, r1.1, fuel);
      assert SlotStep(t, p, d) == SlotBlackSibling(r1.0, p, r1.1, d);
    } else {
      BlackSiblingKeeps(t, p, d, h, w, fuel);
    }
  }

  /** The repaired loop stops at once when the slot holds the root or a Red node. */
  lemma SlotFixupExit<V>(t: RbTree<V>, p: Ptr, d: Dir, fuel: nat)
    requires Closed(t) && InArena(t.nodes, p)
    requires SlotChild(t, p, d) == t.root || ColorOf(t.nodes, SlotChild(t, p, d)) != Black
    ensures SlotFixup(t, p, d, fuel) == Ok(SetColor(t, SlotChild(t, p, d), Black))
  {
  }

  /** Otherwise, with fuel left, it goes on from the slot one iteration gives. */
  lemma SlotFixupNext<V>(t: RbTree<V>, p: nat, d: Dir, fuel: nat)
    requires Closed(t) && p < |t.nodes| && fuel > 0
    requires SlotChild(t, Ptr(p), d) != t.root && ColorOf(t.nodes, SlotChild(t, Ptr(p), d)) == Black
    requires SlotStep(t, p, d).Ok?
    ensures var r := SlotStep(t, p, d).value;
      SlotFixup(t, Ptr(p), d, fuel) == SlotFixup(r.0, r.1, r.2, OneLess(fuel))
  {
    assert SlotFixup(t, Ptr(p), d, fuel)
      == match SlotStep(t, p, d) case Err(f) => Err(f) case Ok((a, b, c)) => SlotFixup(a, b, c, OneLess(fuel));
  }

  /** The repaired `delete_fixup` ends, within the fuel, in a red-black tree, from any slot
      where the invariant holds. */
  lemma {:induction false} SlotFixupKeepsColors<V>(t: RbTree<V>, p: Ptr, d: Dir, h: int, fuel: nat)
    requires FixInv(t, p, d, h) && Fueled(t, p, d, fuel)
    ensures SlotFixup(t, p, d, fuel).Ok? && RedBlack(SlotFixup(t, p, d, fuel).value)
    decreases fuel
  {
    var x := SlotChild(t, p, d);
    if x == t.root || ColorOf(t.nodes, x) != Black {
      SlotFixupExit(t, p, d, fuel);
      ExitKeeps(t, p, d, h);
    } else {
      StepKeeps(t, p.index, d, h, fuel);
      var r := SlotStep(t, p.index, d).value;
      SlotFixupNext(t, p.index, d, fuel);
      SlotFixupKeepsColors(r.0, r.1, r.2, h, OneLess(fuel));
    }
  }

  /** Nodes that keep their colours keep their Blackness. */
  lemma BlacknessKept<V>(n0: seq<Node<V>>, n1: seq<Node<V>>, a: nat, b: nat)
    requires |n1| == |n0| && forall i :: 0 <= i < |n0| && i != a && i != b ==> n1[i].color == n0[i].color
    ensures forall j :: j != a && j != b ==> Blackness(n1, j) == Blackness(n0, j)
  {
  }

  lemma BlacknessKept3<V>(n0: seq<Node<V>>, n1: seq<Node<V>>, a: nat, b: nat, c: nat)
    requires |n1| == |n0| && forall i :: 0 <= i < |n0| && i != a && i != b && i != c ==> n1[i].color == n0[i].color
    ensures forall j :: j != a && j != b && j != c ==> Blackness(n1, j) == Blackness(n0, j)
  {
  }
}
