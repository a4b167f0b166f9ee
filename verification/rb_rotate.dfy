/**
  `left_rotate` and `right_rotate` (src/rb_tree.rs:175-245) as one function of the side
  the rotated node moves to. The arena is updated in the order the source writes it.
 */
module RbRotate {
  import opened RbArena
  import opened RbShape

  /** Rotates `x` down to side `d` (`left_rotate` is `d == Left`): the child on the other
      side, `y`, takes `x`'s place, `y`'s inner subtree moves under `x`, and `x` becomes
      `y`'s child on side `d`. Panics when there is no such child. */
  function Rotate<V>(t: RbTree<V>, x: nat, d: Dir): (r: Result<RbTree<V>>)
    requires Closed(t) && x < |t.nodes|
    ensures r.Err? <==> Child(t.nodes[x], Flip(d)).Null?
    ensures r.Err? ==> r.fault == MissingRotateChild
    ensures r.Ok? ==> Closed(r.value) && Relinked(t.nodes, r.value.nodes) && r.value.length == t.length
  {
    var yp := Child(t.nodes[x], Flip(d));
    if yp.Null? then Err(MissingRotateChild)
    else
      var y := yp.index;
      var n3 := HandOver(t.nodes, x, y, d);
      var root := if n3[x].parent.Null? then Ptr(y) else t.root;
      Ok(RbTree(TakePlace(n3, x, y, d), root, t.length))
  }

  /** The first half of a rotation: `y` hands its inner child over to `x`
      (`y_temp = y.<d>_child.take(); x.<other>_child = y_temp; y_temp.parent = x`). */
  function HandOver<V>(nodes: seq<Node<V>>, x: nat, y: nat, d: Dir): (r: seq<Node<V>>)
    requires x < |nodes| && y < |nodes| && AllInArena(nodes)
    ensures |r| == |nodes| && Relinked(nodes, r) && AllInArena(r)
  {
    var beta := Child(nodes[y], d);
    var n1 := SetChildAt(nodes, y, d, Null);
    var n2 := SetChildAt(n1, x, Flip(d), beta);
    if beta.Ptr? then SetParentAt(n2, beta.index, Ptr(x)) else n2
  }

  /** The second half: `y` takes `x`'s parent and `x`'s slot in that parent (the root slot
      is set by the caller), then `x` becomes `y`'s child on side `d`. */
  function TakePlace<V>(nodes: seq<Node<V>>, x: nat, y: nat, d: Dir): (r: seq<Node<V>>)
    requires x < |nodes| && y < |nodes| && AllInArena(nodes)
    ensures |r| == |nodes| && Relinked(nodes, r) && AllInArena(r)
  {
    var xp := nodes[x].parent;
    var n4 := SetParentAt(nodes, y, xp);
    var n5 :=
      if xp.Null? then n4
      else if Child(n4[xp.index], d) == Ptr(x) then SetChildAt(n4, xp.index, d, Ptr(y))
      else SetChildAt(n4, xp.index, Flip(d), Ptr(y));
    var n6 := SetChildAt(n5, y, d, Ptr(x));
    SetParentAt(n6, x, Ptr(y))
  }

  /** What `HandOver` writes, when `x`, `y` and `y`'s inner child are distinct. */
  lemma HandOverFacts<V>(nodes: seq<Node<V>>, x: nat, y: nat, d: Dir)
    requires x < |nodes| && y < |nodes| && AllInArena(nodes) && x != y
    requires Child(nodes[y], d).Ptr? ==> Child(nodes[y], d).index != x && Child(nodes[y], d).index != y
    ensures
      var beta := Child(nodes[y], d);
      var r := HandOver(nodes, x, y, d);
      && r[x] == SetChild(nodes[x], Flip(d), beta)
      && r[y] == SetChild(nodes[y], d, Null)
      && (beta.Ptr? ==> r[beta.index] == nodes[beta.index].(parent := Ptr(x)))
      && forall i :: 0 <= i < |nodes| && i != x && i != y && Ptr(i) != beta ==> r[i] == nodes[i]
  {
  }

  /** What `TakePlace` writes, when `x`, `y` and `x`'s parent are distinct. */
  lemma TakePlaceFacts<V>(nodes: seq<Node<V>>, x: nat, y: nat, d: Dir)
    requires x < |nodes| && y < |nodes| && AllInArena(nodes) && x != y
    requires nodes[x].parent.Ptr? ==> nodes[x].parent.index != x && nodes[x].parent.index != y
    ensures
      var xp := nodes[x].parent;
      var r := TakePlace(nodes, x, y, d);
      && r[x] == nodes[x].(parent := Ptr(y))
      && r[y] == SetChild(nodes[y], d, Ptr(x)).(parent := xp)
      && (xp.Ptr? ==>
            r[xp.index] == SetChild(nodes[xp.index], if Child(nodes[xp.index], d) == Ptr(x) then d else Flip(d), Ptr(y)))
      && forall i :: 0 <= i < |nodes| && i != x && i != y && Ptr(i) != xp ==> r[i] == nodes[i]
  {
  }

  /** The shape a rotation leaves: `x`'s far child `y` on top, `x` below it on side `d`. */
  ghost function Rotated(s: Shape, d: Dir): Shape
    requires s.Branch? && Side(s, Flip(d)).Branch?
  {
    var y := Side(s, Flip(d));
    BranchD(d, BranchD(d, Side(s, d), s.index, Side(y, d)), y.index, Side(y, Flip(d)))
  }

  /** The arena after rotating `x` down to side `d`, its far child `y` up: `x`, `y`,
      `y`'s inner child and `x`'s parent are rewritten, every other node is as before. */
  ghost predicate RotatedArena<V>(nodes: seq<Node<V>>, nodes': seq<Node<V>>, x: nat, y: nat, d: Dir) {
    && x < |nodes| && y < |nodes| && |nodes'| == |nodes|
    && Child(nodes[x], Flip(d)) == Ptr(y)
    && var beta := Child(nodes[y], d);
    && var xp := nodes[x].parent;
    && nodes'[x] == SetChild(nodes[x], Flip(d), beta).(parent := Ptr(y))
    && nodes'[y] == SetChild(nodes[y], d, Ptr(x)).(parent := xp)
    && (beta.Ptr? ==> beta.index < |nodes| && nodes'[beta.index] == nodes[beta.index].(parent := Ptr(x)))
    && (xp.Ptr? ==>
          && xp.index < |nodes|
          && nodes'[xp.index] == SetChild(nodes[xp.index], if Child(nodes[xp.index], d) == Ptr(x) then d else Flip(d), Ptr(y)))
    && forall i :: 0 <= i < |nodes| && i != x && i != y && Ptr(i) != beta && Ptr(i) != xp ==> nodes'[i] == nodes[i]
  }

  /** The two halves' writes, composed, are the writes of `RotatedArena`. */
  lemma ComposeRotated<V>(nodes: seq<Node<V>>, n3: seq<Node<V>>, n7: seq<Node<V>>, x: nat, y: nat, d: Dir)
    requires x < |nodes| && y < |nodes| && |n3| == |nodes| && |n7| == |nodes| && x != y
    requires Child(nodes[x], Flip(d)) == Ptr(y) && AllInArena(nodes)
    requires
      var beta := Child(nodes[y], d);
      var xp := nodes[x].parent;
      && (beta.Ptr? ==> beta.index != x && beta.index != y)
      && (xp.Ptr? ==> xp.index != x && xp.index != y && xp != beta)
    requires
      var beta := Child(nodes[y], d);
      && n3[x] == SetChild(nodes[x], Flip(d), beta)
      && n3[y] == SetChild(nodes[y], d, Null)
      && (beta.Ptr? ==> n3[beta.index] == nodes[beta.index].(parent := Ptr(x)))
      && forall i :: 0 <= i < |nodes| && i != x && i != y && Ptr(i) != beta ==> n3[i] == nodes[i]
    requires
      var xp := n3[x].parent;
      && n7[x] == n3[x].(parent := Ptr(y))
      && n7[y] == SetChild(n3[y], d, Ptr(x)).(parent := xp)
      && (xp.Ptr? ==>
            n7[xp.index] == SetChild(n3[xp.index], if Child(n3[xp.index], d) == Ptr(x) then d else Flip(d), Ptr(y)))
      && forall i :: 0 <= i < |nodes| && i != x && i != y && Ptr(i) != xp ==> n7[i] == n3[i]
    ensures RotatedArena(nodes, n7, x, y, d)
  {
    var xp := nodes[x].parent;
    assert n3[x].parent == xp;
    if xp.Ptr? {
      assert n3[xp.index] == nodes[xp.index];
    }
  }

  /** When the nodes involved are distinct, the rotation's writes land where intended. */
  lemma RotateFacts<V>(t: RbTree<V>, x: nat, d: Dir)
    requires Closed(t) && x < |t.nodes| && Child(t.nodes[x], Flip(d)).Ptr?
    requires
      var y := Child(t.nodes[x], Flip(d)).index;
      var beta := Child(t.nodes[y], d);
      var xp := t.nodes[x].parent;
      && x != y
      && (beta.Ptr? ==> beta.index != x && beta.index != y)
      && (xp.Ptr? ==> xp.index != x && xp.index != y && xp != beta)
    ensures
      var y := Child(t.nodes[x], Flip(d)).index;
      var r := Rotate(t, x, d).value;
      && RotatedArena(t.nodes, r.nodes, x, y, d)
      && r.root == (if t.nodes[x].parent.Null? then Ptr(y) else t.root)
  {
    var y := Child(t.nodes[x], Flip(d)).index;
    HandOverFacts(t.nodes, x, y, d);
    var n3 := HandOver(t.nodes, x, y, d);
    TakePlaceFacts(n3, x, y, d);
    ComposeRotated(t.nodes, n3, TakePlace(n3, x, y, d), x, y, d);
  }

  /** The subtree at `x` seen by sides: `x`'s far child `y` exists, with subtrees `b` (inner) and `c`. */
  lemma RotationSite<V>(nodes: seq<Node<V>>, s: Shape, x: nat, d: Dir)
    requires Wf(nodes, s, Null) && x in Indices(s) && x < |nodes| && Child(nodes[x], Flip(d)).Ptr?
    ensures Sub(s, x).Branch? && Sub(s, x).index == x && Side(Sub(s, x), Flip(d)).Branch?
    ensures
      var xs := Sub(s, x);
      var ys := Side(xs, Flip(d));
      && xs == BranchD(d, Side(xs, d), x, ys)
      && ys == BranchD(d, Side(ys, d), ys.index, Side(ys, Flip(d)))
      && Root(ys) == Child(nodes[x], Flip(d))
      && Wf(nodes, xs, nodes[x].parent)
      && Wf(nodes, Side(xs, d), Ptr(x)) && Wf(nodes, Side(ys, d), Ptr(ys.index)) && Wf(nodes, Side(ys, Flip(d)), Ptr(ys.index))
      && ys.index < |nodes| && Root(Side(ys, d)) == Child(nodes[ys.index], d)
      && Child(nodes[ys.index], Flip(d)) == Root(Side(ys, Flip(d))) && Child(nodes[x], d) == Root(Side(xs, d))
      && x != ys.index && x !in Indices(Side(xs, d)) && x !in Indices(ys)
      && Indices(Side(xs, d)) !! Indices(ys)
      && ys.index !in Indices(Side(ys, d)) && ys.index !in Indices(Side(ys, Flip(d)))
      && Indices(Side(ys, d)) !! Indices(Side(ys, Flip(d)))
      && Indices(xs) == Indices(Side(xs, d)) + {x} + Indices(Side(ys, d)) + {ys.index} + Indices(Side(ys, Flip(d)))
      && (nodes[x].parent.Ptr? ==> nodes[x].parent.index in Outside(s, x))
    ensures
      var y := Child(nodes[x], Flip(d)).index;
      var beta := Child(nodes[y], d);
      var xp := nodes[x].parent;
      && x != y
      && (beta.Ptr? ==> beta.index != x && beta.index != y)
      && (xp.Ptr? ==> xp.index != x && xp.index != y && xp != beta)
  {
    SubWf(nodes, s, Null, x);
    var xs := Sub(s, x);
    WfBranchD(nodes, d, Side(xs, d), x, Side(xs, Flip(d)), nodes[x].parent);
    var ys := Side(xs, Flip(d));
    WfBranchD(nodes, d, Side(ys, d), ys.index, Side(ys, Flip(d)), Ptr(x));
  }

  /** A rotation keeps the subtree's nodes and their in-order sequence. */
  lemma RotatedInOrder(xs: Shape, d: Dir)
    requires xs.Branch? && Side(xs, Flip(d)).Branch?
    ensures InOrder(Rotated(xs, d)) == InOrder(xs)
    ensures Indices(Rotated(xs, d)) == Indices(xs)
  {
    var ys := Side(xs, Flip(d));
    var a, b, c := Side(xs, d), Side(ys, d), Side(ys, Flip(d));
    if d == Left {
      assert xs == Branch(a, xs.index, Branch(b, ys.index, c));
      assert Rotated(xs, d) == Branch(Branch(a, xs.index, b), ys.index, c);
      Reassociate(a, xs.index, b, ys.index, c);
    } else {
      assert xs == Branch(Branch(c, ys.index, b), xs.index, a);
      assert Rotated(xs, d) == Branch(c, ys.index, Branch(b, xs.index, a));
      Reassociate(c, ys.index, b, xs.index, a);
    }
  }

  /** The two ways of hanging three subtrees from two nodes have one in-order sequence. */
  lemma Reassociate(a: Shape, x: nat, b: Shape, y: nat, c: Shape)
    ensures InOrder(Branch(Branch(a, x, b), y, c)) == InOrder(Branch(a, x, Branch(b, y, c)))
    ensures Indices(Branch(Branch(a, x, b), y, c)) == Indices(Branch(a, x, Branch(b, y, c)))
  {
    var sa, sb, sc := InOrder(a), InOrder(b), InOrder(c);
    assert (sa + [x] + sb) + [y] + sc == sa + [x] + (sb + [y] + sc);
  }

  /** The rotated subtree is well-formed in the new arena, hanging from `x`'s old parent. */
  lemma RotateLocal<V>(nodes: seq<Node<V>>, nodes': seq<Node<V>>, s: Shape, x: nat, d: Dir)
    requires Wf(nodes, s, Null) && x in Indices(s) && x < |nodes| && Child(nodes[x], Flip(d)).Ptr?
    requires RotatedArena(nodes, nodes', x, Child(nodes[x], Flip(d)).index, d)
    ensures Sub(s, x).Branch? && Side(Sub(s, x), Flip(d)).Branch?
    ensures Wf(nodes', Rotated(Sub(s, x), d), nodes[x].parent)
  {
    RotationSite(nodes, s, x, d);
    var xs := Sub(s, x);
    var ys := Side(xs, Flip(d));
    var y := ys.index;
    var a, b, c := Side(xs, d), Side(ys, d), Side(ys, Flip(d));
    var xp := nodes[x].parent;
    forall j | j in Indices(a) + Indices(b) + Indices(c)
      ensures SameChildren(nodes, nodes', j) && (Ptr(j) != Root(b) ==> SameParent(nodes, nodes', j))
    {
      RotateKept(nodes, nodes', s, x, d, j);
    }
    Frame(nodes, nodes', a, Ptr(x), Ptr(x));
    Frame(nodes, nodes', b, Ptr(y), Ptr(x));
    Frame(nodes, nodes', c, Ptr(y), Ptr(y));
    WfBranchD(nodes', d, a, x, b, Ptr(y));
    WfBranchD(nodes', d, BranchD(d, a, x, b), y, c, xp);
  }

  /** The nodes of the three subtrees a rotation moves keep their links, except that the
      inner subtree's root now hangs from `x`. */
  lemma RotateKept<V>(nodes: seq<Node<V>>, nodes': seq<Node<V>>, s: Shape, x: nat, d: Dir, j: nat)
    requires Wf(nodes, s, Null) && x in Indices(s) && x < |nodes| && Child(nodes[x], Flip(d)).Ptr?
    requires RotatedArena(nodes, nodes', x, Child(nodes[x], Flip(d)).index, d)
    requires Sub(s, x).Branch? && Side(Sub(s, x), Flip(d)).Branch?
    requires
      var ys := Side(Sub(s, x), Flip(d));
      j in Indices(Side(Sub(s, x), d)) + Indices(Side(ys, d)) + Indices(Side(ys, Flip(d)))
    ensures SameChildren(nodes, nodes', j)
    ensures Ptr(j) != Root(Side(Side(Sub(s, x), Flip(d)), d)) ==> SameParent(nodes, nodes', j)
  {
    RotationSite(nodes, s, x, d);
    var xs := Sub(s, x);
    LinksInArena(nodes, xs);
    var y := Side(xs, Flip(d)).index;
    var xp := nodes[x].parent;
    assert j != x && j != y && (xp.Ptr? ==> j != xp.index);
  }

  /** Outside the rotated subtree only the parent's link to `x` changes, and it now names `y`. */
  lemma RotateOutside<V>(nodes: seq<Node<V>>, nodes': seq<Node<V>>, s: Shape, x: nat, d: Dir)
    requires Wf(nodes, s, Null) && x in Indices(s) && x < |nodes| && Child(nodes[x], Flip(d)).Ptr?
    requires RotatedArena(nodes, nodes', x, Child(nodes[x], Flip(d)).index, d)
    ensures forall j :: j in Outside(s, x) ==> Redirected(nodes, nodes', j, x, Child(nodes[x], Flip(d)))
  {
    RotationSite(nodes, s, x, d);
    forall j | j in Outside(s, x) ensures Redirected(nodes, nodes', j, x, Child(nodes[x], Flip(d))) {
      RotateOutsideAt(nodes, nodes', s, x, d, j);
    }
  }

  lemma RotateOutsideAt<V>(nodes: seq<Node<V>>, nodes': seq<Node<V>>, s: Shape, x: nat, d: Dir, j: nat)
    requires Wf(nodes, s, Null) && x in Indices(s) && x < |nodes| && Child(nodes[x], Flip(d)).Ptr?
    requires RotatedArena(nodes, nodes', x, Child(nodes[x], Flip(d)).index, d)
    requires j in Outside(s, x)
    ensures Redirected(nodes, nodes', j, x, Child(nodes[x], Flip(d)))
  {
    RotationSite(nodes, s, x, d);
    LinksInArena(nodes, s);
    var y := Child(nodes[x], Flip(d)).index;
    var xp := nodes[x].parent;
    if nodes[j].left == Ptr(x) || nodes[j].right == Ptr(x) {
      ChildLinkIsParent(nodes, s, Null, j, x);
    }
    if Ptr(j) == xp {
      ParentInside(nodes, s, Null, x);
      DistinctChildren(nodes, s, Null, j);
      if d == Left {
        assert nodes[j].left == Ptr(x) || nodes[j].right == Ptr(x);
      } else {
        assert nodes[j].left == Ptr(x) || nodes[j].right == Ptr(x);
      }
    } else {
      assert j != x && j != y && Ptr(j) != Child(nodes[y], d);
    }
  }

  /** A rotation of a valid tree at a node that has a far child is the local rotation of
      its subtree spliced back in place: still valid, with the same nodes in the same
      in-order sequence, hence the same entries. */
  lemma RotateValid<V>(t: RbTree<V>, x: nat, d: Dir)
    requires Valid(t) && x in Indices(Abs(t)) && x < |t.nodes| && Child(t.nodes[x], Flip(d)).Ptr?
    ensures Rotate(t, x, d).Ok?
    ensures Sub(Abs(t), x).Branch? && Side(Sub(Abs(t), x), Flip(d)).Branch?
    ensures Valid(Rotate(t, x, d).value)
    ensures Abs(Rotate(t, x, d).value) == Replace(Abs(t), x, Rotated(Sub(Abs(t), x), d))
    ensures Indices(Abs(Rotate(t, x, d).value)) == Indices(Abs(t))
    ensures InOrder(Abs(Rotate(t, x, d).value)) == InOrder(Abs(t))
    ensures Items(Rotate(t, x, d).value) == Items(t)
    ensures RotatedArena(t.nodes, Rotate(t, x, d).value.nodes, x, Child(t.nodes[x], Flip(d)).index, d)
    ensures Rotate(t, x, d).value.root == if t.nodes[x].parent.Null? then Child(t.nodes[x], Flip(d)) else t.root
  {
    RotationSite(t.nodes, Abs(t), x, d);
    RotateFacts(t, x, d);
    var r := Rotate(t, x, d).value;
    assert Closed(r) && Relinked(t.nodes, r.nodes) && r.length == t.length;
    assert r.root == (if t.nodes[x].parent.Null? then Child(t.nodes[x], Flip(d)) else t.root);
    RotateSplice(t, r, x, d);
  }

  /** The spliced shape is well-formed in the rotated arena. */
  lemma RotateSpliceWf<V>(nodes: seq<Node<V>>, nodes': seq<Node<V>>, s: Shape, x: nat, d: Dir)
    requires Wf(nodes, s, Null) && x in Indices(s) && x < |nodes| && Child(nodes[x], Flip(d)).Ptr?
    requires RotatedArena(nodes, nodes', x, Child(nodes[x], Flip(d)).index, d)
    ensures Sub(s, x).Branch? && Side(Sub(s, x), Flip(d)).Branch?
    ensures Wf(nodes', Replace(s, x, Rotated(Sub(s, x), d)), Null)
    ensures Indices(Replace(s, x, Rotated(Sub(s, x), d))) == Indices(s)
    ensures InOrder(Replace(s, x, Rotated(Sub(s, x), d))) == InOrder(s)
    ensures Root(Replace(s, x, Rotated(Sub(s, x), d))) ==
              if nodes[x].parent.Null? then Child(nodes[x], Flip(d)) else Root(s)
  {
    RotateLocal(nodes, nodes', s, x, d);
    RotateOutside(nodes, nodes', s, x, d);
    SubWf(nodes, s, Null, x);
    var xs := Sub(s, x);
    var n := Rotated(xs, d);
    RotatedInOrder(xs, d);
    ReplaceWf(nodes, nodes', s, Null, x, n);
    ReplaceIndices(nodes, s, x, n);
    ReplaceInOrder(s, x, n);
    ReplaceRoot(s, x, n);
    ParentInside(nodes, s, Null, x);
    assert Indices(s) == Outside(s, x) + Indices(xs);
  }

  lemma RotateSplice<V>(t: RbTree<V>, r: RbTree<V>, x: nat, d: Dir)
    requires Valid(t) && x in Indices(Abs(t)) && x < |t.nodes| && Child(t.nodes[x], Flip(d)).Ptr?
    requires RotatedArena(t.nodes, r.nodes, x, Child(t.nodes[x], Flip(d)).index, d)
    requires Closed(r) && Relinked(t.nodes, r.nodes) && r.length == t.length
    requires r.root == (if t.nodes[x].parent.Null? then Child(t.nodes[x], Flip(d)) else t.root)
    ensures Sub(Abs(t), x).Branch? && Side(Sub(Abs(t), x), Flip(d)).Branch?
    ensures Valid(r)
    ensures Abs(r) == Replace(Abs(t), x, Rotated(Sub(Abs(t), x), d))
    ensures Indices(Abs(r)) == Indices(Abs(t))
    ensures InOrder(Abs(r)) == InOrder(Abs(t))
    ensures Items(r) == Items(t)
  {
    var s := Abs(t);
    RotateSpliceWf(t.nodes, r.nodes, s, x, d);
    var s' := Replace(s, x, Rotated(Sub(s, x), d));
    AbsIs(r, s');
    RelinkedItems(t.nodes, r.nodes, s);
  }
}
