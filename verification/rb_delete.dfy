/**
  `delete`, `rb_transplant` and `delete_fixup` with the helpers `is_left_child`,
  `sibling` and `set_color` (src/rb_tree.rs:73-128, 329-352, 375-395, 411-521). `delete`
  is given twice: as written, where the two-children case links `x` back to the deleted
  node `z` when the successor `y` is `z`'s own child, and repaired, where it links `x`
  to `y`.
 */
module RbDelete {
  import opened RbArena
  import opened RbShape
  import opened RbQuery
  import opened RbRotate
  import opened RbInsert

  // ---------------------------------------------------------------- helpers

  /** `is_left_child`: the node has a parent whose left child it is. */
  function IsLeftChild<V>(nodes: seq<Node<V>>, x: nat): (r: bool)
    requires x < |nodes| && AllInArena(nodes)
    ensures r <==> nodes[x].parent.Ptr? && nodes[nodes[x].parent.index].left == Ptr(x)
  {
    var p := nodes[x].parent;
    p.Ptr? && nodes[p.index].left == Ptr(x)
  }

  /** `sibling`: the parent's other child, or none when there is no parent. */
  function Sibling<V>(nodes: seq<Node<V>>, x: nat): (r: Ptr)
    requires x < |nodes| && AllInArena(nodes)
    ensures InArena(nodes, r)
    ensures nodes[x].parent.Null? ==> r.Null?
    ensures nodes[x].parent.Ptr? ==>
      r == Child(nodes[nodes[x].parent.index], if IsLeftChild(nodes, x) then Right else Left)
  {
    var p := nodes[x].parent;
    if p.Null? then Null
    else if IsLeftChild(nodes, x) then nodes[p.index].right
    else nodes[p.index].left
  }

  // ---------------------------------------------------------------- rb_transplant

  /** `rb_transplant`: `v` takes `u`'s place, in the slot of `u`'s parent that holds `u`
      (the right one unless the left one does) or in the root slot, and gets `u`'s parent. */
  function Transplant<V>(t: RbTree<V>, u: nat, v: Ptr): (r: RbTree<V>)
    requires Closed(t) && u < |t.nodes| && InArena(t.nodes, v)
    ensures Closed(r) && Relinked(t.nodes, r.nodes) && r.length == t.length
  {
    var up := t.nodes[u].parent;
    var t1 :=
      if up.Null? then t.(root := v)
      else if t.nodes[up.index].left == Ptr(u) then t.(nodes := SetChildAt(t.nodes, up.index, Left, v))
      else t.(nodes := SetChildAt(t.nodes, up.index, Right, v));
    if v.Ptr? then t1.(nodes := SetParentAt(t1.nodes, v.index, up)) else t1
  }

  /** The arena after `v` replaced `u`: `u`'s parent names `v` where it named `u`, `v` has
      `u`'s parent, every other node is as before. */
  ghost predicate TransplantedArena<V>(nodes: seq<Node<V>>, nodes': seq<Node<V>>, u: nat, v: Ptr) {
    && u < |nodes| && |nodes'| == |nodes|
    && var up := nodes[u].parent;
    && (up.Ptr? ==>
          && up.index < |nodes|
          && nodes'[up.index] == SetChild(nodes[up.index], if nodes[up.index].left == Ptr(u) then Left else Right, v))
    && (v.Ptr? ==> v.index < |nodes| && nodes'[v.index] == nodes[v.index].(parent := up))
    && forall i :: 0 <= i < |nodes| && Ptr(i) != up && Ptr(i) != v ==> nodes'[i] == nodes[i]
  }

  lemma TransplantFacts<V>(t: RbTree<V>, u: nat, v: Ptr)
    requires Closed(t) && u < |t.nodes| && InArena(t.nodes, v)
    requires v.Ptr? && t.nodes[u].parent.Ptr? ==> v != t.nodes[u].parent
    ensures TransplantedArena(t.nodes, Transplant(t, u, v).nodes, u, v)
    ensures Transplant(t, u, v).root == if t.nodes[u].parent.Null? then v else t.root
  {
  }

  /** Splicing out a node with an empty slot on side `d`: its other subtree takes its place. */
  lemma TransplantShape<V>(nodes: seq<Node<V>>, nodes': seq<Node<V>>, s: Shape, par: Ptr, u: nat, d: Dir)
    requires Wf(nodes, s, par) && (par.Ptr? ==> par.index !in Indices(s))
    requires u in Indices(s) && u < |nodes| && Child(nodes[u], d).Null?
    requires TransplantedArena(nodes, nodes', u, Child(nodes[u], Flip(d)))
    ensures Sub(s, u).Branch? && Root(Side(Sub(s, u), Flip(d))) == Child(nodes[u], Flip(d))
    ensures Wf(nodes', Replace(s, u, Side(Sub(s, u), Flip(d))), par)
    ensures Root(Replace(s, u, Side(Sub(s, u), Flip(d)))) ==
              if u == s.index then Child(nodes[u], Flip(d)) else Root(s)
  {
    TransplantKept(nodes, nodes', s, par, u, d);
    var n := Side(Sub(s, u), Flip(d));
    forall j | j in Outside(s, u) ensures Redirected(nodes, nodes', j, u, Root(n)) {
      TransplantOutside(nodes, nodes', s, par, u, d, j);
    }
    ReplaceWf(nodes, nodes', s, par, u, n);
    ReplaceRoot(s, u, n);
  }

  /** The subtree that moves up keeps its links, but for its root's parent. */
  lemma TransplantKept<V>(nodes: seq<Node<V>>, nodes': seq<Node<V>>, s: Shape, par: Ptr, u: nat, d: Dir)
    requires Wf(nodes, s, par) && (par.Ptr? ==> par.index !in Indices(s))
    requires u in Indices(s) && u < |nodes| && Child(nodes[u], d).Null?
    requires TransplantedArena(nodes, nodes', u, Child(nodes[u], Flip(d)))
    ensures Sub(s, u).Branch? && Root(Side(Sub(s, u), Flip(d))) == Child(nodes[u], Flip(d))
    ensures Wf(nodes', Side(Sub(s, u), Flip(d)), nodes[u].parent)
    ensures Indices(Side(Sub(s, u), Flip(d))) !! Outside(s, u)
  {
    SubWf(nodes, s, par, u);
    var us := Sub(s, u);
    WfBranchD(nodes, d, Side(us, d), u, Side(us, Flip(d)), nodes[u].parent);
    var n := Side(us, Flip(d));
    var up := nodes[u].parent;
    LinksInArena(nodes, s);
    forall j | j in Indices(n) ensures SameChildren(nodes, nodes', j) && (Ptr(j) != Root(n) ==> SameParent(nodes, nodes', j)) {
      assert j in Indices(us);
      assert Ptr(j) != up;
    }
    Frame(nodes, nodes', n, Ptr(u), up);
  }

  /** A node outside the spliced subtree keeps its links, but a link to `u` now leads to its
      replacement. */
  lemma TransplantOutside<V>(nodes: seq<Node<V>>, nodes': seq<Node<V>>, s: Shape, par: Ptr, u: nat, d: Dir, j: nat)
    requires Wf(nodes, s, par) && (par.Ptr? ==> par.index !in Indices(s))
    requires u in Indices(s) && u < |nodes| && j in Outside(s, u)
    requires TransplantedArena(nodes, nodes', u, Child(nodes[u], Flip(d)))
    ensures Redirected(nodes, nodes', j, u, Child(nodes[u], Flip(d)))
  {
    SubWf(nodes, s, par, u);
    var v := Child(nodes[u], Flip(d));
    if v.Ptr? {
      ChildLinkIsParent(nodes, s, par, u, v.index);
      assert v.index in Indices(Sub(s, u)) by {
        ChildLinkIsParent(nodes, Sub(s, u), nodes[u].parent, u, v.index);
      }
    }
    LinksInArena(nodes, s);
    if Ptr(j) == nodes[u].parent {
      ParentInside(nodes, s, par, u);
      DistinctChildren(nodes, s, par, j);
    } else if nodes[j].left == Ptr(u) || nodes[j].right == Ptr(u) {
      ChildLinkIsParent(nodes, s, par, j, u);
    }
  }

  // ---------------------------------------------------------------- delete

  /** Lines 100-103 and 107-110 of `delete`: `c` becomes `y`'s child on side `d`, and `y` its parent. */
  function Adopt<V>(t: RbTree<V>, y: nat, d: Dir, c: Ptr): (r: RbTree<V>)
    requires Closed(t) && y < |t.nodes| && InArena(t.nodes, c)
    ensures Closed(r) && Relinked(t.nodes, r.nodes) && r.root == t.root && r.length == t.length
  {
    var t1 := t.(nodes := SetChildAt(t.nodes, y, d, c));
    if c.Ptr? then t1.(nodes := SetParentAt(t1.nodes, c.index, Ptr(y))) else t1
  }

  /** The arena after `y` adopted `c` on side `d`. */
  ghost predicate AdoptedArena<V>(nodes: seq<Node<V>>, nodes': seq<Node<V>>, y: nat, d: Dir, c: Ptr) {
    && y < |nodes| && |nodes'| == |nodes|
    && nodes'[y] == SetChild(nodes[y], d, c)
    && (c.Ptr? ==> c.index < |nodes| && nodes'[c.index] == nodes[c.index].(parent := Ptr(y)))
    && forall i :: 0 <= i < |nodes| && i != y && Ptr(i) != c ==> nodes'[i] == nodes[i]
  }

  lemma AdoptFacts<V>(t: RbTree<V>, y: nat, d: Dir, c: Ptr)
    requires Closed(t) && y < |t.nodes| && InArena(t.nodes, c) && c != Ptr(y)
    ensures AdoptedArena(t.nodes, Adopt(t, y, d, c).nodes, y, d, c)
  {
  }

  /** `find_min` of the right subtree of `z`: the in-order successor of a node with two children. */
  function Successor<V>(t: RbTree<V>, z: nat): (y: nat)
    requires WellLinked(t) && z in Indices(Abs(t)) && z < |t.nodes| && t.nodes[z].right.Ptr?
    ensures Sub(Abs(t), z).Branch? && y in Indices(Sub(Abs(t), z).right) && y < |t.nodes|
    ensures Sub(Sub(Abs(t), z).right, y).Branch? && Sub(Sub(Abs(t), z).right, y).left == Leaf
    ensures Before(Sub(Abs(t), z).right, y) == []
  {
    SubLinks(t.nodes, Abs(t), z);
    var y := FindMin(t.nodes, t.nodes[z].right.index, Sub(Abs(t), z).right);
    SubLinks(t.nodes, Sub(Abs(t), z).right, y);
    y
  }

  /** Lines 90-104 of `delete`: takes the successor `y` out of `z`'s right subtree. When `y`
      is `z`'s own child it stays where it is and only `x`'s parent link is written (to `z`
      as written, to `y` when repaired); otherwise `x` takes `y`'s place and `y` adopts
      `z`'s right subtree. */
  function Detach<V>(t: RbTree<V>, z: nat, y: nat, e: Edition): (r: RbTree<V>)
    requires Closed(t) && z < |t.nodes| && y < |t.nodes|
    ensures Closed(r) && Relinked(t.nodes, r.nodes) && r.length == t.length
  {
    var x := t.nodes[y].right;
    if t.nodes[y].parent == Ptr(z) then
      if x.Ptr? then t.(nodes := SetParentAt(t.nodes, x.index, if e == AsWritten then Ptr(z) else Ptr(y))) else t
    else
      var ty := Transplant(t, y, x);
      Adopt(ty, y, Right, ty.nodes[z].right)
  }

  /** Lines 106-111 of `delete`: `y` takes `z`'s place, left subtree and colour. */
  function Graft<V>(t: RbTree<V>, z: nat, y: nat): (r: RbTree<V>)
    requires Closed(t) && z < |t.nodes| && y < |t.nodes|
    ensures Closed(r) && SameEntries(t.nodes, r.nodes) && r.length == t.length && |r.nodes| == |t.nodes|
  {
    var t2 := Transplant(t, z, Ptr(y));
    var t3 := Adopt(t2, y, Left, t2.nodes[z].left);
    RelinkedSameEntries(t.nodes, t3.nodes);
    SetColor(t3, Ptr(y), t3.nodes[z].color)
  }

  /** Lines 75-112 of `delete`: unlinks node `z` and counts it out. Gives the tree, the node
      `x` that moved into the vacated place (where `delete_fixup` starts), and the colour
      that left the tree there (`y_og_color`). With two children, `z`'s successor `y` takes
      its place and colour; as written, `x` is then linked to `z` when `y` was `z`'s child. */
  function Unlink<V>(t: RbTree<V>, z: nat, e: Edition): (r: (RbTree<V>, Ptr, Color))
    requires WellLinked(t) && z in Indices(Abs(t)) && z < |t.nodes|
    ensures Closed(r.0) && SameEntries(t.nodes, r.0.nodes) && r.0.length == t.length - 1
    ensures InArena(r.0.nodes, r.1)
  {
    var n := t.nodes[z];
    if n.left.Null? then
      var t1 := Transplant(t, z, n.right);
      RelinkedSameEntries(t.nodes, t1.nodes);
      (t1.(length := t.length - 1), n.right, n.color)
    else if n.right.Null? then
      var t1 := Transplant(t, z, n.left);
      RelinkedSameEntries(t.nodes, t1.nodes);
      (t1.(length := t.length - 1), n.left, n.color)
    else
      var y := Successor(t, z);
      var t1 := Detach(t, z, y, e);
      (Graft(t1, z, y).(length := t.length - 1), t.nodes[y].right, t.nodes[y].color)
  }

  // ---------------------------------------------------------------- what unlinking does

  /** The in-order nodes before `z`, and after it. */
  ghost function Preceding(s: Shape, z: nat): seq<nat> {
    Before(s, z) + if Sub(s, z).Branch? then InOrder(Sub(s, z).left) else []
  }

  ghost function Following(s: Shape, z: nat): seq<nat> {
    (if Sub(s, z).Branch? then InOrder(Sub(s, z).right) else []) + After(s, z)
  }

  lemma AroundNode<V>(nodes: seq<Node<V>>, s: Shape, par: Ptr, z: nat)
    requires Wf(nodes, s, par) && z in Indices(s)
    ensures InOrder(s) == Preceding(s, z) + [z] + Following(s, z)
  {
    SubWf(nodes, s, par, z);
  }

  /** `r` is `t` with node `z` unlinked: a linked tree of the other nodes, in the same order;
      the node `x` where the fix-up starts is one of them; and a Black root stays Black
      unless `x` took the root's place and a Black node left the tree. */
  ghost predicate Unlinked<V>(t: RbTree<V>, u: (RbTree<V>, Ptr, Color), z: nat) {
    && Linked(u.0)
    && Indices(Abs(u.0)) == Indices(Abs(t)) - {z}
    && InOrder(Abs(u.0)) == Preceding(Abs(t), z) + Following(Abs(t), z)
    && (u.1.Ptr? ==> u.1.index in Indices(Abs(u.0)))
    && (Closed(t) && RootBlack(t) ==> RootBlack(u.0) || (u.0.root == u.1 && u.2 == Black))
  }

  /** A node with an empty slot is replaced by its other subtree. */
  lemma UnlinkOneSide<V>(t: RbTree<V>, z: nat, e: Edition)
    requires Linked(t) && z in Indices(Abs(t)) && z < |t.nodes|
    requires t.nodes[z].left.Null? || t.nodes[z].right.Null?
    ensures Unlinked(t, Unlink(t, z, e), z)
  {
    var nodes := t.nodes;
    var s := Abs(t);
    var d := if nodes[z].left.Null? then Left else Right;
    var v := Child(nodes[z], Flip(d));
    TransplantLinked(t, z, d);
    var t1 := Transplant(t, z, v);
    var r := Unlink(t, z, e).0;
    assert r == t1.(length := t.length - 1);
    AbsIs(r, Abs(t1));
    SplicedOut(nodes, s, z, d);
    if v.Ptr? {
      SubWf(nodes, s, Null, z);
      assert v.index in Indices(Side(Sub(s, z), Flip(d)));
    }
    if t.root.Ptr? && t.root != v {
      RelinkedAt(nodes, t1.nodes, t.root.index);
    }
  }

  /** `rb_transplant` of a node with an empty slot on side `d` by its other child leaves a
      linked tree: the old one with that child's subtree in the node's place. */
  lemma TransplantLinked<V>(t: RbTree<V>, z: nat, d: Dir)
    requires Linked(t) && z in Indices(Abs(t)) && z < |t.nodes| && Child(t.nodes[z], d).Null?
    ensures Sub(Abs(t), z).Branch?
    ensures Linked(Transplant(t, z, Child(t.nodes[z], Flip(d))))
    ensures Abs(Transplant(t, z, Child(t.nodes[z], Flip(d)))) == Replace(Abs(t), z, Side(Sub(Abs(t), z), Flip(d)))
    ensures Transplant(t, z, Child(t.nodes[z], Flip(d))).root ==
              if t.root == Ptr(z) then Child(t.nodes[z], Flip(d)) else t.root
  {
    var nodes := t.nodes;
    var s := Abs(t);
    var v := Child(nodes[z], Flip(d));
    SubWf(nodes, s, Null, z);
    if v.Ptr? {
      ChildLinkIsParent(nodes, Sub(s, z), nodes[z].parent, z, v.index);
    }
    TransplantFacts(t, z, v);
    var t1 := Transplant(t, z, v);
    TransplantShape(nodes, t1.nodes, s, Null, z, d);
    ParentInside(nodes, s, Null, z);
    AbsIs(t1, Replace(s, z, Side(Sub(s, z), Flip(d))));
  }

  /** Replacing node `z`, whose slot on side `d` is empty, by its other subtree removes `z`
      and nothing else, in place. */
  lemma SplicedOut<V>(nodes: seq<Node<V>>, s: Shape, z: nat, d: Dir)
    requires Links(nodes, s) && z in Indices(s) && z < |nodes| && Child(nodes[z], d).Null?
    ensures Sub(s, z).Branch?
    ensures Indices(Replace(s, z, Side(Sub(s, z), Flip(d)))) == Indices(s) - {z}
    ensures InOrder(Replace(s, z, Side(Sub(s, z), Flip(d)))) == Preceding(s, z) + Following(s, z)
    ensures Indices(Side(Sub(s, z), Flip(d))) <= Indices(s) - {z}
  {
    SubLinks(nodes, s, z);
    var us := Sub(s, z);
    var n := Side(us, Flip(d));
    assert Side(us, d) == Leaf;
    SplicedOutOrder(s, z, n);
    SplicedOutIndices(nodes, s, z, n);
  }

  lemma SplicedOutOrder(s: Shape, z: nat, n: Shape)
    requires z in Indices(s) && Sub(s, z).Branch?
    requires (Sub(s, z).left == Leaf && n == Sub(s, z).right) || (Sub(s, z).right == Leaf && n == Sub(s, z).left)
    ensures InOrder(Replace(s, z, n)) == Preceding(s, z) + Following(s, z)
  {
    var zs := Sub(s, z);
    ReplaceInOrder(s, z, n);
    assert InOrder(n) == InOrder(zs.left) + InOrder(zs.right);
    Regrouped(s, z, InOrder(n));
  }

  /** Whatever takes the place of a node and its subtrees, in their in-order, leaves the
      nodes before and after the removed node around it. */
  lemma Regrouped(s: Shape, z: nat, mid: seq<nat>)
    requires Sub(s, z).Branch? && mid == InOrder(Sub(s, z).left) + InOrder(Sub(s, z).right)
    ensures Before(s, z) + mid + After(s, z) == Preceding(s, z) + Following(s, z)
  {
    var zs := Sub(s, z);
    Regroup(Before(s, z), InOrder(zs.left), InOrder(zs.right), After(s, z));
  }

  lemma SplicedOutIndices<V>(nodes: seq<Node<V>>, s: Shape, z: nat, n: Shape)
    requires Links(nodes, s) && z in Indices(s) && Sub(s, z).Branch?
    requires (Sub(s, z).left == Leaf && n == Sub(s, z).right) || (Sub(s, z).right == Leaf && n == Sub(s, z).left)
    ensures Indices(Replace(s, z, n)) == Indices(s) - {z}
    ensures Indices(n) <= Indices(s) - {z}
  {
    SubLinks(nodes, s, z);
    var us := Sub(s, z);
    assert Indices(us) == Indices(us.left) + {z} + Indices(us.right);
    ReplaceIndices(nodes, s, z, n);
  }

  // ---------------------------------------------------------------- the successor takes z's place

  /** The arena after `Graft`: `z`'s parent (or the root slot) names `y` in `z`'s place, `y`
      has `z`'s parent, left child and colour, that child has `y` as parent, and every other
      node is as before. */
  ghost predicate GraftedArena<V>(nodes: seq<Node<V>>, nodes': seq<Node<V>>, z: nat, y: nat) {
    && z < |nodes| && y < |nodes| && |nodes'| == |nodes|
    && var up := nodes[z].parent;
    && var lz := nodes[z].left;
    && (up.Ptr? ==>
          && up.index < |nodes|
          && nodes'[up.index] == SetChild(nodes[up.index], if nodes[up.index].left == Ptr(z) then Left else Right, Ptr(y)))
    && nodes'[y] == nodes[y].(parent := up, left := lz, color := nodes[z].color)
    && (lz.Ptr? ==> lz.index < |nodes| && nodes'[lz.index] == nodes[lz.index].(parent := Ptr(y)))
    && forall i :: 0 <= i < |nodes| && i != y && Ptr(i) != up && Ptr(i) != lz ==> nodes'[i] == nodes[i]
  }

  lemma GraftFacts<V>(t: RbTree<V>, z: nat, y: nat)
    requires Closed(t) && z < |t.nodes| && y < |t.nodes| && y != z
    requires Ptr(y) != t.nodes[z].parent && Ptr(y) != t.nodes[z].left
    requires t.nodes[z].left.Ptr? ==> t.nodes[z].left != t.nodes[z].parent
    ensures GraftedArena(t.nodes, Graft(t, z, y).nodes, z, y)
    ensures Graft(t, z, y).root == if t.nodes[z].parent.Null? then Ptr(y) else t.root
  {
    TransplantFacts(t, z, Ptr(y));
    var t2 := Transplant(t, z, Ptr(y));
    AdoptFacts(t2, y, Left, t2.nodes[z].left);
  }

  /** Where `y` and `z`'s neighbours sit before `Graft`, in an arena `nb` that differs from
      the arena `n0` of the well-formed tree `s` only inside `z`'s right subtree. */
  lemma GraftSite<V>(n0: seq<Node<V>>, nb: seq<Node<V>>, s: Shape, z: nat, y: nat)
    requires Wf(n0, s, Null) && z in Indices(s) && z < |n0| && y < |n0|
    requires Sub(s, z).Branch? && y in Indices(Sub(s, z).right)
    requires |nb| == |n0|
    requires forall j :: 0 <= j < |n0| && j !in Indices(Sub(s, z).right) ==> nb[j] == n0[j]
    ensures nb[z] == n0[z] && y != z
    ensures Ptr(y) != n0[z].parent && Ptr(y) != n0[z].left
    ensures n0[z].left.Ptr? ==> n0[z].left != n0[z].parent
    ensures n0[z].parent.Ptr? ==> n0[z].parent.index !in Indices(Sub(s, z))
  {
    SubWf(n0, s, Null, z);
    var zs := Sub(s, z);
    if zs.left.Branch? {
      assert zs.left.index in Indices(zs);
    }
  }

  /** The subtree `y` roots after `Graft`: `z`'s left subtree, `y`, and `n`. */
  lemma GraftInside<V>(n0: seq<Node<V>>, nb: seq<Node<V>>, n4: seq<Node<V>>, s: Shape, z: nat, y: nat, n: Shape)
    requires Wf(n0, s, Null) && z in Indices(s) && z < |n0| && y < |n0| && n0[z].left.Ptr?
    requires Sub(s, z).Branch? && y in Indices(Sub(s, z).right)
    requires |nb| == |n0|
    requires forall j :: 0 <= j < |n0| && j !in Indices(Sub(s, z).right) ==> nb[j] == n0[j]
    requires Wf(nb, n, Ptr(y)) && nb[y].right == Root(n)
    requires y !in Indices(n) && Indices(n) <= Indices(Sub(s, z).right)
    requires GraftedArena(nb, n4, z, y)
    ensures Wf(n4, Branch(Sub(s, z).left, y, n), n0[z].parent)
  {
    GraftSite(n0, nb, s, z, y);
    GraftLeft(n0, nb, n4, s, z, y);
    GraftRight(n0, nb, n4, s, z, y, n);
    SubWf(n0, s, Null, z);
  }

  lemma GraftLeft<V>(n0: seq<Node<V>>, nb: seq<Node<V>>, n4: seq<Node<V>>, s: Shape, z: nat, y: nat)
    requires Wf(n0, s, Null) && z in Indices(s) && z < |n0| && y < |n0|
    requires Sub(s, z).Branch? && y in Indices(Sub(s, z).right)
    requires |nb| == |n0|
    requires forall j :: 0 <= j < |n0| && j !in Indices(Sub(s, z).right) ==> nb[j] == n0[j]
    requires y != z && Ptr(y) != nb[z].parent && Ptr(y) != nb[z].left
    requires nb[z].left.Ptr? ==> nb[z].left != nb[z].parent
    requires GraftedArena(nb, n4, z, y)
    ensures Wf(n4, Sub(s, z).left, Ptr(y))
  {
    SubWf(n0, s, Null, z);
    var zs := Sub(s, z);
    var l := zs.left;
    LinksInArena(n0, s);
    assert nb[z] == n0[z];
    forall j | j in Indices(l) ensures SameChildren(n0, n4, j) && (Ptr(j) != Root(l) ==> SameParent(n0, n4, j)) {
      assert j in Indices(zs) && j !in Indices(zs.right);
    }
    Frame(n0, n4, l, Ptr(z), Ptr(y));
  }

  lemma GraftRight<V>(n0: seq<Node<V>>, nb: seq<Node<V>>, n4: seq<Node<V>>, s: Shape, z: nat, y: nat, n: Shape)
    requires Wf(n0, s, Null) && z in Indices(s) && z < |n0| && y < |n0|
    requires Sub(s, z).Branch? && y in Indices(Sub(s, z).right)
    requires |nb| == |n0|
    requires forall j :: 0 <= j < |n0| && j !in Indices(Sub(s, z).right) ==> nb[j] == n0[j]
    requires Wf(nb, n, Ptr(y)) && y !in Indices(n) && Indices(n) <= Indices(Sub(s, z).right)
    requires GraftedArena(nb, n4, z, y)
    ensures Wf(n4, n, Ptr(y))
  {
    SubWf(n0, s, Null, z);
    var zs := Sub(s, z);
    LinksInArena(n0, s);
    assert nb[z] == n0[z];
    forall j | j in Indices(n) ensures SameChildren(nb, n4, j) && (Ptr(j) != Root(n) ==> SameParent(nb, n4, j)) {
      assert j in Indices(zs) && j !in Indices(zs.left);
    }
    Frame(nb, n4, n, Ptr(y), Ptr(y));
  }

  /** Outside `z`'s subtree, `Graft` only redirects the link to `z` to `y`. */
  lemma GraftOutside<V>(n0: seq<Node<V>>, nb: seq<Node<V>>, n4: seq<Node<V>>, s: Shape, z: nat, y: nat, j: nat)
    requires Wf(n0, s, Null) && z in Indices(s) && z < |n0| && y < |n0| && j in Outside(s, z)
    requires Sub(s, z).Branch? && y in Indices(Sub(s, z).right)
    requires |nb| == |n0|
    requires forall j :: 0 <= j < |n0| && j !in Indices(Sub(s, z).right) ==> nb[j] == n0[j]
    requires y != z && Ptr(y) != nb[z].parent && Ptr(y) != nb[z].left
    requires nb[z].left != nb[z].parent
    requires GraftedArena(nb, n4, z, y)
    ensures Redirected(n0, n4, j, z, Ptr(y))
  {
    SubWf(n0, s, Null, z);
    LinksInArena(n0, s);
    assert nb[z] == n0[z];
    assert nb[j] == n0[j];
    var zs := Sub(s, z);
    if zs.left.Branch? {
      assert zs.left.index in Indices(zs);
    }
    if Ptr(j) == n0[z].parent {
      ParentInside(n0, s, Null, z);
      DistinctChildren(n0, s, Null, j);
    } else if n0[j].left == Ptr(z) || n0[j].right == Ptr(z) {
      ChildLinkIsParent(n0, s, Null, j, z);
    }
  }

  /** `Graft` splices `y`, over `z`'s left subtree and `n`, into `z`'s place. */
  lemma GraftShape<V>(t: RbTree<V>, t1: RbTree<V>, z: nat, y: nat, n: Shape)
    requires Linked(t) && z in Indices(Abs(t)) && z < |t.nodes| && y < |t.nodes| && t.nodes[z].left.Ptr?
    requires Sub(Abs(t), z).Branch? && y in Indices(Sub(Abs(t), z).right)
    requires Closed(t1) && |t1.nodes| == |t.nodes| && t1.root == t.root
    requires forall j :: 0 <= j < |t.nodes| && j !in Indices(Sub(Abs(t), z).right) ==> t1.nodes[j] == t.nodes[j]
    requires Wf(t1.nodes, n, Ptr(y)) && t1.nodes[y].right == Root(n)
    requires y !in Indices(n) && Indices(n) <= Indices(Sub(Abs(t), z).right)
    ensures Linked(Graft(t1, z, y))
    ensures Abs(Graft(t1, z, y)) == Replace(Abs(t), z, Branch(Sub(Abs(t), z).left, y, n))
  {
    var s := Abs(t);
    var zs := Sub(s, z);
    var b := Branch(zs.left, y, n);
    GraftSite(t.nodes, t1.nodes, s, z, y);
    GraftFacts(t1, z, y);
    var r := Graft(t1, z, y);
    GraftInside(t.nodes, t1.nodes, r.nodes, s, z, y, n);
    forall j | j in Outside(s, z) ensures Redirected(t.nodes, r.nodes, j, z, Ptr(y)) {
      GraftOutside(t.nodes, t1.nodes, r.nodes, s, z, y, j);
    }
    SubWf(t.nodes, s, Null, z);
    assert Indices(zs) == Indices(zs.left) + {z} + Indices(zs.right);
    ReplaceWf(t.nodes, r.nodes, s, Null, z, b);
    ReplaceRoot(s, z, b);
    ParentInside(t.nodes, s, Null, z);
    AbsIs(r, Replace(s, z, b));
  }

  // ---------------------------------------------------------------- taking the successor out

  /** The successor is `z`'s right child exactly when its parent link names `z`; then it
      has no left subtree, and repaired `Detach` changes nothing. */
  lemma DetachChild<V>(t: RbTree<V>, z: nat)
    requires Linked(t) && z in Indices(Abs(t)) && z < |t.nodes|
    requires t.nodes[z].left.Ptr? && t.nodes[z].right.Ptr?
    requires t.nodes[Successor(t, z)].parent == Ptr(z)
    ensures Successor(t, z) == Sub(Abs(t), z).right.index
    ensures Sub(Abs(t), z).right.left == Leaf
    ensures Detach(t, z, Successor(t, z), Repaired) == t
  {
    var s := Abs(t);
    var y := Successor(t, z);
    SubWf(t.nodes, s, Null, z);
    var r := Sub(s, z).right;
    if y != r.index {
      ParentInside(t.nodes, r, Ptr(z), y);
    }
    var x := t.nodes[y].right;
    if x.Ptr? {
      ChildLinkIsParent(t.nodes, r, Ptr(z), y, x.index);
      var nodes' := SetParentAt(t.nodes, x.index, Ptr(y));
      assert nodes' == t.nodes;
    }
  }

  /** `r` with node `y` replaced by its right subtree. */
  ghost function Rest(r: Shape, y: nat): Shape {
    if Sub(r, y).Branch? then Replace(r, y, Sub(r, y).right) else r
  }

  /** Taking the leftmost node `y` out of `r` leaves the rest of `r`, in order. */
  lemma RestOrder<V>(nodes: seq<Node<V>>, r: Shape, par: Ptr, y: nat)
    requires Wf(nodes, r, par) && y in Indices(r) && Sub(r, y).Branch? && Sub(r, y).left == Leaf && Before(r, y) == []
    ensures {y} + Indices(Rest(r, y)) == Indices(r) && y !in Indices(Rest(r, y))
    ensures [y] + InOrder(Rest(r, y)) == InOrder(r)
    ensures Indices(Sub(r, y).right) <= Indices(Rest(r, y))
  {
    SubWf(nodes, r, par, y);
    RestIndices(nodes, r, y);
    RestInOrder(r, y);
  }

  lemma RestIndices<V>(nodes: seq<Node<V>>, r: Shape, y: nat)
    requires Links(nodes, r) && y in Indices(r) && Sub(r, y).Branch? && Sub(r, y).left == Leaf
    requires Sub(r, y).index == y && Links(nodes, Sub(r, y))
    ensures {y} + Indices(Rest(r, y)) == Indices(r) && y !in Indices(Rest(r, y))
    ensures Indices(Sub(r, y).right) <= Indices(Rest(r, y))
  {
    var ys := Sub(r, y);
    assert Indices(ys) == {y} + Indices(ys.right);
    ReplaceIndices(nodes, r, y, ys.right);
  }

  lemma RestInOrder(r: Shape, y: nat)
    requires y in Indices(r) && Sub(r, y).Branch? && Sub(r, y).index == y && Sub(r, y).left == Leaf && Before(r, y) == []
    requires InOrder(r) == Before(r, y) + InOrder(Sub(r, y)) + After(r, y)
    ensures [y] + InOrder(Rest(r, y)) == InOrder(r)
  {
    var ys := Sub(r, y);
    RestAfter(r, y);
    LeftmostInOrder(ys);
    Prepend(y, InOrder(ys.right), After(r, y));
  }

  lemma RestAfter(r: Shape, y: nat)
    requires y in Indices(r) && Sub(r, y).Branch? && Before(r, y) == []
    ensures InOrder(Rest(r, y)) == InOrder(Sub(r, y).right) + After(r, y)
  {
    ReplaceInOrder(r, y, Sub(r, y).right);
  }

  lemma LeftmostInOrder(s: Shape)
    requires s.Branch? && s.left == Leaf
    ensures InOrder(s) == [s.index] + InOrder(s.right)
  {
  }

  lemma Prepend(y: nat, m: seq<nat>, a: seq<nat>)
    ensures [y] + (m + a) == [] + ([y] + m) + a
  {
  }

  /** When the successor `y` lies deeper, `Detach` replaces it by its right subtree and
      hangs the rest of `z`'s right subtree below `y`; nothing outside that subtree changes. */
  lemma DetachDeep<V>(t: RbTree<V>, z: nat, y: nat, e: Edition)
    requires Linked(t) && z in Indices(Abs(t)) && z < |t.nodes| && y < |t.nodes|
    requires Sub(Abs(t), z).Branch? && y in Indices(Sub(Abs(t), z).right) && t.nodes[y].parent != Ptr(z)
    requires Sub(Sub(Abs(t), z).right, y).Branch? && Sub(Sub(Abs(t), z).right, y).left == Leaf
    requires Before(Sub(Abs(t), z).right, y) == []
    ensures Closed(Detach(t, z, y, e)) && |Detach(t, z, y, e).nodes| == |t.nodes|
    ensures Detach(t, z, y, e).root == t.root
    ensures forall j :: 0 <= j < |t.nodes| && j !in Indices(Sub(Abs(t), z).right) ==> Detach(t, z, y, e).nodes[j] == t.nodes[j]
    ensures Wf(Detach(t, z, y, e).nodes, Rest(Sub(Abs(t), z).right, y), Ptr(y))
    ensures Detach(t, z, y, e).nodes[y].right == Root(Rest(Sub(Abs(t), z).right, y))
  {
    var s := Abs(t);
    var n0 := t.nodes;
    SubWf(n0, s, Null, z);
    var r := Sub(s, z).right;
    assert Wf(n0, r, Ptr(z));
    assert n0[r.index].parent == Ptr(z);
    var x := n0[y].right;
    ParentInside(n0, r, Ptr(z), y);
    ChildNotParent(n0, r, Ptr(z), y, Right);
    TransplantFacts(t, y, x);
    var ty := Transplant(t, y, x);
    DeepTransplant(n0, ty.nodes, r, z, y);
    assert ty.nodes[z] == n0[z];
    var t1 := Detach(t, z, y, e);
    assert t1 == Adopt(ty, y, Right, ty.nodes[z].right);
    AdoptRest(ty, y, r, Rest(r, y), Ptr(z));
  }

  /** A child link never names the node's own parent. */
  lemma ChildNotParent<V>(nodes: seq<Node<V>>, s: Shape, par: Ptr, u: nat, d: Dir)
    requires Wf(nodes, s, par) && (par.Ptr? ==> par.index !in Indices(s)) && u in Indices(s) && u < |nodes|
    ensures Child(nodes[u], d).Ptr? ==> Child(nodes[u], d) != nodes[u].parent
  {
    SubWf(nodes, s, par, u);
    var c := Child(nodes[u], d);
    if c.Ptr? {
      ChildLinkIsParent(nodes, Sub(s, u), nodes[u].parent, u, c.index);
    }
  }

  /** `y` adopting the root of a well-formed subtree `n` it is not part of. */
  lemma AdoptRest<V>(t: RbTree<V>, y: nat, r: Shape, n: Shape, par: Ptr)
    requires Closed(t) && y < |t.nodes| && Wf(t.nodes, n, par) && y !in Indices(n) && r.Branch? && Root(n) == Root(r)
    ensures Wf(Adopt(t, y, Right, Root(n)).nodes, n, Ptr(y))
    ensures Adopt(t, y, Right, Root(n)).nodes[y].right == Root(n)
    ensures forall j :: 0 <= j < |t.nodes| && j != y && Ptr(j) != Root(n) ==> Adopt(t, y, Right, Root(n)).nodes[j] == t.nodes[j]
  {
    LinksInArena(t.nodes, n);
    AdoptFacts(t, y, Right, Root(n));
    var t1 := Adopt(t, y, Right, Root(n));
    forall j | j in Indices(n) ensures SameChildren(t.nodes, t1.nodes, j) && (Ptr(j) != Root(n) ==> SameParent(t.nodes, t1.nodes, j)) {
    }
    Frame(t.nodes, t1.nodes, n, par, Ptr(y));
  }

  /** `rb_transplant(y, x)` for the leftmost node `y` of `r` other than its root. */
  lemma DeepTransplant<V>(nodes: seq<Node<V>>, nodes': seq<Node<V>>, r: Shape, z: nat, y: nat)
    requires Wf(nodes, r, Ptr(z)) && z !in Indices(r) && y in Indices(r) && r.index != y
    requires Sub(r, y).Branch? && Sub(r, y).left == Leaf && Before(r, y) == []
    requires y < |nodes| && TransplantedArena(nodes, nodes', y, nodes[y].right)
    ensures Wf(nodes', Rest(r, y), Ptr(z))
    ensures Root(Rest(r, y)) == Root(r) && Indices(Rest(r, y)) <= Indices(r) && y !in Indices(Rest(r, y))
    ensures forall j :: 0 <= j < |nodes| && j !in Indices(r) ==> nodes'[j] == nodes[j]
  {
    LinksInArena(nodes, r);
    ParentInside(nodes, r, Ptr(z), y);
    SubWf(nodes, r, Ptr(z), y);
    var x := nodes[y].right;
    if x.Ptr? {
      ChildLinkIsParent(nodes, Sub(r, y), nodes[y].parent, y, x.index);
    }
    TransplantShape(nodes, nodes', r, Ptr(z), y, Left);
    RestOrder(nodes, r, Ptr(z), y);
  }

  /** What is left of `z`'s subtree once its successor `y` has taken its place, over `n`,
      the rest of `z`'s right subtree `r`. */
  lemma GraftOrder<V>(nodes: seq<Node<V>>, s: Shape, z: nat, y: nat, n: Shape)
    requires Links(nodes, s) && z in Indices(s) && Sub(s, z).Branch?
    requires {y} + Indices(n) == Indices(Sub(s, z).right) && y !in Indices(n)
    requires [y] + InOrder(n) == InOrder(Sub(s, z).right)
    ensures Indices(Replace(s, z, Branch(Sub(s, z).left, y, n))) == Indices(s) - {z}
    ensures InOrder(Replace(s, z, Branch(Sub(s, z).left, y, n))) == Preceding(s, z) + Following(s, z)
  {
    GraftInOrder(s, z, y, n);
    GraftIndices(nodes, s, z, y, n);
  }

  lemma GraftInOrder(s: Shape, z: nat, y: nat, n: Shape)
    requires z in Indices(s) && Sub(s, z).Branch?
    requires [y] + InOrder(n) == InOrder(Sub(s, z).right)
    ensures InOrder(Replace(s, z, Branch(Sub(s, z).left, y, n))) == Preceding(s, z) + Following(s, z)
  {
    var zs := Sub(s, z);
    var b := Branch(zs.left, y, n);
    ReplaceInOrder(s, z, b);
    assert InOrder(b) == InOrder(zs.left) + InOrder(zs.right) by {
      assert InOrder(b) == InOrder(zs.left) + [y] + InOrder(n);
    }
    Regrouped(s, z, InOrder(b));
  }

  lemma Regroup(a: seq<nat>, l: seq<nat>, r: seq<nat>, b: seq<nat>)
    ensures a + (l + r) + b == (a + l) + (r + b)
  {
  }

  lemma GraftIndices<V>(nodes: seq<Node<V>>, s: Shape, z: nat, y: nat, n: Shape)
    requires Links(nodes, s) && z in Indices(s) && Sub(s, z).Branch?
    requires {y} + Indices(n) == Indices(Sub(s, z).right) && y !in Indices(n)
    ensures Indices(Replace(s, z, Branch(Sub(s, z).left, y, n))) == Indices(s) - {z}
  {
    var zs := Sub(s, z);
    var b := Branch(zs.left, y, n);
    SubLinks(nodes, s, z);
    assert Indices(zs) == Indices(zs.left) + {z} + Indices(zs.right);
    assert Indices(b) == Indices(zs.left) + Indices(zs.right);
    ReplaceIndices(nodes, s, z, b);
  }

  /** `Unlink` of a node with two children is `Detach` followed by `Graft`. */
  lemma UnlinkIsGraft<V>(t: RbTree<V>, z: nat, e: Edition)
    requires WellLinked(t) && z in Indices(Abs(t)) && z < |t.nodes|
    requires t.nodes[z].left.Ptr? && t.nodes[z].right.Ptr?
    ensures Unlink(t, z, e).0 == Graft(Detach(t, z, Successor(t, z), e), z, Successor(t, z)).(length := t.length - 1)
    ensures Unlink(t, z, e).1 == t.nodes[Successor(t, z)].right
    ensures Unlink(t, z, e).2 == t.nodes[Successor(t, z)].color
  {
  }

  /** A node with two children is replaced by its successor. */
  lemma UnlinkTwo<V>(t: RbTree<V>, z: nat)
    requires Linked(t) && z in Indices(Abs(t)) && z < |t.nodes|
    requires t.nodes[z].left.Ptr? && t.nodes[z].right.Ptr?
    ensures Unlinked(t, Unlink(t, z, Repaired), z)
  {
    var s := Abs(t);
    var y := Successor(t, z);
    var t1 := Detach(t, z, y, Repaired);
    var g := Graft(t1, z, y);
    UnlinkIsGraft(t, z, Repaired);
    UnlinkTwoShape(t, z, y, t1);
    GraftColor(t, t1, z, y);
    var zs := Sub(s, z);
    UnlinkTwoOrder(t.nodes, s, z, y, Replace(s, z, Branch(zs.left, y, Rest(zs.right, y))));
    var u := Unlink(t, z, Repaired).0;
    assert u.nodes == g.nodes && u.root == g.root;
    assert Abs(u) == Abs(g);
  }

  /** The nodes and order of the tree after `Unlink` replaces `z` by its successor `y`. */
  lemma UnlinkTwoOrder<V>(nodes: seq<Node<V>>, s: Shape, z: nat, y: nat, sh: Shape)
    requires Wf(nodes, s, Null) && z in Indices(s)
    requires Sub(s, z).Branch? && y in Indices(Sub(s, z).right)
    requires Sub(Sub(s, z).right, y).Branch? && Sub(Sub(s, z).right, y).left == Leaf && Before(Sub(s, z).right, y) == []
    requires sh == Replace(s, z, Branch(Sub(s, z).left, y, Rest(Sub(s, z).right, y)))
    ensures Indices(sh) == Indices(s) - {z}
    ensures InOrder(sh) == Preceding(s, z) + Following(s, z)
    ensures y < |nodes| && (nodes[y].right.Ptr? ==> nodes[y].right.index in Indices(sh))
  {
    SubWf(nodes, s, Null, z);
    var r := Sub(s, z).right;
    assert Wf(nodes, r, Ptr(z));
    SubWf(nodes, r, Ptr(z), y);
    RestOrder(nodes, r, Ptr(z), y);
    var n := Rest(r, y);
    GraftOrder(nodes, s, z, y, n);
    var x := nodes[y].right;
    if x.Ptr? {
      assert x.index in Indices(Sub(r, y).right);
    }
  }

  lemma UnlinkTwoShape<V>(t: RbTree<V>, z: nat, y: nat, t1: RbTree<V>)
    requires Linked(t) && z in Indices(Abs(t)) && z < |t.nodes|
    requires t.nodes[z].left.Ptr? && t.nodes[z].right.Ptr?
    requires y == Successor(t, z) && t1 == Detach(t, z, y, Repaired)
    ensures Sub(Abs(t), z).Branch?
    ensures Closed(t1) && |t1.nodes| == |t.nodes| && t1.root == t.root
    ensures forall j :: 0 <= j < |t.nodes| && j !in Indices(Sub(Abs(t), z).right) ==> t1.nodes[j] == t.nodes[j]
    ensures Linked(Graft(t1, z, y))
    ensures Abs(Graft(t1, z, y)) == Replace(Abs(t), z, Branch(Sub(Abs(t), z).left, y, Rest(Sub(Abs(t), z).right, y)))
  {
    var s := Abs(t);
    SubWf(t.nodes, s, Null, z);
    var r := Sub(s, z).right;
    RestOrder(t.nodes, r, Ptr(z), y);
    if t.nodes[y].parent == Ptr(z) {
      DetachChild(t, z);
      assert Wf(t.nodes, r, Ptr(z));
      GraftShape(t, t, z, y, Rest(r, y));
    } else {
      DetachDeep(t, z, y, Repaired);
      GraftShape(t, t1, z, y, Rest(r, y));
    }
  }

  /** `Graft` keeps a Black root Black. */
  lemma GraftColor<V>(t: RbTree<V>, t1: RbTree<V>, z: nat, y: nat)
    requires Linked(t) && z in Indices(Abs(t)) && z < |t.nodes| && y < |t.nodes|
    requires Sub(Abs(t), z).Branch? && y in Indices(Sub(Abs(t), z).right)
    requires Closed(t1) && |t1.nodes| == |t.nodes| && t1.root == t.root
    requires forall j :: 0 <= j < |t.nodes| && j !in Indices(Sub(Abs(t), z).right) ==> t1.nodes[j] == t.nodes[j]
    ensures RootBlack(t) ==> RootBlack(Graft(t1, z, y))
  {
    var s := Abs(t);
    GraftSite(t.nodes, t1.nodes, s, z, y);
    GraftFacts(t1, z, y);
    ParentInside(t.nodes, s, Null, z);
    var g := Graft(t1, z, y);
    if t.root == Ptr(z) {
      assert g.root == Ptr(y) && g.nodes[y].color == t.nodes[z].color;
    } else if t.root.Ptr? {
      var i := t.root.index;
      SubWf(t.nodes, s, Null, z);
      LinksInArena(t.nodes, s);
      var zs := Sub(s, z);
      RootOutside(t.nodes, s, z);
      if zs.left.Branch? {
        assert zs.left.index in Indices(zs);
      }
      assert g.root == t.root && g.nodes[i].color == t1.nodes[i].color == t.nodes[i].color;
    }
  }
}
