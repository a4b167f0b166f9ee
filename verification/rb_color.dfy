/**
  The colour rules of a red-black tree: no Red node has a Red child, and every path from
  a node down to an empty slot passes the same number of Black nodes. `in_fix_up`
  (src/rb_tree.rs:247-326) exists to restore them after an insertion.

  The first rule is also stated through parent links (`RedUnderRed`), which is how the
  fix-up loop sees it: in a linked tree the two forms agree (`NoRedRedByParents`).
 */
module RbColor {
  import opened RbArena
  import opened RbShape

  /** The node at `p` exists and is Red. */
  predicate IsRed<V>(nodes: seq<Node<V>>, p: Ptr) {
    p.Ptr? && p.index < |nodes| && nodes[p.index].color == Red
  }

  /** 1 for a Black node of the arena, 0 otherwise. */
  function Blackness<V>(nodes: seq<Node<V>>, i: nat): nat {
    if i < |nodes| && nodes[i].color == Black then 1 else 0
  }

  /** Every path from the root of `s` down to an empty slot passes `h` Black nodes. */
  ghost predicate BlackPaths<V>(nodes: seq<Node<V>>, s: Shape, h: int) {
    match s
    case Leaf => h == 0
    case Branch(l, i, r) => BlackPaths(nodes, l, h - Blackness(nodes, i)) && BlackPaths(nodes, r, h - Blackness(nodes, i))
  }

  /** The number of Black nodes on the leftmost path of `s`. */
  ghost function BlackHeight<V>(nodes: seq<Node<V>>, s: Shape): nat {
    match s
    case Leaf => 0
    case Branch(l, i, _) => BlackHeight(nodes, l) + Blackness(nodes, i)
  }

  /** Every path from the root of `s` down to an empty slot passes as many Black nodes. */
  ghost predicate Balanced<V>(nodes: seq<Node<V>>, s: Shape) {
    BlackPaths(nodes, s, BlackHeight(nodes, s))
  }

  /** No Red node of the tree has a Red child. */
  ghost predicate NoRedRed<V>(t: RbTree<V>) {
    forall j :: j in Indices(Abs(t)) && IsRed(t.nodes, Ptr(j)) ==>
      !IsRed(t.nodes, t.nodes[j].left) && !IsRed(t.nodes, t.nodes[j].right)
  }

  /** The colour rules of a red-black tree, with a Black root. */
  ghost predicate RedBlack<V>(t: RbTree<V>) {
    Closed(t) && RootBlack(t) && NoRedRed(t) && Balanced(t.nodes, Abs(t))
  }

  /** Node `j` is Red and so is its parent. */
  ghost predicate RedUnderRed<V>(nodes: seq<Node<V>>, j: nat) {
    j < |nodes| && nodes[j].color == Red && IsRed(nodes, nodes[j].parent)
  }

  /** No node of the tree other than `z` is Red under a Red parent. */
  ghost predicate RedRedOnlyAt<V>(t: RbTree<V>, z: Ptr) {
    forall j :: j in Indices(Abs(t)) && Ptr(j) != z ==> !RedUnderRed(t.nodes, j)
  }

  // ---------------------------------------------------------------- the two forms of the Red rule

  /** In a linked tree, no Red node has a Red child exactly when no Red node has a Red parent. */
  lemma NoRedRedByParents<V>(t: RbTree<V>)
    requires Linked(t)
    ensures NoRedRed(t) <==> RedRedOnlyAt(t, Null)
  {
    var s := Abs(t);
    if NoRedRed(t) {
      forall j | j in Indices(s) ensures !RedUnderRed(t.nodes, j) {
        ParentNotRed(t, j);
      }
    }
    if RedRedOnlyAt(t, Null) {
      forall j | j in Indices(s) && IsRed(t.nodes, Ptr(j))
        ensures !IsRed(t.nodes, t.nodes[j].left) && !IsRed(t.nodes, t.nodes[j].right)
      {
        RedChildren(t, j);
      }
    }
  }

  lemma ParentNotRed<V>(t: RbTree<V>, j: nat)
    requires Linked(t) && NoRedRed(t) && j in Indices(Abs(t))
    ensures !RedUnderRed(t.nodes, j)
  {
    var s := Abs(t);
    ParentInside(t.nodes, s, Null, j);
  }

  lemma RedChildren<V>(t: RbTree<V>, j: nat)
    requires Linked(t) && RedRedOnlyAt(t, Null) && j in Indices(Abs(t)) && IsRed(t.nodes, Ptr(j))
    ensures !IsRed(t.nodes, t.nodes[j].left) && !IsRed(t.nodes, t.nodes[j].right)
  {
    var s := Abs(t);
    var c := t.nodes[j].left;
    if IsRed(t.nodes, c) {
      ChildLinkIsParent(t.nodes, s, Null, j, c.index);
      assert RedUnderRed(t.nodes, c.index);
    }
    c := t.nodes[j].right;
    if IsRed(t.nodes, c) {
      ChildLinkIsParent(t.nodes, s, Null, j, c.index);
      assert RedUnderRed(t.nodes, c.index);
    }
  }

  // ---------------------------------------------------------------- black paths

  /** The count of Black nodes on every path is the count on the leftmost one. */
  lemma {:induction false} PathsHeight<V>(nodes: seq<Node<V>>, s: Shape, h: int)
    requires BlackPaths(nodes, s, h)
    ensures h == BlackHeight(nodes, s) && Balanced(nodes, s)
  {
    if s.Branch? {
      PathsHeight(nodes, s.left, h - Blackness(nodes, s.index));
    }
  }

  /** Black paths depend only on the colours of the subtree's own nodes. */
  lemma {:induction false} PathsFrame<V>(nodes: seq<Node<V>>, nodes': seq<Node<V>>, s: Shape, h: int)
    requires BlackPaths(nodes, s, h)
    requires forall j :: j in Indices(s) ==> Blackness(nodes', j) == Blackness(nodes, j)
    ensures BlackPaths(nodes', s, h)
  {
    if s.Branch? {
      assert Blackness(nodes', s.index) == Blackness(nodes, s.index);
      PathsFrame(nodes, nodes', s.left, h - Blackness(nodes, s.index));
      PathsFrame(nodes, nodes', s.right, h - Blackness(nodes, s.index));
    }
  }

  /** Every subtree of a balanced subtree is balanced. */
  lemma {:induction false} SubPaths<V>(nodes: seq<Node<V>>, s: Shape, h: int, u: nat)
    requires BlackPaths(nodes, s, h) && u in Indices(s)
    ensures BlackPaths(nodes, Sub(s, u), BlackHeight(nodes, Sub(s, u)))
  {
    match s
    case Branch(l, i, r) =>
      if i == u {
        PathsHeight(nodes, s, h);
      } else if u in Indices(l) {
        SubPaths(nodes, l, h - Blackness(nodes, i), u);
      } else {
        SubPaths(nodes, r, h - Blackness(nodes, i), u);
      }
  }

  /** Splicing in a subtree with the black height of the one it replaces keeps every path's
      count, when the nodes outside keep their colours. */
  lemma {:induction false} ReplacePaths<V>(nodes: seq<Node<V>>, nodes': seq<Node<V>>, s: Shape, h: int, u: nat, n: Shape)
    requires Links(nodes, s) && BlackPaths(nodes, s, h) && u in Indices(s)
    requires forall j :: j in Outside(s, u) ==> Blackness(nodes', j) == Blackness(nodes, j)
    requires BlackPaths(nodes', n, BlackHeight(nodes, Sub(s, u)))
    ensures BlackPaths(nodes', Replace(s, u, n), h)
  {
    match s
    case Branch(l, i, r) =>
      if i == u {
        PathsHeight(nodes, s, h);
      } else {
        SubInside(s, u);
        var b := Blackness(nodes, i);
        if u in Indices(l) {
          SubInside(l, u);
          assert i in Outside(s, u);
          assert Outside(l, u) <= Outside(s, u);
          ReplacePaths(nodes, nodes', l, h - b, u, n);
          assert Indices(r) <= Outside(s, u);
          PathsFrame(nodes, nodes', r, h - b);
        } else {
          SubInside(r, u);
          assert i in Outside(s, u);
          assert Outside(r, u) <= Outside(s, u);
          ReplacePaths(nodes, nodes', r, h - b, u, n);
          assert Indices(l) <= Outside(s, u);
          PathsFrame(nodes, nodes', l, h - b);
        }
      }
  }

  /** A balanced tree stays balanced when a subtree is replaced by one with the same black
      height, every node outside keeping its colour. */
  lemma ReplaceBalanced<V>(nodes: seq<Node<V>>, nodes': seq<Node<V>>, s: Shape, u: nat, n: Shape)
    requires Links(nodes, s) && Balanced(nodes, s) && u in Indices(s)
    requires forall j :: j in Outside(s, u) ==> Blackness(nodes', j) == Blackness(nodes, j)
    requires BlackPaths(nodes', n, BlackHeight(nodes, Sub(s, u)))
    ensures Balanced(nodes', Replace(s, u, n))
  {
    ReplacePaths(nodes, nodes', s, BlackHeight(nodes, s), u, n);
    PathsHeight(nodes', Replace(s, u, n), BlackHeight(nodes, s));
  }

  /** A branch seen by sides. */
  lemma PathsBranchD<V>(nodes: seq<Node<V>>, d: Dir, near: Shape, i: nat, far: Shape, h: int)
    ensures BlackPaths(nodes, BranchD(d, near, i, far), h) <==>
      BlackPaths(nodes, near, h - Blackness(nodes, i)) && BlackPaths(nodes, far, h - Blackness(nodes, i))
  {
  }

  /** Replacing a subtree by itself changes nothing. */
  lemma {:induction false} ReplaceSelf(s: Shape, u: nat)
    requires u in Indices(s)
    ensures Replace(s, u, Sub(s, u)) == s
  {
    match s
    case Branch(l, i, r) =>
      if i != u {
        if u in Indices(l) { ReplaceSelf(l, u); } else { ReplaceSelf(r, u); }
      }
  }
}
