/**
  The abstract tree an arena holds. A `Shape` names, for every node reachable from a
  root slot, its arena index and its two subtrees; `Wf` says the arena's child and
  parent links are exactly those of the shape. Every operation of the tree is proved
  correct by computing the shape it leaves behind.
 */
module RbShape {
  import opened RbArena

  datatype Shape = Leaf | Branch(left: Shape, index: nat, right: Shape)

  function Root(s: Shape): Ptr {
    if s.Leaf? then Null else Ptr(s.index)
  }

  /** The subtree on side `d`. */
  function Side(s: Shape, d: Dir): Shape
    requires s.Branch?
  {
    if d == Left then s.left else s.right
  }

  /** The branch with `near` on side `d` and `far` on the other side. */
  function BranchD(d: Dir, near: Shape, i: nat, far: Shape): (r: Shape)
    ensures r.Branch? && r.index == i && Side(r, d) == near && Side(r, Flip(d)) == far
  {
    if d == Left then Branch(near, i, far) else Branch(far, i, near)
  }

  ghost function Indices(s: Shape): set<nat> {
    match s
    case Leaf => {}
    case Branch(l, i, r) => Indices(l) + {i} + Indices(r)
  }

  /** Arena indices in key order: left subtree, node, right subtree. */
  ghost function InOrder(s: Shape): seq<nat> {
    match s
    case Leaf => []
    case Branch(l, i, r) => InOrder(l) + [i] + InOrder(r)
  }

  ghost function Height(s: Shape): nat {
    match s
    case Leaf => 0
    case Branch(l, _, r) => 1 + if Height(l) < Height(r) then Height(r) else Height(l)
  }

  /** The child links of the arena are those of `s`, and no node occurs twice in `s`. */
  ghost predicate Links<V>(nodes: seq<Node<V>>, s: Shape) {
    match s
    case Leaf => true
    case Branch(l, i, r) =>
      && i < |nodes| && nodes[i].left == Root(l) && nodes[i].right == Root(r)
      && Links(nodes, l) && Links(nodes, r)
      && i !in Indices(l) && i !in Indices(r) && Indices(l) !! Indices(r)
  }

  /** Every node of `s` links back to its parent in `s`; the root links to `par`. */
  ghost predicate Parents<V>(nodes: seq<Node<V>>, s: Shape, par: Ptr) {
    match s
    case Leaf => true
    case Branch(l, i, r) =>
      i < |nodes| && nodes[i].parent == par && Parents(nodes, l, Ptr(i)) && Parents(nodes, r, Ptr(i))
  }

  ghost predicate Wf<V>(nodes: seq<Node<V>>, s: Shape, par: Ptr) {
    Links(nodes, s) && Parents(nodes, s, par)
  }

  /** The shape reached from `p` by following child links at most `fuel` deep. */
  ghost function ShapeOf<V>(nodes: seq<Node<V>>, p: Ptr, fuel: nat): Shape
    decreases fuel
  {
    if p.Null? || fuel == 0 || p.index >= |nodes| then Leaf
    else Branch(ShapeOf(nodes, nodes[p.index].left, fuel - 1), p.index, ShapeOf(nodes, nodes[p.index].right, fuel - 1))
  }

  /** The tree a `RbTree` holds: no path of a well-linked arena is longer than the arena. */
  ghost function Abs<V>(t: RbTree<V>): Shape {
    ShapeOf(t.nodes, t.root, |t.nodes|)
  }

  /** The root slot reaches a finite tree with no shared nodes. */
  ghost predicate WellLinked<V>(t: RbTree<V>) {
    Closed(t) && Root(Abs(t)) == t.root && Links(t.nodes, Abs(t))
  }

  /** A well-linked tree whose parent links agree with its child links. */
  ghost predicate Linked<V>(t: RbTree<V>) {
    WellLinked(t) && Parents(t.nodes, Abs(t), Null)
  }

  /** The representation invariant: a linked tree whose counter is its size. */
  ghost predicate Valid<V>(t: RbTree<V>) {
    Linked(t) && t.length == |Indices(Abs(t))|
  }

  /** The root is Black (or there is none). */
  ghost predicate RootBlack<V>(t: RbTree<V>)
    requires Closed(t)
  {
    ColorOf(t.nodes, t.root) == Black
  }

  /** Entries of the given arena nodes, in the given order. */
  ghost function ItemsAt<V>(nodes: seq<Node<V>>, idx: seq<nat>): seq<(int, V)> {
    if |idx| == 0 then []
    else (if idx[0] < |nodes| then [(nodes[idx[0]].key, nodes[idx[0]].val)] else []) + ItemsAt(nodes, idx[1..])
  }

  /** The entries of a tree in in-order: what `inorder_items` and `iter` yield. */
  ghost function Items<V>(t: RbTree<V>): seq<(int, V)> {
    ItemsAt(t.nodes, InOrder(Abs(t)))
  }

  ghost function Keys<V>(items: seq<(int, V)>): (r: seq<int>)
    ensures |r| == |items| && forall j :: 0 <= j < |items| ==> r[j] == items[j].0
  {
    if |items| == 0 then [] else [items[0].0] + Keys(items[1..])
  }

  ghost predicate Sorted(keys: seq<int>) {
    forall i, j :: 0 <= i < j < |keys| ==> keys[i] <= keys[j]
  }

  /** The binary-search-tree order: in-order keys never decrease. */
  ghost predicate Ordered<V>(t: RbTree<V>) {
    Sorted(Keys(Items(t)))
  }

  // ---------------------------------------------------------------- basic facts

  lemma {:induction false} LinksInArena<V>(nodes: seq<Node<V>>, s: Shape)
    requires Links(nodes, s)
    ensures forall j :: j in Indices(s) ==> j < |nodes|
  {
    if s.Branch? {
      LinksInArena(nodes, s.left);
      LinksInArena(nodes, s.right);
    }
  }

  /** A linked node's children are nodes of the same shape. */
  lemma {:induction false} ChildrenInside<V>(nodes: seq<Node<V>>, s: Shape, j: nat)
    requires Links(nodes, s) && j in Indices(s)
    ensures j < |nodes|
    ensures nodes[j].left.Ptr? ==> nodes[j].left.index in Indices(s)
    ensures nodes[j].right.Ptr? ==> nodes[j].right.index in Indices(s)
  {
    if j != s.index {
      if j in Indices(s.left) {
        ChildrenInside(nodes, s.left, j);
      } else {
        ChildrenInside(nodes, s.right, j);
      }
    }
  }

  lemma InOrderIndices<V>(nodes: seq<Node<V>>, s: Shape)
    requires Links(nodes, s)
    ensures forall j :: j in InOrder(s) <==> j in Indices(s)
    ensures |InOrder(s)| == |Indices(s)|
  {
    InOrderMembers(s);
    InOrderSize(nodes, s);
  }

  lemma {:induction false} InOrderMembers(s: Shape)
    ensures forall j :: j in InOrder(s) <==> j in Indices(s)
  {
    if s.Branch? {
      InOrderMembers(s.left);
      InOrderMembers(s.right);
    }
  }

  /** No index repeats in a linked shape, so the in-order walk is as long as the set. */
  lemma {:induction false} InOrderSize<V>(nodes: seq<Node<V>>, s: Shape)
    requires Links(nodes, s)
    ensures |InOrder(s)| == |Indices(s)|
  {
    if s.Branch? {
      InOrderSize(nodes, s.left);
      InOrderSize(nodes, s.right);
      DisjointSize(Indices(s.left), s.index, Indices(s.right));
    }
  }

  lemma DisjointSize(l: set<nat>, i: nat, r: set<nat>)
    requires l !! r && i !in l && i !in r
    ensures |l + {i} + r| == |l| + 1 + |r|
  {
    assert l * r == {};
    assert |l + r| == |l| + |r|;
    assert (l + r) * {i} == {};
    assert l + {i} + r == (l + r) + {i};
  }

  lemma HeightBound<V>(nodes: seq<Node<V>>, s: Shape)
    requires Links(nodes, s)
    ensures Height(s) <= |Indices(s)| <= |nodes|
  {
    LinksInArena(nodes, s);
    HeightSize(nodes, s);
    SubsetOfRange(Indices(s), |nodes|);
  }

  lemma {:induction false} HeightSize<V>(nodes: seq<Node<V>>, s: Shape)
    requires Links(nodes, s)
    ensures Height(s) <= |Indices(s)|
  {
    if s.Branch? {
      HeightSize(nodes, s.left);
      HeightSize(nodes, s.right);
      DisjointSize(Indices(s.left), s.index, Indices(s.right));
    }
  }

  lemma {:induction false} SubsetOfRange(a: set<nat>, n: nat)
    requires forall j :: j in a ==> j < n
    ensures |a| <= n
    decreases n
  {
    if n > 0 {
      SubsetOfRange(a - {n - 1}, n - 1);
    }
  }

  lemma {:induction false} ShapeOfUnique<V>(nodes: seq<Node<V>>, s: Shape, fuel: nat)
    requires Links(nodes, s) && Height(s) <= fuel
    ensures ShapeOf(nodes, Root(s), fuel) == s
  {
    if s.Branch? {
      ShapeOfUnique(nodes, s.left, fuel - 1);
      ShapeOfUnique(nodes, s.right, fuel - 1);
    }
  }

  /** A shape the arena links from the root slot is the tree's shape. */
  lemma AbsIs<V>(t: RbTree<V>, s: Shape)
    requires Closed(t) && Links(t.nodes, s) && Root(s) == t.root
    ensures Abs(t) == s && WellLinked(t)
  {
    HeightBound(t.nodes, s);
    ShapeOfUnique(t.nodes, s, |t.nodes|);
  }

  // ---------------------------------------------------------------- frames

  /** Node `j` has the same child links in both arenas. */
  ghost predicate SameChildren<V>(nodes: seq<Node<V>>, nodes': seq<Node<V>>, j: nat) {
    j < |nodes| && j < |nodes'| && nodes'[j].left == nodes[j].left && nodes'[j].right == nodes[j].right
  }

  /** Node `j` has the same parent link in both arenas. */
  ghost predicate SameParent<V>(nodes: seq<Node<V>>, nodes': seq<Node<V>>, j: nat) {
    j < |nodes| && j < |nodes'| && nodes'[j].parent == nodes[j].parent
  }

  /** A well-formed subtree stays well-formed under changes that keep its links, except
      perhaps its root's parent link, which becomes `par'`. */
  lemma {:induction false} Frame<V>(nodes: seq<Node<V>>, nodes': seq<Node<V>>, s: Shape, par: Ptr, par': Ptr)
    requires Wf(nodes, s, par)
    requires forall j :: j in Indices(s) ==> SameChildren(nodes, nodes', j)
    requires forall j :: j in Indices(s) && Ptr(j) != Root(s) ==> SameParent(nodes, nodes', j)
    requires s.Branch? ==> s.index < |nodes'| && nodes'[s.index].parent == par'
    ensures Wf(nodes', s, par')
  {
    if s.Branch? {
      assert SameChildren(nodes, nodes', s.index);
      Frame(nodes, nodes', s.left, Ptr(s.index), Ptr(s.index));
      Frame(nodes, nodes', s.right, Ptr(s.index), Ptr(s.index));
    }
  }

  /** Entries depend only on the keys and values at the listed indices. */
  lemma {:induction false} ItemsFrame<V>(nodes: seq<Node<V>>, nodes': seq<Node<V>>, idx: seq<nat>)
    requires forall j :: j in idx ==> j < |nodes| && j < |nodes'| && SameEntry(nodes[j], nodes'[j])
    ensures ItemsAt(nodes', idx) == ItemsAt(nodes, idx)
  {
    if |idx| > 0 {
      assert forall j :: j in idx[1..] ==> j in idx;
      ItemsFrame(nodes, nodes', idx[1..]);
    }
  }

  lemma {:induction false} ItemsAppend<V>(nodes: seq<Node<V>>, a: seq<nat>, b: seq<nat>)
    ensures ItemsAt(nodes, a + b) == ItemsAt(nodes, a) + ItemsAt(nodes, b)
  {
    if |a| > 0 {
      var head := if a[0] < |nodes| then [(nodes[a[0]].key, nodes[a[0]].val)] else [];
      assert (a + b)[0] == a[0] && (a + b)[1..] == a[1..] + b;
      assert ItemsAt(nodes, a + b) == head + ItemsAt(nodes, a[1..] + b);
      ItemsAppend(nodes, a[1..], b);
    } else {
      assert a + b == b;
    }
  }

  lemma ItemsBranch<V>(nodes: seq<Node<V>>, l: Shape, i: nat, r: Shape)
    requires i < |nodes|
    ensures ItemsAt(nodes, InOrder(Branch(l, i, r)))
         == ItemsAt(nodes, InOrder(l)) + [(nodes[i].key, nodes[i].val)] + ItemsAt(nodes, InOrder(r))
  {
    ItemsAppend(nodes, InOrder(l) + [i], InOrder(r));
    ItemsAppend(nodes, InOrder(l), [i]);
  }

  lemma {:induction false} ItemsLength<V>(nodes: seq<Node<V>>, idx: seq<nat>)
    requires forall j :: j in idx ==> j < |nodes|
    ensures |ItemsAt(nodes, idx)| == |idx|
  {
    if |idx| > 0 {
      assert forall j :: j in idx[1..] ==> j in idx;
      ItemsLength(nodes, idx[1..]);
      assert idx[0] in idx;
    }
  }

  /** A linked shape has one entry per node. */
  lemma ItemsCount<V>(nodes: seq<Node<V>>, s: Shape)
    requires Links(nodes, s)
    ensures |ItemsAt(nodes, InOrder(s))| == |Indices(s)|
  {
    LinksInArena(nodes, s);
    InOrderIndices(nodes, s);
    ItemsLength(nodes, InOrder(s));
  }

  lemma KeysAppend<V>(a: seq<(int, V)>, b: seq<(int, V)>)
    ensures Keys(a + b) == Keys(a) + Keys(b)
  {
  }

  // ---------------------------------------------------------------- subtrees and splicing

  /** The subtree of `s` rooted at node `u`. */
  ghost function Sub(s: Shape, u: nat): Shape {
    match s
    case Leaf => Leaf
    case Branch(l, i, r) => if i == u then s else if u in Indices(l) then Sub(l, u) else Sub(r, u)
  }

  /** `s` with the subtree rooted at `u` replaced by `n`. */
  ghost function Replace(s: Shape, u: nat, n: Shape): Shape {
    match s
    case Leaf => Leaf
    case Branch(l, i, r) =>
      if i == u then n
      else if u in Indices(l) then Branch(Replace(l, u, n), i, r)
      else if u in Indices(r) then Branch(l, i, Replace(r, u, n))
      else s
  }

  /** The in-order indices before, and after, the subtree rooted at `u`. */
  ghost function Before(s: Shape, u: nat): seq<nat> {
    match s
    case Leaf => []
    case Branch(l, i, r) =>
      if i == u then [] else if u in Indices(l) then Before(l, u) else InOrder(l) + [i] + Before(r, u)
  }

  ghost function After(s: Shape, u: nat): seq<nat> {
    match s
    case Leaf => []
    case Branch(l, i, r) =>
      if i == u then [] else if u in Indices(l) then After(l, u) + [i] + InOrder(r) else After(r, u)
  }

  /** The nodes of `s` outside the subtree rooted at `u`. */
  ghost function Outside(s: Shape, u: nat): set<nat> {
    Indices(s) - Indices(Sub(s, u))
  }

  /** Node `j` keeps its links in `nodes'`, except that a child link to `u` now leads to `c`. */
  ghost predicate Redirected<V>(nodes: seq<Node<V>>, nodes': seq<Node<V>>, j: nat, u: nat, c: Ptr) {
    && SameParent(nodes, nodes', j)
    && nodes'[j].left == (if nodes[j].left == Ptr(u) then c else nodes[j].left)
    && nodes'[j].right == (if nodes[j].right == Ptr(u) then c else nodes[j].right)
  }

  /** The subtree at `u` is a well-formed tree hanging from `u`'s parent link. */
  lemma {:induction false} SubWf<V>(nodes: seq<Node<V>>, s: Shape, par: Ptr, u: nat)
    requires Wf(nodes, s, par) && u in Indices(s)
    ensures Sub(s, u).Branch? && Sub(s, u).index == u && u < |nodes|
    ensures Wf(nodes, Sub(s, u), nodes[u].parent)
    ensures Indices(Sub(s, u)) <= Indices(s)
    ensures nodes[u].parent == par || (nodes[u].parent.Ptr? && nodes[u].parent.index in Outside(s, u))
    ensures InOrder(s) == Before(s, u) + InOrder(Sub(s, u)) + After(s, u)
  {
    match s
    case Branch(l, i, r) =>
      if i != u {
        var c := if u in Indices(l) then l else r;
        SubWf(nodes, c, Ptr(i), u);
        if u in Indices(l) {
          SpliceLeft(Before(l, u), InOrder(Sub(l, u)), After(l, u), i, InOrder(r));
        } else {
          SpliceRight(InOrder(l), i, Before(r, u), InOrder(Sub(r, u)), After(r, u));
        }
      }
  }

  /** The subtree at `u` of a linked shape is linked and rooted at `u`. */
  lemma {:induction false} SubLinks<V>(nodes: seq<Node<V>>, s: Shape, u: nat)
    requires Links(nodes, s) && u in Indices(s)
    ensures Sub(s, u).Branch? && Sub(s, u).index == u && u < |nodes|
    ensures Links(nodes, Sub(s, u)) && Indices(Sub(s, u)) <= Indices(s)
  {
    match s
    case Branch(l, i, r) =>
      if i != u {
        if u in Indices(l) { SubLinks(nodes, l, u); } else { SubLinks(nodes, r, u); }
      }
  }

  /** Splicing `n` in place of the subtree at `u` swaps that subtree's nodes for `n`'s. */
  lemma {:induction false} ReplaceIndices<V>(nodes: seq<Node<V>>, s: Shape, u: nat, n: Shape)
    requires Links(nodes, s) && u in Indices(s)
    requires Indices(n) !! Outside(s, u)
    ensures Indices(Replace(s, u, n)) == Outside(s, u) + Indices(n)
  {
    match s
    case Branch(l, i, r) =>
      if i != u {
        if u in Indices(l) {
          SubInside(l, u);
          assert Outside(s, u) == Outside(l, u) + {i} + Indices(r);
          ReplaceIndices(nodes, l, u, n);
        } else {
          SubInside(r, u);
          assert Outside(s, u) == Indices(l) + {i} + Outside(r, u);
          ReplaceIndices(nodes, r, u, n);
        }
      }
  }

  /** Splicing `n` in place of the subtree at `u` puts `n`'s in-order sequence in its place. */
  lemma {:induction false} ReplaceInOrder(s: Shape, u: nat, n: Shape)
    requires u in Indices(s)
    ensures InOrder(Replace(s, u, n)) == Before(s, u) + InOrder(n) + After(s, u)
  {
    match s
    case Branch(l, i, r) =>
      if i != u {
        if u in Indices(l) {
          ReplaceInOrder(l, u, n);
          SpliceLeft(Before(l, u), InOrder(n), After(l, u), i, InOrder(r));
        } else {
          ReplaceInOrder(r, u, n);
          SpliceRight(InOrder(l), i, Before(r, u), InOrder(n), After(r, u));
        }
      }
  }

  lemma SpliceLeft(b: seq<nat>, m: seq<nat>, a: seq<nat>, i: nat, r: seq<nat>)
    ensures (b + m + a) + [i] + r == b + m + (a + [i] + r)
  {
  }

  lemma SpliceRight(l: seq<nat>, i: nat, b: seq<nat>, m: seq<nat>, a: seq<nat>)
    ensures l + [i] + (b + m + a) == (l + [i] + b) + m + a
  {
  }

  lemma ReplaceRoot(s: Shape, u: nat, n: Shape)
    requires u in Indices(s)
    ensures Root(Replace(s, u, n)) == if Root(s) == Ptr(u) then Root(n) else Root(s)
  {
  }

  lemma {:induction false} SubInside(s: Shape, u: nat)
    requires u in Indices(s)
    ensures Sub(s, u).Branch? && Sub(s, u).index == u && Indices(Sub(s, u)) <= Indices(s)
  {
    match s
    case Branch(l, i, r) =>
      if i != u {
        if u in Indices(l) { SubInside(l, u); } else { SubInside(r, u); }
      }
  }

  /** The root lies outside every proper subtree. */
  lemma RootOutside<V>(nodes: seq<Node<V>>, s: Shape, u: nat)
    requires Links(nodes, s) && u in Indices(s) && u != s.index
    ensures s.index in Outside(s, u)
  {
    if u in Indices(s.left) {
      SubInside(s.left, u);
    } else {
      SubInside(s.right, u);
    }
  }

  /** Every node but the root links to a parent inside the shape that has it as a child. */
  lemma {:induction false} ParentInside<V>(nodes: seq<Node<V>>, s: Shape, par: Ptr, j: nat)
    requires Wf(nodes, s, par) && j in Indices(s)
    ensures j < |nodes|
    ensures j == s.index ==> nodes[j].parent == par
    ensures j != s.index ==>
      && nodes[j].parent.Ptr? && nodes[j].parent.index in Indices(s) && nodes[j].parent.index < |nodes|
      && (nodes[nodes[j].parent.index].left == Ptr(j) || nodes[nodes[j].parent.index].right == Ptr(j))
  {
    match s
    case Branch(l, i, r) =>
      if j != i {
        var c := if j in Indices(l) then l else r;
        ParentInside(nodes, c, Ptr(i), j);
      }
  }

  /** A node's two child links never name the same node. */
  lemma DistinctChildren<V>(nodes: seq<Node<V>>, s: Shape, par: Ptr, j: nat)
    requires Wf(nodes, s, par) && j in Indices(s)
    ensures j < |nodes| && (nodes[j].left.Ptr? ==> nodes[j].left != nodes[j].right)
    ensures nodes[j].left != Ptr(j) && nodes[j].right != Ptr(j)
  {
    SubWf(nodes, s, par, j);
    var n := Sub(s, j);
    if n.left.Branch? {
      assert n.left.index in Indices(n.left);
    }
    if n.right.Branch? {
      assert n.right.index in Indices(n.right);
    }
  }

  /** The only child link to a node of a well-formed shape is its parent's. */
  lemma ChildLinkIsParent<V>(nodes: seq<Node<V>>, s: Shape, par: Ptr, j: nat, x: nat)
    requires Wf(nodes, s, par) && j in Indices(s) && j < |nodes|
    requires nodes[j].left == Ptr(x) || nodes[j].right == Ptr(x)
    ensures x in Indices(s) && x < |nodes| && nodes[x].parent == Ptr(j)
  {
    SubWf(nodes, s, par, j);
    LinksInArena(nodes, s);
    var n := Sub(s, j);
    var c := if nodes[j].left == Ptr(x) then n.left else n.right;
    assert c.Branch? && c.index == x && Parents(nodes, c, Ptr(j));
    assert x in Indices(n);
  }

  /** Relinking keeps the entries of any in-order sequence of a linked shape. */
  lemma RelinkedItems<V>(nodes: seq<Node<V>>, nodes': seq<Node<V>>, s: Shape)
    requires Links(nodes, s) && Relinked(nodes, nodes')
    ensures ItemsAt(nodes', InOrder(s)) == ItemsAt(nodes, InOrder(s))
  {
    LinksInArena(nodes, s);
    InOrderIndices(nodes, s);
    forall j | j in InOrder(s) ensures j < |nodes| && j < |nodes'| && SameEntry(nodes[j], nodes'[j]) {
      RelinkedAt(nodes, nodes', j);
    }
    ItemsFrame(nodes, nodes', InOrder(s));
  }

  /** `Wf` of a branch given by sides. */
  lemma WfBranchD<V>(nodes: seq<Node<V>>, d: Dir, near: Shape, i: nat, far: Shape, par: Ptr)
    ensures Wf(nodes, BranchD(d, near, i, far), par) <==>
      && i < |nodes| && Child(nodes[i], d) == Root(near) && Child(nodes[i], Flip(d)) == Root(far)
      && nodes[i].parent == par
      && Wf(nodes, near, Ptr(i)) && Wf(nodes, far, Ptr(i))
      && i !in Indices(near) && i !in Indices(far) && Indices(near) !! Indices(far)
    ensures Indices(BranchD(d, near, i, far)) == Indices(near) + {i} + Indices(far)
  {
  }

  /** Splicing a well-formed subtree in place of the one at `u`: when every node outside
      keeps its links, except that links to `u` now lead to the new subtree, the result
      is well-formed. */
  lemma {:induction false} ReplaceWf<V>(nodes: seq<Node<V>>, nodes': seq<Node<V>>, s: Shape, par: Ptr, u: nat, n: Shape)
    requires Wf(nodes, s, par) && u in Indices(s) && u < |nodes|
    requires Wf(nodes', n, nodes[u].parent)
    requires Indices(n) !! Outside(s, u)
    requires forall j :: j in Outside(s, u) ==> Redirected(nodes, nodes', j, u, Root(n))
    ensures Wf(nodes', Replace(s, u, n), par)
    decreases s, 1
  {
    if s.index != u {
      if u in Indices(s.left) {
        ReplaceWfLeft(nodes, nodes', s, par, u, n);
      } else {
        ReplaceWfRight(nodes, nodes', s, par, u, n);
      }
    }
  }

  lemma {:induction false} ReplaceWfLeft<V>(nodes: seq<Node<V>>, nodes': seq<Node<V>>, s: Shape, par: Ptr, u: nat, n: Shape)
    requires Wf(nodes, s, par) && u in Indices(s) && u < |nodes|
    requires s.Branch? && s.index != u && u in Indices(s.left)
    requires Wf(nodes', n, nodes[u].parent)
    requires Indices(n) !! Outside(s, u)
    requires forall j :: j in Outside(s, u) ==> Redirected(nodes, nodes', j, u, Root(n))
    ensures Wf(nodes', Replace(s, u, n), par)
    decreases s, 0
  {
    var i, l, r := s.index, s.left, s.right;
    SubInside(s, u);
    SubInside(l, u);
    assert i in Outside(s, u);
    ReplaceIndices(nodes, l, u, n);
    ReplaceWf(nodes, nodes', l, Ptr(i), u, n);
    KeptSubtree(nodes, nodes', s, u, n, r);
    Frame(nodes, nodes', r, Ptr(i), Ptr(i));
  }

  lemma {:induction false} ReplaceWfRight<V>(nodes: seq<Node<V>>, nodes': seq<Node<V>>, s: Shape, par: Ptr, u: nat, n: Shape)
    requires Wf(nodes, s, par) && u in Indices(s) && u < |nodes|
    requires s.Branch? && s.index != u && u !in Indices(s.left)
    requires Wf(nodes', n, nodes[u].parent)
    requires Indices(n) !! Outside(s, u)
    requires forall j :: j in Outside(s, u) ==> Redirected(nodes, nodes', j, u, Root(n))
    ensures Wf(nodes', Replace(s, u, n), par)
    decreases s, 0
  {
    var i, l, r := s.index, s.left, s.right;
    SubInside(s, u);
    SubInside(r, u);
    assert i in Outside(s, u);
    ReplaceIndices(nodes, r, u, n);
    ReplaceWf(nodes, nodes', r, Ptr(i), u, n);
    KeptSubtree(nodes, nodes', s, u, n, l);
    Frame(nodes, nodes', l, Ptr(i), Ptr(i));
  }

  /** A sibling subtree off the path to `u` keeps all its links. */
  lemma KeptSubtree<V>(nodes: seq<Node<V>>, nodes': seq<Node<V>>, s: Shape, u: nat, n: Shape, other: Shape)
    requires s.Branch? && Links(nodes, s) && u in Indices(s) && u != s.index
    requires other == s.left || other == s.right
    requires u !in Indices(other)
    requires forall j :: j in Outside(s, u) ==> Redirected(nodes, nodes', j, u, Root(n))
    ensures forall j :: j in Indices(other) && Ptr(j) != Root(other) ==> SameParent(nodes, nodes', j)
    ensures forall j :: j in Indices(other) ==> SameChildren(nodes, nodes', j) && SameParent(nodes, nodes', j)
  {
    SubInside(s, u);
    assert Sub(s, u) == Sub(if u in Indices(s.left) then s.left else s.right, u);
    SubInside(if u in Indices(s.left) then s.left else s.right, u);
    forall j | j in Indices(other)
      ensures SameChildren(nodes, nodes', j) && SameParent(nodes, nodes', j)
    {
      ChildrenInside(nodes, other, j);
      assert j in Outside(s, u);
    }
  }

  // ---------------------------------------------------------------- subtrees within subtrees

  /** No node occurs twice in `s`: the part of `Links` that does not depend on the arena. */
  ghost predicate Distinct(s: Shape) {
    match s
    case Leaf => true
    case Branch(l, i, r) =>
      Distinct(l) && Distinct(r) && i !in Indices(l) && i !in Indices(r) && Indices(l) !! Indices(r)
  }

  lemma {:induction false} LinksDistinct<V>(nodes: seq<Node<V>>, s: Shape)
    requires Links(nodes, s)
    ensures Distinct(s)
  {
    if s.Branch? {
      LinksDistinct(nodes, s.left);
      LinksDistinct(nodes, s.right);
    }
  }

  lemma {:induction false} SubDistinct(s: Shape, u: nat)
    requires Distinct(s)
    ensures Distinct(Sub(s, u))
  {
    match s
    case Leaf =>
    case Branch(l, i, r) =>
      if i != u {
        if u in Indices(l) { SubDistinct(l, u); } else { SubDistinct(r, u); }
      }
  }

  /** A subtree of the subtree at `a` is a subtree of the whole. */
  lemma {:induction false} SubSub(s: Shape, a: nat, v: nat)
    requires Distinct(s) && a in Indices(s) && v in Indices(Sub(s, a))
    ensures Sub(Sub(s, a), v) == Sub(s, v)
  {
    match s
    case Branch(l, i, r) =>
      if i != a {
        if a in Indices(l) {
          SubInside(l, a);
          SubSub(l, a, v);
        } else {
          SubInside(r, a);
          SubSub(r, a, v);
        }
      }
  }

  /** A node strictly below `v` has `v` outside its subtree. */
  lemma SubBelow(s: Shape, v: nat, u: nat)
    requires Distinct(s) && v in Indices(s) && u in Indices(Sub(s, v)) && u != v
    ensures u in Indices(s) && v in Outside(s, u)
  {
    SubDistinct(s, v);
    SubInside(s, v);
    var vs := Sub(s, v);
    SubSub(s, v, u);
    if u in Indices(vs.left) {
      SubInside(vs.left, u);
    } else {
      SubInside(vs.right, u);
    }
  }

  /** Splicing keeps the nodes outside the splice point and brings in the new ones. */
  lemma {:induction false} ReplaceHas(s: Shape, u: nat, n: Shape)
    requires Distinct(s) && u in Indices(s)
    ensures Outside(s, u) + Indices(n) <= Indices(Replace(s, u, n))
  {
    match s
    case Branch(l, i, r) =>
      if i != u {
        if u in Indices(l) {
          SubInside(l, u);
          assert Outside(s, u) == Outside(l, u) + {i} + Indices(r);
          ReplaceHas(l, u, n);
        } else {
          SubInside(r, u);
          assert Outside(s, u) == Indices(l) + {i} + Outside(r, u);
          ReplaceHas(r, u, n);
        }
      }
  }

  /** The subtree spliced in is found at its root. */
  lemma {:induction false} SubReplaceAt(s: Shape, u: nat, n: Shape)
    requires Distinct(s) && u in Indices(s) && n.Branch? && n.index !in Outside(s, u)
    ensures Sub(Replace(s, u, n), n.index) == n
  {
    match s
    case Branch(l, i, r) =>
      if i != u {
        if u in Indices(l) {
          SubInside(l, u);
          assert i in Outside(s, u);
          ReplaceHas(l, u, n);
          assert n.index in Indices(n);
          SubReplaceAt(l, u, n);
        } else {
          SubInside(r, u);
          assert i in Outside(s, u);
          assert Indices(l) <= Outside(s, u);
          SubReplaceAt(r, u, n);
        }
      }
  }

  /** Splicing strictly below `v` changes the subtree at `v` by the same splice. */
  lemma {:induction false} SubReplaceBelow(s: Shape, v: nat, u: nat, n: Shape)
    requires Distinct(s) && v in Indices(s) && u in Indices(Sub(s, v)) && u != v
    ensures Sub(Replace(s, u, n), v) == Replace(Sub(s, v), u, n)
  {
    match s
    case Branch(l, i, r) =>
      if i != v {
        if v in Indices(l) {
          SubInside(l, v);
          SubBelow(l, v, u);
          ReplaceHas(l, u, n);
          SubReplaceBelow(l, v, u, n);
        } else {
          SubInside(r, v);
          SubReplaceBelow(r, v, u, n);
        }
      }
  }

  /** A splice below `v` is a splice at `v` of the spliced subtree. */
  lemma {:induction false} ReplaceNested(s: Shape, v: nat, u: nat, n: Shape)
    requires Distinct(s) && v in Indices(s) && u in Indices(Sub(s, v))
    ensures Replace(s, u, n) == Replace(s, v, Replace(Sub(s, v), u, n))
  {
    match s
    case Branch(l, i, r) =>
      if i != v {
        if v in Indices(l) {
          SubInside(l, v);
          ReplaceNested(l, v, u, n);
        } else {
          SubInside(r, v);
          ReplaceNested(r, v, u, n);
        }
      }
  }

  /** The subtree at a child is that side of the parent's subtree. */
  lemma SubChild(s: Shape, q: nat, e: Dir)
    requires Distinct(s) && q in Indices(s) && Sub(s, q).Branch? && Side(Sub(s, q), e).Branch?
    ensures Sub(s, Side(Sub(s, q), e).index) == Side(Sub(s, q), e)
    ensures Side(Sub(s, q), e).index != q && Side(Sub(s, q), e).index in Indices(s)
  {
    var b := Sub(s, q);
    var c := Side(b, e);
    SubInside(s, q);
    SubDistinct(s, q);
    assert c.index in Indices(c);
    SubSub(s, q, c.index);
  }

  /** Splicing at a child replaces that side. */
  lemma ReplaceSide(b: Shape, e: Dir, n: Shape)
    requires Distinct(b) && b.Branch? && Side(b, e).Branch?
    ensures Replace(b, Side(b, e).index, n) == BranchD(Flip(e), Side(b, Flip(e)), b.index, n)
  {
    assert Side(b, e).index in Indices(Side(b, e));
  }

  // ---------------------------------------------------------------- depth

  /** The number of links from the root of `s` down to node `u`. */
  ghost function Depth(s: Shape, u: nat): nat {
    match s
    case Leaf => 0
    case Branch(l, i, r) => if i == u then 0 else if u in Indices(l) then 1 + Depth(l, u) else 1 + Depth(r, u)
  }

  /** Following a parent link goes one level up. */
  lemma {:induction false} DepthParent<V>(nodes: seq<Node<V>>, s: Shape, par: Ptr, u: nat)
    requires Wf(nodes, s, par) && u in Indices(s) && u != s.index
    ensures u < |nodes| && nodes[u].parent.Ptr? && nodes[u].parent.index in Indices(s)
    ensures Depth(s, nodes[u].parent.index) + 1 == Depth(s, u)
  {
    match s
    case Branch(l, i, r) =>
      var c := if u in Indices(l) then l else r;
      assert c.Branch? && Wf(nodes, c, Ptr(i));
      if u == c.index {
        assert nodes[u].parent == Ptr(i);
      } else {
        DepthParent(nodes, c, Ptr(i), u);
      }
  }

  lemma {:induction false} DepthBelowHeight(s: Shape, u: nat)
    requires u in Indices(s)
    ensures Depth(s, u) < Height(s)
  {
    match s
    case Branch(l, i, r) =>
      if i != u {
        if u in Indices(l) { DepthBelowHeight(l, u); } else { DepthBelowHeight(r, u); }
      }
  }

  lemma DepthBound<V>(nodes: seq<Node<V>>, s: Shape, u: nat)
    requires Links(nodes, s) && u in Indices(s)
    ensures Depth(s, u) < |nodes|
  {
    DepthBelowHeight(s, u);
    HeightBound(nodes, s);
  }

  // ---------------------------------------------------------------- recolouring

  /** Changing colours only keeps a valid tree valid, with the same shape and entries. */
  lemma RecolorValid<V>(t: RbTree<V>, r: RbTree<V>)
    requires Valid(t) && Closed(r) && r.root == t.root && r.length == t.length && |r.nodes| == |t.nodes|
    requires forall i :: 0 <= i < |t.nodes| ==> SameLinks(r.nodes[i], t.nodes[i])
    requires SameEntries(t.nodes, r.nodes)
    ensures Valid(r) && Abs(r) == Abs(t) && Items(r) == Items(t)
  {
    var s := Abs(t);
    LinksInArena(t.nodes, s);
    Frame(t.nodes, r.nodes, s, Null, Null);
    AbsIs(r, s);
    InOrderIndices(t.nodes, s);
    forall j | j in InOrder(s) ensures j < |t.nodes| && j < |r.nodes| && SameEntry(t.nodes[j], r.nodes[j]) {
      SameEntriesAt(t.nodes, r.nodes, j);
    }
    ItemsFrame(t.nodes, r.nodes, InOrder(s));
  }
}
