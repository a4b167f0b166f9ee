/**
  The colour rules after `delete` (src/rb_tree.rs:73-128). Unlinking a Red node keeps a
  red-black tree red-black. Unlinking a Black node leaves the tree in the state the repaired
  `delete_fixup` starts from: the paths through the vacated slot pass one Black node fewer
  than the others, and only the node `x` that fills the slot may be Red under a Red parent.
  From there the repaired loop restores the rules (`SlotFixupKeepsColors`), so the repaired
  `delete` keeps a red-black tree red-black.
 */
module RbDeleteColor {
  import opened RbArena
  import opened RbShape
  import opened RbQuery
  import opened RbInsert
  import opened RbInsertColor
  import opened RbDelete
  import opened RbFixup
  import opened RbColor
  import opened RbPaths
  import opened RbFixupColor
  import opened RbRemove

  // ---------------------------------------------------------------- the Red rule on shapes

  /** `c` is not Red, or is the exempt node `x`. */
  predicate Mild<V>(nodes: seq<Node<V>>, c: Ptr, x: Ptr) {
    !IsRed(nodes, c) || c == x
  }

  /** No Red node of `s` has a Red child, except that the node `x` may be Red under a Red
      parent and, when Red, may have Red children. */
  ghost predicate Calm<V>(nodes: seq<Node<V>>, s: Shape, x: Ptr) {
    match s
    case Leaf => true
    case Branch(l, i, r) =>
      && Calm(nodes, l, x) && Calm(nodes, r, x)
      && (IsRed(nodes, Ptr(i)) && Ptr(i) != x ==> Mild(nodes, Root(l), x) && Mild(nodes, Root(r), x))
  }

  /** Node by node, a linked shape without Red children of Red nodes is calm. */
  lemma {:induction false} CalmFrom<V>(nodes: seq<Node<V>>, s: Shape)
    requires Links(nodes, s)
    requires forall j :: j in Indices(s) && IsRed(nodes, Ptr(j)) ==>
      !IsRed(nodes, nodes[j].left) && !IsRed(nodes, nodes[j].right)
    ensures Calm(nodes, s, Null)
  {
    if s.Branch? {
      CalmFrom(nodes, s.left);
      CalmFrom(nodes, s.right);
    }
  }

  lemma CalmOf<V>(t: RbTree<V>)
    requires Linked(t) && NoRedRed(t)
    ensures Calm(t.nodes, Abs(t), Null)
  {
    CalmFrom(t.nodes, Abs(t));
  }

  lemma {:induction false} CalmSub<V>(nodes: seq<Node<V>>, s: Shape, x: Ptr, q: nat)
    requires Calm(nodes, s, x) && q in Indices(s)
    ensures Calm(nodes, Sub(s, q), x)
  {
    match s
    case Branch(l, i, r) =>
      if i != q {
        if q in Indices(l) { CalmSub(nodes, l, x, q); } else { CalmSub(nodes, r, x, q); }
      }
  }

  /** What `Calm` says at one node of a linked shape, in terms of its child links. */
  lemma CalmAt<V>(nodes: seq<Node<V>>, s: Shape, x: Ptr, q: nat)
    requires Links(nodes, s) && Calm(nodes, s, x) && q in Indices(s)
    ensures q < |nodes|
    ensures IsRed(nodes, Ptr(q)) && Ptr(q) != x ==> Mild(nodes, nodes[q].left, x) && Mild(nodes, nodes[q].right, x)
  {
    CalmSub(nodes, s, x, q);
    SubLinks(nodes, s, q);
  }

  /** In a calm linked tree only `x`, or a child of `x`, is Red under a Red parent. */
  lemma CalmNear<V>(t: RbTree<V>, x: Ptr)
    requires Linked(t) && Calm(t.nodes, Abs(t), x)
    ensures RedRedNear(t, x)
  {
    var s := Abs(t);
    forall j | j in Indices(s) && RedUnderRed(t.nodes, j) ensures Ptr(j) == x || t.nodes[j].parent == x {
      ParentInside(t.nodes, s, Null, j);
      CalmAt(t.nodes, s, x, t.nodes[j].parent.index);
    }
  }

  /** A tree calm with no exempt node has no Red node with a Red child. */
  lemma CalmNoRedRed<V>(t: RbTree<V>)
    requires Linked(t) && Calm(t.nodes, Abs(t), Null)
    ensures NoRedRed(t)
  {
    forall j | j in Indices(Abs(t)) && IsRed(t.nodes, Ptr(j))
      ensures !IsRed(t.nodes, t.nodes[j].left) && !IsRed(t.nodes, t.nodes[j].right)
    {
      CalmAt(t.nodes, Abs(t), Null, j);
    }
  }

  /** Calm depends only on which nodes of the shape are Red. */
  lemma {:induction false} CalmFrame<V>(nodes: seq<Node<V>>, nodes': seq<Node<V>>, s: Shape, x: Ptr)
    requires Calm(nodes, s, Null)
    requires forall j :: j in Indices(s) ==> IsRed(nodes', Ptr(j)) == IsRed(nodes, Ptr(j))
    ensures Calm(nodes', s, x)
  {
    match s
    case Leaf =>
    case Branch(l, i, r) =>
      CalmFrame(nodes, nodes', l, x);
      CalmFrame(nodes, nodes', r, x);
      if l.Branch? {
        assert l.index in Indices(s);
      }
      if r.Branch? {
        assert r.index in Indices(s);
      }
  }

  /** Splicing a calm subtree into a calm tree keeps it calm, when the new subtree's root is
      Red only where the old one was, or is the exempt node. */
  lemma {:induction false} ReplaceCalm<V>(nodes: seq<Node<V>>, nodes': seq<Node<V>>, s: Shape, u: nat, n: Shape, x: Ptr)
    requires Distinct(s) && u in Indices(s) && Calm(nodes, s, Null)
    requires forall j :: j in Outside(s, u) ==> IsRed(nodes', Ptr(j)) == IsRed(nodes, Ptr(j))
    requires Calm(nodes', n, x)
    requires IsRed(nodes', Root(n)) ==> IsRed(nodes, Ptr(u)) || Root(n) == x
    ensures Calm(nodes', Replace(s, u, n), x)
    decreases s, 1
  {
    match s
    case Branch(l, i, r) =>
      if i != u {
        if u in Indices(l) {
          ReplaceCalmLeft(nodes, nodes', s, u, n, x);
        } else {
          ReplaceCalmRight(nodes, nodes', s, u, n, x);
        }
      }
  }

  /** `ReplaceCalm` when `u` lies in the left subtree. */
  lemma {:induction false} ReplaceCalmLeft<V>(nodes: seq<Node<V>>, nodes': seq<Node<V>>, s: Shape, u: nat, n: Shape, x: Ptr)
    requires Distinct(s) && s.Branch? && s.index != u && u in Indices(s.left) && Calm(nodes, s, Null)
    requires forall j :: j in Outside(s, u) ==> IsRed(nodes', Ptr(j)) == IsRed(nodes, Ptr(j))
    requires Calm(nodes', n, x)
    requires IsRed(nodes', Root(n)) ==> IsRed(nodes, Ptr(u)) || Root(n) == x
    ensures Calm(nodes', Replace(s, u, n), x)
    decreases s, 0
  {
    var Branch(l, i, r) := s;
    SubInside(l, u);
    assert Outside(s, u) == Outside(l, u) + {i} + Indices(r);
    ReplaceCalm(nodes, nodes', l, u, n, x);
    CalmFrame(nodes, nodes', r, x);
    ReplaceRoot(l, u, n);
    if l.index != u {
      SubBelow(l, l.index, u);
    }
    if r.Branch? {
      assert r.index in Indices(r);
    }
  }

  /** `ReplaceCalm` when `u` lies in the right subtree. */
  lemma {:induction false} ReplaceCalmRight<V>(nodes: seq<Node<V>>, nodes': seq<Node<V>>, s: Shape, u: nat, n: Shape, x: Ptr)
    requires Distinct(s) && s.Branch? && s.index != u && u !in Indices(s.left) && u in Indices(s.right) && Calm(nodes, s, Null)
    requires forall j :: j in Outside(s, u) ==> IsRed(nodes', Ptr(j)) == IsRed(nodes, Ptr(j))
    requires Calm(nodes', n, x)
    requires IsRed(nodes', Root(n)) ==> IsRed(nodes, Ptr(u)) || Root(n) == x
    ensures Calm(nodes', Replace(s, u, n), x)
    decreases s, 0
  {
    var Branch(l, i, r) := s;
    SubInside(r, u);
    assert Outside(s, u) == Indices(l) + {i} + Outside(r, u);
    ReplaceCalm(nodes, nodes', r, u, n, x);
    CalmFrame(nodes, nodes', l, x);
    ReplaceRoot(r, u, n);
    if r.index != u {
      SubBelow(r, r.index, u);
    }
    if l.Branch? {
      assert l.index in Indices(l);
    }
  }

  // ---------------------------------------------------------------- colours after unlinking

  /** `n1` has the colours of `n0`, except that node `y` has the colour node `z` had. */
  ghost predicate TakesColor<V>(n0: seq<Node<V>>, n1: seq<Node<V>>, y: nat, z: nat) {
    && |n1| == |n0| && y < |n0| && z < |n0|
    && (forall j :: 0 <= j < |n0| && j != y ==> n1[j].color == n0[j].color)
    && n1[y].color == n0[z].color
  }

  lemma TakesColorAt<V>(n0: seq<Node<V>>, n1: seq<Node<V>>, y: nat, z: nat, j: nat)
    requires TakesColor(n0, n1, y, z)
    ensures j != y ==> Blackness(n1, j) == Blackness(n0, j) && IsRed(n1, Ptr(j)) == IsRed(n0, Ptr(j))
    ensures j == y ==> Blackness(n1, j) == Blackness(n0, z) && IsRed(n1, Ptr(j)) == IsRed(n0, Ptr(z))
  {
  }

  /** Away from `y` the two arenas agree on every colour. */
  lemma TakesColorBeside<V>(n0: seq<Node<V>>, n1: seq<Node<V>>, y: nat, z: nat, ids: set<nat>)
    requires TakesColor(n0, n1, y, z) && y !in ids
    ensures forall j :: j in ids ==> Blackness(n1, j) == Blackness(n0, j) && IsRed(n1, Ptr(j)) == IsRed(n0, Ptr(j))
  {
    forall j | j in ids ensures Blackness(n1, j) == Blackness(n0, j) && IsRed(n1, Ptr(j)) == IsRed(n0, Ptr(j)) {
      TakesColorAt(n0, n1, y, z, j);
    }
  }

  /** Paths that avoid `y` count the same Black nodes after `y` takes another colour. */
  lemma PathsTakeColor<V>(n0: seq<Node<V>>, n1: seq<Node<V>>, y: nat, z: nat, s: Shape, h: int)
    requires TakesColor(n0, n1, y, z) && y !in Indices(s) && BlackPaths(n0, s, h)
    ensures BlackPaths(n1, s, h)
  {
    TakesColorBeside(n0, n1, y, z, Indices(s));
    PathsFrame(n0, n1, s, h);
  }

  /** So does the count around `u`, when `y` is not above `u`. */
  lemma AroundTakeColor<V>(n0: seq<Node<V>>, n1: seq<Node<V>>, y: nat, z: nat, s: Shape, h: int, u: nat, k: int)
    requires TakesColor(n0, n1, y, z) && Distinct(s) && y !in Outside(s, u) && Around(n0, s, h, u, k)
    ensures Around(n1, s, h, u, k)
  {
    TakesColorBeside(n0, n1, y, z, Outside(s, u));
    AroundFrame(n0, n1, s, h, u, k);
  }

  /** Unlinking a node with an empty side only relinks: every colour stays. */
  lemma OneSideColors<V>(t: RbTree<V>, z: nat)
    requires Valid(t) && z in Indices(Abs(t)) && z < |t.nodes|
    requires t.nodes[z].left.Null? || t.nodes[z].right.Null?
    ensures TakesColor(t.nodes, Unlink(t, z, Repaired).0.nodes, z, z)
  {
    var n := t.nodes[z];
    var x := if n.left.Null? then n.right else n.left;
    var t1 := Transplant(t, z, x);
    assert Unlink(t, z, Repaired).0.nodes == t1.nodes;
    RelinkedColors(t.nodes, t1.nodes);
  }

  /** `Graft` gives `y` the colour of `z` and changes no other colour. */
  lemma GraftColors<V>(nb: seq<Node<V>>, n4: seq<Node<V>>, z: nat, y: nat)
    requires GraftedArena(nb, n4, z, y)
    ensures TakesColor(nb, n4, y, z)
  {
  }

  /** Detaching the successor `y` and grafting it in `z`'s place moves only colours: `y`
      takes `z`'s colour, every other node keeps its own. */
  lemma GraftTakesColor<V>(t: RbTree<V>, z: nat)
    requires Valid(t) && z in Indices(Abs(t)) && z < |t.nodes|
    requires t.nodes[z].left.Ptr? && t.nodes[z].right.Ptr?
    ensures TakesColor(t.nodes, Graft(Detach(t, z, Successor(t, z), Repaired), z, Successor(t, z)).nodes, Successor(t, z), z)
  {
    var n0 := t.nodes;
    var y := Successor(t, z);
    var t1 := Detach(t, z, y, Repaired);
    var n4 := Graft(t1, z, y).nodes;
    assert t1.nodes[z] == n0[z] && GraftedArena(t1.nodes, n4, z, y) by {
      UnlinkTwoShape(t, z, y, t1);
      GraftSite(n0, t1.nodes, Abs(t), z, y);
      GraftFacts(t1, z, y);
    }
    assert |t1.nodes| == |n0| && forall j :: 0 <= j < |n0| ==> t1.nodes[j].color == n0[j].color by {
      RelinkedColors(n0, t1.nodes);
    }
    GraftColors(t1.nodes, n4, z, y);
    assert TakesColor(n0, n4, y, z);
  }

  /** Unlinking a node with two children moves only colours to the successor `y`: `y` takes
      `z`'s colour, every other node keeps its own. */
  lemma TwoColors<V>(t: RbTree<V>, z: nat)
    requires Valid(t) && z in Indices(Abs(t)) && z < |t.nodes|
    requires t.nodes[z].left.Ptr? && t.nodes[z].right.Ptr?
    ensures TakesColor(t.nodes, Unlink(t, z, Repaired).0.nodes, Successor(t, z), z)
  {
    UnlinkIsGraft(t, z, Repaired);
    GraftTakesColor(t, z);
  }

  // ---------------------------------------------------------------- black paths after unlinking

  /** A Red node with an empty side has the same Black count on both sides, so replacing it by
      its other subtree keeps every path's count. */
  lemma OneRedPaths<V>(nodes: seq<Node<V>>, s: Shape, h: int, z: nat, f: Dir)
    requires BlackPaths(nodes, s, h) && z in Indices(s) && Blackness(nodes, z) == 0
    ensures Sub(s, z).Branch? && BlackPaths(nodes, Replace(s, z, Side(Sub(s, z), f)), h)
  {
    AroundSplit(nodes, s, h, z);
    SubInside(s, z);
    AroundJoin(nodes, s, h, z, BlackHeight(nodes, Sub(s, z)), Side(Sub(s, z), f));
  }

  /** A Black root replaced by one of its subtrees leaves a balanced tree, one Black node lower. */
  lemma OneRootShort<V>(nodes: seq<Node<V>>, s: Shape, h: int, f: Dir, e: Dir)
    requires BlackPaths(nodes, s, h) && s.Branch? && Blackness(nodes, s.index) == 1
    ensures Short(nodes, Replace(s, s.index, Side(s, f)), Null, e, h)
  {
    PathsHeight(nodes, Side(s, f), h - 1);
  }

  /** `Short` from its parts: the count around `q` and the counts of `q`'s two sides. */
  lemma ShortAt<V>(nodes: seq<Node<V>>, s: Shape, h: int, q: nat, e: Dir, k: int, a: Shape, c: Shape)
    requires Around(nodes, s, h, q, k) && Sub(s, q) == BranchD(Flip(e), c, q, a)
    requires BlackPaths(nodes, a, k - Blackness(nodes, q) - 1) && BlackPaths(nodes, c, k - Blackness(nodes, q))
    ensures Short(nodes, s, Ptr(q), e, h)
  {
    AroundBelow(nodes, s, h, q, k);
  }

  /** The counts around `q` once its child `z` on side `e`, a Black node, is replaced by one
      of `z`'s subtrees. */
  lemma OneShortParts<V>(nodes: seq<Node<V>>, s: Shape, h: int, q: nat, e: Dir, z: nat, f: Dir)
    requires Distinct(s) && BlackPaths(nodes, s, h) && q in Indices(s)
    requires Sub(s, q).Branch? && Side(Sub(s, q), e).Branch? && Side(Sub(s, q), e).index == z
    requires Blackness(nodes, z) == 1
    ensures Sub(s, z).Branch?
    ensures Around(nodes, Replace(s, z, Side(Sub(s, z), f)), h, q, BlackHeight(nodes, Sub(s, q)))
    ensures Sub(Replace(s, z, Side(Sub(s, z), f)), q) == BranchD(Flip(e), Side(Sub(s, q), Flip(e)), q, Side(Sub(s, z), f))
    ensures BlackPaths(nodes, Side(Sub(s, z), f), BlackHeight(nodes, Sub(s, q)) - Blackness(nodes, q) - 1)
    ensures BlackPaths(nodes, Side(Sub(s, q), Flip(e)), BlackHeight(nodes, Sub(s, q)) - Blackness(nodes, q))
  {
    var b := Sub(s, q);
    SubChild(s, q, e);
    SubInside(s, q);
    AroundSplit(nodes, s, h, q);
    var kq: int := BlackHeight(nodes, b);
    var bq: int := Blackness(nodes, q);
    assert BlackPaths(nodes, b.left, kq - bq) && BlackPaths(nodes, b.right, kq - bq);
    assert BlackPaths(nodes, Side(b, e), kq - bq) && BlackPaths(nodes, Side(b, Flip(e)), kq - bq);
    var c := Side(b, e);
    assert BlackPaths(nodes, c.left, kq - bq - 1) && BlackPaths(nodes, c.right, kq - bq - 1);
    var x := Side(Sub(s, z), f);
    assert BlackPaths(nodes, x, kq - bq - 1);
    var s' := Replace(s, z, x);
    assert Around(nodes, s', h, q, kq) && Sub(s', q) == Replace(b, z, x) by {
      AroundSplice(nodes, s, h, q, kq, z, x);
    }
    assert Replace(b, z, x) == BranchD(Flip(e), Side(b, Flip(e)), q, x) by {
      SubDistinct(s, q);
      ReplaceSide(b, e, x);
    }
  }

  /** A Black node `z` on side `e` of `q` replaced by one of its subtrees leaves that side of
      `q` one Black node short. */
  lemma OneShort<V>(nodes: seq<Node<V>>, s: Shape, h: int, q: nat, e: Dir, z: nat, f: Dir)
    requires Distinct(s) && BlackPaths(nodes, s, h) && q in Indices(s)
    requires Sub(s, q).Branch? && Side(Sub(s, q), e).Branch? && Side(Sub(s, q), e).index == z
    requires Blackness(nodes, z) == 1
    ensures Sub(s, z).Branch? && Short(nodes, Replace(s, z, Side(Sub(s, z), f)), Ptr(q), e, h)
  {
    OneShortParts(nodes, s, h, q, e, z, f);
    ShortSpliced(nodes, s, h, q, e, z, f);
  }

  /** The counts `OneShortParts` gives make the slot on side `e` of `q` one Black node short. */
  lemma ShortSpliced<V>(nodes: seq<Node<V>>, s: Shape, h: int, q: nat, e: Dir, z: nat, f: Dir)
    requires Sub(s, z).Branch? && Sub(s, q).Branch?
    requires Around(nodes, Replace(s, z, Side(Sub(s, z), f)), h, q, BlackHeight(nodes, Sub(s, q)))
    requires Sub(Replace(s, z, Side(Sub(s, z), f)), q) == BranchD(Flip(e), Side(Sub(s, q), Flip(e)), q, Side(Sub(s, z), f))
    requires BlackPaths(nodes, Side(Sub(s, z), f), BlackHeight(nodes, Sub(s, q)) - Blackness(nodes, q) - 1)
    requires BlackPaths(nodes, Side(Sub(s, q), Flip(e)), BlackHeight(nodes, Sub(s, q)) - Blackness(nodes, q))
    ensures Short(nodes, Replace(s, z, Side(Sub(s, z), f)), Ptr(q), e, h)
  {
    var x := Side(Sub(s, z), f);
    ShortAt(nodes, Replace(s, z, x), h, q, e, BlackHeight(nodes, Sub(s, q)), x, Side(Sub(s, q), Flip(e)));
  }


  /** Around `z`, and below it once its Red successor `y` has left `z`'s right subtree. */
  lemma TwoRedParts<V>(n0: seq<Node<V>>, s: Shape, h: int, z: nat, y: nat)
    requires BlackPaths(n0, s, h) && z in Indices(s) && Sub(s, z).Branch?
    requires y in Indices(Sub(s, z).right) && Blackness(n0, y) == 0
    ensures Sub(s, z).Branch? && Sub(s, z).index == z
    ensures var kz: int := BlackHeight(n0, Sub(s, z));
      && Around(n0, s, h, z, kz)
      && BlackPaths(n0, Sub(s, z).left, kz - Blackness(n0, z))
      && BlackPaths(n0, Rest(Sub(s, z).right, y), kz - Blackness(n0, z))
  {
    var zs := Sub(s, z);
    AroundSplit(n0, s, h, z);
    SubInside(s, z);
    var kz: int := BlackHeight(n0, zs);
    var bz: int := Blackness(n0, z);
    assert BlackPaths(n0, zs.left, kz - bz) && BlackPaths(n0, zs.right, kz - bz);
    OneRedPaths(n0, zs.right, kz - bz, y, Right);
  }

  /** With `y` Red, `y` carrying `z`'s colour roots a subtree with `z`'s count, and the tree
      around `z` keeps its counts. */
  lemma TwoRedFacts<V>(n0: seq<Node<V>>, n1: seq<Node<V>>, s: Shape, h: int, z: nat, y: nat)
    requires Distinct(s) && BlackPaths(n0, s, h) && z in Indices(s) && Sub(s, z).Branch?
    requires y in Indices(Sub(s, z).right) && y !in Indices(Rest(Sub(s, z).right, y))
    requires Blackness(n0, y) == 0 && TakesColor(n0, n1, y, z)
    ensures var kz: int := BlackHeight(n0, Sub(s, z));
      && Around(n1, s, h, z, kz)
      && BlackPaths(n1, Branch(Sub(s, z).left, y, Rest(Sub(s, z).right, y)), kz)
  {
    var zs := Sub(s, z);
    var zl := zs.left;
    var rest := Rest(zs.right, y);
    TwoRedParts(n0, s, h, z, y);
    var kz: int := BlackHeight(n0, zs);
    var bz: int := Blackness(n0, z);
    assert y !in Indices(zl) + Outside(s, z) by {
      SubDistinct(s, z);
    }
    assert BlackPaths(n1, Branch(zl, y, rest), kz) by {
      PathsTakeColor(n0, n1, y, z, rest, kz - bz);
      PathsTakeColor(n0, n1, y, z, zl, kz - bz);
      TakesColorAt(n0, n1, y, z, y);
    }
    AroundTakeColor(n0, n1, y, z, s, h, z, kz);
  }

  /** When the successor `y` that left `z`'s right subtree was Red, the paths keep their counts. */
  lemma TwoRedPaths<V>(n0: seq<Node<V>>, n1: seq<Node<V>>, s: Shape, h: int, z: nat, y: nat)
    requires Distinct(s) && BlackPaths(n0, s, h) && z in Indices(s) && Sub(s, z).Branch?
    requires y in Indices(Sub(s, z).right) && y !in Indices(Rest(Sub(s, z).right, y))
    requires Blackness(n0, y) == 0 && TakesColor(n0, n1, y, z)
    ensures BlackPaths(n1, Replace(s, z, Branch(Sub(s, z).left, y, Rest(Sub(s, z).right, y))), h)
  {
    TwoRedFacts(n0, n1, s, h, z, y);
    AroundJoin(n1, s, h, z, BlackHeight(n0, Sub(s, z)), Branch(Sub(s, z).left, y, Rest(Sub(s, z).right, y)));
  }

  /** The successor `y` in `z`'s place, with `z`'s colour, keeps the count around it. */
  lemma TwoAround<V>(n0: seq<Node<V>>, n1: seq<Node<V>>, s: Shape, h: int, z: nat, y: nat, rest: Shape)
    requires Distinct(s) && BlackPaths(n0, s, h) && z in Indices(s) && Sub(s, z).Branch?
    requires y in Indices(Sub(s, z).right) && TakesColor(n0, n1, y, z)
    requires Distinct(Replace(s, z, Branch(Sub(s, z).left, y, rest)))
    ensures var s' := Replace(s, z, Branch(Sub(s, z).left, y, rest));
      && Around(n1, s', h, y, BlackHeight(n0, Sub(s, z)))
      && Sub(s', y) == Branch(Sub(s, z).left, y, rest)
      && BlackPaths(n0, Sub(s, z), BlackHeight(n0, Sub(s, z)))
  {
    var zs := Sub(s, z);
    var n := Branch(zs.left, y, rest);
    var s' := Replace(s, z, n);
    var kz := BlackHeight(n0, zs);
    SubInside(s, z);
    assert y in Indices(zs);
    AroundSplit(n0, s, h, z);
    AroundReplace(n0, s, h, z, kz, n);
    SubReplaceAt(s, z, n);
    assert y in Indices(Sub(s', y));
    TakesColorBeside(n0, n1, y, z, Outside(s', y));
    AroundFrame(n0, n1, s', h, y, kz);
  }

  /** The successor `y` in `z`'s place, with `z`'s colour: the count around `y` in the new
      shape `s'`, and the counts of `z`'s old subtrees. */
  lemma TwoBase<V>(n0: seq<Node<V>>, n1: seq<Node<V>>, s: Shape, h: int, z: nat, y: nat, rest: Shape)
    requires Distinct(s) && BlackPaths(n0, s, h) && z in Indices(s) && Sub(s, z).Branch?
    requires y in Indices(Sub(s, z).right) && TakesColor(n0, n1, y, z)
    requires Distinct(Replace(s, z, Branch(Sub(s, z).left, y, rest)))
    ensures var s' := Replace(s, z, Branch(Sub(s, z).left, y, rest));
      && Around(n1, s', h, y, BlackHeight(n0, Sub(s, z)))
      && Sub(s', y) == Branch(Sub(s, z).left, y, rest)
      && BlackPaths(n0, Sub(s, z).left, BlackHeight(n0, Sub(s, z)) - Blackness(n0, z))
      && BlackPaths(n0, Sub(s, z).right, BlackHeight(n0, Sub(s, z)) - Blackness(n0, z))
      && Distinct(Sub(s, z).right) && y !in Indices(Sub(s, z).left)
  {
    TwoAround(n0, n1, s, h, z, y, rest);
    SubInside(s, z);
    SubDistinct(s, z);
  }

  /** When the successor `y` was `z`'s right child and Black, `y` in `z`'s place has a right
      side one Black node short. */
  lemma ChildShort<V>(n0: seq<Node<V>>, n1: seq<Node<V>>, s': Shape, h: int, z: nat, y: nat, kz: int, zl: Shape, zr: Shape)
    requires zr.Branch? && zr.index == y && zr.left == Leaf && Distinct(zr) && y !in Indices(zl)
    requires Around(n1, s', h, y, kz) && Sub(s', y) == Branch(zl, y, zr.right)
    requires BlackPaths(n0, zl, kz - Blackness(n0, z)) && BlackPaths(n0, zr, kz - Blackness(n0, z))
    requires Blackness(n0, y) == 1 && TakesColor(n0, n1, y, z)
    ensures Short(n1, s', Ptr(y), Right, h)
  {
    var bz: int := Blackness(n0, z);
    assert BlackPaths(n0, zr.right, kz - bz - 1);
    assert y !in Indices(zr.right);
    PathsTakeColor(n0, n1, y, z, zl, kz - bz);
    PathsTakeColor(n0, n1, y, z, zr.right, kz - bz - 1);
    TakesColorAt(n0, n1, y, z, y);
    ShortAt(n1, s', h, y, Right, kz, zr.right, zl);
  }

  /** Inside `z`'s right subtree `zr`: taking out the Black leftmost node `y`, the left child of
      `q`, leaves `q`'s left side one Black node short. */
  lemma DeepBelow<V>(n0: seq<Node<V>>, zr: Shape, hr: int, q: nat, y: nat)
    requires Distinct(zr) && BlackPaths(n0, zr, hr) && q in Indices(zr) && Sub(zr, q).Branch?
    requires y in Indices(zr) && y != q && Sub(zr, q).left == Sub(zr, y) && Sub(zr, y).Branch? && Sub(zr, y).left == Leaf
    requires Blackness(n0, y) == 1
    ensures Around(n0, Rest(zr, y), hr, q, BlackHeight(n0, Sub(zr, q)))
    ensures BlackPaths(n0, Sub(zr, y).right, BlackHeight(n0, Sub(zr, q)) - Blackness(n0, q) - 1)
    ensures BlackPaths(n0, Sub(zr, q).right, BlackHeight(n0, Sub(zr, q)) - Blackness(n0, q))
    ensures y !in Indices(Sub(zr, y).right) && y !in Indices(Sub(zr, q).right)
  {
    SubInside(zr, q);
    SubInside(zr, y);
    var b := Sub(zr, q);
    var ys := Sub(zr, y);
    AroundSplit(n0, zr, hr, q);
    var kq: int := BlackHeight(n0, b);
    var bq: int := Blackness(n0, q);
    assert BlackPaths(n0, b.left, kq - bq) && BlackPaths(n0, b.right, kq - bq);
    assert BlackPaths(n0, ys.right, kq - bq - 1);
    assert y in Indices(b) by {
      assert y in Indices(ys);
    }
    AroundSplice(n0, zr, hr, q, kq, y, ys.right);
    SubDistinct(zr, q);
    SubDistinct(zr, y);
  }

  /** The count around `q` inside the subtree `y` roots in `z`'s place. */
  lemma DeepAround<V>(n0: seq<Node<V>>, n1: seq<Node<V>>, z: nat, y: nat, q: nat, kz: int, kq: int, zl: Shape, rest: Shape)
    requires Distinct(Branch(zl, y, rest)) && TakesColor(n0, n1, y, z)
    requires Around(n0, rest, kz - Blackness(n0, z), q, kq) && BlackPaths(n0, zl, kz - Blackness(n0, z))
    ensures Around(n1, Branch(zl, y, rest), kz, q, kq) && q in Indices(Branch(zl, y, rest))
  {
    var bz: int := Blackness(n0, z);
    AroundBelow(n0, rest, kz - bz, q, kq);
    AroundTakeColor(n0, n1, y, z, rest, kz - bz, q, kq);
    PathsTakeColor(n0, n1, y, z, zl, kz - bz);
    TakesColorAt(n0, n1, y, z, y);
  }

  /** The count around `q`, the old parent of a Black successor `y` that has moved to `z`'s
      place in `s'`. */
  lemma DeepAroundUp<V>(n0: seq<Node<V>>, n1: seq<Node<V>>, s': Shape, h: int, z: nat, y: nat, q: nat, kz: int, kq: int, zl: Shape, rest: Shape)
    requires Distinct(s') && Around(n1, s', h, y, kz) && Sub(s', y) == Branch(zl, y, rest)
    requires Around(n0, rest, kz - Blackness(n0, z), q, kq) && BlackPaths(n0, zl, kz - Blackness(n0, z))
    requires TakesColor(n0, n1, y, z)
    ensures Around(n1, s', h, q, kq)
  {
    assert Distinct(Branch(zl, y, rest)) by {
      SubDistinct(s', y);
    }
    DeepAround(n0, n1, z, y, q, kz, kq, zl, rest);
    AroundTrans(n1, s', h, y, kz, q, kq);
  }

  /** `q`'s two sides keep their counts when `y`, outside both, takes another colour. */
  lemma SidesTakeColor<V>(n0: seq<Node<V>>, n1: seq<Node<V>>, y: nat, z: nat, q: nat, kq: int, a: Shape, c: Shape)
    requires BlackPaths(n0, a, kq - Blackness(n0, q) - 1) && BlackPaths(n0, c, kq - Blackness(n0, q))
    requires y != q && y !in Indices(a) && y !in Indices(c) && TakesColor(n0, n1, y, z)
    ensures BlackPaths(n1, a, kq - Blackness(n1, q) - 1) && BlackPaths(n1, c, kq - Blackness(n1, q))
  {
    TakesColorAt(n0, n1, y, z, q);
    PathsTakeColor(n0, n1, y, z, a, kq - Blackness(n0, q) - 1);
    PathsTakeColor(n0, n1, y, z, c, kq - Blackness(n0, q));
  }

  /** A Black successor `y` taken from deep in `z`'s right subtree leaves the left side of its
      old parent `q` one Black node short; `a` and `c` are `q`'s subtrees. */
  lemma DeepShort<V>(n0: seq<Node<V>>, n1: seq<Node<V>>, s': Shape, h: int, z: nat, y: nat, q: nat, kz: int, kq: int, zl: Shape, rest: Shape, a: Shape, c: Shape)
    requires Distinct(s') && Around(n1, s', h, y, kz) && Sub(s', y) == Branch(zl, y, rest)
    requires Around(n0, rest, kz - Blackness(n0, z), q, kq) && BlackPaths(n0, zl, kz - Blackness(n0, z))
    requires BlackPaths(n0, a, kq - Blackness(n0, q) - 1) && BlackPaths(n0, c, kq - Blackness(n0, q))
    requires y != q && y !in Indices(a) && y !in Indices(c) && TakesColor(n0, n1, y, z)
    requires Sub(s', q) == Branch(a, q, c)
    ensures Short(n1, s', Ptr(q), Left, h)
  {
    DeepAroundUp(n0, n1, s', h, z, y, q, kz, kq, zl, rest);
    SidesTakeColor(n0, n1, y, z, q, kq, a, c);
    ShortAt(n1, s', h, q, Left, kq, a, c);
  }

  // ---------------------------------------------------------------- where the fix-up starts

  /** The node exempt from the Red rule after unlinking: `x` when a Black node left the tree. */
  function Hole<V>(u: (RbTree<V>, Ptr, Color)): Ptr {
    if u.2 == Black then u.1 else Null
  }

  /** The colour state `Unlink` leaves, with the slot `v` the fix-up starts from: only the node
      in the slot may break the Red rule; when a Black node left, the paths through the slot
      pass one Black node fewer than the `h` of all other paths; when a Red node left, every
      path still passes `h`. */
  ghost predicate Ready<V>(u: (RbTree<V>, Ptr, Color), v: (Ptr, Dir), h: int) {
    && Calm(u.0.nodes, Abs(u.0), Hole(u))
    && (u.2 == Black ==> Short(u.0.nodes, Abs(u.0), v.0, v.1, h))
    && (u.2 == Red ==> BlackPaths(u.0.nodes, Abs(u.0), h))
  }

  /** All Red nodes are where they were. */
  lemma SameRed<V>(n0: seq<Node<V>>, n1: seq<Node<V>>, z: nat)
    requires TakesColor(n0, n1, z, z)
    ensures forall j :: IsRed(n1, Ptr(j)) == IsRed(n0, Ptr(j)) && Blackness(n1, j) == Blackness(n0, j)
  {
    forall j ensures IsRed(n1, Ptr(j)) == IsRed(n0, Ptr(j)) && Blackness(n1, j) == Blackness(n0, j) {
      TakesColorAt(n0, n1, z, z, j);
    }
  }

  /** A node `z` of a calm tree replaced by its subtree `X` on one side leaves a tree calm
      but for the root of `X`, which may be Red where `z` was Black. */
  lemma OneCalm<V>(n0: seq<Node<V>>, n1: seq<Node<V>>, s: Shape, z: nat, f: Dir, w: Ptr)
    requires Links(n0, s) && z in Indices(s) && Calm(n0, s, Null) && TakesColor(n0, n1, z, z)
    requires Sub(s, z).Branch? && (IsRed(n0, Root(Side(Sub(s, z), f))) ==> IsRed(n0, Ptr(z)) || Root(Side(Sub(s, z), f)) == w)
    ensures Calm(n1, Replace(s, z, Side(Sub(s, z), f)), w)
  {
    var x := Side(Sub(s, z), f);
    SameRed(n0, n1, z);
    LinksDistinct(n0, s);
    assert Calm(n0, x, Null) by {
      CalmSub(n0, s, Null, z);
      if f == Left {} else {}
    }
    CalmFrame(n0, n1, x, w);
    ReplaceCalm(n0, n1, s, z, x, w);
  }

  lemma OneSideCalm<V>(t: RbTree<V>, z: nat)
    requires Valid(t) && RedBlack(t) && z in Indices(Abs(t)) && z < |t.nodes|
    requires t.nodes[z].left.Null? || t.nodes[z].right.Null?
    ensures var u := Unlink(t, z, Repaired); Calm(u.0.nodes, Abs(u.0), Hole(u))
  {
    var s := Abs(t);
    var n0 := t.nodes;
    var d := if n0[z].left.Null? then Left else Right;
    var x := Child(n0[z], Flip(d));
    var u := Unlink(t, z, Repaired);
    assert u == (Transplant(t, z, x).(length := t.length - 1), x, n0[z].color);
    TransplantLinked(t, z, d);
    assert Abs(u.0) == Replace(s, z, Side(Sub(s, z), Flip(d)));
    OneSideColors(t, z);
    assert Root(Side(Sub(s, z), Flip(d))) == x by {
      SubLinks(n0, s, z);
      if d == Left {} else {}
    }
    CalmOf(t);
    OneCalm(n0, u.0.nodes, s, z, Flip(d), Hole(u));
  }

  /** The slot `z` filled, seen in the shape: below the parent on the side that named `z`. */
  lemma SlotSide<V>(n0: seq<Node<V>>, s: Shape, z: nat)
    requires Wf(n0, s, Null) && z in Indices(s) && AllInArena(n0)
    ensures z < |n0|
    ensures SlotOf(n0, z).0.Null? ==> z == s.index && Sub(s, z) == s
    ensures SlotOf(n0, z).0.Ptr? ==>
      var q := SlotOf(n0, z).0.index;
      && q in Indices(s) && Sub(s, q).Branch? && Side(Sub(s, q), SlotOf(n0, z).1).Branch?
      && Side(Sub(s, q), SlotOf(n0, z).1).index == z
  {
    ParentInside(n0, s, Null, z);
    var zp := n0[z].parent;
    if zp.Ptr? {
      SubLinks(n0, s, zp.index);
    }
  }

  lemma OneSidePaths<V>(t: RbTree<V>, z: nat)
    requires Valid(t) && RedBlack(t) && z in Indices(Abs(t)) && z < |t.nodes|
    requires t.nodes[z].left.Null? || t.nodes[z].right.Null?
    ensures var u := Unlink(t, z, Repaired); var v := Vacated(t, z); var h := BlackHeight(t.nodes, Abs(t));
      && (u.2 == Black ==> Short(u.0.nodes, Abs(u.0), v.0, v.1, h))
      && (u.2 == Red ==> BlackPaths(u.0.nodes, Abs(u.0), h))
  {
    var s := Abs(t);
    var n0 := t.nodes;
    var h := BlackHeight(n0, s);
    var d := if n0[z].left.Null? then Left else Right;
    var x := Child(n0[z], Flip(d));
    var u := Unlink(t, z, Repaired);
    var n1 := u.0.nodes;
    assert u == (Transplant(t, z, x).(length := t.length - 1), x, n0[z].color);
    TransplantLinked(t, z, d);
    assert Abs(u.0) == Replace(s, z, Side(Sub(s, z), Flip(d)));
    OneSideColors(t, z);
    SameRed(n0, n1, z);
    PathsFrame(n0, n1, s, h);
    LinksDistinct(n0, s);
    if n0[z].color == Red {
      OneRedPaths(n1, s, h, z, Flip(d));
    } else {
      var v := Vacated(t, z);
      assert v == SlotOf(n0, z);
      SlotSide(n0, s, z);
      if v.0.Null? {
        OneRootShort(n1, s, h, Flip(d), v.1);
      } else {
        OneShort(n1, s, h, v.0.index, v.1, z, Flip(d));
      }
    }
  }

  /** What unlinking a node `z` with two children leaves, in terms of the shape `s` before:
      `z`'s successor `y` in `z`'s place, with `z`'s colour. */
  lemma TwoSetup<V>(t: RbTree<V>, z: nat)
    requires Valid(t) && z in Indices(Abs(t)) && z < |t.nodes|
    requires t.nodes[z].left.Ptr? && t.nodes[z].right.Ptr?
    ensures var s := Abs(t); var y := Successor(t, z); var u := Unlink(t, z, Repaired);
      var zr := Sub(s, z).right;
      && u.1 == t.nodes[y].right && u.2 == t.nodes[y].color
      && Abs(u.0) == Replace(s, z, Branch(Sub(s, z).left, y, Rest(zr, y)))
      && Distinct(s) && Distinct(Abs(u.0)) && Links(t.nodes, zr)
      && y !in Indices(Rest(zr, y)) && t.nodes[y].right == Root(Sub(zr, y).right)
      && TakesColor(t.nodes, u.0.nodes, y, z)
  {
    var s := Abs(t);
    var n0 := t.nodes;
    var y := Successor(t, z);
    var t1 := Detach(t, z, y, Repaired);
    var g := Graft(t1, z, y);
    var u := Unlink(t, z, Repaired);
    UnlinkIsGraft(t, z, Repaired);
    UnlinkTwoShape(t, z, y, t1);
    assert u.0.nodes == g.nodes && u.0.root == g.root;
    assert Abs(u.0) == Abs(g);
    LinksDistinct(u.0.nodes, Abs(u.0));
    LinksDistinct(n0, s);
    TwoColors(t, z);
    var zr := Sub(s, z).right;
    SubWf(n0, s, Null, z);
    assert Wf(n0, zr, Ptr(z));
    RestOrder(n0, zr, Ptr(z), y);
    SubLinks(n0, zr, y);
  }

  /** A Red node's colour seen through its link: the same in both arenas away from `y`. */
  lemma RootTakesColor<V>(n0: seq<Node<V>>, n1: seq<Node<V>>, y: nat, z: nat, a: Shape)
    requires TakesColor(n0, n1, y, z) && y !in Indices(a)
    ensures IsRed(n1, Root(a)) == IsRed(n0, Root(a))
  {
    if a.Branch? {
      assert a.index in Indices(a);
      TakesColorAt(n0, n1, y, z, a.index);
    }
  }

  /** `z`'s right subtree without its leftmost node `y` is calm but for the node that takes
      `y`'s place, when that node may be Red only where `y` was or is the exempt `w`. */
  lemma RestCalm<V>(n0: seq<Node<V>>, n1: seq<Node<V>>, zr: Shape, y: nat, z: nat, w: Ptr)
    requires Links(n0, zr) && y in Indices(zr) && Calm(n0, zr, Null) && TakesColor(n0, n1, y, z)
    requires y !in Indices(Rest(zr, y))
    requires IsRed(n0, Root(Sub(zr, y).right)) ==> IsRed(n0, Ptr(y)) || Root(Sub(zr, y).right) == w
    ensures Calm(n1, Rest(zr, y), w)
    ensures Root(Rest(zr, y)) == if Root(zr) == Ptr(y) then Root(Sub(zr, y).right) else Root(zr)
    ensures IsRed(n1, Root(Rest(zr, y))) == IsRed(n0, Root(Rest(zr, y)))
  {
    SubLinks(n0, zr, y);
    LinksDistinct(n0, zr);
    var yr := Sub(zr, y).right;
    assert y !in Indices(yr) by {
      SubDistinct(zr, y);
    }
    assert Calm(n0, yr, Null) by {
      CalmSub(n0, zr, Null, y);
    }
    assert y !in Outside(zr, y);
    TakesColorBeside(n0, n1, y, z, Indices(yr) + Outside(zr, y));
    CalmFrame(n0, n1, yr, w);
    RootTakesColor(n0, n1, y, z, yr);
    ReplaceCalm(n0, n1, zr, y, yr, w);
    ReplaceRoot(zr, y, yr);
    RootTakesColor(n0, n1, y, z, Rest(zr, y));
  }

  /** The successor `y` in `z`'s place, with `z`'s colour, over `z`'s left subtree and the
      rest of its right subtree: the tree stays calm but for the exempt `w`. */
  lemma TwoCalmShape<V>(n0: seq<Node<V>>, n1: seq<Node<V>>, s: Shape, z: nat, y: nat, w: Ptr)
    requires Links(n0, s) && z in Indices(s) && Calm(n0, s, Null) && TakesColor(n0, n1, y, z)
    requires Sub(s, z).Branch? && y in Indices(Sub(s, z).right) && y !in Indices(Rest(Sub(s, z).right, y))
    requires IsRed(n0, Root(Sub(Sub(s, z).right, y).right)) ==>
      IsRed(n0, Ptr(y)) || Root(Sub(Sub(s, z).right, y).right) == w
    ensures Calm(n1, Replace(s, z, Branch(Sub(s, z).left, y, Rest(Sub(s, z).right, y))), w)
  {
    var zs := Sub(s, z);
    var zl := zs.left;
    var zr := zs.right;
    var rest := Rest(zr, y);
    SubLinks(n0, s, z);
    LinksDistinct(n0, s);
    assert y !in Indices(zl) && y !in Outside(s, z) by {
      SubDistinct(s, z);
    }
    assert Calm(n0, zs, Null) by {
      CalmSub(n0, s, Null, z);
    }
    RestCalm(n0, n1, zr, y, z, w);
    TakesColorBeside(n0, n1, y, z, Indices(zl) + Outside(s, z));
    CalmFrame(n0, n1, zl, w);
    RootTakesColor(n0, n1, y, z, zl);
    TakesColorAt(n0, n1, y, z, y);
    if IsRed(n0, Ptr(z)) && Root(zr) == Ptr(y) {
      assert !IsRed(n0, Ptr(y));
    }
    assert Calm(n1, Branch(zl, y, rest), w);
    ReplaceCalm(n0, n1, s, z, Branch(zl, y, rest), w);
  }

  lemma TwoCalm<V>(t: RbTree<V>, z: nat)
    requires Valid(t) && RedBlack(t) && z in Indices(Abs(t)) && z < |t.nodes|
    requires t.nodes[z].left.Ptr? && t.nodes[z].right.Ptr?
    ensures var u := Unlink(t, z, Repaired); Calm(u.0.nodes, Abs(u.0), Hole(u))
  {
    TwoSetup(t, z);
    CalmOf(t);
    var u := Unlink(t, z, Repaired);
    TwoCalmShape(t.nodes, u.0.nodes, Abs(t), z, Successor(t, z), Hole(u));
  }

  /** A Red successor leaves every path with its count. */
  lemma TwoRedCase<V>(t: RbTree<V>, z: nat)
    requires Valid(t) && RedBlack(t) && z in Indices(Abs(t)) && z < |t.nodes|
    requires t.nodes[z].left.Ptr? && t.nodes[z].right.Ptr? && t.nodes[Successor(t, z)].color == Red
    ensures var u := Unlink(t, z, Repaired); BlackPaths(u.0.nodes, Abs(u.0), BlackHeight(t.nodes, Abs(t)))
  {
    TwoSetup(t, z);
    var u := Unlink(t, z, Repaired);
    TwoRedPaths(t.nodes, u.0.nodes, Abs(t), BlackHeight(t.nodes, Abs(t)), z, Successor(t, z));
  }

  /** A Black successor that was `z`'s right child leaves its own right side short: the
      shape-level statement, for the shape `s'` after unlinking. */
  lemma ChildCaseShape<V>(n0: seq<Node<V>>, n1: seq<Node<V>>, s: Shape, h: int, z: nat, y: nat, s': Shape)
    requires Distinct(s) && BlackPaths(n0, s, h) && z in Indices(s) && Sub(s, z).Branch?
    requires Sub(s, z).right.Branch? && Sub(s, z).right.index == y && Sub(s, z).right.left == Leaf
    requires Blackness(n0, y) == 1 && TakesColor(n0, n1, y, z)
    requires s' == Replace(s, z, Branch(Sub(s, z).left, y, Rest(Sub(s, z).right, y))) && Distinct(s')
    ensures Short(n1, s', Ptr(y), Right, h)
  {
    var zs := Sub(s, z);
    assert Rest(zs.right, y) == zs.right.right;
    TwoBase(n0, n1, s, h, z, y, Rest(zs.right, y));
    ChildShort(n0, n1, s', h, z, y, BlackHeight(n0, zs), zs.left, zs.right);
  }

  /** The deep case inside the subtree `y` roots in `z`'s place: `zl` and `zr` are `z`'s old
      subtrees, `kz` the count `z` had. */
  lemma DeepRest<V>(n0: seq<Node<V>>, n1: seq<Node<V>>, s': Shape, h: int, z: nat, y: nat, q: nat, kz: int, zl: Shape, zr: Shape)
    requires q in Indices(zr) && Sub(zr, q).Branch?
    requires y in Indices(zr) && y != q && Sub(zr, y).Branch?
    requires Sub(zr, q).left == Sub(zr, y) && Sub(zr, y).left == Leaf
    requires Distinct(s') && Around(n1, s', h, y, kz) && Sub(s', y) == Branch(zl, y, Rest(zr, y))
    requires BlackPaths(n0, zl, kz - Blackness(n0, z)) && BlackPaths(n0, zr, kz - Blackness(n0, z))
    requires Distinct(zr) && Blackness(n0, y) == 1 && TakesColor(n0, n1, y, z)
    requires Sub(s', q) == Branch(Sub(zr, y).right, q, Sub(zr, q).right)
    ensures Short(n1, s', Ptr(q), Left, h)
  {
    DeepBelow(n0, zr, kz - Blackness(n0, z), q, y);
    DeepShort(n0, n1, s', h, z, y, q, kz, BlackHeight(n0, Sub(zr, q)), zl, Rest(zr, y),
      Sub(zr, y).right, Sub(zr, q).right);
  }

  /** A Black successor from deeper in `z`'s right subtree leaves its old parent `q`'s left
      side short: the shape-level statement. */
  lemma DeepCaseShape<V>(n0: seq<Node<V>>, n1: seq<Node<V>>, s: Shape, h: int, z: nat, y: nat, q: nat, s': Shape)
    requires Distinct(s) && BlackPaths(n0, s, h) && z in Indices(s) && Sub(s, z).Branch?
    requires q in Indices(Sub(s, z).right) && Sub(Sub(s, z).right, q).Branch?
    requires y in Indices(Sub(s, z).right) && y != q && Sub(Sub(s, z).right, y).Branch?
    requires Sub(Sub(s, z).right, q).left == Sub(Sub(s, z).right, y) && Sub(Sub(s, z).right, y).left == Leaf
    requires Blackness(n0, y) == 1 && TakesColor(n0, n1, y, z)
    requires s' == Replace(s, z, Branch(Sub(s, z).left, y, Rest(Sub(s, z).right, y))) && Distinct(s')
    requires Sub(s', q) == Branch(Sub(Sub(s, z).right, y).right, q, Sub(Sub(s, z).right, q).right)
    ensures Short(n1, s', Ptr(q), Left, h)
  {
    var zs := Sub(s, z);
    var zl := zs.left;
    var zr := zs.right;
    var kz := BlackHeight(n0, zs);
    TwoBase(n0, n1, s, h, z, y, Rest(zr, y));
    assert Distinct(s') && Around(n1, s', h, y, kz);
    assert Sub(s', y) == Branch(zl, y, Rest(zr, y));
    assert BlackPaths(n0, zl, kz - Blackness(n0, z));
    assert BlackPaths(n0, zr, kz - Blackness(n0, z));
    assert Distinct(zr) && TakesColor(n0, n1, y, z);
    assert Sub(s', q) == Branch(Sub(zr, y).right, q, Sub(zr, q).right);
    DeepRest(n0, n1, s', h, z, y, q, kz, zl, zr);
  }

  /** A Black successor that was `z`'s right child leaves its own right side short. */
  lemma TwoChildCase<V>(t: RbTree<V>, z: nat)
    requires Valid(t) && RedBlack(t) && z in Indices(Abs(t)) && z < |t.nodes|
    requires t.nodes[z].left.Ptr? && t.nodes[z].right.Ptr? && t.nodes[Successor(t, z)].color == Black
    requires t.nodes[Successor(t, z)].parent == Ptr(z)
    ensures var u := Unlink(t, z, Repaired); var v := Vacated(t, z);
      Short(u.0.nodes, Abs(u.0), v.0, v.1, BlackHeight(t.nodes, Abs(t)))
  {
    var y := Successor(t, z);
    var u := Unlink(t, z, Repaired);
    TwoSetup(t, z);
    DetachChild(t, z);
    assert Vacated(t, z) == (Ptr(y), Right);
    ChildCaseShape(t.nodes, u.0.nodes, Abs(t), BlackHeight(t.nodes, Abs(t)), z, y, Abs(u.0));
  }

  /** A Black successor from deeper in `z`'s right subtree leaves its old parent's left side
      short. */
  lemma TwoDeepCase<V>(t: RbTree<V>, z: nat)
    requires Valid(t) && RedBlack(t) && z in Indices(Abs(t)) && z < |t.nodes|
    requires t.nodes[z].left.Ptr? && t.nodes[z].right.Ptr? && t.nodes[Successor(t, z)].color == Black
    requires t.nodes[Successor(t, z)].parent != Ptr(z)
    ensures var u := Unlink(t, z, Repaired); var v := Vacated(t, z);
      Short(u.0.nodes, Abs(u.0), v.0, v.1, BlackHeight(t.nodes, Abs(t)))
  {
    var y := Successor(t, z);
    var u := Unlink(t, z, Repaired);
    TwoSetup(t, z);
    DeepShape(t, z);
    var q := t.nodes[y].parent.index;
    assert Vacated(t, z) == (Ptr(q), Left);
    DeepCaseShape(t.nodes, u.0.nodes, Abs(t), BlackHeight(t.nodes, Abs(t)), z, y, q, Abs(u.0));
  }

  /** Unlinking any node of a red-black tree leaves the colour state the repaired fix-up
      starts from at the vacated slot. */
  lemma UnlinkReady<V>(t: RbTree<V>, z: nat)
    requires Valid(t) && RedBlack(t) && z in Indices(Abs(t)) && z < |t.nodes|
    ensures Ready(Unlink(t, z, Repaired), Vacated(t, z), BlackHeight(t.nodes, Abs(t)))
  {
    if t.nodes[z].left.Null? || t.nodes[z].right.Null? {
      OneSideCalm(t, z);
      OneSidePaths(t, z);
    } else {
      TwoCalm(t, z);
      TwoSetup(t, z);
      var y := Successor(t, z);
      if t.nodes[y].color == Red {
        TwoRedCase(t, z);
      } else if t.nodes[y].parent == Ptr(z) {
        TwoChildCase(t, z);
      } else {
        TwoDeepCase(t, z);
      }
    }
  }

  // ---------------------------------------------------------------- delete keeps the colour rules

  /** When a Black node left the tree, the repaired loop's invariant holds at the vacated slot,
      with fuel for the whole climb; when a Red node left, the tree is already red-black. */
  lemma UnlinkStarts<V>(t: RbTree<V>, z: nat)
    requires Valid(t) && RedBlack(t) && z in Indices(Abs(t)) && z < |t.nodes|
    ensures var u := Unlink(t, z, Repaired); var v := Vacated(t, z);
      && InArena(u.0.nodes, v.0) && Closed(u.0)
      && (u.2 == Black ==> FixInv(u.0, v.0, v.1, BlackHeight(t.nodes, Abs(t))) && Fueled(u.0, v.0, v.1, |u.0.nodes|))
      && (u.2 == Red ==> RedBlack(u.0))
  {
    var u := Unlink(t, z, Repaired);
    var v := Vacated(t, z);
    var h := BlackHeight(t.nodes, Abs(t));
    UnlinkValid(t, z);
    VacatedSlot(t, z);
    UnlinkReady(t, z);
    if u.2 == Black {
      assert Hole(u) == SlotChild(u.0, v.0, v.1);
      CalmNear(u.0, Hole(u));
      assert Settled(u.0, SlotChild(u.0, v.0, v.1));
      if v.0.Ptr? {
        DepthBound(u.0.nodes, Abs(u.0), v.0.index);
      }
    } else {
      CalmNoRedRed(u.0);
      PathsHeight(u.0.nodes, Abs(u.0), h);
    }
  }

  /** The repaired `delete` keeps a red-black tree red-black, and its fix-up always finishes
      within its fuel. */
  lemma DeleteKeepsRedBlack<V>(t: RbTree<V>, k: int)
    requires Valid(t) && RedBlack(t)
    ensures Delete(t, k, Repaired).Ok? && RedBlack(Delete(t, k, Repaired).value)
  {
    var z := Search(t, k);
    if z.Ptr? {
      var u := Unlink(t, z.index, Repaired);
      var v := Vacated(t, z.index);
      UnlinkStarts(t, z.index);
      if u.2 == Black {
        assert Delete(t, k, Repaired) == SlotFixup(u.0, v.0, v.1, |u.0.nodes|);
        SlotFixupKeepsColors(u.0, v.0, v.1, BlackHeight(t.nodes, Abs(t)), |u.0.nodes|);
      }
    }
  }
}
