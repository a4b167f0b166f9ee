/**
  Black paths around a node. The delete fix-up works on a tree in which the paths through
  one subtree pass one Black node fewer than all the others; `Around` states what the rest
  of the tree must satisfy for that subtree, so that the counts above a node and below it
  can be reasoned about apart.
 */
module RbPaths {
  import opened RbArena
  import opened RbShape
  import opened RbColor

  /** Every path of `s` from its root to an empty slot outside the subtree at `u` passes
      `h` Black nodes, counting the subtree at `u` as `k` of them. */
  ghost predicate Around<V>(nodes: seq<Node<V>>, s: Shape, h: int, u: nat, k: int) {
    match s
    case Leaf => false
    case Branch(l, i, r) =>
      if i == u then h == k
      else if u in Indices(l) then
        Around(nodes, l, h - Blackness(nodes, i), u, k) && BlackPaths(nodes, r, h - Blackness(nodes, i))
      else
        Around(nodes, r, h - Blackness(nodes, i), u, k) && BlackPaths(nodes, l, h - Blackness(nodes, i))
  }

  /** The count left for the subtree at `u` once the Black nodes above it are taken from `h`. */
  ghost function Below<V>(nodes: seq<Node<V>>, s: Shape, h: int, u: nat): int {
    match s
    case Leaf => h
    case Branch(l, i, r) =>
      if i == u then h
      else if u in Indices(l) then Below(nodes, l, h - Blackness(nodes, i), u)
      else Below(nodes, r, h - Blackness(nodes, i), u)
  }

  /** The count `Around` gives the subtree at `u` is the one above `u` leaves for it. */
  lemma {:induction false} AroundBelow<V>(nodes: seq<Node<V>>, s: Shape, h: int, u: nat, k: int)
    requires Around(nodes, s, h, u, k)
    ensures k == Below(nodes, s, h, u) && u in Indices(s)
  {
    match s
    case Branch(l, i, r) =>
      if i != u {
        var h' := h - Blackness(nodes, i);
        if u in Indices(l) { AroundBelow(nodes, l, h', u, k); } else { AroundBelow(nodes, r, h', u, k); }
      }
  }

  /** A subtree with the count `Around` asks for completes the tree. */
  lemma {:induction false} AroundJoin<V>(nodes: seq<Node<V>>, s: Shape, h: int, u: nat, k: int, n: Shape)
    requires Around(nodes, s, h, u, k) && BlackPaths(nodes, n, k)
    ensures BlackPaths(nodes, Replace(s, u, n), h)
  {
    match s
    case Branch(l, i, r) =>
      if i != u {
        var h' := h - Blackness(nodes, i);
        if u in Indices(l) {
          AroundJoin(nodes, l, h', u, k, n);
        } else {
          AroundBelow(nodes, r, h', u, k);
          AroundJoin(nodes, r, h', u, k, n);
        }
      }
  }

  /** A tree whose paths all pass `h` Black nodes splits around any of its nodes. */
  lemma {:induction false} AroundSplit<V>(nodes: seq<Node<V>>, s: Shape, h: int, u: nat)
    requires BlackPaths(nodes, s, h) && u in Indices(s)
    ensures Around(nodes, s, h, u, BlackHeight(nodes, Sub(s, u)))
    ensures BlackPaths(nodes, Sub(s, u), BlackHeight(nodes, Sub(s, u)))
  {
    match s
    case Branch(l, i, r) =>
      var h' := h - Blackness(nodes, i);
      if i == u {
        PathsHeight(nodes, s, h);
      } else if u in Indices(l) {
        AroundSplit(nodes, l, h', u);
      } else {
        AroundSplit(nodes, r, h', u);
      }
  }

  /** `Around` depends only on the colours of the nodes outside the subtree at `u`. */
  lemma {:induction false} AroundFrame<V>(nodes: seq<Node<V>>, nodes': seq<Node<V>>, s: Shape, h: int, u: nat, k: int)
    requires Distinct(s) && Around(nodes, s, h, u, k)
    requires forall j :: j in Outside(s, u) ==> Blackness(nodes', j) == Blackness(nodes, j)
    ensures Around(nodes', s, h, u, k)
  {
    match s
    case Branch(l, i, r) =>
      if i != u {
        AroundBelow(nodes, s, h, u, k);
        var h' := h - Blackness(nodes, i);
        if u in Indices(l) {
          SubInside(l, u);
          assert i in Outside(s, u);
          assert Outside(l, u) <= Outside(s, u) && Indices(r) <= Outside(s, u);
          AroundFrame(nodes, nodes', l, h', u, k);
          PathsFrame(nodes, nodes', r, h');
        } else {
          SubInside(r, u);
          assert i in Outside(s, u);
          assert Outside(r, u) <= Outside(s, u) && Indices(l) <= Outside(s, u);
          AroundFrame(nodes, nodes', r, h', u, k);
          PathsFrame(nodes, nodes', l, h');
        }
      }
  }

  /** Splicing a subtree in at `u` keeps the count around the new subtree's root. */
  lemma {:induction false} AroundReplace<V>(nodes: seq<Node<V>>, s: Shape, h: int, u: nat, k: int, n: Shape)
    requires Distinct(s) && Around(nodes, s, h, u, k) && n.Branch? && n.index !in Outside(s, u)
    ensures Around(nodes, Replace(s, u, n), h, n.index, k)
  {
    match s
    case Branch(l, i, r) =>
      if i != u {
        AroundBelow(nodes, s, h, u, k);
        var h' := h - Blackness(nodes, i);
        assert n.index in Indices(n);
        if u in Indices(l) {
          SubInside(l, u);
          assert i in Outside(s, u) && Outside(l, u) <= Outside(s, u);
          ReplaceHas(l, u, n);
          AroundReplace(nodes, l, h', u, k, n);
        } else {
          SubInside(r, u);
          assert i in Outside(s, u) && Outside(r, u) <= Outside(s, u) && Indices(l) <= Outside(s, u);
          AroundReplace(nodes, r, h', u, k, n);
        }
      }
  }

  /** Splicing strictly below `v` keeps the count around `v`. */
  lemma AroundSplice<V>(nodes: seq<Node<V>>, s: Shape, h: int, v: nat, k: int, u: nat, n: Shape)
    requires Distinct(s) && Around(nodes, s, h, v, k) && u in Indices(Sub(s, v)) && u != v
    ensures Around(nodes, Replace(s, u, n), h, v, k)
    ensures Sub(Replace(s, u, n), v) == Replace(Sub(s, v), u, n)
  {
    AroundBelow(nodes, s, h, v, k);
    SubInside(s, v);
    ReplaceNested(s, v, u, n);
    var m := Replace(Sub(s, v), u, n);
    assert m.Branch? && m.index == v;
    AroundReplace(nodes, s, h, v, k, m);
    SubReplaceBelow(s, v, u, n);
  }

  /** The count around a node inside the subtree at `a` is the count around it there. */
  lemma {:induction false} AroundTrans<V>(nodes: seq<Node<V>>, s: Shape, h: int, a: nat, ka: int, v: nat, k: int)
    requires Distinct(s) && Around(nodes, s, h, a, ka) && v in Indices(Sub(s, a))
    ensures Around(nodes, Sub(s, a), ka, v, k) <==> Around(nodes, s, h, v, k)
  {
    match s
    case Branch(l, i, r) =>
      if i != a {
        AroundBelow(nodes, s, h, a, ka);
        var h' := h - Blackness(nodes, i);
        if a in Indices(l) {
          SubInside(l, a);
          AroundTrans(nodes, l, h', a, ka, v, k);
        } else {
          SubInside(r, a);
          AroundTrans(nodes, r, h', a, ka, v, k);
        }
      }
  }

  /** From a child's subtree up to its parent `q`: the sibling's paths are those of the child's. */
  lemma {:induction false} AroundUp<V>(nodes: seq<Node<V>>, s: Shape, h: int, q: nat, e: Dir, k: int)
    requires Distinct(s) && q in Indices(s) && Sub(s, q).Branch? && Side(Sub(s, q), e).Branch?
    requires Around(nodes, s, h, Side(Sub(s, q), e).index, k)
    ensures Around(nodes, s, h, q, k + Blackness(nodes, q))
    ensures BlackPaths(nodes, Side(Sub(s, q), Flip(e)), k)
  {
    match s
    case Branch(l, i, r) =>
      var h' := h - Blackness(nodes, i);
      var c := Side(Sub(s, q), e).index;
      if i == q {
        assert c in Indices(Side(s, e));
        if e == Right {
          assert c !in Indices(l);
        }
      } else {
        SubInside(s, q);
        if q in Indices(l) {
          SubInside(l, q);
          assert c in Indices(Sub(l, q));
          AroundUp(nodes, l, h', q, e, k);
        } else {
          SubInside(r, q);
          assert c in Indices(Sub(r, q));
          AroundUp(nodes, r, h', q, e, k);
        }
      }
  }

  /** From `q` down into the child on side `e`, given the sibling's paths. */
  lemma {:induction false} AroundDown<V>(nodes: seq<Node<V>>, s: Shape, h: int, q: nat, e: Dir, k: int)
    requires Distinct(s) && Around(nodes, s, h, q, k) && Sub(s, q).Branch? && Side(Sub(s, q), e).Branch?
    requires BlackPaths(nodes, Side(Sub(s, q), Flip(e)), k - Blackness(nodes, q))
    ensures Around(nodes, s, h, Side(Sub(s, q), e).index, k - Blackness(nodes, q))
  {
    match s
    case Branch(l, i, r) =>
      var h' := h - Blackness(nodes, i);
      var c := Side(Sub(s, q), e).index;
      if i == q {
        assert c in Indices(Side(s, e));
        if e == Right {
          assert c !in Indices(l);
        }
      } else {
        AroundBelow(nodes, s, h, q, k);
        if q in Indices(l) {
          SubInside(l, q);
          assert c in Indices(Sub(l, q));
          AroundDown(nodes, l, h', q, e, k);
        } else {
          SubInside(r, q);
          assert c in Indices(Sub(r, q));
          AroundDown(nodes, r, h', q, e, k);
        }
      }
  }

  /** No count of Black nodes is negative. */
  lemma PathsNonNeg<V>(nodes: seq<Node<V>>, s: Shape, h: int)
    requires BlackPaths(nodes, s, h)
    ensures h >= 0
  {
    PathsHeight(nodes, s, h);
  }
}
