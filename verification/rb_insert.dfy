/**
  `insert` and `in_fix_up` (src/rb_tree.rs:39-71, 251-326). The insertion itself is
  the descent to an empty slot and the attachment of a fresh Red node there; the fix-up
  then recolours and rotates on the way up. `in_fix_up` is given twice: as written, and
  repaired so that case 3 recolours the parent `z` has after case 2.
 */
module RbInsert {
  import opened RbArena
  import opened RbShape
  import opened RbQuery
  import opened RbRotate

  // ---------------------------------------------------------------- descent and attachment

  /** The loop of `insert`: left on a strictly smaller key, right otherwise, remembering
      the last node visited (`res_node`), which becomes the new node's parent. */
  function InsertionParent<V>(nodes: seq<Node<V>>, p: Ptr, last: Ptr, k: int, ghost s: Shape): (r: Ptr)
    requires Links(nodes, s) && Root(s) == p
    ensures s.Leaf? ==> r == last
    ensures s.Branch? ==> r.Ptr? && r.index in Indices(s) && r.index < |nodes|
    decreases s
  {
    if p.Null? then last
    else if k < nodes[p.index].key then InsertionParent(nodes, nodes[p.index].left, p, k, s.left)
    else InsertionParent(nodes, nodes[p.index].right, p, k, s.right)
  }

  /** The side of `n` on which `insert` puts a key `k`. */
  function SideFor<V>(n: Node<V>, k: int): Dir {
    if k < n.key then Left else Right
  }

  /** Appends the fresh Red node with parent `q` and links it into `q`'s slot for `k`. */
  function AttachArena<V>(nodes: seq<Node<V>>, q: Ptr, k: int, v: V): (r: seq<Node<V>>)
    requires InArena(nodes, q)
    ensures |r| == |nodes| + 1 && r[|nodes|] == Node(k, v, Red, q, Null, Null)
    ensures forall j :: 0 <= j < |nodes| && Ptr(j) != q ==> r[j] == nodes[j]
    ensures q.Ptr? ==> r[q.index] == SetChild(nodes[q.index], SideFor(nodes[q.index], k), Ptr(|nodes|))
    ensures AllInArena(nodes) ==> AllInArena(r)
    ensures KeepsEntries(nodes, r)
  {
    var grown := nodes + [Node(k, v, Red, q, Null, Null)];
    assert AllInArena(nodes) ==> AllInArena(grown) by {
      if AllInArena(nodes) {
        forall i | 0 <= i < |grown|
          ensures InArena(grown, grown[i].parent) && InArena(grown, grown[i].left) && InArena(grown, grown[i].right)
        {
          if i < |nodes| {
            assert grown[i] == nodes[i];
          }
        }
      }
    }
    if q.Null? then grown
    else SetChildAt(grown, q.index, SideFor(nodes[q.index], k), Ptr(|nodes|))
  }

  /** `insert` up to the fix-up: the new node is the last of the arena, and the root when
      the tree was empty. The counter is bumped here rather than after the fix-up, which
      never reads it. */
  function Attach<V>(t: RbTree<V>, k: int, v: V): (r: RbTree<V>)
    requires WellLinked(t)
    ensures Closed(r) && |r.nodes| == |t.nodes| + 1 && r.length == t.length + 1
    ensures KeepsEntries(t.nodes, r.nodes) && r.nodes[|t.nodes|].key == k && r.nodes[|t.nodes|].val == v
  {
    var q := InsertionParent(t.nodes, t.root, Null, k, Abs(t));
    RbTree(AttachArena(t.nodes, q, k, v), if q.Null? then Ptr(|t.nodes|) else t.root, t.length + 1)
  }

  /** The shape after the descent: a new leaf node `n` where the key leads. */
  ghost function InsertShape<V>(nodes: seq<Node<V>>, s: Shape, k: int, n: nat): Shape
    requires Links(nodes, s)
  {
    match s
    case Leaf => Branch(Leaf, n, Leaf)
    case Branch(l, i, r) =>
      if k < nodes[i].key then Branch(InsertShape(nodes, l, k, n), i, r)
      else Branch(l, i, InsertShape(nodes, r, k, n))
  }

  /** The nodes the descent passes on their left, in in-order: the new node follows them. */
  ghost function BelowKey<V>(nodes: seq<Node<V>>, s: Shape, k: int): seq<nat>
    requires Links(nodes, s)
  {
    match s
    case Leaf => []
    case Branch(l, i, r) =>
      if k < nodes[i].key then BelowKey(nodes, l, k) else InOrder(l) + [i] + BelowKey(nodes, r, k)
  }

  /** The nodes the new node precedes in in-order. */
  ghost function AboveKey<V>(nodes: seq<Node<V>>, s: Shape, k: int): seq<nat>
    requires Links(nodes, s)
  {
    match s
    case Leaf => []
    case Branch(l, i, r) =>
      if k < nodes[i].key then AboveKey(nodes, l, k) + [i] + InOrder(r) else AboveKey(nodes, r, k)
  }

  lemma {:induction false} InsertShapeIndices<V>(nodes: seq<Node<V>>, s: Shape, k: int, n: nat)
    requires Links(nodes, s)
    ensures Indices(InsertShape(nodes, s, k, n)) == Indices(s) + {n}
    ensures InsertShape(nodes, s, k, n).Branch?
    ensures s.Branch? ==> Root(InsertShape(nodes, s, k, n)) == Root(s)
  {
    match s
    case Leaf =>
    case Branch(l, i, r) =>
      if k < nodes[i].key {
        InsertShapeIndices(nodes, l, k, n);
      } else {
        InsertShapeIndices(nodes, r, k, n);
      }
  }

  /** The new node goes between the nodes passed on their left and those passed on their right. */
  lemma {:induction false} InsertShapeInOrder<V>(nodes: seq<Node<V>>, s: Shape, k: int, n: nat)
    requires Links(nodes, s)
    ensures InOrder(s) == BelowKey(nodes, s, k) + AboveKey(nodes, s, k)
    ensures InOrder(InsertShape(nodes, s, k, n)) == BelowKey(nodes, s, k) + [n] + AboveKey(nodes, s, k)
  {
    match s
    case Leaf =>
    case Branch(l, i, r) =>
      if k < nodes[i].key {
        InsertShapeInOrder(nodes, l, k, n);
        var below, above, rest := BelowKey(nodes, l, k), AboveKey(nodes, l, k), InOrder(r);
        assert InOrder(s) == (below + above) + [i] + rest;
        assert InOrder(InsertShape(nodes, s, k, n)) == (below + [n] + above) + [i] + rest;
        assert (below + above) + [i] + rest == below + (above + [i] + rest);
        assert (below + [n] + above) + [i] + rest == below + [n] + (above + [i] + rest);
      } else {
        InsertShapeInOrder(nodes, r, k, n);
        var rest, below, above := InOrder(l), BelowKey(nodes, r, k), AboveKey(nodes, r, k);
        assert InOrder(s) == rest + [i] + (below + above);
        assert InOrder(InsertShape(nodes, s, k, n)) == rest + [i] + (below + [n] + above);
        assert rest + [i] + (below + above) == (rest + [i] + below) + above;
        assert rest + [i] + (below + [n] + above) == (rest + [i] + below) + [n] + above;
      }
  }

  /** Attaching below the descent's last node makes the arena hold `InsertShape`. */
  lemma {:induction false} AttachWf<V>(nodes: seq<Node<V>>, s: Shape, par: Ptr, k: int, v: V)
    requires Wf(nodes, s, par) && InArena(nodes, par) && (par.Ptr? ==> par.index !in Indices(s))
    ensures Wf(AttachArena(nodes, InsertionParent(nodes, Root(s), par, k, s), k, v), InsertShape(nodes, s, k, |nodes|), par)
  {
    var q := InsertionParent(nodes, Root(s), par, k, s);
    var a := AttachArena(nodes, q, k, v);
    var n := |nodes|;
    LinksInArena(nodes, s);
    match s
    case Leaf =>
    case Branch(l, i, r) =>
      if k < nodes[i].key {
        assert q == InsertionParent(nodes, Root(l), Ptr(i), k, l);
        AttachWf(nodes, l, Ptr(i), k, v);
        InsertShapeIndices(nodes, l, k, n);
        AttachAside(nodes, r, i, q, k, v);
      } else {
        assert q == InsertionParent(nodes, Root(r), Ptr(i), k, r);
        AttachWf(nodes, r, Ptr(i), k, v);
        InsertShapeIndices(nodes, r, k, n);
        AttachAside(nodes, l, i, q, k, v);
      }
  }

  /** The subtree the descent does not enter keeps its links. */
  lemma AttachAside<V>(nodes: seq<Node<V>>, o: Shape, i: nat, q: Ptr, k: int, v: V)
    requires Wf(nodes, o, Ptr(i)) && InArena(nodes, q) && (q.Ptr? ==> q.index !in Indices(o))
    ensures Wf(AttachArena(nodes, q, k, v), o, Ptr(i))
  {
    var a := AttachArena(nodes, q, k, v);
    LinksInArena(nodes, o);
    forall j | j in Indices(o) ensures SameChildren(nodes, a, j) && SameParent(nodes, a, j) {
      assert Ptr(j) != q;
    }
    Frame(nodes, a, o, Ptr(i), Ptr(i));
  }

  /** After the attachment the tree is valid and holds one more node, the new one. */
  lemma AttachValid<V>(t: RbTree<V>, k: int, v: V)
    requires Valid(t)
    ensures Valid(Attach(t, k, v))
    ensures Abs(Attach(t, k, v)) == InsertShape(t.nodes, Abs(t), k, |t.nodes|)
    ensures |t.nodes| in Indices(Abs(Attach(t, k, v))) && |t.nodes| !in Indices(Abs(t))
    ensures Attach(t, k, v).root == Ptr(|t.nodes|) || (RootBlack(t) ==> RootBlack(Attach(t, k, v)))
  {
    var s := Abs(t);
    var n := |t.nodes|;
    var a := Attach(t, k, v);
    var s' := InsertShape(t.nodes, s, k, n);
    LinksInArena(t.nodes, s);
    AttachWf(t.nodes, s, Null, k, v);
    InsertShapeIndices(t.nodes, s, k, n);
    AbsIs(a, s');
    assert |Indices(s')| == |Indices(s)| + 1;
  }

  /** The entries after the attachment: the old ones with the new pair between those the
      descent passed on their left and those it passed on their right. */
  lemma AttachItems<V>(t: RbTree<V>, k: int, v: V)
    requires Valid(t)
    ensures Items(t) == ItemsAt(t.nodes, BelowKey(t.nodes, Abs(t), k)) + ItemsAt(t.nodes, AboveKey(t.nodes, Abs(t), k))
    ensures Items(Attach(t, k, v))
         == ItemsAt(t.nodes, BelowKey(t.nodes, Abs(t), k)) + [(k, v)] + ItemsAt(t.nodes, AboveKey(t.nodes, Abs(t), k))
  {
    var s := Abs(t);
    var n := |t.nodes|;
    AttachValid(t, k, v);
    InsertShapeInOrder(t.nodes, s, k, n);
    var below, above := BelowKey(t.nodes, s, k), AboveKey(t.nodes, s, k);
    LinksInArena(t.nodes, s);
    InOrderIndices(t.nodes, s);
    assert forall j :: j in below ==> j in InOrder(s);
    assert forall j :: j in above ==> j in InOrder(s);
    ItemsAppend(t.nodes, below, above);
    Spliced(t.nodes, Attach(t, k, v).nodes, below, above, k, v);
  }

  lemma Spliced<V>(nodes: seq<Node<V>>, nodes': seq<Node<V>>, below: seq<nat>, above: seq<nat>, k: int, v: V)
    requires KeepsEntries(nodes, nodes') && |nodes'| > |nodes|
    requires nodes'[|nodes|].key == k && nodes'[|nodes|].val == v
    requires forall j :: j in below ==> j < |nodes|
    requires forall j :: j in above ==> j < |nodes|
    ensures ItemsAt(nodes', below + [|nodes|] + above) == ItemsAt(nodes, below) + [(k, v)] + ItemsAt(nodes, above)
  {
    var n := |nodes|;
    ItemsAppend(nodes', below + [n], above);
    ItemsAppend(nodes', below, [n]);
    assert ItemsAt(nodes', [n]) == [(k, v)] by {
      assert [n][1..] == [];
    }
    KeptItems(nodes, nodes', below);
    KeptItems(nodes, nodes', above);
  }

  /** Entries at old indices survive appending nodes. */
  lemma KeptItems<V>(nodes: seq<Node<V>>, nodes': seq<Node<V>>, idx: seq<nat>)
    requires KeepsEntries(nodes, nodes')
    requires forall j :: j in idx ==> j < |nodes|
    ensures ItemsAt(nodes', idx) == ItemsAt(nodes, idx)
  {
    ItemsFrame(nodes, nodes', idx);
  }

  // ---------------------------------------------------------------- order

  /** The keys of the entries of `a`, node `i`, then `b`. */
  lemma KeysAround<V>(nodes: seq<Node<V>>, a: seq<nat>, i: nat, b: seq<nat>)
    requires i < |nodes|
    ensures Keys(ItemsAt(nodes, a + [i] + b)) == Keys(ItemsAt(nodes, a)) + [nodes[i].key] + Keys(ItemsAt(nodes, b))
  {
    ItemsAppend(nodes, a + [i], b);
    ItemsAppend(nodes, a, [i]);
    KeysAppend(ItemsAt(nodes, a) + ItemsAt(nodes, [i]), ItemsAt(nodes, b));
    KeysAppend(ItemsAt(nodes, a), ItemsAt(nodes, [i]));
  }

  /** In a key-ordered subtree the nodes the descent passes on their left have keys at most `k`. */
  lemma {:induction false} BelowKeyBound<V>(nodes: seq<Node<V>>, s: Shape, k: int)
    requires Links(nodes, s) && Sorted(KeysIn(nodes, s))
    ensures forall y :: y in Keys(ItemsAt(nodes, BelowKey(nodes, s, k))) ==> y <= k
  {
    match s
    case Leaf =>
    case Branch(l, i, r) =>
      KeysInBranch(nodes, l, i, r);
      SortedAround(KeysIn(nodes, l), nodes[i].key, KeysIn(nodes, r));
      if k < nodes[i].key {
        BelowKeyBound(nodes, l, k);
      } else {
        BelowKeyBound(nodes, r, k);
        KeysAround(nodes, InOrder(l), i, BelowKey(nodes, r, k));
      }
  }

  /** ... and those it passes on their right have keys above `k`. */
  lemma {:induction false} AboveKeyBound<V>(nodes: seq<Node<V>>, s: Shape, k: int)
    requires Links(nodes, s) && Sorted(KeysIn(nodes, s))
    ensures forall y :: y in Keys(ItemsAt(nodes, AboveKey(nodes, s, k))) ==> k < y
  {
    match s
    case Leaf =>
    case Branch(l, i, r) =>
      KeysInBranch(nodes, l, i, r);
      SortedAround(KeysIn(nodes, l), nodes[i].key, KeysIn(nodes, r));
      if k < nodes[i].key {
        AboveKeyBound(nodes, l, k);
        KeysAround(nodes, AboveKey(nodes, l, k), i, InOrder(r));
      } else {
        AboveKeyBound(nodes, r, k);
      }
  }

  /** A key at least every key before it and below every key after it keeps a sequence sorted. */
  lemma SortedInsertion(a: seq<int>, x: int, b: seq<int>)
    requires Sorted(a + b)
    requires forall y :: y in a ==> y <= x
    requires forall y :: y in b ==> x < y
    ensures Sorted(a + [x] + b)
  {
    var c := a + [x] + b;
    forall i, j | 0 <= i < j < |c| ensures c[i] <= c[j] {
      if i < |a| && j > |a| {
        assert c[i] == (a + b)[i] && c[j] == (a + b)[j - 1];
      } else if i > |a| {
        assert c[i] == (a + b)[i - 1] && c[j] == (a + b)[j - 1];
      } else if j < |a| {
        assert c[i] == (a + b)[i] && c[j] == (a + b)[j];
      } else if i < |a| {
        assert c[i] in a;
      } else {
        assert c[j] in b;
      }
    }
  }

  // ---------------------------------------------------------------- in_fix_up

  /** Which tree code: the source's, or the repaired one. The repaired `in_fix_up`
      recolours in case 3 the parent `z` has after case 2, not the one it had before; the
      repaired `delete` links `x` to the successor that takes the removed node's place, and
      runs `delete_fixup` from the vacated slot even when that slot is empty. */
  datatype Edition = AsWritten | Repaired

  /** The last statement of `in_fix_up`: the root turns Black. */
  function BlackenRoot<V>(t: RbTree<V>): (r: RbTree<V>)
    requires Closed(t)
    ensures Closed(r) && RootBlack(r) && r.root == t.root && r.length == t.length && |r.nodes| == |t.nodes|
    ensures forall i :: 0 <= i < |t.nodes| ==> SameLinks(r.nodes[i], t.nodes[i])
    ensures SameEntries(t.nodes, r.nodes)
  {
    SetColor(t, t.root, Black)
  }

  /** Case 1: the parent and the Red uncle turn Black, the grandparent Red. */
  function PushBlack<V>(t: RbTree<V>, zp: nat, y: nat, zpp: nat): (r: RbTree<V>)
    requires Closed(t) && zp < |t.nodes| && y < |t.nodes| && zpp < |t.nodes|
    ensures Closed(r) && r.root == t.root && r.length == t.length && |r.nodes| == |t.nodes|
    ensures forall i :: 0 <= i < |t.nodes| ==> SameLinks(r.nodes[i], t.nodes[i])
    ensures SameEntries(t.nodes, r.nodes)
    ensures r.nodes[zpp].color == Red
    ensures zp != zpp ==> r.nodes[zp].color == Black
    ensures y != zpp ==> r.nodes[y].color == Black
    ensures forall i :: 0 <= i < |t.nodes| && i != zp && i != y && i != zpp ==> r.nodes[i].color == t.nodes[i].color
  {
    SetColor(SetColor(SetColor(t, Ptr(zp), Black), Ptr(y), Black), Ptr(zpp), Red)
  }

  /** Case 2: when `z` is the inner child of its parent, the parent rotates down towards
      `d` and becomes the new `z`. */
  function Straighten<V>(t: RbTree<V>, z: nat, zp: nat, d: Dir): (r: (RbTree<V>, nat))
    requires Closed(t) && z < |t.nodes| && zp < |t.nodes|
    ensures Closed(r.0) && Relinked(t.nodes, r.0.nodes) && r.0.length == t.length && r.1 < |t.nodes|
  {
    if Child(t.nodes[zp], Flip(d)) == Ptr(z) then (Rotate(t, zp, d).value, zp) else (t, z)
  }

  /** The loop of `in_fix_up`, one iteration per call, at most `fuel` iterations. `d` is the
      side of the grandparent the parent hangs on; the two mirrored branches of the source
      are its two values. */
  function InFixUp<V>(t: RbTree<V>, z: nat, fuel: nat, e: Edition): (r: Result<RbTree<V>>)
    requires Closed(t) && z < |t.nodes|
    ensures r.Ok? ==> Closed(r.value) && RootBlack(r.value)
    ensures r.Ok? ==> SameEntries(t.nodes, r.value.nodes) && |r.value.nodes| == |t.nodes| && r.value.length == t.length
    decreases fuel
  {
    var zp := t.nodes[z].parent;
    if zp.Null? || t.nodes[zp.index].color != Red then Ok(BlackenRoot(t))
    else if fuel == 0 then Err(OutOfFuel)
    else
      match FixStep(t, z, zp.index, e)
      case Err(f) => Err(f)
      case Ok((t', z')) => InFixUp(t', z', OneLess(fuel), e)
  }

  /** One iteration of the loop in `in_fix_up`, with `z`'s parent `zp` Red: case 1 when
      the uncle is Red (the loop goes on from the grandparent), else cases 2 and 3. */
  function FixStep<V>(t: RbTree<V>, z: nat, zp: nat, e: Edition): (r: Result<(RbTree<V>, nat)>)
    requires Closed(t) && z < |t.nodes| && zp < |t.nodes|
    ensures r.Ok? ==> Closed(r.value.0) && SameEntries(t.nodes, r.value.0.nodes) && |r.value.0.nodes| == |t.nodes|
    ensures r.Ok? ==> r.value.0.length == t.length && r.value.1 < |t.nodes|
  {
    var zpp := t.nodes[zp].parent;
    if zpp.Null? then Err(MissingGrandparent)
    else
      var d := if t.nodes[zpp.index].left == Ptr(zp) then Left else Right;
      var y := Child(t.nodes[zpp.index], Flip(d));
      if ColorOf(t.nodes, y) == Red then Ok((PushBlack(t, zp, y.index, zpp.index), zpp.index))
      else Restructure(t, z, zp, zpp.index, d, e)
  }

  /** Case 3: the given parent turns Black, the grandparent Red, and the grandparent
      rotates down away from `d`. */
  function Lift<V>(t: RbTree<V>, parent: Ptr, zpp: nat, d: Dir): (r: Result<RbTree<V>>)
    requires Closed(t) && InArena(t.nodes, parent) && zpp < |t.nodes|
    ensures r.Ok? ==> Closed(r.value) && SameEntries(t.nodes, r.value.nodes) && |r.value.nodes| == |t.nodes|
    ensures r.Ok? ==> r.value.length == t.length
  {
    var t1 := SetColor(SetColor(t, parent, Black), Ptr(zpp), Red);
    var r := Rotate(t1, zpp, Flip(d));
    if r.Ok? then RelinkedSameEntries(t1.nodes, r.value.nodes); r else r
  }

  /** Cases 2 and 3, when the uncle is Black: the tree after them and the new `z`. */
  function Restructure<V>(t: RbTree<V>, z: nat, zp: nat, zpp: nat, d: Dir, e: Edition): (r: Result<(RbTree<V>, nat)>)
    requires Closed(t) && z < |t.nodes| && zp < |t.nodes| && zpp < |t.nodes|
    ensures r.Ok? ==> Closed(r.value.0) && SameEntries(t.nodes, r.value.0.nodes) && |r.value.0.nodes| == |t.nodes|
    ensures r.Ok? ==> r.value.0.length == t.length && r.value.1 < |t.nodes|
  {
    var (t1, z1) := Straighten(t, z, zp, d);
    RelinkedSameEntries(t.nodes, t1.nodes);
    var parent := if e == AsWritten then Ptr(zp) else t1.nodes[z1].parent;
    match Lift(t1, parent, zpp, d)
    case Err(f) => Err(f)
    case Ok(t3) => Ok((t3, z1))
  }

  /** What a correct fix-up leaves: a valid tree with a Black root and the same nodes in
      the same in-order sequence, hence the same entries. */
  ghost predicate FixedUp<V>(t: RbTree<V>, r: RbTree<V>) {
    && Valid(r) && RootBlack(r) && |r.nodes| == |t.nodes|
    && Indices(Abs(r)) == Indices(Abs(t)) && InOrder(Abs(r)) == InOrder(Abs(t)) && Items(r) == Items(t)
  }

  lemma FixedUpThen<V>(t: RbTree<V>, m: RbTree<V>, r: RbTree<V>)
    requires FixedUp(m, r) && |m.nodes| == |t.nodes|
    requires Indices(Abs(m)) == Indices(Abs(t)) && InOrder(Abs(m)) == InOrder(Abs(t)) && Items(m) == Items(t)
    ensures FixedUp(t, r)
  {
  }

  /** Inside the loop: `z`'s parent is Red, so it is not the Black root and has a parent. */
  lemma LoopSite<V>(t: RbTree<V>, z: nat, zp: nat)
    requires Valid(t) && z in Indices(Abs(t)) && z < |t.nodes|
    requires t.root == Ptr(z) || RootBlack(t)
    requires t.nodes[z].parent == Ptr(zp) && zp < |t.nodes| && t.nodes[zp].color == Red
    ensures zp in Indices(Abs(t)) && RootBlack(t)
    ensures t.nodes[zp].left == Ptr(z) || t.nodes[zp].right == Ptr(z)
    ensures t.nodes[zp].parent.Ptr? && t.nodes[zp].parent.index in Indices(Abs(t)) && t.nodes[zp].parent.index < |t.nodes|
    ensures t.nodes[t.nodes[zp].parent.index].left == Ptr(zp) || t.nodes[t.nodes[zp].parent.index].right == Ptr(zp)
    ensures Depth(Abs(t), t.nodes[zp].parent.index) + 2 == Depth(Abs(t), z)
  {
    var s := Abs(t);
    assert z != s.index;
    ParentInside(t.nodes, s, Null, z);
    DepthParent(t.nodes, s, Null, z);
    assert zp != s.index;
    ParentInside(t.nodes, s, Null, zp);
    DepthParent(t.nodes, s, Null, zp);
  }

  /** Case 1 keeps the tree valid and hands the loop a grandparent that is the root or
      sits below a Black root. */
  lemma PushBlackValid<V>(t: RbTree<V>, z: nat, zp: nat, y: nat, zpp: nat)
    requires Valid(t) && RootBlack(t) && z in Indices(Abs(t)) && zpp in Indices(Abs(t))
    requires zp < |t.nodes| && y < |t.nodes| && zpp < |t.nodes|
    requires t.nodes[zp].parent == Ptr(zpp)
    requires t.nodes[zpp].left == Ptr(y) || t.nodes[zpp].right == Ptr(y)
    ensures Valid(PushBlack(t, zp, y, zpp)) && Abs(PushBlack(t, zp, y, zpp)) == Abs(t)
    ensures Items(PushBlack(t, zp, y, zpp)) == Items(t)
    ensures PushBlack(t, zp, y, zpp).root == Ptr(zpp) || RootBlack(PushBlack(t, zp, y, zpp))
  {
    var r := PushBlack(t, zp, y, zpp);
    RecolorValid(t, r);
    var s := Abs(t);
    ChildLinkIsParent(t.nodes, s, Null, zpp, y);
    assert t.nodes[s.index].parent == Null;
  }

  /** After case 2 `z` is the outer grandchild: its parent hangs on side `d` of the
      grandparent and `z` on side `d` of its parent. */
  lemma StraightenValid<V>(t: RbTree<V>, z: nat, zp: nat, zpp: nat, d: Dir)
    requires Valid(t) && z in Indices(Abs(t)) && zp in Indices(Abs(t)) && zpp in Indices(Abs(t))
    requires z < |t.nodes| && zp < |t.nodes| && zpp < |t.nodes|
    requires t.nodes[z].parent == Ptr(zp) && t.nodes[zp].parent == Ptr(zpp)
    requires t.nodes[zp].left == Ptr(z) || t.nodes[zp].right == Ptr(z)
    requires Child(t.nodes[zpp], d) == Ptr(zp)
    ensures Valid(Straighten(t, z, zp, d).0)
    ensures InOrder(Abs(Straighten(t, z, zp, d).0)) == InOrder(Abs(t))
    ensures Indices(Abs(Straighten(t, z, zp, d).0)) == Indices(Abs(t))
    ensures Items(Straighten(t, z, zp, d).0) == Items(t)
    ensures Straighten(t, z, zp, d).1 in Indices(Abs(t))
    ensures Straighten(t, z, zp, d).0.nodes[Straighten(t, z, zp, d).1].parent.Ptr?
    ensures Child(Straighten(t, z, zp, d).0.nodes[zpp], d) == Straighten(t, z, zp, d).0.nodes[Straighten(t, z, zp, d).1].parent
    ensures Child(Straighten(t, z, zp, d).0.nodes[Straighten(t, z, zp, d).0.nodes[Straighten(t, z, zp, d).1].parent.index], d)
         == Ptr(Straighten(t, z, zp, d).1)
  {
    var s := Abs(t);
    if Child(t.nodes[zp], Flip(d)) == Ptr(z) {
      RotationSite(t.nodes, s, zp, d);
      RotateValid(t, zp, d);
    } else {
      DistinctChildren(t.nodes, s, Null, zp);
      assert Child(t.nodes[zp], d) == Ptr(z);
    }
  }

  /** Case 3 on a straightened tree: after the rotation at the grandparent, `z`'s parent
      is Black, so the loop ends. */
  lemma LiftValid<V>(t: RbTree<V>, z: nat, zpp: nat, d: Dir)
    requires Valid(t) && z in Indices(Abs(t)) && zpp in Indices(Abs(t)) && z < |t.nodes| && zpp < |t.nodes|
    requires t.nodes[z].parent.Ptr? && Child(t.nodes[zpp], d) == t.nodes[z].parent
    requires Child(t.nodes[t.nodes[z].parent.index], d) == Ptr(z)
    ensures Lift(t, t.nodes[z].parent, zpp, d).Ok?
    ensures Valid(Lift(t, t.nodes[z].parent, zpp, d).value)
    ensures InOrder(Abs(Lift(t, t.nodes[z].parent, zpp, d).value)) == InOrder(Abs(t))
    ensures Indices(Abs(Lift(t, t.nodes[z].parent, zpp, d).value)) == Indices(Abs(t))
    ensures Items(Lift(t, t.nodes[z].parent, zpp, d).value) == Items(t)
    ensures Lift(t, t.nodes[z].parent, zpp, d).value.nodes[z].parent == t.nodes[z].parent
    ensures Lift(t, t.nodes[z].parent, zpp, d).value.nodes[t.nodes[z].parent.index].color == Black
  {
    var s := Abs(t);
    var q := t.nodes[z].parent.index;
    LiftSite(t, z, zpp, d);
    var t1 := SetColor(t, Ptr(q), Black);
    RecolorValid(t, t1);
    var t2 := SetColor(t1, Ptr(zpp), Red);
    RecolorValid(t1, t2);
    LiftRotate(t2, z, q, zpp, d);
  }

  /** The nodes case 3 touches are distinct. */
  lemma LiftSite<V>(t: RbTree<V>, z: nat, zpp: nat, d: Dir)
    requires Valid(t) && z in Indices(Abs(t)) && zpp in Indices(Abs(t)) && z < |t.nodes| && zpp < |t.nodes|
    requires t.nodes[z].parent.Ptr? && Child(t.nodes[zpp], d) == t.nodes[z].parent
    requires Child(t.nodes[t.nodes[z].parent.index], d) == Ptr(z)
    ensures z != zpp && t.nodes[z].parent.index != zpp && t.nodes[z].parent.index in Indices(Abs(t))
  {
    var s := Abs(t);
    var q := t.nodes[z].parent.index;
    ChildLinkIsParent(t.nodes, s, Null, zpp, q);
    ChildLinkIsParent(t.nodes, s, Null, q, z);
    DistinctChildren(t.nodes, s, Null, zpp);
    assert z != s.index && q != s.index;
    DepthParent(t.nodes, s, Null, z);
    DepthParent(t.nodes, s, Null, q);
  }

  /** The rotation of case 3 leaves `z` under its Black parent. */
  lemma LiftRotate<V>(t: RbTree<V>, z: nat, q: nat, zpp: nat, d: Dir)
    requires Valid(t) && z in Indices(Abs(t)) && zpp in Indices(Abs(t)) && z < |t.nodes| && zpp < |t.nodes|
    requires t.nodes[z].parent == Ptr(q) && Child(t.nodes[zpp], d) == Ptr(q) && Child(t.nodes[q], d) == Ptr(z)
    requires z != zpp && q != zpp && t.nodes[q].color == Black
    ensures Rotate(t, zpp, Flip(d)).Ok?
    ensures Valid(Rotate(t, zpp, Flip(d)).value)
    ensures InOrder(Abs(Rotate(t, zpp, Flip(d)).value)) == InOrder(Abs(t))
    ensures Indices(Abs(Rotate(t, zpp, Flip(d)).value)) == Indices(Abs(t))
    ensures Items(Rotate(t, zpp, Flip(d)).value) == Items(t)
    ensures Rotate(t, zpp, Flip(d)).value.nodes[z].parent == Ptr(q)
    ensures Rotate(t, zpp, Flip(d)).value.nodes[q].color == Black
  {
    LiftRotateSite(t, z, q, zpp, d);
    RotateValid(t, zpp, Flip(d));
    var t3 := Rotate(t, zpp, Flip(d)).value;
    RelinkedAt(t.nodes, t3.nodes, q);
    assert RotatedArena(t.nodes, t3.nodes, zpp, q, Flip(d));
    assert t3.nodes[z] == t.nodes[z];
  }

  /** The rotation of case 3 leaves `z` alone: it is neither the rotated node, nor the one
      lifted, nor the inner child that changes hands, nor the grandparent's parent. */
  lemma LiftRotateSite<V>(t: RbTree<V>, z: nat, q: nat, zpp: nat, d: Dir)
    requires Valid(t) && z in Indices(Abs(t)) && zpp in Indices(Abs(t)) && z < |t.nodes| && zpp < |t.nodes|
    requires t.nodes[z].parent == Ptr(q) && Child(t.nodes[zpp], d) == Ptr(q) && Child(t.nodes[q], d) == Ptr(z)
    requires z != zpp && q != zpp
    ensures q < |t.nodes| && Child(t.nodes[zpp], Flip(Flip(d))) == Ptr(q)
    ensures z != q && Ptr(z) != Child(t.nodes[q], Flip(d)) && Ptr(z) != t.nodes[zpp].parent
  {
    var s := Abs(t);
    ChildLinkIsParent(t.nodes, s, Null, zpp, q);
    DistinctChildren(t.nodes, s, Null, q);
    assert z != s.index;
    DepthParent(t.nodes, s, Null, z);
    assert q != s.index;
    DepthParent(t.nodes, s, Null, q);
    if t.nodes[zpp].parent == Ptr(z) {
      assert zpp != s.index;
      DepthParent(t.nodes, s, Null, zpp);
    }
  }

  /** What cases 2 and 3 leave: a valid tree with the same nodes in the same order, and
      a `z` whose parent is Black. */
  ghost predicate Restructured<V>(t: RbTree<V>, r: Result<(RbTree<V>, nat)>) {
    && r.Ok? && Valid(r.value.0) && r.value.1 < |r.value.0.nodes|
    && InOrder(Abs(r.value.0)) == InOrder(Abs(t)) && Indices(Abs(r.value.0)) == Indices(Abs(t))
    && Items(r.value.0) == Items(t)
    && InArena(r.value.0.nodes, r.value.0.nodes[r.value.1].parent)
    && ColorOf(r.value.0.nodes, r.value.0.nodes[r.value.1].parent) == Black
  }

  /** Cases 2 and 3 of the repaired fix-up: valid, same entries, and `z` ends up under a
      Black parent. */
  lemma RestructureValid<V>(t: RbTree<V>, z: nat, zp: nat, zpp: nat, d: Dir)
    requires Valid(t) && z in Indices(Abs(t)) && zp in Indices(Abs(t)) && zpp in Indices(Abs(t))
    requires z < |t.nodes| && zp < |t.nodes| && zpp < |t.nodes|
    requires t.nodes[z].parent == Ptr(zp) && t.nodes[zp].parent == Ptr(zpp)
    requires t.nodes[zp].left == Ptr(z) || t.nodes[zp].right == Ptr(z)
    requires Child(t.nodes[zpp], d) == Ptr(zp)
    ensures Restructured(t, Restructure(t, z, zp, zpp, d, Repaired))
  {
    StraightenValid(t, z, zp, zpp, d);
    var (t1, z1) := Straighten(t, z, zp, d);
    LiftValid(t1, z1, zpp, d);
    var t3 := Lift(t1, t1.nodes[z1].parent, zpp, d).value;
    assert Restructure(t, z, zp, zpp, d, Repaired) == Ok((t3, z1));
  }

  /** One iteration of the loop, when `z`'s parent `zp` is Red. */
  lemma UnfoldStep<V>(t: RbTree<V>, z: nat, fuel: nat, zp: nat, e: Edition)
    requires Closed(t) && z < |t.nodes| && zp < |t.nodes| && fuel > 0
    requires t.nodes[z].parent == Ptr(zp) && t.nodes[zp].color == Red
    ensures
      var r := FixStep(t, z, zp, e);
      InFixUp(t, z, fuel, e) == if r.Err? then Err(r.fault) else InFixUp(r.value.0, r.value.1, OneLess(fuel), e)
  {
  }

  /** The repaired fix-up never panics on a valid tree whose root is Black or is `z`,
      given fuel for the climb from `z` to the root, and it keeps the tree's entries and
      their order while making the root Black. */
  lemma {:induction false} InFixUpCorrect<V>(t: RbTree<V>, z: nat, fuel: nat)
    requires Valid(t) && z in Indices(Abs(t)) && z < |t.nodes|
    requires t.root == Ptr(z) || RootBlack(t)
    requires Depth(Abs(t), z) <= fuel
    ensures InFixUp(t, z, fuel, Repaired).Ok?
    ensures FixedUp(t, InFixUp(t, z, fuel, Repaired).value)
    decreases fuel, 1
  {
    var zp := t.nodes[z].parent;
    if zp.Null? || t.nodes[zp.index].color != Red {
      InFixUpEnds(t, z, fuel);
    } else {
      LoopSite(t, z, zp.index);
      var zpp := t.nodes[zp.index].parent;
      var d := if t.nodes[zpp.index].left == zp then Left else Right;
      if ColorOf(t.nodes, Child(t.nodes[zpp.index], Flip(d))) == Red {
        InFixUpRedUncle(t, z, fuel, zp.index, zpp.index, d);
      } else {
        InFixUpRestructures(t, z, fuel, zp.index, zpp.index, d);
      }
    }
  }

  /** A Red uncle: case 1, then the rest of the loop from the grandparent. */
  lemma {:induction false} InFixUpRedUncle<V>(t: RbTree<V>, z: nat, fuel: nat, zp: nat, zpp: nat, d: Dir)
    requires Valid(t) && RootBlack(t) && z in Indices(Abs(t)) && zpp in Indices(Abs(t))
    requires z < |t.nodes| && zp < |t.nodes| && zpp < |t.nodes| && fuel > 0
    requires t.nodes[z].parent == Ptr(zp) && t.nodes[zp].color == Red && t.nodes[zp].parent == Ptr(zpp)
    requires d == (if t.nodes[zpp].left == Ptr(zp) then Left else Right)
    requires Depth(Abs(t), zpp) + 2 == Depth(Abs(t), z) && Depth(Abs(t), z) <= fuel
    requires ColorOf(t.nodes, Child(t.nodes[zpp], Flip(d))) == Red
    ensures InFixUp(t, z, fuel, Repaired).Ok?
    ensures FixedUp(t, InFixUp(t, z, fuel, Repaired).value)
    decreases fuel, 0
  {
    var y := Child(t.nodes[zpp], Flip(d)).index;
    PushBlackValid(t, z, zp, y, zpp);
    var t' := PushBlack(t, zp, y, zpp);
    InFixUpCorrect(t', zpp, OneLess(fuel));
    UnfoldStep(t, z, fuel, zp, Repaired);
    assert FixStep(t, z, zp, Repaired) == Ok((t', zpp));
    FixedUpThen(t, t', InFixUp(t', zpp, OneLess(fuel), Repaired).value);
  }

  /** The loop ends at once when `z`'s parent is not Red. */
  lemma InFixUpEnds<V>(t: RbTree<V>, z: nat, fuel: nat)
    requires Valid(t) && z < |t.nodes|
    requires t.nodes[z].parent.Null? || (t.nodes[z].parent.index < |t.nodes| && t.nodes[t.nodes[z].parent.index].color != Red)
    ensures InFixUp(t, z, fuel, Repaired) == Ok(BlackenRoot(t))
    ensures FixedUp(t, BlackenRoot(t))
  {
    RecolorValid(t, BlackenRoot(t));
  }

  /** A Black uncle: cases 2 and 3 end the loop. */
  lemma InFixUpRestructures<V>(t: RbTree<V>, z: nat, fuel: nat, zp: nat, zpp: nat, d: Dir)
    requires Valid(t) && z in Indices(Abs(t)) && zp in Indices(Abs(t)) && zpp in Indices(Abs(t))
    requires z < |t.nodes| && zp < |t.nodes| && zpp < |t.nodes| && fuel > 0
    requires t.nodes[z].parent == Ptr(zp) && t.nodes[zp].color == Red && t.nodes[zp].parent == Ptr(zpp)
    requires t.nodes[zp].left == Ptr(z) || t.nodes[zp].right == Ptr(z)
    requires d == (if t.nodes[zpp].left == Ptr(zp) then Left else Right) && Child(t.nodes[zpp], d) == Ptr(zp)
    requires ColorOf(t.nodes, Child(t.nodes[zpp], Flip(d))) != Red
    ensures InFixUp(t, z, fuel, Repaired).Ok?
    ensures FixedUp(t, InFixUp(t, z, fuel, Repaired).value)
  {
    RestructureValid(t, z, zp, zpp, d);
    var r := Restructure(t, z, zp, zpp, d, Repaired).value;
    InFixUpEnds(r.0, r.1, OneLess(fuel));
    UnfoldStep(t, z, fuel, zp, Repaired);
    assert FixStep(t, z, zp, Repaired) == Ok(r);
    FixedUpThen(t, r.0, BlackenRoot(r.0));
  }

  // ---------------------------------------------------------------- insert

  /** `insert`: attach a Red node, then fix up from it. One iteration per node of fuel is
      never short for a valid tree (`InsertCorrect`). */
  function Insert<V>(t: RbTree<V>, k: int, v: V, e: Edition): (r: Result<RbTree<V>>)
    requires WellLinked(t)
    ensures r.Ok? ==> Closed(r.value) && RootBlack(r.value) && r.value.length == t.length + 1
    ensures r.Ok? ==> |r.value.nodes| == |t.nodes| + 1 && KeepsEntries(t.nodes, r.value.nodes)
    ensures r.Ok? ==> r.value.nodes[|t.nodes|].key == k && r.value.nodes[|t.nodes|].val == v
  {
    var a := Attach(t, k, v);
    var r := InFixUp(a, |t.nodes|, |a.nodes|, e);
    if r.Ok? then
      KeepsEntriesThen(t.nodes, a.nodes, r.value.nodes);
      SameEntriesAt(a.nodes, r.value.nodes, |t.nodes|);
      r
    else r
  }

  /** `after` is `before` with `e` spliced in at position `m`. */
  ghost predicate InsertedAt<V>(before: seq<(int, V)>, after: seq<(int, V)>, m: nat, e: (int, V)) {
    m <= |before| && after == before[..m] + [e] + before[m..]
  }

  /** Position `m` separates the keys at most `k` from the keys above `k`. */
  ghost predicate SplitsAt<V>(items: seq<(int, V)>, m: nat, k: int) {
    && m <= |items|
    && (forall j :: 0 <= j < m ==> items[j].0 <= k)
    && (forall j :: m <= j < |items| ==> k < items[j].0)
  }

  /** `insert` on a valid tree with a Black root does not panic and leaves a valid tree
      with a Black root, one more node counted, and the old entries with `(k, v)` spliced
      in; in a key-ordered tree it goes after every key at most `k` and before every
      larger key, so the tree stays key-ordered. */
  lemma InsertCorrect<V>(t: RbTree<V>, k: int, v: V)
    requires Valid(t) && RootBlack(t)
    ensures Insert(t, k, v, Repaired).Ok?
    ensures Valid(Insert(t, k, v, Repaired).value) && RootBlack(Insert(t, k, v, Repaired).value)
    ensures Insert(t, k, v, Repaired).value.length == t.length + 1
    ensures exists m :: InsertedAt(Items(t), Items(Insert(t, k, v, Repaired).value), m, (k, v))
                     && (Ordered(t) ==> SplitsAt(Items(t), m, k))
    ensures Ordered(t) ==> Ordered(Insert(t, k, v, Repaired).value)
  {
    InsertValid(t, k, v);
    AttachItems(t, k, v);
    var below := ItemsAt(t.nodes, BelowKey(t.nodes, Abs(t), k));
    var above := ItemsAt(t.nodes, AboveKey(t.nodes, Abs(t), k));
    Splice(Items(t), below, above, (k, v));
    if Ordered(t) {
      InsertOrdered(t.nodes, Abs(t), k, v);
    }
  }

  lemma Splice<V>(items: seq<(int, V)>, below: seq<(int, V)>, above: seq<(int, V)>, e: (int, V))
    requires items == below + above
    ensures InsertedAt(items, below + [e] + above, |below|, e)
  {
    assert items[..|below|] == below && items[|below|..] == above;
  }

  /** The repaired `insert` yields a valid tree holding the attached tree's entries. */
  lemma InsertValid<V>(t: RbTree<V>, k: int, v: V)
    requires Valid(t) && RootBlack(t)
    ensures Insert(t, k, v, Repaired).Ok?
    ensures Valid(Insert(t, k, v, Repaired).value) && RootBlack(Insert(t, k, v, Repaired).value)
    ensures Insert(t, k, v, Repaired).value.length == t.length + 1
    ensures Items(Insert(t, k, v, Repaired).value) == Items(Attach(t, k, v))
  {
    var a := Attach(t, k, v);
    AttachValid(t, k, v);
    DepthBound(a.nodes, Abs(a), |t.nodes|);
    InFixUpCorrect(a, |t.nodes|, |a.nodes|);
  }

  /** The spliced sequence of a key-ordered subtree is key-ordered and split at the new key. */
  lemma InsertOrdered<V>(nodes: seq<Node<V>>, s: Shape, k: int, v: V)
    requires Links(nodes, s) && Sorted(KeysIn(nodes, s))
    requires ItemsAt(nodes, InOrder(s)) == ItemsAt(nodes, BelowKey(nodes, s, k)) + ItemsAt(nodes, AboveKey(nodes, s, k))
    ensures SplitsAt(ItemsAt(nodes, InOrder(s)), |ItemsAt(nodes, BelowKey(nodes, s, k))|, k)
    ensures Sorted(Keys(ItemsAt(nodes, BelowKey(nodes, s, k)) + [(k, v)] + ItemsAt(nodes, AboveKey(nodes, s, k))))
  {
    BelowKeyBound(nodes, s, k);
    AboveKeyBound(nodes, s, k);
    SplitOrdered(ItemsAt(nodes, BelowKey(nodes, s, k)), ItemsAt(nodes, AboveKey(nodes, s, k)), k, v);
  }

  lemma SplitOrdered<V>(below: seq<(int, V)>, above: seq<(int, V)>, k: int, v: V)
    requires Sorted(Keys(below + above))
    requires forall y :: y in Keys(below) ==> y <= k
    requires forall y :: y in Keys(above) ==> k < y
    ensures SplitsAt(below + above, |below|, k)
    ensures Sorted(Keys(below + [(k, v)] + above))
  {
    KeysAppend(below, above);
    KeysAppend(below + [(k, v)], above);
    KeysAppend(below, [(k, v)]);
    assert Keys([(k, v)]) == [k];
    SortedInsertion(Keys(below), k, Keys(above));
    assert Keys(below + [(k, v)] + above) == Keys(below) + [k] + Keys(above);
    var items := below + above;
    forall j | 0 <= j < |below| ensures items[j].0 <= k {
      assert items[j].0 == Keys(below)[j] && Keys(below)[j] in Keys(below);
    }
    forall j | |below| <= j < |items| ensures k < items[j].0 {
      assert items[j].0 == Keys(above)[j - |below|] && Keys(above)[j - |below|] in Keys(above);
    }
  }
}
