/**
  `delete` (src/rb_tree.rs:73-128): the node with the key is unlinked and counted out,
  and `delete_fixup` runs when a Black node left the tree; as written from the node `x`
  that took the vacated place, repaired from the vacated place itself.
 */
module RbRemove {
  import opened RbArena
  import opened RbShape
  import opened RbQuery
  import opened RbRotate
  import opened RbInsert
  import opened RbDelete
  import opened RbFixup

  // ---------------------------------------------------------------- delete

  /** `delete(key)`: nothing happens when the key is absent; otherwise the node found is
      unlinked and counted out, and the fix-up runs when a Black node left the tree: as
      written from the node `x` that took the vacated place, repaired from the vacated
      slot. The counter is decremented before the fix-up here and after it in the source;
      the fix-up does not read it. */
  function Delete<V>(t: RbTree<V>, k: int, e: Edition): (r: Result<RbTree<V>>)
    requires WellLinked(t)
    ensures Search(t, k).Null? ==> r == Ok(t)
    ensures Search(t, k).Ptr? && r.Ok? ==> r.value.length == t.length - 1 && SameEntries(t.nodes, r.value.nodes)
  {
    var z := Search(t, k);
    if z.Null? then Ok(t)
    else
      var u := Unlink(t, z.index, e);
      if u.2 == Red then Ok(u.0)
      else if e == AsWritten then DeleteFixup(u.0, u.1, |u.0.nodes|)
      else
        var v := Vacated(t, z.index);
        SameEntriesAt(t.nodes, u.0.nodes, z.index);
        SlotFixup(u.0, v.0, v.1, |u.0.nodes|)
  }

  /** The slot `x` fills once node `z` is unlinked: the slot `z` filled when it had an empty
      side; otherwise the right slot of the successor `y` when `y` was `z`'s child, and the
      left slot of `y`'s old parent when `y` lay deeper. */
  function Vacated<V>(t: RbTree<V>, z: nat): (r: (Ptr, Dir))
    requires WellLinked(t) && z in Indices(Abs(t)) && z < |t.nodes|
    ensures InArena(t.nodes, r.0)
  {
    var n := t.nodes[z];
    if n.left.Null? || n.right.Null? then SlotOf(t.nodes, z)
    else
      var y := Successor(t, z);
      if t.nodes[y].parent == Ptr(z) then (Ptr(y), Right) else (t.nodes[y].parent, Left)
  }

  // ---------------------------------------------------------------- where the repaired fix-up starts

  /** The slot the repaired fix-up starts from hangs from a node of the unlinked tree (or is
      the root slot), and holds the node `x` that `Unlink` reports. */
  lemma VacatedSlot<V>(t: RbTree<V>, z: nat)
    requires Valid(t) && z in Indices(Abs(t)) && z < |t.nodes|
    ensures var u := Unlink(t, z, Repaired); var v := Vacated(t, z);
      && InArena(u.0.nodes, v.0) && SlotIn(u.0, v.0) && SlotChild(u.0, v.0, v.1) == u.1
  {
    SameEntriesAt(t.nodes, Unlink(t, z, Repaired).0.nodes, z);
    UnlinkValid(t, z);
    if t.nodes[z].left.Null? || t.nodes[z].right.Null? {
      VacatedOne(t, z);
    } else if t.nodes[Successor(t, z)].parent == Ptr(z) {
      VacatedChild(t, z);
    } else {
      VacatedDeep(t, z);
    }
  }

  /** With an empty side, `x` fills the slot `z` filled: `rb_transplant` writes the side of
      `z`'s parent that named `z`, or the root slot. */
  lemma VacatedOne<V>(t: RbTree<V>, z: nat)
    requires Valid(t) && z in Indices(Abs(t)) && z < |t.nodes|
    requires t.nodes[z].left.Null? || t.nodes[z].right.Null?
    ensures var u := Unlink(t, z, Repaired); var v := Vacated(t, z);
      && |u.0.nodes| == |t.nodes| && SlotIn(u.0, v.0) && SlotChild(u.0, v.0, v.1) == u.1
  {
    var nodes := t.nodes;
    var s := Abs(t);
    var d := if nodes[z].left.Null? then Left else Right;
    var x := Child(nodes[z], Flip(d));
    var zp := nodes[z].parent;
    UnlinkValid(t, z);
    ChildNotParent(nodes, s, Null, z, Flip(d));
    TransplantFacts(t, z, x);
    var u := Unlink(t, z, Repaired);
    assert u.0 == Transplant(t, z, x).(length := t.length - 1) && u.1 == x;
    if zp.Ptr? {
      ParentInside(nodes, s, Null, z);
      DistinctChildren(nodes, s, Null, zp.index);
    }
  }

  /** When the successor `y` is `z`'s right child, `x` stays `y`'s right child. */
  lemma VacatedChild<V>(t: RbTree<V>, z: nat)
    requires Valid(t) && z in Indices(Abs(t)) && z < |t.nodes|
    requires t.nodes[z].left.Ptr? && t.nodes[z].right.Ptr?
    requires t.nodes[Successor(t, z)].parent == Ptr(z)
    ensures var u := Unlink(t, z, Repaired); var v := Vacated(t, z);
      && |u.0.nodes| == |t.nodes| && SlotIn(u.0, v.0) && SlotChild(u.0, v.0, v.1) == u.1
  {
    var s := Abs(t);
    var y := Successor(t, z);
    var u := Unlink(t, z, Repaired);
    assert Vacated(t, z) == (Ptr(y), Right);
    DetachChild(t, z);
    UnlinkIsGraft(t, z, Repaired);
    var g := Graft(t, z, y);
    assert u.0 == g.(length := t.length - 1) && u.1 == t.nodes[y].right;
    assert g.nodes[y].right == t.nodes[y].right by {
      GraftSite(t.nodes, t.nodes, s, z, y);
      GraftFacts(t, z, y);
    }
    assert y in Indices(Abs(u.0)) by {
      UnlinkTwo(t, z);
      SubInside(s, z);
      assert y in Indices(Sub(s, z));
    }
  }

  /** When the successor `y` lies deeper, `x` takes `y`'s place as the left child of `y`'s
      old parent. */
  lemma VacatedDeep<V>(t: RbTree<V>, z: nat)
    requires Valid(t) && z in Indices(Abs(t)) && z < |t.nodes|
    requires t.nodes[z].left.Ptr? && t.nodes[z].right.Ptr?
    requires t.nodes[Successor(t, z)].parent != Ptr(z)
    ensures var u := Unlink(t, z, Repaired); var v := Vacated(t, z);
      && |u.0.nodes| == |t.nodes| && SlotIn(u.0, v.0) && SlotChild(u.0, v.0, v.1) == u.1
  {
    var s := Abs(t);
    var y := Successor(t, z);
    var zr := Sub(s, z).right;
    var u := Unlink(t, z, Repaired);
    DeepShape(t, z);
    var q := t.nodes[y].parent.index;
    assert Vacated(t, z) == (Ptr(q), Left);
    assert u.1 == t.nodes[y].right by {
      UnlinkIsGraft(t, z, Repaired);
    }
    var s' := Abs(u.0);
    assert u.0.nodes[q].left == Root(Sub(zr, y).right) by {
      UnlinkValid(t, z);
      SubLinks(u.0.nodes, s', q);
    }
  }

  /** The tree after unlinking `z` when its successor `y` lies deeper: `y`'s old parent `q`
      sat above `y` on its left, and now has `y`'s right subtree there. */
  lemma DeepShape<V>(t: RbTree<V>, z: nat)
    requires Valid(t) && z in Indices(Abs(t)) && z < |t.nodes|
    requires t.nodes[z].left.Ptr? && t.nodes[z].right.Ptr?
    requires t.nodes[Successor(t, z)].parent != Ptr(z)
    ensures var y := Successor(t, z); var zr := Sub(Abs(t), z).right; var q := t.nodes[y].parent;
      && q.Ptr? && q.index in Indices(zr) && q.index != y && q.index < |t.nodes|
      && Sub(zr, q.index).Branch? && Sub(zr, q.index).left == Sub(zr, y)
      && t.nodes[y].right == Root(Sub(zr, y).right)
      && q.index in Indices(Abs(Unlink(t, z, Repaired).0))
      && Sub(Abs(Unlink(t, z, Repaired).0), q.index) == Branch(Sub(zr, y).right, q.index, Sub(zr, q.index).right)
  {
    var s := Abs(t);
    var y := Successor(t, z);
    var zs := Sub(s, z);
    var zr := zs.right;
    var u := Unlink(t, z, Repaired);
    SubWf(t.nodes, s, Null, z);
    assert Wf(t.nodes, zr, Ptr(z));
    LinksDistinct(t.nodes, s);
    LinksDistinct(t.nodes, zr);
    LeftmostParent(t.nodes, zr, Ptr(z), y);
    var q := t.nodes[y].parent.index;
    var yR := Sub(zr, y).right;
    var R := Rest(zr, y);
    var n := Branch(zs.left, y, R);
    UnlinkValid(t, z);
    UnlinkIsGraft(t, z, Repaired);
    UnlinkTwoShape(t, z, y, Detach(t, z, y, Repaired));
    var s' := Abs(u.0);
    assert s' == Replace(s, z, n);
    LinksDistinct(u.0.nodes, s');
    // `q` survives in the rest of `z`'s right subtree
    SubInside(zr, q);
    SubDistinct(zr, q);
    assert q !in Indices(Sub(zr, y));
    ReplaceHas(zr, y, yR);
    assert q in Indices(n);
    // the subtree at `q`, seen through the one `y` now roots
    assert y in Indices(zs);
    SubReplaceAt(s, z, n);
    ReplaceHas(s, z, n);
    SubSub(s', y, q);
    SubDistinct(s', y);
    assert Sub(n, q) == Sub(R, q);
    SubReplaceBelow(zr, q, y, yR);
    SubInside(zr, y);
    SubLinks(t.nodes, zr, y);
  }

  /** The leftmost node `y` of `r`, other than its root, is the left child of its parent. */
  lemma {:induction false} LeftmostParent<V>(nodes: seq<Node<V>>, r: Shape, par: Ptr, y: nat)
    requires Wf(nodes, r, par) && y in Indices(r) && y != r.index && Before(r, y) == []
    ensures y < |nodes| && nodes[y].parent.Ptr?
    ensures var q := nodes[y].parent.index;
      q in Indices(r) && q != y && Sub(r, q).Branch? && Sub(r, q).left == Sub(r, y)
  {
    match r
    case Branch(l, i, rr) =>
      if y in Indices(l) {
        assert Parents(nodes, l, Ptr(i));
        if l.index == y {
          assert nodes[y].parent == Ptr(i);
        } else {
          LeftmostParent(nodes, l, Ptr(i), y);
        }
      }
  }

  // ---------------------------------------------------------------- what delete promises

  /** `after` is `before` without its entry at position `m`. */
  ghost predicate DeletedAt<V>(before: seq<(int, V)>, after: seq<(int, V)>, m: nat) {
    m < |before| && after == before[..m] + before[m + 1..]
  }

  /** `after` is `before` without one of its entries with key `k`. */
  ghost predicate DeletedKey<V>(before: seq<(int, V)>, after: seq<(int, V)>, k: int) {
    exists m: nat :: DeletedAt(before, after, m) && before[m].0 == k
  }

  /** Unlinking a node with the repaired successor splice leaves a valid tree. */
  lemma UnlinkValid<V>(t: RbTree<V>, z: nat)
    requires Valid(t) && z in Indices(Abs(t)) && z < |t.nodes|
    ensures Unlinked(t, Unlink(t, z, Repaired), z) && Valid(Unlink(t, z, Repaired).0)
  {
    if t.nodes[z].left.Null? || t.nodes[z].right.Null? {
      UnlinkOneSide(t, z, Repaired);
    } else {
      UnlinkTwo(t, z);
    }
    var u := Unlink(t, z, Repaired).0;
    assert Indices(Abs(t)) == (Indices(Abs(t)) - {z}) + {z};
  }

  /** The entries of the unlinked tree are the old ones without node `z`'s. */
  lemma UnlinkItems<V>(t: RbTree<V>, z: nat, u: RbTree<V>)
    requires Valid(t) && z in Indices(Abs(t)) && z < |t.nodes|
    requires Linked(u) && InOrder(Abs(u)) == Preceding(Abs(t), z) + Following(Abs(t), z)
    requires SameEntries(t.nodes, u.nodes)
    ensures DeletedAt(Items(t), Items(u), |ItemsAt(t.nodes, Preceding(Abs(t), z))|)
    ensures Items(t)[|ItemsAt(t.nodes, Preceding(Abs(t), z))|] == (t.nodes[z].key, t.nodes[z].val)
  {
    var s := Abs(t);
    AroundNode(t.nodes, s, Null, z);
    UnlinkFrame(t, z, u);
    ItemsDropOne(t.nodes, Preceding(s, z), z, Following(s, z));
  }

  /** The nodes left after unlinking hold their old entries. */
  lemma UnlinkFrame<V>(t: RbTree<V>, z: nat, u: RbTree<V>)
    requires Valid(t) && z in Indices(Abs(t))
    requires InOrder(Abs(t)) == Preceding(Abs(t), z) + [z] + Following(Abs(t), z)
    requires InOrder(Abs(u)) == Preceding(Abs(t), z) + Following(Abs(t), z)
    requires SameEntries(t.nodes, u.nodes)
    ensures Items(u) == ItemsAt(t.nodes, Preceding(Abs(t), z) + Following(Abs(t), z))
  {
    var s := Abs(t);
    var idx := Preceding(s, z) + Following(s, z);
    LinksInArena(t.nodes, s);
    InOrderIndices(t.nodes, s);
    forall j | j in idx ensures j < |t.nodes| && j < |u.nodes| && SameEntry(t.nodes[j], u.nodes[j]) {
      assert j in InOrder(s);
      SameEntriesAt(t.nodes, u.nodes, j);
    }
    ItemsFrame(t.nodes, u.nodes, idx);
  }

  /** Leaving index `z` out of an index sequence leaves its entry out of the entries. */
  lemma ItemsDropOne<V>(nodes: seq<Node<V>>, pre: seq<nat>, z: nat, fol: seq<nat>)
    requires z < |nodes|
    ensures DeletedAt(ItemsAt(nodes, pre + [z] + fol), ItemsAt(nodes, pre + fol), |ItemsAt(nodes, pre)|)
    ensures ItemsAt(nodes, pre + [z] + fol)[|ItemsAt(nodes, pre)|] == (nodes[z].key, nodes[z].val)
  {
    ItemsAppend(nodes, pre, fol);
    ItemsAppend(nodes, pre + [z], fol);
    ItemsAppend(nodes, pre, [z]);
    var a := ItemsAt(nodes, pre);
    var b := ItemsAt(nodes, fol);
    var all := ItemsAt(nodes, pre + [z] + fol);
    assert ItemsAt(nodes, [z]) == [(nodes[z].key, nodes[z].val)];
    assert all == a + [(nodes[z].key, nodes[z].val)] + b;
    assert all[..|a|] == a && all[|a| + 1..] == b;
  }

  /** Dropping one entry keeps the keys in order. */
  lemma DeletedSorted<V>(before: seq<(int, V)>, after: seq<(int, V)>, m: nat)
    requires DeletedAt(before, after, m) && Sorted(Keys(before))
    ensures Sorted(Keys(after))
  {
    forall i, j | 0 <= i < j < |after| ensures Keys(after)[i] <= Keys(after)[j] {
      DeletedIndex(before, after, m, i);
      DeletedIndex(before, after, m, j);
      var i' := if i < m then i else i + 1;
      var j' := if j < m then j else j + 1;
      assert Keys(before)[i'] <= Keys(before)[j'];
    }
  }

  /** Position `i` of `after` holds the entry of `before` at `i`, or one further on past `m`. */
  lemma DeletedIndex<V>(before: seq<(int, V)>, after: seq<(int, V)>, m: nat, i: nat)
    requires DeletedAt(before, after, m) && i < |after|
    ensures after[i] == before[if i < m then i else i + 1]
  {
    if i < m {
      assert after[i] == before[..m][i];
    } else {
      assert after[i] == before[m + 1..][i - m];
    }
  }

  /** When `delete` finds the key, the fix-up reshapes the unlinked tree and keeps a Black
      root Black. */
  lemma DeleteReshapes<V>(t: RbTree<V>, k: int)
    requires Valid(t) && Search(t, k).Ptr?
    ensures var u := Unlink(t, Search(t, k).index, Repaired); var r := Delete(t, k, Repaired);
      r.Ok? ==> Reshaped(u.0, r.value) && (RootBlack(t) ==> RootBlack(r.value))
  {
    var z := Search(t, k).index;
    var u := Unlink(t, z, Repaired);
    UnlinkValid(t, z);
    if u.2 == Black {
      var v := Vacated(t, z);
      VacatedSlot(t, z);
      assert Delete(t, k, Repaired) == SlotFixup(u.0, v.0, v.1, |u.0.nodes|);
      SlotFixupReshapes(u.0, v.0, v.1, |u.0.nodes|);
      if RootBlack(t) {
        SlotFixupRoot(u.0, v.0, v.1, |u.0.nodes|);
      }
    }
  }

  /** `delete` on a valid tree leaves it alone when the key is absent; when it finds a node
      with the key and the fix-up does not panic, the tree is valid, one node is counted
      out, and exactly one entry with that key has left the in-order entries; a Black root
      stays Black and a key-ordered tree stays key-ordered. */
  lemma DeleteCorrect<V>(t: RbTree<V>, k: int)
    requires Valid(t)
    ensures Search(t, k).Null? ==> Delete(t, k, Repaired) == Ok(t)
    ensures Ordered(t) && k !in Keys(Items(t)) ==> Delete(t, k, Repaired) == Ok(t)
    ensures var r := Delete(t, k, Repaired);
      Search(t, k).Ptr? && r.Ok? ==>
        && Valid(r.value) && r.value.length == t.length - 1
        && DeletedKey(Items(t), Items(r.value), k)
    ensures var r := Delete(t, k, Repaired);
      r.Ok? ==> Valid(r.value) && (RootBlack(t) ==> RootBlack(r.value))
    ensures var r := Delete(t, k, Repaired);
      r.Ok? && Ordered(t) ==> Ordered(r.value)
  {
    var z := Search(t, k);
    if z.Ptr? {
      var u := Unlink(t, z.index, Repaired);
      UnlinkValid(t, z.index);
      UnlinkItems(t, z.index, u.0);
      var m := |ItemsAt(t.nodes, Preceding(Abs(t), z.index))|;
      var r := Delete(t, k, Repaired);
      DeleteReshapes(t, k);
      if r.Ok? {
        assert Items(r.value) == Items(u.0);
        assert DeletedAt(Items(t), Items(r.value), m) && Items(t)[m].0 == k;
        if Ordered(t) {
          DeletedSorted(Items(t), Items(r.value), m);
        }
      }
    }
  }
}
