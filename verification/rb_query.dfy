/**
  The read-only operations of `RbTree` (src/rb_tree.rs): `new`, `clear`, `len`,
  `search`, `get`, `key_exist`, `find_min` and the in-order traversal behind `iter`.
  Each walk over the arena carries the ghost shape it walks, which is what makes it
  terminate.
 */
module RbQuery {
  import opened RbArena
  import opened RbShape

  datatype Option<T> = None | Some(value: T)

  /** The keys of a subtree in in-order. */
  ghost function KeysIn<V>(nodes: seq<Node<V>>, s: Shape): seq<int> {
    Keys(ItemsAt(nodes, InOrder(s)))
  }

  lemma KeysInBranch<V>(nodes: seq<Node<V>>, l: Shape, i: nat, r: Shape)
    requires i < |nodes|
    ensures KeysIn(nodes, Branch(l, i, r)) == KeysIn(nodes, l) + [nodes[i].key] + KeysIn(nodes, r)
  {
    ItemsBranch(nodes, l, i, r);
    KeysAppend(ItemsAt(nodes, InOrder(l)) + [(nodes[i].key, nodes[i].val)], ItemsAt(nodes, InOrder(r)));
    KeysAppend(ItemsAt(nodes, InOrder(l)), [(nodes[i].key, nodes[i].val)]);
  }

  /** A sorted sequence around a pivot: both sides sorted, the left at most, the right at least the pivot. */
  lemma SortedAround(a: seq<int>, x: int, b: seq<int>)
    requires Sorted(a + [x] + b)
    ensures Sorted(a) && Sorted(b)
    ensures forall y :: y in a ==> y <= x
    ensures forall y :: y in b ==> x <= y
  {
    var c := a + [x] + b;
    assert forall j :: 0 <= j < |a| ==> c[j] == a[j];
    assert forall j :: 0 <= j < |b| ==> c[|a| + 1 + j] == b[j];
    assert c[|a|] == x;
  }

  /** The entry of every node of a linked shape is among its items. */
  lemma {:induction false} EntryInItems<V>(nodes: seq<Node<V>>, s: Shape, j: nat)
    requires Links(nodes, s) && j in Indices(s)
    ensures j < |nodes| && (nodes[j].key, nodes[j].val) in ItemsAt(nodes, InOrder(s))
    ensures nodes[j].key in KeysIn(nodes, s)
  {
    match s
    case Branch(l, i, r) =>
      ItemsBranch(nodes, l, i, r);
      if j in Indices(l) {
        EntryInItems(nodes, l, j);
      } else if j in Indices(r) {
        EntryInItems(nodes, r, j);
      }
      var items := ItemsAt(nodes, InOrder(s));
      var e := (nodes[j].key, nodes[j].val);
      assert e in items;
      var q :| 0 <= q < |items| && items[q] == e;
      assert Keys(items)[q] == nodes[j].key;
  }

  // ---------------------------------------------------------------- search

  /** `search`: descends left on smaller keys, right on larger keys, stops on an equal key. */
  function SearchFrom<V>(nodes: seq<Node<V>>, p: Ptr, k: int, ghost s: Shape): (r: Ptr)
    requires Links(nodes, s) && Root(s) == p
    ensures r.Ptr? ==> r.index in Indices(s) && r.index < |nodes| && nodes[r.index].key == k
    decreases s
  {
    if p.Null? then Null
    else
      var n := nodes[p.index];
      if k < n.key then
        var r := SearchFrom(nodes, n.left, k, s.left); r
      else if k > n.key then
        var r := SearchFrom(nodes, n.right, k, s.right); r
      else p
  }

  /** In a key-ordered subtree the descent misses no key. */
  lemma {:induction false} SearchFinds<V>(nodes: seq<Node<V>>, s: Shape, k: int)
    requires Links(nodes, s) && Sorted(KeysIn(nodes, s)) && k in KeysIn(nodes, s)
    ensures SearchFrom(nodes, Root(s), k, s).Ptr?
  {
    match s
    case Branch(l, i, r) =>
      KeysInBranch(nodes, l, i, r);
      SortedAround(KeysIn(nodes, l), nodes[i].key, KeysIn(nodes, r));
      if k < nodes[i].key {
        SearchFinds(nodes, l, k);
      } else if k > nodes[i].key {
        SearchFinds(nodes, r, k);
      }
  }

  function Search<V>(t: RbTree<V>, k: int): (r: Ptr)
    requires WellLinked(t)
    ensures r.Ptr? ==> r.index in Indices(Abs(t)) && r.index < |t.nodes| && t.nodes[r.index].key == k
    ensures Ordered(t) ==> (r.Ptr? <==> k in Keys(Items(t)))
  {
    var r := SearchFrom(t.nodes, t.root, k, Abs(t));
    assert Ordered(t) ==> (r.Ptr? <==> k in Keys(Items(t))) by {
      if r.Ptr? {
        EntryInItems(t.nodes, Abs(t), r.index);
      }
      if Ordered(t) && k in Keys(Items(t)) {
        SearchFinds(t.nodes, Abs(t), k);
      }
    }
    r
  }

  /** `get`: the value of the node `search` reaches. */
  function Get<V>(t: RbTree<V>, k: int): (r: Option<V>)
    requires WellLinked(t)
    ensures r.Some? ==> (k, r.value) in Items(t)
    ensures Ordered(t) ==> (r.Some? <==> k in Keys(Items(t)))
  {
    var p := Search(t, k);
    if p.Null? then None
    else
      EntryInItems(t.nodes, Abs(t), p.index);
      Some(t.nodes[p.index].val)
  }

  /** `key_exist`: whether `search` finds a node. */
  function KeyExist<V>(t: RbTree<V>, k: int): (r: bool)
    requires WellLinked(t)
    ensures r ==> k in Keys(Items(t))
    ensures Ordered(t) ==> (r <==> k in Keys(Items(t)))
  {
    var p := Search(t, k);
    if p.Ptr? then EntryInItems(t.nodes, Abs(t), p.index); true else false
  }

  // ---------------------------------------------------------------- construction and size

  /** `new`: no root, length 0. */
  function New<V>(): (r: RbTree<V>)
    ensures Valid(r) && Items(r) == [] && r.length == 0 && RootBlack(r)
  {
    var r := RbTree([], Null, 0);
    AbsIs(r, Leaf);
    r
  }

  /** `clear`: drops every node; the tree is empty again. */
  function Clear<V>(t: RbTree<V>): (r: RbTree<V>)
    ensures Valid(r) && Items(r) == [] && r.length == 0 && RootBlack(r)
  {
    New()
  }

  /** `len`: the counter, which in a valid tree is the number of entries. */
  function Len<V>(t: RbTree<V>): (r: int)
    requires Valid(t)
    ensures r == |Items(t)|
  {
    ItemsCount(t.nodes, Abs(t));
    t.length
  }

  // ---------------------------------------------------------------- traversal

  /** `inorder_stack_recurse`: appends the subtree's entries, left subtree first. */
  function InorderFrom<V>(nodes: seq<Node<V>>, p: Ptr, acc: seq<(int, V)>, ghost s: Shape): (r: seq<(int, V)>)
    requires Links(nodes, s) && Root(s) == p
    ensures r == acc + ItemsAt(nodes, InOrder(s))
    decreases s
  {
    if p.Null? then acc
    else
      var n := nodes[p.index];
      var withLeft := InorderFrom(nodes, n.left, acc, s.left);
      var r := InorderFrom(nodes, n.right, withLeft + [(n.key, n.val)], s.right);
      ItemsBranch(nodes, s.left, s.index, s.right);
      r
  }

  /** `inorder_items` and `iter`: every entry once, in key order. */
  function Iter<V>(t: RbTree<V>): (r: seq<(int, V)>)
    requires WellLinked(t)
    ensures r == Items(t)
    ensures Valid(t) ==> |r| == t.length
    ensures Ordered(t) ==> Sorted(Keys(r))
  {
    var r := InorderFrom(t.nodes, t.root, [], Abs(t));
    assert r == Items(t) by {
      assert [] + Items(t) == Items(t);
    }
    ItemsCount(t.nodes, Abs(t));
    r
  }

  // ---------------------------------------------------------------- find_min

  /** `find_min`: follows left links to the node with no left child. */
  function FindMin<V>(nodes: seq<Node<V>>, p: nat, ghost s: Shape): (r: nat)
    requires Links(nodes, s) && Root(s) == Ptr(p)
    ensures r in Indices(s) && Sub(s, r).Branch? && Sub(s, r).left == Leaf
    ensures Before(s, r) == []
    decreases s
  {
    var left := nodes[p].left;
    if left.Null? then p else FindMin(nodes, left.index, s.left)
  }
}
