/**
  The node store of the red-black tree (src/rb_tree.rs, types from src/lib.rs of the
  crate). The source links nodes with `Rc<RefCell<..>>` pointers and parent
  back-references; here every node lives in an index arena and links are indices, so
  a wrong parent link is as expressible as in the source. Nodes are never freed: a
  node spliced out by `delete` stays in the arena, just as an `Rc` node stays alive
  while a stale parent link still points to it.
 */
module RbArena {

  datatype Color = Red | Black

  /** `Option<Ptr<K, V>>`: no node, or the node at an arena index. */
  datatype Ptr = Null | Ptr(index: nat)

  /** A side of a node; every mirror-image pair of branches in the source is one function of a side. */
  datatype Dir = Left | Right

  function Flip(d: Dir): Dir {
    if d == Left then Right else Left
  }

  /** `RbNode`: integer keys stand for the totally ordered key type. */
  datatype Node<V> = Node(key: int, val: V, color: Color, parent: Ptr, left: Ptr, right: Ptr)

  /** `RbTree`: the arena, the root slot and the `length` counter. */
  datatype RbTree<V> = RbTree(nodes: seq<Node<V>>, root: Ptr, length: int)

  /** Why an operation of the source panics (`unwrap`/`expect` on `None`), or gives up. */
  datatype Fault =
    | MissingRotateChild   // `unwrap` of the child a rotation lifts
    | MissingGrandparent   // `unwrap` of `z.parent.parent` in `in_fix_up`
    | MissingParent        // `expect("parent must exist")` in `delete_fixup`
    | MissingSibling       // `expect("Sibling must exist")` in `delete_fixup`
    | MissingRoot          // `self.root.clone().unwrap()` in `delete_fixup`
    | OutOfFuel            // a loop ran longer than the arena has nodes

  datatype Result<T> = Ok(value: T) | Err(fault: Fault)

  /** The fuel left for the rest of a loop after one iteration. Calls and lemmas name
      it by this function, never as `fuel - 1`, so that every mention is the same term. */
  function OneLess(fuel: nat): nat
    requires fuel > 0
  {
    fuel - 1
  }

  function Child<V>(n: Node<V>, d: Dir): Ptr {
    if d == Left then n.left else n.right
  }

  function SetChild<V>(n: Node<V>, d: Dir, c: Ptr): (r: Node<V>)
    ensures Child(r, d) == c && Child(r, Flip(d)) == Child(n, Flip(d))
    ensures r.key == n.key && r.val == n.val && r.color == n.color && r.parent == n.parent
  {
    if d == Left then n.(left := c) else n.(right := c)
  }

  predicate InArena<V>(nodes: seq<Node<V>>, p: Ptr) {
    p.Null? || p.index < |nodes|
  }

  /** Every link names a node of the arena: `Rc` pointers never dangle. */
  ghost predicate AllInArena<V>(nodes: seq<Node<V>>) {
    forall i :: 0 <= i < |nodes| ==>
      InArena(nodes, nodes[i].parent) && InArena(nodes, nodes[i].left) && InArena(nodes, nodes[i].right)
  }

  /** The arena's links and the root slot name nodes of the arena. */
  ghost predicate Closed<V>(t: RbTree<V>) {
    InArena(t.nodes, t.root) && AllInArena(t.nodes)
  }

  /** Two arenas hold the same nodes with the same entries and colours; only links may differ. */
  ghost predicate Relinked<V>(a: seq<Node<V>>, b: seq<Node<V>>) {
    Payload(a) == Payload(b)
  }

  /** What each node holds apart from its links. */
  ghost function Payload<V>(nodes: seq<Node<V>>): (r: seq<(int, V, Color)>)
    ensures |r| == |nodes|
    ensures forall i :: 0 <= i < |nodes| ==> r[i] == (nodes[i].key, nodes[i].val, nodes[i].color)
  {
    seq(|nodes|, i requires 0 <= i < |nodes| => (nodes[i].key, nodes[i].val, nodes[i].color))
  }

  /** What each node holds apart from its links and colour. */
  ghost function Entries<V>(nodes: seq<Node<V>>): (r: seq<(int, V)>)
    ensures |r| == |nodes|
    ensures forall i :: 0 <= i < |nodes| ==> r[i] == (nodes[i].key, nodes[i].val)
  {
    seq(|nodes|, i requires 0 <= i < |nodes| => (nodes[i].key, nodes[i].val))
  }

  /** Two arenas hold the same nodes with the same entries; links and colours may differ. */
  ghost predicate SameEntries<V>(a: seq<Node<V>>, b: seq<Node<V>>) {
    Entries(a) == Entries(b)
  }

  lemma SameEntriesAt<V>(a: seq<Node<V>>, b: seq<Node<V>>, i: nat)
    requires SameEntries(a, b) && i < |a|
    ensures |b| == |a| && SameEntry(a[i], b[i])
  {
    assert Entries(a)[i] == Entries(b)[i];
  }

  lemma RelinkedSameEntries<V>(a: seq<Node<V>>, b: seq<Node<V>>)
    requires Relinked(a, b)
    ensures SameEntries(a, b)
  {
    forall i | 0 <= i < |a| ensures Entries(a)[i] == Entries(b)[i] {
      assert Payload(a)[i] == Payload(b)[i];
    }
  }

  /** Relinked arenas agree on every node's entry and colour. */
  lemma RelinkedAt<V>(a: seq<Node<V>>, b: seq<Node<V>>, i: nat)
    requires Relinked(a, b) && i < |a|
    ensures |b| == |a| && SameEntry(a[i], b[i]) && a[i].color == b[i].color
  {
    assert Payload(a)[i] == Payload(b)[i];
  }

  /** Writes the parent link of node `i`. */
  function SetParentAt<V>(nodes: seq<Node<V>>, i: nat, p: Ptr): (r: seq<Node<V>>)
    requires i < |nodes|
    ensures |r| == |nodes| && Relinked(nodes, r) && r[i] == nodes[i].(parent := p)
    ensures forall j :: 0 <= j < |nodes| && j != i ==> r[j] == nodes[j]
    ensures AllInArena(nodes) && InArena(nodes, p) ==> AllInArena(r)
  {
    nodes[i := nodes[i].(parent := p)]
  }

  /** Writes the child link on side `d` of node `i`. */
  function SetChildAt<V>(nodes: seq<Node<V>>, i: nat, d: Dir, c: Ptr): (r: seq<Node<V>>)
    requires i < |nodes|
    ensures |r| == |nodes| && Relinked(nodes, r) && r[i] == SetChild(nodes[i], d, c)
    ensures forall j :: 0 <= j < |nodes| && j != i ==> r[j] == nodes[j]
    ensures AllInArena(nodes) && InArena(nodes, c) ==> AllInArena(r)
  {
    nodes[i := SetChild(nodes[i], d, c)]
  }

  /** `node_color`: an empty slot counts as Black. */
  function ColorOf<V>(nodes: seq<Node<V>>, p: Ptr): Color
    requires InArena(nodes, p)
  {
    if p.Null? then Black else nodes[p.index].color
  }

  /** `set_color`: recolours the node, if there is one. */
  function SetColor<V>(t: RbTree<V>, p: Ptr, c: Color): (r: RbTree<V>)
    requires Closed(t) && InArena(t.nodes, p)
    ensures Closed(r) && r.root == t.root && r.length == t.length && |r.nodes| == |t.nodes|
    ensures p.Ptr? ==> r.nodes[p.index].color == c
    ensures forall i :: 0 <= i < |t.nodes| ==> SameLinks(r.nodes[i], t.nodes[i]) && SameEntry(r.nodes[i], t.nodes[i])
    ensures forall i :: 0 <= i < |t.nodes| && p != Ptr(i) ==> r.nodes[i].color == t.nodes[i].color
    ensures SameEntries(t.nodes, r.nodes)
    ensures forall i :: 0 <= i < |t.nodes| && p != Ptr(i) ==> r.nodes[i] == t.nodes[i]
  {
    if p.Null? then t else t.(nodes := t.nodes[p.index := t.nodes[p.index].(color := c)])
  }

  /** Two versions of a node with the same parent and child links. */
  predicate SameLinks<V>(a: Node<V>, b: Node<V>) {
    a.parent == b.parent && a.left == b.left && a.right == b.right
  }

  /** Two versions of a node with the same key and value. */
  ghost predicate SameEntry<V>(a: Node<V>, b: Node<V>) {
    a.key == b.key && a.val == b.val
  }

  /** Every node of `before` is in `after` with its key and value (new nodes may follow). */
  ghost predicate KeepsEntries<V>(before: seq<Node<V>>, after: seq<Node<V>>) {
    |before| <= |after| && forall i :: 0 <= i < |before| ==> SameEntry(before[i], after[i])
  }

  lemma KeepsEntriesThen<V>(a: seq<Node<V>>, b: seq<Node<V>>, c: seq<Node<V>>)
    requires KeepsEntries(a, b) && SameEntries(b, c)
    ensures KeepsEntries(a, c)
  {
    forall i | 0 <= i < |a| ensures SameEntry(a[i], c[i]) {
      SameEntriesAt(b, c, i);
    }
  }
}
