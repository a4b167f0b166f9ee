/**
  `delete_fixup` (src/rb_tree.rs:418-521) and `delete` as a whole (src/rb_tree.rs:73-128).
  Each pair of mirror-image branches of the loop is one function of the side `d` on which
  `x` hangs: `d == Left` is the branch where `is_left_child(x)` holds.
 */
module RbFixup {
  import opened RbArena
  import opened RbShape
  import opened RbQuery
  import opened RbRotate
  import opened RbInsert
  import opened RbDelete

  // ---------------------------------------------------------------- the loop

  /** The rotation that closes cases 1 and 3, and the `expect` on the sibling `x` has
      after it. */
  function RotateToSibling<V>(t: RbTree<V>, x: nat, p: nat, d: Dir): (r: Result<(RbTree<V>, nat)>)
    requires Closed(t) && x < |t.nodes| && p < |t.nodes|
    ensures r.Ok? ==> Closed(r.value.0) && SameEntries(t.nodes, r.value.0.nodes) && |r.value.0.nodes| == |t.nodes|
    ensures r.Ok? ==> r.value.0.length == t.length && r.value.1 < |t.nodes|
  {
    match Rotate(t, p, d)
    case Err(f) => Err(f)
    case Ok(t3) =>
      RelinkedSameEntries(t.nodes, t3.nodes);
      var w' := Sibling(t3.nodes, x);
      if w'.Null? then Err(MissingSibling) else Ok((t3, w'.index))
  }

  /** Case 1, a Red sibling `w`: `w` turns Black, `x`'s parent Red, and the parent rotates
      down towards `d`. Gives the tree and `x`'s new sibling. */
  function RedSibling<V>(t: RbTree<V>, x: nat, w: nat, d: Dir): (r: Result<(RbTree<V>, nat)>)
    requires Closed(t) && x < |t.nodes| && w < |t.nodes|
    ensures r.Ok? ==> Closed(r.value.0) && SameEntries(t.nodes, r.value.0.nodes) && |r.value.0.nodes| == |t.nodes|
    ensures r.Ok? ==> r.value.0.length == t.length && r.value.1 < |t.nodes|
  {
    var t1 := SetColor(t, Ptr(w), Black);
    var t2 := SetColor(t1, t1.nodes[x].parent, Red);
    var p := t2.nodes[x].parent;
    if p.Null? then Err(MissingParent) else RotateToSibling(t2, x, p.index, d)
  }

  /** Case 3, `w`'s far child Black: `w`'s near child turns Black, `w` Red, and `w`
      rotates away from `x`. Gives the tree and `x`'s new sibling. */
  function FarBlack<V>(t: RbTree<V>, x: nat, w: nat, d: Dir): (r: Result<(RbTree<V>, nat)>)
    requires Closed(t) && x < |t.nodes| && w < |t.nodes|
    ensures r.Ok? ==> Closed(r.value.0) && SameEntries(t.nodes, r.value.0.nodes) && |r.value.0.nodes| == |t.nodes|
    ensures r.Ok? ==> r.value.0.length == t.length && r.value.1 < |t.nodes|
  {
    var t1 := SetColor(t, Child(t.nodes[w], d), Black);
    var t2 := SetColor(t1, Ptr(w), Red);
    RotateToSibling(t2, x, w, Flip(d))
  }

  /** Case 4: `w` takes the colour of `x`'s parent, the parent and `w`'s far child turn
      Black, and the parent rotates down towards `d`. */
  function FarRed<V>(t: RbTree<V>, x: nat, w: nat, d: Dir): (r: Result<RbTree<V>>)
    requires Closed(t) && x < |t.nodes| && w < |t.nodes|
    ensures r.Ok? ==> Closed(r.value) && SameEntries(t.nodes, r.value.nodes) && |r.value.nodes| == |t.nodes|
    ensures r.Ok? ==> r.value.length == t.length
  {
    var t1 := SetColor(t, Ptr(w), ColorOf(t.nodes, t.nodes[x].parent));
    var t2 := SetColor(t1, t1.nodes[x].parent, Black);
    var t3 := SetColor(t2, Child(t2.nodes[w], Flip(d)), Black);
    var p := t3.nodes[x].parent;
    if p.Null? then Err(MissingParent)
    else
      var r := Rotate(t3, p.index, d);
      if r.Ok? then RelinkedSameEntries(t3.nodes, r.value.nodes); r else r
  }

  /** One iteration of the loop of `delete_fixup` at a Black node `x` that is not the
      root: case 1 when the sibling is Red, then the rest of the iteration with the
      sibling it leaves. Gives the tree and the next `x`. */
  function DeleteStep<V>(t: RbTree<V>, x: nat): (r: Result<(RbTree<V>, Ptr)>)
    requires Closed(t) && x < |t.nodes|
    ensures r.Ok? ==> Closed(r.value.0) && SameEntries(t.nodes, r.value.0.nodes) && |r.value.0.nodes| == |t.nodes|
    ensures r.Ok? ==> r.value.0.length == t.length && InArena(r.value.0.nodes, r.value.1)
  {
    var d := if IsLeftChild(t.nodes, x) then Left else Right;
    var w := Sibling(t.nodes, x);
    if w.Null? then Err(MissingSibling)
    else if ColorOf(t.nodes, w) == Red then
      match RedSibling(t, x, w.index, d)
      case Err(f) => Err(f)
      case Ok((t1, w1)) => BlackSibling(t1, x, w1, d)
    else BlackSibling(t, x, w.index, d)
  }

  /** The iteration with a Black sibling `w`: case 2 (the loop goes on from the parent)
      when both of `w`'s children are Black, else cases 3 and 4 (the loop goes on from the
      root). */
  function BlackSibling<V>(t: RbTree<V>, x: nat, w: nat, d: Dir): (r: Result<(RbTree<V>, Ptr)>)
    requires Closed(t) && x < |t.nodes| && w < |t.nodes|
    ensures r.Ok? ==> Closed(r.value.0) && SameEntries(t.nodes, r.value.0.nodes) && |r.value.0.nodes| == |t.nodes|
    ensures r.Ok? ==> r.value.0.length == t.length && InArena(r.value.0.nodes, r.value.1)
  {
    if ColorOf(t.nodes, t.nodes[w].left) == Black && ColorOf(t.nodes, t.nodes[w].right) == Black then
      BothBlack(t, x, w)
    else if ColorOf(t.nodes, Child(t.nodes[w], Flip(d))) == Black then
      FarBlackStep(t, x, w, d)
    else FarRedStep(t, x, w, d)
  }

  /** Case 2: `w` turns Red and the loop goes on from `x`'s parent. */
  function BothBlack<V>(t: RbTree<V>, x: nat, w: nat): (r: Result<(RbTree<V>, Ptr)>)
    requires Closed(t) && x < |t.nodes| && w < |t.nodes|
    ensures r.Ok? && Closed(r.value.0) && SameEntries(t.nodes, r.value.0.nodes) && |r.value.0.nodes| == |t.nodes|
    ensures r.value.0.length == t.length && r.value.1 == t.nodes[x].parent
  {
    var t1 := SetColor(t, Ptr(w), Red);
    Ok((t1, t1.nodes[x].parent))
  }

  /** Case 3 and then case 4, after which `x` is the root. */
  function FarBlackStep<V>(t: RbTree<V>, x: nat, w: nat, d: Dir): (r: Result<(RbTree<V>, Ptr)>)
    requires Closed(t) && x < |t.nodes| && w < |t.nodes|
    ensures r.Ok? ==> Closed(r.value.0) && SameEntries(t.nodes, r.value.0.nodes) && |r.value.0.nodes| == |t.nodes|
    ensures r.Ok? ==> r.value.0.length == t.length && r.value.1 == r.value.0.root
  {
    match FarBlack(t, x, w, d)
    case Err(f) => Err(f)
    case Ok((t1, w1)) => FarRedStep(t1, x, w1, d)
  }

  /** Case 4, after which `x` is the root. */
  function FarRedStep<V>(t: RbTree<V>, x: nat, w: nat, d: Dir): (r: Result<(RbTree<V>, Ptr)>)
    requires Closed(t) && x < |t.nodes| && w < |t.nodes|
    ensures r.Ok? ==> Closed(r.value.0) && SameEntries(t.nodes, r.value.0.nodes) && |r.value.0.nodes| == |t.nodes|
    ensures r.Ok? ==> r.value.0.length == t.length && r.value.1 == r.value.0.root
  {
    match FarRed(t, x, w, d)
    case Err(f) => Err(f)
    case Ok(t1) => Ok((t1, t1.root))
  }

  /** `delete_fixup(x)`: an empty `x` ends the loop at once (the `else { break; }` branch);
      a non-empty `x` with no root panics in the loop test; otherwise the loop runs while
      `x` is Black and not the root, and `x` is then painted Black. */
  function DeleteFixup<V>(t: RbTree<V>, x: Ptr, fuel: nat): (r: Result<RbTree<V>>)
    requires Closed(t) && InArena(t.nodes, x)
    ensures r.Ok? ==> Closed(r.value) && SameEntries(t.nodes, r.value.nodes) && |r.value.nodes| == |t.nodes|
    ensures r.Ok? ==> r.value.length == t.length
    decreases fuel
  {
    if x.Null? then Ok(t)
    else if t.root.Null? then Err(MissingRoot)
    else if x == t.root || ColorOf(t.nodes, x) != Black then Ok(SetColor(t, x, Black))
    else if fuel == 0 then Err(OutOfFuel)
    else
      match DeleteStep(t, x.index)
      case Err(f) => Err(f)
      case Ok((t', x')) => DeleteFixup(t', x', OneLess(fuel))
  }

  // ---------------------------------------------------------------- the loop, repaired

  /*
    The textbook loop (Cormen et al., RB-DELETE-FIXUP) keeps going when `x` is an empty
    slot: its sentinel leaf records the parent the slot hangs from. The repaired loop below
    tracks that place explicitly, as a slot: side `d` of node `p`, or the root slot when `p`
    is empty. `x` is whatever fills the slot. Every branch is the source's, with `x`'s
    parent and side read from the slot instead of from `x`.
  */

  /** The node in the slot: the root, or `p`'s child on side `d`. */
  function SlotChild<V>(t: RbTree<V>, p: Ptr, d: Dir): (x: Ptr)
    requires Closed(t) && InArena(t.nodes, p)
    ensures InArena(t.nodes, x)
  {
    if p.Null? then t.root else Child(t.nodes[p.index], d)
  }

  /** The slot node `p` fills: its parent's side that names it, the root slot without a parent. */
  function SlotOf<V>(nodes: seq<Node<V>>, p: nat): (r: (Ptr, Dir))
    requires p < |nodes| && AllInArena(nodes)
    ensures r.0 == nodes[p].parent && InArena(nodes, r.0)
  {
    (nodes[p].parent, if IsLeftChild(nodes, p) then Left else Right)
  }

  /** Case 1 at the slot: the Red sibling `w` turns Black, `p` turns Red and rotates down
      towards `d`. Gives the tree and the new sibling. */
  function SlotRedSibling<V>(t: RbTree<V>, p: nat, w: nat, d: Dir): (r: Result<(RbTree<V>, nat)>)
    requires Closed(t) && p < |t.nodes| && w < |t.nodes|
    ensures r.Ok? ==> Closed(r.value.0) && SameEntries(t.nodes, r.value.0.nodes) && |r.value.0.nodes| == |t.nodes|
    ensures r.Ok? ==> r.value.0.length == t.length && r.value.1 < |t.nodes|
    ensures r.Ok? ==> Child(r.value.0.nodes[p], Flip(d)) == Ptr(r.value.1)
  {
    var t1 := SetColor(t, Ptr(w), Black);
    var t2 := SetColor(t1, Ptr(p), Red);
    match Rotate(t2, p, d)
    case Err(f) => Err(f)
    case Ok(t3) =>
      RelinkedSameEntries(t2.nodes, t3.nodes);
      var w' := Child(t3.nodes[p], Flip(d));
      if w'.Null? then Err(MissingSibling) else Ok((t3, w'.index))
  }

  /** Case 3 at the slot: `w`'s near child turns Black, `w` turns Red and rotates away
      from the slot. Gives the tree and the new sibling. */
  function SlotFarBlack<V>(t: RbTree<V>, p: nat, w: nat, d: Dir): (r: Result<(RbTree<V>, nat)>)
    requires Closed(t) && p < |t.nodes| && w < |t.nodes|
    ensures r.Ok? ==> Closed(r.value.0) && SameEntries(t.nodes, r.value.0.nodes) && |r.value.0.nodes| == |t.nodes|
    ensures r.Ok? ==> r.value.0.length == t.length && r.value.1 < |t.nodes|
    ensures r.Ok? ==> Child(r.value.0.nodes[p], Flip(d)) == Ptr(r.value.1)
  {
    var t1 := SetColor(t, Child(t.nodes[w], d), Black);
    var t2 := SetColor(t1, Ptr(w), Red);
    match Rotate(t2, w, Flip(d))
    case Err(f) => Err(f)
    case Ok(t3) =>
      RelinkedSameEntries(t2.nodes, t3.nodes);
      var w' := Child(t3.nodes[p], Flip(d));
      if w'.Null? then Err(MissingSibling) else Ok((t3, w'.index))
  }

  /** Case 4 at the slot: `w` takes `p`'s colour, `p` and `w`'s far child turn Black, and
      `p` rotates down towards `d`. */
  function SlotFarRed<V>(t: RbTree<V>, p: nat, w: nat, d: Dir): (r: Result<RbTree<V>>)
    requires Closed(t) && p < |t.nodes| && w < |t.nodes|
    ensures r.Ok? ==> Closed(r.value) && SameEntries(t.nodes, r.value.nodes) && |r.value.nodes| == |t.nodes|
    ensures r.Ok? ==> r.value.length == t.length
  {
    var t1 := SetColor(t, Ptr(w), t.nodes[p].color);
    var t2 := SetColor(t1, Ptr(p), Black);
    var t3 := SetColor(t2, Child(t2.nodes[w], Flip(d)), Black);
    var r := Rotate(t3, p, d);
    if r.Ok? then RelinkedSameEntries(t3.nodes, r.value.nodes); r else r
  }

  /** One iteration of the repaired loop with the slot on side `d` of `p`: case 1 when the
      sibling is Red, then the rest of the iteration. Gives the tree and the next slot. */
  function SlotStep<V>(t: RbTree<V>, p: nat, d: Dir): (r: Result<(RbTree<V>, Ptr, Dir)>)
    requires Closed(t) && p < |t.nodes|
    ensures r.Ok? ==> Closed(r.value.0) && SameEntries(t.nodes, r.value.0.nodes) && |r.value.0.nodes| == |t.nodes|
    ensures r.Ok? ==> r.value.0.length == t.length && InArena(r.value.0.nodes, r.value.1)
  {
    var w := Child(t.nodes[p], Flip(d));
    if w.Null? then Err(MissingSibling)
    else if ColorOf(t.nodes, w) == Red then
      match SlotRedSibling(t, p, w.index, d)
      case Err(f) => Err(f)
      case Ok((t1, w1)) => SlotBlackSibling(t1, p, w1, d)
    else SlotBlackSibling(t, p, w.index, d)
  }

  /** The iteration with a Black sibling `w`: case 2 (the slot `p` fills is next) when both
      of `w`'s children are Black, else cases 3 and 4 (the root slot is next). */
  function SlotBlackSibling<V>(t: RbTree<V>, p: nat, w: nat, d: Dir): (r: Result<(RbTree<V>, Ptr, Dir)>)
    requires Closed(t) && p < |t.nodes| && w < |t.nodes|
    ensures r.Ok? ==> Closed(r.value.0) && SameEntries(t.nodes, r.value.0.nodes) && |r.value.0.nodes| == |t.nodes|
    ensures r.Ok? ==> r.value.0.length == t.length && InArena(r.value.0.nodes, r.value.1)
  {
    if ColorOf(t.nodes, t.nodes[w].left) == Black && ColorOf(t.nodes, t.nodes[w].right) == Black then
      var t1 := SetColor(t, Ptr(w), Red);
      var up := SlotOf(t1.nodes, p);
      Ok((t1, up.0, up.1))
    else if ColorOf(t.nodes, Child(t.nodes[w], Flip(d))) == Black then
      match SlotFarBlack(t, p, w, d)
      case Err(f) => Err(f)
      case Ok((t1, w1)) => SlotFarRedStep(t1, p, w1, d)
    else SlotFarRedStep(t, p, w, d)
  }

  /** Case 4, after which the root slot is next. */
  function SlotFarRedStep<V>(t: RbTree<V>, p: nat, w: nat, d: Dir): (r: Result<(RbTree<V>, Ptr, Dir)>)
    requires Closed(t) && p < |t.nodes| && w < |t.nodes|
    ensures r.Ok? ==> Closed(r.value.0) && SameEntries(t.nodes, r.value.0.nodes) && |r.value.0.nodes| == |t.nodes|
    ensures r.Ok? ==> r.value.0.length == t.length && r.value.1 == Null
  {
    match SlotFarRed(t, p, w, d)
    case Err(f) => Err(f)
    case Ok(t1) => Ok((t1, Null, Left))
  }

  /** The repaired `delete_fixup`, from the slot on side `d` of `p`: the loop runs while
      the node in the slot is Black (an empty slot included) and not the root, and that
      node is then painted Black. */
  function SlotFixup<V>(t: RbTree<V>, p: Ptr, d: Dir, fuel: nat): (r: Result<RbTree<V>>)
    requires Closed(t) && InArena(t.nodes, p)
    ensures r.Ok? ==> Closed(r.value) && SameEntries(t.nodes, r.value.nodes) && |r.value.nodes| == |t.nodes|
    ensures r.Ok? ==> r.value.length == t.length
    decreases fuel
  {
    var x := SlotChild(t, p, d);
    if x == t.root || ColorOf(t.nodes, x) != Black then Ok(SetColor(t, x, Black))
    else if fuel == 0 then Err(OutOfFuel)
    else
      match SlotStep(t, p.index, d)
      case Err(f) => Err(f)
      case Ok((t', p', d')) => SlotFixup(t', p', d', OneLess(fuel))
  }

  // ---------------------------------------------------------------- what the loop keeps

  /** `r` holds the same tree as `t` up to rotations and colours: valid, with the same nodes
      in the same in-order sequence, hence the same entries. */
  ghost predicate Reshaped<V>(t: RbTree<V>, r: RbTree<V>) {
    && Valid(r) && |r.nodes| == |t.nodes|
    && Indices(Abs(r)) == Indices(Abs(t)) && InOrder(Abs(r)) == InOrder(Abs(t)) && Items(r) == Items(t)
  }

  lemma ReshapedThen<V>(t: RbTree<V>, m: RbTree<V>, r: RbTree<V>)
    requires Reshaped(t, m) && Reshaped(m, r)
    ensures Reshaped(t, r)
  {
  }

  lemma RecolorReshapes<V>(t: RbTree<V>, p: Ptr, c: Color)
    requires Valid(t) && InArena(t.nodes, p)
    ensures Reshaped(t, SetColor(t, p, c)) && Abs(SetColor(t, p, c)) == Abs(t)
  {
    RecolorValid(t, SetColor(t, p, c));
  }

  lemma RotateReshapes<V>(t: RbTree<V>, x: nat, d: Dir)
    requires Valid(t) && x in Indices(Abs(t)) && x < |t.nodes|
    ensures Rotate(t, x, d).Ok? ==> Reshaped(t, Rotate(t, x, d).value)
  {
    if Child(t.nodes[x], Flip(d)).Ptr? {
      RotateValid(t, x, d);
    }
  }

  /** The parent and the sibling of a node of a linked tree are nodes of the tree. */
  lemma Family<V>(t: RbTree<V>, x: nat)
    requires Linked(t) && x in Indices(Abs(t)) && x < |t.nodes|
    ensures t.nodes[x].parent.Ptr? ==> t.nodes[x].parent.index in Indices(Abs(t))
    ensures Sibling(t.nodes, x).Ptr? ==> Sibling(t.nodes, x).index in Indices(Abs(t))
  {
    var s := Abs(t);
    if x == s.index {
      assert t.nodes[x].parent.Null?;
    } else {
      DepthParent(t.nodes, s, Null, x);
      var w := Sibling(t.nodes, x);
      if w.Ptr? {
        ChildLinkIsParent(t.nodes, s, Null, t.nodes[x].parent.index, w.index);
      }
    }
  }

  /** A rotation that succeeds reshapes the tree, and `x`'s sibling afterwards is a node of it. */
  lemma RotateToSiblingReshapes<V>(t: RbTree<V>, x: nat, p: nat, d: Dir)
    requires Valid(t) && x in Indices(Abs(t)) && p in Indices(Abs(t)) && x < |t.nodes| && p < |t.nodes|
    ensures var r := RotateToSibling(t, x, p, d);
      r.Ok? ==> Reshaped(t, r.value.0) && r.value.1 in Indices(Abs(r.value.0))
  {
    RotateReshapes(t, p, d);
    var r := Rotate(t, p, d);
    if r.Ok? {
      Family(r.value, x);
    }
  }

  /** Case 1 up to its rotation: recolouring `w` Black and `x`'s parent Red. */
  lemma RedSiblingColors<V>(t: RbTree<V>, x: nat, w: nat)
    requires Valid(t) && x < |t.nodes| && w < |t.nodes|
    ensures var t1 := SetColor(t, Ptr(w), Black);
      Reshaped(t, SetColor(t1, t1.nodes[x].parent, Red)) && SetColor(t1, t1.nodes[x].parent, Red).nodes[x].parent == t.nodes[x].parent
  {
    var t1 := SetColor(t, Ptr(w), Black);
    RecolorReshapes(t, Ptr(w), Black);
    RecolorReshapes(t1, t1.nodes[x].parent, Red);
  }

  lemma RedSiblingReshapes<V>(t: RbTree<V>, x: nat, w: nat, d: Dir)
    requires Valid(t) && x in Indices(Abs(t)) && x < |t.nodes| && w < |t.nodes|
    ensures var r := RedSibling(t, x, w, d);
      r.Ok? ==> Reshaped(t, r.value.0) && r.value.1 in Indices(Abs(r.value.0))
  {
    var t1 := SetColor(t, Ptr(w), Black);
    var t2 := SetColor(t1, t1.nodes[x].parent, Red);
    RedSiblingColors(t, x, w);
    var p := t2.nodes[x].parent;
    if p.Ptr? {
      Family(t, x);
      RotateToSiblingReshapes(t2, x, p.index, d);
      var r := RotateToSibling(t2, x, p.index, d);
      if r.Ok? {
        ReshapedThen(t, t2, r.value.0);
      }
    }
  }

  /** Case 3 up to its rotation: recolouring `w`'s near child Black and `w` Red. */
  lemma FarBlackColors<V>(t: RbTree<V>, w: nat, d: Dir)
    requires Valid(t) && w < |t.nodes|
    ensures var t1 := SetColor(t, Child(t.nodes[w], d), Black);
      Reshaped(t, SetColor(t1, Ptr(w), Red))
  {
    var t1 := SetColor(t, Child(t.nodes[w], d), Black);
    RecolorReshapes(t, Child(t.nodes[w], d), Black);
    RecolorReshapes(t1, Ptr(w), Red);
  }

  lemma FarBlackReshapes<V>(t: RbTree<V>, x: nat, w: nat, d: Dir)
    requires Valid(t) && x in Indices(Abs(t)) && w in Indices(Abs(t)) && x < |t.nodes| && w < |t.nodes|
    ensures var r := FarBlack(t, x, w, d);
      r.Ok? ==> Reshaped(t, r.value.0) && r.value.1 in Indices(Abs(r.value.0))
  {
    var t1 := SetColor(t, Child(t.nodes[w], d), Black);
    var t2 := SetColor(t1, Ptr(w), Red);
    FarBlackColors(t, w, d);
    RotateToSiblingReshapes(t2, x, w, Flip(d));
    var r := RotateToSibling(t2, x, w, Flip(d));
    if r.Ok? {
      ReshapedThen(t, t2, r.value.0);
    }
  }

  lemma FarRedReshapes<V>(t: RbTree<V>, x: nat, w: nat, d: Dir)
    requires Valid(t) && x in Indices(Abs(t)) && x < |t.nodes| && w < |t.nodes|
    ensures var r := FarRed(t, x, w, d);
      r.Ok? ==> Reshaped(t, r.value)
  {
    var t1 := SetColor(t, Ptr(w), ColorOf(t.nodes, t.nodes[x].parent));
    RecolorReshapes(t, Ptr(w), ColorOf(t.nodes, t.nodes[x].parent));
    var t2 := SetColor(t1, t1.nodes[x].parent, Black);
    RecolorReshapes(t1, t1.nodes[x].parent, Black);
    var t3 := SetColor(t2, Child(t2.nodes[w], Flip(d)), Black);
    RecolorReshapes(t2, Child(t2.nodes[w], Flip(d)), Black);
    var p := t3.nodes[x].parent;
    if p.Ptr? {
      Family(t3, x);
      RotateReshapes(t3, p.index, d);
    }
  }

  /** The tree after one iteration is the same tree reshaped, and the next `x` is one of
      its nodes (or empty). */
  ghost predicate Stepped<V>(t: RbTree<V>, r: Result<(RbTree<V>, Ptr)>) {
    r.Ok? ==> Reshaped(t, r.value.0) && (r.value.1.Ptr? ==> r.value.1.index in Indices(Abs(r.value.0)))
  }

  lemma FarRedStepReshapes<V>(t: RbTree<V>, x: nat, w: nat, d: Dir)
    requires Valid(t) && x in Indices(Abs(t)) && x < |t.nodes| && w < |t.nodes|
    ensures Stepped(t, FarRedStep(t, x, w, d))
  {
    FarRedReshapes(t, x, w, d);
  }

  lemma BlackSiblingReshapes<V>(t: RbTree<V>, x: nat, w: nat, d: Dir)
    requires Valid(t) && x in Indices(Abs(t)) && w in Indices(Abs(t)) && x < |t.nodes| && w < |t.nodes|
    ensures Stepped(t, BlackSibling(t, x, w, d))
  {
    if ColorOf(t.nodes, t.nodes[w].left) == Black && ColorOf(t.nodes, t.nodes[w].right) == Black {
      BothBlackReshapes(t, x, w);
    } else if ColorOf(t.nodes, Child(t.nodes[w], Flip(d))) == Black {
      FarBlackStepReshapes(t, x, w, d);
    } else {
      FarRedStepReshapes(t, x, w, d);
    }
  }

  lemma BothBlackReshapes<V>(t: RbTree<V>, x: nat, w: nat)
    requires Valid(t) && x in Indices(Abs(t)) && x < |t.nodes| && w < |t.nodes|
    ensures Stepped(t, BothBlack(t, x, w))
  {
    RecolorReshapes(t, Ptr(w), Red);
    Family(t, x);
  }

  lemma FarBlackStepReshapes<V>(t: RbTree<V>, x: nat, w: nat, d: Dir)
    requires Valid(t) && x in Indices(Abs(t)) && w in Indices(Abs(t)) && x < |t.nodes| && w < |t.nodes|
    ensures Stepped(t, FarBlackStep(t, x, w, d))
  {
    FarBlackReshapes(t, x, w, d);
    var r := FarBlack(t, x, w, d);
    if r.Ok? {
      FarRedStepReshapes(r.value.0, x, r.value.1, d);
      var r' := FarRedStep(r.value.0, x, r.value.1, d);
      if r'.Ok? {
        ReshapedThen(t, r.value.0, r'.value.0);
      }
    }
  }

  lemma DeleteStepReshapes<V>(t: RbTree<V>, x: nat)
    requires Valid(t) && x in Indices(Abs(t)) && x < |t.nodes|
    ensures Stepped(t, DeleteStep(t, x))
  {
    var d := if IsLeftChild(t.nodes, x) then Left else Right;
    var w := Sibling(t.nodes, x);
    Family(t, x);
    if w.Ptr? {
      if ColorOf(t.nodes, w) == Red {
        RedSiblingReshapes(t, x, w.index, d);
        var r := RedSibling(t, x, w.index, d);
        if r.Ok? {
          BlackSiblingReshapes(r.value.0, x, r.value.1, d);
          var r' := BlackSibling(r.value.0, x, r.value.1, d);
          if r'.Ok? {
            ReshapedThen(t, r.value.0, r'.value.0);
          }
        }
      } else {
        BlackSiblingReshapes(t, x, w.index, d);
      }
    }
  }

  /** `delete_fixup`, when it does not panic, leaves the same tree reshaped. */
  lemma {:induction false} DeleteFixupReshapes<V>(t: RbTree<V>, x: Ptr, fuel: nat)
    requires Valid(t) && (x.Ptr? ==> x.index in Indices(Abs(t)) && x.index < |t.nodes|)
    ensures DeleteFixup(t, x, fuel).Ok? ==> Reshaped(t, DeleteFixup(t, x, fuel).value)
    decreases fuel
  {
    if x.Null? {
    } else if t.root.Null? {
    } else if x == t.root || ColorOf(t.nodes, x) != Black {
      RecolorReshapes(t, x, Black);
    } else if fuel > 0 {
      DeleteStepReshapes(t, x.index);
      var r := DeleteStep(t, x.index);
      if r.Ok? {
        DeleteFixupReshapes(r.value.0, r.value.1, OneLess(fuel));
        var r' := DeleteFixup(r.value.0, r.value.1, OneLess(fuel));
        if r'.Ok? {
          ReshapedThen(t, r.value.0, r'.value);
        }
      }
    }
  }

  // ---------------------------------------------------------------- the root stays Black

  /** The loop's colour invariant: the root is Black, or `x` is the root and is blackened
      when the loop ends. */
  ghost predicate Settled<V>(t: RbTree<V>, x: Ptr)
    requires Closed(t)
  {
    RootBlack(t) || t.root == x
  }

  /** The root of a linked tree has no parent, so a node with a parent is not the root. */
  lemma RootHasNoParent<V>(t: RbTree<V>, j: nat)
    requires Linked(t) && j < |t.nodes| && t.nodes[j].parent.Ptr?
    ensures t.root != Ptr(j)
  {
    var s := Abs(t);
    if s.Branch? {
      assert t.nodes[s.index].parent == Null;
    }
  }

  /** A sibling hangs from the same parent as `x`, on the other side. */
  lemma SiblingLink<V>(t: RbTree<V>, x: nat)
    requires Linked(t) && x in Indices(Abs(t)) && x < |t.nodes|
    ensures var w := Sibling(t.nodes, x);
      w.Ptr? ==> && t.nodes[x].parent.Ptr? && t.nodes[x].parent.index in Indices(Abs(t))
                 && t.nodes[w.index].parent == t.nodes[x].parent
                 && t.root != w && t.root != Ptr(x) && w.index != t.nodes[x].parent.index
  {
    var w := Sibling(t.nodes, x);
    if w.Ptr? {
      Family(t, x);
      ChildLinkIsParent(t.nodes, Abs(t), Null, t.nodes[x].parent.index, w.index);
      RootHasNoParent(t, w.index);
      RootHasNoParent(t, x);
      DepthParent(t.nodes, Abs(t), Null, w.index);
    }
  }

  /** A rotation that lifts a Black node keeps the root Black: the lifted node takes the
      place of the rotated one, which was the root exactly when it had no parent. */
  lemma RotateRoot<V>(t: RbTree<V>, p: nat, w: nat, d: Dir)
    requires Valid(t) && p in Indices(Abs(t)) && p < |t.nodes| && w < |t.nodes|
    requires Child(t.nodes[p], Flip(d)) == Ptr(w) && t.nodes[w].color == Black
    requires t.nodes[p].parent.Ptr? ==> RootBlack(t)
    ensures Rotate(t, p, d).Ok? && RootBlack(Rotate(t, p, d).value)
  {
    RotateValid(t, p, d);
    var r := Rotate(t, p, d).value;
    RelinkedAt(t.nodes, r.nodes, w);
    if t.nodes[p].parent.Ptr? && t.root.Ptr? {
      RelinkedAt(t.nodes, r.nodes, t.root.index);
    }
  }

  /** Case 1 keeps the root Black: when the parent was the root, the sibling, now Black,
      takes its place. */
  lemma RedSiblingRoot<V>(t: RbTree<V>, x: nat, w: nat)
    requires Valid(t) && RootBlack(t) && x in Indices(Abs(t)) && x < |t.nodes| && Sibling(t.nodes, x) == Ptr(w)
    ensures var d := if IsLeftChild(t.nodes, x) then Left else Right;
      var r := RedSibling(t, x, w, d);
      r.Ok? ==> RootBlack(r.value.0) && Sibling(r.value.0.nodes, x) == Ptr(r.value.1)
  {
    var d := if IsLeftChild(t.nodes, x) then Left else Right;
    SiblingLink(t, x);
    var p := t.nodes[x].parent.index;
    var t1 := SetColor(t, Ptr(w), Black);
    var t2 := SetColor(t1, Ptr(p), Red);
    RedSiblingColors(t, x, w);
    assert t2.nodes[w].color == Black;
    assert Child(t2.nodes[p], Flip(d)) == Ptr(w);
    assert t2.nodes[p].parent.Ptr? ==> RootBlack(t2) by {
      if t2.nodes[p].parent.Ptr? {
        RootHasNoParent(t, p);
      }
    }
    RotateRoot(t2, p, w, d);
    RotateToSiblingIs(t2, x, p, d);
    assert RedSibling(t, x, w, d) == RotateToSibling(t2, x, p, d);
  }

  lemma RotateToSiblingIs<V>(t: RbTree<V>, x: nat, p: nat, d: Dir)
    requires Closed(t) && x < |t.nodes| && p < |t.nodes|
    ensures var r := RotateToSibling(t, x, p, d);
      r.Ok? ==> Rotate(t, p, d).Ok? && r.value.0 == Rotate(t, p, d).value && Sibling(r.value.0.nodes, x) == Ptr(r.value.1)
  {
  }

  /** A step with a Black sibling keeps the root Black (case 2 only recolours the
      sibling, which is not the root), or ends with `x` at the root (case 4). */
  lemma BlackSiblingRoot<V>(t: RbTree<V>, x: nat, w: nat, d: Dir)
    requires Valid(t) && RootBlack(t) && x in Indices(Abs(t)) && x < |t.nodes| && Sibling(t.nodes, x) == Ptr(w)
    ensures var r := BlackSibling(t, x, w, d);
      r.Ok? ==> Settled(r.value.0, r.value.1)
  {
    SiblingLink(t, x);
  }

  lemma DeleteStepRoot<V>(t: RbTree<V>, x: nat)
    requires Valid(t) && RootBlack(t) && x in Indices(Abs(t)) && x < |t.nodes|
    ensures var r := DeleteStep(t, x);
      r.Ok? ==> Settled(r.value.0, r.value.1)
  {
    var d := if IsLeftChild(t.nodes, x) then Left else Right;
    var w := Sibling(t.nodes, x);
    if w.Ptr? {
      if ColorOf(t.nodes, w) == Red {
        RedSiblingRoot(t, x, w.index);
        RedSiblingReshapes(t, x, w.index, d);
        var r := RedSibling(t, x, w.index, d);
        if r.Ok? {
          BlackSiblingRoot(r.value.0, x, r.value.1, d);
        }
      } else {
        BlackSiblingRoot(t, x, w.index, d);
      }
    }
  }

  /** `delete_fixup`, when it does not panic, leaves a Black root. */
  lemma {:induction false} DeleteFixupRoot<V>(t: RbTree<V>, x: Ptr, fuel: nat)
    requires Valid(t) && (x.Ptr? ==> x.index in Indices(Abs(t)) && x.index < |t.nodes|)
    requires Settled(t, x)
    ensures DeleteFixup(t, x, fuel).Ok? ==> RootBlack(DeleteFixup(t, x, fuel).value)
    decreases fuel
  {
    if x.Null? {
    } else if t.root.Null? {
    } else if x == t.root || ColorOf(t.nodes, x) != Black {
    } else if fuel > 0 {
      DeleteStepReshapes(t, x.index);
      DeleteStepRoot(t, x.index);
      var r := DeleteStep(t, x.index);
      if r.Ok? {
        DeleteFixupRoot(r.value.0, r.value.1, OneLess(fuel));
      }
    }
  }

  // ---------------------------------------------------------------- the repaired loop keeps the same

  /** The slot hangs from a node of the tree, or is the root slot. */
  ghost predicate SlotIn<V>(t: RbTree<V>, p: Ptr) {
    p.Ptr? ==> p.index in Indices(Abs(t)) && p.index < |t.nodes|
  }

  /** A child of a node of a linked tree is a node of the tree. */
  lemma ChildIn<V>(t: RbTree<V>, p: nat, e: Dir)
    requires Linked(t) && p in Indices(Abs(t)) && p < |t.nodes|
    ensures Child(t.nodes[p], e).Ptr? ==>
      Child(t.nodes[p], e).index in Indices(Abs(t)) && t.nodes[Child(t.nodes[p], e).index].parent == Ptr(p)
  {
    var c := Child(t.nodes[p], e);
    if c.Ptr? {
      ChildLinkIsParent(t.nodes, Abs(t), Null, p, c.index);
    }
  }

  /** The tree after one iteration of the repaired loop is the same tree reshaped, and the
      next slot hangs from one of its nodes (or is the root slot). */
  ghost predicate SlotStepped<V>(t: RbTree<V>, r: Result<(RbTree<V>, Ptr, Dir)>) {
    r.Ok? ==> Reshaped(t, r.value.0) && SlotIn(r.value.0, r.value.1)
  }

  lemma SlotRedSiblingReshapes<V>(t: RbTree<V>, p: nat, w: nat, d: Dir)
    requires Valid(t) && p in Indices(Abs(t)) && p < |t.nodes| && w < |t.nodes|
    ensures var r := SlotRedSibling(t, p, w, d);
      r.Ok? ==> Reshaped(t, r.value.0) && r.value.1 in Indices(Abs(r.value.0))
  {
    var t1 := SetColor(t, Ptr(w), Black);
    var t2 := SetColor(t1, Ptr(p), Red);
    RecolorReshapes(t, Ptr(w), Black);
    RecolorReshapes(t1, Ptr(p), Red);
    ReshapedThen(t, t1, t2);
    RotateReshapes(t2, p, d);
    var r := Rotate(t2, p, d);
    if r.Ok? {
      ReshapedThen(t, t2, r.value);
      ChildIn(r.value, p, Flip(d));
    }
  }

  lemma SlotFarBlackReshapes<V>(t: RbTree<V>, p: nat, w: nat, d: Dir)
    requires Valid(t) && p in Indices(Abs(t)) && w in Indices(Abs(t)) && p < |t.nodes| && w < |t.nodes|
    ensures var r := SlotFarBlack(t, p, w, d);
      r.Ok? ==> Reshaped(t, r.value.0) && r.value.1 in Indices(Abs(r.value.0))
  {
    var t1 := SetColor(t, Child(t.nodes[w], d), Black);
    var t2 := SetColor(t1, Ptr(w), Red);
    FarBlackColors(t, w, d);
    RotateReshapes(t2, w, Flip(d));
    var r := Rotate(t2, w, Flip(d));
    if r.Ok? {
      ReshapedThen(t, t2, r.value);
      ChildIn(r.value, p, Flip(d));
    }
  }

  lemma SlotFarRedReshapes<V>(t: RbTree<V>, p: nat, w: nat, d: Dir)
    requires Valid(t) && p in Indices(Abs(t)) && p < |t.nodes| && w < |t.nodes|
    ensures var r := SlotFarRed(t, p, w, d);
      r.Ok? ==> Reshaped(t, r.value)
  {
    var t1 := SetColor(t, Ptr(w), t.nodes[p].color);
    RecolorReshapes(t, Ptr(w), t.nodes[p].color);
    var t2 := SetColor(t1, Ptr(p), Black);
    RecolorReshapes(t1, Ptr(p), Black);
    var t3 := SetColor(t2, Child(t2.nodes[w], Flip(d)), Black);
    RecolorReshapes(t2, Child(t2.nodes[w], Flip(d)), Black);
    RotateReshapes(t3, p, d);
  }

  lemma SlotBlackSiblingReshapes<V>(t: RbTree<V>, p: nat, w: nat, d: Dir)
    requires Valid(t) && p in Indices(Abs(t)) && w in Indices(Abs(t)) && p < |t.nodes| && w < |t.nodes|
    ensures SlotStepped(t, SlotBlackSibling(t, p, w, d))
  {
    if ColorOf(t.nodes, t.nodes[w].left) == Black && ColorOf(t.nodes, t.nodes[w].right) == Black {
      RecolorReshapes(t, Ptr(w), Red);
      Family(SetColor(t, Ptr(w), Red), p);
    } else if ColorOf(t.nodes, Child(t.nodes[w], Flip(d))) == Black {
      SlotFarBlackReshapes(t, p, w, d);
      var r := SlotFarBlack(t, p, w, d);
      if r.Ok? {
        SlotFarRedReshapes(r.value.0, p, r.value.1, d);
        var r' := SlotFarRed(r.value.0, p, r.value.1, d);
        if r'.Ok? {
          ReshapedThen(t, r.value.0, r'.value);
        }
      }
    } else {
      SlotFarRedReshapes(t, p, w, d);
    }
  }

  lemma SlotStepReshapes<V>(t: RbTree<V>, p: nat, d: Dir)
    requires Valid(t) && p in Indices(Abs(t)) && p < |t.nodes|
    ensures SlotStepped(t, SlotStep(t, p, d))
  {
    var w := Child(t.nodes[p], Flip(d));
    ChildIn(t, p, Flip(d));
    if w.Ptr? {
      if ColorOf(t.nodes, w) == Red {
        SlotRedSiblingReshapes(t, p, w.index, d);
        var r := SlotRedSibling(t, p, w.index, d);
        if r.Ok? {
          SlotBlackSiblingReshapes(r.value.0, p, r.value.1, d);
          var r' := SlotBlackSibling(r.value.0, p, r.value.1, d);
          if r'.Ok? {
            ReshapedThen(t, r.value.0, r'.value.0);
          }
        }
      } else {
        SlotBlackSiblingReshapes(t, p, w.index, d);
      }
    }
  }

  /** The repaired `delete_fixup`, when it does not fail, leaves the same tree reshaped. */
  lemma {:induction false} SlotFixupReshapes<V>(t: RbTree<V>, p: Ptr, d: Dir, fuel: nat)
    requires Valid(t) && SlotIn(t, p)
    ensures SlotFixup(t, p, d, fuel).Ok? ==> Reshaped(t, SlotFixup(t, p, d, fuel).value)
    decreases fuel
  {
    var x := SlotChild(t, p, d);
    if x == t.root || ColorOf(t.nodes, x) != Black {
      RecolorReshapes(t, x, Black);
    } else if fuel > 0 {
      SlotStepReshapes(t, p.index, d);
      var r := SlotStep(t, p.index, d);
      if r.Ok? {
        SlotFixupReshapes(r.value.0, r.value.1, r.value.2, OneLess(fuel));
        var r' := SlotFixup(r.value.0, r.value.1, r.value.2, OneLess(fuel));
        if r'.Ok? {
          ReshapedThen(t, r.value.0, r'.value);
        }
      }
    }
  }

  // ---------------------------------------------------------------- the repaired loop keeps the root Black

  /** Case 1 at the slot keeps the root Black: when `p` was the root, the sibling, now
      Black, takes its place. */
  lemma SlotRedSiblingRoot<V>(t: RbTree<V>, p: nat, w: nat, d: Dir)
    requires Valid(t) && RootBlack(t) && p in Indices(Abs(t)) && p < |t.nodes|
    requires Child(t.nodes[p], Flip(d)) == Ptr(w)
    ensures var r := SlotRedSibling(t, p, w, d);
      r.Ok? ==> RootBlack(r.value.0)
  {
    SlotRecolored(t, p, w, d);
    RotateRoot(SetColor(SetColor(t, Ptr(w), Black), Ptr(p), Red), p, w, d);
  }

  /** Case 1's recolouring leaves a valid tree ready for the rotation at `p`: the sibling is
      Black, and the root is Black unless `p` is the root. */
  lemma SlotRecolored<V>(t: RbTree<V>, p: nat, w: nat, d: Dir)
    requires Valid(t) && RootBlack(t) && p in Indices(Abs(t)) && p < |t.nodes|
    requires Child(t.nodes[p], Flip(d)) == Ptr(w)
    ensures var t2 := SetColor(SetColor(t, Ptr(w), Black), Ptr(p), Red);
      && Valid(t2) && p in Indices(Abs(t2)) && w < |t2.nodes|
      && Child(t2.nodes[p], Flip(d)) == Ptr(w) && t2.nodes[w].color == Black
      && (t2.nodes[p].parent.Ptr? ==> RootBlack(t2))
  {
    ChildIn(t, p, Flip(d));
    RootHasNoParent(t, w);
    DistinctChildren(t.nodes, Abs(t), Null, p);
    var t1 := SetColor(t, Ptr(w), Black);
    var t2 := SetColor(t1, Ptr(p), Red);
    RecolorReshapes(t, Ptr(w), Black);
    RecolorReshapes(t1, Ptr(p), Red);
    assert t2.nodes[p].parent.Ptr? ==> RootBlack(t2) by {
      if t2.nodes[p].parent.Ptr? {
        RootHasNoParent(t, p);
      }
    }
  }

  /** A step with a Black sibling keeps the root Black (case 2 only recolours the
      sibling, which has a parent), or ends at the root slot (case 4). */
  lemma SlotBlackSiblingRoot<V>(t: RbTree<V>, p: nat, w: nat, d: Dir)
    requires Valid(t) && RootBlack(t) && p in Indices(Abs(t)) && p < |t.nodes|
    requires Child(t.nodes[p], Flip(d)) == Ptr(w)
    ensures var r := SlotBlackSibling(t, p, w, d);
      r.Ok? ==> Settled(r.value.0, SlotChild(r.value.0, r.value.1, r.value.2))
  {
    ChildIn(t, p, Flip(d));
    RootHasNoParent(t, w);
    if ColorOf(t.nodes, t.nodes[w].left) == Black && ColorOf(t.nodes, t.nodes[w].right) == Black {
      SlotBothBlackRoot(t, p, w, d);
    } else {
      SlotFarRoot(t, p, w, d);
    }
  }

  /** Case 2 recolours only the sibling, which is not the root. */
  lemma SlotBothBlackRoot<V>(t: RbTree<V>, p: nat, w: nat, d: Dir)
    requires Closed(t) && RootBlack(t) && p < |t.nodes| && w < |t.nodes| && t.root != Ptr(w)
    requires ColorOf(t.nodes, t.nodes[w].left) == Black && ColorOf(t.nodes, t.nodes[w].right) == Black
    ensures SlotBlackSibling(t, p, w, d).Ok? && RootBlack(SlotBlackSibling(t, p, w, d).value.0)
  {
  }

  /** Cases 3 and 4 end at the root slot. */
  lemma SlotFarRoot<V>(t: RbTree<V>, p: nat, w: nat, d: Dir)
    requires Closed(t) && p < |t.nodes| && w < |t.nodes|
    requires ColorOf(t.nodes, t.nodes[w].left) != Black || ColorOf(t.nodes, t.nodes[w].right) != Black
    ensures SlotBlackSibling(t, p, w, d).Ok? ==> SlotBlackSibling(t, p, w, d).value.1 == Null
  {
  }

  lemma SlotStepRoot<V>(t: RbTree<V>, p: nat, d: Dir)
    requires Valid(t) && RootBlack(t) && p in Indices(Abs(t)) && p < |t.nodes|
    ensures var r := SlotStep(t, p, d);
      r.Ok? ==> Settled(r.value.0, SlotChild(r.value.0, r.value.1, r.value.2))
  {
    var w := Child(t.nodes[p], Flip(d));
    if w.Ptr? {
      if ColorOf(t.nodes, w) == Red {
        SlotRedSiblingRoot(t, p, w.index, d);
        SlotRedSiblingReshapes(t, p, w.index, d);
        var r := SlotRedSibling(t, p, w.index, d);
        if r.Ok? {
          var (t1, w1) := r.value;
          assert Valid(t1) && RootBlack(t1) && p in Indices(Abs(t1)) && Child(t1.nodes[p], Flip(d)) == Ptr(w1);
          SlotBlackSiblingRoot(t1, p, w1, d);
          assert SlotStep(t, p, d) == SlotBlackSibling(t1, p, w1, d);
        }
      } else {
        SlotBlackSiblingRoot(t, p, w.index, d);
      }
    }
  }

  /** The repaired `delete_fixup`, when it does not fail, leaves a Black root. */
  lemma {:induction false} SlotFixupRoot<V>(t: RbTree<V>, p: Ptr, d: Dir, fuel: nat)
    requires Valid(t) && SlotIn(t, p) && Settled(t, SlotChild(t, p, d))
    ensures SlotFixup(t, p, d, fuel).Ok? ==> RootBlack(SlotFixup(t, p, d, fuel).value)
    decreases fuel
  {
    var x := SlotChild(t, p, d);
    if x == t.root || ColorOf(t.nodes, x) != Black {
    } else if fuel > 0 {
      SlotStepReshapes(t, p.index, d);
      SlotStepRoot(t, p.index, d);
      var r := SlotStep(t, p.index, d);
      if r.Ok? {
        SlotFixupRoot(r.value.0, r.value.1, r.value.2, OneLess(fuel));
      }
    }
  }
}
