/**
  Two inputs on which the source's red-black tree goes wrong, each run through the model
  of the code as written (`AsWritten`) and through the repaired model (`Repaired`) that
  the rest of the project uses.
 */
module RbFindings {
  import opened RbArena
  import opened RbShape
  import opened RbQuery
  import opened RbRotate
  import opened RbInsert
  import opened RbDelete
  import opened RbFixup
  import opened RbRemove
  import opened RbColor
  import opened RbDeleteColor

  /** The tree after inserting 3 into an empty tree. */
  function One(): RbTree<int> {
    RbTree([Node(3, 0, Black, Null, Null, Null)], Ptr(0), 1)
  }

  /** The tree after inserting 3 and then 1: 3 Black at the root, 1 Red on its left. */
  function Two(): RbTree<int> {
    RbTree([Node(3, 0, Black, Null, Ptr(1), Null), Node(1, 0, Red, Ptr(0), Null, Null)], Ptr(0), 2)
  }

  lemma OneBuilt()
    ensures Insert(New(), 3, 0, AsWritten) == Ok(One())
  {
    var e := New<int>();
    var a := Attach(e, 3, 0);
    assert InsertionParent(e.nodes, e.root, Null, 3, Abs(e)) == Null;
    assert a.nodes == [Node(3, 0, Red, Null, Null, Null)];
    assert a == RbTree([Node(3, 0, Red, Null, Null, Null)], Ptr(0), 1);
    assert InFixUp(a, 0, 1, AsWritten) == Ok(BlackenRoot(a));
    assert BlackenRoot(a).nodes == One().nodes;
  }

  lemma TwoBuilt()
    ensures Insert(One(), 1, 0, AsWritten) == Ok(Two())
  {
    var t := One();
    AbsIs(t, Branch(Leaf, 0, Leaf));
    var a := Attach(t, 1, 0);
    assert InsertionParent(t.nodes, t.root, Null, 1, Abs(t)) == Ptr(0);
    assert a.nodes == [Node(3, 0, Black, Null, Ptr(1), Null), Node(1, 0, Red, Ptr(0), Null, Null)];
    assert InFixUp(a, 1, 2, AsWritten) == Ok(BlackenRoot(a));
    assert BlackenRoot(a).nodes == Two().nodes;
  }

  /** `Two()` with 2 attached as the Red right child of 1. */
  function Attached(): RbTree<int> {
    RbTree([Node(3, 0, Black, Null, Ptr(1), Null), Node(1, 0, Red, Ptr(0), Null, Ptr(2)),
            Node(2, 0, Red, Ptr(1), Null, Null)], Ptr(0), 3)
  }

  /** After case 2: 1 rotated down to the left of 2. */
  function Bent(): RbTree<int> {
    RbTree([Node(3, 0, Black, Null, Ptr(2), Null), Node(1, 0, Red, Ptr(2), Null, Null),
            Node(2, 0, Red, Ptr(0), Ptr(1), Null)], Ptr(0), 3)
  }

  /** `Bent()` recoloured by case 3 as written: 1 Black, 3 Red. */
  function Recoloured(): RbTree<int> {
    RbTree([Node(3, 0, Red, Null, Ptr(2), Null), Node(1, 0, Black, Ptr(2), Null, Null),
            Node(2, 0, Red, Ptr(0), Ptr(1), Null)], Ptr(0), 3)
  }

  /** After case 3 as written: the Red node 2 is the root, with the Red node 3 below it. */
  function Lifted(): RbTree<int> {
    RbTree([Node(3, 0, Red, Ptr(2), Null, Null), Node(1, 0, Black, Ptr(2), Null, Null),
            Node(2, 0, Red, Null, Ptr(1), Ptr(0))], Ptr(2), 3)
  }

  lemma ZigZagAttach()
    ensures WellLinked(Two()) && Attach(Two(), 2, 0) == Attached()
  {
    var t := Two();
    AbsIs(t, Branch(Branch(Leaf, 1, Leaf), 0, Leaf));
    assert InsertionParent(t.nodes, t.root, Null, 2, Abs(t)) == Ptr(1);
    assert Attach(t, 2, 0).nodes == Attached().nodes;
  }

  /** One iteration as written: cases 2 and 3 leave `Lifted()` and move `z` to 1. */
  lemma ZigZagStep()
    ensures FixStep(Attached(), 2, 1, AsWritten) == Ok((Lifted(), 1))
  {
    ZigZagAttach();
    ZigZagHalves();
    assert Restructure(Attached(), 2, 1, 0, Left, AsWritten) == Ok((Lifted(), 1));
  }

  lemma ZigZagHalves()
    ensures Straighten(Attached(), 2, 1, Left) == (Bent(), 1)
    ensures Lift(Bent(), Ptr(1), 0, Left) == Ok(Lifted())
  {
    BendZigZag();
    LiftZigZag();
  }

  lemma BendZigZag()
    ensures Rotate(Attached(), 1, Left) == Ok(Bent())
  {
    var a := Attached().nodes;
    HandOverFacts(a, 1, 2, Left);
    TakePlaceFacts(HandOver(a, 1, 2, Left), 1, 2, Left);
    assert TakePlace(HandOver(a, 1, 2, Left), 1, 2, Left) == Bent().nodes;
  }

  lemma LiftZigZag()
    ensures Lift(Bent(), Ptr(1), 0, Left) == Ok(Lifted())
  {
    var b := Recoloured().nodes;
    HandOverFacts(b, 0, 2, Right);
    TakePlaceFacts(HandOver(b, 0, 2, Right), 0, 2, Right);
    assert TakePlace(HandOver(b, 0, 2, Right), 0, 2, Right) == Lifted().nodes;
    assert SetColor(SetColor(Bent(), Ptr(1), Black), Ptr(0), Red) == Recoloured();
  }

  /** Inserting 2 under 1 is the zig-zag case: case 2 rotates 1 down to the left, and case 3
      as written then blackens 1, the node `zp` still names, instead of 2, the parent 1
      has now. After the rotation at 3 the Red node 2 is the root with a Red child 1, so the
      loop runs again and `unwrap`s the missing grandparent. */
  lemma ZigZagPanics()
    ensures WellLinked(Two()) && Insert(Two(), 2, 0, AsWritten) == Err(MissingGrandparent)
  {
    ZigZagAttach();
    ZigZagStep();
    assert FixStep(Lifted(), 1, 2, AsWritten) == Err(MissingGrandparent);
    assert InFixUp(Attached(), 2, 3, AsWritten) == InFixUp(Lifted(), 1, OneLess(3), AsWritten);
  }

  /** The repaired insert of the same key succeeds, as it does on every valid tree with a
      Black root. */
  lemma ZigZagRepaired()
    ensures Valid(Two()) && RootBlack(Two()) && Insert(Two(), 2, 0, Repaired).Ok?
  {
    AbsIs(Two(), Branch(Branch(Leaf, 1, Leaf), 0, Leaf));
    InsertCorrect(Two(), 2, 0);
  }

  // ---------------------------------------------------------------- a stale parent link after delete

  /** The tree inserting 1, 2, 3 and 4 builds: 2 at the root over 1 and 3, all Black, and
      4 Red to the right of 3. Nodes sit in insertion order. */
  function Four(): RbTree<int> {
    RbTree([Node(1, 0, Black, Ptr(1), Null, Null), Node(2, 0, Black, Null, Ptr(0), Ptr(2)),
            Node(3, 0, Black, Ptr(1), Null, Ptr(3)), Node(4, 0, Red, Ptr(2), Null, Null)], Ptr(1), 4)
  }

  /** The trees inserting 1, then 2, then 3 builds on the way to `Four()`. */
  function Upto1(): RbTree<int> {
    RbTree([Node(1, 0, Black, Null, Null, Null)], Ptr(0), 1)
  }

  function Upto2(): RbTree<int> {
    RbTree([Node(1, 0, Black, Null, Null, Ptr(1)), Node(2, 0, Red, Ptr(0), Null, Null)], Ptr(0), 2)
  }

  function Upto3(): RbTree<int> {
    RbTree([Node(1, 0, Red, Ptr(1), Null, Null), Node(2, 0, Black, Null, Ptr(0), Ptr(2)),
            Node(3, 0, Red, Ptr(1), Null, Null)], Ptr(1), 3)
  }

  /** `Four()` is what inserting 1, 2, 3 and 4 into an empty tree builds, as written and
      repaired alike: no insert meets the zig-zag case. */
  lemma FourBuilt(e: Edition)
    ensures Insert(New(), 1, 0, e) == Ok(Upto1())
    ensures WellLinked(Upto1()) && Insert(Upto1(), 2, 0, e) == Ok(Upto2())
    ensures WellLinked(Upto2()) && Insert(Upto2(), 3, 0, e) == Ok(Upto3())
    ensures WellLinked(Upto3()) && Insert(Upto3(), 4, 0, e) == Ok(Four())
  {
    InsertFirst(e);
    InsertSecond(e);
    InsertThird(e);
    InsertFourth(e);
  }

  lemma InsertFirst(e: Edition)
    ensures Insert(New(), 1, 0, e) == Ok(Upto1())
  {
    var a := Attach(New<int>(), 1, 0);
    assert a == RbTree([Node(1, 0, Red, Null, Null, Null)], Ptr(0), 1);
    assert InFixUp(a, 0, 1, e) == Ok(BlackenRoot(a));
    assert BlackenRoot(a).nodes == Upto1().nodes;
  }

  lemma InsertSecond(e: Edition)
    ensures WellLinked(Upto1()) && Insert(Upto1(), 2, 0, e) == Ok(Upto2())
  {
    var t := Upto1();
    AbsIs(t, Branch(Leaf, 0, Leaf));
    var a := Attach(t, 2, 0);
    assert InsertionParent(t.nodes, t.root, Null, 2, Abs(t)) == Ptr(0);
    assert a.nodes == [Node(1, 0, Black, Null, Null, Ptr(1)), Node(2, 0, Red, Ptr(0), Null, Null)];
    assert InFixUp(a, 1, 2, e) == Ok(BlackenRoot(a));
    assert BlackenRoot(a).nodes == Upto2().nodes;
  }

  /** `Upto2()` with 3 attached as the Red right child of 2. */
  function Attached3(): RbTree<int> {
    RbTree([Node(1, 0, Black, Null, Null, Ptr(1)), Node(2, 0, Red, Ptr(0), Null, Ptr(2)),
            Node(3, 0, Red, Ptr(1), Null, Null)], Ptr(0), 3)
  }

  /** Inserting 3: its parent 2 is Red and its uncle missing, and 3 is an outer child, so
      case 3 alone rotates 1 down to the left. */
  lemma InsertThird(e: Edition)
    ensures WellLinked(Upto2()) && Insert(Upto2(), 3, 0, e) == Ok(Upto3())
  {
    Attach3();
    Straight3(e);
    assert InFixUp(Upto3(), 2, 2, e) == Ok(BlackenRoot(Upto3()));
    assert BlackenRoot(Upto3()) == Upto3();
  }

  lemma Straight3(e: Edition)
    requires Closed(Attached3())
    ensures FixStep(Attached3(), 2, 1, e) == Ok((Upto3(), 2))
  {
    RestructureThree(e);
    var t := Attached3();
    assert t.nodes[1].parent == Ptr(0) && t.nodes[0].left == Null && t.nodes[0].right == Ptr(1);
  }

  lemma RestructureThree(e: Edition)
    requires Closed(Attached3())
    ensures Restructure(Attached3(), 2, 1, 0, Right, e) == Ok((Upto3(), 2))
  {
    var t := Attached3();
    assert Child(t.nodes[1], Left) == Null;
    assert Straighten(t, 2, 1, Right) == (t, 2);
    RotateOneDown();
  }

  lemma Attach3()
    ensures WellLinked(Upto2()) && Attach(Upto2(), 3, 0) == Attached3()
  {
    var t := Upto2();
    assert Closed(t);
    assert Indices(Branch(Leaf, 1, Leaf)) == {1};
    AbsIs(t, Branch(Leaf, 0, Branch(Leaf, 1, Leaf)));
    assert InsertionParent(t.nodes, t.root, Null, 3, Abs(t)) == Ptr(1);
    assert Attach(t, 3, 0).nodes == Attached3().nodes;
  }

  lemma RotateOneDown()
    ensures Lift(Attached3(), Ptr(1), 0, Right) == Ok(Upto3())
  {
    var b := SetColor(SetColor(Attached3(), Ptr(1), Black), Ptr(0), Red).nodes;
    assert b == [Node(1, 0, Red, Null, Null, Ptr(1)), Node(2, 0, Black, Ptr(0), Null, Ptr(2)),
                 Node(3, 0, Red, Ptr(1), Null, Null)];
    HandOverFacts(b, 0, 1, Left);
    TakePlaceFacts(HandOver(b, 0, 1, Left), 0, 1, Left);
    assert TakePlace(HandOver(b, 0, 1, Left), 0, 1, Left) == Upto3().nodes;
  }

  /** Inserting 4: its parent 3 and its uncle 1 are Red, so case 1 recolours them Black
      and 2 Red, and the root is blackened again. */
  lemma InsertFourth(e: Edition)
    ensures WellLinked(Upto3()) && Insert(Upto3(), 4, 0, e) == Ok(Four())
  {
    var t := Upto3();
    assert Closed(t);
    assert Indices(Branch(Leaf, 0, Leaf)) == {0} && Indices(Branch(Leaf, 2, Leaf)) == {2};
    AbsIs(t, Branch(Branch(Leaf, 0, Leaf), 1, Branch(Leaf, 2, Leaf)));
    assert InsertionParent(t.nodes, t.root, Null, 4, Abs(t)) == Ptr(2);
    var a := Attach(t, 4, 0);
    assert a.nodes == [Node(1, 0, Red, Ptr(1), Null, Null), Node(2, 0, Black, Null, Ptr(0), Ptr(2)),
                       Node(3, 0, Red, Ptr(1), Null, Ptr(3)), Node(4, 0, Red, Ptr(2), Null, Null)];
    PushFour(a, e);
  }

  lemma PushFour(a: RbTree<int>, e: Edition)
    requires a == RbTree([Node(1, 0, Red, Ptr(1), Null, Null), Node(2, 0, Black, Null, Ptr(0), Ptr(2)),
                          Node(3, 0, Red, Ptr(1), Null, Ptr(3)), Node(4, 0, Red, Ptr(2), Null, Null)], Ptr(1), 4)
    ensures InFixUp(a, 3, 4, e) == Ok(Four())
  {
    var p := PushBlack(a, 2, 0, 1);
    assert p.nodes == [Node(1, 0, Black, Ptr(1), Null, Null), Node(2, 0, Red, Null, Ptr(0), Ptr(2)),
                       Node(3, 0, Black, Ptr(1), Null, Ptr(3)), Node(4, 0, Red, Ptr(2), Null, Null)];
    assert FixStep(a, 3, 2, e) == Ok((p, 1));
    assert InFixUp(p, 1, 3, e) == Ok(BlackenRoot(p));
    assert BlackenRoot(p) == Four();
  }

  function FourShape(): Shape {
    Branch(Branch(Leaf, 0, Leaf), 1, Branch(Leaf, 2, Branch(Leaf, 3, Leaf)))
  }

  /** A literal arena whose links spell out shape `s` is a valid tree of that shape. */
  lemma LiteralTree<V>(t: RbTree<V>, s: Shape)
    requires Closed(t) && Links(t.nodes, s) && Parents(t.nodes, s, Null) && Root(s) == t.root
    requires t.length == |Indices(s)|
    ensures Valid(t) && Abs(t) == s
  {
    AbsIs(t, s);
  }

  lemma FourValid()
    ensures Valid(Four()) && RootBlack(Four()) && Abs(Four()) == FourShape()
  {
    assert Closed(Four());
    FourLinks();
    assert Parents(Four().nodes, FourShape(), Null);
    LiteralTree(Four(), FourShape());
  }

  lemma FourLinks()
    ensures Links(Four().nodes, FourShape()) && Indices(FourShape()) == {0, 1, 2, 3}
  {
    var nodes := Four().nodes;
    var right := Branch(Leaf, 2, Branch(Leaf, 3, Leaf));
    assert Indices(Leaf) == {};
    assert Indices(Branch(Leaf, 3, Leaf)) == {3} && Indices(Branch(Leaf, 0, Leaf)) == {0};
    assert Indices(right) == {2, 3};
    assert Links(nodes, Branch(Leaf, 3, Leaf)) && Links(nodes, Branch(Leaf, 0, Leaf));
    assert Links(nodes, right);
  }

  lemma FourOrdered()
    ensures Items(Four()) == [(1, 0), (2, 0), (3, 0), (4, 0)] && Ordered(Four())
  {
    FourItems();
    KeysFour();
    UpToFour();
  }

  lemma FourItems()
    ensures Items(Four()) == [(1, 0), (2, 0), (3, 0), (4, 0)]
  {
    FourValid();
    assert InOrder(FourShape()) == [0, 1, 2, 3];
  }

  lemma UpToFour()
    ensures Sorted([1, 2, 3, 4])
  {
    var ks := [1, 2, 3, 4];
    assert forall i :: 0 <= i < |ks| ==> ks[i] == i + 1;
  }

  lemma KeysFour()
    ensures Keys<int>([(1, 0), (2, 0), (3, 0), (4, 0)]) == [1, 2, 3, 4]
  {
    var items: seq<(int, int)> := [(1, 0), (2, 0), (3, 0), (4, 0)];
    var r := Keys(items);
    assert r[0] == items[0].0 && r[1] == items[1].0 && r[2] == items[2].0 && r[3] == items[3].0;
  }

  /** `Four()` after 2 is deleted, before the fix-up: 3 took 2's place and colour, and 2's
      left child; 2 is out of the tree but keeps its links. 4's parent link names 2 as
      written, and 3 when repaired. */
  function WithoutTwo(e: Edition, c4: Color): RbTree<int> {
    RbTree([Node(1, 0, Black, Ptr(2), Null, Null), Node(2, 0, Black, Null, Ptr(0), Ptr(2)),
            Node(3, 0, Black, Null, Ptr(0), Ptr(3)),
            Node(4, 0, c4, if e == AsWritten then Ptr(1) else Ptr(2), Null, Null)], Ptr(2), 3)
  }

  /** Deleting 2: its successor 3 is its own right child, so only 4's parent link is
      written, and the fix-up, which finds the Red node 4 in the slot, just blackens it. */
  lemma DeleteTwo(e: Edition)
    ensures WellLinked(Four()) && Delete(Four(), 2, e) == Ok(WithoutTwo(e, Black))
  {
    if e == AsWritten {
      DeleteTwoWritten();
    } else {
      DeleteTwoRepaired();
    }
  }

  lemma DeleteTwoWritten()
    ensures WellLinked(Four()) && Delete(Four(), 2, AsWritten) == Ok(WithoutTwo(AsWritten, Black))
  {
    SearchTwo();
    UnlinkTwoOfFour(AsWritten);
    BlackenFour();
    WrittenSteps(Four(), 2, 1, (WithoutTwo(AsWritten, Red), Ptr(3), Black), Ok(WithoutTwo(AsWritten, Black)));
  }

  lemma DeleteTwoRepaired()
    ensures WellLinked(Four()) && Delete(Four(), 2, Repaired) == Ok(WithoutTwo(Repaired, Black))
  {
    SearchTwo();
    UnlinkTwoOfFour(Repaired);
    VacatedTwo();
    SlotBlackenFour();
    RepairedSteps(Four(), 2, 1, (WithoutTwo(Repaired, Red), Ptr(3), Black), (Ptr(2), Right), Ok(WithoutTwo(Repaired, Black)));
  }

  /** The repaired `delete` of a key whose node unlinks Black, step by step. */
  lemma RepairedSteps<V>(t: RbTree<V>, k: int, z: nat, u: (RbTree<V>, Ptr, Color), v: (Ptr, Dir), r: Result<RbTree<V>>)
    requires WellLinked(t) && Search(t, k) == Ptr(z) && z in Indices(Abs(t)) && z < |t.nodes|
    requires Unlink(t, z, Repaired) == u && u.2 == Black && Vacated(t, z) == v
    requires Closed(u.0) && InArena(u.0.nodes, v.0) && SlotFixup(u.0, v.0, v.1, |u.0.nodes|) == r
    ensures Delete(t, k, Repaired) == r
  {
  }

  lemma BlackenFour()
    requires Closed(WithoutTwo(AsWritten, Red))
    ensures DeleteFixup(WithoutTwo(AsWritten, Red), Ptr(3), 4) == Ok(WithoutTwo(AsWritten, Black))
  {
    assert SetColor(WithoutTwo(AsWritten, Red), Ptr(3), Black) == WithoutTwo(AsWritten, Black);
  }

  lemma SlotBlackenFour()
    requires Closed(WithoutTwo(Repaired, Red))
    ensures SlotFixup(WithoutTwo(Repaired, Red), Ptr(2), Right, 4) == Ok(WithoutTwo(Repaired, Black))
  {
    assert SetColor(WithoutTwo(Repaired, Red), Ptr(3), Black) == WithoutTwo(Repaired, Black);
  }

  /** The repaired fix-up after deleting 2 starts from the right slot of 3, 2's successor. */
  lemma VacatedTwo()
    ensures WellLinked(Four()) && 1 in Indices(Abs(Four())) && Vacated(Four(), 1) == (Ptr(2), Right)
  {
    FourValid();
    assert Successor(Four(), 1) == 2;
  }

  lemma SearchTwo()
    ensures WellLinked(Four()) && Search(Four(), 2) == Ptr(1)
  {
    FourValid();
  }

  /** Unlinking 2, which has two children: 3 is its successor. */
  lemma UnlinkTwoOfFour(e: Edition)
    ensures WellLinked(Four()) && 1 in Indices(Abs(Four()))
    ensures Unlink(Four(), 1, e) == (WithoutTwo(e, Red), Ptr(3), Black)
  {
    FourValid();
    assert Successor(Four(), 1) == 2;
    var t := Four();
    var d := t.(nodes := t.nodes[3 := t.nodes[3].(parent := if e == AsWritten then Ptr(1) else Ptr(2))]);
    assert Detach(t, 1, 2, e) == d;
    GraftTwoOfFour(d, e);
  }

  lemma GraftTwoOfFour(d: RbTree<int>, e: Edition)
    requires d == Four().(nodes := Four().nodes[3 := Four().nodes[3].(parent := if e == AsWritten then Ptr(1) else Ptr(2))])
    ensures Closed(d) && Graft(d, 1, 2) == WithoutTwo(e, Red).(length := 4)
  {
    var t2 := d.(nodes := d.nodes[2 := d.nodes[2].(parent := Null)], root := Ptr(2));
    assert Transplant(d, 1, Ptr(2)) == t2;
    var t3 := t2.(nodes := t2.nodes[2 := t2.nodes[2].(left := Ptr(0))][0 := t2.nodes[0].(parent := Ptr(2))]);
    assert Adopt(t2, 2, Left, Ptr(0)) == t3;
    assert t3 == WithoutTwo(e, Red).(length := 4);
  }

  /** The shape of `WithoutTwo(e, c)`: 3 at the root over 1 and 4. */
  function ThreeShape(): Shape {
    Branch(Branch(Leaf, 0, Leaf), 2, Branch(Leaf, 3, Leaf))
  }

  lemma WithoutTwoLinked(e: Edition)
    ensures WellLinked(WithoutTwo(e, Black)) && Abs(WithoutTwo(e, Black)) == ThreeShape()
  {
    var nodes := WithoutTwo(e, Black).nodes;
    assert Closed(WithoutTwo(e, Black));
    assert nodes[3].left == Null && nodes[3].right == Null && nodes[0].left == Null && nodes[0].right == Null;
    assert Indices(Leaf) == {};
    assert Indices(Branch(Leaf, 0, Leaf)) == {0} && Indices(Branch(Leaf, 3, Leaf)) == {3};
    assert Links(nodes, Branch(Leaf, 0, Leaf));
    assert Links(nodes, Branch(Leaf, 3, Leaf));
    assert Links(nodes, ThreeShape());
    AbsIs(WithoutTwo(e, Black), ThreeShape());
  }

  /** `WithoutTwo(e, Black)` after 4 is unlinked: 4 has no children, so the slot that names
      it in its parent is cleared. As written that parent link still names 2, which is out
      of the tree, so 2's right slot is cleared and 3 keeps 4 as its child. */
  function FourUnlinked(e: Edition): RbTree<int> {
    var w := WithoutTwo(e, Black);
    var p := if e == AsWritten then 1 else 2;
    w.(nodes := w.nodes[p := w.nodes[p].(right := Null)], length := 2)
  }

  /** The tree after 4 is deleted. As written the fix-up, handed no node, stops at once;
      repaired it finds 3's emptied right slot one Black node short, and case 2 turns 1 Red. */
  function WithoutFour(e: Edition): RbTree<int> {
    var u := FourUnlinked(e);
    if e == AsWritten then u else u.(nodes := u.nodes[0 := u.nodes[0].(color := Red)])
  }

  lemma DeleteFour(e: Edition)
    ensures WellLinked(WithoutTwo(e, Black)) && Delete(WithoutTwo(e, Black), 4, e) == Ok(WithoutFour(e))
  {
    WithoutTwoLinked(e);
    var w := WithoutTwo(e, Black);
    assert Search(w, 4) == Ptr(3);
    UnlinkFour(e);
    if e == Repaired {
      assert Vacated(w, 3) == (Ptr(2), Right);
      FourSlotFixup();
    }
  }

  lemma UnlinkFour(e: Edition)
    requires WellLinked(WithoutTwo(e, Black)) && Abs(WithoutTwo(e, Black)) == ThreeShape()
    ensures 3 in Indices(Abs(WithoutTwo(e, Black)))
    ensures Unlink(WithoutTwo(e, Black), 3, e) == (FourUnlinked(e), Null, Black)
  {
    var w := WithoutTwo(e, Black);
    var p := if e == AsWritten then 1 else 2;
    assert Transplant(w, 3, Null) == w.(nodes := w.nodes[p := w.nodes[p].(right := Null)]);
  }

  /** The repaired fix-up from 3's empty right slot: the sibling 1 is Black with no children,
      so case 2 turns it Red and moves to the root slot, where 3 is painted Black. */
  lemma FourSlotFixup()
    ensures Closed(FourUnlinked(Repaired))
    ensures SlotFixup(FourUnlinked(Repaired), Ptr(2), Right, 4) == Ok(WithoutFour(Repaired))
  {
    var u := FourUnlinked(Repaired);
    assert Closed(u);
    var t1 := SetColor(u, Ptr(0), Red);
    assert t1 == WithoutFour(Repaired);
    assert SlotStep(u, 2, Right) == Ok((t1, Null, SlotOf(t1.nodes, 2).1));
    assert SetColor(t1, Ptr(2), Black) == t1;
  }

  /** As written, after deleting 2 and then 4 from `Four()`, the counter says two entries
      are left but three nodes are still reachable, and 4 is still found. */
  lemma StaleParentKeepsKey()
    ensures Delete(Four(), 2, AsWritten) == Ok(WithoutTwo(AsWritten, Black))
    ensures WellLinked(WithoutTwo(AsWritten, Black))
    ensures Delete(WithoutTwo(AsWritten, Black), 4, AsWritten) == Ok(WithoutFour(AsWritten))
    ensures WellLinked(WithoutFour(AsWritten)) && Search(WithoutFour(AsWritten), 4) == Ptr(3)
    ensures WithoutFour(AsWritten).length == 2 && |Items(WithoutFour(AsWritten))| == 3
    ensures !Valid(WithoutFour(AsWritten))
  {
    DeleteTwo(AsWritten);
    DeleteFour(AsWritten);
    StaleResult();
  }

  lemma StaleResult()
    ensures WellLinked(WithoutFour(AsWritten)) && Search(WithoutFour(AsWritten), 4) == Ptr(3)
    ensures |Items(WithoutFour(AsWritten))| == 3 && !Valid(WithoutFour(AsWritten))
  {
    StaleLinked();
    var t := WithoutFour(AsWritten);
    assert Search(t, 4) == Ptr(3);
    ItemsCount(t.nodes, ThreeShape());
    assert Indices(ThreeShape()) == {0, 2, 3};
  }

  lemma StaleLinked()
    ensures WellLinked(WithoutFour(AsWritten)) && Abs(WithoutFour(AsWritten)) == ThreeShape()
  {
    var t := WithoutFour(AsWritten);
    assert Closed(t);
    assert Indices(Branch(Leaf, 0, Leaf)) == {0} && Indices(Branch(Leaf, 3, Leaf)) == {3};
    assert Links(t.nodes, ThreeShape());
    AbsIs(t, ThreeShape());
  }

  /** Repaired, the same two deletions leave a red-black tree of 1 and 3 in which 4 is not
      found. */
  lemma RepairedDropsKey()
    ensures Delete(Four(), 2, Repaired) == Ok(WithoutTwo(Repaired, Black))
    ensures WellLinked(WithoutTwo(Repaired, Black))
    ensures Delete(WithoutTwo(Repaired, Black), 4, Repaired) == Ok(WithoutFour(Repaired))
    ensures Valid(WithoutFour(Repaired)) && Search(WithoutFour(Repaired), 4) == Null
    ensures Items(WithoutFour(Repaired)) == [(1, 0), (3, 0)]
    ensures RedBlack(WithoutFour(Repaired))
  {
    DeleteTwo(Repaired);
    DeleteFour(Repaired);
    RepairedResult();
    RepairedStaysRedBlack();
  }

  /** A repaired deletion from a red-black tree gives a red-black tree. */
  lemma DeletedRedBlack(t: RbTree<int>, k: int, r: RbTree<int>)
    requires Valid(t) && RedBlack(t) && Delete(t, k, Repaired) == Ok(r)
    ensures Valid(r) && RedBlack(r)
  {
    DeleteKeepsRedBlack(t, k);
    DeleteCorrect(t, k);
  }

  lemma RepairedStaysRedBlack()
    ensures RedBlack(WithoutFour(Repaired))
  {
    FourValid();
    FourRedBlack();
    DeleteTwo(Repaired);
    DeletedRedBlack(Four(), 2, WithoutTwo(Repaired, Black));
    DeleteFour(Repaired);
    DeletedRedBlack(WithoutTwo(Repaired, Black), 4, WithoutFour(Repaired));
  }

  lemma RepairedResult()
    ensures Valid(WithoutFour(Repaired)) && Search(WithoutFour(Repaired), 4) == Null
    ensures Items(WithoutFour(Repaired)) == [(1, 0), (3, 0)]
  {
    RepairedValid();
    assert Search(WithoutFour(Repaired), 4) == Null;
    assert InOrder(Branch(Branch(Leaf, 0, Leaf), 2, Leaf)) == [0, 2];
  }

  lemma RepairedValid()
    ensures Valid(WithoutFour(Repaired)) && Abs(WithoutFour(Repaired)) == Branch(Branch(Leaf, 0, Leaf), 2, Leaf)
  {
    var t := WithoutFour(Repaired);
    var s := Branch(Branch(Leaf, 0, Leaf), 2, Leaf);
    assert Closed(t);
    assert Links(t.nodes, s);
    assert Parents(t.nodes, s, Null);
    assert Indices(s) == {0, 2};
    LiteralTree(t, s);
  }

  // ---------------------------------------------------------------- a Black leaf deleted

  /** `Four()` after 1 is deleted as written: 1 was a Black leaf, so 2's left slot is
      emptied, and the fix-up, handed the empty slot, stops at once. 1 is out of the tree but
      keeps its links. */
  function WithoutOne(): RbTree<int> {
    RbTree([Node(1, 0, Black, Ptr(1), Null, Null), Node(2, 0, Black, Null, Null, Ptr(2)),
            Node(3, 0, Black, Ptr(1), Null, Ptr(3)), Node(4, 0, Red, Ptr(2), Null, Null)], Ptr(1), 3)
  }

  /** The shape of `WithoutOne()`: 2 at the root, 3 to its right, 4 to the right of 3. */
  function SpineShape(): Shape {
    Branch(Leaf, 1, Branch(Leaf, 2, Branch(Leaf, 3, Leaf)))
  }

  /** Deleting the Black leaf 1 from the red-black tree `Four()` leaves a valid search tree
      in which the path to 2's empty left slot passes one Black node and the path to 4's
      slots two: the fix-up's early exit on an empty slot skips the repair. */
  lemma BlackLeafUnbalances()
    ensures RedBlack(Four())
    ensures WellLinked(Four()) && Delete(Four(), 1, AsWritten) == Ok(WithoutOne())
    ensures Valid(WithoutOne()) && Abs(WithoutOne()) == SpineShape()
    ensures !Balanced(WithoutOne().nodes, Abs(WithoutOne()))
  {
    FourRedBlack();
    DeleteOne();
    SpineValid();
    var nodes := WithoutOne().nodes;
    assert BlackHeight(nodes, SpineShape()) == 1;
    assert !BlackPaths(nodes, Branch(Leaf, 2, Branch(Leaf, 3, Leaf)), 0);
  }

  lemma FourRedBlack()
    ensures RedBlack(Four())
  {
    FourValid();
    FourBalanced(Four().nodes);
    FourNoRedRed();
  }

  /** Every path of `Four()` passes two Black nodes. */
  lemma FourBalanced(nodes: seq<Node<int>>)
    requires nodes == Four().nodes
    ensures Balanced(nodes, FourShape())
  {
    assert BlackHeight(nodes, FourShape()) == 2;
    assert BlackPaths(nodes, Branch(Leaf, 2, Branch(Leaf, 3, Leaf)), 1);
  }

  /** The only Red node of `Four()`, 4, has no children. */
  lemma FourNoRedRed()
    ensures NoRedRed(Four())
  {
    FourValid();
    FourLinks();
    var nodes := Four().nodes;
    assert forall j :: j in Indices(FourShape()) && IsRed(nodes, Ptr(j)) ==> j == 3;
  }

  lemma DeleteOne()
    ensures WellLinked(Four()) && Delete(Four(), 1, AsWritten) == Ok(WithoutOne())
  {
    SearchOne();
    UnlinkOne();
    assert Closed(WithoutOne());
    WrittenSteps(Four(), 1, 0, (WithoutOne(), Null, Black), Ok(WithoutOne()));
  }

  lemma SearchOne()
    ensures WellLinked(Four()) && Search(Four(), 1) == Ptr(0) && 0 in Indices(Abs(Four()))
  {
    FourValid();
    FourLinks();
  }

  /** Unlinking 1, a leaf: its parent's left slot is emptied. */
  lemma UnlinkOne()
    ensures WellLinked(Four()) && Unlink(Four(), 0, AsWritten) == (WithoutOne(), Null, Black)
  {
    FourValid();
    assert Transplant(Four(), 0, Null) == WithoutOne().(length := 4);
  }

  /** The `delete` as written of a key whose node unlinks Black, step by step. */
  lemma WrittenSteps<V>(t: RbTree<V>, k: int, z: nat, u: (RbTree<V>, Ptr, Color), r: Result<RbTree<V>>)
    requires WellLinked(t) && Search(t, k) == Ptr(z) && z in Indices(Abs(t)) && z < |t.nodes|
    requires Unlink(t, z, AsWritten) == u && u.2 == Black
    requires Closed(u.0) && InArena(u.0.nodes, u.1) && DeleteFixup(u.0, u.1, |u.0.nodes|) == r
    ensures Delete(t, k, AsWritten) == r
  {
  }

  /** Repaired, deleting the Black leaf 1 from `Four()` leaves a red-black tree: the fix-up
      starts from 2's emptied left slot, finds the sibling 3 with the Red far child 4, and
      case 4 rotates 3 up to the root. */
  lemma RepairedBlackLeaf()
    ensures Valid(Four()) && RedBlack(Four())
    ensures Delete(Four(), 1, Repaired).Ok? && RedBlack(Delete(Four(), 1, Repaired).value)
    ensures Items(Delete(Four(), 1, Repaired).value) == [(2, 0), (3, 0), (4, 0)]
  {
    FourValid();
    FourRedBlack();
    FourOrdered();
    KeysFour();
    LeastOfFour(Four());
  }

  /** Deleting 1 from any red-black tree holding the entries 1 to 4 leaves a red-black tree
      of 2, 3 and 4. */
  lemma LeastOfFour(t: RbTree<int>)
    requires Valid(t) && RedBlack(t) && Ordered(t) && Items(t) == [(1, 0), (2, 0), (3, 0), (4, 0)]
    requires Keys(Items(t)) == [1, 2, 3, 4]
    ensures Delete(t, 1, Repaired).Ok? && RedBlack(Delete(t, 1, Repaired).value)
    ensures Items(Delete(t, 1, Repaired).value) == [(2, 0), (3, 0), (4, 0)]
  {
    DeleteKeepsRedBlack(t, 1);
    LeastOut(t, Delete(t, 1, Repaired).value);
  }

  /** Deleting the key 1 from the entries 1 to 4 leaves 2, 3 and 4. */
  lemma LeastOut(t: RbTree<int>, r: RbTree<int>)
    requires Valid(t) && Ordered(t) && Items(t) == [(1, 0), (2, 0), (3, 0), (4, 0)]
    requires Keys(Items(t)) == [1, 2, 3, 4] && Delete(t, 1, Repaired) == Ok(r)
    ensures Items(r) == [(2, 0), (3, 0), (4, 0)]
  {
    assert 1 in Keys(Items(t));
    DeleteCorrect(t, 1);
    var items := Items(t);
    assert items[1..] == [(2, 0), (3, 0), (4, 0)];
    DeletedFirst(items, Items(r), 1);
  }

  /** Deleting a key that only the first entry holds drops that entry. */
  lemma DeletedFirst<V>(before: seq<(int, V)>, after: seq<(int, V)>, k: int)
    requires DeletedKey(before, after, k) && |before| > 0 && before[0].0 == k
    requires forall p :: p in before[1..] ==> p.0 != k
    ensures after == before[1..]
  {
    var m: nat :| DeletedAt(before, after, m) && before[m].0 == k;
  }

  lemma SpineValid()
    ensures Valid(WithoutOne()) && Abs(WithoutOne()) == SpineShape()
  {
    var t := WithoutOne();
    var s := SpineShape();
    assert Closed(t);
    assert Indices(Branch(Leaf, 3, Leaf)) == {3} && Indices(Branch(Leaf, 2, Branch(Leaf, 3, Leaf))) == {2, 3};
    assert Links(t.nodes, s);
    assert Parents(t.nodes, s, Null);
    assert Indices(s) == {1, 2, 3};
    LiteralTree(t, s);
  }
}
