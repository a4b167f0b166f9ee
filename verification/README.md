# murmur_hash_rust in Dafny

A model of the three core parts of the `murmur_hash_rust` crate, with proofs about them.

- **The hash (`Murmur`).** `hash_mumur3` is a MurmurHash3 x64_128 variant: two 64-bit
  lanes, 16-byte blocks, a tail ladder, and the `fmix64` avalanche. `hash_anything` feeds
  it the `bincode` bytes of a key. All lane arithmetic is modulo 2^64, written with
  `bv64`.
- **The red-black tree (`RbArena`, `RbShape`, `RbRotate`, `RbQuery`, `RbInsert`,
  `RbDelete`, `RbFixup`, `RbRemove`).**
  - The `Rc<RefCell<RbNode>>` graph is an arena `seq<Node<V>>`. Child and parent links
    are `Ptr` indices into it.
  - A ghost `Shape` is the abstract tree the links spell out.
  - `Items(t)` is the in-order entry sequence, which is what `iter` yields.
  - Every `unwrap`/`expect` that can fail is an `Err(Fault)` outcome.
  - `in_fix_up` and `delete_fixup` are modelled one loop iteration per call. Each gets
    a fuel bound, and running out of fuel is an `Err` as well.
  - Both the code as written (`Edition.AsWritten`) and a repaired edition
    (`Edition.Repaired`) are modelled. The two differ in the three places listed under
    Findings.
  - The colour rules (`RbColor.RedBlack`: a Black root, no Red node with a Red child, and
    as many Black nodes on every path from the root to an empty slot) are proved kept by
    the repaired insert (`RbInsertColor`) and the repaired delete (`RbPaths`,
    `RbFixupColor`, `RbDeleteColor`).
- **The bucketed map (`HashDict`, `KeySort`).**
  - `HashDict` is a table of `arr_length` trees. A key goes to bucket
    `hash_anything(key, seed) % arr_length`.
  - `tab_length` is a counter kept next to the trees.
  - `iter` gathers every bucket's entries (`stack_items`) and applies a stable sort by key.
  - The map uses the repaired tree.

`HashDict.Sound` is the invariant every map operation keeps:
- the table is not empty and has `arr_length` buckets;
- every bucket is a valid, key-ordered tree that keeps the colour rules;
- every key sits in the bucket it routes to;
- the counter equals the number of entries.

`HashDict.Contents` is the entry sequence that `stack_items` collects.

Where the code departs from the published algorithms it follows, the model follows the
code:
- **Insert fix-up (src/rb_tree.rs:279-292 and its mirror).** In the textbook
  RB-INSERT-FIXUP (Cormen et al., *Introduction to Algorithms*, chapter 13), case 3
  recolours the current parent of `z`. The code recolours the node it saved as the parent
  before the case-2 rotation. See Findings.
- **Delete fix-up when `x` is empty.** The textbook RB-DELETE-FIXUP uses a sentinel leaf
  that carries a parent, so it goes on rebalancing from an empty slot. The code leaves the
  loop at once when `x` is empty (src/rb_tree.rs:513-515). `RbFixup.DeleteFixup` does the
  same; the repaired `RbFixup.SlotFixup` tracks the slot instead. See Findings.
- **Blocks-only input.** Appleby's MurmurHash3_x64_128 finalises every input. For input
  whose length is a multiple of 16, the code returns the literal 1 instead
  (src/murmur.rs:133). The model reproduces the code (`Murmur.Hash`, proved in
  `Murmur.MultipleOf16IsOne`), and the map routes with it. `Murmur.Reference` is Appleby's
  algorithm, and `Murmur.HashAgreesWithReference` proves the two agree on every other
  input.

## Model

| member | source | states |
|---|---|---|
| Murmur.InitLanes | src/murmur.rs:19-20 | both lanes start equal, holding the 32-bit seed in their low half and zero above it |
| Murmur.TailK1IsLittleEndian | src/murmur.rs:85-109 | the `k1` tail ladder of a short chunk is the little-endian value of its first (up to) eight bytes |
| Murmur.TailK2IsLittleEndian | src/murmur.rs:59-78 | the `k2` tail ladder of a chunk of 9 to 15 bytes is the little-endian value of its bytes from position 8 on |
| Murmur.WholeBlocksFallThrough | src/murmur.rs:26-50 | when the bytes left are a whole number of blocks, the chunk loop never takes the short-chunk branch |
| Murmur.MultipleOf16IsOne | src/murmur.rs:26-133 | every input whose length is a multiple of 16, the empty input included, hashes to 1 whatever its bytes and seed |
| Murmur.ChunkLoopFollowsReference | src/murmur.rs:26-131 | on a length that is not a multiple of 16, the chunk loop returns the reference lanes and the full byte count |
| Murmur.HashAgreesWithReference | src/murmur.rs:15-131 | on every length that is not a multiple of 16, the hash equals Appleby's MurmurHash3_x64_128 |
| Murmur.EmptyInputDeviates | src/murmur.rs:133 | the empty input hashes to 1, while the reference algorithm gives 0 for it with seed 0 |
| Murmur.HashAnythingIsReference | src/murmur.rs:10-13 | the hash of a 32-bit key is the reference hash of its four `bincode` bytes |
| RbArena.SetColor | src/rb_tree.rs:412-416 | only the named node changes colour, an empty pointer changes nothing, and links and entries stay |
| RbQuery.New | src/rb_tree.rs:32-37 | the new tree is valid, holds no entries, counts 0 and has a Black (absent) root |
| RbQuery.Clear | src/rb_tree.rs:134-138 | after clearing, the tree is valid, empty and counts 0 |
| RbQuery.SearchFrom | src/rb_tree.rs:160-172 | a node the descent returns lies in the subtree and carries the key |
| RbQuery.SearchFinds | src/rb_tree.rs:160-172 | in a key-ordered subtree, the descent finds every key that is present |
| RbQuery.Search | src/rb_tree.rs:160-172 | a found node carries the key, and in a key-ordered tree a node is found exactly when the key is among the entries |
| RbQuery.Get | src/rb_tree.rs:140-148 | a returned value is paired with the key among the entries, and in a key-ordered tree there is one exactly when the key is present |
| RbQuery.KeyExist | src/rb_tree.rs:130-132 | true only for a present key, and in a key-ordered tree for every present key |
| RbQuery.Len | src/rb_tree.rs:150-152 | in a valid tree the counter is the number of entries |
| RbQuery.InorderFrom | src/rb_tree.rs:641-649 | the recursion appends the subtree's entries in in-order to what was collected |
| RbQuery.Iter | src/rb_tree.rs:651-662 | `iter` yields the tree's in-order entries, as many as the counter in a valid tree, key-sorted in a key-ordered tree |
| RbQuery.FindMin | src/rb_tree.rs:354-361 | the node reached has no left child and nothing precedes it in in-order |
| RbRotate.Rotate | src/rb_tree.rs:175-245 | a rotation fails (the `unwrap` at 176/212) exactly when the child to lift is missing, and otherwise only relinks nodes |
| RbRotate.RotateValid | src/rb_tree.rs:175-245 | on a valid tree, the rotation puts the rotated subtree in place and keeps the tree valid, its nodes, its in-order and its entries |
| RbRotate.RotateLocal | src/rb_tree.rs:175-245 | the relinked arena spells out the rotated subtree under the same parent |
| RbInsert.InsertionParent | src/rb_tree.rs:42-52 | the descent ends at a node of a non-empty tree, or with no parent in an empty one |
| RbInsert.Attach | src/rb_tree.rs:39-65 | the new node is appended with the key and value, and every old entry and the count plus one are kept |
| RbInsert.AttachValid | src/rb_tree.rs:54-65 | the new node hangs where the descent ended, so the tree stays valid with one more node |
| RbInsert.AttachItems | src/rb_tree.rs:45-61 | the new entry lands in in-order between the entries the descent passed on its left and those on its right |
| RbInsert.InsertOrdered | src/rb_tree.rs:47-61 | in a key-ordered tree that split falls at the key, so the tree stays key-ordered |
| RbInsert.PushBlack | src/rb_tree.rs:272-276 | case 1 makes the grandparent Red and the parent and uncle Black, and changes no other node |
| RbInsert.InFixUp | src/rb_tree.rs:251-326 | a fix-up that does not fail ends with a Black root and the same entries |
| RbInsert.InFixUpCorrect | src/rb_tree.rs:251-326 | the repaired fix-up from a valid tree never fails and leaves a valid tree with a Black root, the same nodes and the same in-order entries |
| RbInsert.Insert | src/rb_tree.rs:39-71 | a successful insert has one node more, holding the key and value, a Black root, and the count plus one |
| RbInsert.InsertCorrect | src/rb_tree.rs:39-71 | on a valid tree with a Black root, the repaired insert succeeds and splices the entry into the in-order entries. That place is after every smaller-or-equal key when the tree is key-ordered. The tree stays valid, Black-rooted and key-ordered, and the count goes up by one |
| RbDelete.IsLeftChild | src/rb_tree.rs:375-384 | true exactly when the node has a parent whose left link names it |
| RbDelete.Sibling | src/rb_tree.rs:387-395 | no sibling without a parent; otherwise the parent's child on the other side |
| RbDelete.Transplant | src/rb_tree.rs:329-352 | `rb_transplant` only relinks, keeping every entry and the count |
| RbDelete.TransplantShape | src/rb_tree.rs:329-352 | replacing a node with at most one child by its only subtree gives a linked tree of the replaced shape |
| RbDelete.Successor | src/rb_tree.rs:86 | the successor is the node of the right subtree with no left child and nothing before it |
| RbDelete.Unlink | src/rb_tree.rs:73-112 | splicing out a node keeps every entry in the arena and counts one fewer |
| RbDelete.UnlinkOneSide | src/rb_tree.rs:79-84 | a node with at most one child leaves the tree, and the in-order loses exactly that node |
| RbDelete.UnlinkTwo | src/rb_tree.rs:85-111 | with the repaired parent link, a node with two children is replaced by its successor and the in-order loses exactly that node |
| RbFixup.DeleteFixup | src/rb_tree.rs:418-520 | a fix-up that does not fail keeps every entry and the count |
| RbFixup.DeleteFixupReshapes | src/rb_tree.rs:418-520 | a fix-up that does not fail leaves a valid tree with the same nodes in the same in-order |
| RbFixup.DeleteFixupRoot | src/rb_tree.rs:418-520 | a fix-up that does not fail leaves a Black root |
| RbFixup.SlotFixup | src/rb_tree.rs:418-520 | the repaired fix-up, run from a slot, keeps every entry and the count when it does not fail |
| RbFixup.SlotFixupReshapes | src/rb_tree.rs:418-520 | the repaired fix-up that does not fail leaves a valid tree with the same nodes in the same in-order |
| RbFixup.SlotFixupRoot | src/rb_tree.rs:418-520 | the repaired fix-up that does not fail leaves a Black root, from a Black root or an `x` at the root |
| RbRemove.Delete | src/rb_tree.rs:73-128 | an absent key leaves the tree alone, and a successful delete of a found key counts one fewer and keeps the arena's entries |
| RbRemove.Vacated | src/rb_tree.rs:79-111 | the slot the removed node leaves, where `x` now sits, hangs from a node of the arena (or is the root slot) |
| RbRemove.VacatedSlot | src/rb_tree.rs:79-111 | after the repaired splice, that slot hangs from a node of the tree and holds the `x` the splice reports |
| RbRemove.UnlinkValid | src/rb_tree.rs:73-112 | the repaired splice keeps the tree valid and drops exactly the found node from the in-order |
| RbRemove.DeletedSorted | src/rb_tree.rs:73-128 | dropping one entry keeps key-sorted entries key-sorted |
| RbRemove.DeleteReshapes | src/rb_tree.rs:113-128 | a found key's repaired fix-up, when it does not fail, reshapes the unlinked tree and keeps a Black root Black |
| RbRemove.DeleteCorrect | src/rb_tree.rs:73-128 | on a valid tree, an absent key leaves it alone. When the delete succeeds, the tree is valid, counts one fewer and has lost exactly one entry with the key, and a Black root and key order are kept |
| RbColor.NoRedRedByParents | src/rb_tree.rs:252-256 | in a linked tree, no Red node has a Red child exactly when no Red node has a Red parent, the form the loop test of `in_fix_up` reads |
| RbInsertColor.AttachKeeps | src/rb_tree.rs:39-67 | hanging the new Red node where the descent ended keeps every path's count of Black nodes, and the new node is the only Red node under a Red parent: the loop of `in_fix_up` starts with its invariant |
| RbInsertColor.PushBlackKeeps | src/rb_tree.rs:270-276 | case 1 (Red uncle) keeps every path's count of Black nodes and moves the only possible Red-under-Red node up to the grandparent, where the loop goes on |
| RbInsertColor.StraightenKeeps | src/rb_tree.rs:277-287 | case 2 turns `z` into the outer grandchild of the same grandparent, under a Red parent with a non-Red uncle, keeping black height and the single Red-under-Red node |
| RbInsertColor.LiftBalanced | src/rb_tree.rs:289-292 | the repaired case 3, recolouring the current parent and rotating at the grandparent, keeps every path's count of Black nodes |
| RbInsertColor.LiftRed | src/rb_tree.rs:289-292 | after the repaired case 3, no node other than `z` is Red under a Red parent |
| RbInsertColor.LiftKeeps | src/rb_tree.rs:289-326 | after the repaired case 3 the loop stops, and blackening the root leaves a red-black tree |
| RbInsertColor.ExitRedBlack | src/rb_tree.rs:252-324 | when the loop stops because `z`'s parent is missing or not Red, blackening the root leaves no Red node with a Red child, balanced paths and a Black root |
| RbInsertColor.InFixUpKeepsColors | src/rb_tree.rs:251-326 | from the loop invariant, the repaired fix-up finishes within the depth of `z` as fuel and leaves a red-black tree |
| RbInsertColor.InsertKeepsRedBlack | src/rb_tree.rs:39-71 | the repaired insert into a red-black tree succeeds and leaves a red-black tree: a Black root, no Red node with a Red child, and as many Black nodes on every path from the root to an empty slot |
| RbFixupColor.SlotFixupKeepsColors | src/rb_tree.rs:418-521 | from the textbook loop invariant (every path through the slot one Black node short, Red-under-Red only next to `x`, a Black root unless `x` is the root), the repaired fix-up finishes within its fuel and leaves a red-black tree |
| RbDeleteColor.UnlinkReady | src/rb_tree.rs:73-112 | unlinking any node of a red-black tree leaves only `x` free to break the Red rule. When a Black node left, the paths through the vacated slot pass one Black node fewer than the tree's black height; when a Red node left, every path keeps it |
| RbDeleteColor.UnlinkStarts | src/rb_tree.rs:113-121 | when a Black node left, the fix-up's invariant holds at the vacated slot with fuel for the whole climb; when a Red node left, the tree is already red-black |
| RbDeleteColor.DeleteKeepsRedBlack | src/rb_tree.rs:73-128 | the repaired delete of any key from a red-black tree never fails and leaves a red-black tree |
| RbFindings.BlackLeafUnbalances | src/rb_tree.rs:513-515 | as written, deleting 1 from the red-black tree built by inserting 1, 2, 3, 4 leaves a valid tree whose paths pass one Black node on the left and two on the right |
| RbFindings.RepairedBlackLeaf | src/rb_tree.rs:513-515 | repaired, the same delete leaves a red-black tree holding exactly 2, 3 and 4 |
| RbFindings.ZigZagPanics | src/rb_tree.rs:279-292 | as written, inserting 2 into the tree built from 3 then 1 reaches the `unwrap` of a missing grandparent |
| RbFindings.ZigZagRepaired | src/rb_tree.rs:279-292 | with the current parent recoloured, the same insert succeeds |
| RbFindings.StaleParentKeepsKey | src/rb_tree.rs:95-97 | as written, deleting 2 and then 4 from the tree of 1, 2, 3, 4 counts two entries, leaves three reachable, still finds 4 and leaves an invalid tree |
| RbFindings.RepairedDropsKey | src/rb_tree.rs:95-97 | repaired, the same deletions leave a valid tree of exactly 1 and 3 in which 4 is not found |
| KeySort.KeySortedIsSorted | src/hash_dict.rs:102 | key order of the pairs is sortedness of their keys, both ways |
| KeySort.SortByKey | src/hash_dict.rs:102 | the sort permutes its input into key order |
| KeySort.SortByKeyStable | src/hash_dict.rs:102 | the sort is stable: for every key, the entries with that key keep their relative order |
| HashDict.Route | src/hash_dict.rs:29-30 | the bucket index is below the table length |
| HashDict.RouteIsMurmur3 | src/hash_dict.rs:29-30 | the bucket is Appleby's MurmurHash3 of the key's bytes modulo the table length |
| HashDict.RoutedKey | src/hash_dict.rs:39-47 | in a sound map a key is present exactly when its own bucket holds it, and no other bucket holds it |
| HashDict.New | src/hash_dict.rs:14-25 | `len` empty buckets, counter 0, no entries; sound when `len` is positive |
| HashDict.Insert | src/hash_dict.rs:27-37 | the map stays sound and the counter goes up by one. The pair is spliced into the entries, and only the key's bucket changes |
| HashDict.Get | src/hash_dict.rs:39-47 | a value is returned exactly when the key is in the map, and it is paired with the key there |
| HashDict.KeyExistStep | src/hash_dict.rs:53 | `key_exist` in the key's bucket says exactly whether the map holds the key |
| HashDict.Delete | src/hash_dict.rs:49-59 | the delete never fails on a sound map. An absent key leaves the map as it was. The map stays sound and only the key's bucket changes. A present key loses exactly one entry and the counter goes down by one |
| HashDict.DeletePresent | src/hash_dict.rs:53-56 | the tree delete in the bucket of a present key never fails; put in place, it drops one entry with the key and decrements the counter |
| HashDict.Pop | src/hash_dict.rs:61-67 | `pop` never fails and keeps the map sound. An absent key gives nothing and leaves the map alone. A present key gives one of its values from the map, and one entry with the key leaves it |
| HashDict.Len | src/hash_dict.rs:69-71 | the counter is the number of entries and the sum of the buckets' own counters |
| HashDict.GetMut | src/hash_dict.rs:73-81 | the bucket handed the closure is the only one that can hold the key |
| HashDict.StackItems | src/hash_dict.rs:90-98 | the loop collects every bucket's in-order entries, bucket after bucket |
| HashDict.Iter | src/hash_dict.rs:100-106 | every entry of the map appears exactly once, in key order, with each key's entries in their bucket's order, and as many as `len()` counts |
| HashDict.GetAfterInsert | src/hash_dict.rs:27-47 | after inserting a key the map did not hold, `get` returns the inserted value |
| HashDict.PopLastCopy | src/hash_dict.rs:61-67 | popping the only entry with a key succeeds and leaves `get` returning nothing for it |

## Left out

- `bincode` is not part of this model. Keys are 32-bit integers (`I32`), whose `bincode`
  bytes are taken to be four little-endian bytes (`Murmur.Serialize`). No round trip of
  that encoding is proved.
- Other key and value types are not modelled. Keys are integers, so the `PartialOrd`
  fallback to `Equal` in the sort never applies.
- The hashing-failure path (`if let Ok(..)` in every map operation) is not modelled. For an
  integer key `serialize` cannot fail and `hash_mumur3` always returns `Ok`, so that path
  is dead.
- `HashDict.New` with length 0 is allowed, but `HashDict.Sound` requires a non-empty
  table. The source's `%` by zero would panic there.
- `HashDict.Insert`: the map runs the repaired tree insert (`Edition.Repaired`), not the
  code as written. Three keys `a < b < c` that route to one bucket, inserted as `c`, `a`,
  `b`, make the source's tree insert panic on the `unwrap` at src/rb_tree.rs:259 (see
  Findings). The map contract does not cover that panic.
- `HashDict.Delete`: the map runs the repaired tree delete, which differs from the code as
  written in two places (see Findings). With the code as written, a bucket built from keys
  `a < b < c < d` that then loses `b` and `d` still reaches `d`, so `get` keeps finding it
  (src/rb_tree.rs:95-97); and deleting `a` from that bucket leaves it unbalanced
  (src/rb_tree.rs:513-515), so the bucket no longer keeps the colour rules that
  `HashDict.Sound` claims. "Exactly one entry leaves" and "never fails" hold only for the
  repaired tree.
- `HashDict.Pop`: it deletes through the repaired tree delete, so the same two
  substitutions apply as for `HashDict.Delete`.
- The counters are unbounded integers. The source uses `usize` for the map's counter and
  `i32` for a tree's counter, and their overflow is not modelled.
- `RbInsert.Insert`: the counter goes up before `in_fix_up` in the model, while the source
  increments it afterwards (src/rb_tree.rs:69). The fix-up never reads it.
- `RbInsert.Insert`: with `Edition.AsWritten`, an `Err(OutOfFuel)` outcome is left open.
  Only the repaired edition is proved to finish within its fuel (`RbInsert.InsertCorrect`).
- `RbRemove.DeleteCorrect`: on a valid tree, delete is proved correct only when it does not
  fail. That it never fails is proved for trees that keep the colour rules
  (`RbDeleteColor.DeleteKeepsRedBlack`). On a valid tree that breaks them, a failure of
  the fix-up (such as a missing sibling) is not ruled out, and it is returned as `Err`.
- `RbFixup.DeleteFixup`: the code as written is not proved to finish within its fuel, so an
  `Err(OutOfFuel)` outcome is left open. The colour rules are not claimed after it: because
  of the early `break` at src/rb_tree.rs:513-515, deleting a Black node that leaves an
  empty slot skips rebalancing (`RbFindings.BlackLeafUnbalances`).
- `RbShape.Valid`: validity is structural only, namely sound child and parent links and a
  counter equal to the size. A Black root (`RbShape.RootBlack`), key order
  (`RbShape.Ordered`) and the colour rules (`RbColor.RedBlack`) are separate predicates.
  Each lemma names the ones it keeps.
- `RbTree::get_mut` is not part of this model. It applies a caller's closure, which cannot
  be modelled. `HashDict.GetMut` states only which bucket receives it.
- `replace_node` is not modelled. It is marked dead code.
- The printing and debugging functions (`print_in_order`, `print_tree`,
  `print_ascii_tree`, `fmt`) are left out because they are I/O.
- `RbIter::next` and `HashDictIter::next` are left out. The iterators are modelled as the
  sequences they drain.
- The `hash_dict!` macro is left out. It is sugar over `new` and repeated `insert`.
- `src/bin/word_freq.rs` is not part of this model.
- A tree's counter is decremented before `delete_fixup` in the model and after it in the
  source. The fix-up never reads it.

## Findings

| source | as written | input that shows it | evidently intended | confidence | as-written member | corrected member |
|---|---|---|---|---|---|---|
| src/rb_tree.rs:279-292 | In case 2, `z` moves to the old parent and is rotated down. Case 3 then recolours `zp`, the old parent, which is now `z`'s child, instead of `z`'s current parent. The same happens in the mirror at 305-318. | Insert 3, then 1, then 2 into an empty tree. The loop runs again on the Red root 2 and `unwrap`s a missing grandparent at line 259. | Case 3 recolours the current parent of `z`, as in the textbook algorithm. | not executed | RbFindings.ZigZagPanics | RbInsert.InsertCorrect |
| src/rb_tree.rs:95-97 | When the successor `y` is `z`'s own child, `x`'s parent link is set to `z`, the node being removed. | Insert 1, 2, 3, 4, then delete 2 and then 4. The first delete leaves 4's parent link naming the removed node 2. The second delete therefore unlinks 4 from node 2 rather than from 3, so 4 stays reachable and is still found, while the counter says 2. | `x`'s parent link names `y`, which takes `z`'s place. | not executed | RbFindings.StaleParentKeepsKey | RbRemove.DeleteCorrect |
| src/rb_tree.rs:513-515 | When `x` is an empty slot, the loop of `delete_fixup` leaves at once through `else { break; }`, although the paths through that slot have lost a Black node. | Insert 1, 2, 3, 4, then delete 1. Node 1 is a Black leaf, so `x` is empty and nothing is rebalanced: the path to 2's empty left slot passes one Black node, the paths below 3 pass two. | The fix-up goes on from the slot `x` fills, through its parent, as the textbook's sentinel leaf allows; the same delete then rotates 3 to the root (`RbFindings.RepairedBlackLeaf`). | not executed | RbFindings.BlackLeafUnbalances | RbDeleteColor.DeleteKeepsRedBlack |
