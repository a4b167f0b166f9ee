/**
  The bucketed map `HashDict` (src/hash_dict.rs): a fixed table of red-black trees.
  A key goes to bucket `hash_anything(key, seed) % arr_length`; the map keeps its own
  entry counter `tab_length`. Keys are `i32`s. The buckets are the red-black trees of
  this model with both defects of the tree repaired (`Repaired` edition), so that
  what is stated here is what the map promises, not what the tree breaks.

  The reasoning is in two layers: what the map does to the entry lists of its buckets,
  and how each bucket's tree stands behind its list (`Views`).
 */
module HashDict {
  import opened RbArena
  import opened RbShape
  import RbQuery
  import RbInsert
  import RbRemove
  import opened RbColor
  import RbInsertColor
  import RbDeleteColor
  import opened KeySort
  import opened Murmur

  /** `HashDict`: `arr_length`, `seed`, the `tab_length` counter and the bucket `table`. */
  datatype HashDict<V> = HashDict(arrLength: nat, seed: bv32, tabLength: int, table: seq<RbTree<V>>)

  ghost predicate IsI32(k: int) {
    -0x8000_0000 <= k < 0x8000_0000
  }

  /** The bucket of a key among `n`: `(hash_anything(key, seed) % (n as u128)) as usize`. */
  function Route(n: nat, seed: bv32, k: I32): (r: nat)
    requires n > 0
    ensures r < n
  {
    (HashAnything(k, seed) as int) % n
  }

  // ---------------------------------------------------------------- the buckets' entry lists

  /** The entries of a run of buckets, given by their entry lists, bucket after bucket. */
  ghost function Stacked<V>(ls: seq<seq<(int, V)>>): seq<(int, V)> {
    if |ls| == 0 then [] else ls[0] + Stacked(ls[1..])
  }

  /** Every key sits in the bucket it routes to. */
  ghost predicate RoutedLists<V>(ls: seq<seq<(int, V)>>, n: nat, seed: bv32)
    requires n > 0
  {
    forall i, k :: 0 <= i < |ls| && k in Keys(ls[i]) ==> IsI32(k) && Route(n, seed, k) == i
  }

  /** The entries of a run split around bucket `i`. */
  lemma {:induction false} StackedSplit<V>(ls: seq<seq<(int, V)>>, i: nat)
    requires i < |ls|
    ensures Stacked(ls) == Stacked(ls[..i]) + ls[i] + Stacked(ls[i + 1..])
  {
    if i == 0 {
      assert ls[..0] == [];
    } else {
      StackedSplit(ls[1..], i - 1);
      assert ls[..i][1..] == ls[1..][..i - 1];
      assert ls[1..][i..] == ls[i + 1..];
      assert ls[..i][0] == ls[0];
    }
  }

  /** Stacking one more list appends it. */
  lemma StackedNext<V>(ls: seq<seq<(int, V)>>, i: nat)
    requires i < |ls|
    ensures Stacked(ls[..i + 1]) == Stacked(ls[..i]) + ls[i]
  {
    StackedSplit(ls[..i + 1], i);
    assert ls[..i + 1][..i] == ls[..i];
    assert ls[..i + 1][i + 1..] == [];
  }

  lemma {:induction false} StackedEmpty<V>(ls: seq<seq<(int, V)>>)
    requires forall i :: 0 <= i < |ls| ==> ls[i] == []
    ensures Stacked(ls) == []
  {
    if |ls| > 0 {
      StackedEmpty(ls[1..]);
    }
  }

  /** A key is in a run of buckets exactly when it is in one of them. */
  lemma {:induction false} StackedKeys<V>(ls: seq<seq<(int, V)>>, k: int)
    ensures k in Keys(Stacked(ls)) <==> exists j :: 0 <= j < |ls| && k in Keys(ls[j])
  {
    if |ls| > 0 {
      StackedKeys(ls[1..], k);
      KeysAppend(ls[0], Stacked(ls[1..]));
      if k in Keys(Stacked(ls)) && k !in Keys(ls[0]) {
        var j :| 0 <= j < |ls| - 1 && k in Keys(ls[1..][j]);
        assert ls[1..][j] == ls[j + 1];
      }
      if exists j :: 0 <= j < |ls| && k in Keys(ls[j]) {
        var j :| 0 <= j < |ls| && k in Keys(ls[j]);
        if j > 0 {
          assert ls[1..][j - 1] == ls[j];
        }
      }
    }
  }

  /** With every key in its own bucket, a key is present exactly when its bucket holds it. */
  lemma RoutedKeyAt<V>(ls: seq<seq<(int, V)>>, n: nat, seed: bv32, k: I32)
    requires n > 0 && |ls| == n && RoutedLists(ls, n, seed)
    ensures k in Keys(Stacked(ls)) <==> k in Keys(ls[Route(n, seed, k)])
    ensures forall j :: 0 <= j < |ls| && j != Route(n, seed, k) ==> k !in Keys(ls[j])
  {
    StackedKeys(ls, k);
  }

  /** Every key of an entry list with `e` spliced in is `e`'s key or an old key. */
  lemma InsertedKeys<V>(before: seq<(int, V)>, after: seq<(int, V)>, m: nat, e: (int, V))
    requires RbInsert.InsertedAt(before, after, m, e)
    ensures forall k :: k in Keys(after) ==> k == e.0 || k in Keys(before)
    ensures e.0 in Keys(after)
  {
    assert after[m] == e && Keys(after)[m] == e.0;
    KeysAppend(before[..m] + [e], before[m..]);
    KeysAppend(before[..m], [e]);
    KeysAppend(before[..m], before[m..]);
    assert before == before[..m] + before[m..];
  }

  /** Every key left after dropping one entry was there before. */
  lemma DeletedKeys<V>(before: seq<(int, V)>, after: seq<(int, V)>, m: nat)
    requires RbRemove.DeletedAt(before, after, m)
    ensures forall k :: k in Keys(after) ==> k in Keys(before)
  {
    KeysAppend(before[..m], before[m + 1..]);
    KeysAppend(before[..m], before[m..]);
    assert before == before[..m] + before[m..];
    assert before[m..] == [before[m]] + before[m + 1..];
  }

  /**
    Replacing the list of bucket `i` by one whose keys were there already or route to
    `i` keeps every key in its own bucket, and changes the stacked entries in that
    bucket's place only.
   */
  lemma ReplaceList<V>(ls: seq<seq<(int, V)>>, i: nat, l: seq<(int, V)>, n: nat, seed: bv32)
    requires n > 0 && i < |ls| && RoutedLists(ls, n, seed)
    requires forall k :: k in Keys(l) ==> k in Keys(ls[i]) || (IsI32(k) && Route(n, seed, k) == i)
    ensures RoutedLists(ls[i := l], n, seed)
    ensures Stacked(ls) == Stacked(ls[..i]) + ls[i] + Stacked(ls[i + 1..])
    ensures Stacked(ls[i := l]) == Stacked(ls[..i]) + l + Stacked(ls[i + 1..])
  {
    RoutedReplace(ls, i, l, n, seed);
    StackedSplit(ls, i);
    StackedSplit(ls[i := l], i);
    assert ls[i := l][..i] == ls[..i] && ls[i := l][i + 1..] == ls[i + 1..];
  }

  lemma RoutedReplace<V>(ls: seq<seq<(int, V)>>, i: nat, l: seq<(int, V)>, n: nat, seed: bv32)
    requires n > 0 && i < |ls| && RoutedLists(ls, n, seed)
    requires forall k :: k in Keys(l) ==> k in Keys(ls[i]) || (IsI32(k) && Route(n, seed, k) == i)
    ensures RoutedLists(ls[i := l], n, seed)
  {
    var ls' := ls[i := l];
    forall j, k | 0 <= j < |ls'| && k in Keys(ls'[j]) ensures IsI32(k) && Route(n, seed, k) == j {
      if j != i {
        assert ls'[j] == ls[j];
      }
    }
  }

  /** Splicing an entry into the middle part of a three-part list splices it into the list. */
  lemma InsertedInMap<V>(front: seq<(int, V)>, b: seq<(int, V)>, t: seq<(int, V)>, back: seq<(int, V)>, m: nat, e: (int, V))
    requires RbInsert.InsertedAt(b, t, m, e)
    ensures RbInsert.InsertedAt(front + b + back, front + t + back, |front| + m, e)
  {
    assert (front + b + back)[..|front| + m] == front + b[..m];
    assert (front + b + back)[|front| + m..] == b[m..] + back;
  }

  /** Dropping an entry from the middle part of a three-part list drops it from the list. */
  lemma DeletedInMap<V>(front: seq<(int, V)>, b: seq<(int, V)>, t: seq<(int, V)>, back: seq<(int, V)>, m: nat)
    requires RbRemove.DeletedAt(b, t, m)
    ensures RbRemove.DeletedAt(front + b + back, front + t + back, |front| + m)
    ensures (front + b + back)[|front| + m] == b[m]
  {
    assert (front + b + back)[..|front| + m] == front + b[..m];
    assert (front + b + back)[|front| + m + 1..] == b[m + 1..] + back;
  }

  // ---------------------------------------------------------------- the trees behind the lists

  /** The in-order entries of each bucket. */
  ghost function Views<V>(ts: seq<RbTree<V>>): (r: seq<seq<(int, V)>>)
    ensures |r| == |ts|
  {
    if |ts| == 0 then [] else [Items(ts[0])] + Views(ts[1..])
  }

  lemma {:induction false} ViewsAt<V>(ts: seq<RbTree<V>>, i: nat)
    requires i < |ts|
    ensures Views(ts)[i] == Items(ts[i])
  {
    if i > 0 {
      ViewsAt(ts[1..], i - 1);
    }
  }

  lemma {:induction false} ViewsUpdate<V>(ts: seq<RbTree<V>>, i: nat, t: RbTree<V>)
    requires i < |ts|
    ensures Views(ts[i := t]) == Views(ts)[i := Items(t)]
  {
    if i == 0 {
      assert ts[i := t][1..] == ts[1..];
    } else {
      ViewsUpdate(ts[1..], i - 1, t);
      assert ts[i := t][1..] == ts[1..][i - 1 := t];
    }
  }

  /** A bucket as the map keeps it: a valid, key-ordered tree that keeps the colour rules
      (a Black root, no Red node with a Red child, as many Black nodes on every path). */
  ghost predicate GoodBucket<V>(t: RbTree<V>) {
    Valid(t) && RedBlack(t) && Ordered(t)
  }

  /** An empty tree is a good bucket. */
  lemma EmptyBucket<V>()
    ensures GoodBucket(RbQuery.New<V>())
  {
    var t := RbQuery.New<V>();
    AbsIs(t, Leaf);
  }

  /** Every bucket of a run is good; stated bucket by bucket so that it unfolds only on demand. */
  ghost predicate GoodBuckets<V>(ts: seq<RbTree<V>>) {
    |ts| == 0 || (GoodBucket(ts[0]) && GoodBuckets(ts[1..]))
  }

  lemma {:induction false} GoodAt<V>(ts: seq<RbTree<V>>, i: nat)
    requires GoodBuckets(ts) && i < |ts|
    ensures GoodBucket(ts[i])
  {
    if i > 0 {
      GoodAt(ts[1..], i - 1);
    }
  }

  lemma {:induction false} GoodUpdate<V>(ts: seq<RbTree<V>>, i: nat, t: RbTree<V>)
    requires GoodBuckets(ts) && i < |ts| && GoodBucket(t)
    ensures GoodBuckets(ts[i := t])
  {
    if i == 0 {
      assert ts[i := t][1..] == ts[1..];
    } else {
      GoodUpdate(ts[1..], i - 1, t);
      assert ts[i := t][1..] == ts[1..][i - 1 := t];
    }
  }

  lemma {:induction false} AllGood<V>(ts: seq<RbTree<V>>)
    requires forall i :: 0 <= i < |ts| ==> GoodBucket(ts[i])
    ensures GoodBuckets(ts)
  {
    if |ts| > 0 {
      AllGood(ts[1..]);
    }
  }

  /** The tree insert on a good bucket succeeds, keeps it good and splices the pair into its entries. */
  lemma BucketInsert<V>(b: RbTree<V>, k: int, v: V)
    requires GoodBucket(b)
    ensures RbInsert.Insert(b, k, v, RbInsert.Repaired).Ok?
    ensures GoodBucket(RbInsert.Insert(b, k, v, RbInsert.Repaired).value)
    ensures exists m: nat :: RbInsert.InsertedAt(Items(b), Items(RbInsert.Insert(b, k, v, RbInsert.Repaired).value), m, (k, v))
  {
    RbInsert.InsertCorrect(b, k, v);
    RbInsertColor.InsertKeepsRedBlack(b, k, v);
  }

  /** The tree delete of a key a good bucket holds succeeds, keeps it good and drops one entry with the key. */
  lemma BucketDelete<V>(b: RbTree<V>, k: int)
    requires GoodBucket(b) && k in Keys(Items(b))
    ensures RbRemove.Delete(b, k, RbInsert.Repaired).Ok?
    ensures GoodBucket(RbRemove.Delete(b, k, RbInsert.Repaired).value)
    ensures RbRemove.DeletedKey(Items(b), Items(RbRemove.Delete(b, k, RbInsert.Repaired).value), k)
  {
    RbRemove.DeleteCorrect(b, k);
    RbDeleteColor.DeleteKeepsRedBlack(b, k);
  }

  // ---------------------------------------------------------------- the map

  /** Every entry of the map, in the order `stack_items` collects them. */
  ghost function Contents<V>(d: HashDict<V>): seq<(int, V)> {
    Stacked(Views(d.table))
  }

  /**
    What every operation keeps: a non-empty table of `arr_length` good buckets, each key
    in its own bucket, and the counter equal to the number of entries.
   */
  ghost predicate Sound<V>(d: HashDict<V>) {
    && d.arrLength > 0
    && |d.table| == d.arrLength
    && GoodBuckets(d.table)
    && RoutedLists(Views(d.table), d.arrLength, d.seed)
    && d.tabLength == |Contents(d)|
  }

  /** In a sound map a key is present exactly when its own bucket holds it, and no other bucket does. */
  lemma RoutedKey<V>(d: HashDict<V>, k: I32)
    requires Sound(d)
    ensures k in Keys(Contents(d)) <==> k in Keys(Items(d.table[Route(d.arrLength, d.seed, k)]))
    ensures forall j :: 0 <= j < |d.table| && j != Route(d.arrLength, d.seed, k) ==> k !in Keys(Items(d.table[j]))
  {
    RoutedKeyAt(Views(d.table), d.arrLength, d.seed, k);
    ViewsAt(d.table, Route(d.arrLength, d.seed, k));
    forall j | 0 <= j < |d.table| && j != Route(d.arrLength, d.seed, k) ensures k !in Keys(Items(d.table[j])) {
      ViewsAt(d.table, j);
    }
  }

  /**
    Putting tree `t` in place of bucket `i`, with the counter moved by the change in
    entries, keeps the map sound when the new table's buckets are good and `t`'s keys
    were in the bucket already or route to it; the entries change in that bucket's
    place only.
   */
  lemma ReplaceBucket<V>(d: HashDict<V>, i: nat, t: RbTree<V>, n: int)
    requires Sound(d) && i < |d.table| && GoodBuckets(d.table[i := t])
    requires forall k :: k in Keys(Items(t)) ==> k in Keys(Items(d.table[i])) || (IsI32(k) && Route(d.arrLength, d.seed, k) == i)
    requires n == d.tabLength - |Items(d.table[i])| + |Items(t)|
    ensures Sound(d.(table := d.table[i := t], tabLength := n))
    ensures Contents(d) == Stacked(Views(d.table)[..i]) + Items(d.table[i]) + Stacked(Views(d.table)[i + 1..])
    ensures Contents(d.(table := d.table[i := t], tabLength := n))
         == Stacked(Views(d.table)[..i]) + Items(t) + Stacked(Views(d.table)[i + 1..])
  {
    ViewsAt(d.table, i);
    ViewsUpdate(d.table, i, t);
    ReplaceList(Views(d.table), i, Items(t), d.arrLength, d.seed);
  }

  // ---------------------------------------------------------------- operations

  /** `new(len, seed)`: `len` empty buckets and a zero counter; sound once `len > 0`. */
  function New<V>(len: nat, seed: bv32): (r: HashDict<V>)
    ensures r.arrLength == len && r.seed == seed && |r.table| == len && r.tabLength == 0
    ensures forall i :: 0 <= i < len ==> Items(r.table[i]) == [] && r.table[i].length == 0
    ensures Contents(r) == []
    ensures len > 0 ==> Sound(r)
  {
    var r := HashDict(len, seed, 0, seq(len, _ => RbQuery.New()));
    EmptyTable(r.table);
    r
  }

  /** A table of empty trees holds good buckets and no entries. */
  lemma EmptyTable<V>(ts: seq<RbTree<V>>)
    requires forall i :: 0 <= i < |ts| ==> ts[i] == RbQuery.New()
    ensures GoodBuckets(ts) && Stacked(Views(ts)) == []
    ensures forall i :: 0 <= i < |ts| ==> Views(ts)[i] == []
  {
    forall i | 0 <= i < |ts| ensures Views(ts)[i] == [] && GoodBucket(ts[i]) {
      ViewsAt(ts, i);
      EmptyBucket<V>();
    }
    StackedEmpty(Views(ts));
    AllGood(ts);
  }

  /**
    `insert`: the pair goes into the key's bucket, whatever is there already; no other
    bucket changes, the counter goes up by one, and the map's entries gain exactly the
    pair.
   */
  function Insert<V>(d: HashDict<V>, k: I32, v: V): (r: HashDict<V>)
    requires Sound(d)
    ensures Sound(r) && r.arrLength == d.arrLength && r.seed == d.seed
    ensures r.tabLength == d.tabLength + 1
    ensures r.table == d.table[Route(d.arrLength, d.seed, k) := r.table[Route(d.arrLength, d.seed, k)]]
    ensures exists m: nat :: RbInsert.InsertedAt(Contents(d), Contents(r), m, (k, v))
  {
    var i := Route(d.arrLength, d.seed, k);
    var b := d.table[i];
    GoodAt(d.table, i);
    BucketInsert(b, k, v);
    var t := RbInsert.Insert(b, k, v, RbInsert.Repaired).value;
    GoodUpdate(d.table, i, t);
    var r := d.(table := d.table[i := t], tabLength := d.tabLength + 1);
    InsertFacts(d, k, v, t, r);
    r
  }

  /** The map-level half of `insert`: soundness and the spliced-in pair. */
  lemma InsertFacts<V>(d: HashDict<V>, k: I32, v: V, t: RbTree<V>, r: HashDict<V>)
    requires Sound(d)
    requires GoodBuckets(d.table[Route(d.arrLength, d.seed, k) := t])
    requires exists m: nat :: RbInsert.InsertedAt(Items(d.table[Route(d.arrLength, d.seed, k)]), Items(t), m, (k, v))
    requires r == d.(table := d.table[Route(d.arrLength, d.seed, k) := t], tabLength := d.tabLength + 1)
    ensures Sound(r)
    ensures exists m: nat :: RbInsert.InsertedAt(Contents(d), Contents(r), m, (k, v))
  {
    var i := Route(d.arrLength, d.seed, k);
    var b := Items(d.table[i]);
    var m: nat :| RbInsert.InsertedAt(b, Items(t), m, (k, v));
    InsertedKeys(b, Items(t), m, (k, v));
    ReplaceBucket(d, i, t, r.tabLength);
    InsertedInMap(Stacked(Views(d.table)[..i]), b, Items(t), Stacked(Views(d.table)[i + 1..]), m, (k, v));
  }

  /** `get`: the value found in the key's bucket; there is one exactly when the key is in the map. */
  function Get<V>(d: HashDict<V>, k: I32): (r: RbQuery.Option<V>)
    requires Sound(d)
    ensures r.Some? <==> k in Keys(Contents(d))
    ensures r.Some? ==> (k, r.value) in Contents(d)
  {
    var i := Route(d.arrLength, d.seed, k);
    GoodAt(d.table, i);
    var r := RbQuery.Get(d.table[i], k);
    RoutedKey(d, k);
    ViewsAt(d.table, i);
    StackedSplit(Views(d.table), i);
    r
  }

  /**
    `delete`: only when the key's bucket holds the key is the tree delete run and the
    counter decremented; an absent key leaves the map alone. The tree delete never fails
    on a good bucket, and exactly one entry with the key leaves the map, in the key's
    bucket only.
   */
  function Delete<V>(d: HashDict<V>, k: I32): (r: Result<HashDict<V>>)
    requires Sound(d)
    ensures r.Ok?
    ensures k !in Keys(Contents(d)) ==> r == Ok(d)
    ensures Sound(r.value) && r.value.arrLength == d.arrLength && r.value.seed == d.seed
    ensures r.value.table == d.table[Route(d.arrLength, d.seed, k) := r.value.table[Route(d.arrLength, d.seed, k)]]
    ensures k in Keys(Contents(d)) ==>
      r.value.tabLength == d.tabLength - 1 && RbRemove.DeletedKey(Contents(d), Contents(r.value), k)
  {
    KeyExistStep(d, k);
    if RbQuery.KeyExist(d.table[Route(d.arrLength, d.seed, k)], k) then DeletePresent(d, k)
    else
      UpdateSame(d.table, Route(d.arrLength, d.seed, k));
      Ok(d)
  }

  /** The tree delete in the bucket of a key the map holds, with the counter decremented. */
  function DeletePresent<V>(d: HashDict<V>, k: I32): (r: Result<HashDict<V>>)
    requires Sound(d) && k in Keys(Contents(d))
    ensures r.Ok? && Sound(r.value) && r.value.arrLength == d.arrLength && r.value.seed == d.seed
    ensures r.value.table == d.table[Route(d.arrLength, d.seed, k) := r.value.table[Route(d.arrLength, d.seed, k)]]
    ensures r.value.tabLength == d.tabLength - 1 && RbRemove.DeletedKey(Contents(d), Contents(r.value), k)
  {
    var i := Route(d.arrLength, d.seed, k);
    KeyExistStep(d, k);
    GoodAt(d.table, i);
    RoutedKey(d, k);
    BucketDelete(d.table[i], k);
    match RbRemove.Delete(d.table[i], k, RbInsert.Repaired)
    case Err(f) => Err(f)
    case Ok(t) =>
      DeleteStep(d, k, t);
      Ok(Drop(d, k, t))
  }

  lemma UpdateSame<T>(s: seq<T>, i: nat)
    requires i < |s|
    ensures s[i := s[i]] == s
  {
  }

  /** `key_exist` in the key's bucket says whether the map holds the key. */
  lemma KeyExistStep<V>(d: HashDict<V>, k: I32)
    requires Sound(d)
    ensures WellLinked(d.table[Route(d.arrLength, d.seed, k)])
    ensures RbQuery.KeyExist(d.table[Route(d.arrLength, d.seed, k)], k) <==> k in Keys(Contents(d))
  {
    GoodAt(d.table, Route(d.arrLength, d.seed, k));
    RoutedKey(d, k);
  }

  /** A tree delete in the key's bucket that does not fail leaves good buckets and drops one entry with the key from that bucket. */
  lemma DeleteStep<V>(d: HashDict<V>, k: I32, t: RbTree<V>)
    requires Sound(d) && k in Keys(Contents(d)) && WellLinked(d.table[Route(d.arrLength, d.seed, k)])
    requires RbRemove.Delete(d.table[Route(d.arrLength, d.seed, k)], k, RbInsert.Repaired) == Ok(t)
    ensures GoodBuckets(d.table[Route(d.arrLength, d.seed, k) := t])
    ensures RbRemove.DeletedKey(Items(d.table[Route(d.arrLength, d.seed, k)]), Items(t), k)
  {
    var i := Route(d.arrLength, d.seed, k);
    GoodAt(d.table, i);
    RoutedKey(d, k);
    BucketDelete(d.table[i], k);
    GoodUpdate(d.table, i, t);
  }

  /** The map-level half of `delete`: the new bucket put in place, the counter decremented, and one entry with the key gone from the map. */
  function Drop<V>(d: HashDict<V>, k: I32, t: RbTree<V>): (r: HashDict<V>)
    requires Sound(d)
    requires GoodBuckets(d.table[Route(d.arrLength, d.seed, k) := t])
    requires RbRemove.DeletedKey(Items(d.table[Route(d.arrLength, d.seed, k)]), Items(t), k)
    ensures Sound(r) && r.arrLength == d.arrLength && r.seed == d.seed
    ensures r.table == d.table[Route(d.arrLength, d.seed, k) := t] && r.tabLength == d.tabLength - 1
    ensures RbRemove.DeletedKey(Contents(d), Contents(r), k)
  {
    var i := Route(d.arrLength, d.seed, k);
    var r := d.(table := d.table[i := t], tabLength := d.tabLength - 1);
    DropFacts(d, k, t, i);
    r
  }

  lemma DropFacts<V>(d: HashDict<V>, k: I32, t: RbTree<V>, i: nat)
    requires Sound(d) && i == Route(d.arrLength, d.seed, k)
    requires GoodBuckets(d.table[i := t])
    requires RbRemove.DeletedKey(Items(d.table[i]), Items(t), k)
    ensures Sound(d.(table := d.table[i := t], tabLength := d.tabLength - 1))
    ensures RbRemove.DeletedKey(Contents(d), Contents(d.(table := d.table[i := t], tabLength := d.tabLength - 1)), k)
  {
    var b := Items(d.table[i]);
    var m: nat :| RbRemove.DeletedAt(b, Items(t), m) && b[m].0 == k;
    DeletedKeys(b, Items(t), m);
    ReplaceBucket(d, i, t, d.tabLength - 1);
    DeletedInMap(Stacked(Views(d.table)[..i]), b, Items(t), Stacked(Views(d.table)[i + 1..]), m);
  }

  /**
    `pop`: returns what `get` returns; when that is a value, the key is deleted as by
    `delete`, so one entry with the key leaves the map and the counter drops by one.
   */
  function Pop<V>(d: HashDict<V>, k: I32): (r: Result<(RbQuery.Option<V>, HashDict<V>)>)
    requires Sound(d)
    ensures r.Ok? && Sound(r.value.1)
    ensures k !in Keys(Contents(d)) ==> r == Ok((RbQuery.None, d))
    ensures k in Keys(Contents(d)) ==>
      && r.value.0.Some? && (k, r.value.0.value) in Contents(d)
      && r.value.1.tabLength == d.tabLength - 1
      && RbRemove.DeletedKey(Contents(d), Contents(r.value.1), k)
  {
    match Get(d, k)
    case None => Ok((RbQuery.None, d))
    case Some(v) =>
      match Delete(d, k)
      case Err(f) => Err(f)
      case Ok(d2) => Ok((RbQuery.Some(v), d2))
  }

  /** `len`: the counter, which is the number of entries and the sum of the bucket lengths. */
  function Len<V>(d: HashDict<V>): (r: int)
    requires Sound(d)
    ensures r == |Contents(d)|
    ensures r == Total(d.table)
  {
    TotalCounts(d.table);
    d.tabLength
  }

  /** The sum of the buckets' own `len()`. */
  function Total<V>(ts: seq<RbTree<V>>): int {
    if |ts| == 0 then 0 else ts[0].length + Total(ts[1..])
  }

  lemma {:induction false} TotalCounts<V>(ts: seq<RbTree<V>>)
    requires GoodBuckets(ts)
    ensures Total(ts) == |Stacked(Views(ts))|
  {
    if |ts| > 0 {
      TotalCounts(ts[1..]);
      var _ := RbQuery.Len(ts[0]);
    }
  }

  /**
    `get_mut`: the bucket whose `get_mut` receives the closure is the key's bucket, the
    only one that can hold the key. The tree's `get_mut` is not part of this model.
   */
  function GetMut<V>(d: HashDict<V>, k: I32): (r: nat)
    requires Sound(d)
    ensures r < |d.table|
    ensures k in Keys(Contents(d)) <==> k in Keys(Items(d.table[r]))
    ensures forall j :: 0 <= j < |d.table| && j != r ==> k !in Keys(Items(d.table[j]))
  {
    RoutedKey(d, k);
    Route(d.arrLength, d.seed, k)
  }

  /** `stack_items`: the in-order entries of every non-empty bucket, bucket after bucket. */
  method StackItems<V>(d: HashDict<V>) returns (stack: seq<(int, V)>)
    requires Sound(d)
    ensures stack == Contents(d)
  {
    ghost var ls := Views(d.table);
    stack := [];
    for i := 0 to |d.table|
      invariant stack == Stacked(ls[..i])
    {
      var tree := d.table[i];
      GoodAt(d.table, i);
      ViewsAt(d.table, i);
      if RbQuery.Len(tree) > 0 {
        stack := stack + RbQuery.Iter(tree);
      }
      StackedNext(ls, i);
    }
    assert ls[..|d.table|] == ls;
  }

  /**
    `iter`: every entry of the map exactly once, key-ordered, and for each key in the
    order its bucket's in-order traversal gives; as many entries as `len()` counts.
   */
  method Iter<V>(d: HashDict<V>) returns (r: seq<(int, V)>)
    requires Sound(d)
    ensures multiset(r) == multiset(Contents(d))
    ensures Sorted(Keys(r))
    ensures forall k :: WithKey(r, k) == WithKey(Contents(d), k)
    ensures |r| == Len(d)
  {
    var stack := StackItems(d);
    r := SortByKey(stack);
    KeySortedIsSorted(r);
    forall k ensures WithKey(r, k) == WithKey(Contents(d), k) {
      SortByKeyStable(stack, k);
    }
    assert |r| == |multiset(r)|;
  }

  // ---------------------------------------------------------------- properties across calls

  /** After inserting a key the map did not hold, `get` returns the inserted value. */
  lemma GetAfterInsert<V>(d: HashDict<V>, k: I32, v: V)
    requires Sound(d) && k !in Keys(Contents(d))
    ensures Get(Insert(d, k, v), k) == RbQuery.Some(v)
  {
    var r := Insert(d, k, v);
    var m: nat :| RbInsert.InsertedAt(Contents(d), Contents(r), m, (k, v));
    InsertedKeys(Contents(d), Contents(r), m, (k, v));
    var found := Get(r, k);
    OnlyNewKey(Contents(d), Contents(r), m, (k, v), found.value);
  }

  /** In a list with `e` spliced in, the only entry with `e`'s key that was not there before is `e`. */
  lemma OnlyNewKey<V>(before: seq<(int, V)>, after: seq<(int, V)>, m: nat, e: (int, V), w: V)
    requires RbInsert.InsertedAt(before, after, m, e) && e.0 !in Keys(before) && (e.0, w) in after
    ensures w == e.1
  {
  }

  /** Popping the only entry with a key leaves the key absent: `get` returns nothing. */
  lemma PopLastCopy<V>(d: HashDict<V>, k: I32)
    requires Sound(d) && |WithKey(Contents(d), k)| == 1
    ensures Get(Pop(d, k).value.1, k).None?
  {
    WithKeyEmpty(Contents(d), k);
    var p := Pop(d, k);
    LastCopyGone(Contents(d), Contents(p.value.1), k);
  }

  /** Dropping one entry with key `k` from a list holding only one leaves no entry with that key. */
  lemma LastCopyGone<V>(before: seq<(int, V)>, after: seq<(int, V)>, k: int)
    requires RbRemove.DeletedKey(before, after, k) && |WithKey(before, k)| == 1
    ensures k !in Keys(after)
  {
    var m: nat :| RbRemove.DeletedAt(before, after, m) && before[m].0 == k;
    assert before == before[..m] + [before[m]] + before[m + 1..];
    OnlyCopy(before[..m], before[m], before[m + 1..], k);
  }

  lemma OnlyCopy<V>(front: seq<(int, V)>, x: (int, V), back: seq<(int, V)>, k: int)
    requires x.0 == k && |WithKey(front + [x] + back, k)| == 1
    ensures k !in Keys(front + back)
  {
    WithKeyAppend(front + [x], back, k);
    WithKeyAppend(front, [x], k);
    WithKeyAppend(front, back, k);
    assert [x][1..] == [];
    WithKeyEmpty(front + back, k);
  }

  /** The routing the map uses is Appleby's MurmurHash3 x64_128 of the key's bytes modulo the table length. */
  lemma RouteIsMurmur3<V>(d: HashDict<V>, k: I32)
    requires d.arrLength > 0
    ensures Route(d.arrLength, d.seed, k) == (Reference(Serialize(k), d.seed) as int) % d.arrLength
  {
    HashAnythingIsReference(k, d.seed);
  }
}
