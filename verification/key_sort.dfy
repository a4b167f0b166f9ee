/**
  The sort behind `HashDict::iter` (src/hash_dict.rs): `sort_by` on the key, which in
  Rust is a stable sort. It is modelled as an insertion sort on sequences; what it
  promises is stated without reference to how it sorts: the result is key-ordered and,
  for every key, keeps that key's entries in their original order.
 */
module KeySort {
  import opened RbShape

  /** The entries of `s` with key `k`, in their order in `s`. */
  ghost function WithKey<V>(s: seq<(int, V)>, k: int): seq<(int, V)> {
    if |s| == 0 then [] else (if s[0].0 == k then [s[0]] else []) + WithKey(s[1..], k)
  }

  /** Keys never decrease along `s`. */
  ghost predicate KeySorted<V>(s: seq<(int, V)>) {
    forall i, j :: 0 <= i < j < |s| ==> s[i].0 <= s[j].0
  }

  lemma KeySortedIsSorted<V>(s: seq<(int, V)>)
    ensures KeySorted(s) <==> Sorted(Keys(s))
  {
    if KeySorted(s) {
      forall i, j | 0 <= i < j < |Keys(s)| ensures Keys(s)[i] <= Keys(s)[j] {
        assert s[i].0 <= s[j].0;
      }
    }
    if Sorted(Keys(s)) {
      forall i, j | 0 <= i < j < |s| ensures s[i].0 <= s[j].0 {
        assert Keys(s)[i] <= Keys(s)[j];
      }
    }
  }

  /** Puts `x` in front of the first entry whose key is not below its own. */
  function Place<V>(x: (int, V), s: seq<(int, V)>): (r: seq<(int, V)>)
    ensures multiset(r) == multiset(s) + multiset{x}
  {
    if |s| == 0 || x.0 <= s[0].0 then [x] + s
    else
      assert s == [s[0]] + s[1..];
      [s[0]] + Place(x, s[1..])
  }

  /** Placing `x` puts it in front of the entries that share its key. */
  lemma {:induction false} PlaceWithKey<V>(x: (int, V), s: seq<(int, V)>, k: int)
    ensures WithKey(Place(x, s), k) == WithKey([x], k) + WithKey(s, k)
  {
    if |s| == 0 || x.0 <= s[0].0 {
      WithKeyAppend([x], s, k);
    } else {
      var rest := Place(x, s[1..]);
      PlaceWithKey(x, s[1..], k);
      WithKeyAppend([s[0]], rest, k);
      WithKeyAppend([s[0]], s[1..], k);
      assert s == [s[0]] + s[1..];
    }
  }

  /** Placing an entry into a key-ordered sequence keeps it key-ordered. */
  lemma {:induction false} PlaceSorted<V>(x: (int, V), s: seq<(int, V)>)
    requires KeySorted(s)
    ensures KeySorted(Place(x, s))
  {
    if |s| > 0 && s[0].0 < x.0 {
      var rest := Place(x, s[1..]);
      PlaceSorted(x, s[1..]);
      forall j | 0 <= j < |rest| ensures s[0].0 <= rest[j].0 {
        assert rest[j] in multiset(s[1..]) + multiset{x};
        if rest[j] != x {
          var i :| 0 <= i < |s[1..]| && s[1..][i] == rest[j];
          assert s[0].0 <= s[i + 1].0;
        }
      }
      assert Place(x, s) == [s[0]] + rest;
    }
  }

  /** A stable sort by key: each entry is placed in front of the later entries with a key at least its own. */
  function SortByKey<V>(s: seq<(int, V)>): (r: seq<(int, V)>)
    ensures multiset(r) == multiset(s)
    ensures KeySorted(r)
  {
    if |s| == 0 then []
    else
      var rest := SortByKey(s[1..]);
      PlaceSorted(s[0], rest);
      assert s == [s[0]] + s[1..];
      Place(s[0], rest)
  }

  /** The sort is stable: for every key, its entries keep their order. */
  lemma {:induction false} SortByKeyStable<V>(s: seq<(int, V)>, k: int)
    ensures WithKey(SortByKey(s), k) == WithKey(s, k)
  {
    if |s| > 0 {
      SortByKeyStable(s[1..], k);
      PlaceWithKey(s[0], SortByKey(s[1..]), k);
      WithKeyAppend([s[0]], s[1..], k);
      assert s == [s[0]] + s[1..];
    }
  }

  lemma {:induction false} WithKeyAppend<V>(a: seq<(int, V)>, b: seq<(int, V)>, k: int)
    ensures WithKey(a + b, k) == WithKey(a, k) + WithKey(b, k)
  {
    if |a| > 0 {
      var head := if a[0].0 == k then [a[0]] else [];
      assert (a + b)[0] == a[0] && (a + b)[1..] == a[1..] + b;
      WithKeyAppend(a[1..], b, k);
      assert WithKey(a + b, k) == head + WithKey(a[1..] + b, k);
      assert WithKey(a, k) == head + WithKey(a[1..], k);
    } else {
      assert a + b == b;
    }
  }

  /** No entry of `s` has key `k` exactly when `k` is not among its keys. */
  lemma {:induction false} WithKeyEmpty<V>(s: seq<(int, V)>, k: int)
    ensures WithKey(s, k) == [] <==> k !in Keys(s)
  {
    if |s| > 0 {
      WithKeyEmpty(s[1..], k);
      assert Keys(s) == [s[0].0] + Keys(s[1..]);
    }
  }
}
