/** Hashes: 256 chains of items in ascending order of their keys. */
module Hashes {
  import opened Strings

  const BUCKETS: nat := 256

  function BucketOf(key: Key): nat
  {
    HashKey(key) as nat % BUCKETS
  }

  class Item<V> {
    const key: Key
    var value: V
    var next: Item?<V>

    constructor (key: Key, value: V)
      ensures this.key == key && this.value == value && next == null
    {
      this.key, this.value, next := key, value, null;
    }
  }

  // ---------- chains as sequences of items ----------

  ghost predicate Ascending<V>(chain: seq<Item<V>>)
  {
    forall i, j :: 0 <= i < j < |chain| ==> Less(chain[i].key, chain[j].key)
  }

  /** A chain of bucket b: sorted, with the items that their keys lead to */
  ghost predicate Chain<V>(chain: seq<Item<V>>, b: nat, found: map<Key, Item<V>>, bucketOf: Key -> nat)
  {
    && Ascending(chain)
    && (forall i :: 0 <= i < |chain| ==> bucketOf(chain[i].key) == b)
    && (forall i :: 0 <= i < |chain| ==> chain[i].key in found && found[chain[i].key] == chain[i])
  }

  /** The key leads to an item of its bucket's chain. */
  ghost predicate Leads<V>(chains: seq<seq<Item<V>>>, found: map<Key, Item<V>>, bucketOf: Key -> nat, key: Key)
    requires key in found
  {
    found[key].key == key && bucketOf(key) < |chains| && found[key] in chains[bucketOf(key)]
  }

  function Total<V>(chains: seq<seq<Item<V>>>, n: nat): nat
    requires n <= |chains|
  {
    if n == 0 then 0 else Total(chains, n - 1) + |chains[n - 1]|
  }

  ghost predicate Shape<V>(chains: seq<seq<Item<V>>>, found: map<Key, Item<V>>, bucketOf: Key -> nat)
  {
    && |chains| == BUCKETS && Total(chains, BUCKETS) == |found|
    && (forall b :: 0 <= b < BUCKETS ==> Chain(chains[b], b, found, bucketOf))
    && (forall key :: key in found ==> Leads(chains, found, bucketOf, key))
  }

  /** All keys before p are less than the key. */
  ghost predicate Passed<V>(chain: seq<Item<V>>, p: nat, key: Key)
    requires p <= |chain|
  {
    forall i :: 0 <= i < p ==> Less(chain[i].key, key)
  }

  /** The place for the key is p: only lesser keys before it, and a greater one at it, if any. */
  ghost predicate Place<V>(chain: seq<Item<V>>, p: nat, key: Key)
  {
    p <= |chain| && Passed(chain, p, key) && (p < |chain| ==> Less(key, chain[p].key))
  }

  lemma {:induction false} TotalChanged<V>(was: seq<seq<Item<V>>>, b: nat, chain: seq<Item<V>>, n: nat)
    requires n <= |was| && b < |was|
    ensures Total(was[b := chain], n) == Total(was, n) + if b < n then |chain| - |was[b]| else 0
  {
    if n > 0 {
      TotalChanged(was, b, chain, n - 1);
    }
  }

  lemma DifferentKeys(a: Key, b: Key)
    requires Less(a, b)
    ensures a != b && !Less(b, a)
  {
    CompareZero(a, b);
    CompareFlips(a, b);
  }

  /** Once a greater key has been met, the key is not in the hash. */
  lemma EarlyExit<V>(chains: seq<seq<Item<V>>>, found: map<Key, Item<V>>, bucketOf: Key -> nat, p: nat, key: Key)
    requires Shape(chains, found, bucketOf) && bucketOf(key) < BUCKETS && Place(chains[bucketOf(key)], p, key)
    ensures key !in found
  {
    var chain := chains[bucketOf(key)];
    forall i | 0 <= i < |chain|
      ensures chain[i].key != key
    {
      if i < p {
        DifferentKeys(chain[i].key, key);
      } else {
        if i > p {
          LessTransitive(key, chain[p].key, chain[i].key);
        }
        DifferentKeys(key, chain[i].key);
      }
    }
  }

  lemma InsertedAscending<V>(chain: seq<Item<V>>, p: nat, item: Item<V>)
    requires Ascending(chain) && Place(chain, p, item.key)
    ensures Ascending(chain[..p] + [item] + chain[p..])
  {
    forall j | p < j < |chain|
      ensures Less(item.key, chain[j].key)
    {
      LessTransitive(item.key, chain[p].key, chain[j].key);
    }
  }

  lemma Inserted<V>(chains: seq<seq<Item<V>>>, found: map<Key, Item<V>>, bucketOf: Key -> nat, b: nat, p: nat,
                    item: Item<V>,
                    longer: seq<Item<V>>, now: map<Key, Item<V>>)
    requires Shape(chains, found, bucketOf) && b == bucketOf(item.key) && b < BUCKETS && Place(chains[b], p, item.key)
    requires longer == chains[b][..p] + [item] + chains[b][p..] && now == found[item.key := item]
    ensures item.key !in found && Shape(chains[b := longer], now, bucketOf)
  {
    var chain := chains[b];
    EarlyExit(chains, found, bucketOf, p, item.key);
    InsertedAscending(chain, p, item);
    TotalChanged(chains, b, longer, BUCKETS);
    forall i | 0 <= i < |longer|
      ensures longer[i] == item || longer[i] in chain
    {
    }
    assert Chain(longer, b, now, bucketOf);
    forall key | key in now
      ensures Leads(chains[b := longer], now, bucketOf, key)
    {
      if key == item.key {
        assert longer[p] == item;
      } else {
        assert Leads(chains, found, bucketOf, key);
        StillIn(chain, p, item, found[key]);
      }
    }
    forall c | 0 <= c < BUCKETS && c != b
      ensures Chain(chains[c], c, now, bucketOf)
    {
    }
  }

  lemma StillIn<V>(chain: seq<Item<V>>, p: nat, item: Item<V>, x: Item<V>)
    requires p <= |chain|
    ensures x in chain ==> x in chain[..p] + [item] + chain[p..]
  {
  }

  lemma StaysIn<V>(chain: seq<Item<V>>, p: nat, x: Item<V>)
    requires p < |chain| && x in chain && x != chain[p]
    ensures x in chain[..p] + chain[p + 1..]
  {
  }

  lemma DeletedAscending<V>(chain: seq<Item<V>>, p: nat)
    requires Ascending(chain) && p < |chain|
    ensures var shorter := chain[..p] + chain[p + 1..];
      Ascending(shorter) && forall i :: 0 <= i < |shorter| ==> shorter[i].key != chain[p].key && shorter[i] in chain
  {
    forall i | 0 <= i < |chain| && i != p
      ensures chain[i].key != chain[p].key
    {
      if i < p {
        DifferentKeys(chain[i].key, chain[p].key);
      } else {
        DifferentKeys(chain[p].key, chain[i].key);
      }
    }
  }

  lemma Deleted<V>(chains: seq<seq<Item<V>>>, found: map<Key, Item<V>>, bucketOf: Key -> nat, b: nat, p: nat,
                   shorter: seq<Item<V>>, now: map<Key, Item<V>>)
    requires Shape(chains, found, bucketOf) && b < BUCKETS && p < |chains[b]|
    requires shorter == chains[b][..p] + chains[b][p + 1..] && now == found - {chains[b][p].key}
    ensures Shape(chains[b := shorter], now, bucketOf)
  {
    var chain, item := chains[b], chains[b][p];
    assert found == now[item.key := item];
    TotalChanged(chains, b, shorter, BUCKETS);
    DeletedAscending(chain, p);
    assert Chain(shorter, b, now, bucketOf);
    forall key | key in now
      ensures Leads(chains[b := shorter], now, bucketOf, key)
    {
      assert Leads(chains, found, bucketOf, key);
      if bucketOf(key) == b {
        StaysIn(chain, p, found[key]);
      }
    }
    forall c | 0 <= c < BUCKETS && c != b
      ensures Chain(chains[c], c, now, bucketOf)
    {
    }
  }

  /** An item is found by its key, and is nowhere else in the hash. */
  lemma OnlyThere<V>(chains: seq<seq<Item<V>>>, found: map<Key, Item<V>>, bucketOf: Key -> nat, b: nat, p: nat)
    requires Shape(chains, found, bucketOf) && b < BUCKETS && p < |chains[b]|
    ensures var x := chains[b][p];
      && x.key in found && found[x.key] == x
      && (forall i :: 0 <= i < |chains[b]| && i != p ==> chains[b][i] != x)
      && (forall c :: 0 <= c < BUCKETS && c != b ==> x !in chains[c])
  {
    var chain := chains[b];
    forall i | 0 <= i < |chain| && i != p
      ensures chain[i] != chain[p]
    {
      if i < p {
        DifferentKeys(chain[i].key, chain[p].key);
      } else {
        DifferentKeys(chain[p].key, chain[i].key);
      }
    }
  }

  class Hash<V> {
    const undef: V
    const bucketOf: Key -> nat
    var first: array<Item?<V>>
    var counts: array<nat>
    ghost var chains: seq<seq<Item<V>>>
    /** The item that each key leads to */
    ghost var found: map<Key, Item<V>>

    ghost function Nodes(): set<Item<V>>
      reads this
    {
      set key | key in found :: found[key]
    }

    ghost predicate Valid()
      reads this, first, counts, Nodes()
    {
      && first.Length == counts.Length == |chains| == BUCKETS && Shape(chains, found, bucketOf)
      && (forall key :: bucketOf(key) < BUCKETS)
      && (forall b :: 0 <= b < BUCKETS ==> counts[b] == |chains[b]|)
      && (forall b :: 0 <= b < BUCKETS ==> Linked(first[b], chains[b]))
    }

    /** The map that the hash stands for */
    ghost function Contents(): map<Key, V>
      reads this, Nodes()
    {
      map key | key in found :: found[key].value
    }

    constructor (undef: V)
      ensures Valid() && fresh(first) && fresh(counts) && Contents() == map[] && this.undef == undef
      ensures forall key :: bucketOf(key) == BucketOf(key)
    {
      this.undef, bucketOf := undef, BucketOf;
      first := new Item?<V>[BUCKETS](_ => null);
      counts := new nat[BUCKETS](_ => 0);
      chains := seq(BUCKETS, _ => []);
      found := map[];
      new;
      NothingIn(chains, BUCKETS);
    }

    /** The walk that lookup, deletion and the test for existence share: it stops at the key, at the
        first key that is greater, or at the end. */
    method Search(key: Key) returns (b: nat, ghost p: nat, prev: Item?<V>, item: Item?<V>, hit: bool)
      requires Valid()
      ensures b == bucketOf(key) < BUCKETS && p <= |chains[b]| && Passed(chains[b], p, key)
      ensures prev == At(chains[b], p - 1)
      ensures item == At(chains[b], p)
      ensures hit ==> p < |chains[b]| && item == chains[b][p] && item.key == key
      ensures !hit ==> Place(chains[b], p, key)
      ensures hit <==> key in found
      ensures hit ==> found[key] == item
    {
      hide At, Less, Ascending;
      b, p, prev := bucketOf(key), 0, null;
      item := first[b];
      assert Linked(first[b], chains[b]);
      AtIs(chains[b], -1);
      AtIs(chains[b], 0);
      while item != null
        invariant p <= |chains[b]| && Passed(chains[b], p, key)
        invariant prev == At(chains[b], p - 1)
        invariant item == At(chains[b], p)
        decreases |chains[b]| - p
      {
        AtIs(chains[b], p);
        var cmp := Compare(item.key, key);
        CompareZero(item.key, key);
        if cmp == 0 {
          hit := true;
          return;
        } else if cmp > 0 {
          CompareFlips(key, item.key);
          LessIs(key, item.key);
          break;
        }
        assert Less(item.key, key) by {
          LessIs(item.key, key);
        }
        LinkAt(first[b], chains[b], p);
        AtIs(chains[b], p + 1);
        prev, item, p := item, item.next, p + 1;
      }
      AtIs(chains[b], p);
      EarlyExit(chains, found, bucketOf, p, key);
      hit := false;
    }

    /** _hash_key_exists_unlocked */
    method Exists(key: Key) returns (there: bool)
      requires Valid()
      ensures there <==> key in Contents()
    {
      var b, p, prev, item, hit := Search(key);
      there := hit;
    }

    /** What came after prev, or at the head of the bucket, gives way to target; the chains are then
        linked as the hash says they are. */
    method Lead(b: nat, prev: Item?<V>, target: Item?<V>)
      requires b < BUCKETS == first.Length == |chains|
      requires forall c :: 0 <= c < BUCKETS && c != b ==> Linked(first[c], chains[c])
      requires prev != null ==> forall c :: 0 <= c < BUCKETS && c != b ==> prev !in chains[c]
      requires var now := chains[b];
        && At(now, 0) == (if prev == null then target else first[b])
        && forall i :: 0 <= i < |now| ==> At(now, i + 1) == if now[i] == prev then target else now[i].next
      modifies first, (if prev == null then {} else {prev})`next
      ensures forall c :: 0 <= c < BUCKETS ==> Linked(first[c], chains[c])
    {
      hide At;
      if prev != null {
        prev.next := target;
      } else {
        first[b] := target;
      }
      forall c | 0 <= c < BUCKETS
        ensures Linked(first[c], chains[c])
      {
        if c != b {
          assert old(Linked(first[c], chains[c]));
        }
      }
    }

    /** Links a new item in at its place: after prev, or at the head of the bucket. */
    method LinkIn(b: nat, ghost p: nat, prev: Item?<V>, next: Item?<V>, key: Key) returns (item: Item<V>)
      requires Valid() && b == bucketOf(key) && p <= |chains[b]| && Place(chains[b], p, key)
      requires prev == At(chains[b], p - 1)
      requires next == At(chains[b], p)
      modifies this`chains, this`found, first, counts, Nodes()`next
      ensures Valid() && fresh(item) && item.value == undef
      ensures key !in old(found) && found == old(found)[key := item]
    {
      hide Shape, Ascending, Chain, Leads, Place, Passed, Total, At, Less, Linked;
      item := new Item(key, undef);
      ghost var chain, longer := chains[b], chains[b][..p] + [item] + chains[b][p..];
      Inserted(chains, found, bucketOf, b, p, item, longer, found[key := item]);
      AtIs(chain, p - 1);
      if p > 0 {
        OnlyThere(chains, found, bucketOf, b, p - 1);
      }
      item.next := next;
      HeadIs(first[b], chain);
      AllLinked(first[b], chain);
      AfterInsertion(chain, p, item, longer, 0);
      forall i | 0 <= i < |longer|
        ensures At(longer, i + 1) == if longer[i] == prev then item else longer[i].next
      {
        AfterInsertion(chain, p, item, longer, i);
      }
      chains, found := chains[b := longer], found[key := item];
      counts[b] := counts[b] + 1;
      Lead(b, prev, item);
    }

    /** _hash_key_item_unlocked: the item with the key, which is created if there is none */
    method Lookup(key: Key) returns (item: Item<V>)
      requires Valid()
      modifies this`chains, this`found, first, counts, Nodes()`next
      ensures Valid() && key in found && item == found[key]
      ensures key in old(found) ==> found == old(found)
      ensures key !in old(found) ==> fresh(item) && found == old(found)[key := item]
      ensures Contents() == old(Contents())[key := if key in old(found) then old(found[key].value) else undef]
    {
      hide Shape, Ascending, Chain, Leads, Place, Passed, Total;
      var b, p, prev, next, hit := Search(key);
      if hit {
        item := next;
      } else {
        item := LinkIn(b, p, prev, next, key);
      }
    }

    /** _hash_key_delete_unlocked: unlinks the item with the key, if there is one. */
    method Delete(key: Key)
      requires Valid()
      modifies this`chains, this`found, first, counts, Nodes()`next
      ensures Valid() && found == old(found) - {key}
      ensures Contents() == old(Contents()) - {key}
    {
      hide Shape, Ascending, Chain, Leads, Place, Passed, Total;
      var b, p, prev, item, hit := Search(key);
      if hit {
        LinkOut(b, p, prev, item);
      }
    }

    method LinkOut(b: nat, ghost p: nat, prev: Item?<V>, item: Item<V>)
      requires Valid() && b < BUCKETS && p < |chains[b]| && item == chains[b][p]
      requires prev == At(chains[b], p - 1)
      modifies this`chains, this`found, first, counts, Nodes()`next
      ensures Valid() && found == old(found) - {item.key}
    {
      hide Shape, Ascending, Chain, Leads, Place, Passed, Total, At, Less, Linked;
      ghost var chain, shorter := chains[b], chains[b][..p] + chains[b][p + 1..];
      AtIs(chain, p - 1);
      if p > 0 {
        OnlyThere(chains, found, bucketOf, b, p - 1);
      }
      Deleted(chains, found, bucketOf, b, p, shorter, found - {item.key});
      HeadIs(first[b], chain);
      AllLinked(first[b], chain);
      AfterDeletion(chain, p, shorter, 0);
      forall i | 0 <= i < |shorter|
        ensures At(shorter, i + 1) == if shorter[i] == prev then item.next else shorter[i].next
      {
        AfterDeletion(chain, p, shorter, i);
      }
      chains, found := chains[b := shorter], found - {item.key};
      counts[b] := counts[b] - 1;
      Lead(b, prev, item.next);
    }

    /** _hash_size_unlocked: the number of keys */
    method Size() returns (n: nat)
      requires Valid()
      ensures n == |Contents()| == |found|
    {
      hide At, Shape;
      n := 0;
      for b := 0 to BUCKETS
        invariant n == Total(chains, b)
      {
        n := n + counts[b];
      }
      assert Contents().Keys == found.Keys;
      AllCounted(chains, found, bucketOf);
    }

    /** Lookup, then scalar_set_value on what it found */
    method Store(key: Key, value: V)
      requires Valid()
      modifies this`chains, this`found, first, counts, Nodes()
      ensures Valid() && Contents() == old(Contents())[key := value]
      ensures forall x :: x in Nodes() ==> x in old(Nodes()) || fresh(x)
    {
      hide Shape, Less, At;
      var item := Lookup(key);
      ghost var before := Contents();
      Reaches(chains, found, bucketOf);
      item.value := value;
      forall b | 0 <= b < BUCKETS
        ensures Linked(first[b], chains[b])
      {
      }
      assert Contents() == before[key := value];
    }

    /** _hash_destroy and _hash_init: no items are left. */
    method Clear()
      requires Valid()
      modifies this`chains, this`found, first, counts
      ensures Valid() && Contents() == map[] && Nodes() == {}
    {
      hide Shape, Less;
      forall b | 0 <= b < BUCKETS {
        first[b] := null;
      }
      forall b | 0 <= b < BUCKETS {
        counts[b] := 0;
      }
      chains, found := seq(BUCKETS, _ => []), map[];
      EmptyShape(chains, found, bucketOf);
    }

    /** hash_list_pairs: every key once, bucket by bucket and in order, each with its value */
    method ListPairs(text: Key -> V) returns (pairs: array<V>)
      requires Valid()
      ensures fresh(pairs) && IsListing(pairs[..], Flat(chains, BUCKETS), Contents(), text)
    {
      hide Shape, Less, Linked, At, Total, Flat, KeysOf, Listed;
      var n := Size();
      AllCounted(chains, found, bucketOf);
      pairs := new V[2 * n](_ => undef);
      var bucket, i := 0, 0;
      StartsEmpty(chains, pairs[..], Contents(), text);
      while i < n && bucket < BUCKETS
        invariant bucket <= BUCKETS && i == Total(chains, bucket)
        invariant Listed(pairs[..], Flat(chains, bucket), Contents(), text)
        decreases BUCKETS - bucket
      {
        if counts[bucket] > 0 {
          i := ListBucket(pairs, bucket, i, n, text);
        } else {
          EmptyBucket(chains, bucket);
        }
        bucket := bucket + 1;
      }
      TotalGrows(chains, bucket, BUCKETS);
      FlatLength(chains, BUCKETS);
      FlatIsListing(chains, found, bucketOf, Contents(), pairs[..], text);
    }

    /** The inner loop of the listing: one bucket's chain */
    method ListBucket(pairs: array<V>, bucket: nat, start: nat, n: nat, text: Key -> V) returns (i: nat)
      requires Valid() && bucket < BUCKETS && start == Total(chains, bucket)
      requires n == Total(chains, BUCKETS) && pairs.Length == 2 * n
      requires (pairs as object) != first && (pairs as object) != counts
      requires Listed(pairs[..], Flat(chains, bucket), Contents(), text)
      modifies pairs
      ensures i == Total(chains, bucket + 1) <= n
      ensures Listed(pairs[..], Flat(chains, bucket + 1), Contents(), text)
    {
      hide Shape, Less, At, Flat, Linked, Listed, KeysOf, Total;
      var item := first[bucket];
      i := start;
      ghost var p, chain, contents := 0, chains[bucket], Contents();
      ghost var keys := Flat(chains, bucket);
      HeadIs(first[bucket], chain);
      AtIs(chain, 0);
      TotalGrows(chains, bucket + 1, BUCKETS);
      FlatStep(chains, bucket);
      FlatLength(chains, bucket);
      NoKeysYet(keys, chain);
      while i < n && item != null
        invariant p <= |chain| && i == start + p == |keys| && item == At(chain, p)
        invariant Linked(first[bucket], chain)
        invariant keys == Flat(chains, bucket) + KeysOf(chain, p) && Listed(pairs[..], keys, contents, text)
        decreases |chain| - p
      {
        AtIs(chain, p);
        ItemsFound(chains, found, bucketOf, bucket, p);
        ghost var was := pairs[..];
        pairs[2 * i] := text(item.key);
        pairs[2 * i + 1] := item.value;
        OneMoreListed(was, pairs[..], keys, item.key, contents, text);
        OneMoreKey(Flat(chains, bucket), chain, p);
        LinkAt(first[bucket], chain, p);
        keys := keys + [item.key];
        item, i, p := item.next, i + 1, p + 1;
      }
      AtIs(chain, p);
      assert Contents() == contents;
    }

    /** hash_fill: starts over, then stores the pairs from left to right. */
    method Fill(pairs: seq<V>, textOf: V -> Key)
      requires Valid() && |pairs| % 2 == 0
      modifies this`chains, this`found, first, counts
      ensures Valid() && Contents() == Filled(pairs, textOf, |pairs| / 2)
      ensures forall x :: x in Nodes() ==> fresh(x)
    {
      hide Valid, Contents, Nodes;
      Clear();
      var i := 0;
      ghost var n, half := 0, |pairs| / 2;
      while i < |pairs|
        invariant i == 2 * n && n <= half
        invariant Valid() && Contents() == Filled(pairs, textOf, n)
        invariant forall x :: x in Nodes() ==> fresh(x)
      {
        var key := textOf(pairs[i]);
        Store(key, pairs[i + 1]);
        i, n := i + 2, n + 1;
      }
    }
  }

  // ---------- listings ----------

  /** The keys of the first p items of a chain */
  function KeysOf<V>(chain: seq<Item<V>>, p: nat): seq<Key>
    requires p <= |chain|
  {
    if p == 0 then [] else KeysOf(chain, p - 1) + [chain[p - 1].key]
  }

  /** The keys of the first n buckets, one after the other */
  function Flat<V>(chains: seq<seq<Item<V>>>, n: nat): seq<Key>
    requires n <= |chains|
  {
    if n == 0 then [] else Flat(chains, n - 1) + KeysOf(chains[n - 1], |chains[n - 1]|)
  }

  lemma {:induction false} KeysOfAt<V>(chain: seq<Item<V>>, p: nat)
    requires p <= |chain|
    ensures |KeysOf(chain, p)| == p && forall i :: 0 <= i < p ==> KeysOf(chain, p)[i] == chain[i].key
  {
    if p > 0 {
      KeysOfAt(chain, p - 1);
    }
  }

  lemma {:induction false} FlatLength<V>(chains: seq<seq<Item<V>>>, n: nat)
    requires n <= |chains|
    ensures |Flat(chains, n)| == Total(chains, n)
  {
    if n > 0 {
      FlatLength(chains, n - 1);
      KeysOfAt(chains[n - 1], |chains[n - 1]|);
    }
  }

  lemma {:induction false} TotalGrows<V>(chains: seq<seq<Item<V>>>, n: nat, m: nat)
    requires n <= m <= |chains|
    ensures Total(chains, n) <= Total(chains, m)
    ensures Total(chains, n) == Total(chains, m) ==> Flat(chains, n) == Flat(chains, m)
  {
    if n < m {
      TotalGrows(chains, n, m - 1);
    }
  }

  /** Listed keys are in the hash, and come from the buckets listed. */
  lemma {:induction false} FlatFound<V>(chains: seq<seq<Item<V>>>, found: map<Key, Item<V>>, bucketOf: Key -> nat,
                                        n: nat, i: nat)
    requires Shape(chains, found, bucketOf) && n <= BUCKETS && i < |Flat(chains, n)|
    ensures Flat(chains, n)[i] in found && bucketOf(Flat(chains, n)[i]) < n
  {
    var before := Flat(chains, n - 1);
    KeysOfAt(chains[n - 1], |chains[n - 1]|);
    assert Chain(chains[n - 1], n - 1, found, bucketOf);
    if i < |before| {
      FlatFound(chains, found, bucketOf, n - 1, i);
    } else {
      assert Flat(chains, n)[i] == chains[n - 1][i - |before|].key;
    }
  }

  /** No key is listed twice. */
  lemma {:induction false} FlatOnce<V>(chains: seq<seq<Item<V>>>, found: map<Key, Item<V>>, bucketOf: Key -> nat,
                                       n: nat, i: nat, j: nat)
    requires Shape(chains, found, bucketOf) && n <= BUCKETS && i < j < |Flat(chains, n)|
    ensures Flat(chains, n)[i] != Flat(chains, n)[j]
  {
    var before, chain := Flat(chains, n - 1), chains[n - 1];
    KeysOfAt(chain, |chain|);
    assert Chain(chain, n - 1, found, bucketOf);
    if j < |before| {
      FlatOnce(chains, found, bucketOf, n - 1, i, j);
    } else if i < |before| {
      FlatFound(chains, found, bucketOf, n - 1, i);
      assert Flat(chains, n)[j] == chain[j - |before|].key;
    } else {
      DifferentKeys(chain[i - |before|].key, chain[j - |before|].key);
    }
  }

  /** Keys are listed bucket after bucket, and in ascending order within each. */
  lemma {:induction false} FlatInOrder<V>(chains: seq<seq<Item<V>>>, found: map<Key, Item<V>>, bucketOf: Key -> nat,
                                          n: nat, i: nat, j: nat)
    requires Shape(chains, found, bucketOf) && n <= BUCKETS && i < j < |Flat(chains, n)|
    ensures var a, b := Flat(chains, n)[i], Flat(chains, n)[j];
      bucketOf(a) < bucketOf(b) || (bucketOf(a) == bucketOf(b) && Less(a, b))
  {
    hide Less;
    var before, chain := Flat(chains, n - 1), chains[n - 1];
    KeysOfAt(chain, |chain|);
    assert Chain(chain, n - 1, found, bucketOf);
    if j < |before| {
      FlatInOrder(chains, found, bucketOf, n - 1, i, j);
    } else {
      assert Flat(chains, n)[j] == chain[j - |before|].key;
      if i < |before| {
        FlatFound(chains, found, bucketOf, n - 1, i);
      } else {
        assert Flat(chains, n)[i] == chain[i - |before|].key;
      }
    }
  }

  /** Every item of the buckets listed is listed. */
  lemma {:induction false} FlatCovers<V>(chains: seq<seq<Item<V>>>, n: nat, b: nat, p: nat)
    requires b < n <= |chains| && p < |chains[b]|
    ensures chains[b][p].key in Flat(chains, n)
  {
    KeysOfAt(chains[n - 1], |chains[n - 1]|);
    if b < n - 1 {
      FlatCovers(chains, n - 1, b, p);
    } else {
      assert Flat(chains, n)[|Flat(chains, n - 1)| + p] == chains[b][p].key;
    }
  }

  lemma NoKeysYet<V>(keys: seq<Key>, chain: seq<Item<V>>)
    ensures keys + KeysOf(chain, 0) == keys
  {
  }

  lemma OneMoreKey<V>(keys: seq<Key>, chain: seq<Item<V>>, p: nat)
    requires p < |chain|
    ensures keys + KeysOf(chain, p + 1) == (keys + KeysOf(chain, p)) + [chain[p].key]
  {
  }

  /** The first pairs are these keys, as scalars, with their values. */
  ghost predicate Listed<V>(pairs: seq<V>, keys: seq<Key>, contents: map<Key, V>, text: Key -> V)
  {
    && 2 * |keys| <= |pairs|
    && forall i :: 0 <= i < |keys| ==>
         keys[i] in contents && pairs[2 * i] == text(keys[i]) && pairs[2 * i + 1] == contents[keys[i]]
  }

  lemma OneMoreListed<V>(was: seq<V>, pairs: seq<V>, keys: seq<Key>, key: Key, contents: map<Key, V>, text: Key -> V)
    requires Listed(was, keys, contents, text) && |was| == |pairs| && 2 * |keys| + 2 <= |pairs| && key in contents
    requires forall k :: 0 <= k < 2 * |keys| ==> pairs[k] == was[k]
    requires pairs[2 * |keys|] == text(key) && pairs[2 * |keys| + 1] == contents[key]
    ensures Listed(pairs, keys + [key], contents, text)
  {
    var more := keys + [key];
    forall i | 0 <= i < |more|
      ensures more[i] in contents && pairs[2 * i] == text(more[i]) && pairs[2 * i + 1] == contents[more[i]]
    {
      if i < |keys| {
        assert pairs[2 * i] == was[2 * i] && pairs[2 * i + 1] == was[2 * i + 1];
      }
    }
  }

  lemma StartsEmpty<V>(chains: seq<seq<Item<V>>>, pairs: seq<V>, contents: map<Key, V>, text: Key -> V)
    ensures Total(chains, 0) == 0 && Listed(pairs, Flat(chains, 0), contents, text)
  {
  }

  lemma EmptyBucket<V>(chains: seq<seq<Item<V>>>, b: nat)
    requires b < |chains| && chains[b] == []
    ensures Total(chains, b + 1) == Total(chains, b) && Flat(chains, b + 1) == Flat(chains, b)
  {
  }

  lemma FlatStep<V>(chains: seq<seq<Item<V>>>, b: nat)
    requires b < |chains|
    ensures Flat(chains, b + 1) == Flat(chains, b) + KeysOf(chains[b], |chains[b]|)
    ensures Total(chains, b + 1) == Total(chains, b) + |chains[b]|
  {
  }

  lemma ItemsFound<V>(chains: seq<seq<Item<V>>>, found: map<Key, Item<V>>, bucketOf: Key -> nat, b: nat, p: nat)
    requires Shape(chains, found, bucketOf) && b < BUCKETS && p < |chains[b]|
    ensures chains[b][p].key in found && found[chains[b][p].key] == chains[b][p]
  {
    assert Chain(chains[b], b, found, bucketOf);
  }

  /** The pairs are the keys, each once and as a scalar, with their values. */
  ghost predicate IsListing<V>(pairs: seq<V>, keys: seq<Key>, contents: map<Key, V>, text: Key -> V)
  {
    && |pairs| == 2 * |keys| && |keys| == |contents| && Listed(pairs, keys, contents, text)
    && (forall i, j :: 0 <= i < j < |keys| ==> keys[i] != keys[j])
    && (forall key :: key in contents ==> key in keys)
  }

  lemma FlatIsListing<V>(chains: seq<seq<Item<V>>>, found: map<Key, Item<V>>, bucketOf: Key -> nat,
                         contents: map<Key, V>,
                         pairs: seq<V>, text: Key -> V)
    requires Shape(chains, found, bucketOf) && contents.Keys == found.Keys
    requires Listed(pairs, Flat(chains, BUCKETS), contents, text) && |pairs| == 2 * |Flat(chains, BUCKETS)|
    ensures IsListing(pairs, Flat(chains, BUCKETS), contents, text)
  {
    var keys := Flat(chains, BUCKETS);
    FlatLength(chains, BUCKETS);
    assert |contents| == |contents.Keys| == |found.Keys| == |found|;
    forall i, j | 0 <= i < j < |keys|
      ensures keys[i] != keys[j]
    {
      FlatOnce(chains, found, bucketOf, BUCKETS, i, j);
    }
    forall key | key in contents
      ensures key in keys
    {
      assert Leads(chains, found, bucketOf, key);
      var p :| 0 <= p < |chains[bucketOf(key)]| && chains[bucketOf(key)][p] == found[key];
      FlatCovers(chains, BUCKETS, bucketOf(key), p);
    }
  }

  /** Filling any hash from a listing brings back the map listed. */
  lemma ListingFillsBack<V>(pairs: seq<V>, keys: seq<Key>, contents: map<Key, V>, text: Key -> V, textOf: V -> Key)
    requires IsListing(pairs, keys, contents, text) && forall key :: textOf(text(key)) == key
    ensures Filled(pairs, textOf, |keys|) == contents
  {
    FilledFrom(pairs, keys, contents, text, textOf, |keys|);
    forall key | key in contents
      ensures key in Filled(pairs, textOf, |keys|)
    {
      var i :| 0 <= i < |keys| && keys[i] == key;
    }
  }

  lemma {:induction false} FilledFrom<V>(pairs: seq<V>, keys: seq<Key>, contents: map<Key, V>, text: Key -> V,
                                         textOf: V -> Key, n: nat)
    requires IsListing(pairs, keys, contents, text) && n <= |keys| && forall key :: textOf(text(key)) == key
    ensures forall key :: key in Filled(pairs, textOf, n) ==>
      key in contents && Filled(pairs, textOf, n)[key] == contents[key]
    ensures forall i :: 0 <= i < n ==> keys[i] in Filled(pairs, textOf, n)
  {
    if n > 0 {
      FilledFrom(pairs, keys, contents, text, textOf, n - 1);
      assert pairs[2 * (n - 1)] == text(keys[n - 1]) && pairs[2 * (n - 1) + 1] == contents[keys[n - 1]];
    }
  }

  /** Of several pairs with the same key the last one counts; a key of no pair is not there. */
  lemma {:induction false} LastPairWins<V>(pairs: seq<V>, textOf: V -> Key, n: nat, key: Key)
    requires 2 * n <= |pairs|
    ensures key in Filled(pairs, textOf, n) <==> exists i :: 0 <= i < n && textOf(pairs[2 * i]) == key
    ensures forall i ::
      0 <= i < n && textOf(pairs[2 * i]) == key && (forall j :: i < j < n ==> textOf(pairs[2 * j]) != key) ==>
      key in Filled(pairs, textOf, n) && Filled(pairs, textOf, n)[key] == pairs[2 * i + 1]
  {
    if n > 0 {
      LastPairWins(pairs, textOf, n - 1, key);
      assert pairs[2 * n - 2] == pairs[2 * (n - 1)];
    }
  }

  /** What storing the first n pairs from left to right leads to */
  function Filled<V>(pairs: seq<V>, textOf: V -> Key, n: nat): map<Key, V>
    requires 2 * n <= |pairs|
  {
    if n == 0 then map[] else Filled(pairs, textOf, n - 1)[textOf(pairs[2 * n - 2]) := pairs[2 * n - 1]]
  }

  lemma Reaches<V>(chains: seq<seq<Item<V>>>, found: map<Key, Item<V>>, bucketOf: Key -> nat)
    requires Shape(chains, found, bucketOf)
    ensures forall key :: key in found ==> found[key].key == key
  {
    forall key | key in found
      ensures found[key].key == key
    {
      assert Leads(chains, found, bucketOf, key);
    }
  }

  function At<V>(chain: seq<Item<V>>, i: int): Item?<V>
  {
    if 0 <= i < |chain| then chain[i] else null
  }

  lemma AtIs<V>(chain: seq<Item<V>>, i: int)
    ensures if 0 <= i < |chain| then At(chain, i) == chain[i] else At(chain, i) == null
  {
  }

  lemma LessIs(a: Key, b: Key)
    ensures Less(a, b) <==> Compare(a, b) < 0
  {
  }

  lemma AllCounted<V>(chains: seq<seq<Item<V>>>, found: map<Key, Item<V>>, bucketOf: Key -> nat)
    requires Shape(chains, found, bucketOf)
    ensures Total(chains, BUCKETS) == |found|
  {
  }

  /** The items of a chain with one more at p, and what follows each */
  lemma AfterInsertion<V>(chain: seq<Item<V>>, p: nat, item: Item<V>, longer: seq<Item<V>>, i: nat)
    requires p <= |chain| && longer == chain[..p] + [item] + chain[p..] && i < |longer|
    ensures longer[i] == if i < p then chain[i] else if i == p then item else chain[i - 1]
    ensures At(longer, i + 1) == if i + 1 < p then At(chain, i + 1) else if i + 1 == p then item else At(chain, i)
    ensures At(longer, 0) == if p == 0 then item else At(chain, 0)
  {
  }

  lemma AfterDeletion<V>(chain: seq<Item<V>>, p: nat, shorter: seq<Item<V>>, i: nat)
    requires p < |chain| && shorter == chain[..p] + chain[p + 1..]
    ensures i < |shorter| ==> shorter[i] == chain[if i < p then i else i + 1]
    ensures At(shorter, i + 1) == At(chain, if i + 1 < p then i + 1 else i + 2)
    ensures At(shorter, 0) == At(chain, if 0 < p then 0 else 1)
  {
  }

  ghost predicate Linked<V>(head: Item?<V>, chain: seq<Item<V>>)
    reads set i | 0 <= i < |chain| :: chain[i]
  {
    && head == At(chain, 0)
    && forall i :: 0 <= i < |chain| ==> chain[i].next == At(chain, i + 1)
  }

  lemma LinkAt<V>(head: Item?<V>, chain: seq<Item<V>>, p: nat)
    requires Linked(head, chain) && p < |chain|
    ensures chain[p].next == At(chain, p + 1)
  {
  }

  lemma HeadIs<V>(head: Item?<V>, chain: seq<Item<V>>)
    requires Linked(head, chain)
    ensures head == At(chain, 0)
  {
  }

  lemma AllLinked<V>(head: Item?<V>, chain: seq<Item<V>>)
    requires Linked(head, chain)
    ensures forall i :: 0 <= i < |chain| ==> chain[i].next == At(chain, i + 1)
  {
  }

  lemma EmptyShape<V>(chains: seq<seq<Item<V>>>, found: map<Key, Item<V>>, bucketOf: Key -> nat)
    requires |chains| == BUCKETS && found == map[] && forall b :: 0 <= b < BUCKETS ==> chains[b] == []
    ensures Shape(chains, found, bucketOf)
  {
    NothingIn(chains, BUCKETS);
  }

  lemma {:induction false} NothingIn<V>(chains: seq<seq<Item<V>>>, n: nat)
    requires n <= |chains| && forall b :: 0 <= b < n ==> chains[b] == []
    ensures Total(chains, n) == 0
  {
    if n > 0 {
      NothingIn(chains, n - 1);
    }
  }
}
