/** The instructions that move a whole hash to the data stack and back. */
module HashOps {
  import opened Growth
  import opened Strings
  import opened Hashes
  import opened Stacks
  import opened DataStacks

  /** The stack's buffer is not part of the hash. */
  ghost predicate Separate<V(0)>(h: Hash<V>, ds: Stack<V>)
    reads h, ds
  {
    (ds.items as object) != h.first && (ds.items as object) != h.counts
  }

  /** A count on top of the stack that the instruction can take: as many items are below it, it is not
      negative, which as a size would be too large to allocate, and it is not 1, which would ask for no
      items at all and trip the pop's assertion. */
  predicate Countable<V>(stack: seq<V>, scalars: Scalars<V>)
  {
    stack != [] && var n := scalars.intOf(stack[|stack| - 1]); 0 <= n < |stack| && n != 1
  }

  /** The number of pairs asked for; an item without a partner stays on the stack. */
  function PairsAsked<V>(stack: seq<V>, scalars: Scalars<V>): (n: nat)
    requires Countable(stack, scalars)
    ensures 2 * n < |stack|
    ensures var count := scalars.intOf(stack[|stack| - 1]); count == 2 * n || count == 2 * n + 1
  {
    scalars.intOf(stack[|stack| - 1]) / 2
  }

  function PairsOn<V>(stack: seq<V>, scalars: Scalars<V>): (pairs: seq<V>)
    requires Countable(stack, scalars)
    ensures |pairs| == 2 * PairsAsked(stack, scalars)
    ensures forall i :: 0 <= i < |pairs| ==> pairs[i] == stack[|stack| - 2 - i]
  {
    Backwards(stack[|stack| - 1 - 2 * PairsAsked(stack, scalars)..|stack| - 1])
  }

  function BelowPairs<V>(stack: seq<V>, scalars: Scalars<V>): (below: seq<V>)
    requires Countable(stack, scalars)
    ensures |below| + |PairsOn(stack, scalars)| + 1 == |stack| && below <= stack
  {
    stack[..|stack| - 1 - 2 * PairsAsked(stack, scalars)]
  }

  function WithPairs<V>(stack: seq<V>, pairs: seq<V>, scalars: Scalars<V>): (full: seq<V>)
    ensures |full| == |stack| + |pairs| + 1 && stack <= full && full[|full| - 1] == scalars.number(|pairs|)
    ensures forall i :: 0 <= i < |pairs| ==> full[|full| - 2 - i] == pairs[i]
  {
    stack + Backwards(pairs) + [scalars.number(|pairs|)]
  }

  method PushPairs<V(0)>(ds: Stack<V>, list: array<V>, scalars: Scalars<V>)
    requires ds.Valid() && list != ds.items && ds.count + list.Length + 1 < MOST
    modifies ds, ds.items
    ensures ds.Valid() && ds.Contents() == WithPairs(old(ds.Contents()), list[..], scalars)
    ensures ds.items == old(ds.items) || fresh(ds.items)
  {
    ghost var pairs := list[..];
    var n := list.Length;
    if n > 0 {
      assert list[..n] == pairs;
      ds.Push(list, n);
    }
    PushOne(ds, scalars.number(n));
  }

  method PopPairs<V(0)>(ds: Stack<V>, scalars: Scalars<V>, default: V) returns (pairs: seq<V>)
    requires ds.Valid() && Countable(ds.Contents(), scalars)
    modifies ds
    ensures ds.Valid() && ds.items == old(ds.items)
    ensures pairs == PairsOn(old(ds.Contents()), scalars)
    ensures ds.Contents() == BelowPairs(old(ds.Contents()), scalars)
  {
    ghost var was := ds.Contents();
    var count := PopOne(ds, default);
    var n := scalars.intOf(count);
    pairs := [];
    if n > 0 {
      if n % 2 == 1 {
        n := n - 1;
      }
      var list := new V[n](_ => default);
      ds.Pop(n, list);
      pairs := list[..];
      assert list[..n] == pairs;
    }
  }

  /** HRLISTP, once the reference to the hash is off the stack: pushes the pairs, then their count. */
  method HrListP<V(0)>(h: Hash<V>, ds: Stack<V>, scalars: Scalars<V>) returns (ghost pairs: seq<V>)
    requires h.Valid() && ds.Valid() && Separate(h, ds) && ds.count + 2 * |h.Contents()| + 1 < MOST
    modifies ds, ds.items
    ensures ds.Valid() && (ds.items == old(ds.items) || fresh(ds.items))
    ensures IsListing(pairs, Flat(h.chains, Hashes.BUCKETS), h.Contents(), scalars.text)
    ensures ds.Contents() == WithPairs(old(ds.Contents()), pairs, scalars)
  {
    hide Shape, Linked, Listed, IsListing, Flat, Total, WithPairs;
    ghost var contents := h.Contents();
    var list := h.ListPairs(scalars.text);
    pairs := list[..];
    assert h.Contents() == contents;
    ListingLength(pairs, Flat(h.chains, Hashes.BUCKETS), contents, scalars.text);
    PushPairs(ds, list, scalars);
    assert h.Contents() == contents;
  }

  lemma ListingLength<V>(pairs: seq<V>, keys: seq<Key>, contents: map<Key, V>, text: Key -> V)
    requires IsListing(pairs, keys, contents, text)
    ensures |pairs| == 2 * |contents| == 2 * |keys|
  {
  }

  /** HRFILL, once the reference to the hash is off the stack: pops the count and the pairs, and
      fills the hash from them. False where an assertion of the source fails, which ends the machine. */
  method HrFill<V(0)>(h: Hash<V>, ds: Stack<V>, scalars: Scalars<V>) returns (ok: bool)
    requires h.Valid() && ds.Valid() && Separate(h, ds)
    modifies ds, h`chains, h`found, h.first, h.counts
    ensures h.Valid() && ds.Valid() && (ok <==> old(Countable(ds.Contents(), scalars)))
    ensures ok ==> ds.Contents() == BelowPairs(old(ds.Contents()), scalars)
    ensures ok ==>
      var was := old(ds.Contents());
      h.Contents() == Filled(PairsOn(was, scalars), scalars.textOf, PairsAsked(was, scalars))
    ensures !ok ==> ds.Contents() == old(ds.Contents()) && h.Contents() == old(h.Contents())
  {
    hide Shape, Linked, Listed, IsListing, Flat, Total, PairsOn, BelowPairs, PairsAsked, Filled, Backwards;
    ghost var was := ds.Contents();
    if ds.count == 0 {
      return false;
    }
    var n := scalars.intOf(ds.items[ds.count - 1]);
    if n < 0 || n >= ds.count || n == 1 {
      return false;
    }
    var pairs := PopPairs(ds, scalars, h.undef);
    assert h.Valid();
    assert |pairs| == 2 * PairsAsked(was, scalars);
    h.Fill(pairs, scalars.textOf);
    ok := true;
  }

  /** Listing a hash and filling any hash from what is on the stack copies the map, and leaves the
      stack as it was. */
  method ListThenFill<V(0)>(from: Hash<V>, to: Hash<V>, ds: Stack<V>, scalars: Scalars<V>)
    requires from.Valid() && to.Valid() && ds.Valid() && Separate(from, ds) && Separate(to, ds)
    requires scalars.Sound() && ds.count + 2 * |from.Contents()| + 1 < MOST
    modifies ds, ds.items, to`chains, to`found, to.first, to.counts
    ensures to.Valid() && ds.Valid() && ds.Contents() == old(ds.Contents())
    ensures to.Contents() == old(from.Contents())
  {
    hide Shape, Linked, Listed, IsListing, Flat, Total, WithPairs, Countable, PairsOn, BelowPairs, PairsAsked, Filled;
    ghost var was, contents, keys := ds.Contents(), from.Contents(), Flat(from.chains, Hashes.BUCKETS);
    ghost var pairs := HrListP(from, ds, scalars);
    assert from.Contents() == contents;
    TakesBack(was, pairs, keys, contents, scalars);
    var ok := HrFill(to, ds, scalars);
  }

  /** The instructions agree on how the pairs lie on the stack. */
  lemma TakesBack<V>(stack: seq<V>, pairs: seq<V>, keys: seq<Key>, contents: map<Key, V>, scalars: Scalars<V>)
    requires IsListing(pairs, keys, contents, scalars.text) && scalars.Sound()
    ensures var full := WithPairs(stack, pairs, scalars);
      && Countable(full, scalars) && BelowPairs(full, scalars) == stack
      && Filled(PairsOn(full, scalars), scalars.textOf, PairsAsked(full, scalars)) == contents
  {
    hide Filled, Listed, IsListing, Flat, PairsOn, BelowPairs, PairsAsked, WithPairs;
    var full := WithPairs(stack, pairs, scalars);
    ListingLength(pairs, keys, contents, scalars.text);
    assert Countable(full, scalars) && PairsAsked(full, scalars) == |keys|;
    assert PairsOn(full, scalars) == pairs;
    ListingFillsBack(pairs, keys, contents, scalars.text, scalars.textOf);
  }
}
