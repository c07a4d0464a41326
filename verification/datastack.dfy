/** What instructions that work on whole lists have in common: single pushes and pops, and how scalars
    stand for strings and counts. */
module DataStacks {
  import opened Growth
  import opened Strings
  import opened Stacks

  /** Each scalar made from a string or a number reads back as what it was made from. */
  datatype Scalars<!V> = Scalars(undef: V, text: Key -> V, textOf: V -> Key, number: int -> V, intOf: V -> int)
  {
    ghost predicate Sound()
    {
      (forall key :: textOf(text(key)) == key) && (forall n :: intOf(number(n)) == n)
    }
  }

  method PushOne<V(0)>(ds: Stack<V>, v: V)
    requires ds.Valid() && ds.count + 1 < MOST
    modifies ds, ds.items
    ensures ds.Valid() && ds.Contents() == old(ds.Contents()) + [v]
    ensures ds.items == old(ds.items) || fresh(ds.items)
  {
    var one := new V[1](_ => v);
    assert Backwards(one[..1]) == [v];
    ds.Push(one, 1);
  }

  method PopOne<V(0)>(ds: Stack<V>, default: V) returns (v: V)
    requires ds.Valid() && ds.count > 0
    modifies ds
    ensures ds.Valid() && ds.items == old(ds.items) && ds.items[..] == old(ds.items[..])
    ensures old(ds.Contents()) == ds.Contents() + [v]
  {
    var one := new V[1](_ => default);
    ds.Pop(1, one);
    v := one[0];
    assert one[..1] == [v];
  }
}
