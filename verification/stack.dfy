/** The stacks that hold data and saved states: a growing buffer, pushed and popped from its end. */
module Stacks {
  import opened Growth

  const INITIAL_SIZE: nat := 16

  class Stack<T(0)> {
    var items: array<T>
    var count: nat

    /** How many items growing has copied so far, and the most the stack has held */
    ghost var copied: nat
    ghost var peak: nat

    ghost predicate Valid()
      reads this
    {
      && count <= peak && count <= items.Length && INITIAL_SIZE <= items.Length && IsPow2(items.Length)
      && Thrifty(copied, peak, items.Length)
    }

    ghost function Contents(): seq<T>
      reads this, items
      requires Valid()
    {
      items[..count]
    }

    constructor ()
      ensures Valid() && fresh(items) && Contents() == [] && copied == 0 && peak == 0
    {
      items := new T[INITIAL_SIZE];
      count, copied, peak := 0, 0, 0;
      new;
      assert INITIAL_SIZE == Pow2(4);
    }

    /** STACK_RESERVE: a buffer that is too small is replaced by one of the next power of two. */
    method Reserve(size: nat)
      requires Valid() && count <= size < MOST && (size > items.Length ==> size <= peak)
      modifies this`items, this`copied
      ensures Valid() && items.Length >= size && Contents() == old(Contents())
      ensures items == old(items) || fresh(items)
      ensures items == old(items) <==> size <= old(items.Length)
      ensures copied == old(copied) + if items == old(items) then 0 else count
    {
      if items.Length >= size {
        return;
      }
      var room := NextUpPow2(size);
      Doubles(items.Length, size, room, copied, peak, count);
      var bigger := new T[room];
      forall k | 0 <= k < count {
        bigger[k] := items[k];
      }
      copied := copied + count;
      items := bigger;
    }

    /** STACK_PUSH of n values: the last goes first, so that the first ends on top. */
    method Push(values: array<T>, n: nat)
      requires Valid() && 0 < n <= values.Length && values != items && count + n < MOST
      modifies this, items
      ensures Valid() && (items == old(items) || fresh(items))
      ensures Contents() == old(Contents()) + Backwards(values[..n])
      ensures items == old(items) <==> old(count) + n <= old(items.Length)
      ensures copied == old(copied) + if items == old(items) then 0 else old(count)
      ensures peak == if old(peak) < count then count else old(peak)
      ensures copied <= items.Length - 16 && (items.Length <= 16 || items.Length <= 2 * peak)
    {
      hide IsPow2;
      ghost var was := Contents();
      peak := if peak < count + n then count + n else peak;
      Reserve(count + n);
      var i := n;
      while i > 0
        invariant 0 <= i <= n && Valid() && count == |was| + n - i && |was| + n <= peak
        invariant |was| + n <= items.Length && values != items
        invariant items == old(items) || fresh(items)
        invariant items == old(items) <==> |was| + n <= old(items.Length)
        invariant copied == old(copied) + if items == old(items) then 0 else old(count)
        invariant peak == if old(peak) < |was| + n then |was| + n else old(peak)
        invariant forall k :: 0 <= k < |was| ==> items[k] == was[k]
        invariant forall k :: |was| <= k < count ==> items[k] == values[n - 1 - (k - |was|)]
        invariant values[..n] == old(values[..n])
      {
        i := i - 1;
        items[count] := values[i];
        count := count + 1;
      }
      assert Contents() == was + Backwards(values[..n]);
    }

    /** STACK_POP of n values: the top goes into the first place. */
    method Pop(n: nat, results: array<T>)
      requires Valid() && 0 < n <= count && n <= results.Length && results != items
      modifies this`count, results
      ensures Valid() && Contents() == old(Contents())[..old(count) - n]
      ensures results[..n] == Backwards(old(Contents())[old(count) - n..])
      ensures forall k :: n <= k < results.Length ==> results[k] == old(results[k])
    {
      ghost var was := Contents();
      var i := 0;
      while i < n
        invariant i <= n && count == |was| - i
        invariant forall k :: 0 <= k < i ==> results[k] == was[|was| - 1 - k]
        invariant forall k :: n <= k < results.Length ==> results[k] == old(results[k])
      {
        count := count - 1;
        results[i] := items[count];
        i := i + 1;
      }
      assert results[..n] == Backwards(was[|was| - n..]);
    }

    /** STACK_SWAP */
    method Swap()
      requires Valid() && count > 1
      modifies items
      ensures Valid()
      ensures Contents() == old(Contents())[..count - 2] + old([items[count - 1], items[count - 2]])
    {
      items[count - 2], items[count - 1] := items[count - 1], items[count - 2];
    }

    /** STACK_DUP and STACK_OVER: pushes a copy of the item `depth` places below the top, read before
        the buffer can be replaced. The source passes its address instead; the buffer that address
        points into has been given up exactly when the stack was full. */
    method Again(depth: nat)
      requires Valid() && depth < count && count + 1 < MOST
      modifies this, items
      ensures Valid() && (items == old(items) || fresh(items))
      ensures Contents() == old(Contents()) + [old(Contents())[old(count) - 1 - depth]]
      ensures items != old(items) <==> old(count) == old(items.Length)
    {
      var one := new T[1];
      one[0] := items[count - 1 - depth];
      assert Backwards(one[..1]) == [one[0]];
      Push(one, 1);
    }
  }

  /** Copying never outweighs the room it made, and the room never exceeds twice what was needed. */
  ghost predicate Thrifty(copied: nat, peak: nat, room: nat)
  {
    copied + INITIAL_SIZE <= room && (room <= INITIAL_SIZE || room <= 2 * peak)
  }

  lemma Doubles(oldRoom: nat, size: nat, room: nat, copied: nat, peak: nat, count: nat)
    requires IsPow2(oldRoom) && oldRoom < size <= peak && IsNextPow2(room, size)
    requires count <= oldRoom && Thrifty(copied, peak, oldRoom)
    ensures room >= 2 * oldRoom && Thrifty(copied + count, peak, room)
  {
    var j: nat, k: nat :| oldRoom == Pow2(j) && room == Pow2(k);
    if k < j {
      PowGrows(k, j);
    }
    PowGrows(j, k);
  }

  /** What a stack hands over, the top first */
  function Backwards<T>(values: seq<T>): (r: seq<T>)
    ensures |r| == |values| && forall i :: 0 <= i < |r| ==> r[i] == values[|values| - 1 - i]
  {
    seq(|values|, i requires 0 <= i < |values| => values[|values| - 1 - i])
  }

  /** CORO's hand-over of parameters: n values popped from one stack and pushed on another, or back
      on the same, end up in the order they had. */
  method HandOver<T(0)>(from: Stack<T>, to: Stack<T>, n: nat)
    requires from.Valid() && to.Valid() && 0 < n <= from.count && to.count + n < MOST
    requires from != to ==> from.items != to.items
    modifies from, from.items, to, to.items
    ensures from.Valid() && to.Valid()
    ensures from != to ==> from.Contents() == old(from.Contents())[..old(from.count) - n]
    ensures from != to ==> to.Contents() == old(to.Contents()) + old(from.Contents())[old(from.count) - n..]
    ensures from == to ==> to.Contents() == old(to.Contents())
  {
    hide Thrifty, IsPow2;
    var params := new T[n];
    ghost var was := from.Contents();
    ghost var top := was[from.count - n..];
    from.Pop(n, params);
    assert Backwards(params[..n]) == top;
    ghost var below := to.Contents();
    to.Push(params, n);
    assert to.Contents() == below + top;
    assert was == was[..|was| - n] + top;
  }
}
