/** Arrays: a window of scalar handles in a buffer that grows at either end. */
module Arrays {
  import opened Growth

  const INITIAL_RESERVE: nat := 16

  /** The window from first holds count different handles, and its scalars are all there are. */
  ghost predicate Owned<T>(handles: seq<nat>, first: nat, count: nat, scalars: map<nat, T>)
  {
    && first + count <= |handles| && |scalars| == count
    && (forall k :: first <= k < first + count ==> handles[k] in scalars)
    && (forall j, k :: first <= j < k < first + count ==> handles[j] != handles[k])
  }

  ghost function View<T>(handles: seq<nat>, first: nat, count: nat, scalars: map<nat, T>): (r: seq<T>)
    requires Owned(handles, first, count, scalars)
    ensures |r| == count
    ensures forall i :: 0 <= i < count ==> r[i] == scalars[handles[first + i]]
  {
    seq(count, i requires 0 <= i < count => scalars[handles[first + i]])
  }

  /** scalar_allocate_many has handed out the n handles from start: none is in use. */
  ghost predicate Unused<T>(scalars: map<nat, T>, start: nat, n: nat)
  {
    forall h :: start <= h < start + n ==> h !in scalars
  }

  /** The first n values have been put at the handles from start on. */
  ghost predicate Added<T>(was: map<nat, T>, now: map<nat, T>, start: nat, values: seq<T>, n: nat)
    requires n <= |values|
  {
    && |now| == |was| + n
    && (forall h :: h in was ==> h in now && now[h] == was[h])
    && (forall h :: h in now ==> h in was || start <= h < start + n)
    && (forall h :: start <= h < start + n ==> h in now && now[h] == values[h - start])
  }

  lemma AddedOne<T>(was: map<nat, T>, now: map<nat, T>, start: nat, values: seq<T>, n: nat)
    requires n < |values| && Unused(was, start, |values|) && Added(was, now, start, values, n)
    ensures Added(was, now[start + n := values[n]], start, values, n + 1)
  {
  }

  class Array<T(0)> {
    var items: array<nat>
    var first: nat
    var count: nat
    /** The pooled scalars that belong to this array */
    var scalars: map<nat, T>

    ghost predicate Valid()
      reads this, items
    {
      items.Length >= INITIAL_RESERVE && Owned(items[..], first, count, scalars)
    }

    ghost function Contents(): seq<T>
      reads this, items
      requires Valid()
    {
      View(items[..], first, count, scalars)
    }

    constructor ()
      ensures Valid() && fresh(items) && Contents() == []
    {
      items := new nat[INITIAL_RESERVE];
      first, count, scalars := 0, 0, map[];
    }

    /** The loop that push, unshift and fill share: stores the new handles, in order, from `at` on. */
    method Store(at: nat, start: nat, values: seq<T>)
      requires at + |values| <= items.Length && Unused(scalars, start, |values|)
      modifies this`scalars, items
      ensures Added(old(scalars), scalars, start, values, |values|)
      ensures forall k :: 0 <= k < items.Length ==>
        items[k] == if at <= k < at + |values| then start + (k - at) else old(items[k])
    {
      ghost var was := scalars;
      var i := 0;
      while i < |values|
        invariant i <= |values| && Added(was, scalars, start, values, i)
        invariant forall k :: 0 <= k < items.Length ==>
          items[k] == if at <= k < at + i then start + (k - at) else old(items[k])
      {
        AddedOne(was, scalars, start, values, i);
        scalars := scalars[start + i := values[i]];
        items[at + i] := start + i;
        i := i + 1;
      }
    }

    /** _array_grow_back_unlocked */
    method GrowBack(n: nat)
      requires Valid() && items.Length + n < MOST
      modifies this`items
      ensures Valid() && fresh(items) && IsNextPow2(items.Length, old(items.Length) + n)
      ensures Contents() == old(Contents())
    {
      var size := NextUpPow2(items.Length + n);
      var bigger := new nat[size](_ => 0);
      forall k | 0 <= k < items.Length {
        bigger[k] := items[k];
      }
      items := bigger;
    }

    /** _array_grow_front_unlocked: moves the window up by a power of two above n. */
    method GrowFront(n: nat)
      requires Valid() && n < MOST
      modifies this`items, this`first
      ensures Valid() && fresh(items) && IsNextPow2(first - old(first), n)
      ensures first - old(first) == items.Length - old(items.Length)
      ensures Contents() == old(Contents())
    {
      hide Owned, View, IsNextPow2;
      ghost var was := items[..];
      var more := NextUpPow2(n);
      var bigger := new nat[items.Length + more](_ => 0);
      forall k | 0 <= k < items.Length {
        bigger[more + k] := items[k];
      }
      items, first := bigger, first + more;
      assert forall k :: 0 <= k < |was| ==> items[..][k + more] == was[k];
      WindowMoved(was, first - more, items[..], first, count, scalars);
    }

    /** _array_reserve_unlocked */
    method Reserve(size: nat)
      requires Valid() && items.Length + size < MOST
      modifies this`items
      ensures Valid() && first + size <= items.Length
      ensures if first + size <= old(items.Length) then items == old(items) else fresh(items)
      ensures Contents() == old(Contents())
    {
      var room := items.Length - first;
      if room < size {
        GrowBack(size - room);
      }
    }

    /** array_push: the new items follow the others. */
    method Push(values: seq<T>, start: nat)
      requires Valid() && Unused(scalars, start, |values|) && items.Length + count + |values| < MOST
      modifies this, items
      ensures Valid() && (items == old(items) || fresh(items))
      ensures Contents() == old(Contents()) + values && first == old(first)
      ensures first + count <= old(items.Length) ==> items == old(items)
    {
      if |values| > 0 {
        Reserve(count + |values|);
        ghost var was, before := items[..], scalars;
        Store(first + count, start, values);
        count := count + |values|;
        Appended(was, before, items[..], scalars, first, count - |values|, start, values);
      }
    }

    /** array_unshift: the new items precede the others, in the order given. An empty array starts
        over at the front of its buffer, and one without room in front grows there first. */
    method Unshift(values: seq<T>, start: nat)
      requires Valid() && Unused(scalars, start, |values|) && items.Length + |values| < MOST
      modifies this, items
      ensures Valid() && (items == old(items) || fresh(items))
      ensures Contents() == values + old(Contents())
      ensures old(count) > 0 && |values| > 0 ==> (items == old(items) <==> |values| < old(first))
      ensures old(count) == 0 && |values| > 0 ==> first == 0
    {
      if |values| > 0 {
        var at := 0;
        if count == 0 {
          Reserve(|values|);
        } else {
          if first <= |values| {
            GrowFront(|values|);
          }
          at := first - |values|;
        }
        ghost var was, before := items[..], scalars;
        Store(at, start, values);
        ghost var wasFirst := first;
        first := at;
        count := count + |values|;
        Prepended(was, before, items[..], scalars, wasFirst, count - |values|, at, start, values);
      }
    }

    /** array_pop: the last item, unless there is none */
    method Pop() returns (ok: bool, result: T)
      requires Valid()
      modifies this`count, this`scalars
      ensures Valid() && ok == (old(count) > 0)
      ensures ok ==> old(Contents()) == Contents() + [result]
      ensures !ok ==> Contents() == old(Contents())
    {
      ok := count > 0;
      if ok {
        count := count - 1;
        var h := items[first + count];
        result := scalars[h];
        ghost var before := scalars;
        scalars := scalars - {h};
        Removed(before, h);
      } else {
        result := *;
      }
    }

    /** array_shift: the first item, unless there is none */
    method Shift() returns (ok: bool, result: T)
      requires Valid()
      modifies this`first, this`count, this`scalars
      ensures Valid() && ok == (old(count) > 0)
      ensures ok ==> old(Contents()) == [result] + Contents()
      ensures !ok ==> Contents() == old(Contents())
    {
      ok := count > 0;
      if ok {
        count := count - 1;
        var h := items[first];
        result := scalars[h];
        first := first + 1;
        ghost var before := scalars;
        scalars := scalars - {h};
        Removed(before, h);
      } else {
        result := *;
      }
    }

    /** array_fill with at least one value: releases every item, then starts over. */
    method Fill(values: seq<T>, start: nat)
      requires Valid() && |values| > 0 && items.Length + |values| < MOST
      modifies this, items
      ensures Valid() && (items == old(items) || fresh(items))
      ensures Contents() == values
    {
      hide Owned, View, Added;
      Clear();
      Reserve(|values|);
      ghost var was, before := items[..], scalars;
      assert Owned(was, 0, 0, before) && View(was, 0, 0, before) == [];
      Store(0, start, values);
      count := |values|;
      Appended(was, before, items[..], scalars, 0, 0, start, values);
    }

    method Clear()
      requires Valid()
      modifies this`scalars, this`first, this`count, items
      ensures Valid() && first == 0 && scalars == map[] && Contents() == []
    {
      ghost var handles := items[..];
      var i := first;
      while i < first + count
        invariant first <= i <= first + count && handles == items[..]
        invariant first == old(first) && count == old(count)
        invariant |scalars| == first + count - i
        invariant forall k :: i <= k < first + count ==> handles[k] in scalars
      {
        ghost var before := scalars;
        scalars := scalars - {items[i]};
        Removed(before, items[i]);
        i := i + 1;
      }
      forall k | 0 <= k < items.Length {
        items[k] := 0;
      }
      first, count := 0, 0;
    }

    /** array_list: the values in order, in a buffer of their own */
    method List() returns (buffer: array<T>)
      requires Valid()
      ensures fresh(buffer) && buffer[..] == Contents()
    {
      buffer := new T[count];
      var i := 0;
      while i < count
        invariant i <= count && forall k :: 0 <= k < i ==> buffer[k] == scalars[items[first + k]]
      {
        buffer[i] := scalars[items[first + i]];
        i := i + 1;
      }
    }
  }

  lemma Removed<T>(scalars: map<nat, T>, h: nat)
    requires h in scalars
    ensures |scalars - {h}| == |scalars| - 1
  {
    var rest := scalars - {h};
    assert scalars == rest[h := scalars[h]];
  }

  lemma WindowMoved<T>(was: seq<nat>, wasFirst: nat, now: seq<nat>, first: nat, count: nat, scalars: map<nat, T>)
    requires Owned(was, wasFirst, count, scalars) && wasFirst <= first && |now| == |was| + (first - wasFirst)
    requires forall k :: 0 <= k < |was| ==> now[k + (first - wasFirst)] == was[k]
    ensures Owned(now, first, count, scalars)
    ensures View(now, first, count, scalars) == View(was, wasFirst, count, scalars)
  {
    var moved := first - wasFirst;
    forall k | first <= k < first + count
      ensures now[k] == was[k - moved]
    {
      assert now[(k - moved) + moved] == was[k - moved];
    }
  }

  lemma Appended<T>(was: seq<nat>, before: map<nat, T>, now: seq<nat>, scalars: map<nat, T>,
                    first: nat, count: nat, start: nat, values: seq<T>)
    requires Owned(was, first, count, before) && Unused(before, start, |values|)
    requires |now| == |was| && first + count + |values| <= |now| && Added(before, scalars, start, values, |values|)
    requires forall k :: 0 <= k < |now| ==>
      now[k] == if first + count <= k < first + count + |values| then start + (k - (first + count)) else was[k]
    ensures Owned(now, first, count + |values|, scalars)
    ensures View(now, first, count + |values|, scalars) == View(was, first, count, before) + values
  {
    var all := View(was, first, count, before) + values;
    forall i | 0 <= i < count + |values|
      ensures now[first + i] in scalars && scalars[now[first + i]] == all[i]
    {
      if i < count {
        assert was[first + i] in before;
      }
    }
    forall k | first <= k < first + count + |values|
      ensures now[k] in scalars
    {
      assert now[first + (k - first)] in scalars;
    }
  }

  lemma Prepended<T>(was: seq<nat>, before: map<nat, T>, now: seq<nat>, scalars: map<nat, T>,
                     first: nat, count: nat, at: nat, start: nat, values: seq<T>)
    requires Owned(was, first, count, before) && Unused(before, start, |values|)
    requires |now| == |was| && at + |values| <= |now| && Added(before, scalars, start, values, |values|)
    requires count == 0 || at + |values| == first
    requires forall k :: 0 <= k < |now| ==> now[k] == if at <= k < at + |values| then start + (k - at) else was[k]
    ensures Owned(now, at, count + |values|, scalars)
    ensures View(now, at, count + |values|, scalars) == values + View(was, first, count, before)
  {
    var all := values + View(was, first, count, before);
    forall i | 0 <= i < count + |values|
      ensures now[at + i] in scalars && scalars[now[at + i]] == all[i]
    {
      if i >= |values| {
        assert was[at + i] == was[first + (i - |values|)];
        assert was[at + i] in before;
      }
    }
    forall k | at <= k < at + count + |values|
      ensures now[k] in scalars
    {
      assert now[at + (k - at)] in scalars;
    }
  }
}
