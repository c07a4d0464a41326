/** The handle pool: objects in a growable array, with an ascending free list threaded through the
    slots that are not in use. Handles count from 1; slot h of the model's array is the slot of
    handle h, and slot 0 is never used. */
module Pool {
  /** A slot's link field: the in-use mark, or the next free handle (zero at the end of the list) */
  datatype Link = InUse | Next(h: nat)

  datatype Wrapper<T> = Wrapper(value: T, references: nat, link: Link)

  // ---------- free lists ----------

  predicate IsValid<T>(s: seq<Wrapper<T>>, h: nat)
  {
    1 <= h < |s|
  }

  predicate IsFree<T>(s: seq<Wrapper<T>>, h: nat)
  {
    IsValid(s, h) && s[h].link.Next?
  }

  /** r is the lowest free handle above h, or zero when there is none. */
  ghost predicate IsNextFree<T>(s: seq<Wrapper<T>>, h: nat, r: nat)
  {
    && (r == 0 || (h < r && IsFree(s, r)))
    && forall k :: h < k && IsFree(s, k) ==> 0 < r <= k
  }

  /** From the head, the links visit exactly the free handles, in ascending order, and end in zero. */
  ghost predicate ExactList<T>(s: seq<Wrapper<T>>, head: nat)
  {
    IsNextFree(s, 0, head) && forall h: nat :: IsFree(s, h) ==> IsNextFree(s, h, s[h].link.h)
  }

  /** How many of the handles below n are free */
  function CountFree<T>(s: seq<Wrapper<T>>, n: nat): nat
    requires n <= |s|
  {
    if n == 0 then 0 else CountFree(s, n - 1) + if IsFree(s, n - 1) then 1 else 0
  }

  /** The handles met by following the links from h, as long as they ascend */
  function Walk<T>(s: seq<Wrapper<T>>, h: nat): seq<nat>
    decreases |s| - h
  {
    if !IsFree(s, h) then []
    else if h < s[h].link.h then [h] + Walk(s, s[h].link.h)
    else [h]
  }

  predicate Ascending(w: seq<nat>)
  {
    forall i, j :: 0 <= i < j < |w| ==> w[i] < w[j]
  }

  lemma AscendingCons(h: nat, w: seq<nat>)
    requires Ascending(w) && forall k :: k in w ==> h < k
    ensures Ascending([h] + w)
  {
    assert forall j :: 0 <= j < |w| ==> w[j] in w;
  }

  /** In an exact list, walking from a free handle lists the free handles from it on: ascending,
      none missing, none in use. */
  lemma {:induction false} WalkListsFree<T>(s: seq<Wrapper<T>>, head: nat, h: nat)
    requires ExactList(s, head) && IsFree(s, h)
    ensures Ascending(Walk(s, h))
    ensures forall k :: k in Walk(s, h) <==> h <= k && IsFree(s, k)
    decreases |s| - h
  {
    var next := s[h].link.h;
    assert IsNextFree(s, h, next);
    var rest := if h < next then Walk(s, next) else [];
    assert Walk(s, h) == [h] + rest;
    if h < next {
      WalkListsFree(s, head, next);
      AscendingCons(h, rest);
    }
    forall k
      ensures k in Walk(s, h) <==> h <= k && IsFree(s, k)
    {
      assert k in Walk(s, h) <==> k == h || k in rest;
    }
  }

  lemma {:induction false} CountNone<T>(s: seq<Wrapper<T>>, a: nat, b: nat)
    requires a <= b <= |s| && forall k :: a <= k < b ==> !IsFree(s, k)
    ensures CountFree(s, b) == CountFree(s, a)
    decreases b
  {
    if a < b {
      CountNone(s, a, b - 1);
    }
  }

  lemma {:induction false} WalkCounts<T>(s: seq<Wrapper<T>>, head: nat, h: nat)
    requires ExactList(s, head) && IsFree(s, h)
    ensures CountFree(s, |s|) == CountFree(s, h) + |Walk(s, h)|
    decreases |s| - h
  {
    var next := s[h].link.h;
    assert IsNextFree(s, h, next);
    if h < next {
      CountNone(s, h + 1, next);
      WalkCounts(s, head, next);
    } else {
      CountNone(s, h + 1, |s|);
    }
  }

  /** The exact list, read off: ascending, and holding exactly the free handles. */
  lemma ExactListIsFreeHandles<T>(s: seq<Wrapper<T>>, head: nat)
    requires ExactList(s, head)
    ensures Ascending(Walk(s, head))
    ensures forall k :: k in Walk(s, head) <==> IsFree(s, k)
    ensures |Walk(s, head)| == CountFree(s, |s|)
  {
    assert IsNextFree(s, 0, head);
    if head == 0 {
      CountNone(s, 0, |s|);
    } else {
      WalkListsFree(s, head, head);
      WalkCounts(s, head, head);
      CountNone(s, 0, head);
    }
  }

  /** Exactly the slots in use have references. */
  predicate Counted<T>(s: seq<Wrapper<T>>)
  {
    forall h :: 1 <= h < |s| ==> (IsFree(s, h) <==> s[h].references == 0)
  }

  // ---------- how counts change ----------

  lemma {:induction false} CountSame<T>(s: seq<Wrapper<T>>, s': seq<Wrapper<T>>, n: nat)
    requires n <= |s| && n <= |s'| && forall h :: 0 <= h < n ==> (IsFree(s, h) <==> IsFree(s', h))
    ensures CountFree(s', n) == CountFree(s, n)
  {
    if n > 0 {
      CountSame(s, s', n - 1);
    }
  }

  /** Taking the handles from a to b - 1 out of the free ones lowers the count by as many. */
  lemma {:induction false} CountTaken<T>(s: seq<Wrapper<T>>, s': seq<Wrapper<T>>, a: nat, b: nat, n: nat)
    requires |s| == |s'| && a <= b <= n <= |s|
    requires forall h :: a <= h < b ==> IsFree(s, h) && !IsFree(s', h)
    requires forall h :: 0 <= h < n && !(a <= h < b) ==> (IsFree(s, h) <==> IsFree(s', h))
    ensures CountFree(s', n) + (b - a) == CountFree(s, n)
    decreases n
  {
    if n > b {
      CountTaken(s, s', a, b, n - 1);
    } else if a < b {
      CountTaken(s, s', a, b - 1, n - 1);
    } else {
      CountSame(s, s', n);
    }
  }

  lemma {:induction false} CountAll<T>(s: seq<Wrapper<T>>, a: nat, n: nat)
    requires a <= n <= |s| && forall k :: a <= k < n ==> IsFree(s, k)
    ensures CountFree(s, n) == CountFree(s, a) + (n - a)
    decreases n
  {
    if a < n {
      CountAll(s, a, n - 1);
    }
  }

  lemma {:induction false} SomeFree<T>(s: seq<Wrapper<T>>, n: nat)
    requires n <= |s|
    ensures CountFree(s, n) > 0 <==> exists h :: 0 <= h < n && IsFree(s, h)
  {
    if n > 0 {
      SomeFree(s, n - 1);
      if CountFree(s, n) > 0 && !IsFree(s, n - 1) {
        var h :| 0 <= h < n - 1 && IsFree(s, h);
      }
    }
  }

  // ---------- how lists change ----------

  /** The slots other than those from a to b - 1 are as they were. */
  ghost predicate SameOutside<T>(s: seq<Wrapper<T>>, s': seq<Wrapper<T>>, a: nat, b: nat)
  {
    |s| <= |s'| && forall k :: 0 <= k < |s| && !(a <= k < b) ==> s'[k] == s[k]
  }

  /** Apart from the handles from a to b - 1, the slots in use, their objects and their reference
      counts are as they were; only links of free slots may have changed. */
  ghost predicate KeepsInUse<T>(s: seq<Wrapper<T>>, s': seq<Wrapper<T>>, a: nat, b: nat)
  {
    && |s| <= |s'|
    && forall k :: 0 <= k < |s| && !(a <= k < b) ==>
         s'[k] == s[k] || (s[k].link.Next? && s'[k].link.Next? && s'[k] == s[k].(link := s'[k].link))
  }

  /** Unlinking the head of an exact list leaves an exact list. */
  lemma HeadTaken<T>(s: seq<Wrapper<T>>, s': seq<Wrapper<T>>, head: nat)
    requires ExactList(s, head) && IsFree(s, head)
    requires |s'| == |s| && !IsFree(s', head) && SameOutside(s, s', head, head + 1)
    requires Counted(s) && s'[head].references > 0
    ensures ExactList(s', s[head].link.h) && Counted(s')
    ensures CountFree(s', |s'|) + 1 == CountFree(s, |s|)
  {
    assert IsNextFree(s, 0, head) && IsNextFree(s, head, s[head].link.h);
    assert forall k :: k != head ==> (IsFree(s', k) <==> IsFree(s, k));
    CountTaken(s, s', head, head + 1, |s|);
    forall h: nat | IsFree(s', h)
      ensures IsNextFree(s', h, s'[h].link.h)
    {
      assert IsNextFree(s, h, s[h].link.h);
    }
  }

  /** The head of an exact list is zero just when nothing is free. */
  lemma HeadIsFree<T>(s: seq<Wrapper<T>>, head: nat)
    requires ExactList(s, head)
    ensures head == 0 <==> CountFree(s, |s|) == 0
    ensures head != 0 ==> IsFree(s, head)
  {
    SomeFree(s, |s|);
    assert IsNextFree(s, 0, head);
  }

  /** A pool doubled: every handle above the first new one is free and linked in order. A list that
      starts there is exact just when nothing was free before. */
  lemma FreshTail<T>(s: seq<Wrapper<T>>, linked: seq<Wrapper<T>>, s': seq<Wrapper<T>>, handle: nat)
    requires 1 <= handle == |s| < |s'| - 1 && |linked| == |s'|
    requires forall k :: 0 <= k < |s| ==> linked[k] == s[k]
    requires Counted(s) && forall k :: handle < k < |s'| ==> linked[k].references == 0
    requires s'[handle].references > 0
    requires |linked| == |s'| && SameOutside(linked, s', handle, handle + 1) && s'[handle].link == InUse
    requires forall k :: handle < k < |s'| ==> linked[k].link == Next(if k + 1 < |s'| then k + 1 else 0)
    ensures ExactList(s', handle + 1) <==> CountFree(s, |s|) == 0
    ensures CountFree(s', |s'|) == CountFree(s, |s|) + (|s'| - 1 - handle)
    ensures SameOutside(s, s', handle, handle + 1) && Counted(s')
  {
    hide ExactList, Counted, CountFree;
    assert forall k :: 0 <= k < handle ==> (IsFree(s', k) <==> IsFree(s, k));
    assert forall k :: handle < k < |s'| ==> IsFree(s', k) && s'[k] == linked[k];
    CountSame(s, s', handle);
    CountNone(s', handle, handle + 1);
    CountAll(s', handle + 1, |s'|);
    SomeFree(s', handle);
    if CountFree(s', handle) == 0 {
      TailIsExact(s', handle);
    } else {
      var k :| 0 <= k < handle && IsFree(s', k);
      TailMisses(s', handle, k);
    }
    TailIsCounted(s, s', handle);
  }

  lemma TailIsExact<T>(s: seq<Wrapper<T>>, handle: nat)
    requires 1 <= handle < |s| - 1
    requires forall k :: 0 <= k <= handle ==> !IsFree(s, k)
    requires forall k :: handle < k < |s| ==> s[k].link == Next(if k + 1 < |s| then k + 1 else 0)
    ensures ExactList(s, handle + 1)
  {
  }

  lemma TailMisses<T>(s: seq<Wrapper<T>>, handle: nat, k: nat)
    requires k < handle && IsFree(s, k)
    ensures !ExactList(s, handle + 1)
  {
    assert !IsNextFree(s, 0, handle + 1);
  }

  lemma TailIsCounted<T>(s: seq<Wrapper<T>>, s': seq<Wrapper<T>>, handle: nat)
    requires handle == |s| < |s'| && Counted(s) && SameOutside(s, s', handle, handle + 1)
    requires s'[handle].link == InUse && s'[handle].references > 0
    requires forall k :: handle < k < |s'| ==> s'[k].link.Next? && s'[k].references == 0
    ensures Counted(s')
  {
  }

  /** Linking a handle in behind the nearest free one below it, or at the head when there is none,
      leaves an exact list. */
  lemma HandleAdded<T>(s: seq<Wrapper<T>>, s': seq<Wrapper<T>>, head: nat, prev: nat, h: nat)
    requires ExactList(s, head) && IsValid(s, h) && !IsFree(s, h)
    requires prev < h && (prev == 0 || IsFree(s, prev)) && forall k :: prev < k < h ==> !IsFree(s, k)
    requires |s'| == |s|
    requires forall k :: 0 <= k < |s| && k != h && k != prev ==> s'[k] == s[k]
    requires s'[h].link == Next(if prev == 0 then head else s[prev].link.h)
    requires prev != 0 ==> s'[prev] == s[prev].(link := Next(h))
    ensures ExactList(s', if prev == 0 then h else head)
    ensures CountFree(s', |s'|) == CountFree(s, |s|) + 1
    ensures forall k :: k != h ==> (IsFree(s', k) <==> IsFree(s, k))
    ensures IsFree(s', h)
  {
    assert IsNextFree(s, 0, head);
    assert forall k :: k != h ==> (IsFree(s', k) <==> IsFree(s, k));
    assert IsFree(s', h);
    CountTaken(s', s, h, h + 1, |s|);
    if prev != 0 {
      assert IsNextFree(s, prev, s[prev].link.h);
    }
    forall k: nat | IsFree(s', k)
      ensures IsNextFree(s', k, s'[k].link.h)
    {
      if k != h {
        assert IsNextFree(s, k, s[k].link.h);
      }
    }
  }

  /** A handle linked to itself is never part of an exact list. */
  lemma SelfLinkNeverExact<T>(s: seq<Wrapper<T>>, head: nat, h: nat)
    requires IsFree(s, h) && s[h].link.h == h
    ensures !ExactList(s, head)
  {
    assert !IsNextFree(s, h, h);
  }

  predicate IsRun<T>(s: seq<Wrapper<T>>, a: nat, len: nat)
  {
    forall k :: a <= k < a + len ==> IsFree(s, k)
  }

  /** Linking past a run of free handles takes exactly the run out of an exact list. */
  lemma RunTaken<T>(s: seq<Wrapper<T>>, s': seq<Wrapper<T>>, head: nat, prev: nat, a: nat, len: nat)
    requires ExactList(s, head) && len > 0 && IsRun(s, a, len)
    requires prev < a && (prev == 0 || IsFree(s, prev)) && forall k :: prev < k < a ==> !IsFree(s, k)
    requires |s'| == |s|
    requires forall k :: 0 <= k < |s| && !(a <= k < a + len) && k != prev ==> s'[k] == s[k]
    requires forall k :: a <= k < a + len ==> !IsFree(s', k)
    requires a + len <= |s| && s[a + len - 1].link.Next?
    requires prev == 0 ==> s'[0] == s[0]
    requires prev != 0 ==> s'[prev] == s[prev].(link := s[a + len - 1].link)
    requires Counted(s) && forall k :: a <= k < a + len ==> s'[k].references > 0
    ensures Counted(s')
    ensures ExactList(s', if prev == 0 then s[a + len - 1].link.h else head)
    ensures CountFree(s', |s'|) + len == CountFree(s, |s|)
  {
    hide ExactList;
    RunTakenList(s, s', head, prev, a, len);
    assert forall k: nat :: !(a <= k < a + len) ==> (IsFree(s', k) <==> IsFree(s, k));
    CountTaken(s, s', a, a + len, |s|);
  }

  lemma RunTakenList<T>(s: seq<Wrapper<T>>, s': seq<Wrapper<T>>, head: nat, prev: nat, a: nat, len: nat)
    requires ExactList(s, head) && len > 0 && IsRun(s, a, len)
    requires prev < a && (prev == 0 || IsFree(s, prev)) && forall k :: prev < k < a ==> !IsFree(s, k)
    requires |s'| == |s|
    requires forall k :: 0 <= k < |s| && !(a <= k < a + len) && k != prev ==> s'[k] == s[k]
    requires forall k :: a <= k < a + len ==> !IsFree(s', k)
    requires a + len <= |s| && s[a + len - 1].link.Next?
    requires prev == 0 ==> s'[0] == s[0]
    requires prev != 0 ==> s'[prev] == s[prev].(link := s[a + len - 1].link)
    ensures ExactList(s', if prev == 0 then s[a + len - 1].link.h else head)
  {
    var last := a + len - 1;
    assert IsNextFree(s, 0, head);
    assert IsFree(s, last) && IsNextFree(s, last, s[last].link.h);
    assert forall k: nat :: !(a <= k <= last) ==> (IsFree(s', k) <==> IsFree(s, k));
    forall k: nat | IsFree(s', k)
      ensures IsNextFree(s', k, s'[k].link.h)
    {
      assert IsNextFree(s, k, s[k].link.h);
    }
  }

  // ---------- the pool ----------

  class Pool<T> {
    const blank: T
    var capacity: nat
    var count: nat
    var freeCount: nat
    var items: array<Wrapper<T>>
    var head: nat

    /** The free list is exact, and exactly the slots in use have references. */
    ghost predicate ListValid()
      reads this, items
    {
      && capacity >= 2 && items.Length == capacity + 1
      && ExactList(items[..], head)
      && Counted(items[..])
    }

    ghost predicate Valid()
      reads this, items
    {
      ListValid() && freeCount == CountFree(items[..], items.Length)
    }

    /** POOL_INIT: all slots free, each linked to the next */
    constructor (blank: T, size: nat)
      requires size >= 2
      ensures Valid() && fresh(items) && this.blank == blank
      ensures capacity == size && count == 0 && freeCount == size
      ensures forall h :: 1 <= h <= size ==> IsFree(items[..], h)
    {
      this.blank := blank;
      capacity, count, freeCount, head := size, 0, size, 1;
      items := new Wrapper<T>[size + 1](_ => Wrapper(blank, 0, Next(0)));
      new;
      items[0] := Wrapper(blank, 1, InUse);
      for i := 1 to size
        invariant items.Length == size + 1 && fresh(items) && this.blank == blank
        invariant capacity == size && count == 0 && freeCount == size && head == 1
        invariant items[0].link == InUse
        invariant forall k :: 1 <= k <= size ==> items[k] == Wrapper(blank, 0, Next(if k < i then k + 1 else 0))
      {
        items[i] := items[i].(link := Next(i + 1));
      }
      assert forall h :: 1 <= h <= size ==> IsFree(items[..], h);
      CountNone(items[..], 0, 1);
      CountAll(items[..], 1, size + 1);
    }

    /** POOL_ALLOCATE on any exact list, whatever the free count says: with a count above zero it takes the
        lowest free handle, and fails its assertion (zero, with nothing changed) if there is none; with a
        count of zero it grows the pool to twice its size and takes the first new handle, and whatever
        was listed before is lost. So a handle is had and the list kept exact if and only if the count is
        zero just when nothing is free. */
    method Allocate() returns (handle: nat)
      requires ListValid()
      modifies this, items
      ensures handle > 0 && ListValid() <==> old(freeCount == 0 <==> CountFree(items[..], items.Length) == 0)
      ensures handle == 0 <==> old(freeCount > 0 && CountFree(items[..], items.Length) == 0)
      ensures handle == 0 ==> unchanged(this) && items[..] == old(items[..])
      ensures handle > 0 ==> count == old(count) + 1 && (Valid() <==> old(Valid()))
      ensures handle > 0 ==> IsValid(items[..], handle) && items[handle] == Wrapper(blank, 1, InUse)
      ensures SameOutside(old(items[..]), items[..], handle, handle + 1)
      ensures handle > 0 && old(freeCount) > 0 ==>
        && items == old(items) && old(IsNextFree(items[..], 0, handle))
        && freeCount == old(freeCount) - 1
        && CountFree(items[..], items.Length) + 1 == old(CountFree(items[..], items.Length))
      ensures old(freeCount) == 0 ==>
        && fresh(items) && capacity == 2 * old(capacity) && handle == old(capacity) + 1
        && freeCount == capacity - handle
        && CountFree(items[..], items.Length) == old(CountFree(items[..], items.Length)) + freeCount
    {
      hide ExactList, CountFree, Counted;
      ghost var was := items[..];
      HeadIsFree(was, head);
      if freeCount > 0 {
        if head == 0 {
          return 0;
        }
        handle := AllocateListed();
      } else {
        handle := AllocateGrown();
      }
      count := count + 1;
    }

    method AllocateListed() returns (handle: nat)
      requires ListValid() && freeCount > 0 && head != 0
      modifies this`head, this`freeCount, items
      ensures ListValid() && old(IsNextFree(items[..], 0, handle)) && IsValid(items[..], handle)
      ensures freeCount == old(freeCount) - 1
      ensures CountFree(items[..], items.Length) + 1 == old(CountFree(items[..], items.Length))
      ensures items[handle] == Wrapper(blank, 1, InUse)
      ensures SameOutside(old(items[..]), items[..], handle, handle + 1)
    {
      hide CountFree;
      ghost var was := items[..];
      assert IsNextFree(was, 0, head);
      handle := head;
      head := items[handle].link.h;
      freeCount := freeCount - 1;
      items[handle] := Wrapper(blank, 1, InUse);
      HeadTaken(was, items[..], handle);
    }

    method AllocateGrown() returns (handle: nat)
      requires ListValid()
      modifies this`head, this`freeCount, this`items, this`capacity
      ensures fresh(items) && items.Length == capacity + 1
      ensures ListValid() <==> old(CountFree(items[..], items.Length)) == 0
      ensures handle == old(capacity) + 1 && capacity == 2 * old(capacity)
      ensures freeCount == capacity - handle
      ensures CountFree(items[..], items.Length) == old(CountFree(items[..], items.Length)) + freeCount
      ensures items[handle] == Wrapper(blank, 1, InUse)
      ensures SameOutside(old(items[..]), items[..], handle, handle + 1)
    {
      hide ExactList, CountFree, Counted;
      ghost var was := items[..];
      handle := capacity + 1;
      Grow(2 * capacity);
      head := handle + 1;
      LinkUp(head);
      freeCount := capacity - handle;
      ghost var linked := items[..];
      items[handle] := Wrapper(blank, 1, InUse);
      FreshTail(was, linked, items[..], handle);
    }

    /** Moves the items to a larger, zeroed allocation. */
    method Grow(size: nat)
      requires size >= capacity && items.Length == capacity + 1
      modifies this`items, this`capacity
      ensures fresh(items) && capacity == size && items.Length == size + 1
      ensures forall k :: 0 <= k <= old(capacity) ==> items[k] == old(items[k])
      ensures forall k :: old(capacity) < k <= size ==> items[k] == Wrapper(blank, 0, Next(0))
    {
      var bigger := new Wrapper<T>[size + 1](_ => Wrapper(blank, 0, Next(0)));
      for i := 0 to items.Length
        invariant items == old(items)
        invariant forall k :: 0 <= k < i ==> bigger[k] == items[k]
        invariant forall k :: i <= k <= size ==> bigger[k] == Wrapper(blank, 0, Next(0))
      {
        bigger[i] := items[i];
      }
      items, capacity := bigger, size;
    }

    /** Links each handle from `from` on to the next, the last to zero. */
    method LinkUp(from: nat)
      requires 1 <= from <= capacity + 1 && 1 <= capacity && items.Length == capacity + 1
      modifies items
      ensures forall k :: 0 <= k < from && k < capacity ==> items[k] == old(items[k])
      ensures forall k :: from <= k < capacity ==> items[k] == old(items[k]).(link := Next(k + 1))
      ensures items[capacity] == old(items[capacity]).(link := Next(0))
    {
      var i := from;
      while i < capacity
        invariant from <= i <= capacity || i == from == capacity + 1
        invariant forall k :: 0 <= k < from && k <= capacity ==> items[k] == old(items[k])
        invariant forall k :: from <= k < i && k < capacity ==> items[k] == old(items[k]).(link := Next(k + 1))
        invariant forall k :: i <= k <= capacity ==> items[k] == old(items[k])
      {
        items[i] := items[i].(link := Next(i + 1));
        i := i + 1;
      }
      items[capacity] := items[capacity].(link := Next(0));
    }

    predicate HandleInUse(h: nat)
      reads this, items
    {
      h < items.Length && items[h].link.InUse?
    }

    /** POOL_REFERENCE */
    method Reference(handle: nat)
      requires ListValid() && 1 <= handle <= capacity && HandleInUse(handle)
      modifies items
      ensures ListValid() && (Valid() <==> old(Valid()))
      ensures var now := old(items[handle]).(references := old(items[handle].references) + 1);
        items[..] == old(items[..])[handle := now]
    {
      ghost var was := items[..];
      items[handle] := items[handle].(references := items[handle].references + 1);
      SameLinks(was, items[..], head);
    }

    /** ADD_TO_FREE_LIST as written: the scan starts at the handle being released. A handle that is
        still marked in use, as every handle is when it is released, stops it right there and is
        linked to itself. */
    method AddToFreeList(handle: nat)
      requires items.Length == capacity + 1 && 1 <= handle <= capacity
      modifies items, this`head, this`freeCount
      ensures freeCount == old(freeCount) + 1
      ensures old(HandleInUse(handle)) ==>
        head == old(head) && items[..] == old(items[..])[handle := old(items[handle]).(link := Next(handle))]
    {
      var prev := handle;
      while prev > 0 && !HandleInUse(prev)
        invariant prev <= handle && (prev < handle ==> !old(HandleInUse(handle)))
        invariant items[..] == old(items[..])
      {
        prev := prev - 1;
      }
      if prev > 0 {
        items[handle] := items[handle].(link := items[prev].link);
        items[prev] := items[prev].(link := Next(handle));
      } else {
        items[handle] := items[handle].(link := Next(head));
        head := handle;
      }
      freeCount := freeCount + 1;
    }

    /** ADD_TO_FREE_LIST with the scan of POOL_ALLOCATE_MANY: down past the handles in use */
    method AddToFreeListInOrder(handle: nat)
      requires items.Length == capacity + 1 && 1 <= handle <= capacity && HandleInUse(handle)
      requires ExactList(items[..], head)
      modifies items, this`head, this`freeCount
      ensures ExactList(items[..], head) && freeCount == old(freeCount) + 1
      ensures CountFree(items[..], items.Length) == old(CountFree(items[..], items.Length)) + 1
      ensures IsFree(items[..], handle) && items[handle].value == old(items[handle].value)
      ensures items[handle].references == old(items[handle].references)
      ensures KeepsInUse(old(items[..]), items[..], handle, handle + 1)
    {
      ghost var was, wasHead := items[..], head;
      var prev := handle;
      while prev > 0 && HandleInUse(prev)
        invariant prev <= handle
        invariant forall k :: prev < k < handle ==> !IsFree(items[..], k)
      {
        prev := prev - 1;
      }
      if prev > 0 {
        items[handle] := items[handle].(link := items[prev].link);
        items[prev] := items[prev].(link := Next(handle));
      } else {
        items[handle] := items[handle].(link := Next(head));
        head := handle;
      }
      freeCount := freeCount + 1;
      HandleAdded(was, items[..], wasHead, prev, handle);
    }

    /** POOL_RELEASE as written, for objects that hold no references of their own: the pool stays
        exact if and only if the reference dropped was not the last. */
    method Release(handle: nat)
      requires ListValid() && 1 <= handle <= capacity && HandleInUse(handle) && count > 0
      modifies this, items
      ensures ListValid() <==> old(items[handle].references) > 1
      ensures Valid() <==> old(Valid()) && old(items[handle].references) > 1
      ensures old(items[handle].references) > 1 ==>
        && unchanged(this)
        && items[..] == old(items[..])[handle := old(items[handle]).(references := old(items[handle].references) - 1)]
      ensures old(items[handle].references) == 1 ==>
        && items[..] == old(items[..])[handle := Wrapper(blank, 0, Next(handle))]
        && head == old(head) && count == old(count) - 1 && freeCount == old(freeCount) + 1
    {
      ghost var was := items[..];
      assert !IsFree(was, handle);
      if items[handle].references == 1 {
        items[handle] := items[handle].(value := blank, references := 0);
        AddToFreeList(handle);
        count := count - 1;
        SelfLinkNeverExact(items[..], head, handle);
      } else {
        items[handle] := items[handle].(references := items[handle].references - 1);
        SameLinks(was, items[..], head);
      }
    }

    /** POOL_RELEASE with the in-order scan keeps the pool exact: the handle is free afterwards
        exactly when its last reference went. */
    method ReleaseInOrder(handle: nat)
      requires ListValid() && 1 <= handle <= capacity && HandleInUse(handle) && count > 0
      modifies this, items
      ensures ListValid() && items == old(items) && (Valid() <==> old(Valid()))
      ensures freeCount == old(freeCount) + if old(items[handle].references) == 1 then 1 else 0
      ensures CountFree(items[..], items.Length)
           == old(CountFree(items[..], items.Length)) + if old(items[handle].references) == 1 then 1 else 0
      ensures KeepsInUse(old(items[..]), items[..], handle, handle + 1)
      ensures IsFree(items[..], handle) <==> old(items[handle].references) == 1
      ensures items[handle].references == old(items[handle].references) - 1
      ensures items[handle].value == if old(items[handle].references) == 1 then blank else old(items[handle].value)
      ensures count == old(count) - if old(items[handle].references) == 1 then 1 else 0
    {
      hide ExactList, CountFree;
      ghost var was := items[..];
      assert !IsFree(was, handle);
      var last := items[handle].references == 1;
      items[handle] := items[handle].(references := items[handle].references - 1);
      if last {
        items[handle] := items[handle].(value := blank);
      }
      ghost var now := items[..];
      SameLinks(was, now, head);
      if last {
        AddToFreeListInOrder(handle);
        count := count - 1;
      }
    }
  
    /** FIND_FREE_SEQUENCE: the lowest start of a run of free handles; zero when there is none, or
        when the free count is not above the length asked for. The count may be stale. */
    method FindFreeSequence(len: nat) returns (start: nat)
      requires ListValid() && len > 0
      ensures freeCount <= len ==> start == 0
      ensures freeCount > len && start == 0 ==> NoRun(items[..], 1, items.Length, len)
      ensures start > 0 ==> freeCount > len && IsRun(items[..], start, len) && start + len <= items.Length
      ensures start > 0 ==> NoRun(items[..], 1, start, len)
    {
      hide NoRun, IsRun, ExactList, Counted;
      if freeCount <= len {
        return 0;
      }
      ghost var s := items[..];
      var found: nat, iter: nat, sequence: nat, prev: nat := 0, head, head, 0;
      ScanStarts(s, head, len);
      while 1 <= iter <= capacity
        invariant Scanned(s, sequence, found, len) && iter == sequence + found
        invariant prev == if found > 0 then iter - 1 else 0
        decreases if iter == 0 then 0 else items.Length + 1 - iter
      {
        if items[iter].link.InUse? {
          ScanUsed(s, head, sequence, found, len);
          found := 0;
          sequence := items[prev].link.h;
          iter := sequence;
          prev := 0;
        } else {
          ScanFree(s, sequence, found, len);
          found := found + 1;
          if found == len {
            return sequence;
          }
          prev := iter;
          iter := iter + 1;
        }
      }
      ScanEnds(s, sequence, found, len);
      start := 0;
    }

    /** The common end of POOL_ALLOCATE_MANY: the new handles come into use, blank, with one
        reference each. */
    method TakeRun(start: nat, many: nat)
      requires 1 <= start && start + many <= items.Length
      modifies items
      ensures forall k :: start <= k < start + many ==> items[k] == Wrapper(blank, 1, InUse)
      ensures SameOutside(old(items[..]), items[..], start, start + many)
    {
      for i := start to start + many
        invariant forall k :: start <= k < i ==> items[k] == Wrapper(blank, 1, InUse)
        invariant SameOutside(old(items[..]), items[..], start, i)
      {
        items[i] := Wrapper(blank, 1, InUse);
      }
    }

    /** POOL_ALLOCATE_MANY when a run of free handles was found: exactly the run leaves the list.
        The free count is left as it was. */
    method AllocateRun(start: nat, many: nat)
      requires ListValid() && many > 0
      requires start > 0 && IsRun(items[..], start, many) && start + many <= items.Length
      modifies this`head, items
      ensures ListValid()
      ensures CountFree(items[..], items.Length) + many == old(CountFree(items[..], items.Length))
      ensures forall k :: start <= k < start + many ==> items[k] == Wrapper(blank, 1, InUse)
      ensures KeepsInUse(old(items[..]), items[..], start, start + many)
    {
      hide ExactList, Counted, CountFree;
      ghost var was, wasHead := items[..], head;
      assert IsFree(was, start + many - 1);
      var prev := start - 1;
      while prev > 0 && HandleInUse(prev)
        invariant prev < start
        invariant forall k :: prev < k < start ==> !IsFree(was, k)
      {
        prev := prev - 1;
      }
      if prev == 0 {
        head := items[start + many - 1].link.h;
      } else {
        items[prev] := items[prev].(link := items[start + many - 1].link);
      }
      ghost var linked := items[..];
      TakeRun(start, many);
      RunTaken(was, items[..], wasHead, prev, start, many);
    }
  
    /** Finds the end of the free list and links it to the handle given; an empty list starts there. */
    method AppendToList(handle: nat, ghost s: seq<Wrapper<T>>)
      requires 2 <= |s| <= items.Length && items[..|s|] == s && ExactList(s, head)
      modifies this`head, items
      ensures forall k :: |s| <= k < items.Length ==> items[k] == old(items[k])
      ensures Appended(s, items[..|s|], old(head), head, handle)
    {
      if head == 0 {
        head := handle;
      } else {
        var i := head;
        assert IsNextFree(s, 0, head);
        while items[i].link.h != 0
          invariant IsFree(s, i)
          decreases |s| - i
        {
          assert IsNextFree(s, i, s[i].link.h);
          i := items[i].link.h;
        }
        assert EndsAt(s, i);
        items[i] := items[i].(link := Next(handle));
        assert items[..|s|] == s[i := s[i].(link := Next(handle))];
      }
    }

    /** Grows the pool, appends the first handle past the new run to the free list and links the
        handles from there on; the run itself is left for the caller. */
    method Extend(size: nat, from: nat, ghost s: seq<Wrapper<T>>)
      requires ListValid() && s == items[..]
      requires capacity < from - 1 <= size
      modifies this`head, this`capacity, this`items
      ensures fresh(items) && capacity == size && items.Length == size + 1
      ensures Appended(s, items[..|s|], old(head), head, from)
      ensures forall k :: |s| <= k <= size && k != from - 1 ==>
                items[k] == Wrapper(blank, 0, Next(if from <= k < size then k + 1 else 0))
    {
      Grow(size);
      assert items[..|s|] == s;
      AppendToList(from, s);
      ghost var appended := items[..|s|];
      LinkUp(from);
      assert items[..|s|] == appended;
    }

    method RoundUp(many: nat) returns (size: nat)
      requires capacity > 0
      ensures size == GrownSize(capacity, capacity, many)
    {
      size := capacity;
      while size < capacity + many
        invariant capacity <= size
        invariant GrownSize(size, capacity, many) == GrownSize(capacity, capacity, many)
      {
        size := size + capacity;
      }
    }

    /** POOL_ALLOCATE_MANY when no run was found: the pool grows by whole multiples of its size and
        the new handles begin with the run. The list stays exact if and only if some new handle is
        left over, and the free count is set to one less than the number left over, whatever was
        free before. */
    method AllocateBeyond(many: nat) returns (start: nat)
      requires ListValid() && many > 0
      modifies this`head, this`freeCount, this`capacity, this`items
      ensures start == old(capacity) + 1 && fresh(items) && items.Length == capacity + 1
      ensures capacity == GrownSize(old(capacity), old(capacity), many)
      ensures forall k :: start <= k < start + many ==> items[k] == Wrapper(blank, 1, InUse)
      ensures KeepsInUse(old(items[..]), items[..], start, start + many)
      ensures ListValid() <==> capacity > old(capacity) + many
      ensures CountFree(items[..], items.Length)
           == old(CountFree(items[..], items.Length)) + (capacity - old(capacity) - many)
      ensures freeCount == SizeT(capacity - old(capacity) - many - 1)
    {
      hide ExactList, Counted, Appended, KeepsInUse, CountFree, SameOutside;
      ghost var s, wasHead := items[..], head;
      start := capacity + 1;
      var size := RoundUp(many);
      Extend(size, start + many, s);
      freeCount := SizeT(size as int - (start + many) as int);
      ghost var linked := items[..];
      TakeRun(start, many);
      RunBeyond(s, linked, items[..], wasHead, head, blank, many);
    }
  
    /** POOL_ALLOCATE_MANY. With more free handles counted than asked for and a run among them, it
        takes the lowest run and the list stays exact, but the free count does not follow. In every
        other case it grows the pool; the list then stays exact if and only if the growth leaves
        some handle over. Either way a free count that was right is wrong from then on. */
    method AllocateMany(many: nat) returns (start: nat)
      requires ListValid() && many > 0
      modifies this, items
      ensures count == old(count) + many && (old(Valid()) ==> !Valid())
      ensures IsValid(items[..], start) && start + many <= items.Length
      ensures forall k :: start <= k < start + many ==> items[k] == Wrapper(blank, 1, InUse)
      ensures KeepsInUse(old(items[..]), items[..], start, start + many)
      ensures old(freeCount > many && !NoRun(items[..], 1, items.Length, many)) ==>
        && items == old(items) && ListValid()
        && old(IsRun(items[..], start, many)) && old(NoRun(items[..], 1, start, many))
        && CountFree(items[..], items.Length) + many == old(CountFree(items[..], items.Length))
        && freeCount == old(freeCount)
      ensures old(freeCount <= many || NoRun(items[..], 1, items.Length, many)) ==>
        && start == old(capacity) + 1 && capacity == GrownSize(old(capacity), old(capacity), many)
        && (ListValid() <==> capacity > old(capacity) + many)
        && CountFree(items[..], items.Length)
            == old(CountFree(items[..], items.Length)) + (capacity - old(capacity) - many)
        && freeCount == SizeT(capacity - old(capacity) - many - 1)
    {
      hide ExactList, Counted, KeepsInUse, CountFree;
      start := FindFreeSequence(many);
      if start != 0 {
        AllocateRun(start, many);
      } else {
        start := AllocateBeyond(many);
      }
      count := count + many;
    }
  }

  /** size_t arithmetic */
  function SizeT(v: int): nat
  {
    v % 0x1_0000_0000_0000_0000
  }

  /** The loop of POOL_ALLOCATE_MANY: whole multiples of the old size until the run fits */
  function GrownSize(size: nat, n: nat, many: nat): (r: nat)
    requires n > 0
    ensures r >= size && r >= n + many && (size < n + many ==> r < n + many + n)
    decreases n + many - size
  {
    if size < n + many then GrownSize(size + n, n, many) else size
  }

  /** The pool grows to the least multiple of its size with room for the run. */
  lemma {:induction false} GrownByMultiples(size: nat, n: nat, many: nat) returns (k: nat)
    requires n > 0
    ensures GrownSize(size, n, many) == size + k * n
    decreases n + many - size
  {
    if size < n + many {
      k := GrownByMultiples(size + n, n, many);
      assert size + n + k * n == size + (k + 1) * n;
      k := k + 1;
    } else {
      k := 0;
    }
  }

  /** What POOL_ALLOCATE_MANY has made of the items when it grew the pool */
  lemma RunBeyond<T>(s: seq<Wrapper<T>>, linked: seq<Wrapper<T>>, s': seq<Wrapper<T>>, head: nat, head': nat,
                     blank: T, many: nat)
    requires |s| >= 3 && ExactList(s, head) && Counted(s) && many > 0
    requires |linked| == |s'| >= |s| + many && Appended(s, linked[..|s|], head, head', |s| + many)
    requires forall k :: |s| <= k < |s'| && k != |s| + many - 1 ==>
      linked[k] == Wrapper(blank, 0, Next(if |s| + many <= k && k + 1 < |s'| then k + 1 else 0))
    requires SameOutside(linked, s', |s|, |s| + many)
    requires forall k :: |s| <= k < |s| + many ==> s'[k] == Wrapper(blank, 1, InUse)
    ensures KeepsInUse(s, s', |s|, |s| + many) && Counted(s')
    ensures ExactList(s', head') <==> |s'| > |s| + many
    ensures CountFree(s', |s'|) == CountFree(s, |s|) + (|s'| - |s| - many)
  {
    hide ExactList, KeepsInUse, CountFree, Appended;
    assert s'[..|s|] == linked[..|s|];
    ListExtended(s, s', head, head', many);
    KeptInUse(s, s', head, head', many);
  }

  lemma KeptInUse<T>(s: seq<Wrapper<T>>, s': seq<Wrapper<T>>, head: nat, head': nat, many: nat)
    requires |s'| >= |s| && Appended(s, s'[..|s|], head, head', |s| + many)
    ensures KeepsInUse(s, s', |s|, |s| + many)
  {
    assert forall k :: 0 <= k < |s| ==> s'[k] == s'[..|s|][k];
  }

  predicate EndsAt<T>(s: seq<Wrapper<T>>, last: nat)
  {
    IsFree(s, last) && s[last].link.h == 0
  }

  /** The list of s, with one more handle linked at its end */
  ghost predicate Appended<T>(s: seq<Wrapper<T>>, s': seq<Wrapper<T>>, head: nat, head': nat, handle: nat)
  {
    && |s'| == |s|
    && (if head == 0 then head' == handle && s' == s
        else head' == head && exists last: nat :: EndsAt(s, last) && s' == s[last := s[last].(link := Next(handle))])
  }

  /** A grown array: the old list with the first handle past the run appended, the run in use, and
      the handles past the run linked in order. */
  lemma ListExtended<T>(s: seq<Wrapper<T>>, s': seq<Wrapper<T>>, head: nat, head': nat, many: nat)
    requires |s| >= 2 && ExactList(s, head) && many > 0
    requires |s'| >= |s| + many && Appended(s, s'[..|s|], head, head', |s| + many)
    requires forall k :: |s| <= k < |s| + many ==> s'[k].link == InUse
    requires forall k :: |s| + many <= k < |s'| ==> s'[k].link == Next(if k + 1 < |s'| then k + 1 else 0)
    requires Counted(s) && forall k :: |s| <= k < |s'| ==> s'[k].references == if k < |s| + many then 1 else 0
    ensures Counted(s')
    ensures ExactList(s', head') <==> |s'| > |s| + many
    ensures CountFree(s', |s'|) == CountFree(s, |s|) + (|s'| - |s| - many)
  {
    hide ExactList, CountFree;
    var from := |s| + many;
    SameBelow(s, s', head, head', from);
    CountSame(s, s', |s|);
    CountNone(s', |s|, from);
    CountAll(s', from, |s'|);
    if |s'| > from {
      ExtendedExact(s, s', head, head', many);
    } else {
      ExtendedPastEnd(s, s', head, head', many);
    }
  }

  lemma SameBelow<T>(s: seq<Wrapper<T>>, s': seq<Wrapper<T>>, head: nat, head': nat, from: nat)
    requires |s'| >= |s| && Appended(s, s'[..|s|], head, head', from)
    ensures forall k :: 0 <= k < |s| ==> (IsFree(s', k) <==> IsFree(s, k)) && s'[k].references == s[k].references
  {
    assert forall k :: 0 <= k < |s| ==> s'[k] == s'[..|s|][k];
  }

  lemma ExtendedPastEnd<T>(s: seq<Wrapper<T>>, s': seq<Wrapper<T>>, head: nat, head': nat, many: nat)
    requires |s| >= 2 && |s'| == |s| + many && Appended(s, s'[..|s|], head, head', |s'|)
    ensures !ExactList(s', head')
  {
    if head != 0 {
      var last: nat :| EndsAt(s, last) && s'[..|s|] == s[last := s[last].(link := Next(|s'|))];
      assert s'[last] == s'[..|s|][last];
      assert IsFree(s', last) && !IsNextFree(s', last, |s'|);
    } else {
      assert !IsNextFree(s', 0, |s'|);
    }
  }

  lemma ExtendedExact<T>(s: seq<Wrapper<T>>, s': seq<Wrapper<T>>, head: nat, head': nat, many: nat)
    requires |s| >= 2 && ExactList(s, head) && many > 0
    requires |s'| > |s| + many && Appended(s, s'[..|s|], head, head', |s| + many)
    requires forall k :: 0 <= k < |s| ==> (IsFree(s', k) <==> IsFree(s, k))
    requires forall k :: |s| <= k < |s| + many ==> s'[k].link == InUse
    requires forall k :: |s| + many <= k < |s'| ==> s'[k].link == Next(if k + 1 < |s'| then k + 1 else 0)
    ensures ExactList(s', head')
  {
    var from := |s| + many;
    assert IsFree(s', from);
    assert IsNextFree(s, 0, head);
    assert forall k :: 0 <= k < |s| ==> s'[k] == s'[..|s|][k];
    forall k: nat | IsFree(s', k)
      ensures IsNextFree(s', k, s'[k].link.h)
    {
      if k < |s| {
        assert IsFree(s, k) && IsNextFree(s, k, s[k].link.h);
      }
    }
  }

  /** No run of the length starts in [lo, hi). */
  ghost predicate NoRun<T>(s: seq<Wrapper<T>>, lo: nat, hi: nat, len: nat)
  {
    forall a: nat {:trigger IsRun(s, a, len)} :: lo <= a < hi ==> !IsRun(s, a, len)
  }

  /** No run reaches over a handle that is not free. */
  lemma NoRunAcross<T>(s: seq<Wrapper<T>>, a0: nat, used: nat, len: nat)
    requires !IsFree(s, used) && used - a0 < len
    ensures NoRun(s, a0, used + 1, len)
  {
    forall a: nat | a0 <= a <= used
      ensures !IsRun(s, a, len)
    {
      assert a <= used < a + len && !IsFree(s, used);
    }
  }

  lemma NoRunJoined<T>(s: seq<Wrapper<T>>, lo: nat, m: nat, mid: nat, hi: nat, len: nat)
    requires NoRun(s, lo, m, len) && NoRun(s, mid, hi, len) && mid <= m
    ensures NoRun(s, lo, hi, len)
  {
  }

  /** No run starts between a handle and the next free one. */
  lemma NoRunBelow<T>(s: seq<Wrapper<T>>, h: nat, next: nat, len: nat)
    requires len > 0 && IsNextFree(s, h, next)
    ensures NoRun(s, h + 1, if next == 0 then |s| else next, len)
  {
    forall a: nat | h < a < (if next == 0 then |s| else next)
      ensures !IsRun(s, a, len)
    {
      assert !IsFree(s, a);
    }
  }

  /** How far the scan has got: no run starts before the sequence under way, which is of free
      handles; with no sequence left, no run exists. */
  ghost predicate Scanned<T>(s: seq<Wrapper<T>>, sequence: nat, found: nat, len: nat)
  {
    && found < len
    && NoRun(s, 1, if sequence == 0 then |s| else sequence, len)
    && IsRun(s, sequence, found) && sequence + found <= |s|
    && (sequence == 0 ==> found == 0)
    && (sequence > 0 ==> IsFree(s, sequence))
  }

  lemma ScanStarts<T>(s: seq<Wrapper<T>>, head: nat, len: nat)
    requires ExactList(s, head) && len > 0
    ensures Scanned(s, head, 0, len)
  {
    NoRunBelow(s, 0, head, len);
  }

  /** When the scan hits a handle in use, it restarts at the free handle linked after the last free
      one it saw: no run starts before that. */
  lemma ScanUsed<T>(s: seq<Wrapper<T>>, head: nat, sequence: nat, found: nat, len: nat)
    requires ExactList(s, head) && Scanned(s, sequence, found, len)
    requires IsValid(s, sequence + found) && !IsFree(s, sequence + found)
    ensures found > 0 && IsFree(s, sequence + found - 1)
    ensures Scanned(s, s[sequence + found - 1].link.h, 0, len)
    ensures var next := s[sequence + found - 1].link.h; next == 0 || next > sequence + found
  {
    hide NoRun, ExactList, IsRun, IsNextFree, IsFree;
    var used, prev := sequence + found, sequence + found - 1;
    LastOfRun(s, sequence, found, len);
    var next := s[prev].link.h;
    FollowedBy(s, head, prev, used);
    NoRunAcross(s, sequence, used, len);
    NoRunJoined(s, 1, sequence, sequence, used + 1, len);
    NoRunBelow(s, prev, next, len);
    NoRunJoined(s, 1, used + 1, used, if next == 0 then |s| else next, len);
  }

  lemma LastOfRun<T>(s: seq<Wrapper<T>>, sequence: nat, found: nat, len: nat)
    requires Scanned(s, sequence, found, len) && IsValid(s, sequence + found) && !IsFree(s, sequence + found)
    ensures found > 0 && IsFree(s, sequence + found - 1) && s[sequence + found - 1].link.Next?
  {
  }

  /** A free handle is linked to the next free one, which is not the one in use after it. */
  lemma FollowedBy<T>(s: seq<Wrapper<T>>, head: nat, prev: nat, used: nat)
    requires ExactList(s, head) && IsFree(s, prev) && used == prev + 1 && !IsFree(s, used)
    ensures var next := s[prev].link.h;
      IsNextFree(s, prev, next) && (next == 0 || (next > used && IsFree(s, next))) && IsRun(s, next, 0)
    ensures s[prev].link.h < |s|
  {
  }

  lemma ScanFree<T>(s: seq<Wrapper<T>>, sequence: nat, found: nat, len: nat)
    requires Scanned(s, sequence, found, len) && IsFree(s, sequence + found) && sequence > 0
    ensures IsRun(s, sequence, found + 1) && sequence + found + 1 <= |s|
    ensures NoRun(s, 1, sequence, len)
    ensures found + 1 < len ==> Scanned(s, sequence, found + 1, len)
  {
  }

  lemma ScanEnds<T>(s: seq<Wrapper<T>>, sequence: nat, found: nat, len: nat)
    requires Scanned(s, sequence, found, len) && !IsValid(s, sequence + found)
    ensures NoRun(s, 1, |s|, len)
  {
    if sequence > 0 {
      NoRunAcross(s, sequence, sequence + found, len);
    }
  }

  /** Lists and counts depend on the links only. */
  lemma SameLinks<T>(s: seq<Wrapper<T>>, s': seq<Wrapper<T>>, head: nat)
    requires |s'| == |s| && forall k :: 0 <= k < |s| ==> s'[k].link == s[k].link
    ensures ExactList(s', head) <==> ExactList(s, head)
    ensures CountFree(s', |s'|) == CountFree(s, |s|)
    ensures forall k :: IsFree(s', k) <==> IsFree(s, k)
  {
    assert forall k :: IsFree(s', k) <==> IsFree(s, k);
    CountSame(s, s', |s|);
    assert forall h: nat, r: nat :: IsNextFree(s', h, r) <==> IsNextFree(s, h, r);
  }
}
