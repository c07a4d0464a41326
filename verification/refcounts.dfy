/** Reference counts of pooled scalars, and the data stack instructions that raise and drop them.
    Counting follows the source reference by reference: every copy into a local, onto the stack or
    into a pooled scalar raises a count, and every destruction drops one. */
module RefCounts {
  import opened Stacks

  /** A scalar's value. Only references to pooled scalars are counted; everything else is a datum. */
  datatype Value = Undef | Datum(d: int) | Ref(h: nat)

  datatype Slot = Unused | Used(references: nat, value: Value)

  // ---------- counting references ----------

  function One(v: Value, h: nat): nat
  {
    if v == Ref(h) then 1 else 0
  }

  /** References to h among the values */
  function Among(values: seq<Value>, h: nat): nat
  {
    if values == [] then 0 else Among(values[..|values| - 1], h) + One(values[|values| - 1], h)
  }

  /** References to h that a slot holds, unless it is hollow */
  function HeldAt(slots: seq<Slot>, hollow: set<nat>, k: nat, h: nat): nat
    requires k < |slots|
  {
    if slots[k].Used? && k !in hollow then One(slots[k].value, h) else 0
  }

  /** References to h that the slots below n hold */
  function Held(slots: seq<Slot>, hollow: set<nat>, n: nat, h: nat): nat
    requires n <= |slots|
  {
    if n == 0 then 0 else Held(slots, hollow, n - 1, h) + HeldAt(slots, hollow, n - 1, h)
  }

  lemma {:induction false} HeldSame(slots: seq<Slot>, hollow: set<nat>, slots': seq<Slot>, hollow': set<nat>, n: nat,
                                    h: nat)
    requires n <= |slots| && n <= |slots'|
    requires forall k :: 0 <= k < n ==> HeldAt(slots', hollow', k, h) == HeldAt(slots, hollow, k, h)
    ensures Held(slots', hollow', n, h) == Held(slots, hollow, n, h)
  {
    if n > 0 {
      HeldSame(slots, hollow, slots', hollow', n - 1, h);
    }
  }

  lemma {:induction false} HeldChanged(slots: seq<Slot>, hollow: set<nat>, slots': seq<Slot>, hollow': set<nat>,
                                       k: nat, n: nat, h: nat)
    requires k < n <= |slots| && n <= |slots'|
    requires forall j :: 0 <= j < n && j != k ==> HeldAt(slots', hollow', j, h) == HeldAt(slots, hollow, j, h)
    ensures Held(slots', hollow', n, h) + HeldAt(slots, hollow, k, h)
         == Held(slots, hollow, n, h) + HeldAt(slots', hollow', k, h)
    decreases n
  {
    if k < n - 1 {
      HeldChanged(slots, hollow, slots', hollow', k, n - 1, h);
    } else {
      HeldSame(slots, hollow, slots', hollow', n - 1, h);
    }
  }

  lemma {:induction false} HeldAtLeast(slots: seq<Slot>, hollow: set<nat>, k: nat, n: nat, h: nat)
    requires k < n <= |slots|
    ensures Held(slots, hollow, n, h) >= HeldAt(slots, hollow, k, h)
  {
    if k < n - 1 {
      HeldAtLeast(slots, hollow, k, n - 1, h);
    }
  }

  lemma {:induction false} AmongAtLeast(values: seq<Value>, i: nat, h: nat)
    requires i < |values|
    ensures Among(values, h) >= One(values[i], h)
  {
    if i < |values| - 1 {
      AmongAtLeast(values[..|values| - 1], i, h);
    }
  }

  lemma AmongPush(values: seq<Value>, v: Value, h: nat)
    ensures Among(values + [v], h) == Among(values, h) + One(v, h)
  {
    assert (values + [v])[..|values|] == values;
  }

  /** Counting among values is counting how often the reference occurs. */
  lemma {:induction false} AmongCounts(values: seq<Value>, h: nat)
    ensures Among(values, h) == multiset(values)[Ref(h)]
  {
    if values != [] {
      var n := |values| - 1;
      AmongCounts(values[..n], h);
      assert values == values[..n] + [values[n]];
    }
  }

  /** The slots in use that refer to h, below n */
  function Referring(slots: seq<Slot>, n: nat, h: nat): set<nat>
    requires n <= |slots|
  {
    set k: nat | k < n && slots[k].Used? && slots[k].value == Ref(h)
  }

  /** What the slots hold are as many references as there are slots in use that refer to it. */
  lemma {:induction false} HeldCounts(slots: seq<Slot>, n: nat, h: nat)
    requires n <= |slots|
    ensures Held(slots, {}, n, h) == |Referring(slots, n, h)|
  {
    if n > 0 {
      HeldCounts(slots, n - 1, h);
      if slots[n - 1].Used? && slots[n - 1].value == Ref(h) {
        assert Referring(slots, n, h) == Referring(slots, n - 1, h) + {n - 1};
      } else {
        assert Referring(slots, n, h) == Referring(slots, n - 1, h);
      }
    }
  }

  /** Counts are exact: a slot in use has as many references as there are holders, and at least
      one; nothing refers to a slot that is not in use. The slots being destroyed are past their
      last reference. */
  ghost predicate Exact(slots: seq<Slot>, hollow: set<nat>, dying: set<nat>, stack: seq<Value>, items: seq<Value>,
                        locals: multiset<nat>)
  {
    forall h: nat :: ExactAt(slots, hollow, dying, stack, items, locals, h)
  }

  function Holders(slots: seq<Slot>, hollow: set<nat>, stack: seq<Value>, items: seq<Value>, locals: multiset<nat>,
                   h: nat): nat
  {
    Among(stack, h) + Among(items, h) + locals[h] + Held(slots, hollow, |slots|, h)
  }

  ghost predicate ExactAt(slots: seq<Slot>, hollow: set<nat>, dying: set<nat>, stack: seq<Value>, items: seq<Value>,
                          locals: multiset<nat>, h: nat)
  {
    var holders := Holders(slots, hollow, stack, items, locals, h);
    if h < |slots| && slots[h].Used? then
      if h in dying then holders == 0 && slots[h].references == 1
      else holders == slots[h].references > 0
    else holders == 0 && h !in dying
  }

  class Machine {
    var slots: seq<Slot>
    var stack: seq<Value>
    /** The array of scalars an instruction may have allocated for itself */
    var items: seq<Value>
    /** The counted references in the local variables of the instruction being executed */
    ghost var locals: multiset<nat>
    /** Slots whose old value has been handed over to be destroyed and no longer counts */
    ghost var hollow: set<nat>
    /** The hollow slots that leave use once their value is destroyed */
    ghost var dying: set<nat>

    ghost predicate Balanced()
      reads this
    {
      dying <= hollow && Exact(slots, hollow, dying, stack, items, locals)
    }

    /** Between instructions no local is alive: the holders are the stack and the slots in use. */
    ghost predicate Valid()
      reads this
    {
      items == [] && locals == multiset{} && hollow == {} && Balanced()
    }

    constructor ()
      ensures Valid() && stack == [] && slots == []
    {
      slots, stack, items := [], [], [];
      locals, hollow, dying := multiset{}, {}, {};
    }

    /** scalar_reference: one more holder of h, recorded as a local */
    method Reference(h: nat)
      requires Balanced() && h < |slots| && slots[h].Used? && h !in dying
      modifies this`slots, this`locals
      ensures Balanced() && locals == old(locals) + multiset{h}
      ensures slots == old(slots)[h := old(slots)[h].(references := old(slots)[h].references + 1)]
    {
      ghost var was := slots;
      slots := slots[h := slots[h].(references := slots[h].references + 1)];
      locals := locals + multiset{h};
      Raised(was, slots, hollow, dying, stack, items, old(locals), h);
    }
  
    /** The slots in use that are not being destroyed: what a release can still reach */
    ghost function Live(): set<nat>
      reads this
    {
      set k: nat | k < |slots| && slots[k].Used? && k !in dying
    }

    /** scalar_release: drops a reference that a local held. The last one destroys the scalar first,
        which releases what its value refers to, and only then takes it out of use. */
    method Release(h: nat)
      requires Balanced() && h in locals
      requires forall k :: k in hollow - dying ==> locals[k] > if k == h then 1 else 0
      modifies this`slots, this`locals, this`hollow, this`dying
      ensures Balanced() && locals == old(locals) - multiset{h}
      ensures hollow == old(hollow) && dying == old(dying)
      ensures Shrunk(old(slots), slots, hollow, dying)
      decreases Live(), 1
    {
      assert ExactAt(slots, hollow, dying, stack, items, locals, h);
      if slots[h].references == 1 {
        ReleaseLast(h);
      } else {
        ghost var was, wasLocals := slots, locals;
        slots := slots[h := slots[h].(references := slots[h].references - 1)];
        locals := locals - multiset{h};
        Lowered(was, slots, hollow, dying, stack, items, wasLocals, h);
      }
    }

    /** The last reference: the value is destroyed while the scalar still counts as in use with one
        reference, then the scalar leaves use. */
    method ReleaseLast(h: nat)
      requires Balanced() && h in locals && h < |slots| && slots[h].Used? && slots[h].references == 1
      requires forall k :: k in hollow - dying ==> locals[k] > if k == h then 1 else 0
      modifies this`slots, this`locals, this`hollow, this`dying
      ensures Balanced() && locals == old(locals) - multiset{h}
      ensures hollow == old(hollow) && dying == old(dying)
      ensures Shrunk(old(slots), slots, hollow, dying) && slots[h] == Unused
      decreases Live(), 0
    {
      var v := slots[h].value;
      ghost var was, wasHollow, wasDying := slots, hollow, dying;
      ghost var rest := locals - multiset{h};
      StartsDying(slots, hollow, dying, stack, items, locals, h, rest);
      locals, hollow, dying := rest + Handed(v), hollow + {h}, dying + {h};
      if v.Ref? {
        HandedOver(slots, hollow, dying, stack, items, locals, v.h);
        assert h in old(Live()) && h !in Live();
        Release(v.h);
        assert locals == rest;
      }
      ghost var emptied := slots;
      slots := slots[h := Unused];
      hollow, dying := wasHollow, wasDying;
      Dies(was, emptied, slots, hollow, dying, stack, items, locals, h);
    }

    // ---------- locals, the stack and the instruction's own array ----------

    /** anon_scalar_clone into a fresh local */
    method Clone(v: Value)
      requires Balanced() && Alive(v, slots, dying)
      modifies this`slots, this`locals
      ensures Balanced() && locals == old(locals) + Handed(v)
      ensures Alike(old(slots), slots)
    {
      if v.Ref? {
        Reference(v.h);
      }
    }

    /** anon_scalar_destroy of a local */
    method Destroy(v: Value, ghost rest: multiset<nat>)
      requires Balanced() && hollow == {} && locals == rest + Handed(v)
      modifies this`slots, this`locals, this`hollow, this`dying
      ensures Balanced() && hollow == {} && locals == rest
      ensures Kept(old(slots), slots)
    {
      if v.Ref? {
        Release(v.h);
        assert locals == rest;
      }
    }

    /** STACK_PUSH of one value: the stack gets its own copy. */
    method Push(v: Value)
      requires Balanced() && Alive(v, slots, dying)
      modifies this`slots, this`locals, this`stack
      ensures Balanced() && locals == old(locals)
      ensures stack == old(stack) + [v] && Alike(old(slots), slots)
    {
      ghost var before := locals;
      Clone(v);
      LocalToStack(slots, hollow, dying, stack, items, before, v);
      stack, locals := stack + [v], before;
    }

    /** STACK_POP into a local: a copy is made and the stack's own value destroyed. */
    method Pop() returns (v: Value)
      requires Balanced() && hollow == {} && stack != []
      modifies this`slots, this`locals, this`hollow, this`dying, this`stack
      ensures Balanced() && hollow == {} && locals == old(locals) + Handed(v)
      ensures old(stack) == stack + [v] && Kept(old(slots), slots) && Alive(v, slots, dying)
    {
      ghost var before := locals;
      v := stack[|stack| - 1];
      assert stack == stack[..|stack| - 1] + [v];
      StackedIsAlive(slots, hollow, dying, stack, items, locals, |stack| - 1);
      Clone(v);
      ghost var after := locals;
      stack := stack[..|stack| - 1];
      StackToLocal(slots, hollow, dying, stack, items, locals, v);
      locals := after + Handed(v);
      Destroy(v, after);
      LocalIsAlive(slots, hollow, dying, stack, items, before, v);
    }

    /** STACK_POP with no place for the value: it is destroyed where it is. */
    method Discard()
      requires Valid() && stack != []
      modifies this
      ensures Valid() && stack == old(stack)[..|old(stack)| - 1] && Kept(old(slots), slots)
    {
      var v := stack[|stack| - 1];
      assert stack == stack[..|stack| - 1] + [v];
      stack := stack[..|stack| - 1];
      StackToLocal(slots, hollow, dying, stack, items, locals, v);
      locals := locals + Handed(v);
      Destroy(v, multiset{});
    }

    /** STACK_NPOP into the instruction's array: the top of the stack comes first. */
    method PopAll(n: nat)
      requires Balanced() && hollow == {} && items == [] && n <= |stack|
      modifies this
      ensures Balanced() && hollow == {} && locals == old(locals)
      ensures |items| == n && |stack| == |old(stack)| - n
      ensures forall k :: 0 <= k < |stack| ==> stack[k] == old(stack)[k]
      ensures forall k :: 0 <= k < n ==> items[k] == old(stack)[|old(stack)| - 1 - k]
      ensures Kept(old(slots), slots)
    {
      ghost var before := locals;
      var i := 0;
      while i < n
        invariant i <= n <= |old(stack)| && Balanced() && hollow == {} && locals == before
        invariant |items| == i && |stack| == |old(stack)| - i
        invariant forall k :: 0 <= k < |stack| ==> stack[k] == old(stack)[k]
        invariant forall k :: 0 <= k < i ==> items[k] == old(stack)[|old(stack)| - 1 - k]
        invariant Kept(old(slots), slots)
      {
        var v := Pop();
        LocalToItems(slots, hollow, dying, stack, items, before, v);
        items, locals := items + [v], before;
        i := i + 1;
      }
    }

    /** STACK_NPUSH of the instruction's array: its first item ends on top. */
    method PushAll()
      requires Balanced() && hollow == {}
      modifies this`slots, this`locals, this`stack
      ensures Balanced() && locals == old(locals) && Alike(old(slots), slots)
      ensures |stack| == |old(stack)| + |items|
      ensures forall k :: 0 <= k < |old(stack)| ==> stack[k] == old(stack)[k]
      ensures forall k :: |old(stack)| <= k < |stack| ==> stack[k] == items[|stack| - 1 - k]
    {
      ghost var all, below := items, stack;
      var i := |items|;
      while i > 0
        invariant items == all && 0 <= i <= |all| && Balanced() && locals == old(locals) && Alike(old(slots), slots)
        invariant hollow == old(hollow) && dying == old(dying)
        invariant |stack| == |below| + |all| - i
        invariant forall k :: 0 <= k < |below| ==> stack[k] == below[k]
        invariant forall k :: |below| <= k < |stack| ==> stack[k] == all[|below| + |all| - 1 - k]
      {
        i := i - 1;
        ItemIsAlive(slots, hollow, dying, stack, items, locals, i);
        Push(items[i]);
      }
    }

    /** Destroys one item of the instruction's array. */
    method DestroyItem(i: nat)
      requires Balanced() && hollow == {} && i < |items|
      modifies this`slots, this`locals, this`hollow, this`dying, this`items
      ensures Balanced() && hollow == {} && locals == old(locals)
      ensures items == old(items)[i := Undef] && Kept(old(slots), slots)
    {
      ghost var before := locals;
      var v := items[i];
      ItemToLocal(slots, hollow, dying, stack, items, locals, i, items[i := Undef]);
      items, locals := items[i := Undef], locals + Handed(v);
      Destroy(v, before);
    }

    /** Destroys every item of the instruction's array and frees the array. */
    method FreeItems()
      requires Balanced() && hollow == {}
      modifies this`slots, this`locals, this`hollow, this`dying, this`items
      ensures Balanced() && hollow == {} && locals == old(locals) && items == [] && Kept(old(slots), slots)
    {
      var i := 0;
      while i < |items|
        invariant i <= |items| && Balanced() && hollow == {} && locals == old(locals) && Kept(old(slots), slots)
        invariant forall k :: 0 <= k < i ==> items[k] == Undef
      {
        DestroyItem(i);
        i := i + 1;
      }
      ItemsGone(slots, hollow, dying, stack, items, locals);
      items := [];
    }

    // ---------- scalars in the pool ----------

    /** Destroys the value of a pooled scalar in place: its reference is released while the scalar
        still shows the old value, which no longer counts. */
    method Empty(h: nat)
      requires Balanced() && hollow == {} && h in locals
      modifies this`slots, this`locals, this`hollow, this`dying
      ensures Balanced() && hollow == {} && locals == old(locals)
      ensures h < |slots| && slots[h].Used? && slots[h].value == Undef
      ensures KeptExcept(old(slots), slots, h)
    {
      ghost var rest := locals;
      HandedOver(slots, hollow, dying, stack, items, locals, h);
      var v := slots[h].value;
      CellToLocal(slots, dying, stack, items, locals, h);
      hollow, locals := {h}, rest + Handed(v);
      if v.Ref? {
        Release(v.h);
        assert locals == rest;
      }
      ghost var was := slots;
      slots := slots[h := slots[h].(value := Undef)];
      hollow := {};
      Emptied(was, slots, dying, stack, items, locals, h);
    }

    /** scalar_set_value: destroys what the pooled scalar holds, then copies the value into it. */
    method SetValue(h: nat, v: Value)
      requires Balanced() && hollow == {} && multiset{h} + Handed(v) <= locals
      modifies this`slots, this`locals, this`hollow, this`dying
      ensures Balanced() && hollow == {} && locals == old(locals)
      ensures h < |slots| && slots[h].Used? && slots[h].value == v
      ensures KeptExcept(old(slots), slots, h)
    {
      ghost var before := locals;
      Empty(h);
      assert before - Handed(v) + Handed(v) == before;
      LocalIsAlive(slots, hollow, dying, stack, items, before - Handed(v), v);
      HandedOver(slots, hollow, dying, stack, items, locals, h);
      Clone(v);
      ghost var was := slots;
      slots := slots[h := slots[h].(value := v)];
      locals := before;
      Filled(was, slots, dying, stack, items, before, h, v);
    }

    /** scalar_allocate: takes an unused handle, growing the pool if it has none, and hands out the
        one reference to the empty scalar. */
    method Allocate(h: nat)
      requires Balanced() && hollow == {} && (h < |slots| ==> slots[h].Unused?)
      modifies this`slots, this`locals
      ensures Balanced() && locals == old(locals) + multiset{h}
      ensures |slots| >= |old(slots)| && h < |slots| && slots[h] == Used(1, Undef)
      ensures forall k :: 0 <= k < |slots| && k != h ==> slots[k] == if k < |old(slots)| then old(slots)[k] else Unused
    {
      ghost var was := slots;
      if h >= |slots| {
        slots := slots + seq(h + 1 - |slots|, i => Unused);
      }
      slots := slots[h := Used(1, Undef)];
      locals := locals + multiset{h};
      Allocated(was, slots, dying, stack, items, old(locals), h);
    }

    // ---------- the instructions ----------

    /** A literal: the value is pushed and the local destroyed. */
    method Literal(d: Value)
      requires Valid() && !d.Ref?
      modifies this
      ensures Valid() && stack == old(stack) + [d] && Kept(old(slots), slots)
    {
      Push(d);
    }

    /** STACK_DUP and STACK_OVER: pushes the value found depth places below the top. */
    method CopyFrom(depth: nat)
      requires Valid() && depth < |stack|
      modifies this
      ensures Valid() && stack == old(stack) + [old(stack)[|old(stack)| - 1 - depth]] && Kept(old(slots), slots)
    {
      StackedIsAlive(slots, hollow, dying, stack, items, locals, |stack| - 1 - depth);
      Push(stack[|stack| - 1 - depth]);
    }

    /** STACK_SWAP: moves the bytes without counting. */
    method Swap()
      requires Valid() && |stack| > 1
      modifies this`stack
      ensures Valid()
      ensures stack == old(stack)[..|old(stack)| - 2] + [old(stack)[|old(stack)| - 1], old(stack)[|old(stack)| - 2]]
    {
      var n := |stack|;
      ghost var was := stack;
      stack := stack[n - 2 := stack[n - 1]][n - 1 := stack[n - 2]];
      Swapped(slots, hollow, dying, was, items, locals, stack);
    }

    /** ROT: the count comes off, then the top item goes below the other n - 1. */
    method Rot()
      requires Valid() && stack != [] && IntOf(stack[|stack| - 1]) < |stack|
      modifies this
      ensures Valid() && Kept(old(slots), slots)
      ensures stack == Rotated(old(stack)[..|old(stack)| - 1], IntOf(old(stack)[|old(stack)| - 1]))
    {
      var count := Pop();
      if IntOf(count) > 1 {
        RotItems(IntOf(count));
      }
      Destroy(count, multiset{});
    }

    method RotItems(n: nat)
      requires Balanced() && hollow == {} && items == [] && 1 < n <= |stack|
      modifies this
      ensures Balanced() && hollow == {} && items == [] && locals == old(locals)
      ensures stack == Rotated(old(stack), n) && Kept(old(slots), slots)
    {
      ghost var below, before := stack, locals;
      var top := Pop();
      PopAll(n - 1);
      ghost var kept, all := stack, items;
      LocalIsAlive(slots, hollow, dying, stack, items, before, top);
      Push(top);
      PushAll();
      AssembleRotated(below, n, kept, all, stack);
      Destroy(top, before);
      FreeItems();
    }

    /** TOR: the count comes off, then the lowest of n items goes on top. */
    method Tor()
      requires Valid() && stack != [] && IntOf(stack[|stack| - 1]) < |stack|
      modifies this
      ensures Valid() && Kept(old(slots), slots)
      ensures stack == Unrotated(old(stack)[..|old(stack)| - 1], IntOf(old(stack)[|old(stack)| - 1]))
    {
      var count := Pop();
      if IntOf(count) > 1 {
        TorItems(IntOf(count));
      }
      Destroy(count, multiset{});
    }

    method TorItems(n: nat)
      requires Balanced() && hollow == {} && items == [] && 1 < n <= |stack|
      modifies this
      ensures Balanced() && hollow == {} && items == [] && locals == old(locals)
      ensures stack == Unrotated(old(stack), n) && Kept(old(slots), slots)
    {
      ghost var below, before := stack, locals;
      PopAll(n - 1);
      ghost var all := items;
      var bottom := Pop();
      ghost var kept := stack;
      PushAll();
      LocalIsAlive(slots, hollow, dying, stack, items, before, bottom);
      Push(bottom);
      AssembleUnrotated(below, n, kept, all, stack);
      Destroy(bottom, before);
      FreeItems();
    }

    /** REV: reverses the items below the count and leaves the count; a negative one, for which no
        array can be had, becomes 0. */
    method Rev()
      requires Valid() && stack != [] && IntOf(stack[|stack| - 1]) < |stack|
      modifies this
      ensures Valid() && Kept(old(slots), slots)
      ensures stack == Reversed(old(stack)[..|old(stack)| - 1], old(stack)[|old(stack)| - 1])
      ensures IsReversed(old(stack), stack)
    {
      hide IsReversed;
      ghost var was := stack;
      var count := Pop();
      var n := IntOf(count);
      ghost var below, counted := stack, locals;
      var kept := count;
      if n > 0 {
        PopAll(n);
        PushReversed();
      } else if n < 0 {
        Destroy(count, multiset{});
        kept := Datum(0);
        counted := multiset{};
        assert counted == multiset{} + Handed(kept);
      }
      LocalIsAlive(slots, hollow, dying, stack, items, multiset{}, kept);
      Push(kept);
      Destroy(kept, multiset{});
      assert stack == Reversed(below, count);
      assert was == below + [count];
      ReversedIs(below, count);
    }

    /** REV's loop: each item is pushed, then destroyed. */
    method PushReversed()
      requires Balanced() && hollow == {}
      modifies this
      ensures Balanced() && hollow == {} && locals == old(locals) && items == [] && Kept(old(slots), slots)
      ensures stack == old(stack) + old(items)
    {
      var i := 0;
      while i < |items|
        invariant i <= |items| == |old(items)| && Balanced() && hollow == {} && locals == old(locals)
        invariant Kept(old(slots), slots) && stack == old(stack) + old(items)[..i]
        invariant forall k :: 0 <= k < i ==> items[k] == Undef
        invariant forall k :: i <= k < |items| ==> items[k] == old(items)[k]
      {
        ItemIsAlive(slots, hollow, dying, stack, items, locals, i);
        Push(items[i]);
        DestroyItem(i);
        i := i + 1;
      }
      ItemsGone(slots, hollow, dying, stack, items, locals);
      items := [];
    }

    /** SCALAR: a new empty scalar at an unused handle, and a reference to it on the stack */
    method NewScalar(h: nat)
      requires Valid() && (h < |slots| ==> slots[h].Unused?)
      modifies this
      ensures Valid() && stack == old(stack) + [Ref(h)]
      ensures h < |slots| && slots[h].Used? && slots[h].value == Undef
      ensures forall k :: 0 <= k < |slots| && k != h && slots[k].Used? ==>
        k < |old(slots)| && old(slots)[k].Used? && slots[k].value == old(slots)[k].value
    {
      Allocate(h);
      Reference(h);
      Push(Ref(h));
      assert Handed(Ref(h)) == multiset{h};
      Destroy(Ref(h), multiset{h});
      Destroy(Ref(h), multiset{});
      StackedIsAlive(slots, hollow, dying, stack, items, locals, |stack| - 1);
    }

    /** SRREAD: replaces a reference by a copy of what the scalar holds. */
    method SrRead()
      requires Valid() && stack != [] && stack[|stack| - 1].Ref?
      modifies this
      ensures Valid() && Kept(old(slots), slots)
      ensures var h := old(stack)[|old(stack)| - 1].h;
        h < |old(slots)| && old(slots)[h].Used? && stack == old(stack)[..|old(stack)| - 1] + [old(slots)[h].value]
    {
      var r := Pop();
      var h := r.h;
      var a := slots[h].value;
      CellIsAlive(slots, dying, stack, items, locals, h);
      Clone(a);
      assert locals == Handed(r) + Handed(a);
      LocalIsAlive(slots, hollow, dying, stack, items, Handed(r), a);
      Push(a);
      Destroy(a, Handed(r));
      Destroy(r, multiset{});
    }

    /** SRWRITE: stores a value in the scalar referred to. */
    method SrWrite()
      requires Valid() && |stack| > 1 && stack[|stack| - 1].Ref?
      modifies this
      ensures Valid() && stack == old(stack)[..|old(stack)| - 2]
      ensures KeptExcept(old(slots), slots, old(stack)[|old(stack)| - 1].h)
      ensures var h := old(stack)[|old(stack)| - 1].h;
        h < |slots| && (slots[h].Used? ==> slots[h].value == old(stack)[|old(stack)| - 2])
    {
      var r := Pop();
      var a := Pop();
      SetValue(r.h, a);
      Destroy(a, Handed(r));
      Destroy(r, multiset{});
    }

    // ---------- whole runs ----------

    method Execute(op: Op)
      requires Valid() && Enabled(op, stack) && Fresh(op, slots)
      modifies this
      ensures Valid()
      ensures forall plain :: Agrees(plain, old(stack), old(slots)) ==> Agrees(After(plain, op), stack, slots)
    {
      ghost var before, were := stack, slots;
      match op {
        case Literal(d) => Literal(d);
        case Scalar(h) => NewScalar(h);
        case Drop => Discard();
        case Dup => CopyFrom(0);
        case Over => CopyFrom(1);
        case Swap => Swap();
        case Rot => Rot();
        case Tor => Tor();
        case Rev => Rev();
        case SrRead => SrRead();
        case SrWrite => SrWrite();
      }
    }

    /** Executes a program up to its end or the first instruction that may not be executed. The data
        stack and all scalars still in use are at every point what they would be if no scalar ever
        left use. */
    method Run(program: seq<Op>) returns (n: nat)
      requires Valid() && stack == [] && slots == []
      modifies this
      ensures Valid() && n <= |program|
      ensures n < |program| ==> !Enabled(program[n], stack) || !Fresh(program[n], slots)
      ensures Agrees(RunPlain(program, n), stack, slots)
    {
      n := 0;
      while n < |program| && Enabled(program[n], stack) && Fresh(program[n], slots)
        invariant Valid() && n <= |program| && Agrees(RunPlain(program, n), stack, slots)
      {
        Execute(program[n]);
        n := n + 1;
      }
    }
  }

  // ---------- what the instructions compute ----------

  /** anon_scalar_get_int_value, for integers and what converts to 0 */
  function IntOf(v: Value): (n: int)
    ensures v == Undef || v.Ref? ==> n == 0
  {
    if v.Datum? then v.d else 0
  }

  /** The top item moved below the n - 1 items under it */
  function Rotated(stack: seq<Value>, n: int): seq<Value>
    requires n <= |stack|
  {
    if n <= 1 then stack
    else stack[..|stack| - n] + [stack[|stack| - 1]] + stack[|stack| - n..|stack| - 1]
  }

  /** The lowest of n items moved to the top */
  function Unrotated(stack: seq<Value>, n: int): seq<Value>
    requires n <= |stack|
  {
    if n <= 1 then stack
    else stack[..|stack| - n] + stack[|stack| - n + 1..] + [stack[|stack| - n]]
  }

  lemma AssembleRotated(was: seq<Value>, n: nat, kept: seq<Value>, items: seq<Value>, now: seq<Value>)
    requires 1 < n <= |was| == |now| && |kept| == |was| - n && |items| == n - 1
    requires forall k :: 0 <= k < |kept| ==> kept[k] == was[k]
    requires forall k :: 0 <= k < |items| ==> items[k] == was[|was| - 2 - k]
    requires forall k :: 0 <= k <= |kept| ==> now[k] == if k < |kept| then kept[k] else was[|was| - 1]
    requires forall k :: |kept| < k < |was| ==> now[k] == items[|was| - 1 - k]
    ensures now == Rotated(was, n)
  {
  }

  lemma AssembleUnrotated(was: seq<Value>, n: nat, kept: seq<Value>, items: seq<Value>, now: seq<Value>)
    requires 1 < n <= |was| == |now| && |kept| == |was| - n && |items| == n - 1
    requires forall k :: 0 <= k < |kept| ==> kept[k] == was[k]
    requires forall k :: 0 <= k < |items| ==> items[k] == was[|was| - 1 - k]
    requires forall k :: 0 <= k < |kept| ==> now[k] == kept[k]
    requires forall k :: |kept| <= k < |was| - 1 ==> now[k] == items[|was| - 2 - k]
    requires now[|was| - 1] == was[|was| - n]
    ensures now == Unrotated(was, n)
  {
  }

  lemma RotatedAt(stack: seq<Value>, n: nat, k: nat)
    requires 1 < n <= |stack| && k < |stack|
    ensures |Rotated(stack, n)| == |stack|
    ensures Rotated(stack, n)[k]
         == stack[if k < |stack| - n then k else if k == |stack| - n then |stack| - 1 else k - 1]
  {
  }

  lemma UnrotatedAt(stack: seq<Value>, n: nat, k: nat)
    requires 1 < n <= |stack| && k < |stack|
    ensures |Unrotated(stack, n)| == |stack|
    ensures Unrotated(stack, n)[k]
         == stack[if k < |stack| - n then k else if k == |stack| - 1 then |stack| - n else k + 1]
  {
  }

  lemma TorUndoesRot(stack: seq<Value>, n: int)
    requires n <= |stack|
    ensures |Rotated(stack, n)| == |stack| && Unrotated(Rotated(stack, n), n) == stack
  {
    if n > 1 {
      var r := Rotated(stack, n);
      RotatedAt(stack, n, 0);
      forall k: nat | k < |stack|
        ensures |Unrotated(r, n)| == |stack| && Unrotated(r, n)[k] == stack[k]
      {
        UnrotatedAt(r, n, k);
        RotatedAt(stack, n, if k < |stack| - n then k else if k == |stack| - 1 then |stack| - n else k + 1);
      }
      assert |Unrotated(r, n)| == |stack|;
    }
  }

  lemma RotUndoesTor(stack: seq<Value>, n: int)
    requires n <= |stack|
    ensures |Unrotated(stack, n)| == |stack| && Rotated(Unrotated(stack, n), n) == stack
  {
    if n > 1 {
      var u := Unrotated(stack, n);
      UnrotatedAt(stack, n, 0);
      forall k: nat | k < |stack|
        ensures |Rotated(u, n)| == |stack| && Rotated(u, n)[k] == stack[k]
      {
        RotatedAt(u, n, k);
        UnrotatedAt(stack, n, if k < |stack| - n then k else if k == |stack| - n then |stack| - 1 else k - 1);
      }
      assert |Rotated(u, n)| == |stack|;
    }
  }

  /** REV leaves its count on top, so applying it again finds the same count and undoes it. */
  lemma RevUndoesItself(stack: seq<Value>, count: Value)
    requires 0 <= IntOf(count) <= |stack|
    ensures var once := Reversed(stack, count); |once| == |stack| + 1 && once[|stack|] == count
    ensures Reversed(Reversed(stack, count)[..|stack|], count) == stack + [count]
  {
    var n := IntOf(count);
    var once := Reversed(stack, count)[..|stack|];
    forall k | 0 <= k < |stack|
      ensures Reversed(once, count)[k] == stack[k]
    {
    }
  }

  function RotatedTimes(stack: seq<Value>, n: nat, times: nat): (r: seq<Value>)
    requires n <= |stack|
    ensures |r| == |stack|
  {
    if times == 0 then stack else Rotated(RotatedTimes(stack, n, times - 1), n)
  }

  /** ROT of n items, applied n times, brings every item back. */
  lemma RotatedAllTheWay(stack: seq<Value>, n: nat)
    requires n <= |stack|
    ensures RotatedTimes(stack, n, n) == stack
  {
    RotatedSoFar(stack, n, n);
  }

  /** Where the item at k came from, some rotations of the last n items ago */
  function Origin(length: nat, n: nat, times: nat, k: nat): nat
    requires times <= n <= length && k < length
  {
    if k < length - n then k else if k - times >= length - n then k - times else k - times + n
  }

  lemma {:induction false} RotatedSoFar(stack: seq<Value>, n: nat, times: nat)
    requires times <= n <= |stack|
    ensures forall k: nat :: k < |stack| ==> RotatedTimes(stack, n, times)[k] == stack[Origin(|stack|, n, times, k)]
  {
    if times > 0 {
      RotatedSoFar(stack, n, times - 1);
      if n > 1 {
        var before, base := RotatedTimes(stack, n, times - 1), |stack| - n;
        forall k: nat | k < |stack|
          ensures RotatedTimes(stack, n, times)[k] == stack[Origin(|stack|, n, times, k)]
        {
          RotatedAt(before, n, k);
          var from := if k < base then k else if k == base then |stack| - 1 else k - 1;
          assert Origin(|stack|, n, times - 1, from) == Origin(|stack|, n, times, k);
        }
      }
    }
  }

  // ---------- the machine in which no scalar leaves use ----------

  datatype Op = Literal(d: Value) | Scalar(h: nat) | Drop | Dup | Over | Swap | Rot | Tor | Rev | SrRead | SrWrite

  /** Every scalar ever allocated keeps its value until its handle is handed out again. */
  datatype Plain = Plain(stack: seq<Value>, scalars: map<nat, Value>)

  /** What the instructions assert of the data stack */
  predicate Enabled(op: Op, stack: seq<Value>)
  {
    match op
    case Literal(d) => !d.Ref?
    case Scalar(h) => true
    case Drop => stack != []
    case Dup => stack != []
    case Over => |stack| > 1
    case Swap => |stack| > 1
    case Rot => stack != [] && IntOf(stack[|stack| - 1]) < |stack|
    case Tor => stack != [] && IntOf(stack[|stack| - 1]) < |stack|
    case Rev => stack != [] && IntOf(stack[|stack| - 1]) < |stack|
    case SrRead => stack != [] && stack[|stack| - 1].Ref?
    case SrWrite => |stack| > 1 && stack[|stack| - 1].Ref?
  }

  /** Allocation hands out a handle that is not in use. */
  predicate Fresh(op: Op, slots: seq<Slot>)
  {
    op.Scalar? && op.h < |slots| ==> slots[op.h].Unused?
  }

  function After(plain: Plain, op: Op): Plain
  {
    if !Enabled(op, plain.stack) then plain else
    var s, n := plain.stack, |plain.stack|;
    match op
    case Literal(d) => plain.(stack := s + [d])
    case Scalar(h) => Plain(s + [Ref(h)], plain.scalars[h := Undef])
    case Drop => plain.(stack := s[..n - 1])
    case Dup => plain.(stack := s + [s[n - 1]])
    case Over => plain.(stack := s + [s[n - 2]])
    case Swap => plain.(stack := s[..n - 2] + [s[n - 1], s[n - 2]])
    case Rot => plain.(stack := Rotated(s[..n - 1], IntOf(s[n - 1])))
    case Tor => plain.(stack := Unrotated(s[..n - 1], IntOf(s[n - 1])))
    case Rev => plain.(stack := Reversed(s[..n - 1], s[n - 1]))
    case SrRead =>
      var h := s[n - 1].h;
      plain.(stack := s[..n - 1] + [if h in plain.scalars then plain.scalars[h] else Undef])
    case SrWrite => Plain(s[..n - 2], plain.scalars[s[n - 1].h := s[n - 2]])
  }

  /** What each instruction does to the stack, item by item, and to the scalars. */
  lemma AfterIs(plain: Plain, op: Op)
    requires Enabled(op, plain.stack)
    ensures var s, n, end := plain.stack, |plain.stack|, After(plain, op);
      match op
      case Literal(d) => end == Plain(s + [d], plain.scalars)
      case Scalar(h) => end == Plain(s + [Ref(h)], plain.scalars[h := Undef])
      case Drop => end == Plain(s[..n - 1], plain.scalars)
      case Dup => end == Plain(s + [s[n - 1]], plain.scalars)
      case Over => end == Plain(s + [s[n - 2]], plain.scalars)
      case Swap => end == Plain(s[..n - 2] + [s[n - 1], s[n - 2]], plain.scalars)
      case Rot => end.scalars == plain.scalars && IsRotated(s, end.stack)
      case Tor => end.scalars == plain.scalars && IsUnrotated(s, end.stack)
      case Rev => end.scalars == plain.scalars && IsReversed(s, end.stack)
      case SrRead =>
        s[n - 1].h in plain.scalars ==> end == Plain(s[..n - 1] + [plain.scalars[s[n - 1].h]], plain.scalars)
      case SrWrite => end == Plain(s[..n - 2], plain.scalars[s[n - 1].h := s[n - 2]])
  {
    hide IsReversed, Reversed;
    var s, n := plain.stack, |plain.stack|;
    if op.Rev? {
      ReversedIs(s[..n - 1], s[n - 1]);
      assert s == s[..n - 1] + [s[n - 1]];
    }
  }

  /** The stack after ROT: the count is gone, and of the items it asks for the top one is now the lowest. */
  ghost predicate IsRotated(was: seq<Value>, now: seq<Value>)
    requires was != [] && IntOf(was[|was| - 1]) < |was|
  {
    var top, n := |was| - 1, IntOf(was[|was| - 1]);
    && |now| == top
    && forall k :: 0 <= k < top ==>
         now[k] == if n <= 1 || k < top - n then was[k] else if k == top - n then was[top - 1] else was[k - 1]
  }

  /** The stack after TOR: the count is gone, and of the items it asks for the lowest is now on top. */
  ghost predicate IsUnrotated(was: seq<Value>, now: seq<Value>)
    requires was != [] && IntOf(was[|was| - 1]) < |was|
  {
    var top, n := |was| - 1, IntOf(was[|was| - 1]);
    && |now| == top
    && forall k :: 0 <= k < top ==>
         now[k] == if n <= 1 || k < top - n then was[k] else if k == top - 1 then was[top - n] else was[k + 1]
  }

  function RunPlain(program: seq<Op>, n: nat): Plain
    requires n <= |program|
  {
    if n == 0 then Plain([], map[]) else After(RunPlain(program, n - 1), program[n - 1])
  }

  /** The same data stack, and the same values in all scalars in use */
  ghost predicate Agrees(plain: Plain, stack: seq<Value>, slots: seq<Slot>)
  {
    && plain.stack == stack
    && forall k :: 0 <= k < |slots| && slots[k].Used? ==> k in plain.scalars && plain.scalars[k] == slots[k].value
  }

  function Reversed(stack: seq<Value>, count: Value): seq<Value>
    requires IntOf(count) <= |stack|
  {
    var n := IntOf(count);
    if n < 0 then stack + [Datum(0)]
    else stack[..|stack| - n] + Backwards(stack[|stack| - n..]) + [count]
  }

  /** The stack after REV, item by item: the items the count asks for are in the opposite order, those below
      them and the count on top are as they were; but a negative count has become 0. */
  ghost predicate IsReversed(was: seq<Value>, now: seq<Value>)
    requires was != [] && IntOf(was[|was| - 1]) < |was|
  {
    var top, n := |was| - 1, IntOf(was[|was| - 1]);
    && |now| == |was| && now[top] == (if n < 0 then Datum(0) else was[top])
    && forall k :: 0 <= k < top ==> now[k] == if k < top - n then was[k] else was[top - 1 - (k - (top - n))]
  }

  lemma ReversedIs(stack: seq<Value>, count: Value)
    requires IntOf(count) <= |stack|
    ensures IsReversed(stack + [count], Reversed(stack, count))
  {
    var was, now, top := stack + [count], Reversed(stack, count), |stack|;
    assert was[|was| - 1] == count && |now| == |was|;
    if IntOf(count) >= 0 {
      var low := top - IntOf(count);
      var turned := Backwards(stack[low..]);
      assert now == stack[..low] + turned + [count];
      forall k | low <= k < top
        ensures now[k] == was[top - 1 - (k - low)]
      {
        assert now[k] == turned[k - low] == stack[low..][top - 1 - k] == stack[low + top - 1 - k];
      }
    }
  }

  /** The reference that a value hands to the locals when it is about to be destroyed */
  function Handed(v: Value): multiset<nat>
  {
    if v.Ref? then multiset{v.h} else multiset{}
  }

  lemma HandedOver(slots: seq<Slot>, hollow: set<nat>, dying: set<nat>, stack: seq<Value>, items: seq<Value>,
                   locals: multiset<nat>, g: nat)
    requires Exact(slots, hollow, dying, stack, items, locals) && g in locals
    ensures g < |slots| && slots[g].Used? && g !in dying
  {
    assert ExactAt(slots, hollow, dying, stack, items, locals, g);
  }

  /** Some slots may have left use; the rest keep their values, and no slot came into use. Hollow
      slots stay, and those being destroyed are not touched at all. */
  ghost predicate Shrunk(was: seq<Slot>, now: seq<Slot>, hollow: set<nat>, dying: set<nat>)
  {
    && |now| == |was|
    && (forall k :: 0 <= k < |was| && now[k].Used? ==> was[k].Used? && now[k].value == was[k].value)
    && (forall k :: 0 <= k < |was| && k in hollow && was[k].Used? ==> now[k].Used?)
    && (forall k :: 0 <= k < |was| && k in dying ==> now[k] == was[k])
  }

  /** Handing over the value of a slot at its last reference keeps the books balanced. */
  lemma StartsDying(slots: seq<Slot>, hollow: set<nat>, dying: set<nat>, stack: seq<Value>, items: seq<Value>,
                    locals: multiset<nat>, h: nat, rest: multiset<nat>)
    requires Exact(slots, hollow, dying, stack, items, locals) && h in locals
    requires h < |slots| && slots[h].Used? && slots[h].references == 1
    requires forall k :: k in hollow - dying ==> locals[k] > if k == h then 1 else 0
    requires rest == locals - multiset{h}
    ensures h !in hollow && h !in dying && slots[h].value != Ref(h)
    ensures Exact(slots, hollow + {h}, dying + {h}, stack, items, rest + Handed(slots[h].value))
  {
    assert ExactAt(slots, hollow, dying, stack, items, locals, h);
    HeldAtLeast(slots, hollow, h, |slots|, h);
    forall x: nat
      ensures ExactAt(slots, hollow + {h}, dying + {h}, stack, items, rest + Handed(slots[h].value), x)
    {
      assert ExactAt(slots, hollow, dying, stack, items, locals, x);
      HeldChanged(slots, hollow, slots, hollow + {h}, h, |slots|, x);
    }
  }

  /** Taking an emptied slot out of use */
  lemma Dies(first: seq<Slot>, was: seq<Slot>, slots: seq<Slot>, hollow: set<nat>, dying: set<nat>,
             stack: seq<Value>, items: seq<Value>, locals: multiset<nat>, h: nat)
    requires Exact(was, hollow + {h}, dying + {h}, stack, items, locals)
    requires Shrunk(first, was, hollow + {h}, dying + {h})
    requires h < |was| && slots == was[h := Unused] && h !in dying && h !in hollow
    ensures Exact(slots, hollow, dying, stack, items, locals)
    ensures Shrunk(first, slots, hollow, dying)
  {
    forall x: nat
      ensures ExactAt(slots, hollow, dying, stack, items, locals, x)
    {
      assert ExactAt(was, hollow + {h}, dying + {h}, stack, items, locals, x);
      HeldSame(was, hollow + {h}, slots, hollow, |was|, x);
    }
  }

  lemma Lowered(was: seq<Slot>, slots: seq<Slot>, hollow: set<nat>, dying: set<nat>, stack: seq<Value>,
                items: seq<Value>, locals: multiset<nat>, h: nat)
    requires Exact(was, hollow, dying, stack, items, locals) && h in locals
    requires h < |was| && was[h].Used? && was[h].references > 1
    requires slots == was[h := was[h].(references := was[h].references - 1)]
    ensures Exact(slots, hollow, dying, stack, items, locals - multiset{h})
  {
    forall x: nat
      ensures ExactAt(slots, hollow, dying, stack, items, locals - multiset{h}, x)
    {
      assert ExactAt(was, hollow, dying, stack, items, locals, x);
      HeldSame(was, hollow, slots, hollow, |was|, x);
    }
  }

  lemma Raised(was: seq<Slot>, slots: seq<Slot>, hollow: set<nat>, dying: set<nat>, stack: seq<Value>,
               items: seq<Value>, locals: multiset<nat>, h: nat)
    requires Exact(was, hollow, dying, stack, items, locals) && h < |was| && was[h].Used? && h !in dying
    requires slots == was[h := was[h].(references := was[h].references + 1)]
    ensures Exact(slots, hollow, dying, stack, items, locals + multiset{h})
  {
    forall x: nat
      ensures ExactAt(slots, hollow, dying, stack, items, locals + multiset{h}, x)
    {
      assert ExactAt(was, hollow, dying, stack, items, locals, x);
      HeldSame(was, hollow, slots, hollow, |was|, x);
    }
  }

  ghost predicate Alive(v: Value, slots: seq<Slot>, dying: set<nat>)
  {
    v.Ref? ==> v.h < |slots| && slots[v.h].Used? && v.h !in dying
  }

  /** The same slots are in use, with the same values. */
  ghost predicate Alike(was: seq<Slot>, now: seq<Slot>)
  {
    && |now| == |was|
    && (forall k :: 0 <= k < |was| ==> now[k].Used? == was[k].Used?)
    && (forall k :: 0 <= k < |was| && now[k].Used? ==> now[k].value == was[k].value)
  }

  /** The slots still in use were in use before and hold what they held. */
  ghost predicate Kept(was: seq<Slot>, now: seq<Slot>)
  {
    && |now| == |was|
    && (forall k :: 0 <= k < |was| && now[k].Used? ==> was[k].Used? && now[k].value == was[k].value)
  }

  ghost predicate KeptExcept(was: seq<Slot>, now: seq<Slot>, h: nat)
  {
    && |now| == |was|
    && (forall k :: 0 <= k < |was| && k != h && now[k].Used? ==> was[k].Used? && now[k].value == was[k].value)
  }

  lemma LocalIsAlive(slots: seq<Slot>, hollow: set<nat>, dying: set<nat>, stack: seq<Value>, items: seq<Value>,
                     rest: multiset<nat>, v: Value)
    requires Exact(slots, hollow, dying, stack, items, rest + Handed(v))
    ensures Alive(v, slots, dying)
  {
    if v.Ref? {
      HandedOver(slots, hollow, dying, stack, items, rest + Handed(v), v.h);
    }
  }

  lemma StackedIsAlive(slots: seq<Slot>, hollow: set<nat>, dying: set<nat>, stack: seq<Value>, items: seq<Value>,
                       locals: multiset<nat>, i: nat)
    requires Exact(slots, hollow, dying, stack, items, locals) && i < |stack|
    ensures Alive(stack[i], slots, dying)
  {
    if stack[i].Ref? {
      AmongAtLeast(stack, i, stack[i].h);
      assert ExactAt(slots, hollow, dying, stack, items, locals, stack[i].h);
    }
  }

  lemma ItemIsAlive(slots: seq<Slot>, hollow: set<nat>, dying: set<nat>, stack: seq<Value>, items: seq<Value>,
                    locals: multiset<nat>, i: nat)
    requires Exact(slots, hollow, dying, stack, items, locals) && i < |items|
    ensures Alive(items[i], slots, dying)
  {
    if items[i].Ref? {
      AmongAtLeast(items, i, items[i].h);
      assert ExactAt(slots, hollow, dying, stack, items, locals, items[i].h);
    }
  }

  lemma CellIsAlive(slots: seq<Slot>, dying: set<nat>, stack: seq<Value>, items: seq<Value>, locals: multiset<nat>,
                    k: nat)
    requires Exact(slots, {}, dying, stack, items, locals) && k < |slots| && slots[k].Used?
    ensures Alive(slots[k].value, slots, dying)
  {
    var v := slots[k].value;
    if v.Ref? {
      HeldAtLeast(slots, {}, k, |slots|, v.h);
      assert ExactAt(slots, {}, dying, stack, items, locals, v.h);
    }
  }

  lemma Swapped(slots: seq<Slot>, hollow: set<nat>, dying: set<nat>, was: seq<Value>, items: seq<Value>,
                locals: multiset<nat>, stack: seq<Value>)
    requires Exact(slots, hollow, dying, was, items, locals) && |was| > 1
    requires stack == was[|was| - 2 := was[|was| - 1]][|was| - 1 := was[|was| - 2]]
    ensures Exact(slots, hollow, dying, stack, items, locals)
  {
    var n := |was|;
    forall x: nat
      ensures ExactAt(slots, hollow, dying, stack, items, locals, x)
    {
      assert ExactAt(slots, hollow, dying, was, items, locals, x);
      AmongUpdate(was, n - 2, was[n - 1], x);
      AmongUpdate(was[n - 2 := was[n - 1]], n - 1, was[n - 2], x);
    }
  }

  lemma LocalToStack(slots: seq<Slot>, hollow: set<nat>, dying: set<nat>, stack: seq<Value>, items: seq<Value>,
                     rest: multiset<nat>, v: Value)
    requires Exact(slots, hollow, dying, stack, items, rest + Handed(v))
    ensures Exact(slots, hollow, dying, stack + [v], items, rest)
  {
    forall x: nat
      ensures ExactAt(slots, hollow, dying, stack + [v], items, rest, x)
    {
      assert ExactAt(slots, hollow, dying, stack, items, rest + Handed(v), x);
      AmongPush(stack, v, x);
    }
  }

  lemma StackToLocal(slots: seq<Slot>, hollow: set<nat>, dying: set<nat>, stack: seq<Value>, items: seq<Value>,
                     locals: multiset<nat>, v: Value)
    requires Exact(slots, hollow, dying, stack + [v], items, locals)
    ensures Exact(slots, hollow, dying, stack, items, locals + Handed(v))
  {
    forall x: nat
      ensures ExactAt(slots, hollow, dying, stack, items, locals + Handed(v), x)
    {
      assert ExactAt(slots, hollow, dying, stack + [v], items, locals, x);
      AmongPush(stack, v, x);
    }
  }

  lemma LocalToItems(slots: seq<Slot>, hollow: set<nat>, dying: set<nat>, stack: seq<Value>, items: seq<Value>,
                     rest: multiset<nat>, v: Value)
    requires Exact(slots, hollow, dying, stack, items, rest + Handed(v))
    ensures Exact(slots, hollow, dying, stack, items + [v], rest)
  {
    forall x: nat
      ensures ExactAt(slots, hollow, dying, stack, items + [v], rest, x)
    {
      assert ExactAt(slots, hollow, dying, stack, items, rest + Handed(v), x);
      AmongPush(items, v, x);
    }
  }

  lemma {:induction false} AmongUpdate(values: seq<Value>, i: nat, v: Value, h: nat)
    requires i < |values|
    ensures Among(values[i := v], h) + One(values[i], h) == Among(values, h) + One(v, h)
  {
    var last := |values| - 1;
    if i < last {
      AmongUpdate(values[..last], i, v, h);
      assert values[i := v][..last] == values[..last][i := v];
    } else {
      assert values[i := v][..last] == values[..last];
    }
  }

  lemma ItemToLocal(slots: seq<Slot>, hollow: set<nat>, dying: set<nat>, stack: seq<Value>, items: seq<Value>,
                    locals: multiset<nat>, i: nat, now: seq<Value>)
    requires i < |items| && Exact(slots, hollow, dying, stack, items, locals) && now == items[i := Undef]
    ensures Exact(slots, hollow, dying, stack, now, locals + Handed(items[i]))
  {
    forall x: nat
      ensures ExactAt(slots, hollow, dying, stack, now, locals + Handed(items[i]), x)
    {
      assert ExactAt(slots, hollow, dying, stack, items, locals, x);
      AmongUpdate(items, i, Undef, x);
    }
  }

  lemma {:induction false} AmongNone(values: seq<Value>, h: nat)
    requires forall k :: 0 <= k < |values| ==> values[k] == Undef
    ensures Among(values, h) == 0
  {
    if values != [] {
      AmongNone(values[..|values| - 1], h);
    }
  }

  lemma ItemsGone(slots: seq<Slot>, hollow: set<nat>, dying: set<nat>, stack: seq<Value>, items: seq<Value>,
                  locals: multiset<nat>)
    requires Exact(slots, hollow, dying, stack, items, locals)
    requires forall k :: 0 <= k < |items| ==> items[k] == Undef
    ensures Exact(slots, hollow, dying, stack, [], locals)
  {
    forall x: nat
      ensures ExactAt(slots, hollow, dying, stack, [], locals, x)
    {
      assert ExactAt(slots, hollow, dying, stack, items, locals, x);
      AmongNone(items, x);
    }
  }

  lemma CellToLocal(slots: seq<Slot>, dying: set<nat>, stack: seq<Value>, items: seq<Value>, locals: multiset<nat>,
                    h: nat)
    requires Exact(slots, {}, dying, stack, items, locals) && h < |slots| && slots[h].Used?
    ensures Exact(slots, {h}, dying, stack, items, locals + Handed(slots[h].value))
  {
    forall x: nat
      ensures ExactAt(slots, {h}, dying, stack, items, locals + Handed(slots[h].value), x)
    {
      assert ExactAt(slots, {}, dying, stack, items, locals, x);
      HeldChanged(slots, {}, slots, {h}, h, |slots|, x);
    }
  }

  lemma Emptied(was: seq<Slot>, slots: seq<Slot>, dying: set<nat>, stack: seq<Value>, items: seq<Value>,
                locals: multiset<nat>, h: nat)
    requires Exact(was, {h}, dying, stack, items, locals) && h < |was| && was[h].Used?
    requires slots == was[h := was[h].(value := Undef)]
    ensures Exact(slots, {}, dying, stack, items, locals)
  {
    forall x: nat
      ensures ExactAt(slots, {}, dying, stack, items, locals, x)
    {
      assert ExactAt(was, {h}, dying, stack, items, locals, x);
      HeldSame(was, {h}, slots, {}, |was|, x);
    }
  }

  lemma Filled(was: seq<Slot>, slots: seq<Slot>, dying: set<nat>, stack: seq<Value>, items: seq<Value>,
               rest: multiset<nat>, h: nat, v: Value)
    requires Exact(was, {}, dying, stack, items, rest + Handed(v)) && h < |was| && was[h].Used? && was[h].value == Undef
    requires slots == was[h := was[h].(value := v)]
    ensures Exact(slots, {}, dying, stack, items, rest)
  {
    forall x: nat
      ensures ExactAt(slots, {}, dying, stack, items, rest, x)
    {
      assert ExactAt(was, {}, dying, stack, items, rest + Handed(v), x);
      HeldChanged(was, {}, slots, {}, h, |was|, x);
    }
  }

  lemma {:induction false} HeldGrown(was: seq<Slot>, slots: seq<Slot>, n: nat, h: nat)
    requires |was| <= n <= |slots|
    requires forall k :: 0 <= k < |was| ==> HeldAt(slots, {}, k, h) == HeldAt(was, {}, k, h)
    requires forall k :: |was| <= k < n ==> HeldAt(slots, {}, k, h) == 0
    ensures Held(slots, {}, n, h) == Held(was, {}, |was|, h)
    decreases n
  {
    if n > |was| {
      HeldGrown(was, slots, n - 1, h);
    } else {
      HeldSame(was, {}, slots, {}, n, h);
    }
  }

  lemma Allocated(was: seq<Slot>, slots: seq<Slot>, dying: set<nat>, stack: seq<Value>, items: seq<Value>,
                  locals: multiset<nat>, h: nat)
    requires Exact(was, {}, dying, stack, items, locals) && (h < |was| ==> was[h].Unused?)
    requires h < |slots| && |was| <= |slots| && slots[h] == Used(1, Undef)
    requires forall k :: 0 <= k < |slots| && k != h ==> slots[k] == if k < |was| then was[k] else Unused
    ensures Exact(slots, {}, dying, stack, items, locals + multiset{h})
  {
    forall x: nat
      ensures ExactAt(slots, {}, dying, stack, items, locals + multiset{h}, x)
    {
      assert ExactAt(was, {}, dying, stack, items, locals, x);
      HeldGrown(was, slots, |slots|, x);
    }
  }

  // ---------- what can be left behind ----------

  /** References that the slots below n hold to the handles below m */
  function HeldBelow(slots: seq<Slot>, n: nat, m: nat): nat
    requires n <= |slots|
  {
    if m == 0 then 0 else HeldBelow(slots, n, m - 1) + Held(slots, {}, n, m - 1)
  }

  function InUse(slots: seq<Slot>, n: nat): nat
    requires n <= |slots|
  {
    if n == 0 then 0 else InUse(slots, n - 1) + if slots[n - 1].Used? then 1 else 0
  }

  /** One more slot holds at most one more reference, and none if it is unused or holds a datum. */
  lemma {:induction false} HeldBelowStep(slots: seq<Slot>, n: nat, m: nat)
    requires n < |slots|
    ensures var held := HeldBelow(slots, n + 1, m) - HeldBelow(slots, n, m);
      held == if slots[n].Used? && slots[n].value.Ref? && slots[n].value.h < m then 1 else 0
  {
    if m > 0 {
      HeldBelowStep(slots, n, m - 1);
    }
  }

  lemma {:induction false} HeldBelowNone(slots: seq<Slot>, m: nat)
    ensures HeldBelow(slots, 0, m) == 0
  {
    if m > 0 {
      HeldBelowNone(slots, m - 1);
    }
  }

  /** No more references than slots in use; if as many, every slot in use holds one. */
  lemma {:induction false} HeldAtMostInUse(slots: seq<Slot>, n: nat, m: nat)
    requires n <= |slots|
    ensures HeldBelow(slots, n, m) <= InUse(slots, n)
    ensures HeldBelow(slots, n, m) == InUse(slots, n) ==>
      forall k :: 0 <= k < n && slots[k].Used? ==> slots[k].value.Ref?
  {
    if n > 0 {
      HeldAtMostInUse(slots, n - 1, m);
      HeldBelowStep(slots, n - 1, m);
    } else {
      HeldBelowNone(slots, m);
    }
  }

  /** If every slot in use is referred to, there are at least as many references as slots in use; if
      as many, each is referred to exactly once. */
  lemma {:induction false} InUseAtMostHeld(slots: seq<Slot>, m: nat)
    requires m <= |slots|
    requires forall k :: 0 <= k < m && slots[k].Used? ==> Held(slots, {}, |slots|, k) > 0
    ensures InUse(slots, m) <= HeldBelow(slots, |slots|, m)
    ensures InUse(slots, m) == HeldBelow(slots, |slots|, m) ==>
      forall k :: 0 <= k < m && slots[k].Used? ==> Held(slots, {}, |slots|, k) == 1
  {
    if m > 0 {
      InUseAtMostHeld(slots, m - 1);
    }
  }

  lemma {:induction false} AmongNoReferences(values: seq<Value>, h: nat)
    requires forall k :: 0 <= k < |values| ==> !values[k].Ref?
    ensures Among(values, h) == 0
  {
    if values != [] {
      AmongNoReferences(values[..|values| - 1], h);
    }
  }

  /** All that exact counts can leave behind: when the data stack refers to no scalar, the scalars
      still in use each hold a reference and have exactly one, so they form closed rings. */
  lemma OnlyRingsAreLeft(slots: seq<Slot>, stack: seq<Value>)
    requires Exact(slots, {}, {}, stack, [], multiset{})
    requires forall k :: 0 <= k < |stack| ==> !stack[k].Ref?
    ensures forall k :: 0 <= k < |slots| && slots[k].Used? ==>
      slots[k].references == 1 && slots[k].value.Ref? && slots[k].value.h < |slots| && slots[slots[k].value.h].Used?
  {
    forall h: nat | h < |slots| && slots[h].Used?
      ensures Held(slots, {}, |slots|, h) == slots[h].references > 0
    {
      assert ExactAt(slots, {}, {}, stack, [], multiset{}, h);
      AmongNoReferences(stack, h);
    }
    InUseAtMostHeld(slots, |slots|);
    HeldAtMostInUse(slots, |slots|, |slots|);
    forall k: nat | k < |slots| && slots[k].Used?
      ensures Alive(slots[k].value, slots, {})
    {
      CellIsAlive(slots, {}, stack, [], multiset{}, k);
    }
  }
}
