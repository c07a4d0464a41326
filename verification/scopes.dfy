/** Scopes and frames: calls push saved states that hold counted references into a chain of symbol
    tables, all of which are listed in a global registry. */
module Scopes {
  class Table {
    var parent: Table?
    var references: nat

    constructor (parent: Table?)
      ensures this.parent == parent && references == 1
    {
      this.parent, references := parent, 1;
    }
  }

  /** A saved state: where to go on, and the innermost scope at the time */
  datatype State = State(position: int, top: Table?)

  ghost predicate Distinct(s: seq<Table>)
  {
    forall i, j :: 0 <= i < j < |s| ==> s[i] != s[j]
  }

  /** s without its first t */
  function Without(s: seq<Table>, t: Table): seq<Table>
  {
    if s == [] then [] else if s[0] == t then s[1..] else [s[0]] + Without(s[1..], t)
  }

  lemma {:induction false} WithoutOnly(s: seq<Table>, t: Table)
    requires Distinct(s)
    ensures Distinct(Without(s, t))
    ensures forall x :: x in Without(s, t) <==> x in s && x != t
  {
    if s != [] {
      var rest := Without(s[1..], t);
      WithoutOnly(s[1..], t);
      assert s == [s[0]] + s[1..];
      assert s[0] !in s[1..];
      assert forall i :: 0 <= i < |rest| ==> rest[i] in rest;
    }
  }

  lemma {:induction false} WithoutAt(s: seq<Table>, t: Table, k: nat)
    requires k < |s| && s[k] == t && forall i :: 0 <= i < k ==> s[i] != t
    ensures Without(s, t) == s[..k] + s[k + 1..]
  {
    if k > 0 {
      WithoutAt(s[1..], t, k - 1);
      assert s[..k] == [s[0]] + s[1..][..k - 1];
    }
  }

  class Registry {
    var tables: seq<Table>

    constructor ()
      ensures tables == []
    {
      tables := [];
    }

    /** The removal at the end of symboltable_destroy: the head is a case of its own, and the loop
        looks one entry ahead. */
    method Remove(t: Table)
      requires Distinct(tables) && t in tables
      modifies this
      ensures tables == Without(old(tables), t)
    {
      if tables[0] == t {
        tables := tables[1..];
      } else {
        var i := 0;
        while i + 1 < |tables|
          invariant i <= |tables| && Distinct(tables)
          invariant t in tables ==> i < |tables| && tables == old(tables) && forall k :: 0 <= k <= i ==> tables[k] != t
          invariant t !in tables ==> tables == Without(old(tables), t)
        {
          if tables[i + 1] == t {
            WithoutAt(tables, t, i + 1);
            WithoutOnly(tables, t);
            tables := tables[..i + 1] + tables[i + 2..];
          }
          i := i + 1;
        }
      }
    }

    /** symboltable_destroy: only the last reference destroys the table, takes it off the registry and
        gives up its reference to its parent. */
    method Release(t: Table) returns (freed: bool)
      requires Distinct(tables) && t in tables && t.references > 0 && t.parent != t
      requires t.references == 1 && t.parent != null ==> t.parent.references > 0
      modifies this, t, if t.references == 1 && t.parent != null then {t.parent} else {}
      ensures freed == (old(t.references) == 1)
      ensures !freed ==> tables == old(tables) && t.references == old(t.references) - 1 && t.parent == old(t.parent)
      ensures freed ==> tables == Without(old(tables), t) && t.parent == null && t.references == 0
      ensures freed && old(t.parent) != null ==>
        var p := old(t.parent); p.references == old(t.parent.references) - 1 && p.parent == old(t.parent.parent)
    {
      freed := t.references == 1;
      if freed {
        if t.parent != null {
          t.parent.references := t.parent.references - 1;
        }
        Remove(t);
        t.parent, t.references := null, 0;
      } else {
        t.references := t.references - 1;
      }
    }

    /** Tables that other tables do not count on, with references that only they themselves could give up */
    ghost predicate Held(kept: set<Table>)
      reads this, tables, kept
    {
      && (forall t :: t in kept ==> t in tables && t.references > 0)
      && (forall t :: t in tables && t !in kept && t.parent != null ==> t.parent !in kept)
    }

    /** symboltable_garbage_collect: from the head on, frees tables without references, and stops at the
        first that has some. True if any table remains. A table goes only if every reference to it was
        that of a table that goes with it; held tables stay, with the references they have. */
    method Collect(ghost kept: set<Table>) returns (remain: bool)
      requires Held(kept)
      modifies this, (set t | t in tables && t.parent != null :: t.parent)`references
      ensures remain <==> tables != []
      ensures tables != [] ==> tables[0].references > 0
      ensures |tables| <= |old(tables)| && tables == old(tables)[|old(tables)| - |tables|..]
      ensures var gone := |old(tables)| - |tables|;
        && Settled(old(tables)[..gone], old(ReferencesOf(tables)), multiset(old(ParentsOf(tables))[..gone]))
        && Paid(old(tables), old(ReferencesOf(tables)), multiset(old(ParentsOf(tables))[..gone]))
      ensures Held(kept) && forall t :: t in kept ==> t.references == old(t.references)
      ensures old(tables) != [] && old(tables[0].references) > 0 ==>
        tables == old(tables) && forall t :: t in tables ==> t.references == old(t.references)
    {
      hide Paid, Settled, ParentsOf, ReferencesOf;
      ghost var all, parents, k := tables, ParentsOf(tables), 0;
      ghost var refs, gone: multiset<Table?> := ReferencesOf(all), multiset{};
      StartsPaid(all);
      NoneSettled(refs);
      assert all[..0] == [];
      while tables != [] && tables[0].references == 0
        invariant k <= |all| && tables == all[k..]
        invariant all != [] && old(all[0].references) > 0 ==>
          k == 0 && forall t :: t in all ==> t.references == old(t.references)
        invariant Held(kept) && forall t :: t in kept ==> t.references == old(t.references)
        invariant gone == multiset(parents[..k]) && parents == ParentsOf(all)
        invariant Paid(all, refs, gone) && Settled(all[..k], refs, gone)
        decreases |tables|
      {
        NextParent(parents, k);
        PaidFor(all, refs, gone, all[k]);
        CollectHead(kept, all, refs, gone);
        SettledNext(all, k, refs, gone, parents[k]);
        gone, k := gone + multiset{parents[k]}, k + 1;
      }
      assert k == |all| - |tables|;
      assert Settled(all[..k], refs, multiset(parents[..k]));
      remain := tables != [];
    }

    /** Frees the head of the registry. */
    method CollectHead(ghost kept: set<Table>, ghost all: seq<Table>, ghost refs: map<Table, nat>,
                       ghost gone: multiset<Table?>)
      requires tables != [] && tables[0].references == 0 && Held(kept) && Paid(all, refs, gone)
      modifies this, (if tables[0].parent != null then {tables[0].parent} else {})`references
      ensures tables == old(tables)[1..]
      ensures Held(kept) && forall t :: t in kept ==> t.references == old(t.references)
      ensures Paid(all, refs, gone + multiset{old(tables[0]).parent})
    {
      var parent := tables[0].parent;
      if parent != null {
        parent.references := Decrement(parent.references);
      }
      tables := tables[1..];
    }
  }

  /** Every table has lost as many references as tables started inside it are gone. */
  ghost predicate Paid(all: seq<Table>, refs: map<Table, nat>, gone: multiset<Table?>)
    reads all
  {
    forall t :: t in all ==> t in refs && (gone[t] <= refs[t] ==> t.references == refs[t] - gone[t])
  }

  lemma StartsPaid(all: seq<Table>)
    ensures Paid(all, ReferencesOf(all), multiset{})
  {
  }

  lemma PaidFor(all: seq<Table>, refs: map<Table, nat>, gone: multiset<Table?>, t: Table)
    requires Paid(all, refs, gone) && t in all && t.references == 0
    ensures t in refs && refs[t] <= gone[t]
  {
  }

  /** Every reference to these tables is that of a table that is gone. */
  ghost predicate Settled(tables: seq<Table>, refs: map<Table, nat>, gone: multiset<Table?>)
  {
    forall j :: 0 <= j < |tables| ==> tables[j] in refs && refs[tables[j]] <= gone[tables[j]]
  }

  lemma NoneSettled(refs: map<Table, nat>)
    ensures Settled([], refs, multiset{})
  {
  }

  lemma SettledNext(all: seq<Table>, k: nat, refs: map<Table, nat>, gone: multiset<Table?>, parent: Table?)
    requires k < |all| && Settled(all[..k], refs, gone) && all[k] in refs && refs[all[k]] <= gone[all[k]]
    ensures Settled(all[..k + 1], refs, gone + multiset{parent})
  {
    assert all[..k + 1] == all[..k] + [all[k]];
  }

  /** What the tables have as their parents */
  ghost function ParentsOf(tables: seq<Table>): (parents: seq<Table?>)
    reads tables`parent
    ensures |parents| == |tables| && forall i :: 0 <= i < |tables| ==> parents[i] == tables[i].parent
  {
    if tables == [] then [] else ParentsOf(tables[..|tables| - 1]) + [tables[|tables| - 1].parent]
  }

  ghost function ReferencesOf(tables: seq<Table>): map<Table, nat>
    reads tables
  {
    map t | t in tables :: t.references
  }

  lemma NextParent(parents: seq<Table?>, k: nat)
    requires k < |parents|
    ensures multiset(parents[..k + 1]) == multiset(parents[..k]) + multiset{parents[k]}
  {
    assert parents[..k + 1] == parents[..k] + [parents[k]];
  }

  /** --count on a 64-bit size */
  function Decrement(count: nat): nat
  {
    if count == 0 then 0xFFFF_FFFF_FFFF_FFFF else count - 1
  }

  // ---------- one context ----------

  /** The references to a scope that is not innermost: the one it starts with, one from the scope above
      it and one from the frame that saved it */
  const EACH: nat := 3

  /** The scope below the i-th of a chain */
  function Below(chain: seq<Table>, i: int): Table?
  {
    if 0 < i <= |chain| then chain[i - 1] else null
  }

  /** The number of references to the i-th scope: top to the innermost, under to the one under it,
      each to the others */
  function Expected(length: nat, i: nat, each: nat, under: nat, top: nat): nat
  {
    if i + 1 == length then top else if i + 2 == length then under else each
  }

  /** Each scope's parent is the one below it, and the counts are as expected. */
  ghost predicate Chained(chain: seq<Table>, each: nat, under: nat, top: nat)
    reads chain
  {
    && Distinct(chain)
    && (forall i :: 0 <= i < |chain| ==> chain[i].parent == Below(chain, i))
    && (forall i :: 0 <= i < |chain| ==> chain[i].references == Expected(|chain|, i, each, under, top))
  }

  lemma BelowIs(chain: seq<Table>, i: int)
    ensures if 0 < i <= |chain| then Below(chain, i) == chain[i - 1] else Below(chain, i) == null
  {
  }

  lemma BelowStays(chain: seq<Table>, inner: Table, i: nat)
    requires i <= |chain|
    ensures Below(chain + [inner], i) == Below(chain, i)
  {
  }

  lemma ChainedAt(chain: seq<Table>, each: nat, under: nat, top: nat, i: nat)
    requires Chained(chain, each, under, top) && i < |chain|
    ensures chain[i].parent == Below(chain, i) && chain[i].references == Expected(|chain|, i, each, under, top)
    ensures forall k :: 0 <= k < |chain| && k != i ==> chain[k] != chain[i]
  {
  }

  /** The scopes started inside a scope, and the frames that save it */
  ghost function Inner(chain: seq<Table>, i: nat): set<nat>
    requires i < |chain|
    reads chain
  {
    set j: nat | j < |chain| && chain[j].parent == chain[i]
  }

  ghost function Savers(frames: seq<State>, t: Table): set<nat>
  {
    set j: nat | j < |frames| && frames[j].top == t
  }

  class Context {
    const registry: Registry
    var counter: int
    var table: Table?
    var frames: seq<State>
    /** The scopes from the outermost in */
    ghost var chain: seq<Table>

    /** The frames save the chain: the first one nothing, the i-th the scope below the i-th. */
    ghost predicate Framed()
      reads this
    {
      && |frames| == |chain| && table == Below(chain, |chain|)
      && forall i :: 0 <= i < |frames| ==> frames[i].top == Below(chain, i)
    }

    ghost predicate Registered()
      reads this, registry
    {
      Distinct(registry.tables) && forall i :: 0 <= i < |chain| ==> chain[i] in registry.tables
    }

    ghost predicate Valid()
      reads this, registry, chain
    {
      Framed() && Registered() && Chained(chain, EACH, EACH, 1)
    }

    /** Every scope has one reference of its own, one from each scope started inside it and one from each frame
        that saves it. */
    lemma CountsAreExact(i: nat)
      requires Valid() && i < |chain|
      ensures chain[i].references == 1 + |Inner(chain, i)| + |Savers(frames, chain[i])|
    {
      var last := i + 1 == |chain|;
      assert Inner(chain, i) == if last then {} else {i + 1};
      assert Savers(frames, chain[i]) == if last then {} else {i + 1};
    }

    /** vm_context_init */
    constructor (registry: Registry, start: int)
      requires Distinct(registry.tables)
      ensures Valid() && chain == [] && frames == [] && table == null && counter == start && this.registry == registry
    {
      this.registry, counter, table, frames, chain := registry, start, null, [], [];
    }

    /** What CALL, FRCALL, the start of a context and the delivery of a signal share: a state is made,
        copied onto the return stack and destroyed, and a new scope starts. */
    method Enter(position: int)
      requires Valid()
      modifies this`table, this`frames, this`chain, registry, if table == null then {} else {table}
      ensures Valid() && table != null && fresh(table) && chain == old(chain) + [table]
      ensures frames == old(frames) + [State(position, old(table))]
      ensures registry.tables == [table] + old(registry.tables)
    {
      hide Below, Chained;
      SaveState(position);
      StartScope();
    }

    /** The state is made, copied and destroyed: one more reference to the innermost scope. */
    method SaveState(position: int)
      requires Valid()
      modifies this`frames, registry, if table == null then {} else {table}
      ensures frames == old(frames) + [State(position, table)] && registry.tables == old(registry.tables)
      ensures Registered() && Chained(chain, EACH, EACH, 2)
    {
      hide Below;
      var state := State(position, table);
      BelowIs(chain, |chain|);
      BelowIs(chain, |chain| - 1);
      if table != null {
        ChainedAt(chain, EACH, EACH, 1, |chain| - 1);
        table.references := table.references + 1;
        state.top.references := state.top.references + 1;
        var freed := registry.Release(state.top);
      }
      frames := frames + [state];
    }

    /** vm_start_scope, with the caller's frame already saved */
    method StartScope()
      requires |frames| == |chain| + 1 && table == Below(chain, |chain|) && Chained(chain, EACH, EACH, 2)
      requires Registered()
      requires forall i :: 0 <= i < |frames| ==> frames[i].top == Below(chain, i)
      modifies this`table, this`chain, registry, if table == null then {} else {table}
      ensures Valid() && table != null && fresh(table) && chain == old(chain) + [table]
      ensures registry.tables == [table] + old(registry.tables)
    {
      hide Below;
      var inner := new Table(table);
      BelowIs(chain, |chain|);
      if table != null {
        ChainedAt(chain, EACH, EACH, 2, |chain| - 1);
        table.references := table.references + 1;
      }
      registry.tables := [inner] + registry.tables;
      forall i | 0 <= i <= |chain|
        ensures Below(chain + [inner], i) == Below(chain, i)
      {
        BelowStays(chain, inner, i);
      }
      BelowIs(chain + [inner], |chain| + 1);
      table, chain := inner, chain + [inner];
    }

    /** symboltable_destroy of the innermost scope when nothing else refers to it */
    method Drop(t: Table, ghost each: nat, ghost under: nat)
      requires chain != [] && t == Below(chain, |chain|) && under > 0 && Chained(chain, each, under, 1) && Registered()
      modifies this`chain, registry, chain
      ensures chain == old(chain)[..|old(chain)| - 1] && Chained(chain, each, each, under - 1) && Registered()
      ensures registry.tables == Without(old(registry.tables), t)
    {
      hide Below, Without;
      ghost var n, rest := |chain|, chain[..|chain| - 1];
      BelowIs(chain, n);
      BelowIs(chain, n - 1);
      ChainedAt(chain, each, under, 1, n - 1);
      if n > 1 {
        ChainedAt(chain, each, under, 1, n - 2);
      }
      WithoutOnly(registry.tables, t);
      var freed := registry.Release(t);
      forall i | 0 <= i < n
        ensures Below(rest, i) == Below(chain, i)
      {
        assert chain == rest + [t];
        BelowStays(rest, t, i);
      }
      chain := rest;
    }

    /** vm_end_scope */
    method EndScope(ghost each: nat, ghost under: nat)
      requires chain != [] && table == Below(chain, |chain|) && under > 0 && Chained(chain, each, under, 1)
      requires Registered()
      modifies this`table, this`chain, registry, chain
      ensures chain == old(chain)[..|old(chain)| - 1] && table == Below(chain, |chain|)
      ensures Chained(chain, each, each, under - 1) && Registered()
      ensures registry.tables == Without(old(registry.tables), old(chain[|chain| - 1]))
    {
      hide Below;
      var ended := table;
      BelowIs(chain, |chain|);
      ChainedAt(chain, each, under, 1, |chain| - 1);
      table := table.parent;
      BelowStays(chain[..|chain| - 1], ended, |chain| - 1);
      assert chain == chain[..|chain| - 1] + [ended];
      Drop(ended, each, under);
    }

    /** RETURN: the saved state is copied off the return stack, the stack's own copy and then that
        copy are destroyed, and scopes end until the saved one is innermost again. */
    method Return()
      requires Valid() && frames != []
      modifies this`counter, this`table, this`frames, this`chain, registry, chain
      ensures Valid() && chain == old(chain)[..|old(chain)| - 1] && frames == old(frames)[..|old(frames)| - 1]
      ensures counter == old(frames[|frames| - 1].position)
      ensures registry.tables == Without(old(registry.tables), old(chain[|chain| - 1]))
    {
      hide Below, Chained;
      ghost var n, rest := |chain|, chain[..|chain| - 1];
      var state := frames[|frames| - 1];
      BelowIs(chain, n - 1);
      ChainedAt(chain, EACH, EACH, 1, n - 1);
      DropSaved(state.top);
      frames := frames[..|frames| - 1];
      ghost var inner := chain[n - 1];
      RestOf(chain, rest);
      while table != null && table != state.top
        invariant table == inner ==>
          chain == old(chain) && Chained(chain, EACH, 2, 1) && registry.tables == old(registry.tables)
        invariant table != inner ==>
          && table == state.top && chain == rest && Chained(chain, EACH, EACH, 1)
          && registry.tables == Without(old(registry.tables), inner)
        invariant Registered() && table == Below(chain, |chain|) && inner != state.top
        invariant frames == old(frames)[..n - 1]
        decreases |chain|
      {
        EndScope(EACH, 2);
      }
      counter := state.position;
    }

    /** What happens to the counts when the top frame's state is copied out and both copies destroyed */
    method DropSaved(top: Table?)
      requires Framed() && Registered() && Chained(chain, EACH, EACH, 1) && chain != []
      requires top == Below(chain, |chain| - 1)
      modifies registry, if top == null then {} else {top}
      ensures Framed() && registry.tables == old(registry.tables) && Chained(chain, EACH, 2, 1)
    {
      hide Below;
      ghost var n := |chain|;
      BelowIs(chain, n - 1);
      BelowIs(chain, n - 2);
      if top != null {
        ChainedAt(chain, EACH, EACH, 1, n - 2);
        assert top in registry.tables && top.parent != top && top.references == 3;
        top.references := top.references + 1;
        var slot := registry.Release(top);
        var copy := registry.Release(top);
      }
    }

    /** The end of vm_execute: the innermost scope ends, the return stack is destroyed from the top, and
        the table that is then current is given up. Scopes further out stay registered and referred
        to: they are the ones under the two innermost. */
    method Finish()
      requires Valid()
      modifies this`table, this`frames, this`chain, registry, chain
      ensures table == null && frames == [] && Distinct(registry.tables) && Distinct(chain)
      ensures chain == old(chain)[..if |old(chain)| < 2 then 0 else |old(chain)| - 2]
      ensures forall t :: t in registry.tables <==> t in old(registry.tables) && (t in old(chain) ==> t in chain)
      ensures forall i :: 0 <= i < |chain| ==> chain[i] in registry.tables && chain[i].references > 0
      ensures forall i :: 0 <= i < |chain| ==> chain[i].parent == null || chain[i].parent in chain
    {
      hide Below, Chained, Without, Expected;
      ghost var all, tables := chain, registry.tables;
      BelowIs(chain, |chain|);
      if table != null {
        ChainedAt(all, EACH, EACH, 1, |all| - 1);
        RestOf(all, all[..|all| - 1]);
        EndScope(EACH, EACH);
        DestroyFrames();
        BelowIs(chain, |chain|);
        if table != null {
          ghost var fewer, left := chain, registry.tables;
          ChainedAt(chain, 2, 2, 1, |chain| - 1);
          WithoutOnly(left, table);
          Drop(table, 2, 2);
          WithoutOnly(left, table);
          RestOf(fewer, chain);
        }
        WithoutOnly(tables, all[|all| - 1]);
        RestOf(all, all[..|all| - 1]);
      } else {
        frames := [];
      }
      table := null;
      Counted(chain);
    }

    /** STACK_DESTROY of the return stack: the saved states are destroyed from the top down. */
    method DestroyFrames()
      requires |frames| == |chain| + 1 && forall i :: 0 <= i < |frames| ==> frames[i].top == Below(chain, i)
      requires Registered() && Chained(chain, EACH, EACH, 2)
      modifies this`frames, registry, chain
      ensures frames == [] && Registered() && registry.tables == old(registry.tables) && Chained(chain, 2, 2, 1)
    {
      hide Below, Expected;
      ghost var saved := frames;
      OneLess(|chain|);
      while |frames| > 0
        invariant |frames| <= |saved| && frames == saved[..|frames|]
        invariant Registered() && registry.tables == old(registry.tables) && Lowered(chain, |frames|)
      {
        DestroyTop();
      }
    }

    method DestroyTop()
      requires 0 < |frames| <= |chain| + 1 && frames[|frames| - 1].top == Below(chain, |frames| - 1)
      requires Registered() && Lowered(chain, |frames|)
      modifies this`frames, registry, chain
      ensures frames == old(frames)[..|old(frames)| - 1] && registry.tables == old(registry.tables)
      ensures Registered() && Lowered(chain, |frames|)
    {
      hide Below, Expected;
      var k := |frames| - 2;
      var top := frames[k + 1].top;
      frames := frames[..k + 1];
      BelowIs(chain, k + 1);
      BelowIs(chain, k);
      OneLess(|chain|);
      if top != null {
        assert top == chain[k] && top.references == Expected(|chain|, k, EACH, EACH, 2);
        var freed := registry.Release(top);
      }
    }
  }

  /** The frames from `from` on have given up their references to the scopes they saved. */
  ghost predicate Lowered(chain: seq<Table>, from: nat)
    reads chain
  {
    && Distinct(chain)
    && (forall i :: 0 <= i < |chain| ==> chain[i].parent == Below(chain, i))
    && (forall i :: 0 <= i < |chain| ==>
          chain[i].references == Expected(|chain|, i, EACH, EACH, 2) - if i + 1 >= from then 1 else 0)
  }

  /** With its frame gone, each scope has one reference less. */
  lemma OneLess(length: nat)
    ensures forall i: nat :: Expected(length, i, 2, 2, 1) == Expected(length, i, EACH, EACH, 2) - 1 > 0
  {
  }

  lemma Counted(chain: seq<Table>)
    requires Chained(chain, 2, 1, 1) || Chained(chain, 2, 2, 1) || chain == []
    ensures Distinct(chain) && forall i :: 0 <= i < |chain| ==> chain[i].references > 0
    ensures forall i :: 0 <= i < |chain| ==> chain[i].parent == null || chain[i].parent in chain
  {
  }

  /** A chain without its innermost scope */
  lemma RestOf(chain: seq<Table>, rest: seq<Table>)
    requires chain != [] && rest == chain[..|chain| - 1]
    requires forall k :: 0 <= k < |chain| - 1 ==> chain[k] != chain[|chain| - 1]
    ensures forall i :: 0 <= i < |chain| ==> Below(rest, i) == Below(chain, i)
    ensures Below(chain, |chain|) == chain[|chain| - 1] != Below(rest, |rest|) && chain[|chain| - 1] in chain
    ensures forall t :: t in rest <==> t in chain && t != chain[|chain| - 1]
  {
    assert chain == rest + [chain[|chain| - 1]];
  }

  // ---------- whole runs ----------

  /** What changes scopes: a call, with the length of its instruction, and a return */
  datatype Op = Call(destination: int, width: nat) | Return

  /** How many frames there are after the first n instructions, the entry's own included */
  function Depth(ops: seq<Op>, n: nat): int
    requires n <= |ops|
  {
    if n == 0 then 1 else Depth(ops, n - 1) + if ops[n - 1].Call? then 1 else -1
  }

  method Perform(c: Context, op: Op)
    requires c.Valid() && (op.Return? ==> c.frames != [])
    modifies c`counter, c`table, c`frames, c`chain, c.registry, c.chain
    ensures c.Valid()
    ensures op.Call? ==> |c.chain| == |old(c.chain)| + 1 && old(c.chain) == c.chain[..|old(c.chain)|]
    ensures op.Call? ==> fresh(c.table) && c.registry.tables == [c.table] + old(c.registry.tables) && c.table in c.chain
    ensures op.Call? ==> c.frames == old(c.frames) + [State(old(c.counter) + op.width, old(c.table))]
    ensures op.Call? ==> c.counter == op.destination
    ensures op.Return? ==> c.counter == old(c.frames[|c.frames| - 1].position)
    ensures op.Return? ==> |c.chain| == |old(c.chain)| - 1 && c.chain == old(c.chain)[..|c.chain|]
    ensures op.Return? ==> c.frames == old(c.frames)[..|c.chain|]
    ensures op.Return? ==> c.registry.tables == Without(old(c.registry.tables), old(c.chain[|c.chain| - 1]))
  {
    hide Chained, Below, Without;
    match op {
      case Call(destination, width) =>
        ghost var chain := c.chain;
        BelowIs(chain, |chain|);
        c.Enter(c.counter + width);
        c.counter := destination;
      case Return =>
        c.Return();
    }
  }

  /** Contexts that run side by side share nothing but the registry: whatever one of them does, every
      other keeps its frames, its scopes and their counts. */
  method PerformBeside(c: Context, op: Op, other: Context)
    requires c.Valid() && (op.Return? ==> c.frames != [])
    requires other.Valid() && other != c && other.registry == c.registry && Apart(c.chain, other.chain)
    modifies c`counter, c`table, c`frames, c`chain, c.registry, c.chain
    ensures c.Valid() && other.Valid() && Apart(c.chain, other.chain)
    ensures other.frames == old(other.frames) && other.chain == old(other.chain) && other.counter == old(other.counter)
  {
    hide Chained, Below, Without;
    ghost var tables, inner := c.registry.tables, if c.chain == [] then null else c.chain[|c.chain| - 1];
    Perform(c, op);
    if op.Return? {
      WithoutOnly(tables, inner);
    }
  }

  ghost predicate Apart(a: seq<Table>, b: seq<Table>)
  {
    forall i, j :: 0 <= i < |a| && 0 <= j < |b| ==> a[i] != b[j]
  }

  /** A context from its start through any calls and returns up to an END, which is where the return
      of its entry function leads. It leaves scopes registered, each with references that nothing will
      ever give up, exactly when it ends more than two calls deep. */
  method Execute(registry: Registry, start: int, ops: seq<Op>)
    returns (done: nat, ghost left: seq<Table>)
    requires Distinct(registry.tables)
    modifies registry
    ensures done <= |ops| && (done < |ops| ==> ops[done].Return? && Depth(ops, done) == 0)
    ensures forall n :: 0 <= n <= done ==> Depth(ops, n) >= 0
    ensures |left| == if Depth(ops, done) <= 2 then 0 else Depth(ops, done) - 2
    ensures Distinct(registry.tables) && Distinct(left)
    ensures forall t :: t in registry.tables <==> t in old(registry.tables) || t in left
    ensures forall i :: 0 <= i < |left| ==> fresh(left[i]) && left[i].references > 0
    ensures forall i :: 0 <= i < |left| ==> left[i].parent == null || left[i].parent in left
  {
    hide Chained, Below, Without, Expected;
    var c := new Context(registry, start);
    c.Enter(0);
    done := 0;
    while done < |ops| && (ops[done].Call? || c.frames != [])
      invariant done <= |ops| && c.Valid() && c.registry == registry && |c.chain| == Depth(ops, done)
      invariant forall n :: 0 <= n <= done ==> Depth(ops, n) >= 0
      invariant fresh(c) && forall i :: 0 <= i < |c.chain| ==> fresh(c.chain[i])
      invariant forall t :: t in registry.tables <==> t in old(registry.tables) || t in c.chain
    {
      ghost var tables, chain, last := registry.tables, c.chain, |c.chain| - 1;
      if ops[done].Return? {
        ChainedAt(chain, EACH, EACH, 1, last);
      }
      Perform(c, ops[done]);
      if ops[done].Return? {
        WithoutOnly(tables, chain[last]);
        RestOf(chain, c.chain);
      } else {
        assert c.chain == chain + [c.table];
      }
      done := done + 1;
    }
    c.Finish();
    left := c.chain;
  }

  /** The end of vm_main: once the contexts have ended, the collector is called until no table remains, at
      most `rounds` times here. For a run that ends more than two calls deep that is never: its tables
      stay registered however often the collector is called. With no other table about, the first call
      is enough for every other run. */
  method CleanUp(registry: Registry, start: int, ops: seq<Op>, rounds: nat) returns (done: nat, remain: bool)
    requires Distinct(registry.tables)
    modifies registry, (set t | t in registry.tables && t.parent != null :: t.parent)`references
    ensures done <= |ops| && (done < |ops| ==> ops[done].Return? && Depth(ops, done) == 0)
    ensures Depth(ops, done) > 2 ==> remain
    ensures old(registry.tables) == [] && rounds > 0 ==> (remain <==> Depth(ops, done) > 2)
  {
    hide Depth;
    ghost var left;
    done, left := Execute(registry, start, ops);
    ghost var kept := set t | t in left;
    remain := true;
    assert left != [] ==> left[0] in kept;
    var i := 0;
    while remain && i < rounds
      invariant registry.Held(kept) && i <= rounds
      invariant forall t :: t in registry.tables ==>
        || (t in old(registry.tables) && t.parent == old(t.parent))
        || (t in kept && (t.parent == null || t.parent in kept))
      invariant forall t :: t in kept ==> fresh(t)
      invariant if i == 0 then remain else remain <==> registry.tables != []
    {
      remain := registry.Collect(kept);
      i := i + 1;
    }
    assert left != [] ==> left[0] in registry.tables;
    assert registry.tables != [] ==> registry.tables[0] in registry.tables;
  }
}
