/** What the simulation says about whole programs: equal behaviour from a thread's entry, the one
    way it can fail, and a family of data instructions that meets its assumption. */
module Meaning {
  import opened Wrappers
  import opened Words
  import opened Bytecode
  import opened Assembler
  import opened Machine
  import opened Decoding
  import opened Simulation

  /** The line number execution starts at: the label main's, if there is one, else 1 */
  function StartLine(lines: seq<Line>): nat
  {
    var k := DefinedAt(lines, "main", 0);
    if k < |lines| then k + 1 else 1
  }

  function SourceEntry(line: nat, stack: seq<Value>, store: map<nat, Value>): Src
  {
    Src(line, Data(stack, [map[]], store), [Frame(0, 0)])
  }

  lemma StartDenotes(lines: seq<Line>)
    requires AllFit(lines, |lines|)
    ensures Denotes(lines, StartLine(lines), Start(lines))
  {
    var k := DefinedAt(lines, "main", 0);
    if k < |lines| {
      ReadEndBounds(lines, k);
    } else if lines != [] {
      Extent(lines, 0);
    }
  }

  ghost predicate NeverStalls(ops: DataOps, code: seq<byte>, vm: Vm)
  {
    forall n :: Run(ops, code, vm, n) != Stalled
  }

  /** The first n turns of the bytecode end where some run of the lines is. */
  ghost predicate TurnsMatched(lines: seq<Line>, code: seq<byte>, ops: DataOps, ops': DataOps, s0: Src, vm0: Vm, n: nat)
    requires AllFit(lines, |lines|)
  {
    exists m: nat :: OutcomesRelated(lines, SourceRun(ops, AsRead(lines), s0, m), Run(ops', code, vm0, n))
  }

  /** The first m steps of the lines end where some run of the bytecode is. */
  ghost predicate StepsMatched(lines: seq<Line>, code: seq<byte>, ops: DataOps, ops': DataOps, s0: Src, vm0: Vm, m: nat)
    requires AllFit(lines, |lines|)
  {
    exists n: nat :: OutcomesRelated(lines, SourceRun(ops, AsRead(lines), s0, m), Run(ops', code, vm0, n))
  }

  /** A thread that enters the bytecode of any accepted program at its start and never stalls behaves as
      the lines do, as they are read: each run of one is matched by a run of the other, with related
      stacks, scopes, store and frames, so one halts, or fails an assertion, if and only if the other
      does. Unless an operand was lost the lines are read as they stand (ReadAsItStands). */
  lemma AssemblyPreservesMeaning(lines: seq<Line>, code: seq<byte>, ops: DataOps, ops': DataOps,
                                 stack: seq<Value>, stack': seq<Value>,
                                 store: map<nat, Value>, store': map<nat, Value>, s0: Src, vm0: Vm)
    requires Assembled(lines, code, ops, ops')
    requires StackRelated(lines, stack, stack') && MapRelated(lines, store, store')
    requires s0 == SourceEntry(StartLine(lines), stack, store)
    requires vm0 == Entry(Start(lines), stack', store')
    requires NeverStalls(ops', code, vm0)
    ensures forall n :: TurnsMatched(lines, code, ops, ops', s0, vm0, n)
    ensures forall m :: StepsMatched(lines, code, ops, ops', s0, vm0, m)
  {
    StartDenotes(lines);
    assert Related(lines, s0, vm0);
    forall n: nat
      ensures TurnsMatched(lines, code, ops, ops', s0, vm0, n)
    {
      var m := RunMatched(lines, code, ops, ops', s0, vm0, n);
    }
    forall m: nat
      ensures StepsMatched(lines, code, ops, ops', s0, vm0, m)
    {
      var n := RunReflected(lines, code, ops, ops', s0, vm0, m);
    }
  }

  // ---------- the one way the run of the bytecode can fall short ----------

  /** A call whose callee is the next line, a bare RETURN */
  const CALL_THEN_RETURN: seq<Line> := [
    Line(None, Some(CALL), [LocParam("g")]),
    Line(Some("g"), Some(RETURN), [])
  ]

  lemma CallThenReturnAccepted()
    ensures Accepted(CALL_THEN_RETURN) && AllRepresentable(CALL_THEN_RETURN) && FitsInt(CALL_THEN_RETURN)
    ensures DefinedAt(CALL_THEN_RETURN, "g", 0) == 1
    ensures DefinedAt(CALL_THEN_RETURN, "main", 0) == 2
    ensures ReadEnd(CALL_THEN_RETURN, 1) == Position(CALL_THEN_RETURN, 1) == 12
  {
    var lines := CALL_THEN_RETURN;
    assert DefinedAt(lines, "g", 1) == 1;
    assert DefinedAt(lines, "main", 2) == 2;
    assert DefinedAt(lines, "main", 1) == 2;
    assert EndBefore(lines, 0) == 1;
    assert EndBefore(lines, 2) == 13;
  }

  /** The call saves the address of the RETURN it jumps to. When that RETURN pops it, the lines go
      on and halt, but the bytecode returns to the instruction it is executing: an increment of
      zero, which the dispatch loop asserts against. */
  lemma CallThenReturnStalls(code: seq<byte>, ops: DataOps, ops': DataOps)
    requires IsImage(CALL_THEN_RETURN, code) && OpsRelated(CALL_THEN_RETURN, ops, ops')
    ensures Accepted(CALL_THEN_RETURN)
    ensures SourceRun(ops, CALL_THEN_RETURN, SourceEntry(1, [], map[]), 4).Halted?
    ensures exists n :: Run(ops', code, Entry(Start(CALL_THEN_RETURN), [], map[]), n) == Stalled
  {
    var lines := CALL_THEN_RETURN;
    CallThenReturnAccepted();
    ReadAsItStands(lines);
    var s0, vm0 := SourceEntry(1, [], map[]), Entry(Start(lines), [], map[]);
    StartDenotes(lines);
    assert Related(lines, s0, vm0);
    var s1 := Src(2, Data([], [map[], map[]], map[]), [Frame(0, 0), Frame(1, 1)]);
    var s2 := Src(2, Data([], [map[]], map[]), [Frame(0, 0)]);
    var s3 := Src(0, Data([], [], map[]), []);
    assert SourceInsn(lines, 0) == Insn(CALL, Place(2));
    assert StartScope(s0.data) == s1.data && s0.frames + [Frame(1, 1)] == s1.frames;
    assert SourceStep(ops, lines, s0) == Next(s1);
    assert EndScopes(s1.data, 1) == s2.data && s1.frames[..1] == s2.frames;
    assert EndScopes(s2.data, 0) == s3.data && s2.frames[..0] == s3.frames;
    assert SourceInsn(lines, 1) == Insn(RETURN, NoArg);
    assert SourceStep(ops, lines, s1) == Next(s2);
    assert SourceRun(ops, AsRead(lines), s0, 0) == Next(s0);
    assert SourceRun(ops, AsRead(lines), s0, 1) == Next(s1);
    assert SourceRun(ops, AsRead(lines), s0, 2) == Next(s2);
    assert SourceRun(ops, AsRead(lines), s0, 3) == Next(s3);
    assert SourceRun(ops, AsRead(lines), s0, 4) == Halted(s3);
    assert ReachesSelfTransfer(lines, ops, s0, 1);
    StallsExactlyAtSelfTransfer(lines, code, ops, ops', s0, vm0);
  }

  // ---------- data instructions that do not look inside function values ----------

  /** The type tag of references to scalars */
  const SCAREF: nat := 0x11

  predicate IsScalarRef(v: Value)
  {
    v.Ref? && v.kind == SCAREF
  }

  /** Stack shuffling, truth, and reading and writing pooled scalars; every other instruction is
      left out here, as if its assertion failed. */
  function PlainOps(insn: Insn, d: Data): Option<Data>
  {
    var op, n := insn.op, |d.stack|;
    if op == UNDEF then Some(Pushed(d, Undef))
    else if op == DROP then if n < 1 then None else Some(Popped(d))
    else if op == DUP then if n < 1 then None else Some(Pushed(d, Top(d)))
    else if op == OVER then if n < 2 then None else Some(Pushed(d, d.stack[n - 2]))
    else if op == SWAP then
      if n < 2 then None else Some(d.(stack := d.stack[n - 2 := d.stack[n - 1]][n - 1 := d.stack[n - 2]]))
    else if op == NOT then
      if n < 1 then None else Some(Pushed(Popped(d), Int(if IsTrue(Top(d)) then 0 else 1)))
    else if op == SRREAD then
      if n < 1 || !IsScalarRef(Top(d)) || Top(d).handle !in d.store then None
      else Some(Pushed(Popped(d), d.store[Top(d).handle]))
    else if op == SRWRITE then
      if n < 2 || !IsScalarRef(Top(d)) || Top(d).handle !in d.store then None
      else Some(d.(stack := d.stack[..n - 2], store := d.store[Top(d).handle := d.stack[n - 2]]))
    else None
  }

  /** What each of them does to the data stack, item by item, and to the scalars; on fewer values, or on a value
      that is no reference to a scalar, it fails. */
  lemma PlainOpsAre(d: Data, arg: Arg)
    ensures var s, n := d.stack, |d.stack|;
      && PlainOps(Insn(UNDEF, arg), d) == Some(Data(s + [Undef], d.scopes, d.store))
      && (n >= 1 ==>
           && PlainOps(Insn(DROP, arg), d) == Some(Data(s[..n - 1], d.scopes, d.store))
           && PlainOps(Insn(DUP, arg), d) == Some(Data(s + [s[n - 1]], d.scopes, d.store)))
      && (n >= 2 ==>
           && PlainOps(Insn(OVER, arg), d) == Some(Data(s + [s[n - 2]], d.scopes, d.store))
           && PlainOps(Insn(SWAP, arg), d) == Some(Data(s[..n - 2] + [s[n - 1], s[n - 2]], d.scopes, d.store)))
    ensures var s, n := d.stack, |d.stack|;
      && (n >= 1 && s[n - 1].Ref? && s[n - 1].kind == 0x11 && s[n - 1].handle in d.store ==>
           PlainOps(Insn(SRREAD, arg), d) == Some(Data(s[..n - 1] + [d.store[s[n - 1].handle]], d.scopes, d.store)))
      && (n >= 2 && s[n - 1].Ref? && s[n - 1].kind == 0x11 && s[n - 1].handle in d.store ==>
           PlainOps(Insn(SRWRITE, arg), d)
             == Some(Data(s[..n - 2], d.scopes, d.store[s[n - 1].handle := s[n - 2]])))
      && (n == 0 || !s[n - 1].Ref? || s[n - 1].kind != 0x11 ==>
           PlainOps(Insn(SRREAD, arg), d) == None && PlainOps(Insn(SRWRITE, arg), d) == None)
    ensures |d.stack| == 0 ==> forall op :: op in {DROP, DUP, NOT} ==> PlainOps(Insn(op, arg), d) == None
    ensures |d.stack| < 2 ==> forall op :: op in {OVER, SWAP, SRWRITE} ==> PlainOps(Insn(op, arg), d) == None
    ensures |d.stack| > 0 ==>
      var s, v := d.stack[..|d.stack| - 1], d.stack[|d.stack| - 1];
      && (v == Undef || v == Int(0) || v == Str([]) ==>
           PlainOps(Insn(NOT, arg), d) == Some(Data(s + [Int(1)], d.scopes, d.store)))
      && (v.Int? && v.i != 0 ==> PlainOps(Insn(NOT, arg), d) == Some(Data(s + [Int(0)], d.scopes, d.store)))
  {
    var s, n := d.stack, |d.stack|;
    if n >= 2 {
      assert s[n - 2 := s[n - 1]][n - 1 := s[n - 2]] == s[..n - 2] + [s[n - 1], s[n - 2]];
    }
  }

  /** Here only integers stand for numbers other than zero. */
  const PLAIN_OPS: DataOps := DataOps(PlainOps, (v: Value) => if v.Int? then v.i else 0)

  lemma ShufflesRelated(lines: seq<Line>, insn: Insn, d: Data, d': Data)
    requires DataRelated(lines, d, d') && insn.op != SRREAD && insn.op != SRWRITE
    ensures PlainOps(insn, d).Some? <==> PlainOps(RelocInsn(lines, insn), d').Some?
    ensures PlainOps(insn, d).Some? ==>
              DataRelated(lines, PlainOps(insn, d).value, PlainOps(RelocInsn(lines, insn), d').value)
  {
    if d.stack != [] {
      PoppedRelated(lines, d, d');
      TruthRelated(lines, Top(d));
    }
  }

  lemma PoolOpsRelated(lines: seq<Line>, insn: Insn, d: Data, d': Data)
    requires DataRelated(lines, d, d') && (insn.op == SRREAD || insn.op == SRWRITE)
    ensures PlainOps(insn, d).Some? <==> PlainOps(RelocInsn(lines, insn), d').Some?
    ensures PlainOps(insn, d).Some? ==>
              DataRelated(lines, PlainOps(insn, d).value, PlainOps(RelocInsn(lines, insn), d').value)
  {
    if d.stack != [] {
      PoppedRelated(lines, d, d');
    }
  }

  /** The assumption on data instructions holds of these, whatever the program. */
  lemma PlainOpsRelated(lines: seq<Line>)
    ensures OpsRelated(lines, PLAIN_OPS, PLAIN_OPS)
  {
    forall insn, d, d' | DataRelated(lines, d, d')
      ensures PlainOps(insn, d).Some? <==> PlainOps(RelocInsn(lines, insn), d').Some?
      ensures PlainOps(insn, d).Some? ==>
                DataRelated(lines, PlainOps(insn, d).value, PlainOps(RelocInsn(lines, insn), d').value)
    {
      if insn.op == SRREAD || insn.op == SRWRITE {
        PoolOpsRelated(lines, insn, d, d');
      } else {
        ShufflesRelated(lines, insn, d, d');
      }
    }
  }
}
