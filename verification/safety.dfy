/** A condition that can be checked on the lines of a program before it runs, and under which its
    bytecode never stalls. */
module Safety {
  import opened Wrappers
  import opened Words
  import opened Bytecode
  import opened Assembler
  import opened Machine
  import opened Decoding
  import opened Simulation
  import opened Meaning

  // ---------- the condition ----------

  /** Line number k has the instruction. */
  predicate Has(lines: seq<Line>, k: nat, op: opcode)
  {
    1 <= k <= |lines| && lines[k - 1].instr == Some(op)
  }

  /** The line number that the label in line number k stands for */
  function Target(lines: seq<Line>, k: nat): nat
    requires AllFit(lines, |lines|) && 1 <= k <= |lines| && lines[k - 1].instr.Some?
  {
    assert OperandsFit(lines[k - 1]);
    var arg := SourceInsn(lines, k - 1).arg;
    if arg.Place? && arg.at >= 0 then arg.at else 0
  }

  /** From line number a execution can come to b next without leaving the activation it is in: calls are
      stepped over. */
  predicate Follows(lines: seq<Line>, a: nat, b: nat)
    requires AllFit(lines, |lines|)
  {
    1 <= a <= |lines| &&
    match lines[a - 1].instr
    case None => b == a + 1
    case Some(op) =>
      if op == END || op == RETURN then false
      else if op == JMP then b == Target(lines, a)
      else if op == JMP0 || op == JMPU then b == a + 1 || b == Target(lines, a)
      else b == a + 1
  }

  ghost predicate LeadsIn(lines: seq<Line>, a: nat, b: nat, steps: nat)
    requires AllFit(lines, |lines|)
    decreases steps
  {
    if steps == 0 then a == b else exists c: nat :: LeadsIn(lines, a, c, steps - 1) && Follows(lines, c, b)
  }

  /** Within one activation, line number b can be reached from a. */
  ghost predicate Leads(lines: seq<Line>, a: nat, b: nat)
    requires AllFit(lines, |lines|)
  {
    exists steps: nat :: LeadsIn(lines, a, b, steps)
  }

  predicate IsCall(lines: seq<Line>, k: nat)
  {
    Has(lines, k, CALL) || Has(lines, k, FRCALL)
  }

  /** The call in line number k may start an activation at e. The functions are the line numbers that
      function values may stand for. */
  predicate Enters(lines: seq<Line>, functions: set<nat>, k: nat, e: nat)
    requires AllFit(lines, |lines|)
  {
    IsCall(lines, k) && if Has(lines, k, CALL) then e == Target(lines, k) else e in functions
  }

  /** No branch names its own position, no function is an FRCALL, and no RETURN that starts where a call
      ends can be reached inside that call's own activation. */
  ghost predicate Safe(lines: seq<Line>, functions: set<nat>)
    requires AllFit(lines, |lines|)
  {
    && (forall k: nat :: 1 <= k <= |lines| && lines[k - 1].instr.Some? ==> SafeLine(lines, functions, k))
    && (forall f, k: nat :: f in functions && Has(lines, k, FRCALL) ==> PlaceOf(lines, f) != PlaceOf(lines, k))
    && (forall k: nat, e: nat, r: nat ::
          Enters(lines, functions, k, e) && Has(lines, r, RETURN) && Leads(lines, e, r) ==>
            AddressPast(lines, k) != PlaceOf(lines, r))
  }

  ghost predicate SafeLine(lines: seq<Line>, functions: set<nat>, k: nat)
    requires AllFit(lines, |lines|) && 1 <= k <= |lines| && lines[k - 1].instr.Some?
  {
    var op := lines[k - 1].instr.value;
    && (Branches(op) ==> PlaceOf(lines, Target(lines, k)) != PlaceOf(lines, k))
    && (op == FUNLIT ==> Target(lines, k) in functions)
  }

  // ---------- function values ----------

  ghost predicate Known(functions: set<nat>, v: Value)
  {
    v.Fun? ==> v.f in functions
  }

  ghost predicate KnownMap(functions: set<nat>, m: map<nat, Value>)
  {
    forall k :: k in m ==> Known(functions, m[k])
  }

  /** All function values in the data are among the functions. */
  ghost predicate KnownData(functions: set<nat>, d: Data)
  {
    && (forall i :: 0 <= i < |d.stack| ==> Known(functions, d.stack[i]))
    && (forall i :: 0 <= i < |d.scopes| ==> KnownMap(functions, d.scopes[i]))
    && KnownMap(functions, d.store)
  }

  /** Data instructions do not make function values of their own. */
  ghost predicate OpsHarmless(functions: set<nat>, ops: DataOps)
  {
    forall insn, d ::
      KnownData(functions, d) && ops.apply(insn, d).Some? ==> KnownData(functions, ops.apply(insn, d).value)
  }

  /** Scopes come and go without their bindings changing. */
  lemma ScopesStayKnown(functions: set<nat>, d: Data, depth: nat)
    requires KnownData(functions, d)
    ensures KnownData(functions, StartScope(d)) && KnownData(functions, EndScopes(d, depth))
    ensures d.stack != [] ==>
      Known(functions, Top(d)) && KnownData(functions, Popped(d)) && KnownData(functions, StartScope(Popped(d)))
  {
  }

  lemma CoroKnown(functions: set<nat>, ops: DataOps, insn: Insn, d: Data)
    requires KnownData(functions, d)
    ensures var c := Coro(ops, insn, d);
      c.Some? ==>
        && KnownData(functions, c.value.rest)
        && forall i :: 0 <= i < |c.value.params| ==> Known(functions, c.value.params[i])
  {
  }

  lemma PushedKnown(functions: set<nat>, d: Data, v: Value)
    requires KnownData(functions, d) && Known(functions, v)
    ensures KnownData(functions, Pushed(d, v))
  {
  }

  // ---------- where a thread is ----------

  /** In the activation that the call in line number ret has started, execution has come to line number
      at. The entry's activation is started by no call. */
  ghost predicate Inside(lines: seq<Line>, functions: set<nat>, ret: nat, at: nat)
    requires AllFit(lines, |lines|)
  {
    ret > 0 ==> exists e: nat :: Enters(lines, functions, ret, e) && Leads(lines, e, at)
  }

  /** How far the activation of frame i has come: to the call of the next one, the last to the current
      line */
  function Reached(frames: seq<Frame>, line: nat, i: nat): nat
    requires i < |frames|
  {
    if i + 1 < |frames| then frames[i + 1].ret else line
  }

  /** Each activation but the entry's is started by a call, and has come where it has from its entry. */
  ghost predicate Nested(lines: seq<Line>, functions: set<nat>, frames: seq<Frame>, line: nat)
    requires AllFit(lines, |lines|)
  {
    forall i {:trigger Reached(frames, line, i)} :: 0 <= i < |frames| ==>
      && (i > 0 ==> frames[i].ret > 0)
      && Inside(lines, functions, frames[i].ret, Reached(frames, line, i))
  }

  ghost predicate Careful(lines: seq<Line>, functions: set<nat>, s: Src)
    requires AllFit(lines, |lines|)
  {
    KnownData(functions, s.data) && Nested(lines, functions, s.frames, s.line)
  }

  lemma LeadsOn(lines: seq<Line>, a: nat, b: nat, c: nat)
    requires AllFit(lines, |lines|) && Leads(lines, a, b) && Follows(lines, b, c)
    ensures Leads(lines, a, c)
  {
    hide Follows;
    var steps: nat :| LeadsIn(lines, a, b, steps);
    assert LeadsIn(lines, a, c, steps + 1);
  }

  lemma InsideOn(lines: seq<Line>, functions: set<nat>, ret: nat, at: nat, next: nat)
    requires AllFit(lines, |lines|) && Inside(lines, functions, ret, at) && Follows(lines, at, next)
    ensures Inside(lines, functions, ret, next)
  {
    hide Leads, Follows;
    if ret > 0 {
      var e: nat :| Enters(lines, functions, ret, e) && Leads(lines, e, at);
      LeadsOn(lines, e, at, next);
    }
  }

  lemma NestedOn(lines: seq<Line>, functions: set<nat>, frames: seq<Frame>, line: nat, next: nat)
    requires AllFit(lines, |lines|) && Nested(lines, functions, frames, line) && Follows(lines, line, next)
    ensures Nested(lines, functions, frames, next)
  {
    forall i | 0 <= i < |frames|
      ensures (i > 0 ==> frames[i].ret > 0) && Inside(lines, functions, frames[i].ret, Reached(frames, next, i))
    {
      assert Inside(lines, functions, frames[i].ret, Reached(frames, line, i));
      if i + 1 == |frames| {
        InsideOn(lines, functions, frames[i].ret, line, next);
      }
    }
  }

  /** A call starts an activation at one of its entries. */
  lemma NestedCall(lines: seq<Line>, functions: set<nat>, frames: seq<Frame>, line: nat, depth: nat, e: nat)
    requires AllFit(lines, |lines|) && Nested(lines, functions, frames, line) && Enters(lines, functions, line, e)
    ensures Nested(lines, functions, frames + [Frame(line, depth)], e)
  {
    assert LeadsIn(lines, e, e, 0);
    assert Inside(lines, functions, line, e);
    hide Inside, Enters;
    var more := frames + [Frame(line, depth)];
    assert forall i: nat :: i < |frames| ==> more[i] == frames[i] && Reached(more, e, i) == Reached(frames, line, i);
    assert Reached(more, e, |frames|) == e;
  }

  /** A return leads back into the activation that made the call, past the call. */
  lemma NestedReturn(lines: seq<Line>, functions: set<nat>, frames: seq<Frame>, line: nat)
    requires AllFit(lines, |lines|) && Nested(lines, functions, frames, line) && frames != []
    ensures Nested(lines, functions, frames[..|frames| - 1], GoalLine(Past(frames[|frames| - 1].ret)))
  {
    hide Leads;
    var rest, ret := frames[..|frames| - 1], frames[|frames| - 1].ret;
    assert Reached(frames, line, |frames| - 1) == line;
    if ret > 0 {
      var e: nat :| Enters(lines, functions, ret, e) && Leads(lines, e, line);
      assert Follows(lines, ret, ret + 1);
      assert forall i: nat :: i < |rest| ==> rest[i] == frames[i] && Reached(rest, ret, i) == Reached(frames, line, i);
      NestedOn(lines, functions, rest, ret, ret + 1);
    }
  }

  // ---------- one step ----------

  /** The program as it is read has the branches and literals of the program as it stands. */
  lemma TargetAsRead(lines: seq<Line>, k: nat)
    requires AllFit(lines, |lines|) && 1 <= k <= |lines| && lines[k - 1].instr.Some?
    ensures OperandsFit(lines[k - 1])
    ensures SourceInsn(AsRead(lines), k - 1).op == lines[k - 1].instr.value
    ensures !MayBeCut(lines[k - 1].instr.value) ==> SourceInsn(AsRead(lines), k - 1) == SourceInsn(lines, k - 1)
  {
    hide SourceArg;
    assert OperandsFit(lines[k - 1]);
    ArgAsRead(lines, k - 1);
  }

  /** Where an instruction leads that neither calls nor returns */
  lemma PlainFollows(lines: seq<Line>, functions: set<nat>, ops: DataOps, s: Src)
    requires AllFit(lines, |lines|) && Safe(lines, functions) && AtInstruction(lines, s) && OpsHarmless(functions, ops)
    requires KnownData(functions, s.data) && !IsCall(lines, s.line) && !Has(lines, s.line, RETURN)
    requires SourceStep(ops, AsRead(lines), s).Next?
    ensures var next := SourceStep(ops, AsRead(lines), s).s;
      KnownData(functions, next.data) && next.frames == s.frames && Follows(lines, s.line, next.line)
  {
    hide KnownData, Safe, LineAsRead, SourceArg, Coro;
    TargetAsRead(lines, s.line);
    var insn := SourceInsn(AsRead(lines), s.line - 1);
    ScopesStayKnown(functions, s.data, 0);
    CoroKnown(functions, ops, insn, s.data);
    if LiteralValue(insn).Some? {
      LiteralKnown(lines, functions, s.line);
      PushedKnown(functions, s.data, LiteralValue(insn).value);
    }
  }

  lemma LiteralKnown(lines: seq<Line>, functions: set<nat>, k: nat)
    requires AllFit(lines, |lines|) && Safe(lines, functions) && 1 <= k <= |lines| && lines[k - 1].instr.Some?
    ensures var literal := LiteralValue(SourceInsn(AsRead(lines), k - 1));
      literal.Some? ==> Known(functions, literal.value)
  {
    hide SourceArg, LineAsRead;
    TargetAsRead(lines, k);
    assert SafeLine(lines, functions, k);
  }

  lemma StaysCareful(lines: seq<Line>, functions: set<nat>, ops: DataOps, s: Src)
    requires AllFit(lines, |lines|) && Safe(lines, functions) && Careful(lines, functions, s)
    requires OpsHarmless(functions, ops)
    requires SourceStep(ops, AsRead(lines), s).Next?
    ensures Careful(lines, functions, SourceStep(ops, AsRead(lines), s).s)
  {
    hide KnownData, Nested, Safe, OpsHarmless, LineAsRead, SourceArg, LiteralValue;
    var next := SourceStep(ops, AsRead(lines), s).s;
    if !AtInstruction(lines, s) {
      NestedOn(lines, functions, s.frames, s.line, next.line);
    } else if Has(lines, s.line, RETURN) {
      ScopesStayKnown(functions, s.data, s.frames[|s.frames| - 1].depth);
      NestedReturn(lines, functions, s.frames, s.line);
    } else if IsCall(lines, s.line) {
      TargetAsRead(lines, s.line);
      ScopesStayKnown(functions, s.data, 0);
      NestedCall(lines, functions, s.frames, s.line, |s.data.scopes|, next.line);
    } else {
      PlainFollows(lines, functions, ops, s);
      NestedOn(lines, functions, s.frames, s.line, next.line);
    }
  }

  /** An instruction that neither branches, calls nor returns leads past itself. */
  lemma PastItself(lines: seq<Line>, k: nat)
    requires AllFit(lines, |lines|) && 1 <= k <= |lines| && lines[k - 1].instr.Some?
    ensures AddressPast(lines, k) > PlaceOf(lines, k) > 0
  {
    Extent(lines, k - 1);
  }

  lemma NoSelfTransfer(lines: seq<Line>, functions: set<nat>, ops: DataOps, s: Src)
    requires AllFit(lines, |lines|) && Safe(lines, functions) && Careful(lines, functions, s)
    ensures !TransfersToSelf(lines, ops, s)
  {
    hide SourceArg, LineAsRead, Position, ReadEnd, Leads, LiteralValue, StartScope, EndScopes;
    if AtInstruction(lines, s) {
      TargetAsRead(lines, s.line);
      PastItself(lines, s.line);
      assert SafeLine(lines, functions, s.line);
      var n := |s.frames|;
      if Has(lines, s.line, RETURN) && n > 0 && s.frames[n - 1].ret > 0 {
        assert Reached(s.frames, s.line, n - 1) == s.line;
      }
    }
  }

  // ---------- whole runs ----------

  lemma {:induction false} RunsCareful(lines: seq<Line>, functions: set<nat>, ops: DataOps, s0: Src, n: nat)
    requires AllFit(lines, |lines|) && Safe(lines, functions) && Careful(lines, functions, s0)
    requires OpsHarmless(functions, ops)
    ensures SourceRun(ops, AsRead(lines), s0, n).Next? ==>
      Careful(lines, functions, SourceRun(ops, AsRead(lines), s0, n).s)
  {
    hide Careful, Safe;
    if n > 0 {
      RunsCareful(lines, functions, ops, s0, n - 1);
      if SourceRun(ops, AsRead(lines), s0, n - 1).Next? {
        var s := SourceRun(ops, AsRead(lines), s0, n - 1).s;
        if SourceStep(ops, AsRead(lines), s).Next? {
          StaysCareful(lines, functions, ops, s);
        }
      }
    }
  }

  /** A safe program keeps its meaning through assembly: its bytecode never stalls, and each run of
      either is matched by a run of the other. */
  lemma SafeProgramsKeepTheirMeaning(lines: seq<Line>, functions: set<nat>, code: seq<byte>, ops: DataOps,
                                     ops': DataOps, stack: seq<Value>, stack': seq<Value>,
                                     store: map<nat, Value>, store': map<nat, Value>, s0: Src, vm0: Vm)
    requires Assembled(lines, code, ops, ops') && Safe(lines, functions) && OpsHarmless(functions, ops)
    requires StackRelated(lines, stack, stack') && MapRelated(lines, store, store')
    requires s0 == SourceEntry(StartLine(lines), stack, store) && KnownData(functions, s0.data)
    requires vm0 == Entry(Start(lines), stack', store')
    ensures NeverStalls(ops', code, vm0)
    ensures forall n :: TurnsMatched(lines, code, ops, ops', s0, vm0, n)
    ensures forall m :: StepsMatched(lines, code, ops, ops', s0, vm0, m)
  {
    hide Safe, OpsHarmless, KnownData, Assembled;
    AssembledFits(lines, code, ops, ops');
    StartDenotes(lines);
    assert Related(lines, s0, vm0);
    assert Careful(lines, functions, s0);
    forall n: nat
      ensures Run(ops', code, vm0, n) != Stalled
    {
      if Run(ops', code, vm0, n) == Stalled {
        var m := SelfTransferBefore(lines, code, ops, ops', s0, vm0, n);
        RunsCareful(lines, functions, ops, s0, m);
        NoSelfTransfer(lines, functions, ops, SourceRun(ops, AsRead(lines), s0, m).s);
      }
    }
    AssemblyPreservesMeaning(lines, code, ops, ops', stack, stack', store, store', s0, vm0);
  }

  /** The data instructions that Meaning spells out make no function values. */
  lemma PlainOpsHarmless(functions: set<nat>)
    ensures OpsHarmless(functions, PLAIN_OPS)
  {
  }

  // ---------- two programs with a RETURN behind a call ----------

  /** A call of another function, followed at once by a RETURN */
  const TAIL_CALL: seq<Line> := [
    Line(Some("main"), Some(CALL), [LocParam("f")]),
    Line(None, Some(RETURN), []),
    Line(Some("f"), Some(RETURN), [])
  ]

  /** A function that calls itself and then returns */
  const RECURSIVE: seq<Line> := [
    Line(Some("g"), Some(JMP0), [OffParam("done")]),
    Line(None, Some(CALL), [LocParam("g")]),
    Line(Some("done"), Some(RETURN), [])
  ]

  /** No path inside one activation leads from a RETURN on. */
  lemma {:induction false} NowhereFromReturn(lines: seq<Line>, a: nat, b: nat, steps: nat)
    requires AllFit(lines, |lines|) && Has(lines, a, RETURN) && LeadsIn(lines, a, b, steps)
    ensures b == a
    decreases steps
  {
    if steps > 0 {
      var c: nat :| LeadsIn(lines, a, c, steps - 1) && Follows(lines, c, b);
      NowhereFromReturn(lines, a, c, steps - 1);
    }
  }

  /** The RETURN behind the call is not part of the function called, so the program is safe. */
  lemma TailCallIsSafe()
    ensures Accepted(TAIL_CALL) && Safe(TAIL_CALL, {})
  {
    var lines := TAIL_CALL;
    assert DefinedAt(lines, "main", 0) == 0;
    assert DefinedAt(lines, "f", 2) == 2;
    assert DefinedAt(lines, "f", 1) == 2;
    assert DefinedAt(lines, "f", 0) == 2;
    assert EndBefore(lines, 0) == 1 && EndBefore(lines, 1) == 12 && EndBefore(lines, 2) == 13;
    assert PlaceOf(lines, 1) == 3 && PlaceOf(lines, 2) == 12 && PlaceOf(lines, 3) == 13;
    assert AddressPast(lines, 1) == 12;
    forall k: nat, e: nat, r: nat | Enters(lines, {}, k, e) && Has(lines, r, RETURN) && Leads(lines, e, r)
      ensures AddressPast(lines, k) != PlaceOf(lines, r)
    {
      assert k == 1 && e == 3;
      var steps: nat :| LeadsIn(lines, e, r, steps);
      NowhereFromReturn(lines, e, r, steps);
    }
  }

  lemma RecursiveAccepted()
    ensures Accepted(RECURSIVE) && AllRepresentable(RECURSIVE) && FitsInt(RECURSIVE)
    ensures DefinedAt(RECURSIVE, "g", 0) == 0 && DefinedAt(RECURSIVE, "done", 0) == 2
    ensures DefinedAt(RECURSIVE, "main", 0) == 3
    ensures ReadEnd(RECURSIVE, 2) == Position(RECURSIVE, 2) == 24
  {
    var lines := RECURSIVE;
    assert DefinedAt(lines, "done", 2) == 2;
    assert DefinedAt(lines, "done", 1) == 2;
    assert DefinedAt(lines, "main", 3) == 3;
    assert DefinedAt(lines, "main", 2) == 3;
    assert DefinedAt(lines, "main", 1) == 3;
    assert EndBefore(lines, 0) == 1 && EndBefore(lines, 1) == 12 && EndBefore(lines, 2) == 24;
    assert EndBefore(lines, 3) == 25;
  }

  /** Called with a true value on top of a false one, the function calls itself once and comes to its
      RETURN in the inner activation, whose return address is that RETURN's own: the lines go on and
      halt, but the bytecode stalls. */
  lemma RecursiveReturnStalls(code: seq<byte>, ops: DataOps, ops': DataOps)
    requires IsImage(RECURSIVE, code) && OpsRelated(RECURSIVE, ops, ops')
    ensures Accepted(RECURSIVE) && !Safe(RECURSIVE, {})
    ensures exists n :: SourceRun(ops, RECURSIVE, SourceEntry(1, [Int(0), Int(1)], map[]), n).Halted?
    ensures exists n :: Run(ops', code, Entry(Start(RECURSIVE), [Int(0), Int(1)], map[]), n) == Stalled
  {
    hide IsImage, OpsRelated, SourceRun, Run, ReachesSelfTransfer;
    var lines := RECURSIVE;
    RecursiveAccepted();
    RecursiveUnsafe();
    RecursiveRun(ops);
    RecursiveEntry();
    StallsExactlyAtSelfTransfer(lines, code, ops, ops', SourceEntry(1, [Int(0), Int(1)], map[]),
                                Entry(Start(lines), [Int(0), Int(1)], map[]));
  }

  lemma RecursiveUnsafe()
    ensures AllFit(RECURSIVE, |RECURSIVE|) && !Safe(RECURSIVE, {})
  {
    var lines := RECURSIVE;
    RecursiveAccepted();
    assert LeadsIn(lines, 1, 1, 0) && Follows(lines, 1, 3);
    assert LeadsIn(lines, 1, 3, 1);
    assert Enters(lines, {}, 2, 1) && Has(lines, 3, RETURN) && Leads(lines, 1, 3);
    assert AddressPast(lines, 2) == PlaceOf(lines, 3);
  }

  lemma RecursiveEntry()
    ensures AllFit(RECURSIVE, |RECURSIVE|)
    ensures Related(RECURSIVE, SourceEntry(1, [Int(0), Int(1)], map[]),
                    Entry(Start(RECURSIVE), [Int(0), Int(1)], map[]))
  {
    RecursiveAccepted();
    StartDenotes(RECURSIVE);
  }

  lemma RecursiveRun(ops: DataOps)
    ensures AllFit(RECURSIVE, |RECURSIVE|) && AsRead(RECURSIVE) == RECURSIVE
    ensures var s0 := SourceEntry(1, [Int(0), Int(1)], map[]);
      && ReachesSelfTransfer(RECURSIVE, ops, s0, 3)
      && SourceRun(ops, RECURSIVE, s0, 6).Halted?
  {
    var lines := RECURSIVE;
    RecursiveAccepted();
    ReadAsItStands(lines);
    var s0 := SourceEntry(1, [Int(0), Int(1)], map[]);
    var s1 := Src(2, Data([Int(0)], [map[]], map[]), [Frame(0, 0)]);
    var s2 := Src(1, Data([Int(0)], [map[], map[]], map[]), [Frame(0, 0), Frame(2, 1)]);
    var s3 := Src(3, Data([], [map[], map[]], map[]), [Frame(0, 0), Frame(2, 1)]);
    var s4 := Src(3, Data([], [map[]], map[]), [Frame(0, 0)]);
    var s5 := Src(0, Data([], [], map[]), []);
    assert SourceInsn(lines, 0) == Insn(JMP0, Place(3)) && SourceInsn(lines, 1) == Insn(CALL, Place(1));
    assert SourceInsn(lines, 2) == Insn(RETURN, NoArg);
    assert Popped(s0.data) == s1.data && SourceStep(ops, lines, s0) == Next(s1);
    assert StartScope(s1.data) == s2.data && s1.frames + [Frame(2, 1)] == s2.frames;
    assert SourceStep(ops, lines, s1) == Next(s2);
    assert Popped(s2.data) == s3.data && SourceStep(ops, lines, s2) == Next(s3);
    assert EndScopes(s3.data, 1) == s4.data && s3.frames[..1] == s4.frames && SourceStep(ops, lines, s3) == Next(s4);
    assert EndScopes(s4.data, 0) == s5.data && s4.frames[..0] == s5.frames && SourceStep(ops, lines, s4) == Next(s5);
    assert SourceRun(ops, lines, s0, 0) == Next(s0);
    assert SourceRun(ops, lines, s0, 1) == Next(s1);
    assert SourceRun(ops, lines, s0, 2) == Next(s2);
    assert SourceRun(ops, lines, s0, 3) == Next(s3);
    assert SourceRun(ops, lines, s0, 4) == Next(s4);
    assert SourceRun(ops, lines, s0, 5) == Next(s5);
    assert SourceRun(ops, lines, s0, 6) == Halted(s5);
  }
}
