/** Assembling preserves meaning: the virtual machine running the bytecode and a machine running
    the labelled lines directly take matching runs. */
module Simulation {
  import opened Wrappers
  import opened Words
  import opened Bytecode
  import opened Assembler
  import opened Machine
  import opened Decoding

  // ---------- the source machine ----------

  /** Where an instruction sends control: to the line a label names, or past the line given.
      Line 0 stands for the thread's entry: past it is the end of the thread. */
  datatype Goal = ToLine(k: nat) | Past(k: nat)

  datatype SourceEffect = SourceEffect(data: Data, frames: seq<Frame>, goal: Goal)

  /** A source state: the number of the current line, counted from 1. A frame holds the number of
      the line that made the call. */
  datatype Src = Src(line: nat, data: Data, frames: seq<Frame>)

  function GoalLine(g: Goal): nat
  {
    match g
    case ToLine(k) => k
    case Past(k) => if k == 0 then 0 else k + 1
  }

  function Perform(ops: DataOps, insn: Insn, line: nat, d: Data, frames: seq<Frame>): Option<SourceEffect>
  {
    var op := insn.op;
    var dest := if insn.arg.Place? && insn.arg.at >= 0 then insn.arg.at else 0;
    if op == CALL then
      Some(SourceEffect(StartScope(d), frames + [Frame(line, |d.scopes|)], ToLine(dest)))
    else if op == FRCALL then
      if d.stack == [] || !Top(d).Fun? then None
      else Some(SourceEffect(StartScope(Popped(d)), frames + [Frame(line, |d.scopes|)], ToLine(Top(d).f)))
    else if op == RETURN then
      if frames == [] then None
      else
        var frame := frames[|frames| - 1];
        Some(SourceEffect(EndScopes(d, frame.depth), frames[..|frames| - 1], Past(frame.ret)))
    else if op == JMP then
      Some(SourceEffect(d, frames, ToLine(dest)))
    else if op == JMP0 then
      if d.stack == [] then None
      else Some(SourceEffect(Popped(d), frames, if IsTrue(Top(d)) then Past(line) else ToLine(dest)))
    else if op == JMPU then
      if d.stack == [] then None
      else Some(SourceEffect(Popped(d), frames, if Top(d) != Undef then Past(line) else ToLine(dest)))
    else if op == CORO || op == FRCORO then
      match Coro(ops, insn, d)
      case None => None
      case Some(child) => Some(SourceEffect(child.rest, frames, Past(line)))
    else if LiteralValue(insn).Some? then
      Some(SourceEffect(Pushed(d, LiteralValue(insn).value), frames, Past(line)))
    else
      match ops.apply(insn, d)
      case None => None
      case Some(d') => Some(SourceEffect(d', frames, Past(line)))
  }

  function SourceDispatch(ops: DataOps, insn: Insn, s: Src): Outcome<Src>
  {
    if insn.op == END then Halted(s)
    else if insn.op == NOOP then Next(s.(line := s.line + 1))
    else
      match Perform(ops, insn, s.line, s.data, s.frames)
      case None => Failed
      case Some(e) => Next(Src(GoalLine(e.goal), e.data, e.frames))
  }

  /** One step of the source machine. A floating label does nothing. */
  function SourceStep(ops: DataOps, lines: seq<Line>, s: Src): Outcome<Src>
    requires AllFit(lines, |lines|)
  {
    if s.line == 0 || s.line > |lines| then Halted(s)
    else if lines[s.line - 1].instr.None? then Next(s.(line := s.line + 1))
    else SourceDispatch(ops, SourceInsn(lines, s.line - 1), s)
  }

  function SourceRun(ops: DataOps, lines: seq<Line>, s: Src, n: nat): Outcome<Src>
    requires AllFit(lines, |lines|)
  {
    if n == 0 then Next(s)
    else
      match SourceRun(ops, lines, s, n - 1)
      case Next(s') => SourceStep(ops, lines, s')
      case ended => ended
  }

  ghost predicate IsSourceTrace(ops: DataOps, lines: seq<Line>, trace: seq<Src>)
    requires AllFit(lines, |lines|)
  {
    forall i :: 0 <= i < |trace| - 1 ==> SourceStep(ops, lines, trace[i]) == Next(trace[i + 1])
  }

  /** A run of the lines goes step by step, as a run of the bytecode does. */
  lemma {:induction false} SourceRunIsStepByStep(ops: DataOps, lines: seq<Line>, s: Src, n: nat)
    returns (trace: seq<Src>)
    requires AllFit(lines, |lines|)
    ensures 0 < |trace| <= n + 1 && trace[0] == s && IsSourceTrace(ops, lines, trace)
    ensures var last := trace[|trace| - 1];
      if |trace| == n + 1 then SourceRun(ops, lines, s, n) == Next(last)
      else SourceRun(ops, lines, s, n) == SourceStep(ops, lines, last) && !SourceStep(ops, lines, last).Next?
  {
    hide SourceStep;
    if n == 0 {
      trace := [s];
    } else {
      trace := SourceRunIsStepByStep(ops, lines, s, n - 1);
      var last := trace[|trace| - 1];
      if |trace| == n && SourceStep(ops, lines, last).Next? {
        trace := trace + [SourceStep(ops, lines, last).s];
      }
    }
  }

  // ---------- how the two machines' states are related ----------

  /** Function values are related by label: a line number on one side, its position on the other. */
  function RelocValue(lines: seq<Line>, v: Value): Value
  {
    if v.Fun? then Fun(PlaceOf(lines, v.f)) else v
  }

  ghost predicate MapRelated(lines: seq<Line>, m: map<nat, Value>, m': map<nat, Value>)
  {
    m'.Keys == m.Keys && forall k :: k in m ==> m'[k] == RelocValue(lines, m[k])
  }

  ghost predicate StackRelated(lines: seq<Line>, stack: seq<Value>, stack': seq<Value>)
  {
    |stack'| == |stack| && forall i :: 0 <= i < |stack| ==> stack'[i] == RelocValue(lines, stack[i])
  }

  ghost predicate ScopesRelated(lines: seq<Line>, scopes: seq<map<nat, Value>>, scopes': seq<map<nat, Value>>)
  {
    |scopes'| == |scopes| && forall i :: 0 <= i < |scopes| ==> MapRelated(lines, scopes[i], scopes'[i])
  }

  ghost predicate DataRelated(lines: seq<Line>, d: Data, d': Data)
  {
    && StackRelated(lines, d.stack, d'.stack)
    && ScopesRelated(lines, d.scopes, d'.scopes)
    && MapRelated(lines, d.store, d'.store)
  }

  /** The address at which execution goes on after line number k; the END guard for the entry frame */
  function AddressPast(lines: seq<Line>, k: nat): nat
    requires k <= |lines|
  {
    if k == 0 then 0 else ReadEnd(lines, k)
  }

  /** A return address denotes the line after the call. */
  ghost predicate FrameRelated(lines: seq<Line>, f: Frame, f': Frame)
  {
    f.ret <= |lines| && f'.ret == AddressPast(lines, f.ret) && f'.depth == f.depth
  }

  ghost predicate FramesRelated(lines: seq<Line>, fs: seq<Frame>, fs': seq<Frame>)
  {
    |fs'| == |fs| && forall i :: 0 <= i < |fs| ==> FrameRelated(lines, fs[i], fs'[i])
  }

  /** The counter stands at line number k or in the padding before it. */
  ghost predicate Denotes(lines: seq<Line>, k: nat, counter: nat)
  {
    if k == 0 then counter == 0
    else
      var i := if k <= |lines| then k - 1 else |lines|;
      ReadEnd(lines, i) <= counter <= Position(lines, i)
  }

  ghost predicate Related(lines: seq<Line>, s: Src, vm: Vm)
  {
    && Denotes(lines, s.line, vm.counter)
    && DataRelated(lines, s.data, vm.data)
    && FramesRelated(lines, s.frames, vm.frames)
  }

  ghost predicate OutcomesRelated(lines: seq<Line>, a: Outcome<Src>, b: Outcome<Vm>)
  {
    match (a, b)
    case (Next(s), Next(vm)) => Related(lines, s, vm)
    case (Halted(s), Halted(vm)) => Related(lines, s, vm)
    case (Failed, Failed) => true
    case _ => false
  }

  /** The data instructions agree on related data: they fail together, and otherwise leave related
      data; and scalars stand for the same numbers. */
  ghost predicate OpsRelated(lines: seq<Line>, ops: DataOps, ops': DataOps)
  {
    && (forall insn, d, d' {:trigger ops.apply(insn, d), ops'.apply(RelocInsn(lines, insn), d')} ::
          DataRelated(lines, d, d') ==>
            && (ops.apply(insn, d).Some? <==> ops'.apply(RelocInsn(lines, insn), d').Some?)
            && (ops.apply(insn, d).Some? ==>
                 DataRelated(lines, ops.apply(insn, d).value, ops'.apply(RelocInsn(lines, insn), d').value)))
    && (forall v :: ops'.count(RelocValue(lines, v)) == ops.count(v))
  }

  /** What the theorems assume: an accepted program, its image, small enough for C's int, and data
      instructions that agree */
  ghost predicate Assembled(lines: seq<Line>, code: seq<byte>, ops: DataOps, ops': DataOps)
  {
    && Accepted(lines) && FitsInt(lines)
    && IsImage(lines, code)
    && OpsRelated(lines, ops, ops')
  }

  lemma AssembledFits(lines: seq<Line>, code: seq<byte>, ops: DataOps, ops': DataOps)
    requires Assembled(lines, code, ops, ops')
    ensures AllFit(lines, |lines|)
  {
  }

  // ---------- one instruction ----------

  /** The address that a goal stands for */
  function Address(lines: seq<Line>, g: Goal): nat
    requires g.Past? ==> g.k <= |lines|
  {
    match g
    case ToLine(k) => PlaceOf(lines, k)
    case Past(k) => AddressPast(lines, k)
  }

  lemma {:induction false} AddressInCode(lines: seq<Line>, g: Goal)
    requires FitsInt(lines) && AllFit(lines, |lines|) && (g.Past? ==> g.k <= |lines|)
    ensures Address(lines, g) <= EndBefore(lines, |lines|) < 0x8000_0000
    ensures Denotes(lines, GoalLine(g), Address(lines, g))
  {
    match g
    case ToLine(k) =>
      var i := if k == 0 then 0 else if k <= |lines| then k - 1 else |lines|;
      PositionInCode(lines, i);
      ReadEndBounds(lines, i);
    case Past(k) =>
      EndBeforeMonotone(lines, k, |lines|);
      ReadEndBounds(lines, k);
  }

  ghost predicate EffectsRelated(lines: seq<Line>, counter: nat, e: SourceEffect, e': Effect)
  {
    && (e.goal.Past? ==> e.goal.k <= |lines|)
    && DataRelated(lines, e.data, e'.data)
    && FramesRelated(lines, e.frames, e'.frames)
    && counter + e'.incr == Address(lines, e.goal)
  }

  lemma PlacePositive(lines: seq<Line>, k: nat)
    ensures PlaceOf(lines, k) == 0 <==> k == 0
  {
    if k != 0 && k <= |lines| {
      Extent(lines, k - 1);
    }
  }

  /** Branches see the same truth on both sides: a function is true wherever it was placed. */
  lemma TruthRelated(lines: seq<Line>, v: Value)
    ensures IsTrue(RelocValue(lines, v)) == IsTrue(v)
    ensures RelocValue(lines, v) == Undef <==> v == Undef
  {
    if v.Fun? {
      PlacePositive(lines, v.f);
    }
  }

  lemma PoppedRelated(lines: seq<Line>, d: Data, d': Data)
    requires DataRelated(lines, d, d') && d.stack != []
    ensures d'.stack != [] && Top(d') == RelocValue(lines, Top(d))
    ensures DataRelated(lines, Popped(d), Popped(d'))
  {
  }

  lemma PushedRelated(lines: seq<Line>, d: Data, d': Data, v: Value)
    requires DataRelated(lines, d, d')
    ensures DataRelated(lines, Pushed(d, v), Pushed(d', RelocValue(lines, v)))
  {
  }

  lemma ScopeRelated(lines: seq<Line>, d: Data, d': Data, depth: nat)
    requires DataRelated(lines, d, d')
    ensures DataRelated(lines, StartScope(d), StartScope(d'))
    ensures DataRelated(lines, EndScopes(d, depth), EndScopes(d', depth))
  {
  }

  /** CALL and FRCALL push related frames, and RETURN pops them. */
  lemma FramesPushed(lines: seq<Line>, fs: seq<Frame>, fs': seq<Frame>, f: Frame, f': Frame)
    requires FramesRelated(lines, fs, fs') && FrameRelated(lines, f, f')
    ensures FramesRelated(lines, fs + [f], fs' + [f'])
  {
  }

  lemma FramesPopped(lines: seq<Line>, fs: seq<Frame>, fs': seq<Frame>)
    requires FramesRelated(lines, fs, fs') && fs != []
    ensures fs' != [] && FrameRelated(lines, fs[|fs| - 1], fs'[|fs'| - 1])
    ensures FramesRelated(lines, fs[..|fs| - 1], fs'[..|fs'| - 1])
  {
  }

  predicate Branches(op: opcode)
  {
    op == CALL || op == JMP || op == JMP0 || op == JMPU
  }

  /** Executing an instruction and its relocated counterpart on related states */
  lemma CallRelated(lines: seq<Line>, ops: DataOps, ops': DataOps, insn: Insn, line: nat, counter: nat,
                    d: Data, d': Data, fs: seq<Frame>, fs': seq<Frame>)
    requires DataRelated(lines, d, d') && FramesRelated(lines, fs, fs')
    requires 1 <= line <= |lines|
    requires AddressPast(lines, line) == counter + Advance(RelocInsn(lines, insn))
    requires insn.op == CALL || insn.op == FRCALL || insn.op == RETURN
    requires insn.op == CALL ==> insn.arg.Place? && insn.arg.at >= 0
    ensures var e, e' := Perform(ops, insn, line, d, fs),
                         Machine.Perform(ops', RelocInsn(lines, insn), counter, d', fs');
      && (e.Some? <==> e'.Some?)
      && (e.Some? ==> EffectsRelated(lines, counter, e.value, e'.value))
  {
    if insn.op == RETURN {
      if fs != [] {
        FramesPopped(lines, fs, fs');
        ScopeRelated(lines, d, d', fs[|fs| - 1].depth);
      }
    } else {
      var f, f' := Frame(line, |d.scopes|), Frame(AddressPast(lines, line), |d'.scopes|);
      FramesPushed(lines, fs, fs', f, f');
      ScopeRelated(lines, d, d', 0);
      if insn.op == FRCALL && d.stack != [] {
        PoppedRelated(lines, d, d');
        ScopeRelated(lines, Popped(d), Popped(d'), 0);
      }
    }
  }

  lemma BranchRelated(lines: seq<Line>, ops: DataOps, ops': DataOps, insn: Insn, line: nat, counter: nat,
                      d: Data, d': Data, fs: seq<Frame>, fs': seq<Frame>)
    requires DataRelated(lines, d, d') && FramesRelated(lines, fs, fs')
    requires 1 <= line <= |lines|
    requires AddressPast(lines, line) == counter + Advance(RelocInsn(lines, insn))
    requires insn.op == JMP || insn.op == JMP0 || insn.op == JMPU
    requires insn.arg.Place? && insn.arg.at >= 0
    ensures var e, e' := Perform(ops, insn, line, d, fs),
                         Machine.Perform(ops', RelocInsn(lines, insn), counter, d', fs');
      && (e.Some? <==> e'.Some?)
      && (e.Some? ==> EffectsRelated(lines, counter, e.value, e'.value))
  {
    if insn.op != JMP && d.stack != [] {
      PoppedRelated(lines, d, d');
      TruthRelated(lines, Top(d));
    }
  }

  /** New threads start at the same line, with related parameters. */
  ghost predicate ChildRelated(lines: seq<Line>, c: Child, c': Child)
  {
    && c'.start == PlaceOf(lines, c.start)
    && StackRelated(lines, c.params, c'.params) && DataRelated(lines, c.rest, c'.rest)
  }

  lemma ParamsRelated(lines: seq<Line>, ops: DataOps, ops': DataOps, start: nat, d: Data, d': Data)
    requires DataRelated(lines, d, d') && OpsRelated(lines, ops, ops')
    ensures var c, c' := TakeParams(ops, start, d), TakeParams(ops', PlaceOf(lines, start), d');
      (c.Some? <==> c'.Some?) && (c.Some? ==> ChildRelated(lines, c.value, c'.value))
  {
    if d.stack != [] {
      assert Top(d') == RelocValue(lines, Top(d));
    }
  }

  lemma CoroRelated(lines: seq<Line>, ops: DataOps, ops': DataOps, insn: Insn, d: Data, d': Data)
    requires DataRelated(lines, d, d') && OpsRelated(lines, ops, ops')
    ensures var c, c' := Coro(ops, insn, d), Coro(ops', RelocInsn(lines, insn), d');
      (c.Some? <==> c'.Some?) && (c.Some? ==> ChildRelated(lines, c.value, c'.value))
  {
    if insn.op == FRCORO {
      if d.stack != [] {
        PoppedRelated(lines, d, d');
        if Top(d).Fun? {
          ParamsRelated(lines, ops, ops', Top(d).f, Popped(d), Popped(d'));
        }
      }
    } else {
      ParamsRelated(lines, ops, ops', if insn.arg.Place? && insn.arg.at >= 0 then insn.arg.at else 0, d, d');
    }
  }

  lemma PlainRelated(lines: seq<Line>, ops: DataOps, ops': DataOps, insn: Insn, line: nat, counter: nat,
                     d: Data, d': Data, fs: seq<Frame>, fs': seq<Frame>)
    requires DataRelated(lines, d, d') && FramesRelated(lines, fs, fs') && OpsRelated(lines, ops, ops')
    requires 1 <= line <= |lines|
    requires AddressPast(lines, line) == counter + Advance(RelocInsn(lines, insn))
    requires !Branches(insn.op) && insn.op != FRCALL && insn.op != RETURN
    ensures var e, e' := Perform(ops, insn, line, d, fs),
                         Machine.Perform(ops', RelocInsn(lines, insn), counter, d', fs');
      && (e.Some? <==> e'.Some?)
      && (e.Some? ==> EffectsRelated(lines, counter, e.value, e'.value))
  {
    hide Coro, DataRelated;
    CoroRelated(lines, ops, ops', insn, d, d');
    var literal := LiteralValue(insn);
    assert LiteralValue(RelocInsn(lines, insn))
        == if literal.Some? then Some(RelocValue(lines, literal.value)) else None;
    if literal.Some? {
      PushedRelated(lines, d, d', literal.value);
    } else {
      var done, done' := ops.apply(insn, d), ops'.apply(RelocInsn(lines, insn), d');
    }
  }

  lemma PerformRelated(lines: seq<Line>, ops: DataOps, ops': DataOps, insn: Insn, line: nat, counter: nat,
                       d: Data, d': Data, fs: seq<Frame>, fs': seq<Frame>)
    requires DataRelated(lines, d, d') && FramesRelated(lines, fs, fs') && OpsRelated(lines, ops, ops')
    requires 1 <= line <= |lines|
    requires AddressPast(lines, line) == counter + Advance(RelocInsn(lines, insn))
    requires Branches(insn.op) ==> insn.arg.Place? && insn.arg.at >= 0
    ensures var e, e' := Perform(ops, insn, line, d, fs),
                         Machine.Perform(ops', RelocInsn(lines, insn), counter, d', fs');
      && (e.Some? <==> e'.Some?)
      && (e.Some? ==> EffectsRelated(lines, counter, e.value, e'.value))
  {
    if insn.op == CALL || insn.op == FRCALL || insn.op == RETURN {
      CallRelated(lines, ops, ops', insn, line, counter, d, d', fs, fs');
    } else if Branches(insn.op) {
      BranchRelated(lines, ops, ops', insn, line, counter, d, d', fs, fs');
    } else {
      PlainRelated(lines, ops, ops', insn, line, counter, d, d', fs, fs');
    }
  }

  // ---------- one step ----------

  ghost predicate AtInstruction(lines: seq<Line>, s: Src)
  {
    1 <= s.line <= |lines| && lines[s.line - 1].instr.Some?
  }

  /** The instruction transfers control to its own address: a branch to its own label, or a return
      to the very RETURN that is executing. */
  ghost predicate LandsOnItself(lines: seq<Line>, ops: DataOps, insn: Insn, s: Src, position: nat)
  {
    && insn.op != END && insn.op != NOOP
    && var e := Perform(ops, insn, s.line, s.data, s.frames);
    && e.Some?
    && (e.value.goal.Past? ==> e.value.goal.k <= |lines|)
    && Address(lines, e.value.goal) == position
  }

  ghost predicate TransfersToSelf(lines: seq<Line>, ops: DataOps, s: Src)
    requires AllFit(lines, |lines|)
  {
    && AtInstruction(lines, s)
    && LandsOnItself(lines, ops, SourceInsn(AsRead(lines), s.line - 1), s, Position(lines, s.line - 1))
  }

  lemma JumpTo(counter: nat, incr: int, target: nat)
    requires counter < 0x8000_0000 && target < 0x8000_0000
    requires counter + incr == target
    ensures ToInt32(incr) == incr
    ensures (counter + ToInt32(incr)) % INT64_SPAN == target
  {
    ToInt32Exact(incr);
    RemainderUnique(target, INT64_SPAN, 0, target);
  }

  lemma BranchOperand(lines: seq<Line>, i: nat)
    requires i < |lines| && lines[i].instr.Some? && OperandsFit(lines[i])
    ensures Branches(SourceInsn(lines, i).op) ==> SourceInsn(lines, i).arg.Place? && SourceInsn(lines, i).arg.at >= 0
  {
  }

  lemma DispatchRelated(lines: seq<Line>, ops: DataOps, ops': DataOps, insn: Insn, s: Src, vm: Vm)
    requires FitsInt(lines) && AllFit(lines, |lines|) && OpsRelated(lines, ops, ops')
    requires DataRelated(lines, s.data, vm.data) && FramesRelated(lines, s.frames, vm.frames)
    requires Denotes(lines, s.line, vm.counter) && vm.counter < 0x8000_0000
    requires 1 <= s.line <= |lines|
    requires AddressPast(lines, s.line) == vm.counter + Advance(RelocInsn(lines, insn))
    requires Branches(insn.op) ==> insn.arg.Place? && insn.arg.at >= 0
    ensures var a, b := SourceDispatch(ops, insn, s), Dispatch(ops', RelocInsn(lines, insn), vm);
      && (b == Stalled <==> LandsOnItself(lines, ops, insn, s, vm.counter))
      && (b != Stalled ==> OutcomesRelated(lines, a, b))
  {
    hide DataRelated, FramesRelated, ToInt32, Perform, Machine.Perform, EffectsRelated;
    if insn.op == NOOP {
      DenotesNext(lines, s.line - 1);
    } else if insn.op != END {
      PerformRelated(lines, ops, ops', insn, s.line, vm.counter, s.data, vm.data, s.frames, vm.frames);
      var e := Perform(ops, insn, s.line, s.data, s.frames);
      if e.Some? {
        var e' := Machine.Perform(ops', RelocInsn(lines, insn), vm.counter, vm.data, vm.frames).value;
        MoveRelated(lines, vm.counter, e.value, e');
      }
    }
  }

  lemma MoveRelated(lines: seq<Line>, counter: nat, e: SourceEffect, e': Effect)
    requires FitsInt(lines) && AllFit(lines, |lines|) && counter < 0x8000_0000 && EffectsRelated(lines, counter, e, e')
    ensures ToInt32(e'.incr) == 0 <==> Address(lines, e.goal) == counter
    ensures Related(lines, Src(GoalLine(e.goal), e.data, e.frames),
                    Vm((counter + ToInt32(e'.incr)) % INT64_SPAN, e'.data, e'.frames))
  {
    AddressInCode(lines, e.goal);
    JumpTo(counter, e'.incr, Address(lines, e.goal));
  }

  /** What the virtual machine reads at a line's position, and where it goes on past that */
  lemma Fetched(lines: seq<Line>, code: seq<byte>, i: nat)
    requires Accepted(lines) && FitsInt(lines) && IsImage(lines, code) && i < |lines| && lines[i].instr.Some?
    ensures OperandsFit(lines[i])
    ensures var insn := RelocInsn(lines, SourceInsn(AsRead(lines), i));
      && Position(lines, i) < |code| && ReadInsn(code, Position(lines, i)) == Some(insn)
      && AddressPast(lines, i + 1) == Position(lines, i) + Advance(insn)
  {
    hide Position, ReadInsn, RelocInsn, SourceArg, Advance, LineAsRead, IsImage;
    DecodesBack(lines, code, i);
    ReadEndNext(lines, i);
  }

  lemma RelatedParts(lines: seq<Line>, s: Src, vm: Vm)
    requires Related(lines, s, vm)
    ensures Denotes(lines, s.line, vm.counter) && DataRelated(lines, s.data, vm.data)
    ensures FramesRelated(lines, s.frames, vm.frames)
  {
  }

  /** With the counter at the instruction, both machines execute it and stay related, or fail
      together; the virtual machine stalls exactly when the instruction transfers to itself. */
  lemma InstructionStep(lines: seq<Line>, code: seq<byte>, ops: DataOps, ops': DataOps, s: Src, vm: Vm)
    requires Assembled(lines, code, ops, ops') && Related(lines, s, vm)
    requires AtInstruction(lines, s) && vm.counter == Position(lines, s.line - 1)
    ensures Step(ops', code, vm) == Stalled <==> TransfersToSelf(lines, ops, s)
    ensures Step(ops', code, vm) != Stalled ==>
              OutcomesRelated(lines, SourceStep(ops, AsRead(lines), s), Step(ops', code, vm))
  {
    hide Related, Denotes, DataRelated, FramesRelated, LineAsRead, SourceArg, RelocInsn, AddressPast, OutcomesRelated;
    hide LandsOnItself, SourceDispatch, Dispatch, ReadInsn, Position, IsImage, LabelsUnique, LabelsDefined, OpsRelated;
    var i, program := s.line - 1, AsRead(lines);
    Fetched(lines, code, i);
    RelatedParts(lines, s, vm);
    BranchOperand(program, i);
    PositionInCode(lines, i);
    DispatchRelated(lines, ops, ops', SourceInsn(program, i), s, vm);
  }

  lemma DenotesNext(lines: seq<Line>, i: nat)
    requires i < |lines| && AllFit(lines, |lines|)
    ensures Denotes(lines, i + 2, ReadEnd(lines, i + 1))
  {
    ReadEndBounds(lines, i + 1);
  }

  lemma FloatingDenotes(lines: seq<Line>, k: nat, counter: nat)
    requires AllFit(lines, |lines|) && 1 <= k <= |lines| && lines[k - 1].instr.None?
    requires Denotes(lines, k, counter)
    ensures Denotes(lines, k + 1, counter)
  {
    hide LineAsRead;
    Extent(lines, k - 1);
    ReadEndBounds(lines, k);
  }

  /** A floating label leaves the counter where it is. */
  lemma FloatingStep(lines: seq<Line>, ops: DataOps, s: Src, vm: Vm)
    requires AllFit(lines, |lines|) && Related(lines, s, vm)
    requires 1 <= s.line <= |lines| && lines[s.line - 1].instr.None?
    ensures SourceStep(ops, AsRead(lines), s) == Next(s.(line := s.line + 1))
    ensures Related(lines, s.(line := s.line + 1), vm)
  {
    hide Denotes, DataRelated, FramesRelated, SourceDispatch, LineAsRead, OperandsFit;
    FloatingDenotes(lines, s.line, vm.counter);
  }

  lemma CounterWithin(lines: seq<Line>, s: Src, vm: Vm)
    requires Related(lines, s, vm)
    ensures vm.counter <= PlaceOf(lines, s.line)
  {
  }

  /** In the padding before a line or before the closing guard, the virtual machine executes a NOOP. */
  lemma PaddingStep(lines: seq<Line>, code: seq<byte>, ops: DataOps, ops': DataOps, s: Src, vm: Vm)
    requires Assembled(lines, code, ops, ops') && Related(lines, s, vm)
    requires vm.counter < PlaceOf(lines, s.line)
    ensures Step(ops', code, vm) == Next(vm.(counter := vm.counter + 1))
    ensures Related(lines, s, vm.(counter := vm.counter + 1))
  {
    PaddingIsNoops(lines, code, if s.line <= |lines| then s.line - 1 else |lines|);
    FetchGap(code, vm.counter);
  }

  lemma FetchGap(code: seq<byte>, p: nat)
    requires p < |code|
    ensures code[p] == NOOP ==> ReadInsn(code, p) == Some(Insn(NOOP, NoArg))
    ensures code[p] == END ==> ReadInsn(code, p) == Some(Insn(END, NoArg))
  {
  }

  /** At either guard both machines halt. */
  lemma GuardStep(lines: seq<Line>, code: seq<byte>, ops: DataOps, ops': DataOps, s: Src, vm: Vm)
    requires Assembled(lines, code, ops, ops') && Related(lines, s, vm)
    requires (s.line == 0 || s.line > |lines|) && vm.counter == PlaceOf(lines, s.line)
    ensures SourceStep(ops, AsRead(lines), s) == Halted(s)
    ensures Step(ops', code, vm) == Halted(vm)
  {
    FetchGap(code, vm.counter);
  }

  // ---------- whole runs ----------

  /** Floating labels are stutter steps of the source machine. */
  lemma {:induction false} SkipFloating(lines: seq<Line>, ops: DataOps, s0: Src, m: nat, s: Src, vm: Vm)
    returns (m': nat, s': Src)
    requires AllFit(lines, |lines|)
    requires SourceRun(ops, AsRead(lines), s0, m) == Next(s) && Related(lines, s, vm)
    ensures SourceRun(ops, AsRead(lines), s0, m') == Next(s') && Related(lines, s', vm)
    ensures s'.line == 0 || s'.line > |lines| || AtInstruction(lines, s')
    decreases if s.line <= |lines| then |lines| - s.line + 1 else 0
  {
    hide SourceStep, Related, LineAsRead, OperandsFit;
    if 1 <= s.line <= |lines| && lines[s.line - 1].instr.None? {
      FloatingStep(lines, ops, s, vm);
      m', s' := SkipFloating(lines, ops, s0, m + 1, s.(line := s.line + 1), vm);
    } else {
      m', s' := m, s;
    }
  }

  /** Padding NOOPs are stutter steps of the virtual machine. */
  lemma {:induction false} SkipPadding(lines: seq<Line>, code: seq<byte>, ops: DataOps, ops': DataOps,
                                       vm0: Vm, n: nat, s: Src, vm: Vm)
    returns (n': nat, vm': Vm)
    requires Assembled(lines, code, ops, ops')
    requires Run(ops', code, vm0, n) == Next(vm) && Related(lines, s, vm)
    ensures Run(ops', code, vm0, n') == Next(vm') && Related(lines, s, vm')
    ensures vm'.counter == PlaceOf(lines, s.line)
    decreases PlaceOf(lines, s.line) - vm.counter
  {
    hide Assembled, Related, PlaceOf, Step;
    if vm.counter < PlaceOf(lines, s.line) {
      PaddingStep(lines, code, ops, ops', s, vm);
      n', vm' := SkipPadding(lines, code, ops, ops', vm0, n + 1, s, vm.(counter := vm.counter + 1));
    } else {
      CounterWithin(lines, s, vm);
      n', vm' := n, vm;
    }
  }

  /** Every run of the bytecode, as long as it has not stalled, matches a run of the lines. */
  lemma {:induction false} RunMatched(lines: seq<Line>, code: seq<byte>, ops: DataOps, ops': DataOps,
                                      s0: Src, vm0: Vm, n: nat)
    returns (m: nat)
    requires Assembled(lines, code, ops, ops') && Related(lines, s0, vm0)
    requires Run(ops', code, vm0, n) != Stalled
    ensures OutcomesRelated(lines, SourceRun(ops, AsRead(lines), s0, m), Run(ops', code, vm0, n))
  {
    if n == 0 {
      m := 0;
    } else {
      m := RunMatched(lines, code, ops, ops', s0, vm0, n - 1);
      var before := Run(ops', code, vm0, n - 1);
      if before.Next? {
        m := StepMatched(lines, code, ops, ops', s0, m, SourceRun(ops, AsRead(lines), s0, m).s, before.s);
      }
    }
  }

  /** One turn of the loop, once floating labels are skipped: a step of the source machine, or a
      NOOP of the padding. */
  lemma TurnRelated(lines: seq<Line>, code: seq<byte>, ops: DataOps, ops': DataOps, s: Src, vm: Vm)
    requires Assembled(lines, code, ops, ops') && Related(lines, s, vm)
    requires s.line == 0 || s.line > |lines| || AtInstruction(lines, s)
    ensures Step(ops', code, vm) == Stalled ==> TransfersToSelf(lines, ops, s)
    ensures Step(ops', code, vm) != Stalled ==>
      || OutcomesRelated(lines, SourceStep(ops, AsRead(lines), s), Step(ops', code, vm))
      || OutcomesRelated(lines, Next(s), Step(ops', code, vm))
  {
    hide Assembled, Related, Step, SourceStep, LandsOnItself, LineAsRead, Position;
    AssembledFits(lines, code, ops, ops');
    CounterWithin(lines, s, vm);
    if vm.counter < PlaceOf(lines, s.line) {
      PaddingStep(lines, code, ops, ops', s, vm);
    } else if s.line == 0 || s.line > |lines| {
      GuardStep(lines, code, ops, ops', s, vm);
    } else {
      InstructionStep(lines, code, ops, ops', s, vm);
    }
  }

  lemma StepMatched(lines: seq<Line>, code: seq<byte>, ops: DataOps, ops': DataOps, s0: Src, m: nat, s: Src, vm: Vm)
    returns (m': nat)
    requires Assembled(lines, code, ops, ops')
    requires SourceRun(ops, AsRead(lines), s0, m) == Next(s) && Related(lines, s, vm)
    requires Step(ops', code, vm) != Stalled
    ensures OutcomesRelated(lines, SourceRun(ops, AsRead(lines), s0, m'), Step(ops', code, vm))
  {
    var s';
    m', s' := SkipFloating(lines, ops, s0, m, s, vm);
    TurnRelated(lines, code, ops, ops', s', vm);
    if !OutcomesRelated(lines, Next(s'), Step(ops', code, vm)) {
      m' := m' + 1;
    }
  }

  /** Every run of the lines is matched by a run of the bytecode, unless that one stalls. */
  lemma {:induction false} RunReflected(lines: seq<Line>, code: seq<byte>, ops: DataOps, ops': DataOps,
                                        s0: Src, vm0: Vm, m: nat)
    returns (n: nat)
    requires Assembled(lines, code, ops, ops') && Related(lines, s0, vm0)
    ensures Run(ops', code, vm0, n) == Stalled
         || OutcomesRelated(lines, SourceRun(ops, AsRead(lines), s0, m), Run(ops', code, vm0, n))
  {
    hide Assembled, SourceStep, Step, Denotes, DataRelated, FramesRelated, LineAsRead, OperandsFit;
    AssembledFits(lines, code, ops, ops');
    if m == 0 {
      n := 0;
    } else {
      n := RunReflected(lines, code, ops, ops', s0, vm0, m - 1);
      var before := SourceRun(ops, AsRead(lines), s0, m - 1);
      if before.Next? && Run(ops', code, vm0, n) != Stalled {
        n := StepReflected(lines, code, ops, ops', vm0, n, before.s, Run(ops', code, vm0, n).s);
      }
    }
  }

  lemma InstructionReflected(lines: seq<Line>, code: seq<byte>, ops: DataOps, ops': DataOps,
                             vm0: Vm, n: nat, s: Src, vm: Vm)
    returns (n': nat)
    requires Assembled(lines, code, ops, ops')
    requires Run(ops', code, vm0, n) == Next(vm) && Related(lines, s, vm)
    requires AtInstruction(lines, s)
    ensures Run(ops', code, vm0, n') == Stalled
         || OutcomesRelated(lines, SourceStep(ops, AsRead(lines), s), Run(ops', code, vm0, n'))
    ensures TransfersToSelf(lines, ops, s) ==> Run(ops', code, vm0, n') == Stalled
  {
    hide Assembled, Related, LineAsRead, Step, SourceDispatch, OutcomesRelated, LandsOnItself, Position;
    var vm';
    n', vm' := SkipPadding(lines, code, ops, ops', vm0, n, s, vm);
    InstructionStep(lines, code, ops, ops', s, vm');
    n' := n' + 1;
  }

  lemma StepReflected(lines: seq<Line>, code: seq<byte>, ops: DataOps, ops': DataOps, vm0: Vm, n: nat, s: Src, vm: Vm)
    returns (n': nat)
    requires Assembled(lines, code, ops, ops')
    requires Run(ops', code, vm0, n) == Next(vm) && Related(lines, s, vm)
    ensures Run(ops', code, vm0, n') == Stalled
         || OutcomesRelated(lines, SourceStep(ops, AsRead(lines), s), Run(ops', code, vm0, n'))
    ensures TransfersToSelf(lines, ops, s) ==> Run(ops', code, vm0, n') == Stalled
  {
    hide IsImage, LabelsDefined, LabelsUnique, OpsRelated, FitsInt, Related, LineAsRead, Step, SourceDispatch;
    hide LandsOnItself, Position, OperandsFit;
    if AtInstruction(lines, s) {
      n' := InstructionReflected(lines, code, ops, ops', vm0, n, s, vm);
    } else if s.line == 0 || s.line > |lines| {
      var vm';
      n', vm' := SkipPadding(lines, code, ops, ops', vm0, n, s, vm);
      GuardStep(lines, code, ops, ops', s, vm');
      n' := n' + 1;
    } else {
      FloatingStep(lines, ops, s, vm);
      n' := n;
    }
  }

  /** The lines come to such an instruction in m steps. */
  ghost predicate ReachesSelfTransfer(lines: seq<Line>, ops: DataOps, s0: Src, m: nat)
    requires AllFit(lines, |lines|)
  {
    var end := SourceRun(ops, AsRead(lines), s0, m);
    end.Next? && TransfersToSelf(lines, ops, end.s)
  }

  /** The bytecode's run stalls exactly when the run of the lines reaches an instruction that
      transfers control to its own address. */
  lemma StallsExactlyAtSelfTransfer(lines: seq<Line>, code: seq<byte>, ops: DataOps, ops': DataOps, s0: Src, vm0: Vm)
    requires Assembled(lines, code, ops, ops') && Related(lines, s0, vm0)
    ensures (exists n :: Run(ops', code, vm0, n) == Stalled)
       <==> (exists m :: ReachesSelfTransfer(lines, ops, s0, m))
  {
    if n :| Run(ops', code, vm0, n) == Stalled {
      var m := SelfTransferBefore(lines, code, ops, ops', s0, vm0, n);
      assert ReachesSelfTransfer(lines, ops, s0, m);
    }
    if m :| ReachesSelfTransfer(lines, ops, s0, m) {
      var n := RunReflected(lines, code, ops, ops', s0, vm0, m);
      if Run(ops', code, vm0, n) != Stalled {
        var s, vm := SourceRun(ops, AsRead(lines), s0, m).s, Run(ops', code, vm0, n).s;
        n := StepReflected(lines, code, ops, ops', vm0, n, s, vm);
      }
      assert Run(ops', code, vm0, n) == Stalled;
    }
  }

  lemma {:induction false} SelfTransferBefore(lines: seq<Line>, code: seq<byte>, ops: DataOps, ops': DataOps,
                                              s0: Src, vm0: Vm, n: nat)
    returns (m: nat)
    requires Assembled(lines, code, ops, ops') && Related(lines, s0, vm0)
    requires Run(ops', code, vm0, n) == Stalled
    ensures SourceRun(ops, AsRead(lines), s0, m).Next?
    ensures TransfersToSelf(lines, ops, SourceRun(ops, AsRead(lines), s0, m).s)
  {
    hide Assembled, SourceStep, Step, Denotes, DataRelated, FramesRelated, LineAsRead, OperandsFit;
    AssembledFits(lines, code, ops, ops');
    if Run(ops', code, vm0, n - 1) == Stalled {
      m := SelfTransferBefore(lines, code, ops, ops', s0, vm0, n - 1);
    } else {
      m := RunMatched(lines, code, ops, ops', s0, vm0, n - 1);
      var vm, s := Run(ops', code, vm0, n - 1).s, SourceRun(ops, AsRead(lines), s0, m).s;
      m, s := SkipFloating(lines, ops, s0, m, s, vm);
      TurnRelated(lines, code, ops, ops', s, vm);
    }
  }
}
