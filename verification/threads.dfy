/** Assembling preserves the meaning of whole processes: any number of threads that share the pooled
    objects, start each other and take turns in any order. */
module Threads {
  import opened Wrappers
  import opened Words
  import opened Bytecode
  import opened Assembler
  import opened Machine
  import opened Decoding
  import opened Simulation
  import opened Meaning
  import opened Safety

  datatype Thread<S> = Running(s: S) | Ended

  /** All threads ever started, and the pooled objects, which they share. The objects in a thread's own
      state are those of its last turn. */
  datatype Process<S> = Process(threads: seq<Thread<S>>, store: map<nat, Value>)

  function SrcIn(s: Src, store: map<nat, Value>): Src
  {
    s.(data := s.data.(store := store))
  }

  function VmIn(vm: Vm, store: map<nat, Value>): Vm
  {
    vm.(data := vm.data.(store := store))
  }

  /** The threads after thread t has come to a new state and has perhaps started another */
  function After<S>(threads: seq<Thread<S>>, t: nat, thread: Thread<S>, child: Option<S>): seq<Thread<S>>
    requires t < |threads|
  {
    if child.Some? then threads[t := thread] + [Running(child.value)] else threads[t := thread]
  }

  // ---------- turns ----------

  /** The thread that an instruction starts, in the terms of the lines */
  function SourceChild(ops: DataOps, lines: seq<Line>, s: Src): Option<Src>
    requires AllFit(lines, |lines|)
  {
    if !(1 <= s.line <= |lines|) || lines[s.line - 1].instr.None? then None
    else
      var insn := SourceInsn(lines, s.line - 1);
      if insn.op != CORO && insn.op != FRCORO then None
      else
        match Coro(ops, insn, s.data)
        case None => None
        case Some(c) => Some(SourceEntry(c.start, c.params, s.data.store))
  }

  /** The thread that an instruction starts */
  function MachineChild(ops: DataOps, code: seq<byte>, vm: Vm): Option<Vm>
  {
    if vm.counter >= |code| then None
    else
      match ReadInsn(code, vm.counter)
      case None => None
      case Some(insn) =>
        if insn.op != CORO && insn.op != FRCORO then None
        else
          match Coro(ops, insn, vm.data)
          case None => None
          case Some(c) => Some(Entry(c.start, c.params, vm.data.store))
  }

  /** One turn of thread t over the lines. A thread that has ended takes no turns; a failed assertion ends
      the process. */
  function SourceTurn(ops: DataOps, lines: seq<Line>, p: Process<Src>, t: nat): Outcome<Process<Src>>
    requires AllFit(lines, |lines|)
  {
    if t >= |p.threads| || p.threads[t].Ended? then Next(p)
    else
      var s := SrcIn(p.threads[t].s, p.store);
      match SourceStep(ops, lines, s)
      case Next(s') => Next(Process(After(p.threads, t, Running(s'), SourceChild(ops, lines, s)), s'.data.store))
      case Halted(_) => Next(Process(p.threads[t := Ended], p.store))
      case Failed => Failed
      case Stalled => Stalled
  }

  /** One turn of thread t's dispatch loop */
  function MachineTurn(ops: DataOps, code: seq<byte>, p: Process<Vm>, t: nat): Outcome<Process<Vm>>
  {
    if t >= |p.threads| || p.threads[t].Ended? then Next(p)
    else
      var vm := VmIn(p.threads[t].s, p.store);
      match Step(ops, code, vm)
      case Next(vm') => Next(Process(After(p.threads, t, Running(vm'), MachineChild(ops, code, vm)), vm'.data.store))
      case Halted(_) => Next(Process(p.threads[t := Ended], p.store))
      case Failed => Failed
      case Stalled => Stalled
  }

  /** The turns that a schedule gives to threads, one after the other */
  function SourceTurns(ops: DataOps, lines: seq<Line>, p: Process<Src>, schedule: seq<nat>): Outcome<Process<Src>>
    requires AllFit(lines, |lines|)
  {
    if schedule == [] then Next(p)
    else
      match SourceTurns(ops, lines, p, schedule[..|schedule| - 1])
      case Next(p') => SourceTurn(ops, lines, p', schedule[|schedule| - 1])
      case ended => ended
  }

  function MachineTurns(ops: DataOps, code: seq<byte>, p: Process<Vm>, schedule: seq<nat>): Outcome<Process<Vm>>
  {
    if schedule == [] then Next(p)
    else
      match MachineTurns(ops, code, p, schedule[..|schedule| - 1])
      case Next(p') => MachineTurn(ops, code, p', schedule[|schedule| - 1])
      case ended => ended
  }

  lemma SourceTurnsMore(ops: DataOps, lines: seq<Line>, p: Process<Src>, schedule: seq<nat>, t: nat)
    requires AllFit(lines, |lines|) && SourceTurns(ops, lines, p, schedule).Next?
    ensures SourceTurns(ops, lines, p, []) == Next(p)
    ensures SourceTurns(ops, lines, p, schedule + [t])
         == SourceTurn(ops, lines, SourceTurns(ops, lines, p, schedule).s, t)
  {
    assert (schedule + [t])[..|schedule|] == schedule;
  }

  lemma MachineTurnsMore(ops: DataOps, code: seq<byte>, p: Process<Vm>, schedule: seq<nat>, t: nat)
    requires MachineTurns(ops, code, p, schedule).Next?
    ensures MachineTurns(ops, code, p, []) == Next(p)
    ensures MachineTurns(ops, code, p, schedule + [t])
         == MachineTurn(ops, code, MachineTurns(ops, code, p, schedule).s, t)
  {
    assert (schedule + [t])[..|schedule|] == schedule;
  }

  /** What a turn of thread t does to the process: the thread comes to where its own step leads with the shared
      objects put in, which are afterwards what that step has left, and no other thread changes; CORO and FRCORO
      add one thread, at their start, with their parameters, one scope and the entry's frame. */
  lemma TurnIsStep(ops: DataOps, code: seq<byte>, p: Process<Vm>, t: nat)
    requires t < |p.threads| && p.threads[t].Running?
    ensures var vm := p.threads[t].s;
      var step := Step(ops, code, Vm(vm.counter, Data(vm.data.stack, vm.data.scopes, p.store), vm.frames));
      var end := MachineTurn(ops, code, p, t);
      match step
      case Next(next) =>
        && end.Next? && end.s.store == next.data.store && |end.s.threads| >= |p.threads|
        && end.s.threads[t] == Running(next)
        && forall u :: 0 <= u < |p.threads| && u != t ==> end.s.threads[u] == p.threads[u]
      case Halted(_) => end == Next(Process(p.threads[t := Ended], p.store))
      case Failed => end == Failed
      case Stalled => end == Stalled
    ensures var vm, end := p.threads[t].s, MachineTurn(ops, code, p, t);
      end.Next? && vm.counter < |code| && ReadInsn(code, vm.counter).Some? ==>
        var insn, d := ReadInsn(code, vm.counter).value, Data(vm.data.stack, vm.data.scopes, p.store);
        if insn.op == CORO || insn.op == FRCORO then
          && Coro(ops, insn, d).Some? && |end.s.threads| == |p.threads| + 1
          && var c := Coro(ops, insn, d).value;
             end.s.threads[|p.threads|] == Running(Vm(c.start, Data(c.params, [map[]], p.store), [Frame(0, 0)]))
        else |end.s.threads| == |p.threads|
  {
    hide ReadInsn, ReadArg, ToInt32, Coro;
  }

  // ---------- how processes are related ----------

  ghost predicate ThreadRelated(lines: seq<Line>, a: Thread<Src>, store: map<nat, Value>,
                                b: Thread<Vm>, store': map<nat, Value>)
  {
    match (a, b)
    case (Running(s), Running(vm)) => Related(lines, SrcIn(s, store), VmIn(vm, store'))
    case (Ended, Ended) => true
    case _ => false
  }

  ghost predicate ProcessRelated(lines: seq<Line>, p: Process<Src>, p': Process<Vm>)
  {
    && |p'.threads| == |p.threads| && MapRelated(lines, p.store, p'.store)
    && forall t :: 0 <= t < |p.threads| ==> ThreadRelated(lines, p.threads[t], p.store, p'.threads[t], p'.store)
  }

  ghost predicate ProcessesRelated(lines: seq<Line>, a: Outcome<Process<Src>>, b: Outcome<Process<Vm>>)
  {
    match (a, b)
    case (Next(p), Next(p')) => ProcessRelated(lines, p, p')
    case (Failed, Failed) => true
    case _ => false
  }

  /** Other threads stay related when the shared objects change. */
  lemma RelatedElsewhere(lines: seq<Line>, a: Thread<Src>, store: map<nat, Value>, b: Thread<Vm>,
                         store': map<nat, Value>, now: map<nat, Value>, now': map<nat, Value>)
    requires ThreadRelated(lines, a, store, b, store') && MapRelated(lines, now, now')
    ensures ThreadRelated(lines, a, now, b, now')
  {
  }

  lemma AfterRelated(lines: seq<Line>, p: Process<Src>, p': Process<Vm>, t: nat, a: Thread<Src>, b: Thread<Vm>,
                     c: Option<Src>, c': Option<Vm>, store: map<nat, Value>, store': map<nat, Value>)
    requires ProcessRelated(lines, p, p') && t < |p.threads| && MapRelated(lines, store, store')
    requires ThreadRelated(lines, a, store, b, store') && (c.Some? <==> c'.Some?)
    requires c.Some? ==> ThreadRelated(lines, Running(c.value), store, Running(c'.value), store')
    ensures ProcessRelated(lines, Process(After(p.threads, t, a, c), store),
                           Process(After(p'.threads, t, b, c'), store'))
  {
    hide ThreadRelated, MapRelated;
    forall u | 0 <= u < |p.threads|
      ensures ThreadRelated(lines, p.threads[u], store, p'.threads[u], store')
    {
      RelatedElsewhere(lines, p.threads[u], p.store, p'.threads[u], p'.store, store, store');
    }
  }

  /** The thread that takes the turn, once the shared objects are put in */
  lemma ThreadsPart(lines: seq<Line>, p: Process<Src>, p': Process<Vm>, t: nat)
    requires ProcessRelated(lines, p, p') && t < |p.threads|
    ensures p.threads[t].Running? <==> p'.threads[t].Running?
    ensures p.threads[t].Running? ==> Related(lines, SrcIn(p.threads[t].s, p.store), VmIn(p'.threads[t].s, p'.store))
  {
    assert ThreadRelated(lines, p.threads[t], p.store, p'.threads[t], p'.store);
  }

  // ---------- one turn ----------

  /** A new thread enters at the line that its start denotes. */
  lemma EntriesRelated(lines: seq<Line>, c: Child, c': Child, store: map<nat, Value>, store': map<nat, Value>)
    requires FitsInt(lines) && AllFit(lines, |lines|) && ChildRelated(lines, c, c') && MapRelated(lines, store, store')
    ensures Related(lines, SourceEntry(c.start, c.params, store), Entry(c'.start, c'.params, store'))
  {
    AddressInCode(lines, ToLine(c.start));
  }

  lemma ChildrenRelated(lines: seq<Line>, code: seq<byte>, ops: DataOps, ops': DataOps, s: Src, vm: Vm)
    requires Assembled(lines, code, ops, ops') && Related(lines, s, vm)
    requires AtInstruction(lines, s) && vm.counter == Position(lines, s.line - 1)
    ensures AllFit(lines, |lines|)
    ensures var c, c' := SourceChild(ops, AsRead(lines), s), MachineChild(ops', code, vm);
      (c.Some? <==> c'.Some?) && (c.Some? ==> Related(lines, c.value, c'.value))
  {
    hide Related, DataRelated, Position, ReadInsn, Coro, LineAsRead, ChildRelated, SourceArg, RelocArg, MapRelated;
    hide IsImage, LabelsUnique, LabelsDefined, OpsRelated, AddressPast;
    AssembledFits(lines, code, ops, ops');
    Fetched(lines, code, s.line - 1);
    RelatedParts(lines, s, vm);
    var insn := SourceInsn(AsRead(lines), s.line - 1);
    CoroRelated(lines, ops, ops', insn, s.data, vm.data);
    StoresRelated(lines, s.data, vm.data);
    if Coro(ops, insn, s.data).Some? {
      EntriesRelated(lines, Coro(ops, insn, s.data).value, Coro(ops', RelocInsn(lines, insn), vm.data).value,
                     s.data.store, vm.data.store);
    }
  }

  lemma StoresRelated(lines: seq<Line>, d: Data, d': Data)
    requires DataRelated(lines, d, d')
    ensures MapRelated(lines, d.store, d'.store)
  {
  }

  /** A turn that moves one thread of either process on, related as it is, leaves related processes. */
  lemma MovesRelated(lines: seq<Line>, p: Process<Src>, p': Process<Vm>, t: nat, s: Src, vm: Vm,
                     c: Option<Src>, c': Option<Vm>)
    requires ProcessRelated(lines, p, p') && t < |p.threads| && Related(lines, s, vm) && (c.Some? <==> c'.Some?)
    requires c.Some? ==> Related(lines, c.value, c'.value)
    ensures ProcessRelated(lines, Process(After(p.threads, t, Running(s), c), s.data.store),
                           Process(After(p'.threads, t, Running(vm), c'), vm.data.store))
  {
    hide ProcessRelated, MapRelated, StackRelated, ScopesRelated, Denotes, FramesRelated;
    var store, store' := s.data.store, vm.data.store;
    assert SrcIn(s, store) == s && VmIn(vm, store') == vm;
    if c.Some? {
      assert Related(lines, SrcIn(c.value, store), VmIn(c'.value, store'));
    }
    AfterRelated(lines, p, p', t, Running(s), Running(vm), c, c', store, store');
  }

  /** Thread t's state, with the shared objects put in */
  function SrcOf(p: Process<Src>, t: nat): Src
    requires t < |p.threads| && p.threads[t].Running?
  {
    SrcIn(p.threads[t].s, p.store)
  }

  function VmOf(p: Process<Vm>, t: nat): Vm
    requires t < |p.threads| && p.threads[t].Running?
  {
    VmIn(p.threads[t].s, p.store)
  }

  ghost predicate Turning(lines: seq<Line>, p: Process<Src>, p': Process<Vm>, t: nat)
  {
    && ProcessRelated(lines, p, p') && |p'.threads| == |p.threads| && MapRelated(lines, p.store, p'.store)
    && t < |p.threads| && p.threads[t].Running? && p'.threads[t].Running?
    && Related(lines, SrcOf(p, t), VmOf(p', t))
  }

  lemma InstructionTurn(lines: seq<Line>, code: seq<byte>, ops: DataOps, ops': DataOps,
                        p: Process<Src>, p': Process<Vm>, t: nat)
    requires Assembled(lines, code, ops, ops') && Turning(lines, p, p', t)
    requires AtInstruction(lines, SrcOf(p, t)) && VmOf(p', t).counter == Position(lines, SrcOf(p, t).line - 1)
    ensures AllFit(lines, |lines|)
    ensures MachineTurn(ops', code, p', t) == Stalled <==> TransfersToSelf(lines, ops, SrcOf(p, t))
    ensures MachineTurn(ops', code, p', t) != Stalled ==>
      ProcessesRelated(lines, SourceTurn(ops, AsRead(lines), p, t), MachineTurn(ops', code, p', t))
  {
    hide Assembled, Related, Position, Step, SourceStep, SourceChild, MachineChild, LineAsRead, TransfersToSelf;
    hide ProcessRelated;
    AssembledFits(lines, code, ops, ops');
    var s, vm := SrcOf(p, t), VmOf(p', t);
    InstructionStep(lines, code, ops, ops', s, vm);
    ChildrenRelated(lines, code, ops, ops', s, vm);
    var a, b := SourceStep(ops, AsRead(lines), s), Step(ops', code, vm);
    if b != Stalled {
      match (a, b)
      case (Next(s'), Next(vm')) =>
        MovesRelated(lines, p, p', t, s', vm', SourceChild(ops, AsRead(lines), s), MachineChild(ops', code, vm));
      case (Halted(_), Halted(_)) => EndsRelated(lines, p, p', t);
      case _ =>
    }
  }

  lemma EndsRelated(lines: seq<Line>, p: Process<Src>, p': Process<Vm>, t: nat)
    requires ProcessRelated(lines, p, p') && t < |p.threads|
    ensures ProcessRelated(lines, Process(p.threads[t := Ended], p.store), Process(p'.threads[t := Ended], p'.store))
  {
    AfterRelated(lines, p, p', t, Ended, Ended, None, None, p.store, p'.store);
  }

  lemma GuardTurn(lines: seq<Line>, code: seq<byte>, ops: DataOps, ops': DataOps,
                  p: Process<Src>, p': Process<Vm>, t: nat)
    requires Assembled(lines, code, ops, ops') && Turning(lines, p, p', t)
    requires SrcOf(p, t).line == 0 || SrcOf(p, t).line > |lines|
    requires VmOf(p', t).counter == PlaceOf(lines, SrcOf(p, t).line)
    ensures AllFit(lines, |lines|)
    ensures ProcessesRelated(lines, SourceTurn(ops, AsRead(lines), p, t), MachineTurn(ops', code, p', t))
  {
    hide Assembled, Related, Position, Step, SourceStep, LineAsRead, ProcessRelated;
    AssembledFits(lines, code, ops, ops');
    GuardStep(lines, code, ops, ops', SrcOf(p, t), VmOf(p', t));
    EndsRelated(lines, p, p', t);
  }

  /** A NOOP of the padding, executed by thread t */
  lemma PaddingTurn(lines: seq<Line>, code: seq<byte>, ops: DataOps, ops': DataOps,
                    p: Process<Src>, p': Process<Vm>, t: nat)
    requires Assembled(lines, code, ops, ops') && Turning(lines, p, p', t)
    requires VmOf(p', t).counter < PlaceOf(lines, SrcOf(p, t).line)
    ensures MachineTurn(ops', code, p', t).Next?
    ensures var q' := MachineTurn(ops', code, p', t).s;
      Turning(lines, p, q', t) && VmOf(q', t).counter == VmOf(p', t).counter + 1
  {
    hide Assembled, Related, Position, Step, LineAsRead, ProcessRelated, PlaceOf;
    var s, vm := SrcOf(p, t), VmOf(p', t);
    PaddingStep(lines, code, ops, ops', s, vm);
    PaddingStartsNothing(lines, code, ops, ops', s, vm);
    var vm' := vm.(counter := vm.counter + 1);
    assert ThreadRelated(lines, p.threads[t], p.store, Running(vm'), p'.store);
    AfterRelated(lines, p, p', t, p.threads[t], Running(vm'), None, None, p.store, p'.store);
    assert After(p.threads, t, p.threads[t], None) == p.threads;
  }

  lemma PaddingStartsNothing(lines: seq<Line>, code: seq<byte>, ops: DataOps, ops': DataOps, s: Src, vm: Vm)
    requires Assembled(lines, code, ops, ops') && Related(lines, s, vm) && vm.counter < PlaceOf(lines, s.line)
    ensures MachineChild(ops', code, vm) == None
  {
    hide Coro;
    PaddingIsNoops(lines, code, if s.line <= |lines| then s.line - 1 else |lines|);
    FetchGap(code, vm.counter);
  }

  /** A floating label, passed by thread t */
  lemma FloatingTurn(lines: seq<Line>, ops: DataOps, p: Process<Src>, p': Process<Vm>, t: nat)
    requires AllFit(lines, |lines|) && Turning(lines, p, p', t)
    requires 1 <= SrcOf(p, t).line <= |lines| && lines[SrcOf(p, t).line - 1].instr.None?
    ensures SourceTurn(ops, AsRead(lines), p, t).Next?
    ensures var q := SourceTurn(ops, AsRead(lines), p, t).s;
      Turning(lines, q, p', t) && SrcOf(q, t).line == SrcOf(p, t).line + 1
  {
    hide Related, LineAsRead, ProcessRelated, SourceStep;
    var s, vm := SrcOf(p, t), VmOf(p', t);
    FloatingStep(lines, ops, s, vm);
    var s' := s.(line := s.line + 1);
    assert ThreadRelated(lines, Running(s'), p.store, p'.threads[t], p'.store);
    AfterRelated(lines, p, p', t, Running(s'), p'.threads[t], None, None, p.store, p'.store);
    assert After(p'.threads, t, p'.threads[t], None) == p'.threads;
  }

  lemma {:induction false} SkipFloats(lines: seq<Line>, ops: DataOps, p0: Process<Src>, schedule: seq<nat>,
                                      p: Process<Src>, p': Process<Vm>, t: nat)
    returns (more: seq<nat>, q: Process<Src>)
    requires AllFit(lines, |lines|) && SourceTurns(ops, AsRead(lines), p0, schedule) == Next(p)
    requires Turning(lines, p, p', t)
    ensures SourceTurns(ops, AsRead(lines), p0, more) == Next(q) && Turning(lines, q, p', t)
    ensures var s := SrcOf(q, t); s.line == 0 || s.line > |lines| || AtInstruction(lines, s)
    decreases if SrcOf(p, t).line <= |lines| then |lines| - SrcOf(p, t).line + 1 else 0
  {
    hide Turning, SourceTurn, SourceTurns, LineAsRead;
    InTurn(lines, p, p', t);
    var s := SrcOf(p, t);
    if 1 <= s.line <= |lines| && lines[s.line - 1].instr.None? {
      FloatingTurn(lines, ops, p, p', t);
      SourceTurnsMore(ops, AsRead(lines), p0, schedule, t);
      var next := SourceTurn(ops, AsRead(lines), p, t).s;
      InTurn(lines, next, p', t);
      more, q := SkipFloats(lines, ops, p0, schedule + [t], next, p', t);
      InTurn(lines, q, p', t);
    } else {
      more, q := schedule, p;
    }
  }

  lemma InTurn(lines: seq<Line>, p: Process<Src>, p': Process<Vm>, t: nat)
    requires Turning(lines, p, p', t)
    ensures ProcessRelated(lines, p, p') && t < |p.threads| && t < |p'.threads|
    ensures p.threads[t].Running? && p'.threads[t].Running? && Related(lines, SrcOf(p, t), VmOf(p', t))
  {
  }

  lemma TakesTurn(lines: seq<Line>, p: Process<Src>, p': Process<Vm>, t: nat)
    requires ProcessRelated(lines, p, p') && t < |p.threads| && p.threads[t].Running?
    ensures Turning(lines, p, p', t)
  {
    ThreadsPart(lines, p, p', t);
  }

  lemma {:induction false} SkipNoops(lines: seq<Line>, code: seq<byte>, ops: DataOps, ops': DataOps,
                                     p0': Process<Vm>, schedule: seq<nat>, p: Process<Src>, p': Process<Vm>, t: nat)
    returns (more: seq<nat>, q': Process<Vm>)
    requires Assembled(lines, code, ops, ops') && MachineTurns(ops', code, p0', schedule) == Next(p')
    requires Turning(lines, p, p', t)
    ensures MachineTurns(ops', code, p0', more) == Next(q') && Turning(lines, p, q', t)
    ensures VmOf(q', t).counter == PlaceOf(lines, SrcOf(p, t).line)
    decreases PlaceOf(lines, SrcOf(p, t).line) - VmOf(p', t).counter
  {
    hide Turning, Assembled, MachineTurn, MachineTurns, PlaceOf;
    InTurn(lines, p, p', t);
    if VmOf(p', t).counter < PlaceOf(lines, SrcOf(p, t).line) {
      PaddingTurn(lines, code, ops, ops', p, p', t);
      MachineTurnsMore(ops', code, p0', schedule, t);
      var next := MachineTurn(ops', code, p', t).s;
      InTurn(lines, p, next, t);
      more, q' := SkipNoops(lines, code, ops, ops', p0', schedule + [t], p, next, t);
      InTurn(lines, p, q', t);
    } else {
      CounterWithin(lines, SrcOf(p, t), VmOf(p', t));
      more, q' := schedule, p';
    }
  }

  // ---------- whole schedules ----------

  /** A turn of the bytecode is matched by some turns of the same thread over the lines. */
  lemma TurnMatched(lines: seq<Line>, code: seq<byte>, ops: DataOps, ops': DataOps,
                    p0: Process<Src>, schedule: seq<nat>, p: Process<Src>, p': Process<Vm>, t: nat)
    returns (more: seq<nat>)
    requires Assembled(lines, code, ops, ops')
    requires AllFit(lines, |lines|) && SourceTurns(ops, AsRead(lines), p0, schedule) == Next(p)
    requires ProcessRelated(lines, p, p')
    ensures MachineTurn(ops', code, p', t) != Stalled ==>
      ProcessesRelated(lines, SourceTurns(ops, AsRead(lines), p0, more), MachineTurn(ops', code, p', t))
    ensures MachineTurn(ops', code, p', t) == Stalled ==>
      && SourceTurns(ops, AsRead(lines), p0, more).Next?
      && SelfTransfers(lines, ops, SourceTurns(ops, AsRead(lines), p0, more).s, t)
  {
    hide Assembled, ProcessRelated, Related, SourceTurns, SourceTurn, MachineTurn, LineAsRead, TransfersToSelf, PlaceOf;
    hide Turning;
    if t >= |p.threads| || p.threads[t].Ended? {
      NoTurn(lines, code, ops, ops', p, p', t);
      return schedule;
    }
    TakesTurn(lines, p, p', t);
    var q;
    more, q := SkipFloats(lines, ops, p0, schedule, p, p', t);
    InTurn(lines, q, p', t);
    CounterWithin(lines, SrcOf(q, t), VmOf(p', t));
    if VmOf(p', t).counter < PlaceOf(lines, SrcOf(q, t).line) {
      PaddingTurn(lines, code, ops, ops', q, p', t);
      InTurn(lines, q, MachineTurn(ops', code, p', t).s, t);
    } else {
      FullTurn(lines, code, ops, ops', q, p', t);
      if MachineTurn(ops', code, p', t) != Stalled {
        SourceTurnsMore(ops, AsRead(lines), p0, more, t);
        more := more + [t];
      }
    }
  }

  /** Thread t has come to an instruction that transfers control to its own address. */
  ghost predicate SelfTransfers(lines: seq<Line>, ops: DataOps, p: Process<Src>, t: nat)
    requires AllFit(lines, |lines|)
  {
    t < |p.threads| && p.threads[t].Running? && TransfersToSelf(lines, ops, SrcOf(p, t))
  }

  lemma NoTurn(lines: seq<Line>, code: seq<byte>, ops: DataOps, ops': DataOps,
               p: Process<Src>, p': Process<Vm>, t: nat)
    requires AllFit(lines, |lines|) && ProcessRelated(lines, p, p') && (t >= |p.threads| || p.threads[t].Ended?)
    ensures SourceTurn(ops, AsRead(lines), p, t) == Next(p) && MachineTurn(ops', code, p', t) == Next(p')
  {
    if t < |p.threads| {
      ThreadsPart(lines, p, p', t);
    }
  }

  /** With the counter where the line is, thread t takes the same turn in both processes. */
  lemma FullTurn(lines: seq<Line>, code: seq<byte>, ops: DataOps, ops': DataOps,
                 p: Process<Src>, p': Process<Vm>, t: nat)
    requires Assembled(lines, code, ops, ops') && Turning(lines, p, p', t)
    requires var s := SrcOf(p, t); s.line == 0 || s.line > |lines| || AtInstruction(lines, s)
    requires VmOf(p', t).counter == PlaceOf(lines, SrcOf(p, t).line)
    ensures AllFit(lines, |lines|)
    ensures MachineTurn(ops', code, p', t) == Stalled <==> SelfTransfers(lines, ops, p, t)
    ensures MachineTurn(ops', code, p', t) != Stalled ==>
      ProcessesRelated(lines, SourceTurn(ops, AsRead(lines), p, t), MachineTurn(ops', code, p', t))
  {
    hide Assembled, ProcessRelated, Related, SourceTurn, MachineTurn, LandsOnItself, LineAsRead, Position;
    if AtInstruction(lines, SrcOf(p, t)) {
      InstructionTurn(lines, code, ops, ops', p, p', t);
    } else {
      GuardTurn(lines, code, ops, ops', p, p', t);
    }
  }

  /** Every schedule of the bytecode's threads that does not stall is matched by one of the threads over
      the lines; one that stalls, by one that comes to a transfer to its own address. */
  lemma {:induction false} ScheduleMatched(lines: seq<Line>, code: seq<byte>, ops: DataOps, ops': DataOps,
                                           p0: Process<Src>, p0': Process<Vm>, schedule': seq<nat>)
    returns (schedule: seq<nat>, t: nat)
    requires Assembled(lines, code, ops, ops') && AllFit(lines, |lines|) && ProcessRelated(lines, p0, p0')
    ensures var end' := MachineTurns(ops', code, p0', schedule');
            var end := SourceTurns(ops, AsRead(lines), p0, schedule);
      if end' == Stalled then end.Next? && SelfTransfers(lines, ops, end.s, t) else ProcessesRelated(lines, end, end')
    decreases |schedule'|
  {
    hide Assembled, ProcessRelated, SourceTurn, MachineTurn, SelfTransfers, LineAsRead;
    if schedule' == [] {
      schedule, t := [], 0;
    } else {
      var last := |schedule'| - 1;
      schedule, t := ScheduleMatched(lines, code, ops, ops', p0, p0', schedule'[..last]);
      var before := MachineTurns(ops', code, p0', schedule'[..last]);
      if before.Next? {
        var p := SourceTurns(ops, AsRead(lines), p0, schedule).s;
        t := schedule'[last];
        schedule := TurnMatched(lines, code, ops, ops', p0, schedule, p, before.s, t);
      }
    }
  }

  /** A turn over the lines is matched by some turns of the same thread of the bytecode. */
  lemma TurnReflected(lines: seq<Line>, code: seq<byte>, ops: DataOps, ops': DataOps,
                      p0': Process<Vm>, schedule: seq<nat>, p: Process<Src>, p': Process<Vm>, t: nat)
    returns (more: seq<nat>)
    requires Assembled(lines, code, ops, ops') && AllFit(lines, |lines|)
    requires MachineTurns(ops', code, p0', schedule) == Next(p') && ProcessRelated(lines, p, p')
    ensures if SelfTransfers(lines, ops, p, t) then MachineTurns(ops', code, p0', more) == Stalled
            else ProcessesRelated(lines, SourceTurn(ops, AsRead(lines), p, t), MachineTurns(ops', code, p0', more))
  {
    hide Assembled, ProcessRelated, Related, SourceTurn, MachineTurn, MachineTurns, LineAsRead, PlaceOf, Turning;
    hide LandsOnItself;
    if t >= |p.threads| || p.threads[t].Ended? {
      NoTurn(lines, code, ops, ops', p, p', t);
      return schedule;
    }
    TakesTurn(lines, p, p', t);
    InTurn(lines, p, p', t);
    var s := SrcOf(p, t);
    if 1 <= s.line <= |lines| && lines[s.line - 1].instr.None? {
      FloatingTurn(lines, ops, p, p', t);
      InTurn(lines, SourceTurn(ops, AsRead(lines), p, t).s, p', t);
      more := schedule;
    } else {
      var q';
      more, q' := SkipNoops(lines, code, ops, ops', p0', schedule, p, p', t);
      FullTurn(lines, code, ops, ops', p, q', t);
      MachineTurnsMore(ops', code, p0', more, t);
      more := more + [t];
    }
  }

  /** Every schedule of the threads over the lines is matched by one of the bytecode's threads, unless it
      comes to a transfer to its own address and stalls. */
  lemma {:induction false} ScheduleReflected(lines: seq<Line>, code: seq<byte>, ops: DataOps, ops': DataOps,
                                             p0: Process<Src>, p0': Process<Vm>, schedule: seq<nat>)
    returns (schedule': seq<nat>)
    requires Assembled(lines, code, ops, ops') && AllFit(lines, |lines|) && ProcessRelated(lines, p0, p0')
    ensures var end' := MachineTurns(ops', code, p0', schedule');
      end' == Stalled || ProcessesRelated(lines, SourceTurns(ops, AsRead(lines), p0, schedule), end')
    decreases |schedule|
  {
    hide Assembled, ProcessRelated, SourceTurn, MachineTurn, SelfTransfers, LineAsRead;
    if schedule == [] {
      schedule' := [];
    } else {
      var last := |schedule| - 1;
      schedule' := ScheduleReflected(lines, code, ops, ops', p0, p0', schedule[..last]);
      var before := SourceTurns(ops, AsRead(lines), p0, schedule[..last]);
      var before' := MachineTurns(ops', code, p0', schedule');
      if before.Next? && before' != Stalled {
        schedule' := TurnReflected(lines, code, ops, ops', p0', schedule', before.s, before'.s, schedule[last]);
      }
    }
  }

  // ---------- whole processes ----------

  /** Where the schedule of the bytecode's threads ends, some schedule of the threads over the lines is. */
  ghost predicate MachineMatched(lines: seq<Line>, code: seq<byte>, ops: DataOps, ops': DataOps,
                                 p0: Process<Src>, p0': Process<Vm>, schedule': seq<nat>)
    requires AllFit(lines, |lines|)
  {
    exists schedule ::
      ProcessesRelated(lines, SourceTurns(ops, AsRead(lines), p0, schedule), MachineTurns(ops', code, p0', schedule'))
  }

  /** Where the schedule of the threads over the lines ends, some schedule of the bytecode's threads is. */
  ghost predicate SourceMatched(lines: seq<Line>, code: seq<byte>, ops: DataOps, ops': DataOps,
                                p0: Process<Src>, p0': Process<Vm>, schedule: seq<nat>)
    requires AllFit(lines, |lines|)
  {
    exists schedule' ::
      ProcessesRelated(lines, SourceTurns(ops, AsRead(lines), p0, schedule), MachineTurns(ops', code, p0', schedule'))
  }

  ghost predicate ComesToSelfTransfer(lines: seq<Line>, ops: DataOps, p0: Process<Src>, schedule: seq<nat>, t: nat)
    requires AllFit(lines, |lines|)
  {
    var end := SourceTurns(ops, AsRead(lines), p0, schedule);
    end.Next? && SelfTransfers(lines, ops, end.s, t)
  }

  /** A process starts with one thread at the entry point. */
  lemma StartsRelated(lines: seq<Line>, code: seq<byte>, ops: DataOps, ops': DataOps, stack: seq<Value>,
                      stack': seq<Value>, store: map<nat, Value>, store': map<nat, Value>)
    requires Assembled(lines, code, ops, ops')
    requires StackRelated(lines, stack, stack') && MapRelated(lines, store, store')
    ensures ProcessRelated(lines, Process([Running(SourceEntry(StartLine(lines), stack, store))], store),
                           Process([Running(Entry(Start(lines), stack', store'))], store'))
  {
    StartDenotes(lines);
  }

  /** Any number of threads, started by each other and taking turns in any order, mean the same over the
      bytecode of an accepted program as over its lines as they are read: each schedule of either is
      matched by one of the other, with all threads and the shared objects related, unless it stalls;
      and some schedule stalls just when in some schedule a thread over the lines comes to an
      instruction that transfers control to its own address. */
  lemma ProcessesKeepTheirMeaning(lines: seq<Line>, code: seq<byte>, ops: DataOps, ops': DataOps,
                                  p0: Process<Src>, p0': Process<Vm>)
    requires Assembled(lines, code, ops, ops') && ProcessRelated(lines, p0, p0')
    ensures AllFit(lines, |lines|)
    ensures forall schedule' :: MachineTurns(ops', code, p0', schedule') != Stalled ==>
      MachineMatched(lines, code, ops, ops', p0, p0', schedule')
    ensures forall schedule ::
      || SourceMatched(lines, code, ops, ops', p0, p0', schedule)
      || exists schedule' :: MachineTurns(ops', code, p0', schedule') == Stalled
    ensures (exists schedule' :: MachineTurns(ops', code, p0', schedule') == Stalled)
       <==> (exists schedule, t :: ComesToSelfTransfer(lines, ops, p0, schedule, t))
  {
    hide Assembled, ProcessRelated, SourceTurns, MachineTurns, ProcessesRelated, SelfTransfers;
    AssembledFits(lines, code, ops, ops');
    forall schedule' | MachineTurns(ops', code, p0', schedule') != Stalled
      ensures MachineMatched(lines, code, ops, ops', p0, p0', schedule')
    {
      var schedule, t := ScheduleMatched(lines, code, ops, ops', p0, p0', schedule');
    }
    forall schedule
      ensures SourceMatched(lines, code, ops, ops', p0, p0', schedule)
           || exists schedule' :: MachineTurns(ops', code, p0', schedule') == Stalled
    {
      var schedule' := ScheduleReflected(lines, code, ops, ops', p0, p0', schedule);
    }
    if schedule' :| MachineTurns(ops', code, p0', schedule') == Stalled {
      var schedule, t := ScheduleMatched(lines, code, ops, ops', p0, p0', schedule');
      assert ComesToSelfTransfer(lines, ops, p0, schedule, t);
    }
    if schedule, t :| ComesToSelfTransfer(lines, ops, p0, schedule, t) {
      var schedule' := SelfTransferStalls(lines, code, ops, ops', p0, p0', schedule, t);
    }
  }

  lemma SelfTransferStalls(lines: seq<Line>, code: seq<byte>, ops: DataOps, ops': DataOps,
                           p0: Process<Src>, p0': Process<Vm>, schedule: seq<nat>, t: nat)
    returns (schedule': seq<nat>)
    requires Assembled(lines, code, ops, ops') && AllFit(lines, |lines|) && ProcessRelated(lines, p0, p0')
    requires ComesToSelfTransfer(lines, ops, p0, schedule, t)
    ensures MachineTurns(ops', code, p0', schedule') == Stalled
  {
    hide Assembled, ProcessRelated, SourceTurns, MachineTurns, SelfTransfers;
    schedule' := ScheduleReflected(lines, code, ops, ops', p0, p0', schedule);
    var end, end' := SourceTurns(ops, AsRead(lines), p0, schedule), MachineTurns(ops', code, p0', schedule');
    if end' != Stalled {
      schedule' := TurnReflected(lines, code, ops, ops', p0', schedule', end.s, end'.s, t);
    }
  }

  // ---------- safe processes ----------

  /** Every thread is where it can be, and the shared objects hold known functions only. */
  ghost predicate CarefulProcess(lines: seq<Line>, functions: set<nat>, p: Process<Src>)
    requires AllFit(lines, |lines|)
  {
    && KnownMap(functions, p.store)
    && forall t: nat :: t < |p.threads| && p.threads[t].Running? ==> Careful(lines, functions, SrcOf(p, t))
  }

  lemma CarefulElsewhere(lines: seq<Line>, functions: set<nat>, s: Src, store: map<nat, Value>)
    requires AllFit(lines, |lines|) && Careful(lines, functions, s) && KnownMap(functions, store)
    ensures Careful(lines, functions, SrcIn(s, store))
  {
    hide Nested;
  }

  lemma ChildCareful(lines: seq<Line>, functions: set<nat>, ops: DataOps, s: Src)
    requires AllFit(lines, |lines|) && KnownData(functions, s.data)
    ensures var c := SourceChild(ops, AsRead(lines), s); c.Some? ==> Careful(lines, functions, c.value)
  {
    hide Coro, LineAsRead, SourceArg;
    if AtInstruction(lines, s) {
      CoroKnown(functions, ops, SourceInsn(AsRead(lines), s.line - 1), s.data);
    }
  }

  lemma TurnCareful(lines: seq<Line>, functions: set<nat>, ops: DataOps, p: Process<Src>, t: nat)
    requires AllFit(lines, |lines|) && Safe(lines, functions) && OpsHarmless(functions, ops)
    requires CarefulProcess(lines, functions, p)
    ensures var end := SourceTurn(ops, AsRead(lines), p, t); end.Next? ==> CarefulProcess(lines, functions, end.s)
  {
    hide Safe, OpsHarmless, SourceStep, SourceChild, Nested, KnownMap;
    if t < |p.threads| && p.threads[t].Running? {
      var s := SrcOf(p, t);
      var outcome := SourceStep(ops, AsRead(lines), s);
      if outcome.Next? {
        StaysCareful(lines, functions, ops, s);
        ChildCareful(lines, functions, ops, s);
        var q, store := SourceTurn(ops, AsRead(lines), p, t).s, outcome.s.data.store;
        forall u: nat | u < |q.threads| && q.threads[u].Running?
          ensures Careful(lines, functions, SrcOf(q, u))
        {
          if u == t {
            assert SrcOf(q, u) == outcome.s;
          } else if u < |p.threads| {
            CarefulElsewhere(lines, functions, SrcOf(p, u), store);
          } else {
            CarefulElsewhere(lines, functions, q.threads[u].s, store);
          }
        }
      }
    }
  }

  lemma {:induction false} TurnsCareful(lines: seq<Line>, functions: set<nat>, ops: DataOps, p: Process<Src>,
                                        schedule: seq<nat>)
    requires AllFit(lines, |lines|) && Safe(lines, functions) && OpsHarmless(functions, ops)
    requires CarefulProcess(lines, functions, p)
    ensures var end := SourceTurns(ops, AsRead(lines), p, schedule);
      end.Next? ==> CarefulProcess(lines, functions, end.s)
    decreases |schedule|
  {
    hide Safe, OpsHarmless, SourceTurn, CarefulProcess;
    if schedule != [] {
      var last := |schedule| - 1;
      TurnsCareful(lines, functions, ops, p, schedule[..last]);
      var before := SourceTurns(ops, AsRead(lines), p, schedule[..last]);
      if before.Next? {
        TurnCareful(lines, functions, ops, before.s, schedule[last]);
      }
    }
  }

  /** The threads of a safe program never stall, whatever the schedule, so that each schedule of theirs and
      each of the threads over the lines is matched by one of the other. */
  lemma SafeProcessesKeepTheirMeaning(lines: seq<Line>, functions: set<nat>, code: seq<byte>, ops: DataOps,
                                      ops': DataOps, p0: Process<Src>, p0': Process<Vm>)
    requires Assembled(lines, code, ops, ops') && ProcessRelated(lines, p0, p0')
    requires AllFit(lines, |lines|) && Safe(lines, functions) && OpsHarmless(functions, ops)
    requires CarefulProcess(lines, functions, p0)
    ensures forall schedule' :: MachineTurns(ops', code, p0', schedule') != Stalled
    ensures forall schedule' :: MachineMatched(lines, code, ops, ops', p0, p0', schedule')
    ensures forall schedule :: SourceMatched(lines, code, ops, ops', p0, p0', schedule)
  {
    hide Assembled, ProcessRelated, SourceTurns, MachineTurns, Safe, OpsHarmless, LandsOnItself;
    forall schedule: seq<nat>, t: nat
      ensures !ComesToSelfTransfer(lines, ops, p0, schedule, t)
    {
      TurnsCareful(lines, functions, ops, p0, schedule);
      var end := SourceTurns(ops, AsRead(lines), p0, schedule);
      if end.Next? && t < |end.s.threads| && end.s.threads[t].Running? {
        NoSelfTransfer(lines, functions, ops, SrcOf(end.s, t));
      }
    }
    hide MachineMatched, SourceMatched;
    ProcessesKeepTheirMeaning(lines, code, ops, ops', p0, p0');
    assert forall schedule' :: MachineTurns(ops', code, p0', schedule') != Stalled;
  }
}
