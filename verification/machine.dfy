/** The virtual machine: reading instructions out of the bytecode and executing them. Control
    flow and literals are spelt out; the remaining instructions, which only touch data, are a
    parameter of the machine. */
module Machine {
  import opened Wrappers
  import opened Words
  import opened Bytecode

  /** A scalar: a reference carries its type tag and handle, a float its bit pattern, a function
      reference the place of the function. */
  datatype Value =
    | Undef
    | Int(i: int)
    | Float(bits: nat)
    | Str(s: seq<byte>)
    | Fun(f: nat)
    | Ref(kind: nat, handle: nat)

  /** What data instructions work on: the data stack (top last), the chain of scopes (innermost
      last) and the pooled objects. */
  datatype Data = Data(stack: seq<Value>, scopes: seq<map<nat, Value>>, store: map<nat, Value>)

  /** A return stack entry: where to resume, and how many scopes were open at the call */
  datatype Frame = Frame(ret: nat, depth: nat)

  datatype Vm = Vm(counter: nat, data: Data, frames: seq<Frame>)

  /** How one turn of the dispatch loop ends. Failed: an assertion inside the instruction failed.
      Stalled: the instruction returned an increment of zero, which the loop asserts against. */
  datatype Outcome<S> = Next(s: S) | Halted(s: S) | Failed | Stalled

  /** The instructions that only touch data, None when one of their assertions fails, and the number that a
      scalar stands for where one is asked for */
  datatype DataOps = DataOps(apply: (Insn, Data) -> Option<Data>, count: Value -> int)

  const NEGATIVE_ZERO: nat := 0x8000_0000_0000_0000

  predicate IsTrue(v: Value)
  {
    match v
    case Undef => false
    case Int(i) => i != 0
    case Float(bits) => bits != 0 && bits != NEGATIVE_ZERO
    case Str(s) => |s| > 1 || (|s| == 1 && s[0] != '0' as int)
    case Fun(f) => f != 0
    case Ref(_, handle) => handle != 0
  }

  // ---------- decoding ----------

  /** The instruction at p; None when the opcode is not an instruction or the operand runs past
      the end of the bytecode */
  function ReadInsn(code: seq<byte>, p: nat): Option<Insn>
    requires p < |code|
  {
    if code[p] >= 94 then None
    else
      var op: opcode := code[p];
      match ReadArg(code, p, op)
      case None => None
      case Some(arg) => Some(Insn(op, arg))
  }

  function ReadArg(code: seq<byte>, p: nat, op: opcode): Option<Arg>
    requires p < |code|
  {
    if op == CALL || op == CORO || op == FUNLIT then
      if p + 9 <= |code| then Some(Place(Load(code, p + 1, 8))) else None
    else if op == JMP || op == JMP0 || op == JMPU then
      if p + 9 <= |code| then Some(Place(p + Signed(8, Load(code, p + 1, 8)))) else None
    else if op == INT then
      if p + 9 <= |code| then Some(Num(Signed(8, Load(code, p + 1, 8)))) else None
    else if op == FLOAT || op == SYMFIND || op == SYMCLONE || op == SYMUNDEF then
      if p + 9 <= |code| then Some(Num(Load(code, p + 1, 8))) else None
    else if op == SYMDEF then
      if p + 13 <= |code|
      then Some(Symbol(Load(code, p + 1, 4), Load(code, p + 5, 8))) else None
    else if op == BYTE || op == OPEN then
      if p + 2 <= |code| then Some(Num(code[p + 1])) else None
    else if op == STR then
      if p + 2 <= |code| && p + 2 + code[p + 1] <= |code|
      then Some(Text(code[p + 2..p + 2 + code[p + 1]])) else None
    else if op == STRING then
      if p + 5 <= |code| && p + 5 + Load(code, p + 1, 4) <= |code|
      then Some(Text(code[p + 5..p + 5 + Load(code, p + 1, 4)])) else None
    else Some(NoArg)
  }

  /** How far on the next instruction is: the increment an instruction returns when it does not
      transfer control, and the distance to the return address that CALL and FRCALL save */
  function Advance(insn: Insn): nat
  {
    var op := insn.op;
    if op == CALL || op == CORO || op == JMP || op == JMP0 || op == JMPU then 1 + 8
    else if op == INT || op == FLOAT || op == FUNLIT then 1 + 8
    else if op == SYMFIND || op == SYMCLONE || op == SYMUNDEF then 1 + 8
    else if op == SYMDEF then 1 + 4 + 8
    else if op == BYTE || op == OPEN then 1 + 1
    else if op == STR then 1 + 1 + if insn.arg.Text? then |insn.arg.s| else 0
    else if op == STRING then 1 + 4 + if insn.arg.Text? then |insn.arg.s| else 0
    else 1
  }

  // ---------- execution ----------

  /** What an instruction function did: the new data and return stack, and its return value */
  datatype Effect = Effect(data: Data, frames: seq<Frame>, incr: int)

  function Pushed(d: Data, v: Value): Data
  {
    d.(stack := d.stack + [v])
  }

  function Popped(d: Data): Data
    requires d.stack != []
  {
    d.(stack := d.stack[..|d.stack| - 1])
  }

  function Top(d: Data): Value
    requires d.stack != []
  {
    d.stack[|d.stack| - 1]
  }

  function StartScope(d: Data): Data
  {
    d.(scopes := d.scopes + [map[]])
  }

  /** RETURN ends scopes until the saved one is on top or none is left. */
  function EndScopes(d: Data, depth: nat): Data
  {
    if depth < |d.scopes| then d.(scopes := d.scopes[..depth]) else d
  }

  /** A literal instruction's value */
  function LiteralValue(insn: Insn): Option<Value>
  {
    var op := insn.op;
    match insn.arg
    case Num(n) =>
      if op == BYTE || op == INT then Some(Int(n))
      else if op == FLOAT && n >= 0 then Some(Float(n))
      else None
    case Text(s) => if op == STR || op == STRING then Some(Str(s)) else None
    case Place(at) => if op == FUNLIT && at >= 0 then Some(Fun(at)) else None
    case _ => None
  }

  /** A new thread: where it starts, what is on its stack, and what is left to the thread that started it */
  datatype Child = Child(start: nat, params: seq<Value>, rest: Data)

  /** How many parameters are handed over: as many as the count on top of the stack says, none if it is not
      positive. None when fewer values are below it. */
  function ParamCount(ops: DataOps, d: Data): (n: Option<nat>)
    ensures n.Some? ==> n.value < |d.stack|
  {
    if d.stack == [] then None
    else
      var n := ops.count(Top(d));
      if n <= 0 then Some(0) else if n < |d.stack| then Some(n) else None
  }

  function TakeParams(ops: DataOps, start: nat, d: Data): Option<Child>
  {
    match ParamCount(ops, d)
    case None => None
    case Some(n) =>
      var below := |d.stack| - 1 - n;
      Some(Child(start, d.stack[below..below + n], d.(stack := d.stack[..below])))
  }

  /** CORO and FRCORO: the parameters keep their order. None when an assertion fails. */
  function Coro(ops: DataOps, insn: Insn, d: Data): Option<Child>
  {
    if insn.op == FRCORO then
      if d.stack == [] || !Top(d).Fun? then None else TakeParams(ops, Top(d).f, Popped(d))
    else TakeParams(ops, if insn.arg.Place? && insn.arg.at >= 0 then insn.arg.at else 0, d)
  }

  /** The instruction functions; None when one of their assertions fails */
  function Perform(ops: DataOps, insn: Insn, counter: nat, d: Data, frames: seq<Frame>): Option<Effect>
  {
    var op := insn.op;
    var dest := if insn.arg.Place? then insn.arg.at else 0;
    if op == CALL then
      Some(Effect(StartScope(d), frames + [Frame(counter + Advance(insn), |d.scopes|)], dest - counter))
    else if op == FRCALL then
      if d.stack == [] || !Top(d).Fun? then None
      else
        var frame := Frame(counter + Advance(insn), |d.scopes|);
        Some(Effect(StartScope(Popped(d)), frames + [frame], Top(d).f - counter))
    else if op == RETURN then
      if frames == [] then None
      else
        var frame := frames[|frames| - 1];
        Some(Effect(EndScopes(d, frame.depth), frames[..|frames| - 1], frame.ret - counter))
    else if op == JMP then
      Some(Effect(d, frames, dest - counter))
    else if op == JMP0 then
      if d.stack == [] then None
      else Some(Effect(Popped(d), frames, if IsTrue(Top(d)) then Advance(insn) else dest - counter))
    else if op == JMPU then
      if d.stack == [] then None
      else Some(Effect(Popped(d), frames, if Top(d) != Undef then Advance(insn) else dest - counter))
    else if op == CORO || op == FRCORO then
      match Coro(ops, insn, d)
      case None => None
      case Some(child) => Some(Effect(child.rest, frames, Advance(insn)))
    else if LiteralValue(insn).Some? then
      Some(Effect(Pushed(d, LiteralValue(insn).value), frames, Advance(insn)))
    else
      match ops.apply(insn, d)
      case None => None
      case Some(d') => Some(Effect(d', frames, Advance(insn)))
  }

  /** The body of the dispatch loop's switch. The increment passes through C's int. */
  function Dispatch(ops: DataOps, insn: Insn, vm: Vm): Outcome<Vm>
  {
    if insn.op == END then Halted(vm)
    else if insn.op == NOOP then Next(vm.(counter := vm.counter + 1))
    else
      match Perform(ops, insn, vm.counter, vm.data, vm.frames)
      case None => Failed
      case Some(e) =>
        if ToInt32(e.incr) == 0 then Stalled
        else Next(Vm((vm.counter + ToInt32(e.incr)) % INT64_SPAN, e.data, e.frames))
  }

  /** One turn of the dispatch loop */
  function Step(ops: DataOps, code: seq<byte>, vm: Vm): Outcome<Vm>
  {
    if vm.counter >= |code| then Halted(vm)
    else
      match ReadInsn(code, vm.counter)
      case None => Failed
      case Some(insn) => Dispatch(ops, insn, vm)
  }

  /** n turns of the dispatch loop; a run that has ended stays as it is */
  function Run(ops: DataOps, code: seq<byte>, vm: Vm, n: nat): Outcome<Vm>
  {
    if n == 0 then Next(vm)
    else
      match Run(ops, code, vm, n - 1)
      case Next(vm') => Step(ops, code, vm')
      case ended => ended
  }

  /** The state in which a thread enters the dispatch loop: a frame that returns to the END guard
      at position zero with no scope open, and one open scope */
  function Entry(start: nat, stack: seq<Value>, store: map<nat, Value>): Vm
  {
    Vm(start, Data(stack, [map[]], store), [Frame(0, 0)])
  }

  /** An execution context, and the dispatch loop over it */
  class Context {
    const code: seq<byte>
    const ops: DataOps
    var counter: nat
    var data: Data
    var frames: seq<Frame>

    constructor (ops: DataOps, code: seq<byte>, start: nat, stack: seq<Value>, store: map<nat, Value>)
      ensures this.code == code && this.ops == ops
      ensures State() == Entry(start, stack, store)
      ensures counter == start && data == Data(stack, [map[]], store) && frames == [Frame(0, 0)]
    {
      this.code, this.ops := code, ops;
      counter := start;
      data := Data(stack, [], store);
      frames := [Frame(0, 0)];
      new;
      data := StartScope(data);
    }

    ghost function State(): Vm
      reads this
    {
      Vm(counter, data, frames)
    }

    /** One turn of the dispatch loop. */
    method Turn() returns (outcome: Outcome<Vm>)
      modifies this
      ensures outcome == Step(ops, code, old(State()))
      ensures outcome.Next? ==> State() == outcome.s
      ensures !outcome.Next? ==> State() == old(State())
    {
      if counter >= |code| {
        return Halted(Vm(counter, data, frames));
      }
      var fetched := ReadInsn(code, counter);
      if fetched == None {
        return Failed;
      }
      var insn := fetched.value;
      if insn.op == END {
        return Halted(Vm(counter, data, frames));
      } else if insn.op == NOOP {
        counter := counter + 1;
      } else {
        var performed := Perform(ops, insn, counter, data, frames);
        if performed == None {
          return Failed;
        }
        var incr := ToInt32(performed.value.incr);
        if incr == 0 {
          return Stalled;
        }
        data, frames := performed.value.data, performed.value.frames;
        counter := (counter + incr) % INT64_SPAN;
      }
      outcome := Next(Vm(counter, data, frames));
    }

    /** Runs at most `turns` turns of the dispatch loop. */
    method Execute(turns: nat) returns (outcome: Outcome<Vm>)
      modifies this
      ensures outcome == Run(ops, code, old(State()), turns)
      ensures outcome.Next? || outcome.Halted? ==> outcome.s == State()
    {
      outcome := Next(Vm(counter, data, frames));
      var n := 0;
      while outcome.Next? && n < turns
        invariant n <= turns
        invariant outcome == Run(ops, code, old(State()), n)
        invariant outcome.Next? || outcome.Halted? ==> outcome.s == State()
      {
        outcome := Turn();
        n := n + 1;
      }
      if !outcome.Next? {
        RunEnded(ops, code, old(State()), n, turns);
      }
    }
  }

  lemma {:induction false} RunEnded(ops: DataOps, code: seq<byte>, vm: Vm, m: nat, n: nat)
    requires m <= n && !Run(ops, code, vm, m).Next?
    ensures Run(ops, code, vm, n) == Run(ops, code, vm, m)
    decreases n
  {
    if m < n {
      RunEnded(ops, code, vm, m, n - 1);
    }
  }

  /** Each state is one turn after the one before it. */
  ghost predicate IsTrace(ops: DataOps, code: seq<byte>, trace: seq<Vm>)
  {
    forall i :: 0 <= i < |trace| - 1 ==> Step(ops, code, trace[i]) == Next(trace[i + 1])
  }

  /** A run goes turn by turn from its first state; it has taken all its turns, or has ended with the turn from
      the last state it came to. */
  lemma {:induction false} RunIsTurnByTurn(ops: DataOps, code: seq<byte>, vm: Vm, n: nat) returns (trace: seq<Vm>)
    ensures 0 < |trace| <= n + 1 && trace[0] == vm && IsTrace(ops, code, trace)
    ensures var last := trace[|trace| - 1];
      if |trace| == n + 1 then Run(ops, code, vm, n) == Next(last)
      else Run(ops, code, vm, n) == Step(ops, code, last) && !Step(ops, code, last).Next?
  {
    hide Step;
    if n == 0 {
      trace := [vm];
    } else {
      trace := RunIsTurnByTurn(ops, code, vm, n - 1);
      var last := trace[|trace| - 1];
      if |trace| == n && Step(ops, code, last).Next? {
        trace := trace + [Step(ops, code, last).s];
      }
    }
  }
}
