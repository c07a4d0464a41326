/** What each instruction does, byte by byte: one turn of the dispatch loop, said of the bytecode at the
    counter, the data and the return stack. */
module Instructions {
  import opened Wrappers
  import opened Words
  import opened Bytecode
  import opened Machine

  /** The counter stands at the opcode, and so many bytes of the instruction are there. */
  predicate Stands(code: seq<byte>, vm: Vm, op: opcode, size: nat)
  {
    vm.counter + size <= |code| < INT64_SPAN && size > 0 && code[vm.counter] == op
  }

  /** The turn changes the data to d, leaves the return stack alone and moves on by so many bytes. */
  ghost predicate MovesOn(vm: Vm, d: Data, size: nat, end: Outcome<Vm>)
  {
    end == Next(Vm(vm.counter + size, d, vm.frames))
  }

  /** The turn puts one value on the data stack, changes nothing else and moves on by so many bytes. */
  ghost predicate Pushes(vm: Vm, v: Value, size: nat, end: Outcome<Vm>)
  {
    MovesOn(vm, Data(vm.data.stack + [v], vm.data.scopes, vm.data.store), size, end)
  }

  /** The turn changes the data to d and the return stack to frames, and goes to the target: but one that goes
      nowhere fails the dispatch loop's assertion. */
  ghost predicate GoesTo(vm: Vm, d: Data, frames: seq<Frame>, target: nat, end: Outcome<Vm>)
  {
    end == if target == vm.counter then Stalled else Next(Vm(target, d, frames))
  }

  lemma Moved(counter: nat, incr: int)
    requires -0x8000_0000 <= incr < 0x8000_0000 && 0 <= counter + incr < INT64_SPAN
    ensures ToInt32(incr) == incr && (counter + ToInt32(incr)) % INT64_SPAN == counter + incr
  {
    ToInt32Exact(incr);
    RemainderUnique(counter + incr, INT64_SPAN, 0, counter + incr);
  }

  // ---------- literals ----------

  lemma BytePushes(ops: DataOps, code: seq<byte>, vm: Vm)
    requires Stands(code, vm, BYTE, 2)
    ensures Pushes(vm, Int(code[vm.counter + 1]), 2, Step(ops, code, vm))
  {
    Moved(vm.counter, 2);
  }

  lemma IntPushes(ops: DataOps, code: seq<byte>, vm: Vm, i: int64)
    requires Stands(code, vm, INT, 9) && WordAt(code, vm.counter + 1, 8, i)
    ensures Pushes(vm, Int(i), 9, Step(ops, code, vm))
  {
    hide WordAt, Load, Signed, ToInt32;
    SignedRoundTrip(code, vm.counter + 1, i);
    Moved(vm.counter, 9);
  }

  lemma FloatPushes(ops: DataOps, code: seq<byte>, vm: Vm, bits: word64)
    requires Stands(code, vm, FLOAT, 9) && WordAt(code, vm.counter + 1, 8, bits)
    ensures Pushes(vm, Float(bits), 9, Step(ops, code, vm))
  {
    hide WordAt, Load, Signed, ToInt32;
    WordLoads(code, vm.counter + 1, bits);
    Moved(vm.counter, 9);
  }

  lemma WordLoads(code: seq<byte>, at: nat, u: word64)
    requires at + 8 <= |code| && WordAt(code, at, 8, u)
    ensures Load(code, at, 8) == u
  {
    SpanValues();
    LoadStored(code, at, 8, u);
    RemainderUnique(u, INT64_SPAN, 0, u);
  }

  lemma StrPushes(ops: DataOps, code: seq<byte>, vm: Vm, length: nat)
    requires Stands(code, vm, STR, 2 + length) && code[vm.counter + 1] == length
    ensures Pushes(vm, Str(code[vm.counter + 2..vm.counter + 2 + length]), 2 + length, Step(ops, code, vm))
  {
    Moved(vm.counter, 2 + length);
  }

  lemma StringPushes(ops: DataOps, code: seq<byte>, vm: Vm, length: nat)
    requires Stands(code, vm, STRING, 5 + length) && 5 + length < 0x8000_0000
    requires WordAt(code, vm.counter + 1, 4, length)
    ensures Pushes(vm, Str(code[vm.counter + 5..vm.counter + 5 + length]), 5 + length, Step(ops, code, vm))
  {
    SpanValues();
    LoadStored(code, vm.counter + 1, 4, length);
    RemainderUnique(length, INT32_SPAN, 0, length);
    Moved(vm.counter, 5 + length);
  }

  lemma FunlitPushes(ops: DataOps, code: seq<byte>, vm: Vm, target: word64)
    requires Stands(code, vm, FUNLIT, 9) && WordAt(code, vm.counter + 1, 8, target)
    ensures Pushes(vm, Fun(target), 9, Step(ops, code, vm))
  {
    hide WordAt, Load, Signed, ToInt32;
    WordLoads(code, vm.counter + 1, target);
    Moved(vm.counter, 9);
  }

  // ---------- calls and returns ----------

  /** A call pushes a frame that resumes nine bytes on with the scopes there are now, and opens a scope. */
  lemma CallCalls(ops: DataOps, code: seq<byte>, vm: Vm, target: nat)
    requires Stands(code, vm, CALL, 9) && WordAt(code, vm.counter + 1, 8, target)
    requires vm.counter < 0x8000_0000 && target < 0x8000_0000
    ensures GoesTo(vm, Data(vm.data.stack, vm.data.scopes + [map[]], vm.data.store),
                   vm.frames + [Frame(vm.counter + 9, |vm.data.scopes|)], target, Step(ops, code, vm))
  {
    hide WordAt, Load, Signed, ToInt32;
    WordLoads(code, vm.counter + 1, target);
    Moved(vm.counter, target - vm.counter);
  }

  /** The same for the function on top of the stack, which comes off; anything else there fails. */
  lemma FrcallCalls(ops: DataOps, code: seq<byte>, vm: Vm)
    requires Stands(code, vm, FRCALL, 1) && vm.counter < 0x8000_0000
    ensures var s, n := vm.data.stack, |vm.data.stack|;
      if n == 0 || !s[n - 1].Fun? then Step(ops, code, vm) == Failed
      else s[n - 1].f < 0x8000_0000 ==>
        GoesTo(vm, Data(s[..n - 1], vm.data.scopes + [map[]], vm.data.store),
               vm.frames + [Frame(vm.counter + 1, |vm.data.scopes|)], s[n - 1].f, Step(ops, code, vm))
  {
    var s, n := vm.data.stack, |vm.data.stack|;
    if n > 0 && s[n - 1].Fun? && s[n - 1].f < 0x8000_0000 {
      Moved(vm.counter, s[n - 1].f - vm.counter);
    }
  }

  /** A return takes the top frame off, goes where it says and keeps as many scopes as it says. */
  lemma ReturnReturns(ops: DataOps, code: seq<byte>, vm: Vm)
    requires Stands(code, vm, RETURN, 1) && vm.counter < 0x8000_0000
    ensures var n := |vm.frames|;
      if n == 0 then Step(ops, code, vm) == Failed
      else vm.frames[n - 1].ret < 0x8000_0000 ==>
        var scopes := vm.data.scopes;
        var kept := if vm.frames[n - 1].depth < |scopes| then scopes[..vm.frames[n - 1].depth] else scopes;
        GoesTo(vm, Data(vm.data.stack, kept, vm.data.store), vm.frames[..n - 1], vm.frames[n - 1].ret,
               Step(ops, code, vm))
  {
    var n := |vm.frames|;
    if n > 0 && vm.frames[n - 1].ret < 0x8000_0000 {
      Moved(vm.counter, vm.frames[n - 1].ret - vm.counter);
    }
  }

  // ---------- branches ----------

  lemma BranchReads(code: seq<byte>, vm: Vm, op: opcode, offset: int)
    requires op == JMP || op == JMP0 || op == JMPU
    requires Stands(code, vm, op, 9) && WordAt(code, vm.counter + 1, 8, offset)
    requires -0x8000_0000 <= offset < 0x8000_0000
    ensures ReadInsn(code, vm.counter) == Some(Insn(op, Place(vm.counter + offset)))
  {
    hide WordAt, Load, Signed;
    SignedRoundTrip(code, vm.counter + 1, offset);
  }

  lemma JmpBranches(ops: DataOps, code: seq<byte>, vm: Vm, offset: int)
    requires Stands(code, vm, JMP, 9) && WordAt(code, vm.counter + 1, 8, offset)
    requires -0x8000_0000 <= offset < 0x8000_0000 && 0 <= vm.counter + offset < INT64_SPAN
    ensures GoesTo(vm, vm.data, vm.frames, vm.counter + offset, Step(ops, code, vm))
  {
    hide WordAt, ReadInsn, ToInt32;
    BranchReads(code, vm, JMP, offset);
    Moved(vm.counter, offset);
  }

  /** JMP0 takes its branch exactly on a false value: undefined, zero in any form, the empty string or "0". */
  lemma Jmp0Branches(ops: DataOps, code: seq<byte>, vm: Vm, offset: int, v: Value)
    requires Stands(code, vm, JMP0, 9) && WordAt(code, vm.counter + 1, 8, offset)
    requires -0x8000_0000 <= offset < 0x8000_0000 && 0 <= vm.counter + offset < INT64_SPAN
    requires vm.data.stack != [] && v == vm.data.stack[|vm.data.stack| - 1]
    ensures var d := Data(vm.data.stack[..|vm.data.stack| - 1], vm.data.scopes, vm.data.store);
      if || v == Undef || v == Int(0) || v == Float(0) || v == Float(0x8000_0000_0000_0000)
         || v == Str([]) || v == Str(['0' as int]) || v == Fun(0) || (v.Ref? && v.handle == 0)
      then GoesTo(vm, d, vm.frames, vm.counter + offset, Step(ops, code, vm))
      else MovesOn(vm, d, 9, Step(ops, code, vm))
  {
    hide WordAt, ReadInsn, ToInt32;
    BranchReads(code, vm, JMP0, offset);
    Moved(vm.counter, offset);
    Moved(vm.counter, 9);
    if v.Str? && |v.s| == 1 {
      assert v.s == [v.s[0]];
    }
  }

  /** JMPU takes its branch exactly on the undefined value. */
  lemma JmpuBranches(ops: DataOps, code: seq<byte>, vm: Vm, offset: int)
    requires Stands(code, vm, JMPU, 9) && WordAt(code, vm.counter + 1, 8, offset)
    requires -0x8000_0000 <= offset < 0x8000_0000 && 0 <= vm.counter + offset < INT64_SPAN && vm.data.stack != []
    ensures var d := Data(vm.data.stack[..|vm.data.stack| - 1], vm.data.scopes, vm.data.store);
      if vm.data.stack[|vm.data.stack| - 1] == Undef
      then GoesTo(vm, d, vm.frames, vm.counter + offset, Step(ops, code, vm))
      else MovesOn(vm, d, 9, Step(ops, code, vm))
  {
    hide WordAt, ReadInsn, ToInt32;
    BranchReads(code, vm, JMPU, offset);
    Moved(vm.counter, offset);
    Moved(vm.counter, 9);
  }

  /** Conditional branches assert that there is a value. */
  lemma BranchesAssert(ops: DataOps, code: seq<byte>, vm: Vm)
    requires (Stands(code, vm, JMP0, 9) || Stands(code, vm, JMPU, 9)) && vm.data.stack == []
    ensures Step(ops, code, vm) == Failed
  {
  }

  // ---------- new threads ----------

  /** What is handed over when the count on top of the stack is n: n values below it, in their order, none when
      n is not positive; the assertion fails when there are fewer. */
  lemma ParamsTaken(ops: DataOps, start: nat, d: Data, n: int)
    requires d.stack != [] && n == ops.count(d.stack[|d.stack| - 1])
    ensures var c, below := TakeParams(ops, start, d), |d.stack| - 1 - if n > 0 then n else 0;
      if below < 0 then c == None
      else c.Some? && c.value.start == start && c.value.rest == Data(d.stack[..below], d.scopes, d.store)
           && |c.value.params| == |d.stack| - 1 - below
           && forall i :: 0 <= i < |c.value.params| ==> c.value.params[i] == d.stack[below + i]
  {
  }

  /** CORO takes a count and as many parameters off the stack and goes on after its operand, which is where the
      new thread starts. */
  lemma CoroGoesOn(ops: DataOps, code: seq<byte>, vm: Vm, target: word64)
    requires Stands(code, vm, CORO, 9) && WordAt(code, vm.counter + 1, 8, target)
    ensures ReadInsn(code, vm.counter).Some?
    ensures var c := TakeParams(ops, target, vm.data);
      && Coro(ops, ReadInsn(code, vm.counter).value, vm.data) == c
      && if c == None then Step(ops, code, vm) == Failed
         else MovesOn(vm, c.value.rest, 9, Step(ops, code, vm))
  {
    hide WordAt, Load, ToInt32, ParamCount;
    WordLoads(code, vm.counter + 1, target);
    Moved(vm.counter, 9);
  }

  /** FRCORO does the same after it has taken the function to start at off the stack. */
  lemma FrcoroGoesOn(ops: DataOps, code: seq<byte>, vm: Vm)
    requires Stands(code, vm, FRCORO, 1) && vm.data.stack != [] && vm.data.stack[|vm.data.stack| - 1].Fun?
    ensures ReadInsn(code, vm.counter).Some?
    ensures var s, n := vm.data.stack, |vm.data.stack|;
      var c := TakeParams(ops, s[n - 1].f, Data(s[..n - 1], vm.data.scopes, vm.data.store));
      && Coro(ops, ReadInsn(code, vm.counter).value, vm.data) == c
      && if c == None then Step(ops, code, vm) == Failed
         else MovesOn(vm, c.value.rest, 1, Step(ops, code, vm))
  {
    Moved(vm.counter, 1);
  }

  // ---------- the rest ----------

  lemma EndsAndNoops(ops: DataOps, code: seq<byte>, vm: Vm)
    ensures vm.counter >= |code| ==> Step(ops, code, vm) == Halted(vm)
    ensures Stands(code, vm, END, 1) ==> Step(ops, code, vm) == Halted(vm)
    ensures Stands(code, vm, NOOP, 1) ==> MovesOn(vm, vm.data, 1, Step(ops, code, vm))
  {
  }

  /** How many bytes a data instruction takes up */
  function DataSize(op: opcode): nat
  {
    if op == SYMDEF then 13 else if op == SYMFIND || op == SYMCLONE || op == SYMUNDEF then 9
    else if op == OPEN then 2 else 1
  }

  /** Every instruction that is not mentioned above does to the data what it is given as doing, with the operand
      that stands behind its opcode, and moves on. */
  lemma DataOpMovesOn(ops: DataOps, code: seq<byte>, vm: Vm, op: opcode, arg: Arg)
    requires Stands(code, vm, op, DataSize(op))
    requires op !in {END, NOOP, CALL, CORO, RETURN, JMP, JMP0, JMPU, FRCALL, FRCORO}
    requires op !in {BYTE, INT, FLOAT, STR, STRING, FUNLIT}
    requires op == SYMDEF ==> arg == Symbol(Load(code, vm.counter + 1, 4), Load(code, vm.counter + 5, 8))
    requires op in {SYMFIND, SYMCLONE, SYMUNDEF} ==> arg == Num(Load(code, vm.counter + 1, 8))
    requires op == OPEN ==> arg == Num(code[vm.counter + 1])
    requires op !in {SYMDEF, SYMFIND, SYMCLONE, SYMUNDEF, OPEN} ==> arg == NoArg
    ensures var d := ops.apply(Insn(op, arg), vm.data);
      if d == None then Step(ops, code, vm) == Failed else MovesOn(vm, d.value, DataSize(op), Step(ops, code, vm))
  {
    Moved(vm.counter, DataSize(op));
  }
}
