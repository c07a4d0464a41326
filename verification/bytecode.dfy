/** The instruction set: opcode numbers, the size table generated from the operand comments of
    bytecode.h, and the shape of a decoded instruction. */
module Bytecode {
  import opened Words

  type opcode = b: byte | b < 94

  const END: opcode := 0
  const NOOP: opcode := 1
  const CALL: opcode := 2
  const CORO: opcode := 3
  const RETURN: opcode := 4
  const DROP: opcode := 5
  const SWAP: opcode := 6
  const DUP: opcode := 7
  const OVER: opcode := 8
  const NOT: opcode := 14
  const JMP: opcode := 15
  const JMP0: opcode := 16
  const JMPU: opcode := 17
  const SCALAR: opcode := 18
  const SYMDEF: opcode := 23
  const SYMFIND: opcode := 24
  const SYMCLONE: opcode := 25
  const SYMUNDEF: opcode := 26
  const SRREAD: opcode := 29
  const SRWRITE: opcode := 30
  const FRCALL: opcode := 52
  const FRCORO: opcode := 53
  const BYTE: opcode := 54
  const INT: opcode := 55
  const STR: opcode := 65
  const STRING: opcode := 66
  const FLOAT: opcode := 70
  const FUNLIT: opcode := 78
  const OPEN: opcode := 79
  const UNDEF: opcode := 86

  /** The size table: one byte of opcode plus the sizes named in the operand comment. Both
      kinds of string literal count only their length prefix here. */
  function InstructionSize(op: opcode): (n: nat)
    ensures n >= 1
  {
    if op == CALL || op == CORO || op == JMP || op == JMP0 || op == JMPU then 1 + 8
    else if op == SYMFIND || op == SYMCLONE || op == SYMUNDEF || op == INT || op == FLOAT || op == FUNLIT then 1 + 8
    else if op == SYMDEF then 1 + 4 + 8
    else if op == BYTE || op == STR || op == OPEN then 1 + 1
    else if op == STRING then 1 + 4
    else 1
  }

  /** The operand of an instruction. A Place is a point in the program: a line number in the
      source, a byte position in the bytecode. */
  datatype Arg =
    | NoArg
    | Num(n: int)
    | Text(s: seq<byte>)
    | Place(at: int)
    | Symbol(flags: nat, identifier: nat)

  datatype Insn = Insn(op: opcode, arg: Arg)
}
