/** Assembled bytecode, read back by the virtual machine's own rules, is the source program. */
module Decoding {
  import opened Wrappers
  import opened Words
  import opened Bytecode
  import opened Assembler
  import opened Machine

  // ---------- the source program as instructions ----------

  function Literal(line: Line): seq<byte>
    requires line.params != [] && line.params[0].StrParam?
  {
    line.params[0].buffer[..LiteralLength(line)]
  }

  /** The operand that line i asks for, in the source's own terms: labels become line numbers,
      counted from 1, and integers lose the bits their C type does not hold. */
  function SourceArg(lines: seq<Line>, i: nat): Arg
    requires i < |lines| && lines[i].instr.Some? && OperandsFit(lines[i])
  {
    var op, ps := lines[i].instr.value, lines[i].params;
    if op == CALL || op == CORO || op == FUNLIT || op == JMP || op == JMP0 || op == JMPU then
      Place(1 + DefinedAt(lines, ps[0].name, 0))
    else if op == BYTE || op == OPEN then Num(ps[0].i % 256)
    else if op == INT then Num(ps[0].i)
    else if op == FLOAT then Num(ps[0].bits)
    else if op == STR || op == STRING then Text(Literal(lines[i]))
    else if op == SYMDEF then Symbol(ps[0].i % INT32_SPAN, ps[1].i % INT64_SPAN)
    else if op == SYMFIND || op == SYMUNDEF then Num(ps[0].i % INT64_SPAN)
    else if op == SYMCLONE then
      if ps != [] && ps[0].IntParam? then Num(ps[0].i % INT64_SPAN) else NoArg
    else NoArg
  }

  function SourceInsn(lines: seq<Line>, i: nat): Insn
    requires i < |lines| && lines[i].instr.Some? && OperandsFit(lines[i])
  {
    Insn(lines[i].instr.value, SourceArg(lines, i))
  }

  /** The byte position of line number k. Line 0 and any number past the last line stand for the
      guards at the two ends. */
  function PlaceOf(lines: seq<Line>, k: nat): nat
  {
    if k == 0 then 0
    else if k <= |lines| then Position(lines, k - 1)
    else Position(lines, |lines|)
  }

  function RelocArg(lines: seq<Line>, arg: Arg): Arg
  {
    if arg.Place? && arg.at >= 0 then Place(PlaceOf(lines, arg.at)) else arg
  }

  function RelocInsn(lines: seq<Line>, insn: Insn): Insn
  {
    Insn(insn.op, RelocArg(lines, insn.arg))
  }

  const UNWRITTEN: int64 := 0x0101_0101_0101_0101

  /** The line's operand survives assembly: an STR literal has at most 255 bytes, a STRING literal
      less than 2^32, and SYMCLONE, whose operand bytes are left as eight NOOPs, asks for exactly
      the identifier those bytes spell. */
  predicate Representable(line: Line)
  {
    match line.instr
    case None => true
    case Some(op) =>
      && (op == STR ==> LiteralLength(line) <= 255)
      && (op == STRING ==> LiteralLength(line) < INT32_SPAN)
      && (op == SYMCLONE ==> line.params != [] && line.params[0] == IntParam(UNWRITTEN))
  }

  predicate AllRepresentable(lines: seq<Line>)
  {
    forall i {:trigger Representable(lines[i])} :: 0 <= i < |lines| ==> Representable(lines[i])
  }

  /** The line as the machine gets to see it: a literal keeps what its length prefix counts, and
      SYMCLONE asks for the identifier that eight NOOPs spell. */
  function LineAsRead(line: Line): (r: Line)
    ensures r.defines == line.defines && r.instr == line.instr
    ensures OperandsFit(line) ==> OperandsFit(r)
    ensures Representable(line) ==> r == line
  {
    if Representable(line) then line
    else if line.instr == Some(SYMCLONE) then line.(params := [IntParam(UNWRITTEN)])
    else
      var size := if line.instr == Some(STR) then 1 else 4;
      var buffer := line.params[0].buffer;
      line.(params := line.params[0 := StrParam(buffer[..Prefixed(size, StrLen(buffer, 0))])])
  }

  /** The program as the machine gets to see it */
  function AsRead(lines: seq<Line>): (program: seq<Line>)
    ensures |program| == |lines| && forall i :: 0 <= i < |lines| ==> program[i] == LineAsRead(lines[i])
    ensures AllFit(lines, |lines|) ==> AllFit(program, |program|)
  {
    seq(|lines|, i requires 0 <= i < |lines| => LineAsRead(lines[i]))
  }

  /** Every displacement between two lines fits C's int. */
  predicate FitsInt(lines: seq<Line>)
  {
    EndBefore(lines, |lines|) < 0x8000_0000
  }

  // ---------- reading one line back ----------

  lemma PositionInCode(lines: seq<Line>, k: nat)
    requires k <= |lines| && FitsInt(lines)
    ensures EndBefore(lines, k) <= Position(lines, k) <= EndBefore(lines, |lines|) < 0x8000_0000
  {
    if k < |lines| {
      Extent(lines, k);
      EndBeforeMonotone(lines, k + 1, |lines|);
    }
  }

  lemma ReadAbsolute(code: seq<byte>, p: nat, op: opcode, target: nat)
    requires op == CALL || op == CORO || op == FUNLIT
    requires target < 0x8000_0000 && p + 9 <= |code| && WordAt(code, p + 1, 8, target)
    ensures ReadArg(code, p, op) == Some(Place(target))
  {
    SpanValues();
    LoadStored(code, p + 1, 8, target);
    RemainderUnique(target, INT64_SPAN, 0, target);
  }

  lemma ReadRelative(code: seq<byte>, p: nat, op: opcode, target: nat)
    requires op == JMP || op == JMP0 || op == JMPU
    requires p < 0x8000_0000 && target < 0x8000_0000
    requires p + 9 <= |code| && WordAt(code, p + 1, 8, target - p)
    ensures ReadArg(code, p, op) == Some(Place(target))
  {
    SignedRoundTrip(code, p + 1, target - p);
  }

  /** A branch's operand is read back as the position of its label's line. */
  lemma ReadPlace(lines: seq<Line>, i: nat, code: seq<byte>, op: opcode)
    requires LabelsDefined(lines) && FitsInt(lines)
    requires i < |lines| && lines[i].instr == Some(op) && OperandsFit(lines[i])
    requires op == CALL || op == CORO || op == FUNLIT || op == JMP || op == JMP0 || op == JMPU
    requires Position(lines, i) + 9 <= |code| && OperandAt(lines, i, code, Position(lines, i) + 1)
    ensures ReadArg(code, Position(lines, i), op) == Some(RelocArg(lines, SourceArg(lines, i)))
  {
    var k := DefinedAt(lines, lines[i].params[0].name, 0);
    assert LabelKnown(lines, lines[i].params[0]);
    PositionInCode(lines, k);
    PositionInCode(lines, i);
    assert RelocArg(lines, SourceArg(lines, i)) == Place(Position(lines, k));
    if op == CALL || op == CORO || op == FUNLIT {
      ReadAbsolute(code, Position(lines, i), op, Position(lines, k));
    } else {
      ReadRelative(code, Position(lines, i), op, Position(lines, k));
    }
  }

  lemma ReadWord(code: seq<byte>, p: nat, op: opcode, v: int)
    requires op == FLOAT || op == SYMFIND || op == SYMUNDEF
    requires p + 9 <= |code| && WordAt(code, p + 1, 8, v)
    ensures ReadArg(code, p, op) == Some(Num(v % INT64_SPAN))
    ensures 0 <= v < INT64_SPAN ==> ReadArg(code, p, op) == Some(Num(v))
  {
    SpanValues();
    LoadStored(code, p + 1, 8, v);
    if 0 <= v < INT64_SPAN {
      RemainderUnique(v, INT64_SPAN, 0, v);
    }
  }

  lemma ReadSymbol(code: seq<byte>, p: nat, flags: int, identifier: int)
    requires p + 13 <= |code| && WordAt(code, p + 1, 4, flags) && WordAt(code, p + 5, 8, identifier)
    ensures ReadArg(code, p, SYMDEF) == Some(Symbol(flags % INT32_SPAN, identifier % INT64_SPAN))
  {
    SpanValues();
    LoadStored(code, p + 1, 4, flags);
    LoadStored(code, p + 5, 8, identifier);
  }

  lemma ReadByte(code: seq<byte>, p: nat, op: opcode, v: int)
    requires op == BYTE || op == OPEN
    requires p + 2 <= |code| && WordAt(code, p + 1, 1, v)
    ensures ReadArg(code, p, op) == Some(Num(v % 256))
  {
  }

  lemma ReadNumber(lines: seq<Line>, i: nat, code: seq<byte>, p: nat, op: opcode)
    requires i < |lines| && lines[i].instr == Some(op) && OperandsFit(lines[i])
    requires op == BYTE || op == OPEN || op == INT || op == FLOAT
    requires p + InstructionSize(op) <= |code| && OperandAt(lines, i, code, p + 1)
    ensures ReadArg(code, p, op) == Some(SourceArg(lines, i))
  {
    var ps := lines[i].params;
    if op == BYTE || op == OPEN {
      ReadByte(code, p, op, ps[0].i);
    } else if op == INT {
      SignedRoundTrip(code, p + 1, ps[0].i);
    } else {
      ReadWord(code, p, op, ps[0].bits);
    }
  }

  lemma ReadName(lines: seq<Line>, i: nat, code: seq<byte>, p: nat, op: opcode)
    requires i < |lines| && lines[i].instr == Some(op) && OperandsFit(lines[i])
    requires op == SYMFIND || op == SYMUNDEF || op == SYMDEF
    requires p + InstructionSize(op) <= |code| && OperandAt(lines, i, code, p + 1)
    ensures ReadArg(code, p, op) == Some(SourceArg(lines, i))
  {
    var ps := lines[i].params;
    if op == SYMDEF {
      ReadSymbol(code, p, ps[0].i, ps[1].i);
    } else {
      ReadWord(code, p, op, ps[0].i);
    }
  }

  lemma LoadPrefix(code: seq<byte>, at: nat, size: nat, length: nat)
    requires at + size <= |code| && WordAt(code, at, size, length)
    ensures Load(code, at, size) == Prefixed(size, length)
  {
    LoadStored(code, at, size, length);
    if length < Span(size) {
      RemainderUnique(length, Span(size), 0, length);
    }
  }

  /** A string literal is read back as the part of it that its length prefix can count. */
  lemma ReadText(code: seq<byte>, p: nat, op: opcode, size: nat, buffer: seq<byte>)
    requires (op == STR && size == 1) || (op == STRING && size == 4)
    requires TextAt(code, p + 1, size, buffer)
    ensures p < |code|
    ensures ReadArg(code, p, op) == Some(Text(buffer[..Prefixed(size, StrLen(buffer, 0))]))
  {
    var kept := Prefixed(size, StrLen(buffer, 0));
    LoadPrefix(code, p + 1, size, StrLen(buffer, 0));
    assert code[p + 1 + size..p + 1 + size + kept] == buffer[..kept];
    if op == STR {
      assert Load(code, p + 1, 1) == code[p + 1];
    }
  }

  lemma {:induction false} LoadNoops(code: seq<byte>, at: nat, n: nat)
    requires n <= 8 && at + n <= |code| && NoopsIn(code, at, at + n)
    ensures Load(code, at, n) == Repeated(n)
    decreases n
  {
    if n > 0 {
      LoadNoops(code, at + 1, n - 1);
    }
  }

  function Repeated(n: nat): nat
  {
    if n == 0 then 0 else NOOP + 256 * Repeated(n - 1)
  }

  lemma ReadClone(code: seq<byte>, p: nat)
    requires p + 9 <= |code| && NoopsIn(code, p + 1, p + 9)
    ensures ReadArg(code, p, SYMCLONE) == Some(Num(UNWRITTEN))
  {
    LoadNoops(code, p + 1, 8);
  }

  predicate MayBeCut(op: opcode)
  {
    op == STR || op == STRING || op == SYMCLONE
  }

  /** The operand of every instruction but the string literals and SYMCLONE is read back. */
  lemma PlainLineReadsBack(lines: seq<Line>, i: nat, code: seq<byte>, op: opcode)
    requires LabelsDefined(lines) && FitsInt(lines)
    requires i < |lines| && lines[i].instr == Some(op) && OperandsFit(lines[i]) && !MayBeCut(op)
    requires Position(lines, i) + InstructionSize(op) <= |code|
    requires OperandAt(lines, i, code, Position(lines, i) + 1)
    ensures ReadArg(code, Position(lines, i), op) == Some(RelocArg(lines, SourceArg(lines, i)))
  {
    if op == CALL || op == CORO || op == FUNLIT || op == JMP || op == JMP0 || op == JMPU {
      ReadPlace(lines, i, code, op);
    } else if op == BYTE || op == OPEN || op == INT || op == FLOAT {
      ReadNumber(lines, i, code, Position(lines, i), op);
    } else if op == SYMFIND || op == SYMUNDEF || op == SYMDEF {
      ReadName(lines, i, code, Position(lines, i), op);
    }
  }

  // ---------- the program as it is read ----------

  lemma {:induction false} StrLenOfPrefix(buffer: seq<byte>, k: nat, from: nat)
    requires from <= |buffer| && from <= k <= from + StrLen(buffer, from)
    ensures k <= |buffer| && StrLen(buffer[..k], from) == k - from
    decreases k - from
  {
    if from < k {
      StrLenOfPrefix(buffer, k, from + 1);
    }
  }

  /** What is kept of a literal is the literal exactly when its prefix can count it. */
  lemma PrefixKeepsAll(buffer: seq<byte>, size: nat)
    ensures var length := StrLen(buffer, 0);
            buffer[..Prefixed(size, length)] == buffer[..length] <==> length < Span(size)
  {
    var length := StrLen(buffer, 0);
    if length >= Span(size) {
      assert |buffer[..Prefixed(size, length)]| < Span(size);
    }
  }

  /** The literal of the line as it is read */
  lemma LiteralAsRead(line: Line, size: nat)
    requires line.params != [] && line.params[0].StrParam?
    requires (line.instr == Some(STR) && size == 1) || (line.instr == Some(STRING) && size == 4)
    ensures var read, buffer := LineAsRead(line), line.params[0].buffer;
      && read.params != [] && read.params[0].StrParam?
      && Literal(read) == buffer[..Prefixed(size, StrLen(buffer, 0))]
      && LiteralLength(read) == Prefixed(size, LiteralLength(line))
  {
    SpanValues();
    var buffer := line.params[0].buffer;
    StrLenOfPrefix(buffer, Prefixed(size, StrLen(buffer, 0)), 0);
  }

  lemma {:induction false} LabelsAsRead(lines: seq<Line>, name: string, i: nat)
    requires i <= |lines|
    ensures DefinedAt(AsRead(lines), name, i) == DefinedAt(lines, name, i)
    decreases |lines| - i
  {
    if i < |lines| {
      LabelsAsRead(lines, name, i + 1);
    }
  }

  /** Nothing but those operands is lost: the program as read asks for the same in every other one. */
  lemma ArgAsRead(lines: seq<Line>, i: nat)
    requires i < |lines| && lines[i].instr.Some? && OperandsFit(lines[i])
    ensures SourceArg(AsRead(lines), i) == SourceArg(lines, i) <==> Representable(lines[i])
  {
    var op := lines[i].instr.value;
    if op == STR || op == STRING {
      var size := if op == STR then 1 else 4;
      SpanValues();
      LiteralAsRead(lines[i], size);
      PrefixKeepsAll(lines[i].params[0].buffer, size);
    } else if lines[i].params != [] && lines[i].params[0].LocParam? {
      LabelsAsRead(lines, lines[i].params[0].name, 0);
    } else if lines[i].params != [] && lines[i].params[0].OffParam? {
      LabelsAsRead(lines, lines[i].params[0].name, 0);
    }
  }

  /** A program is read as it stands exactly when all its operands survive assembly. */
  lemma ReadAsItStands(lines: seq<Line>)
    requires AllFit(lines, |lines|)
    ensures AllRepresentable(lines) ==> AsRead(lines) == lines
    ensures AsRead(lines) == lines ==> AllRepresentable(lines)
  {
    forall i | 0 <= i < |lines| && AsRead(lines) == lines
      ensures Representable(lines[i])
    {
      if lines[i].instr.Some? {
        assert OperandsFit(lines[i]);
        ArgAsRead(lines, i);
      }
    }
  }

  /** The operand of a string literal or of SYMCLONE is read as what is left of it. */
  lemma CutLineReadsBack(lines: seq<Line>, i: nat, code: seq<byte>, op: opcode)
    requires i < |lines| && lines[i].instr == Some(op) && OperandsFit(lines[i]) && MayBeCut(op)
    requires Position(lines, i) + InstructionSize(op) <= |code|
    requires OperandAt(lines, i, code, Position(lines, i) + 1)
    requires op == SYMCLONE ==> NoopsIn(code, Position(lines, i) + 1, Position(lines, i) + 9)
    ensures ReadArg(code, Position(lines, i), op) == Some(SourceArg(AsRead(lines), i))
  {
    if op == STR || op == STRING {
      var size := if op == STR then 1 else 4;
      ReadText(code, Position(lines, i), op, size, lines[i].params[0].buffer);
      LiteralAsRead(lines[i], size);
    } else {
      ReadClone(code, Position(lines, i));
    }
  }

  /** What the virtual machine reads at the position of line i is the instruction with its labels
      resolved. */
  ghost predicate ReadsAs(lines: seq<Line>, i: nat, code: seq<byte>, insn: Insn)
    requires i < |lines|
  {
    Position(lines, i) < |code| && ReadInsn(code, Position(lines, i)) == Some(RelocInsn(lines, insn))
  }

  lemma LineReadsBack(lines: seq<Line>, i: nat, code: seq<byte>, op: opcode)
    requires i < |lines| && LineAt(lines, i, code) && LabelsDefined(lines) && FitsInt(lines)
    requires lines[i].instr == Some(op) && OperandsFit(lines[i])
    ensures ReadsAs(lines, i, code, SourceInsn(AsRead(lines), i))
    ensures ReadsAs(lines, i, code, SourceInsn(lines, i)) <==> Representable(lines[i])
  {
    hide SourceArg;
    Extent(lines, i);
    OperandWidthFits(lines[i]);
    ArgAsRead(lines, i);
    if MayBeCut(op) {
      CutLineReadsBack(lines, i, code, op);
      NoPlace(lines, i);
    } else {
      PlainLineReadsBack(lines, i, code, op);
    }
  }

  /** Operands that may be cut are no places, so they do not depend on where lines are put. */
  lemma NoPlace(lines: seq<Line>, i: nat)
    requires i < |lines| && lines[i].instr.Some? && OperandsFit(lines[i]) && MayBeCut(lines[i].instr.value)
    ensures !SourceArg(lines, i).Place? && !SourceArg(AsRead(lines), i).Place?
  {
  }

  lemma AdvanceIsLength(lines: seq<Line>, i: nat)
    requires i < |lines| && lines[i].instr.Some? && OperandsFit(lines[i])
    ensures Advance(SourceInsn(lines, i)) == Length(lines[i])
  {
  }

  lemma AdvanceAnywhere(lines: seq<Line>, insn: Insn)
    ensures Advance(RelocInsn(lines, insn)) == Advance(insn)
  {
  }

  /** A line that needs alignment stands one byte before a four-byte boundary: the first such place
      its predecessors leave free. */
  lemma AlignedPosition(lines: seq<Line>, i: nat)
    requires i < |lines| && NeedsAlignment(lines[i])
    ensures Position(lines, i) % 4 == 3
    ensures forall p :: EndBefore(lines, i) <= p < Position(lines, i) ==> p % 4 != 3
  {
    var e := EndBefore(lines, i);
    assert Position(lines, i) == e + (3 - e % 4);
  }

  /** Every line of an accepted program is read, at its aligned position, as the instruction of the
      program as read with its labels resolved; that is the source instruction exactly when its
      operand is representable; and what lies between two lines is at most three NOOPs. */
  lemma DecodesBack(lines: seq<Line>, code: seq<byte>, i: nat)
    requires Accepted(lines) && IsImage(lines, code) && FitsInt(lines) && i < |lines|
    ensures EndBefore(lines, i) <= Position(lines, i) <= EndBefore(lines, i) + 3
    ensures NoopsIn(code, EndBefore(lines, i), Position(lines, i))
    ensures Position(lines, i) + Length(lines[i]) == EndBefore(lines, i + 1) < |code|
    ensures OperandsFit(lines[i])
    ensures lines[i].instr.Some? ==> ReadsAs(lines, i, code, SourceInsn(AsRead(lines), i))
    ensures lines[i].instr.Some? ==> (ReadsAs(lines, i, code, SourceInsn(lines, i)) <==> Representable(lines[i]))
  {
    assert LineAt(lines, i, code);
    Extent(lines, i);
    EndBeforeMonotone(lines, i + 1, |lines|);
    if lines[i].instr.Some? {
      LineReadsBack(lines, i, code, lines[i].instr.value);
    }
  }

  /** The same in the line's own terms, parameter by parameter: what the machine reads of a line with numbers,
      or without operands */
  lemma NumbersInTheirTerms(lines: seq<Line>, code: seq<byte>, i: nat, op: opcode)
    requires Accepted(lines) && IsImage(lines, code) && FitsInt(lines)
    requires i < |lines| && lines[i].instr == Some(op)
    ensures Position(lines, i) < |code| && OperandsFit(lines[i])
    ensures var read, ps := ReadInsn(code, Position(lines, i)), lines[i].params;
      && (op == BYTE || op == OPEN ==> read == Some(Insn(op, Num(ps[0].i % 256))))
      && (op == INT ==> read == Some(Insn(op, Num(ps[0].i))))
      && (op == FLOAT ==> read == Some(Insn(op, Num(ps[0].bits))))
      && (op == SYMDEF ==> read == Some(Insn(op, Symbol(ps[0].i % INT32_SPAN, ps[1].i % INT64_SPAN))))
      && (op == SYMFIND || op == SYMUNDEF ==> read == Some(Insn(op, Num(ps[0].i % INT64_SPAN))))
      && (op == SYMCLONE ==> read == Some(Insn(op, Num(UNWRITTEN))))
      && (!HasOperand(op) ==> read == Some(Insn(op, NoArg)))
  {
    hide ReadInsn, Position, LineAt, IsImage, LineAsRead, Advance, AsRead;
    DecodesBack(lines, code, i);
    if op == SYMCLONE {
      CutArgAsRead(lines, i);
    }
  }

  /** A string literal is read as the part of it before the first zero byte, of which STR keeps as many bytes as
      the length modulo 256 says. */
  lemma TextsInTheirTerms(lines: seq<Line>, code: seq<byte>, i: nat, op: opcode)
    requires Accepted(lines) && IsImage(lines, code) && FitsInt(lines)
    requires i < |lines| && lines[i].instr == Some(op) && (op == STR || op == STRING)
    ensures Position(lines, i) < |code| && OperandsFit(lines[i])
    ensures var buffer := lines[i].params[0].buffer;
      var length := if op == STR then StrLen(buffer, 0) % 256 else StrLen(buffer, 0);
      ReadInsn(code, Position(lines, i)) == Some(Insn(op, Text(buffer[..length])))
  {
    hide ReadInsn, Position, LineAt, IsImage, LineAsRead, Advance, SourceArg, AsRead, EndBefore;
    DecodesBack(lines, code, i);
    SpanValues();
    LiteralAsRead(lines[i], if op == STR then 1 else 4);
    if op == STRING {
      LaidOut(lines, i);
      EndBeforeMonotone(lines, i + 1, |lines|);
    }
    CutArgAsRead(lines, i);
  }

  /** A label is read as the position of the first line that defines it. */
  lemma LabelsInTheirTerms(lines: seq<Line>, code: seq<byte>, i: nat, op: opcode)
    requires Accepted(lines) && IsImage(lines, code) && FitsInt(lines)
    requires i < |lines| && lines[i].instr == Some(op) && NamesLabel(op)
    ensures Position(lines, i) < |code| && OperandsFit(lines[i]) && Mentioned(lines[i].params[0]).Some?
    ensures exists k ::
      && FirstDefines(lines, Mentioned(lines[i].params[0]).value, k)
      && ReadInsn(code, Position(lines, i)) == Some(Insn(op, Place(Position(lines, k))))
  {
    hide ReadInsn, Position, LineAt, IsImage, LineAsRead, Advance, AsRead;
    DecodesBack(lines, code, i);
    var param := lines[i].params[0];
    var k := DefinedAt(lines, param.name, 0);
    assert LabelKnown(lines, param);
    DefinedAtFirst(lines, param.name, 0);
    assert FirstDefines(lines, param.name, k);
  }

  predicate NamesLabel(op: opcode)
  {
    op == CALL || op == CORO || op == FUNLIT || op == JMP || op == JMP0 || op == JMPU
  }

  predicate HasOperand(op: opcode)
  {
    || NamesLabel(op) || op == BYTE || op == OPEN || op == INT || op == FLOAT || op == SYMDEF || op == SYMFIND
    || op == SYMUNDEF || op == SYMCLONE || op == STR || op == STRING
  }

  lemma CutArgAsRead(lines: seq<Line>, i: nat)
    requires i < |lines| && lines[i].instr.Some? && OperandsFit(lines[i])
    ensures lines[i].instr == Some(SYMCLONE) ==> SourceArg(AsRead(lines), i) == Num(UNWRITTEN)
    ensures lines[i].instr == Some(STR) || lines[i].instr == Some(STRING) ==>
      var read := LineAsRead(lines[i]);
      read.params != [] && read.params[0].StrParam? && SourceArg(AsRead(lines), i) == Text(Literal(read))
  {
  }

  /** The first position past what the machine reads of the first i lines */
  function ReadEnd(lines: seq<Line>, i: nat): (p: nat)
    requires i <= |lines|
    ensures p >= 1
  {
    if i == 0 then 1
    else if lines[i - 1].instr.None? then ReadEnd(lines, i - 1)
    else Position(lines, i - 1) + Length(LineAsRead(lines[i - 1]))
  }

  /** A line as read takes up at least what was written of it, and at most its length. */
  lemma LengthAsRead(line: Line)
    requires line.instr.Some? && OperandsFit(line)
    ensures 1 + OperandWidth(line) <= Length(LineAsRead(line)) <= Length(line)
  {
    SpanValues();
    if line.instr == Some(STR) {
      LiteralAsRead(line, 1);
    } else if line.instr == Some(STRING) {
      LiteralAsRead(line, 4);
    }
  }

  lemma ReadEndBounds(lines: seq<Line>, i: nat)
    requires i <= |lines| && AllFit(lines, |lines|)
    ensures ReadEnd(lines, i) <= EndBefore(lines, i) <= Position(lines, i)
  {
    if i > 0 {
      Extent(lines, i - 1);
      if lines[i - 1].instr.None? {
        ReadEndBounds(lines, i - 1);
      } else {
        assert OperandsFit(lines[i - 1]);
        LengthAsRead(lines[i - 1]);
      }
    }
    if i < |lines| {
      Extent(lines, i);
    }
  }

  /** From where the machine stops reading one line to the next one there are only NOOPs. */
  lemma {:induction false} PaddingIsNoops(lines: seq<Line>, code: seq<byte>, i: nat)
    requires i <= |lines| && AllFit(lines, |lines|) && IsImage(lines, code)
    ensures NoopsIn(code, ReadEnd(lines, i), Position(lines, i))
  {
    hide OperandAt, LineAsRead, Placed;
    if i < |lines| {
      assert LineAt(lines, i, code);
    }
    if i > 0 {
      assert LineAt(lines, i - 1, code);
      Extent(lines, i - 1);
      if lines[i - 1].instr.None? {
        PaddingIsNoops(lines, code, i - 1);
      } else {
        assert OperandsFit(lines[i - 1]);
        LengthAsRead(lines[i - 1]);
      }
    }
  }

  // ---------- sweeping the whole code ----------

  /** The instructions met by stepping through the code from p to the closing guard, leaving out
      the NOOPs */
  function Sweep(code: seq<byte>, p: nat): seq<Insn>
    decreases |code| - p
  {
    if p + 1 >= |code| then []
    else
      match ReadInsn(code, p)
      case None => []
      case Some(insn) =>
        if insn.op == NOOP then Sweep(code, p + 1) else [insn] + Sweep(code, p + Advance(insn))
  }

  /** The instructions of a program from line i on, labels resolved as in `lines`, leaving out the
      NOOPs */
  function Listing(lines: seq<Line>, program: seq<Line>, i: nat): seq<Insn>
    requires i <= |program| && AllFit(program, |program|)
    decreases |program| - i
  {
    if i == |program| then []
    else if program[i].instr.None? || program[i].instr.value == NOOP then Listing(lines, program, i + 1)
    else [RelocInsn(lines, SourceInsn(program, i))] + Listing(lines, program, i + 1)
  }

  lemma {:induction false} SweepNoops(code: seq<byte>, p: nat, q: nat)
    requires p <= q < |code| && NoopsIn(code, p, q)
    ensures Sweep(code, p) == Sweep(code, q)
    decreases q - p
  {
    if p < q {
      assert ReadInsn(code, p) == Some(Insn(NOOP, NoArg));
      SweepNoops(code, p + 1, q);
    }
  }

  lemma SweepInsn(code: seq<byte>, p: nat, insn: Insn)
    requires p + 1 < |code| && ReadInsn(code, p) == Some(insn)
    ensures var rest := Sweep(code, p + Advance(insn));
      Sweep(code, p) == if insn.op == NOOP then rest else [insn] + rest
  {
    hide ReadInsn;
  }

  /** The machine stops reading a line where its increment leads. */
  lemma ReadEndNext(lines: seq<Line>, i: nat)
    requires i < |lines| && lines[i].instr.Some? && OperandsFit(lines[i])
    ensures ReadEnd(lines, i + 1) == Position(lines, i) + Advance(RelocInsn(lines, SourceInsn(AsRead(lines), i)))
  {
    hide Position, Advance, SourceInsn, RelocInsn, Length;
    AdvanceIsLength(AsRead(lines), i);
    AdvanceAnywhere(lines, SourceInsn(AsRead(lines), i));
  }

  lemma SweepLine(lines: seq<Line>, code: seq<byte>, i: nat)
    requires Accepted(lines) && IsImage(lines, code) && FitsInt(lines) && i < |lines| && lines[i].instr.Some?
    ensures OperandsFit(lines[i])
    ensures var insn, rest := RelocInsn(lines, SourceInsn(AsRead(lines), i)), Sweep(code, ReadEnd(lines, i + 1));
      Sweep(code, ReadEnd(lines, i)) == if insn.op == NOOP then rest else [insn] + rest
  {
    hide Position, Length, Advance, SourceArg, RelocArg, ReadInsn;
    hide NoopsIn, Sweep, EndBefore, ReadEnd, LineAt, OperandsFit;
    PaddingIsNoops(lines, code, i);
    ReadEndBounds(lines, i);
    DecodesBack(lines, code, i);
    LengthPositive(lines[i]);
    SweepNoops(code, ReadEnd(lines, i), Position(lines, i));
    ReadEndNext(lines, i);
    SweepInsn(code, Position(lines, i), RelocInsn(lines, SourceInsn(AsRead(lines), i)));
  }

  lemma LengthPositive(line: Line)
    requires line.instr.Some?
    ensures Length(line) > 0
  {
  }

  lemma {:induction false} SweepFrom(lines: seq<Line>, code: seq<byte>, i: nat)
    requires Accepted(lines) && IsImage(lines, code) && FitsInt(lines)
    requires i <= |lines|
    ensures Sweep(code, ReadEnd(lines, i)) == Listing(lines, AsRead(lines), i)
    decreases |lines| - i
  {
    hide ReadInsn, LineAt, Advance, LineAsRead, SourceArg, RelocArg, OperandsFit, LabelsUnique, LabelsDefined;
    if i < |lines| {
      SweepFrom(lines, code, i + 1);
      if lines[i].instr.Some? {
        SweepLine(lines, code, i);
      }
    } else {
      PaddingIsNoops(lines, code, i);
      ReadEndBounds(lines, i);
      SweepNoops(code, ReadEnd(lines, i), Position(lines, i));
    }
  }

  /** Disassembling from byte 1 gives back the program as it is read: the same instructions in the
      same order with what is left of their operands. */
  lemma SweepIsListing(lines: seq<Line>, code: seq<byte>)
    requires Accepted(lines) && IsImage(lines, code) && FitsInt(lines)
    ensures Sweep(code, 1) == Listing(lines, AsRead(lines), 0)
    ensures AllRepresentable(lines) ==> Sweep(code, 1) == Listing(lines, lines, 0)
    ensures code[0] == code[|code| - 1] == END
  {
    SweepFrom(lines, code, 0);
    ReadAsItStands(lines);
  }
}
