/** The assembler: a list of parsed lines becomes padded bytecode with absolute call targets and
    relative jump offsets. */
module Assembler {
  import opened Wrappers
  import opened Words
  import opened Bytecode

  datatype Param =
    | IntParam(i: int64)
    | FloatParam(bits: word64)
    | StrParam(buffer: seq<byte>)
    | LocParam(name: string)
    | OffParam(name: string)

  /** A parsed line: an optional label definition, an optional instruction (a line without one is
      a floating label) and the instruction's parameters */
  datatype Line = Line(defines: Option<string>, instr: Option<opcode>, params: seq<Param>)

  datatype Output = Output(code: seq<byte>, start: nat)

  /** strlen: the number of bytes from `from` on that come before the first NUL */
  function StrLen(buffer: seq<byte>, from: nat): (n: nat)
    requires from <= |buffer|
    ensures from + n <= |buffer|
    ensures forall i :: from <= i < from + n ==> buffer[i] != 0
    ensures from + n == |buffer| || buffer[from + n] == 0
    decreases |buffer| - from
  {
    if from == |buffer| || buffer[from] == 0 then 0 else 1 + StrLen(buffer, from + 1)
  }

  // ---------- layout ----------

  /** The length of the line's string literal, if that is what its first parameter is */
  function LiteralLength(line: Line): nat
  {
    if line.params != [] && line.params[0].StrParam? then StrLen(line.params[0].buffer, 0) else 0
  }

  function Length(line: Line): nat
  {
    match line.instr
    case None => 0
    case Some(op) =>
      InstructionSize(op) + if op == STR || op == STRING then LiteralLength(line) else 0
  }

  /** Instructions longer than two bytes start one byte before a four-byte boundary, so that
      their operand is aligned; STR is exempt. */
  predicate NeedsAlignment(line: Line)
  {
    Length(line) > 2 && line.instr != Some(STR)
  }

  function Align(p: nat): (q: nat)
    ensures p <= q <= p + 3
  {
    p + (3 - p % 4)
  }

  /** Where a line goes when the lines before it end just before p */
  function Placed(line: Line, p: nat): (q: nat)
    ensures p <= q <= p + 3
  {
    if NeedsAlignment(line) then Align(p) else p
  }

  /** The first free position after the first i lines */
  function EndBefore(lines: seq<Line>, i: nat): (p: nat)
    requires i <= |lines|
    ensures p >= 1
  {
    if i == 0 then 1 else Placed(lines[i - 1], EndBefore(lines, i - 1)) + Length(lines[i - 1])
  }

  /** The position of line i; past the last line, the position of the closing guard */
  function Position(lines: seq<Line>, i: nat): (p: nat)
    requires i <= |lines|
  {
    if i < |lines| then Placed(lines[i], EndBefore(lines, i)) else EndBefore(lines, i)
  }

  lemma Extent(lines: seq<Line>, i: nat)
    requires i < |lines|
    ensures EndBefore(lines, i) <= Position(lines, i) <= EndBefore(lines, i) + 3
    ensures Position(lines, i) + Length(lines[i]) == EndBefore(lines, i + 1)
  {
  }

  /** Where the layout loop puts a line: past what comes before it, and for an instruction of more than two
      bytes that is not STR on to the next place that is 3 modulo 4; and how long it makes the line. */
  lemma LaidOut(lines: seq<Line>, i: nat)
    requires i < |lines|
    ensures EndBefore(lines, 0) == 1
    ensures lines[i].instr.None? ==> Length(lines[i]) == 0
    ensures lines[i].instr.Some? && !(lines[i].params != [] && lines[i].params[0].StrParam?) ==>
      Length(lines[i]) == InstructionSize(lines[i].instr.value)
    ensures lines[i].instr == Some(STR) && lines[i].params != [] && lines[i].params[0].StrParam? ==>
      Length(lines[i]) == 2 + StrLen(lines[i].params[0].buffer, 0)
    ensures lines[i].instr == Some(STRING) && lines[i].params != [] && lines[i].params[0].StrParam? ==>
      Length(lines[i]) == 5 + StrLen(lines[i].params[0].buffer, 0)
    ensures if Length(lines[i]) > 2 && lines[i].instr != Some(STR)
            then Position(lines, i) % 4 == 3 && Position(lines, i) - EndBefore(lines, i) < 4
            else Position(lines, i) == EndBefore(lines, i)
    ensures Position(lines, i) + Length(lines[i]) == EndBefore(lines, i + 1)
  {
    var p := EndBefore(lines, i);
    assert p + (3 - p % 4) == p / 4 * 4 + 3;
  }

  lemma {:induction false} EndBeforeMonotone(lines: seq<Line>, i: nat, j: nat)
    requires i <= j <= |lines|
    ensures EndBefore(lines, i) <= EndBefore(lines, j)
    decreases j
  {
    if i < j {
      EndBeforeMonotone(lines, i, j - 1);
      Extent(lines, j - 1);
    }
  }

  // ---------- labels ----------

  /** Index of the first line, from i on, that defines the label; |lines| when there is none */
  function DefinedAt(lines: seq<Line>, name: string, i: nat): (k: nat)
    requires i <= |lines|
    ensures i <= k <= |lines|
    decreases |lines| - i
  {
    if i == |lines| || lines[i].defines == Some(name) then i else DefinedAt(lines, name, i + 1)
  }

  lemma {:induction false} DefinedAtFirst(lines: seq<Line>, name: string, i: nat)
    requires i <= |lines|
    ensures var k := DefinedAt(lines, name, i);
      && (k < |lines| ==> lines[k].defines == Some(name))
      && (forall j :: i <= j < k ==> lines[j].defines != Some(name))
    decreases |lines| - i
  {
    if i < |lines| && lines[i].defines != Some(name) {
      DefinedAtFirst(lines, name, i + 1);
    }
  }

  function LabelPosition(lines: seq<Line>, name: string): nat
  {
    Position(lines, DefinedAt(lines, name, 0))
  }

  function Mentioned(param: Param): Option<string>
  {
    match param
    case LocParam(l) => Some(l)
    case OffParam(l) => Some(l)
    case _ => None
  }

  /** No label is defined by two lines. */
  predicate LabelsUnique(lines: seq<Line>)
  {
    forall i, j :: 0 <= i < j < |lines| && lines[i].defines.Some? ==> lines[j].defines != lines[i].defines
  }

  /** Every label that a parameter mentions is defined by some line. */
  predicate LabelsDefined(lines: seq<Line>)
  {
    forall i, j :: 0 <= i < |lines| && 0 <= j < |lines[i].params| ==>
      LabelKnown(lines, lines[i].params[j])
  }

  predicate LabelKnown(lines: seq<Line>, param: Param)
  {
    Mentioned(param).Some? ==> DefinedAt(lines, Mentioned(param).value, 0) < |lines|
  }

  // ---------- what is accepted ----------

  /** The line carries the parameters its instruction requires. Instructions of one byte ignore
      theirs, and so does SYMCLONE, for which emission has no case. */
  predicate OperandsFit(line: Line)
  {
    match line.instr
    case None => true
    case Some(op) =>
      var ps := line.params;
      if op == BYTE || op == OPEN || op == INT || op == SYMFIND || op == SYMUNDEF then
        ps != [] && ps[0].IntParam?
      else if op == CALL || op == CORO || op == FUNLIT then ps != [] && ps[0].LocParam?
      else if op == FLOAT then ps != [] && ps[0].FloatParam?
      else if op == STR || op == STRING then ps != [] && ps[0].StrParam?
      else if op == JMP || op == JMP0 || op == JMPU then ps != [] && ps[0].OffParam?
      else if op == SYMDEF then |ps| >= 2 && ps[0].IntParam? && ps[1].IntParam?
      else true
  }

  predicate AllFit(lines: seq<Line>, n: nat)
    requires n <= |lines|
  {
    forall i {:trigger OperandsFit(lines[i])} :: 0 <= i < n ==> OperandsFit(lines[i])
  }

  lemma AllFitNext(lines: seq<Line>, n: nat)
    requires n < |lines|
    ensures AllFit(lines, n + 1) <==> AllFit(lines, n) && OperandsFit(lines[n])
  {
  }

  /** The programs the assembler accepts */
  predicate Accepted(lines: seq<Line>)
  {
    LabelsUnique(lines) && LabelsDefined(lines) && AllFit(lines, |lines|)
  }

  // ---------- what is emitted ----------

  /** What a length prefix of so many bytes says of a string of this length */
  function Prefixed(size: nat, length: nat): (kept: nat)
    ensures kept <= length
  {
    if length < Span(size) then length else length % Span(size)
  }

  /** A string behind a length prefix of so many bytes; a string longer than the prefix can say is
      cut short. */
  predicate TextAt(code: seq<byte>, at: nat, size: nat, buffer: seq<byte>)
  {
    var length := StrLen(buffer, 0);
    && WordAt(code, at, size, length)
    && at + size + Prefixed(size, length) <= |code|
    && forall k :: 0 <= k < Prefixed(size, length) ==> code[at + size + k] == buffer[k]
  }

  /** How many operand bytes are written for the line */
  function OperandWidth(line: Line): nat
  {
    match line.instr
    case None => 0
    case Some(op) =>
      if op == STR then 1 + Prefixed(1, LiteralLength(line))
      else if op == STRING then 4 + Prefixed(4, LiteralLength(line))
      else if op == SYMCLONE then 0
      else InstructionSize(op) - 1
  }

  /** The operand of line i, as stored from `at` on */
  predicate OperandAt(lines: seq<Line>, i: nat, code: seq<byte>, at: nat)
    requires i < |lines| && lines[i].instr.Some? && OperandsFit(lines[i])
  {
    var op, ps := lines[i].instr.value, lines[i].params;
    if op == BYTE || op == OPEN then WordAt(code, at, 1, ps[0].i)
    else if op == CALL || op == CORO || op == FUNLIT then WordAt(code, at, 8, LabelPosition(lines, ps[0].name))
    else if op == INT || op == SYMFIND || op == SYMUNDEF then WordAt(code, at, 8, ps[0].i)
    else if op == FLOAT then WordAt(code, at, 8, ps[0].bits)
    else if op == STR then TextAt(code, at, 1, ps[0].buffer)
    else if op == STRING then TextAt(code, at, 4, ps[0].buffer)
    else if op == JMP || op == JMP0 || op == JMPU then
      WordAt(code, at, 8, LabelPosition(lines, ps[0].name) - Position(lines, i))
    else if op == SYMDEF then WordAt(code, at, 4, ps[0].i) && WordAt(code, at + 4, 8, ps[1].i)
    else true
  }

  predicate NoopsIn(code: seq<byte>, from: nat, to: nat)
  {
    to <= |code| && forall p :: from <= p < to ==> code[p] == NOOP
  }

  /** Line i stands at its position in the code: NOOPs up to the position, the opcode, the operand,
      and NOOPs over what the line's length leaves unwritten. */
  predicate LineAt(lines: seq<Line>, i: nat, code: seq<byte>)
    requires i < |lines|
  {
    var position, end := Position(lines, i), EndBefore(lines, i + 1);
    && end <= |code|
    && NoopsIn(code, EndBefore(lines, i), position)
    && (lines[i].instr.Some? ==>
         && position < end
         && code[position] == lines[i].instr.value
         && OperandsFit(lines[i])
         && OperandAt(lines, i, code, position + 1)
         && NoopsIn(code, position + 1 + OperandWidth(lines[i]), end))
  }

  /** The code is the image of the program: every line at its position, between two END guards. */
  predicate IsImage(lines: seq<Line>, code: seq<byte>)
  {
    && |code| == EndBefore(lines, |lines|) + 1
    && code[0] == END && code[|code| - 1] == END
    && forall i {:trigger LineAt(lines, i, code)} :: 0 <= i < |lines| ==> LineAt(lines, i, code)
  }

  /** Where execution starts: at the label main, if there is one, else at byte 1 */
  function Start(lines: seq<Line>): nat
  {
    var k := DefinedAt(lines, "main", 0);
    if k < |lines| then Position(lines, k) else 1
  }

  /** The first line that defines the label */
  ghost predicate FirstDefines(lines: seq<Line>, name: string, k: nat)
  {
    k < |lines| && lines[k].defines == Some(name) && forall j :: 0 <= j < k ==> lines[j].defines != Some(name)
  }

  lemma StartsAtMain(lines: seq<Line>)
    ensures (exists k :: FirstDefines(lines, "main", k) && Start(lines) == Position(lines, k))
         || ((forall k :: 0 <= k < |lines| ==> lines[k].defines != Some("main")) && Start(lines) == 1)
  {
    DefinedAtFirst(lines, "main", 0);
    var k := DefinedAt(lines, "main", 0);
    assert k < |lines| ==> FirstDefines(lines, "main", k);
  }

  predicate Same(code: seq<byte>, code': seq<byte>, from: nat, to: nat)
  {
    to <= |code| && to <= |code'| && forall p :: from <= p < to ==> code[p] == code'[p]
  }

  lemma OperandAtFrame(lines: seq<Line>, i: nat, code: seq<byte>, code': seq<byte>, at: nat)
    requires i < |lines| && lines[i].instr.Some? && OperandsFit(lines[i])
    requires OperandAt(lines, i, code, at)
    requires Same(code, code', at, at + OperandWidth(lines[i]))
    ensures OperandAt(lines, i, code', at)
  {
    var op, ps := lines[i].instr.value, lines[i].params;
    if op == BYTE || op == OPEN {
      WordAtFrame(code, code', at, 1, ps[0].i);
    } else if op == CALL || op == CORO || op == FUNLIT {
      WordAtFrame(code, code', at, 8, LabelPosition(lines, ps[0].name));
    } else if op == INT || op == SYMFIND || op == SYMUNDEF {
      WordAtFrame(code, code', at, 8, ps[0].i);
    } else if op == FLOAT {
      WordAtFrame(code, code', at, 8, ps[0].bits);
    } else if op == STR {
      WordAtFrame(code, code', at, 1, LiteralLength(lines[i]));
    } else if op == STRING {
      WordAtFrame(code, code', at, 4, LiteralLength(lines[i]));
    } else if op == JMP || op == JMP0 || op == JMPU {
      WordAtFrame(code, code', at, 8, LabelPosition(lines, ps[0].name) - Position(lines, i));
    } else if op == SYMDEF {
      WordAtFrame(code, code', at, 4, ps[0].i);
      WordAtFrame(code, code', at + 4, 8, ps[1].i);
    }
  }

  lemma OperandWidthFits(line: Line)
    ensures line.instr.Some? ==> 1 + OperandWidth(line) <= Length(line)
  {
  }

  lemma LineAtFrame(lines: seq<Line>, i: nat, code: seq<byte>, code': seq<byte>)
    requires i < |lines| && LineAt(lines, i, code)
    requires Same(code, code', EndBefore(lines, i), EndBefore(lines, i + 1))
    ensures LineAt(lines, i, code')
  {
    Extent(lines, i);
    if lines[i].instr.Some? {
      OperandWidthFits(lines[i]);
      OperandAtFrame(lines, i, code, code', Position(lines, i) + 1);
    }
  }

  // ---------- the assembler itself ----------

  ghost predicate LabelTable(lines: seq<Line>, n: nat, labels: map<string, nat>)
    requires n <= |lines|
  {
    && (forall l :: l in labels <==> DefinedAt(lines, l, 0) < n)
    && (forall l :: l in labels ==> labels[l] == DefinedAt(lines, l, 0))
  }

  lemma LabelTableNext(lines: seq<Line>, i: nat, labels: map<string, nat>)
    requires i < |lines| && LabelTable(lines, i, labels)
    ensures lines[i].defines == None ==> LabelTable(lines, i + 1, labels)
    ensures lines[i].defines.Some? && lines[i].defines.value in labels ==> LabelTable(lines, i + 1, labels)
    ensures lines[i].defines.Some? && lines[i].defines.value !in labels ==>
              LabelTable(lines, i + 1, labels[lines[i].defines.value := i])
  {
    forall name {
      DefinedAtFirst(lines, name, 0);
    }
  }

  lemma LabelsUniqueNext(lines: seq<Line>, i: nat, labels: map<string, nat>)
    requires i < |lines| && LabelTable(lines, i, labels)
    ensures LabelsUnique(lines[..i + 1]) <==>
              LabelsUnique(lines[..i]) && (lines[i].defines.Some? ==> lines[i].defines.value !in labels)
  {
    assert forall j :: 0 <= j < i ==> lines[..i + 1][j] == lines[..i][j] == lines[j];
    forall name {
      DefinedAtFirst(lines, name, 0);
    }
    if lines[i].defines.Some? && lines[i].defines.value in labels {
      var j := labels[lines[i].defines.value];
      assert lines[..i + 1][j].defines == lines[..i + 1][i].defines;
    }
  }

  /** Records the label that line i defines, if any; false when it is already defined */
  method DefineLabel(lines: seq<Line>, i: nat, labels: map<string, nat>)
    returns (labels': map<string, nat>, first: bool)
    requires i < |lines| && LabelTable(lines, i, labels)
    ensures LabelTable(lines, i + 1, labels')
    ensures LabelsUnique(lines[..i + 1]) <==> LabelsUnique(lines[..i]) && first
  {
    LabelTableNext(lines, i, labels);
    LabelsUniqueNext(lines, i, labels);
    labels', first := labels, true;
    if lines[i].defines.Some? {
      if lines[i].defines.value !in labels {
        labels' := labels[lines[i].defines.value := i];
      } else {
        first := false;
      }
    }
  }

  /** The alignment loop */
  method AlignUp(p: nat) returns (q: nat)
    ensures q == Align(p) && q % 4 == 3
  {
    q := p;
    while q % 4 < 3
      invariant p <= q <= Align(p)
    {
      q := q + 1;
    }
  }

  /** The first walk over the lines: positions, lengths and label definitions. A second
      definition of a label does not replace the first, and makes assembly fail. */
  method LayOut(lines: seq<Line>, positions: array<nat>)
    returns (labels: map<string, nat>, end: nat, ok: bool)
    requires positions.Length == |lines|
    modifies positions
    ensures forall k :: 0 <= k < |lines| ==> positions[k] == Position(lines, k)
    ensures LabelTable(lines, |lines|, labels)
    ensures end == EndBefore(lines, |lines|)
    ensures ok <==> LabelsUnique(lines)
  {
    labels, end, ok := map[], 1, true;
    for i := 0 to |lines|
      invariant forall k :: 0 <= k < i ==> positions[k] == Position(lines, k)
      invariant end == EndBefore(lines, i)
      invariant LabelTable(lines, i, labels)
      invariant ok <==> LabelsUnique(lines[..i])
    {
      var length := Length(lines[i]);
      var position := end;
      if length > 2 && lines[i].instr != Some(STR) {
        position := AlignUp(position);
      }
      positions[i] := position;
      var first;
      labels, first := DefineLabel(lines, i, labels);
      ok := ok && first;
      end := position + length;
    }
    assert lines[..|lines|] == lines;
  }

  /** The second walk: every label in the label list must have a defining line. */
  method CheckLabels(lines: seq<Line>, labels: map<string, nat>) returns (ok: bool)
    requires LabelTable(lines, |lines|, labels)
    ensures ok <==> LabelsDefined(lines)
  {
    ok := true;
    for i := 0 to |lines|
      invariant ok <==> forall k, j :: 0 <= k < i && 0 <= j < |lines[k].params| ==>
                          LabelKnown(lines, lines[k].params[j])
    {
      for j := 0 to |lines[i].params|
        invariant ok <==>
          && (forall k, j' :: 0 <= k < i && 0 <= j' < |lines[k].params| ==>
               LabelKnown(lines, lines[k].params[j']))
          && (forall j' :: 0 <= j' < j ==> LabelKnown(lines, lines[i].params[j']))
      {
        var mentioned := Mentioned(lines[i].params[j]);
        if mentioned.Some? && mentioned.value !in labels {
          assert !LabelKnown(lines, lines[i].params[j]);
          ok := false;
        }
      }
    }
  }

  ghost predicate ChangedWithin(was: seq<byte>, now: seq<byte>, from: nat, to: nat)
  {
    |now| == |was| && forall p :: 0 <= p < |was| && !(from <= p < to) ==> now[p] == was[p]
  }

  /** A store of an n-byte word through a pointer into the buffer */
  method StoreWord(code: array<byte>, at: nat, n: nat, v: int)
    requires at + n <= code.Length
    modifies code
    ensures WordAt(code[..], at, n, v)
    ensures ChangedWithin(old(code[..]), code[..], at, at + n)
    decreases n
  {
    if n > 0 {
      code[at] := v % 256;
      StoreWord(code, at + 1, n - 1, v / 256);
    }
  }

  /** A store of a string with its length prefix: the prefix keeps the low bytes of the length, and
      only as many bytes are copied as the prefix says. */
  method StoreText(code: array<byte>, at: nat, size: nat, buffer: seq<byte>)
    requires at + size + Prefixed(size, StrLen(buffer, 0)) <= code.Length
    modifies code
    ensures TextAt(code[..], at, size, buffer)
    ensures ChangedWithin(old(code[..]), code[..], at, at + size + Prefixed(size, StrLen(buffer, 0)))
  {
    var length := Prefixed(size, StrLen(buffer, 0));
    StoreWord(code, at, size, StrLen(buffer, 0));
    ghost var prefixed := code[..];
    for k := 0 to length
      invariant forall j :: 0 <= j < k ==> code[at + size + j] == buffer[j]
      invariant ChangedWithin(prefixed, code[..], at + size, at + size + k)
    {
      code[at + size + k] := buffer[k];
    }
    WordAtFrame(prefixed, code[..], at, size, StrLen(buffer, 0));
  }

  /** The switch over the instructions with operands: stores the operand of line i, unless the
      line lacks the parameters for it. */
  method EmitOperand(lines: seq<Line>, i: nat, positions: array<nat>, labels: map<string, nat>,
                     code: array<byte>, at: nat)
    returns (fits: bool)
    requires i < |lines| == positions.Length && lines[i].instr.Some?
    requires forall k :: 0 <= k < |lines| ==> positions[k] == Position(lines, k)
    requires LabelTable(lines, |lines|, labels)
    requires LabelsDefined(lines)
    requires at + OperandWidth(lines[i]) <= code.Length
    modifies code
    ensures fits <==> OperandsFit(lines[i])
    ensures fits ==> OperandAt(lines, i, code[..], at)
    ensures ChangedWithin(old(code[..]), code[..], at, at + OperandWidth(lines[i]))
  {
    var op, ps := lines[i].instr.value, lines[i].params;
    fits := true;
    if ps != [] {
      assert LabelKnown(lines, ps[0]);
    }
    if op == BYTE || op == OPEN {
      if ps == [] || !ps[0].IntParam? {
        return false;
      }
      StoreWord(code, at, 1, ps[0].i);
    } else if op == CALL || op == CORO || op == FUNLIT {
      if ps == [] || !ps[0].LocParam? {
        return false;
      }
      StoreWord(code, at, 8, positions[labels[ps[0].name]]);
    } else if op == INT || op == SYMFIND || op == SYMUNDEF {
      if ps == [] || !ps[0].IntParam? {
        return false;
      }
      StoreWord(code, at, 8, ps[0].i);
    } else if op == FLOAT {
      if ps == [] || !ps[0].FloatParam? {
        return false;
      }
      StoreWord(code, at, 8, ps[0].bits);
    } else if op == STR {
      if ps == [] || !ps[0].StrParam? {
        return false;
      }
      StoreText(code, at, 1, ps[0].buffer);
    } else if op == STRING {
      if ps == [] || !ps[0].StrParam? {
        return false;
      }
      StoreText(code, at, 4, ps[0].buffer);
    } else if op == JMP || op == JMP0 || op == JMPU {
      if ps == [] || !ps[0].OffParam? {
        return false;
      }
      var target: int, here: int := positions[labels[ps[0].name]], positions[i];
      StoreWord(code, at, 8, target - here);
    } else if op == SYMDEF {
      if |ps| < 2 || !ps[0].IntParam? || !ps[1].IntParam? {
        return false;
      }
      StoreWord(code, at, 4, ps[0].i);
      ghost var flagged := code[..];
      StoreWord(code, at + 4, 8, ps[1].i);
      WordAtFrame(flagged, code[..], at, 4, ps[0].i);
    }
  }

  /** Emits line i into a stretch of NOOPs, and touches nothing outside the line's own bytes. */
  method EmitLine(lines: seq<Line>, i: nat, positions: array<nat>, labels: map<string, nat>, code: array<byte>)
    returns (fits: bool)
    requires i < |lines| == positions.Length
    requires forall k :: 0 <= k < |lines| ==> positions[k] == Position(lines, k)
    requires LabelTable(lines, |lines|, labels)
    requires LabelsDefined(lines)
    requires EndBefore(lines, i) <= EndBefore(lines, i + 1) <= code.Length
    requires NoopsIn(code[..], EndBefore(lines, i), EndBefore(lines, i + 1))
    modifies code
    ensures fits <==> OperandsFit(lines[i])
    ensures fits ==> LineAt(lines, i, code[..])
    ensures ChangedWithin(old(code[..]), code[..], EndBefore(lines, i), EndBefore(lines, i + 1))
  {
    Extent(lines, i);
    OperandWidthFits(lines[i]);
    fits := true;
    if lines[i].instr.Some? {
      var position := positions[i];
      code[position] := lines[i].instr.value;
      fits := EmitOperand(lines, i, positions, labels, code, position + 1);
    }
  }

  /** The third walk: emits every line, stopping at the first whose parameters do not fit. */
  method EmitAll(lines: seq<Line>, positions: array<nat>, labels: map<string, nat>, code: array<byte>)
    returns (ok: bool)
    requires |lines| == positions.Length
    requires forall k :: 0 <= k < |lines| ==> positions[k] == Position(lines, k)
    requires LabelTable(lines, |lines|, labels)
    requires LabelsDefined(lines)
    requires code.Length == EndBefore(lines, |lines|) + 1
    requires code[0] == END && code[code.Length - 1] == END
    requires NoopsIn(code[..], 1, code.Length - 1)
    modifies code
    ensures ok <==> AllFit(lines, |lines|)
    ensures ok ==> IsImage(lines, code[..])
  {
    ok := true;
    var i := 0;
    while ok && i < |lines|
      invariant 0 <= i <= |lines|
      invariant forall k :: 0 <= k < |lines| ==> positions[k] == Position(lines, k)
      invariant ok <==> AllFit(lines, i)
      invariant code[0] == END && code[code.Length - 1] == END
      invariant ok ==> NoopsIn(code[..], EndBefore(lines, i), code.Length - 1)
      invariant ok ==> forall k {:trigger LineAt(lines, k, code[..])} :: 0 <= k < i ==> LineAt(lines, k, code[..])
      decreases |lines| - i
    {
      AllFitNext(lines, i);
      EndBeforeMonotone(lines, i, i + 1);
      EndBeforeMonotone(lines, i + 1, |lines|);
      ghost var was := code[..];
      ok := EmitLine(lines, i, positions, labels, code);
      EmittedStay(lines, i, was, code[..]);
      i := i + 1;
    }
  }

  lemma EmittedStay(lines: seq<Line>, i: nat, was: seq<byte>, now: seq<byte>)
    requires i < |lines|
    requires forall k {:trigger LineAt(lines, k, was)} :: 0 <= k < i ==> LineAt(lines, k, was)
    requires ChangedWithin(was, now, EndBefore(lines, i), EndBefore(lines, i + 1))
    ensures forall k {:trigger LineAt(lines, k, now)} :: 0 <= k < i ==> LineAt(lines, k, now)
  {
    forall k | 0 <= k < i
      ensures LineAt(lines, k, now)
    {
      assert LineAt(lines, k, was);
      EndBeforeMonotone(lines, k + 1, i);
      LineAtFrame(lines, k, was, now);
    }
  }

  /** Assembles a non-empty program: exactly the accepted ones, each into its image. */
  method Assemble(lines: seq<Line>) returns (r: Option<Output>)
    requires lines != []
    ensures r.Some? <==> Accepted(lines)
    ensures r.Some? ==> IsImage(lines, r.value.code) && r.value.start == Start(lines)
  {
    var positions := new nat[|lines|];
    var labels, end, unique := LayOut(lines, positions);
    var defined := CheckLabels(lines, labels);
    r := None;
    if unique && defined {
      var code := new byte[end + 1](_ => NOOP);
      code[0] := END;
      code[end] := END;
      var fit := EmitAll(lines, positions, labels, code);
      if fit {
        r := Some(Output(code[..], if "main" in labels then positions[labels["main"]] else 1));
      }
    }
  }
}
