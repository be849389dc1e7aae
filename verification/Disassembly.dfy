/** Reading an instruction back from its bytes, operand by operand in the order in which the VM reads them: nothing but
    the width of the fields is lost in encoding, for every kind of instruction. */
module Disassembly {
  import opened Wrappers
  import opened Bytes
  import opened Bytecode

  function ReadBare(op: byte): Option<Instr> {
    if op == OP_ACCEPT then Some(Bare(Accept))
    else if op == OP_FAIL then Some(Bare(Fail))
    else if op == OP_FENCE then Some(Bare(Fence))
    else if op == OP_REM then Some(Bare(Rem))
    else if op == OP_ABORT then Some(Bare(Abort))
    else if op == OP_SUCCEED then Some(Bare(Succeed))
    else if op == OP_NOP then Some(Bare(Nop))
    else None
  }

  /** Opcodes with one operand of a byte. */
  function ReadRegister(op: byte, r: byte): Option<Instr> {
    if op == OP_CAP_START then Some(CapStart(r))
    else if op == OP_CAP_END then Some(CapEnd(r))
    else if op == OP_ANCHOR then Some(Anchor(r))
    else if op == OP_EMIT_CAPTURE then Some(EmitCapture(r))
    else None
  }

  /** Opcodes with one operand of two bytes. */
  function ReadId(op: byte, id: nat): Option<Instr> {
    if op == OP_ANY then Some(Class(Any, id))
    else if op == OP_NOTANY then Some(Class(NotAny, id))
    else if op == OP_SPAN then Some(Class(Span, id))
    else if op == OP_BREAK then Some(Class(Break, id))
    else if op == OP_BREAKX then Some(Class(BreakX, id))
    else if op == OP_LABEL then Some(Label(id))
    else if op == OP_GOTO then Some(Goto(id))
    else None
  }

  /** Opcodes with one operand of four bytes. */
  function ReadWord(op: byte, n: nat): Option<Instr> {
    if op == OP_LEN then Some(Count(Len, n))
    else if op == OP_POS then Some(Count(Pos, n))
    else if op == OP_RPOS then Some(Count(RPos, n))
    else if op == OP_TAB then Some(Count(Tab, n))
    else if op == OP_RTAB then Some(Count(RTab, n))
    else if op == OP_JMP then Some(Jmp(n))
    else None
  }

  /** Opcodes with several operands of fixed width. */
  function ReadFields(code: seq<byte>, p: nat): Option<Instr>
    requires p < |code|
  {
    var op, room := code[p], |code| - p;
    if op == OP_ASSIGN && room >= 4 then Some(Assign(U16At(code, p + 1), code[p + 3]))
    else if op == OP_EVAL && room >= 4 then Some(CallFn(U16At(code, p + 1), code[p + 3]))
    else if op == OP_SPLIT && room >= 9 then Some(Split(U32At(code, p + 1), U32At(code, p + 5)))
    else if op == OP_BAL && room >= 9 then Some(Bal(U32At(code, p + 1), U32At(code, p + 5)))
    else if op == OP_REPEAT_STEP && room >= 6 then Some(RepeatStep(code[p + 1], U32At(code, p + 2)))
    else if op == OP_REPEAT_INIT && room >= 14 then
      Some(RepeatInit(code[p + 1], U32At(code, p + 2), U32At(code, p + 6), U32At(code, p + 10)))
    else None
  }

  /** Opcodes that carry bytes: a text where its offset says, a name behind its length. */
  function ReadCarried(code: seq<byte>, p: nat): Option<Instr>
    requires p < |code|
  {
    var op, room := code[p], |code| - p;
    if op in {OP_LIT, OP_EMIT_LITERAL} then
      if room < 9 then None
      else
        var off, len := U32At(code, p + 1), U32At(code, p + 5);
        if off + len > |code| then None
        else if op == OP_LIT then Some(Lit(off, code[off..off + len]))
        else Some(EmitLiteral(off, code[off..off + len]))
    else if op in {OP_TABLE_GET, OP_TABLE_SET} then
      if room < 6 || p + 6 + code[p + 5] > |code| then None
      else
        var name := code[p + 6..p + 6 + code[p + 5]];
        if op == OP_TABLE_GET then Some(TableGet(U16At(code, p + 1), code[p + 3], code[p + 4], name))
        else Some(TableSet(U16At(code, p + 1), code[p + 3], code[p + 4], name))
    else None
  }

  function Or(a: Option<Instr>, b: Option<Instr>): Option<Instr> { if a.Some? then a else b }

  /** The instruction at `p`; None for an opcode without an instruction here, or where the code is cut off. */
  function ReadInstr(code: seq<byte>, p: nat): Option<Instr>
    requires p < |code|
  {
    var op, room := code[p], |code| - p;
    Or(ReadBare(op),
       Or(if room >= 2 then ReadRegister(op, code[p + 1]) else None,
          Or(if room >= 3 then ReadId(op, U16At(code, p + 1)) else None,
             Or(if room >= 5 then ReadWord(op, U32At(code, p + 1)) else None,
                Or(ReadFields(code, p), ReadCarried(code, p))))))
  }

  /** The instruction with every operand cut to the width of its field. */
  function Cut(i: Instr): Instr {
    match i
    case Bare(op) => i
    case Class(op, id) => Class(op, Low16(id))
    case Count(op, n) => Count(op, Low32(n))
    case Jmp(t) => Jmp(Low32(t))
    case Split(a, b) => Split(Low32(a), Low32(b))
    case Lit(off, text) => i
    case CapStart(r) => CapStart(Low8(r))
    case CapEnd(r) => CapEnd(Low8(r))
    case Assign(v, r) => Assign(Low16(v), Low8(r))
    case CallFn(f, r) => CallFn(Low16(f), Low8(r))
    case Anchor(k) => Anchor(Low8(k))
    case RepeatInit(l, lo, hi, skip) => RepeatInit(Low8(l), Low32(lo), Low32(hi), Low32(skip))
    case RepeatStep(l, body) => RepeatStep(Low8(l), Low32(body))
    case EmitLiteral(off, text) => i
    case EmitCapture(r) => EmitCapture(Low8(r))
    case Label(l) => Label(Low16(l))
    case Goto(l) => Goto(Low16(l))
    case TableGet(t, k, d, name) => TableGet(Low16(t), Low8(k), Low8(d), name)
    case TableSet(t, k, v, name) => TableSet(Low16(t), Low8(k), Low8(v), name)
    case Bal(o, c) => Bal(Low32(o), Low32(c))
  }

  predicate TwoBytes(i: Instr) { i.Class? || i.Label? || i.Goto? }
  predicate FourBytes(i: Instr) { i.Count? || i.Jmp? }
  predicate Fields(i: Instr) { i.Assign? || i.CallFn? || i.Split? || i.Bal? || i.RepeatInit? || i.RepeatStep? }

  /** Every instruction is read back from its encoding. */
  lemma InstrReadsBack(code: seq<byte>, p: nat, i: Instr)
    requires At(code, p, Encode(i)) && Placed(i, p) && |code| < U32
    ensures p < |code| && ReadInstr(code, p) == Some(Cut(i))
  {
    hide Operands, Opcode, ReadInstr, ReadFields, ReadCarried, Cut, At, Placed;
    Within(code, p, Encode(i));
    AtByte(code, p, Encode(i), 0);
    AtConcat(code, p, [Opcode(i)], Operands(i));
    assert code[p + 0] == Opcode(i);
    if Fields(i) {
      FieldsReadBack(code, p, i);
      NoneBefore(code, p, i);
    } else if CarriesBytes(i) {
      CarriedReadsBack(code, p, i);
      NoneBefore(code, p, i);
    } else if i.Bare? {
      BareReadsBack(code, p, i);
    } else {
      SingleReadsBack(code, p, i);
    }
  }

  lemma BareReadsBack(code: seq<byte>, p: nat, i: Instr)
    requires p < |code| && i.Bare? && code[p] == Opcode(i)
    ensures ReadInstr(code, p) == Some(Cut(i))
  {
    hide ReadRegister, ReadId, ReadWord, ReadFields, ReadCarried, U16At, U32At;
  }

  lemma SingleReadsBack(code: seq<byte>, p: nat, i: Instr)
    requires p + |Encode(i)| <= |code| && code[p] == Opcode(i) && At(code, p + 1, Operands(i))
    requires !Fields(i) && !CarriesBytes(i) && !i.Bare?
    ensures ReadInstr(code, p) == Some(Cut(i))
  {
    hide ReadInstr, U16At, U32At, Low8, Low16, Low32, At, Enc16, Enc32;
    match i
    case Class(_, id) =>
      Decode16(code, p + 1, id);
      IdReads(code, p, i);
    case Label(id) =>
      Decode16(code, p + 1, id);
      IdReads(code, p, i);
    case Goto(id) =>
      Decode16(code, p + 1, id);
      IdReads(code, p, i);
    case Count(_, n) =>
      Decode32(code, p + 1, n);
      WordReads(code, p, i);
    case Jmp(t) =>
      Decode32(code, p + 1, t);
      WordReads(code, p, i);
    case CapStart(r) => RegisterReads(code, p, i, r);
    case CapEnd(r) => RegisterReads(code, p, i, r);
    case Anchor(r) => RegisterReads(code, p, i, r);
    case EmitCapture(r) => RegisterReads(code, p, i, r);
  }

  lemma RegisterReads(code: seq<byte>, p: nat, i: Instr, r: int)
    requires p + 2 <= |code| && code[p] == Opcode(i) && At(code, p + 1, [Low8(r)])
    requires i == CapStart(r) || i == CapEnd(r) || i == Anchor(r) || i == EmitCapture(r)
    ensures ReadInstr(code, p) == Some(Cut(i))
  {
    hide ReadId, ReadWord, ReadFields, ReadCarried, U16At, U32At, Low8, At;
    AtByte(code, p + 1, [Low8(r)], 0);
  }

  lemma IdReads(code: seq<byte>, p: nat, i: Instr)
    requires p + 3 <= |code| && code[p] == Opcode(i) && TwoBytes(i)
    requires U16At(code, p + 1) == Low16(if i.Class? then i.classId else i.labelId)
    ensures ReadInstr(code, p) == Some(Cut(i))
  {
    hide ReadWord, ReadFields, ReadCarried, U16At, U32At, Low16;
  }

  lemma WordReads(code: seq<byte>, p: nat, i: Instr)
    requires p + 5 <= |code| && code[p] == Opcode(i) && FourBytes(i)
    requires U32At(code, p + 1) == Low32(if i.Count? then i.n else i.target)
    ensures ReadInstr(code, p) == Some(Cut(i))
  {
    hide ReadFields, ReadCarried, U16At, U32At, Low32;
  }

  /** No reader of a single operand takes these opcodes, and none of several takes the last kind. */
  lemma NoneBefore(code: seq<byte>, p: nat, i: Instr)
    requires p < |code| && code[p] == Opcode(i) && (Fields(i) || CarriesBytes(i))
    ensures ReadInstr(code, p)
         == if Fields(i) && ReadFields(code, p).Some? then ReadFields(code, p) else ReadCarried(code, p)
  {
    hide U16At, U32At, ReadCarried;
  }

  lemma Within(code: seq<byte>, p: nat, part: seq<byte>)
    requires At(code, p, part)
    ensures p + |part| <= |code|
  {
  }

  lemma FieldsReadBack(code: seq<byte>, p: nat, i: Instr)
    requires p + |Encode(i)| <= |code| && code[p] == Opcode(i) && At(code, p + 1, Operands(i))
    requires Fields(i)
    ensures ReadFields(code, p) == Some(Cut(i))
  {
    hide Enc16, Enc32, U16At, U32At, Low8, Low16, Low32, At;
    match i
    case Assign(v, r) => PairReadsBack(code, p + 1, v, r);
    case CallFn(f, r) => PairReadsBack(code, p + 1, f, r);
    case Split(a, b) => WordsReadBack(code, p + 1, a, b);
    case Bal(o, c) => WordsReadBack(code, p + 1, o, c);
    case RepeatStep(l, body) =>
      AtConcat(code, p + 1, [Low8(l)], Enc32(body));
      AtByte(code, p + 1, [Low8(l)], 0);
      Decode32(code, p + 2, body);
    case RepeatInit(l, lo, hi, skip) =>
      AtConcat(code, p + 1, [Low8(l)] + Enc32(lo) + Enc32(hi), Enc32(skip));
      AtConcat(code, p + 1, [Low8(l)] + Enc32(lo), Enc32(hi));
      AtConcat(code, p + 1, [Low8(l)], Enc32(lo));
      AtByte(code, p + 1, [Low8(l)], 0);
      Decode32(code, p + 2, lo);
      Decode32(code, p + 6, hi);
      Decode32(code, p + 10, skip);
  }

  lemma PairReadsBack(code: seq<byte>, p: nat, v: int, r: int)
    requires At(code, p, Enc16(v) + [Low8(r)])
    ensures p + 3 <= |code| && U16At(code, p) == Low16(v) && code[p + 2] == Low8(r)
  {
    hide Enc16, U16At, Low8, Low16, At;
    Within(code, p, Enc16(v) + [Low8(r)]);
    AtConcat(code, p, Enc16(v), [Low8(r)]);
    Decode16(code, p, v);
    AtByte(code, p + 2, [Low8(r)], 0);
  }

  lemma WordsReadBack(code: seq<byte>, p: nat, a: int, b: int)
    requires At(code, p, Enc32(a) + Enc32(b))
    ensures p + 8 <= |code| && U32At(code, p) == Low32(a) && U32At(code, p + 4) == Low32(b)
  {
    hide Enc32, U32At, Low32, At;
    Within(code, p, Enc32(a) + Enc32(b));
    AtConcat(code, p, Enc32(a), Enc32(b));
    Decode32(code, p, a);
    Decode32(code, p + 4, b);
  }

  lemma CarriedReadsBack(code: seq<byte>, p: nat, i: Instr)
    requires p < |code| < U32 && code[p] == Opcode(i) && At(code, p + 1, Operands(i)) && Placed(i, p) && CarriesBytes(i)
    ensures ReadCarried(code, p) == Some(Cut(i))
  {
    hide ReadCarried, Enc16, Enc32, At, Cut;
    match i
    case Lit(_, text) => LitReadsBack(code, p, i);
    case EmitLiteral(_, text) => LitReadsBack(code, p, i);
    case TableGet(t, k, d, name) => TableReadsBack(code, p, i, t, k, d, name);
    case TableSet(t, k, v, name) => TableReadsBack(code, p, i, t, k, v, name);
  }

  lemma LitReadsBack(code: seq<byte>, p: nat, i: Instr)
    requires p < |code| < U32 && code[p] == Opcode(i) && (i.Lit? || i.EmitLiteral?) && i.off == p + 9
    requires At(code, p + 1, Enc32(p + 9) + Enc32(|i.text|) + i.text)
    ensures ReadCarried(code, p) == Some(Cut(i))
  {
    hide Enc32, U32At, Low32, At;
    TextReadsBack(code, p + 1, i.text);
  }

  lemma TableReadsBack(code: seq<byte>, p: nat, i: Instr, t: int, x: int, y: int, name: seq<byte>)
    requires p < |code| && code[p] == Opcode(i) && |name| < U8
    requires i == TableGet(t, x, y, name) || i == TableSet(t, x, y, name)
    requires At(code, p + 1, Enc16(t) + [Low8(x), Low8(y), Low8(|name|)] + name)
    ensures ReadCarried(code, p) == Some(Cut(i))
  {
    hide Enc16, U16At, Low8, Low16, At;
    NameReadsBack(code, p + 1, t, Low8(x), Low8(y), name);
  }

  lemma TextReadsBack(code: seq<byte>, p: nat, text: seq<byte>)
    requires At(code, p, Enc32(p + 8) + Enc32(|text|) + text) && |code| < U32
    ensures p + 8 + |text| <= |code| && U32At(code, p) == p + 8 && U32At(code, p + 4) == |text|
    ensures code[p + 8..p + 8 + |text|] == text
  {
    hide Enc32, U32At, Low32;
    PayloadLayout(code, p, p + 8, text);
    Fits32(p + 8);
    Fits32(|text|);
  }

  lemma NameReadsBack(code: seq<byte>, p: nat, t: int, x: byte, y: byte, name: seq<byte>)
    requires |name| < U8 && At(code, p, Enc16(t) + [x, y, Low8(|name|)] + name)
    ensures p + 5 + |name| <= |code| && U16At(code, p) == Low16(t)
    ensures code[p + 2] == x && code[p + 3] == y && code[p + 4] == |name| && code[p + 5..p + 5 + |name|] == name
  {
    hide Enc16, U16At, Low16;
    NameLayout(code, p, t, x, y, name);
    AtConcat(code, p, Enc16(t) + [x, y, Low8(|name|)], name);
    AtConcat(code, p, Enc16(t), [x, y, Low8(|name|)]);
    AtByte(code, p + 2, [x, y, Low8(|name|)], 0);
    AtByte(code, p + 2, [x, y, Low8(|name|)], 1);
  }
}
