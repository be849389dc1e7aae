/** The instruction set: byte layout of every opcode the pattern compiler emits (vm.h),
    and the walker that finds the next instruction (api.c). */
module Bytecode {
  import opened Wrappers
  import opened Bytes
  import opened Layout

  const OP_ACCEPT: byte := 0
  const OP_FAIL: byte := 1
  const OP_JMP: byte := 2
  const OP_SPLIT: byte := 3
  const OP_LIT: byte := 4
  const OP_ANY: byte := 5
  const OP_NOTANY: byte := 6
  const OP_SPAN: byte := 7
  const OP_BREAK: byte := 8
  const OP_CAP_START: byte := 9
  const OP_CAP_END: byte := 10
  const OP_ASSIGN: byte := 11
  const OP_LEN: byte := 12
  const OP_EVAL: byte := 13
  const OP_ANCHOR: byte := 14
  const OP_REPEAT_INIT: byte := 15
  const OP_REPEAT_STEP: byte := 16
  const OP_EMIT_LITERAL: byte := 17
  const OP_EMIT_CAPTURE: byte := 18
  const OP_EMIT_EXPR: byte := 19
  const OP_EMIT_TABLE: byte := 20
  const OP_EMIT_FORMAT: byte := 21
  const OP_LABEL: byte := 22
  const OP_GOTO: byte := 23
  const OP_GOTO_F: byte := 24
  const OP_TABLE_GET: byte := 25
  const OP_TABLE_SET: byte := 26
  const OP_ARRAY_GET: byte := 27
  const OP_ARRAY_SET: byte := 28
  const OP_DYNAMIC: byte := 29
  const OP_DYNAMIC_DEF: byte := 30
  const OP_BREAKX: byte := 31
  const OP_BAL: byte := 32
  const OP_FENCE: byte := 33
  const OP_REM: byte := 34
  const OP_RPOS: byte := 35
  const OP_RTAB: byte := 36
  const OP_POS: byte := 37
  const OP_TAB: byte := 38
  const OP_ABORT: byte := 39
  const OP_SUCCEED: byte := 40
  const OP_NOP: byte := 41

  function NopBytes(n: nat): (s: seq<byte>)
    ensures |s| == n
  {
    seq(n, _ => OP_NOP)
  }

  /** Table id of a reference that no binding call has resolved yet. */
  const UNBOUND: nat := 0xFFFF

  /** Opcodes that take one class id. */
  datatype ClassOp = Any | NotAny | Span | Break | BreakX

  /** Opcodes that take one count of codepoints. */
  datatype CountOp = Len | Pos | RPos | Tab | RTab

  /** Opcodes without operands. */
  datatype BareOp = Accept | Fail | Fence | Rem | Abort | Succeed | Nop

  /** One instruction with its operands, as the compiler hands them to the code buffer. */
  datatype Instr =
    | Bare(bare: BareOp)
    | Class(cop: ClassOp, classId: int)
    | Count(nop: CountOp, n: int)
    | Jmp(target: int)
    | Split(a: int, b: int)
    | Lit(off: int, text: seq<byte>)
    | CapStart(reg: int)
    | CapEnd(reg: int)
    | Assign(var_: int, src: int)
    | CallFn(fn: int, src: int)
    | Anchor(kind: int)
    | RepeatInit(loop: int, min: int, max: int, skip: int)
    | RepeatStep(loop: int, body: int)
    | EmitLiteral(off: int, text: seq<byte>)
    | EmitCapture(reg: int)
    | Label(labelId: int)
    | Goto(labelId: int)
    | TableGet(table: int, key: int, dst: int, name: seq<byte>)
    | TableSet(table: int, key: int, value: int, name: seq<byte>)
    | Bal(open: int, close: int)

  function ClassOpcode(op: ClassOp): byte {
    match op
    case Any => OP_ANY
    case NotAny => OP_NOTANY
    case Span => OP_SPAN
    case Break => OP_BREAK
    case BreakX => OP_BREAKX
  }

  function CountOpcode(op: CountOp): byte {
    match op
    case Len => OP_LEN
    case Pos => OP_POS
    case RPos => OP_RPOS
    case Tab => OP_TAB
    case RTab => OP_RTAB
  }

  function BareOpcode(op: BareOp): byte {
    match op
    case Accept => OP_ACCEPT
    case Fail => OP_FAIL
    case Fence => OP_FENCE
    case Rem => OP_REM
    case Abort => OP_ABORT
    case Succeed => OP_SUCCEED
    case Nop => OP_NOP
  }

  function Opcode(i: Instr): byte {
    match i
    case Bare(op) => BareOpcode(op)
    case Class(op, _) => ClassOpcode(op)
    case Count(op, _) => CountOpcode(op)
    case Jmp(_) => OP_JMP
    case Split(_, _) => OP_SPLIT
    case Lit(_, _) => OP_LIT
    case CapStart(_) => OP_CAP_START
    case CapEnd(_) => OP_CAP_END
    case Assign(_, _) => OP_ASSIGN
    case CallFn(_, _) => OP_EVAL
    case Anchor(_) => OP_ANCHOR
    case RepeatInit(_, _, _, _) => OP_REPEAT_INIT
    case RepeatStep(_, _) => OP_REPEAT_STEP
    case EmitLiteral(_, _) => OP_EMIT_LITERAL
    case EmitCapture(_) => OP_EMIT_CAPTURE
    case Label(_) => OP_LABEL
    case Goto(_) => OP_GOTO
    case TableGet(_, _, _, _) => OP_TABLE_GET
    case TableSet(_, _, _, _) => OP_TABLE_SET
    case Bal(_, _) => OP_BAL
  }

  /** The bytes after the opcode, each value cut to its field's width. */
  function Operands(i: Instr): seq<byte> {
    match i
    case Bare(_) => []
    case Class(_, id) => Enc16(id)
    case Count(_, n) => Enc32(n)
    case Jmp(t) => Enc32(t)
    case Split(a, b) => Enc32(a) + Enc32(b)
    case Lit(off, text) => Enc32(off) + Enc32(|text|) + text
    case CapStart(r) => [Low8(r)]
    case CapEnd(r) => [Low8(r)]
    case Assign(v, r) => Enc16(v) + [Low8(r)]
    case CallFn(f, r) => Enc16(f) + [Low8(r)]
    case Anchor(k) => [Low8(k)]
    case RepeatInit(l, lo, hi, skip) => [Low8(l)] + Enc32(lo) + Enc32(hi) + Enc32(skip)
    case RepeatStep(l, body) => [Low8(l)] + Enc32(body)
    case EmitLiteral(off, text) => Enc32(off) + Enc32(|text|) + text
    case EmitCapture(r) => [Low8(r)]
    case Label(l) => Enc16(l)
    case Goto(l) => Enc16(l)
    case TableGet(t, k, d, name) => Enc16(t) + [Low8(k), Low8(d), Low8(|name|)] + name
    case TableSet(t, k, v, name) => Enc16(t) + [Low8(k), Low8(v), Low8(|name|)] + name
    case Bal(o, c) => Enc32(o) + Enc32(c)
  }

  function Encode(i: Instr): (s: seq<byte>)
    ensures |s| >= 1 && s[0] == Opcode(i)
  {
    [Opcode(i)] + Operands(i)
  }

  /** The encodings of a listing, one chunk an instruction. */
  function Chunks(prog: seq<Instr>): (cs: seq<seq<byte>>)
    ensures |cs| == |prog|
  {
    seq(|prog|, k requires 0 <= k < |prog| => Encode(prog[k]))
  }

  function EncodeAll(prog: seq<Instr>): seq<byte> { Flatten(Chunks(prog)) }

  function Size(prog: seq<Instr>): nat { |EncodeAll(prog)| }

  /** Where each instruction of a listing begins when the listing is laid out from `base`. */
  function InstrStarts(prog: seq<Instr>, base: nat): seq<nat> { Starts(Chunks(prog), base) }

  lemma ChunksConcat(a: seq<Instr>, b: seq<Instr>)
    ensures Chunks(a + b) == Chunks(a) + Chunks(b)
  {
    hide Encode;
  }

  lemma EncodeAllConcat(a: seq<Instr>, b: seq<Instr>)
    ensures EncodeAll(a + b) == EncodeAll(a) + EncodeAll(b)
  {
    hide Encode;
    ChunksConcat(a, b);
    FlattenConcat(Chunks(a), Chunks(b));
  }

  lemma InstrStartsConcat(a: seq<Instr>, b: seq<Instr>, base: nat)
    ensures InstrStarts(a + b, base) == InstrStarts(a, base) + InstrStarts(b, base + Size(a))
  {
    hide Encode;
    ChunksConcat(a, b);
    StartsConcat(Chunks(a), Chunks(b), base);
  }

  lemma EncodeOne(i: Instr)
    ensures EncodeAll([i]) == Encode(i)
  {
    hide Encode;
    assert Chunks([i]) == [Encode(i)];
    FlattenOne(Encode(i));
  }

  lemma StartsOne(i: Instr, base: nat)
    ensures InstrStarts([i], base) == [base]
  {
    hide Encode;
    assert Chunks([i]) == [Encode(i)];
    assert [Encode(i)][1..] == [];
  }

  /** What the layout of one instruction at `p` must respect for a reader to find its end:
      inline payloads point right behind their operands, names fit their length byte. */
  predicate Placed(i: Instr, p: nat) {
    match i
    case Lit(off, text) => off == p + 9
    case EmitLiteral(off, text) => off == p + 9
    case TableGet(_, _, _, name) => |name| < U8
    case TableSet(_, _, _, name) => |name| < U8
    case _ => true
  }

  predicate AllPlaced(prog: seq<Instr>, base: nat) {
    forall k :: 0 <= k < |prog| ==> Placed(prog[k], InstrStarts(prog, base)[k])
  }

  lemma AllPlacedConcat(a: seq<Instr>, b: seq<Instr>, base: nat)
    requires AllPlaced(a, base) && AllPlaced(b, base + Size(a))
    ensures AllPlaced(a + b, base)
  {
    hide Placed;
    InstrStartsConcat(a, b, base);
    var sa, sb := InstrStarts(a, base), InstrStarts(b, base + Size(a));
    forall k | 0 <= k < |a + b| ensures Placed((a + b)[k], InstrStarts(a + b, base)[k]) {
      if k < |a| {
        assert (sa + sb)[k] == sa[k];
      } else {
        assert (sa + sb)[k] == sb[k - |a|] && (a + b)[k] == b[k - |a|];
      }
    }
  }

  // ----- The walker -----

  /** Operand bytes of the opcodes whose length does not depend on the operands. */
  function FixedOperands(op: byte): Option<nat> {
    if op in {OP_ACCEPT, OP_FAIL, OP_SUCCEED, OP_ABORT, OP_REM, OP_FENCE, OP_DYNAMIC, OP_NOP} then Some(0)
    else if op in {OP_CAP_START, OP_CAP_END, OP_ANCHOR, OP_EMIT_CAPTURE} then Some(1)
    else if op in {OP_ANY, OP_NOTANY, OP_SPAN, OP_BREAK, OP_BREAKX, OP_LABEL, OP_GOTO, OP_GOTO_F, OP_EMIT_EXPR}
    then Some(2)
    else if op in {OP_ASSIGN, OP_EVAL} then Some(3)
    else if op in {OP_LEN, OP_JMP, OP_POS, OP_TAB, OP_RPOS, OP_RTAB} then Some(4)
    else if op == OP_REPEAT_STEP then Some(5)
    else if op in {OP_SPLIT, OP_BAL} then Some(8)
    else if op == OP_REPEAT_INIT then Some(13)
    else None
  }

  const FMT_LPAD: byte := 4
  const FMT_RPAD: byte := 5

  function InlinePayloadEnd(code: seq<byte>, next: nat): Option<nat> {
    if next + 8 > |code| then None
    else
      var len := U32At(code, next + 4);
      var end := next + 8;
      if U32At(code, next) != end then Some(end)
      else if len > |code| - end then None
      else Some(end + len)
  }

  function NamedOperandsEnd(code: seq<byte>, next: nat): Option<nat> {
    if next + 5 > |code| then None
    else
      var end := next + 5 + code[next + 4];
      if end <= |code| then Some(end) else None
  }

  function EmitTableEnd(code: seq<byte>, next: nat): Option<nat> {
    if next + 4 > |code| then None
    else
      var kind := code[next + 2];
      var end := next + 4 + code[next + 3];
      if end > |code| then None
      else if kind == 0 then
        if end + 2 > |code| then None
        else
          var end' := end + 2 + U16At(code, end);
          if end' <= |code| then Some(end') else None
      else
        var end' := if kind == 1 then end + 1 else end;
        if end' <= |code| then Some(end') else None
  }

  function DynamicDefEnd(code: seq<byte>, next: nat): Option<nat> {
    if next + 4 > |code| then None
    else
      var end := next + 4 + U32At(code, next);
      if end + 4 > |code| then None
      else
        var end' := end + 4 + U32At(code, end);
        if end' <= |code| then Some(end') else None
  }

  /** Offset just past the instruction at `ip`; None for an unknown or cut-off instruction.
      Table references are handled by the caller in the source and are included here. */
  function NextInstruction(code: seq<byte>, ip: nat): (r: Option<nat>)
    requires ip < |code|
    ensures r.Some? ==> ip < r.value
  {
    var op, next := code[ip], ip + 1;
    match FixedOperands(op)
    case Some(n) => Some(next + n)
    case None =>
      if op == OP_EMIT_FORMAT then
        if next + 2 > |code| then None
        else if code[next + 1] == FMT_LPAD || code[next + 1] == FMT_RPAD then Some(next + 5)
        else Some(next + 2)
      else if op == OP_LIT || op == OP_EMIT_LITERAL then InlinePayloadEnd(code, next)
      else if op in {OP_ARRAY_GET, OP_ARRAY_SET, OP_TABLE_GET, OP_TABLE_SET} then NamedOperandsEnd(code, next)
      else if op == OP_EMIT_TABLE then EmitTableEnd(code, next)
      else if op == OP_DYNAMIC_DEF then DynamicDefEnd(code, next)
      else None
  }

  lemma PayloadLayout(code: seq<byte>, p: nat, off: int, text: seq<byte>)
    requires At(code, p, Enc32(off) + Enc32(|text|) + text)
    ensures p + 8 + |text| <= |code| && U32At(code, p) == Low32(off) && U32At(code, p + 4) == Low32(|text|)
    ensures At(code, p + 8, text)
  {
    AtConcat(code, p, Enc32(off) + Enc32(|text|), text);
    AtConcat(code, p, Enc32(off), Enc32(|text|));
    Decode32(code, p, off);
    Decode32(code, p + 4, |text|);
  }

  lemma NameLayout(code: seq<byte>, p: nat, t: int, x: byte, y: byte, name: seq<byte>)
    requires |name| < U8 && At(code, p, Enc16(t) + [x, y, Low8(|name|)] + name)
    ensures p + 5 + |name| <= |code| && code[p + 4] == |name|
    ensures U16At(code, p) == Low16(t) && At(code, p + 5, name)
  {
    AtConcat(code, p, Enc16(t) + [x, y, Low8(|name|)], name);
    AtConcat(code, p, Enc16(t), [x, y, Low8(|name|)]);
    Decode16(code, p, t);
    AtByte(code, p + 2, [x, y, Low8(|name|)], 2);
  }

  predicate CarriesBytes(i: Instr) {
    i.Lit? || i.EmitLiteral? || i.TableGet? || i.TableSet?
  }

  lemma FixedOperandsFit(i: Instr)
    requires !CarriesBytes(i)
    ensures FixedOperands(Opcode(i)) == Some(|Operands(i)|)
  {
  }

  lemma FixedWalk(code: seq<byte>, p: nat, i: Instr)
    requires !CarriesBytes(i) && p < |code| && code[p] == Opcode(i)
    ensures NextInstruction(code, p) == Some(p + 1 + |Operands(i)|)
  {
    hide Operands, Opcode, FixedOperands;
    FixedOperandsFit(i);
  }

  /** The walker steps over exactly the bytes the encoder wrote. */
  lemma WalkerMeetsEncoder(code: seq<byte>, p: nat, i: Instr)
    requires At(code, p, Encode(i)) && Placed(i, p) && |code| < U32
    ensures NextInstruction(code, p) == Some(p + |Encode(i)|)
  {
    hide Operands, Opcode, NextInstruction;
    AtByte(code, p, Encode(i), 0);
    AtConcat(code, p, [Opcode(i)], Operands(i));
    if !CarriesBytes(i) {
      FixedWalk(code, p, i);
    } else {
      WalkerMeetsPayload(code, p, i);
    }
  }

  lemma InlineWalk(code: seq<byte>, p: nat, text: seq<byte>)
    requires p < |code| < U32 && code[p] in {OP_LIT, OP_EMIT_LITERAL}
    requires At(code, p + 1, Enc32(p + 9) + Enc32(|text|) + text)
    ensures NextInstruction(code, p) == Some(p + 9 + |text|)
  {
    hide NamedOperandsEnd, EmitTableEnd, DynamicDefEnd, Enc32, U32At;
    PayloadLayout(code, p + 1, p + 9, text);
    assert FixedOperands(code[p]) == None;
  }

  lemma NameWalk(code: seq<byte>, p: nat, t: int, x: byte, y: byte, name: seq<byte>)
    requires p < |code| && code[p] in {OP_TABLE_GET, OP_TABLE_SET} && |name| < U8
    requires At(code, p + 1, Enc16(t) + [x, y, Low8(|name|)] + name)
    ensures NextInstruction(code, p) == Some(p + 6 + |name|)
  {
    hide InlinePayloadEnd, EmitTableEnd, DynamicDefEnd, Enc16;
    NameLayout(code, p + 1, t, x, y, name);
  }

  lemma WalkerMeetsPayload(code: seq<byte>, p: nat, i: Instr)
    requires CarriesBytes(i) && Placed(i, p) && |code| < U32
    requires p < |code| && code[p] == Opcode(i) && At(code, p + 1, Operands(i))
    ensures NextInstruction(code, p) == Some(p + 1 + |Operands(i)|)
  {
    hide NextInstruction, Enc32, Enc16, At, FixedOperands;
    match i
    case Lit(off, text) => InlineWalk(code, p, text);
    case EmitLiteral(off, text) => InlineWalk(code, p, text);
    case TableGet(t, k, d, name) => NameWalk(code, p, t, Low8(k), Low8(d), name);
    case TableSet(t, k, v, name) => NameWalk(code, p, t, Low8(k), Low8(v), name);
  }

  /** Every position the walk from `ip` stops at, or None when it gets lost before `limit`. */
  function Walk(code: seq<byte>, ip: nat, limit: nat): (r: Option<seq<nat>>)
    requires limit <= |code|
    decreases limit - ip
  {
    if ip >= limit then Some([])
    else
      var next :- NextInstruction(code, ip);
      if next > limit then None
      else
        var rest :- Walk(code, next, limit);
        Some([ip] + rest)
  }

  /** Chunk `k` is stepped over whole. */
  predicate StepsOver(code: seq<byte>, base: nat, cs: seq<seq<byte>>, k: nat)
    requires k < |cs|
  {
    var p := Starts(cs, base)[k];
    cs[k] != [] && p < |code| && NextInstruction(code, p) == Some(p + |cs[k]|)
  }

  lemma StepsOverTail(code: seq<byte>, base: nat, cs: seq<seq<byte>>, k: nat)
    requires k + 1 < |cs| && StepsOver(code, base, cs, k + 1)
    ensures StepsOver(code, base + |cs[0]|, cs[1..], k)
  {
    hide NextInstruction;
    assert Starts(cs, base)[k + 1] == Starts(cs[1..], base + |cs[0]|)[k];
  }

  /** The walk over consecutive chunks, given that each of them is stepped over whole. */
  lemma {:induction false} WalkChunks(code: seq<byte>, base: nat, cs: seq<seq<byte>>)
    requires base + |Flatten(cs)| <= |code|
    requires forall k :: 0 <= k < |cs| ==> StepsOver(code, base, cs, k)
    ensures Walk(code, base, base + |Flatten(cs)|) == Some(Starts(cs, base))
    decreases |cs|
  {
    hide NextInstruction;
    if cs != [] {
      var next := base + |cs[0]|;
      assert StepsOver(code, base, cs, 0) && Starts(cs, base)[0] == base;
      forall k | 0 <= k < |cs[1..]| ensures StepsOver(code, next, cs[1..], k) {
        StepsOverTail(code, base, cs, k);
      }
      WalkChunks(code, next, cs[1..]);
    }
  }

  lemma StepOverNth(code: seq<byte>, base: nat, prog: seq<Instr>, k: nat)
    requires At(code, base, EncodeAll(prog)) && AllPlaced(prog, base) && |code| < U32 && k < |prog|
    ensures StepsOver(code, base, Chunks(prog), k)
  {
    hide NextInstruction, Encode, Placed;
    ChunkAt(code, base, Chunks(prog), k);
    assert Chunks(prog)[k] == Encode(prog[k]);
    WalkerMeetsEncoder(code, InstrStarts(prog, base)[k], prog[k]);
  }

  /** Walking an encoded listing visits the instruction starts and ends at its end. */
  lemma WalkVisitsStarts(code: seq<byte>, base: nat, prog: seq<Instr>)
    requires At(code, base, EncodeAll(prog)) && AllPlaced(prog, base) && |code| < U32
    ensures Walk(code, base, base + Size(prog)) == Some(InstrStarts(prog, base))
  {
    hide StepsOver, Chunks, AllPlaced, Walk, Flatten, Starts;
    forall k | 0 <= k < |prog| ensures StepsOver(code, base, Chunks(prog), k) {
      StepOverNth(code, base, prog, k);
    }
    WalkChunks(code, base, Chunks(prog));
  }

  // ----- Jump targets -----

  /** Code offsets an instruction can transfer to, besides falling through. */
  function Targets(i: Instr): seq<int> {
    match i
    case Jmp(t) => [t]
    case Split(a, b) => [a, b]
    case RepeatInit(_, _, _, skip) => [skip]
    case RepeatStep(_, body) => [body]
    case _ => []
  }
}
