/** What the VM does with bytecode (vm_exec.c): single-outcome operations, the backtracking
    search as a recursive evaluation, and the dispatch loop with its choice stack. */
module Semantics {
  import opened Wrappers
  import opened Bytes
  import opened Utf8
  import opened Ranges
  import opened CharClasses
  import opened Bytecode

  // ----- Registers -----

  const MAX_REGS: nat := 64

  type Registers = r: seq<nat> | |r| == MAX_REGS witness seq(MAX_REGS, _ => 0)

  /** Cursor, capture registers and variables of one thread of the match. */
  datatype State = State(
    pos: nat,
    capStart: Registers, capEnd: Registers,
    varStart: Registers, varEnd: Registers,
    varCount: nat, maxCap: nat)

  function Clear(): Registers { seq(MAX_REGS, _ => 0) }

  function Fresh(pos: nat): State { State(pos, Clear(), Clear(), Clear(), Clear(), 0, 0) }

  function SetCapStart(st: State, r: nat): State {
    if r < MAX_REGS
    then st.(capStart := st.capStart[r := st.pos], maxCap := Max(st.maxCap, r + 1))
    else st
  }

  /** Ending a capture also publishes it as the variable of the same number. */
  function SetCapEnd(st: State, r: nat): State {
    if r < MAX_REGS
    then st.(capEnd := st.capEnd[r := st.pos], maxCap := Max(st.maxCap, r + 1),
             varStart := st.varStart[r := st.capStart[r]], varEnd := st.varEnd[r := st.pos],
             varCount := Max(st.varCount, r + 1))
    else st
  }

  function SetVar(st: State, v: nat, r: nat): State {
    if v < MAX_REGS && r < MAX_REGS
    then st.(varStart := st.varStart[v := st.capStart[r]], varEnd := st.varEnd[v := st.capEnd[r]],
             varCount := Max(st.varCount, v + 1))
    else st
  }

  // ----- Reading the subject -----

  /** A class whose ranges all lie below 128 is tested byte by byte. */
  predicate IsAscii(rs: seq<Range>) {
    forall i :: 0 <= i < |rs| ==> rs[i].lo < 0x80 && rs[i].hi < 0x80
  }

  datatype Unit = Unit(inside: bool, width: nat)

  /** The unit of subject text at `pos` as seen by a class: a byte for an ASCII class, else a
      codepoint; an unresolved class contains nothing. */
  function UnitAt(cls: Option<seq<Range>>, s: seq<byte>, pos: nat): (u: Option<Unit>)
    ensures u.Some? ==> 1 <= u.value.width && pos + u.value.width <= |s|
  {
    if cls.Some? && IsAscii(cls.value) then
      if pos < |s| then Some(Unit(InSet(cls.value, s[pos]), 1)) else None
    else
      var p :- Peek(s, pos);
      Some(Unit(cls.Some? && InSet(cls.value, p.cp), p.width))
  }

  /** End of the longest run of units that are all inside, or all outside, the class. */
  function RunEnd(cls: Option<seq<Range>>, s: seq<byte>, pos: nat, inside: bool): (end: nat)
    ensures pos <= end && (pos <= |s| ==> end <= |s|)
    decreases |s| - pos
  {
    match UnitAt(cls, s, pos)
    case None => pos
    case Some(u) => if u.inside == inside then RunEnd(cls, s, pos + u.width, inside) else pos
  }

  function SkipCodepoints(s: seq<byte>, pos: nat, n: nat): (r: Option<nat>)
    ensures r.Some? ==> pos + n <= r.value && (pos <= |s| ==> r.value <= |s|)
    decreases n
  {
    if n == 0 then Some(pos)
    else
      var p :- Peek(s, pos);
      SkipCodepoints(s, pos + p.width, n - 1)
  }

  predicate Continuation(b: byte) { 0x80 <= b < 0xC0 }

  function SkipContinuation(s: seq<byte>, pos: nat): (end: nat)
    ensures pos <= end && (pos <= |s| ==> end <= |s|)
    decreases |s| - pos
  {
    if pos < |s| && Continuation(s[pos]) then SkipContinuation(s, pos + 1) else pos
  }

  function BackContinuation(s: seq<byte>, pos: nat): (start: nat)
    ensures start <= pos
  {
    if 0 < pos < |s| && Continuation(s[pos]) then BackContinuation(s, pos - 1) else pos
  }

  /** Offset `n` codepoints after `from`, stopping at the end of the subject. */
  function Forward(s: seq<byte>, from: nat, n: nat): (end: nat)
    ensures from <= end && (from <= |s| ==> end <= |s|)
    decreases n
  {
    if n == 0 || from >= |s| then from else Forward(s, SkipContinuation(s, from + 1), n - 1)
  }

  /** Offset `n` codepoints before `from`, stopping at the start of the subject. */
  function Backward(s: seq<byte>, from: nat, n: nat): (start: nat)
    ensures start <= from
    decreases n
  {
    if n == 0 || from == 0 then from else Backward(s, BackContinuation(s, from - 1), n - 1)
  }

  // ----- Operations with at most one outcome -----

  datatype Prim =
    | Text(text: seq<byte>)
    | InClass(op: ClassOp, cls: Option<seq<Range>>)
    | Counted(nop: CountOp, n: nat)
    | StartCap(reg: nat)
    | EndCap(reg: nat)
    | StoreVar(var_: nat, src: nat)
    | AtAnchor(kind: nat)
    | Rest
    | Skip

  /** Cursor after a class operation. BREAKX steps like BREAK and leaves its retry to the caller. */
  function ClassStep(s: seq<byte>, op: ClassOp, cls: Option<seq<Range>>, pos: nat): (r: Option<nat>)
    ensures r.Some? ==> pos <= r.value && (pos <= |s| ==> r.value <= |s|)
  {
    match op
    case Any =>
      var u :- UnitAt(cls, s, pos);
      if u.inside then Some(pos + u.width) else None
    case NotAny =>
      var u :- UnitAt(cls, s, pos);
      if u.inside then None else Some(pos + u.width)
    case Span =>
      var end := RunEnd(cls, s, pos, true);
      if end == pos then None else Some(end)
    case Break => Some(RunEnd(cls, s, pos, false))
    case BreakX => Some(RunEnd(cls, s, pos, false))
  }

  function CountStep(s: seq<byte>, op: CountOp, n: nat, pos: nat): (r: Option<nat>)
    ensures r.Some? ==> pos <= r.value && (pos <= |s| ==> r.value <= |s|)
  {
    match op
    case Len => SkipCodepoints(s, pos, n)
    case Pos => if pos == Forward(s, 0, n) then Some(pos) else None
    case RPos => if pos == Backward(s, |s|, n) then Some(pos) else None
    case Tab =>
      var target := Forward(s, 0, n);
      if (target >= |s| && n > 0) || pos > target then None else Some(target)
    case RTab =>
      var target := Backward(s, |s|, n);
      if pos > target then None else Some(target)
  }

  /** State after a single-outcome operation, None when it fails. */
  function PrimStep(s: seq<byte>, p: Prim, st: State): (r: Option<State>)
    ensures r.Some? ==> (st.pos <= |s| ==> st.pos <= r.value.pos <= |s|)
  {
    match p
    case Text(text) =>
      if st.pos + |text| <= |s| && s[st.pos..st.pos + |text|] == text
      then Some(st.(pos := st.pos + |text|))
      else None
    case InClass(op, cls) =>
      var end :- ClassStep(s, op, cls, st.pos);
      Some(st.(pos := end))
    case Counted(op, n) =>
      var end :- CountStep(s, op, n, st.pos);
      Some(st.(pos := end))
    case StartCap(r) => Some(SetCapStart(st, r))
    case EndCap(r) => Some(SetCapEnd(st, r))
    case StoreVar(v, r) => Some(SetVar(st, v, r))
    case AtAnchor(k) => if (if k == 0 then st.pos == 0 else st.pos == |s|) then Some(st) else None
    case Rest => if st.pos <= |s| then Some(st.(pos := |s|)) else None
    case Skip => Some(st)
  }

  /** Where BREAKX resumes after the delimiter at `pos`, when the subject has one there. */
  function PastDelimiter(s: seq<byte>, pos: nat): (r: Option<nat>)
    ensures r.Some? ==> pos < r.value <= |s|
  {
    if pos >= |s| then None
    else
      match Peek(s, pos)
      case None => Some(pos + 1)
      case Some(p) => Some(pos + p.width)
  }

  // ----- Decoding -----

  /** A program: its code bytes, its resolved class table, and the subject it runs on. */
  datatype Env = Env(code: seq<byte>, classes: seq<CharClass>, subject: seq<byte>)

  function ClassAt(classes: seq<CharClass>, id: nat): Option<seq<Range>> {
    if 1 <= id <= |classes| then Some(classes[id - 1].ranges) else None
  }

  /** Operand reads: past the end of the code they give 0 and move to the end. */
  function Read8(code: seq<byte>, ip: nat): (r: (nat, nat))
    ensures r.0 < U8
  {
    if ip + 1 > |code| then (0, |code|) else (code[ip], ip + 1)
  }

  function Read16(code: seq<byte>, ip: nat): (r: (nat, nat))
    ensures r.0 < U16
  {
    if ip + 2 > |code| then (0, |code|) else (U16At(code, ip), ip + 2)
  }

  function Read32(code: seq<byte>, ip: nat): (r: (nat, nat))
    ensures r.0 < U32
  {
    if ip + 4 > |code| then (0, |code|) else (U32At(code, ip), ip + 4)
  }

  datatype Decoded =
    | Do(prim: Prim, next: nat)
    | Fork(a: nat, b: nat)
    | Go(target: nat)
    | Retry(cls: Option<seq<Range>>, next: nat)
    | Cut(next: nat)
    | Win
    | Lose
    | Stop
    | Unmodelled

  function LitBytes(code: seq<byte>, off: nat, len: nat): Option<seq<byte>> {
    if off + len <= |code| then Some(code[off..off + len]) else None
  }

  function DecodeLit(code: seq<byte>, ip: nat): Decoded {
    var (off, p1) := Read32(code, ip + 1);
    var (len, p2) := Read32(code, p1);
    var next := if off == p2 then p2 + len else p2;
    match LitBytes(code, off, len)
    case Some(text) => Do(Text(text), next)
    case None => Unmodelled
  }

  function DecodeClass(env: Env, op: ClassOp, ip: nat): Decoded {
    var (id, next) := Read16(env.code, ip + 1);
    var cls := ClassAt(env.classes, id);
    if op.BreakX? then Retry(cls, next) else Do(InClass(op, cls), next)
  }

  function DecodeCount(code: seq<byte>, op: CountOp, ip: nat): Decoded {
    var (n, next) := Read32(code, ip + 1);
    Do(Counted(op, n), next)
  }

  function DecodeSplit(code: seq<byte>, ip: nat): Decoded {
    var (a, p1) := Read32(code, ip + 1);
    var (b, _) := Read32(code, p1);
    Fork(a, b)
  }

  function DecodeReg(code: seq<byte>, op: byte, ip: nat): Decoded {
    var (r, next) := Read8(code, ip + 1);
    if op == OP_CAP_START then Do(StartCap(r), next)
    else if op == OP_CAP_END then Do(EndCap(r), next)
    else Do(AtAnchor(r), next)
  }

  function DecodeAssign(code: seq<byte>, ip: nat): Decoded {
    var (v, p1) := Read16(code, ip + 1);
    var (r, next) := Read8(code, p1);
    Do(StoreVar(v, r), next)
  }

  /** The instruction the dispatch loop sees at `ip`; opcodes outside this model are Unmodelled. */
  function Decode(env: Env, ip: nat): Decoded
    requires ip < |env.code|
  {
    var op := env.code[ip];
    if op == OP_NOP then Do(Skip, ip + 1)
    else if op == OP_ACCEPT || op == OP_SUCCEED then Win
    else if op == OP_FAIL then Lose
    else if op == OP_ABORT then Stop
    else if op == OP_FENCE then Cut(ip + 1)
    else if op == OP_REM then Do(Rest, ip + 1)
    else if op == OP_JMP then Go(Read32(env.code, ip + 1).0)
    else if op == OP_SPLIT then DecodeSplit(env.code, ip)
    else if op == OP_LIT then DecodeLit(env.code, ip)
    else if op == OP_ANY then DecodeClass(env, Any, ip)
    else if op == OP_NOTANY then DecodeClass(env, NotAny, ip)
    else if op == OP_SPAN then DecodeClass(env, Span, ip)
    else if op == OP_BREAK then DecodeClass(env, Break, ip)
    else if op == OP_BREAKX then DecodeClass(env, BreakX, ip)
    else if op == OP_LEN then DecodeCount(env.code, Len, ip)
    else if op == OP_POS then DecodeCount(env.code, Pos, ip)
    else if op == OP_RPOS then DecodeCount(env.code, RPos, ip)
    else if op == OP_TAB then DecodeCount(env.code, Tab, ip)
    else if op == OP_RTAB then DecodeCount(env.code, RTab, ip)
    else if op == OP_CAP_START || op == OP_CAP_END || op == OP_ANCHOR then DecodeReg(env.code, op, ip)
    else if op == OP_ASSIGN then DecodeAssign(env.code, ip)
    else if op == OP_LABEL then Do(Skip, Read16(env.code, ip + 1).1)
    else Unmodelled
  }

  // ----- The search as a recursive evaluation -----

  datatype Verdict = Accepted(st: State) | Rejected | Aborted | Stuck

  /** Exhausted: every path from here failed, so the caller tries its next alternative.
      Decided: the whole match is over. */
  datatype Result = OutOfFuel | Exhausted | Decided(v: Verdict)

  function Eval(env: Env, ip: nat, st: State, fuel: nat): Result
    decreases fuel
  {
    if fuel == 0 then OutOfFuel
    else if ip >= |env.code| then Exhausted
    else
      match Decode(env, ip)
      case Do(prim, next) =>
        (match PrimStep(env.subject, prim, st)
         case None => Exhausted
         case Some(st') => Eval(env, next, st', fuel - 1))
      case Fork(a, b) =>
        (match Eval(env, a, st, fuel - 1)
         case Exhausted => Eval(env, b, st, fuel - 1)
         case r => r)
      case Go(t) => Eval(env, t, st, fuel - 1)
      case Retry(cls, next) =>
        var end := RunEnd(cls, env.subject, st.pos, false);
        (match Eval(env, next, st.(pos := end), fuel - 1)
         case Exhausted =>
           (match PastDelimiter(env.subject, end)
            case None => Exhausted
            case Some(p) => Eval(env, ip, st.(pos := p), fuel - 1))
         case r => r)
      case Cut(next) =>
        (match Eval(env, next, st, fuel - 1)
         case Exhausted => Decided(Rejected)
         case r => r)
      case Win => Decided(Accepted(st))
      case Lose => Exhausted
      case Stop => Decided(Aborted)
      case Unmodelled => Decided(Stuck)
  }

  lemma {:induction false} MoreFuel(env: Env, ip: nat, st: State, f: nat, g: nat)
    requires f <= g && !Eval(env, ip, st, f).OutOfFuel?
    ensures Eval(env, ip, st, g) == Eval(env, ip, st, f)
    decreases f
  {
    hide PrimStep, RunEnd, PastDelimiter, Decode;
    if ip < |env.code| {
      match Decode(env, ip)
      case Do(prim, next) =>
        var r := PrimStep(env.subject, prim, st);
        if r.Some? { MoreFuel(env, next, r.value, f - 1, g - 1); }
      case Fork(a, b) =>
        MoreFuel(env, a, st, f - 1, g - 1);
        if Eval(env, a, st, f - 1).Exhausted? { MoreFuel(env, b, st, f - 1, g - 1); }
      case Go(t) => MoreFuel(env, t, st, f - 1, g - 1);
      case Retry(cls, next) =>
        var end := RunEnd(cls, env.subject, st.pos, false);
        MoreFuel(env, next, st.(pos := end), f - 1, g - 1);
        var p := PastDelimiter(env.subject, end);
        if Eval(env, next, st.(pos := end), f - 1).Exhausted? && p.Some? {
          MoreFuel(env, ip, st.(pos := p.value), f - 1, g - 1);
        }
      case Cut(next) => MoreFuel(env, next, st, f - 1, g - 1);
      case _ =>
    }
  }

  /** With enough fuel, evaluation from `ip` ends in `r`. */
  ghost predicate Yields(env: Env, ip: nat, st: State, r: Result) {
    !r.OutOfFuel? && exists f: nat :: Eval(env, ip, st, f) == r
  }

  lemma YieldsIsUnique(env: Env, ip: nat, st: State, r: Result, q: Result)
    requires Yields(env, ip, st, r) && Yields(env, ip, st, q)
    ensures r == q
  {
    var f: nat :| Eval(env, ip, st, f) == r;
    var g: nat :| Eval(env, ip, st, g) == q;
    if f <= g { MoreFuel(env, ip, st, f, g); } else { MoreFuel(env, ip, st, g, f); }
  }
}
