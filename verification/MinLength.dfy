/** The static minimum match length (compute_minlength): no accepting run consumes fewer bytes. */
module MinLength {
  import opened Wrappers
  import opened Bytes
  import opened Utf8
  import opened Ranges
  import opened Bytecode
  import opened Semantics

  const MAX_DEPTH: nat := 12

  /** A branch that always fails: ignored by the minimum over alternatives. */
  const DEAD: nat := 0xFFFF_FFFF

  function StepCap(code: seq<byte>): nat { |code| * 8 + 256 }

  /** The smaller of two branches, dead ones aside. */
  function BranchMin(ma: nat, mb: nat): nat {
    if ma != DEAD && mb != DEAD then (if ma < mb then ma else mb)
    else if ma != DEAD then ma
    else if mb != DEAD then mb
    else 0
  }

  /** What one instruction of the walk does: go on behind it with more bytes counted, follow a
      jump, branch, or stop with a result. */
  datatype Turn = Onward(more: nat, next: nat) | Branch(a: nat, b: nat) | Done(r: nat)

  function TurnAt(code: seq<byte>, ip: nat, len: nat): Turn
    requires ip < |code|
  {
    var op := code[ip];
    if op == OP_LIT then
      if ip + 9 > |code| then Done(0)
      else
        var n := U32At(code, ip + 5);
        Onward(n, ip + Low32(9 + n))
    else if op == OP_ANY || op == OP_NOTANY || op == OP_SPAN then
      if ip + 3 > |code| then Done(Low32(len + 1)) else Onward(1, ip + 3)
    else if op == OP_BREAK || op == OP_BREAKX then Onward(0, ip + 3)
    else if op == OP_LEN then
      if ip + 5 > |code| then Done(len) else Onward(U32At(code, ip + 1), ip + 5)
    else if op == OP_POS || op == OP_RPOS || op == OP_TAB || op == OP_RTAB then
      if ip + 5 > |code| then Done(len) else Onward(0, ip + 5)
    else if op == OP_ANCHOR || op == OP_CAP_START || op == OP_CAP_END then Onward(0, ip + 2)
    else if op == OP_FENCE || op == OP_NOP then Onward(0, ip + 1)
    else if op == OP_ASSIGN then
      if ip + 4 > |code| then Done(len) else Onward(0, ip + 4)
    else if op == OP_SPLIT then
      if ip + 9 > |code| then Done(len)
      else
        var a, b := U32At(code, ip + 1), U32At(code, ip + 5);
        if a >= |code| || b >= |code| then Done(len) else Branch(a, b)
    else if op == OP_JMP then
      if ip + 5 > |code| then Done(len)
      else
        var target := U32At(code, ip + 1);
        if target >= |code| then Done(len) else Onward(0, target)
    else if op == OP_REPEAT_STEP || op == OP_REM || op == OP_ACCEPT || op == OP_ABORT || op == OP_SUCCEED then Done(len)
    else if op == OP_BAL then Done(Low32(len + 2))
    else if op == OP_FAIL then Done(DEAD)
    else Done(0)
  }

  /** The walk from `ip` with `len` bytes counted and `steps` instructions seen so far. */
  function WalkMin(code: seq<byte>, ip: nat, depth: nat, len: nat, steps: nat): (r: nat)
    requires steps <= StepCap(code) && len < U32
    ensures r < U32
    requires depth <= MAX_DEPTH
    decreases MAX_DEPTH + 1 - depth, StepCap(code) - steps
  {
    if ip >= |code| then len
    else if steps + 1 > StepCap(code) then 0
    else
      match TurnAt(code, ip, len)
      case Done(r) => Low32(r)
      case Onward(more, next) => WalkMin(code, next, depth, Low32(len + more), steps + 1)
      case Branch(a, b) =>
        Low32(len + BranchMin(MinLen(code, a, depth + 1), MinLen(code, b, depth + 1)))
  }

  function MinLen(code: seq<byte>, ip: nat, depth: nat): (r: nat)
    ensures r < U32
    decreases if depth > MAX_DEPTH then 0 else MAX_DEPTH + 1 - depth, StepCap(code) + 1
  {
    if depth > MAX_DEPTH then 0 else WalkMin(code, ip, depth, 0, 0)
  }

  /** The walk as the source runs it: a loop along the code, a recursive call per branch. */
  method ComputeMinLength(code: seq<byte>, start: nat, depth: nat) returns (r: nat)
    ensures r == MinLen(code, start, depth)
    decreases if depth > MAX_DEPTH then 0 else MAX_DEPTH + 1 - depth
  {
    hide TurnAt;
    if depth > MAX_DEPTH { return 0; }
    var len: nat, steps: nat, ip: nat := 0, 0, start;
    while ip < |code|
      invariant steps <= StepCap(code) && len < U32
      invariant WalkMin(code, ip, depth, len, steps) == MinLen(code, start, depth)
      decreases StepCap(code) - steps
    {
      if steps + 1 > StepCap(code) { return 0; }
      steps := steps + 1;
      match TurnAt(code, ip, len) {
        case Done(v) => return Low32(v);
        case Onward(more, next) =>
          len := Low32(len + more);
          ip := next;
        case Branch(a, b) =>
          var ma := ComputeMinLength(code, a, depth + 1);
          var mb := ComputeMinLength(code, b, depth + 1);
          return Low32(len + BranchMin(ma, mb));
      }
    }
    return len;
  }

  // ----- The bound -----

  /** A set of offsets that execution cannot leave, in which every literal is stored inline. */
  ghost predicate Closed(env: Env, at: set<nat>) {
    forall p :: p in at && p < |env.code| ==> Inline(env, p) && Follows(env, p, at)
  }

  ghost predicate Inline(env: Env, p: nat)
    requires p < |env.code|
  {
    env.code[p] == OP_LIT && p + 9 <= |env.code| ==> U32At(env.code, p + 1) == p + 9
  }

  /** Everything control can reach in one step is in the set or behind the code. */
  ghost predicate Follows(env: Env, p: nat, at: set<nat>)
    requires p < |env.code|
  {
    match Decode(env, p)
    case Do(_, next) => next in at || next >= |env.code|
    case Fork(a, b) => (a in at || a >= |env.code|) && (b in at || b >= |env.code|)
    case Go(t) => t in at || t >= |env.code|
    case Retry(_, next) => next in at || next >= |env.code|
    case Cut(next) => next in at || next >= |env.code|
    case _ => true
  }

  predicate Inside(env: Env, st: State) { st.pos <= |env.subject| }

  /** The bytes an operation is sure to consume. */
  lemma PrimConsumes(s: seq<byte>, p: Prim, st: State)
    requires st.pos <= |s| && PrimStep(s, p, st).Some?
    ensures var d := PrimStep(s, p, st).value.pos;
      && st.pos <= d <= |s|
      && (p.Text? ==> d == st.pos + |p.text|)
      && (p.InClass? && (p.op.Any? || p.op.NotAny? || p.op.Span?) ==> d >= st.pos + 1)
      && (p.Counted? && p.nop.Len? ==> d >= st.pos + p.n)
  {
  }

  /** What a turn counts is no more than what the decoded instruction consumes, and the turn goes
      where execution goes. */
  ghost predicate TurnFits(env: Env, ip: nat, len: nat)
    requires ip < |env.code|
  {
    match TurnAt(env.code, ip, len)
    case Done(r) =>
      r <= len || Decode(env, ip).Lose?
      || (r <= len + 1 && Decode(env, ip).Do? && Decode(env, ip).prim.InClass?
          && (Decode(env, ip).prim.op.Any? || Decode(env, ip).prim.op.NotAny? || Decode(env, ip).prim.op.Span?))
      || Decode(env, ip).Unmodelled?
    case Onward(more, next) =>
      (match Decode(env, ip)
       case Do(prim, n) =>
         (n == next || n >= |env.code|)
         && (match prim
             case Text(text) => more <= |text|
             case InClass(op, _) => more == 0 || (more == 1 && (op.Any? || op.NotAny? || op.Span?))
             case Counted(op, k) => more == 0 || (op.Len? && more <= k)
             case _ => more == 0)
       case Go(t) => more == 0 && t == next
       case Retry(_, n) => more == 0 && (n == next || n >= |env.code|)
       case Cut(n) => more == 0 && n == next
       case Unmodelled => true
       case _ => false)
    case Branch(a, b) => Decode(env, ip) == Fork(a, b)
  }

  lemma TurnsFit(env: Env, ip: nat, len: nat)
    requires ip < |env.code| < U32 && Inline(env, ip)
    ensures TurnFits(env, ip, len)
  {
    hide U32At, U16At;
    if env.code[ip] == OP_LIT { LitTurns(env, ip, len); }
  }

  lemma LitTurns(env: Env, ip: nat, len: nat)
    requires ip < |env.code| < U32 && Inline(env, ip) && env.code[ip] == OP_LIT
    ensures TurnFits(env, ip, len)
  {
    hide U32At;
  }

  lemma {:induction false} AcceptedAhead(env: Env, ip: nat, st: State, f: nat, end: State)
    requires Inside(env, st) && Eval(env, ip, st, f) == Decided(Accepted(end))
    ensures st.pos <= end.pos <= |env.subject|
    decreases f
  {
    hide PrimStep, RunEnd, PastDelimiter, Decode;
    match Decode(env, ip)
    case Do(prim, next) => AcceptedAhead(env, next, PrimStep(env.subject, prim, st).value, f - 1, end);
    case Fork(a, b) =>
      if Eval(env, a, st, f - 1).Exhausted? {
        AcceptedAhead(env, b, st, f - 1, end);
      } else {
        AcceptedAhead(env, a, st, f - 1, end);
      }
    case Go(t) => AcceptedAhead(env, t, st, f - 1, end);
    case Retry(cls, next) =>
      var stop := RunEnd(cls, env.subject, st.pos, false);
      if Eval(env, next, st.(pos := stop), f - 1).Exhausted? {
        AcceptedAhead(env, ip, st.(pos := PastDelimiter(env.subject, stop).value), f - 1, end);
      } else {
        AcceptedAhead(env, next, st.(pos := stop), f - 1, end);
      }
    case Cut(next) => AcceptedAhead(env, next, st, f - 1, end);
    case Win =>
  }

  ghost predicate Reached(env: Env, at: set<nat>, ip: nat) { ip in at || ip >= |env.code| }

  lemma LowIsLess(v: nat)
    ensures Low32(v) <= v
  {
  }

  /** Whatever the walk counts from `ip` on, an accepting run consumes at least as much. */
  lemma {:induction false} WalkIsBound(env: Env, at: set<nat>, ip: nat, st: State, f: nat, end: State,
                                       depth: nat, len: nat, steps: nat)
    requires Closed(env, at) && Reached(env, at, ip) && |env.code| < U32
    requires Inside(env, st) && Eval(env, ip, st, f) == Decided(Accepted(end))
    requires depth <= MAX_DEPTH && len < U32 && steps <= StepCap(env.code)
    ensures WalkMin(env.code, ip, depth, len, steps) <= len + end.pos - st.pos
    decreases f, 0
  {
    hide PrimStep, RunEnd, PastDelimiter, Decode, TurnAt, BranchMin, Inline, Low32, StepCap;
    AcceptedAhead(env, ip, st, f, end);
    if steps + 1 <= StepCap(env.code) {
      assert Inline(env, ip) && Follows(env, ip, at);
      TurnsFit(env, ip, len);
      var turn := TurnAt(env.code, ip, len);
      if turn.Done? { LowIsLess(turn.r); }
      match Decode(env, ip)
      case Do(prim, next) =>
        var st' := PrimStep(env.subject, prim, st).value;
        PrimConsumes(env.subject, prim, st);
        AcceptedAhead(env, next, st', f - 1, end);
        if turn.Onward? && turn.next == next {
          LowIsLess(len + turn.more);
          WalkIsBound(env, at, next, st', f - 1, end, depth, Low32(len + turn.more), steps + 1);
        }
      case Fork(a, b) =>
        if turn.Branch? {
          var accepted := if Eval(env, a, st, f - 1).Exhausted? then b else a;
          BranchBound(env, at, accepted, st, f - 1, end, depth + 1);
          LowIsLess(len + BranchMin(MinLen(env.code, a, depth + 1), MinLen(env.code, b, depth + 1)));
          BranchMinLeast(MinLen(env.code, a, depth + 1), MinLen(env.code, b, depth + 1));
        }
      case Go(t) =>
        if turn.Onward? {
          LowIsLess(len);
          WalkIsBound(env, at, t, st, f - 1, end, depth, Low32(len), steps + 1);
        }
      case Retry(cls, next) =>
        var stop := RunEnd(cls, env.subject, st.pos, false);
        if Eval(env, next, st.(pos := stop), f - 1).Exhausted? {
          var p := PastDelimiter(env.subject, stop).value;
          WalkIsBound(env, at, ip, st.(pos := p), f - 1, end, depth, len, steps);
        } else if turn.Onward? && turn.next == next {
          LowIsLess(len);
          WalkIsBound(env, at, next, st.(pos := stop), f - 1, end, depth, Low32(len), steps + 1);
        }
      case Cut(next) =>
        if turn.Onward? {
          LowIsLess(len);
          WalkIsBound(env, at, next, st, f - 1, end, depth, Low32(len), steps + 1);
        }
      case Win =>
    }
  }

  lemma BranchMinLeast(ma: nat, mb: nat)
    requires ma < U32 && mb < U32
    ensures BranchMin(ma, mb) <= ma && BranchMin(ma, mb) <= mb
  {
  }

  lemma {:induction false} BranchBound(env: Env, at: set<nat>, ip: nat, st: State, f: nat, end: State, depth: nat)
    requires Closed(env, at) && Reached(env, at, ip) && |env.code| < U32
    requires Inside(env, st) && Eval(env, ip, st, f) == Decided(Accepted(end))
    ensures MinLen(env.code, ip, depth) <= end.pos - st.pos
    decreases f, 1
  {
    hide Eval, WalkMin;
    AcceptedAhead(env, ip, st, f, end);
    if depth <= MAX_DEPTH {
      WalkIsBound(env, at, ip, st, f, end, depth, 0, 0);
    }
  }
}
