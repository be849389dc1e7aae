/** The dispatch loop as it runs: every register write logged, choice points holding scalars only. It
    halts with the verdict of the loop that copies whole states, so it matches what patterns mean. */
module LoggedMachine {
  import opened Wrappers
  import opened Bytes
  import opened Utf8
  import opened Ranges
  import opened CharClasses
  import opened Bytecode
  import opened Semantics
  import opened Machine
  import U = UndoLog

  /** Positions and code offsets are machine words. */
  function Word(n: nat): U.Word { n % 0x1_0000_0000_0000_0000 }

  function MaxByte(a: byte, n: nat): byte
    requires n <= 64
  {
    if a > n then a else n
  }

  function MaxWord(a: U.Word, n: nat): U.Word
    requires n <= 64
  {
    if a > n then a else n
  }

  /** The register writes of one operation, before the cursor moves. */
  function Writes(p: Prim, r: U.RegFile, now: U.Scalars): (ops: seq<U.Op>)
    ensures |ops| <= 2 && forall k :: 0 <= k < |ops| ==> ops[k].Store? && U.Allowed(ops[k])
  {
    match p
    case StartCap(c) => if c < U.MAX_CAPS then [U.Store(U.SetCapStart(c, now.pos))] else []
    case EndCap(c) =>
      if c < U.MAX_CAPS then [U.Store(U.SetCapEnd(c, now.pos)), U.Store(U.SetVar(c, r.capStart[c], now.pos))] else []
    case StoreVar(v, c) =>
      if v < U.MAX_VARS && c < U.MAX_CAPS then [U.Store(U.SetVar(v, r.capStart[c], r.capEnd[c]))] else []
    case _ => []
  }

  /** The scalars behind one operation that ended at `pos`. */
  function Moved(p: Prim, now: U.Scalars, pos: nat, ip: nat): U.Scalars {
    var at := now.(pos := Word(pos), ip := Word(ip));
    match p
    case StartCap(c) => if c < U.MAX_CAPS then at.(maxCap := MaxByte(now.maxCap, c + 1)) else at
    case EndCap(c) =>
      if c < U.MAX_CAPS
      then at.(maxCap := MaxByte(now.maxCap, c + 1), varCount := MaxWord(now.varCount, c + 1))
      else at
    case StoreVar(v, c) =>
      if v < U.MAX_VARS && c < U.MAX_CAPS then at.(varCount := MaxWord(now.varCount, v + 1)) else at
    case _ => at
  }

  /** What one turn of the loop does to registers, log and choices, or how it ends. */
  datatype Plan = Act(ops: seq<U.Op>) | Done(v: Verdict)

  function Back(idle: bool): Plan { if idle then Done(Rejected) else Act([U.Pop]) }

  /** The state a plan is made from. */
  function StateOf(r: U.RegFile, now: U.Scalars): State {
    State(now.pos, r.capStart, r.capEnd, r.varStart, r.varEnd, now.varCount, now.maxCap)
  }

  /** `idle` when no choice point is left. */
  function PlanAt(env: Env, r: U.RegFile, now: U.Scalars, idle: bool): (p: Plan)
    ensures p.Act? ==> |p.ops| <= 3 && forall k :: 0 <= k < |p.ops| ==> U.Allowed(p.ops[k])
  {
    if now.ip >= |env.code| then Back(idle)
    else
      match Decode(env, now.ip)
      case Do(prim, next) =>
        (match PrimStep(env.subject, prim, StateOf(r, now))
         case None => Back(idle)
         case Some(st) => Act(Writes(prim, r, now) + [U.Move(Moved(prim, now, st.pos, next))]))
      case Fork(a, b) => Act([U.Push(Word(b), now.pos), U.Move(now.(ip := Word(a)))])
      case Go(t) => Act([U.Move(now.(ip := Word(t)))])
      case Retry(cls, next) =>
        var end := RunEnd(cls, env.subject, now.pos, false);
        var on := U.Move(now.(ip := Word(next), pos := Word(end)));
        (match PastDelimiter(env.subject, end)
         case None => Act([on])
         case Some(p) => Act([U.Push(now.ip, Word(p)), on]))
      case Cut(next) => Act([U.Cut, U.Move(now.(ip := Word(next)))])
      case Win => Done(Accepted(StateOf(r, now)))
      case Lose => Back(idle)
      case Stop => Done(Aborted)
      case Unmodelled => Done(Stuck)
  }

  /** The loop with the undo log: its verdict, if it halts within `n` turns. */
  function RunLogged(env: Env, m: U.Fast, n: nat): Option<Verdict>
    decreases n
  {
    match PlanAt(env, m.regs, m.now, m.choices == [])
    case Done(v) => Some(v)
    case Act(ops) => if n == 0 then None else RunLogged(env, U.RunFast(ops, m), n - 1)
  }

  function RunCopied(env: Env, m: U.Slow, n: nat): Option<Verdict>
    decreases n
  {
    match PlanAt(env, m.regs, m.now, m.choices == [])
    case Done(v) => Some(v)
    case Act(ops) => if n == 0 then None else RunCopied(env, U.RunSlow(ops, m), n - 1)
  }

  lemma {:induction false} LogGrows(ops: seq<U.Op>, m: U.Fast)
    requires forall k :: 0 <= k < |ops| ==> U.Allowed(ops[k])
    ensures |U.RunFast(ops, m).log| <= |m.log| + |ops|
    decreases |ops|
  {
    hide U.Replay, U.Written, U.Prior;
    if ops != [] { LogGrows(ops[1..], U.StepFast(ops[0], m)); }
  }

  /** The logging loop and the copying loop halt alike. */
  lemma {:induction false} LoggedIsCopied(env: Env, f: U.Fast, s: U.Slow, n: nat)
    requires U.Agree(f, s) && |f.log| + 3 * (n + 1) < U32
    ensures RunLogged(env, f, n) == RunCopied(env, s, n)
    decreases n
  {
    hide U.Restores, U.Ordered, U.RunFast, U.RunSlow, PlanAt;
    var plan := PlanAt(env, f.regs, f.now, f.choices == []);
    assert plan == PlanAt(env, s.regs, s.now, s.choices == []);
    if plan.Act? && n > 0 {
      U.RunsAgree(plan.ops, f, s);
      LogGrows(plan.ops, f);
      LoggedIsCopied(env, U.RunFast(plan.ops, f), U.RunSlow(plan.ops, s), n - 1);
    }
  }

  // ----- The copying loop and the loop on states -----

  predicate Bounded(env: Env, st: State) {
    st.pos <= |env.subject| && st.varCount <= U.MAX_VARS && st.maxCap <= U.MAX_CAPS
  }

  predicate MirrorsChoice(env: Env, snap: U.Snapshot, c: Choice) {
    snap.saved.ip == c.ip && StateOf(snap.regs, snap.saved) == c.st && Bounded(env, c.st)
  }

  predicate MirrorsChoices(env: Env, snaps: seq<U.Snapshot>, stack: seq<Choice>) {
    |snaps| == |stack| && forall k :: 0 <= k < |stack| ==> MirrorsChoice(env, snaps[k], stack[k])
  }

  predicate Mirrors(env: Env, m: U.Slow, ip: nat, st: State, stack: seq<Choice>) {
    && m.now.ip == ip && StateOf(m.regs, m.now) == st && Bounded(env, st)
    && MirrorsChoices(env, m.choices, stack)
  }

  /** Code and subject fit the machine. */
  predicate Fits(env: Env) { |env.code| < U32 && |env.subject| < 0x8000_0000_0000_0000 }

  lemma WordKeeps(n: nat)
    requires n < 0x1_0000_0000_0000_0000
    ensures Word(n) == n
  {
  }

  /** Everything decoding yields is small. */
  lemma DecodesSmall(env: Env, ip: nat)
    requires Fits(env) && ip < |env.code|
    ensures match Decode(env, ip)
      case Do(_, next) => next < 0x1_0000_0000_0000_0000
      case Fork(a, b) => a < U32 && b < U32
      case Go(t) => t < U32
      case Retry(_, next) => next < U32
      case Cut(next) => next <= U32
      case _ => true
  {
    hide U32At, U16At;
  }

  lemma {:induction false} RunOne(op: U.Op, m: U.Slow)
    requires U.Allowed(op)
    ensures U.RunSlow([op], m) == U.StepSlow(op, m)
  {
    hide U.StepSlow;
  }

  lemma RunTwo(a: U.Op, b: U.Op, m: U.Slow)
    requires U.Allowed(a) && U.Allowed(b)
    ensures U.RunSlow([a, b], m) == U.StepSlow(b, U.StepSlow(a, m))
  {
    hide U.StepSlow;
    assert [a, b][1..] == [b];
    RunOne(b, U.StepSlow(a, m));
  }

  lemma RunThree(a: U.Op, b: U.Op, c: U.Op, m: U.Slow)
    requires U.Allowed(a) && U.Allowed(b) && U.Allowed(c)
    ensures U.RunSlow([a, b, c], m) == U.StepSlow(c, U.StepSlow(b, U.StepSlow(a, m)))
  {
    hide U.StepSlow;
    assert [a, b, c][1..] == [b, c];
    RunTwo(b, c, U.StepSlow(a, m));
  }

  lemma BackMirrors(env: Env, m: U.Slow, ip: nat, st: State, stack: seq<Choice>)
    requires Mirrors(env, m, ip, st, stack)
    ensures stack == [] ==> Back(m.choices == []) == Done(Rejected)
    ensures stack != [] ==>
      (var top := stack[|stack| - 1];
       Back(m.choices == []) == Act([U.Pop])
       && Mirrors(env, U.RunSlow([U.Pop], m), top.ip, top.st, stack[..|stack| - 1]))
  {
    hide StateOf;
    if stack != [] {
      RunOne(U.Pop, m);
      assert MirrorsChoice(env, m.choices[|stack| - 1], stack[|stack| - 1]);
    }
  }

  /** One operation: its writes and its move leave the registers of the state it leads to. */
  lemma DoMirrors(env: Env, m: U.Slow, ip: nat, st: State, stack: seq<Choice>, prim: Prim, next: nat)
    requires Fits(env) && Mirrors(env, m, ip, st, stack) && next < 0x1_0000_0000_0000_0000
    requires PrimStep(env.subject, prim, st).Some?
    ensures var st' := PrimStep(env.subject, prim, st).value;
      var ops := Writes(prim, m.regs, m.now) + [U.Move(Moved(prim, m.now, st'.pos, next))];
      Mirrors(env, U.RunSlow(ops, m), next, st', stack)
  {
    hide ClassStep, CountStep, MirrorsChoices, U.RunSlow;
    var st' := PrimStep(env.subject, prim, st).value;
    var move := U.Move(Moved(prim, m.now, st'.pos, next));
    var ws := Writes(prim, m.regs, m.now);
    WordKeeps(next);
    WordKeeps(st'.pos);
    if |ws| == 0 {
      assert ws + [move] == [move];
      RunOne(move, m);
    } else if |ws| == 1 {
      assert ws + [move] == [ws[0], move];
      RunTwo(ws[0], move, m);
    } else {
      assert ws + [move] == [ws[0], ws[1], move];
      RunThree(ws[0], ws[1], move, m);
    }
  }

  /** A choice is pushed and the loop goes on elsewhere. */
  lemma PushMirrors(env: Env, m: U.Slow, ip: nat, st: State, stack: seq<Choice>, to: nat, at: nat, next: nat, pos: nat)
    requires Mirrors(env, m, ip, st, stack) && to < U32 && next < U32 && at <= |env.subject| && pos <= |env.subject|
    requires Fits(env)
    ensures var ops := [U.Push(Word(to), Word(at)), U.Move(m.now.(ip := Word(next), pos := Word(pos)))];
      Mirrors(env, U.RunSlow(ops, m), next, st.(pos := pos), stack + [Choice(to, st.(pos := at))])
  {
    hide U.RunSlow, Word;
    var push, move := U.Push(Word(to), Word(at)), U.Move(m.now.(ip := Word(next), pos := Word(pos)));
    WordKeeps(to);
    WordKeeps(next);
    WordKeeps(at);
    WordKeeps(pos);
    RunTwo(push, move, m);
    var m' := U.RunSlow([push, move], m);
    var stack' := stack + [Choice(to, st.(pos := at))];
    forall k | 0 <= k < |stack'| ensures MirrorsChoice(env, m'.choices[k], stack'[k]) {
      if k < |stack| { assert MirrorsChoice(env, m.choices[k], stack[k]); }
    }
  }

  lemma MoveMirrors(env: Env, m: U.Slow, ip: nat, st: State, stack: seq<Choice>, next: nat, pos: nat)
    requires Mirrors(env, m, ip, st, stack) && next <= U32 && pos <= |env.subject| && Fits(env)
    ensures var move := U.Move(m.now.(ip := Word(next), pos := Word(pos)));
      Mirrors(env, U.RunSlow([move], m), next, st.(pos := pos), stack)
      && Mirrors(env, U.RunSlow([U.Cut, move], m), next, st.(pos := pos), [])
  {
    hide U.RunSlow, Word, MirrorsChoice;
    var move := U.Move(m.now.(ip := Word(next), pos := Word(pos)));
    WordKeeps(next);
    WordKeeps(pos);
    RunOne(move, m);
    RunTwo(U.Cut, move, m);
  }

  /** One turn of the copying loop is one step of the loop on states. */
  ghost predicate FollowsStep(env: Env, m: U.Slow, plan: Plan, c: Config)
    requires plan.Act? ==> forall k :: 0 <= k < |plan.ops| ==> U.Allowed(plan.ops[k])
  {
    match c
    case Halted(v) => plan == Done(v)
    case Running(ip, st, stack) => plan.Act? && Mirrors(env, U.RunSlow(plan.ops, m), ip, st, stack)
  }

  lemma StepMirrors(env: Env, m: U.Slow, ip: nat, st: State, stack: seq<Choice>)
    requires Fits(env) && Mirrors(env, m, ip, st, stack)
    ensures FollowsStep(env, m, PlanAt(env, m.regs, m.now, m.choices == []), Step(env, Running(ip, st, stack)))
  {
    hide Decode, PrimStep, RunEnd, PastDelimiter, Mirrors, U.RunSlow, Writes, Moved, Word, StateOf;
    MirrorsHere(env, m, ip, st, stack);
    BackMirrors(env, m, ip, st, stack);
    WordKeeps(m.now.pos);
    WordKeeps(m.now.ip);
    if ip < |env.code| {
      DecodesSmall(env, ip);
      match Decode(env, ip)
      case Do(prim, next) =>
        if PrimStep(env.subject, prim, st).Some? { DoMirrors(env, m, ip, st, stack, prim, next); }
      case Fork(a, b) =>
        PushMirrors(env, m, ip, st, stack, b, st.pos, a, st.pos);
        Unmoved(m.now, st, a);
      case Go(t) =>
        MoveMirrors(env, m, ip, st, stack, t, st.pos);
        Unmoved(m.now, st, t);
      case Retry(cls, next) =>
        var end := RunEnd(cls, env.subject, st.pos, false);
        var p := PastDelimiter(env.subject, end);
        if p.Some? {
          PushMirrors(env, m, ip, st, stack, ip, p.value, next, end);
        } else {
          MoveMirrors(env, m, ip, st, stack, next, end);
        }
      case Cut(next) =>
        MoveMirrors(env, m, ip, st, stack, next, st.pos);
        Unmoved(m.now, st, next);
      case _ =>
    }
  }

  lemma Unmoved(now: U.Scalars, st: State, next: nat)
    requires now.pos == st.pos
    ensures now.(ip := Word(next), pos := Word(st.pos)) == now.(ip := Word(next)) && st.(pos := st.pos) == st
  {
    WordKeeps(now.pos);
  }

  lemma MirrorsHere(env: Env, m: U.Slow, ip: nat, st: State, stack: seq<Choice>)
    requires Mirrors(env, m, ip, st, stack)
    ensures m.now.ip == ip && StateOf(m.regs, m.now) == st && m.now.pos == st.pos <= |env.subject|
    ensures (m.choices == []) == (stack == [])
  {
  }

  /** The copying loop halts with a verdict exactly when the loop on states does. */
  lemma {:induction false} CopiedIsMachine(env: Env, m: U.Slow, ip: nat, st: State, stack: seq<Choice>, n: nat, v: Verdict)
    requires Fits(env) && Mirrors(env, m, ip, st, stack)
    ensures RunCopied(env, m, n) == Some(v) <==> Steps(env, Running(ip, st, stack), n + 1) == Halted(v)
    decreases n
  {
    hide PlanAt, Step, Mirrors, U.RunSlow;
    var c := Running(ip, st, stack);
    var plan := PlanAt(env, m.regs, m.now, m.choices == []);
    StepMirrors(env, m, ip, st, stack);
    var d := Step(env, c);
    assert Steps(env, c, n + 1) == Steps(env, d, n);
    match d
    case Halted(w) => HaltedStays(env, w, n);
    case Running(ip', st', stack') =>
      if n > 0 { CopiedIsMachine(env, U.RunSlow(plan.ops, m), ip', st', stack', n - 1, v); }
  }

  function Booted(st: State): (m: U.Scalars)
    requires st.pos < 0x1_0000_0000_0000_0000
  {
    U.START.(pos := st.pos)
  }

  /** A fresh attempt: cleared registers, an empty choice stack, whatever the log still holds. */
  lemma FreshMirrors(env: Env, pos: nat)
    requires Fits(env) && pos <= |env.subject|
    ensures Mirrors(env, U.Slow(U.NoRegs(), Booted(Fresh(pos)), []), 0, Fresh(pos), [])
  {
  }

  /** The loop with the undo log, started afresh on a log of any content, halts within a number of
      turns with exactly the verdict of the loop that copies states. */
  lemma LoggedMachineRuns(env: Env, pos: nat, log: seq<U.Undo>, n: nat, v: Verdict)
    requires Fits(env) && pos <= |env.subject| && |log| + 3 * (n + 1) < U32
    ensures RunLogged(env, U.Fast(U.NoRegs(), Booted(Fresh(pos)), log, []), n) == Some(v)
       <==> Steps(env, Running(0, Fresh(pos), []), n + 1) == Halted(v)
  {
    hide RunLogged, RunCopied, Steps, Mirrors;
    var f := U.Fast(U.NoRegs(), Booted(Fresh(pos)), log, []);
    var s := U.Slow(U.NoRegs(), Booted(Fresh(pos)), []);
    LoggedIsCopied(env, f, s, n);
    FreshMirrors(env, pos);
    CopiedIsMachine(env, s, 0, Fresh(pos), [], n, v);
  }
}
