/** The dispatch loop of vm_run as a state machine with an explicit choice stack, and its
    agreement with the recursive evaluation. */
module Machine {
  import opened Wrappers
  import opened Bytes
  import opened Utf8
  import opened Ranges
  import opened Bytecode
  import opened Semantics

  /** A choice point: where to resume, and the whole state to resume with. */
  datatype Choice = Choice(ip: nat, st: State)

  datatype Config =
    | Running(ip: nat, st: State, stack: seq<Choice>)
    | Halted(v: Verdict)

  /** Resume the newest choice point; without one the match has failed. */
  function Backtrack(stack: seq<Choice>): Config {
    if stack == [] then Halted(Rejected)
    else
      var top := stack[|stack| - 1];
      Running(top.ip, top.st, stack[..|stack| - 1])
  }

  /** One turn of the dispatch loop. */
  function Step(env: Env, c: Config): Config {
    match c
    case Halted(_) => c
    case Running(ip, st, stack) =>
      if ip >= |env.code| then Backtrack(stack)
      else
        match Decode(env, ip)
        case Do(prim, next) =>
          (match PrimStep(env.subject, prim, st)
           case None => Backtrack(stack)
           case Some(st') => Running(next, st', stack))
        case Fork(a, b) => Running(a, st, stack + [Choice(b, st)])
        case Go(t) => Running(t, st, stack)
        case Retry(cls, next) =>
          var end := RunEnd(cls, env.subject, st.pos, false);
          (match PastDelimiter(env.subject, end)
           case None => Running(next, st.(pos := end), stack)
           case Some(p) => Running(next, st.(pos := end), stack + [Choice(ip, st.(pos := p))]))
        case Cut(next) => Running(next, st, [])
        case Win => Halted(Accepted(st))
        case Lose => Backtrack(stack)
        case Stop => Halted(Aborted)
        case Unmodelled => Halted(Stuck)
  }

  function Steps(env: Env, c: Config, n: nat): Config
    decreases n
  {
    if n == 0 then c else Steps(env, Step(env, c), n - 1)
  }

  lemma {:induction false} StepsAdd(env: Env, c: Config, m: nat, n: nat)
    ensures Steps(env, c, m + n) == Steps(env, Steps(env, c, m), n)
    decreases m
  {
    hide Step;
    if m > 0 {
      StepsAdd(env, Step(env, c), m - 1, n);
    }
  }

  lemma {:induction false} HaltedStays(env: Env, v: Verdict, n: nat)
    ensures Steps(env, Halted(v), n) == Halted(v)
    decreases n
  {
    if n > 0 { HaltedStays(env, v, n - 1); }
  }

  /** What the loop does next once evaluation from its current point has ended in `r`. */
  function After(r: Result, stack: seq<Choice>): Config
    requires !r.OutOfFuel?
  {
    if r.Exhausted? then Backtrack(stack) else Halted(r.v)
  }

  /** Number of turns the loop takes to carry out an evaluation that does not run dry. */
  lemma {:induction false} LoopFollowsEval(env: Env, ip: nat, st: State, f: nat, stack: seq<Choice>)
    returns (n: nat)
    requires !Eval(env, ip, st, f).OutOfFuel?
    ensures Steps(env, Running(ip, st, stack), n) == After(Eval(env, ip, st, f), stack)
    ensures n >= 1
    decreases f, 0
  {
    hide PrimStep, RunEnd, PastDelimiter, Decode;
    var c := Running(ip, st, stack);
    n := 1;
    assert Steps(env, c, 1) == Step(env, c);
    if ip < |env.code| {
      match Decode(env, ip)
      case Do(prim, next) =>
        var r := PrimStep(env.subject, prim, st);
        if r.Some? {
          var k := LoopFollowsEval(env, next, r.value, f - 1, stack);
          StepsAdd(env, c, 1, k);
          n := 1 + k;
        }
      case Fork(a, b) =>
        n := LoopForks(env, ip, a, st, b, st, f - 1, c, stack);
      case Go(t) =>
        var k := LoopFollowsEval(env, t, st, f - 1, stack);
        StepsAdd(env, c, 1, k);
        n := 1 + k;
      case Retry(cls, next) =>
        var end := RunEnd(cls, env.subject, st.pos, false);
        var p := PastDelimiter(env.subject, end);
        if p.Some? {
          n := LoopForks(env, ip, next, st.(pos := end), ip, st.(pos := p.value), f - 1, c, stack);
        } else {
          var k := LoopFollowsEval(env, next, st.(pos := end), f - 1, stack);
          StepsAdd(env, c, 1, k);
          n := 1 + k;
        }
      case Cut(next) =>
        var k := LoopFollowsEval(env, next, st, f - 1, []);
        StepsAdd(env, c, 1, k);
        n := 1 + k;
      case _ =>
    }
  }

  /** Both SPLIT and BREAKX push one choice: run the first branch, then the second if needed. */
  lemma {:induction false} LoopForks(env: Env, ip: nat, a: nat, sa: State, b: nat, sb: State, f: nat,
                                     c: Config, stack: seq<Choice>)
    returns (n: nat)
    requires Step(env, c) == Running(a, sa, stack + [Choice(b, sb)])
    requires !Eval(env, a, sa, f).OutOfFuel?
    requires Eval(env, a, sa, f).Exhausted? ==> !Eval(env, b, sb, f).OutOfFuel?
    ensures n >= 1
    ensures Steps(env, c, n)
         == After(if Eval(env, a, sa, f).Exhausted? then Eval(env, b, sb, f) else Eval(env, a, sa, f), stack)
    decreases f, 1
  {
    hide Step, Eval;
    var deeper := stack + [Choice(b, sb)];
    assert deeper[..|deeper| - 1] == stack;
    assert Steps(env, c, 1) == Step(env, c);
    var k := LoopFollowsEval(env, a, sa, f, deeper);
    StepsAdd(env, c, 1, k);
    n := 1 + k;
    if Eval(env, a, sa, f).Exhausted? {
      var m := LoopFollowsEval(env, b, sb, f, stack);
      StepsAdd(env, c, n, m);
      n := n + m;
    }
  }

  /** An evaluation that runs dry after `f` levels keeps the loop busy for `f` turns. */
  lemma {:induction false} LoopOutlastsEval(env: Env, ip: nat, st: State, f: nat, stack: seq<Choice>)
    requires Eval(env, ip, st, f).OutOfFuel?
    ensures Steps(env, Running(ip, st, stack), f).Running?
    decreases f, 0
  {
    hide PrimStep, RunEnd, PastDelimiter, Decode;
    if f > 0 {
      var c := Running(ip, st, stack);
      match Decode(env, ip)
      case Do(prim, next) =>
        var r := PrimStep(env.subject, prim, st);
        LoopOutlastsEval(env, next, r.value, f - 1, stack);
      case Fork(a, b) => ForkOutlasts(env, a, st, b, st, f - 1, stack);
      case Go(t) => LoopOutlastsEval(env, t, st, f - 1, stack);
      case Retry(cls, next) =>
        var end := RunEnd(cls, env.subject, st.pos, false);
        var p := PastDelimiter(env.subject, end);
        if p.Some? {
          ForkOutlasts(env, next, st.(pos := end), ip, st.(pos := p.value), f - 1, stack);
        } else {
          LoopOutlastsEval(env, next, st.(pos := end), f - 1, stack);
        }
      case Cut(next) => LoopOutlastsEval(env, next, st, f - 1, []);
    }
  }

  lemma {:induction false} ForkOutlasts(env: Env, a: nat, sa: State, b: nat, sb: State, f: nat, stack: seq<Choice>)
    requires Eval(env, a, sa, f).OutOfFuel?
          || (Eval(env, a, sa, f).Exhausted? && Eval(env, b, sb, f).OutOfFuel?)
    ensures Steps(env, Running(a, sa, stack + [Choice(b, sb)]), f).Running?
    decreases f, 1
  {
    hide Step, Eval;
    var deeper := stack + [Choice(b, sb)];
    var c := Running(a, sa, deeper);
    if Eval(env, a, sa, f).OutOfFuel? {
      LoopOutlastsEval(env, a, sa, f, deeper);
    } else {
      assert deeper[..|deeper| - 1] == stack;
      var k := LoopFollowsEval(env, a, sa, f, deeper);
      LoopOutlastsEval(env, b, sb, f, stack);
      StepsAdd(env, c, k, f);
      StillRunning(env, c, f, k);
    }
  }

  lemma StillRunning(env: Env, c: Config, m: nat, n: nat)
    requires Steps(env, c, m + n).Running?
    ensures Steps(env, c, m).Running?
  {
    hide Step;
    StepsAdd(env, c, m, n);
    var d := Steps(env, c, m);
    if d.Halted? {
      HaltedStays(env, d.v, n);
    }
  }

  /** The verdict of a match attempt that starts at `ip` with an empty choice stack. */
  ghost predicate Runs(env: Env, ip: nat, st: State, v: Verdict) {
    exists n: nat :: Steps(env, Running(ip, st, []), n) == Halted(v)
  }

  function VerdictOf(r: Result): Verdict
    requires !r.OutOfFuel?
  {
    if r.Exhausted? then Rejected else r.v
  }

  /** The loop halts with a verdict exactly when the recursive evaluation ends in it. */
  lemma LoopMatchesEval(env: Env, ip: nat, st: State, v: Verdict)
    ensures Runs(env, ip, st, v) <==> exists r: Result :: Yields(env, ip, st, r) && VerdictOf(r) == v
  {
    hide Step, Eval;
    if exists r: Result :: Yields(env, ip, st, r) && VerdictOf(r) == v {
      var r: Result :| Yields(env, ip, st, r) && VerdictOf(r) == v;
      var f: nat :| Eval(env, ip, st, f) == r;
      var n := LoopFollowsEval(env, ip, st, f, []);
    }
    if Runs(env, ip, st, v) {
      var n: nat :| Steps(env, Running(ip, st, []), n) == Halted(v);
      var r := Eval(env, ip, st, n);
      if r.OutOfFuel? {
        LoopOutlastsEval(env, ip, st, n, []);
        assert false;
      }
      assert Yields(env, ip, st, r);
      var m := LoopFollowsEval(env, ip, st, n, []);
      VerdictIsUnique(env, Running(ip, st, []), n, v, m, VerdictOf(r));
    }
  }

  lemma VerdictIsUnique(env: Env, c: Config, m: nat, v: Verdict, n: nat, w: Verdict)
    requires Steps(env, c, m) == Halted(v) && Steps(env, c, n) == Halted(w)
    ensures v == w
  {
    hide Step;
    StepsAdd(env, c, m, n);
    StepsAdd(env, c, n, m);
    HaltedStays(env, v, n);
    HaltedStays(env, w, m);
  }
}
