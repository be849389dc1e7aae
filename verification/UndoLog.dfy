/** Backtracking by undo log: choice points keep only scalars and an index into a log of prior
    register values. The machine is proved to restore exactly what one that copies every register
    at each choice point restores. */
module UndoLog {
  import opened Wrappers
  import opened Bytes

  const MAX_LOOPS: nat := 16
  const MAX_CAPS: nat := 64
  const MAX_VARS: nat := 64

  type Word = x: int | 0 <= x < 0x1_0000_0000_0000_0000 witness 0

  /** The register file: loop counters and positions, captures, variables. */
  datatype Regs = Regs(
    counters: seq<Word>, lastPos: seq<Word>,
    capStart: seq<Word>, capEnd: seq<Word>,
    varStart: seq<Word>, varEnd: seq<Word>)
  {
    predicate Sized() {
      |counters| == |lastPos| == MAX_LOOPS && |capStart| == |capEnd| == MAX_CAPS && |varStart| == |varEnd| == MAX_VARS
    }
  }

  function Zeros(n: nat): (s: seq<Word>)
    ensures |s| == n
  {
    seq(n, _ => 0)
  }

  function NoRegs(): (r: Regs)
    ensures r.Sized()
  {
    Regs(Zeros(MAX_LOOPS), Zeros(MAX_LOOPS), Zeros(MAX_CAPS), Zeros(MAX_CAPS), Zeros(MAX_VARS), Zeros(MAX_VARS))
  }

  type RegFile = r: Regs | r.Sized() ghost witness NoRegs()

  /** One entry of the undo log. Captures name the half they restore: 0 start, 1 end, else both. */
  datatype Undo =
    | CounterDec(index: byte, count: Word, last: Word)
    | CapWrite(index: byte, sub: byte, start: Word, end: Word)
    | VarWrite(index: byte, start: Word, end: Word)

  /** Apply one entry. */
  function Undone(u: Undo, r: RegFile): RegFile {
    match u
    case CounterDec(i, count, last) =>
      if i < MAX_LOOPS then r.(counters := r.counters[i := count], lastPos := r.lastPos[i := last]) else r
    case CapWrite(i, sub, start, end) =>
      if i >= MAX_CAPS then r
      else if sub == 0 then r.(capStart := r.capStart[i := start])
      else if sub == 1 then r.(capEnd := r.capEnd[i := end])
      else r.(capStart := r.capStart[i := start], capEnd := r.capEnd[i := end])
    case VarWrite(i, start, end) =>
      if i < MAX_VARS then r.(varStart := r.varStart[i := start], varEnd := r.varEnd[i := end]) else r
  }

  /** Apply a stretch of the log, newest entry first. */
  function Replay(r: RegFile, log: seq<Undo>): RegFile
    decreases |log|
  {
    if log == [] then r else Replay(Undone(log[|log| - 1], r), log[..|log| - 1])
  }

  // ----- Recorded writes -----

  datatype Write =
    | SetLoop(index: byte, count: Word, last: Word)
    | SetCapStart(index: byte, start: Word)
    | SetCapEnd(index: byte, end: Word)
    | SetVar(index: byte, start: Word, end: Word)

  /** The register exists. */
  predicate InRange(w: Write) {
    match w
    case SetLoop(i, _, _) => i < MAX_LOOPS
    case SetCapStart(i, _) => i < MAX_CAPS
    case SetCapEnd(i, _) => i < MAX_CAPS
    case SetVar(i, _, _) => i < MAX_VARS
  }

  function Written(w: Write, r: RegFile): RegFile
    requires InRange(w)
  {
    match w
    case SetLoop(i, count, last) => r.(counters := r.counters[i := count], lastPos := r.lastPos[i := last])
    case SetCapStart(i, start) => r.(capStart := r.capStart[i := start])
    case SetCapEnd(i, end) => r.(capEnd := r.capEnd[i := end])
    case SetVar(i, start, end) => r.(varStart := r.varStart[i := start], varEnd := r.varEnd[i := end])
  }

  /** The entry logged before the write. */
  function Prior(w: Write, r: RegFile): Undo
    requires InRange(w)
  {
    match w
    case SetLoop(i, _, _) => CounterDec(i, r.counters[i], r.lastPos[i])
    case SetCapStart(i, _) => CapWrite(i, 0, r.capStart[i], r.capEnd[i])
    case SetCapEnd(i, _) => CapWrite(i, 1, r.capStart[i], r.capEnd[i])
    case SetVar(i, _, _) => VarWrite(i, r.varStart[i], r.varEnd[i])
  }

  lemma UndoCancels(w: Write, r: RegFile)
    requires InRange(w)
    ensures Undone(Prior(w, r), Written(w, r)) == r
  {
    var back := Undone(Prior(w, r), Written(w, r));
    assert back.counters == r.counters && back.lastPos == r.lastPos;
    assert back.capStart == r.capStart && back.capEnd == r.capEnd;
    assert back.varStart == r.varStart && back.varEnd == r.varEnd;
  }

  // ----- The two machines -----

  /** The scalars a choice record keeps. */
  datatype Scalars = Scalars(ip: Word, pos: Word, varCount: Word, maxCap: byte, maxCounter: byte)

  const START: Scalars := Scalars(0, 0, 0, 0, 0)

  datatype Header = Header(saved: Scalars, base: nat)

  /** The machine with the undo log. */
  datatype Fast = Fast(regs: RegFile, now: Scalars, log: seq<Undo>, choices: seq<Header>)

  datatype Snapshot = Snapshot(regs: RegFile, saved: Scalars)

  /** The machine that copies everything at each choice point. */
  datatype Slow = Slow(regs: RegFile, now: Scalars, choices: seq<Snapshot>)

  datatype Op =
    | Push(ip: Word, pos: Word)
    | Store(w: Write)
    | Move(to: Scalars)
    | Pop
    | Cut
    | Reset

  predicate Allowed(op: Op) { op.Store? ==> InRange(op.w) }

  /** Log offsets are stored in 32 bits. */
  function StepFast(op: Op, m: Fast): Fast
    requires Allowed(op)
  {
    match op
    case Push(ip, pos) => m.(choices := m.choices + [Header(m.now.(ip := ip, pos := pos), Low32(|m.log|))])
    case Store(w) => m.(log := m.log + [Prior(w, m.regs)], regs := Written(w, m.regs))
    case Move(to) => m.(now := to)
    case Pop =>
      if m.choices == [] then m
      else
        var top := m.choices[|m.choices| - 1];
        if top.base > |m.log| then m
        else
          Fast(Replay(m.regs, m.log[top.base..]), top.saved, m.log[..top.base], m.choices[..|m.choices| - 1])
    case Cut => m.(choices := [])
    case Reset => Fast(NoRegs(), START, m.log, [])
  }

  function StepSlow(op: Op, m: Slow): Slow
    requires Allowed(op)
  {
    match op
    case Push(ip, pos) => m.(choices := m.choices + [Snapshot(m.regs, m.now.(ip := ip, pos := pos))])
    case Store(w) => m.(regs := Written(w, m.regs))
    case Move(to) => m.(now := to)
    case Pop =>
      if m.choices == [] then m
      else
        var top := m.choices[|m.choices| - 1];
        Slow(top.regs, top.saved, m.choices[..|m.choices| - 1])
    case Cut => m.(choices := [])
    case Reset => Slow(NoRegs(), START, [])
  }

  /** Same registers and scalars; each choice undoes to the copy the other machine holds. */
  ghost predicate Agree(f: Fast, s: Slow) {
    && f.regs == s.regs && f.now == s.now && |f.choices| == |s.choices| && Ordered(f)
    && forall k :: 0 <= k < |f.choices| ==> Restores(f, k, s.choices[k])
  }

  ghost predicate Restores(f: Fast, k: nat, snap: Snapshot)
    requires k < |f.choices|
  {
    f.choices[k].saved == snap.saved
    && f.choices[k].base <= |f.log| && Replay(f.regs, f.log[f.choices[k].base..]) == snap.regs
  }

  predicate Ordered(f: Fast) {
    forall j, k :: 0 <= j < k < |f.choices| ==> f.choices[j].base <= f.choices[k].base
  }

  lemma ReplayLast(r: RegFile, log: seq<Undo>, u: Undo)
    ensures Replay(r, log + [u]) == Replay(Undone(u, r), log)
  {
    assert (log + [u])[..|log|] == log;
  }

  /** Replaying a stretch is replaying its newer part and then its older part. */
  lemma {:induction false} ReplaySplits(r: RegFile, older: seq<Undo>, newer: seq<Undo>)
    ensures Replay(r, older + newer) == Replay(Replay(r, newer), older)
    decreases |newer|
  {
    if newer == [] {
      assert older + newer == older;
    } else {
      var n := |newer| - 1;
      assert older + newer == (older + newer[..n]) + [newer[n]];
      ReplayLast(r, older + newer[..n], newer[n]);
      ReplaySplits(Undone(newer[n], r), older, newer[..n]);
    }
  }

  lemma StoreAgrees(w: Write, f: Fast, s: Slow)
    requires InRange(w) && Agree(f, s)
    ensures Agree(StepFast(Op.Store(w), f), StepSlow(Op.Store(w), s))
  {
    hide Written, Prior, Undone, Replay;
    var f' := StepFast(Op.Store(w), f);
    forall k | 0 <= k < |f.choices| ensures Restores(f', k, s.choices[k]) {
      var b := f.choices[k].base;
      assert Restores(f, k, s.choices[k]);
      assert f'.log[b..] == f.log[b..] + [Prior(w, f.regs)];
      ReplayLast(f'.regs, f.log[b..], Prior(w, f.regs));
      UndoCancels(w, f.regs);
    }
  }

  lemma PushAgrees(ip: Word, pos: Word, f: Fast, s: Slow)
    requires Agree(f, s) && |f.log| < U32
    ensures Agree(StepFast(Push(ip, pos), f), StepSlow(Push(ip, pos), s))
  {
    var f', s' := StepFast(Push(ip, pos), f), StepSlow(Push(ip, pos), s);
    forall j | 0 <= j < |f.choices| ensures f.choices[j].base <= |f.log| {
      assert Restores(f, j, s.choices[j]);
    }
    forall k | 0 <= k < |f'.choices| ensures Restores(f', k, s'.choices[k]) {
      if k < |f.choices| {
        assert Restores(f, k, s.choices[k]);
      } else {
        assert f.log[|f.log|..] == [];
      }
    }
  }

  lemma PopAgrees(f: Fast, s: Slow)
    requires Agree(f, s)
    ensures Agree(StepFast(Pop, f), StepSlow(Pop, s))
  {
    hide Undone;
    if f.choices != [] {
      var n := |f.choices| - 1;
      var top, f' := f.choices[n], StepFast(Pop, f);
      assert Restores(f, n, s.choices[n]);
      forall k | 0 <= k < n ensures Restores(f', k, s.choices[k]) {
        var b := f.choices[k].base;
        assert Restores(f, k, s.choices[k]);
        assert f.log[b..] == f.log[b..top.base] + f.log[top.base..];
        assert f'.log[b..] == f.log[b..top.base];
        ReplaySplits(f.regs, f.log[b..top.base], f.log[top.base..]);
      }
    }
  }

  /** Every operation keeps the two machines in agreement. */
  lemma StepAgrees(op: Op, f: Fast, s: Slow)
    requires Allowed(op) && Agree(f, s) && |f.log| < U32
    ensures Agree(StepFast(op, f), StepSlow(op, s))
    ensures |StepFast(op, f).log| <= |f.log| + 1
  {
    hide Replay, Written, Prior;
    match op
    case Push(ip, pos) => PushAgrees(ip, pos, f, s);
    case Store(w) => StoreAgrees(w, f, s);
    case Pop => PopAgrees(f, s);
    case Move(to) =>
      forall k | 0 <= k < |f.choices| ensures Restores(StepFast(op, f), k, s.choices[k]) {
        assert Restores(f, k, s.choices[k]);
      }
    case Cut =>
    case Reset =>
  }

  function RunFast(ops: seq<Op>, m: Fast): Fast
    requires forall k :: 0 <= k < |ops| ==> Allowed(ops[k])
    decreases |ops|
  {
    if ops == [] then m else RunFast(ops[1..], StepFast(ops[0], m))
  }

  function RunSlow(ops: seq<Op>, m: Slow): Slow
    requires forall k :: 0 <= k < |ops| ==> Allowed(ops[k])
    decreases |ops|
  {
    if ops == [] then m else RunSlow(ops[1..], StepSlow(ops[0], m))
  }

  /** Over every run of pushes, logged writes, pops, cuts and resets, from any agreeing pair, the
      machine with the log has the registers and scalars of the one that copies them. */
  lemma {:induction false} RunsAgree(ops: seq<Op>, f: Fast, s: Slow)
    requires (forall k :: 0 <= k < |ops| ==> Allowed(ops[k])) && Agree(f, s)
    requires |f.log| + |ops| < U32
    ensures Agree(RunFast(ops, f), RunSlow(ops, s))
    decreases |ops|
  {
    hide StepFast, StepSlow, Agree;
    if ops != [] {
      StepAgrees(ops[0], f, s);
      RunsAgree(ops[1..], StepFast(ops[0], f), StepSlow(ops[0], s));
    }
  }

  // ----- Writes that are not logged -----

  function WithLoop(r: RegFile, i: nat, count: Word, last: Word): RegFile
    requires i < MAX_LOOPS
  {
    r.(counters := r.counters[i := count], lastPos := r.lastPos[i := last])
  }

  /** The stretch of log restores this loop's registers anyway. */
  predicate Covers(log: seq<Undo>, i: nat) {
    exists k :: 0 <= k < |log| && log[k].CounterDec? && log[k].index == i
  }

  lemma WithLoopCommutes(u: Undo, r: RegFile, i: nat, count: Word, last: Word)
    requires i < MAX_LOOPS
    ensures if u.CounterDec? && u.index == i
      then Undone(u, WithLoop(r, i, count, last)) == Undone(u, r)
      else Undone(u, WithLoop(r, i, count, last)) == WithLoop(Undone(u, r), i, count, last)
    ensures !(u.CounterDec? && u.index == i) ==>
      Undone(u, r).counters[i] == r.counters[i] && Undone(u, r).lastPos[i] == r.lastPos[i]
  {
  }

  /** A loop register written without a log entry comes back at the next pop exactly when the log
      since that choice restores it anyway, or the write changed nothing. */
  lemma {:induction false} UnloggedWriteExact(r: RegFile, log: seq<Undo>, i: nat, count: Word, last: Word)
    requires i < MAX_LOOPS
    ensures Replay(WithLoop(r, i, count, last), log) == Replay(r, log)
       <==> Covers(log, i) || (r.counters[i] == count && r.lastPos[i] == last)
    decreases |log|
  {
    hide Undone;
    if log == [] {
      assert WithLoop(r, i, count, last).counters[i] == count && WithLoop(r, i, count, last).lastPos[i] == last;
      if r.counters[i] == count && r.lastPos[i] == last {
        assert r.counters[i := count] == r.counters && r.lastPos[i := last] == r.lastPos;
      }
    } else {
      var n := |log| - 1;
      var u, rest := log[n], log[..n];
      WithLoopCommutes(u, r, i, count, last);
      assert Covers(log, i) <==> Covers(rest, i) || (u.CounterDec? && u.index == i) by {
        assert log == rest + [u];
        if Covers(rest, i) {
          var k :| 0 <= k < |rest| && rest[k].CounterDec? && rest[k].index == i;
          assert log[k] == rest[k];
        }
      }
      if !(u.CounterDec? && u.index == i) {
        UnloggedWriteExact(Undone(u, r), rest, i, count, last);
      }
    }
  }

  /** What REPEAT_INIT does to a loop's registers: both are overwritten, nothing is logged. */
  function LoopInit(f: Fast, i: nat): Fast
    requires i < MAX_LOOPS
  {
    f.(regs := WithLoop(f.regs, i, 0, f.now.pos))
  }

  function LoopInitSlow(s: Slow, i: nat): Slow
    requires i < MAX_LOOPS
  {
    s.(regs := WithLoop(s.regs, i, 0, s.now.pos))
  }

  /** Loop `i` was stepped since choice `k` was pushed. */
  predicate CoveredSince(f: Fast, k: nat, i: nat)
    requires k < |f.choices|
  {
    f.choices[k].base <= |f.log| && Covers(f.log[f.choices[k].base..], i)
  }

  /** Entering a loop keeps the machines in agreement exactly when, for every live choice, the loop
      was stepped since that choice, or its registers already held the initial values. */
  lemma LoopInitExact(f: Fast, s: Slow, i: nat)
    requires i < MAX_LOOPS && Agree(f, s)
    ensures Agree(LoopInit(f, i), LoopInitSlow(s, i))
       <==> forall k :: 0 <= k < |f.choices| ==>
              CoveredSince(f, k, i) || (f.regs.counters[i] == 0 && f.regs.lastPos[i] == f.now.pos)
  {
    hide Covers, Replay, WithLoop;
    var f', s' := LoopInit(f, i), LoopInitSlow(s, i);
    forall k | 0 <= k < |f.choices|
      ensures Restores(f', k, s.choices[k])
         <==> CoveredSince(f, k, i) || (f.regs.counters[i] == 0 && f.regs.lastPos[i] == f.now.pos)
    {
      assert Restores(f, k, s.choices[k]);
      UnloggedWriteExact(f.regs, f.log[f.choices[k].base..], i, 0, f.now.pos);
    }
  }

  /** A run in which it matters: a loop stepped once, a choice point, and the loop entered again.
      The pop leaves the counter at 0 where it was 1 when the choice was pushed. */
  lemma LoopInitLoses(m: Fast, ip: Word)
    requires m.choices == [] && |m.log| + 1 < U32
    ensures var pushed := StepFast(Push(ip, m.now.pos), StepFast(Op.Store(SetLoop(0, 1, 0)), m));
      pushed.regs.counters[0] == 1 && StepFast(Pop, LoopInit(pushed, 0)).regs.counters[0] == 0
  {
    hide Undone;
    var stepped := StepFast(Op.Store(SetLoop(0, 1, 0)), m);
    var pushed := StepFast(Push(ip, m.now.pos), stepped);
    var n := |pushed.log|;
    assert pushed.choices == [Header(m.now.(ip := ip), n)];
    assert LoopInit(pushed, 0).log[n..] == [];
  }

  /** Counters are 32 bits wide. */
  function Stepped(count: Word): Word {
    var c: int := count;
    Low32(c + 1)
  }

  /** A round of REPEAT_STEP that goes on: the count is logged and stepped, the exit choice is pushed,
      and only then is the loop's position brought up to date, without a log entry. */
  function LoopStep(f: Fast, i: byte, ip: Word): Fast
    requires i < MAX_LOOPS
  {
    var stepped := StepFast(Op.Store(SetLoop(i, Stepped(f.regs.counters[i]), f.regs.lastPos[i])), f);
    var pushed := StepFast(Push(ip, f.now.pos), stepped);
    pushed.(regs := WithLoop(pushed.regs, i, pushed.regs.counters[i], f.now.pos))
  }

  /** `n` such rounds. */
  function Rounds(f: Fast, i: byte, ip: Word, n: nat): Fast
    requires i < MAX_LOOPS
  {
    if n == 0 then f else LoopStep(Rounds(f, i, ip, n - 1), i, ip)
  }

  /** Rounds are counted modulo 2^32; each leaves one choice, and the loop's position where the cursor is. */
  lemma {:induction false} RoundsAreCounted(f: Fast, i: byte, ip: Word, n: nat)
    requires i < MAX_LOOPS
    ensures var g := Rounds(f, i, ip, n);
      && g.regs.counters[i] == (if n == 0 then f.regs.counters[i] else (f.regs.counters[i] + n) % U32)
      && (n > 0 ==> g.regs.lastPos[i] == g.now.pos)
      && g.now.pos == f.now.pos && |g.choices| == |f.choices| + n
      && (forall k :: 0 <= k < MAX_LOOPS && k != i ==>
           g.regs.counters[k] == f.regs.counters[k] && g.regs.lastPos[k] == f.regs.lastPos[k])
    decreases n
  {
    if n > 0 {
      RoundsAreCounted(f, i, ip, n - 1);
      var g := Rounds(f, i, ip, n - 1);
      var w := SetLoop(i, Stepped(g.regs.counters[i]), g.regs.lastPos[i]);
      LoopWritten(w, g.regs);
      var count: nat := f.regs.counters[i] + n - 1;
      OneMore(count);
      assert Rounds(f, i, ip, n).regs.counters[i] == Stepped(g.regs.counters[i]);
      assert Stepped(g.regs.counters[i]) == (if n == 1 then count + 1 else count % U32 + 1) % U32;
      assert count + 1 == f.regs.counters[i] + n;
    }
  }

  lemma OneMore(v: nat)
    ensures (v % U32 + 1) % U32 == (v + 1) % U32
  {
  }

  function LoopStepSlow(s: Slow, i: byte, ip: Word): Slow
    requires i < MAX_LOOPS
  {
    var stepped := StepSlow(Op.Store(SetLoop(i, Stepped(s.regs.counters[i]), s.regs.lastPos[i])), s);
    var pushed := StepSlow(Push(ip, s.now.pos), stepped);
    pushed.(regs := WithLoop(pushed.regs, i, pushed.regs.counters[i], s.now.pos))
  }

  /** The exit choice pushed by such a round undoes to the copied registers exactly when the round
      made no progress; the choices below it always do. */
  lemma LoopStepExact(f: Fast, s: Slow, i: byte, ip: Word)
    requires i < MAX_LOOPS && Agree(f, s) && |f.log| + 1 < U32
    ensures Agree(LoopStep(f, i, ip), LoopStepSlow(s, i, ip)) <==> f.regs.lastPos[i] == f.now.pos
    ensures forall k :: 0 <= k < |f.choices| ==> Restores(LoopStep(f, i, ip), k, s.choices[k])
  {
    hide Replay, Covers, Undone, Written;
    var w := SetLoop(i, Stepped(f.regs.counters[i]), f.regs.lastPos[i]);
    var g, t := StepFast(Op.Store(w), f), StepSlow(Op.Store(w), s);
    StoreAgrees(w, f, s);
    PushAgrees(ip, f.now.pos, g, t);
    var p, q := StepFast(Push(ip, f.now.pos), g), StepSlow(Push(ip, f.now.pos), t);
    assert p.regs.lastPos[i] == f.regs.lastPos[i] by { LoopWritten(w, f.regs); }
    var p', q' := LoopStep(f, i, ip), LoopStepSlow(s, i, ip);
    forall k | 0 <= k < |p.choices|
      ensures Restores(p', k, q.choices[k]) <==> k < |f.choices| || f.regs.lastPos[i] == f.now.pos
    {
      assert Restores(p, k, q.choices[k]);
      UnloggedWriteExact(p.regs, p.log[p.choices[k].base..], i, p.regs.counters[i], f.now.pos);
      if k < |f.choices| {
        assert Restores(f, k, s.choices[k]);
        LastEntryCovers(p.log[p.choices[k].base..], i);
      } else {
        EmptyCovers(p.log[p.choices[k].base..], i);
      }
    }
    assert q'.choices == q.choices && q.choices[..|s.choices|] == s.choices;
    hide Restores, WithLoop;
    forall k | 0 <= k < |f.choices| ensures Restores(p', k, s.choices[k]) {
      assert q.choices[k] == s.choices[k];
    }
    if Agree(p', q') { assert Restores(p', |f.choices|, q'.choices[|f.choices|]); }
  }

  lemma LoopWritten(w: Write, r: RegFile)
    requires w.SetLoop? && InRange(w)
    ensures Written(w, r).lastPos[w.index] == w.last
  {
  }

  lemma LastEntryCovers(log: seq<Undo>, i: nat)
    requires log != [] && log[|log| - 1].CounterDec? && log[|log| - 1].index == i
    ensures Covers(log, i)
  {
  }

  lemma EmptyCovers(log: seq<Undo>, i: nat)
    requires log == []
    ensures !Covers(log, i)
  {
  }
}
