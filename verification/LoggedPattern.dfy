/** A compiled pattern on the machine with the undo log: the verdict is the one its meaning prescribes,
    whatever an earlier attempt left in the log. */
module LoggedPattern {
  import opened Wrappers
  import opened Bytes
  import opened Bytecode
  import opened Semantics
  import opened Machine
  import opened CodeMeaning
  import opened Pattern
  import opened Translate
  import opened Compiler
  import opened EndToEnd
  import opened LoggedMachine
  import U = UndoLog

  /** The machine as it is reset for an attempt at the start of the subject. */
  function ResetMachine(log: seq<U.Undo>): U.Fast { U.Fast(U.NoRegs(), Booted(Fresh(0)), log, []) }

  lemma HaltsOnce(env: Env, c: Config, m: nat, n: nat, v: Verdict)
    requires Steps(env, c, m) == Halted(v) && m <= n
    ensures Steps(env, c, n) == Halted(v)
  {
    hide Step;
    StepsAdd(env, c, m, n - m);
    HaltedStays(env, v, n - m);
  }

  /** When the machine halts it has the meant verdict, and it does halt within some number of turns
      unless the log offsets run out before. */
  lemma LoggedPatternRuns(a: Ast, s: seq<byte>) returns (enough: nat)
    requires Matchable(a) && Compiled(a).Some? && |Compiled(a).value| < U32 && FusesCleanly(a, s)
    requires |s| < 0x8000_0000_0000_0000
    ensures forall log: seq<U.Undo>, n: nat | |log| + 3 * (n + 1) < U32 ::
      var r := RunLogged(Boot(Compiled(a).value, s), ResetMachine(log), n);
      r.Some? ==> r == Some(MeantVerdict(a, s, Fresh(0)))
    ensures forall log: seq<U.Undo>, n: nat | enough <= n && |log| + 3 * (n + 1) < U32 ::
      RunLogged(Boot(Compiled(a).value, s), ResetMachine(log), n) == Some(MeantVerdict(a, s, Fresh(0)))
  {
    hide Matchable, Compiled, FusesCleanly, RunLogged, Steps, MeantVerdict;
    var env, want := Boot(Compiled(a).value, s), MeantVerdict(a, s, Fresh(0));
    forall log: seq<U.Undo>, n: nat | |log| + 3 * (n + 1) < U32
      ensures var r := RunLogged(env, ResetMachine(log), n); r.Some? ==> r == Some(want)
    {
      var r := RunLogged(env, ResetMachine(log), n);
      if r.Some? {
        LoggedMachineRuns(env, 0, log, n, r.value);
        CompiledPatternRuns(a, s, Fresh(0), r.value);
      }
    }
    CompiledPatternRuns(a, s, Fresh(0), want);
    enough :| Steps(env, Running(0, Fresh(0), []), enough) == Halted(want);
    forall log: seq<U.Undo>, n: nat | enough <= n && |log| + 3 * (n + 1) < U32
      ensures RunLogged(env, ResetMachine(log), n) == Some(want)
    {
      HaltsOnce(env, Running(0, Fresh(0), []), enough, n + 1, want);
      LoggedMachineRuns(env, 0, log, n, want);
    }
  }
}
