/** What a match attempt at an offset means: a fresh match of the pattern on the rest of the subject. */
module Attempts {
  import opened Bytes
  import opened Semantics
  import opened Outcomes
  import opened Pattern
  import opened EndToEnd
  import opened Search

  function AttemptOf(v: Verdict): Attempt {
    match v
    case Accepted(end) => Hit(end.pos)
    case Aborted => Aborts
    case _ => Miss
  }

  /** A fresh match on the rest of the subject. */
  function MeantAttempt(a: Ast, s: seq<byte>, off: nat): Attempt
    requires Matchable(a)
  {
    if off <= |s| then AttemptOf(MeantVerdict(a, s[off..], Fresh(0))) else Miss
  }

  function MeantAttempts(a: Ast, s: seq<byte>): nat -> Attempt
    requires Matchable(a)
  {
    (off: nat) => MeantAttempt(a, s, off)
  }

  /** The verdict that the pattern means at an offset. */
  function VerdictAt(a: Ast, s: seq<byte>, off: nat): Verdict
    requires Matchable(a) && off <= |s|
  {
    MeantVerdict(a, s[off..], Fresh(0))
  }

  /** From `from` on the pattern neither matches nor aborts in front of `to`. */
  ghost predicate NoneBefore(a: Ast, s: seq<byte>, from: nat, to: nat)
    requires Matchable(a) && to <= |s| + 1
  {
    forall k: nat :: from <= k < to ==> !VerdictAt(a, s, k).Accepted? && !VerdictAt(a, s, k).Aborted?
  }

  /** The first offset from `from` on at which the pattern matches, with the end of that match, unless it aborts before;
      or nothing, when there is no such offset. */
  ghost predicate LeftmostMeant(a: Ast, s: seq<byte>, from: nat, r: SearchResult)
    requires Matchable(a)
  {
    match r
    case Found(p, e) =>
      from <= p <= |s| && NoneBefore(a, s, from, p) && VerdictAt(a, s, p).Accepted? && e == p + VerdictAt(a, s, p).st.pos
    case Cancelled =>
      exists p: nat :: from <= p <= |s| && NoneBefore(a, s, from, p) && VerdictAt(a, s, p).Aborted?
    case NotFound => NoneBefore(a, s, from, |s| + 1)
  }

  /** The plain scan finds the leftmost match that the pattern means. */
  lemma {:induction false} ScanMeans(a: Ast, s: seq<byte>, from: nat)
    requires Matchable(a)
    ensures LeftmostMeant(a, s, from, PlainScan(MeantAttempts(a, s), from, |s|))
    decreases if from <= |s| then |s| + 1 - from else 0
  {
    hide MeantVerdict;
    if from <= |s| {
      var v := VerdictAt(a, s, from);
      assert MeantAttempts(a, s)(from) == AttemptOf(v);
      if v.Aborted? {
        assert NoneBefore(a, s, from, from);
      } else if !v.Accepted? {
        ScanMeans(a, s, from + 1);
        OneFurther(a, s, from, PlainScan(MeantAttempts(a, s), from + 1, |s|));
      }
    }
  }

  lemma OneFurther(a: Ast, s: seq<byte>, from: nat, r: SearchResult)
    requires Matchable(a) && from <= |s| && !VerdictAt(a, s, from).Accepted? && !VerdictAt(a, s, from).Aborted?
    requires LeftmostMeant(a, s, from + 1, r)
    ensures LeftmostMeant(a, s, from, r)
  {
    hide VerdictAt;
    forall to: nat | to <= |s| + 1 && NoneBefore(a, s, from + 1, to) ensures NoneBefore(a, s, from, to) {
    }
  }

  /** There is only one such result. */
  lemma LeftmostIsUnique(a: Ast, s: seq<byte>, from: nat, q: SearchResult, r: SearchResult)
    requires Matchable(a) && LeftmostMeant(a, s, from, q) && LeftmostMeant(a, s, from, r)
    ensures q == r
  {
    hide VerdictAt;
  }

  /** ABORT does not occur. */
  predicate NoAbort(a: Ast) {
    match a
    case Concat(ps) => forall k :: 0 <= k < |ps| ==> NoAbort(ps[k])
    case Alt(l, r) => NoAbort(l) && NoAbort(r)
    case Cap(_, sub) => NoAbort(sub)
    case DynamicEval(e) => NoAbort(e)
    case LabelNode(_, target) => NoAbort(target)
    case Control(op) => !op.Abort?
    case _ => true
  }

  predicate Calm(o: Outcome) { o.fin != Decided(Aborted) }

  lemma {:induction false} NeverAborts(a: Ast, s: seq<byte>, st: State)
    requires Matchable(a) && NoAbort(a)
    ensures Calm(Meaning(a, s, st))
    decreases a, 0, 0
  {
    hide PrimStep, BreakXStates, SetVar, CloseAll;
    match a
    case Concat(ps) =>
      PartsNeverAbort(ps, s, st);
    case Alt(l, r) =>
      NeverAborts(l, s, st);
      NeverAborts(r, s, st);
    case Cap(reg, sub) =>
      NeverAborts(sub, s, SetCapStart(st, Low8(reg)));
      CloseCalm(Meaning(sub, s, SetCapStart(st, Low8(reg))), Low8(reg));
    case DynamicEval(e) => NeverAborts(e, s, st);
    case LabelNode(_, target) => NeverAborts(target, s, st);
    case _ =>
  }

  lemma {:induction false} CloseCalm(o: Outcome, reg: nat)
    requires Calm(o)
    ensures Calm(CloseAll(o, reg))
    decreases |o.states|
  {
    if o.states != [] { CloseCalm(Outcome(o.states[1..], o.fin), reg); }
  }

  lemma {:induction false} PartsNeverAbort(ps: seq<Ast>, s: seq<byte>, st: State)
    requires forall k :: 0 <= k < |ps| ==> Matchable(ps[k]) && NoAbort(ps[k])
    ensures Calm(MeaningAll(ps, s, st))
    decreases ps, 0, 0
  {
    hide Meaning, Matchable, NoAbort;
    if ps != [] {
      NeverAborts(ps[0], s, st);
      EachNeverAborts(ps[1..], s, Meaning(ps[0], s, st));
    }
  }

  lemma {:induction false} EachNeverAborts(ps: seq<Ast>, s: seq<byte>, o: Outcome)
    requires (forall k :: 0 <= k < |ps| ==> Matchable(ps[k]) && NoAbort(ps[k])) && Calm(o)
    ensures Calm(MeaningEach(ps, s, o))
    decreases ps, 1, |o.states|
  {
    hide MeaningAll, Matchable, NoAbort;
    if o.states != [] {
      PartsNeverAbort(ps, s, o.states[0]);
      EachNeverAborts(ps, s, Outcome(o.states[1..], o.fin));
    }
  }

  lemma AttemptNeverAborts(a: Ast, s: seq<byte>, off: nat)
    requires Matchable(a) && NoAbort(a)
    ensures !MeantAttempt(a, s, off).Aborts?
  {
    hide Meaning, NoAbort, Matchable;
    if off <= |s| { NeverAborts(a, s[off..], Fresh(0)); }
  }
}
