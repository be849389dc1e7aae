/** Ordered results of running a pattern: the states it succeeds in, in the order backtracking
    tries them, and how the list ends. */
module Outcomes {
  import opened Wrappers
  import opened Bytes
  import opened Utf8
  import opened Ranges
  import opened Bytecode
  import opened Semantics

  /** `fin` is Exhausted when the pattern simply has no further alternative, and Decided when
      running out of `states` settles the whole match (FENCE, ABORT, SUCCEED). */
  datatype Outcome = Outcome(states: seq<State>, fin: Result)

  const NOTHING: Outcome := Outcome([], Exhausted)

  function Once(st: State): Outcome { Outcome([st], Exhausted) }

  function Maybe(r: Option<State>): Outcome {
    match r
    case None => NOTHING
    case Some(st) => Once(st)
  }

  /** First everything `a` offers, then everything `b` offers. */
  function OrElse(a: Outcome, b: Outcome): Outcome {
    if a.fin.Exhausted? then Outcome(a.states + b.states, b.fin) else a
  }

  /** The first success: offer each state to the rest of the match until it is not sent back. */
  function First(o: Outcome, rest: State -> Result): Result
    decreases |o.states|
  {
    if o.states == [] then o.fin
    else
      var r := rest(o.states[0]);
      if r.Exhausted? then First(Outcome(o.states[1..], o.fin), rest) else r
  }

  /** BREAKX: stop at every delimiter in turn, and at the end when no delimiter follows. */
  function BreakXStates(s: seq<byte>, cls: Option<seq<Range>>, st: State): seq<State>
    decreases if st.pos <= |s| then |s| - st.pos else 0
  {
    var end := RunEnd(cls, s, st.pos, false);
    [st.(pos := end)]
    + match PastDelimiter(s, end)
      case None => []
      case Some(p) => BreakXStates(s, cls, st.(pos := p))
  }

  lemma {:induction false} FirstOrElse(a: Outcome, b: Outcome, rest: State -> Result)
    ensures First(OrElse(a, b), rest)
         == if First(a, rest).Exhausted? && a.fin.Exhausted? then First(b, rest) else First(a, rest)
    decreases |a.states|
  {
    if a.fin.Exhausted? {
      if a.states == [] {
        assert a.states + b.states == b.states;
      } else {
        assert (a.states + b.states)[1..] == a.states[1..] + b.states;
        FirstOrElse(Outcome(a.states[1..], a.fin), b, rest);
      }
    }
  }

  /** Two continuations that agree everywhere give the same first success. */
  lemma {:induction false} FirstCongruent(o: Outcome, f: State -> Result, g: State -> Result)
    requires forall st :: f(st) == g(st)
    ensures First(o, f) == First(o, g)
    decreases |o.states|
  {
    if o.states != [] {
      FirstCongruent(Outcome(o.states[1..], o.fin), f, g);
    }
  }

  predicate Finished(o: Outcome) { !o.fin.OutOfFuel? }

  lemma {:induction false} FirstFinishes(o: Outcome, rest: State -> Result)
    requires Finished(o) && forall st :: !rest(st).OutOfFuel?
    ensures !First(o, rest).OutOfFuel?
    decreases |o.states|
  {
    if o.states != [] {
      FirstFinishes(Outcome(o.states[1..], o.fin), rest);
    }
  }
}
