/** What captures and assignments record: the stretch of the subject that the captured pattern matched. */
module CaptureTexts {
  import opened Wrappers
  import opened Bytes
  import opened Ranges
  import opened Semantics
  import opened Outcomes
  import opened Pattern

  /** No capture inside uses the register. */
  predicate Spares(a: Ast, r: nat) {
    match a
    case Concat(ps) => forall k :: 0 <= k < |ps| ==> Spares(ps[k], r)
    case Alt(x, y) => Spares(x, r) && Spares(y, r)
    case Cap(reg, sub) => Low8(reg) != r && Spares(sub, r)
    case DynamicEval(e) => Spares(e, r)
    case LabelNode(_, target) => Spares(target, r)
    case _ => true
  }

  predicate AllBegin(o: Outcome, r: nat, at: nat)
    requires r < MAX_REGS
  {
    forall k :: 0 <= k < |o.states| ==> o.states[k].capStart[r] == at
  }

  lemma BeginEither(a: Outcome, b: Outcome, r: nat, at: nat)
    requires r < MAX_REGS && AllBegin(a, r, at) && AllBegin(b, r, at)
    ensures AllBegin(OrElse(a, b), r, at)
  {
  }

  /** A pattern that spares the register leaves the start that was recorded in it. */
  lemma {:induction false} KeepsStart(a: Ast, s: seq<byte>, st: State, r: nat)
    requires Matchable(a) && Spares(a, r) && r < MAX_REGS
    ensures AllBegin(Meaning(a, s, st), r, st.capStart[r])
    decreases a, 0, 0
  {
    hide PrimStep;
    match a
    case Concat(ps) => PartsKeepStart(ps, s, st, r);
    case Alt(x, y) =>
      KeepsStart(x, s, st, r);
      KeepsStart(y, s, st, r);
      BeginEither(Meaning(x, s, st), Meaning(y, s, st), r, st.capStart[r]);
    case Cap(reg, sub) =>
      KeepsStart(sub, s, SetCapStart(st, Low8(reg)), r);
      CloseKeepsStart(Meaning(sub, s, SetCapStart(st, Low8(reg))), Low8(reg), r, st.capStart[r]);
    case DynamicEval(e) => KeepsStart(e, s, st, r);
    case LabelNode(_, target) => KeepsStart(target, s, st, r);
    case _ => NodeKeepsStart(a, s, st, r);
  }

  lemma NodeKeepsStart(a: Ast, s: seq<byte>, st: State, r: nat)
    requires Childless(a) && Matchable(a) && r < MAX_REGS
    ensures AllBegin(Meaning(a, s, st), r, st.capStart[r])
  {
    hide PrimStep, BreakXStates, SetVar, ControlOutcome, SetOf, Low8, Low16, Low32;
    match a
    case Literal(text) => MovesKeepStart(s, Text(text), st, r);
    case ClassNode(op, set_) =>
      if op.BreakX? {
        RetriesKeepStart(s, SetOf(set_), st, r);
      } else {
        MovesKeepStart(s, InClass(op, SetOf(set_)), st, r);
      }
    case CountNode(op, n) => MovesKeepStart(s, Counted(op, Low32(n)), st, r);
    case AssignNode(v, q) => AssignKeepsStart(st, Low16(v), Low8(q), r);
    case Control(op) => ControlKeepsStart(op, s, st, r);
    case _ =>
  }

  lemma MovesKeepStart(s: seq<byte>, p: Prim, st: State, r: nat)
    requires r < MAX_REGS && (p.Text? || p.InClass? || p.Counted?)
    ensures AllBegin(Maybe(PrimStep(s, p, st)), r, st.capStart[r])
  {
    hide ClassStep, CountStep;
  }

  lemma AssignKeepsStart(st: State, v: nat, q: nat, r: nat)
    requires r < MAX_REGS
    ensures AllBegin(Once(SetVar(st, v, q)), r, st.capStart[r])
  {
  }

  lemma ControlKeepsStart(op: ControlOp, s: seq<byte>, st: State, r: nat)
    requires r < MAX_REGS
    ensures AllBegin(ControlOutcome(op, s, st), r, st.capStart[r])
  {
  }

  lemma {:induction false} RetriesKeepStart(s: seq<byte>, cls: Option<seq<Range>>, st: State, r: nat)
    requires r < MAX_REGS
    ensures forall k :: 0 <= k < |BreakXStates(s, cls, st)| ==> BreakXStates(s, cls, st)[k].capStart[r] == st.capStart[r]
    decreases if st.pos <= |s| then |s| - st.pos else 0
  {
    hide RunEnd, PastDelimiter;
    var end := RunEnd(cls, s, st.pos, false);
    var p := PastDelimiter(s, end);
    if p.Some? { RetriesKeepStart(s, cls, st.(pos := p.value), r); }
  }

  lemma {:induction false} CloseKeepsStart(o: Outcome, reg: nat, r: nat, at: nat)
    requires r < MAX_REGS && AllBegin(o, r, at)
    ensures AllBegin(CloseAll(o, reg), r, at)
    decreases |o.states|
  {
    if o.states != [] { CloseKeepsStart(Outcome(o.states[1..], o.fin), reg, r, at); }
  }

  lemma {:induction false} PartsKeepStart(ps: seq<Ast>, s: seq<byte>, st: State, r: nat)
    requires (forall k :: 0 <= k < |ps| ==> Matchable(ps[k]) && Spares(ps[k], r)) && r < MAX_REGS
    ensures AllBegin(MeaningAll(ps, s, st), r, st.capStart[r])
    decreases ps, 0, 0
  {
    hide Meaning, Matchable, Spares;
    if ps != [] {
      KeepsStart(ps[0], s, st, r);
      EachKeepsStart(ps[1..], s, Meaning(ps[0], s, st), r, st.capStart[r]);
    }
  }

  lemma {:induction false} EachKeepsStart(ps: seq<Ast>, s: seq<byte>, o: Outcome, r: nat, at: nat)
    requires (forall k :: 0 <= k < |ps| ==> Matchable(ps[k]) && Spares(ps[k], r)) && r < MAX_REGS && AllBegin(o, r, at)
    ensures AllBegin(MeaningEach(ps, s, o), r, at)
    decreases ps, 1, |o.states|
  {
    hide MeaningAll, Matchable, Spares, OrElse;
    if o.states != [] {
      var more := Outcome(o.states[1..], o.fin);
      PartsKeepStart(ps, s, o.states[0], r);
      EachKeepsStart(ps, s, more, r, at);
      BeginEither(MeaningAll(ps, s, o.states[0]), MeaningEach(ps, s, more), r, at);
    }
  }

  // ----- The recorded stretch -----

  /** Register and variable `r` delimit the text from `from` to the cursor; nothing but them differs from `x`. */
  predicate Records(e: State, x: State, r: nat, from: nat)
    requires r < MAX_REGS
  {
    && e.pos == x.pos && e.capStart == x.capStart && e.capStart[r] == from && e.capEnd == x.capEnd[r := e.pos]
    && e.varStart == x.varStart[r := from] && e.varEnd == x.varEnd[r := e.pos]
    && e.varCount == Max(x.varCount, r + 1) && e.maxCap == Max(x.maxCap, r + 1)
  }

  lemma {:induction false} ClosesRecord(o: Outcome, r: nat, at: nat)
    requires r < MAX_REGS && AllBegin(o, r, at)
    ensures var c := CloseAll(o, r);
      c.fin == o.fin && |c.states| == |o.states|
      && forall k :: 0 <= k < |o.states| ==> Records(c.states[k], o.states[k], r, at)
    decreases |o.states|
  {
    if o.states != [] { ClosesRecord(Outcome(o.states[1..], o.fin), r, at); }
  }

  /** A capture succeeds where its pattern does, in the same order, and records the stretch that the pattern matched in
      its register and in the variable of the same number. */
  lemma CaptureRecords(reg: int32, sub: Ast, s: seq<byte>, st: State)
    requires Matchable(sub) && Low8(reg) < MAX_REGS && Spares(sub, Low8(reg))
    ensures var r := Low8(reg);
      var inner, outer := Meaning(sub, s, SetCapStart(st, r)), Meaning(Cap(reg, sub), s, st);
      && outer.fin == inner.fin && |outer.states| == |inner.states|
      && forall k :: 0 <= k < |inner.states| ==> Records(outer.states[k], inner.states[k], r, st.pos)
  {
    hide Low8, Spares;
    var r := Low8(reg);
    KeepsStart(sub, s, SetCapStart(st, r), r);
    ClosesRecord(Meaning(sub, s, SetCapStart(st, r)), r, st.pos);
  }

  /** Variable `v` takes the stretch of capture `r`; nothing else changes. */
  predicate Takes(e: State, x: State, v: nat, r: nat)
    requires v < MAX_REGS && r < MAX_REGS
  {
    && e.pos == x.pos && e.capStart == x.capStart && e.capEnd == x.capEnd && e.maxCap == x.maxCap
    && e.varStart == x.varStart[v := x.capStart[r]] && e.varEnd == x.varEnd[v := x.capEnd[r]]
    && e.varCount == Max(x.varCount, v + 1)
  }

  lemma {:induction false} AssignsEach(v: int32, r: int32, s: seq<byte>, o: Outcome)
    requires Low16(v) < MAX_REGS && Low8(r) < MAX_REGS
    ensures var c := MeaningEach([AssignNode(v, r)], s, o);
      c.fin == o.fin && |c.states| == |o.states|
      && forall k :: 0 <= k < |o.states| ==> Takes(c.states[k], o.states[k], Low16(v), Low8(r))
    decreases |o.states|
  {
    hide Low8, Low16, Takes;
    if o.states != [] {
      var x := o.states[0];
      var e := SetVar(x, Low16(v), Low8(r));
      AssignsOne(v, r, s, x);
      AssignsEach(v, r, s, Outcome(o.states[1..], o.fin));
      assert Takes(e, x, Low16(v), Low8(r)) by { SetVarTakes(x, Low16(v), Low8(r)); }
    }
  }

  lemma SetVarTakes(x: State, v: nat, r: nat)
    requires v < MAX_REGS && r < MAX_REGS
    ensures Takes(SetVar(x, v, r), x, v, r)
  {
  }

  lemma AssignsOne(v: int32, r: int32, s: seq<byte>, x: State)
    ensures MeaningAll([AssignNode(v, r)], s, x) == Once(SetVar(x, Low16(v), Low8(r)))
  {
    hide Low8, Low16, SetVar;
    var ps: seq<Ast> := [AssignNode(v, r)];
    var e := SetVar(x, Low16(v), Low8(r));
    assert ps[1..] == [];
    assert MeaningEach([], s, Once(e)) == OrElse(MeaningAll([], s, e), MeaningEach([], s, NOTHING));
    assert [e] + [] == [e];
  }

  /** Behind a captured pattern and an assignment the variable delimits exactly the text that the pattern matched. */
  lemma AssignedTextIsMatch(v: int32, reg: int32, sub: Ast, s: seq<byte>, st: State)
    requires Matchable(sub) && Low8(reg) < MAX_REGS && Low16(v) < MAX_REGS && Spares(sub, Low8(reg))
    ensures var inner := Meaning(sub, s, SetCapStart(st, Low8(reg)));
      var outer := Meaning(Concat([Cap(reg, sub), AssignNode(v, reg)]), s, st);
      && outer.fin == inner.fin && |outer.states| == |inner.states|
      && forall k :: 0 <= k < |inner.states| ==>
           var e := outer.states[k];
           e.pos == inner.states[k].pos && e.varStart[Low16(v)] == st.pos && e.varEnd[Low16(v)] == e.pos
  {
    hide Low8, Low16, Spares;
    var ps: seq<Ast> := [Cap(reg, sub), AssignNode(v, reg)];
    assert ps[1..] == [AssignNode(v, reg)];
    CaptureRecords(reg, sub, s, st);
    AssignsEach(v, reg, s, Meaning(Cap(reg, sub), s, st));
  }
}
