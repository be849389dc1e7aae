/** When a pattern can match the empty string in front of a given byte: a test on the syntax tree. */
module EmptyMatches {
  import opened Wrappers
  import opened Bytes
  import opened Ranges
  import opened CharClasses
  import opened Bytecode
  import opened Semantics
  import opened Outcomes
  import opened Pattern
  import opened GenShape
  import opened EndToEnd
  import opened Attempts
  import opened TrackablePatterns

  /** The pattern can succeed without moving at the start of a subject that begins with `b`. */
  predicate Idles(a: Ast, b: byte)
    decreases a, 1
  {
    match a
    case Literal(text) => text == []
    case Concat(ps) => IdlesAll(ps, b)
    case Alt(l, r) => Idles(l, b) || Idles(r, b)
    case ClassNode(op, set_) => (op.Break? || op.BreakX?) && InSet(ParseSet(set_, 0), b)
    case Cap(_, sub) => Idles(sub, b)
    case AssignNode(_, _) => true
    case CountNode(op, n) => if op.RPos? || op.RTab? then Low32(n) > 0 else Low32(n) == 0
    case DynamicEval(e) => Idles(e, b)
    case AnchorNode(atEnd) => !atEnd
    case LabelNode(_, target) => Idles(target, b)
    case Control(op) => op.Fence?
    case _ => false
  }

  predicate IdlesAll(ps: seq<Ast>, b: byte)
    decreases ps, 0
  {
    ps == [] || (Idles(ps[0], b) && IdlesAll(ps[1..], b))
  }

  /** Without moving it can get to a SUCCEED, which ends the whole match there. */
  predicate Wins(a: Ast, b: byte)
    decreases a, 1
  {
    match a
    case Concat(ps) => WinsAll(ps, b)
    case Alt(l, r) => Wins(l, b) || Wins(r, b)
    case Cap(_, sub) => Wins(sub, b)
    case DynamicEval(e) => Wins(e, b)
    case LabelNode(_, target) => Wins(target, b)
    case Control(op) => op.Succeed?
    case _ => false
  }

  predicate WinsAll(ps: seq<Ast>, b: byte)
    decreases ps, 0
  {
    ps != [] && (Wins(ps[0], b) || (Idles(ps[0], b) && WinsAll(ps[1..], b)))
  }

  predicate EmptyAt(a: Ast, b: byte) { Idles(a, b) || Wins(a, b) }

  // ----- An empty match passes the test -----

  /** The states at the start of the subject and a win there are ones the test knows of. */
  predicate Explained(o: Outcome, idles: bool, wins: bool) {
    && (forall k :: 0 <= k < |o.states| && o.states[k].pos == 0 ==> idles)
    && (o.fin.Decided? && o.fin.v.Accepted? && o.fin.v.st.pos == 0 ==> wins)
  }

  lemma ExplainOrElse(x: Outcome, y: Outcome, i: bool, w: bool, i': bool, w': bool)
    requires Explained(x, i, w) && Explained(y, i', w')
    ensures Explained(OrElse(x, y), i || i', w || w')
  {
  }

  lemma {:induction false} ExplainCloseAll(o: Outcome, reg: nat, i: bool, w: bool)
    requires Explained(o, i, w)
    ensures Explained(CloseAll(o, reg), i, w)
    decreases |o.states|
  {
    if o.states != [] {
      var later := Outcome(o.states[1..], o.fin);
      assert Explained(later, i, w);
      ExplainCloseAll(later, reg, i, w);
      assert o.states[0].pos == 0 ==> i;
    }
  }

  lemma ClassIdles(op: ClassOp, rs: seq<Range>, s: seq<byte>)
    requires s != [] && IsAscii(rs) && ClassStep(s, op, Some(rs), 0) == Some(0)
    ensures (op.Break? || op.BreakX?) && InSet(rs, s[0])
  {
    hide InSet, IsAscii;
  }

  lemma {:induction false} RetriesAhead(s: seq<byte>, cls: Option<seq<Range>>, st: State)
    requires st.pos <= |s|
    ensures forall k :: 0 <= k < |BreakXStates(s, cls, st)| ==>
      st.pos <= BreakXStates(s, cls, st)[k].pos && (k > 0 ==> st.pos < BreakXStates(s, cls, st)[k].pos)
    decreases |s| - st.pos
  {
    hide RunEnd;
    match PastDelimiter(s, RunEnd(cls, s, st.pos, false))
    case None =>
    case Some(p) => RetriesAhead(s, cls, st.(pos := p));
  }

  lemma CountIdles(op: CountOp, n: nat, s: seq<byte>)
    requires s != [] && CountStep(s, op, n, 0) == Some(0)
    ensures if op.RPos? || op.RTab? then n > 0 else n == 0
  {
    hide SkipContinuation, BackContinuation;
    assert n > 0 ==> Forward(s, 0, n) > 0;
    assert Backward(s, |s|, 0) == |s|;
  }

  /** What one operation does: it never moves back, and it stays where the test says that it may. */
  lemma StepIdles(a: Ast, s: seq<byte>, st: State)
    requires a.Literal? || (a.ClassNode? && !a.cop.BreakX?) || a.CountNode?
    requires Trackable(a) && st.pos <= |s| && s != []
    ensures Explained(Meaning(a, s, st), st.pos == 0 && Idles(a, s[0]), false)
  {
    hide ClassStep, CountStep, InSet, ParseSet;
    match a
    case ClassNode(op, set_) =>
      if ClassStep(s, op, SetOf(set_), 0) == Some(0) { ClassIdles(op, ParseSet(set_, 0), s); }
    case CountNode(op, n) =>
      if CountStep(s, op, Low32(n), 0) == Some(0) { CountIdles(op, Low32(n), s); }
    case _ =>
  }

  lemma RetryIdles(set_: seq<byte>, s: seq<byte>, st: State)
    requires IsAscii(ParseSet(set_, 0)) && st.pos <= |s| && s != []
    ensures Explained(Meaning(ClassNode(BreakX, set_), s, st), st.pos == 0 && Idles(ClassNode(BreakX, set_), s[0]), false)
  {
    hide RunEnd, InSet, ParseSet;
    RetriesAhead(s, SetOf(set_), st);
    var end := RunEnd(SetOf(set_), s, st.pos, false);
    assert BreakXStates(s, SetOf(set_), st)[0].pos == end;
    if end == 0 { ClassIdles(BreakX, ParseSet(set_, 0), s); }
  }

  /** What one childless operation does at the start of a subject. */
  lemma NodeIdles(a: Ast, s: seq<byte>, st: State)
    requires Childless(a) && Matchable(a) && Trackable(a) && st.pos <= |s| && s != []
    ensures Explained(Meaning(a, s, st), st.pos == 0 && Idles(a, s[0]), st.pos == 0 && Wins(a, s[0]))
  {
    match a
    case ClassNode(op, set_) =>
      if op.BreakX? { RetryIdles(set_, s, st); } else { StepIdles(a, s, st); }
    case Literal(_) => StepIdles(a, s, st);
    case CountNode(_, _) => StepIdles(a, s, st);
    case _ =>
  }

  predicate Within(o: Outcome, s: seq<byte>) { forall k :: 0 <= k < |o.states| ==> o.states[k].pos <= |s| }

  lemma {:induction false} RetriesWithin(s: seq<byte>, cls: Option<seq<Range>>, st: State)
    requires st.pos <= |s|
    ensures Within(Outcome(BreakXStates(s, cls, st), Exhausted), s)
    decreases |s| - st.pos
  {
    hide RunEnd;
    match PastDelimiter(s, RunEnd(cls, s, st.pos, false))
    case None =>
    case Some(p) => RetriesWithin(s, cls, st.(pos := p));
  }

  lemma NodeWithin(a: Ast, s: seq<byte>, st: State)
    requires Childless(a) && Matchable(a) && st.pos <= |s|
    ensures Within(Meaning(a, s, st), s)
  {
    hide PrimStep, BreakXStates;
    if a.ClassNode? && a.cop.BreakX? { RetriesWithin(s, SetOf(a.set_), st); }
  }

  lemma {:induction false} CloseWithin(o: Outcome, reg: nat, s: seq<byte>)
    requires Within(o, s)
    ensures Within(CloseAll(o, reg), s)
    decreases |o.states|
  {
    if o.states != [] { CloseWithin(Outcome(o.states[1..], o.fin), reg, s); }
  }

  /** Whatever a pattern offers at the start of the subject, the test knows of. */
  lemma {:induction false} MeaningIdles(a: Ast, s: seq<byte>, st: State)
    requires Matchable(a) && Trackable(a) && st.pos <= |s| && s != []
    ensures Within(Meaning(a, s, st), s)
    ensures Explained(Meaning(a, s, st), st.pos == 0 && Idles(a, s[0]), st.pos == 0 && Wins(a, s[0]))
    decreases a, 0, 0
  {
    hide Explained, PrimStep, BreakXStates, InSet, ParseSet, IsAscii;
    match a
    case Concat(ps) => PartsIdle(ps, s, st);
    case Alt(l, r) =>
      MeaningIdles(l, s, st);
      MeaningIdles(r, s, st);
      ExplainOrElse(Meaning(l, s, st), Meaning(r, s, st), st.pos == 0 && Idles(l, s[0]), st.pos == 0 && Wins(l, s[0]),
                    st.pos == 0 && Idles(r, s[0]), st.pos == 0 && Wins(r, s[0]));
    case Cap(reg, sub) =>
      var o := Meaning(sub, s, SetCapStart(st, Low8(reg)));
      MeaningIdles(sub, s, SetCapStart(st, Low8(reg)));
      CloseWithin(o, Low8(reg), s);
      ExplainCloseAll(o, Low8(reg), st.pos == 0 && Idles(sub, s[0]), st.pos == 0 && Wins(sub, s[0]));
    case DynamicEval(e) => MeaningIdles(e, s, st);
    case LabelNode(_, target) => MeaningIdles(target, s, st);
    case _ =>
      NodeWithin(a, s, st);
      NodeIdles(a, s, st);
  }

  lemma {:induction false} PartsIdle(ps: seq<Ast>, s: seq<byte>, st: State)
    requires (forall k :: 0 <= k < |ps| ==> Matchable(ps[k]) && Trackable(ps[k])) && st.pos <= |s| && s != []
    ensures Within(MeaningAll(ps, s, st), s)
    ensures Explained(MeaningAll(ps, s, st), st.pos == 0 && IdlesAll(ps, s[0]), st.pos == 0 && WinsAll(ps, s[0]))
    decreases ps, 0, 0
  {
    hide Meaning, Matchable, Trackable, Idles, Wins;
    if ps != [] {
      MeaningIdles(ps[0], s, st);
      EachIdles(ps[1..], s, Meaning(ps[0], s, st), st.pos == 0 && Idles(ps[0], s[0]), st.pos == 0 && Wins(ps[0], s[0]));
    }
  }

  lemma {:induction false} EachIdles(ps: seq<Ast>, s: seq<byte>, o: Outcome, idles: bool, wins: bool)
    requires (forall k :: 0 <= k < |ps| ==> Matchable(ps[k]) && Trackable(ps[k])) && s != []
    requires Within(o, s) && Explained(o, idles, wins)
    ensures Within(MeaningEach(ps, s, o), s)
    ensures Explained(MeaningEach(ps, s, o), idles && IdlesAll(ps, s[0]), wins || (idles && WinsAll(ps, s[0])))
    decreases ps, 1, |o.states|
  {
    hide MeaningAll, Matchable, Trackable, IdlesAll, WinsAll;
    if o.states != [] {
      var st, later := o.states[0], Outcome(o.states[1..], o.fin);
      assert Explained(later, idles, wins) && (st.pos == 0 ==> idles);
      PartsIdle(ps, s, st);
      EachIdles(ps, s, later, idles, wins);
    }
  }

  /** A match of nothing at the start of a subject is one that the test foresees for its first byte. */
  lemma EmptyMatchIsForeseen(a: Ast, s: seq<byte>, end: State)
    requires Matchable(a) && Trackable(a) && s != []
    requires First(Meaning(a, s, Fresh(0)), Accepting()) == Decided(Accepted(end)) && end.pos == 0
    ensures EmptyAt(a, s[0])
  {
    hide Meaning, Matchable, Trackable, Idles, Wins;
    MeaningIdles(a, s, Fresh(0));
    var o := Meaning(a, s, Fresh(0));
    if o.states != [] { assert end == o.states[0]; }
  }

  // ----- The test is met by an empty match -----

  /** FENCE does not occur. */
  predicate NoFence(a: Ast) {
    match a
    case Concat(ps) => forall k :: 0 <= k < |ps| ==> NoFence(ps[k])
    case Alt(l, r) => NoFence(l) && NoFence(r)
    case Cap(_, sub) => NoFence(sub)
    case DynamicEval(e) => NoFence(e)
    case LabelNode(_, target) => NoFence(target)
    case Control(op) => !op.Fence?
    case _ => true
  }

  predicate Won(o: Outcome) { o.fin.Decided? && o.fin.v.Accepted? }

  /** Nothing cuts the choices short but a win. */
  predicate Open(o: Outcome) { o.fin.Exhausted? || Won(o) }

  /** It has a state at the start or wins, and wins when it should. */
  predicate Offers(o: Outcome, idles: bool, wins: bool) {
    && Open(o)
    && (idles ==> Won(o) || exists k :: 0 <= k < |o.states| && o.states[k].pos == 0)
    && (wins ==> Won(o))
  }

  lemma OfferOrElse(x: Outcome, y: Outcome, i: bool, w: bool, i': bool, w': bool)
    requires Offers(x, i, w) && Offers(y, i', w')
    ensures Offers(OrElse(x, y), i || i', w || w')
  {
    if x.fin.Exhausted? {
      var o := OrElse(x, y);
      if i && !Won(y) {
        var k :| 0 <= k < |x.states| && x.states[k].pos == 0;
        assert o.states[k].pos == 0;
      }
      if i' && !Won(y) {
        var k :| 0 <= k < |y.states| && y.states[k].pos == 0;
        assert o.states[|x.states| + k].pos == 0;
      }
    }
  }

  lemma {:induction false} OfferCloseAll(o: Outcome, reg: nat)
    ensures |CloseAll(o, reg).states| == |o.states| && CloseAll(o, reg).fin == o.fin
    ensures forall k :: 0 <= k < |o.states| ==> CloseAll(o, reg).states[k].pos == o.states[k].pos
    decreases |o.states|
  {
    if o.states != [] { OfferCloseAll(Outcome(o.states[1..], o.fin), reg); }
  }

  lemma ClosingOffers(o: Outcome, reg: nat, i: bool, w: bool)
    requires Offers(o, i, w)
    ensures Offers(CloseAll(o, reg), i, w)
  {
    hide CloseAll;
    OfferCloseAll(o, reg);
    if i && !Won(o) {
      var k :| 0 <= k < |o.states| && o.states[k].pos == 0;
      assert CloseAll(o, reg).states[k].pos == 0;
    }
  }

  lemma BreakStands(rs: seq<Range>, b: byte)
    requires IsAscii(rs) && InSet(rs, b)
    ensures RunEnd(Some(rs), [b], 0, false) == 0
  {
    hide IsAscii, InSet;
  }

  lemma CountStands(op: CountOp, n: nat, b: byte)
    requires if op.RPos? || op.RTab? then n > 0 else n == 0
    ensures CountStep([b], op, n, 0) == Some(0)
  {
    if n > 0 { assert Backward([b], 1, n) == Backward([b], 0, n - 1) == 0; }
  }

  lemma HasStateOffers(o: Outcome)
    requires o.fin.Exhausted? && o.states != [] && o.states[0].pos == 0
    ensures Offers(o, true, false)
  {
  }

  /** A childless operation on a subject of that one byte. */
  lemma NodeOffers(a: Ast, b: byte, st: State)
    requires Childless(a) && Matchable(a) && Trackable(a) && NoFence(a) && NoAbort(a) && st.pos <= 1
    ensures Offers(Meaning(a, [b], st), st.pos == 0 && Idles(a, b), st.pos == 0 && Wins(a, b))
  {
    hide ClassStep, CountStep, InSet, ParseSet, IsAscii, RunEnd, SetVar;
    var o := Meaning(a, [b], st);
    match a
    case ClassNode(op, set_) =>
      if Idles(a, b) && st.pos == 0 {
        BreakStands(ParseSet(set_, 0), b);
        assert ClassStep([b], Break, SetOf(set_), 0) == Some(0) by { BreakStep([b], ParseSet(set_, 0)); }
        HasStateOffers(o);
      }
    case CountNode(op, n) =>
      if Idles(a, b) && st.pos == 0 {
        CountStands(op, Low32(n), b);
        HasStateOffers(o);
      }
    case AssignNode(_, _) => if st.pos == 0 { assert o.states[0].pos == 0 by { SetVarStays(st, Low16(a.var_), Low8(a.src)); } }
    case Literal(text) => if text == [] && st.pos == 0 { assert [b][0..0] == []; HasStateOffers(o); }
    case AnchorNode(_) => if o.states != [] && st.pos == 0 { HasStateOffers(o); }
    case Control(_) =>
  }

  lemma BreakStep(s: seq<byte>, rs: seq<Range>)
    ensures ClassStep(s, Break, Some(rs), 0) == Some(RunEnd(Some(rs), s, 0, false))
  {
  }

  lemma SetVarStays(st: State, v: nat, r: nat)
    ensures SetVar(st, v, r).pos == st.pos
  {
  }

  /** On a subject of that one byte the pattern offers everything the test says. */
  lemma {:induction false} MeaningOffers(a: Ast, b: byte, st: State)
    requires Matchable(a) && Trackable(a) && NoFence(a) && NoAbort(a) && st.pos <= 1
    ensures Offers(Meaning(a, [b], st), st.pos == 0 && Idles(a, b), st.pos == 0 && Wins(a, b))
    decreases a, 0, 0
  {
    hide Offers, PrimStep, BreakXStates, InSet, ParseSet, IsAscii;
    match a
    case Concat(ps) => PartsOffer(ps, b, st);
    case Alt(l, r) =>
      MeaningOffers(l, b, st);
      MeaningOffers(r, b, st);
      OfferOrElse(Meaning(l, [b], st), Meaning(r, [b], st), st.pos == 0 && Idles(l, b), st.pos == 0 && Wins(l, b),
                  st.pos == 0 && Idles(r, b), st.pos == 0 && Wins(r, b));
    case Cap(reg, sub) =>
      MeaningOffers(sub, b, SetCapStart(st, Low8(reg)));
      ClosingOffers(Meaning(sub, [b], SetCapStart(st, Low8(reg))), Low8(reg), st.pos == 0 && Idles(sub, b),
                    st.pos == 0 && Wins(sub, b));
    case DynamicEval(e) => MeaningOffers(e, b, st);
    case LabelNode(_, target) => MeaningOffers(target, b, st);
    case _ => NodeOffers(a, b, st);
  }

  lemma {:induction false} PartsOffer(ps: seq<Ast>, b: byte, st: State)
    requires forall k :: 0 <= k < |ps| ==> Matchable(ps[k]) && Trackable(ps[k]) && NoFence(ps[k]) && NoAbort(ps[k])
    requires st.pos <= 1
    ensures Offers(MeaningAll(ps, [b], st), st.pos == 0 && IdlesAll(ps, b), st.pos == 0 && WinsAll(ps, b))
    decreases ps, 0, 0
  {
    hide Meaning, Matchable, Trackable, NoFence, NoAbort, Idles, Wins;
    if ps == [] {
      if st.pos == 0 { HasStateOffers(Once(st)); }
    } else {
      MeaningOffers(ps[0], b, st);
      MeaningIdles(ps[0], [b], st);
      EachOffers(ps[1..], b, Meaning(ps[0], [b], st), st.pos == 0 && Idles(ps[0], b), st.pos == 0 && Wins(ps[0], b));
    }
  }

  lemma {:induction false} EachOffers(ps: seq<Ast>, b: byte, o: Outcome, idles: bool, wins: bool)
    requires forall k :: 0 <= k < |ps| ==> Matchable(ps[k]) && Trackable(ps[k]) && NoFence(ps[k]) && NoAbort(ps[k])
    requires Within(o, [b]) && Offers(o, idles, wins)
    ensures Offers(MeaningEach(ps, [b], o), idles && IdlesAll(ps, b), wins || (idles && WinsAll(ps, b)))
    decreases ps, 1, |o.states|
  {
    hide MeaningAll, Matchable, Trackable, NoFence, NoAbort, IdlesAll, WinsAll;
    if o.states != [] {
      var st, later := o.states[0], Outcome(o.states[1..], o.fin);
      var still := idles && st.pos > 0;
      OffersLater(o, idles, wins);
      PartsOffer(ps, b, st);
      EachOffers(ps, b, later, still, wins);
      OfferOrElse(MeaningAll(ps, [b], st), MeaningEach(ps, [b], later), st.pos == 0 && IdlesAll(ps, b),
                  st.pos == 0 && WinsAll(ps, b), still && IdlesAll(ps, b), wins || (still && WinsAll(ps, b)));
    }
  }

  lemma OffersLater(o: Outcome, idles: bool, wins: bool)
    requires o.states != [] && Offers(o, idles, wins)
    ensures Offers(Outcome(o.states[1..], o.fin), idles && o.states[0].pos > 0, wins)
  {
    if idles && o.states[0].pos > 0 && !Won(o) {
      var k :| 0 <= k < |o.states| && o.states[k].pos == 0;
      assert o.states[1..][k - 1].pos == 0;
    }
  }

  /** Where the test says so there is a match, though perhaps not an empty one. */
  lemma ForeseenIsMet(a: Ast, b: byte)
    requires Matchable(a) && Trackable(a) && NoFence(a) && NoAbort(a) && EmptyAt(a, b)
    ensures MeantAttempt(a, [b], 0).Hit?
  {
    hide Meaning, Matchable, Trackable, Idles, Wins, NoFence, NoAbort;
    MeaningOffers(a, b, Fresh(0));
    assert [b][0..] == [b];
  }
}
