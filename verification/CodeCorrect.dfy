/** Running laid-out code on the backtracking search gives the tree's first success. */
module CodeCorrect {
  import opened Wrappers
  import opened Bytes
  import opened Layout
  import opened Ranges
  import opened CharClasses
  import opened Bytecode
  import opened Semantics
  import opened Outcomes
  import opened CodeTree
  import opened CodeMeaning

  // ----- One evaluation step at a time -----

  lemma YieldsNow(env: Env, ip: nat, st: State, r: Result)
    requires !r.OutOfFuel? && Eval(env, ip, st, 1) == r
    ensures Yields(env, ip, st, r)
  {
  }

  lemma YieldsGo(env: Env, ip: nat, st: State, t: nat, r: Result)
    requires ip < |env.code| && Decode(env, ip) == Go(t) && Yields(env, t, st, r)
    ensures Yields(env, ip, st, r)
  {
    hide Decode;
    var f: nat :| Eval(env, t, st, f) == r;
    assert Eval(env, ip, st, f + 1) == r;
  }

  lemma YieldsDo(env: Env, ip: nat, st: State, prim: Prim, next: nat, r: Result)
    requires ip < |env.code| && Decode(env, ip) == Do(prim, next)
    requires var p := PrimStep(env.subject, prim, st);
      if p.None? then r == Exhausted else Yields(env, next, p.value, r)
    ensures Yields(env, ip, st, r)
  {
    hide Decode, PrimStep;
    var p := PrimStep(env.subject, prim, st);
    if p.None? {
      assert Eval(env, ip, st, 1) == r;
    } else {
      var f: nat :| Eval(env, next, p.value, f) == r;
      assert Eval(env, ip, st, f + 1) == r;
    }
  }

  lemma YieldsFork(env: Env, ip: nat, st: State, a: nat, b: nat, ra: Result, rb: Result)
    requires ip < |env.code| && Decode(env, ip) == Fork(a, b)
    requires Yields(env, a, st, ra) && Yields(env, b, st, rb)
    ensures Yields(env, ip, st, if ra.Exhausted? then rb else ra)
  {
    hide Decode;
    var f: nat :| Eval(env, a, st, f) == ra;
    var g: nat :| Eval(env, b, st, g) == rb;
    var h := if f < g then g else f;
    MoreFuel(env, a, st, f, h);
    MoreFuel(env, b, st, g, h);
    assert Eval(env, ip, st, h + 1) == if ra.Exhausted? then rb else ra;
  }

  lemma YieldsCut(env: Env, ip: nat, st: State, next: nat, r: Result)
    requires ip < |env.code| && Decode(env, ip) == Cut(next) && Yields(env, next, st, r)
    ensures Yields(env, ip, st, if r.Exhausted? then Decided(Rejected) else r)
  {
    hide Decode;
    var f: nat :| Eval(env, next, st, f) == r;
    assert Eval(env, ip, st, f + 1) == if r.Exhausted? then Decided(Rejected) else r;
  }

  lemma YieldsRetry(env: Env, ip: nat, st: State, cls: Option<seq<Range>>, next: nat, ra: Result, rb: Result)
    requires ip < |env.code| && Decode(env, ip) == Retry(cls, next)
    requires var end := RunEnd(cls, env.subject, st.pos, false);
      && Yields(env, next, st.(pos := end), ra)
      && match PastDelimiter(env.subject, end)
         case None => rb == Exhausted
         case Some(p) => Yields(env, ip, st.(pos := p), rb)
    ensures Yields(env, ip, st, if ra.Exhausted? then rb else ra)
  {
    hide Decode, RunEnd, PastDelimiter;
    var end := RunEnd(cls, env.subject, st.pos, false);
    var p := PastDelimiter(env.subject, end);
    var f: nat :| Eval(env, next, st.(pos := end), f) == ra;
    var h := f;
    if p.Some? {
      var g: nat :| Eval(env, ip, st.(pos := p.value), g) == rb;
      h := if f < g then g else f;
      MoreFuel(env, ip, st.(pos := p.value), g, h);
    }
    MoreFuel(env, next, st.(pos := end), f, h);
    assert Eval(env, ip, st, h + 1) == if ra.Exhausted? then rb else ra;
  }

  // ----- Composing over the tree -----

  /** `rest` says how the search ends from offset `q`, whatever state it gets there in. */
  ghost predicate Continues(env: Env, q: nat, rest: State -> Result) {
    forall st :: Yields(env, q, st, rest(st))
  }

  lemma {:induction false} RetryCorrect(env: Env, ip: nat, st: State, cls: Option<seq<Range>>, next: nat,
                                        rest: State -> Result)
    requires ip < |env.code| && Decode(env, ip) == Retry(cls, next) && Continues(env, next, rest)
    ensures Yields(env, ip, st, First(Outcome(BreakXStates(env.subject, cls, st), Exhausted), rest))
    decreases if st.pos <= |env.subject| then |env.subject| - st.pos else 0
  {
    hide Decode, RunEnd, PastDelimiter, Yields;
    var end := RunEnd(cls, env.subject, st.pos, false);
    var states := BreakXStates(env.subject, cls, st);
    assert states[0] == st.(pos := end);
    match PastDelimiter(env.subject, end)
    case None =>
      assert states[1..] == [];
      YieldsRetry(env, ip, st, cls, next, rest(states[0]), Exhausted);
    case Some(p) =>
      var later := BreakXStates(env.subject, cls, st.(pos := p));
      assert states[1..] == later;
      RetryCorrect(env, ip, st.(pos := p), cls, next, rest);
      YieldsRetry(env, ip, st, cls, next, rest(states[0]), First(Outcome(later, Exhausted), rest));
  }

  lemma ActCorrect(env: Env, ip: nat, st: State, d: Decoded, next: nat, rest: State -> Result)
    requires ip < |env.code| && Decode(env, ip) == d && Continues(env, next, rest)
    requires match d
      case Do(_, n) => n == next
      case Retry(_, n) => n == next
      case Cut(n) => n == next
      case Go(_) => false
      case Fork(_, _) => false
      case _ => true
    ensures Yields(env, ip, st, First(ActOutcome(d, env.subject, st), rest))
  {
    hide Decode, PrimStep, Yields;
    match d
    case Do(prim, n) =>
      var p := PrimStep(env.subject, prim, st);
      if p.Some? {
        YieldsDo(env, ip, st, prim, n, rest(p.value));
      } else {
        YieldsDo(env, ip, st, prim, n, Exhausted);
      }
    case Retry(cls, n) => RetryCorrect(env, ip, st, cls, n, rest);
    case Cut(n) => YieldsCut(env, ip, st, n, rest(st));
    case _ => YieldsNow(env, ip, st, First(ActOutcome(d, env.subject, st), rest));
  }

  lemma {:induction false} NopsCorrect(env: Env, p: nat, pad: nat, rest: State -> Result)
    requires At(env.code, p, NopBytes(pad)) && Continues(env, p + pad, rest)
    ensures Continues(env, p, rest)
    decreases pad
  {
    if pad > 0 {
      hide Yields;
      assert NopBytes(pad) == [OP_NOP] + NopBytes(pad - 1);
      AtConcat(env.code, p, [OP_NOP], NopBytes(pad - 1));
      AtByte(env.code, p, [OP_NOP], 0);
      NopsCorrect(env, p + 1, pad - 1, rest);
      forall st ensures Yields(env, p, st, rest(st)) {
        DecodeBare(env, p, Nop);
        YieldsDo(env, p, st, Skip, p + 1, rest(st));
      }
    }
  }

  /** Code correctness: from any state, running the bytes of a tree with `rest` waiting behind
      them ends as the first success of the tree's outcomes does. */
  lemma {:induction false} CodeRunsAsTree(env: Env, t: Tree, base: nat, rest: State -> Result, st: State)
    requires Plain(t) && At(env.code, base, Emitted(t, base)) && |env.code| < U32
    requires Continues(env, base + Weight(t), rest)
    ensures Yields(env, base, st, First(Run(t, env.classes, env.subject, st), rest))
    decreases t, 0
  {
    hide Encode, Decode, Emitted, Yields, PrimStep, First, Acts;
    EmittedOf(t, base);
    match t
    case Leaf(i) =>
      DecodeMeetsEncoder(env, base, i);
      LeafActs(i, env.classes, base + Weight(t), env.subject, st);
      ActCorrect(env, base, st, Acts(i, env.classes, base + Weight(t)), base + Weight(t), rest);
    case TextLeaf(text) =>
      DecodeText(env, base, text);
      ActCorrect(env, base, st, Do(Text(text), base + Weight(t)), base + Weight(t), rest);
    case Sequence(ps) => PartsRunAsTrees(env, ps, base, rest, st);
    case Either(l, r) => ChoiceRunsAsTree(env, l, r, base, rest, st);
    case Fused(id, pad) =>
      var any := Class(Any, id);
      AtConcat(env.code, base, Encode(any), NopBytes(pad));
      FixedWidths(id, 0, 0, 0, 0);
      NopsCorrect(env, base + 3, pad, rest);
      DecodeMeetsEncoder(env, base, any);
      AnyActs(id, env.classes, base + 3);
      ActCorrect(env, base, st, Acts(any, env.classes, base + 3), base + 3, rest);
  }

  lemma LeafActs(i: Instr, classes: seq<CharClass>, next: nat, s: seq<byte>, st: State)
    requires Modelled(i)
    ensures ActOutcome(Acts(i, classes, next), s, st) == ActOutcome(Acts(i, classes, 0), s, st)
    ensures match Acts(i, classes, next)
      case Do(_, n) => n == next
      case Retry(_, n) => n == next
      case Cut(n) => n == next
      case Go(_) => false
      case Fork(_, _) => false
      case _ => true
  {
    hide PrimStep, BreakXStates;
  }

  lemma AnyActs(id: int, classes: seq<CharClass>, next: nat)
    ensures Acts(Class(Any, id), classes, next) == Do(InClass(Any, ClassAt(classes, Low16(id))), next)
  {
  }

  lemma {:induction false} PartsRunAsTrees(env: Env, ps: seq<Tree>, base: nat, rest: State -> Result, st: State)
    requires forall k :: 0 <= k < |ps| ==> Plain(ps[k])
    requires At(env.code, base, EmittedAll(ps, base)) && |env.code| < U32
    requires Continues(env, base + WeightAll(ps), rest)
    ensures Yields(env, base, st, First(RunAll(ps, env.classes, env.subject, st), rest))
    decreases ps, 0
  {
    hide Emitted, EmittedAll, Yields, PrimStep, Acts, Run, Plain, At, Encode, EncodeAll, Lay, Weight;
    EmittedOfAll(ps, base);
    if ps == [] {
      assert First(Once(st), rest) == rest(st);
    } else {
      var head, tail, mid := ps[0], ps[1..], base + Weight(ps[0]);
      EmittedOf(head, base);
      AtConcat(env.code, base, Emitted(head, base), EmittedAll(tail, mid));
      var onward := (s: State) => First(RunAll(tail, env.classes, env.subject, s), rest);
      forall s ensures Yields(env, mid, s, onward(s)) {
        PartsRunAsTrees(env, tail, mid, rest, s);
      }
      CodeRunsAsTree(env, head, base, onward, st);
      FirstRunEach(tail, env.classes, env.subject, Run(head, env.classes, env.subject, st), rest, onward);
    }
  }

  lemma {:induction false} ChoiceRunsAsTree(env: Env, l: Tree, r: Tree, base: nat, rest: State -> Result, st: State)
    requires Plain(Either(l, r)) && At(env.code, base, Emitted(Either(l, r), base)) && |env.code| < U32
    requires Continues(env, base + Weight(Either(l, r)), rest)
    ensures Yields(env, base, st, First(Run(Either(l, r), env.classes, env.subject, st), rest))
    decreases Either(l, r), -1
  {
    hide Encode, Decode, Emitted, Yields, First;
    var right, jmp := base + 14 + Weight(l), base + 9 + Weight(l);
    var end := right + Weight(r);
    SplitLayout(env.code, l, r, base);
    DecodeSplitAt(env, base, base + 9, right);
    DecodeJmpAt(env, jmp, end);
    forall s ensures Yields(env, jmp, s, rest(s)) {
      YieldsGo(env, jmp, s, end, rest(s));
    }
    CodeRunsAsTree(env, l, base + 9, rest, st);
    CodeRunsAsTree(env, r, right, rest, st);
    var ol, or := Run(l, env.classes, env.subject, st), Run(r, env.classes, env.subject, st);
    YieldsFork(env, base, st, base + 9, right, First(ol, rest), First(or, rest));
    FirstOrElse(ol, or, rest);
    FirstStops(ol, rest);
  }
}
