/** The compiled form of a pattern means what its tree says: running the laid-out bytes gives
    the first success of the tree's ordered outcomes. */
module CodeMeaning {
  import opened Wrappers
  import opened Bytes
  import opened Layout
  import opened Ranges
  import opened CharClasses
  import opened Bytecode
  import opened Semantics
  import opened Outcomes
  import opened CodeTree

  // ----- Decoding what was encoded -----

  /** What an instruction does, with operands as its fields keep them and control going to `next`. */
  function Acts(i: Instr, classes: seq<CharClass>, next: nat): Decoded {
    match i
    case Bare(op) => BareActs(op, next)
    case Class(op, id) =>
      var cls := ClassAt(classes, Low16(id));
      if op.BreakX? then Retry(cls, next) else Do(InClass(op, cls), next)
    case Count(op, n) => Do(Counted(op, Low32(n)), next)
    case CapStart(r) => Do(StartCap(Low8(r)), next)
    case CapEnd(r) => Do(EndCap(Low8(r)), next)
    case Assign(v, r) => Do(StoreVar(Low16(v), Low8(r)), next)
    case Anchor(k) => Do(AtAnchor(Low8(k)), next)
    case Label(_) => Do(Skip, next)
    case _ => Unmodelled
  }

  function BareActs(op: BareOp, next: nat): Decoded {
    match op
    case Accept => Win
    case Fail => Lose
    case Fence => Cut(next)
    case Rem => Do(Rest, next)
    case Abort => Stop
    case Succeed => Win
    case Nop => Do(Skip, next)
  }

  /** The opcodes whose execution is modelled. */
  predicate Modelled(i: Instr) {
    match i
    case Bare(_) => true
    case Class(_, _) => true
    case Count(_, _) => true
    case CapStart(_) => true
    case CapEnd(_) => true
    case Assign(_, _) => true
    case Anchor(_) => true
    case Label(_) => true
    case _ => false
  }

  lemma DecodeBare(env: Env, p: nat, op: BareOp)
    requires p < |env.code| && env.code[p] == BareOpcode(op)
    ensures Decode(env, p) == BareActs(op, p + 1)
  {
  }

  lemma DecodeClassOp(env: Env, p: nat, op: ClassOp, id: int)
    requires p < |env.code| && env.code[p] == ClassOpcode(op) && At(env.code, p + 1, Enc16(id))
    ensures Decode(env, p) == Acts(Class(op, id), env.classes, p + 3)
  {
    hide Enc16, U16At;
    Decode16(env.code, p + 1, id);
    assert Decode(env, p) == DecodeClass(env, op, p);
  }

  lemma DecodeCountOp(env: Env, p: nat, op: CountOp, n: int)
    requires p < |env.code| && env.code[p] == CountOpcode(op) && At(env.code, p + 1, Enc32(n))
    ensures Decode(env, p) == Acts(Count(op, n), env.classes, p + 5)
  {
    hide Enc32, U32At;
    Decode32(env.code, p + 1, n);
    assert Decode(env, p) == DecodeCount(env.code, op, p);
  }

  lemma DecodeRegOp(env: Env, p: nat, i: Instr, r: int)
    requires i == CapStart(r) || i == CapEnd(r) || i == Anchor(r)
    requires p < |env.code| && env.code[p] == Opcode(i) && At(env.code, p + 1, [Low8(r)])
    ensures Decode(env, p) == Acts(i, env.classes, p + 2)
  {
    AtByte(env.code, p + 1, [Low8(r)], 0);
    assert Decode(env, p) == DecodeReg(env.code, env.code[p], p);
  }

  lemma DecodeAssignOp(env: Env, p: nat, v: int, r: int)
    requires p < |env.code| && env.code[p] == OP_ASSIGN && At(env.code, p + 1, Enc16(v) + [Low8(r)])
    ensures Decode(env, p) == Acts(Assign(v, r), env.classes, p + 4)
  {
    hide Enc16, U16At;
    AtConcat(env.code, p + 1, Enc16(v), [Low8(r)]);
    Decode16(env.code, p + 1, v);
    AtByte(env.code, p + 3, [Low8(r)], 0);
    assert Decode(env, p) == DecodeAssign(env.code, p);
  }

  /** The VM decodes every modelled instruction to the operands the encoder was given. */
  lemma DecodeMeetsEncoder(env: Env, p: nat, i: Instr)
    requires At(env.code, p, Encode(i)) && Modelled(i)
    ensures p < |env.code| && Decode(env, p) == Acts(i, env.classes, p + |Encode(i)|)
  {
    hide Decode, Enc16, Enc32;
    AtByte(env.code, p, Encode(i), 0);
    AtConcat(env.code, p, [Opcode(i)], Operands(i));
    match i
    case Bare(op) => DecodeBare(env, p, op);
    case Class(op, id) => DecodeClassOp(env, p, op, id);
    case Count(op, n) => DecodeCountOp(env, p, op, n);
    case CapStart(r) => DecodeRegOp(env, p, i, r);
    case CapEnd(r) => DecodeRegOp(env, p, i, r);
    case Anchor(r) => DecodeRegOp(env, p, i, r);
    case Assign(v, r) => DecodeAssignOp(env, p, v, r);
    case Label(l) =>
      AtByte(env.code, p + 1, Enc16(l), 1);
      DecodeLabel(env, p);
  }

  lemma DecodeLabel(env: Env, p: nat)
    requires p + 3 <= |env.code| && env.code[p] == OP_LABEL
    ensures Decode(env, p) == Do(Skip, p + 3)
  {
  }

  lemma DecodeText(env: Env, p: nat, text: seq<byte>)
    requires At(env.code, p, Encode(Lit(p + 9, text))) && |env.code| < U32
    ensures p < |env.code| && Decode(env, p) == Do(Text(text), p + 9 + |text|)
  {
    hide Enc32, U32At;
    var i := Lit(p + 9, text);
    AtByte(env.code, p, Encode(i), 0);
    AtConcat(env.code, p, [Opcode(i)], Operands(i));
    PayloadLayout(env.code, p + 1, p + 9, text);
    assert Decode(env, p) == DecodeLit(env.code, p);
  }

  lemma DecodeSplitAt(env: Env, p: nat, a: nat, b: nat)
    requires At(env.code, p, Encode(Split(a, b))) && a < U32 && b < U32
    ensures p < |env.code| && Decode(env, p) == Fork(a, b)
  {
    hide Enc32, U32At, Low32, Decode;
    var op: seq<byte> := [OP_SPLIT];
    assert Encode(Split(a, b)) == op + (Enc32(a) + Enc32(b));
    AtConcat(env.code, p, op, Enc32(a) + Enc32(b));
    AtConcat(env.code, p + 1, Enc32(a), Enc32(b));
    AtByte(env.code, p, op, 0);
    Decode32(env.code, p + 1, a);
    Decode32(env.code, p + 5, b);
    SplitOpcode(env, p);
    Fits32(a);
    Fits32(b);
  }

  lemma SplitOpcode(env: Env, p: nat)
    requires p + 9 <= |env.code| && env.code[p] == OP_SPLIT
    ensures Decode(env, p) == Fork(U32At(env.code, p + 1), U32At(env.code, p + 5))
  {
    hide U32At;
  }

  lemma DecodeJmpAt(env: Env, p: nat, t: nat)
    requires At(env.code, p, Encode(Jmp(t))) && t < U32
    ensures p < |env.code| && Decode(env, p) == Go(t)
  {
    hide Enc32, U32At;
    AtByte(env.code, p, Encode(Jmp(t)), 0);
    AtConcat(env.code, p, [OP_JMP], Enc32(t));
    Decode32(env.code, p + 1, t);
  }

  // ----- Outcomes of trees -----

  /** Outcomes of one instruction that neither forks nor jumps. */
  function ActOutcome(d: Decoded, s: seq<byte>, st: State): Outcome {
    match d
    case Do(prim, _) => Maybe(PrimStep(s, prim, st))
    case Retry(cls, _) => Outcome(BreakXStates(s, cls, st), Exhausted)
    case Cut(_) => Outcome([st], Decided(Rejected))
    case Win => Outcome([], Decided(Accepted(st)))
    case Lose => NOTHING
    case Stop => Outcome([], Decided(Aborted))
    case _ => Outcome([], Decided(Stuck))
  }

  /** The trees whose execution is modelled: no loops, no output, modelled leaves only. */
  predicate Plain(t: Tree) {
    match t
    case Leaf(i) => Modelled(i)
    case TextLeaf(_) => true
    case EmitLeaf(_) => false
    case Sequence(ps) => forall k :: 0 <= k < |ps| ==> Plain(ps[k])
    case Either(l, r) => Plain(l) && Plain(r)
    case Loop(_, _, _, _) => false
    case Fused(_, _) => true
  }

  /** Ordered outcomes of a compiled tree on subject `s`. */
  function Run(t: Tree, classes: seq<CharClass>, s: seq<byte>, st: State): Outcome
    requires Plain(t)
    decreases t, 0, 0
  {
    match t
    case Leaf(i) => ActOutcome(Acts(i, classes, 0), s, st)
    case TextLeaf(text) => Maybe(PrimStep(s, Text(text), st))
    case Sequence(ps) => RunAll(ps, classes, s, st)
    case Either(l, r) => OrElse(Run(l, classes, s, st), Run(r, classes, s, st))
    case Fused(id, _) => Maybe(PrimStep(s, InClass(Any, ClassAt(classes, Low16(id))), st))
  }

  function RunAll(ps: seq<Tree>, classes: seq<CharClass>, s: seq<byte>, st: State): Outcome
    requires forall k :: 0 <= k < |ps| ==> Plain(ps[k])
    decreases ps, 0, 0
  {
    if ps == [] then Once(st)
    else RunEach(ps[1..], classes, s, Run(ps[0], classes, s, st))
  }

  /** Continue with `ps` from every state of `o` in order. */
  function RunEach(ps: seq<Tree>, classes: seq<CharClass>, s: seq<byte>, o: Outcome): Outcome
    requires forall k :: 0 <= k < |ps| ==> Plain(ps[k])
    decreases ps, 1, |o.states|
  {
    if o.states == [] then o
    else OrElse(RunAll(ps, classes, s, o.states[0]), RunEach(ps, classes, s, Outcome(o.states[1..], o.fin)))
  }

  lemma {:induction false} RunFinishes(t: Tree, classes: seq<CharClass>, s: seq<byte>, st: State)
    requires Plain(t)
    ensures Finished(Run(t, classes, s, st))
    decreases t, 0, 0
  {
    hide PrimStep, Acts;
    match t
    case Sequence(ps) => RunAllFinishes(ps, classes, s, st);
    case Either(l, r) =>
      RunFinishes(l, classes, s, st);
      RunFinishes(r, classes, s, st);
    case _ =>
  }

  lemma {:induction false} RunAllFinishes(ps: seq<Tree>, classes: seq<CharClass>, s: seq<byte>, st: State)
    requires forall k :: 0 <= k < |ps| ==> Plain(ps[k])
    ensures Finished(RunAll(ps, classes, s, st))
    decreases ps, 0, 0
  {
    if ps != [] {
      RunFinishes(ps[0], classes, s, st);
      RunEachFinishes(ps[1..], classes, s, Run(ps[0], classes, s, st));
    }
  }

  lemma {:induction false} RunEachFinishes(ps: seq<Tree>, classes: seq<CharClass>, s: seq<byte>, o: Outcome)
    requires forall k :: 0 <= k < |ps| ==> Plain(ps[k])
    requires Finished(o)
    ensures Finished(RunEach(ps, classes, s, o))
    decreases ps, 1, |o.states|
  {
    if o.states != [] {
      RunAllFinishes(ps, classes, s, o.states[0]);
      RunEachFinishes(ps, classes, s, Outcome(o.states[1..], o.fin));
    }
  }

  /** Sequencing: the first success of the whole is that of the head whose continuation is the tail. */
  lemma {:induction false} FirstRunEach(ps: seq<Tree>, classes: seq<CharClass>, s: seq<byte>, o: Outcome,
                                        rest: State -> Result, tail: State -> Result)
    requires forall k :: 0 <= k < |ps| ==> Plain(ps[k])
    requires forall st :: tail(st) == First(RunAll(ps, classes, s, st), rest)
    ensures First(RunEach(ps, classes, s, o), rest) == First(o, tail)
    decreases |o.states|
  {
    hide RunAll;
    if o.states != [] {
      var head := RunAll(ps, classes, s, o.states[0]);
      var others := Outcome(o.states[1..], o.fin);
      FirstRunEach(ps, classes, s, others, rest, tail);
      FirstOrElse(head, RunEach(ps, classes, s, others), rest);
      assert tail(o.states[0]) == First(head, rest);
      FirstStops(head, rest);
    }
  }

  /** An outcome that ends decided never reports exhaustion. */
  lemma {:induction false} FirstStops(o: Outcome, rest: State -> Result)
    ensures First(o, rest).Exhausted? ==> o.fin.Exhausted?
    decreases |o.states|
  {
    if o.states != [] { FirstStops(Outcome(o.states[1..], o.fin), rest); }
  }
}
