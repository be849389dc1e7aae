/** Control flow of compiled bodies: execution moves only between emitted instructions, never off
    the end, so both static analyses apply to everything the compiler produces. */
module CompiledFlow {
  import opened Wrappers
  import opened Bytes
  import opened Layout
  import opened Ranges
  import opened CharClasses
  import opened Bytecode
  import opened Semantics
  import opened CodeTree
  import opened CodeMeaning
  import opened CodeCorrect
  import opened Pattern
  import opened Translate
  import opened FusionPass
  import opened FusedLayout
  import opened FusionStarts
  import opened Walker
  import opened MinLength
  import opened StartBitmap
  import opened FusedExec

  function StartSet(t: Tree): set<nat> { set p | p in BodyStarts(t) }

  predicate Runnable(i: Instr) { Modelled(i) || i.Lit? || i.Split? || i.Jmp? }

  predicate AllRunnable(prog: seq<Instr>) { forall k :: 0 <= k < |prog| ==> Runnable(prog[k]) }

  lemma RunnableFour(a: seq<Instr>, b: seq<Instr>, c: seq<Instr>, d: seq<Instr>)
    requires AllRunnable(a) && AllRunnable(b) && AllRunnable(c) && AllRunnable(d)
    ensures AllRunnable(a + b + c + d)
  {
    hide Runnable;
  }

  lemma {:induction false} PlainIsRunnable(t: Tree, base: nat)
    requires Plain(t)
    ensures AllRunnable(Lay(t, base))
    decreases t, 0
  {
    hide Weight;
    match t
    case Leaf(i) =>
    case TextLeaf(_) =>
    case Sequence(ps) => PlainRowIsRunnable(ps, base);
    case Either(l, r) =>
      var jmp, right := base + 9 + Weight(l), base + 14 + Weight(l);
      PlainIsRunnable(l, base + 9);
      PlainIsRunnable(r, right);
      RunnableFour([Split(base + 9, right)], Lay(l, base + 9), [Jmp(right + Weight(r))], Lay(r, right));
    case Fused(_, _) =>
  }

  lemma {:induction false} PlainRowIsRunnable(ps: seq<Tree>, base: nat)
    requires forall k :: 0 <= k < |ps| ==> Plain(ps[k])
    ensures AllRunnable(LayAll(ps, base))
    decreases ps, 0
  {
    hide Plain, Runnable, Weight, Lay;
    if ps != [] {
      PlainIsRunnable(ps[0], base);
      PlainRowIsRunnable(ps[1..], base + Weight(ps[0]));
    }
  }

  predicate ShortTargets(i: Instr) {
    match i
    case Split(a, b) => 0 <= a < U32 && 0 <= b < U32
    case Jmp(t) => 0 <= t < U32
    case _ => true
  }

  lemma TargetsAreShort(i: Instr)
    requires forall t :: t in Targets(i) ==> 0 <= t < U32
    ensures ShortTargets(i)
  {
    match i
    case Split(a, b) => assert a in Targets(i) && b in Targets(i);
    case Jmp(t) => assert t in Targets(i);
    case _ =>
  }

  /** How the VM sees an emitted instruction, and that it goes on at the next one or at a target. */
  lemma InstrFlows(env: Env, p: nat, i: Instr)
    requires Runnable(i) && Placed(i, p) && At(env.code, p, Encode(i)) && |env.code| < U32
    requires ShortTargets(i)
    ensures p < |env.code| && Inline(env, p)
    ensures var next := p + |Encode(i)|;
      match i
      case Lit(_, text) => Decode(env, p) == Do(Text(text), next)
      case Split(a, b) => Decode(env, p) == Fork(a, b)
      case Jmp(t) => Decode(env, p) == Go(t)
      case _ => Decode(env, p) == Acts(i, env.classes, next)
  {
    hide Decode, Acts, U32At, Enc32, Enc16;
    AtByte(env.code, p, Encode(i), 0);
    assert Encode(i)[0] == Opcode(i);
    match i
    case Lit(off, text) =>
      DecodeText(env, p, text);
      LitWidth(off, text);
      LitIsInline(env, p, text);
    case Split(a, b) => DecodeSplitAt(env, p, a, b);
    case Jmp(t) => DecodeJmpAt(env, p, t);
    case _ => DecodeMeetsEncoder(env, p, i);
  }

  lemma LitIsInline(env: Env, p: nat, text: seq<byte>)
    requires At(env.code, p, Encode(Lit(p + 9, text))) && |env.code| < U32
    ensures p < |env.code| && Inline(env, p)
  {
    hide Enc32, U32At;
    var i := Lit(p + 9, text);
    AtConcat(env.code, p, [Opcode(i)], Operands(i));
    PayloadLayout(env.code, p + 1, p + 9, text);
  }

  /** The successor of an emitted instruction is emitted too. */
  lemma NextStart(prog: seq<Instr>, k: nat)
    requires k + 1 < |prog|
    ensures InstrStarts(prog, 0)[k] + |Encode(prog[k])| == InstrStarts(prog, 0)[k + 1]
  {
    hide Encode;
    StartsChain(Chunks(prog), 0, k);
  }

  lemma InstrAt(code: seq<byte>, prog: seq<Instr>, k: nat)
    requires At(code, 0, EncodeAll(prog)) && k < |prog|
    ensures At(code, InstrStarts(prog, 0)[k], Encode(prog[k]))
  {
    hide Encode, At;
    ChunkAt(code, 0, Chunks(prog), k);
  }

  /** One emitted instruction of a body in place. */
  lemma BodyInstr(env: Env, t: Tree, k: nat)
    requires Plain(t) && Walkable(t) && At(env.code, 0, BodyOf(t)) && |env.code| < U32 && k < |BodyProgram(t)|
    ensures var p := InstrStarts(BodyProgram(t), 0)[k];
      p < |env.code| && Inline(env, p) && Stays(env, p, StartSet(t))
    ensures var p, i := InstrStarts(BodyProgram(t), 0)[k], BodyProgram(t)[k];
      i.Count? || i.Class? ==> Decode(env, p) == Acts(i, env.classes, p + |Encode(i)|)
    ensures var p, i := InstrStarts(BodyProgram(t), 0)[k], BodyProgram(t)[k];
      match Decode(env, p)
      case Do(Counted(_, _), _) => i.Count?
      case Do(InClass(_, _), _) => i.Class?
      case _ => true
  {
    hide Encode, Decode, BodyOf, EncodeAll, Walk, Walkable, Plain, AllPlaced, Inline, TreeStarts, Acts;
    var prog := BodyProgram(t);
    BodyProgramIs(t);
    BodyPlaced(t);
    BodyWalks(env.code, t);
    PlainIsRunnable(t, 0);
    var p, i := InstrStarts(prog, 0)[k], prog[k];
    InstrAt(env.code, prog, k);
    TargetsSmall(env.code, t, k);
    assert Placed(i, p) by { PlacedAt(prog, k); }
    assert Runnable(i) by { BodyRunnable(t, k); }
    TargetsAreShort(i);
    InstrFlows(env, p, i);
    if k + 1 < |prog| {
      NextStart(prog, k);
      assert InstrStarts(prog, 0)[k + 1] in BodyStarts(t);
    } else {
      assert i == Bare(BareOp.Accept);
    }
    FlowStays(env, t, k);
  }

  lemma PlacedAt(prog: seq<Instr>, k: nat)
    requires AllPlaced(prog, 0) && k < |prog|
    ensures Placed(prog[k], InstrStarts(prog, 0)[k])
  {
    hide Placed;
  }

  lemma BodyRunnable(t: Tree, k: nat)
    requires AllRunnable(Lay(t, 0)) && k < |BodyProgram(t)|
    ensures Runnable(BodyProgram(t)[k])
  {
    var prog := Lay(t, 0);
    if k < |prog| { assert BodyProgram(t)[k] == prog[k]; }
  }

  lemma TargetsSmall(code: seq<byte>, t: Tree, k: nat)
    requires Walkable(t) && At(code, 0, BodyOf(t)) && |code| < U32 && k < |BodyProgram(t)|
    ensures forall q :: q in Targets(BodyProgram(t)[k]) ==> 0 <= q < U32 && q in StartSet(t)
  {
    hide Walk, Walkable, BodyOf, Targets, Encode, TreeStarts;
    BodyWalks(code, t);
    forall q | q in Targets(BodyProgram(t)[k]) ensures 0 <= q < U32 && q in StartSet(t) {
      assert q in BodyStarts(t);
      BodyStartInside(code, t, q);
    }
  }

  lemma BodyStartInside(code: seq<byte>, t: Tree, q: nat)
    requires At(code, 0, BodyOf(t)) && q in BodyStarts(t)
    ensures q < |code|
  {
    hide Emitted, TreeStarts;
    EmittedOf(t, 0);
    if q != Weight(t) { StartsInside(t, 0, q); }
  }

  lemma FlowStays(env: Env, t: Tree, k: nat)
    requires k < |BodyProgram(t)|
    requires var prog := BodyProgram(t);
      var p, i := InstrStarts(prog, 0)[k], prog[k];
      && p < |env.code| && Runnable(i)
      && (forall q :: q in Targets(i) ==> q >= 0 && q in StartSet(t))
      && (i == Bare(BareOp.Accept) || p + |Encode(i)| in StartSet(t))
      && match i
         case Lit(_, text) => Decode(env, p) == Do(Text(text), p + |Encode(i)|)
         case Split(a, b) => a >= 0 && b >= 0 && Decode(env, p) == Fork(a, b)
         case Jmp(q) => q >= 0 && Decode(env, p) == Go(q)
         case _ => Decode(env, p) == Acts(i, env.classes, p + |Encode(i)|)
    ensures var p, i := InstrStarts(BodyProgram(t), 0)[k], BodyProgram(t)[k];
      Stays(env, p, StartSet(t))
      && (match Decode(env, p)
          case Do(Counted(_, _), _) => i.Count?
          case Do(InClass(_, _), _) => i.Class?
          case _ => true)
  {
    hide Encode, Decode, StartSet, BodyProgram;
  }

  lemma StartHasInstr(t: Tree, p: nat) returns (k: nat)
    requires p in StartSet(t)
    ensures k < |BodyProgram(t)| && InstrStarts(BodyProgram(t), 0)[k] == p
  {
    hide Encode;
    BodyProgramIs(t);
    k :| 0 <= k < |BodyStarts(t)| && BodyStarts(t)[k] == p;
  }

  /** A compiled body is closed under execution, with every literal inline. */
  lemma BodyIsClosed(env: Env, t: Tree)
    requires Plain(t) && Walkable(t) && At(env.code, 0, BodyOf(t)) && |env.code| < U32
    ensures Closed(env, StartSet(t)) && 0 in StartSet(t)
  {
    hide Encode, Decode, BodyOf, Plain, Walkable, StartSet, Inline, BodyProgram, At;
    forall p | p in StartSet(t) && p < |env.code| ensures Inline(env, p) && Follows(env, p, StartSet(t)) {
      var k := StartHasInstr(t, p);
      BodyInstr(env, t, k);
    }
    BodyBegins(t);
  }

  lemma BodyBegins(t: Tree)
    ensures 0 in StartSet(t)
  {
    hide TreeStarts;
    TreeBegins(t, 0);
    assert Weight(t) in [Weight(t)];
  }

  /** No TAB or RTAB among the instructions. */
  predicate TabFree(prog: seq<Instr>) {
    forall k :: 0 <= k < |prog| && prog[k].Count? ==> !prog[k].nop.Tab? && !prog[k].nop.RTab?
  }

  predicate AsciiClasses(classes: seq<CharClass>) {
    forall k :: 0 <= k < |classes| ==> IsAscii(classes[k].ranges)
  }

  /** With ASCII classes and no tabulation, the start-byte analysis can follow a compiled body. */
  lemma BodyIsTracked(env: Env, t: Tree)
    requires Plain(t) && Walkable(t) && At(env.code, 0, BodyOf(t)) && |env.code| < U32
    requires TabFree(BodyProgram(t)) && AsciiClasses(env.classes)
    ensures Tracked(env, StartSet(t)) && 0 in StartSet(t)
  {
    hide Encode, Decode, BodyOf, Plain, Walkable, StartSet, Inline, BodyProgram, At, IsAscii;
    forall p | p in StartSet(t)
      ensures p < |env.code| && Inline(env, p) && Stays(env, p, StartSet(t)) && Plainly(env, p)
    {
      var k := StartHasInstr(t, p);
      BodyInstr(env, t, k);
      var i := BodyProgram(t)[k];
      match Decode(env, p)
      case Do(Counted(op, _), _) => assert i.Count? && op == i.nop;
      case Do(InClass(op, Some(rs)), _) => assert ClassAt(env.classes, Low16(i.classId)) == Some(rs);
      case _ =>
    }
    BodyBegins(t);
  }

  /** Control stays inside a compiled body, whatever its instructions. */
  lemma BodyIsContained(env: Env, t: Tree)
    requires Plain(t) && Walkable(t) && At(env.code, 0, BodyOf(t)) && |env.code| < U32
    ensures Contained(env, StartSet(t)) && 0 in StartSet(t)
  {
    hide Encode, Decode, BodyOf, Plain, Walkable, StartSet, Inline, BodyProgram, At;
    forall p | p in StartSet(t) ensures p < |env.code| && Inline(env, p) && Stays(env, p, StartSet(t)) {
      var k := StartHasInstr(t, p);
      BodyInstr(env, t, k);
    }
    BodyBegins(t);
  }

  /** So the walk over a compiled body never runs off the end, and misses no branch of it. */
  lemma BodyLosesNothing(env: Env, t: Tree)
    requires Plain(t) && Walkable(t) && At(env.code, 0, BodyOf(t)) && |env.code| < U32
    ensures LostFrom(env.classes, env.code, 0, [], 0).branches == []
    ensures WalkBits(env.classes, env.code, 0, [], NoBytes(), 0) == PatientBits(env.classes, env.code, 0, [], NoBytes(), 0)
  {
    hide BodyOf, Plain, Walkable, StartSet, At, LostFrom, WalkBits, PatientBits, Decode, Inline;
    BodyIsContained(env, t);
    EnclosedLosesNothing(env, StartSet(t), 0, [], 0);
    PatientTakesUp(env.classes, env.code, 0, [], NoBytes(), 0);
  }
}
