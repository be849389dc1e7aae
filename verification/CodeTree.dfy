/** Compiled patterns before layout: a tree whose jumps are still structure, its layout into
    instructions, and the outcomes the compiled code must produce. */
module CodeTree {
  import opened Wrappers
  import opened Bytes
  import opened Layout
  import opened Ranges
  import opened CharClasses
  import opened Bytecode
  import opened Semantics
  import opened Outcomes

  datatype Tree =
    | Leaf(instr: Instr)
    | TextLeaf(text: seq<byte>)
    | EmitLeaf(text: seq<byte>)
    | Sequence(parts: seq<Tree>)
    | Either(left: Tree, right: Tree)
    | Loop(id: nat, min: int, max: int, body: Tree)
    | Fused(classId: nat, pad: nat)

  /** Instructions whose bytes and targets do not depend on where they are placed. */
  predicate Floating(i: Instr) {
    match i
    case Jmp(_) => false
    case Split(_, _) => false
    case Lit(_, _) => false
    case EmitLiteral(_, _) => false
    case RepeatInit(_, _, _, _) => false
    case RepeatStep(_, _) => false
    case _ => true
  }

  // ----- Layout -----

  function Weight(t: Tree): nat
    decreases t, 0
  {
    match t
    case Leaf(i) => |Encode(i)|
    case TextLeaf(text) => 9 + |text|
    case EmitLeaf(text) => 9 + |text|
    case Sequence(ps) => WeightAll(ps)
    case Either(l, r) => 14 + Weight(l) + Weight(r)
    case Loop(_, _, _, b) => 20 + Weight(b)
    case Fused(_, pad) => 3 + pad
  }

  function WeightAll(ps: seq<Tree>): nat
    decreases ps, 0
  {
    if ps == [] then 0 else Weight(ps[0]) + WeightAll(ps[1..])
  }

  function Nops(n: nat): (ns: seq<Instr>)
    ensures |ns| == n
  {
    seq(n, _ => Bare(Nop))
  }

  /** The instructions of a tree placed at `base`, with every jump resolved. */
  function Lay(t: Tree, base: nat): seq<Instr>
    decreases t, 0
  {
    match t
    case Leaf(i) => [i]
    case TextLeaf(text) => [Lit(base + 9, text)]
    case EmitLeaf(text) => [EmitLiteral(base + 9, text)]
    case Sequence(ps) => LayAll(ps, base)
    case Either(l, r) =>
      var right := base + 14 + Weight(l);
      var end := right + Weight(r);
      [Split(base + 9, right)] + Lay(l, base + 9) + [Jmp(end)] + Lay(r, right)
    case Loop(id, min, max, b) =>
      var end := base + 20 + Weight(b);
      [RepeatInit(id, min, max, end)] + Lay(b, base + 14) + [RepeatStep(id, base + 14)]
    case Fused(id, pad) => [Class(Any, id)] + Nops(pad)
  }

  function LayAll(ps: seq<Tree>, base: nat): seq<Instr>
    decreases ps, 0
  {
    if ps == [] then [] else Lay(ps[0], base) + LayAll(ps[1..], base + Weight(ps[0]))
  }

  /** The bytes of a tree placed at `base`. */
  function Emitted(t: Tree, base: nat): seq<byte> { EncodeAll(Lay(t, base)) }

  function EmittedAll(ps: seq<Tree>, base: nat): seq<byte> { EncodeAll(LayAll(ps, base)) }

  lemma NopByte()
    ensures Encode(Bare(Nop)) == [OP_NOP]
  {
  }

  lemma {:induction false} EncodeNops(n: nat)
    ensures EncodeAll(Nops(n)) == NopBytes(n)
  {
    hide Encode;
    if n > 0 {
      assert Nops(n) == [Bare(Nop)] + Nops(n - 1);
      assert NopBytes(n) == [OP_NOP] + NopBytes(n - 1);
      EncodeAllConcat([Bare(Nop)], Nops(n - 1));
      EncodeOne(Bare(Nop));
      NopByte();
      EncodeNops(n - 1);
    } else {
      assert Chunks(Nops(0)) == [];
    }
  }

  lemma EncodeFour(a: seq<Instr>, b: seq<Instr>, c: seq<Instr>, d: seq<Instr>)
    ensures EncodeAll(a + b + c + d) == EncodeAll(a) + EncodeAll(b) + EncodeAll(c) + EncodeAll(d)
  {
    hide Encode, EncodeAll;
    EncodeAllConcat(a, b);
    EncodeAllConcat(a + b, c);
    EncodeAllConcat(a + b + c, d);
  }

  /** How the bytes of each kind of tree are put together, and that they weigh what `Weight` says. */
  lemma {:induction false} EmittedOf(t: Tree, base: nat)
    ensures |Emitted(t, base)| == Weight(t)
    ensures t.Leaf? ==> Emitted(t, base) == Encode(t.instr)
    ensures t.TextLeaf? ==> Emitted(t, base) == Encode(Lit(base + 9, t.text))
    ensures t.EmitLeaf? ==> Emitted(t, base) == Encode(EmitLiteral(base + 9, t.text))
    ensures t.Sequence? ==> Emitted(t, base) == EmittedAll(t.parts, base)
    ensures t.Either? ==>
      var right := base + 14 + Weight(t.left);
      Emitted(t, base) == Encode(Split(base + 9, right)) + Emitted(t.left, base + 9)
                         + Encode(Jmp(right + Weight(t.right))) + Emitted(t.right, right)
    ensures t.Loop? ==>
      Emitted(t, base) == Encode(RepeatInit(t.id, t.min, t.max, base + Weight(t))) + Emitted(t.body, base + 14)
                         + Encode(RepeatStep(t.id, base + 14))
    ensures t.Fused? ==> Emitted(t, base) == Encode(Class(Any, t.classId)) + NopBytes(t.pad)
    decreases t, 1
  {
    hide Encode, EncodeAll;
    match t
    case Leaf(i) => EncodeOne(i);
    case TextLeaf(text) =>
      EncodeOne(Lit(base + 9, text));
      LitWidth(base + 9, text);
    case EmitLeaf(text) =>
      EncodeOne(EmitLiteral(base + 9, text));
      LitWidth(base + 9, text);
    case Sequence(ps) => EmittedOfAll(ps, base);
    case Either(l, r) => EmittedOfChoice(l, r, base);
    case Loop(id, min, max, b) => EmittedOfLoop(id, min, max, b, base);
    case Fused(id, pad) =>
      EncodeAllConcat([Class(Any, id)], Nops(pad));
      EncodeOne(Class(Any, id));
      EncodeNops(pad);
      FixedWidths(id, 0, 0, 0, 0);
  }

  lemma LitWidth(off: int, text: seq<byte>)
    ensures |Encode(Lit(off, text))| == |Encode(EmitLiteral(off, text))| == 9 + |text|
  {
    hide Enc32;
  }

  lemma EmittedWidth(t: Tree, base: nat)
    ensures |Emitted(t, base)| == Weight(t)
  {
    hide Encode, Emitted, Weight;
    EmittedOf(t, base);
  }

  lemma FixedWidths(id: int, a: int, b: int, c: int, d: int)
    ensures |Encode(Class(Any, id))| == 3 && |Encode(Split(a, b))| == 9 && |Encode(Jmp(a))| == 5
    ensures |Encode(RepeatInit(a, b, c, d))| == 14 && |Encode(RepeatStep(a, b))| == 6
  {
    hide Enc32, Enc16;
  }

  lemma JumpBytes(a: int, b: int, e: int)
    ensures Encode(Split(a, b)) == [OP_SPLIT] + (Enc32(a) + Enc32(b)) && Encode(Jmp(e)) == [OP_JMP] + Enc32(e)
  {
    hide Enc32;
  }

  lemma {:induction false} EmittedOfChoice(l: Tree, r: Tree, base: nat)
    ensures var right := base + 14 + Weight(l);
            Emitted(Either(l, r), base) == Encode(Split(base + 9, right)) + Emitted(l, base + 9)
                                          + Encode(Jmp(right + Weight(r))) + Emitted(r, right)
    ensures |Emitted(Either(l, r), base)| == Weight(Either(l, r))
    decreases Either(l, r), 0
  {
    hide Encode, EncodeAll, Lay;
    var right := base + 14 + Weight(l);
    var split, jmp := Split(base + 9, right), Jmp(right + Weight(r));
    LayEither(l, r, base);
    EncodeFour([split], Lay(l, base + 9), [jmp], Lay(r, right));
    EncodeOne(split);
    EncodeOne(jmp);
    FixedWidths(0, base + 9, right, 0, 0);
    FixedWidths(0, right + Weight(r), 0, 0, 0);
    EmittedOf(l, base + 9);
    EmittedOf(r, right);
  }

  lemma LayEither(l: Tree, r: Tree, base: nat)
    ensures var right := base + 14 + Weight(l);
      Lay(Either(l, r), base)
      == [Split(base + 9, right)] + Lay(l, base + 9) + [Jmp(right + Weight(r))] + Lay(r, right)
  {
    hide Weight;
  }

  lemma LayLoop(id: nat, min: int, max: int, b: Tree, base: nat)
    ensures Lay(Loop(id, min, max, b), base)
         == [RepeatInit(id, min, max, base + 20 + Weight(b))] + Lay(b, base + 14) + [RepeatStep(id, base + 14)]
  {
    hide Weight;
  }

  lemma EitherWeight(l: Tree, r: Tree)
    ensures Weight(Either(l, r)) == 14 + Weight(l) + Weight(r)
  {
  }

  lemma LoopWeight(id: nat, min: int, max: int, b: Tree)
    ensures Weight(Loop(id, min, max, b)) == 20 + Weight(b)
  {
  }

  lemma {:induction false} EmittedOfLoop(id: nat, min: int, max: int, b: Tree, base: nat)
    ensures Emitted(Loop(id, min, max, b), base)
         == Encode(RepeatInit(id, min, max, base + 20 + Weight(b))) + Emitted(b, base + 14)
            + Encode(RepeatStep(id, base + 14))
    ensures |Emitted(Loop(id, min, max, b), base)| == Weight(Loop(id, min, max, b))
    decreases Loop(id, min, max, b), 0
  {
    hide Encode, EncodeAll;
    var end := base + 20 + Weight(b);
    var init, step := RepeatInit(id, min, max, end), RepeatStep(id, base + 14);
    var lb := Lay(b, base + 14);
    EncodeOne(init);
    EncodeOne(step);
    EncodeAllConcat([init], lb);
    EncodeAllConcat([init] + lb, [step]);
    FixedWidths(0, id, min, max, end);
    FixedWidths(0, id, base + 14, 0, 0);
    EmittedOf(b, base + 14);
  }

  lemma {:induction false} EmittedOfAll(ps: seq<Tree>, base: nat)
    ensures |EmittedAll(ps, base)| == WeightAll(ps)
    ensures ps == [] ==> EmittedAll(ps, base) == []
    ensures ps != [] ==> EmittedAll(ps, base) == Emitted(ps[0], base) + EmittedAll(ps[1..], base + Weight(ps[0]))
    decreases ps, 0
  {
    hide Encode;
    if ps == [] {
      assert Chunks([]) == [];
    } else {
      EncodeAllConcat(Lay(ps[0], base), LayAll(ps[1..], base + Weight(ps[0])));
      EmittedOf(ps[0], base);
      EmittedOfAll(ps[1..], base + Weight(ps[0]));
    }
  }

  /** Where the four pieces of an alternation sit. */
  lemma SplitLayout(code: seq<byte>, l: Tree, r: Tree, base: nat)
    requires At(code, base, Emitted(Either(l, r), base))
    ensures var right := base + 14 + Weight(l);
      && At(code, base, Encode(Split(base + 9, right)))
      && At(code, base + 9, Emitted(l, base + 9))
      && At(code, base + 9 + Weight(l), Encode(Jmp(right + Weight(r))))
      && At(code, right, Emitted(r, right))
      && right + Weight(r) <= |code|
  {
    hide Encode, Emitted, At, Weight, Lay, EncodeAll;
    var right := base + 14 + Weight(l);
    EmittedOfChoice(l, r, base);
    EmittedWidth(l, base + 9);
    EmittedWidth(r, right);
    FixedWidths(0, base + 9, right, 0, 0);
    FixedWidths(0, right + Weight(r), 0, 0, 0);
    AtFour(code, base, Encode(Split(base + 9, right)), Emitted(l, base + 9),
           Encode(Jmp(right + Weight(r))), Emitted(r, right));
    AtEnds(code, right, Emitted(r, right));
  }

  lemma AtEnds(code: seq<byte>, p: nat, part: seq<byte>)
    requires At(code, p, part)
    ensures p + |part| <= |code|
  {
  }

  // ----- Instruction starts of a tree -----

  function TreeStarts(t: Tree, base: nat): seq<nat> { InstrStarts(Lay(t, base), base) }

  function TreeStartsAll(ps: seq<Tree>, base: nat): seq<nat> { InstrStarts(LayAll(ps, base), base) }

  lemma SequenceWeight(ps: seq<Tree>)
    ensures Weight(Sequence(ps)) == WeightAll(ps)
  {
  }

  lemma StartsOfSequence(ps: seq<Tree>, base: nat)
    ensures TreeStarts(Sequence(ps), base) == TreeStartsAll(ps, base)
    ensures ps == [] ==> TreeStartsAll(ps, base) == []
    ensures ps != [] ==>
      TreeStartsAll(ps, base) == TreeStarts(ps[0], base) + TreeStartsAll(ps[1..], base + Weight(ps[0]))
  {
    hide Encode;
    if ps != [] {
      InstrStartsConcat(Lay(ps[0], base), LayAll(ps[1..], base + Weight(ps[0])), base);
      EmittedOf(ps[0], base);
    }
  }

  lemma SizeOfTree(t: Tree, base: nat)
    ensures Size(Lay(t, base)) == Weight(t)
  {
    hide Lay, Weight, EncodeAll;
    EmittedWidth(t, base);
  }

  lemma StartsOfEither(l: Tree, r: Tree, base: nat)
    ensures var jmp, right := base + 9 + Weight(l), base + 14 + Weight(l);
      TreeStarts(Either(l, r), base) == [base] + TreeStarts(l, base + 9) + [jmp] + TreeStarts(r, right)
  {
    hide Encode, EncodeAll, InstrStarts, Lay, Weight;
    var jmp, right := base + 9 + Weight(l), base + 14 + Weight(l);
    var si, ji := Split(base + 9, right), Jmp(right + Weight(r));
    EncodeOne(si);
    EncodeOne(ji);
    FixedWidths(0, base + 9, right, 0, 0);
    FixedWidths(0, right + Weight(r), 0, 0, 0);
    LayEither(l, r, base);
    SizeOfTree(l, base + 9);
    StartsOne(si, base);
    StartsOne(ji, jmp);
    StartsOfFour([si], Lay(l, base + 9), [ji], Lay(r, right), base);
  }

  lemma StartsOfLoop(id: nat, min: int, max: int, b: Tree, base: nat)
    ensures TreeStarts(Loop(id, min, max, b), base)
         == [base] + TreeStarts(b, base + 14) + [base + 14 + Weight(b)]
  {
    hide Encode, EncodeAll, InstrStarts, Lay, Weight;
    var end := base + 20 + Weight(b);
    var init, step := RepeatInit(id, min, max, end), RepeatStep(id, base + 14);
    var lb := Lay(b, base + 14);
    EncodeOne(init);
    FixedWidths(0, id, min, max, end);
    LayLoop(id, min, max, b, base);
    SizeOfTree(b, base + 14);
    EncodeAllConcat([init], lb);
    StartsOne(init, base);
    StartsOne(step, base + 14 + Weight(b));
    InstrStartsConcat([init], lb, base);
    InstrStartsConcat([init] + lb, [step], base);
  }

  lemma StartsOfFour(a: seq<Instr>, b: seq<Instr>, c: seq<Instr>, d: seq<Instr>, base: nat)
    ensures var pb := base + Size(a);
      var pc := pb + Size(b);
      InstrStarts(a + b + c + d, base)
      == InstrStarts(a, base) + InstrStarts(b, pb) + InstrStarts(c, pc) + InstrStarts(d, pc + Size(c))
  {
    hide Encode, EncodeAll, InstrStarts;
    EncodeAllConcat(a, b);
    EncodeAllConcat(a + b, c);
    InstrStartsConcat(a, b, base);
    InstrStartsConcat(a + b, c, base);
    InstrStartsConcat(a + b + c, d, base);
  }

  /** Starts lie inside the tree's bytes. */
  lemma StartsInside(t: Tree, base: nat, p: nat)
    requires p in TreeStarts(t, base)
    ensures base <= p < base + Weight(t)
  {
    hide Encode;
    EmittedOf(t, base);
    var cs := Chunks(Lay(t, base));
    forall k | 0 <= k < |cs| ensures cs[k] != [] {
      assert cs[k] == Encode(Lay(t, base)[k]);
    }
    StartsRange(cs, base, p);
  }
}
