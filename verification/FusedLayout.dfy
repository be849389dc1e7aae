/** What the byte-level fusion pass does to compiled code, told on the code tree: scanning the
    bytes of a tree yields exactly the bytes of the fused tree. */
module FusedLayout {
  import opened Wrappers
  import opened Bytes
  import opened Layout
  import opened Ranges
  import opened CharClasses
  import opened Bytecode
  import opened CodeTree
  import opened CodeBuffer
  import opened FusionPass

  // ----- Fusion on trees -----

  /** How a tree's code begins: nothing at all, a single-character operation with its NOPs
      (`width` bytes together), or something else. */
  datatype Lead = Nothing | Single(arm: Arm, width: nat) | Other

  function LeadOf(t: Tree): (l: Lead)
    ensures l.Nothing? <==> Weight(t) == 0
    ensures l.Single? ==> 3 <= l.width <= Weight(t)
    decreases t, 0
  {
    match t
    case Leaf(i) =>
      if i.Class? && i.cop.Any? then Single(AnyArm(Low16(i.classId)), 3) else Other
    case TextLeaf(text) => if |text| == 1 then Single(LitArm(text[0]), 10) else Other
    case EmitLeaf(_) => Other
    case Sequence(ps) => LeadOfAll(ps)
    case Either(_, _) => Other
    case Loop(_, _, _, _) => Other
    case Fused(id, pad) => Single(AnyArm(Low16(id)), 3 + pad)
  }

  function LeadOfAll(ps: seq<Tree>): (l: Lead)
    ensures l.Nothing? <==> WeightAll(ps) == 0
    ensures l.Single? ==> 3 <= l.width <= WeightAll(ps)
    decreases ps, 0
  {
    if ps == [] then Nothing
    else if Weight(ps[0]) > 0 then LeadOf(ps[0])
    else LeadOfAll(ps[1..])
  }

  /** The arm a tree amounts to when its code is one single-character operation and nothing else. */
  function AsArm(t: Tree): Option<Arm> {
    match LeadOf(t)
    case Single(arm, width) => if width == Weight(t) then Some(arm) else None
    case _ => None
  }

  datatype FusedTree = FusedTree(tree: Tree, entries: seq<CharClass>)
  datatype FusedTrees = FusedTrees(trees: seq<Tree>, entries: seq<CharClass>)

  /** Fuse the arms of an alternation whose sub-trees are already fused. */
  function FusePair(l: Tree, r: Tree, entries: seq<CharClass>): (f: FusedTree)
    requires Canonical(entries)
    ensures Canonical(f.entries) && entries <= f.entries
  {
    var x, y := AsArm(l), AsArm(r);
    if x.None? || y.None? then FusedTree(Either(l, r), entries)
    else
      var (grown, id) := WithClass(entries, PairClass(entries, x.value, y.value));
      if id > 0xFFFF then FusedTree(Either(l, r), grown)
      else FusedTree(InPlaceOf(l, r, id), grown)
  }

  /** One class operation with as much padding as the alternation was long. */
  function InPlaceOf(l: Tree, r: Tree, id: nat): Tree { Fused(id, Weight(Either(l, r)) - 3) }

  /** The table with the class registered, and the class's id. */
  function WithClass(entries: seq<CharClass>, c: CharClass): (r: (seq<CharClass>, nat))
    requires Canonical(entries) && Normal(c.ranges)
    ensures r == Register(entries, c) && Canonical(r.0) && entries <= r.0
  {
    RegisterKeepsCanonical(entries, c);
    Register(entries, c)
  }

  /** Right to left, innermost first: the order in which the scan meets the alternations. */
  function FuseTree(t: Tree, entries: seq<CharClass>): (f: FusedTree)
    requires Canonical(entries)
    ensures Canonical(f.entries) && entries <= f.entries
    decreases t, 0
  {
    match t
    case Sequence(ps) =>
      var f := FuseTrees(ps, entries);
      FusedTree(Sequence(f.trees), f.entries)
    case Either(l, r) =>
      var fr := FuseTree(r, entries);
      var fl := FuseTree(l, fr.entries);
      FusePair(fl.tree, fr.tree, fl.entries)
    case Loop(id, min, max, b) =>
      var f := FuseTree(b, entries);
      FusedTree(Loop(id, min, max, f.tree), f.entries)
    case _ => FusedTree(t, entries)
  }

  function FuseTrees(ps: seq<Tree>, entries: seq<CharClass>): (f: FusedTrees)
    requires Canonical(entries)
    ensures Canonical(f.entries) && entries <= f.entries
    decreases ps, 0
  {
    if ps == [] then FusedTrees([], entries)
    else
      var rest := FuseTrees(ps[1..], entries);
      var head := FuseTree(ps[0], rest.entries);
      FusedTrees([head.tree] + rest.trees, head.entries)
  }

  lemma FuseEither(l: Tree, r: Tree, entries: seq<CharClass>)
    requires Canonical(entries)
    ensures var fr := FuseTree(r, entries);
      var fl := FuseTree(l, fr.entries);
      FuseTree(Either(l, r), entries) == FusePair(fl.tree, fr.tree, fl.entries)
  {
    hide Canonical, FusePair;
  }

  lemma PairKeepsWeight(l: Tree, r: Tree, entries: seq<CharClass>)
    requires Canonical(entries)
    ensures Weight(FusePair(l, r, entries).tree) == Weight(Either(l, r))
  {
    hide PairClass, Canonical, AsArm;
  }

  lemma {:induction false} FuseKeepsWeight(t: Tree, entries: seq<CharClass>)
    requires Canonical(entries)
    ensures Weight(FuseTree(t, entries).tree) == Weight(t)
    decreases t, 0
  {
    hide Canonical, FusePair;
    match t
    case Sequence(ps) => FuseAllKeepsWeight(ps, entries);
    case Either(l, r) =>
      var fr := FuseTree(r, entries);
      var fl := FuseTree(l, fr.entries);
      FuseKeepsWeight(r, entries);
      FuseKeepsWeight(l, fr.entries);
      PairKeepsWeight(fl.tree, fr.tree, fl.entries);
    case Loop(_, _, _, b) => FuseKeepsWeight(b, entries);
    case _ =>
  }

  lemma {:induction false} FuseAllKeepsWeight(ps: seq<Tree>, entries: seq<CharClass>)
    requires Canonical(entries)
    ensures WeightAll(FuseTrees(ps, entries).trees) == WeightAll(ps)
    decreases ps, 0
  {
    hide PairClass, Canonical, LeadOf;
    if ps != [] {
      var rest := FuseTrees(ps[1..], entries);
      FuseAllKeepsWeight(ps[1..], entries);
      FuseKeepsWeight(ps[0], rest.entries);
      var head := FuseTree(ps[0], rest.entries);
      assert ([head.tree] + rest.trees)[1..] == rest.trees;
    }
  }

  // ----- Parsing the bytes of a tree -----

  /** Trees without NOP leaves; generation never produces one. */
  predicate NoNops(t: Tree) {
    match t
    case Leaf(i) => i != Bare(Nop) && Floating(i)
    case Sequence(ps) => forall k :: 0 <= k < |ps| ==> NoNops(ps[k])
    case Either(l, r) => NoNops(l) && NoNops(r)
    case Loop(_, _, _, b) => NoNops(b)
    case _ => true
  }

  /** Neither NOP nor JMP sits at `p`: something else follows there. */
  predicate Halts(code: seq<byte>, p: nat) {
    p < |code| && code[p] != OP_NOP && code[p] != OP_JMP
  }

  /** What a parser standing at `base` sees of a tree that begins with a single-character operation. */
  ghost predicate ParsesAs(code: seq<byte>, base: nat, arm: Arm, width: nat) {
    var op := ParseOp(code, base);
    op.Some? && op.value.arm == arm && op.value.after <= base + width
    && At(code, op.value.after, NopBytes(base + width - op.value.after))
  }

  /** What the parsers see at the start of a tree's code. */
  ghost predicate Seen(code: seq<byte>, base: nat, l: Lead, weight: nat) {
    match l
    case Nothing => true
    case Other => ParseOp(code, base) == None && Halts(code, base)
    case Single(arm, width) =>
      && ParsesAs(code, base, arm, width) && Halts(code, base)
      && (width < weight ==> Halts(code, base + width))
  }

  lemma SeenLeaf(code: seq<byte>, base: nat, i: Instr)
    requires At(code, base, Encode(i)) && i != Bare(Nop) && Floating(i)
    ensures Seen(code, base, LeadOf(Leaf(i)), Weight(Leaf(i)))
  {
    hide Operands;
    AtByte(code, base, Encode(i), 0);
    if i.Class? && i.cop.Any? {
      SeenAny(code, base, i.classId, 0);
      AnyWidth(i.classId);
    }
  }

  lemma AnyWidth(id: int)
    ensures |Encode(Class(Any, id))| == 3
  {
    hide Enc16;
  }

  lemma SeenAny(code: seq<byte>, base: nat, id: int, pad: nat)
    requires At(code, base, Encode(Class(Any, id)) + NopBytes(pad))
    ensures Seen(code, base, Single(AnyArm(Low16(id)), 3 + pad), 3 + pad)
  {
    hide Enc16, U16At;
    var any := Class(Any, id);
    AnyWidth(id);
    AtConcat(code, base, Encode(any), NopBytes(pad));
    AtConcat(code, base, [OP_ANY], Enc16(id));
    AtByte(code, base, Encode(any), 0);
    Decode16(code, base + 1, id);
  }

  lemma SeenText(code: seq<byte>, base: nat, text: seq<byte>)
    requires At(code, base, Encode(Lit(base + 9, text))) && |code| < U32
    ensures Seen(code, base, LeadOf(TextLeaf(text)), 9 + |text|)
  {
    hide Enc32, U32At;
    var i := Lit(base + 9, text);
    AtByte(code, base, Encode(i), 0);
    AtConcat(code, base, [OP_LIT], Operands(i));
    PayloadLayout(code, base + 1, base + 9, text);
    if |text| == 1 {
      AtByte(code, base + 9, text, 0);
      assert NopBytes(0) == [];
    }
  }

  lemma SeenOther(code: seq<byte>, base: nat)
    requires base < |code| && code[base] in {OP_EMIT_LITERAL, OP_SPLIT, OP_REPEAT_INIT}
    ensures ParseOp(code, base) == None && Halts(code, base)
  {
  }

  lemma FirstByte(code: seq<byte>, base: nat, i: Instr, part: seq<byte>)
    requires At(code, base, part) && Encode(i) <= part
    ensures base < |code| && code[base] == Opcode(i)
  {
    hide Operands;
    AtByte(code, base, part, 0);
  }

  /** Where the parsers look, they see what `LeadOf` says. */
  lemma {:induction false} SeenTree(code: seq<byte>, t: Tree, base: nat)
    requires At(code, base, Emitted(t, base)) && |code| < U32 && NoNops(t)
    ensures Seen(code, base, LeadOf(t), Weight(t))
    decreases t, 0
  {
    hide Encode, Emitted, ParseOp, NopBytes;
    EmittedOf(t, base);
    match t
    case Leaf(i) => SeenLeaf(code, base, i);
    case TextLeaf(text) => SeenText(code, base, text);
    case EmitLeaf(text) =>
      FirstByte(code, base, EmitLiteral(base + 9, text), Emitted(t, base));
      SeenOther(code, base);
    case Sequence(ps) => SeenTrees(code, ps, base);
    case Either(l, r) =>
      FirstByte(code, base, Split(base + 9, base + 14 + Weight(l)), Emitted(t, base));
      SeenOther(code, base);
    case Loop(id, min, max, b) =>
      FirstByte(code, base, RepeatInit(id, min, max, base + Weight(t)), Emitted(t, base));
      SeenOther(code, base);
    case Fused(id, pad) => SeenAny(code, base, id, pad);
  }

  lemma {:induction false} SeenTrees(code: seq<byte>, ps: seq<Tree>, base: nat)
    requires At(code, base, EmittedAll(ps, base)) && |code| < U32
    requires forall k :: 0 <= k < |ps| ==> NoNops(ps[k])
    ensures Seen(code, base, LeadOfAll(ps), WeightAll(ps))
    decreases ps, 0
  {
    hide Emitted, EmittedAll, ParsesAs, Halts, LeadOf, Weight;
    EmittedOfAll(ps, base);
    if ps != [] {
      var head, rest, mid := ps[0], ps[1..], base + Weight(ps[0]);
      EmittedOf(head, base);
      AtConcat(code, base, Emitted(head, base), EmittedAll(rest, mid));
      SeenTree(code, head, base);
      SeenTrees(code, rest, mid);
    }
  }
}
