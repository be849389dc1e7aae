/** The instruction walker and the emitter stay in step: walking a compiled body visits exactly
    the emitted instructions, and every jump lands on one of them, before and after fusion. */
module Walker {
  import opened Wrappers
  import opened Bytes
  import opened Layout
  import opened CharClasses
  import opened Bytecode
  import opened CodeTree
  import opened Pattern
  import opened Translate
  import opened FusionPass
  import opened FusedLayout
  import opened FusedScan
  import opened GenShape
  import opened FusionStarts
  import opened Trailer
  import opened Compiler
  import opened EndToEnd

  /** Table names fit the length byte that the table instructions give them. */
  predicate NamesFit(a: Ast) {
    match a
    case Concat(ps) => forall k :: 0 <= k < |ps| ==> NamesFit(ps[k])
    case Alt(l, r) => NamesFit(l) && NamesFit(r)
    case Repetition(sub, _, _) => NamesFit(sub)
    case Arbno(sub) => NamesFit(sub)
    case Cap(_, sub) => NamesFit(sub)
    case DynamicEval(e) => NamesFit(e)
    case LabelNode(_, target) => NamesFit(target)
    case TableAccess(table, key) => |table| < U8 && NamesFit(key)
    case TableUpdate(table, key, value) => |table| < U8 && NamesFit(key) && NamesFit(value)
    case _ => true
  }

  lemma {:induction false} UnrepeatNames(a: Ast)
    requires NamesFit(a)
    ensures NamesFit(Unrepeat(a))
  {
    if a.Repetition? { UnrepeatNames(a.sub); }
  }

  lemma {:induction false} UnarbnoNames(a: Ast)
    requires NamesFit(a)
    ensures NamesFit(Unarbno(a))
  {
    if a.Arbno? { UnarbnoNames(a.sub); }
  }

  // ----- Trees the walker can follow -----

  predicate Named(i: Instr) {
    match i
    case TableGet(_, _, _, name) => |name| < U8
    case TableSet(_, _, _, name) => |name| < U8
    case _ => true
  }

  predicate Walkable(t: Tree) {
    match t
    case Leaf(i) => Floating(i) && Named(i)
    case Sequence(ps) => forall k :: 0 <= k < |ps| ==> Walkable(ps[k])
    case Either(l, r) => Walkable(l) && Walkable(r)
    case Loop(_, _, _, b) => Walkable(b)
    case _ => true
  }

  predicate AllWalkable(ts: seq<Tree>) { forall k :: 0 <= k < |ts| ==> Walkable(ts[k]) }

  lemma LeafWalkable(i: Instr)
    requires Floating(i) && Named(i)
    ensures Walkable(Leaf(i))
  {
  }

  lemma {:induction false} GenIsWalkable(a: Ast, base: nat, tb: Tables)
    requires NamesFit(a) && Gen(a, base, tb).Some?
    ensures Walkable(Gen(a, base, tb).value.tree)
    decreases a, 4
  {
    hide Gen, Weight, Walkable, DefineLabel, GenAll, GenLoop, GenCaptured, GenBody, GenKeyValue, GenKey, Register,
         ClassOf;
    GenNested(a, base, tb);
    match a
    case Concat(ps) =>
      GenAllIsWalkable(ps, base, tb);
      RowWalkable(GenAll(ps, base, tb).value.trees);
    case Alt(l, r) =>
      GenAlt(l, r, base, tb);
      var gl := Gen(l, base + 9, tb).value;
      GenIsWalkable(l, base + 9, tb);
      GenIsWalkable(r, base + 14 + Weight(gl.tree), gl.tables);
      EitherWalkable(gl.tree, Gen(r, base + 14 + Weight(gl.tree), gl.tables).value.tree);
    case Repetition(sub, min, max) =>
      GenRepeat(sub, min, max, base, tb);
      var tb' := tb.(loops := tb.loops + 1);
      if min == 0 && max == UNBOUNDED {
        UnrepeatNames(sub);
        GenLoopIsWalkable(Unrepeat(sub), base, tb');
      } else {
        GenBodyIsWalkable(sub, tb.loops, min, max, base, tb');
      }
    case Arbno(sub) => GenLoopIsWalkable(sub, base, tb);
    case Cap(reg, sub) => GenCapturedIsWalkable(reg, sub, base, tb);
    case DynamicEval(e) => GenIsWalkable(e, base, tb);
    case LabelNode(name, target) =>
      GenLabel(name, target, base, tb);
      var labels := DefineLabel(tb.labels, name, base + 3).value;
      GenIsWalkable(target, base + 3, tb.(labels := labels));
      PairWalkable(Label(FindLabel(tb.labels, name)), Gen(target, base + 3, tb.(labels := labels)).value.tree);
    case TableAccess(table, key) =>
      GenAccess(table, key, base, tb);
      GenKeyIsWalkable(key, base, tb);
      AccessWalkable(GenKey(key, base, tb).value.tree, KeyRegister(key), table);
    case TableUpdate(table, key, value) =>
      GenUpdate(table, key, value, base, tb);
      GenKeyValueIsWalkable(key, value, base, tb);
      var (k, v) := GenKeyValue(key, value, base, tb).value;
      UpdateWalkable(k.tree, v.tree, KeyRegister(key), table);
    case _ => NodeIsWalkable(a, base, tb);
  }

  /** Nodes without sub-patterns. */
  lemma NodeIsWalkable(a: Ast, base: nat, tb: Tables)
    requires Childless(a) && Gen(a, base, tb).Some?
    ensures Walkable(Gen(a, base, tb).value.tree)
  {
    hide Register, FindLabel, ReferLabel, ClassOf, Weight;
  }

  lemma EitherWalkable(l: Tree, r: Tree)
    requires Walkable(l) && Walkable(r)
    ensures Walkable(Either(l, r))
  {
  }

  lemma PairWalkable(i: Instr, t: Tree)
    requires Floating(i) && Named(i) && Walkable(t)
    ensures Walkable(Sequence([Leaf(i), t]))
  {
    LeafWalkable(i);
    hide Walkable;
    RowWalkable([Leaf(i), t]);
  }

  lemma AccessWalkable(k: Tree, reg: int, table: seq<byte>)
    requires Walkable(k) && |table| < U8
    ensures Walkable(Sequence([k, Leaf(TableGet(UNBOUND, reg, 0, table))]))
  {
    LeafWalkable(TableGet(UNBOUND, reg, 0, table));
    hide Walkable;
    RowWalkable([k, Leaf(TableGet(UNBOUND, reg, 0, table))]);
  }

  lemma {:induction false} GenCapturedIsWalkable(reg: int, sub: Ast, base: nat, tb: Tables)
    requires NamesFit(sub) && GenCaptured(reg, sub, base, tb).Some?
    ensures Walkable(GenCaptured(reg, sub, base, tb).value.tree)
    decreases sub, 5
  {
    hide Gen, NamesFit, Captured, Walkable;
    GenIsWalkable(sub, base + 2, tb);
    CapturedWalkable(reg, Gen(sub, base + 2, tb).value.tree);
  }

  lemma {:induction false} GenBodyIsWalkable(sub: Ast, id: nat, min: int, max: int, base: nat, tb: Tables)
    requires NamesFit(sub) && GenBody(sub, id, min, max, base, tb).Some?
    ensures Walkable(GenBody(sub, id, min, max, base, tb).value.tree)
    decreases sub, 5
  {
    hide Gen, NamesFit;
    GenIsWalkable(sub, base + 14, tb);
  }

  lemma {:induction false} GenKeyValueIsWalkable(key: Ast, value: Ast, base: nat, tb: Tables)
    requires NamesFit(key) && NamesFit(value) && GenKeyValue(key, value, base, tb).Some?
    ensures var (k, v) := GenKeyValue(key, value, base, tb).value; Walkable(k.tree) && Walkable(v.tree)
    decreases if key < value then value else key, 6
  {
    hide Gen, NamesFit, GenKey, GenCaptured, Walkable, Weight;
    var k := GenKey(key, base, tb).value;
    GenKeyIsWalkable(key, base, tb);
    GenCapturedIsWalkable(1, value, base + Weight(k.tree), k.tables);
  }

  lemma CapturedWalkable(reg: int, t: Tree)
    requires Walkable(t)
    ensures Walkable(Captured(reg, t))
  {
    LeafWalkable(CapStart(reg));
    LeafWalkable(CapEnd(reg));
    hide Walkable;
    RowWalkable([Leaf(CapStart(reg)), t, Leaf(CapEnd(reg))]);
  }

  lemma RowWalkable(ts: seq<Tree>)
    requires AllWalkable(ts)
    ensures Walkable(Sequence(ts))
  {
  }

  lemma UpdateWalkable(k: Tree, v: Tree, reg: int, table: seq<byte>)
    requires Walkable(k) && Walkable(v) && |table| < U8
    ensures Walkable(Sequence([k, v, Leaf(TableSet(UNBOUND, reg, 1, table))]))
  {
    LeafWalkable(TableSet(UNBOUND, reg, 1, table));
    hide Walkable;
    RowWalkable([k, v, Leaf(TableSet(UNBOUND, reg, 1, table))]);
  }

  lemma {:induction false} GenKeyIsWalkable(key: Ast, base: nat, tb: Tables)
    requires NamesFit(key) && GenKey(key, base, tb).Some?
    ensures Walkable(GenKey(key, base, tb).value.tree)
    decreases key, 5
  {
    hide Gen, NamesFit;
    if !key.RegRef? {
      GenIsWalkable(key, base + 2, tb);
      CapturedWalkable(0, Gen(key, base + 2, tb).value.tree);
    }
  }

  lemma {:induction false} GenLoopIsWalkable(sub: Ast, base: nat, tb: Tables)
    requires NamesFit(sub) && GenLoop(sub, base, tb).Some?
    ensures Walkable(GenLoop(sub, base, tb).value.tree)
    decreases sub, 5
  {
    hide Gen, NamesFit;
    UnarbnoNames(sub);
    UnrepeatNames(Unarbno(sub));
    GenIsWalkable(Unrepeat(Unarbno(sub)), base + 14, tb.(loops := tb.loops + 1));
  }

  lemma {:induction false} GenAllIsWalkable(ps: seq<Ast>, base: nat, tb: Tables)
    requires (forall k :: 0 <= k < |ps| ==> NamesFit(ps[k])) && GenAll(ps, base, tb).Some?
    ensures AllWalkable(GenAll(ps, base, tb).value.trees)
    decreases ps, 0
  {
    hide Gen, NamesFit, Walkable;
    if ps != [] {
      var g := Gen(ps[0], base, tb).value;
      GenIsWalkable(ps[0], base, tb);
      GenAllIsWalkable(ps[1..], base + Weight(g.tree), g.tables);
    }
  }

  lemma {:induction false} FuseKeepsWalkable(t: Tree, entries: seq<CharClass>)
    requires Walkable(t) && Canonical(entries)
    ensures Walkable(FuseTree(t, entries).tree)
    decreases t, 0
  {
    hide Canonical, PairClass, AsArm, Weight;
    match t
    case Sequence(ps) => FuseAllKeepsWalkable(ps, entries);
    case Either(l, r) =>
      FuseKeepsWalkable(r, entries);
      FuseKeepsWalkable(l, FuseTree(r, entries).entries);
    case Loop(_, _, _, b) => FuseKeepsWalkable(b, entries);
    case _ =>
  }

  lemma {:induction false} FuseAllKeepsWalkable(ps: seq<Tree>, entries: seq<CharClass>)
    requires Canonical(entries) && AllWalkable(ps)
    ensures AllWalkable(FuseTrees(ps, entries).trees)
    decreases ps, 0
  {
    hide Canonical, Walkable, FuseTree;
    if ps != [] {
      FuseAllKeepsWalkable(ps[1..], entries);
      FuseKeepsWalkable(ps[0], FuseTrees(ps[1..], entries).entries);
    }
  }

  // ----- Payload offsets -----

  lemma PlacedOne(i: Instr, base: nat)
    requires Placed(i, base)
    ensures AllPlaced([i], base)
  {
    hide Placed;
    StartsOne(i, base);
  }

  /** Laying out a tree puts every inline payload right behind its operands. */
  lemma {:induction false} LayIsPlaced(t: Tree, base: nat)
    requires Walkable(t)
    ensures AllPlaced(Lay(t, base), base)
    decreases t, 0
  {
    hide AllPlaced, Encode, Size;
    match t
    case Leaf(i) => PlacedOne(i, base);
    case TextLeaf(text) => PlacedOne(Lit(base + 9, text), base);
    case EmitLeaf(text) => PlacedOne(EmitLiteral(base + 9, text), base);
    case Sequence(ps) => LayAllIsPlaced(ps, base);
    case Either(l, r) =>
      LayIsPlaced(l, base + 9);
      LayIsPlaced(r, base + 14 + Weight(l));
      EitherPlaced(l, r, base);
    case Loop(id, min, max, b) =>
      LayIsPlaced(b, base + 14);
      LoopPlaced(id, min, max, b, base);
    case Fused(id, pad) => FusedPlaced(id, pad, base);
  }

  lemma SizeOne(i: Instr)
    ensures Size([i]) == |Encode(i)|
  {
    EncodeOne(i);
  }

  lemma SizeConcat(a: seq<Instr>, b: seq<Instr>)
    ensures Size(a + b) == Size(a) + Size(b)
  {
    EncodeAllConcat(a, b);
  }

  lemma EitherPlaced(l: Tree, r: Tree, base: nat)
    requires AllPlaced(Lay(l, base + 9), base + 9)
    requires AllPlaced(Lay(r, base + 14 + Weight(l)), base + 14 + Weight(l))
    ensures AllPlaced(Lay(Either(l, r), base), base)
  {
    hide AllPlaced, Encode, Size, Lay, Weight;
    LayEither(l, r, base);
    var right := base + 14 + Weight(l);
    var s, j := Split(base + 9, right), Jmp(right + Weight(r));
    var ll, lr := Lay(l, base + 9), Lay(r, right);
    PlacedOne(s, base);
    PlacedOne(j, right - 5);
    SizeOne(s);
    SizeOne(j);
    FixedWidths(0, base + 9, right, 0, 0);
    FixedWidths(0, right + Weight(r), 0, 0, 0);
    SizeOfTree(l, base + 9);
    SizeConcat([s], ll);
    SizeConcat([s] + ll, [j]);
    AllPlacedConcat([s], ll, base);
    AllPlacedConcat([s] + ll, [j], base);
    AllPlacedConcat([s] + ll + [j], lr, base);
  }

  lemma LoopPlaced(id: nat, min: int, max: int, b: Tree, base: nat)
    requires AllPlaced(Lay(b, base + 14), base + 14)
    ensures AllPlaced(Lay(Loop(id, min, max, b), base), base)
  {
    hide AllPlaced, Encode, Size, Lay, Weight;
    LayLoop(id, min, max, b, base);
    var end := base + 20 + Weight(b);
    var i, s := RepeatInit(id, min, max, end), RepeatStep(id, base + 14);
    var lb := Lay(b, base + 14);
    PlacedOne(i, base);
    PlacedOne(s, base + 14 + Weight(b));
    SizeOne(i);
    FixedWidths(0, id, min, max, end);
    SizeOfTree(b, base + 14);
    SizeConcat([i], lb);
    AllPlacedConcat([i], lb, base);
    AllPlacedConcat([i] + lb, [s], base);
  }

  lemma FusedPlaced(id: nat, pad: nat, base: nat)
    ensures AllPlaced(Lay(Fused(id, pad), base), base)
  {
    hide InstrStarts;
  }

  lemma {:induction false} LayAllIsPlaced(ps: seq<Tree>, base: nat)
    requires AllWalkable(ps)
    ensures AllPlaced(LayAll(ps, base), base)
    decreases ps, 0
  {
    hide Encode, Walkable, Placed, Size;
    if ps != [] {
      LayIsPlaced(ps[0], base);
      LayAllIsPlaced(ps[1..], base + Weight(ps[0]));
      SizeOfTree(ps[0], base);
      AllPlacedConcat(Lay(ps[0], base), LayAll(ps[1..], base + Weight(ps[0])), base);
    }
  }

  // ----- Jump targets -----

  /** `p` is an instruction start of the tree, or the offset right behind it. */
  predicate Landing(t: Tree, base: nat, p: int) {
    p == base + Weight(t) || (p >= 0 && p in TreeStarts(t, base))
  }

  lemma {:induction false} TreeBegins(t: Tree, base: nat)
    ensures Landing(t, base, base)
    decreases t, 0
  {
    hide Encode, TreeStarts;
    match t
    case Leaf(i) => OneStart(t, i, base);
    case TextLeaf(text) => OneStart(t, Lit(base + 9, text), base);
    case EmitLeaf(text) => OneStart(t, EmitLiteral(base + 9, text), base);
    case Sequence(ps) =>
      SequenceWeight(ps);
      StartsOfSequence(ps, base);
      RowBegins(ps, base);
    case Either(l, r) => StartsOfEither(l, r, base);
    case Loop(id, min, max, b) => StartsOfLoop(id, min, max, b, base);
    case Fused(id, pad) => FusedBegins(id, pad, base);
  }

  lemma OneStart(t: Tree, i: Instr, base: nat)
    requires Lay(t, base) == [i]
    ensures base in TreeStarts(t, base)
  {
    StartsOne(i, base);
  }

  lemma FusedBegins(id: nat, pad: nat, base: nat)
    ensures base in TreeStarts(Fused(id, pad), base)
  {
    hide Encode;
    InstrStartsConcat([Class(Any, id)], Nops(pad), base);
    StartsOne(Class(Any, id), base);
    assert base in [base];
  }

  lemma {:induction false} RowBegins(ps: seq<Tree>, base: nat)
    ensures WeightAll(ps) == 0 || base in TreeStartsAll(ps, base)
    decreases ps, 0
  {
    hide TreeStarts, TreeStartsAll, Weight;
    if ps != [] {
      StartsOfSequence(ps, base);
      TreeBegins(ps[0], base);
      if Weight(ps[0]) == 0 {
        RowBegins(ps[1..], base);
      }
    }
  }

  /** Every target in the listing is a landing point of the tree `t` placed at `base`. */
  ghost predicate Lands(prog: seq<Instr>, t: Tree, base: nat) {
    forall k :: 0 <= k < |prog| ==> forall p :: p in Targets(prog[k]) ==> Landing(t, base, p)
  }

  lemma LandsConcat(a: seq<Instr>, b: seq<Instr>, t: Tree, base: nat)
    requires Lands(a, t, base) && Lands(b, t, base)
    ensures Lands(a + b, t, base)
  {
    hide Landing, Targets;
  }

  /** Landing points of a part are landing points of the whole. */
  lemma LandsWider(prog: seq<Instr>, t: Tree, base: nat, u: Tree, base': nat)
    requires Lands(prog, t, base)
    requires forall p :: Landing(t, base, p) ==> Landing(u, base', p)
    ensures Lands(prog, u, base')
  {
    hide Landing, Targets;
  }

  /** Every jump of a laid-out tree lands on one of its instructions or right behind it. */
  lemma {:induction false} JumpsLand(t: Tree, base: nat)
    requires Walkable(t)
    ensures Lands(Lay(t, base), t, base)
    decreases t, 0
  {
    hide Encode, TreeStarts;
    match t
    case Leaf(i) => assert Targets(i) == [];
    case TextLeaf(_) =>
    case EmitLeaf(_) =>
    case Sequence(ps) =>
      RowJumpsLand(ps, base);
      RowLands(ps, base);
    case Either(l, r) =>
      JumpsLand(l, base + 9);
      JumpsLand(r, base + 14 + Weight(l));
      EitherLands(l, r, base);
    case Loop(id, min, max, b) =>
      JumpsLand(b, base + 14);
      LoopLands(id, min, max, b, base);
    case Fused(id, pad) =>
  }

  lemma InFour(a: seq<nat>, b: seq<nat>, c: seq<nat>, d: seq<nat>, p: nat)
    requires p in a || p in b || p in c || p in d
    ensures p in a + b + c + d
  {
    assert p in a || p in b ==> p in a + b;
    assert p in a + b || p in c ==> p in a + b + c;
  }

  /** Landing points of an alternation: its own two instructions, and those of its arms. */
  lemma EitherLanding(l: Tree, r: Tree, base: nat, p: int)
    requires var jmp, right := base + 9 + Weight(l), base + 14 + Weight(l);
      p == base || p == jmp || Landing(l, base + 9, p) || Landing(r, right, p)
    ensures Landing(Either(l, r), base, p)
  {
    hide TreeStarts, Weight;
    var jmp, right := base + 9 + Weight(l), base + 14 + Weight(l);
    StartsOfEither(l, r, base);
    EitherWeight(l, r);
    assert base in [base] && jmp in [jmp];
    if p != right + Weight(r) {
      InFour([base], TreeStarts(l, base + 9), [jmp], TreeStarts(r, right), p);
    }
  }

  lemma EitherLands(l: Tree, r: Tree, base: nat)
    requires Lands(Lay(l, base + 9), l, base + 9)
    requires Lands(Lay(r, base + 14 + Weight(l)), r, base + 14 + Weight(l))
    ensures Lands(Lay(Either(l, r), base), Either(l, r), base)
  {
    hide Lands, Landing, Encode, Weight;
    var t, right := Either(l, r), base + 14 + Weight(l);
    var end := right + Weight(r);
    var si, ji := Split(base + 9, right), Jmp(end);
    TreeBegins(l, base + 9);
    TreeBegins(r, right);
    forall p | Landing(l, base + 9, p) || Landing(r, right, p) || p == end ensures Landing(t, base, p) {
      assert Landing(r, right, end) by { LandingEnd(r, right); }
      EitherLanding(l, r, base, p);
    }
    LandsWider(Lay(l, base + 9), l, base + 9, t, base);
    LandsWider(Lay(r, right), r, right, t, base);
    LandsOne(si, t, base);
    LandsOne(ji, t, base);
    LandsConcat([si], Lay(l, base + 9), t, base);
    LandsConcat([si] + Lay(l, base + 9), [ji], t, base);
    LandsConcat([si] + Lay(l, base + 9) + [ji], Lay(r, right), t, base);
  }

  lemma LandingEnd(t: Tree, base: nat)
    ensures Landing(t, base, base + Weight(t))
  {
  }

  lemma LandsOne(i: Instr, t: Tree, base: nat)
    requires forall p :: p in Targets(i) ==> Landing(t, base, p)
    ensures Lands([i], t, base)
  {
    hide Landing, Targets;
  }

  lemma LoopLands(id: nat, min: int, max: int, b: Tree, base: nat)
    requires Lands(Lay(b, base + 14), b, base + 14)
    ensures Lands(Lay(Loop(id, min, max, b), base), Loop(id, min, max, b), base)
  {
    hide Lands, TreeStarts, Encode;
    var t, step := Loop(id, min, max, b), base + 14 + Weight(b);
    var init, last := RepeatInit(id, min, max, base + 20 + Weight(b)), RepeatStep(id, base + 14);
    StartsOfLoop(id, min, max, b, base);
    TreeBegins(b, base + 14);
    assert step in TreeStarts(t, base) by { assert step in [step]; }
    LandsWider(Lay(b, base + 14), b, base + 14, t, base);
    LandsOne(init, t, base);
    LandsOne(last, t, base);
    LandsConcat([init], Lay(b, base + 14), t, base);
    LandsConcat([init] + Lay(b, base + 14), [last], t, base);
  }

  ghost predicate RowLanding(ps: seq<Tree>, base: nat, p: int) {
    p == base + WeightAll(ps) || (p >= 0 && p in TreeStartsAll(ps, base))
  }

  ghost predicate LandsInRow(prog: seq<Instr>, ps: seq<Tree>, base: nat) {
    forall k :: 0 <= k < |prog| ==> forall p :: p in Targets(prog[k]) ==> RowLanding(ps, base, p)
  }

  lemma RowLands(ps: seq<Tree>, base: nat)
    requires LandsInRow(LayAll(ps, base), ps, base)
    ensures Lands(Lay(Sequence(ps), base), Sequence(ps), base)
  {
    hide TreeStarts, TreeStartsAll, Targets;
    SequenceWeight(ps);
    StartsOfSequence(ps, base);
  }

  lemma {:induction false} RowJumpsLand(ps: seq<Tree>, base: nat)
    requires AllWalkable(ps)
    ensures LandsInRow(LayAll(ps, base), ps, base)
    decreases ps, 0
  {
    hide Walkable, Targets, TreeStarts, TreeStartsAll, Weight;
    if ps != [] {
      var mid := base + Weight(ps[0]);
      JumpsLand(ps[0], base);
      RowJumpsLand(ps[1..], mid);
      StartsOfSequence(ps, base);
      RowBegins(ps[1..], mid);
      assert forall p :: Landing(ps[0], base, p) ==> RowLanding(ps, base, p);
      assert forall p :: RowLanding(ps[1..], mid, p) ==> RowLanding(ps, base, p);
      hide Landing, RowLanding;
      var a, b := Lay(ps[0], base), LayAll(ps[1..], mid);
      assert LayAll(ps, base) == a + b;
    }
  }

  // ----- Compiled bodies -----

  /** The instructions of a compiled body, ACCEPT included. */
  function BodyProgram(t: Tree): seq<Instr> { Lay(t, 0) + [Bare(BareOp.Accept)] }

  lemma BodyProgramIs(t: Tree)
    ensures EncodeAll(BodyProgram(t)) == BodyOf(t)
    ensures InstrStarts(BodyProgram(t), 0) == BodyStarts(t)
  {
    hide Encode, EncodeAll, InstrStarts;
    var last := Bare(BareOp.Accept);
    EncodeAllConcat(Lay(t, 0), [last]);
    EncodeOne(last);
    assert Encode(last) == [OP_ACCEPT] by { AcceptByte(); }
    InstrStartsConcat(Lay(t, 0), [last], 0);
    StartsOne(last, Size(Lay(t, 0)));
    SizeOfTree(t, 0);
  }

  lemma AcceptByte()
    ensures Encode(Bare(BareOp.Accept)) == [OP_ACCEPT]
  {
  }

  ghost predicate JumpsStayInside(prog: seq<Instr>, starts: seq<nat>) {
    forall k :: 0 <= k < |prog| ==> forall p :: p in Targets(prog[k]) ==> p >= 0 && p in starts
  }

  /** Walking a body stops at every emitted instruction and ends at its end, and no jump leaves it. */
  lemma BodyWalks(code: seq<byte>, t: Tree)
    requires Walkable(t) && At(code, 0, BodyOf(t)) && |code| < U32
    ensures Walk(code, 0, |BodyOf(t)|) == Some(BodyStarts(t))
    ensures JumpsStayInside(BodyProgram(t), BodyStarts(t))
  {
    hide Walk, EncodeAll, AllPlaced, BodyOf, TreeStarts, Targets, Encode, Size;
    BodyProgramIs(t);
    BodyPlaced(t);
    BodySize(t);
    WalkVisitsStarts(code, 0, BodyProgram(t));
    JumpsLand(t, 0);
    BodyJumps(t);
  }

  lemma BodyPlaced(t: Tree)
    requires Walkable(t)
    ensures AllPlaced(BodyProgram(t), 0)
  {
    hide AllPlaced, Encode, Size;
    LayIsPlaced(t, 0);
    SizeOfTree(t, 0);
    PlacedOne(Bare(BareOp.Accept), Weight(t));
    AllPlacedConcat(Lay(t, 0), [Bare(BareOp.Accept)], 0);
  }

  lemma BodySize(t: Tree)
    ensures Size(BodyProgram(t)) == |BodyOf(t)|
  {
    BodyProgramIs(t);
  }

  lemma BodyJumps(t: Tree)
    requires Lands(Lay(t, 0), t, 0)
    ensures JumpsStayInside(BodyProgram(t), BodyStarts(t))
  {
    hide TreeStarts;
    var prog := Lay(t, 0);
    assert Targets(Bare(BareOp.Accept)) == [];
    hide Targets;
    forall k, p | 0 <= k < |BodyProgram(t)| && p in Targets(BodyProgram(t)[k])
      ensures p >= 0 && p in BodyStarts(t)
    {
      if k < |prog| {
        assert BodyProgram(t)[k] == prog[k];
        assert Landing(t, 0, p);
        assert Weight(t) in [Weight(t)];
      }
    }
  }

  /** For every pattern the compiler accepts, walking the image up to its recovered body length
      visits exactly the instructions of the fused tree, and all jumps stay among them. */
  lemma WalkerMeetsCompiler(a: Ast)
    requires NamesFit(a) && Compiled(a).Some? && |Compiled(a).value| < U32 && FusesAtStarts(a)
    ensures var t, image := FusedTreeOf(a), Compiled(a).value;
      && At(image, 0, EncodeAll(BodyProgram(t)))
      && Walk(image, 0, BodyLen(image)) == Some(BodyStarts(t))
      && JumpsStayInside(BodyProgram(t), BodyStarts(t))
  {
    hide Gen, Walk, BodyOf, FuseTree, ImageOf, OnlyAt, Scan, BodyLen, Walkable, EncodeAll, JumpsStayInside, Canonical,
         AllBounded, Unfused, FewRanges, LoadClasses, At, NamesFit, BodyStarts;
    var g := Gen(a, 0, NO_TABLES).value;
    GenFromNothing(a);
    var t, image := FusedTreeOf(a), Compiled(a).value;
    ImageHolds(g, image);
    GenIsWalkable(a, 0, NO_TABLES);
    FuseKeepsWalkable(g.tree, g.tables.classes);
    FusedBodyIsTree(g.tree, g.tables.classes);
    BodyNotEmpty(t);
    BodyLenReadsBack(FusedBody(g).code, FusedBody(g).entries, g.tables.labels);
    BodyWalks(image, t);
    BodyProgramIs(t);
  }

  lemma BodyNotEmpty(t: Tree)
    ensures BodyOf(t) != []
  {
  }
}
