/** Patterns of every kind whose code keeps the fusion scan to its SPLIT instructions: a condition on
    the syntax tree under which walker and binder agree with the compiler. */
module QuietPatterns {
  import opened Wrappers
  import opened Bytes
  import opened Layout
  import opened CharClasses
  import opened Bytecode
  import opened CodeTree
  import opened Pattern
  import opened Translate
  import opened FusionPass
  import opened FusedScan
  import opened FusionStarts
  import opened GenShape
  import opened Trailer
  import opened Compiler
  import opened EndToEnd
  import opened Walker
  import opened Binding

  /** Loop numbers a pattern takes up at most; a repetition without bounds takes two. */
  function LoopNodes(a: Ast): nat
    decreases a, 1
  {
    match a
    case Concat(ps) => LoopNodesAll(ps)
    case Alt(l, r) => LoopNodes(l) + LoopNodes(r)
    case Repetition(sub, min, max) => (if min == 0 && max == UNBOUNDED then 2 else 1) + LoopNodes(sub)
    case Arbno(sub) => 1 + LoopNodes(sub)
    case Cap(_, sub) => LoopNodes(sub)
    case DynamicEval(e) => LoopNodes(e)
    case LabelNode(_, target) => LoopNodes(target)
    case TableAccess(_, key) => LoopNodes(key)
    case TableUpdate(_, key, value) => LoopNodes(key) + LoopNodes(value)
    case _ => 0
  }

  function LoopNodesAll(ps: seq<Ast>): nat
    decreases ps, 0
  {
    if ps == [] then 0 else LoopNodes(ps[0]) + LoopNodesAll(ps[1..])
  }

  /** Bounds whose bytes do not read as a SPLIT; an upper bound only where the loops are few enough that none
      has number 3. */
  predicate QuietBounds(min: int, max: int, few: bool) {
    HarmlessBounds(0, min, max) && (max == UNBOUNDED || few)
  }

  /** No NUL in text and names, small numbers, and harmless bounds. */
  predicate QuietNode(a: Ast, few: bool) {
    match a
    case Literal(text) => 0 !in text
    case Concat(ps) => forall k :: 0 <= k < |ps| ==> QuietNode(ps[k], few)
    case Alt(l, r) => QuietNode(l, few) && QuietNode(r, few)
    case Repetition(sub, min, max) => QuietBounds(min, max, few) && QuietNode(sub, few)
    case Arbno(sub) => QuietNode(sub, few)
    case ClassNode(_, _) => true
    case Cap(_, sub) => QuietNode(sub, few)
    case AssignNode(v, _) => 0 <= v < 0x300
    case CountNode(_, n) => 0 <= n < MAX_SHORT
    case EvalNode(f, _) => 0 <= f < 0x300
    case DynamicEval(e) => QuietNode(e, few)
    case AnchorNode(_) => true
    case EmitText(text) => 0 !in text
    case EmitRegister(_) => true
    case LabelNode(_, target) => QuietNode(target, few)
    case GotoNode(_) => true
    case TableAccess(table, key) => MildName(table) && QuietNode(key, few)
    case TableUpdate(table, key, value) => MildName(table) && QuietNode(key, few) && QuietNode(value, few)
    case BalNode(o, c) => o < MAX_SHORT && c < MAX_SHORT
    case Control(_) => true
    case RegRef(_) => true
  }

  /** Repetitions may have an upper bound when there are at most three loop numbers to give out. */
  predicate Quiet(a: Ast) { QuietNode(a, LoopNodes(a) <= 3) }

  lemma {:induction false} QuietNames(a: Ast, few: bool)
    requires QuietNode(a, few)
    ensures NamesFit(a)
  {
    match a
    case Concat(ps) => forall k | 0 <= k < |ps| ensures NamesFit(ps[k]) { QuietNames(ps[k], few); }
    case Alt(l, r) =>
      QuietNames(l, few);
      QuietNames(r, few);
    case Repetition(sub, _, _) => QuietNames(sub, few);
    case Arbno(sub) => QuietNames(sub, few);
    case Cap(_, sub) => QuietNames(sub, few);
    case DynamicEval(e) => QuietNames(e, few);
    case LabelNode(_, target) => QuietNames(target, few);
    case TableAccess(_, key) => QuietNames(key, few);
    case TableUpdate(_, key, value) =>
      QuietNames(key, few);
      QuietNames(value, few);
    case _ =>
  }

  lemma QuietBelow(a: Ast, few: bool)
    requires QuietNode(a, few)
    ensures a.Concat? ==> forall k :: 0 <= k < |a.parts| ==> QuietNode(a.parts[k], few)
    ensures a.Alt? ==> QuietNode(a.left, few) && QuietNode(a.right, few)
    ensures a.Repetition? ==> QuietBounds(a.min, a.max, few) && QuietNode(a.sub, few)
    ensures a.Arbno? || a.Cap? ==> QuietNode(a.sub, few)
    ensures a.DynamicEval? ==> QuietNode(a.expr, few)
    ensures a.LabelNode? ==> QuietNode(a.target, few)
    ensures a.TableAccess? || a.TableUpdate? ==> MildName(a.table) && QuietNode(a.key, few)
    ensures a.TableUpdate? ==> QuietNode(a.value, few)
  {
    hide QuietBounds, MildName;
  }

  lemma LoopsBelow(a: Ast)
    ensures a.Concat? ==> LoopNodes(a) == LoopNodesAll(a.parts)
    ensures a.Alt? ==> LoopNodes(a) == LoopNodes(a.left) + LoopNodes(a.right)
    ensures a.Repetition? ==> LoopNodes(a) == (if a.min == 0 && a.max == UNBOUNDED then 2 else 1) + LoopNodes(a.sub)
    ensures a.Arbno? ==> LoopNodes(a) == 1 + LoopNodes(a.sub)
    ensures a.Cap? ==> LoopNodes(a) == LoopNodes(a.sub)
    ensures a.DynamicEval? ==> LoopNodes(a) == LoopNodes(a.expr)
    ensures a.LabelNode? ==> LoopNodes(a) == LoopNodes(a.target)
    ensures a.TableAccess? ==> LoopNodes(a) == LoopNodes(a.key)
    ensures a.TableUpdate? ==> LoopNodes(a) == LoopNodes(a.key) + LoopNodes(a.value)
  {
  }

  lemma {:induction false} QuietUnrepeat(a: Ast, few: bool)
    requires QuietNode(a, few)
    ensures QuietNode(Unrepeat(a), few)
  {
    if a.Repetition? { QuietUnrepeat(a.sub, few); }
  }

  lemma {:induction false} QuietUnarbno(a: Ast, few: bool)
    requires QuietNode(a, few)
    ensures QuietNode(Unarbno(a), few)
  {
    if a.Arbno? { QuietUnarbno(a.sub, few); }
  }

  lemma {:induction false} FewerLoops(a: Ast)
    ensures LoopNodes(Unrepeat(a)) <= LoopNodes(a) && LoopNodes(Unarbno(a)) <= LoopNodes(a)
  {
    if a.Repetition? { FewerLoops(a.sub); }
    if a.Arbno? { FewerLoops(a.sub); }
  }

  // ----- Loop numbers -----

  /** Generating a pattern gives out at most its loop numbers. */
  lemma {:induction false} LoopsGrow(a: Ast, base: nat, tb: Tables)
    requires Gen(a, base, tb).Some?
    ensures Gen(a, base, tb).value.tables.loops <= tb.loops + LoopNodes(a)
    decreases a, 4
  {
    hide Gen, Weight, DefineLabel, GenAll, GenLoop, GenKey, LoopNodes, LoopNodesAll;
    GenNested(a, base, tb);
    LoopsBelow(a);
    match a
    case Concat(ps) => LoopsGrowAll(ps, base, tb);
    case Alt(l, r) =>
      GenAlt(l, r, base, tb);
      var gl := Gen(l, base + 9, tb).value;
      LoopsGrow(l, base + 9, tb);
      LoopsGrow(r, base + 14 + Weight(gl.tree), gl.tables);
    case Repetition(sub, min, max) =>
      GenRepeat(sub, min, max, base, tb);
      var tb' := tb.(loops := tb.loops + 1);
      if min == 0 && max == UNBOUNDED {
        FewerLoops(sub);
        LoopsGrowLoop(Unrepeat(sub), base, tb');
      } else {
        LoopsGrow(sub, base + 14, tb');
      }
    case Arbno(sub) => LoopsGrowLoop(sub, base, tb);
    case Cap(reg, sub) => LoopsGrow(sub, base + 2, tb);
    case DynamicEval(e) => LoopsGrow(e, base, tb);
    case LabelNode(name, target) =>
      GenLabel(name, target, base, tb);
      LoopsGrow(target, base + 3, tb.(labels := DefineLabel(tb.labels, name, base + 3).value));
    case TableAccess(table, key) =>
      GenAccess(table, key, base, tb);
      LoopsGrowKey(key, base, tb);
    case TableUpdate(table, key, value) =>
      GenUpdate(table, key, value, base, tb);
      var k := GenKey(key, base, tb).value;
      LoopsGrowKey(key, base, tb);
      LoopsGrow(value, base + Weight(k.tree) + 2, k.tables);
    case _ => NodeLoops(a, base, tb);
  }

  lemma NodeLoops(a: Ast, base: nat, tb: Tables)
    requires Childless(a) && Gen(a, base, tb).Some?
    ensures Gen(a, base, tb).value.tables.loops == tb.loops
  {
    hide Register, FindLabel, ReferLabel, ClassOf;
  }

  lemma {:induction false} LoopsGrowKey(key: Ast, base: nat, tb: Tables)
    requires GenKey(key, base, tb).Some?
    ensures GenKey(key, base, tb).value.tables.loops <= tb.loops + LoopNodes(key)
    decreases key, 5
  {
    hide Gen;
    if !key.RegRef? { LoopsGrow(key, base + 2, tb); }
  }

  lemma {:induction false} LoopsGrowLoop(sub: Ast, base: nat, tb: Tables)
    requires GenLoop(sub, base, tb).Some?
    ensures GenLoop(sub, base, tb).value.tables.loops <= tb.loops + 1 + LoopNodes(sub)
    decreases sub, 5
  {
    hide Gen;
    FewerLoops(sub);
    FewerLoops(Unarbno(sub));
    LoopsGrow(Unrepeat(Unarbno(sub)), base + 14, tb.(loops := tb.loops + 1));
  }

  lemma {:induction false} LoopsGrowAll(ps: seq<Ast>, base: nat, tb: Tables)
    requires GenAll(ps, base, tb).Some?
    ensures GenAll(ps, base, tb).value.tables.loops <= tb.loops + LoopNodesAll(ps)
    decreases ps, 0
  {
    hide Gen, LoopNodes, Weight;
    if ps != [] {
      var g := Gen(ps[0], base, tb).value;
      LoopsGrow(ps[0], base, tb);
      LoopsGrowAll(ps[1..], base + Weight(g.tree), g.tables);
    }
  }

  // ----- Generated trees are mild -----

  lemma LeafMild(i: Instr)
    requires Mild(i) && Floating(i)
    ensures MildTree(Leaf(i))
  {
  }

  lemma RowMild(ts: seq<Tree>)
    requires forall k :: 0 <= k < |ts| ==> MildTree(ts[k])
    ensures MildTree(Sequence(ts))
  {
  }

  lemma CapturedMild(reg: int, t: Tree)
    requires MildTree(t)
    ensures MildTree(Captured(reg, t))
  {
    hide MildTree;
    LeafMild(CapStart(reg));
    LeafMild(CapEnd(reg));
    RowMild([Leaf(CapStart(reg)), t, Leaf(CapEnd(reg))]);
  }

  lemma LoopMild(id: nat, min: int, max: int, b: Tree)
    requires HarmlessBounds(id, min, max) && MildTree(b)
    ensures MildTree(Loop(id, min, max, b))
  {
  }

  lemma EitherMild(l: Tree, r: Tree)
    requires MildTree(l) && MildTree(r)
    ensures MildTree(Either(l, r))
  {
  }

  /** With the loop numbers given out so far, none of this pattern's loops gets number 3. */
  predicate Roomy(loops: nat, nodes: nat, few: bool) { few ==> loops + nodes <= 3 }

  lemma BoundsFit(id: nat, nodes: nat, min: int, max: int, few: bool)
    requires QuietBounds(min, max, few) && Roomy(id, nodes, few) && nodes > 0
    ensures HarmlessBounds(id, min, max)
  {
  }

  lemma {:induction false} GenIsMild(a: Ast, base: nat, tb: Tables, few: bool)
    requires QuietNode(a, few) && Roomy(tb.loops, LoopNodes(a), few) && Gen(a, base, tb).Some?
    ensures MildTree(Gen(a, base, tb).value.tree)
    decreases a, 4
  {
    hide Gen, Weight, DefineLabel, GenAll, GenLoop, GenCaptured, GenBody, GenKeyValue, MildTree, GenKey, MildName,
         HarmlessBounds, QuietBounds, QuietNode, LoopNodes, LoopNodesAll;
    GenNested(a, base, tb);
    QuietBelow(a, few);
    LoopsBelow(a);
    match a
    case Concat(ps) => GenAllIsMild(ps, base, tb, few);
    case Alt(l, r) =>
      GenAlt(l, r, base, tb);
      var gl := Gen(l, base + 9, tb).value;
      var right := base + 14 + Weight(gl.tree);
      LoopsGrow(l, base + 9, tb);
      GenIsMild(l, base + 9, tb, few);
      GenIsMild(r, right, gl.tables, few);
      EitherMild(gl.tree, Gen(r, right, gl.tables).value.tree);
    case Repetition(sub, min, max) =>
      GenRepeat(sub, min, max, base, tb);
      var tb' := tb.(loops := tb.loops + 1);
      if min == 0 && max == UNBOUNDED {
        QuietUnrepeat(sub, few);
        FewerLoops(sub);
        GenLoopIsMild(Unrepeat(sub), base, tb', few);
      } else {
        BoundsFit(tb.loops, LoopNodes(a), min, max, few);
        GenBodyIsMild(sub, tb.loops, min, max, base, tb', few);
      }
    case Arbno(sub) => GenLoopIsMild(sub, base, tb, few);
    case Cap(reg, sub) => GenCapturedIsMild(reg, sub, base, tb, few);
    case DynamicEval(e) => GenIsMild(e, base, tb, few);
    case LabelNode(name, target) =>
      GenLabel(name, target, base, tb);
      var tb' := tb.(labels := DefineLabel(tb.labels, name, base + 3).value);
      GenIsMild(target, base + 3, tb', few);
      LabelMild(FindLabel(tb.labels, name), Gen(target, base + 3, tb').value.tree);
    case TableAccess(table, key) =>
      GenAccess(table, key, base, tb);
      GenKeyIsMild(key, base, tb, few);
      AccessMild(GenKey(key, base, tb).value.tree, KeyRegister(key), table);
    case TableUpdate(table, key, value) =>
      GenUpdate(table, key, value, base, tb);
      GenKeyValueIsMild(key, value, base, tb, few);
      var (k, v) := GenKeyValue(key, value, base, tb).value;
      UpdateMild(k.tree, v.tree, KeyRegister(key), table);
    case _ => NodeMild(a, base, tb, few);
  }

  lemma {:induction false} GenCapturedIsMild(reg: int, sub: Ast, base: nat, tb: Tables, few: bool)
    requires QuietNode(sub, few) && Roomy(tb.loops, LoopNodes(sub), few) && GenCaptured(reg, sub, base, tb).Some?
    ensures MildTree(GenCaptured(reg, sub, base, tb).value.tree)
    decreases sub, 5
  {
    hide Gen, QuietNode, Captured, MildTree, LoopNodes;
    GenIsMild(sub, base + 2, tb, few);
    CapturedMild(reg, Gen(sub, base + 2, tb).value.tree);
  }

  lemma {:induction false} GenBodyIsMild(sub: Ast, id: nat, min: int, max: int, base: nat, tb: Tables, few: bool)
    requires QuietNode(sub, few) && Roomy(tb.loops, LoopNodes(sub), few) && GenBody(sub, id, min, max, base, tb).Some?
    requires HarmlessBounds(id, min, max)
    ensures MildTree(GenBody(sub, id, min, max, base, tb).value.tree)
    decreases sub, 5
  {
    hide Gen, QuietNode, MildTree, LoopNodes, HarmlessBounds;
    GenIsMild(sub, base + 14, tb, few);
    LoopMild(id, min, max, Gen(sub, base + 14, tb).value.tree);
  }

  lemma {:induction false} GenKeyValueIsMild(key: Ast, value: Ast, base: nat, tb: Tables, few: bool)
    requires QuietNode(key, few) && QuietNode(value, few) && Roomy(tb.loops, LoopNodes(key) + LoopNodes(value), few)
    requires GenKeyValue(key, value, base, tb).Some?
    ensures var (k, v) := GenKeyValue(key, value, base, tb).value; MildTree(k.tree) && MildTree(v.tree)
    decreases if key < value then value else key, 6
  {
    hide Gen, QuietNode, GenKey, GenCaptured, MildTree, Weight, LoopNodes;
    var k := GenKey(key, base, tb).value;
    LoopsGrowKey(key, base, tb);
    GenKeyIsMild(key, base, tb, few);
    GenCapturedIsMild(1, value, base + Weight(k.tree), k.tables, few);
  }

  lemma NodeMild(a: Ast, base: nat, tb: Tables, few: bool)
    requires Childless(a) && QuietNode(a, few) && Gen(a, base, tb).Some?
    ensures MildTree(Gen(a, base, tb).value.tree)
  {
    hide FindLabel, WithLabel, ClassOf, Register;
  }

  lemma LabelMild(id: int, t: Tree)
    requires MildTree(t)
    ensures MildTree(Sequence([Leaf(Label(id)), t]))
  {
    hide MildTree;
    LeafMild(Label(id));
    RowMild([Leaf(Label(id)), t]);
  }

  lemma AccessMild(k: Tree, reg: int, table: seq<byte>)
    requires MildTree(k) && MildName(table)
    ensures MildTree(Sequence([k, Leaf(TableGet(UNBOUND, reg, 0, table))]))
  {
    hide MildTree;
    LeafMild(TableGet(UNBOUND, reg, 0, table));
    RowMild([k, Leaf(TableGet(UNBOUND, reg, 0, table))]);
  }

  lemma UpdateMild(k: Tree, v: Tree, reg: int, table: seq<byte>)
    requires MildTree(k) && MildTree(v) && MildName(table)
    ensures MildTree(Sequence([k, v, Leaf(TableSet(UNBOUND, reg, 1, table))]))
  {
    hide MildTree;
    LeafMild(TableSet(UNBOUND, reg, 1, table));
    RowMild([k, v, Leaf(TableSet(UNBOUND, reg, 1, table))]);
  }

  lemma {:induction false} GenKeyIsMild(key: Ast, base: nat, tb: Tables, few: bool)
    requires QuietNode(key, few) && Roomy(tb.loops, LoopNodes(key), few) && GenKey(key, base, tb).Some?
    ensures MildTree(GenKey(key, base, tb).value.tree)
    decreases key, 5
  {
    hide Gen, MildTree;
    if key.RegRef? {
      RowMild([]);
    } else {
      GenIsMild(key, base + 2, tb, few);
      CapturedMild(0, Gen(key, base + 2, tb).value.tree);
    }
  }

  lemma {:induction false} GenLoopIsMild(sub: Ast, base: nat, tb: Tables, few: bool)
    requires QuietNode(sub, few) && Roomy(tb.loops, 1 + LoopNodes(sub), few) && GenLoop(sub, base, tb).Some?
    ensures MildTree(GenLoop(sub, base, tb).value.tree)
    decreases sub, 5
  {
    hide Gen, MildTree, QuietNode;
    var tb' := tb.(loops := tb.loops + 1);
    QuietUnarbno(sub, few);
    QuietUnrepeat(Unarbno(sub), few);
    FewerLoops(sub);
    FewerLoops(Unarbno(sub));
    GenIsMild(Unrepeat(Unarbno(sub)), base + 14, tb', few);
    assert HarmlessBounds(tb.loops, 0, UNBOUNDED);
    LoopMild(tb.loops, 0, UNBOUNDED, Gen(Unrepeat(Unarbno(sub)), base + 14, tb').value.tree);
  }

  lemma {:induction false} GenAllIsMild(ps: seq<Ast>, base: nat, tb: Tables, few: bool)
    requires (forall k :: 0 <= k < |ps| ==> QuietNode(ps[k], few)) && GenAll(ps, base, tb).Some?
    requires Roomy(tb.loops, LoopNodesAll(ps), few)
    ensures MildTree(Sequence(GenAll(ps, base, tb).value.trees))
    decreases ps, 0
  {
    hide Gen, QuietNode, MildTree, LoopNodes;
    if ps == [] {
      RowMild([]);
    } else {
      var g := Gen(ps[0], base, tb).value;
      var rest := GenAll(ps[1..], base + Weight(g.tree), g.tables).value;
      LoopsGrow(ps[0], base, tb);
      GenIsMild(ps[0], base, tb, few);
      GenAllIsMild(ps[1..], base + Weight(g.tree), g.tables, few);
      ConsMild(g.tree, rest.trees);
    }
  }

  lemma ConsMild(t: Tree, ts: seq<Tree>)
    requires MildTree(t) && MildTree(Sequence(ts))
    ensures MildTree(Sequence([t] + ts))
  {
  }

  // ----- What follows for quiet patterns -----

  /** In an image below 64 KiB the pass rewrites a quiet pattern's SPLIT instructions only. */
  lemma QuietFusesAtStarts(a: Ast)
    requires Quiet(a) && Compiled(a).Some? && |Compiled(a).value| < U16
    ensures NamesFit(a) && FusesAtStarts(a)
  {
    hide Canonical, OnlyAt, Gen, ImageOf, FewRanges, QuietNode, MildTree, NamesFit, Scan, BodyOf, Weight, AllBounded,
         Unfused, FusedBody;
    QuietNames(a, LoopNodes(a) <= 3);
    CompiledGenerates(a);
    var g := Gen(a, 0, NO_TABLES).value;
    GenFromNothing(a);
    SmallBody(a);
    GenIsMild(a, 0, NO_TABLES, LoopNodes(a) <= 3);
    FusesOnlySplits(g.tree, g.tables.classes);
  }

  lemma SmallBody(a: Ast)
    requires Compiled(a).Some? && |Compiled(a).value| < U16 && Gen(a, 0, NO_TABLES).Some?
    requires Canonical(Gen(a, 0, NO_TABLES).value.tables.classes)
    ensures var g := Gen(a, 0, NO_TABLES).value;
      Weight(g.tree) < MAX_SHORT && FewRanges(FusedBody(g).entries)
  {
    hide Canonical, Gen, ImageOf, FewRanges;
    var g := Gen(a, 0, NO_TABLES).value;
    GenFromNothing(a);
    var m := FusedBody(g);
    ShortImageIsSmall(m.code, m.entries, g.tables.labels);
    EmittedWidth(g.tree, 0);
  }

  /** Walking the image of a quiet pattern visits exactly its instructions, and all jumps land on one. */
  lemma QuietWalks(a: Ast)
    requires Quiet(a) && Compiled(a).Some? && |Compiled(a).value| < U16
    ensures Gen(a, 0, NO_TABLES).Some?
    ensures var t, image := FusedTreeOf(a), Compiled(a).value;
      && At(image, 0, EncodeAll(BodyProgram(t)))
      && Walk(image, 0, BodyLen(image)) == Some(BodyStarts(t))
      && JumpsStayInside(BodyProgram(t), BodyStarts(t))
  {
    hide Quiet, Compiled, Gen, FusedTreeOf, FusesAtStarts, NamesFit, At, Walk, JumpsStayInside, BodyProgram,
         BodyStarts, BodyLen;
    CompiledGenerates(a);
    QuietFusesAtStarts(a);
    WalkerMeetsCompiler(a);
  }

  /** Binding the image of a quiet pattern resolves the names in its instructions, touches nothing
      else and succeeds. */
  lemma QuietBinds(a: Ast, names: Names)
    requires Quiet(a) && Compiled(a).Some? && |Compiled(a).value| < U16 && |names| < UNBOUND
    ensures Gen(a, 0, NO_TABLES).Some?
    ensures var prog, image := BodyProgram(FusedTreeOf(a)), Compiled(a).value;
      && Size(prog) <= |image|
      && image == EncodeAll(prog) + image[Size(prog)..]
      && Bind(image, names) == Bound(EncodeAll(ResolvedAll(prog, names)) + image[Size(prog)..], true)
  {
    hide Quiet, Compiled, Gen, FusedTreeOf, FusesAtStarts, NamesFit, BodyProgram, EncodeAll, Bind, ResolvedAll;
    CompiledGenerates(a);
    QuietFusesAtStarts(a);
    BindMeetsCompiler(a, names);
  }
}
