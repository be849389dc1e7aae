/** What the compiler generates for a syntax tree: the code tree, and the class, loop and label
    tables it leaves behind (compiler_codegen.c). */
module Translate {
  import opened Wrappers
  import opened Bytes
  import opened Ranges
  import opened CharClasses
  import opened Bytecode
  import opened CodeTree
  import opened Pattern

  const MAX_LOOPS: nat := 16
  const UNBOUNDED: int := -1

  datatype LabelEntry = LabelEntry(name: seq<byte>, offset: nat, defined: bool, referenced: bool)

  /** The compiler's global tables. */
  datatype Tables = Tables(classes: seq<CharClass>, loops: nat, labels: seq<LabelEntry>)

  datatype Generated = Generated(tree: Tree, tables: Tables)
  datatype GeneratedAll = GeneratedAll(trees: seq<Tree>, tables: Tables)

  /** Index of the entry with this name, or the length when there is none. */
  function FindLabel(labels: seq<LabelEntry>, name: seq<byte>): (i: nat)
    ensures i <= |labels|
    ensures i < |labels| ==> labels[i].name == name
  {
    if labels == [] then 0
    else if labels[0].name == name then 0
    else 1 + FindLabel(labels[1..], name)
  }

  /** The label table with an entry for `name`, new ones at the end. */
  function WithLabel(labels: seq<LabelEntry>, name: seq<byte>): (r: seq<LabelEntry>)
    ensures FindLabel(labels, name) < |r|
  {
    if FindLabel(labels, name) < |labels| then labels else labels + [LabelEntry(name, 0, false, false)]
  }

  function DefineLabel(labels: seq<LabelEntry>, name: seq<byte>, offset: nat): Option<seq<LabelEntry>> {
    var i := FindLabel(labels, name);
    if i < |labels| && labels[i].defined then None
    else
      var grown := WithLabel(labels, name);
      Some(grown[i := grown[i].(offset := offset, defined := true)])
  }

  function ReferLabel(labels: seq<LabelEntry>, name: seq<byte>): seq<LabelEntry> {
    var i := FindLabel(labels, name);
    var grown := WithLabel(labels, name);
    grown[i := grown[i].(referenced := true)]
  }

  function Unarbno(a: Ast): (r: Ast)
    ensures r == a || r < a
  {
    match a
    case Arbno(sub) => Unarbno(sub)
    case _ => a
  }

  /** Strip repetitions that allow any number of rounds. */
  function Unrepeat(a: Ast): (r: Ast)
    ensures r == a || r < a
  {
    match a
    case Repetition(sub, min, max) => if min == 0 && max == UNBOUNDED then Unrepeat(sub) else a
    case _ => a
  }

  function ControlInstr(op: ControlOp): Instr {
    match op
    case Fence => Bare(BareOp.Fence)
    case Rem => Bare(BareOp.Rem)
    case Abort => Bare(BareOp.Abort)
    case Fail => Bare(BareOp.Fail)
    case Succeed => Bare(BareOp.Succeed)
  }

  /** Emission of a node at offset `base`; None where the compiler gives up. */
  function Gen(a: Ast, base: nat, tb: Tables): Option<Generated>
    decreases a, 1
  {
    match a
    case Literal(text) => Some(Generated(TextLeaf(text), tb))
    case Concat(ps) =>
      var g :- GenAll(ps, base, tb);
      Some(Generated(Sequence(g.trees), g.tables))
    case Alt(l, r) =>
      var gl :- Gen(l, base + 9, tb);
      var gr :- Gen(r, base + 14 + Weight(gl.tree), gl.tables);
      Some(Generated(Either(gl.tree, gr.tree), gr.tables))
    case Repetition(sub, min, max) =>
      if tb.loops >= MAX_LOOPS then None
      else if min == 0 && max == UNBOUNDED then GenLoop(Unrepeat(sub), base, tb.(loops := tb.loops + 1))
      else
        var g :- Gen(sub, base + 14, tb.(loops := tb.loops + 1));
        Some(Generated(Loop(tb.loops, min, max, g.tree), g.tables))
    case Arbno(sub) => GenLoop(sub, base, tb)
    case ClassNode(op, set_) =>
      if op.Any? && set_ == [] then Some(Generated(Leaf(Class(Any, 0)), tb))
      else
        var (classes, id) := Register(tb.classes, ClassOf(set_));
        Some(Generated(Leaf(Class(op, id)), tb.(classes := classes)))
    case Cap(reg, sub) =>
      var g :- Gen(sub, base + 2, tb);
      Some(Generated(Captured(reg, g.tree), g.tables))
    case AssignNode(v, r) => Some(Generated(Leaf(Assign(v, r)), tb))
    case CountNode(op, n) => Some(Generated(Leaf(Count(op, n)), tb))
    case EvalNode(f, r) => Some(Generated(Leaf(CallFn(f, r)), tb))
    case DynamicEval(e) => Gen(e, base, tb)
    case AnchorNode(atEnd) => Some(Generated(Leaf(Anchor(if atEnd then 1 else 0)), tb))
    case EmitText(text) => Some(Generated(EmitLeaf(text), tb))
    case EmitRegister(r) =>
      if r >= 0 then Some(Generated(Leaf(EmitCapture(r)), tb)) else Some(Generated(Sequence([]), tb))
    case LabelNode(name, target) =>
      var labels :- DefineLabel(tb.labels, name, base + 3);
      var g :- Gen(target, base + 3, tb.(labels := labels));
      Some(Generated(Sequence([Leaf(Label(FindLabel(tb.labels, name))), g.tree]), g.tables))
    case GotoNode(name) =>
      Some(Generated(Leaf(Goto(FindLabel(tb.labels, name))), tb.(labels := ReferLabel(tb.labels, name))))
    case TableAccess(table, key) =>
      var k :- GenKey(key, base, tb);
      Some(Generated(Sequence([k.tree, Leaf(TableGet(UNBOUND, KeyRegister(key), 0, table))]), k.tables))
    case TableUpdate(table, key, value) =>
      var k :- GenKey(key, base, tb);
      var v :- Gen(value, base + Weight(k.tree) + 2, k.tables);
      Some(Generated(Sequence([k.tree, Captured(1, v.tree), Leaf(TableSet(UNBOUND, KeyRegister(key), 1, table))]),
                     v.tables))
    case BalNode(o, c) => Some(Generated(Leaf(Bal(o, c)), tb))
    case Control(op) => Some(Generated(Leaf(ControlInstr(op)), tb))
    case RegRef(_) => None
  }

  function Captured(reg: int, t: Tree): Tree { Sequence([Leaf(CapStart(reg)), t, Leaf(CapEnd(reg))]) }

  function KeyRegister(key: Ast): int { if key.RegRef? then key.reg else 0 }

  /** A table key is captured into register 0 unless it already sits in a register. */
  function GenKey(key: Ast, base: nat, tb: Tables): Option<Generated>
    decreases key, 2
  {
    if key.RegRef? then Some(Generated(Sequence([]), tb))
    else
      var g :- Gen(key, base + 2, tb);
      Some(Generated(Captured(0, g.tree), g.tables))
  }

  /** The body of ARBNO, with directly nested stars stripped. */
  function GenLoop(sub: Ast, base: nat, tb: Tables): Option<Generated>
    decreases sub, 2
  {
    if tb.loops >= MAX_LOOPS then None
    else
      var g :- Gen(Unrepeat(Unarbno(sub)), base + 14, tb.(loops := tb.loops + 1));
      Some(Generated(Loop(tb.loops, 0, UNBOUNDED, g.tree), g.tables))
  }

  function GenAll(ps: seq<Ast>, base: nat, tb: Tables): Option<GeneratedAll>
    decreases ps, 0
  {
    if ps == [] then Some(GeneratedAll([], tb))
    else
      var g :- Gen(ps[0], base, tb);
      var rest :- GenAll(ps[1..], base + Weight(g.tree), g.tables);
      Some(GeneratedAll([g.tree] + rest.trees, rest.tables))
  }

  // ----- What generation does at inner nodes -----

  function GenCaptured(reg: int, sub: Ast, base: nat, tb: Tables): Option<Generated> {
    var g :- Gen(sub, base + 2, tb);
    Some(Generated(Captured(reg, g.tree), g.tables))
  }

  function GenBody(sub: Ast, id: nat, min: int, max: int, base: nat, tb: Tables): Option<Generated> {
    var g :- Gen(sub, base + 14, tb);
    Some(Generated(Loop(id, min, max, g.tree), g.tables))
  }

  function SimpleTree(a: Ast): Option<Tree> {
    match a
    case AssignNode(v, r) => Some(Leaf(Assign(v, r)))
    case CountNode(op, n) => Some(Leaf(Count(op, n)))
    case EvalNode(f, r) => Some(Leaf(CallFn(f, r)))
    case AnchorNode(atEnd) => Some(Leaf(Anchor(if atEnd then 1 else 0)))
    case EmitRegister(r) => if r >= 0 then Some(Leaf(EmitCapture(r))) else Some(Sequence([]))
    case BalNode(o, c) => Some(Leaf(Bal(o, c)))
    case Control(op) => Some(Leaf(ControlInstr(op)))
    case _ => None
  }

  lemma GenSimple(a: Ast, base: nat, tb: Tables)
    requires a.AssignNode? || a.CountNode? || a.EvalNode? || a.AnchorNode? || a.EmitRegister? || a.BalNode?
          || a.Control? || a.RegRef?
    ensures Gen(a, base, tb) == if SimpleTree(a).Some? then Some(Generated(SimpleTree(a).value, tb)) else None
  {
  }

  lemma GenText(text: seq<byte>, base: nat, tb: Tables)
    ensures Gen(Literal(text), base, tb) == Some(Generated(TextLeaf(text), tb))
  {
  }

  lemma GenNested(a: Ast, base: nat, tb: Tables)
    ensures a.Concat? ==>
      Gen(a, base, tb) == match GenAll(a.parts, base, tb)
                          case None => None
                          case Some(gs) => Some(Generated(Sequence(gs.trees), gs.tables))
    ensures a.Arbno? ==> Gen(a, base, tb) == GenLoop(a.sub, base, tb)
    ensures a.Cap? ==> Gen(a, base, tb) == GenCaptured(a.reg, a.sub, base, tb)
    ensures a.DynamicEval? ==> Gen(a, base, tb) == Gen(a.expr, base, tb)
  {
    hide GenAll, GenLoop, Captured;
  }

  lemma GenClass(op: ClassOp, set_: seq<byte>, base: nat, tb: Tables)
    ensures Gen(ClassNode(op, set_), base, tb) ==
      if op.Any? && set_ == [] then Some(Generated(Leaf(Class(Any, 0)), tb))
      else
        var (classes, id) := Register(tb.classes, ClassOf(set_));
        Some(Generated(Leaf(Class(op, id)), tb.(classes := classes)))
  {
    hide Register, ClassOf;
  }

  lemma GenRepeat(sub: Ast, min: int32, max: int32, base: nat, tb: Tables)
    ensures Gen(Repetition(sub, min, max), base, tb) ==
      if tb.loops >= MAX_LOOPS then None
      else if min == 0 && max == UNBOUNDED then GenLoop(Unrepeat(sub), base, tb.(loops := tb.loops + 1))
      else GenBody(sub, tb.loops, min, max, base, tb.(loops := tb.loops + 1))
  {
    hide GenLoop;
  }

  lemma GenLabel(name: seq<byte>, target: Ast, base: nat, tb: Tables)
    ensures Gen(LabelNode(name, target), base, tb) ==
      match DefineLabel(tb.labels, name, base + 3)
      case None => None
      case Some(ls) =>
        (match Gen(target, base + 3, tb.(labels := ls))
         case None => None
         case Some(g) => Some(Generated(Sequence([Leaf(Label(FindLabel(tb.labels, name))), g.tree]), g.tables)))
  {
    hide DefineLabel;
  }

  lemma GenAccess(table: seq<byte>, key: Ast, base: nat, tb: Tables)
    ensures Gen(TableAccess(table, key), base, tb) ==
      match GenKey(key, base, tb)
      case None => None
      case Some(k) =>
        Some(Generated(Sequence([k.tree, Leaf(TableGet(UNBOUND, KeyRegister(key), 0, table))]), k.tables))
  {
    hide GenKey;
  }

  /** Key and captured value of a table write. */
  function GenKeyValue(key: Ast, value: Ast, base: nat, tb: Tables): Option<(Generated, Generated)> {
    var k :- GenKey(key, base, tb);
    var v :- GenCaptured(1, value, base + Weight(k.tree), k.tables);
    Some((k, v))
  }

  lemma GenUpdate(table: seq<byte>, key: Ast, value: Ast, base: nat, tb: Tables)
    ensures Gen(TableUpdate(table, key, value), base, tb) ==
      match GenKeyValue(key, value, base, tb)
      case None => None
      case Some((k, v)) =>
        Some(Generated(Sequence([k.tree, v.tree, Leaf(TableSet(UNBOUND, KeyRegister(key), 1, table))]), v.tables))
  {
    hide GenKey;
  }

  /** The tree puts a text under a register, or nothing when the register holds it already. */
  ghost predicate Supplies(t: Tree, key: Ast, reg: int) {
    if key.RegRef? then reg == key.reg && t == Sequence([]) else exists body: Tree :: t == Captured(reg, body)
  }

  /** A table access reads the register that its key was captured in; an update also stores the register of its value. */
  lemma RegistersMeet(table: seq<byte>, key: Ast, value: Ast, base: nat, tb: Tables)
    ensures Gen(TableAccess(table, key), base, tb).Some? ==>
      exists kt: Tree, k: int ::
        Gen(TableAccess(table, key), base, tb).value.tree == Sequence([kt, Leaf(TableGet(UNBOUND, k, 0, table))])
        && Supplies(kt, key, k)
    ensures Gen(TableUpdate(table, key, value), base, tb).Some? ==>
      exists kt: Tree, k: int, vt: Tree, v: int ::
        Gen(TableUpdate(table, key, value), base, tb).value.tree
          == Sequence([kt, Captured(v, vt), Leaf(TableSet(UNBOUND, k, v, table))])
        && Supplies(kt, key, k)
  {
    hide Captured, Weight;
    GenAccess(table, key, base, tb);
    GenUpdate(table, key, value, base, tb);
    if GenKey(key, base, tb).Some? {
      assert Supplies(GenKey(key, base, tb).value.tree, key, KeyRegister(key));
    }
  }

  lemma GenAlt(l: Ast, r: Ast, base: nat, tb: Tables)
    ensures Gen(Alt(l, r), base, tb) ==
      match Gen(l, base + 9, tb)
      case None => None
      case Some(gl) =>
        (match Gen(r, base + 14 + Weight(gl.tree), gl.tables)
         case None => None
         case Some(gr) => Some(Generated(Either(gl.tree, gr.tree), gr.tables)))
  {
    hide Weight;
  }

  lemma GenAllStep(ps: seq<Ast>, base: nat, tb: Tables)
    ensures GenAll(ps, base, tb) ==
      if ps == [] then Some(GeneratedAll([], tb))
      else
        match Gen(ps[0], base, tb)
        case None => None
        case Some(g) =>
          (match GenAll(ps[1..], base + Weight(g.tree), g.tables)
           case None => None
           case Some(rest) => Some(GeneratedAll([g.tree] + rest.trees, rest.tables)))
  {
    hide Gen;
  }
}
