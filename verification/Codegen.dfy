/** The code generator: a recursive descent that appends to the code buffer, backpatches jump
    operands, and grows the class, loop and label tables in place. It is proved to write exactly
    the layout that `Translate.Gen` describes. */
module Codegen {
  import opened Wrappers
  import opened Bytes
  import opened CharClasses
  import opened Bytecode
  import opened CodeTree
  import opened CodeBuffer
  import opened Pattern
  import opened Translate

  class Emitter {
    const cb: CodeBuf
    const classes: ClassTable
    var loops: nat
    var labels: seq<LabelEntry>

    ghost predicate Valid()
      reads this, cb, classes
    {
      cb.Valid() && classes.Valid()
    }

    ghost function Code(): (s: seq<byte>)
      reads this, cb, cb.buf
      requires cb.Valid()
      ensures |s| == cb.len
    {
      cb.Contents()
    }

    ghost function State(): Tables
      reads this, classes
    {
      Tables(classes.entries, loops, labels)
    }

    constructor ()
      ensures Valid() && fresh(cb) && fresh(cb.buf) && fresh(classes)
      ensures Code() == [] && State() == Tables([], 0, [])
    {
      cb := new CodeBuf();
      classes := new ClassTable();
      loops := 0;
      labels := [];
    }

    // ----- Single instructions -----

    method EmitClass(op: ClassOp, id: int)
      requires Valid()
      modifies cb, cb.buf
      ensures Valid() && (cb.buf == old(cb.buf) || fresh(cb.buf))
      ensures Code() == old(Code()) + Encode(Class(op, id))
    {
      cb.EmitU8(ClassOpcode(op));
      cb.EmitU16(id);
    }

    method EmitCount(op: CountOp, n: int)
      requires Valid()
      modifies cb, cb.buf
      ensures Valid() && (cb.buf == old(cb.buf) || fresh(cb.buf))
      ensures Code() == old(Code()) + Encode(Count(op, n))
    {
      cb.EmitU8(CountOpcode(op));
      cb.EmitU32(n);
    }

    method EmitBare(op: BareOp)
      requires Valid()
      modifies cb, cb.buf
      ensures Valid() && (cb.buf == old(cb.buf) || fresh(cb.buf))
      ensures Code() == old(Code()) + Encode(Bare(op))
    {
      cb.EmitU8(BareOpcode(op));
    }

    /** One-byte operand: captures, anchors, capture output. */
    method EmitReg(i: Instr, r: int)
      requires Valid() && (i == CapStart(r) || i == CapEnd(r) || i == Anchor(r) || i == EmitCapture(r))
      modifies cb, cb.buf
      ensures Valid() && (cb.buf == old(cb.buf) || fresh(cb.buf))
      ensures Code() == old(Code()) + Encode(i)
    {
      cb.EmitU8(Opcode(i));
      cb.EmitU8(r);
    }

    /** Two-byte operand and a register. */
    method EmitPair(i: Instr, v: int, r: int)
      requires Valid() && (i == Assign(v, r) || i == CallFn(v, r))
      modifies cb, cb.buf
      ensures Valid() && (cb.buf == old(cb.buf) || fresh(cb.buf))
      ensures Code() == old(Code()) + Encode(i)
    {
      hide CodeBuf.Valid, CodeBuf.Contents, ClassTable.Valid;
      cb.EmitU8(Opcode(i));
      cb.EmitU16(v);
      cb.EmitU8(r);
      assert Encode(i) == [Opcode(i)] + Enc16(v) + [Low8(r)];
    }

    /** A payload stored inline, with the offset that points right behind the operands. */
    method EmitInline(op: byte, text: seq<byte>)
      requires Valid() && (op == OP_LIT || op == OP_EMIT_LITERAL)
      modifies cb, cb.buf
      ensures Valid() && (cb.buf == old(cb.buf) || fresh(cb.buf))
      ensures var off := old(cb.len) + 9;
        Code() == old(Code()) + Encode(if op == OP_LIT then Lit(off, text) else EmitLiteral(off, text))
    {
      hide Enc32, Encode, CodeBuf.Valid, CodeBuf.Contents, ClassTable.Valid;
      var off := cb.len + 1 + 4 + 4;
      cb.EmitU8(op);
      cb.EmitU32(off);
      cb.EmitU32(|text|);
      cb.EmitBytes(text);
      InlineBytes(old(Code()), op, off, text);
    }

    method EmitLabelOp(i: Instr, id: int)
      requires Valid() && (i == Label(id) || i == Goto(id))
      modifies cb, cb.buf
      ensures Valid() && (cb.buf == old(cb.buf) || fresh(cb.buf))
      ensures Code() == old(Code()) + Encode(i)
    {
      cb.EmitU8(Opcode(i));
      cb.EmitU16(id);
    }

    method EmitTableOp(i: Instr, key: int, reg: int, name: seq<byte>)
      requires Valid() && (i == TableGet(UNBOUND, key, reg, name) || i == TableSet(UNBOUND, key, reg, name))
      modifies cb, cb.buf
      ensures Valid() && (cb.buf == old(cb.buf) || fresh(cb.buf))
      ensures Code() == old(Code()) + Encode(i)
    {
      hide Enc16, Encode;
      EmitTableHead(Opcode(i), key, reg);
      cb.EmitU8(|name|);
      cb.EmitBytes(name);
      TableOpBytes(old(Code()), i, key, reg, name);
    }

    method EmitTableHead(op: byte, key: int, reg: int)
      requires Valid()
      modifies cb, cb.buf
      ensures Valid() && (cb.buf == old(cb.buf) || fresh(cb.buf))
      ensures Code() == old(Code()) + [op] + Enc16(UNBOUND) + [Low8(key)] + [Low8(reg)]
    {
      hide Enc16;
      cb.EmitU8(op);
      cb.EmitU16(UNBOUND);
      cb.EmitU8(key);
      cb.EmitU8(reg);
    }

    method EmitBal(open: int, close: int)
      requires Valid()
      modifies cb, cb.buf
      ensures Valid() && (cb.buf == old(cb.buf) || fresh(cb.buf))
      ensures Code() == old(Code()) + Encode(Bal(open, close))
    {
      hide CodeBuf.Valid, CodeBuf.Contents, ClassTable.Valid;
      cb.EmitU8(OP_BAL);
      cb.EmitU32(open);
      cb.EmitU32(close);
      assert Encode(Bal(open, close)) == [OP_BAL] + Enc32(open) + Enc32(close);
    }

    // ----- Labels -----

    method FindLabelIndex(name: seq<byte>) returns (i: nat)
      ensures i == FindLabel(labels, name)
    {
      i := 0;
      while i < |labels|
        invariant 0 <= i <= |labels|
        invariant FindLabel(labels, name) == i + FindLabel(labels[i..], name)
      {
        if labels[i].name == name { return; }
        assert labels[i..][1..] == labels[i + 1..];
        i := i + 1;
      }
    }

    method GetOrCreateLabel(name: seq<byte>) returns (i: nat)
      modifies this`labels
      ensures i == FindLabel(old(labels), name) < |labels|
      ensures labels == WithLabel(old(labels), name)
    {
      i := FindLabelIndex(name);
      if i == |labels| {
        labels := labels + [LabelEntry(name, 0, false, false)];
      }
    }

    // ----- Nodes -----

    /** The outcome of emitting a node: refused, or laid out after `before` with the tables updated. */
    ghost predicate Did(ok: bool, before: seq<byte>, g: Option<Generated>)
      reads this, cb, cb.buf, classes
      requires cb.Valid()
    {
      (ok <==> g.Some?)
      && (ok ==> Code() == before + Emitted(g.value.tree, |before|) && State() == g.value.tables)
    }

    method EmitNode(a: Ast) returns (ok: bool)
      requires Valid()
      modifies this, cb, cb.buf, classes
      ensures Valid() && (cb.buf == old(cb.buf) || fresh(cb.buf))
      ensures Did(ok, old(Code()), Gen(a, old(cb.len), old(State())))
      decreases a, 1
    {
      hide Gen, GenAll, GenLoop, GenCaptured, Emitted, CodeBuf.Valid, CodeBuf.Contents, ClassTable.Valid;
      GenNested(a, cb.len, State());
      match a {
        case Concat(ps) =>
          ok := EmitParts(ps);
          if ok { EmittedOf(Sequence(GenAll(ps, old(cb.len), old(State())).value.trees), old(cb.len)); }
        case Alt(l, r) =>
          ok := EmitAlt(l, r);
        case Repetition(sub, min, max) =>
          ok := EmitRepeat(sub, min, max);
        case Arbno(sub) =>
          ok := EmitArbno(sub);
        case Literal(_) =>
          EmitPayload(a);
          ok := true;
        case EmitText(_) =>
          EmitPayload(a);
          ok := true;
        case ClassNode(op, set_) =>
          EmitClassNode(op, set_);
          ok := true;
        case GotoNode(name) =>
          EmitGoto(name);
          ok := true;
        case Cap(reg, sub) =>
          ok := EmitCaptured(reg, sub);
        case DynamicEval(e) =>
          ok := EmitNode(e);
        case LabelNode(name, target) =>
          ok := EmitLabel(name, target);
        case TableAccess(table, key) =>
          ok := EmitTableAccess(table, key);
        case TableUpdate(table, key, value) =>
          ok := EmitTableUpdate(table, key, value);
        case _ =>
          ok := EmitSimple(a);
      }
    }

    /** Nodes without sub-patterns. */
    method EmitSimple(a: Ast) returns (ok: bool)
      requires Valid()
      requires a.AssignNode? || a.CountNode? || a.EvalNode? || a.AnchorNode? || a.EmitRegister? || a.BalNode?
            || a.Control? || a.RegRef?
      modifies this, cb, cb.buf, classes
      ensures Valid() && (cb.buf == old(cb.buf) || fresh(cb.buf))
      ensures Did(ok, old(Code()), Gen(a, old(cb.len), old(State())))
    {
      hide Encode, Emitted, Weight, Gen, CodeBuf.Valid, CodeBuf.Contents, ClassTable.Valid;
      ghost var base := cb.len;
      GenSimple(a, base, State());
      ok := true;
      match a {
        case AssignNode(v, r) =>
          EmitPair(Assign(v, r), v, r);
          EmittedOf(Leaf(Assign(v, r)), base);
        case CountNode(op, n) =>
          EmitCount(op, n);
          EmittedOf(Leaf(Count(op, n)), base);
        case EvalNode(f, r) =>
          EmitPair(CallFn(f, r), f, r);
          EmittedOf(Leaf(CallFn(f, r)), base);
        case AnchorNode(atEnd) =>
          var k := if atEnd then 1 else 0;
          EmitReg(Anchor(k), k);
          EmittedOf(Leaf(Anchor(k)), base);
        case EmitRegister(r) =>
          if r >= 0 {
            EmitReg(EmitCapture(r), r);
            EmittedOf(Leaf(EmitCapture(r)), base);
          } else {
            EmittedOf(Sequence([]), base);
            EmittedOfAll([], base);
          }
        case BalNode(o, c) =>
          EmitBal(o, c);
          EmittedOf(Leaf(Bal(o, c)), base);
        case Control(op) =>
          EmitBare(ControlInstr(op).bare);
          EmittedOf(Leaf(ControlInstr(op)), base);
        case RegRef(_) =>
          ok := false;
      }
    }

    method EmitPayload(a: Ast)
      requires Valid() && (a.Literal? || a.EmitText?)
      modifies cb, cb.buf
      ensures Valid() && (cb.buf == old(cb.buf) || fresh(cb.buf))
      ensures Did(true, old(Code()), Gen(a, old(cb.len), old(State())))
    {
      hide Encode, Emitted, Weight;
      ghost var base := cb.len;
      if a.Literal? {
        EmitInline(OP_LIT, a.text);
        EmittedOf(TextLeaf(a.text), base);
      } else {
        EmitInline(OP_EMIT_LITERAL, a.text);
        EmittedOf(EmitLeaf(a.text), base);
      }
    }

    method EmitClassNode(op: ClassOp, set_: seq<byte>)
      requires Valid()
      modifies this, cb, cb.buf, classes
      ensures Valid() && (cb.buf == old(cb.buf) || fresh(cb.buf))
      ensures Did(true, old(Code()), Gen(ClassNode(op, set_), old(cb.len), old(State())))
    {
      hide Encode, Emitted, Gen, Register, ClassOf, CodeBuf.Valid, CodeBuf.Contents, ClassTable.Valid;
      GenClass(op, set_, cb.len, State());
      var id := 0;
      if !(op.Any? && set_ == []) {
        id := classes.AddOrGet(set_);
      }
      EmittedOf(Leaf(Class(op, id)), cb.len);
      EmitClass(op, id);
    }

    method EmitGoto(name: seq<byte>)
      requires Valid()
      modifies this, cb, cb.buf
      ensures Valid() && (cb.buf == old(cb.buf) || fresh(cb.buf))
      ensures Did(true, old(Code()), Gen(GotoNode(name), old(cb.len), old(State())))
    {
      hide Encode, Emitted, CodeBuf.Valid, CodeBuf.Contents, ClassTable.Valid;
      var i := GetOrCreateLabel(name);
      labels := labels[i := labels[i].(referenced := true)];
      EmittedOf(Leaf(Goto(i)), cb.len);
      EmitLabelOp(Goto(i), i);
    }

    method EmitParts(ps: seq<Ast>) returns (ok: bool)
      requires Valid()
      modifies this, cb, cb.buf, classes
      ensures Valid() && (cb.buf == old(cb.buf) || fresh(cb.buf))
      ensures var g := GenAll(ps, old(cb.len), old(State()));
        (ok <==> g.Some?)
        && (ok ==> Code() == old(Code()) + EmittedAll(g.value.trees, old(cb.len)) && State() == g.value.tables)
      decreases ps, 0
    {
      hide Emitted, EmittedAll, Gen, GenAll, CodeBuf.Valid, CodeBuf.Contents, ClassTable.Valid;
      ghost var base, tables := cb.len, State();
      GenAllStep(ps, base, tables);
      if ps == [] {
        EmittedOfAll([], base);
        return true;
      }
      ok := EmitNode(ps[0]);
      if !ok { return; }
      ghost var head := Gen(ps[0], base, tables).value;
      EmittedOf(head.tree, base);
      ok := EmitParts(ps[1..]);
      if ok {
        ghost var rest := GenAll(ps[1..], base + Weight(head.tree), head.tables).value;
        ConsBytes(head.tree, rest.trees, base);
        Regroup3(old(Code()), Emitted(head.tree, base), EmittedAll(rest.trees, base + Weight(head.tree)));
      }
    }

    /** SPLIT with two placeholders, left arm, JMP with a placeholder. */
    method EmitFirstArm(l: Ast) returns (ok: bool)
      requires Valid()
      modifies this, cb, cb.buf, classes
      ensures Valid() && (cb.buf == old(cb.buf) || fresh(cb.buf))
      ensures ok <==> Gen(l, old(cb.len) + 9, old(State())).Some?
      ensures ok ==>
        var g := Gen(l, old(cb.len) + 9, old(State())).value;
        && Code() == old(Code()) + [OP_SPLIT] + Enc32(0) + Enc32(0) + Emitted(g.tree, old(cb.len) + 9) + [OP_JMP] + Enc32(0)
        && State() == g.tables && cb.len == old(cb.len) + 14 + Weight(g.tree)
      decreases l, 2
    {
      hide Encode, Emitted, Enc32, Weight, Gen, CodeBuf.Valid, CodeBuf.Contents, ClassTable.Valid;
      ghost var base, tables := cb.len, State();
      EmitSplitHoles();
      ok := EmitNode(l);
      if !ok { return; }
      EmittedOf(Gen(l, base + 9, tables).value.tree, base + 9);
      EmitJmpHole();
    }

    /** The first arm, the right arm; then patch. */
    method EmitAlt(l: Ast, r: Ast) returns (ok: bool)
      requires Valid()
      modifies this, cb, cb.buf, classes
      ensures Valid() && (cb.buf == old(cb.buf) || fresh(cb.buf))
      ensures Did(ok, old(Code()), Gen(Alt(l, r), old(cb.len), old(State())))
      decreases Alt(l, r), 0
    {
      hide Encode, Emitted, Enc32, Weight, Patch, Gen, CodeBuf.Valid, CodeBuf.Contents, ClassTable.Valid;
      ghost var c0, base, tables := Code(), cb.len, State();
      GenAlt(l, r, base, tables);
      var whereA := cb.len + 1;
      var whereB := cb.len + 5;
      var leftStart := cb.len + 9;
      ok := EmitFirstArm(l);
      if !ok { return; }
      ghost var gl := Gen(l, base + 9, tables).value;
      var jmpTarget := cb.len - 4;
      var rightStart := cb.len;
      ok := EmitNode(r);
      if !ok { return; }
      ghost var gr := Gen(r, rightStart, gl.tables).value;
      EmittedOf(gr.tree, rightStart);
      PatchAlt(whereA, whereB, jmpTarget, leftStart, rightStart, gl.tree, gr.tree, c0);
    }

    /** Fill the three placeholders once both arms are in place. */
    method PatchAlt(whereA: nat, whereB: nat, jmpTarget: nat, leftStart: nat, rightStart: nat,
                    ghost l: Tree, ghost r: Tree, ghost c0: seq<byte>)
      requires Valid()
      requires whereA == |c0| + 1 && whereB == |c0| + 5 && jmpTarget == rightStart - 4
      requires leftStart == |c0| + 9 && rightStart == |c0| + 14 + Weight(l)
      requires Code() == c0 + [OP_SPLIT] + Enc32(0) + Enc32(0) + Emitted(l, leftStart)
                         + [OP_JMP] + Enc32(0) + Emitted(r, rightStart)
      modifies cb.buf
      ensures Valid() && Code() == c0 + Emitted(Either(l, r), |c0|)
    {
      hide Encode, Emitted, Enc32, Weight, Patch;
      var end := cb.len;
      AltBytes(c0, l, r, |c0|);
      cb.Store32(whereA, leftStart);
      cb.Store32(whereB, rightStart);
      cb.Store32(jmpTarget, end);
    }

    method EmitSplitHoles()
      requires Valid()
      modifies cb, cb.buf
      ensures Valid() && (cb.buf == old(cb.buf) || fresh(cb.buf))
      ensures Code() == old(Code()) + [OP_SPLIT] + Enc32(0) + Enc32(0)
    {
      hide Enc32;
      cb.EmitU8(OP_SPLIT);
      cb.EmitU32(0);
      cb.EmitU32(0);
    }

    method EmitJmpHole()
      requires Valid()
      modifies cb, cb.buf
      ensures Valid() && (cb.buf == old(cb.buf) || fresh(cb.buf))
      ensures Code() == old(Code()) + [OP_JMP] + Enc32(0)
    {
      hide Enc32;
      cb.EmitU8(OP_JMP);
      cb.EmitU32(0);
    }

    /** CAP_START, the sub-pattern, CAP_END. */
    method EmitCaptured(reg: int, sub: Ast) returns (ok: bool)
      requires Valid()
      modifies this, cb, cb.buf, classes
      ensures Valid() && (cb.buf == old(cb.buf) || fresh(cb.buf))
      ensures Did(ok, old(Code()), GenCaptured(reg, sub, old(cb.len), old(State())))
      decreases sub, 2
    {
      hide Encode, Emitted, Weight, Gen, Captured, CodeBuf.Valid, CodeBuf.Contents, ClassTable.Valid;
      ghost var c0, base, tables := Code(), cb.len, State();
      CaptureWidths(reg);
      EmitReg(CapStart(reg), reg);
      ok := EmitNode(sub);
      if !ok { return; }
      ghost var g := Gen(sub, base + 2, tables).value;
      EmittedOf(g.tree, base + 2);
      EmitReg(CapEnd(reg), reg);
      CapturedBytes(reg, g.tree, base);
      Regroup4(c0, Encode(CapStart(reg)), Emitted(g.tree, base + 2), Encode(CapEnd(reg)));
    }

    /** The label instruction and its table entry, unless the name is defined already. */
    method EmitDefinition(name: seq<byte>) returns (ok: bool)
      requires Valid()
      modifies this`labels, cb, cb.buf
      ensures Valid() && (cb.buf == old(cb.buf) || fresh(cb.buf))
      ensures ok <==> DefineLabel(old(labels), name, old(cb.len) + 3).Some?
      ensures ok ==> labels == DefineLabel(old(labels), name, old(cb.len) + 3).value
      ensures ok ==> Code() == old(Code()) + Encode(Label(FindLabel(old(labels), name))) && cb.len == old(cb.len) + 3
    {
      hide Encode, CodeBuf.Valid, CodeBuf.Contents, ClassTable.Valid;
      var existing := FindLabelIndex(name);
      if existing < |labels| && labels[existing].defined { return false; }
      var i := GetOrCreateLabel(name);
      LabelWidth(i);
      EmitLabelOp(Label(i), i);
      labels := labels[i := labels[i].(offset := cb.len, defined := true)];
      ok := true;
    }

    method EmitLabel(name: seq<byte>, target: Ast) returns (ok: bool)
      requires Valid()
      modifies this, cb, cb.buf, classes
      ensures Valid() && (cb.buf == old(cb.buf) || fresh(cb.buf))
      ensures Did(ok, old(Code()), Gen(LabelNode(name, target), old(cb.len), old(State())))
      decreases target, 2
    {
      hide Encode, Emitted, Weight, Gen, DefineLabel, FindLabel, CodeBuf.Valid, CodeBuf.Contents, ClassTable.Valid;
      ghost var base, tables := cb.len, State();
      GenLabel(name, target, base, tables);
      ok := EmitDefinition(name);
      if !ok { return; }
      ghost var i, named := FindLabel(tables.labels, name), State();
      LabelWidth(i);
      ok := EmitNode(target);
      if ok {
        ghost var g := Gen(target, base + 3, named).value;
        EmittedOf(Leaf(Label(i)), base);
        PairBytes(Leaf(Label(i)), g.tree, base);
      }
    }

    /** REPEAT_INIT with a placeholder, the body, REPEAT_STEP. */
    method EmitRounds(sub: Ast, id: nat, min: int, max: int) returns (ok: bool)
      requires Valid()
      modifies this, cb, cb.buf, classes
      ensures Valid() && (cb.buf == old(cb.buf) || fresh(cb.buf))
      ensures ok <==> Gen(sub, old(cb.len) + 14, old(State())).Some?
      ensures ok ==>
        var g := Gen(sub, old(cb.len) + 14, old(State())).value;
        && Code() == old(Code()) + [OP_REPEAT_INIT] + [Low8(id)] + Enc32(min) + Enc32(max) + Enc32(0)
                     + Emitted(g.tree, old(cb.len) + 14) + [OP_REPEAT_STEP] + [Low8(id)] + Enc32(old(cb.len) + 14)
        && State() == g.tables && cb.len == old(cb.len) + 20 + Weight(g.tree)
      decreases sub, 2
    {
      hide Emitted, Enc32, Weight, Gen, CodeBuf.Valid, CodeBuf.Contents, ClassTable.Valid;
      ghost var base, tables := cb.len, State();
      EmitInit(id, min, max);
      var bodyStart := cb.len;
      ok := EmitNode(sub);
      if !ok { return; }
      EmittedOf(Gen(sub, base + 14, tables).value.tree, base + 14);
      EmitStep(id, bodyStart);
    }

    /** A repetition body between REPEAT_INIT, whose skip target is patched, and REPEAT_STEP. */
    method EmitLoop(sub: Ast, id: nat, min: int, max: int) returns (ok: bool)
      requires Valid()
      modifies this, cb, cb.buf, classes
      ensures Valid() && (cb.buf == old(cb.buf) || fresh(cb.buf))
      ensures Did(ok, old(Code()), GenBody(sub, id, min, max, old(cb.len), old(State())))
      decreases sub, 3
    {
      hide Emitted, Enc32, Weight, Patch, Gen, CodeBuf.Valid, CodeBuf.Contents, ClassTable.Valid;
      ghost var c0, base, tables := Code(), cb.len, State();
      var skipTarget := cb.len + 10;
      ok := EmitRounds(sub, id, min, max);
      if !ok { return; }
      var done := cb.len;
      LoopBytes(c0, id, min, max, Gen(sub, base + 14, tables).value.tree, base);
      cb.Store32(skipTarget, done);
    }

    method EmitInit(id: nat, min: int, max: int)
      requires Valid()
      modifies cb, cb.buf
      ensures Valid() && (cb.buf == old(cb.buf) || fresh(cb.buf))
      ensures Code() == old(Code()) + [OP_REPEAT_INIT] + [Low8(id)] + Enc32(min) + Enc32(max) + Enc32(0)
    {
      hide Enc32, CodeBuf.Valid, CodeBuf.Contents, ClassTable.Valid;
      cb.EmitU8(OP_REPEAT_INIT);
      cb.EmitU8(id);
      cb.EmitU32(min);
      cb.EmitU32(max);
      cb.EmitU32(0);
    }

    method EmitStep(id: nat, bodyStart: nat)
      requires Valid()
      modifies cb, cb.buf
      ensures Valid() && (cb.buf == old(cb.buf) || fresh(cb.buf))
      ensures Code() == old(Code()) + [OP_REPEAT_STEP] + [Low8(id)] + Enc32(bodyStart)
    {
      hide Enc32;
      cb.EmitU8(OP_REPEAT_STEP);
      cb.EmitU8(id);
      cb.EmitU32(bodyStart);
    }

    method EmitArbno(sub: Ast) returns (ok: bool)
      requires Valid()
      modifies this, cb, cb.buf, classes
      ensures Valid() && (cb.buf == old(cb.buf) || fresh(cb.buf))
      ensures Did(ok, old(Code()), GenLoop(sub, old(cb.len), old(State())))
      decreases sub, 4
    {
      hide Emitted, Weight, Gen;
      var inner := sub;
      while inner.Arbno?
        invariant Unarbno(inner) == Unarbno(sub) && (inner == sub || inner < sub)
        decreases inner
      {
        inner := inner.sub;
      }
      ghost var core := inner;
      while inner.Repetition? && inner.min == 0 && inner.max == UNBOUNDED
        invariant Unrepeat(inner) == Unrepeat(core) && (inner == sub || inner < sub)
        decreases inner
      {
        inner := inner.sub;
      }
      if loops >= MAX_LOOPS { return false; }
      var id := loops;
      loops := loops + 1;
      ok := EmitLoop(inner, id, 0, UNBOUNDED);
    }

    method EmitRepeat(sub: Ast, min: int32, max: int32) returns (ok: bool)
      requires Valid()
      modifies this, cb, cb.buf, classes
      ensures Valid() && (cb.buf == old(cb.buf) || fresh(cb.buf))
      ensures Did(ok, old(Code()), Gen(Repetition(sub, min, max), old(cb.len), old(State())))
      decreases sub, 5
    {
      hide Emitted, Weight, Gen, GenLoop;
      GenRepeat(sub, min, max, cb.len, State());
      if loops >= MAX_LOOPS { return false; }
      var id := loops;
      loops := loops + 1;
      if min == 0 && max == UNBOUNDED {
        var inner := sub;
        while inner.Repetition? && inner.min == 0 && inner.max == UNBOUNDED
          invariant Unrepeat(inner) == Unrepeat(sub) && (inner == sub || inner < sub)
          decreases inner
        {
          inner := inner.sub;
        }
        ok := EmitArbno(inner);
      } else {
        ok := EmitLoop(sub, id, min, max);
      }
    }

    method EmitKey(key: Ast) returns (ok: bool)
      requires Valid()
      modifies this, cb, cb.buf, classes
      ensures Valid() && (cb.buf == old(cb.buf) || fresh(cb.buf))
      ensures Did(ok, old(Code()), GenKey(key, old(cb.len), old(State())))
      decreases key, 3
    {
      hide Emitted, Gen;
      if key.RegRef? {
        EmittedOf(Sequence([]), cb.len);
        EmittedOfAll([], cb.len);
        ok := true;
      } else {
        ok := EmitCaptured(0, key);
      }
    }

    method EmitTableAccess(table: seq<byte>, key: Ast) returns (ok: bool)
      requires Valid()
      modifies this, cb, cb.buf, classes
      ensures Valid() && (cb.buf == old(cb.buf) || fresh(cb.buf))
      ensures Did(ok, old(Code()), Gen(TableAccess(table, key), old(cb.len), old(State())))
      decreases TableAccess(table, key), 0
    {
      hide Encode, Emitted, Weight, Gen, GenKey, CodeBuf.Valid, CodeBuf.Contents, ClassTable.Valid;
      ghost var base, tables := cb.len, State();
      GenAccess(table, key, base, tables);
      ok := EmitKey(key);
      if !ok { return; }
      ghost var k := GenKey(key, base, tables).value;
      var get := TableGet(UNBOUND, KeyRegister(key), 0, table);
      EmitTableOp(get, KeyRegister(key), 0, table);
      PairBytes(k.tree, Leaf(get), base);
      EmittedOf(Leaf(get), base + Weight(k.tree));
    }

    /** The outcome of emitting a key and a value: refused, or both laid out after `before`. */
    ghost predicate DidBoth(ok: bool, before: seq<byte>, g: Option<(Generated, Generated)>)
      reads this, cb, cb.buf, classes
      requires cb.Valid()
    {
      (ok <==> g.Some?)
      && (ok ==>
            var (k, v) := g.value;
            && Code() == before + Emitted(k.tree, |before|) + Emitted(v.tree, |before| + Weight(k.tree))
            && State() == v.tables)
    }

    /** The key, then the value captured in register 1. */
    method EmitKeyValue(key: Ast, value: Ast) returns (ok: bool)
      requires Valid()
      modifies this, cb, cb.buf, classes
      ensures Valid() && (cb.buf == old(cb.buf) || fresh(cb.buf))
      ensures DidBoth(ok, old(Code()), GenKeyValue(key, value, old(cb.len), old(State())))
      decreases if key < value then value else key, 4
    {
      hide Emitted, Weight, GenKey, GenCaptured, GenKeyValue, CodeBuf.Valid, CodeBuf.Contents, ClassTable.Valid;
      ghost var base, tables := cb.len, State();
      KeyValueSteps(key, value, base, tables);
      ok := EmitKey(key);
      if !ok { return; }
      ghost var k := GenKey(key, base, tables).value;
      EmittedWidth(k.tree, base);
      ok := EmitCaptured(1, value);
    }

    method EmitTableUpdate(table: seq<byte>, key: Ast, value: Ast) returns (ok: bool)
      requires Valid()
      modifies this, cb, cb.buf, classes
      ensures Valid() && (cb.buf == old(cb.buf) || fresh(cb.buf))
      ensures Did(ok, old(Code()), Gen(TableUpdate(table, key, value), old(cb.len), old(State())))
      decreases TableUpdate(table, key, value), 0
    {
      hide Encode, Emitted, Weight, Gen, GenKeyValue, KeyRegister, CodeBuf.Valid, CodeBuf.Contents, ClassTable.Valid;
      ghost var base, tables := cb.len, State();
      GenUpdate(table, key, value, base, tables);
      ok := EmitKeyValue(key, value);
      if !ok { return; }
      ghost var (k, v) := GenKeyValue(key, value, base, tables).value;
      EmittedOf(k.tree, base);
      EmittedOf(v.tree, base + Weight(k.tree));
      var put := TableSet(UNBOUND, KeyRegister(key), 1, table);
      EmitTableOp(put, KeyRegister(key), 1, table);
      TripleBytes(k.tree, v.tree, Leaf(put), base);
      EmittedOf(Leaf(put), base + Weight(k.tree) + Weight(v.tree));
    }
  }

  lemma KeyValueSteps(key: Ast, value: Ast, base: nat, tb: Tables)
    ensures GenKeyValue(key, value, base, tb) ==
      match GenKey(key, base, tb)
      case None => None
      case Some(k) =>
        (match GenCaptured(1, value, base + Weight(k.tree), k.tables)
         case None => None
         case Some(v) => Some((k, v)))
  {
    hide GenKey, GenCaptured, Weight;
  }

  // ----- The bytes the emission steps put together -----

  lemma InlineBytes(c0: seq<byte>, op: byte, off: int, text: seq<byte>)
    requires op == OP_LIT || op == OP_EMIT_LITERAL
    ensures c0 + [op] + Enc32(off) + Enc32(|text|) + text
         == c0 + Encode(if op == OP_LIT then Lit(off, text) else EmitLiteral(off, text))
  {
    hide Enc32;
  }

  lemma TableOpBytes(c0: seq<byte>, i: Instr, key: int, reg: int, name: seq<byte>)
    requires i == TableGet(UNBOUND, key, reg, name) || i == TableSet(UNBOUND, key, reg, name)
    ensures c0 + [Opcode(i)] + Enc16(UNBOUND) + [Low8(key)] + [Low8(reg)] + [Low8(|name|)] + name
         == c0 + Encode(i)
  {
    hide Enc16, Low8, Opcode;
    SixPieces(c0, [Opcode(i)], Enc16(UNBOUND), Low8(key), Low8(reg), Low8(|name|), name);
  }

  lemma SixPieces(c0: seq<byte>, op: seq<byte>, id: seq<byte>, x: byte, y: byte, n: byte, name: seq<byte>)
    ensures c0 + op + id + [x] + [y] + [n] + name == c0 + (op + (id + [x, y, n] + name))
  {
    assert [x] + [y] + [n] == [x, y, n];
  }

  /** Filling the three holes of an emitted alternation. */
  lemma PatchThree(a: seq<byte>, b: seq<byte>, c: seq<byte>, hole: seq<byte>,
                   ea: seq<byte>, eb: seq<byte>, ec: seq<byte>)
    requires |hole| == |ea| == |eb| == |ec|
    ensures var s := a + hole + hole + b + hole + c;
      var n := |hole|;
      Patch(Patch(Patch(s, |a|, ea), |a| + n, eb), |a| + n + n + |b|, ec) == a + ea + eb + b + ec + c
  {
    hide Patch;
    var n := |hole|;
    var s := a + hole + hole + b + hole + c;
    assert s == a + hole + (hole + b + hole + c);
    PatchHole(a, hole, hole + b + hole + c, ea);
    var s1 := a + ea + (hole + b + hole + c);
    assert s1 == (a + ea) + hole + (b + hole + c);
    PatchHole(a + ea, hole, b + hole + c, eb);
    var s2 := (a + ea) + eb + (b + hole + c);
    assert s2 == (a + ea + eb + b) + hole + c;
    PatchHole(a + ea + eb + b, hole, c, ec);
  }

  /** What EmitAlt appends and then patches is the layout of the alternation. */
  lemma AltBytes(c0: seq<byte>, l: Tree, r: Tree, base: nat)
    requires |c0| == base
    ensures var left := base + 9;
      var right := base + 14 + Weight(l);
      var zero, el, er := Enc32(0), Emitted(l, left), Emitted(r, right);
      var s := c0 + [OP_SPLIT] + zero + zero + el + [OP_JMP] + zero + er;
      && |el| == Weight(l) && |er| == Weight(r)
      && Patch(Patch(Patch(s, base + 1, Enc32(left)), base + 5, Enc32(right)),
               right - 4, Enc32(right + Weight(r)))
         == c0 + Emitted(Either(l, r), base)
  {
    hide Emitted, Enc32, Patch, Weight, Encode;
    var left, right := base + 9, base + 14 + Weight(l);
    var zero, el, er := Enc32(0), Emitted(l, left), Emitted(r, right);
    EmittedOf(l, left);
    EmittedOf(r, right);
    EmittedOf(Either(l, r), base);
    JumpBytes(left, right, right + Weight(r));
    var s := c0 + [OP_SPLIT] + zero + zero + el + [OP_JMP] + zero + er;
    assert s == (c0 + [OP_SPLIT]) + zero + zero + (el + [OP_JMP]) + zero + er;
    PatchThree(c0 + [OP_SPLIT], el + [OP_JMP], er, zero, Enc32(left), Enc32(right), Enc32(right + Weight(r)));
    AltRegroup(c0, [OP_SPLIT], Enc32(left), Enc32(right), el, [OP_JMP], Enc32(right + Weight(r)), er);
  }

  lemma AltRegroup(c0: seq<byte>, s: seq<byte>, a: seq<byte>, b: seq<byte>, l: seq<byte>, j: seq<byte>,
                   e: seq<byte>, r: seq<byte>)
    ensures (c0 + s) + a + b + (l + j) + e + r == c0 + ((s + (a + b)) + l + (j + e) + r)
  {
  }

  lemma CaptureWidths(reg: int)
    ensures |Encode(CapStart(reg))| == |Encode(CapEnd(reg))| == 2
  {
  }

  lemma LabelWidth(i: int)
    ensures |Encode(Label(i))| == 3
  {
    hide Enc16;
  }

  lemma CapturedBytes(reg: int, t: Tree, base: nat)
    ensures Emitted(Captured(reg, t), base) == Encode(CapStart(reg)) + Emitted(t, base + 2) + Encode(CapEnd(reg))
    ensures Weight(Captured(reg, t)) == 4 + Weight(t)
  {
    hide Encode, Emitted, Weight;
    CaptureWidths(reg);
    var first, last := Leaf(CapStart(reg)), Leaf(CapEnd(reg));
    TripleBytes(first, t, last, base);
    EmittedOf(first, base);
    EmittedOf(last, base + 2 + Weight(t));
  }

  lemma ConsBytes(t: Tree, ps: seq<Tree>, base: nat)
    ensures EmittedAll([t] + ps, base) == Emitted(t, base) + EmittedAll(ps, base + Weight(t))
    ensures WeightAll([t] + ps) == Weight(t) + WeightAll(ps)
  {
    hide Emitted, EmittedAll, Weight;
    assert ([t] + ps)[1..] == ps;
    EmittedOfAll([t] + ps, base);
  }

  lemma OneBytes(t: Tree, base: nat)
    ensures EmittedAll([t], base) == Emitted(t, base) && WeightAll([t]) == Weight(t)
  {
    hide Emitted, EmittedAll, Weight;
    assert [t] + [] == [t];
    ConsBytes(t, [], base);
    EmittedOfAll([], base + Weight(t));
  }

  lemma PairBytes(a: Tree, b: Tree, base: nat)
    ensures Emitted(Sequence([a, b]), base) == Emitted(a, base) + Emitted(b, base + Weight(a))
  {
    hide Emitted, EmittedAll, Weight;
    assert [a] + [b] == [a, b];
    ConsBytes(a, [b], base);
    OneBytes(b, base + Weight(a));
    EmittedOf(Sequence([a, b]), base);
  }

  lemma TripleBytes(a: Tree, b: Tree, c: Tree, base: nat)
    ensures Emitted(Sequence([a, b, c]), base)
         == Emitted(a, base) + Emitted(b, base + Weight(a)) + Emitted(c, base + Weight(a) + Weight(b))
    ensures Weight(Sequence([a, b, c])) == Weight(a) + Weight(b) + Weight(c)
  {
    hide Emitted, EmittedAll, WeightAll, Weight;
    SequenceWeight([a, b, c]);
    assert [a] + [b, c] == [a, b, c] && [b] + [c] == [b, c];
    ConsBytes(a, [b, c], base);
    ConsBytes(b, [c], base + Weight(a));
    OneBytes(c, base + Weight(a) + Weight(b));
    EmittedOf(Sequence([a, b, c]), base);
    Regroup3(Emitted(a, base), Emitted(b, base + Weight(a)), Emitted(c, base + Weight(a) + Weight(b)));
  }

  lemma Regroup3(a: seq<byte>, b: seq<byte>, c: seq<byte>)
    ensures a + (b + c) == a + b + c
  {
  }

  lemma Regroup4(a: seq<byte>, b: seq<byte>, c: seq<byte>, d: seq<byte>)
    ensures a + b + c + d == a + (b + c + d)
  {
  }

  /** What EmitLoop appends and then patches is the layout of the loop. */
  lemma LoopBytes(c0: seq<byte>, id: nat, min: int, max: int, t: Tree, base: nat)
    requires |c0| == base
    ensures var body := Emitted(t, base + 14);
      var s := c0 + [OP_REPEAT_INIT] + [Low8(id)] + Enc32(min) + Enc32(max) + Enc32(0) + body
               + [OP_REPEAT_STEP] + [Low8(id)] + Enc32(base + 14);
      && |body| == Weight(t)
      && Patch(s, base + 10, Enc32(base + 20 + Weight(t))) == c0 + Emitted(Loop(id, min, max, t), base)
  {
    hide Emitted, Enc32, Patch, Weight, Encode;
    var body, end := Emitted(t, base + 14), Enc32(base + 20 + Weight(t));
    EmittedOf(t, base + 14);
    EmittedOf(Loop(id, min, max, t), base);
    LoopWeight(id, min, max, t);
    RepeatBytes(id, min, max, base + 20 + Weight(t), base + 14);
    var head := c0 + [OP_REPEAT_INIT] + [Low8(id)] + Enc32(min) + Enc32(max);
    var tail := body + [OP_REPEAT_STEP] + [Low8(id)] + Enc32(base + 14);
    assert c0 + [OP_REPEAT_INIT] + [Low8(id)] + Enc32(min) + Enc32(max) + Enc32(0) + body
           + [OP_REPEAT_STEP] + [Low8(id)] + Enc32(base + 14) == head + Enc32(0) + tail;
    PatchHole(head, Enc32(0), tail, end);
    LoopRegroup(c0, [OP_REPEAT_INIT], [Low8(id)], Enc32(min), Enc32(max), end, body,
                [OP_REPEAT_STEP], Enc32(base + 14));
  }

  lemma RepeatBytes(id: int, min: int, max: int, skip: int, body: int)
    ensures Encode(RepeatInit(id, min, max, skip))
         == [OP_REPEAT_INIT] + ([Low8(id)] + Enc32(min) + Enc32(max) + Enc32(skip))
    ensures Encode(RepeatStep(id, body)) == [OP_REPEAT_STEP] + ([Low8(id)] + Enc32(body))
  {
    hide Enc32;
  }

  lemma LoopRegroup(c0: seq<byte>, i: seq<byte>, id: seq<byte>, lo: seq<byte>, hi: seq<byte>, end: seq<byte>,
                    body: seq<byte>, step: seq<byte>, back: seq<byte>)
    ensures c0 + i + id + lo + hi + end + (body + step + id + back)
         == c0 + (i + (id + lo + hi + end) + body + (step + (id + back)))
  {
  }
}
