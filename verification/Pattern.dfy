/** Pattern syntax trees (ast.h) and what a pattern means on a subject, independently of any
    compilation: the ordered states it can succeed in. */
module Pattern {
  import opened Wrappers
  import opened Bytes
  import opened Ranges
  import opened CharClasses
  import opened Bytecode
  import opened Semantics
  import opened Outcomes

  type int32 = x: int | -0x8000_0000 <= x < 0x8000_0000 witness 0
  type uint32 = x: int | 0 <= x < 0x1_0000_0000 witness 0

  datatype ControlOp = Fence | Rem | Abort | Fail | Succeed

  datatype Ast =
    | Literal(text: seq<byte>)
    | Concat(parts: seq<Ast>)
    | Alt(left: Ast, right: Ast)
    | Repetition(sub: Ast, min: int32, max: int32)
    | Arbno(sub: Ast)
    | ClassNode(cop: ClassOp, set_: seq<byte>)
    | Cap(reg: int32, sub: Ast)
    | AssignNode(var_: int32, src: int32)
    | CountNode(nop: CountOp, n: int32)
    | EvalNode(fn: int32, src: int32)
    | DynamicEval(expr: Ast)
    | AnchorNode(atEnd: bool)
    | EmitText(text: seq<byte>)
    | EmitRegister(reg: int32)
    | LabelNode(name: seq<byte>, target: Ast)
    | GotoNode(name: seq<byte>)
    | TableAccess(table: seq<byte>, key: Ast)
    | TableUpdate(table: seq<byte>, key: Ast, value: Ast)
    | BalNode(open: uint32, close: uint32)
    | Control(op: ControlOp)
    | RegRef(reg: int32)

  /** A node without sub-patterns. */
  predicate Childless(a: Ast) {
    a.Literal? || a.ClassNode? || a.AssignNode? || a.CountNode? || a.EvalNode? || a.AnchorNode? || a.EmitText?
    || a.EmitRegister? || a.GotoNode? || a.BalNode? || a.Control? || a.RegRef?
  }

  /** The patterns whose matching is modelled: everything but loops, output, gotos, host
      calls, tables and BAL. */
  predicate Matchable(a: Ast) {
    match a
    case Literal(_) => true
    case Concat(ps) => forall k :: 0 <= k < |ps| ==> Matchable(ps[k])
    case Alt(l, r) => Matchable(l) && Matchable(r)
    case ClassNode(_, _) => true
    case Cap(_, sub) => Matchable(sub)
    case AssignNode(_, _) => true
    case CountNode(_, _) => true
    case DynamicEval(e) => Matchable(e)
    case AnchorNode(_) => true
    case LabelNode(_, target) => Matchable(target)
    case Control(_) => true
    case _ => false
  }

  /** End a capture in every state an outcome offers. */
  function CloseAll(o: Outcome, reg: nat): Outcome
    decreases |o.states|
  {
    if o.states == [] then o
    else
      var rest := CloseAll(Outcome(o.states[1..], o.fin), reg);
      Outcome([SetCapEnd(o.states[0], reg)] + rest.states, rest.fin)
  }

  function ControlOutcome(op: ControlOp, s: seq<byte>, st: State): Outcome {
    match op
    case Fence => Outcome([st], Decided(Rejected))
    case Rem => Maybe(PrimStep(s, Rest, st))
    case Abort => Outcome([], Decided(Aborted))
    case Fail => NOTHING
    case Succeed => Outcome([], Decided(Accepted(st)))
  }

  /** The set a set string denotes, as raw ranges. */
  function SetOf(set_: seq<byte>): Option<seq<Range>> { Some(ParseSet(set_, 0)) }

  /** The meaning of a pattern on subject `s`: its ordered outcomes from state `st`.
      Numbers are taken at the width the instruction set gives them. */
  function Meaning(a: Ast, s: seq<byte>, st: State): Outcome
    requires Matchable(a)
    decreases a, 0, 0
  {
    match a
    case Literal(text) => Maybe(PrimStep(s, Text(text), st))
    case Concat(ps) => MeaningAll(ps, s, st)
    case Alt(l, r) => OrElse(Meaning(l, s, st), Meaning(r, s, st))
    case ClassNode(op, set_) =>
      if op.BreakX? then Outcome(BreakXStates(s, SetOf(set_), st), Exhausted)
      else Maybe(PrimStep(s, InClass(op, SetOf(set_)), st))
    case Cap(reg, sub) => CloseAll(Meaning(sub, s, SetCapStart(st, Low8(reg))), Low8(reg))
    case AssignNode(v, r) => Once(SetVar(st, Low16(v), Low8(r)))
    case CountNode(op, n) => Maybe(PrimStep(s, Counted(op, Low32(n)), st))
    case DynamicEval(e) => Meaning(e, s, st)
    case AnchorNode(atEnd) => if st.pos == (if atEnd then |s| else 0) then Once(st) else NOTHING
    case LabelNode(_, target) => Meaning(target, s, st)
    case Control(op) => ControlOutcome(op, s, st)
  }

  function MeaningAll(ps: seq<Ast>, s: seq<byte>, st: State): Outcome
    requires forall k :: 0 <= k < |ps| ==> Matchable(ps[k])
    decreases ps, 0, 0
  {
    if ps == [] then Once(st)
    else MeaningEach(ps[1..], s, Meaning(ps[0], s, st))
  }

  function MeaningEach(ps: seq<Ast>, s: seq<byte>, o: Outcome): Outcome
    requires forall k :: 0 <= k < |ps| ==> Matchable(ps[k])
    decreases ps, 1, |o.states|
  {
    if o.states == [] then o
    else OrElse(MeaningAll(ps, s, o.states[0]), MeaningEach(ps, s, Outcome(o.states[1..], o.fin)))
  }
}
