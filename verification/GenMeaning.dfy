/** The tree generated for a pattern has exactly the outcomes that the pattern means. */
module GenMeaning {
  import opened Wrappers
  import opened Bytes
  import opened Utf8
  import opened Ranges
  import opened CharClasses
  import opened Bytecode
  import opened Semantics
  import opened Outcomes
  import opened CodeTree
  import opened CodeMeaning
  import opened Pattern
  import opened Translate
  import opened FusionMeaning
  import opened FusedScan
  import opened FusionPreserves
  import opened GenShape

  // ----- Only the set of a class matters -----

  ghost predicate SameText(a: seq<Range>, b: seq<Range>) {
    Proper(a) && Proper(b) && SameSet(a, b)
  }

  lemma {:induction false} SameSetSameRun(a: seq<Range>, b: seq<Range>, s: seq<byte>, pos: nat, inside: bool)
    requires SameText(a, b)
    ensures RunEnd(Some(a), s, pos, inside) == RunEnd(Some(b), s, pos, inside)
    decreases |s| - pos
  {
    hide UnitAt, SameText;
    assert UnitAt(Some(a), s, pos) == UnitAt(Some(b), s, pos) by { TextUnit(a, b, s, pos); }
    match UnitAt(Some(a), s, pos)
    case None =>
    case Some(u) => if u.inside == inside { SameSetSameRun(a, b, s, pos + u.width, inside); }
  }

  lemma TextUnit(a: seq<Range>, b: seq<Range>, s: seq<byte>, pos: nat)
    requires SameText(a, b)
    ensures UnitAt(Some(a), s, pos) == UnitAt(Some(b), s, pos)
  {
    SameSetSameUnit(a, b, s, pos);
  }

  lemma SameSetSameClass(a: seq<Range>, b: seq<Range>, op: ClassOp, s: seq<byte>, pos: nat)
    requires SameText(a, b)
    ensures ClassStep(s, op, Some(a), pos) == ClassStep(s, op, Some(b), pos)
  {
    hide UnitAt, RunEnd, SameText;
    TextUnit(a, b, s, pos);
    SameSetSameRun(a, b, s, pos, true);
    SameSetSameRun(a, b, s, pos, false);
  }

  lemma {:induction false} SameSetSameRetries(a: seq<Range>, b: seq<Range>, s: seq<byte>, st: State)
    requires SameText(a, b)
    ensures BreakXStates(s, Some(a), st) == BreakXStates(s, Some(b), st)
    decreases if st.pos <= |s| then |s| - st.pos else 0
  {
    hide RunEnd, SameText, PastDelimiter;
    SameSetSameRun(a, b, s, st.pos, false);
    match PastDelimiter(s, RunEnd(Some(a), s, st.pos, false))
    case None =>
    case Some(p) => SameSetSameRetries(a, b, s, st.(pos := p));
  }

  /** The class operation of a node: the compiled form works on the registered class, the
      meaning on the set as written. */
  lemma ClassMeans(op: ClassOp, set_: seq<byte>, classes: seq<CharClass>, id: nat, s: seq<byte>, st: State)
    requires 1 <= id <= |classes| && id < U16 && classes[id - 1] == ClassOf(set_)
    ensures Run(Leaf(Class(op, id)), classes, s, st) == Meaning(ClassNode(op, set_), s, st)
  {
    hide ClassStep, BreakXStates, ParseSet;
    var a, b := ClassOf(set_).ranges, ParseSet(set_, 0);
    assert SameText(a, b);
    hide SameText, SameSet;
    SameSetSameClass(a, b, op, s, st.pos);
    SameSetSameRetries(a, b, s, st);
    assert Low16(id) == id;
  }

  /** ANY of an empty set has no class at all; like its meaning it never matches. */
  lemma AnyOfNothing(classes: seq<CharClass>, s: seq<byte>, st: State)
    ensures Run(Leaf(Class(Any, 0)), classes, s, st) == Meaning(ClassNode(Any, []), s, st)
  {
  }

  // ----- Captures -----

  lemma {:induction false} ClosingRun(reg: int, classes: seq<CharClass>, s: seq<byte>, o: Outcome)
    ensures RunEach([Leaf(CapEnd(reg))], classes, s, o) == CloseAll(o, Low8(reg))
    decreases |o.states|
  {
    hide SetCapEnd;
    if o.states != [] {
      var later := Outcome(o.states[1..], o.fin);
      ClosingRun(reg, classes, s, later);
      var closed := SetCapEnd(o.states[0], Low8(reg));
      ClosingOne(reg, classes, s, o.states[0]);
    }
  }

  lemma ClosingOne(reg: int, classes: seq<CharClass>, s: seq<byte>, st: State)
    ensures RunAll([Leaf(CapEnd(reg))], classes, s, st) == Once(SetCapEnd(st, Low8(reg)))
  {
    hide SetCapEnd;
    var end := Leaf(CapEnd(reg));
    assert [end][1..] == [];
    assert Run(end, classes, s, st) == Once(SetCapEnd(st, Low8(reg)));
    RunEachOnce([], classes, s, SetCapEnd(st, Low8(reg)));
  }

  lemma CapturedRuns(reg: int, t: Tree, classes: seq<CharClass>, s: seq<byte>, st: State)
    requires Plain(t)
    ensures Plain(Captured(reg, t))
    ensures Run(Captured(reg, t), classes, s, st)
         == CloseAll(Run(t, classes, s, SetCapStart(st, Low8(reg))), Low8(reg))
  {
    hide SetCapStart, SetCapEnd;
    var open, close := Leaf(CapStart(reg)), Leaf(CapEnd(reg));
    var st' := SetCapStart(st, Low8(reg));
    assert Plain(open) && Plain(close);
    assert Run(open, classes, s, st) == Once(st');
    hide Run, Plain, CloseAll;
    SequenceRuns([open, t, close], classes, s, st);
    assert [open, t, close][1..] == [t, close] && [t, close][1..] == [close];
    RunEachOnce([t, close], classes, s, st');
    ClosingRun(reg, classes, s, Run(t, classes, s, st'));
  }

  lemma SequenceRuns(ps: seq<Tree>, classes: seq<CharClass>, s: seq<byte>, st: State)
    requires forall k :: 0 <= k < |ps| ==> Plain(ps[k])
    ensures Plain(Sequence(ps)) && Run(Sequence(ps), classes, s, st) == RunAll(ps, classes, s, st)
  {
  }

  lemma LabelledRuns(id: int, t: Tree, classes: seq<CharClass>, s: seq<byte>, st: State)
    requires Plain(t)
    ensures Plain(Sequence([Leaf(Label(id)), t]))
    ensures Run(Sequence([Leaf(Label(id)), t]), classes, s, st) == Run(t, classes, s, st)
  {
    var l := Leaf(Label(id));
    assert Plain(l);
    assert Run(l, classes, s, st) == Once(st);
    hide Run, Plain;
    SequenceRuns([l, t], classes, s, st);
    assert [l, t][1..] == [t] && [t][1..] == [];
    RunEachOnce([t], classes, s, st);
    RunEachNone(classes, s, Run(t, classes, s, st));
  }

  lemma {:induction false} RunEachNone(classes: seq<CharClass>, s: seq<byte>, o: Outcome)
    ensures RunEach([], classes, s, o) == o
    decreases |o.states|
  {
    if o.states != [] {
      RunEachNone(classes, s, Outcome(o.states[1..], o.fin));
    }
  }

  // ----- Whole patterns -----

  /** A generated tree's outcomes, under any later version of the class table, are the pattern's. */
  lemma {:induction false} TreeMeans(a: Ast, base: nat, tb: Tables, classes: seq<CharClass>, s: seq<byte>, st: State)
    requires Matchable(a) && Canonical(tb.classes) && Gen(a, base, tb).Some?
    requires Gen(a, base, tb).value.tables.classes <= classes && |classes| < U16
    ensures var g := Gen(a, base, tb).value;
      Plain(g.tree) && Run(g.tree, classes, s, st) == Meaning(a, s, st)
    decreases a, 1
  {
    hide Gen, GenAll, Canonical, Weight, DefineLabel, CloseAll;
    GenNested(a, base, tb);
    match a
    case Concat(ps) => PartsMean(ps, base, tb, classes, s, st);
    case Alt(l, r) =>
      GenAlt(l, r, base, tb);
      var gl := Gen(l, base + 9, tb).value;
      GenIsSound(l, base + 9, tb);
      GenIsSound(r, base + 14 + Weight(gl.tree), gl.tables);
      TreeMeans(l, base + 9, tb, classes, s, st);
      TreeMeans(r, base + 14 + Weight(gl.tree), gl.tables, classes, s, st);
    case ClassNode(op, set_) => ClassNodeMeans(op, set_, base, tb, classes, s, st);
    case Cap(reg, sub) =>
      TreeMeans(sub, base + 2, tb, classes, s, SetCapStart(st, Low8(reg)));
      CapturedRuns(reg, Gen(sub, base + 2, tb).value.tree, classes, s, st);
    case DynamicEval(e) => TreeMeans(e, base, tb, classes, s, st);
    case LabelNode(name, target) =>
      GenLabel(name, target, base, tb);
      var tb' := tb.(labels := DefineLabel(tb.labels, name, base + 3).value);
      TreeMeans(target, base + 3, tb', classes, s, st);
      LabelledRuns(FindLabel(tb.labels, name), Gen(target, base + 3, tb').value.tree, classes, s, st);
    case _ => NodeMeans(a, base, tb, classes, s, st);
  }

  lemma ClassNodeMeans(op: ClassOp, set_: seq<byte>, base: nat, tb: Tables, classes: seq<CharClass>,
                       s: seq<byte>, st: State)
    requires Gen(ClassNode(op, set_), base, tb).value.tables.classes <= classes && |classes| < U16
    ensures var g := Gen(ClassNode(op, set_), base, tb).value;
      Plain(g.tree) && Run(g.tree, classes, s, st) == Meaning(ClassNode(op, set_), s, st)
  {
    hide ClassOf, Run, Meaning;
    if op.Any? && set_ == [] {
      AnyOfNothing(classes, s, st);
    } else {
      var (entries, id) := Register(tb.classes, ClassOf(set_));
      assert classes[id - 1] == entries[id - 1];
      hide Register;
      ClassMeans(op, set_, classes, id, s, st);
    }
  }

  lemma NodeMeans(a: Ast, base: nat, tb: Tables, classes: seq<CharClass>, s: seq<byte>, st: State)
    requires Childless(a) && Matchable(a) && !a.ClassNode? && Gen(a, base, tb).Some?
    ensures var g := Gen(a, base, tb).value;
      Plain(g.tree) && Run(g.tree, classes, s, st) == Meaning(a, s, st)
  {
    hide Gen, Run, Meaning, Plain, SimpleTree;
    if a.Literal? {
      GenText(a.text, base, tb);
      TextMeans(a.text, classes, s, st);
    } else {
      GenSimple(a, base, tb);
      SimpleMeans(a, classes, s, st);
    }
  }

  lemma TextMeans(text: seq<byte>, classes: seq<CharClass>, s: seq<byte>, st: State)
    ensures Plain(TextLeaf(text)) && Run(TextLeaf(text), classes, s, st) == Meaning(Literal(text), s, st)
  {
  }

  lemma SimpleMeans(a: Ast, classes: seq<CharClass>, s: seq<byte>, st: State)
    requires Matchable(a) && SimpleTree(a).Some?
    ensures Plain(SimpleTree(a).value) && Run(SimpleTree(a).value, classes, s, st) == Meaning(a, s, st)
  {
    hide SetVar, CountStep;
  }

  lemma {:induction false} PartsMean(ps: seq<Ast>, base: nat, tb: Tables, classes: seq<CharClass>, s: seq<byte>,
                                     st: State)
    requires (forall k :: 0 <= k < |ps| ==> Matchable(ps[k])) && Canonical(tb.classes)
    requires GenAll(ps, base, tb).Some?
    requires GenAll(ps, base, tb).value.tables.classes <= classes && |classes| < U16
    ensures var ts := GenAll(ps, base, tb).value.trees;
      (forall k :: 0 <= k < |ts| ==> Plain(ts[k])) && RunAll(ts, classes, s, st) == MeaningAll(ps, s, st)
    decreases ps, 0
  {
    hide Canonical, Gen, Matchable, Plain, Run, Meaning, Weight;
    if ps != [] {
      var g := Gen(ps[0], base, tb).value;
      var mid := base + Weight(g.tree);
      var rest := GenAll(ps[1..], mid, g.tables).value;
      GenIsSound(ps[0], base, tb);
      SoundCanonical(g, tb);
      GenAllIsSound(ps[1..], mid, g.tables);
      TreeMeans(ps[0], base, tb, classes, s, st);
      PartsMeanEach(ps[1..], mid, g.tables, classes, s, Meaning(ps[0], s, st));
      var ts := [g.tree] + rest.trees;
      assert ts[1..] == rest.trees;
    }
  }

  lemma {:induction false} PartsMeanEach(ps: seq<Ast>, base: nat, tb: Tables, classes: seq<CharClass>, s: seq<byte>,
                                         o: Outcome)
    requires (forall k :: 0 <= k < |ps| ==> Matchable(ps[k])) && Canonical(tb.classes)
    requires GenAll(ps, base, tb).Some?
    requires GenAll(ps, base, tb).value.tables.classes <= classes && |classes| < U16
    ensures var ts := GenAll(ps, base, tb).value.trees;
      (forall k :: 0 <= k < |ts| ==> Plain(ts[k])) && RunEach(ts, classes, s, o) == MeaningEach(ps, s, o)
    decreases ps, 1, |o.states|
  {
    hide Canonical, Matchable, Plain, RunAll, MeaningAll, GenAll;
    PartsMean(ps, base, tb, classes, s, if o.states == [] then Fresh(0) else o.states[0]);
    if o.states != [] {
      PartsMeanEach(ps, base, tb, classes, s, Outcome(o.states[1..], o.fin));
    }
  }
}
