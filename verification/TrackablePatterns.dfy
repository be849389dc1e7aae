/** Patterns whose compiled code the start-byte analysis can follow: a condition on the syntax tree. */
module TrackablePatterns {
  import opened Wrappers
  import opened Bytes
  import opened CharClasses
  import opened Bytecode
  import opened Semantics
  import opened CodeTree
  import opened Pattern
  import opened Translate
  import opened FusionPass
  import opened FusedLayout
  import opened FusedScan
  import opened FusionMeaning
  import opened FusionPreserves
  import opened FusionStarts
  import opened GenShape
  import opened Trailer
  import opened Compiler
  import opened EndToEnd
  import opened Walker
  import opened CompiledFlow

  /** No tabulation, and only ASCII characters in set strings. */
  predicate Trackable(a: Ast) {
    match a
    case Concat(ps) => forall k :: 0 <= k < |ps| ==> Trackable(ps[k])
    case Alt(l, r) => Trackable(l) && Trackable(r)
    case ClassNode(_, set_) => IsAscii(ParseSet(set_, 0))
    case Cap(_, sub) => Trackable(sub)
    case CountNode(op, _) => !op.Tab? && !op.RTab?
    case DynamicEval(e) => Trackable(e)
    case LabelNode(_, target) => Trackable(target)
    case _ => true
  }

  predicate NoTabs(t: Tree) {
    match t
    case Leaf(i) => i.Count? ==> !i.nop.Tab? && !i.nop.RTab?
    case Sequence(ps) => forall k :: 0 <= k < |ps| ==> NoTabs(ps[k])
    case Either(l, r) => NoTabs(l) && NoTabs(r)
    case Loop(_, _, _, b) => NoTabs(b)
    case _ => true
  }

  predicate AllNoTabs(ts: seq<Tree>) { forall k :: 0 <= k < |ts| ==> NoTabs(ts[k]) }

  // ----- Generation -----

  lemma RegisterKeepsAscii(entries: seq<CharClass>, c: CharClass)
    requires AsciiClasses(entries) && IsAscii(c.ranges)
    ensures AsciiClasses(Register(entries, c).0)
  {
    hide IsAscii;
  }

  lemma AsciiText(set_: seq<byte>)
    requires IsAscii(ParseSet(set_, 0))
    ensures IsAscii(ClassOf(set_).ranges)
  {
    hide ParseSet;
    AsciiByMembers(ParseSet(set_, 0));
    AsciiByMembers(ClassOf(set_).ranges);
  }

  lemma {:induction false} GenIsTrackable(a: Ast, base: nat, tb: Tables)
    requires Matchable(a) && Trackable(a) && AsciiClasses(tb.classes) && Gen(a, base, tb).Some?
    ensures var g := Gen(a, base, tb).value; NoTabs(g.tree) && AsciiClasses(g.tables.classes)
    decreases a, 1
  {
    hide AsciiClasses, Weight, Register, FindLabel, WithLabel, DefineLabel, ClassOf, ParseSet, IsAscii;
    match a
    case Concat(ps) => GenAllIsTrackable(ps, base, tb);
    case Alt(l, r) =>
      var gl := Gen(l, base + 9, tb).value;
      GenIsTrackable(l, base + 9, tb);
      GenIsTrackable(r, base + 14 + Weight(gl.tree), gl.tables);
    case Cap(reg, sub) =>
      GenIsTrackable(sub, base + 2, tb);
      CapturedNoTabs(reg, Gen(sub, base + 2, tb).value.tree);
    case DynamicEval(e) => GenIsTrackable(e, base, tb);
    case LabelNode(name, target) =>
      GenIsTrackable(target, base + 3, tb.(labels := DefineLabel(tb.labels, name, base + 3).value));
    case ClassNode(_, set_) =>
      AsciiText(set_);
      RegisterKeepsAscii(tb.classes, ClassOf(set_));
    case _ =>
  }

  lemma CapturedNoTabs(reg: int, t: Tree)
    requires NoTabs(t)
    ensures NoTabs(Captured(reg, t))
  {
  }

  lemma {:induction false} GenAllIsTrackable(ps: seq<Ast>, base: nat, tb: Tables)
    requires (forall k :: 0 <= k < |ps| ==> Matchable(ps[k]) && Trackable(ps[k])) && AsciiClasses(tb.classes)
    requires GenAll(ps, base, tb).Some?
    ensures var g := GenAll(ps, base, tb).value; AllNoTabs(g.trees) && AsciiClasses(g.tables.classes)
    decreases ps, 0
  {
    hide AsciiClasses, Gen, Matchable, Trackable, NoTabs, Weight;
    if ps != [] {
      var g := Gen(ps[0], base, tb).value;
      GenIsTrackable(ps[0], base, tb);
      GenAllIsTrackable(ps[1..], base + Weight(g.tree), g.tables);
    }
  }

  // ----- Fusion -----

  lemma AsciiArm(entries: seq<CharClass>, arm: Arm)
    requires AsciiClasses(entries) && AsciiLiteral(arm)
    ensures IsAscii(ArmClass(entries, arm).ranges)
  {
  }

  lemma PairIsAscii(l: Tree, r: Tree, entries: seq<CharClass>, s: seq<byte>)
    requires Canonical(entries) && AsciiClasses(entries) && NoTabs(l) && NoTabs(r)
    requires AsArm(l).Some? && AsArm(r).Some? ==> SafeOn(entries, AsArm(l).value, AsArm(r).value, s)
    ensures var f := FusePair(l, r, entries); NoTabs(f.tree) && AsciiClasses(f.entries)
  {
    hide Canonical, PairClass, ArmClass, IsAscii, AsciiClasses, AsArm, Weight, Register, NoOverlong;
    var x, y := AsArm(l), AsArm(r);
    if x.Some? && y.Some? {
      AsciiArm(entries, x.value);
      AsciiArm(entries, y.value);
      UnionAscii(entries, x.value, y.value);
      RegisterKeepsAscii(entries, PairClass(entries, x.value, y.value));
    }
  }

  /** Pairs that are safe on some subject have ASCII literals, so their union is ASCII. */
  lemma {:induction false} FuseKeepsTrackable(t: Tree, entries: seq<CharClass>, s: seq<byte>)
    requires Canonical(entries) && SafeTree(t, entries, s) && NoTabs(t) && AsciiClasses(entries)
    ensures var f := FuseTree(t, entries); NoTabs(f.tree) && AsciiClasses(f.entries)
    decreases t, 0
  {
    hide Canonical, Weight, AsArm, FusePair, AsciiClasses, SafeOn;
    match t
    case Sequence(ps) => FuseAllKeepsTrackable(ps, entries, s);
    case Either(l, r) =>
      var fr := FuseTree(r, entries);
      FuseKeepsTrackable(r, entries, s);
      var fl := FuseTree(l, fr.entries);
      FuseKeepsTrackable(l, fr.entries, s);
      PairIsAscii(fl.tree, fr.tree, fl.entries, s);
    case Loop(_, _, _, b) => FuseKeepsTrackable(b, entries, s);
    case _ =>
  }

  lemma {:induction false} FuseAllKeepsTrackable(ps: seq<Tree>, entries: seq<CharClass>, s: seq<byte>)
    requires Canonical(entries) && SafeTrees(ps, entries, s) && AllNoTabs(ps) && AsciiClasses(entries)
    ensures var f := FuseTrees(ps, entries); AllNoTabs(f.trees) && AsciiClasses(f.entries)
    decreases ps, 0
  {
    hide Canonical, SafeTree, FuseTree, NoTabs, AsciiClasses;
    if ps != [] {
      var rest := FuseTrees(ps[1..], entries);
      FuseAllKeepsTrackable(ps[1..], entries, s);
      FuseKeepsTrackable(ps[0], rest.entries, s);
      assert FuseTrees(ps, entries).trees == [FuseTree(ps[0], rest.entries).tree] + rest.trees;
    }
  }

  // ----- Layout -----

  lemma TabFreeConcat(a: seq<Instr>, b: seq<Instr>)
    requires TabFree(a) && TabFree(b)
    ensures TabFree(a + b)
  {
  }

  lemma {:induction false} LayIsTabFree(t: Tree, base: nat)
    requires NoTabs(t)
    ensures TabFree(Lay(t, base))
    decreases t, 0
  {
    hide Weight;
    match t
    case Sequence(ps) => LayAllIsTabFree(ps, base);
    case Either(l, r) =>
      var right := base + 14 + Weight(l);
      var s, j := Split(base + 9, right), Jmp(right + Weight(r));
      var ll, lr := Lay(l, base + 9), Lay(r, right);
      LayIsTabFree(l, base + 9);
      LayIsTabFree(r, right);
      TabFreeConcat([s], ll);
      TabFreeConcat([s] + ll, [j]);
      TabFreeConcat([s] + ll + [j], lr);
    case Loop(id, min, max, b) =>
      var i, s := RepeatInit(id, min, max, base + 20 + Weight(b)), RepeatStep(id, base + 14);
      LayIsTabFree(b, base + 14);
      TabFreeConcat([i], Lay(b, base + 14));
      TabFreeConcat([i] + Lay(b, base + 14), [s]);
    case Fused(id, pad) => TabFreeConcat([Class(Any, id)], Nops(pad));
    case _ =>
  }

  lemma {:induction false} LayAllIsTabFree(ps: seq<Tree>, base: nat)
    requires AllNoTabs(ps)
    ensures TabFree(LayAll(ps, base))
    decreases ps, 0
  {
    hide NoTabs, Lay, TabFree, Weight;
    if ps == [] {
      assert TabFree([]) by { NoInstrIsTabFree(); }
    } else {
      LayIsTabFree(ps[0], base);
      LayAllIsTabFree(ps[1..], base + Weight(ps[0]));
      TabFreeConcat(Lay(ps[0], base), LayAll(ps[1..], base + Weight(ps[0])));
    }
  }

  lemma NoInstrIsTabFree()
    ensures TabFree([])
  {
  }

  /** The compiled body of such a pattern has no tabulation, and its class table is ASCII. */
  lemma TrackableCompiles(a: Ast, s: seq<byte>)
    requires Matchable(a) && Trackable(a) && Compiled(a).Some? && |Compiled(a).value| < U32 && FusesCleanly(a, s)
    ensures TabFree(BodyProgram(FusedTreeOf(a))) && AsciiClasses(LoadClasses(Compiled(a).value))
  {
    hide Canonical, OnlyAt, Gen, Scan, FuseTree, Unfused, IdsKnown, ImageOf, FewRanges, AllBounded, LoadClasses, BodyOf,
         Matchable, Trackable, SafeTree, TabFree, AsciiClasses, NoTabs, Lay;
    var g := Gen(a, 0, NO_TABLES).value;
    GenFromNothing(a);
    ImageHolds(g, Compiled(a).value);
    assert AsciiClasses(NO_TABLES.classes) by { NoClassesAreAscii(); }
    GenIsTrackable(a, 0, NO_TABLES);
    FuseKeepsTrackable(g.tree, g.tables.classes, s);
    LayIsTabFree(FusedTreeOf(a), 0);
    TabFreeConcat(Lay(FusedTreeOf(a), 0), [Bare(BareOp.Accept)]);
  }

  lemma NoClassesAreAscii()
    ensures AsciiClasses(NO_TABLES.classes)
  {
  }
}
