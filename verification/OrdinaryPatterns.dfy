/** Patterns whose compiled code the fusion pass can only improve: a condition on the syntax tree. */
module OrdinaryPatterns {
  import opened Wrappers
  import opened Bytes
  import opened CharClasses
  import opened Bytecode
  import opened CodeTree
  import opened Pattern
  import opened Translate
  import opened GenShape
  import opened FusionStarts
  import opened FusionSafety

  /** No NUL in literal text, single-byte literals ASCII, no ANY of nothing, small numbers. */
  predicate Ordinary(a: Ast) {
    match a
    case Literal(text) => 0 !in text && (|text| == 1 ==> text[0] < 0x80)
    case Concat(ps) => forall k :: 0 <= k < |ps| ==> Ordinary(ps[k])
    case Alt(l, r) => Ordinary(l) && Ordinary(r)
    case ClassNode(op, set_) => !(op.Any? && set_ == [])
    case Cap(_, sub) => Ordinary(sub)
    case AssignNode(v, _) => 0 <= v < 0x300
    case CountNode(_, n) => 0 <= n < MAX_SHORT
    case DynamicEval(e) => Ordinary(e)
    case AnchorNode(_) => true
    case LabelNode(_, target) => Ordinary(target)
    case Control(_) => true
    case _ => false
  }

  lemma {:induction false} OrdinaryIsMatchable(a: Ast)
    requires Ordinary(a)
    ensures Matchable(a)
  {
    match a
    case Concat(ps) =>
      forall k | 0 <= k < |ps| ensures Matchable(ps[k]) { OrdinaryIsMatchable(ps[k]); }
    case Alt(l, r) =>
      OrdinaryIsMatchable(l);
      OrdinaryIsMatchable(r);
    case Cap(_, sub) => OrdinaryIsMatchable(sub);
    case DynamicEval(e) => OrdinaryIsMatchable(e);
    case LabelNode(_, target) => OrdinaryIsMatchable(target);
    case _ =>
  }

  /** A generated tree that is safe to fuse and keeps the scan to its SPLIT instructions. */
  predicate Fusible(t: Tree, n: nat) { MildTree(t) && Tame(t, n) }

  predicate AllFusible(ts: seq<Tree>, n: nat) { forall k :: 0 <= k < |ts| ==> Fusible(ts[k], n) }

  lemma FusibleInMore(t: Tree, n: nat, m: nat)
    requires Fusible(t, n) && n <= m
    ensures Fusible(t, m)
  {
    TameInMore(t, n, m);
  }

  lemma RowFusible(ts: seq<Tree>, n: nat)
    requires AllFusible(ts, n)
    ensures Fusible(Sequence(ts), n)
  {
  }

  lemma LeafFusible(i: Instr, n: nat)
    requires Mild(i) && Floating(i) && !i.Class?
    ensures Fusible(Leaf(i), n)
  {
  }

  lemma EitherFusible(l: Tree, r: Tree, n: nat)
    requires Fusible(l, n) && Fusible(r, n)
    ensures Fusible(Either(l, r), n)
  {
  }

  lemma {:induction false} GenIsFusible(a: Ast, base: nat, tb: Tables)
    requires Ordinary(a) && Canonical(tb.classes) && Gen(a, base, tb).Some?
    requires |Gen(a, base, tb).value.tables.classes| < U16
    ensures var g := Gen(a, base, tb).value; Fusible(g.tree, |g.tables.classes|)
    decreases a, 1
  {
    hide Canonical, Weight, Register, FindLabel, WithLabel, DefineLabel, Fusible, Sound;
    var g := Gen(a, base, tb).value;
    var n := |g.tables.classes|;
    match a
    case Concat(ps) =>
      GenAllIsFusible(ps, base, tb);
      RowFusible(GenAll(ps, base, tb).value.trees, n);
    case Alt(l, r) =>
      var gl := Gen(l, base + 9, tb).value;
      GrowsBy(l, base + 9, tb);
      GrowsBy(r, base + 14 + Weight(gl.tree), gl.tables);
      GenIsFusible(l, base + 9, tb);
      GenIsFusible(r, base + 14 + Weight(gl.tree), gl.tables);
      FusibleInMore(gl.tree, |gl.tables.classes|, n);
      EitherFusible(gl.tree, Gen(r, base + 14 + Weight(gl.tree), gl.tables).value.tree, n);
    case Cap(reg, sub) =>
      var t := Gen(sub, base + 2, tb).value.tree;
      GenIsFusible(sub, base + 2, tb);
      LeafFusible(CapStart(reg), n);
      LeafFusible(CapEnd(reg), n);
      RowFusible([Leaf(CapStart(reg)), t, Leaf(CapEnd(reg))], n);
    case DynamicEval(e) => GenIsFusible(e, base, tb);
    case LabelNode(name, target) =>
      var tb' := tb.(labels := DefineLabel(tb.labels, name, base + 3).value);
      GenIsFusible(target, base + 3, tb');
      LeafFusible(Label(FindLabel(tb.labels, name)), n);
      RowFusible([Leaf(Label(FindLabel(tb.labels, name))), Gen(target, base + 3, tb').value.tree], n);
    case _ => NodeFusible(a, base, tb);
  }

  lemma GrowsBy(a: Ast, base: nat, tb: Tables)
    requires Canonical(tb.classes) && Gen(a, base, tb).Some?
    ensures var g := Gen(a, base, tb).value;
      tb.classes <= g.tables.classes && Canonical(g.tables.classes)
  {
    hide Canonical, Gen;
    GenIsSound(a, base, tb);
  }

  lemma NodeFusible(a: Ast, base: nat, tb: Tables)
    requires Childless(a) && Ordinary(a) && Gen(a, base, tb).Some?
    requires |Gen(a, base, tb).value.tables.classes| < U16
    ensures var g := Gen(a, base, tb).value; Fusible(g.tree, |g.tables.classes|)
  {
    hide FindLabel, WithLabel, ClassOf, Register;
  }

  lemma {:induction false} GenAllIsFusible(ps: seq<Ast>, base: nat, tb: Tables)
    requires (forall k :: 0 <= k < |ps| ==> Ordinary(ps[k])) && Canonical(tb.classes)
    requires GenAll(ps, base, tb).Some? && |GenAll(ps, base, tb).value.tables.classes| < U16
    ensures var g := GenAll(ps, base, tb).value; AllFusible(g.trees, |g.tables.classes|)
    decreases ps, 0
  {
    hide Canonical, Gen, Ordinary, Fusible;
    if ps != [] {
      var g := Gen(ps[0], base, tb).value;
      var mid := base + Weight(g.tree);
      var all, rest := GenAll(ps, base, tb).value, GenAll(ps[1..], mid, g.tables).value;
      GrowsBy(ps[0], base, tb);
      GenAllIsSound(ps[1..], mid, g.tables);
      GenIsFusible(ps[0], base, tb);
      GenAllIsFusible(ps[1..], mid, g.tables);
      FusibleInMore(g.tree, |g.tables.classes|, |all.tables.classes|);
      assert all.trees == [g.tree] + rest.trees;
    }
  }
}
