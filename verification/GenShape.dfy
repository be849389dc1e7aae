/** Facts about everything the compiler generates: its shape, the ids it uses, and how its
    class table grows. */
module GenShape {
  import opened Wrappers
  import opened Bytes
  import opened Ranges
  import opened CharClasses
  import opened Bytecode
  import opened CodeTree
  import opened Pattern
  import opened Translate
  import opened FusedScan
  import opened FusionPreserves

  /** The class table before is a prefix of the one after, still canonical, and every class id
      in the tree has its entry. */
  ghost predicate Sound(t: Tree, before: Tables, after: Tables) {
    && Unfused(t)
    && before.classes <= after.classes
    && IdsKnown(t, |after.classes|)
    && Canonical(after.classes)
    && (AllBounded(before.classes) ==> AllBounded(after.classes))
  }

  ghost predicate SoundAll(ts: seq<Tree>, before: Tables, after: Tables) {
    && before.classes <= after.classes
    && Canonical(after.classes)
    && (AllBounded(before.classes) ==> AllBounded(after.classes))
    && forall k :: 0 <= k < |ts| ==> Unfused(ts[k]) && IdsKnown(ts[k], |after.classes|)
  }

  lemma {:induction false} GenIsSound(a: Ast, base: nat, tb: Tables)
    requires Canonical(tb.classes) && Gen(a, base, tb).Some?
    ensures var g := Gen(a, base, tb).value; Sound(g.tree, tb, g.tables)
    decreases a, 1
  {
    hide AllBounded, Canonical, Weight, Register, FindLabel, WithLabel, DefineLabel, Sound;
    var g := Gen(a, base, tb).value;
    match a
    case Concat(ps) =>
      GenAllIsSound(ps, base, tb);
      RowSound(GenAll(ps, base, tb).value.trees, tb, g.tables);
    case Alt(l, r) =>
      var gl := Gen(l, base + 9, tb).value;
      GenIsSound(l, base + 9, tb);
      SoundCanonical(gl, tb);
      var gr := Gen(r, base + 14 + Weight(gl.tree), gl.tables).value;
      GenIsSound(r, base + 14 + Weight(gl.tree), gl.tables);
      EitherSound(gl, gr, tb);
    case Repetition(sub, min, max) =>
      var tb' := tb.(loops := tb.loops + 1);
      if min == 0 && max == UNBOUNDED {
        GenLoopIsSound(Unrepeat(sub), base, tb');
      } else {
        GenIsSound(sub, base + 14, tb');
        LoopSound(tb.loops, min, max, Gen(sub, base + 14, tb').value, tb');
      }
      OnlyClassesMatter(g, tb', tb);
    case Arbno(sub) => GenLoopIsSound(sub, base, tb);
    case Cap(reg, sub) =>
      GenIsSound(sub, base + 2, tb);
      CapturedSound(reg, Gen(sub, base + 2, tb).value.tree, tb, g.tables);
    case DynamicEval(e) => GenIsSound(e, base, tb);
    case LabelNode(name, target) =>
      var tb' := tb.(labels := DefineLabel(tb.labels, name, base + 3).value);
      GenIsSound(target, base + 3, tb');
      LabelledSound(FindLabel(tb.labels, name), Gen(target, base + 3, tb').value.tree, tb', g.tables);
      OnlyClassesMatter(g, tb', tb);
    case TableAccess(table, key) =>
      GenKeyIsSound(key, base, tb);
      AccessSound(GenKey(key, base, tb).value, KeyRegister(key), table, tb);
    case TableUpdate(table, key, value) =>
      var k := GenKey(key, base, tb).value;
      GenKeyIsSound(key, base, tb);
      SoundCanonical(k, tb);
      GenIsSound(value, base + Weight(k.tree) + 2, k.tables);
      UpdateSound(k, Gen(value, base + Weight(k.tree) + 2, k.tables).value, KeyRegister(key), table, tb);
    case _ => NodeSound(a, base, tb);
  }

  lemma NodeSound(a: Ast, base: nat, tb: Tables)
    requires Childless(a) && Canonical(tb.classes) && Gen(a, base, tb).Some?
    ensures var g := Gen(a, base, tb).value; Sound(g.tree, tb, g.tables)
  {
    hide AllBounded, Bounded, Canonical, Register, FindLabel, WithLabel, ClassOf;
    if a.ClassNode? && !(a.cop.Any? && a.set_ == []) {
      RegisterKeepsCanonical(tb.classes, ClassOf(a.set_));
      ClassOfBounded(a.set_);
      if AllBounded(tb.classes) { RegisterKeepsBounded(tb.classes, ClassOf(a.set_)); }
    }
  }

  lemma SoundCanonical(g: Generated, before: Tables)
    requires Sound(g.tree, before, g.tables)
    ensures Canonical(g.tables.classes)
  {
  }

  lemma OnlyClassesMatter(g: Generated, before: Tables, before': Tables)
    requires Sound(g.tree, before, g.tables) && before.classes == before'.classes
    ensures Sound(g.tree, before', g.tables)
  {
    hide AllBounded, Canonical;
  }

  lemma EitherSound(l: Generated, r: Generated, before: Tables)
    requires Sound(l.tree, before, l.tables) && Sound(r.tree, l.tables, r.tables)
    ensures Sound(Either(l.tree, r.tree), before, r.tables)
  {
    hide AllBounded, Canonical;
    KnownInMore(l.tree, |l.tables.classes|, |r.tables.classes|);
  }

  lemma LoopSound(id: nat, min: int, max: int, b: Generated, before: Tables)
    requires Sound(b.tree, before, b.tables)
    ensures Sound(Loop(id, min, max, b.tree), before, b.tables)
  {
    hide AllBounded, Canonical;
  }

  lemma RowSound(ts: seq<Tree>, before: Tables, after: Tables)
    requires SoundAll(ts, before, after)
    ensures Sound(Sequence(ts), before, after)
  {
    hide AllBounded, Canonical;
  }

  lemma CapturedSound(reg: int, t: Tree, before: Tables, after: Tables)
    requires Sound(t, before, after)
    ensures Sound(Captured(reg, t), before, after)
  {
    hide AllBounded, Canonical;
    var n := |after.classes|;
    assert Unfused(Leaf(CapStart(reg))) && IdsKnown(Leaf(CapStart(reg)), n);
    assert Unfused(Leaf(CapEnd(reg))) && IdsKnown(Leaf(CapEnd(reg)), n);
  }

  lemma AccessSound(k: Generated, reg: int, table: seq<byte>, before: Tables)
    requires Sound(k.tree, before, k.tables)
    ensures Sound(Sequence([k.tree, Leaf(TableGet(UNBOUND, reg, 0, table))]), before, k.tables)
  {
    hide AllBounded, Canonical;
    var i := TableGet(UNBOUND, reg, 0, table);
    assert Unfused(Leaf(i)) && IdsKnown(Leaf(i), |k.tables.classes|);
  }

  lemma UpdateSound(k: Generated, v: Generated, reg: int, table: seq<byte>, before: Tables)
    requires Sound(k.tree, before, k.tables) && Sound(v.tree, k.tables, v.tables)
    ensures Sound(Sequence([k.tree, Captured(1, v.tree), Leaf(TableSet(UNBOUND, reg, 1, table))]), before, v.tables)
  {
    hide AllBounded, Canonical;
    var i := TableSet(UNBOUND, reg, 1, table);
    KnownInMore(k.tree, |k.tables.classes|, |v.tables.classes|);
    CapturedSound(1, v.tree, k.tables, v.tables);
    hide Unfused, IdsKnown;
    assert Unfused(Leaf(i)) && IdsKnown(Leaf(i), |v.tables.classes|) by { LeafSound(i, |v.tables.classes|); }
    RowOf(k.tree, Captured(1, v.tree), Leaf(i), |v.tables.classes|);
  }

  lemma LeafSound(i: Instr, n: nat)
    requires Floating(i) && i != Bare(Nop) && !i.Class?
    ensures Unfused(Leaf(i)) && IdsKnown(Leaf(i), n)
  {
  }

  lemma RowOf(a: Tree, b: Tree, c: Tree, n: nat)
    requires Unfused(a) && Unfused(b) && Unfused(c) && IdsKnown(a, n) && IdsKnown(b, n) && IdsKnown(c, n)
    ensures Unfused(Sequence([a, b, c])) && IdsKnown(Sequence([a, b, c]), n)
  {
  }

  lemma LabelledSound(id: int, t: Tree, before: Tables, after: Tables)
    requires Sound(t, before, after)
    ensures Sound(Sequence([Leaf(Label(id)), t]), before, after)
  {
    hide AllBounded, Canonical;
    assert Unfused(Leaf(Label(id))) && IdsKnown(Leaf(Label(id)), |after.classes|);
  }

  lemma {:induction false} GenKeyIsSound(key: Ast, base: nat, tb: Tables)
    requires Canonical(tb.classes) && GenKey(key, base, tb).Some?
    ensures var g := GenKey(key, base, tb).value; Sound(g.tree, tb, g.tables)
    decreases key, 2
  {
    hide AllBounded, Canonical, Gen;
    if !key.RegRef? {
      GenIsSound(key, base + 2, tb);
      var g := Gen(key, base + 2, tb).value;
      CapturedSound(0, g.tree, tb, g.tables);
    }
  }

  lemma {:induction false} GenLoopIsSound(sub: Ast, base: nat, tb: Tables)
    requires Canonical(tb.classes) && GenLoop(sub, base, tb).Some?
    ensures var g := GenLoop(sub, base, tb).value; Sound(g.tree, tb, g.tables)
    decreases sub, 2
  {
    hide AllBounded, Canonical, Gen;
    GenIsSound(Unrepeat(Unarbno(sub)), base + 14, tb.(loops := tb.loops + 1));
  }

  lemma {:induction false} GenAllIsSound(ps: seq<Ast>, base: nat, tb: Tables)
    requires Canonical(tb.classes) && GenAll(ps, base, tb).Some?
    ensures var g := GenAll(ps, base, tb).value; SoundAll(g.trees, tb, g.tables)
    decreases ps, 0
  {
    hide AllBounded, Canonical, Gen, Unfused, IdsKnown;
    if ps != [] {
      var g := Gen(ps[0], base, tb).value;
      GenIsSound(ps[0], base, tb);
      GenAllIsSound(ps[1..], base + Weight(g.tree), g.tables);
      var all := GenAll(ps, base, tb).value;
      KnownInMore(g.tree, |g.tables.classes|, |all.tables.classes|);
    }
  }
}
