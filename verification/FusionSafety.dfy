/** Trees whose fusions are all safe: every class operand resolved and every one-byte literal
    ASCII, on a subject without overlong spellings. */
module FusionSafety {
  import opened Wrappers
  import opened Bytes
  import opened Ranges
  import opened CharClasses
  import opened Bytecode
  import opened CodeTree
  import opened FusionPass
  import opened FusedLayout
  import opened FusionMeaning
  import opened FusionPreserves

  predicate Tame(t: Tree, n: nat) {
    match t
    case Leaf(i) => i.Class? && i.cop.Any? ==> 1 <= Low16(i.classId) <= n
    case TextLeaf(text) => |text| == 1 ==> text[0] < 0x80
    case Sequence(ps) => forall k :: 0 <= k < |ps| ==> Tame(ps[k], n)
    case Either(l, r) => Tame(l, n) && Tame(r, n)
    case Loop(_, _, _, b) => Tame(b, n)
    case Fused(id, _) => 1 <= Low16(id) <= n
    case EmitLeaf(_) => true
  }

  predicate AllTame(ps: seq<Tree>, n: nat) { forall k :: 0 <= k < |ps| ==> Tame(ps[k], n) }

  predicate TameArm(arm: Arm, n: nat) {
    match arm
    case LitArm(cp) => cp < 0x80
    case AnyArm(id) => 1 <= id <= n
  }

  lemma {:induction false} TameLead(t: Tree, n: nat)
    requires Tame(t, n)
    ensures match LeadOf(t) case Single(arm, _) => TameArm(arm, n) case _ => true
    decreases t, 0
  {
    hide Weight;
    match t
    case Sequence(ps) => TameLeadAll(ps, n);
    case _ =>
  }

  lemma {:induction false} TameLeadAll(ps: seq<Tree>, n: nat)
    requires AllTame(ps, n)
    ensures match LeadOfAll(ps) case Single(arm, _) => TameArm(arm, n) case _ => true
    decreases ps, 0
  {
    hide Weight, LeadOf, Tame;
    if ps != [] {
      TameLead(ps[0], n);
      TameLeadAll(ps[1..], n);
    }
  }

  lemma {:induction false} TameInMore(t: Tree, n: nat, m: nat)
    requires Tame(t, n) && n <= m
    ensures Tame(t, m)
  {
    match t
    case Sequence(ps) =>
      forall k | 0 <= k < |ps| ensures Tame(ps[k], m) { TameInMore(ps[k], n, m); }
    case Either(l, r) =>
      TameInMore(l, n, m);
      TameInMore(r, n, m);
    case Loop(_, _, _, b) => TameInMore(b, n, m);
    case _ =>
  }

  lemma PairTame(l: Tree, r: Tree, entries: seq<CharClass>)
    requires Canonical(entries) && Tame(l, |entries|) && Tame(r, |entries|)
    ensures var f := FusePair(l, r, entries); Tame(f.tree, |f.entries|)
  {
    hide Canonical, FusePair, Weight;
    var f := FusePair(l, r, entries);
    PairShape(l, r, entries);
    TameInMore(l, |entries|, |f.entries|);
    TameInMore(r, |entries|, |f.entries|);
  }

  /** A pair stays an alternation or becomes one operation over a class of the table. */
  lemma PairShape(l: Tree, r: Tree, entries: seq<CharClass>)
    requires Canonical(entries)
    ensures var f := FusePair(l, r, entries);
      && |entries| <= |f.entries|
      && (f.tree == Either(l, r) || (f.tree.Fused? && 1 <= f.tree.classId <= |f.entries| && f.tree.classId <= 0xFFFF))
  {
    hide Canonical, PairClass, AsArm, Weight, Register;
  }

  lemma {:induction false} FuseKeepsTame(t: Tree, entries: seq<CharClass>)
    requires Canonical(entries) && Tame(t, |entries|)
    ensures var f := FuseTree(t, entries); Tame(f.tree, |f.entries|)
    decreases t, 0
  {
    hide Canonical, PairClass, Weight, LeadOf, FusePair;
    match t
    case Sequence(ps) => FuseAllKeepsTame(ps, entries);
    case Either(l, r) =>
      var fr := FuseTree(r, entries);
      FuseKeepsTame(r, entries);
      TameInMore(l, |entries|, |fr.entries|);
      var fl := FuseTree(l, fr.entries);
      FuseKeepsTame(l, fr.entries);
      TameInMore(fr.tree, |fr.entries|, |fl.entries|);
      PairTame(fl.tree, fr.tree, fl.entries);
    case Loop(_, _, _, b) => FuseKeepsTame(b, entries);
    case _ =>
  }

  lemma {:induction false} FuseAllKeepsTame(ps: seq<Tree>, entries: seq<CharClass>)
    requires Canonical(entries) && AllTame(ps, |entries|)
    ensures var f := FuseTrees(ps, entries); AllTame(f.trees, |f.entries|)
    decreases ps, 0
  {
    hide Canonical, PairClass, Tame, FuseTree;
    if ps != [] {
      var rest := FuseTrees(ps[1..], entries);
      FuseAllKeepsTame(ps[1..], entries);
      TameInMore(ps[0], |entries|, |rest.entries|);
      FuseKeepsTame(ps[0], rest.entries);
      var head := FuseTree(ps[0], rest.entries);
      assert FuseTrees(ps, entries).trees == [head.tree] + rest.trees;
      forall k | 0 <= k < |rest.trees| ensures Tame(rest.trees[k], |head.entries|) {
        TameInMore(rest.trees[k], |rest.entries|, |head.entries|);
      }
    }
  }

  lemma TamePairSafe(l: Tree, r: Tree, entries: seq<CharClass>, s: seq<byte>)
    requires Canonical(entries) && Tame(l, |entries|) && Tame(r, |entries|) && NoOverlong(s)
    ensures AsArm(l).Some? && AsArm(r).Some? ==> SafeOn(entries, AsArm(l).value, AsArm(r).value, s)
  {
    hide Canonical, LeadOf, Weight, NoOverlong, Harmless;
    TameLead(l, |entries|);
    TameLead(r, |entries|);
  }

  /** Tame trees are safe to fuse on every subject without overlong spellings. */
  lemma {:induction false} TameIsSafe(t: Tree, entries: seq<CharClass>, s: seq<byte>)
    requires Canonical(entries) && Tame(t, |entries|) && NoOverlong(s)
    ensures SafeTree(t, entries, s)
    decreases t, 0
  {
    hide Canonical, LeadOf, Weight, NoOverlong, SafeOn, FusePair, AsArm;
    match t
    case Sequence(ps) => TameAllSafe(ps, entries, s);
    case Either(l, r) =>
      var fr := FuseTree(r, entries);
      TameInMore(l, |entries|, |fr.entries|);
      var fl := FuseTree(l, fr.entries);
      FuseKeepsTame(r, entries);
      FuseKeepsTame(l, fr.entries);
      TameIsSafe(r, entries, s);
      TameIsSafe(l, fr.entries, s);
      TameInMore(fr.tree, |fr.entries|, |fl.entries|);
      TamePairSafe(fl.tree, fr.tree, fl.entries, s);
    case Loop(_, _, _, b) => TameIsSafe(b, entries, s);
    case _ =>
  }

  lemma {:induction false} TameAllSafe(ps: seq<Tree>, entries: seq<CharClass>, s: seq<byte>)
    requires Canonical(entries) && AllTame(ps, |entries|) && NoOverlong(s)
    ensures SafeTrees(ps, entries, s)
    decreases ps, 0
  {
    hide Canonical, Tame, NoOverlong, SafeTree, FuseTree;
    if ps != [] {
      var rest := FuseTrees(ps[1..], entries);
      TameAllSafe(ps[1..], entries, s);
      TameInMore(ps[0], |entries|, |rest.entries|);
      TameIsSafe(ps[0], rest.entries, s);
    }
  }
}
