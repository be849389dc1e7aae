/** Fusion over whole code trees: the fused tree has the same first success as the original,
    from every state and whatever follows. */
module FusionPreserves {
  import opened Wrappers
  import opened Bytes
  import opened Ranges
  import opened CharClasses
  import opened Bytecode
  import opened Semantics
  import opened Outcomes
  import opened CodeTree
  import opened CodeMeaning
  import opened FusionPass
  import opened FusedLayout
  import opened FusionMeaning

  /** The state an arm leaves behind. */
  function ArmState(classes: seq<CharClass>, arm: Arm, s: seq<byte>, st: State): Option<State> {
    var end :- ArmStep(classes, arm, s, st.pos);
    Some(st.(pos := end))
  }

  lemma {:induction false} WeightlessRuns(t: Tree, classes: seq<CharClass>, s: seq<byte>, st: State)
    requires Plain(t) && Weight(t) == 0
    ensures Run(t, classes, s, st) == Once(st)
    decreases t, 0
  {
    if t.Sequence? {
      WeightlessRunAll(t.parts, classes, s, st);
    }
  }

  lemma {:induction false} WeightlessRunAll(ps: seq<Tree>, classes: seq<CharClass>, s: seq<byte>, st: State)
    requires (forall k :: 0 <= k < |ps| ==> Plain(ps[k])) && WeightAll(ps) == 0
    ensures RunAll(ps, classes, s, st) == Once(st)
    decreases ps, 0
  {
    hide Run, Weight;
    if ps != [] {
      WeightlessRuns(ps[0], classes, s, st);
      WeightlessRunAll(ps[1..], classes, s, st);
      RunEachOnce(ps[1..], classes, s, st);
    }
  }

  lemma RunEachOnce(ps: seq<Tree>, classes: seq<CharClass>, s: seq<byte>, st: State)
    requires forall k :: 0 <= k < |ps| ==> Plain(ps[k])
    ensures RunEach(ps, classes, s, Once(st)) == RunAll(ps, classes, s, st)
    ensures RunEach(ps, classes, s, NOTHING) == NOTHING
  {
    hide RunAll;
    var o := RunAll(ps, classes, s, st);
    assert Once(st).states[1..] == [];
    assert RunEach(ps, classes, s, Outcome([], Exhausted)) == NOTHING;
    assert OrElse(o, NOTHING).states == o.states;
  }

  /** A tree that amounts to an arm runs as that arm. */
  lemma {:induction false} ArmRuns(t: Tree, classes: seq<CharClass>, s: seq<byte>, st: State)
    requires Plain(t) && AsArm(t).Some?
    ensures Run(t, classes, s, st) == Maybe(ArmState(classes, AsArm(t).value, s, st))
    decreases t, 0
  {
    hide ClassStep, Weight, LeadOf;
    match t
    case Leaf(i) => LeafArm(i, classes, s, st);
    case TextLeaf(text) => TextArm(text, classes, s, st);
    case Sequence(ps) =>
      SequenceArm(ps);
      ArmRunAll(ps, classes, s, st);
    case Either(_, _) => InnerIsNoArm(t);
    case Fused(id, pad) => FusedArm(id, pad, classes, s, st);
  }

  lemma InnerIsNoArm(t: Tree)
    requires t.Either?
    ensures AsArm(t).None?
  {
  }

  lemma SequenceArm(ps: seq<Tree>)
    ensures AsArm(Sequence(ps)) == AsArmAll(ps)
  {
    hide LeadOfAll;
  }

  function AsArmAll(ps: seq<Tree>): Option<Arm> {
    match LeadOfAll(ps)
    case Single(arm, width) => if width == WeightAll(ps) then Some(arm) else None
    case _ => None
  }

  lemma LeafArm(i: Instr, classes: seq<CharClass>, s: seq<byte>, st: State)
    requires Modelled(i) && AsArm(Leaf(i)).Some?
    ensures Run(Leaf(i), classes, s, st) == Maybe(ArmState(classes, AsArm(Leaf(i)).value, s, st))
  {
    hide ClassStep;
  }

  lemma FusedArm(id: nat, pad: nat, classes: seq<CharClass>, s: seq<byte>, st: State)
    ensures AsArm(Fused(id, pad)) == Some(AnyArm(Low16(id)))
    ensures Run(Fused(id, pad), classes, s, st) == Maybe(ArmState(classes, AnyArm(Low16(id)), s, st))
  {
    hide ClassStep;
  }

  lemma TextArm(text: seq<byte>, classes: seq<CharClass>, s: seq<byte>, st: State)
    requires AsArm(TextLeaf(text)).Some?
    ensures Run(TextLeaf(text), classes, s, st) == Maybe(ArmState(classes, AsArm(TextLeaf(text)).value, s, st))
  {
    var p := st.pos;
    if p + 1 <= |s| {
      assert s[p..p + 1] == [s[p]];
    }
  }

  lemma {:induction false} ArmRunAll(ps: seq<Tree>, classes: seq<CharClass>, s: seq<byte>, st: State)
    requires (forall k :: 0 <= k < |ps| ==> Plain(ps[k])) && AsArmAll(ps).Some?
    ensures RunAll(ps, classes, s, st) == Maybe(ArmState(classes, AsArmAll(ps).value, s, st))
    decreases ps, 0
  {
    hide Run, ArmState, Weight, LeadOf;
    var head, rest := ps[0], ps[1..];
    if Weight(head) == 0 {
      WeightlessRuns(head, classes, s, st);
      RunEachOnce(rest, classes, s, st);
      ArmRunAll(rest, classes, s, st);
    } else {
      HeadArm(ps);
      ArmRuns(head, classes, s, st);
      var r := ArmState(classes, AsArmAll(ps).value, s, st);
      if r.Some? {
        RunEachOnce(rest, classes, s, r.value);
        WeightlessRunAll(rest, classes, s, r.value);
      } else {
        RunEachOnce(rest, classes, s, st);
      }
    }
  }

  lemma HeadArm(ps: seq<Tree>)
    requires ps != [] && Weight(ps[0]) > 0 && AsArmAll(ps).Some?
    ensures WeightAll(ps[1..]) == 0 && AsArm(ps[0]) == AsArmAll(ps)
  {
  }

  // ----- Whole trees -----

  /** Class ids in the code refer to entries of the table, or to no entry at all (id 0). */
  predicate IdsKnown(t: Tree, n: nat) {
    match t
    case Leaf(i) => i.Class? ==> Low16(i.classId) <= n
    case Sequence(ps) => forall k :: 0 <= k < |ps| ==> IdsKnown(ps[k], n)
    case Either(l, r) => IdsKnown(l, n) && IdsKnown(r, n)
    case Loop(_, _, _, b) => IdsKnown(b, n)
    case Fused(id, _) => Low16(id) <= n
    case _ => true
  }

  /** Every pair of arms the pass fuses in the tree is safe on subject `s`. */
  ghost predicate SafeTree(t: Tree, entries: seq<CharClass>, s: seq<byte>)
    requires Canonical(entries)
    decreases t, 0
  {
    match t
    case Sequence(ps) => SafeTrees(ps, entries, s)
    case Either(l, r) =>
      var fr := FuseTree(r, entries);
      var fl := FuseTree(l, fr.entries);
      && SafeTree(r, entries, s) && SafeTree(l, fr.entries, s)
      && (AsArm(fl.tree).Some? && AsArm(fr.tree).Some? ==>
            SafeOn(fl.entries, AsArm(fl.tree).value, AsArm(fr.tree).value, s))
    case Loop(_, _, _, b) => SafeTree(b, entries, s)
    case _ => true
  }

  ghost predicate SafeTrees(ps: seq<Tree>, entries: seq<CharClass>, s: seq<byte>)
    requires Canonical(entries)
    decreases ps, 0
  {
    ps == [] || (SafeTrees(ps[1..], entries, s) && SafeTree(ps[0], FuseTrees(ps[1..], entries).entries, s))
  }

  lemma {:induction false} FuseKeepsPlain(t: Tree, entries: seq<CharClass>)
    requires Plain(t) && Canonical(entries)
    ensures Plain(FuseTree(t, entries).tree)
    decreases t, 0
  {
    hide Canonical, PairClass, AsArm, Weight;
    match t
    case Sequence(ps) => FuseAllKeepsPlain(ps, entries);
    case Either(l, r) =>
      FuseKeepsPlain(r, entries);
      FuseKeepsPlain(l, FuseTree(r, entries).entries);
    case _ =>
  }

  lemma {:induction false} FuseAllKeepsPlain(ps: seq<Tree>, entries: seq<CharClass>)
    requires Canonical(entries) && forall k :: 0 <= k < |ps| ==> Plain(ps[k])
    ensures |FuseTrees(ps, entries).trees| == |ps|
    ensures forall k :: 0 <= k < |ps| ==> Plain(FuseTrees(ps, entries).trees[k])
    decreases ps, 0
  {
    hide Canonical, PairClass;
    if ps != [] {
      FuseAllKeepsPlain(ps[1..], entries);
      FuseKeepsPlain(ps[0], FuseTrees(ps[1..], entries).entries);
    }
  }

  /** After fusion, arms still refer to entries that exist when they are fused further. */
  lemma {:induction false} FuseKeepsArmsKnown(t: Tree, entries: seq<CharClass>)
    requires Canonical(entries) && IdsKnown(t, |entries|)
    ensures var f := FuseTree(t, entries); IdsKnown(f.tree, |f.entries|)
    decreases t, 0
  {
    hide Canonical, PairClass, Weight, LeadOf, FusePair;
    match t
    case Sequence(ps) => FuseAllKeepsArmsKnown(ps, entries);
    case Either(l, r) =>
      var fr := FuseTree(r, entries);
      FuseKeepsArmsKnown(r, entries);
      KnownInMore(l, |entries|, |fr.entries|);
      var fl := FuseTree(l, fr.entries);
      FuseKeepsArmsKnown(l, fr.entries);
      KnownInMore(fr.tree, |fr.entries|, |fl.entries|);
      PairKnown(fl.tree, fr.tree, fl.entries);
    case Loop(_, _, _, b) => FuseKeepsArmsKnown(b, entries);
    case _ =>
  }

  predicate AllKnown(f: FusedTrees) {
    forall k :: 0 <= k < |f.trees| ==> IdsKnown(f.trees[k], |f.entries|)
  }

  lemma EitherKnown(l: Tree, r: Tree, n: nat)
    requires IdsKnown(l, n) && IdsKnown(r, n)
    ensures IdsKnown(Either(l, r), n)
  {
  }

  lemma FusedKnown(id: nat, pad: nat, n: nat)
    requires 1 <= id <= n
    ensures IdsKnown(Fused(id, pad), n)
  {
  }

  lemma PairKnown(l: Tree, r: Tree, entries: seq<CharClass>)
    requires Canonical(entries) && IdsKnown(l, |entries|) && IdsKnown(r, |entries|)
    ensures var f := FusePair(l, r, entries); IdsKnown(f.tree, |f.entries|)
  {
    hide Canonical, PairClass, AsArm, Weight, Register, IdsKnown;
    var f := FusePair(l, r, entries);
    if f.tree.Fused? {
      FusedKnown(f.tree.classId, f.tree.pad, |f.entries|);
    } else {
      KnownInMore(l, |entries|, |f.entries|);
      KnownInMore(r, |entries|, |f.entries|);
      EitherKnown(l, r, |f.entries|);
    }
  }

  lemma {:induction false} FuseAllKeepsArmsKnown(ps: seq<Tree>, entries: seq<CharClass>)
    requires Canonical(entries) && forall k :: 0 <= k < |ps| ==> IdsKnown(ps[k], |entries|)
    ensures AllKnown(FuseTrees(ps, entries))
    decreases ps, 0
  {
    hide Canonical, PairClass, IdsKnown, FuseTree;
    if ps != [] {
      var rest := FuseTrees(ps[1..], entries);
      FuseAllKeepsArmsKnown(ps[1..], entries);
      KnownInMore(ps[0], |entries|, |rest.entries|);
      FuseKeepsArmsKnown(ps[0], rest.entries);
      var head := FuseTree(ps[0], rest.entries);
      assert FuseTrees(ps, entries).trees == [head.tree] + rest.trees;
      forall k | 0 <= k < |rest.trees| ensures IdsKnown(rest.trees[k], |head.entries|) {
        KnownInMore(rest.trees[k], |rest.entries|, |head.entries|);
      }
    }
  }

  lemma {:induction false} KnownInMore(t: Tree, n: nat, m: nat)
    requires IdsKnown(t, n) && n <= m
    ensures IdsKnown(t, m)
  {
    match t
    case Sequence(ps) =>
      forall k | 0 <= k < |ps| ensures IdsKnown(ps[k], m) { KnownInMore(ps[k], n, m); }
    case Either(l, r) =>
      KnownInMore(l, n, m);
      KnownInMore(r, n, m);
    case Loop(_, _, _, b) => KnownInMore(b, n, m);
    case _ =>
  }

  lemma {:induction false} ArmKnown(t: Tree, n: nat)
    requires IdsKnown(t, n)
    ensures match LeadOf(t) case Single(AnyArm(id), _) => id <= n case _ => true
    decreases t, 0
  {
    hide Weight;
    match t
    case Sequence(ps) => ArmAllKnown(ps, n);
    case _ =>
  }

  lemma {:induction false} ArmAllKnown(ps: seq<Tree>, n: nat)
    requires forall k :: 0 <= k < |ps| ==> IdsKnown(ps[k], n)
    ensures match LeadOfAll(ps) case Single(AnyArm(id), _) => id <= n case _ => true
    decreases ps, 0
  {
    hide Weight, LeadOf;
    if ps != [] {
      ArmKnown(ps[0], n);
      ArmAllKnown(ps[1..], n);
    }
  }

  /** Known arms step alike in every later version of the class table. */
  lemma ArmStepLater(entries: seq<CharClass>, classes: seq<CharClass>, arm: Arm, s: seq<byte>, pos: nat)
    requires entries <= classes && (arm.AnyArm? ==> arm.classId <= |entries|)
    ensures ArmStep(classes, arm, s, pos) == ArmStep(entries, arm, s, pos)
  {
    hide ClassStep;
  }

  /** Fusing one pair of arms keeps the first success. */
  lemma PairPreserves(l: Tree, r: Tree, entries: seq<CharClass>, classes: seq<CharClass>, s: seq<byte>, st: State,
                      rest: State -> Result)
    requires Canonical(entries) && Plain(l) && Plain(r) && IdsKnown(l, |entries|) && IdsKnown(r, |entries|)
    requires FusePair(l, r, entries).entries <= classes
    requires AsArm(l).Some? && AsArm(r).Some? ==> SafeOn(entries, AsArm(l).value, AsArm(r).value, s)
    ensures Plain(FusePair(l, r, entries).tree)
    ensures First(Run(FusePair(l, r, entries).tree, classes, s, st), rest)
         == First(Run(Either(l, r), classes, s, st), rest)
  {
    hide Canonical, PairClass, ClassStep, Weight, SafeOn, ArmStep, Run;
    var f := FusePair(l, r, entries);
    if f.tree.Fused? {
      var x, y := AsArm(l).value, AsArm(r).value;
      ArmRuns(l, classes, s, st);
      ArmRuns(r, classes, s, st);
      EitherRuns(l, r, classes, s, st);
      ArmKnown(l, |entries|);
      ArmKnown(r, |entries|);
      ArmStepLater(entries, classes, x, s, st.pos);
      ArmStepLater(entries, classes, y, s, st.pos);
      SafePairAgrees(entries, x, y, s, st.pos);
      FusedRuns(f, PairClass(entries, x, y), classes, s, st);
      FirstOfTwo(ArmState(classes, x, s, st), ArmState(classes, y, s, st), rest);
    }
  }

  lemma EitherRuns(l: Tree, r: Tree, classes: seq<CharClass>, s: seq<byte>, st: State)
    requires Plain(l) && Plain(r)
    ensures Run(Either(l, r), classes, s, st) == OrElse(Run(l, classes, s, st), Run(r, classes, s, st))
  {
  }

  lemma FusedRuns(f: FusedTree, c: CharClass, classes: seq<CharClass>, s: seq<byte>, st: State)
    requires f.tree.Fused? && 1 <= f.tree.classId <= |f.entries| && f.tree.classId <= 0xFFFF
    requires f.entries <= classes && f.entries[f.tree.classId - 1] == c
    ensures Run(f.tree, classes, s, st)
         == Maybe(match ClassStep(s, Any, Some(c.ranges), st.pos)
                  case None => None
                  case Some(e) => Some(st.(pos := e)))
  {
    hide ClassStep;
    assert classes[f.tree.classId - 1] == c;
  }

  /** Offering the same state twice changes nothing. */
  lemma FirstOfTwo(a: Option<State>, b: Option<State>, rest: State -> Result)
    requires a.Some? && b.Some? ==> a == b
    ensures First(OrElse(Maybe(a), Maybe(b)), rest) == First(Maybe(if a.Some? then a else b), rest)
  {
    FirstOrElse(Maybe(a), Maybe(b), rest);
  }

  /** Fusion keeps the first success of a tree from every state, for every continuation. */
  lemma {:induction false} FusePreserves(t: Tree, entries: seq<CharClass>, classes: seq<CharClass>, s: seq<byte>,
                                         st: State, rest: State -> Result)
    requires Canonical(entries) && Plain(t) && IdsKnown(t, |entries|) && SafeTree(t, entries, s)
    requires FuseTree(t, entries).entries <= classes
    ensures Plain(FuseTree(t, entries).tree)
    ensures First(Run(FuseTree(t, entries).tree, classes, s, st), rest) == First(Run(t, classes, s, st), rest)
    decreases t, 0
  {
    hide Canonical, PairClass, Weight, Acts, ActOutcome, AsArm, SafeOn, PrimStep, FusePair;
    match t
    case Sequence(ps) => FuseAllPreserves(ps, entries, classes, s, st, rest);
    case Either(l, r) =>
      var fr := FuseTree(r, entries);
      var fl := FuseTree(l, fr.entries);
      var f := FusePair(fl.tree, fr.tree, fl.entries);
      KnownInMore(l, |entries|, |fr.entries|);
      FuseKeepsArmsKnown(r, entries);
      FuseKeepsArmsKnown(l, fr.entries);
      KnownInMore(fr.tree, |fr.entries|, |fl.entries|);
      FusePreserves(r, entries, classes, s, st, rest);
      FusePreserves(l, fr.entries, classes, s, st, rest);
      PairPreserves(fl.tree, fr.tree, fl.entries, classes, s, st, rest);
      EitherFirst(l, r, fl.tree, fr.tree, classes, s, st, rest);
    case _ =>
  }

  /** Replacing both arms by trees with the same first success keeps the first success. */
  lemma EitherFirst(l: Tree, r: Tree, l': Tree, r': Tree, classes: seq<CharClass>, s: seq<byte>, st: State,
                    rest: State -> Result)
    requires Plain(l) && Plain(r) && Plain(l') && Plain(r')
    requires First(Run(l', classes, s, st), rest) == First(Run(l, classes, s, st), rest)
    requires First(Run(r', classes, s, st), rest) == First(Run(r, classes, s, st), rest)
    ensures First(Run(Either(l', r'), classes, s, st), rest) == First(Run(Either(l, r), classes, s, st), rest)
  {
    hide Run, First, Plain, OrElse;
    EitherRuns(l, r, classes, s, st);
    EitherRuns(l', r', classes, s, st);
    OrElseFirst(Run(l, classes, s, st), Run(r, classes, s, st), Run(l', classes, s, st), Run(r', classes, s, st), rest);
  }

  lemma OrElseFirst(a: Outcome, b: Outcome, a': Outcome, b': Outcome, rest: State -> Result)
    requires First(a', rest) == First(a, rest) && First(b', rest) == First(b, rest)
    ensures First(OrElse(a', b'), rest) == First(OrElse(a, b), rest)
  {
    hide First, OrElse;
    FirstOrElse(a, b, rest);
    FirstOrElse(a', b', rest);
    FirstStops(a, rest);
    FirstStops(a', rest);
  }

  lemma {:induction false} FuseAllPreserves(ps: seq<Tree>, entries: seq<CharClass>, classes: seq<CharClass>,
                                            s: seq<byte>, st: State, rest: State -> Result)
    requires Canonical(entries) && SafeTrees(ps, entries, s)
    requires forall k :: 0 <= k < |ps| ==> Plain(ps[k]) && IdsKnown(ps[k], |entries|)
    requires FuseTrees(ps, entries).entries <= classes
    ensures forall k :: 0 <= k < |FuseTrees(ps, entries).trees| ==> Plain(FuseTrees(ps, entries).trees[k])
    ensures First(RunAll(FuseTrees(ps, entries).trees, classes, s, st), rest)
         == First(RunAll(ps, classes, s, st), rest)
    decreases ps, 0
  {
    hide Canonical, Run, First, FuseTree;
    FuseAllKeepsPlain(ps, entries);
    if ps != [] {
      var tail, fs := ps[1..], FuseTrees(ps[1..], entries);
      var head := FuseTree(ps[0], fs.entries);
      assert fs.entries <= head.entries;
      FuseAllKeepsPlain(tail, entries);
      forall s' : State ensures First(RunAll(fs.trees, classes, s, s'), rest) == First(RunAll(tail, classes, s, s'), rest) {
        FuseAllPreserves(tail, entries, classes, s, s', rest);
      }
      var onward := (s': State) => First(RunAll(tail, classes, s, s'), rest);
      KnownInMore(ps[0], |entries|, |fs.entries|);
      FusePreserves(ps[0], fs.entries, classes, s, st, onward);
      FirstRunEach(tail, classes, s, Run(ps[0], classes, s, st), rest, onward);
      FirstRunEach(fs.trees, classes, s, Run(head.tree, classes, s, st), rest, onward);
      assert ([head.tree] + fs.trees)[1..] == fs.trees;
    }
  }
}
