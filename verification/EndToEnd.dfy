/** From syntax tree to verdict: loading a compiled image and running the dispatch loop on it
    decides exactly what the pattern means. */
module EndToEnd {
  import opened Wrappers
  import opened Bytes
  import opened Layout
  import opened Ranges
  import opened CharClasses
  import opened Bytecode
  import opened Semantics
  import opened Machine
  import opened Outcomes
  import opened CodeTree
  import opened CodeMeaning
  import opened CodeCorrect
  import opened Pattern
  import opened Translate
  import opened FusionPass
  import opened FusedLayout
  import opened FusedScan
  import opened FusionMeaning
  import opened FusionPreserves
  import opened GenShape
  import opened GenMeaning
  import opened FusionStarts
  import opened FusionSafety
  import opened OrdinaryPatterns
  import opened Trailer
  import opened Compiler

  /** Reaching the end of the pattern wins. */
  function Accepting(): State -> Result { (st: State) => Decided(Accepted(st)) }

  /** The verdict a pattern's meaning prescribes for a match attempt from `st`. */
  function MeantVerdict(a: Ast, s: seq<byte>, st: State): Verdict
    requires Matchable(a)
  {
    var r := First(Meaning(a, s, st), Accepting());
    if r.OutOfFuel? then Stuck else VerdictOf(r)
  }

  /** A loaded program, ready to run on a subject. */
  function Boot(image: seq<byte>, s: seq<byte>): Env { Env(image, LoadClasses(image), s) }

  /** The body after the pass is the code of the fused tree with ACCEPT behind it. */
  lemma FusedBodyIsTree(t: Tree, entries: seq<CharClass>)
    requires Canonical(entries) && Unfused(t) && |BodyOf(t)| < U32
    requires OnlyAt(Image(BodyOf(t), entries), |BodyOf(t)|, 0, BodyStarts(t))
    ensures var f := FuseTree(t, entries);
      Scan(Image(BodyOf(t), entries), |BodyOf(t)|, 0) == Image(BodyOf(f.tree), f.entries)
      && Weight(f.tree) == Weight(t)
  {
    hide Canonical, Emitted, Visit, OnlyAt, FuseTree, Scan, StartsFit, FusableAt, BodyStarts, Encode, EncodeAll,
         FusePair, AsArm;
    var body, w := BodyOf(t), Weight(t);
    var m, starts := Image(body, entries), BodyStarts(t);
    EmittedWidth(t, 0);
    AtConcat(body, 0, Emitted(t, 0), [OP_ACCEPT]);
    assert body[0..] == body;
    OnlyAtSplits(m, w + 1, w, 0, starts);
    QuietStretch(m, w + 1, w, starts);
    ScanSplits(m, w + 1, w, 0);
    assert StartsFit(starts, t, 0) by { BodyStartsFit(t); }
    ScanFusesTree(m, t, 0, starts);
    FuseKeepsWeight(t, entries);
    var f := FuseTree(t, entries);
    EmittedWidth(f.tree, 0);
    WholeSpliced(body, Scan(m, w, 0).code, Emitted(f.tree, 0));
  }

  lemma BodyStartsFit(t: Tree)
    ensures StartsFit(BodyStarts(t), t, 0)
  {
    hide TreeStarts;
    forall p | 0 <= p < Weight(t) && p in BodyStarts(t) ensures p in TreeStarts(t, 0) {}
  }

  lemma WholeSpliced(before: seq<byte>, after: seq<byte>, part: seq<byte>)
    requires Spliced(before, after, 0, part) && |before| == |part| + 1
    ensures after == part + [before[|part|]]
  {
    var n := |part|;
    assert after == after[..n] + after[n..];
    assert before[n..] == [before[n]];
  }

  /** Running the body of a tree from the start of an image. */
  lemma BodyRuns(env: Env, t: Tree, st: State)
    requires Plain(t) && At(env.code, 0, BodyOf(t)) && |env.code| < U32
    ensures Yields(env, 0, st, First(Run(t, env.classes, env.subject, st), Accepting()))
  {
    hide Emitted, Yields, First, Run, Plain;
    var w := Weight(t);
    EmittedWidth(t, 0);
    AtConcat(env.code, 0, Emitted(t, 0), [OP_ACCEPT]);
    AtByte(env.code, w, [OP_ACCEPT], 0);
    forall s ensures Yields(env, w, s, Accepting()(s)) {
      DecodeBare(env, w, BareOp.Accept);
      YieldsNow(env, w, s, Decided(Accepted(s)));
    }
    CodeRunsAsTree(env, t, 0, Accepting(), st);
  }

  lemma YieldsDecides(env: Env, st: State, r: Result, v: Verdict)
    requires Yields(env, 0, st, r)
    ensures Runs(env, 0, st, v) <==> v == VerdictOf(r)
  {
    hide Eval, Runs;
    LoopMatchesEval(env, 0, st, v);
    if Runs(env, 0, st, v) {
      var q: Result :| Yields(env, 0, st, q) && VerdictOf(q) == v;
      YieldsIsUnique(env, 0, st, r, q);
    }
  }

  lemma YieldsEnds(env: Env, st: State, r: Result)
    requires Yields(env, 0, st, r)
    ensures !r.OutOfFuel?
  {
  }

  /** Every class has at most 65535 ranges, so that its count fits the blob. */
  predicate FewRanges(entries: seq<CharClass>) {
    forall k :: 0 <= k < |entries| ==> |entries[k].ranges| < U16
  }

  lemma BoundedIsStorable(entries: seq<CharClass>)
    requires AllBounded(entries) && FewRanges(entries)
    ensures AllStorable(entries)
  {
  }

  lemma {:induction false} ScanKeepsBounded(m: Image, hi: nat, lo: nat)
    requires Canonical(m.entries) && AllBounded(m.entries)
    ensures AllBounded(Scan(m, hi, lo).entries)
    decreases hi
  {
    hide Canonical, Visit;
    if hi > lo {
      VisitKeepsBounded(m, hi - 1);
      ScanKeepsBounded(Visit(m, hi - 1), hi - 1, lo);
    }
  }

  lemma VisitKeepsBounded(m: Image, pos: nat)
    requires Canonical(m.entries) && AllBounded(m.entries)
    ensures AllBounded(Visit(m, pos).entries)
  {
    hide FusableAt, Rewritten, Register, Canonical;
    match FusableAt(m.code, pos)
    case None =>
    case Some(p) =>
      PairClassBounded(m.entries, p.left, p.right);
      RegisterKeepsBounded(m.entries, PairClass(m.entries, p.left, p.right));
  }

  lemma PairClassBounded(entries: seq<CharClass>, x: Arm, y: Arm)
    requires Canonical(entries) && AllBounded(entries)
    ensures Bounded(PairClass(entries, x, y).ranges)
  {
    NormalFormBounded(ArmClass(entries, x).ranges + ArmClass(entries, y).ranges);
  }

  lemma GenFromNothing(a: Ast)
    requires Gen(a, 0, NO_TABLES).Some?
    ensures var g := Gen(a, 0, NO_TABLES).value;
      && Unfused(g.tree) && IdsKnown(g.tree, |g.tables.classes|)
      && Canonical(g.tables.classes) && AllBounded(g.tables.classes)
    ensures Canonical(NO_TABLES.classes)
  {
    hide Gen;
    GenIsSound(a, 0, NO_TABLES);
  }

  /** The pass rewrote SPLIT instructions only, and every class has few enough ranges to be stored. */
  ghost predicate FusesAtStarts(a: Ast)
    requires Gen(a, 0, NO_TABLES).Some?
  {
    GenFromNothing(a);
    var g := Gen(a, 0, NO_TABLES).value;
    var body := BodyOf(g.tree);
    OnlyAt(Image(body, g.tables.classes), |body|, 0, BodyStarts(g.tree)) && FewRanges(FusedBody(g).entries)
  }

  /** Moreover it fused only pairs that are safe on this subject, under ids that fit 16 bits. */
  ghost predicate FusesCleanly(a: Ast, s: seq<byte>)
    requires Gen(a, 0, NO_TABLES).Some?
  {
    GenFromNothing(a);
    var g := Gen(a, 0, NO_TABLES).value;
    FusesAtStarts(a) && SafeTree(g.tree, g.tables.classes, s) && |FusedBody(g).entries| < U16
  }

  /** The code tree of a compiled pattern after fusion. */
  function FusedTreeOf(a: Ast): Tree
    requires Gen(a, 0, NO_TABLES).Some?
  {
    GenFromNothing(a);
    var g := Gen(a, 0, NO_TABLES).value;
    FuseTree(g.tree, g.tables.classes).tree
  }

  /** Compiling a pattern, loading the image and running it from any state gives exactly the
      verdict the pattern means, provided fusion was clean. */
  lemma CompiledPatternRuns(a: Ast, s: seq<byte>, st: State, v: Verdict)
    requires Matchable(a) && Compiled(a).Some? && |Compiled(a).value| < U32 && FusesCleanly(a, s)
    ensures Runs(Boot(Compiled(a).value, s), 0, st, v) <==> v == MeantVerdict(a, s, st)
  {
    hide Canonical, OnlyAt, SafeTree, Gen, FusedBody, Meaning, Yields, Runs, Scan, BodyOf, FuseTree, First, Run, Plain,
         Unfused, IdsKnown, ImageOf, LoadClasses, FewRanges, AllBounded, AllStorable, At;
    var g := Gen(a, 0, NO_TABLES).value;
    GenFromNothing(a);
    var m, image := FusedBody(g), Compiled(a).value;
    ImageHolds(g, image);
    var f := FuseTree(g.tree, g.tables.classes);
    TreeMeans(a, 0, NO_TABLES, m.entries, s, st);
    FusePreserves(g.tree, g.tables.classes, m.entries, s, st, Accepting());
    BodyRuns(Boot(image, s), f.tree, st);
    YieldsDecides(Boot(image, s), st, First(Meaning(a, s, st), Accepting()), v);
    YieldsEnds(Boot(image, s), st, First(Meaning(a, s, st), Accepting()));
  }

  /** What the image of a compiled pattern holds: the fused tree's body and its class table. */
  lemma ImageHolds(g: Generated, image: seq<byte>)
    requires Canonical(g.tables.classes) && Unfused(g.tree) && AllBounded(g.tables.classes)
    requires image == ImageOf(FusedBody(g).code, FusedBody(g).entries, g.tables.labels) && |image| < U32
    requires OnlyAt(Image(BodyOf(g.tree), g.tables.classes), |BodyOf(g.tree)|, 0, BodyStarts(g.tree))
    requires FewRanges(FusedBody(g).entries)
    ensures var f := FuseTree(g.tree, g.tables.classes);
      At(image, 0, BodyOf(f.tree)) && LoadClasses(image) == f.entries == FusedBody(g).entries
    ensures |BodyOf(g.tree)| == |FusedBody(g).code| <= |image|
  {
    hide Canonical, OnlyAt, Scan, BodyOf, FuseTree, Unfused, ImageOf, LoadClasses, FewRanges, AllBounded, AllStorable;
    var m := FusedBody(g);
    var m0 := Image(BodyOf(g.tree), g.tables.classes);
    SectionsAt(m.code, m.entries, g.tables.labels);
    FusedBodyIsTree(g.tree, g.tables.classes);
    ScanKeepsBounded(m0, |m0.code|, 0);
    BoundedIsStorable(m.entries);
    LoadReadsBack(m.code, m.entries, g.tables.labels);
  }

  // ----- Ordinary patterns need no further conditions -----

  /** A class table stored in a short image is small. */
  lemma ShortImageIsSmall(body: seq<byte>, classes: seq<CharClass>, labels: seq<LabelEntry>)
    requires |ImageOf(body, classes, labels)| < U16
    ensures |body| < U16 && |classes| < U16 && FewRanges(classes)
  {
    hide ImageOf, At, OffsetTable, Blobs;
    SectionsAt(body, classes, labels);
    forall k | 0 <= k < |classes| ensures |classes[k].ranges| < U16 {
      BlobsShrink(classes, k);
    }
  }

  /** Ordinary patterns in images below 64 KiB fuse cleanly on every subject without overlong
      spellings. */
  lemma OrdinaryFusesCleanly(a: Ast, s: seq<byte>)
    requires Ordinary(a) && Compiled(a).Some? && |Compiled(a).value| < U16 && NoOverlong(s)
    ensures Matchable(a) && Gen(a, 0, NO_TABLES).Some? && FusesCleanly(a, s)
  {
    hide Canonical, OnlyAt, SafeTree, Gen, Scan, FuseTree, Unfused, IdsKnown, ImageOf, FewRanges, AllBounded,
         NoOverlong, Ordinary, Matchable, MildTree, Tame;
    OrdinaryIsMatchable(a);
    var g := Gen(a, 0, NO_TABLES).value;
    GenFromNothing(a);
    var m := FusedBody(g);
    ShortImageIsSmall(m.code, m.entries, g.tables.labels);
    EmittedWidth(g.tree, 0);
    GenIsFusible(a, 0, NO_TABLES);
    FusesOnlySplits(g.tree, g.tables.classes);
    TameIsSafe(g.tree, g.tables.classes, s);
  }

  /** For ordinary patterns in images below 64 KiB the compiled program means what the pattern
      means on every subject without overlong spellings, from every state. */
  lemma OrdinaryPatternRuns(a: Ast, s: seq<byte>, st: State, v: Verdict)
    requires Ordinary(a) && Compiled(a).Some? && |Compiled(a).value| < U16
    requires NoOverlong(s)
    ensures Matchable(a)
    ensures Runs(Boot(Compiled(a).value, s), 0, st, v) <==> v == MeantVerdict(a, s, st)
  {
    hide Runs, NoOverlong, Ordinary, Matchable, MeantVerdict, FusesCleanly, Gen, Compiled;
    OrdinaryFusesCleanly(a, s);
    CompiledPatternRuns(a, s, st, v);
  }
}
