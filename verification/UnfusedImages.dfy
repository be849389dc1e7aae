/** Images of patterns on which the fusion pass finds nothing to do: the laid-out code, the class table as it was
    generated, and an empty label table. */
module UnfusedImages {
  import opened Wrappers
  import opened Bytes
  import opened CharClasses
  import opened CodeTree
  import opened Pattern
  import opened Translate
  import opened FusionPass
  import opened FusedLayout
  import opened FusedScan
  import opened FusionStarts
  import opened FusionSafety
  import opened GenShape
  import opened OrdinaryPatterns
  import opened Trailer
  import opened Compiler
  import opened EndToEnd

  lemma CompiledIs(a: Ast, g: Generated)
    requires Gen(a, 0, NO_TABLES) == Some(g) && g.tables.labels == [] && Canonical(g.tables.classes)
    ensures var m := FusedBody(g); Compiled(a) == Some(ImageOf(m.code, m.entries, []))
  {
    hide Gen, FusedBody, ImageOf, Canonical;
  }

  /** The pass finds nothing to rewrite. */
  lemma BodyStays(a: Ast, t: Tree, classes: seq<CharClass>)
    requires Ordinary(a) && Gen(a, 0, NO_TABLES) == Some(Generated(t, NO_TABLES.(classes := classes)))
    requires Weight(t) < 0xF000 && |classes| < U16
    ensures Canonical(classes) && AllBounded(classes)
    ensures FuseTree(t, classes) == FusedTree(t, classes) ==>
      FusedBody(Generated(t, NO_TABLES.(classes := classes))) == Image(BodyOf(t), classes)
  {
    hide Gen, Scan, FuseTree, Ordinary, MildTree, Tame, OnlyAt, Emitted, TreeStarts, Canonical;
    GenFromNothing(a);
    GenIsFusible(a, 0, NO_TABLES);
    EmittedWidth(t, 0);
    FusesOnlySplits(t, classes);
    FusedBodyIsTree(t, classes);
  }

  /** The image when the pass leaves the tree and the class table as they are. */
  lemma UnfusedImage(a: Ast, t: Tree, classes: seq<CharClass>)
    requires Ordinary(a) && Gen(a, 0, NO_TABLES) == Some(Generated(t, NO_TABLES.(classes := classes)))
    requires Weight(t) < 0xF000 && |classes| < U16 && FewRanges(classes) && Canonical(classes)
    requires FuseTree(t, classes) == FusedTree(t, classes)
    ensures Compiled(a) == Some(ImageOf(BodyOf(t), classes, []))
    ensures |Compiled(a).value| < U32 ==> LoadClasses(Compiled(a).value) == classes
  {
    hide Gen, FusedBody, FuseTree, ImageOf, LoadClasses, Ordinary, Compiled, Canonical, FewRanges, AllBounded, BodyOf,
         AllStorable, Weight;
    BodyStays(a, t, classes);
    CompiledIs(a, Generated(t, NO_TABLES.(classes := classes)));
    BoundedIsStorable(classes);
    if |ImageOf(BodyOf(t), classes, [])| < U32 { LoadReadsBack(BodyOf(t), classes, []); }
  }

  lemma NoClassesAreFew()
    ensures FewRanges([]) && Canonical([])
  {
  }

  lemma ClasslessImage(a: Ast, t: Tree)
    requires Ordinary(a) && Gen(a, 0, NO_TABLES) == Some(Generated(t, NO_TABLES))
    requires Weight(t) < 0xF000 && FuseTree(t, []) == FusedTree(t, [])
    ensures Compiled(a).Some?
    ensures var image := Compiled(a).value;
      && |image| == Weight(t) + 13 && image[..Weight(t) + 1] == BodyOf(t) && LoadClasses(image) == []
  {
    hide Gen, FuseTree, ImageOf, LoadClasses, Ordinary, Compiled, Canonical, FewRanges, Emitted;
    NoClassesAreFew();
    assert NO_TABLES.(classes := []) == NO_TABLES;
    UnfusedImage(a, t, []);
    EmittedWidth(t, 0);
    SectionsAt(BodyOf(t), [], []);
  }

  // ----- Sequences, part by part -----

  lemma GenCons(p: Ast, ps: seq<Ast>, base: nat, before: Tables, t: Tree, mid: Tables, ts: seq<Tree>, after: Tables)
    requires Gen(p, base, before) == Some(Generated(t, mid))
    requires GenAll(ps, base + Weight(t), mid) == Some(GeneratedAll(ts, after))
    ensures GenAll([p] + ps, base, before) == Some(GeneratedAll([t] + ts, after))
  {
    hide Gen, Weight;
    assert ([p] + ps)[1..] == ps;
  }

  lemma FuseCons(t: Tree, ts: seq<Tree>)
    requires FuseTree(t, []) == FusedTree(t, []) && FuseTrees(ts, []) == FusedTrees(ts, [])
    ensures FuseTrees([t] + ts, []) == FusedTrees([t] + ts, [])
  {
    hide FuseTree;
    assert ([t] + ts)[1..] == ts;
  }
}
