/** Two compiled patterns on which the general search misses what a caller would expect: one whose
    empty match is passed over, and one whose anchored search answers for another offset. */
module SkippedMatches {
  import opened Wrappers
  import opened Bytes
  import opened Bytecode
  import opened CharClasses
  import opened Semantics
  import opened Outcomes
  import opened CodeTree
  import opened Pattern
  import opened Translate
  import opened FusionPass
  import opened FusedLayout
  import opened FusionStarts
  import opened FusionMeaning
  import opened Trailer
  import opened Compiler
  import opened EndToEnd
  import opened OrdinaryPatterns
  import opened TrackablePatterns
  import opened Mimicry
  import opened MinLength
  import opened StartBitmap
  import opened SharedPrefix
  import opened AlternationPrefix
  import opened LeadingLiteral
  import opened SearchMeta
  import opened Search
  import opened Attempts
  import opened EmptyMatches
  import opened UnfusedImages
  import opened OrdinarySearch

  const X: seq<byte> := [0x78]

  /** The letter x and the rest of the subject, or nothing at the start. */
  function Remainder(): Ast { Alt(Concat([Literal(X), Control(ControlOp.Rem)]), CountNode(Pos, 0)) }

  function RemainderTree(): Tree { Either(Sequence([TextLeaf(X), Leaf(Bare(BareOp.Rem))]), Leaf(Count(Pos, 0))) }

  function RemainderBody(): seq<byte> {
    [3, 0, 0, 0, 9, 0, 0, 0, 25] + [4, 0, 0, 0, 18, 0, 0, 0, 1, 0x78] + [34] + [2, 0, 0, 0, 30] + [37, 0, 0, 0, 0] + [0]
  }

  lemma LeftGenerates()
    ensures GenAll([Literal(X), Control(ControlOp.Rem)], 9, NO_TABLES)
         == Some(GeneratedAll([TextLeaf(X), Leaf(Bare(BareOp.Rem))], NO_TABLES))
  {
    var lit, rem := TextLeaf(X), Leaf(Bare(BareOp.Rem));
    assert Weight(rem) == 1 && Weight(lit) == 10;
    assert GenAll([], 20, NO_TABLES) == Some(GeneratedAll([], NO_TABLES));
    assert Gen(Control(ControlOp.Rem), 19, NO_TABLES) == Some(Generated(rem, NO_TABLES));
    assert Gen(Literal(X), 9, NO_TABLES) == Some(Generated(lit, NO_TABLES));
    hide Gen, GenAll, Weight;
    GenCons(Control(ControlOp.Rem), [], 19, NO_TABLES, rem, NO_TABLES, [], NO_TABLES);
    assert [Control(ControlOp.Rem)] + [] == [Control(ControlOp.Rem)] && [rem] + [] == [rem];
    GenCons(Literal(X), [Control(ControlOp.Rem)], 9, NO_TABLES, lit, NO_TABLES, [rem], NO_TABLES);
    assert [Literal(X)] + [Control(ControlOp.Rem)] == [Literal(X), Control(ControlOp.Rem)];
    assert [lit] + [rem] == [lit, rem];
  }

  lemma RemainderGenerates()
    ensures Gen(Remainder(), 0, NO_TABLES) == Some(Generated(RemainderTree(), NO_TABLES))
  {
    hide GenAll, Weight, Enc32;
    LeftGenerates();
    assert Gen(Remainder().left, 9, NO_TABLES) == Some(Generated(RemainderTree().left, NO_TABLES));
  }

  lemma RemainderWeighs()
    ensures Weight(RemainderTree()) == 30 && Weight(RemainderTree().left) == 11
    ensures Weight(RemainderTree().right) == 5
  {
    hide Enc32;
    var ps := RemainderTree().left.parts;
    assert ps[1..][1..] == [];
    assert WeightAll(ps) == 11;
  }

  lemma RemainderPieces()
    ensures Encode(Split(9, 25)) == [3, 0, 0, 0, 9, 0, 0, 0, 25]
    ensures Encode(Lit(18, X)) == [4, 0, 0, 0, 18, 0, 0, 0, 1, 0x78]
    ensures Encode(Bare(BareOp.Rem)) == [34] && Encode(Jmp(30)) == [2, 0, 0, 0, 30]
    ensures Encode(Count(Pos, 0)) == [37, 0, 0, 0, 0]
  {
    hide Enc32;
    Short32(0);
    Short32(1);
    Short32(9);
    Short32(18);
    Short32(25);
    Short32(30);
  }

  lemma LeftLaidOut()
    ensures Emitted(RemainderTree().left, 9) == Encode(Lit(18, X)) + Encode(Bare(BareOp.Rem))
  {
    hide Encode, Weight, Emitted, EmittedAll;
    var t := RemainderTree().left;
    var ps := t.parts;
    assert Weight(ps[0]) == 10 by { EmittedOf(ps[0], 9); LitWidth(18, X); }
    EmittedOf(t, 9);
    EmittedOfAll(ps, 9);
    EmittedOfAll(ps[1..], 19);
    assert ps[1..][1..] == [];
    EmittedOfAll([], 19 + Weight(ps[1]));
    EmittedOf(ps[0], 9);
    EmittedOf(ps[1], 19);
  }

  lemma RemainderLaidOut()
    ensures BodyOf(RemainderTree()) == RemainderBody()
  {
    hide Encode, Weight, Emitted;
    var t := RemainderTree();
    RemainderWeighs();
    RemainderPieces();
    LeftLaidOut();
    EmittedOf(t, 0);
    EmittedOf(t.right, 25);
  }

  lemma RemainderReads(image: seq<byte>)
    requires |image| == 43 && image[..31] == RemainderBody()
    ensures image[0] == OP_SPLIT && U32At(image, 1) == 9 && U32At(image, 5) == 25
    ensures image[9] == OP_LIT && U32At(image, 10) == 18 && U32At(image, 14) == 1 && image[18] == 0x78
    ensures image[19] == OP_REM && image[25] == OP_POS && image[30] == OP_ACCEPT
  {
    hide U32At;
    forall k | 0 <= k < 31 ensures image[k] == RemainderBody()[k] { assert image[..31][k] == image[k]; }
    SmallOperand(image, 1);
    SmallOperand(image, 5);
    SmallOperand(image, 10);
    SmallOperand(image, 14);
  }

  /** Nothing sets the flag: the branch that matches nothing is not a literal. */
  lemma RemainderFlag(image: seq<byte>)
    requires |image| == 43 && image[..31] == RemainderBody() && LeadsForward(image)
    ensures !MayMatchEmpty(image)
  {
    hide U32At, RemainderBody, HasEmpty;
    RemainderReads(image);
    assert Front(image) == image;
    var t := Branches(image);
    assert IsBranch(image, 0) && t.Branch? && t.left == TreeAt(image, 9);
    assert TreeAt(image, 9) == Tip;
    assert LandsOn(image, 19, 43) == Some(19);
    assert !EndsAt(image, 19);
    assert CheckLiterals(image, Tip, 9, 0) == None;
    assert CheckLiterals(image, t, 0, 0) == None;
    assert RootAt(image, 0) == 0;
  }

  lemma RemainderMoves(image: seq<byte>)
    requires |image| == 43 && image[..31] == RemainderBody()
    ensures MoveAt([], image, 0) == Both(9, 25) && MoveAt([], image, 25) == Along(30) && MoveAt([], image, 30) == Move.Nothing
    ensures var m := MoveAt([], image, 9); m.Begins? && !m.inside(0x61)
  {
    hide U32At, RemainderBody;
    RemainderReads(image);
    assert Low32(18 + 1) == 19;
    assert MoveAt([], image, 9) == LitMove(image, 9);
  }

  lemma RemainderStarts(image: seq<byte>)
    requires |image| == 43 && image[..31] == RemainderBody() && LoadClasses(image) == []
    ensures !StartBytes(image)[0x61]
  {
    hide MoveAt, LoadClasses, RemainderBody;
    RemainderMoves(image);
    var none := NoBytes();
    var inside := MoveAt([], image, 9).inside;
    assert [] + [9] == [9 as nat] && [9 as nat][..0] == [];
    assert WalkBits([], image, 9, [], none, 3) == Mark(none, inside);
    assert Resume([], image, [9], none, 3) == Mark(none, inside);
    assert WalkBits([], image, 30, [9], none, 2) == Mark(none, inside);
    assert WalkBits([], image, 25, [9], none, 1) == Mark(none, inside);
    assert WalkBits([], image, 0, [], none, 0) == Mark(none, inside);
  }

  lemma RemainderIsOrdinary()
    ensures Ordinary(Remainder()) && Matchable(Remainder())
  {
  }

  lemma RemainderIsTrackable()
    ensures Trackable(Remainder()) && NoAbort(Remainder()) && NoFence(Remainder())
  {
  }

  lemma RemainderCompiles()
    ensures Searchable(Remainder()) && Matchable(Remainder()) && NoFence(Remainder()) && Compiled(Remainder()).Some?
    ensures var image := Compiled(Remainder()).value;
      |image| == 43 && image[..31] == RemainderBody() && LoadClasses(image) == []
  {
    hide Gen, Compiled, BodyOf, FuseTree, LoadClasses, Ordinary, Trackable, NoAbort, Matchable, NoFence, Remainder,
         RemainderTree;
    RemainderIsOrdinary();
    RemainderIsTrackable();
    RemainderGenerates();
    RemainderWeighs();
    RemainderLaidOut();
    assert FuseTree(RemainderTree(), []) == FusedTree(RemainderTree(), []) by { RemainderUnfused(); }
    ClasslessImage(Remainder(), RemainderTree());
  }

  lemma RemainderUnfused()
    ensures FuseTree(RemainderTree(), []) == FusedTree(RemainderTree(), [])
  {
    hide Enc32, FuseTrees;
    var t := RemainderTree();
    var lit, rem := TextLeaf(X), Leaf(Bare(BareOp.Rem));
    assert FuseTrees([], []) == FusedTrees([], []) by { FuseNone(); }
    FuseCons(rem, []);
    assert [rem] + [] == [rem];
    FuseCons(lit, [rem]);
    assert [lit] + [rem] == t.left.parts;
    RemainderWeighs();
    assert LeadOf(lit) == Single(LitArm(0x78), 10);
    assert AsArm(t.left) == None;
  }

  lemma FuseNone()
    ensures FuseTrees([], []) == FusedTrees([], [])
  {
  }

  lemma RemainderOffers()
    ensures EmptyAt(Remainder(), 0x61)
  {
  }

  lemma RemainderMeans()
    ensures Matchable(Remainder()) && MeantAttempt(Remainder(), [0x61], 0) == Hit(0)
  {
    var a, s := Remainder(), [0x61];
    assert s[0..] == s;
    assert s[0..1] == s && s != X;
    assert Meaning(Literal(X), s, Fresh(0)) == NOTHING;
    assert MeaningAll(a.left.parts, s, Fresh(0)) == NOTHING;
    assert Meaning(a.right, s, Fresh(0)) == Once(Fresh(0));
    assert Meaning(a, s, Fresh(0)) == Once(Fresh(0));
  }

  /** The pattern matches the empty string at the start of any subject, but the flag is off and only x is a
      start byte: the search passes over that match. */
  lemma EmptyMatchIsSkipped()
    ensures var a := Remainder();
      && Searchable(a) && NoFence(a) && Matchable(a) && LeadsForward(Compiled(a).value)
      && !MayMatchEmpty(Compiled(a).value)
      && MeantAttempt(a, [0x61], 0) == Hit(0) && !Passes(DerivedFilters(Compiled(a).value), [0x61], 0)
      && !SearchAgrees(a, Compiled(a).value, [0x61], 0)
  {
    hide Compiled, LoadClasses, RemainderBody, StartBytes, MayMatchEmpty, LeadsForward, SearchAgrees, Ordinary,
         Trackable, NoAbort, NoFence, Matchable, MinLen, SkipPrefix, MeantAttempt, EmptyAt, Remainder;
    var a := Remainder();
    RemainderCompiles();
    var image := Compiled(a).value;
    OrdinaryIsForward(a);
    RemainderFlag(image);
    RemainderStarts(image);
    RemainderMeans();
    RemainderOffers();
    PassedOver(a, image, 0x61);
  }

  // ----- Anchored -----

  const B: seq<byte> := [0x62]

  function LetterBody(): seq<byte> { [4, 0, 0, 0, 9, 0, 0, 0, 1, 0x62, 0] }

  lemma LetterLaidOut()
    ensures BodyOf(TextLeaf(B)) == LetterBody()
  {
    hide Emitted, Enc32;
    EmittedOf(TextLeaf(B), 0);
    LitBytesOf(9, B);
    Short32(9);
    Short32(1);
  }

  lemma LetterCompiles()
    ensures Searchable(Literal(B)) && Matchable(Literal(B)) && Compiled(Literal(B)).Some?
    ensures var image := Compiled(Literal(B)).value;
      |image| == 23 && image[..11] == LetterBody() && LoadClasses(image) == []
  {
    hide Compiled, BodyOf, LoadClasses;
    LetterLaidOut();
    ClasslessImage(Literal(B), TextLeaf(B));
  }

  lemma LetterReads(image: seq<byte>)
    requires |image| == 23 && image[..11] == LetterBody()
    ensures image[0] == OP_LIT && U32At(image, 1) == 9 && U32At(image, 5) == 1 && image[9] == 0x62
  {
    hide U32At;
    forall k | 0 <= k < 11 ensures image[k] == LetterBody()[k] { assert image[..11][k] == image[k]; }
    SmallOperand(image, 1);
    SmallOperand(image, 5);
  }

  lemma LetterStarts(image: seq<byte>)
    requires |image| == 23 && image[..11] == LetterBody() && LoadClasses(image) == []
    ensures !StartBytes(image)[0x61]
  {
    hide U32At, LoadClasses, LetterBody;
    LetterReads(image);
    assert Low32(9 + 1) == 10;
    var m := MoveAt([], image, 0);
    assert m == LitMove(image, 0);
    assert m.Begins? && !m.inside(0x61);
    hide MoveAt;
    assert WalkBits([], image, 0, [], NoBytes(), 0) == Mark(NoBytes(), m.inside);
  }

  /** Nothing sets the flag, and there is only one alternative. */
  lemma LetterFlag(image: seq<byte>)
    requires |image| == 23 && image[..11] == LetterBody() && LeadsForward(image)
    ensures !MayMatchEmpty(image) && LaterAgree(image)
  {
    hide U32At, LetterBody, CommonPrefix;
    LetterReads(image);
    assert Front(image) == image;
    assert RootAt(image, 0) == 0 && Branches(image) == Tip;
  }

  lemma LetterMeans()
    ensures Matchable(Literal(B))
    ensures MeantAttempt(Literal(B), [0x61, 0x62], 0) == Miss && MeantAttempt(Literal(B), [0x61, 0x62], 1) == Hit(1)
  {
    var s: seq<byte> := [0x61, 0x62];
    assert s[0..] == s && s[1..] == B && s[0..1] == [0x61] && B[0..1] == B;
    assert Meaning(Literal(B), s, Fresh(0)) == NOTHING && Meaning(Literal(B), B, Fresh(0)) == Once(Fresh(1));
  }

  lemma AsciiHasNoOverlong(s: seq<byte>)
    requires forall k :: 0 <= k < |s| ==> s[k] < 0x80
    ensures NoOverlong(s)
  {
  }

  /** Anchored at the start of "ab", the search for b with its derived filters reports the b at offset 1. */
  lemma AnchoredElsewhere()
    ensures var a, s := Literal(B), [0x61, 0x62];
      && Searchable(a) && Matchable(a) && LeadsForward(Compiled(a).value)
      && var f := DerivedFilters(Compiled(a).value);
         && HidesNothing(f, s, MeantAttempts(a, s))
         && Trial(f, s, MeantAttempts(a, s), 0) == NotFound
         && Trial(f, s, MeantAttempts(a, s), FirstPassing(f, s, 0)) == Found(1, 2)
  {
    hide Compiled, LoadClasses, LetterBody, StartBytes, MayMatchEmpty, LeadsForward, Searchable, Matchable, MinLen,
         SkipPrefix, NoOverlong, Meaning, LaterAgree;
    var a, s := Literal(B), [0x61, 0x62];
    LetterCompiles();
    var image := Compiled(a).value;
    OrdinaryIsForward(a);
    LetterFlag(image);
    LetterStarts(image);
    LetterMeans();
    assert NoOverlong(s) by { AsciiHasNoOverlong(s); }
    assert forall b: byte :: !EmptyAt(a, b);
    OrdinaryFiltersAreSound(a, s);
    var f := DerivedFilters(image);
    assert !MeantAttempts(a, s)(1).Miss?;
    assert !Passes(f, s, 0) && Passes(f, s, 1);
    assert FirstPassing(f, s, 0) == FirstPassing(f, s, 1) == 1;
  }
}
