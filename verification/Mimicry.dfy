/** A literal whose text passes for a fusable SPLIT: the byte scan rewrites the text itself, and
    the compiled pattern no longer matches what it spells. */
module Mimicry {
  import opened Wrappers
  import opened Bytes
  import opened Layout
  import opened Ranges
  import opened CharClasses
  import opened Bytecode
  import opened Semantics
  import opened Machine
  import opened Outcomes
  import opened CodeTree
  import opened CodeMeaning
  import opened CodeCorrect
  import opened Pattern
  import opened Translate
  import opened FusionPass
  import opened FusedScan
  import opened FusionPreserves
  import opened GenShape
  import opened FusionStarts
  import opened Trailer
  import opened Compiler
  import opened EndToEnd
  import opened UnfusedImages

  /** SPLIT 18 26; at 18 an ANY and a JMP 29; at 26 another ANY: all of it literal text from
      offset 9 on. */
  const DECOY: seq<byte> := [3, 0, 0, 0, 18, 0, 0, 0, 26, 5, 0, 0, 2, 0, 0, 0, 29, 5, 0, 0]

  function DecoyBody(): seq<byte> { [4, 0, 0, 0, 9, 0, 0, 0, 20] + DECOY + [OP_ACCEPT] }

  lemma DecoyCompiles()
    ensures Gen(Literal(DECOY), 0, NO_TABLES) == Some(Generated(TextLeaf(DECOY), NO_TABLES))
    ensures BodyOf(TextLeaf(DECOY)) == DecoyBody()
  {
    hide Emitted, Encode;
    GenText(DECOY, 0, NO_TABLES);
    EmittedOf(TextLeaf(DECOY), 0);
    DecoyBytes();
  }

  lemma DecoyBytes()
    ensures Encode(Lit(9, DECOY)) == [4, 0, 0, 0, 9, 0, 0, 0, 20] + DECOY
  {
    hide Enc32, Encode;
    Short32(9);
    Short32(20);
    LitBytesOf(9, DECOY);
  }

  lemma LitBytesOf(off: int, text: seq<byte>)
    ensures Encode(Lit(off, text)) == [OP_LIT] + Enc32(off) + Enc32(|text|) + text
  {
    hide Enc32;
  }

  lemma {:induction false} NoSplitBytes(m: Image, hi: nat, lo: nat)
    requires Canonical(m.entries) && lo <= hi <= |m.code|
    requires forall p :: lo <= p < hi ==> m.code[p] != OP_SPLIT
    ensures Scan(m, hi, lo) == m
    decreases hi
  {
    hide Canonical;
    if hi > lo {
      QuietVisit(m, hi - 1);
      NoSplitBytes(m, hi - 1, lo);
    }
  }

  lemma DecoyIsFusable()
    ensures FusableAt(DecoyBody(), 9) == Some(FusionPass.Pair(AnyArm(0), AnyArm(0), 29))
  {
    hide U32At, DecoyBody;
    var code := DecoyBody();
    DecoyOperands();
    DecoyArms();
  }

  lemma DecoyOperands()
    ensures var code := DecoyBody();
      |code| == 30 && code[9] == OP_SPLIT && U32At(code, 10) == 18 && U32At(code, 14) == 26 && U32At(code, 22) == 29
  {
  }

  lemma DecoyArms()
    ensures var code := DecoyBody();
      && |code| == 30 && code[21] == OP_JMP
      && ParseOp(code, 18) == Some(ArmOp(AnyArm(0), 21)) && ParseOp(code, 26) == Some(ArmOp(AnyArm(0), 29))
      && SkipNops(code, 21) == 21 && SkipNops(code, 29) == 29
  {
  }

  /** The pass overwrites the first byte of the text. */
  lemma DecoyIsRewritten() returns (m: Image)
    ensures m == FusedBody(Generated(TextLeaf(DECOY), NO_TABLES))
    ensures |m.code| == 30 && m.code[..9] == DecoyBody()[..9] && m.code[9] == OP_ANY
  {
    hide FusableAt, PairClass, Scan, Rewritten, BodyOf, Register;
    DecoyCompiles();
    var code := DecoyBody();
    var m0 := Image(code, []);
    ScanSplits(m0, 30, 10, 0);
    ScanSplits(m0, 10, 9, 0);
    NoSplitBytes(m0, 30, 10);
    DecoyIsFusable();
    ScanOne(m0, 9);
    m := Visit(m0, 9);
    var id := Register([], PairClass([], AnyArm(0), AnyArm(0))).1;
    RewrittenShape(code, 9, id, 29);
    forall p | 0 <= p < 9 ensures m.code[p] != OP_SPLIT { assert m.code[..9][p] == code[..9][p]; }
    NoSplitBytes(m, 9, 0);
  }

  lemma ScanOne(m: Image, p: nat)
    requires Canonical(m.entries)
    ensures Scan(m, p + 1, p) == Visit(m, p)
  {
    hide Visit, Canonical;
    assert Scan(Visit(m, p), p, p) == Visit(m, p);
  }

  /** The pattern means to match its own text; its compiled form rejects it. */
  lemma DecoyBreaks()
    ensures Compiled(Literal(DECOY)).Some?
    ensures MeantVerdict(Literal(DECOY), DECOY, Fresh(0)) == Accepted(Fresh(20))
    ensures Runs(Boot(Compiled(Literal(DECOY)).value, DECOY), 0, Fresh(0), Rejected)
  {
    hide Gen, FusedBody, LoadClasses, ImageOf;
    DecoyCompiles();
    var m := DecoyIsRewritten();
    var image := ImageOf(m.code, m.entries, []);
    SectionsAt(m.code, m.entries, []);
    assert image[0..30] == m.code;
    assert image[..9] == m.code[..9];
    DecoyMeans();
    DecoyRejects(image);
  }

  lemma DecoyMeans()
    ensures MeantVerdict(Literal(DECOY), DECOY, Fresh(0)) == Accepted(Fresh(20))
  {
    assert DECOY[0..20] == DECOY;
    assert Meaning(Literal(DECOY), DECOY, Fresh(0)) == Once(Fresh(20));
  }

  lemma DecoyRejects(image: seq<byte>)
    requires |image| >= 30 && image[..9] == DecoyBody()[..9] && image[9] == OP_ANY
    ensures Runs(Boot(image, DECOY), 0, Fresh(0), Rejected)
  {
    hide LoadClasses;
    var env := Boot(image, DECOY);
    forall p | 0 <= p < 9 ensures image[p] == DecoyBody()[p] { assert image[..9][p] == DecoyBody()[..9][p]; }
    assert U32At(image, 1) == 9 && U32At(image, 5) == 20;
    var text := image[9..29];
    assert Decode(env, 0) == Do(Text(text), 29);
    assert text[0] != DECOY[0] && DECOY[0..20] == DECOY;
    YieldsDo(env, 0, Fresh(0), Text(text), 29, Exhausted);
    YieldsDecides(env, Fresh(0), Exhausted, Rejected);
  }

  // ----- Exactly which literals survive -----

  /** No position of the code passes for a fusable SPLIT. */
  predicate NothingFusable(code: seq<byte>) {
    forall p :: 0 <= p < |code| ==> FusableAt(code, p).None?
  }

  /** The leftmost change the scan makes: a SPLIT byte turned into ANY, with everything before it kept. */
  predicate ChangedAt(before: seq<byte>, after: seq<byte>, p: nat) {
    p < |before| == |after| && before[..p] == after[..p] && before[p] == OP_SPLIT && after[p] == OP_ANY
  }

  lemma VisitChanges(m: Image, pos: nat)
    requires Canonical(m.entries) && FusableAt(m.code, pos).Some?
    ensures ChangedAt(m.code, Visit(m, pos).code, pos) || (Visit(m, pos).code == m.code && |m.entries| >= 0xFFFF)
  {
    hide Register, PairClass, Canonical, Rewritten;
    var p := FusableAt(m.code, pos).value;
    var id := Register(m.entries, PairClass(m.entries, p.left, p.right)).1;
    RewrittenShape(m.code, pos, id, p.merge);
  }

  /** Either some position changed first, or nothing changed; and then there was nothing to fuse. */
  lemma {:induction false} FirstChange(m: Image, hi: nat) returns (c: Option<nat>)
    requires Canonical(m.entries) && hi <= |m.code|
    ensures c.Some? ==> c.value < hi && ChangedAt(m.code, Scan(m, hi, 0).code, c.value)
    ensures c.None? ==> Scan(m, hi, 0).code == m.code
    ensures c.None? && |m.entries| < 0xFFFF ==> forall p :: 0 <= p < hi ==> FusableAt(m.code, p).None?
    decreases hi
  {
    hide Visit, FusableAt, Canonical;
    if hi == 0 {
      c := None;
    } else if FusableAt(m.code, hi - 1).None? {
      QuietVisit(m, hi - 1);
      c := FirstChange(m, hi - 1);
    } else {
      var m' := Visit(m, hi - 1);
      VisitChanges(m, hi - 1);
      var d := FirstChange(m', hi - 1);
      if d.Some? {
        EarlierKept(m.code, m'.code, Scan(m, hi, 0).code, hi - 1, d.value);
        c := d;
      } else {
        c := if m'.code == m.code then None else Some(hi - 1);
      }
    }
  }

  /** A change further left shows in the original too. */
  lemma EarlierKept(a: seq<byte>, b: seq<byte>, c: seq<byte>, p: nat, q: nat)
    requires q < p <= |a| == |b| && (b == a || (p < |a| && b[..p] == a[..p])) && ChangedAt(b, c, q)
    ensures ChangedAt(a, c, q)
  {
    if b != a {
      assert a[..q] == a[..p][..q] && b[..q] == b[..p][..q];
      assert a[q] == a[..p][q] && b[q] == b[..p][q];
    }
  }

  /** The body of the literal: its instruction, its text, ACCEPT. */
  function TextBody(text: seq<byte>): (s: seq<byte>)
    ensures |s| == 10 + |text|
  {
    [OP_LIT] + Enc32(9) + Enc32(|text|) + text + [OP_ACCEPT]
  }

  lemma TextBodyIs(text: seq<byte>)
    ensures BodyOf(TextLeaf(text)) == TextBody(text)
  {
    hide Emitted, Enc32;
    EmittedOf(TextLeaf(text), 0);
    LitBytesOf(9, text);
  }

  function TextImage(text: seq<byte>): Image
    requires Canonical([])
  {
    Scan(Image(TextBody(text), []), |TextBody(text)|, 0)
  }

  lemma NoEntries()
    ensures Canonical([]) && FewRanges([]) && AllBounded([])
  {
  }

  lemma TextCompiles(text: seq<byte>)
    ensures Canonical([])
    ensures Gen(Literal(text), 0, NO_TABLES) == Some(Generated(TextLeaf(text), NO_TABLES))
    ensures Compiled(Literal(text)) == Some(ImageOf(TextImage(text).code, TextImage(text).entries, []))
  {
    hide Scan, ImageOf, Canonical, TextBody, BodyOf;
    NoEntries();
    TextBodyIs(text);
  }

  /** Where nothing can be fused the compiled literal means its text. */
  lemma HonestTextRuns(text: seq<byte>, s: seq<byte>, v: Verdict)
    requires |Compiled(Literal(text)).value| < U32 && NothingFusable(TextBody(text))
    ensures Runs(Boot(Compiled(Literal(text)).value, s), 0, Fresh(0), v) <==> v == MeantVerdict(Literal(text), s, Fresh(0))
  {
    hide Scan, ImageOf, Canonical, TextBody, BodyOf, OnlyAt, Runs, MeantVerdict, FusableAt, LoadClasses, FewRanges,
         FusesCleanly;
    TextCompiles(text);
    TextBodyIs(text);
    NoEntries();
    var m := Image(TextBody(text), []);
    QuietThroughout(m, |m.code|, BodyStarts(TextLeaf(text)));
    assert FusesCleanly(Literal(text), s) by { TextFusesCleanly(text, s); }
    CompiledPatternRuns(Literal(text), s, Fresh(0), v);
  }

  lemma TextFusesCleanly(text: seq<byte>, s: seq<byte>)
    requires Gen(Literal(text), 0, NO_TABLES) == Some(Generated(TextLeaf(text), NO_TABLES))
    requires Canonical([]) && FewRanges([]) && BodyOf(TextLeaf(text)) == TextBody(text)
    requires var m := Image(TextBody(text), []);
      OnlyAt(m, |m.code|, 0, BodyStarts(TextLeaf(text))) && Scan(m, |m.code|, 0) == m
    ensures FusesCleanly(Literal(text), s)
  {
    hide Scan, Canonical, TextBody, OnlyAt, FewRanges, BodyOf, Gen;
  }

  lemma {:induction false} QuietThroughout(m: Image, hi: nat, starts: seq<nat>)
    requires Canonical(m.entries) && hi <= |m.code| && forall p :: 0 <= p < hi ==> FusableAt(m.code, p).None?
    ensures OnlyAt(m, hi, 0, starts) && Scan(m, hi, 0) == m
    decreases hi
  {
    hide Visit, FusableAt, Canonical;
    if hi > 0 {
      QuietVisit(m, hi - 1);
      QuietThroughout(m, hi - 1, starts);
    }
  }

  lemma TextBytes(text: seq<byte>, p: nat)
    requires |text| < U32 && p < |TextBody(text)| && TextBody(text)[p] == OP_SPLIT
    ensures TextBody(text)[0] == OP_LIT && U32At(TextBody(text), 1) == 9 && U32At(TextBody(text), 5) == |text|
    ensures 5 <= p < 9 + |text| && TextBody(text)[9..9 + |text|] == text
  {
    hide U32At, Enc32;
    var body := TextBody(text);
    assert At(body, 0, body) by { assert body[0..|body|] == body; }
    hide At;
    var front := [OP_LIT] + Enc32(9) + Enc32(|text|);
    AtConcat(body, 0, front + text, [OP_ACCEPT]);
    AtConcat(body, 0, front, text);
    AtConcat(body, 0, [OP_LIT] + Enc32(9), Enc32(|text|));
    AtConcat(body, 0, [OP_LIT], Enc32(9));
    Decode32(body, 1, 9);
    Decode32(body, 5, |text|);
    Fits32(|text|);
    Fits32(9);
    AtByte(body, 0, [OP_LIT], 0);
    AtByte(body, 9 + |text|, [OP_ACCEPT], 0);
    NineHasNoSplit(body);
  }

  lemma NineHasNoSplit(code: seq<byte>)
    requires 5 <= |code| && U32At(code, 1) == 9
    ensures code[1] == 0 && code[2] == 0 && code[3] == 0 && code[4] == 9
  {
  }

  /** An operand whose leftmost changed byte grew has grown. */
  lemma OperandGrows(a: seq<byte>, b: seq<byte>, p: nat)
    requires 9 <= |a| == |b| && 5 <= p < 9 && a[..p] == b[..p] && a[p] < b[p]
    ensures U32At(a, 5) < U32At(b, 5)
  {
    forall k | 0 <= k < p ensures a[k] == b[k] { assert a[..p][k] == b[..p][k]; }
  }

  lemma SameOperand(a: seq<byte>, b: seq<byte>, p: nat, q: nat)
    requires q + 4 <= p <= |a| && p <= |b| && a[..p] == b[..p]
    ensures U32At(a, q) == U32At(b, q)
  {
    forall k | 0 <= k < p ensures a[k] == b[k] { assert a[..p][k] == b[..p][k]; }
  }

  /** The literal the changed code holds: longer than the text, or not the text. */
  lemma ChangedLiteral(text: seq<byte>, code: seq<byte>, p: nat)
    requires |text| < U32 && ChangedAt(TextBody(text), code, p)
    ensures code[0] == OP_LIT && U32At(code, 1) == 9 && 9 + |text| <= |code|
    ensures U32At(code, 5) > |text| || (U32At(code, 5) == |text| && code[9..9 + |text|] != text)
  {
    hide U32At, TextBody;
    var body := TextBody(text);
    TextBytes(text, p);
    assert code[0] == body[0] by { assert code[..p][0] == body[..p][0]; }
    SameOperand(body, code, p, 1);
    if p < 9 {
      OperandGrows(body[..9], code[..9], p);
      SameOperand(body[..9], body, 9, 5);
      SameOperand(code[..9], code, 9, 5);
    } else {
      SameOperand(body, code, p, 5);
      assert code[9..9 + |text|][p - 9] == OP_ANY && body[9..9 + |text|][p - 9] == OP_SPLIT;
    }
  }

  /** Such code does not accept the text. */
  lemma ChangedTextFails(env: Env, text: seq<byte>, n: nat)
    requires env.subject == text && 9 + |text| <= |env.code| && env.code[0] == OP_LIT
    requires U32At(env.code, 1) == 9 && U32At(env.code, 5) == n
    requires n > |text| || (n == |text| && env.code[9..9 + n] != text)
    ensures !Runs(env, 0, Fresh(0), Accepted(Fresh(|text|)))
  {
    hide U32At, Runs, Yields;
    LiteralAtNine(env, n);
    if Decode(env, 0).Do? {
      var lit := env.code[9..9 + n];
      assert n == |text| ==> text[0..n] == text;
      YieldsDo(env, 0, Fresh(0), Text(lit), 9 + n, Exhausted);
      YieldsDecides(env, Fresh(0), Exhausted, Accepted(Fresh(|text|)));
    } else {
      YieldsNow(env, 0, Fresh(0), Decided(Stuck));
      YieldsDecides(env, Fresh(0), Decided(Stuck), Accepted(Fresh(|text|)));
    }
  }

  lemma LiteralAtNine(env: Env, n: nat)
    requires 9 <= |env.code| && env.code[0] == OP_LIT && U32At(env.code, 1) == 9 && U32At(env.code, 5) == n
    ensures Decode(env, 0) == if 9 + n <= |env.code| then Do(Text(env.code[9..9 + n]), 9 + n) else Unmodelled
  {
    hide U32At;
  }

  lemma TextMeans(text: seq<byte>)
    ensures MeantVerdict(Literal(text), text, Fresh(0)) == Accepted(Fresh(|text|))
  {
    assert text[0..|text|] == text;
    assert Fresh(0).(pos := |text|) == Fresh(|text|);
    assert Meaning(Literal(text), text, Fresh(0)) == Once(Fresh(|text|));
  }

  /** Compiled, the literal runs as it means, on every subject. */
  ghost predicate RunsAsMeant(text: seq<byte>)
    requires Compiled(Literal(text)).Some?
  {
    forall s: seq<byte>, v: Verdict ::
      Runs(Boot(Compiled(Literal(text)).value, s), 0, Fresh(0), v) <==> v == MeantVerdict(Literal(text), s, Fresh(0))
  }

  /** A compiled literal means its text exactly when nowhere in its body the bytes pass for a fusable SPLIT. */
  lemma LiteralExact(text: seq<byte>)
    ensures Compiled(Literal(text)).Some?
    ensures |Compiled(Literal(text)).value| < U32 ==> (RunsAsMeant(text) <==> NothingFusable(TextBody(text)))
  {
    hide Scan, ImageOf, TextBody, Runs, MeantVerdict, FusableAt, LoadClasses, U32At, ChangedAt, Compiled;
    TextCompiles(text);
    var image := Compiled(Literal(text)).value;
    if |image| < U32 {
      if NothingFusable(TextBody(text)) {
        forall s: seq<byte>, v: Verdict
          ensures Runs(Boot(image, s), 0, Fresh(0), v) <==> v == MeantVerdict(Literal(text), s, Fresh(0))
        {
          HonestTextRuns(text, s, v);
        }
      } else {
        var m := Image(TextBody(text), []);
        var c := FirstChange(m, |m.code|);
        TextImageShort(text, image);
        BrokenText(text, c.value);
      }
    }
  }

  lemma TextImageShort(text: seq<byte>, image: seq<byte>)
    requires Canonical([]) && image == ImageOf(TextImage(text).code, TextImage(text).entries, []) && |image| < U32
    ensures |text| < U32
  {
    hide Scan, Canonical, TextBody;
    SectionsAt(TextImage(text).code, TextImage(text).entries, []);
  }

  lemma BrokenText(text: seq<byte>, p: nat)
    requires Canonical([]) && |text| < U32 && ChangedAt(TextBody(text), TextImage(text).code, p)
    ensures Compiled(Literal(text)).Some? && !RunsAsMeant(text)
  {
    hide Scan, ImageOf, TextBody, Runs, MeantVerdict, LoadClasses, U32At, Compiled, ChangedAt, Canonical;
    TextCompiles(text);
    var m, image := TextImage(text), Compiled(Literal(text)).value;
    ChangedLiteral(text, m.code, p);
    SectionsAt(m.code, m.entries, []);
    FrontOfImage(text, m.code, image);
    var env := Boot(image, text);
    ChangedTextFails(env, text, U32At(image, 5));
    TextMeans(text);
  }

  lemma FrontOfImage(text: seq<byte>, code: seq<byte>, image: seq<byte>)
    requires At(image, 0, code) && 9 + |text| <= |code|
    ensures image[0] == code[0] && U32At(image, 1) == U32At(code, 1) && U32At(image, 5) == U32At(code, 5)
    ensures 9 + |text| <= |image| && image[9..9 + |text|] == code[9..9 + |text|]
  {
    hide U32At;
    var n := |code|;
    assert image[0..n] == code;
    assert image[..n] == code[..n];
    SameOperand(image, code, n, 1);
    SameOperand(image, code, n, 5);
    SliceOfFront(image, n, 9, 9 + |text|);
  }

  lemma SliceOfFront(s: seq<byte>, n: nat, a: nat, b: nat)
    requires a <= b <= n <= |s|
    ensures s[a..b] == s[..n][a..b]
  {
  }

  // ----- A bound that passes for a SPLIT -----

  /** ANY of class 1 and JMP 40, as literal text. */
  const BAIT: seq<byte> := [5, 0, 1, 2, 0, 0, 0, 40]

  /** At least 3 and at most 23 times the bait, and then a letter. */
  function BoundedDecoy(): Ast { Concat([Repetition(Literal(BAIT), 3, 23), ClassNode(Any, [0x61])]) }

  function BoundedTree(): Tree { Sequence([Loop(0, 3, 23, TextLeaf(BAIT)), Leaf(Class(Any, 1))]) }

  /** The low byte of the minimum is at offset 5; behind it the maximum and the end of the loop read as targets. */
  function BoundedBody(): seq<byte> {
    [15, 0, 0, 0, 0, 3, 0, 0, 0, 23, 0, 0, 0, 37] + ([4, 0, 0, 0, 23, 0, 0, 0, 8] + BAIT) + [16, 0, 0, 0, 0, 14] + [5, 0, 1] + [0]
  }

  function BoundedTables(): Tables { NO_TABLES.(loops := 1, classes := [ClassOf([0x61])]) }

  lemma BoundedLoop()
    ensures Gen(Repetition(Literal(BAIT), 3, 23), 0, NO_TABLES)
         == Some(Generated(Loop(0, 3, 23, TextLeaf(BAIT)), NO_TABLES.(loops := 1)))
  {
  }

  lemma BoundedLetter()
    ensures Gen(ClassNode(Any, [0x61]), 37, NO_TABLES.(loops := 1)) == Some(Generated(Leaf(Class(Any, 1)), BoundedTables()))
  {
    hide ClassOf;
    assert [] + [ClassOf([0x61])] == [ClassOf([0x61])];
  }

  lemma BoundedWeights()
    ensures Weight(TextLeaf(BAIT)) == 17 && Weight(Loop(0, 3, 23, TextLeaf(BAIT))) == 37 && Weight(Leaf(Class(Any, 1))) == 3
    ensures Weight(BoundedTree()) == 40
  {
    hide Encode;
    FixedWidths(1, 0, 0, 0, 0);
    var ps := BoundedTree().parts;
    assert ps[1..][1..] == [];
    assert WeightAll(ps) == 40;
  }

  lemma BoundedGenerates()
    ensures Gen(BoundedDecoy(), 0, NO_TABLES) == Some(Generated(BoundedTree(), BoundedTables()))
  {
    hide Gen, Weight, ClassOf;
    var one, tb := NO_TABLES.(loops := 1), BoundedTables();
    var loop, letter := Loop(0, 3, 23, TextLeaf(BAIT)), Leaf(Class(Any, 1));
    var rep, cls := Repetition(Literal(BAIT), 3, 23), ClassNode(Any, [0x61]);
    BoundedLoop();
    BoundedLetter();
    BoundedWeights();
    assert GenAll([], 40, tb) == Some(GeneratedAll([], tb));
    GenCons(cls, [], 37, one, letter, tb, [], tb);
    assert [cls] + [] == [cls] && [letter] + [] == [letter];
    GenCons(rep, [cls], 0, NO_TABLES, loop, one, [letter], tb);
    assert [rep] + [cls] == BoundedDecoy().parts && [loop] + [letter] == [loop, letter];
    ConcatGenerates(BoundedDecoy().parts, [loop, letter], tb);
  }

  lemma ConcatGenerates(ps: seq<Ast>, ts: seq<Tree>, tb: Tables)
    requires GenAll(ps, 0, NO_TABLES) == Some(GeneratedAll(ts, tb))
    ensures Gen(Concat(ps), 0, NO_TABLES) == Some(Generated(Sequence(ts), tb))
  {
    hide GenAll;
  }

  lemma BoundedPieces()
    ensures Encode(RepeatInit(0, 3, 23, 37)) == [15, 0, 0, 0, 0, 3, 0, 0, 0, 23, 0, 0, 0, 37]
    ensures Encode(Lit(23, BAIT)) == [4, 0, 0, 0, 23, 0, 0, 0, 8] + BAIT
    ensures Encode(RepeatStep(0, 14)) == [16, 0, 0, 0, 0, 14] && Encode(Class(Any, 1)) == [5, 0, 1]
  {
    hide Enc32, Encode;
    InitBytes(0, 3, 23, 37);
    BaitBytes();
    ShortOperands();
  }

  lemma BaitBytes()
    ensures Encode(Lit(23, BAIT)) == [4, 0, 0, 0, 23, 0, 0, 0, 8] + BAIT
  {
    hide Enc32, Encode;
    LitBytesOf(23, BAIT);
    Short32(23);
    Short32(8);
  }

  lemma ShortOperands()
    ensures Encode(RepeatStep(0, 14)) == [16, 0, 0, 0, 0, 14] && Encode(Class(Any, 1)) == [5, 0, 1]
  {
    hide Enc32;
    Short32(14);
  }

  lemma BoundedLaidOut()
    ensures BodyOf(BoundedTree()) == BoundedBody()
  {
    hide Encode, Weight, Emitted, EmittedAll;
    var ps := BoundedTree().parts;
    BoundedPieces();
    BoundedWeights();
    EmittedOf(ps[0].body, 14);
    EmittedOf(ps[0], 0);
    EmittedOf(ps[1], 37);
    EmittedOfAll(ps, 0);
    EmittedOfAll(ps[1..], 37);
    assert ps[1..][1..] == [];
    EmittedOfAll([], 37 + Weight(ps[1]));
    EmittedOf(BoundedTree(), 0);
  }

  lemma BoundedOperands()
    ensures var code := BoundedBody();
      |code| == 41 && code[5] == OP_SPLIT && U32At(code, 6) == 23 && U32At(code, 10) == 37 && U32At(code, 27) == 40
  {
    hide U32At;
    SmallOperand(BoundedBody(), 6);
    SmallOperand(BoundedBody(), 10);
    SmallOperand(BoundedBody(), 27);
  }

  lemma BoundedArms()
    ensures var code := BoundedBody();
      && |code| == 41 && code[26] == OP_JMP
      && ParseOp(code, 23) == Some(ArmOp(AnyArm(1), 26)) && ParseOp(code, 37) == Some(ArmOp(AnyArm(1), 40))
      && SkipNops(code, 26) == 26 && SkipNops(code, 40) == 40
  {
  }

  lemma BoundedIsFusable()
    ensures FusableAt(BoundedBody(), 5) == Some(FusionPass.Pair(AnyArm(1), AnyArm(1), 40))
  {
    hide U32At, BoundedBody;
    BoundedOperands();
    BoundedArms();
  }

  lemma BoundedStarts()
    ensures 5 !in BodyStarts(BoundedTree())
  {
    hide Encode, InstrStarts, TreeStarts, Weight;
    var ps := BoundedTree().parts;
    StartsOfSequence(ps, 0);
    StartsOfSequence(ps[1..], Weight(ps[0]));
    StartsOfLoop(0, 3, 23, TextLeaf(BAIT), 0);
    BoundedWeights();
    forall p | p in TreeStarts(TextLeaf(BAIT), 14) ensures p != 5 { StartsInside(TextLeaf(BAIT), 14, p); }
    forall p | p in TreeStarts(ps[1], 37) ensures p != 5 { StartsInside(ps[1], 37, p); }
    assert ps[1..][1..] == [];
    StartsOfSequence([], 37 + Weight(ps[1]));
  }

  /** The minimum of the repetition is taken for a SPLIT, and the pass writes over the loop. */
  lemma BoundIsMistaken()
    ensures Gen(BoundedDecoy(), 0, NO_TABLES) == Some(Generated(BoundedTree(), BoundedTables()))
    ensures FusableAt(BodyOf(BoundedTree()), 5).Some? && 5 !in BodyStarts(BoundedTree())
    ensures !FusesAtStarts(BoundedDecoy())
  {
    hide Gen, BodyOf, FusableAt, Scan, Canonical, OnlyAt, BodyStarts, FewRanges, BoundedBody, ClassOf;
    BoundedGenerates();
    BoundedLaidOut();
    BoundedIsFusable();
    BoundedStarts();
    GenFromNothing(BoundedDecoy());
    var m, starts := Image(BoundedBody(), BoundedTables().classes), BodyStarts(BoundedTree());
    BoundedTail();
    if OnlyAt(m, 41, 0, starts) {
      OnlyAtSplits(m, 41, 6, 0, starts);
      NoSplitBytes(m, 41, 6);
      OnlyAtHere(m, 6, starts);
    }
  }

  lemma BoundedTail()
    ensures |BoundedBody()| == 41 && forall p :: 6 <= p < 41 ==> BoundedBody()[p] != OP_SPLIT
  {
  }

  lemma OnlyAtHere(m: Image, hi: nat, starts: seq<nat>)
    requires Canonical(m.entries) && 0 < hi && OnlyAt(m, hi, 0, starts)
    ensures hi - 1 in starts || FusableAt(m.code, hi - 1).None?
  {
  }
}
