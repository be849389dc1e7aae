/** Compiled alternations of literals: the analysis collects exactly their literals, so the prefix it keeps
    begins every match exactly when all of them share it. With one alternative too many it does not: the
    extraction compares the first sixty-four and keeps a prefix that the sixty-fifth does not have. */
module CrowdedAlternation {
  import opened Wrappers
  import opened Bytes
  import opened Bytecode
  import opened CharClasses
  import opened CodeTree
  import opened FusionPass
  import opened FusedLayout
  import opened FusionStarts
  import opened Pattern
  import opened Translate
  import opened OrdinaryPatterns
  import opened Trailer
  import opened Compiler
  import opened SharedPrefix
  import opened AlternationPrefix
  import opened SearchMeta
  import opened UnfusedImages

  /** An alternation of literals of two bytes or more. */
  predicate Words(a: Ast) {
    match a
    case Literal(text) => |text| >= 2 && 0 !in text
    case Alt(l, r) => Words(l) && Words(r)
    case _ => false
  }

  function TextsOf(a: Ast): (ls: seq<seq<byte>>)
    requires Words(a)
    ensures ls != []
  {
    if a.Literal? then [a.text] else TextsOf(a.left) + TextsOf(a.right)
  }

  function TreeOf(a: Ast): Tree
    requires Words(a)
  {
    if a.Literal? then TextLeaf(a.text) else Either(TreeOf(a.left), TreeOf(a.right))
  }

  function ShapeOf(a: Ast): AltTree
    requires Words(a)
  {
    if a.Literal? then Tip else Branch(ShapeOf(a.left), ShapeOf(a.right))
  }

  /** Bytes of all literals together. */
  function TextSize(a: Ast): (n: nat)
    requires Words(a)
    ensures n >= 2
  {
    if a.Literal? then |a.text| else TextSize(a.left) + TextSize(a.right)
  }

  /** Branches that are pending at most while the left arms are looked at. */
  function Depth(a: Ast): nat
    requires Words(a)
  {
    if a.Literal? then 0 else Max(Depth(a.left) + 1, Depth(a.right))
  }

  // ----- Compiling it -----

  lemma {:induction false} WordsAreOrdinary(a: Ast)
    requires Words(a)
    ensures Ordinary(a)
  {
    if a.Alt? {
      WordsAreOrdinary(a.left);
      WordsAreOrdinary(a.right);
    }
  }

  lemma {:induction false} WordsGenerate(a: Ast, base: nat)
    requires Words(a)
    ensures Gen(a, base, NO_TABLES) == Some(Generated(TreeOf(a), NO_TABLES))
  {
    if a.Alt? {
      WordsGenerate(a.left, base + 9);
      WordsGenerate(a.right, base + 14 + Weight(TreeOf(a.left)));
    }
  }

  lemma {:induction false} WordsStay(a: Ast)
    requires Words(a)
    ensures AsArm(TreeOf(a)).None? && FuseTree(TreeOf(a), []) == FusedTree(TreeOf(a), [])
  {
    if a.Alt? {
      WordsStay(a.left);
      WordsStay(a.right);
    }
  }

  // ----- What the analysis reads -----

  /** From `cur` at most `guard` jumps lead to the end of the match. */
  predicate EndsWithin(code: seq<byte>, cur: nat, guard: nat) {
    var c := LandsOn(code, cur, guard);
    c.Some? && c.value < |code| && code[c.value] == OP_ACCEPT
  }

  lemma {:induction false} EndsLater(code: seq<byte>, cur: nat, g: nat, h: nat)
    requires EndsWithin(code, cur, g) && g <= h
    ensures EndsWithin(code, cur, h)
    decreases g
  {
    hide U32At;
    if cur < |code| && code[cur] == OP_JMP { EndsLater(code, U32At(code, cur + 1), g - 1, h - 1); }
  }

  lemma JumpEnds(code: seq<byte>, p: nat, t: nat, g: nat)
    requires At(code, p, Encode(Jmp(t))) && t < U32 && EndsWithin(code, t, g)
    ensures EndsWithin(code, p, g + 1)
  {
    hide U32At, Enc32, Low32, Encode;
    JumpBytes(0, 0, t);
    AtConcat(code, p, [OP_JMP], Enc32(t));
    AtByte(code, p, [OP_JMP], 0);
    Decode32(code, p + 1, t);
    Fits32(t);
  }

  lemma ReadsWord(code: seq<byte>, p: nat, text: seq<byte>)
    requires At(code, p, Emitted(TextLeaf(text), p)) && |code| < U32 && text != []
    ensures p + 9 + |text| <= |code| && code[p] == OP_LIT
    ensures U32At(code, p + 1) == p + 9 && U32At(code, p + 5) == |text| && code[p + 9..p + 9 + |text|] == text
  {
    hide U32At, Enc32, Encode;
    EmittedOf(TextLeaf(text), p);
    WordBytes(p + 9, text);
    var body := Enc32(p + 9) + Enc32(|text|) + text;
    AtConcat(code, p, [OP_LIT], body);
    AtByte(code, p, [OP_LIT], 0);
    PayloadLayout(code, p + 1, p + 9, text);
    Fits32(p + 9);
    Fits32(|text|);
  }

  lemma WordBytes(off: int, text: seq<byte>)
    ensures Encode(Lit(off, text)) == [OP_LIT] + (Enc32(off) + Enc32(|text|) + text)
  {
    hide Enc32;
  }

  lemma WordIsTip(code: seq<byte>, p: nat, text: seq<byte>, below: nat, used: nat, g: nat)
    requires At(code, p, Emitted(TextLeaf(text), p)) && |code| < U32 && text != [] && used + |text| <= MAX_LIT_BYTES
    requires EndsWithin(code, p + 9 + |text|, g) && g <= |code|
    ensures TreeAt(code, p) == Tip && Unfolds(code, Tip, p) && TextsInline(code, Tip, p)
    ensures Collect(code, Tip, p, below) == Some([text]) && CheckLiterals(code, Tip, p, used) == Some(used + |text|)
  {
    hide U32At, At, LandsOn, Emitted;
    ReadsWord(code, p, text);
    EndsLater(code, p + 9 + |text|, g, |code|);
  }

  lemma ReadsChoice(code: seq<byte>, p: nat, a: nat, b: nat)
    requires At(code, p, Encode(Split(a, b))) && a < |code| < U32 && b < |code|
    ensures IsBranch(code, p) && U32At(code, p + 1) == a && U32At(code, p + 5) == b
  {
    hide U32At, Enc32, Low32, Encode;
    JumpBytes(a, b, 0);
    AtByte(code, p, Encode(Split(a, b)), 0);
    AtConcat(code, p, [OP_SPLIT], Enc32(a) + Enc32(b));
    AtConcat(code, p + 1, Enc32(a), Enc32(b));
    Decode32(code, p + 1, a);
    Decode32(code, p + 5, b);
    Fits32(a);
    Fits32(b);
  }

  /** Laid out anywhere in code where the match ends behind it, the alternation is read as its literals. */
  lemma {:induction false} WordsRead(code: seq<byte>, a: Ast, base: nat, below: nat, used: nat, g: nat)
    requires Words(a) && At(code, base, Emitted(TreeOf(a), base)) && |code| < U32
    requires EndsWithin(code, base + Weight(TreeOf(a)), g) && g + Depth(a) <= |code|
    requires below + Depth(a) < MAX_PENDING && used + TextSize(a) <= MAX_LIT_BYTES
    ensures TreeAt(code, base) == ShapeOf(a) && Unfolds(code, ShapeOf(a), base) && TextsInline(code, ShapeOf(a), base)
    ensures Collect(code, ShapeOf(a), base, below) == Some(TextsOf(a))
    ensures CheckLiterals(code, ShapeOf(a), base, used) == Some(used + TextSize(a))
    decreases a
  {
    hide U32At, At, Emitted, LandsOn, Encode, Unfolds, Collect, CheckLiterals, TextsInline, TreeAt;
    if a.Literal? {
      WordIsTip(code, base, a.text, below, used, g);
    } else {
      var l, r := TreeOf(a.left), TreeOf(a.right);
      var jmp, right := base + 9 + Weight(l), base + 14 + Weight(l);
      SplitLayout(code, l, r, base);
      JumpEnds(code, jmp, right + Weight(r), g);
      assert right < |code| by { SomeWeight(a.right); }
      ReadsChoice(code, base, base + 9, right);
      WordsRead(code, a.left, base + 9, below + 1, used, g + 1);
      WordsRead(code, a.right, right, below, used + TextSize(a.left), g);
      BranchReads(code, base, ShapeOf(a.left), ShapeOf(a.right), below, used, used + TextSize(a.left));
    }
  }

  lemma SomeWeight(a: Ast)
    requires Words(a)
    ensures Weight(TreeOf(a)) > 0
  {
  }

  /** Two arms that have been read make a branch that is read. */
  lemma BranchReads(code: seq<byte>, p: nat, l: AltTree, r: AltTree, below: nat, used: nat, mid: nat)
    requires IsBranch(code, p) && below + 2 <= MAX_PENDING
    requires var a := U32At(code, p + 1);
      && p < a && TreeAt(code, a) == l && Unfolds(code, l, a) && TextsInline(code, l, a)
      && Collect(code, l, a, below + 1).Some? && CheckLiterals(code, l, a, used) == Some(mid)
    requires var b := U32At(code, p + 5);
      && p < b && TreeAt(code, b) == r && Unfolds(code, r, b) && TextsInline(code, r, b)
      && Collect(code, r, b, below).Some? && CheckLiterals(code, r, b, mid).Some?
    ensures var t, a, b := Branch(l, r), U32At(code, p + 1), U32At(code, p + 5);
      && TreeAt(code, p) == t && Unfolds(code, t, p) && TextsInline(code, t, p)
      && Collect(code, t, p, below) == Some(Collect(code, l, a, below + 1).value + Collect(code, r, b, below).value)
      && CheckLiterals(code, t, p, used) == CheckLiterals(code, r, b, mid)
  {
    hide U32At, LiteralAt, EndsAt;
  }

  /** Small enough for the analysis to look at all of it. */
  predicate Fits(a: Ast)
    requires Words(a)
  {
    Weight(TreeOf(a)) + 13 <= SCAN_LIMIT && TextSize(a) <= MAX_LIT_BYTES && Depth(a) < MAX_PENDING
  }

  lemma {:induction false} DepthIsLess(a: Ast)
    requires Words(a)
    ensures Depth(a) <= Weight(TreeOf(a))
  {
    if a.Alt? {
      DepthIsLess(a.left);
      DepthIsLess(a.right);
    }
  }

  lemma LastByte(image: seq<byte>, body: seq<byte>, w: nat)
    requires |body| == w + 1 <= |image| && image[..w + 1] == body
    ensures At(image, 0, body) && image[w] == body[w]
  {
    assert image[..w + 1][w] == image[w];
  }

  /** The image of the alternation as the analysis sees it. */
  lemma CompiledWords(a: Ast)
    requires Words(a) && Fits(a)
    ensures Compiled(a).Some?
    ensures var image := Compiled(a).value;
      && Front(image) == image && LeadsForward(image) && Branches(image) == ShapeOf(a) && TextsInline(image, ShapeOf(a), 0)
      && Collect(image, ShapeOf(a), 0, 0) == Some(TextsOf(a)) && CheckLiterals(image, ShapeOf(a), 0, 0).Some?
      && |image| >= 10 && (a.Alt? ==> image[0] == OP_SPLIT)
  {
    hide Compiled, Emitted, FuseTree, LoadClasses, Gen, Weight, Ordinary, U32At, Unfolds, Collect, CheckLiterals,
         TextsInline, LandsOn;
    var t := TreeOf(a);
    WordsAreOrdinary(a);
    WordsGenerate(a, 0);
    WordsStay(a);
    ClasslessImage(a, t);
    var image := Compiled(a).value;
    EmittedWidth(t, 0);
    LastByte(image, BodyOf(t), Weight(t));
    AtConcat(image, 0, Emitted(t, 0), [OP_ACCEPT]);
    assert EndsWithin(image, Weight(t), 0) by { EndsHere(image, Weight(t)); }
    DepthIsLess(a);
    WordsRead(image, a, 0, 0, 0, 0);
    assert a.Alt? ==> IsBranch(image, 0) by { RootOfShape(image, a); }
  }

  lemma EndsHere(code: seq<byte>, p: nat)
    requires p < |code| && code[p] == OP_ACCEPT
    ensures EndsWithin(code, p, 0)
  {
  }

  lemma RootOfShape(code: seq<byte>, a: Ast)
    requires Words(a) && Unfolds(code, ShapeOf(a), 0)
    ensures a.Alt? ==> IsBranch(code, 0)
  {
    hide U32At;
  }

  /** The prefix kept for a compiled alternation of literals is what its first sixty-four have in common, and it
      begins every match exactly when all of its literals begin with it. */
  lemma CompiledPrefixExact(a: Ast)
    requires Words(a) && Fits(a) && a.Alt?
    ensures Compiled(a).Some? && LeadsForward(Compiled(a).value)
    ensures var image, p := Compiled(a).value, CommonPrefix(SharedPrefix.Kept(TextsOf(a)));
      && DerivedPrefix(image, Branches(image)) == p
      && (LaterAgree(image) <==> AllBegin(TextsOf(a), p))
      && (LeadsMatches(image, LoadClasses(image), p) <==> AllBegin(TextsOf(a), p))
  {
    hide Compiled, LoadClasses, Unfolds, Collect, CheckLiterals, TextsInline, LeadsMatches, CommonPrefix, TextsOf,
         ShapeOf;
    CompiledWords(a);
    var image, ls := Compiled(a).value, TextsOf(a);
    var p := CommonPrefix(SharedPrefix.Kept(ls));
    PrefixExact(image, LoadClasses(image), ShapeOf(a));
    if AllBegin(ls[|SharedPrefix.Kept(ls)|..], p) { KeptBegin(ls); }
    if AllBegin(ls, p) { AllBeginLater(ls, |SharedPrefix.Kept(ls)|, p); }
  }

  lemma AllBeginLater(ls: seq<seq<byte>>, k: nat, p: seq<byte>)
    requires k <= |ls| && AllBegin(ls, p)
    ensures AllBegin(ls[k..], p)
  {
  }

  // ----- One too many -----

  const AA: seq<byte> := [97, 97]
  const BB: seq<byte> := [98, 98]

  /** So many times aa, and at last bb. */
  function Crowd(n: nat): (a: Ast)
    ensures Words(a)
  {
    if n == 0 then Literal(BB) else Alt(Literal(AA), Crowd(n - 1))
  }

  function Copies(n: nat): seq<seq<byte>> { seq(n, _ => AA) }

  lemma {:induction false} CrowdTexts(n: nat)
    ensures TextsOf(Crowd(n)) == Copies(n) + [BB]
  {
    if n == 0 {
      assert Copies(0) == [];
    } else {
      CrowdTexts(n - 1);
      assert [AA] + (Copies(n - 1) + [BB]) == Copies(n) + [BB];
    }
  }

  lemma {:induction false} CrowdWeighs(n: nat)
    ensures Weight(TreeOf(Crowd(n))) == 25 * n + 11
  {
    if n > 0 { CrowdWeighs(n - 1); }
  }

  lemma {:induction false} CrowdFits(n: nat)
    ensures TextSize(Crowd(n)) == 2 * n + 2 && Depth(Crowd(n)) <= 1
  {
    if n > 0 { CrowdFits(n - 1); }
  }

  lemma CommonOfCopies(n: nat)
    requires n >= 2
    ensures CommonPrefix(Copies(n)) == AA
  {
    var ls := Copies(n);
    CommonIsLongest(ls, AA);
    assert CommonPrefix(ls) <= ls[0];
  }

  /** Of sixty-five compiled alternatives the last one is not looked at: the prefix aa is kept, but a match may
      begin with b. */
  lemma CrowdedPrefixIsWrong()
    ensures Compiled(Crowd(64)).Some? && LeadsForward(Compiled(Crowd(64)).value)
    ensures var image := Compiled(Crowd(64)).value;
      && DerivedPrefix(image, Branches(image)) == AA && !LaterAgree(image) && !LeadsMatches(image, LoadClasses(image), AA)
  {
    hide Compiled, LoadClasses, LeadsMatches, Crowd, CommonPrefix, LeadsForward, LaterAgree, Copies;
    var ls := Copies(64) + [BB];
    CrowdTexts(64);
    CrowdWeighs(64);
    CrowdFits(64);
    assert |Copies(64)| == 64 by { CopiesCount(64); }
    assert SharedPrefix.Kept(ls) == Copies(64);
    CommonOfCopies(64);
    assert !AllBegin(ls, AA) by { assert ls[64] == BB && AA[0] != BB[0]; }
    CrowdIsAlt(64);
    CompiledPrefixExact(Crowd(64));
  }

  lemma CopiesCount(n: nat)
    ensures |Copies(n)| == n
  {
  }

  lemma CrowdIsAlt(n: nat)
    ensures n > 0 ==> Crowd(n).Alt?
  {
  }
}
