/** Exactly when the start-byte analysis is sound: per class operation, behind a tabulation, and where
    the walk runs off the end of the code; with compiled patterns whose matches it misses. */
module BitmapLimits {
  import opened Wrappers
  import opened Bytes
  import opened Utf8
  import opened Ranges
  import opened CharClasses
  import opened Bytecode
  import opened Semantics
  import opened CodeCorrect
  import opened CodeTree
  import opened Pattern
  import opened Translate
  import opened FusionPass
  import opened FusedLayout
  import opened FusionStarts
  import opened FusionMeaning
  import opened OrdinaryPatterns
  import opened Trailer
  import opened Compiler
  import opened EndToEnd
  import opened Horspool
  import opened Tabulation
  import opened MinLength
  import opened StartBitmap
  import opened CompiledFlow
  import opened UnfusedImages
  import opened Walker
  import opened CodeMeaning
  import opened CompiledSearch
  import opened OrdinarySearch

  /** A match from the start that consumes something, and whose first byte the analysis misses. */
  ghost predicate Missed(env: Env) {
    && env.subject != []
    && Consumes(env, 0, Fresh(0))
    && !WalkBits(env.classes, env.code, 0, [], NoBytes(), 0)[env.subject[0]]
  }

  /** On no subject does the analysis miss a match. */
  ghost predicate StartsAreSound(code: seq<byte>, classes: seq<CharClass>) {
    forall s: seq<byte> :: !Missed(Env(code, classes, s))
  }

  // ----- One class operation -----

  /** A codepoint spelled with four bytes, which the lenient reader accepts for every codepoint. */
  function Wide(c: nat): (s: seq<byte>)
    requires c < CODEPOINTS
    ensures |s| == 4
  {
    [0xF0 + c / 0x4_0000, 0x80 + c / 0x1000 % 0x40, 0x80 + c / 0x40 % 0x40, 0x80 + c % 0x40]
  }

  lemma WideReads(c: nat)
    requires c < CODEPOINTS
    ensures Peek(Wide(c), 0) == Some(Peeked(c, 4)) && Wide(c)[0] >= 0xF0
  {
    var s := Wide(c);
    assert Tail6(s[1]) == c / 0x1000 % 0x40 && Tail6(s[2]) == c / 0x40 % 0x40 && Tail6(s[3]) == c % 0x40;
    SixBitGroups(c);
  }

  lemma SixBitGroups(c: nat)
    ensures c / 0x40 == c / 0x1000 * 0x40 + c / 0x40 % 0x40 && c == c / 0x40 * 0x40 + c % 0x40
    ensures c / 0x1000 == c / 0x4_0000 * 0x40 + c / 0x1000 % 0x40
  {
  }

  lemma WideMatches(op: ClassOp, rs: seq<Range>, c: nat)
    requires (op.Any? || op.Span?) && !IsAscii(rs) && InSet(rs, c) && c < CODEPOINTS
    ensures ClassStep(Wide(c), op, Some(rs), 0) == Some(4)
  {
    hide Wide, IsAscii, InSet;
    WideReads(c);
    var s := Wide(c);
    assert UnitAt(Some(rs), s, 0) == Some(Unit(true, 4));
    assert UnitAt(Some(rs), s, 4) == None;
    assert RunEnd(Some(rs), s, 4, true) == 4;
  }

  /** Wherever the operation succeeds, the next byte is one that the analysis sets. */
  ghost predicate StepsAreSound(op: ClassOp, rs: seq<Range>) {
    forall s: seq<byte>, pos: nat :: pos <= |s| && ClassStep(s, op, Some(rs), pos).Some? ==> pos < |s| && InMap(rs, s[pos])
  }

  /** For ANY and SPAN the bytes the analysis sets are the right ones exactly when the class is ASCII. */
  lemma ClassExact(op: ClassOp, rs: seq<Range>)
    requires Proper(rs) && Bounded(rs) && (op.Any? || op.Span?)
    ensures StepsAreSound(op, rs) <==> IsAscii(rs)
  {
    hide ClassStep, InMap;
    if IsAscii(rs) {
      forall s: seq<byte>, pos: nat | pos <= |s| && ClassStep(s, op, Some(rs), pos).Some?
        ensures pos < |s| && InMap(rs, s[pos])
      {
        ClassBegins(s, op, rs, pos);
      }
    } else {
      var c := BeyondAscii(rs);
      WideMatches(op, rs, c);
      WideReads(c);
      MapIsSet(rs, Wide(c)[0]);
    }
  }

  lemma BeyondAscii(rs: seq<Range>) returns (c: nat)
    requires Proper(rs) && Bounded(rs) && !IsAscii(rs)
    ensures InSet(rs, c) && c < CODEPOINTS
  {
    var i :| 0 <= i < |rs| && !(rs[i].lo < 0x80 && rs[i].hi < 0x80);
    c := rs[i].hi;
    assert Covers(rs[i], c);
  }

  /** Code that begins with a class operation and then accepts. */
  predicate ClassAlone(code: seq<byte>, classes: seq<CharClass>, op: ClassOp, rs: seq<Range>) {
    && (op.Any? || op.Span?)
    && 4 <= |code| && code[0] == ClassOpcode(op) && code[3] == OP_ACCEPT && ClassAt(classes, U16At(code, 1)) == Some(rs)
  }

  lemma ClassAloneRuns(env: Env, op: ClassOp, rs: seq<Range>, f: nat)
    requires ClassAlone(env.code, env.classes, op, rs)
    ensures var r, step := Eval(env, 0, Fresh(0), f), ClassStep(env.subject, op, Some(rs), 0);
      && (r.Decided? && r.v.Accepted? ==> step.Some?)
      && (f >= 2 && step.Some? ==> r == Decided(Accepted(Fresh(0).(pos := step.value))))
  {
    hide ClassStep, U16At;
    assert Decode(env, 0) == Do(InClass(op, Some(rs)), 3);
    assert Decode(env, 3) == Win;
    hide Decode;
  }

  lemma ClassAloneBits(code: seq<byte>, classes: seq<CharClass>, op: ClassOp, rs: seq<Range>, b: byte)
    requires ClassAlone(code, classes, op, rs)
    ensures WalkBits(classes, code, 0, [], NoBytes(), 0)[b] <==> InMap(rs, b)
  {
    hide U16At, InMap;
    var m := MoveAt(classes, code, 0);
    assert m == ClassMove(classes, code, 0, false);
    assert m.Begins? && m.inside(b) == InMap(rs, b);
    hide MoveAt;
    assert WalkBits(classes, code, 0, [], NoBytes(), 0) == Mark(NoBytes(), m.inside);
  }

  /** A program of one ANY or SPAN has sound start bytes exactly when its class is ASCII. */
  lemma ClassStartsExact(code: seq<byte>, classes: seq<CharClass>, op: ClassOp, rs: seq<Range>)
    requires ClassAlone(code, classes, op, rs) && Proper(rs) && Bounded(rs)
    ensures StartsAreSound(code, classes) <==> IsAscii(rs)
  {
    hide ClassStep, InMap, ClassAlone, Eval, WalkBits;
    if IsAscii(rs) {
      forall s: seq<byte> ensures !Missed(Env(code, classes, s)) {
        var env := Env(code, classes, s);
        if Consumes(env, 0, Fresh(0)) && s != [] {
          var f: nat, end: State :| Eval(env, 0, Fresh(0), f) == Decided(Accepted(end)) && end.pos > 0;
          ClassAloneRuns(env, op, rs, f);
          ClassIsOne(code, classes, op, rs);
          ClassBegins(s, op, rs, 0);
          ClassAloneBits(code, classes, op, rs, s[0]);
        }
      }
    } else {
      var c := BeyondAscii(rs);
      WideIsMissed(code, classes, op, rs, c);
    }
  }

  lemma ClassIsOne(code: seq<byte>, classes: seq<CharClass>, op: ClassOp, rs: seq<Range>)
    requires ClassAlone(code, classes, op, rs)
    ensures op.Any? || op.Span?
  {
  }

  lemma WideIsMissed(code: seq<byte>, classes: seq<CharClass>, op: ClassOp, rs: seq<Range>, c: nat)
    requires ClassAlone(code, classes, op, rs) && !IsAscii(rs) && InSet(rs, c) && c < CODEPOINTS
    ensures Missed(Env(code, classes, Wide(c)))
  {
    hide ClassStep, InMap, ClassAlone, Eval, WalkBits, Wide, InSet, IsAscii;
    var env := Env(code, classes, Wide(c));
    ClassIsOne(code, classes, op, rs);
    WideMatches(op, rs, c);
    WideReads(c);
    ClassAloneRuns(env, op, rs, 2);
    assert Eval(env, 0, Fresh(0), 2) == Decided(Accepted(Fresh(0).(pos := 4)));
    ClassAloneBits(code, classes, op, rs, Wide(c)[0]);
    MapIsSet(rs, Wide(c)[0]);
  }

  // ----- The same, compiled -----

  /** The pattern of one ANY or SPAN, as it is compiled. */
  predicate OneClass(op: ClassOp, set_: seq<byte>) {
    (op.Any? && set_ != []) || op.Span?
  }

  lemma OneClassGenerates(op: ClassOp, set_: seq<byte>)
    requires OneClass(op, set_)
    ensures Gen(ClassNode(op, set_), 0, NO_TABLES)
         == Some(Generated(Leaf(Class(op, 1)), NO_TABLES.(classes := [ClassOf(set_)])))
  {
    hide Gen, ClassOf;
    GenClass(op, set_, 0, NO_TABLES);
    assert [] + [ClassOf(set_)] == [ClassOf(set_)];
  }

  lemma OneClassImage(op: ClassOp, set_: seq<byte>)
    requires OneClass(op, set_) && Short(ClassNode(op, set_))
    ensures var image := Compiled(ClassNode(op, set_)).value;
      LoadClasses(image) == [ClassOf(set_)] && ClassAlone(image, LoadClasses(image), op, ClassOf(set_).ranges)
  {
    hide Gen, ImageOf, LoadClasses, FusedBody, ClassOf, Canonical, FewRanges, Compiled;
    var a, t, classes := ClassNode(op, set_), Leaf(Class(op, 1)), [ClassOf(set_)];
    OneClassGenerates(op, set_);
    var g := Generated(t, NO_TABLES.(classes := classes));
    assert Weight(t) == 3 by { ClassBytes(op); }
    BodyStays(a, t, classes);
    CompiledIs(a, g);
    var image := Compiled(a).value;
    ShortImageIsSmall(BodyOf(t), classes, []);
    UnfusedImage(a, t, classes);
    SectionsAt(BodyOf(t), classes, []);
    OneClassReads(image, op, set_);
  }

  lemma ClassBytes(op: ClassOp)
    ensures Encode(Class(op, 1)) == [ClassOpcode(op)] + Enc16(1)
  {
    hide Enc16;
  }

  lemma OneClassReads(image: seq<byte>, op: ClassOp, set_: seq<byte>)
    requires OneClass(op, set_) && At(image, 0, BodyOf(Leaf(Class(op, 1)))) && LoadClasses(image) == [ClassOf(set_)]
    ensures ClassAlone(image, LoadClasses(image), op, ClassOf(set_).ranges)
  {
    hide Encode, Enc16, LoadClasses, ClassOf, At, U16At, Emitted;
    var t := Leaf(Class(op, 1));
    ClassBytes(op);
    EmittedOf(t, 0);
    AtConcat(image, 0, Emitted(t, 0), [OP_ACCEPT]);
    AtConcat(image, 0, [ClassOpcode(op)], Enc16(1));
    AtByte(image, 0, [ClassOpcode(op)], 0);
    AtByte(image, 3, [OP_ACCEPT], 0);
    AtEnds(image, 3, [OP_ACCEPT]);
    Decode16(image, 1, 1);
    assert Low16(1) == 1;
  }

  /** The compiled ANY or SPAN of a set string has sound start bytes exactly when the set is ASCII. */
  lemma CompiledClassExact(op: ClassOp, set_: seq<byte>)
    requires OneClass(op, set_) && Short(ClassNode(op, set_))
    ensures var image := Compiled(ClassNode(op, set_)).value;
      StartsAreSound(image, LoadClasses(image)) <==> IsAscii(ParseSet(set_, 0))
  {
    hide Compiled, LoadClasses, StartsAreSound, ClassAlone, ParseSet, Proper, Bounded, IsAscii;
    var image, rs := Compiled(ClassNode(op, set_)).value, ClassOf(set_).ranges;
    OneClassImage(op, set_);
    ParseSetBounded(set_, 0);
    NormalFormBounded(ParseSet(set_, 0));
    assert Proper(rs) && (IsAscii(rs) <==> IsAscii(ParseSet(set_, 0))) by { ClassAscii(set_); }
    ClassStartsExact(image, LoadClasses(image), op, rs);
  }

  lemma ClassAscii(set_: seq<byte>)
    ensures Proper(ClassOf(set_).ranges) && (IsAscii(ClassOf(set_).ranges) <==> IsAscii(ParseSet(set_, 0)))
  {
    hide ParseSet;
    AsciiByMembers(ClassOf(set_).ranges);
    AsciiByMembers(ParseSet(set_, 0));
  }

  // ----- An accented letter -----

  /** The UTF-8 spelling of U+00E9. */
  const ACCENTED: seq<byte> := [0xC3, 0xA9]

  lemma AccentedParses()
    ensures ClassOf(ACCENTED) == CharClass([Range(0xE9, 0xE9)], false)
  {
    assert Peek(ACCENTED, 0) == Some(Peeked(0xE9, 2));
    assert ParseSet(ACCENTED, 2) == [];
    assert ParseSet(ACCENTED, 0) == [Range(0xE9, 0xE9)];
    assert [Range(0xE9, 0xE9)][1..] == [];
  }

  lemma OneClassIsShort(op: ClassOp, set_: seq<byte>)
    requires OneClass(op, set_) && |ClassOf(set_).ranges| == 1
    ensures Short(ClassNode(op, set_))
  {
    hide Gen, ImageOf, LoadClasses, FusedBody, ClassOf, Canonical, Compiled;
    var a, t, classes := ClassNode(op, set_), Leaf(Class(op, 1)), [ClassOf(set_)];
    OneClassGenerates(op, set_);
    assert Weight(t) == 3 by { ClassBytes(op); }
    BodyStays(a, t, classes);
    UnfusedImage(a, t, classes);
    SectionsAt(BodyOf(t), classes, []);
    assert |BodyOf(t)| == 4 by { EmittedWidth(t, 0); }
    assert |Blobs(classes)| == 12 by { OneBlob(ClassOf(set_)); }
  }

  lemma OneBlob(c: CharClass)
    ensures |Blobs([c])| == 4 + 8 * |c.ranges|
  {
    assert [c][1..] == [];
  }

  /** ANY of the accented letter, compiled, on that letter: the match begins with a byte outside the set. */
  lemma NonAsciiClassIsMissed()
    ensures Short(ClassNode(Any, ACCENTED)) && Missed(Boot(Compiled(ClassNode(Any, ACCENTED)).value, ACCENTED))
  {
    hide Compiled, LoadClasses, ClassAlone, Eval, WalkBits, ClassStep;
    AccentedParses();
    var rs := [Range(0xE9, 0xE9)];
    OneClassIsShort(Any, ACCENTED);
    OneClassImage(Any, ACCENTED);
    var env := Boot(Compiled(ClassNode(Any, ACCENTED)).value, ACCENTED);
    assert ClassStep(ACCENTED, Any, Some(rs), 0) == Some(2) by { AccentedMatches(); }
    ClassAloneRuns(env, Any, rs, 2);
    assert Eval(env, 0, Fresh(0), 2) == Decided(Accepted(Fresh(0).(pos := 2)));
    ClassAloneBits(env.code, env.classes, Any, rs, 0xC3);
    MapIsSet(rs, 0xC3);
  }

  lemma AccentedMatches()
    ensures ClassStep(ACCENTED, Any, Some([Range(0xE9, 0xE9)]), 0) == Some(2)
  {
    var rs := [Range(0xE9, 0xE9)];
    assert !IsAscii(rs) by { assert rs[0].lo >= 0x80; }
    assert Peek(ACCENTED, 0) == Some(Peeked(0xE9, 2));
    assert InSet(rs, 0xE9) by { assert Covers(rs[0], 0xE9); }
  }

  // ----- Tabulation -----

  lemma TabbedBits(code: seq<byte>, classes: seq<CharClass>, op: CountOp, n: nat, text: seq<byte>, b: byte)
    requires BeginsTabbed(code, op, n, text)
    ensures WalkBits(classes, code, 0, [], NoBytes(), 0)[b] <==> b == text[0]
  {
    hide U32At, Tabbed, At;
    TabbedLayout(code, op, n, text);
    FirstOfSlice(code, 14, text);
    Fits32(14 + |text|);
    var m := MoveAt(classes, code, 5);
    assert m == LitMove(code, 5);
    assert m.Begins? && m.inside(b) == (b == text[0]);
    assert MoveAt(classes, code, 0) == Along(5);
    hide MoveAt;
    assert WalkBits(classes, code, 5, [], NoBytes(), 1) == Mark(NoBytes(), m.inside);
  }

  lemma FirstOfSlice(s: seq<byte>, p: nat, text: seq<byte>)
    requires p + |text| <= |s| && s[p..p + |text|] == text && text != []
    ensures s[p] == text[0]
  {
  }

  /** Behind TAB or RTAB the start bytes of a literal are sound exactly when the literal is pinned. */
  lemma TabStartsExact(code: seq<byte>, classes: seq<CharClass>, op: CountOp, n: nat, text: seq<byte>)
    requires BeginsTabbed(code, op, n, text)
    ensures StartsAreSound(code, classes) <==> Pinned(op, n, text)
  {
    hide Eval, WalkBits, BeginsTabbed, Pinned, Occurs, Target;
    TabbedText(code, op, n, text);
    if Pinned(op, n, text) {
      forall s: seq<byte> ensures !Missed(Env(code, classes, s)) {
        var env := Env(code, classes, s);
        if Consumes(env, 0, Fresh(0)) && s != [] {
          var f: nat, end: State :| Eval(env, 0, Fresh(0), f) == Decided(Accepted(end)) && end.pos > 0;
          TabbedRuns(env, op, n, text, f);
          PinnedStays(op, n, text, s);
          FirstOfOccurrence(s, text);
          TabbedBits(code, classes, op, n, text, s[0]);
        }
      }
    } else {
      TabIsMissed(code, classes, op, n, text);
    }
  }

  /** The match that is missed behind a tabulation. */
  lemma TabIsMissed(code: seq<byte>, classes: seq<CharClass>, op: CountOp, n: nat, text: seq<byte>)
    requires BeginsTabbed(code, op, n, text) && text != [] && !Pinned(op, n, text)
    ensures Missed(Env(code, classes, Elsewhere(op, n, text)))
  {
    hide Eval, WalkBits, BeginsTabbed, Pinned, Occurs, Target, Elsewhere;
    var s := Elsewhere(op, n, text);
    var env := Env(code, classes, s);
    ElsewhereReached(op, n, text);
    TabbedRuns(env, op, n, text, 3);
    assert Eval(env, 0, Fresh(0), 3) == Decided(Accepted(Fresh(0).(pos := Target(op, n, s) + |text|)));
    TabbedBits(code, classes, op, n, text, s[0]);
  }

  /** The compiled pattern of a tabulation and a literal. */
  function TabPattern(op: CountOp, n: int32, text: seq<byte>): Ast { Concat([CountNode(op, n), Literal(text)]) }

  lemma TabGenerates(op: CountOp, n: int32, text: seq<byte>)
    requires Tabulates(op)
    ensures Gen(TabPattern(op, n, text), 0, NO_TABLES)
         == Some(Generated(Sequence([Leaf(Count(op, n)), TextLeaf(text)]), NO_TABLES))
    ensures Weight(Leaf(Count(op, n))) == 5
  {
    hide Enc32;
    var count, t := Leaf(Count(op, n)), TextLeaf(text);
    assert Weight(count) == 5;
    assert GenAll([], 5 + Weight(t), NO_TABLES) == Some(GeneratedAll([], NO_TABLES));
    GenCons(Literal(text), [], 5, NO_TABLES, t, NO_TABLES, [], NO_TABLES);
    assert [Literal(text)] + [] == [Literal(text)] && [t] + [] == [t];
    GenCons(CountNode(op, n), [Literal(text)], 0, NO_TABLES, count, NO_TABLES, [t], NO_TABLES);
    assert [CountNode(op, n)] + [Literal(text)] == TabPattern(op, n, text).parts && [count] + [t] == [count, t];
  }

  lemma TabLaidOut(op: CountOp, n: int32, text: seq<byte>)
    requires Tabulates(op) && 0 <= n
    ensures var t := Sequence([Leaf(Count(op, n)), TextLeaf(text)]);
      BodyOf(t) == Tabbed(op, n, text) && Weight(t) == 14 + |text|
  {
    hide Encode, Enc32, Emitted, EmittedAll, Weight;
    var ps := [Leaf(Count(op, n)), TextLeaf(text)];
    TabGenerates(op, n, text);
    EmittedOf(Sequence(ps), 0);
    EmittedOfAll(ps, 0);
    EmittedOfAll(ps[1..], 5);
    assert ps[1..][1..] == [];
    EmittedOfAll([], 5 + Weight(ps[1]));
    EmittedOf(ps[0], 0);
    EmittedOf(ps[1], 5);
    TabBytes(op, n, text);
  }

  lemma TabBytes(op: CountOp, n: int, text: seq<byte>)
    ensures Encode(Count(op, n)) == [CountOpcode(op)] + Enc32(n)
    ensures Encode(Lit(14, text)) == [OP_LIT] + (Enc32(14) + Enc32(|text|) + text)
  {
    hide Enc32;
  }

  lemma TabStays(op: CountOp, n: int32, text: seq<byte>)
    ensures var t := Sequence([Leaf(Count(op, n)), TextLeaf(text)]); FuseTree(t, []) == FusedTree(t, [])
  {
    var count, t := Leaf(Count(op, n)), TextLeaf(text);
    FuseCons(t, []);
    assert [t] + [] == [t];
    FuseCons(count, [t]);
    assert [count] + [t] == [count, t];
  }

  /** The compiled tabulation and literal have sound start bytes exactly when the literal is pinned. */
  lemma CompiledTabExact(op: CountOp, n: int32, text: seq<byte>)
    requires Tabulates(op) && text != [] && |text| < 0xE000 && Ordinary(TabPattern(op, n, text))
    ensures n >= 0 && Compiled(TabPattern(op, n, text)).Some?
    ensures var image := Compiled(TabPattern(op, n, text)).value;
      BeginsTabbed(image, op, n, text) && (StartsAreSound(image, LoadClasses(image)) <==> Pinned(op, n, text))
  {
    hide Compiled, LoadClasses, StartsAreSound, Pinned, Tabbed, BodyOf, FuseTree, Gen, Weight;
    var a := TabPattern(op, n, text);
    assert n >= 0 by { assert a.parts[0] == CountNode(op, n); }
    TabGenerates(op, n, text);
    TabLaidOut(op, n, text);
    TabStays(op, n, text);
    ClasslessImage(a, Sequence([Leaf(Count(op, n)), TextLeaf(text)]));
    var image := Compiled(a).value;
    assert image[0..|Tabbed(op, n, text)|] == Tabbed(op, n, text);
    TabStartsExact(image, LoadClasses(image), op, n, text);
  }

  /** TAB(1) and the literal x, compiled, on "ax": the match begins with a byte outside the set. */
  lemma TabPatternIsMissed()
    ensures Compiled(TabPattern(Tab, 1, [0x78])).Some?
    ensures Missed(Boot(Compiled(TabPattern(Tab, 1, [0x78])).value, [0x61, 0x78]))
  {
    hide Compiled, LoadClasses, BeginsTabbed;
    var text: seq<byte> := [0x78];
    assert !Pinned(Tab, 1, text);
    assert Ordinary(TabPattern(Tab, 1, text));
    CompiledTabExact(Tab, 1, text);
    var image := Compiled(TabPattern(Tab, 1, text)).value;
    TabIsMissed(image, LoadClasses(image), Tab, 1, text);
    assert Elsewhere(Tab, 1, text) == [0x61, 0x78];
  }

  lemma YieldsConsumes(env: Env, st: State, end: State)
    requires Inside(env, st) && Yields(env, 0, st, Decided(Accepted(end))) && end.pos > st.pos
    ensures Consumes(env, 0, st)
  {
    hide Eval;
    var f: nat :| Eval(env, 0, st, f) == Decided(Accepted(end));
  }

  /** An inline literal of one byte. */
  lemma ByteDecodes(env: Env, p: nat, b: byte)
    requires p + 10 <= |env.code| && env.code[p] == OP_LIT && env.code[p + 9] == b
    requires U32At(env.code, p + 1) == p + 9 && U32At(env.code, p + 5) == 1
    ensures Decode(env, p) == Do(Text([b]), p + 10)
  {
    hide U32At;
    assert env.code[p + 9..p + 10] == [b];
  }

  lemma WinDecodes(env: Env, p: nat)
    requires p < |env.code| && env.code[p] == OP_ACCEPT
    ensures Decode(env, p) == Win
  {
  }

  // ----- Code that runs off its end -----

  /** SPLIT to the literal x and ACCEPT, or to a NOP that is the last byte of the code. */
  function Unfinished(): Env {
    Env([3, 0, 0, 0, 9, 0, 0, 0, 20, 4, 0, 0, 0, 18, 0, 0, 0, 1, 0x78, 0, 41], [], [0x78])
  }

  lemma SplitDecodes(env: Env, p: nat)
    requires p + 9 <= |env.code| && env.code[p] == OP_SPLIT
    ensures Decode(env, p) == Fork(U32At(env.code, p + 1), U32At(env.code, p + 5))
  {
    hide U32At;
  }

  lemma UnfinishedDecodes()
    ensures var env := Unfinished();
      && Decode(env, 0) == Fork(9, 20) && Decode(env, 9) == Do(Text([0x78]), 19) && Decode(env, 19) == Win
      && Decode(env, 20) == Do(Skip, 21)
  {
    hide Decode, U32At;
    UnfinishedOperands();
    SplitDecodes(Unfinished(), 0);
    ByteDecodes(Unfinished(), 9, 0x78);
    WinDecodes(Unfinished(), 19);
    UnfinishedEnds();
  }

  lemma UnfinishedOperands()
    ensures var code := Unfinished().code;
      U32At(code, 1) == 9 && U32At(code, 5) == 20 && U32At(code, 10) == 18 && U32At(code, 14) == 1
  {
  }

  lemma UnfinishedEnds()
    ensures Decode(Unfinished(), 20) == Do(Skip, 21)
  {
  }

  lemma UnfinishedRuns()
    ensures Consumes(Unfinished(), 0, Fresh(0))
  {
    hide Decode, Yields, Consumes;
    var env, won := Unfinished(), Decided(Accepted(Fresh(1)));
    UnfinishedDecodes();
    assert env.subject[0..1] == [0x78];
    YieldsNow(env, 19, Fresh(1), won);
    YieldsDo(env, 9, Fresh(0), Text([0x78]), 19, won);
    YieldsNow(env, 21, Fresh(0), Exhausted);
    YieldsDo(env, 20, Fresh(0), Skip, 21, Exhausted);
    YieldsFork(env, 0, Fresh(0), 9, 20, won, Exhausted);
    YieldsConsumes(env, Fresh(0), Fresh(1));
  }

  /** One branch is still stacked when the walk runs off the end, and a match along it is missed. */
  lemma PendingBranchIsMissed()
    ensures LostFrom([], Unfinished().code, 0, [], 0).branches == [9] && Missed(Unfinished())
  {
    hide Consumes;
    UnfinishedRuns();
    var code := Unfinished().code;
    UnfinishedOperands();
    assert MoveAt([], code, 0) == Both(9, 20);
    assert MoveAt([], code, 20) == Along(21);
    hide MoveAt, U32At;
    assert [] + [9] == [9 as nat];
    assert WalkBits([], code, 20, [9], NoBytes(), 1) == NoBytes();
    assert LostFrom([], code, 0, [], 0) == LostFrom([], code, 20, [9], 1) == Lost([9], 2);
  }

  /** The compiler cannot produce such code: on the image of an ordinary pattern nothing is lost. */
  lemma CompiledLosesNothing(a: Ast)
    requires Ordinary(a) && Short(a)
    ensures var image := Compiled(a).value; LostFrom(LoadClasses(image), image, 0, [], 0).branches == []
  {
    hide Ordinary, Gen, ImageOf, FusedBody, Matchable, FusesCleanly, LoadClasses, LostFrom, FusedTreeOf, Plain,
         Walkable, At, BodyOf;
    OrdinaryFusesCleanly(a, []);
    FusedTreeFits(a, []);
    BodyLosesNothing(Boot(Compiled(a).value, []), FusedTreeOf(a));
  }
}
