/** Searching with a compiled alternation of literals: exactly when the skip table, made from what the first
    sixty-four literals share, lets the search find every match on every subject. */
module CrowdedSearch {
  import opened Wrappers
  import opened Bytes
  import opened Layout
  import opened CharClasses
  import opened Semantics
  import opened Pattern
  import opened Translate
  import opened FusedLayout
  import opened FusionMeaning
  import opened FusionPreserves
  import opened Trailer
  import opened Compiler
  import opened EndToEnd
  import opened Horspool
  import opened SharedPrefix
  import opened AlternationPrefix
  import opened Search
  import opened Attempts
  import opened EmptyMatches
  import opened TrackablePatterns
  import opened SearchMeta
  import opened CompiledSearch
  import opened CompiledPrefix
  import opened CrowdedAlternation
  import opened OrdinarySearch
  import opened Bytecode
  import opened LeadingLiteral
  import opened MinLength
  import opened StartBitmap
  import opened OrdinaryPatterns
  import opened UnfusedImages

  // ----- What an alternation of literals matches -----

  lemma {:induction false} WordsAreSimple(a: Ast)
    requires Words(a)
    ensures Matchable(a) && Trackable(a) && NoAbort(a) && forall b: byte :: !EmptyAt(a, b)
  {
    if a.Alt? {
      WordsAreSimple(a.left);
      WordsAreSimple(a.right);
      forall b: byte ensures !EmptyAt(a, b) {
        assert !EmptyAt(a.left, b) && !EmptyAt(a.right, b);
      }
    }
  }

  lemma OccursJoin(a: seq<seq<byte>>, b: seq<seq<byte>>, s: seq<byte>, at: nat)
    ensures SomeOccurs(a + b, s, at) <==> SomeOccurs(a, s, at) || SomeOccurs(b, s, at)
  {
    SomeOccursJoin(a, b, s, at);
    OccursInJoin(a, b, s, at);
  }

  lemma {:induction false} WordsOutcome(a: Ast, s: seq<byte>, st: State)
    requires Words(a) && Matchable(a)
    ensures Meaning(a, s, st).fin.Exhausted?
    ensures Meaning(a, s, st).states != [] <==> SomeOccurs(TextsOf(a), s, st.pos)
  {
    hide Occurs, PrimStep;
    if a.Literal? {
      TextOccurs(s, a.text, st);
      if Occurs(s, st.pos, a.text) { assert Occurs(s, st.pos, [a.text][0]); }
    } else {
      WordsOutcome(a.left, s, st);
      WordsOutcome(a.right, s, st);
      OccursJoin(TextsOf(a.left), TextsOf(a.right), s, st.pos);
    }
  }

  lemma OccursInRest(s: seq<byte>, off: nat, p: seq<byte>)
    requires off <= |s|
    ensures Occurs(s[off..], 0, p) <==> Occurs(s, off, p)
  {
    if off + |p| <= |s| { assert s[off..][0..|p|] == s[off..off + |p|]; }
  }

  /** An attempt succeeds exactly where one of the literals stands. */
  lemma WordsMatch(a: Ast, s: seq<byte>, off: nat)
    requires Words(a) && Matchable(a) && off <= |s|
    ensures MeantAttempt(a, s, off).Hit? <==> SomeOccurs(TextsOf(a), s, off)
    ensures !MeantAttempt(a, s, off).Hit? ==> MeantAttempt(a, s, off).Miss?
  {
    hide Occurs, Meaning, TextsOf;
    var rest, ls := s[off..], TextsOf(a);
    WordsOutcome(a, rest, Fresh(0));
    if SomeOccurs(ls, rest, 0) {
      var j :| 0 <= j < |ls| && Occurs(rest, 0, ls[j]);
      OccursInRest(s, off, ls[j]);
    }
    if SomeOccurs(ls, s, off) {
      var j :| 0 <= j < |ls| && Occurs(s, off, ls[j]);
      OccursInRest(s, off, ls[j]);
    }
  }

  lemma WordsNeverAbort(a: Ast, s: seq<byte>)
    requires Words(a) && Matchable(a)
    ensures NeverAborting(MeantAttempts(a, s))
  {
    hide MeantAttempt;
    forall off: nat ensures !MeantAttempts(a, s)(off).Aborts? {
      if off <= |s| { WordsMatch(a, s, off); } else { NothingBeyond(a, s, off); }
    }
  }

  lemma NothingBeyond(a: Ast, s: seq<byte>, off: nat)
    requires Matchable(a) && off > |s|
    ensures MeantAttempt(a, s, off) == Miss
  {
  }

  // ----- Its compiled form is right on every subject -----

  lemma {:induction false} WordsAreSafe(a: Ast, s: seq<byte>)
    requires Words(a) && Canonical([])
    ensures SafeTree(TreeOf(a), [], s)
  {
    hide Canonical, AsArm, SafeOn, FusePair;
    WordsStay(a);
    if a.Alt? {
      WordsStay(a.left);
      WordsStay(a.right);
      WordsAreSafe(a.left, s);
      WordsAreSafe(a.right, s);
    }
  }

  lemma FitsIsShort(a: Ast)
    requires Words(a) && Fits(a)
    ensures Ordinary(a) && Short(a) && |Compiled(a).value| >= 2
  {
    hide Compiled, Ordinary, FuseTree, Gen, LoadClasses;
    WordsAreOrdinary(a);
    WordsGenerate(a, 0);
    WordsStay(a);
    ClasslessImage(a, TreeOf(a));
  }

  lemma WordsFuseCleanly(a: Ast, s: seq<byte>)
    requires Words(a) && Fits(a)
    ensures Matchable(a) && Short(a) && FusesCleanly(a, s)
  {
    hide Ordinary, Compiled, FusesAtStarts, SafeTree, FusedBody, Fits, NoOverlong;
    FitsIsShort(a);
    OrdinaryFusesCleanly(a, []) by { NothingOverlong(); }
    WordsGenerate(a, 0);
    WordsAreSafe(a, s);
  }

  lemma NothingOverlong()
    ensures NoOverlong([])
  {
  }

  /** On every subject start bytes and minimum length turn no match away. */
  lemma WordsFilters(a: Ast, s: seq<byte>)
    requires Words(a) && Fits(a)
    ensures Matchable(a) && Short(a) && LeadsForward(Compiled(a).value)
    ensures HidesNoMatch(DerivedFilters(Compiled(a).value), s, MeantAttempts(a, s)) && NeverAborting(MeantAttempts(a, s))
  {
    hide Compiled, FusesCleanly, Gen, MeantAttempts, HidesNoMatch, HidesNothing, DerivedFilters, Fits, EmptyAt,
         MayMatchEmpty, StartBytes, LeadsForward, ByteFilters;
    WordsFuseCleanly(a, s);
    WordsGenerate(a, 0);
    WordsAreSimple(a);
    CompiledIsForward(a, s);
    forall off | 0 <= off <= |s| ensures FusesCleanly(a, s[off..]) { WordsFuseCleanly(a, s[off..]); }
    ImageFiltersAreSound(a, s);
    ByteFiltersSuffice(Compiled(a).value, s, MeantAttempts(a, s));
    WordsNeverAbort(a, s);
  }

  /** The prefix of the derived filters is what the first sixty-four literals share, if anything. */
  lemma WordsPrefix(a: Ast)
    requires Words(a) && Fits(a) && a.Alt?
    ensures Compiled(a).Some? && LeadsForward(Compiled(a).value)
    ensures var f, p := DerivedFilters(Compiled(a).value), SharedBy(TextsOf(a));
      f.bits.Some? && f.prefix == if p == [] then None else Some(p)
  {
    hide Compiled, Fits, LoadClasses, LeadsMatches, LaterAgree, LeadsForward, DerivedPrefix, TextsOf, StartBytes,
         MayMatchEmpty, MinLen;
    CompiledPrefixExact(a);
    CompiledWords(a);
    SplitHasNoLead(Compiled(a).value);
  }

  function SharedBy(ls: seq<seq<byte>>): seq<byte> { CommonPrefix(SharedPrefix.Kept(ls)) }

  lemma SplitHasNoLead(code: seq<byte>)
    requires code != [] && code[0] == OP_SPLIT
    ensures Leading(code) == []
  {
  }

  // ----- Matches that are passed over -----

  /** Behind a miss that begins with the start byte `b`, literal `n` is passed over when it is overtaken at offset
      `j` of the prefix; right behind that byte only if no literal begins there with it. */
  predicate Overlooked(ls: seq<seq<byte>>, p: seq<byte>, starts: ByteSet, n: nat, j: nat, b: byte) {
    && n < |ls| && j + 1 < |p| && Overtaken(p, ls[n], j) && starts[b]
    && (j + 2 == |p| ==> NoneBegins(ls, [b] + ls[n]))
  }

  predicate NoneBegins(ls: seq<seq<byte>>, s: seq<byte>) { forall m :: 0 <= m < |ls| ==> !(ls[m] <= s) }

  ghost predicate SomeOverlooked(ls: seq<seq<byte>>, p: seq<byte>, starts: ByteSet) {
    exists n: nat, j: nat, b: byte :: Overlooked(ls, p, starts, n, j, b)
  }

  lemma PrefixOccursAt(s: seq<byte>, off: nat, p: seq<byte>, q: seq<byte>)
    requires off + |q| <= |s| && s[off..off + |q|] == q
    ensures p <= q ==> Occurs(s, off, p)
  {
    if p <= q { assert s[off..off + |p|] == q[..|p|]; }
  }

  lemma BytesFrom(s: seq<byte>, off: nat, w: seq<byte>)
    requires off < |s| && Occurs(s, off + 1, w)
    ensures s[off..off + 1 + |w|] == [s[off]] + w
  {
    assert s[off..off + 1 + |w|] == [s[off]] + s[off + 1..off + 1 + |w|];
  }

  /** A shift past a match overlooks some literal. */
  lemma ShiftOverlooks(a: Ast, f: Filters, s: seq<byte>, off: nat, k: nat)
    requires Words(a) && Matchable(a) && f.bits.Some? && f.prefix.Some? && f.prefix.value != []
    requires ShiftsPast(f, s, MeantAttempts(a, s), off, k)
    ensures SomeOverlooked(TextsOf(a), f.prefix.value, f.bits.value)
  {
    hide MeantAttempt, Occurs, TextsOf, Words;
    var ls, p := TextsOf(a), f.prefix.value;
    WordsMatch(a, s, off);
    WordsMatch(a, s, off + k);
    var n :| 0 <= n < |ls| && Occurs(s, off + k, ls[n]);
    assert off + |p| <= |s| && k < Shift(p, s[off + |p| - 1]);
    var j := |p| - 1 - k;
    ShiftExceeds(p, s[off + |p| - 1], |p| - 1, k);
    if j < |ls[n]| { WindowByte(s, off + k, ls[n], j); }
    assert Overtaken(p, ls[n], j);
    if k == 1 { NothingBegins(ls, s, off, ls[n]); }
    assert Overlooked(ls, p, f.bits.value, n, j, s[off]);
  }

  lemma NothingBegins(ls: seq<seq<byte>>, s: seq<byte>, off: nat, w: seq<byte>)
    requires off < |s| && !SomeOccurs(ls, s, off) && Occurs(s, off + 1, w)
    ensures NoneBegins(ls, [s[off]] + w)
  {
    BytesFrom(s, off, w);
    assert off + 1 + |w| <= |s|;
    hide Occurs;
    forall m | 0 <= m < |ls| ensures !(ls[m] <= [s[off]] + w) {
      PrefixOccursAt(s, off, ls[m], [s[off]] + w);
    }
  }

  lemma {:induction false} FlattenHas(ls: seq<seq<byte>>, m: nat, z: byte)
    requires m < |ls| && z in ls[m]
    ensures z in Flatten(ls)
  {
    if m > 0 { FlattenHas(ls[1..], m - 1, z); }
  }

  lemma {:induction false} TextSizeIs(a: Ast)
    requires Words(a)
    ensures |Flatten(TextsOf(a))| == TextSize(a)
  {
    if a.Literal? {
      FlattenOne(a.text);
    } else {
      TextSizeIs(a.left);
      TextSizeIs(a.right);
      FlattenConcat(TextsOf(a.left), TextsOf(a.right));
    }
  }

  /** A byte that no literal has. */
  lemma AbsentByte(a: Ast) returns (z: byte)
    requires Words(a) && Fits(a)
    ensures forall m :: 0 <= m < |TextsOf(a)| ==> z !in TextsOf(a)[m]
  {
    hide TextsOf, Words;
    TextSizeIs(a);
    z := FreshByte(Flatten(TextsOf(a)), 256);
    forall m | 0 <= m < |TextsOf(a)| ensures z !in TextsOf(a)[m] {
      if z in TextsOf(a)[m] { FlattenHas(TextsOf(a), m, z); }
    }
  }

  lemma {:induction false} WordsAreLong(a: Ast)
    requires Words(a)
    ensures forall m :: 0 <= m < |TextsOf(a)| ==> |TextsOf(a)[m]| >= 2
  {
    if a.Alt? {
      WordsAreLong(a.left);
      WordsAreLong(a.right);
    }
  }

  /** The start byte, filling, the literal, and more filling. */
  function Bait(b: byte, z: byte, k: nat, w: seq<byte>, n: nat): seq<byte>
    requires k > 0
  {
    [b] + Bridge(z, k - 1) + w + Bridge(z, n)
  }

  /** Nothing matches at the start byte. */
  lemma NothingAtBait(ls: seq<seq<byte>>, b: byte, z: byte, k: nat, w: seq<byte>, n: nat, m: nat)
    requires k > 0 && m < |ls| && |ls[m]| >= 2 && z !in ls[m] && (k == 1 ==> NoneBegins(ls, [b] + w))
    ensures !Occurs(Bait(b, z, k, w, n), 0, ls[m])
  {
    hide Occurs;
    var s, l := Bait(b, z, k, w, n), ls[m];
    if k > 1 {
      assert s[1] == z;
      SecondByte(s, l);
    } else {
      assert s == ([b] + w) + Bridge(z, n);
      InFront([b] + w, z, n, l);
    }
  }

  lemma SecondByte(s: seq<byte>, l: seq<byte>)
    requires |l| >= 2
    ensures Occurs(s, 0, l) ==> |s| >= 2 && s[1] in l
  {
    if Occurs(s, 0, l) { WindowByte(s, 0, l, 1); }
  }

  /** What stands at the start either ends before the filling or has some of it. */
  lemma InFront(front: seq<byte>, z: byte, n: nat, l: seq<byte>)
    ensures Occurs(front + Bridge(z, n), 0, l) ==> l <= front || z in l
  {
    var s := front + Bridge(z, n);
    if Occurs(s, 0, l) {
      if |l| > |front| {
        WindowByte(s, 0, l, |front|);
      } else {
        assert s[0..|l|] == front[..|l|];
      }
    }
  }

  lemma BaitHolds(b: byte, z: byte, k: nat, w: seq<byte>, n: nat)
    requires k > 0
    ensures var s := Bait(b, z, k, w, n); s[0] == b && |s| == k + |w| + n && Occurs(s, k, w)
  {
    assert [b] + Bridge(z, k - 1) + w + Bridge(z, n) == ([b] + Bridge(z, k - 1)) + w + Bridge(z, n);
    OccursBetween([b] + Bridge(z, k - 1), w, Bridge(z, n));
  }

  /** The window over it shifts past the literal. */
  lemma BaitIsShifted(p: seq<byte>, w: seq<byte>, j: nat, b: byte, z: byte)
    requires j + 1 < |p| && Overtaken(p, w, j) && z !in p
    ensures var s := Bait(b, z, |p| - 1 - j, w, |p|);
      |p| <= |s| && Shift(p, s[|p| - 1]) > |p| - 1 - j
  {
    var k := |p| - 1 - j;
    var s := Bait(b, z, k, w, |p|);
    OvertakenThere(p, w, j, z);
    assert s[|p| - 1] == (Bridge(z, k) + w + Bridge(z, |p|))[|p| - 1];
  }

  /** An overlooked literal is shifted past on some subject. */
  lemma OverlookedIsShifted(a: Ast, f: Filters, n: nat, j: nat, b: byte) returns (s: seq<byte>)
    requires Words(a) && Fits(a) && Matchable(a) && f.bits.Some? && f.prefix.Some? && f.prefix.value == SharedBy(TextsOf(a)) != []
    requires Overlooked(TextsOf(a), f.prefix.value, f.bits.value, n, j, b)
    ensures ShiftsPast(f, s, MeantAttempts(a, s), 0, |f.prefix.value| - 1 - j)
  {
    hide MeantAttempt, Occurs, TextsOf, Words, Bait, SharedBy, NoneBegins;
    var ls, p := TextsOf(a), f.prefix.value;
    var k, w := |p| - 1 - j, ls[n];
    var z := AbsentByte(a);
    WordsAreLong(a);
    assert z !in p by { SharedIsInFirst(ls, z); }
    s := Bait(b, z, k, w, |p|);
    BaitHolds(b, z, k, w, |p|);
    BaitIsShifted(p, w, j, b, z);
    forall m | 0 <= m < |ls| ensures !Occurs(s, 0, ls[m]) { NothingAtBait(ls, b, z, k, w, |p|, m); }
    WordsMatch(a, s, 0);
    assert SomeOccurs(ls, s, k);
    WordsMatch(a, s, k);
  }

  lemma SharedIsInFirst(ls: seq<seq<byte>>, z: byte)
    requires ls != [] && z !in ls[0]
    ensures z !in SharedBy(ls)
  {
    var k := SharedPrefix.Kept(ls);
    if |k| >= 2 {
      CommonIsLongest(k, []);
      assert CommonPrefix(k) <= ls[0];
    }
  }

  // ----- The search -----

  /** Behind its derived filters the search finds on every subject, from every offset, what the plain scan finds. */
  ghost predicate FindsAlways(a: Ast, image: seq<byte>)
    requires Matchable(a) && LeadsForward(image)
  {
    forall s: seq<byte>, start: nat :: SearchAgrees(a, image, s, start)
  }

  /** The search with a compiled alternation of literals finds everything, on every subject, exactly when none of
      its literals can be overlooked. */
  lemma CrowdedSearchExact(a: Ast)
    requires Words(a) && Fits(a) && a.Alt?
    ensures Matchable(a) && Compiled(a).Some? && LeadsForward(Compiled(a).value) && DerivedFilters(Compiled(a).value).bits.Some?
    ensures var image := Compiled(a).value;
      FindsAlways(a, image)
      <==> !SomeOverlooked(TextsOf(a), SharedBy(TextsOf(a)), DerivedFilters(image).bits.value)
  {
    hide Compiled, MeantAttempts, HidesNoMatch, DerivedFilters, Fits, Words, LeadsForward, NeverAborting,
         SkipsNoMatch, Filtered, PlainScan, TextsOf, SharedBy, Overlooked;
    WordsPrefix(a);
    WordsFilters(a, []);
    var image, ls := Compiled(a).value, TextsOf(a);
    var f, p := DerivedFilters(image), SharedBy(ls);
    if SomeOverlooked(ls, p, f.bits.value) {
      var n: nat, j: nat, b: byte :| Overlooked(ls, p, f.bits.value, n, j, b);
      assert p != [] by { OverlookedHasPrefix(ls, p, f.bits.value, n, j, b); }
      var s := OverlookedIsShifted(a, f, n, j, b);
      WordsFilters(a, s);
      ShiftedPast(f, s, MeantAttempts(a, s), 0, |p| - 1 - j);
      assert !SearchAgrees(a, image, s, 0);
    } else {
      forall s: seq<byte>, start: nat ensures SearchAgrees(a, image, s, start) {
        NotOverlooked(a, f, s);
        WordsFilters(a, s);
        FilteredIsPlain(f, s, MeantAttempts(a, s), start);
      }
    }
  }

  lemma OverlookedHasPrefix(ls: seq<seq<byte>>, p: seq<byte>, starts: ByteSet, n: nat, j: nat, b: byte)
    requires Overlooked(ls, p, starts, n, j, b)
    ensures p != []
  {
    hide NoneBegins, Overtaken;
  }

  lemma NotOverlooked(a: Ast, f: Filters, s: seq<byte>)
    requires Words(a) && Matchable(a) && f.bits.Some?
    requires var p := SharedBy(TextsOf(a));
      f.prefix == (if p == [] then None else Some(p)) && !SomeOverlooked(TextsOf(a), p, f.bits.value)
    ensures SkipsNoMatch(f, s, MeantAttempts(a, s))
  {
    hide MeantAttempts, TextsOf, SharedBy, SomeOverlooked, Words, Occurs;
    forall off: nat, k: nat ensures !ShiftsPast(f, s, MeantAttempts(a, s), off, k) {
      if ShiftsPast(f, s, MeantAttempts(a, s), off, k) {
        OneStep(f, s, off, k);
        ShiftOverlooks(a, f, s, off, k);
      }
    }
  }

  // ----- The crowd -----

  lemma CrowdShares()
    ensures Fits(Crowd(64)) && Crowd(64).Alt? && TextsOf(Crowd(64)) == Copies(64) + [BB] && |Copies(64)| == 64
    ensures SharedBy(TextsOf(Crowd(64))) == AA
  {
    hide Crowd, CommonPrefix;
    CrowdTexts(64);
    CrowdWeighs(64);
    CrowdFits(64);
    CrowdIsAlt(64);
    CommonOfCopies(64);
    assert SharedPrefix.Kept(Copies(64) + [BB]) == Copies(64);
  }

  lemma CrowdMatches(s: seq<byte>, off: nat)
    requires off <= |s|
    ensures SomeOccurs(Copies(64) + [BB], s, off) <==> Occurs(s, off, AA) || Occurs(s, off, BB)
  {
    hide Occurs;
    var ls := Copies(64) + [BB];
    assert ls[0] == AA && ls[64] == BB;
    assert forall j :: 0 <= j < |ls| ==> ls[j] == AA || ls[j] == BB;
  }

  lemma AbbHas()
    ensures var s: seq<byte> := [97, 98, 98];
      !Occurs(s, 0, AA) && !Occurs(s, 0, BB) && Occurs(s, 1, BB) && Occurs(AA, 0, AA) && Shift(AA, 98) == 2
  {
    var s: seq<byte> := [97, 98, 98];
    assert s[0..2] == [97, 98] && s[1..3] == BB && AA[0..2] == AA;
    assert s[0..2][1] != AA[1] && s[0..2][0] != BB[0];
  }

  /** On "abb" the sixty-five compiled alternatives match at offset 1, but the miss at offset 0 shifts past it. */
  lemma CrowdIsPassedOver()
    ensures var a, s: seq<byte> := Crowd(64), [97, 98, 98];
      && Matchable(a) && Compiled(a).Some? && LeadsForward(Compiled(a).value)
      && MeantAttempt(a, s, 0).Miss? && MeantAttempt(a, s, 1).Hit? && !SearchAgrees(a, Compiled(a).value, s, 0)
  {
    hide Crowd, Compiled, MeantAttempt, DerivedFilters, Fits, Words, LeadsForward, Filtered, PlainScan, TextsOf,
         SharedBy, Occurs, Shift, Copies;
    var a, s: seq<byte> := Crowd(64), [97, 98, 98];
    CrowdShares();
    WordsPrefix(a);
    WordsFilters(a, s);
    WordsFilters(a, AA);
    AbbHas();
    var f := DerivedFilters(Compiled(a).value);
    CrowdMatches(s, 0);
    CrowdMatches(s, 1);
    CrowdMatches(AA, 0);
    WordsMatch(a, s, 0);
    WordsMatch(a, s, 1);
    WordsMatch(a, AA, 0);
    assert !MeantAttempts(a, AA)(0).Miss?;
    assert Passes(f, AA, 0) && Passes(f, s, 0);
    assert ShiftsPast(f, s, MeantAttempts(a, s), 0, 1);
    ShiftedPast(f, s, MeantAttempts(a, s), 0, 1);
  }
}
