/** Ordinary patterns in short images: fusion is clean on every subject without overlong spellings, so
    searching and the logging machine mean what the pattern means under conditions on the pattern. */
module OrdinarySearch {
  import opened Wrappers
  import opened Bytes
  import opened Utf8
  import opened CharClasses
  import opened Semantics
  import opened Pattern
  import opened Translate
  import opened FusionPass
  import opened FusedScan
  import opened FusionMeaning
  import opened FusionPreserves
  import opened FusionSafety
  import opened GenShape
  import opened OrdinaryPatterns
  import opened Trailer
  import opened Compiler
  import opened EndToEnd
  import opened StartBitmap
  import opened Attempts
  import opened EmptyMatches
  import opened TrackablePatterns
  import opened SearchMeta
  import opened CompiledSearch
  import opened CompiledPrefix
  import opened Horspool
  import opened Search
  import opened LoggedMachine
  import opened LoggedPattern
  import U = UndoLog

  /** What holds of every suffix of the subject, since decoding looks ahead only. */
  lemma NoOverlongLater(s: seq<byte>, off: nat)
    requires NoOverlong(s) && off <= |s|
    ensures NoOverlong(s[off..])
  {
    hide Peek;
    var rest := s[off..];
    forall pos: nat | pos < |rest| ensures Peek(rest, pos) == Peek(s, off + pos) {
      PeekLater(s, off, pos);
    }
  }

  lemma PeekLater(s: seq<byte>, off: nat, pos: nat)
    requires off <= |s|
    ensures Peek(s[off..], pos) == Peek(s, off + pos)
  {
  }

  predicate Short(a: Ast) { Compiled(a).Some? && |Compiled(a).value| < U16 }

  /** Fusion is clean on everything a search looks at. */
  lemma OrdinaryEverywhere(a: Ast, s: seq<byte>)
    requires Ordinary(a) && Short(a) && NoOverlong(s)
    ensures Matchable(a) && Gen(a, 0, NO_TABLES).Some?
    ensures forall off :: 0 <= off <= |s| ==> FusesCleanly(a, s[off..])
  {
    hide Ordinary, NoOverlong, FusesCleanly, Gen, Matchable, Compiled;
    OrdinaryFusesCleanly(a, s);
    forall off | 0 <= off <= |s| ensures FusesCleanly(a, s[off..]) {
      NoOverlongLater(s, off);
      OrdinaryFusesCleanly(a, s[off..]);
    }
  }

  /** Ordinary patterns that never abort, whose code the analysis can follow, in short images. */
  predicate Searchable(a: Ast) { Ordinary(a) && Trackable(a) && NoAbort(a) && Short(a) }

  lemma OrdinaryIsForward(a: Ast)
    requires Ordinary(a) && Short(a)
    ensures Matchable(a) && LeadsForward(Compiled(a).value)
  {
    hide Ordinary, FusesCleanly, Gen, Matchable, Compiled, LeadsForward;
    OrdinaryFusesCleanly(a, []);
    CompiledIsForward(a, []);
  }

  /** The derived filters hide no match of such a pattern when the flag suffices and later alternatives agree with
      the skip prefix; and when it only spares them, the table still shifts past none. */
  lemma OrdinaryFiltersAreSound(a: Ast, s: seq<byte>)
    requires Searchable(a) && NoOverlong(s)
    ensures Matchable(a) && LeadsForward(Compiled(a).value)
    ensures FlagSuffices(a, Compiled(a).value) && LaterAgree(Compiled(a).value) ==>
      HidesNothing(DerivedFilters(Compiled(a).value), s, MeantAttempts(a, s))
    ensures FlagSuffices(a, Compiled(a).value) ==> HidesNoMatch(DerivedFilters(Compiled(a).value), s, MeantAttempts(a, s))
    ensures LaterSpared(Compiled(a).value) ==> SkipsNoMatch(DerivedFilters(Compiled(a).value), s, MeantAttempts(a, s))
  {
    hide Ordinary, Trackable, NoAbort, NoOverlong, FusesCleanly, Gen, Matchable, Compiled, HidesNothing, DerivedFilters,
         MeantAttempts, LeadsForward, FlagSuffices, LaterAgree, LaterSpared, SkipsNoMatch, HidesNoMatch;
    OrdinaryEverywhere(a, s);
    OrdinaryIsForward(a);
    if FlagSuffices(a, Compiled(a).value) {
      ImageFiltersAreSound(a, s);
      ByteFiltersSuffice(Compiled(a).value, s, MeantAttempts(a, s));
    }
    if LaterSpared(Compiled(a).value) {
      CompiledSkipsNothing(a, s);
    }
    if FlagSuffices(a, Compiled(a).value) && LaterAgree(Compiled(a).value) {
      PrefixedFiltersAreSound(a, s);
    }
  }

  lemma ByteFiltersSuffice(image: seq<byte>, s: seq<byte>, attempt: nat -> Attempt)
    requires LeadsForward(image) && HidesNothing(ByteFilters(image), s, attempt)
    ensures HidesNoMatch(DerivedFilters(image), s, attempt)
  {
    hide LeadsForward, DerivedFilters;
    var f := DerivedFilters(image);
    forall off: nat | off <= |s| && !attempt(off).Miss? ensures Passes(f, s, off) && off + f.minLen <= |s| {
      assert Passes(f.(prefix := None), s, off);
    }
  }

  /** The general search with the filters and the skip table derived from the image finds the leftmost
      offset at which the pattern matches, with the end that it means. */
  method SearchOrdinary(a: Ast, image: seq<byte>, s: seq<byte>, start: nat) returns (r: SearchResult)
    requires Searchable(a) && image == Compiled(a).value && NoOverlong(s) && Matchable(a)
    requires LeadsForward(image) && FlagSuffices(a, image) && LaterSpared(image)
    ensures r == PlainScan(MeantAttempts(a, s), start, |s|) && LeftmostMeant(a, s, start, r)
  {
    hide Searchable, NoOverlong, Matchable, Compiled, HidesNothing, LeftmostMeant, DerivedFilters, MeantAttempts, LeadsForward,
         FlagSuffices, LaterAgree, LaterSpared, SkipsNoMatch, HidesNoMatch, PlainScan, Shift;
    OrdinaryFiltersAreSound(a, s);
    var f, skip := DeriveFilters(image);
    r := GeneralFallback(s, start, f, skip, false, MeantAttempts(a, s));
    ScanMeans(a, s, start);
  }

  // ----- Exactly when the flag suffices -----

  /** Behind its derived filters the search finds on every subject what the plain scan finds. */
  ghost predicate FindsAll(a: Ast, image: seq<byte>)
    requires Matchable(a) && LeadsForward(image)
  {
    forall s: seq<byte>, start: nat :: NoOverlong(s) ==> SearchAgrees(a, image, s, start)
  }

  ghost predicate SearchAgrees(a: Ast, image: seq<byte>, s: seq<byte>, start: nat)
    requires Matchable(a) && LeadsForward(image)
  {
    Filtered(DerivedFilters(image), s, MeantAttempts(a, s), start) == PlainScan(MeantAttempts(a, s), start, |s|)
  }

  lemma OneByteNoOverlong(b: byte)
    ensures NoOverlong([b])
  {
  }

  /** A byte that the flag should have covered: the search passes over the match in front of it. */
  lemma PassedOver(a: Ast, image: seq<byte>, b: byte)
    requires Matchable(a) && Trackable(a) && NoFence(a) && NoAbort(a) && |image| >= 2 && LeadsForward(image)
    requires !MayMatchEmpty(image) && EmptyAt(a, b) && !StartBytes(image)[b]
    ensures PlainScan(MeantAttempts(a, [b]), 0, 1).Found? && PlainScan(MeantAttempts(a, [b]), 0, 1).start == 0
    ensures !SearchAgrees(a, image, [b], 0)
  {
    hide Matchable, Trackable, NoFence, NoAbort, LeadsForward, MayMatchEmpty, EmptyAt, StartBytes, MeantAttempt,
         SkipPrefix;
    ForeseenIsMet(a, b);
    var f := DerivedFilters(image);
    assert !Passes(f, [b], 0);
    FoundLater(f, [b], MeantAttempts(a, [b]), 1);
  }

  /** Where the skip prefix spares later alternatives, the search finds everything exactly when the flag
      suffices: when it is set, or every byte in front of which the pattern can match the empty string is a
      start byte. */
  lemma SearchExact(a: Ast)
    requires Searchable(a) && NoFence(a)
    ensures Matchable(a) && LeadsForward(Compiled(a).value)
    ensures LaterSpared(Compiled(a).value) ==> (FindsAll(a, Compiled(a).value) <==> FlagSuffices(a, Compiled(a).value))
  {
    hide Ordinary, Trackable, NoAbort, NoFence, NoOverlong, Matchable, Compiled, HidesNothing, DerivedFilters,
         MeantAttempts, LeadsForward, LaterAgree, LaterSpared, SkipsNoMatch, HidesNoMatch, PlainScan, Filtered,
         EmptyAt, StartBytes, MayMatchEmpty;
    var image := Compiled(a).value;
    OrdinaryIsForward(a);
    if LaterSpared(image) {
      if FlagSuffices(a, image) {
        forall s: seq<byte>, start: nat | NoOverlong(s) ensures SearchAgrees(a, image, s, start) {
          OrdinaryFiltersAreSound(a, s);
          FilteredIsPlain(DerivedFilters(image), s, MeantAttempts(a, s), start);
        }
      } else {
        var b: byte :| EmptyAt(a, b) && !StartBytes(image)[b];
        OneByteNoOverlong(b);
        ImageHasTwo(a);
        PassedOver(a, image, b);
      }
    }
  }

  lemma ImageHasTwo(a: Ast)
    requires Compiled(a).Some?
    ensures |Compiled(a).value| >= 2
  {
    hide Gen, FusedBody, OffsetTable, Blobs;
  }

  /** On the logging machine an ordinary pattern has the meant verdict. */
  lemma OrdinaryLogged(a: Ast, s: seq<byte>, log: seq<U.Undo>, n: nat)
    requires Ordinary(a) && Short(a) && NoOverlong(s) && |s| < 0x8000_0000_0000_0000 && |log| + 3 * (n + 1) < U32
    ensures Matchable(a)
    ensures var r := RunLogged(Boot(Compiled(a).value, s), ResetMachine(log), n);
      r.Some? ==> r == Some(MeantVerdict(a, s, Fresh(0)))
  {
    hide Ordinary, NoOverlong, FusesCleanly, Gen, Matchable, Compiled, RunLogged, MeantVerdict;
    OrdinaryFusesCleanly(a, s);
    var enough := LoggedPatternRuns(a, s);
  }
}
