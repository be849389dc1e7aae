/** The skip table on a compiled pattern: the derived prefix begins every match, and all three filters of
    the general search together hide none. */
module CompiledPrefix {
  import opened Wrappers
  import opened Bytes
  import opened CharClasses
  import opened Semantics
  import opened Machine
  import opened CodeMeaning
  import opened Pattern
  import opened Translate
  import opened Trailer
  import opened Compiler
  import opened EndToEnd
  import opened StartBitmap
  import opened CompiledFlow
  import opened FusionStarts
  import opened Walker
  import opened Attempts
  import opened TrackablePatterns
  import opened CompiledBranches
  import opened SearchMeta
  import opened LeadingLiteral
  import opened CompiledSearch
  import opened Horspool
  import opened Search
  import opened AlternationPrefix

  lemma OccursFurther(s: seq<byte>, off: nat, p: seq<byte>)
    requires off <= |s| && Occurs(s[off..], 0, p)
    ensures Occurs(s, off, p)
  {
    assert s[off..][0..|p|] == s[off..off + |p|];
  }

  lemma HitBegins(a: Ast, s: seq<byte>, off: nat, p: seq<byte>)
    requires Matchable(a) && NoAbort(a) && Compiled(a).Some? && |Compiled(a).value| < U32 && off <= |s|
    requires FusesCleanly(a, s[off..]) && !MeantAttempt(a, s, off).Miss?
    requires var image := Compiled(a).value; LeadsMatches(image, LoadClasses(image), p)
    ensures Occurs(s, off, p)
  {
    hide Matchable, NoAbort, Runs, Compiled, FusesCleanly, LoadClasses, MeantVerdict, Eval, Occurs;
    var image, rest := Compiled(a).value, s[off..];
    AttemptNeverAborts(a, s, off);
    var v := MeantVerdict(a, rest, Fresh(0));
    CompiledPatternRuns(a, rest, Fresh(0), v);
    AcceptedEval(Boot(image, rest), Fresh(0), v.st);
    OccursFurther(s, off, p);
  }

  /** Every match of the pattern is heralded by the prefix. */
  lemma PrefixHeralds(a: Ast, s: seq<byte>, p: seq<byte>)
    requires Matchable(a) && NoAbort(a) && Compiled(a).Some? && |Compiled(a).value| < U32 && p != []
    requires forall off :: 0 <= off <= |s| ==> FusesCleanly(a, s[off..])
    requires var image := Compiled(a).value; LeadsMatches(image, LoadClasses(image), p)
    ensures Heralds(p, s, MeantAttempts(a, s))
  {
    hide Matchable, NoAbort, Compiled, FusesCleanly, LoadClasses, MeantAttempt, LeadsMatches, Occurs;
    forall off: nat | off <= |s| && !MeantAttempt(a, s, off).Miss? ensures Occurs(s, off, p) {
      HitBegins(a, s, off, p);
    }
  }

  /** The prefix that is derived from a compiled pattern begins every match of its image. */
  lemma DerivedPrefixLeads(a: Ast, s: seq<byte>)
    requires Matchable(a) && Trackable(a) && Compiled(a).Some? && |Compiled(a).value| < U32 && FusesCleanly(a, s)
    requires var image := Compiled(a).value; LeadsForward(image) && LaterAgree(image)
    ensures var image := Compiled(a).value;
      SkipPrefix(image).Some? ==> LeadsMatches(image, LoadClasses(image), SkipPrefix(image).value)
  {
    hide Matchable, Trackable, Gen, ImageOf, FusedBody, FusesCleanly, LoadClasses, LeadsForward, LaterAgree, SkipPrefix,
         LeadsMatches, StaysPut;
    CompiledStaysPut(a, s);
    SkipPrefixLeads(Compiled(a).value, LoadClasses(Compiled(a).value));
  }

  /** Nothing in front of the first operation of width moves the cursor. */
  lemma CompiledStaysPut(a: Ast, s: seq<byte>)
    requires Matchable(a) && Trackable(a) && Compiled(a).Some? && |Compiled(a).value| < U32 && FusesCleanly(a, s)
    ensures StaysPut(Compiled(a).value, 0)
  {
    hide Matchable, Trackable, Gen, ImageOf, FusedBody, FusesCleanly, LoadClasses, Plain, Walkable, At, BodyOf,
         BodyProgram, FusedTreeOf, TabFree, AsciiClasses, Tracked, StaysPut, StartSet;
    var image, t := Compiled(a).value, FusedTreeOf(a);
    FusedTreeFits(a, s);
    TrackableCompiles(a, s);
    BodyIsTracked(Boot(image, s), t);
    TrackedStaysPut(Boot(image, s), StartSet(t), 0);
  }

  /** All three filters, as they are derived from a compiled pattern, hide no match at any offset. */
  lemma PrefixedFiltersAreSound(a: Ast, s: seq<byte>)
    requires Matchable(a) && Trackable(a) && NoAbort(a) && Compiled(a).Some? && |Compiled(a).value| < U32
    requires forall off :: 0 <= off <= |s| ==> FusesCleanly(a, s[off..])
    requires var image := Compiled(a).value; LeadsForward(image) && FlagSuffices(a, image) && LaterAgree(image)
    ensures HidesNothing(DerivedFilters(Compiled(a).value), s, MeantAttempts(a, s))
  {
    hide Matchable, Trackable, NoAbort, Compiled, FusesCleanly, LoadClasses, MeantAttempts, LeadsMatches,
         DerivedFilters, LeadsForward, FlagSuffices, LaterAgree, SkipPrefix, Heralds;
    var image := Compiled(a).value;
    ImageFiltersAreSound(a, s);
    assert s[0..] == s;
    DerivedPrefixLeads(a, s);
    var f := DerivedFilters(image);
    PrefixOfFilters(image);
    if f.prefix.Some? { PrefixHeralds(a, s, f.prefix.value); }
    forall off: nat | off <= |s| && !MeantAttempts(a, s)(off).Miss?
      ensures Passes(f, s, off) && off + f.minLen <= |s|
    {
      assert Passes(f.(prefix := None), s, off);
    }
  }

  lemma PrefixOfFilters(image: seq<byte>)
    requires LeadsForward(image)
    ensures var p := DerivedFilters(image).prefix;
      p.Some? ==> p == SkipPrefix(image) && p.value != []
  {
  }

  // ----- Shifting past no match -----

  ghost predicate SparedAt(s: seq<byte>, off: nat, p: seq<byte>) { exists w :: Spares(p, w) && Occurs(s, off, w) }

  /** Every match of the pattern begins with something that the prefix spares. */
  lemma HitIsSpared(a: Ast, s: seq<byte>, off: nat, p: seq<byte>)
    requires Matchable(a) && NoAbort(a) && Compiled(a).Some? && |Compiled(a).value| < U32 && off <= |s|
    requires FusesCleanly(a, s[off..]) && !MeantAttempt(a, s, off).Miss?
    requires var image := Compiled(a).value; SparesMatches(image, LoadClasses(image), p)
    ensures SparedAt(s, off, p)
  {
    hide Matchable, NoAbort, Runs, Compiled, FusesCleanly, LoadClasses, MeantVerdict, Eval, Occurs, Spares;
    var image, rest := Compiled(a).value, s[off..];
    AttemptNeverAborts(a, s, off);
    var v := MeantVerdict(a, rest, Fresh(0));
    CompiledPatternRuns(a, rest, Fresh(0), v);
    AcceptedEval(Boot(image, rest), Fresh(0), v.st);
    assert BeginsSpared(rest, p);
    var w :| Spares(p, w) && Occurs(rest, 0, w);
    OccursFurther(s, off, w);
  }

  lemma SparedIsNotPassed(f: Filters, s: seq<byte>, off: nat, k: nat)
    requires f.prefix.Some? && f.prefix.value != [] && off < |s| && 0 < k < Advance(f, s, off)
    ensures !SparedAt(s, off + k, f.prefix.value)
  {
    hide Occurs, Overtaken;
    var p := f.prefix.value;
    forall w | Spares(p, w) ensures !Occurs(s, off + k, w) { SparedHere(s, off, p, w, k); }
  }

  /** The table derived from a compiled pattern shifts past no match when later alternatives are spared. */
  lemma CompiledSkipsNothing(a: Ast, s: seq<byte>)
    requires Matchable(a) && Trackable(a) && NoAbort(a) && Compiled(a).Some? && |Compiled(a).value| < U32
    requires forall off :: 0 <= off <= |s| ==> FusesCleanly(a, s[off..])
    requires var image := Compiled(a).value; LeadsForward(image) && LaterSpared(image)
    ensures SkipsNoMatch(DerivedFilters(Compiled(a).value), s, MeantAttempts(a, s))
  {
    hide Matchable, Trackable, NoAbort, Compiled, FusesCleanly, LoadClasses, MeantAttempt, SparesMatches,
         DerivedFilters, LeadsForward, LaterSpared, SkipPrefix, SparedAt, Advance;
    var image := Compiled(a).value;
    var f := DerivedFilters(image);
    PrefixOfFilters(image);
    assert s[0..] == s;
    DerivedPrefixSpares(a, s);
    forall off: nat, k: nat ensures !ShiftsPast(f, s, MeantAttempts(a, s), off, k) {
      if off < |s| && off + k <= |s| && 0 < k < Advance(f, s, off) && !MeantAttempt(a, s, off + k).Miss? {
        assert f.prefix.Some? by { OneStep(f, s, off, k); }
        HitIsSpared(a, s, off + k, f.prefix.value);
        SparedIsNotPassed(f, s, off, k);
      }
    }
  }

  lemma OneStep(f: Filters, s: seq<byte>, off: nat, k: nat)
    requires (f.prefix.Some? ==> f.prefix.value != []) && 0 < k < Advance(f, s, off)
    ensures f.prefix.Some?
  {
  }

  lemma DerivedPrefixSpares(a: Ast, s: seq<byte>)
    requires Matchable(a) && Trackable(a) && Compiled(a).Some? && |Compiled(a).value| < U32 && FusesCleanly(a, s)
    requires var image := Compiled(a).value; LeadsForward(image) && LaterSpared(image)
    ensures var image := Compiled(a).value;
      SkipPrefix(image).Some? ==> SparesMatches(image, LoadClasses(image), SkipPrefix(image).value)
  {
    hide Matchable, Trackable, Gen, ImageOf, FusedBody, FusesCleanly, LoadClasses, LeadsForward, LaterSpared,
         SkipPrefix, SparesMatches, StaysPut;
    CompiledStaysPut(a, s);
    SkipPrefixSpares(Compiled(a).value, LoadClasses(Compiled(a).value));
  }
}
