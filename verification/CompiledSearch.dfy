/** Searching with a compiled pattern: the filters derived from its bytes never hide a match, so
    the filtered search reports the leftmost offset at which the pattern's meaning matches. */
module CompiledSearch {
  import opened Wrappers
  import opened Bytes
  import opened CharClasses
  import opened Bytecode
  import opened Semantics
  import opened Machine
  import opened Outcomes
  import opened CodeTree
  import opened CodeMeaning
  import opened Pattern
  import opened Translate
  import opened GenMeaning
  import opened FusedLayout
  import opened FusionMeaning
  import opened FusionPreserves
  import opened FusionPass
  import opened FusedScan
  import opened FusionStarts
  import opened Trailer
  import opened Compiler
  import opened EndToEnd
  import opened Walker
  import opened MinLength
  import opened Attempts
  import opened EmptyMatches
  import opened TrackablePatterns
  import opened CompiledBranches
  import opened SearchMeta
  import opened StartBitmap
  import opened CompiledFlow
  import opened FusedExec
  import opened Search

  lemma AcceptedEval(env: Env, st: State, end: State)
    requires Runs(env, 0, st, Accepted(end))
    ensures exists f: nat :: Eval(env, 0, st, f) == Decided(Accepted(end))
  {
    hide Eval, Runs;
    LoopMatchesEval(env, 0, st, Accepted(end));
    var r: Result :| Yields(env, 0, st, r) && VerdictOf(r) == Accepted(end);
    assert r == Decided(Accepted(end));
  }

  /** A match of a compiled pattern consumes at least the derived minimum, and if it consumes
      anything the first byte is in the derived set. */
  lemma ImageBounds(image: seq<byte>, t: Tree, s: seq<byte>, end: State)
    requires Plain(t) && Walkable(t) && At(image, 0, BodyOf(t)) && |image| < U32
    requires Runs(Boot(image, s), 0, Fresh(0), Accepted(end))
    ensures MinLen(image, 0, 0) <= end.pos <= |s|
    ensures TabFree(BodyProgram(t)) && AsciiClasses(LoadClasses(image)) && end.pos > 0 ==>
      s != [] && StartBytes(image)[s[0]]
  {
    hide Runs, Plain, Walkable, At, BodyOf, BodyProgram, LoadClasses, Closed, Tracked, MinLen, WalkBits, TabFree,
         AsciiClasses, StartSet, Eval;
    var env := Boot(image, s);
    AcceptedEval(env, Fresh(0), end);
    var f: nat :| Eval(env, 0, Fresh(0), f) == Decided(Accepted(end));
    AcceptedAhead(env, 0, Fresh(0), f, end);
    BodyIsClosed(env, t);
    BranchBound(env, StartSet(t), 0, Fresh(0), f, end, 0);
    if TabFree(BodyProgram(t)) && AsciiClasses(LoadClasses(image)) && end.pos > 0 {
      BodyIsTracked(env, t);
      assert Consumes(env, 0, Fresh(0));
      WalkIsSound(env, StartSet(t), 0, [], NoBytes(), 0, 0, Fresh(0));
    }
  }

  lemma FusedTreeFits(a: Ast, s: seq<byte>)
    requires Matchable(a) && Compiled(a).Some? && |Compiled(a).value| < U32 && FusesCleanly(a, s)
    ensures var t := FusedTreeOf(a);
      Plain(t) && Walkable(t) && At(Compiled(a).value, 0, BodyOf(t))
  {
    hide Matchable, Gen, BodyOf, FuseTree, ImageOf, OnlyAt, SafeTree, FewRanges, Walkable, Plain, At, Canonical, Scan,
         AllBounded, Unfused, IdsKnown, Run, Meaning, LoadClasses;
    var g := Gen(a, 0, NO_TABLES).value;
    GenFromNothing(a);
    ImageHolds(g, Compiled(a).value);
    TreeMeans(a, 0, NO_TABLES, g.tables.classes, s, Fresh(0));
    FuseKeepsPlain(g.tree, g.tables.classes);
    MatchableNames(a);
    GenIsWalkable(a, 0, NO_TABLES);
    FuseKeepsWalkable(g.tree, g.tables.classes);
  }

  lemma {:induction false} MatchableNames(a: Ast)
    requires Matchable(a)
    ensures NamesFit(a)
  {
    match a
    case Concat(ps) => forall k | 0 <= k < |ps| ensures NamesFit(ps[k]) { MatchableNames(ps[k]); }
    case Alt(l, r) =>
      MatchableNames(l);
      MatchableNames(r);
    case Cap(_, sub) => MatchableNames(sub);
    case DynamicEval(e) => MatchableNames(e);
    case LabelNode(_, target) => MatchableNames(target);
    case _ =>
  }

  /** The branches of a compiled pattern lead forward. */
  lemma CompiledIsForward(a: Ast, s: seq<byte>)
    requires Matchable(a) && Compiled(a).Some? && |Compiled(a).value| < U32 && FusesCleanly(a, s)
    ensures LeadsForward(Compiled(a).value)
  {
    hide Matchable, Gen, ImageOf, FusedBody, FusesCleanly, FusedTreeOf, Plain, Walkable, At, BodyOf, LoadClasses,
         LeadsForward;
    FusedTreeFits(a, s);
    CompiledLeadsForward(Boot(Compiled(a).value, s), FusedTreeOf(a));
  }

  /** What has to be checked before the derived flag can be trusted: it is set, or in front of whatever byte the
      pattern can match the empty string, that byte is a start byte anyway. */
  predicate FlagSuffices(a: Ast, image: seq<byte>)
    requires LeadsForward(image)
  {
    MayMatchEmpty(image) || forall b: byte :: EmptyAt(a, b) ==> StartBytes(image)[b]
  }

  predicate PassesBytes(f: Filters, s: seq<byte>, off: nat) { Passes(f, s, off) && off + f.minLen <= |s| }

  /** One offset at which the pattern matches passes the start bytes and the minimum length. */
  lemma HitPasses(a: Ast, s: seq<byte>, off: nat)
    requires Matchable(a) && Trackable(a) && Compiled(a).Some? && |Compiled(a).value| < U32 && off <= |s|
    requires FusesCleanly(a, s[off..]) && MeantAttempt(a, s, off).Hit?
    requires LeadsForward(Compiled(a).value) && FlagSuffices(a, Compiled(a).value)
    ensures PassesBytes(DerivedFilters(Compiled(a).value), s, off)
  {
    hide Matchable, Trackable, Runs, Gen, BodyOf, LoadClasses, MinLen, FuseTree, ImageOf, FusedBody, MayMatchEmpty,
         StartBytes, LeadsForward, FusesCleanly, EmptyAt, Walkable, Plain, At, TabFree, AsciiClasses, Meaning,
         SkipPrefix, FusedTreeOf;
    var image, t, rest := Compiled(a).value, FusedTreeOf(a), s[off..];
    var v := MeantVerdict(a, rest, Fresh(0));
    var end := v.st;
    CompiledPatternRuns(a, rest, Fresh(0), v);
    FusedTreeFits(a, rest);
    TrackableCompiles(a, rest);
    ImageBounds(image, t, rest, end);
    if off < |s| {
      assert rest[0] == s[off];
      if end.pos == 0 { EmptyMatchIsForeseen(a, rest, end); }
    }
  }
  /** Without its skip prefix. */
  function ByteFilters(code: seq<byte>): Filters
    requires LeadsForward(code)
  {
    DerivedFilters(code).(prefix := None)
  }

  /** Start bytes and minimum length as they are derived from a compiled pattern hide no match at any offset. */
  lemma ImageFiltersAreSound(a: Ast, s: seq<byte>)
    requires Matchable(a) && Trackable(a) && NoAbort(a) && Compiled(a).Some? && |Compiled(a).value| < U32
    requires forall off :: 0 <= off <= |s| ==> FusesCleanly(a, s[off..])
    requires LeadsForward(Compiled(a).value) && FlagSuffices(a, Compiled(a).value)
    ensures HidesNothing(ByteFilters(Compiled(a).value), s, MeantAttempts(a, s))
  {
    hide Matchable, Trackable, NoAbort, Gen, FusesCleanly, DerivedFilters, MeantAttempt, Compiled, LeadsForward,
         FlagSuffices;
    var f := ByteFilters(Compiled(a).value);
    forall off: nat | off <= |s| && !MeantAttempt(a, s, off).Miss?
      ensures Passes(f, s, off) && off + f.minLen <= |s|
    {
      AttemptNeverAborts(a, s, off);
      HitPasses(a, s, off);
    }
  }

  // ----- The fused tier -----

  /** On a compiled pattern that is eligible for it, the fused executor returns what the pattern means. */
  lemma FusedTierMeansPattern(a: Ast, s: seq<byte>, st: State, segs: seq<Segment>)
    requires Matchable(a) && Compiled(a).Some? && |Compiled(a).value| < U32 && FusesCleanly(a, s)
    requires Eligible(Compiled(a).value, LoadClasses(Compiled(a).value)) == Some(segs) && st.pos <= |s|
    ensures MeantVerdict(a, s, st)
         == match Exec(segs, s, st.pos)
            case Some(end) => Accepted(st.(pos := end))
            case None => Rejected
  {
    hide Matchable, Runs, Gen, BodyOf, LoadClasses, FusesCleanly, MeantVerdict, Walkable, Plain, At, StartSet,
         Contained, Exec, Collect, Yields, FusedTreeOf, ImageOf;
    var image := Compiled(a).value;
    var env := Boot(image, s);
    FusedTreeFits(a, s);
    var t := FusedTreeOf(a);
    BodyIsContained(env, t);
    ExecMeetsMachine(env, StartSet(t), 0, 0, st);
    var want := match Exec(segs, s, st.pos)
      case Some(end) => Accepted(st.(pos := end))
      case None => Rejected;
    EndsDecide(env, st, Exec(segs, s, st.pos), want);
    CompiledPatternRuns(a, s, st, want);
  }

  lemma EndsDecide(env: Env, st: State, end: Option<nat>, v: Verdict)
    requires EndsAs(env, 0, st, end)
    requires v == match end case Some(e) => Accepted(st.(pos := e)) case None => Rejected
    ensures Runs(env, 0, st, v)
  {
    hide Yields, Runs;
    match end
    case Some(e) => YieldsDecides(env, st, Decided(Accepted(st.(pos := e))), v);
    case None =>
      if Yields(env, 0, st, Exhausted) {
        YieldsDecides(env, st, Exhausted, v);
      } else {
        YieldsDecides(env, st, Decided(Rejected), v);
      }
  }
}
