/** What the analysis of a program leaves for the general search (snobol_search_derive_meta): whether the
    pattern may match the empty string, the start bytes, the minimum length and the skip prefix. */
module SearchMeta {
  import opened Wrappers
  import opened Bytes
  import opened Bytecode
  import opened CharClasses
  import opened Semantics
  import opened MinLength
  import opened StartBitmap
  import opened Trailer
  import opened Horspool
  import opened SharedPrefix
  import opened AlternationPrefix
  import opened LeadingLiteral
  import opened Search

  /** The branches of the part of the code that is looked at. */
  function Branches(code: seq<byte>): AltTree { TreeAt(Front(code), 0) }

  /** They all lead forward. */
  predicate LeadsForward(code: seq<byte>) { Unfolds(Front(code), Branches(code), 0) }

  // ----- May it match the empty string? -----

  /** One of the alternatives is an empty literal. */
  predicate HasEmpty(code: seq<byte>, t: AltTree, ip: nat)
    requires Unfolds(code, t, ip)
    decreases t
  {
    match t
    case Tip => ip + 10 <= |code| && code[ip] == OP_LIT && U32At(code, ip + 5) == 0
    case Branch(l, r) => HasEmpty(code, l, U32At(code, ip + 1)) || HasEmpty(code, r, U32At(code, ip + 5))
  }

  predicate Accepts(code: seq<byte>, ip: nat) {
    ip < |code| && (code[ip] == OP_ACCEPT || code[ip] == OP_SUCCEED)
  }

  /** What the first operation that is not skipped says; an alternation only when all of it is literals. */
  predicate RootMayBeEmpty(code: seq<byte>, root: nat)
    requires root < |code| && LeadsForward(code)
  {
    var op := code[root];
    if op == OP_LIT && root + 9 <= |code| then
      var off, len := U32At(code, root + 1), U32At(code, root + 5);
      off < |code| && Low32(off + len) <= |code| && len == 0
    else if op == OP_BREAK || op == OP_BREAKX then root + 3 <= |code|
    else if op == OP_REPEAT_INIT && root + 14 <= |code| then
      U32At(code, root + 2) == 0 && Accepts(code, U32At(code, root + 10))
    else if op == OP_SPLIT && |code| >= 10 then
      CheckLiterals(Front(code), Branches(code), 0, 0).Some? && HasEmpty(Front(code), Branches(code), 0)
    else Accepts(code, root)
  }

  /** The flag may_match_empty. Code without any operation of width sets it too. */
  predicate MayMatchEmpty(code: seq<byte>)
    requires LeadsForward(code)
  {
    RootAt(code, 0) >= |code| || RootMayBeEmpty(code, RootAt(code, 0))
  }

  /** Nothing but literals at the leaves. */
  predicate LiteralLeaves(code: seq<byte>, t: AltTree, ip: nat)
    requires Unfolds(code, t, ip)
    decreases t
  {
    match t
    case Tip => ip + 10 <= |code| && code[ip] == OP_LIT
    case Branch(l, r) => LiteralLeaves(code, l, U32At(code, ip + 1)) && LiteralLeaves(code, r, U32At(code, ip + 5))
  }

  lemma {:induction false} CheckedAreLiterals(code: seq<byte>, t: AltTree, ip: nat, used: nat)
    requires Unfolds(code, t, ip) && CheckLiterals(code, t, ip, used).Some?
    ensures LiteralLeaves(code, t, ip)
    decreases t
  {
    hide U32At, EndsAt;
    match t
    case Tip =>
    case Branch(l, r) =>
      CheckedAreLiterals(code, l, U32At(code, ip + 1), used);
      CheckedAreLiterals(code, r, U32At(code, ip + 5), CheckLiterals(code, l, U32At(code, ip + 1), used).value);
  }

  /** Pending positions, all of them trees of literals. */
  predicate AllLiteral(code: seq<byte>, ts: seq<AltTree>, ps: seq<nat>) {
    AllUnfold(code, ts, ps) && forall k :: 0 <= k < |ts| ==> LiteralLeaves(code, ts[k], ps[k])
  }

  predicate SomeEmpty(code: seq<byte>, ts: seq<AltTree>, ps: seq<nat>)
    requires AllLiteral(code, ts, ps)
  {
    exists k :: 0 <= k < |ts| && HasEmpty(code, ts[k], ps[k])
  }

  lemma PopLiteral(code: seq<byte>, ts: seq<AltTree>, ps: seq<nat>)
    requires AllLiteral(code, ts, ps) && ts != []
    ensures var n := |ts| - 1;
      && Unfolds(code, ts[n], ps[n]) && LiteralLeaves(code, ts[n], ps[n]) && AllLiteral(code, ts[..n], ps[..n])
      && (SomeEmpty(code, ts, ps) <==> HasEmpty(code, ts[n], ps[n]) || SomeEmpty(code, ts[..n], ps[..n]))
      && PendingSize(ts) == PendingSize(ts[..n]) + TreeSize(ts[n])
  {
    hide Unfolds, LiteralLeaves, HasEmpty;
    var n := |ts| - 1;
    if SomeEmpty(code, ts, ps) {
      var k :| 0 <= k < |ts| && HasEmpty(code, ts[k], ps[k]);
      if k < n { assert HasEmpty(code, ts[..n][k], ps[..n][k]); }
    }
    if SomeEmpty(code, ts[..n], ps[..n]) {
      var k :| 0 <= k < n && HasEmpty(code, ts[..n][k], ps[..n][k]);
      assert HasEmpty(code, ts[k], ps[k]);
    }
  }

  lemma PushLiteral(code: seq<byte>, ts: seq<AltTree>, ps: seq<nat>, t: AltTree, ip: nat)
    requires AllLiteral(code, ts, ps) && Unfolds(code, t, ip) && LiteralLeaves(code, t, ip)
    ensures AllLiteral(code, ts + [t], ps + [ip])
    ensures SomeEmpty(code, ts + [t], ps + [ip]) <==> HasEmpty(code, t, ip) || SomeEmpty(code, ts, ps)
    ensures PendingSize(ts + [t]) == PendingSize(ts) + TreeSize(t)
  {
    hide Unfolds, LiteralLeaves, HasEmpty;
    assert (ts + [t])[..|ts|] == ts && (ps + [ip])[..|ts|] == ps;
    PopLiteral(code, ts + [t], ps + [ip]);
  }

  /** One position of a tree of literals. */
  lemma LiteralHere(code: seq<byte>, t: AltTree, ip: nat)
    requires Unfolds(code, t, ip) && LiteralLeaves(code, t, ip)
    ensures ip + 9 <= |code|
    ensures code[ip] == OP_LIT ==> ip + 10 <= |code| && (HasEmpty(code, t, ip) <==> U32At(code, ip + 5) == 0)
    ensures code[ip] != OP_LIT ==> IsBranch(code, ip) && t.Branch?
    ensures t.Branch? ==>
      var a, b := U32At(code, ip + 1), U32At(code, ip + 5);
      && Unfolds(code, t.left, a) && LiteralLeaves(code, t.left, a)
      && Unfolds(code, t.right, b) && LiteralLeaves(code, t.right, b)
      && (HasEmpty(code, t, ip) <==> HasEmpty(code, t.left, a) || HasEmpty(code, t.right, b))
  {
    hide U32At;
  }

  /** The walk with its stack of pending branches. */
  method FindEmptyBranch(code: seq<byte>, ghost t: AltTree) returns (found: bool)
    requires Unfolds(code, t, 0) && LiteralLeaves(code, t, 0)
    ensures found == HasEmpty(code, t, 0)
  {
    hide Unfolds, LiteralLeaves, HasEmpty, AllLiteral, SomeEmpty, PendingSize, U32At;
    var stack: seq<nat> := [0];
    ghost var trees := [t];
    assert AllLiteral(code, trees, stack) && SomeEmpty(code, trees, stack) == HasEmpty(code, t, 0) by {
      assert AllLiteral(code, [], []) && !SomeEmpty(code, [], []) by { NothingPending(code); }
      assert [] + [t] == [t] && [] + [0] == [0 as nat];
      PushLiteral(code, [], [], t, 0);
    }
    while stack != []
      invariant AllLiteral(code, trees, stack) && |trees| == |stack|
      invariant SomeEmpty(code, trees, stack) == HasEmpty(code, t, 0)
      decreases PendingSize(trees)
    {
      var n := |stack| - 1;
      var ip := stack[n];
      ghost var top := trees[n];
      PopLiteral(code, trees, stack);
      LiteralHere(code, top, ip);
      stack, trees := stack[..n], trees[..n];
      if code[ip] == OP_LIT {
        if U32At(code, ip + 5) == 0 { return true; }
      } else {
        var a, b := U32At(code, ip + 1), U32At(code, ip + 5);
        PushLiteral(code, trees, stack, top.right, b);
        PushLiteral(code, trees + [top.right], stack + [b], top.left, a);
        stack := stack + [b] + [a];
        trees := trees + [top.right] + [top.left];
      }
    }
    NothingPending(code);
    found := false;
  }

  lemma NothingPending(code: seq<byte>)
    ensures AllLiteral(code, [], []) && !SomeEmpty(code, [], [])
  {
  }

  /** The flag as the analysis computes it. */
  method DeriveMayMatchEmpty(code: seq<byte>) returns (flag: bool)
    requires LeadsForward(code)
    ensures flag == MayMatchEmpty(code)
  {
    hide HasEmpty, U32At, Unfolds, CheckLiterals;
    var root := FindRoot(code);
    if root >= |code| { return true; }
    var op := code[root];
    if op == OP_ACCEPT || op == OP_SUCCEED {
      flag := true;
    } else if op == OP_LIT && root + 9 <= |code| {
      var off, len := U32At(code, root + 1), U32At(code, root + 5);
      flag := off < |code| && Low32(off + len) <= |code| && len == 0;
    } else if (op == OP_BREAK || op == OP_BREAKX) && root + 3 <= |code| {
      flag := true;
    } else if op == OP_REPEAT_INIT && root + 14 <= |code| {
      var min, skip := U32At(code, root + 2), U32At(code, root + 10);
      flag := min == 0 && skip < |code| && (code[skip] == OP_ACCEPT || code[skip] == OP_SUCCEED);
    } else if op == OP_SPLIT && |code| >= 10 {
      flag := false;
      if CheckLiterals(Front(code), Branches(code), 0, 0).Some? {
        CheckedAreLiterals(Front(code), Branches(code), 0, 0);
        flag := FindEmptyBranch(Front(code), Branches(code));
      }
    } else {
      flag := false;
    }
  }

  // ----- The filters -----

  /** Bytes that the walk finds a match to begin with. */
  function StartBytes(code: seq<byte>): ByteSet { WalkBits(LoadClasses(code), code, 0, [], NoBytes(), 0) }

  /** What the skip table is built from: a leading literal of two bytes or more, or the prefix that the
      alternatives share. */
  function SkipPrefix(code: seq<byte>): (p: Option<seq<byte>>)
    requires LeadsForward(code)
    ensures p.Some? ==> p.value != []
  {
    if |Leading(code)| >= 2 then Some(Leading(code))
    else if DerivedPrefix(code, Branches(code)) != [] then Some(DerivedPrefix(code, Branches(code)))
    else None
  }

  /** Code of less than two bytes is not analysed. A pattern that may match the empty string is not
      filtered by its first byte. */
  function DerivedFilters(code: seq<byte>): Filters
    requires LeadsForward(code)
  {
    if |code| < 2 then Filters(None, 0, None)
    else Filters(Some(if MayMatchEmpty(code) then Full() else StartBytes(code)), MinLen(code, 0, 0), SkipPrefix(code))
  }

  method DerivePrefix(code: seq<byte>) returns (p: Option<seq<byte>>)
    requires LeadsForward(code)
    ensures p == SkipPrefix(code)
  {
    hide Unfolds, CheckLiterals, Extracted, LiteralPrefix, RootAt;
    var lead := FindLeading(code);
    if |lead| >= 2 { return Some(lead); }
    if |code| >= 10 && code[0] == OP_SPLIT && CheckLiterals(Front(code), Branches(code), 0, 0).Some? {
      var shared := Extract(Front(code), Branches(code));
      if shared != [] { return Some(shared); }
    }
    p := None;
  }

  /** The analysis, with the skip table it leaves for its prefix. */
  method DeriveFilters(code: seq<byte>) returns (f: Filters, skip: array<nat>)
    requires LeadsForward(code)
    ensures f == DerivedFilters(code)
    ensures fresh(skip) && (f.prefix.Some? ==>
      f.prefix.value != [] && skip.Length == 256 && forall b: byte :: skip[b] == Shift(f.prefix.value, b))
  {
    hide WalkBits, MinLen, LoadClasses, MayMatchEmpty, SkipPrefix, LeadsForward, Shift;
    skip := new nat[256](_ => 1);
    if |code| < 2 { return Filters(None, 0, None), skip; }
    var bm := new bool[256](_ => false);
    assert bm[..] == NoBytes();
    ComputeStartBitmap(LoadClasses(code), code, 0, bm);
    var mayBeEmpty := DeriveMayMatchEmpty(code);
    if mayBeEmpty { SetAll(bm); }
    var n := ComputeMinLength(code, 0, 0);
    var p := DerivePrefix(code);
    if p.Some? { skip := BuildSkip(p.value); }
    f := Filters(Some(bm[..]), n, p);
  }

  // ----- When the prefix begins every match -----

  /** Alternatives beyond those that are compared share the prefix too. */
  predicate LaterAgree(code: seq<byte>)
    requires LeadsForward(code)
  {
    match Collect(Front(code), Branches(code), 0, 0)
    case None => true
    case Some(ls) => AllBegin(ls[|Kept(ls)|..], Extracted(Front(code), Branches(code)))
  }

  /** The skip prefix begins every match when no tabulation was skipped and later alternatives agree. */
  lemma SkipPrefixLeads(code: seq<byte>, classes: seq<CharClass>)
    requires LeadsForward(code) && StaysPut(code, 0) && LaterAgree(code)
    ensures SkipPrefix(code).Some? ==> LeadsMatches(code, classes, SkipPrefix(code).value)
  {
    hide Unfolds, CheckLiterals, Collect, LiteralPrefix, RootAt, StaysPut, LeadsMatches, CommonPrefix, AllBegin;
    LeadingBegins(code, classes);
    var t := Branches(code);
    if DerivedPrefix(code, t) != [] {
      assert Collect(Front(code), t, 0, 0).Some? by { ExtractedMeansCollected(code); }
      PrefixLeads(code, classes, t);
    }
  }

  lemma ExtractedMeansCollected(code: seq<byte>)
    requires LeadsForward(code) && DerivedPrefix(code, Branches(code)) != []
    ensures Collect(Front(code), Branches(code), 0, 0).Some?
    ensures DerivedPrefix(code, Branches(code)) == Extracted(Front(code), Branches(code))
  {
    hide Unfolds, CheckLiterals, Collect;
  }

  // ----- When the table shifts past no match -----

  /** The prefix spares the alternatives beyond those that are compared; one byte alone spares everything. */
  predicate LaterSpared(code: seq<byte>)
    requires LeadsForward(code)
  {
    match Collect(Front(code), Branches(code), 0, 0)
    case None => true
    case Some(ls) => AllSpared(ls[|Kept(ls)|..], Extracted(Front(code), Branches(code)))
  }

  predicate AllSpared(ls: seq<seq<byte>>, p: seq<byte>) { forall j :: 0 <= j < |ls| ==> Spares(p, ls[j]) }

  lemma PrefixSpares(p: seq<byte>, w: seq<byte>)
    requires p <= w
    ensures Spares(p, w)
  {
    forall j | 0 <= j < |p| - 1 ensures !Overtaken(p, w, j) { assert p[j] == w[j]; }
  }

  lemma AgreeIsSpared(code: seq<byte>)
    requires LeadsForward(code) && LaterAgree(code)
    ensures LaterSpared(code)
  {
    hide Unfolds, Collect, Extracted, Spares;
    var c := Collect(Front(code), Branches(code), 0, 0);
    if c.Some? {
      var p, later := Extracted(Front(code), Branches(code)), c.value[|Kept(c.value)|..];
      forall j | 0 <= j < |later| ensures Spares(p, later[j]) { PrefixSpares(p, later[j]); }
    }
  }

  lemma AllAreSpared(ls: seq<seq<byte>>)
    requires AllSpared(ls[|Kept(ls)|..], CommonPrefix(Kept(ls)))
    ensures AllSpared(ls, CommonPrefix(Kept(ls)))
  {
    hide Spares, CommonPrefix;
    var k := Kept(ls);
    var p := CommonPrefix(k);
    assert |k| < 2 ==> p == [] by { FewHaveNothing(k); }
    if |k| >= 2 { CommonIsLongest(k, []); }
    forall j | 0 <= j < |ls| ensures Spares(p, ls[j]) {
      if j < |k| {
        assert ls[j] == k[j];
        PrefixSpares(p, k[j]);
      } else {
        assert ls[j] == ls[|k|..][j - |k|];
      }
    }
  }

  lemma FewHaveNothing(ls: seq<seq<byte>>)
    ensures |ls| < 2 ==> CommonPrefix(ls) == []
  {
  }

  /** Every match of the code from the start of a subject begins with something the prefix spares. */
  ghost predicate SparesMatches(code: seq<byte>, classes: seq<CharClass>, p: seq<byte>) {
    forall s: seq<byte>, f: nat, end: State ::
      Eval(Env(code, classes, s), 0, Fresh(0), f) == Decided(Accepted(end)) ==> BeginsSpared(s, p)
  }

  ghost predicate BeginsSpared(s: seq<byte>, p: seq<byte>) { exists w :: Spares(p, w) && Occurs(s, 0, w) }

  /** The skip prefix spares every match when no tabulation was skipped and later alternatives are spared. */
  lemma SkipPrefixSpares(code: seq<byte>, classes: seq<CharClass>)
    requires LeadsForward(code) && StaysPut(code, 0) && LaterSpared(code)
    ensures SkipPrefix(code).Some? ==> SparesMatches(code, classes, SkipPrefix(code).value)
  {
    hide Unfolds, CheckLiterals, Collect, LiteralPrefix, RootAt, StaysPut, LeadsMatches, CommonPrefix, AllSpared,
         SparesMatches;
    var t := Branches(code);
    if |Leading(code)| >= 2 {
      LeadingBegins(code, classes);
      LeadIsSpared(code, classes, Leading(code));
    } else if DerivedPrefix(code, t) != [] {
      ExtractedMeansCollected(code);
      var ls := Collect(Front(code), t, 0, 0).value;
      AllAreSpared(ls);
      AlternativesAreSpared(code, classes, t, Extracted(Front(code), t));
    }
  }

  lemma LeadIsSpared(code: seq<byte>, classes: seq<CharClass>, p: seq<byte>)
    requires LeadsMatches(code, classes, p)
    ensures SparesMatches(code, classes, p)
  {
    hide Eval, Occurs, Spares;
    PrefixSpares(p, p);
  }

  lemma AlternativesAreSpared(code: seq<byte>, classes: seq<CharClass>, t: AltTree, p: seq<byte>)
    requires Unfolds(Front(code), t, 0) && Collect(Front(code), t, 0, 0).Some?
    requires AllSpared(Collect(Front(code), t, 0, 0).value, p)
    ensures SparesMatches(code, classes, p)
  {
    hide Eval, Occurs, Spares, Unfolds, Collect;
    var ls := Collect(Front(code), t, 0, 0).value;
    forall s: seq<byte>, f: nat, end: State | Eval(Env(code, classes, s), 0, Fresh(0), f) == Decided(Accepted(end))
      ensures BeginsSpared(s, p)
    {
      RunsThrough(Env(code, classes, s), t, 0, 0, Fresh(0), f, end);
      var j :| 0 <= j < |ls| && Occurs(s, 0, ls[j]);
      assert Spares(p, ls[j]);
    }
  }
}
