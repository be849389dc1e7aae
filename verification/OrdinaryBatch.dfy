/** The batch over a compiled ordinary pattern: its searches are those of the general tier behind the
    derived filters, so what is listed are the leftmost matches of the pattern, one behind the other. */
module OrdinaryBatch {
  import opened Wrappers
  import opened Bytes
  import opened FusionMeaning
  import opened Semantics
  import opened Pattern
  import opened OrdinaryPatterns
  import opened Compiler
  import opened EndToEnd
  import opened Attempts
  import opened TrackablePatterns
  import opened Trailer
  import opened MinLength
  import opened Machine
  import opened SearchMeta
  import opened CompiledSearch
  import opened Search
  import opened OrdinarySearch
  import opened Batch

  /** The variables that the machine counts, relative to the match. */
  function SetVars(st: State): seq<(nat, nat)> {
    seq(Min(st.varCount, MAX_REGS), r requires 0 <= r < MAX_REGS => (st.varStart[r], st.varEnd[r]))
  }

  /** The variables of the match that begins at `start`. */
  function VarsAt(a: Ast, s: seq<byte>, start: nat): seq<(nat, nat)>
    requires Matchable(a)
  {
    if start <= |s| && MeantVerdict(a, s[start..], Fresh(0)).Accepted?
    then SetVars(MeantVerdict(a, s[start..], Fresh(0)).st)
    else []
  }

  /** One search of the batch; what a match writes to the output is a parameter. */
  function Report(a: Ast, image: seq<byte>, s: seq<byte>, written: nat -> seq<byte>, off: nat): Option<Match>
    requires Matchable(a) && LeadsForward(image)
  {
    match Filtered(DerivedFilters(image), s, MeantAttempts(a, s), off)
    case Found(start, end) => Some(Match(start, end, VarsAt(a, s, start), written(start)))
    case _ => None
  }

  function Reporter(a: Ast, image: seq<byte>, s: seq<byte>, written: nat -> seq<byte>): Searcher
    requires Matchable(a) && LeadsForward(image)
  {
    (off: nat) => Report(a, image, s, written, off)
  }

  /** An image on which the derived filters are to be trusted. */
  ghost predicate Trusted(a: Ast, image: seq<byte>) {
    && Searchable(a) && image == Compiled(a).value && Matchable(a)
    && LeadsForward(image) && FlagSuffices(a, image) && LaterSpared(image)
  }

  /** A match ends inside the subject. */
  lemma HitEndsInside(a: Ast, s: seq<byte>, off: nat)
    requires Searchable(a) && Matchable(a) && NoOverlong(s) && off <= |s| && MeantAttempt(a, s, off).Hit?
    ensures off + MeantAttempt(a, s, off).len <= |s|
  {
    hide Ordinary, Trackable, NoAbort, NoOverlong, Matchable, MeantVerdict, Compiled, LoadClasses, Eval, Runs;
    var rest := s[off..];
    var v := MeantVerdict(a, rest, Fresh(0));
    NoOverlongLater(s, off);
    OrdinaryPatternRuns(a, rest, Fresh(0), v);
    var env := Boot(Compiled(a).value, rest);
    AcceptedEval(env, Fresh(0), v.st);
    var f: nat :| Eval(env, 0, Fresh(0), f) == Decided(Accepted(v.st));
    AcceptedAhead(env, 0, Fresh(0), f, v.st);
  }

  lemma ReportIsLeftmost(a: Ast, image: seq<byte>, s: seq<byte>, written: nat -> seq<byte>, off: nat)
    requires Trusted(a, image) && NoOverlong(s) && off <= |s|
    ensures match Report(a, image, s, written, off)
      case None => PlainScan(MeantAttempts(a, s), off, |s|) == NotFound
      case Some(m) =>
        && off <= m.start <= m.end <= |s| && m.vars == VarsAt(a, s, m.start) && m.out == written(m.start)
        && PlainScan(MeantAttempts(a, s), off, |s|) == Found(m.start, m.end)
  {
    hide Searchable, Matchable, NoOverlong, Compiled, DerivedFilters, MeantAttempt, LeadsForward, FlagSuffices,
         LaterSpared, SkipsNoMatch, HidesNoMatch, PlainScan, Filtered, VarsAt;
    OrdinaryFiltersAreSound(a, s);
    FilteredIsPlain(DerivedFilters(image), s, MeantAttempts(a, s), off);
    ScanFirst(MeantAttempts(a, s), off, |s|);
    NeverCancelled(a, s, off);
    match PlainScan(MeantAttempts(a, s), off, |s|)
    case Found(start, end) => HitEndsInside(a, s, start);
    case _ =>
  }

  lemma {:induction false} NeverCancelled(a: Ast, s: seq<byte>, off: nat)
    requires Matchable(a) && Searchable(a)
    ensures !PlainScan(MeantAttempts(a, s), off, |s|).Cancelled?
    decreases if off <= |s| then |s| + 1 - off else 0
  {
    hide Ordinary, Trackable, NoAbort, Short, Matchable, MeantAttempt;
    if off <= |s| {
      AttemptNeverAborts(a, s, off);
      if MeantAttempt(a, s, off).Miss? { NeverCancelled(a, s, off + 1); }
    }
  }

  lemma ReporterIsLeftmost(a: Ast, image: seq<byte>, s: seq<byte>, written: nat -> seq<byte>)
    requires Trusted(a, image) && NoOverlong(s)
    ensures InBounds(Reporter(a, image, s, written), |s|)
    ensures Leftmost(Reporter(a, image, s, written), MeantAttempts(a, s), |s|)
  {
    hide Searchable, Matchable, NoOverlong, Compiled, MeantAttempts, LeadsForward, FlagSuffices, LaterSpared, Report,
         PlainScan;
    forall off: nat | off <= |s| {
      ReportIsLeftmost(a, image, s, written, off);
    }
  }

  /** The entries are the leftmost matches of the pattern, each from the end of the one before, with the variables
      that the pattern means, and no match is left behind the last. */
  ghost predicate ListsMatches(a: Ast, s: seq<byte>, ms: seq<Match>)
    requires Matchable(a)
  {
    && (forall k :: 0 <= k < |ms| ==> FirstAt(MeantAttempts(a, s), ms, 0, k, |s|) && ms[k].vars == VarsAt(a, s, ms[k].start))
    && (forall q: nat :: From(ms, 0, |ms|) <= q <= |s| ==> MeantAttempts(a, s)(q).Miss?)
  }

  lemma {:induction false} ReportedVars(a: Ast, image: seq<byte>, s: seq<byte>, written: nat -> seq<byte>, off: nat, k: nat)
    requires Trusted(a, image) && NoOverlong(s) && InBounds(Reporter(a, image, s, written), |s|)
    requires k < |Enumerate(Reporter(a, image, s, written), off, |s|)|
    ensures var m := Enumerate(Reporter(a, image, s, written), off, |s|)[k];
      m.vars == VarsAt(a, s, m.start) && m.out == written(m.start)
    decreases k
  {
    hide Searchable, Matchable, NoOverlong, Compiled, LeadsForward, FlagSuffices, LaterSpared, Report, VarsAt, InBounds;
    var search := Reporter(a, image, s, written);
    ReportIsLeftmost(a, image, s, written, off);
    EnumerateStep(search, off, |s|);
    if k > 0 {
      ReportedVars(a, image, s, written, Next(search(off).value), k - 1);
    }
  }

  lemma BatchListsMatches(a: Ast, image: seq<byte>, s: seq<byte>, written: nat -> seq<byte>)
    requires Trusted(a, image) && NoOverlong(s)
    ensures InBounds(Reporter(a, image, s, written), |s|)
    ensures ListsMatches(a, s, Enumerate(Reporter(a, image, s, written), 0, |s|))
  {
    hide Searchable, Matchable, NoOverlong, Compiled, MeantAttempts, LeadsForward, FlagSuffices, LaterSpared, Reporter,
         InBounds, Leftmost, Enumerate, FirstAt, VarsAt;
    ReporterIsLeftmost(a, image, s, written);
    var search := Reporter(a, image, s, written);
    var ms := Enumerate(search, 0, |s|);
    forall k | 0 <= k < |ms|
      ensures FirstAt(MeantAttempts(a, s), ms, 0, k, |s|) && ms[k].vars == VarsAt(a, s, ms[k].start)
    {
      EachIsLeftmost(search, MeantAttempts(a, s), 0, |s|, k);
      ReportedVars(a, image, s, written, 0, k);
    }
    NothingIsLeft(search, MeantAttempts(a, s), 0, |s|);
  }

  ghost predicate Alike(ms: seq<Match>, ns: seq<Match>, k: nat) {
    && k <= |ms| && k <= |ns|
    && forall j :: 0 <= j < k ==> ms[j].start == ns[j].start && ms[j].end == ns[j].end && ms[j].vars == ns[j].vars
  }

  /** Two lists that agree so far both go on with the first match behind. */
  lemma SameEntry(attempt: nat -> Attempt, ms: seq<Match>, ns: seq<Match>, k: nat, n: nat)
    requires k < |ms| && k < |ns| && From(ms, 0, k) == From(ns, 0, k)
    requires FirstAt(attempt, ms, 0, k, n) && FirstAt(attempt, ns, 0, k, n)
    ensures ms[k].start == ns[k].start && ms[k].end == ns[k].end
  {
    hide From;
    var b, c := ms[k].start, ns[k].start;
    assert attempt(b).Hit? && attempt(c).Hit?;
  }

  /** Where one list has another entry, the other cannot end. */
  lemma NotYetTheEnd(attempt: nat -> Attempt, ms: seq<Match>, ns: seq<Match>, k: nat, n: nat)
    requires k < |ms| && k <= |ns| && From(ms, 0, k) == From(ns, 0, k) && FirstAt(attempt, ms, 0, k, n)
    requires forall q: nat :: From(ns, 0, |ns|) <= q <= n ==> attempt(q).Miss?
    ensures k < |ns|
  {
    hide From;
    assert attempt(ms[k].start).Hit?;
  }

  /** There is only one such list. */
  lemma {:induction false} ListedAlike(a: Ast, s: seq<byte>, ms: seq<Match>, ns: seq<Match>, k: nat)
    requires Matchable(a) && ListsMatches(a, s, ms) && ListsMatches(a, s, ns) && k <= |ms|
    ensures Alike(ms, ns, k) && From(ms, 0, k) == From(ns, 0, k)
    decreases k
  {
    hide Matchable, MeantAttempts, VarsAt, FirstAt;
    if k > 0 {
      ListedAlike(a, s, ms, ns, k - 1);
      NotYetTheEnd(MeantAttempts(a, s), ms, ns, k - 1, |s|);
      SameEntry(MeantAttempts(a, s), ms, ns, k - 1, |s|);
    }
  }

  lemma ListedOnce(a: Ast, s: seq<byte>, ms: seq<Match>, ns: seq<Match>)
    requires Matchable(a) && ListsMatches(a, s, ms) && ListsMatches(a, s, ns)
    ensures |ms| == |ns| && Alike(ms, ns, |ms|)
  {
    hide Matchable, ListsMatches, From;
    ListedAlike(a, s, ms, ns, |ms|);
    ListedAlike(a, s, ns, ms, |ns|);
  }

  // ----- What the rows say -----

  /** Entry `k` of a row gives the place in the subject of the stretch from `from` to `end` of a match at `start`. */
  predicate Places(row: seq<nat>, k: nat, s: seq<byte>, start: nat, from: nat, end: nat)
    requires start <= |s|
  {
    && 2 * k + 1 < |row| && row[2 * k] == start + from
    && (from <= end <= |s| - start ==>
          && row[2 * k] + row[2 * k + 1] <= |s|
          && s[row[2 * k]..row[2 * k] + row[2 * k + 1]] == s[start..][from..end])
  }

  /** The state in which the match at `start` is accepted, and the rows that give the places of its variables. */
  ghost predicate Located(a: Ast, s: seq<byte>, rows: seq<seq<nat>>, k: nat, start: nat)
    requires Matchable(a) && start <= |s|
  {
    && MeantVerdict(a, s[start..], Fresh(0)).Accepted?
    && |rows| == MAX_ROWS
    && var st := MeantVerdict(a, s[start..], Fresh(0)).st;
       forall q: nat :: q < MAX_REGS && q < st.varCount ==> Places(rows[q], k, s, start, st.varStart[q], st.varEnd[q])
  }

  lemma RowPlaces(row: seq<nat>, k: nat, m: Match, q: nat, s: seq<byte>, from: nat, end: nat)
    requires q < |m.vars| && m.vars[q] == (from, end) && m.start <= |s| && InRow(row, k, m, q)
    ensures Places(row, k, s, m.start, from, end)
  {
    var start := m.start;
    if from <= end <= |s| - start {
      assert s[start..][from..end] == s[start + from..start + end];
      if from == end { assert s[start + from..start + from] == []; }
    }
  }

  lemma RowsLocate(a: Ast, s: seq<byte>, rows: seq<seq<nat>>, ms: seq<Match>, k: nat)
    requires Matchable(a) && ListsMatches(a, s, ms) && RowsHold(rows, ms) && k < |ms|
    ensures ms[k].start <= |s| && Located(a, s, rows, k, ms[k].start)
  {
    hide Matchable, MeantVerdict, InRow, Places;
    var m := ms[k];
    assert FirstAt(MeantAttempts(a, s), ms, 0, k, |s|) && m.vars == VarsAt(a, s, m.start);
    assert MeantAttempt(a, s, m.start).Hit?;
    var st := MeantVerdict(a, s[m.start..], Fresh(0)).st;
    forall q: nat | q < MAX_REGS && q < st.varCount
      ensures Places(rows[q], k, s, m.start, st.varStart[q], st.varEnd[q])
    {
      assert InRow(rows[q], k, m, q);
      RowPlaces(rows[q], k, m, q, s, st.varStart[q], st.varEnd[q]);
    }
  }

  /** The batch run behind the derived filters of a compiled ordinary pattern records exactly the leftmost matches that
      the pattern means, and its rows give the places of their variables in the subject. */
  method BatchOrdinary(a: Ast, image: seq<byte>, s: seq<byte>, written: nat -> seq<byte>) returns (r: Results)
    requires Matchable(a) && LeadsForward(image) && Trusted(a, image) && NoOverlong(s)
    ensures InBounds(Reporter(a, image, s, written), |s|)
    ensures var ms := Enumerate(Reporter(a, image, s, written), 0, |s|);
      && r.Holds(ms) && ListsMatches(a, s, ms)
      && forall k :: 0 <= k < |ms| ==> ms[k].start <= |s| && Located(a, s, r.rows[..], k, ms[k].start)
  {
    hide Trusted, Matchable, LeadsForward, NoOverlong, Reporter, ListsMatches, Enumerate, InBounds, Located, RowsHold;
    BatchListsMatches(a, image, s, written);
    r := BatchRun(Reporter(a, image, s, written), |s|);
    ghost var ms := Enumerate(Reporter(a, image, s, written), 0, |s|);
    forall k | 0 <= k < |ms| ensures ms[k].start <= |s| && Located(a, s, r.rows[..], k, ms[k].start) {
      RowsLocate(a, s, r.rows[..], ms, k);
    }
  }
}
