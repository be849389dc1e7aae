/** Batch search (batch_run in api.c): one call per match, results in arrays that double as they fill. */
module Batch {
  import opened Wrappers
  import opened Bytes
  import opened Search

  const MAX_ROWS: nat := 64
  const FIRST_CAP: nat := 64
  const FIRST_OUT: nat := 1024

  /** One successful search: where it matched, the variables it set, relative to the match, and what
      it wrote to the output. */
  datatype Match = Match(start: nat, end: nat, vars: seq<(nat, nat)>, out: seq<byte>)

  /** Searching from an offset; aborted and failed searches both end the batch. */
  type Searcher = nat -> Option<Match>

  /** A search answers at or after its offset, inside the subject. */
  ghost predicate InBounds(search: Searcher, n: nat) {
    forall off: nat :: off <= n && search(off).Some? ==>
      off <= search(off).value.start <= search(off).value.end <= n
  }

  /** Where the next search starts: behind the match, or one byte on for an empty one. */
  function Next(m: Match): nat {
    if m.end > m.start then m.end else m.start + 1
  }

  function Enumerate(search: Searcher, off: nat, n: nat): (ms: seq<Match>)
    requires InBounds(search, n)
    decreases if off <= n then n + 1 - off else 0
  {
    if off > n then []
    else
      match search(off)
      case None => []
      case Some(m) => [m] + Enumerate(search, Next(m), n)
  }

  /** Where the search for match `k` started. */
  function From(ms: seq<Match>, off: nat, k: nat): nat
    requires k <= |ms|
  {
    if k == 0 then off else Next(ms[k - 1])
  }

  // ----- What is enumerated -----

  /** A searcher that reports the first offset at which the pattern matches. */
  ghost predicate Leftmost(search: Searcher, attempt: nat -> Attempt, n: nat) {
    forall off: nat :: off <= n ==>
      match search(off)
      case None => PlainScan(attempt, off, n) == NotFound
      case Some(m) => m.start <= m.end && PlainScan(attempt, off, n) == Found(m.start, m.end)
  }

  lemma {:induction false} ScanFirst(attempt: nat -> Attempt, off: nat, n: nat)
    ensures match PlainScan(attempt, off, n)
      case NotFound => forall q: nat :: off <= q <= n ==> attempt(q).Miss?
      case Found(a, b) => off <= a <= n && b >= a && attempt(a) == Hit(b - a)
                          && forall q: nat :: off <= q < a ==> attempt(q).Miss?
      case Cancelled => true
    decreases if off <= n then n + 1 - off else 0
  {
    if off <= n && attempt(off).Miss? {
      ScanFirst(attempt, off + 1, n);
    }
  }

  /** Entry `k` is the first match at or after the point where its search began. */
  ghost predicate FirstAt(attempt: nat -> Attempt, ms: seq<Match>, off: nat, k: nat, n: nat)
    requires k < |ms|
  {
    && From(ms, off, k) <= ms[k].start <= ms[k].end <= n
    && attempt(ms[k].start) == Hit(ms[k].end - ms[k].start)
    && forall q: nat :: From(ms, off, k) <= q < ms[k].start ==> attempt(q).Miss?
  }

  lemma EnumerateStep(search: Searcher, off: nat, n: nat)
    requires InBounds(search, n) && off <= n && search(off).Some?
    ensures var m := search(off).value;
      Enumerate(search, off, n) == [m] + Enumerate(search, Next(m), n)
  {
  }

  lemma FromTail(m: Match, rest: seq<Match>, off: nat, k: nat)
    requires k <= |rest|
    ensures From([m] + rest, off, k + 1) == From(rest, Next(m), k)
    ensures k < |rest| ==> ([m] + rest)[k + 1] == rest[k]
  {
    if k > 0 { assert ([m] + rest)[k] == rest[k - 1]; }
  }

  /** Every listed match is the leftmost one from the end of the previous match on. */
  lemma {:induction false} EachIsLeftmost(search: Searcher, attempt: nat -> Attempt, off: nat, n: nat, k: nat)
    requires InBounds(search, n) && Leftmost(search, attempt, n) && k < |Enumerate(search, off, n)|
    ensures FirstAt(attempt, Enumerate(search, off, n), off, k, n)
    decreases k
  {
    hide PlainScan;
    ScanFirst(attempt, off, n);
    EnumerateStep(search, off, n);
    var m := search(off).value;
    var rest := Enumerate(search, Next(m), n);
    if k > 0 {
      EachIsLeftmost(search, attempt, Next(m), n, k - 1);
      FromTail(m, rest, off, k - 1);
    }
  }

  /** Behind the last listed match there is no further one. */
  lemma {:induction false} NothingIsLeft(search: Searcher, attempt: nat -> Attempt, off: nat, n: nat)
    requires InBounds(search, n) && Leftmost(search, attempt, n)
    ensures var ms := Enumerate(search, off, n);
      forall q: nat :: From(ms, off, |ms|) <= q <= n ==> attempt(q).Miss?
    decreases if off <= n then n + 1 - off else 0
  {
    hide PlainScan;
    if off <= n {
      ScanFirst(attempt, off, n);
      if search(off).Some? {
        var m := search(off).value;
        EnumerateStep(search, off, n);
        NothingIsLeft(search, attempt, Next(m), n);
        var rest := Enumerate(search, Next(m), n);
        FromTail(m, rest, off, |rest|);
      }
    }
  }

  /** Matches are in strictly increasing order and do not overlap. */
  lemma {:induction false} MatchesInOrder(search: Searcher, off: nat, n: nat, j: nat, k: nat)
    requires InBounds(search, n) && j < k < |Enumerate(search, off, n)|
    ensures var ms := Enumerate(search, off, n);
      ms[j].start < ms[k].start && ms[j].end <= ms[k].start
    decreases k - j
  {
    var ms := Enumerate(search, off, n);
    StartsAfter(search, off, n, k);
    if j + 1 < k {
      MatchesInOrder(search, off, n, j, k - 1);
      StartsAfter(search, off, n, k - 1);
    }
  }

  lemma {:induction false} StartsAfter(search: Searcher, off: nat, n: nat, k: nat)
    requires InBounds(search, n) && k < |Enumerate(search, off, n)|
    ensures var ms := Enumerate(search, off, n); From(ms, off, k) <= ms[k].start <= ms[k].end <= n
    decreases k
  {
    var ms := Enumerate(search, off, n);
    var m := search(off).value;
    var rest := Enumerate(search, Next(m), n);
    assert ms == [m] + rest;
    if k > 0 {
      StartsAfter(search, Next(m), n, k - 1);
      if k > 1 { assert ms[k - 1] == rest[k - 2]; }
    }
  }

  // ----- The result arrays -----

  /** Variables beyond the row limit are not recorded. */
  function RowCount(m: Match): nat {
    if |m.vars| < MAX_ROWS then |m.vars| else MAX_ROWS
  }

  /** Entry `k` of a row: where in the subject variable `r` of the match begins, and how long it is. */
  predicate InRow(row: seq<nat>, k: nat, m: Match, r: nat)
    requires r < |m.vars|
  {
    && 2 * k + 1 < |row|
    && row[2 * k] == m.start + m.vars[r].0
    && row[2 * k + 1] == if m.vars[r].1 > m.vars[r].0 then m.vars[r].1 - m.vars[r].0 else 0
  }

  /** Every variable of every match so far stands in its row. */
  ghost predicate RowsHold(rows: seq<seq<nat>>, ms: seq<Match>) {
    |rows| == MAX_ROWS
    && forall k, r :: 0 <= k < |ms| && 0 <= r < RowCount(ms[k]) ==> InRow(rows[r], k, ms[k], r)
  }

  /** `n` is the largest number of variables that a match set. */
  ghost predicate MostVars(n: nat, ms: seq<Match>) {
    && (forall k :: 0 <= k < |ms| ==> |ms[k].vars| <= n)
    && (n == 0 || exists k :: 0 <= k < |ms| && |ms[k].vars| == n)
  }

  lemma MoreVars(n: nat, ms: seq<Match>, m: Match)
    requires MostVars(n, ms)
    ensures MostVars(Max(n, |m.vars|), ms + [m])
  {
    if |m.vars| >= n {
      assert (ms + [m])[|ms|] == m;
    } else if n > 0 {
      var k :| 0 <= k < |ms| && |ms[k].vars| == n;
      assert (ms + [m])[k] == ms[k];
    }
  }

  /** Positions, lengths and output lengths, entry by entry. */
  predicate NumbersHold(positions: seq<nat>, lengths: seq<nat>, outputLens: seq<nat>, ms: seq<Match>) {
    && |positions| == |lengths| == |outputLens| == |ms|
    && forall k :: 0 <= k < |ms| ==>
         positions[k] == ms[k].start && lengths[k] == ms[k].end - ms[k].start && outputLens[k] == |ms[k].out|
  }

  lemma MoreNumbers(ps: seq<nat>, ls: seq<nat>, os: seq<nat>, ms: seq<Match>, m: Match)
    requires NumbersHold(ps, ls, os, ms) && m.start <= m.end
    ensures NumbersHold(ps + [m.start], ls + [m.end - m.start], os + [|m.out|], ms + [m])
  {
  }

  /** Outputs one after the other, each closed by a NUL. */
  function Outputs(ms: seq<Match>): seq<byte> {
    if ms == [] then [] else Outputs(ms[..|ms| - 1]) + ms[|ms| - 1].out + [0]
  }

  class Results {
    var positions: array<nat>
    var lengths: array<nat>
    var outputLens: array<nat>
    var rows: array<seq<nat>>
    var out: array<byte>
    var outPos: nat
    var count: nat
    var maxVars: nat

    ghost predicate Shape()
      reads this
    {
      && positions.Length == lengths.Length == outputLens.Length > 0
      && positions != lengths && positions != outputLens && lengths != outputLens
      && rows.Length == MAX_ROWS && count <= positions.Length && outPos <= out.Length && out.Length > 0
    }

    /** The arrays hold exactly these matches. */
    ghost predicate Holds(ms: seq<Match>)
      reads this, positions, lengths, outputLens, rows, out
    {
      && Shape() && count == |ms|
      && NumbersHold(positions[..count], lengths[..count], outputLens[..count], ms)
      && RowsHold(rows[..], ms) && MostVars(maxVars, ms)
      && out[..outPos] == Outputs(ms)
    }

    constructor ()
      ensures Holds([])
      ensures fresh(positions) && fresh(lengths) && fresh(outputLens) && fresh(rows) && fresh(out)
    {
      positions, lengths, outputLens := new nat[FIRST_CAP], new nat[FIRST_CAP], new nat[FIRST_CAP];
      rows := new seq<nat>[MAX_ROWS](_ => []);
      out := new byte[FIRST_OUT];
      outPos, count, maxVars := 0, 0, 0;
    }

    /** Store the numbers of one match behind those already held. */
    method StoreNumbers(m: Match, ghost ms: seq<Match>)
      requires Shape() && count < positions.Length && m.start <= m.end
      requires NumbersHold(positions[..count], lengths[..count], outputLens[..count], ms)
      modifies positions, lengths, outputLens
      ensures NumbersHold(positions[..count + 1], lengths[..count + 1], outputLens[..count + 1], ms + [m])
    {
      hide NumbersHold;
      MoreNumbers(positions[..count], lengths[..count], outputLens[..count], ms, m);
      positions[count] := m.start;
      lengths[count] := m.end - m.start;
      outputLens[count] := |m.out|;
      assert positions[..count + 1] == old(positions[..count]) + [m.start];
      assert lengths[..count + 1] == old(lengths[..count]) + [m.end - m.start];
      assert outputLens[..count + 1] == old(outputLens[..count]) + [|m.out|];
    }

    /** Double the three parallel arrays when they are full. */
    method GrowResults()
      requires Shape()
      modifies this`positions, this`lengths, this`outputLens
      ensures Shape() && count < positions.Length
      ensures positions[..count] == old(positions[..count]) && lengths[..count] == old(lengths[..count])
      ensures outputLens[..count] == old(outputLens[..count])
      ensures count < old(positions.Length) ==>
        positions == old(positions) && lengths == old(lengths) && outputLens == old(outputLens)
      ensures count >= old(positions.Length) ==> fresh(positions) && fresh(lengths) && fresh(outputLens)
    {
      if count < positions.Length { return; }
      var cap := positions.Length * 2;
      positions := Doubled(positions, count, cap);
      lengths := Doubled(lengths, count, cap);
      outputLens := Doubled(outputLens, count, cap);
    }

    /** Record one variable of the match being added: allocate its row, or double it and clear the
        new tail, then store the pair. */
    method RecordPair(r: nat, m: Match)
      requires Shape() && r < RowCount(m) && count < positions.Length
      modifies rows
      ensures InRow(rows[r], count, m, r)
      ensures |rows[r]| >= |old(rows[r])|
      ensures forall i :: 0 <= i < |old(rows[r])| && i != 2 * count && i != 2 * count + 1 ==> rows[r][i] == old(rows[r])[i]
      ensures forall q :: 0 <= q < MAX_ROWS && q != r ==> rows[q] == old(rows[q])
    {
      var row := rows[r];
      if row == [] {
        row := seq(2 * positions.Length, _ => 0);
      } else if 2 * count + 1 >= |row| {
        var cap := Wider(|row|, 2 * count + 1);
        row := row + seq(cap - |row|, _ => 0);
      }
      var (vs, ve) := m.vars[r];
      rows[r] := row[2 * count := m.start + vs][2 * count + 1 := if ve > vs then ve - vs else 0];
    }

    method RecordPairs(m: Match, ghost ms: seq<Match>)
      requires Shape() && count == |ms| && count < positions.Length && RowsHold(rows[..], ms) && MostVars(maxVars, ms)
      modifies rows, this`maxVars
      ensures RowsHold(rows[..], ms + [m]) && MostVars(maxVars, ms + [m])
    {
      hide MostVars;
      MoreVars(maxVars, ms, m);
      if |m.vars| > maxVars { maxVars := |m.vars|; }
      var nv := RowCount(m);
      var r := 0;
      while r < nv
        invariant 0 <= r <= nv && RowsHold(rows[..], ms)
        invariant forall q :: 0 <= q < r ==> InRow(rows[q], count, m, q)
        modifies rows
      {
        RecordPair(r, m);
        r := r + 1;
      }
    }

    /** Double the output buffer until it holds `needed` bytes. */
    method GrowOut(needed: nat)
      requires Shape() && needed > 0
      modifies this`out
      ensures Shape() && needed <= out.Length && out[..outPos] == old(out[..outPos])
      ensures out == old(out) || fresh(out)
    {
      if needed <= out.Length { return; }
      var cap := Wider(out.Length, needed - 1);
      var grown := new byte[cap];
      var i := 0;
      while i < outPos
        invariant 0 <= i <= outPos && grown[..i] == out[..i]
        modifies grown
      {
        grown[i] := out[i];
        i := i + 1;
      }
      out := grown;
    }

    /** Append an output and its closing NUL. */
    method AppendOutput(text: seq<byte>)
      requires Shape()
      modifies this`out, this`outPos, out
      ensures Shape() && (out == old(out) || fresh(out))
      ensures out[..outPos] == old(out[..outPos]) + text + [0]
    {
      var needed := outPos + |text| + 1;
      GrowOut(needed);
      CopyOut(out, outPos, text);
      outPos := needed;
    }
  }

  method CopyOut(b: array<byte>, at: nat, text: seq<byte>)
    requires at + |text| + 1 <= b.Length
    modifies b
    ensures b[..at + |text| + 1] == old(b[..at]) + text + [0]
  {
    ghost var head := b[..at];
    var i := 0;
    while i < |text|
      invariant 0 <= i <= |text| && b[..at] == head && b[at..at + i] == text[..i]
    {
      b[at + i] := text[i];
      i := i + 1;
    }
    b[at + |text|] := 0;
  }

  /** The batch: search, record, move on, until a search fails. */
  method BatchRun(search: Searcher, n: nat) returns (r: Results)
    requires InBounds(search, n)
    ensures r.Holds(Enumerate(search, 0, n))
  {
    hide Results.Holds, Results.Shape, Enumerate;
    r := new Results();
    ghost var ms: seq<Match> := [];
    var off := 0;
    assert ms + Enumerate(search, 0, n) == Enumerate(search, 0, n);
    while off <= n
      invariant r.Holds(ms)
      invariant ms + Enumerate(search, off, n) == Enumerate(search, 0, n)
      invariant fresh(r) && fresh(r.positions) && fresh(r.lengths) && fresh(r.outputLens) && fresh(r.rows) && fresh(r.out)
      decreases n + 1 - off
    {
      var hit := search(off);
      EnumerateEnds(search, off, n);
      if hit.None? { break; }
      var m := hit.value;
      EnumerateStep(search, off, n);
      Record(r, m, ms);
      assert ms + ([m] + Enumerate(search, Next(m), n)) == (ms + [m]) + Enumerate(search, Next(m), n);
      ms := ms + [m];
      off := m.start + (if m.end - m.start > 0 then m.end - m.start else 1);
    }
    EnumerateEnds(search, off, n);
    assert ms + [] == ms;
  }

  lemma EnumerateEnds(search: Searcher, off: nat, n: nat)
    requires InBounds(search, n)
    ensures off > n || search(off).None? ==> Enumerate(search, off, n) == []
  {
  }

  /** Append one match to the results. */
  method Record(r: Results, m: Match, ghost ms: seq<Match>)
    requires r.Holds(ms) && m.start <= m.end
    modifies r, r.positions, r.lengths, r.outputLens, r.rows, r.out
    ensures r.Holds(ms + [m]) && r.rows == old(r.rows)
    ensures r.positions == old(r.positions) || fresh(r.positions)
    ensures r.lengths == old(r.lengths) || fresh(r.lengths)
    ensures r.outputLens == old(r.outputLens) || fresh(r.outputLens)
    ensures r.out == old(r.out) || fresh(r.out)
  {
    hide InRow, RowsHold, NumbersHold, MostVars, Outputs;
    OutputsMore(ms, m);
    r.GrowResults();
    r.StoreNumbers(m, ms);
    var k := r.count;
    r.RecordPairs(m, ms);
    r.AppendOutput(m.out);
    r.count := k + 1;
  }

  lemma OutputsMore(ms: seq<Match>, m: Match)
    ensures Outputs(ms + [m]) == Outputs(ms) + m.out + [0]
  {
    assert (ms + [m])[..|ms|] == ms;
  }

  method Doubled(a: array<nat>, n: nat, cap: nat) returns (b: array<nat>)
    requires n <= a.Length && n <= cap
    ensures fresh(b) && b.Length == cap && b[..n] == a[..n]
  {
    b := new nat[cap];
    var i := 0;
    while i < n
      invariant 0 <= i <= n && b[..i] == a[..i]
    {
      b[i] := a[i];
      i := i + 1;
    }
  }

  /** Double until the index fits. */
  method Wider(from: nat, index: nat) returns (cap: nat)
    requires from > 0
    ensures cap >= from && cap > index
  {
    cap := from;
    while cap <= index
      invariant cap >= from
      decreases index - cap
    {
      cap := cap * 2;
    }
  }
}
