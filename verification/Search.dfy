/** The general search tier (tier_general_fallback): trying every offset, behind a start-byte
    filter, a length filter and a skip table. */
module Search {
  import opened Wrappers
  import opened Bytes
  import opened StartBitmap
  import opened Horspool

  /** Outcome of running the pattern on the subject from one offset on. */
  datatype Attempt = Hit(len: nat) | Miss | Aborts

  datatype SearchResult = Found(start: nat, end: nat) | NotFound | Cancelled

  /** The plain scan: the first offset at or after `from` that does not miss decides. */
  function PlainScan(attempt: nat -> Attempt, from: nat, n: nat): SearchResult
    decreases if from <= n then n + 1 - from else 0
  {
    if from > n then NotFound
    else
      match attempt(from)
      case Hit(len) => Found(from, from + len)
      case Aborts => Cancelled
      case Miss => PlainScan(attempt, from + 1, n)
  }

  /** What the static analysis left behind: each filter may be absent. */
  datatype Filters = Filters(bits: Option<ByteSet>, minLen: nat, prefix: Option<seq<byte>>)

  predicate Passes(f: Filters, s: seq<byte>, off: nat) {
    f.bits.Some? && off < |s| ==> f.bits.value[s[off]]
  }

  /** Filters that never turn away an offset that would not have missed. */
  ghost predicate HidesNothing(f: Filters, s: seq<byte>, attempt: nat -> Attempt) {
    && (forall off: nat :: off <= |s| && !attempt(off).Miss? ==> Passes(f, s, off) && off + f.minLen <= |s|)
    && (f.prefix.Some? ==> Heralds(f.prefix.value, s, attempt))
  }

  /** The prefix begins every match. */
  ghost predicate Heralds(p: seq<byte>, s: seq<byte>, attempt: nat -> Attempt) {
    p != [] && forall off: nat :: off <= |s| && !attempt(off).Miss? ==> Occurs(s, off, p)
  }

  /** A stretch of misses can be jumped over. */
  lemma {:induction false} ScanJumps(attempt: nat -> Attempt, from: nat, to: nat, n: nat)
    requires from <= to && forall k: nat :: from <= k < to && k <= n ==> attempt(k).Miss?
    ensures PlainScan(attempt, from, n) == PlainScan(attempt, to, n)
    decreases if from <= n then n + 1 - from else 0
  {
    if from < to && from <= n {
      ScanJumps(attempt, from + 1, to, n);
    }
  }

  /** First offset at or after `from` that the start-byte filter lets through. */
  function FirstPassing(f: Filters, s: seq<byte>, from: nat): (off: nat)
    ensures from <= off && Passes(f, s, off)
    ensures forall k: nat :: from <= k < off ==> !Passes(f, s, k)
    decreases |s| - from
  {
    if from < |s| && !Passes(f, s, from) then FirstPassing(f, s, from + 1) else from
  }

  /** The verdict of one anchored trial. */
  function Trial(f: Filters, s: seq<byte>, attempt: nat -> Attempt, off: nat): SearchResult {
    if off > |s| || (f.minLen > 0 && off + f.minLen > |s|) then NotFound
    else
      match attempt(off)
      case Hit(len) => Found(off, off + len)
      case Aborts => Cancelled
      case Miss => NotFound
  }

  /** How far the skip table advances after a miss at `off`. */
  function Advance(f: Filters, s: seq<byte>, off: nat): (d: nat)
    requires f.prefix.Some? ==> f.prefix.value != []
    ensures d >= 1
  {
    if f.prefix.Some? && off + |f.prefix.value| <= |s|
    then Shift(f.prefix.value, s[off + |f.prefix.value| - 1])
    else 1
  }

  /** The scan behind the filters, whether or not they are sound. */
  function Filtered(f: Filters, s: seq<byte>, attempt: nat -> Attempt, off: nat): SearchResult
    requires f.prefix.Some? ==> f.prefix.value != []
    decreases if off <= |s| then |s| + 1 - off else 0
  {
    if off > |s| then NotFound
    else if !Passes(f, s, off) then Filtered(f, s, attempt, off + 1)
    else if f.minLen > 0 && off + f.minLen > |s| then NotFound
    else
      match attempt(off)
      case Hit(len) => Found(off, off + len)
      case Aborts => Cancelled
      case Miss => if off >= |s| then NotFound else Filtered(f, s, attempt, off + Advance(f, s, off))
  }

  /** Start bytes and minimum length turn no match away. */
  ghost predicate HidesNoMatch(f: Filters, s: seq<byte>, attempt: nat -> Attempt) {
    forall off: nat :: off <= |s| && !attempt(off).Miss? ==> Passes(f, s, off) && off + f.minLen <= |s|
  }

  /** After a miss at `off` the table shifts past a match `k` further on. */
  predicate ShiftsPast(f: Filters, s: seq<byte>, attempt: nat -> Attempt, off: nat, k: nat)
    requires f.prefix.Some? ==> f.prefix.value != []
  {
    && off < |s| && off + k <= |s| && Passes(f, s, off) && attempt(off).Miss?
    && 0 < k < Advance(f, s, off) && !attempt(off + k).Miss?
  }

  ghost predicate SkipsNoMatch(f: Filters, s: seq<byte>, attempt: nat -> Attempt) {
    && (f.prefix.Some? ==> f.prefix.value != [])
    && forall off: nat, k: nat :: !ShiftsPast(f, s, attempt, off, k)
  }

  lemma SoundFiltersSkipNothing(f: Filters, s: seq<byte>, attempt: nat -> Attempt)
    requires HidesNothing(f, s, attempt)
    ensures HidesNoMatch(f, s, attempt) && SkipsNoMatch(f, s, attempt)
  {
    hide Passes;
    forall off: nat, k: nat ensures !ShiftsPast(f, s, attempt, off, k) {
      if off < |s| && off + k <= |s| && attempt(off).Miss? && 0 < k < Advance(f, s, off) {
        ShiftIsSafe(s, off, f.prefix.value, k);
      }
    }
  }

  /** Filters that turn no match away and skip none leave the result of the plain scan. */
  lemma {:induction false} FilteredIsPlain(f: Filters, s: seq<byte>, attempt: nat -> Attempt, off: nat)
    requires HidesNoMatch(f, s, attempt) && SkipsNoMatch(f, s, attempt)
    ensures Filtered(f, s, attempt, off) == PlainScan(attempt, off, |s|)
    decreases if off <= |s| then |s| + 1 - off else 0
  {
    hide Advance;
    if off <= |s| {
      if !Passes(f, s, off) {
        FilteredIsPlain(f, s, attempt, off + 1);
      } else if off + f.minLen > |s| {
        ScanJumps(attempt, off, |s| + 1, |s|);
      } else if attempt(off).Miss? && off < |s| {
        forall q: nat | off <= q < off + Advance(f, s, off) && q <= |s| ensures attempt(q).Miss? {
          assert !ShiftsPast(f, s, attempt, off, q - off);
        }
        ScanJumps(attempt, off, off + Advance(f, s, off), |s|);
        FilteredIsPlain(f, s, attempt, off + Advance(f, s, off));
      }
    }
  }

  /** What a scan finds lies at or after its start. */
  lemma {:induction false} FoundLater(f: Filters, s: seq<byte>, attempt: nat -> Attempt, off: nat)
    requires f.prefix.Some? ==> f.prefix.value != []
    ensures var r := Filtered(f, s, attempt, off); r.Found? ==> r.start >= off
    decreases if off <= |s| then |s| + 1 - off else 0
  {
    hide Advance, Passes;
    if off <= |s| {
      if !Passes(f, s, off) {
        FoundLater(f, s, attempt, off + 1);
      } else {
        FoundLater(f, s, attempt, off + Advance(f, s, off));
      }
    }
  }

  lemma {:induction false} FoundSoon(attempt: nat -> Attempt, off: nat, q: nat, n: nat)
    requires off <= q <= n && attempt(q).Hit? && forall k: nat :: off <= k <= q ==> !attempt(k).Aborts?
    ensures var r := PlainScan(attempt, off, n); r.Found? && r.start <= q
    decreases q - off
  {
    if attempt(off).Miss? { FoundSoon(attempt, off + 1, q, n); }
  }

  ghost predicate NeverAborting(attempt: nat -> Attempt) { forall off: nat :: !attempt(off).Aborts? }

  /** The match that is shifted past is not what the search reports. */
  lemma ShiftedPast(f: Filters, s: seq<byte>, attempt: nat -> Attempt, off: nat, k: nat)
    requires f.prefix.Some? ==> f.prefix.value != []
    requires HidesNoMatch(f, s, attempt) && NeverAborting(attempt) && ShiftsPast(f, s, attempt, off, k)
    ensures Filtered(f, s, attempt, off) != PlainScan(attempt, off, |s|)
  {
    hide Advance, Passes;
    FoundSoon(attempt, off, off + k, |s|);
    FoundLater(f, s, attempt, off + Advance(f, s, off));
  }

  /** With start bytes and a minimum length that turn no match away, the search agrees with the plain scan from
      every offset exactly when the table shifts past no match. */
  lemma FilteredExact(f: Filters, s: seq<byte>, attempt: nat -> Attempt)
    requires f.prefix.Some? ==> f.prefix.value != []
    requires HidesNoMatch(f, s, attempt) && NeverAborting(attempt)
    ensures (forall off: nat :: Filtered(f, s, attempt, off) == PlainScan(attempt, off, |s|)) <==> SkipsNoMatch(f, s, attempt)
  {
    hide HidesNoMatch, NeverAborting, Filtered, PlainScan, ShiftsPast;
    if SkipsNoMatch(f, s, attempt) {
      forall off: nat ensures Filtered(f, s, attempt, off) == PlainScan(attempt, off, |s|) {
        FilteredIsPlain(f, s, attempt, off);
      }
    } else {
      var off: nat, k: nat :| ShiftsPast(f, s, attempt, off, k);
      ShiftedPast(f, s, attempt, off, k);
    }
  }

  /** The tier's loop. Unanchored it is the filtered scan, which finds what the plain scan finds when
      the filters are sound. Anchored it makes one trial, but at the first offset whose byte passes
      the filter. */
  method GeneralFallback(s: seq<byte>, start: nat, f: Filters, skip: array<nat>, anchored: bool,
                         attempt: nat -> Attempt)
    returns (r: SearchResult)
    requires f.prefix.Some? ==>
      f.prefix.value != [] && skip.Length == 256 && forall b: byte :: skip[b] == Shift(f.prefix.value, b)
    ensures !anchored ==> r == Filtered(f, s, attempt, start)
    ensures !anchored && HidesNoMatch(f, s, attempt) && SkipsNoMatch(f, s, attempt) ==> r == PlainScan(attempt, start, |s|)
    ensures !anchored && HidesNothing(f, s, attempt) ==> r == PlainScan(attempt, start, |s|)
    ensures anchored ==> r == Trial(f, s, attempt, FirstPassing(f, s, start))
  {
    hide PlainScan, HidesNothing, HidesNoMatch, SkipsNoMatch, Shift, Heralds;
    if HidesNothing(f, s, attempt) { SoundFiltersSkipNothing(f, s, attempt); }
    if HidesNoMatch(f, s, attempt) && SkipsNoMatch(f, s, attempt) { FilteredIsPlain(f, s, attempt, start); }
    var off := start;
    while off <= |s|
      invariant start <= off
      invariant !anchored ==> Filtered(f, s, attempt, off) == Filtered(f, s, attempt, start)
      invariant anchored ==> FirstPassing(f, s, off) == FirstPassing(f, s, start)
      decreases |s| + 1 - off
    {
      if f.bits.Some? && off < |s| {
        if !f.bits.value[s[off]] {
          off := off + 1;
          continue;
        }
      }
      if f.minLen > 0 && off + f.minLen > |s| { return NotFound; }
      match attempt(off) {
        case Hit(len) => return Found(off, off + len);
        case Aborts => return Cancelled;
        case Miss =>
      }
      if off >= |s| || anchored { return NotFound; }
      var adv := 1;
      if f.prefix.Some? && off + |f.prefix.value| <= |s| {
        adv := Max(skip[s[off + |f.prefix.value| - 1]], 1);
      }
      assert adv == Advance(f, s, off);
      off := off + adv;
    }
    return NotFound;
  }

  // ----- Anchored -----

  /** Nothing the filters look at rules out a match at `off`. */
  predicate CanHold(f: Filters, s: seq<byte>, off: nat) {
    && off <= |s| && Passes(f, s, off) && off + f.minLen <= |s|
    && (f.prefix.Some? ==> f.prefix.value != [] && Occurs(s, off, f.prefix.value))
  }

  /** Whatever sound pattern the filters belong to, the anchored search answers for its anchor. */
  ghost predicate AnswersForAnchor(f: Filters, s: seq<byte>, start: nat) {
    forall attempt: nat -> Attempt :: HidesNothing(f, s, attempt) ==>
      Trial(f, s, attempt, FirstPassing(f, s, start)) == Trial(f, s, attempt, start)
  }

  lemma SilentBeyond(f: Filters, s: seq<byte>, attempt: nat -> Attempt, off: nat)
    requires HidesNothing(f, s, attempt) && !CanHold(f, s, off)
    ensures Trial(f, s, attempt, off) == NotFound
  {
    hide Occurs;
  }

  /** The one pattern that matches at `q` and nowhere else. */
  function LoneHit(q: nat): nat -> Attempt { (off: nat) => if off == q then Hit(0) else Miss }

  lemma LoneHitIsSound(f: Filters, s: seq<byte>, q: nat)
    requires CanHold(f, s, q)
    ensures HidesNothing(f, s, LoneHit(q)) && Trial(f, s, LoneHit(q), q) == Found(q, q)
  {
    hide Occurs;
  }

  /** An anchored search answers for its anchor exactly when the start-byte filter lets the anchor
      through, or no match can begin at the first later offset that it lets through. */
  lemma AnchoredAnswersForAnchor(s: seq<byte>, start: nat, f: Filters)
    requires start <= |s|
    ensures AnswersForAnchor(f, s, start) <==> Passes(f, s, start) || !CanHold(f, s, FirstPassing(f, s, start))
  {
    hide HidesNothing, CanHold, Trial;
    var q := FirstPassing(f, s, start);
    if Passes(f, s, start) {
      assert q == start;
    } else {
      assert !CanHold(f, s, start) by { NotPassing(f, s, start); }
      if CanHold(f, s, q) {
        LoneHitIsSound(f, s, q);
        SilentBeyond(f, s, LoneHit(q), start);
      } else {
        forall attempt: nat -> Attempt | HidesNothing(f, s, attempt)
          ensures Trial(f, s, attempt, q) == Trial(f, s, attempt, start)
        {
          SilentBeyond(f, s, attempt, start);
          SilentBeyond(f, s, attempt, q);
        }
      }
    }
  }

  lemma NotPassing(f: Filters, s: seq<byte>, off: nat)
    requires !Passes(f, s, off)
    ensures !CanHold(f, s, off)
  {
  }
}
