/** The vector scanner for single-class patterns (search_simd.c): a two-state automaton run byte by
    byte, and the same run found 16 bytes at a time through a nibble-split table. */
module SimdScan {
  import opened Wrappers
  import opened Bytes
  import opened Utf8
  import opened Ranges
  import opened Bytecode
  import opened Semantics
  import opened StartBitmap
  import opened FusedExec

  const WINDOW: nat := 16

  // ----- The automaton -----

  datatype NfaState = NfaState(mask: ByteSet, next: nat, accept: bool)

  /** Two states: one that tests bytes, one that accepts. */
  datatype Nfa = Nfa(states: seq<NfaState>, isSpan: bool, isBreak: bool, isAny: bool)

  /** The byte map of a class whose codepoints all fit one byte. */
  function FullMap(rs: seq<Range>): (m: Option<ByteSet>)
    ensures m.Some? ==> forall b: byte :: m.value[b] <==> InSet(rs, b)
    ensures m.Some? <==> forall i :: 0 <= i < |rs| ==> rs[i].lo <= 255 && rs[i].hi <= 255
  {
    if exists i :: 0 <= i < |rs| && (rs[i].lo > 255 || rs[i].hi > 255) then None
    else Some(seq(256, b requires 0 <= b < 256 => InSet(rs, b)))
  }

  function Inverted(m: ByteSet): (r: ByteSet)
    ensures forall b: byte :: r[b] == !m[b]
  {
    seq(256, b requires 0 <= b < 256 => !m[b])
  }

  function TwoStates(mask: ByteSet, next: nat): seq<NfaState> {
    [NfaState(mask, next, false), NfaState(NoBytes(), 0, true)]
  }

  /** The automaton of a class operation; None for an empty class or one beyond single bytes. */
  function BuildMasks(op: ClassOp, rs: seq<Range>): Option<Nfa> {
    if rs == [] || op.BreakX? then None
    else
      match FullMap(rs)
      case None => None
      case Some(m) =>
        match op
        case Span => Some(Nfa(TwoStates(m, 0), true, false, false))
        case Break => Some(Nfa(TwoStates(Inverted(m), 0), false, true, false))
        case Any => Some(Nfa(TwoStates(m, 1), false, false, true))
        case NotAny => Some(Nfa(TwoStates(Inverted(m), 1), false, false, true))
  }

  /** Automata as they are built. */
  predicate Built(nfa: Nfa) {
    && |nfa.states| == 2 && !nfa.states[0].accept && nfa.states[1].accept
    && nfa.states[0].next == (if nfa.isAny then 1 else 0)
    && (nfa.isSpan || nfa.isBreak || nfa.isAny)
    && !(nfa.isSpan && nfa.isBreak) && (nfa.isAny ==> !nfa.isSpan && !nfa.isBreak)
  }

  /** What verifying a candidate must return: the end of the maximal run, or one byte. */
  function Verified(nfa: Nfa, s: seq<byte>, off: nat): Option<nat>
    requires Built(nfa)
  {
    var m := nfa.states[0].mask;
    if nfa.isAny then if off < |s| && m[s[off]] then Some(off + 1) else None
    else
      var end := ByteRun(m, s, off);
      if nfa.isSpan && end == off then None else Some(end)
  }

  /** The states reached from a set on one byte. */
  function StepStates(nfa: Nfa, active: set<nat>, b: byte): set<nat> {
    (set i | i in active && i < |nfa.states| && nfa.states[i].accept)
    + (set i | i in active && i < |nfa.states| && !nfa.states[i].accept && nfa.states[i].mask[b]
               && nfa.states[i].next < |nfa.states| :: nfa.states[i].next)
  }

  function Accepts(nfa: Nfa, active: set<nat>): bool {
    exists i :: i in active && i < |nfa.states| && nfa.states[i].accept
  }

  lemma StepOne(nfa: Nfa, b: byte)
    requires Built(nfa)
    ensures StepStates(nfa, {0}, b) == if nfa.states[0].mask[b] then {nfa.states[0].next} else {}
    ensures !Accepts(nfa, {0}) && Accepts(nfa, {1}) && !Accepts(nfa, {})
  {
    assert 1 in {1} && nfa.states[1].accept;
  }

  /** The byte-by-byte reference: a set of active states, stepped until it accepts or dies. */
  method ExecScalar(nfa: Nfa, s: seq<byte>, start: nat) returns (r: Option<nat>)
    requires Built(nfa)
    ensures r == Verified(nfa, s, start)
  {
    hide StepStates, Accepts;
    var off: nat := start;
    var active: set<nat> := {0};
    var m := nfa.states[0].mask;
    while off < |s|
      invariant start <= off && active == {0}
      invariant nfa.isAny ==> off == start
      invariant ByteRun(m, s, off) == ByteRun(m, s, start)
      decreases |s| - off
    {
      StepOne(nfa, s[off]);
      active := StepStates(nfa, active, s[off]);
      off := off + 1;
      if Accepts(nfa, active) { return Some(off); }
      if active == {} { break; }
    }
    StepOne(nfa, 0);
    if Accepts(nfa, active) { return Some(off); }
    if nfa.isSpan && off > start && (active != {} || off > start + 1) {
      return Some(if active == {} then off - 1 else off);
    }
    if nfa.isBreak {
      return Some(if active == {} && off != start then off - 1 else off);
    }
    return None;
  }

  // ----- The windowed scan -----

  /** Membership of a byte, found by its low nibble in the sub-table its high nibble selects. */
  method NibbleLookup(table: ByteSet, b: byte) returns (inside: bool)
    ensures inside == table[b]
  {
    var lo, hi := b % 16, b / 16;
    inside := false;
    var g := 0;
    while g < 16
      invariant 0 <= g <= 16
      invariant hi < g ==> inside == table[b]
    {
      var sub := table[g * 16..g * 16 + 16];
      var found := sub[lo];
      if hi == g { inside := found; }
      g := g + 1;
    }
  }

  /** Is every byte of the window in the table? */
  method WindowAllIn(table: ByteSet, s: seq<byte>, i: nat) returns (all: bool)
    requires i + WINDOW <= |s|
    ensures all <==> forall j :: i <= j < i + WINDOW ==> table[s[j]]
  {
    all := true;
    var j := 0;
    while j < WINDOW
      invariant 0 <= j <= WINDOW
      invariant all <==> forall k :: i <= k < i + j ==> table[s[k]]
    {
      var inside := NibbleLookup(table, s[i + j]);
      all := all && inside;
      j := j + 1;
    }
  }

  lemma {:induction false} RunSkips(m: ByteSet, s: seq<byte>, i: nat, n: nat)
    requires i + n <= |s| && forall j :: i <= j < i + n ==> m[s[j]]
    ensures ByteRun(m, s, i) == ByteRun(m, s, i + n)
    decreases n
  {
    if n > 0 { RunSkips(m, s, i + 1, n - 1); }
  }

  /** Whole windows first, the scalar run for the tail. */
  method ExecWindowed(nfa: Nfa, s: seq<byte>, start: nat) returns (r: Option<nat>)
    requires Built(nfa)
    ensures r == Verified(nfa, s, start)
  {
    var m := nfa.states[0].mask;
    if nfa.isAny {
      r := ExecScalar(nfa, s, start);
      return;
    }
    var i := start;
    while i + WINDOW <= |s|
      invariant start <= i && ByteRun(m, s, i) == ByteRun(m, s, start)
      decreases |s| - i
    {
      var all := WindowAllIn(m, s, i);
      if !all {
        var j := 0;
        while j < WINDOW
          invariant 0 <= j <= WINDOW && forall k :: i <= k < i + j ==> m[s[k]]
        {
          if !m[s[i + j]] {
            RunSkips(m, s, i, j);
            return if nfa.isSpan && i + j == start then None else Some(i + j);
          }
          j := j + 1;
        }
      }
      RunSkips(m, s, i, WINDOW);
      i := i + WINDOW;
    }
    r := ExecScalar(nfa, s, start);
  }

  // ----- The tier -----

  /** The first offset from which the automaton verifies. */
  function FirstVerified(nfa: Nfa, s: seq<byte>, from: nat): Option<(nat, nat)>
    requires Built(nfa)
    decreases |s| - from
  {
    match Verified(nfa, s, from)
    case Some(end) => Some((from, end))
    case None => if from >= |s| then None else FirstVerified(nfa, s, from + 1)
  }

  /** Skip bytes that cannot start a match, verify at the others. */
  method TierSimd(nfa: Nfa, s: seq<byte>, start: nat, anchored: bool) returns (r: Option<(nat, nat)>)
    requires Built(nfa)
    ensures anchored ==> r == (match Verified(nfa, s, start) case None => None case Some(e) => Some((start, e)))
    ensures !anchored ==> r == FirstVerified(nfa, s, start)
  {
    if anchored || nfa.isBreak {
      var end := ExecWindowed(nfa, s, start);
      if end.None? { return None; }
      return Some((start, end.value));
    }
    var m := nfa.states[0].mask;
    var off := start;
    while off < |s|
      invariant start <= off && FirstVerified(nfa, s, off) == FirstVerified(nfa, s, start)
      decreases |s| - off
    {
      if !m[s[off]] {
        off := off + 1;
        continue;
      }
      var end := ExecWindowed(nfa, s, off);
      if end.Some? { return Some((off, end.value)); }
      off := off + 1;
    }
    return None;
  }

  /** The unanchored tier reports the leftmost match at or after its offset. */
  lemma {:induction false} FirstVerifiedIsLeftmost(nfa: Nfa, s: seq<byte>, from: nat, q: nat)
    requires Built(nfa)
    ensures match FirstVerified(nfa, s, from)
      case Some((at, end)) => from <= at && Verified(nfa, s, at) == Some(end) && (from <= q < at ==> Verified(nfa, s, q) == None)
      case None => from <= q <= |s| ==> Verified(nfa, s, q) == None
    decreases |s| - from
  {
    if Verified(nfa, s, from).None? && from < |s| {
      FirstVerifiedIsLeftmost(nfa, s, from + 1, q);
    }
  }

  // ----- Agreement with the virtual machine -----

  lemma BuiltFor(op: ClassOp, rs: seq<Range>)
    requires BuildMasks(op, rs).Some?
    ensures Built(BuildMasks(op, rs).value)
  {
  }

  lemma {:induction false} MaskRun(rs: seq<Range>, m: ByteSet, s: seq<byte>, pos: nat, inside: bool)
    requires IsAscii(rs) && forall b: byte :: m[b] == (InSet(rs, b) == inside)
    ensures ByteRun(m, s, pos) == RunEnd(Some(rs), s, pos, inside)
    decreases |s| - pos
  {
    hide InSet, IsAscii;
    if pos < |s| && m[s[pos]] { MaskRun(rs, m, s, pos + 1, inside); }
  }

  /** On an ASCII class the automaton verifies exactly what the machine's operation matches. */
  lemma AsciiClassAgrees(op: ClassOp, rs: seq<Range>, s: seq<byte>, pos: nat)
    requires BuildMasks(op, rs).Some? && IsAscii(rs) && pos <= |s|
    ensures Built(BuildMasks(op, rs).value)
    ensures Verified(BuildMasks(op, rs).value, s, pos) == ClassStep(s, op, Some(rs), pos)
  {
    hide InSet, ByteRun, RunEnd;
    var m := FullMap(rs).value;
    MaskRun(rs, m, s, pos, true);
    MaskRun(rs, Inverted(m), s, pos, false);
  }

  ghost predicate AgreesOnAll(op: ClassOp, rs: seq<Range>)
    requires BuildMasks(op, rs).Some?
  {
    BuiltFor(op, rs);
    forall s: seq<byte>, pos: nat :: pos <= |s| ==>
      Verified(BuildMasks(op, rs).value, s, pos) == ClassStep(s, op, Some(rs), pos)
  }

  /** Four bytes that the machine reads as one codepoint, led by 0xF0. */
  function Spelled(c: nat): (s: seq<byte>)
    requires c < 0x1000
  {
    [0xF0, 0x80, 0x80 + c / 0x40, 0x80 + c % 0x40]
  }

  lemma SpelledReads(c: nat)
    requires c < 0x1000
    ensures Peek(Spelled(c), 0) == Some(Peeked(c, 4)) && Peek(Spelled(c), 4) == None
  {
  }

  /** What the machine does on such a codepoint, when the class is not tested byte by byte. */
  lemma SpelledSteps(op: ClassOp, rs: seq<Range>, c: nat)
    requires !IsAscii(rs) && !op.BreakX? && c < 0x1000
    ensures ClassStep(Spelled(c), op, Some(rs), 0)
         == match op
            case Break => if InSet(rs, c) then Some(0) else Some(4)
            case NotAny => if InSet(rs, c) then None else Some(4)
            case _ => if InSet(rs, c) then Some(4) else None
  {
    hide InSet, IsAscii, Spelled;
    SpelledReads(c);
    var s := Spelled(c);
    assert UnitAt(Some(rs), s, 0) == Some(Unit(InSet(rs, c), 4)) && UnitAt(Some(rs), s, 4) == None;
    assert RunEnd(Some(rs), s, 4, true) == RunEnd(Some(rs), s, 4, false) == 4;
  }

  /** What the scanner does on any subject led by 0xF0: only the first byte counts. */
  lemma LedByF0(op: ClassOp, rs: seq<Range>, s: seq<byte>)
    requires BuildMasks(op, rs).Some? && s != [] && s[0] == 0xF0
    ensures Built(BuildMasks(op, rs).value)
    ensures var r, set_ := Verified(BuildMasks(op, rs).value, s, 0), InSet(rs, 0xF0);
      match op
      case Break => r == Some(0) <==> set_
      case NotAny => r.None? <==> set_
      case _ => r.Some? <==> set_
  {
    hide InSet;
    var m := BuildMasks(op, rs).value.states[0].mask;
    assert ByteRun(m, s, 0) == if m[0xF0] then ByteRun(m, s, 1) else 0;
  }

  lemma BeyondAscii(rs: seq<Range>) returns (c: byte)
    requires Proper(rs) && !IsAscii(rs) && FullMap(rs).Some?
    ensures InSet(rs, c)
  {
    var i :| 0 <= i < |rs| && !(rs[i].lo < 0x80 && rs[i].hi < 0x80);
    c := rs[i].hi;
    assert Covers(rs[i], c);
  }

  lemma NoneBeyondBytes(rs: seq<Range>)
    requires FullMap(rs).Some?
    ensures !InSet(rs, 0x100)
  {
  }

  /** The scanner serves every operation but BREAKX, on just the classes that have members and none beyond a byte. */
  lemma ServesByteClasses(op: ClassOp, rs: seq<Range>)
    requires Proper(rs)
    ensures BuildMasks(op, rs).Some? <==>
      !op.BreakX? && (exists c: nat :: InSet(rs, c)) && forall c: nat :: InSet(rs, c) ==> c < 256
  {
    if rs != [] {
      assert Covers(rs[0], rs[0].lo);
      assert InSet(rs, rs[0].lo);
    }
    if forall c: nat :: InSet(rs, c) ==> c < 256 {
      forall i | 0 <= i < |rs| ensures rs[i].lo <= 255 && rs[i].hi <= 255 {
        assert Covers(rs[i], rs[i].hi);
        assert InSet(rs, rs[i].hi);
      }
    }
  }

  /** Over a class of single-byte codepoints the scanner agrees with the machine on every subject exactly when
      the class is ASCII, whichever of the four operations it is. */
  lemma AgreesExactlyOnAscii(op: ClassOp, rs: seq<Range>)
    requires Proper(rs) && BuildMasks(op, rs).Some?
    ensures AgreesOnAll(op, rs) <==> IsAscii(rs)
  {
    hide ClassStep, Verified, Spelled, InSet, FullMap, IsAscii, Proper;
    BuiltFor(op, rs);
    if IsAscii(rs) {
      forall s: seq<byte>, pos: nat | pos <= |s|
        ensures Verified(BuildMasks(op, rs).value, s, pos) == ClassStep(s, op, Some(rs), pos)
      {
        AsciiClassAgrees(op, rs, s, pos);
      }
    } else {
      var c := BeyondAscii(rs);
      NoneBeyondBytes(rs);
      var s := Spelled(if InSet(rs, 0xF0) then 0x100 else c);
      assert |s| == 4 && s[0] == 0xF0 by { SpelledLead(if InSet(rs, 0xF0) then 0x100 else c); }
      SpelledSteps(op, rs, if InSet(rs, 0xF0) then 0x100 else c);
      LedByF0(op, rs, s);
      assert Verified(BuildMasks(op, rs).value, s, 0) != ClassStep(s, op, Some(rs), 0);
    }
  }

  lemma SpelledLead(c: nat)
    requires c < 0x1000
    ensures |Spelled(c)| == 4 && Spelled(c)[0] == 0xF0
  {
  }
}
