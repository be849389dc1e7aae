/** The virtual machine's backtracking store: registers, undo trail and choice records in the arena
    (vm_choice.c, vm_capture.c), each operation proved to be a step of the undo-log machine. */
module ChoiceVm {
  import opened Bytes
  import opened CodeBuffer
  import opened Arena
  import opened UndoLog

  // ----- The record format -----

  /** A choice record: total size, ip, pos, variable count, the two maxima and the trail base at the
      offsets of the C struct, and a closing size word. */
  const RECORD: nat := 52

  const HALF: int := 0x1_0000_0000

  function Enc64(v: Word): (s: seq<byte>)
    ensures |s| == 8
  {
    Enc32(v / HALF) + Enc32(v % HALF)
  }

  function U64At(bytes: seq<byte>, p: nat): Word
    requires p + 8 <= |bytes|
  {
    var hi: int, lo: int := U32At(bytes, p), U32At(bytes, p + 4);
    hi * HALF + lo
  }

  function HeaderBytes(h: Header): (s: seq<byte>)
    ensures |s| == RECORD
  {
    Enc32(RECORD) + Enc32(0)
    + Enc64(h.saved.ip) + Enc64(h.saved.pos) + Enc64(h.saved.varCount)
    + ([h.saved.maxCap, h.saved.maxCounter, 0, 0] + Enc32(h.base))
    + (Enc64(0) + Enc32(RECORD))
  }

  function ParseHeader(bytes: seq<byte>): Header
    requires |bytes| >= RECORD
  {
    Header(Scalars(U64At(bytes, 8), U64At(bytes, 16), U64At(bytes, 24), bytes[32], bytes[33]), U32At(bytes, 36))
  }

  lemma Decode64(bytes: seq<byte>, p: nat, v: Word)
    requires At(bytes, p, Enc64(v))
    ensures U64At(bytes, p) == v
  {
    hide Enc32, U32At;
    AtConcat(bytes, p, Enc32(v / HALF), Enc32(v % HALF));
    Decode32(bytes, p, v / HALF);
    Decode32(bytes, p + 4, v % HALF);
    Halves(v);
  }

  lemma Halves(v: Word)
    ensures var w: int := v;
      Low32(w / HALF) == w / HALF && Low32(w % HALF) == w % HALF && w / HALF * HALF + w % HALF == w
  {
  }

  /** Reading a stored record gives back what was stored, whatever follows it. */
  lemma HeaderReadsBack(h: Header, bytes: seq<byte>)
    requires h.base < U32 && At(bytes, 0, HeaderBytes(h))
    ensures |bytes| >= RECORD && ParseHeader(bytes) == h
  {
    hide Enc32, Enc64, U32At, U64At;
    var a, b := Enc32(RECORD) + Enc32(0), Enc64(h.saved.ip) + Enc64(h.saved.pos) + Enc64(h.saved.varCount);
    var c, d := [h.saved.maxCap, h.saved.maxCounter, 0, 0] + Enc32(h.base), Enc64(0) + Enc32(RECORD);
    HeaderParts(h);
    AtFour(bytes, 0, a, b, c, d);
    AtConcat(bytes, 8, Enc64(h.saved.ip) + Enc64(h.saved.pos), Enc64(h.saved.varCount));
    AtConcat(bytes, 8, Enc64(h.saved.ip), Enc64(h.saved.pos));
    Decode64(bytes, 8, h.saved.ip);
    Decode64(bytes, 16, h.saved.pos);
    Decode64(bytes, 24, h.saved.varCount);
    AtConcat(bytes, 32, [h.saved.maxCap, h.saved.maxCounter, 0, 0], Enc32(h.base));
    AtByte(bytes, 32, [h.saved.maxCap, h.saved.maxCounter, 0, 0], 0);
    AtByte(bytes, 32, [h.saved.maxCap, h.saved.maxCounter, 0, 0], 1);
    Decode32(bytes, 36, h.base);
  }

  lemma HeaderParts(h: Header)
    ensures HeaderBytes(h) ==
      (Enc32(RECORD) + Enc32(0))
      + (Enc64(h.saved.ip) + Enc64(h.saved.pos) + Enc64(h.saved.varCount))
      + ([h.saved.maxCap, h.saved.maxCounter, 0, 0] + Enc32(h.base))
      + (Enc64(0) + Enc32(RECORD))
  {
    hide Enc32, Enc64;
  }

  /** The choice stack that the arena's records spell out. */
  function Headers(records: seq<seq<byte>>): (hs: seq<Header>)
    requires forall k :: 0 <= k < |records| ==> |records[k]| >= RECORD
    ensures |hs| == |records|
  {
    seq(|records|, k requires 0 <= k < |records| => ParseHeader(records[k]))
  }

  predicate AllRecords(records: seq<seq<byte>>) {
    forall k :: 0 <= k < |records| ==> |records[k]| >= RECORD
  }

  // ----- The trail -----

  class UndoTrail {
    var entries: array<Undo>
    var top: nat

    ghost predicate Valid()
      reads this
    {
      top <= entries.Length
    }

    ghost function Log(): (log: seq<Undo>)
      reads this, entries
      requires Valid()
      ensures |log| == top
    {
      entries[..top]
    }

    constructor ()
      ensures Valid() && Log() == [] && fresh(entries)
    {
      entries := new Undo[256];
      top := 0;
    }

    /** Append an entry, doubling the capacity when it is used up. */
    method Push(u: Undo)
      requires Valid()
      modifies this, entries
      ensures Valid() && (entries == old(entries) || fresh(entries)) && Log() == old(Log()) + [u]
    {
      if top >= entries.Length { Grow(); }
      entries[top] := u;
      top := top + 1;
    }

    method Grow()
      requires Valid()
      modifies this`entries
      ensures Valid() && fresh(entries) && top < entries.Length && Log() == old(Log())
    {
      var cap := DoubleBeyond(if entries.Length > 0 then entries.Length * 2 else 256, top);
      var grown := new Undo[cap];
      var i := 0;
      while i < top
        invariant 0 <= i <= top && grown[..i] == entries[..i]
        modifies grown
      {
        grown[i] := entries[i];
        i := i + 1;
      }
      entries := grown;
    }
  }

  method DoubleBeyond(from: nat, n: nat) returns (cap: nat)
    requires from > 0
    ensures cap >= from && cap > n
  {
    cap := from;
    while cap <= n
      invariant cap >= from
      decreases n - cap
    {
      cap := cap * 2;
    }
  }

  // ----- The machine -----

  class Vm {
    var ip: Word
    var pos: Word
    var capStart: seq<Word>
    var capEnd: seq<Word>
    var varStart: seq<Word>
    var varEnd: seq<Word>
    var varCount: Word
    var counters: seq<Word>
    var lastPos: seq<Word>
    var maxCap: byte
    var maxCounter: byte
    var choicesTop: nat
    const trail: UndoTrail
    const arena: ChoiceArena

    function Registers(): Regs
      reads this
    {
      Regs(counters, lastPos, capStart, capEnd, varStart, varEnd)
    }

    function Now(): Scalars
      reads this
    {
      Scalars(ip, pos, varCount, maxCap, maxCounter)
    }

    ghost predicate Valid()
      reads this, trail, arena, arena.pages
    {
      && Registers().Sized() && trail.Valid() && arena.Valid()
      && choicesTop == arena.totalUsed
      && Stored(arena.Records(), trail.top)
    }

    /** The machine state as the undo-log machine sees it. */
    ghost function State(): Fast
      reads this, trail, trail.entries, arena, arena.pages
      requires Valid()
    {
      Fast(Registers(), Now(), trail.Log(), Headers(arena.Records()))
    }

    constructor ()
      ensures Valid() && State() == Fast(NoRegs(), START, [], [])
      ensures fresh(trail) && fresh(trail.entries) && fresh(arena) && fresh(arena.pages)
    {
      hide ChoiceArena.Valid, ParseHeader, Zeros;
      ip, pos, varCount := 0, 0, 0;
      capStart, capEnd := Zeros(MAX_CAPS), Zeros(MAX_CAPS);
      varStart, varEnd := Zeros(MAX_VARS), Zeros(MAX_VARS);
      counters, lastPos := Zeros(MAX_LOOPS), Zeros(MAX_LOOPS);
      maxCap, maxCounter, choicesTop := 0, 0, 0;
      trail := new UndoTrail();
      arena := new ChoiceArena();
    }

    // ----- Logged writes -----

    /** CAP_START: log the register, then move its start to the cursor. */
    method CapStart(r: byte)
      requires Valid()
      modifies this, trail, trail.entries
      ensures Valid() && (trail.entries == old(trail.entries) || fresh(trail.entries))
      ensures r >= MAX_CAPS ==> State() == old(State())
      ensures r < MAX_CAPS ==>
        State() == StepFast(Move(WithCap(old(Now()), r)), StepFast(Op.Store(SetCapStart(r, old(pos))), old(State())))
    {
      hide ChoiceArena.Valid, ParseHeader, Headers;
      if r < MAX_CAPS {
        trail.Push(CapWrite(r, 0, capStart[r], capEnd[r]));
        capStart := capStart[r := pos];
        if r >= maxCap { maxCap := r + 1; }
      }
    }

    method CloseCap(r: byte)
      requires Valid() && r < MAX_CAPS
      modifies this`capEnd, this`maxCap, trail, trail.entries
      ensures Valid() && (trail.entries == old(trail.entries) || fresh(trail.entries))
      ensures State() == StepFast(Move(WithCap(old(Now()), r)), StepFast(Op.Store(SetCapEnd(r, pos)), old(State())))
      ensures capEnd[r] == pos
    {
      hide ChoiceArena.Valid, ParseHeader, Headers;
      trail.Push(CapWrite(r, 1, capStart[r], capEnd[r]));
      capEnd := capEnd[r := pos];
      if r >= maxCap { maxCap := r + 1; }
    }

    method WriteVar(v: byte, start: Word, end: Word)
      requires Valid() && v < MAX_VARS
      modifies this`varStart, this`varEnd, this`varCount, trail, trail.entries
      ensures Valid() && (trail.entries == old(trail.entries) || fresh(trail.entries))
      ensures State() == StepFast(Move(WithVar(old(Now()), v)), StepFast(Op.Store(SetVar(v, start, end)), old(State())))
    {
      hide ChoiceArena.Valid, ParseHeader, Headers;
      trail.Push(VarWrite(v, varStart[v], varEnd[v]));
      varStart := varStart[v := start];
      varEnd := varEnd[v := end];
      if v + 1 > varCount { varCount := v + 1; }
    }

    /** CAP_END: close the register and publish it as the variable of the same number. */
    method CapEnd(r: byte)
      requires Valid()
      modifies this, trail, trail.entries
      ensures Valid() && (trail.entries == old(trail.entries) || fresh(trail.entries))
      ensures r >= MAX_CAPS ==> State() == old(State())
      ensures r < MAX_CAPS ==>
        var closed := StepFast(Move(WithCap(old(Now()), r)), StepFast(Op.Store(SetCapEnd(r, old(pos))), old(State())));
        State() == StepFast(Move(WithVar(closed.now, r)),
                            StepFast(Op.Store(SetVar(r, old(capStart[r]), old(pos))), closed))
    {
      hide ChoiceArena.Valid, ParseHeader, Headers, StepFast;
      if r < MAX_CAPS {
        CloseCap(r);
        WriteVar(r, capStart[r], capEnd[r]);
      }
    }

    /** ASSIGN: copy a capture into a variable. */
    method Assign(v: nat, r: byte)
      requires Valid() && v < U16
      modifies this, trail, trail.entries
      ensures Valid() && (trail.entries == old(trail.entries) || fresh(trail.entries))
      ensures v >= MAX_VARS || r >= MAX_CAPS ==> State() == old(State())
      ensures v < MAX_VARS && r < MAX_CAPS ==>
        State() == StepFast(Move(WithVar(old(Now()), v)),
                            StepFast(Op.Store(SetVar(v, old(capStart[r]), old(capEnd[r]))), old(State())))
    {
      hide ChoiceArena.Valid, ParseHeader, Headers, StepFast;
      if v < MAX_VARS && r < MAX_CAPS {
        WriteVar(v, capStart[r], capEnd[r]);
      }
    }

    // ----- Choice points -----

    /** Reserve a record in the arena and fill it in. */
    method StoreRecord(h: Header)
      requires arena.Valid() && AllRecords(arena.Records()) && h.base < U32
      modifies arena, arena.pages
      ensures arena.Valid() && arena.PagesKept(old(arena.pages))
      ensures AllRecords(arena.Records()) && Headers(arena.Records()) == Headers(old(arena.Records())) + [h]
      ensures |arena.Records()| == |old(arena.Records())| + 1
      ensures arena.Records()[..|old(arena.Records())|] == old(arena.Records())
      ensures ParseHeader(arena.Records()[|old(arena.Records())|]) == h
    {
      hide ChoiceArena.Valid, ParseHeader, HeaderBytes, ChoiceArena.AreaAt, Align8, Headers;
      ghost var records := arena.Records();
      Align52();
      var off;
      ghost var area;
      off, area := arena.Alloc(RECORD);
      ghost var page := arena.Current();
      assert page in arena.pages;
      arena.Store(off, HeaderBytes(h), area);
      AppendedRecord(records, h, area, arena.Records());
    }

    method PushChoice(to: Word, at: Word)
      requires Valid()
      modifies this`choicesTop, arena, arena.pages
      ensures Valid() && arena.PagesKept(old(arena.pages))
      ensures State() == StepFast(Push(to, at), old(State()))
    {
      hide ChoiceArena.Valid, ParseHeader, ChoiceArena.Records, Headers;
      var h := Header(Scalars(to, at, varCount, maxCap, maxCounter), Low32(trail.top));
      ghost var records := arena.Records();
      StoreRecord(h);
      choicesTop := arena.totalUsed;
      StoredMore(records, arena.Records(), trail.top, h);
    }

    /** REPEAT_INIT: start a loop without a log entry; a loop that may run zero times can be skipped. */
    method RepeatInit(i: byte, min: nat, skip: Word)
      requires Valid() && i < MAX_LOOPS
      modifies this`counters, this`lastPos, this`maxCounter, this`choicesTop, arena, arena.pages
      ensures Valid() && arena.PagesKept(old(arena.pages))
      ensures var entered := StepFast(Move(WithCounter(old(Now()), i)), LoopInit(old(State()), i));
        State() == if min == 0 then StepFast(Push(skip, pos), entered) else entered
    {
      hide ChoiceArena.Valid, ParseHeader, Headers, Stored;
      counters := counters[i := 0];
      lastPos := lastPos[i := pos];
      if i + 1 > maxCounter { maxCounter := i + 1; }
      if min == 0 { PushChoice(skip, pos); }
    }

    /** The continuing branch of REPEAT_STEP: count the round with a log entry, push the exit choice,
        then bring the loop's position up to date without one. */
    method RepeatRound(i: byte, exit: Word)
      requires Valid() && i < MAX_LOOPS
      modifies this`counters, this`lastPos, this`choicesTop, trail, trail.entries, arena, arena.pages
      ensures Valid() && arena.PagesKept(old(arena.pages))
      ensures State() == LoopStep(old(State()), i, exit)
    {
      hide ChoiceArena.Valid, ParseHeader, Headers;
      var count := counters[i];
      counters := counters[i := Stepped(count)];
      trail.Push(CounterDec(i, count, lastPos[i]));
      assert lastPos[i := lastPos[i]] == lastPos;
      PushChoice(exit, pos);
      lastPos := lastPos[i := pos];
      assert counters[i := counters[i]] == counters;
    }

    /** Undo everything logged from `base` on, newest entry first. */
    method TrailReplay(base: nat)
      requires trail.Valid() && base <= trail.top && Registers().Sized()
      modifies this`counters, this`lastPos, this`capStart, this`capEnd, this`varStart, this`varEnd, trail`top
      ensures trail.Valid() && trail.Log() == old(trail.Log())[..base]
      ensures Registers().Sized() && Registers() == Replay(old(Registers()), old(trail.Log())[base..])
    {
      ghost var log := trail.Log();
      ghost var want := Replay(Registers(), log[base..]);
      var i := trail.top;
      assert log[base..i] == log[base..];
      while i > base
        invariant base <= i <= trail.top && trail.Valid() && trail.Log() == log && Registers().Sized()
        invariant Replay(Registers(), log[base..i]) == want
      {
        i := i - 1;
        assert log[base..i + 1] == log[base..i] + [log[i]];
        ReplayLast(Registers(), log[base..i], log[i]);
        Undo1(trail.entries[i]);
      }
      assert log[base..i] == [];
      trail.top := base;
    }

    method Undo1(u: Undo)
      requires Registers().Sized()
      modifies this`counters, this`lastPos, this`capStart, this`capEnd, this`varStart, this`varEnd
      ensures Registers().Sized() && Registers() == Undone(u, old(Registers()))
    {
      match u {
        case CounterDec(i, count, last) =>
          if i < MAX_LOOPS {
            counters := counters[i := count];
            lastPos := lastPos[i := last];
          }
        case CapWrite(i, sub, start, end) =>
          if i < MAX_CAPS {
            if sub == 0 {
              capStart := capStart[i := start];
            } else if sub == 1 {
              capEnd := capEnd[i := end];
            } else {
              capStart := capStart[i := start];
              capEnd := capEnd[i := end];
            }
          }
        case VarWrite(i, start, end) =>
          if i < MAX_VARS {
            varStart := varStart[i := start];
            varEnd := varEnd[i := end];
          }
      }
    }

    /** Take scalars and registers back from the newest record. */
    method RestoreTop()
      requires Valid() && arena.Records() != []
      modifies this, trail`top
      ensures arena.Valid() && arena.Records() == old(arena.Records()) && trail.Valid() && Registers().Sized()
      ensures var h := ParseHeader(arena.Records()[|arena.Records()| - 1]);
        && h.base <= |old(trail.Log())| && Now() == h.saved && trail.Log() == old(trail.Log())[..h.base]
        && Registers() == Replay(old(Registers()), old(trail.Log())[h.base..])
    {
      hide ChoiceArena.Valid, ParseHeader, ChoiceArena.Records, Replay, Stored, Headers;
      StoredTop(arena.Records(), trail.top);
      var h := ReadTop();
      ip, pos, varCount := h.saved.ip, h.saved.pos, h.saved.varCount;
      maxCap, maxCounter := h.saved.maxCap, h.saved.maxCounter;
      TrailReplay(h.base);
    }

    /** Resume the newest choice point: scalars from its record, registers by undoing the trail. */
    method PopChoice() returns (ok: bool)
      requires Valid()
      requires Ordered(State())
      modifies this, trail`top, arena
      ensures Valid() && arena.PagesKept(old(arena.pages))
      ensures ok == (old(State()).choices != [])
      ensures State() == StepFast(Pop, old(State()))
    {
      hide ChoiceArena.Valid, ParseHeader, ChoiceArena.Records, Replay, StepFast, Headers, Stored;
      arena.CurrentInUse();
      ghost var records, before := arena.Records(), State();
      PopStep(before);
      if arena.totalUsed == 0 { return false; }
      StoredTop(records, trail.top);
      RestoreTop();
      arena.PopLast();
      choicesTop := arena.totalUsed;
      PoppedRecord(records, arena.Records());
      PoppedBases(records, arena.Records());
      return true;
    }

    method ReadTop() returns (h: Header)
      requires arena.Valid() && arena.Records() != [] && AllRecords(arena.Records())
      ensures h == ParseHeader(arena.Records()[|arena.Records()| - 1])
    {
      hide ChoiceArena.Valid, ParseHeader, ChoiceArena.AreaAt;
      var off;
      ghost var area;
      off, area := arena.Top();
      h := ReadHeader(off, area);
    }

    method ReadHeader(off: nat, ghost area: seq<byte>) returns (h: Header)
      requires arena.Shape() && arena.AreaAt(off, area) && |area| >= RECORD
      ensures h == ParseHeader(area)
    {
      hide U64At;
      var page := arena.pages[|arena.pages| - 1];
      var bytes := page[off..off + RECORD];
      assert At(page[..], off, area);
      assert bytes == area[..RECORD];
      h := ParseHeader(bytes);
      ParsePrefix(area);
    }

    /** FENCE: drop every choice point; the trail stays. */
    method Fence()
      requires Valid()
      modifies this`choicesTop, arena
      ensures Valid() && arena.PagesKept(old(arena.pages))
      ensures State() == StepFast(Cut, old(State()))
    {
      hide ChoiceArena.Valid, ParseHeader;
      arena.Reset();
      choicesTop := 0;
    }

    method ClearRegisters()
      modifies this
      ensures choicesTop == old(choicesTop) && Registers() == NoRegs() && Now() == START
    {
      hide Zeros;
      capStart, capEnd := Zeros(MAX_CAPS), Zeros(MAX_CAPS);
      varStart, varEnd := Zeros(MAX_VARS), Zeros(MAX_VARS);
      counters, lastPos := Zeros(MAX_LOOPS), Zeros(MAX_LOOPS);
      varCount, maxCap, maxCounter, ip, pos := 0, 0, 0, 0, 0;
    }

    /** Ready for another attempt: registers, scalars and choices cleared, the trail left alone. */
    method ResetVm()
      requires Valid()
      modifies this, arena
      ensures Valid() && arena.PagesKept(old(arena.pages))
      ensures State() == StepFast(Reset, old(State()))
    {
      hide ChoiceArena.Valid, ParseHeader, NoRegs;
      ClearRegisters();
      arena.Reset();
      choicesTop := 0;
    }
  }

  lemma Align52()
    ensures Align8(RECORD) == 56
  {
  }

  /** Appending a stored header appends its choice. */
  lemma AppendedRecord(records: seq<seq<byte>>, h: Header, area: seq<byte>, after: seq<seq<byte>>)
    requires AllRecords(records) && |area| >= RECORD && h.base < U32
    requires after == records + [HeaderBytes(h) + area[RECORD..]]
    ensures AllRecords(after) && Headers(after) == Headers(records) + [h]
    ensures ParseHeader(after[|records|]) == h
  {
    hide ParseHeader, HeaderBytes;
    var bytes := HeaderBytes(h) + area[RECORD..];
    assert bytes[0..RECORD] == HeaderBytes(h);
    HeaderReadsBack(h, bytes);
  }

  lemma StoredMore(records: seq<seq<byte>>, after: seq<seq<byte>>, top: nat, h: Header)
    requires Stored(records, top) && AllRecords(after) && |after| == |records| + 1 && h.base <= top
    requires after[..|records|] == records && ParseHeader(after[|records|]) == h
    ensures Stored(after, top)
  {
    hide ParseHeader;
    forall k | 0 <= k < |after| ensures ParseHeader(after[k]).base <= top {
      if k < |records| { assert after[..|records|][k] == records[k]; }
    }
  }

  /** The newest record is readable and refers into the trail. */
  lemma StoredTop(records: seq<seq<byte>>, top: nat)
    requires Stored(records, top) && records != []
    ensures AllRecords(records) && |Headers(records)| == |records|
    ensures Headers(records)[|records| - 1] == ParseHeader(records[|records| - 1])
    ensures ParseHeader(records[|records| - 1]).base <= top
  {
    hide ParseHeader;
  }

  /** What a pop does to the undo-log machine. */
  lemma PopStep(m: Fast)
    ensures m.choices == [] ==> StepFast(Pop, m) == m
    ensures m.choices != [] && m.choices[|m.choices| - 1].base <= |m.log| ==>
      var top := m.choices[|m.choices| - 1];
      StepFast(Pop, m)
      == Fast(Replay(m.regs, m.log[top.base..]), top.saved, m.log[..top.base], m.choices[..|m.choices| - 1])
  {
    hide Replay;
  }

  lemma PoppedRecord(records: seq<seq<byte>>, after: seq<seq<byte>>)
    requires AllRecords(records) && records != [] && after == records[..|records| - 1]
    ensures AllRecords(after) && Headers(after) == Headers(records)[..|records| - 1]
  {
    hide ParseHeader;
  }

  /** With ordered bases, the records below the top still refer into the shortened trail. */
  lemma PoppedBases(records: seq<seq<byte>>, after: seq<seq<byte>>)
    requires AllRecords(records) && records != [] && after == records[..|records| - 1]
    requires var hs := Headers(records);
      forall j, k :: 0 <= j < k < |hs| ==> hs[j].base <= hs[k].base
    ensures Stored(after, ParseHeader(records[|records| - 1]).base)
  {
    hide ParseHeader;
    var hs := Headers(records);
    forall j | 0 <= j < |after| ensures ParseHeader(after[j]).base <= ParseHeader(records[|records| - 1]).base {
      assert hs[j].base <= hs[|hs| - 1].base;
    }
  }

  lemma ParsePrefix(area: seq<byte>)
    requires |area| >= RECORD
    ensures ParseHeader(area[..RECORD]) == ParseHeader(area)
  {
    hide U32At;
    WordPrefix(area, 8);
    WordPrefix(area, 12);
    WordPrefix(area, 16);
    WordPrefix(area, 20);
    WordPrefix(area, 24);
    WordPrefix(area, 28);
    WordPrefix(area, 36);
  }

  lemma WordPrefix(bytes: seq<byte>, at: nat)
    requires at + 4 <= RECORD <= |bytes|
    ensures U32At(bytes[..RECORD], at) == U32At(bytes, at)
  {
  }

  function WithCounter(now: Scalars, i: byte): Scalars
    requires i < MAX_LOOPS
  {
    if i + 1 > now.maxCounter then now.(maxCounter := i + 1) else now
  }

  function WithVar(now: Scalars, v: nat): Scalars
    requires v < MAX_VARS
  {
    if v + 1 > now.varCount then now.(varCount := v + 1) else now
  }

  /** The choice records are all readable, and none refers past the end of the trail. */
  predicate Stored(records: seq<seq<byte>>, top: nat) {
    AllRecords(records) && forall k :: 0 <= k < |records| ==> ParseHeader(records[k]).base <= top
  }

  function WithCap(now: Scalars, r: byte): Scalars
    requires r < MAX_CAPS
  {
    if r >= now.maxCap then now.(maxCap := r + 1) else now
  }
}
