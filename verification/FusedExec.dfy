/** The fused executor (search_fusion.c): straight-line programs turned into a list of segments, run
    without dispatch and without backtracking. It agrees with the virtual machine. */
module FusedExec {
  import opened Wrappers
  import opened Bytes
  import opened Utf8
  import opened Ranges
  import opened CharClasses
  import opened Bytecode
  import opened Semantics
  import opened CodeCorrect
  import opened MinLength
  import opened StartBitmap

  const MAX_SEGMENTS: nat := 32

  datatype Segment =
    | LitSeg(text: seq<byte>)
    | RunSeg(map_: ByteSet, min: nat)
    | CharSeg(map_: ByteSet)

  // ----- Collecting the segments -----

  /** The byte map of an ASCII class, or its complement. */
  function ClassMap(rs: seq<Range>, negate: bool): (m: ByteSet)
    ensures forall b: byte :: m[b] == (InMap(rs, b) != negate)
  {
    seq(256, b requires 0 <= b < 256 => InMap(rs, b) != negate)
  }

  function ClassSegment(op: byte, rs: seq<Range>): Segment {
    if op == OP_SPAN then RunSeg(ClassMap(rs, false), 1)
    else if op == OP_BREAK then RunSeg(ClassMap(rs, true), 0)
    else if op == OP_NOTANY then CharSeg(ClassMap(rs, true))
    else CharSeg(ClassMap(rs, false))
  }

  predicate ClassOpByte(op: byte) { op == OP_SPAN || op == OP_ANY || op == OP_NOTANY || op == OP_BREAK }

  /** The segments from `ip` on, with `count` collected before; None where the program is not
      eligible. Alternations are not collected here. */
  function Collect(code: seq<byte>, classes: seq<CharClass>, ip: nat, count: nat): Option<seq<Segment>>
    decreases if ip <= |code| then |code| - ip else 0
  {
    if ip >= |code| then Some([])
    else
      var op := code[ip];
      if op == OP_NOP || op == OP_FENCE then Collect(code, classes, ip + 1, count)
      else if op == OP_ACCEPT || op == OP_SUCCEED then Some([])
      else if count >= MAX_SEGMENTS then None
      else if op == OP_LIT then
        if ip + 9 > |code| then None
        else
          var off, n := U32At(code, ip + 1), U32At(code, ip + 5);
          if off >= |code| || Low32(off + n) > |code| || off + n > |code| then None
          else if n == 0 then Collect(code, classes, ip + 9, count)
          else
            var rest :- Collect(code, classes, ip + 9 + n, count + 1);
            Some([LitSeg(code[off..off + n])] + rest)
      else if ClassOpByte(op) then
        if ip + 3 > |code| then None
        else
          match ClassAt(classes, U16At(code, ip + 1))
          case None => None
          case Some(rs) =>
            if !IsAscii(rs) then None
            else
              var rest :- Collect(code, classes, ip + 3, count + 1);
              Some([ClassSegment(op, rs)] + rest)
      else None
  }

  /** A program is fused when at least two segments come of it. */
  function Eligible(code: seq<byte>, classes: seq<CharClass>): Option<seq<Segment>> {
    if |code| < 2 then None
    else
      var segs :- Collect(code, classes, 0, 0);
      if |segs| < 2 then None else Some(segs)
  }

  function Behind(done: seq<Segment>, rest: Option<seq<Segment>>): Option<seq<Segment>> {
    if rest.Some? then Some(done + rest.value) else None
  }

  lemma BehindOne(done: seq<Segment>, seg: Segment, rest: Option<seq<Segment>>)
    ensures Behind(done, if rest.Some? then Some([seg] + rest.value) else None) == Behind(done + [seg], rest)
  {
    if rest.Some? { assert done + ([seg] + rest.value) == done + [seg] + rest.value; }
  }

  /** The collecting loop. */
  method CheckEligible(code: seq<byte>, classes: seq<CharClass>) returns (segs: Option<seq<Segment>>)
    ensures segs == Eligible(code, classes)
  {
    hide ClassSegment, ClassAt, U32At, U16At;
    if |code| < 2 { return None; }
    var done: seq<Segment> := [];
    var ip := 0;
    ghost var all := Collect(code, classes, 0, 0);
    assert all.Some? ==> [] + all.value == all.value;
    while ip < |code|
      invariant Behind(done, Collect(code, classes, ip, |done|)) == all
      decreases if ip <= |code| then |code| - ip else 0
    {
      var op := code[ip];
      if op == OP_NOP || op == OP_FENCE {
        ip := ip + 1;
        continue;
      }
      if op == OP_ACCEPT || op == OP_SUCCEED { break; }
      if |done| >= MAX_SEGMENTS { return None; }
      if op == OP_LIT {
        if ip + 9 > |code| { return None; }
        var off, n := U32At(code, ip + 1), U32At(code, ip + 5);
        if off >= |code| || Low32(off + n) > |code| || off + n > |code| { return None; }
        if n == 0 {
          ip := ip + 9;
          continue;
        }
        BehindOne(done, LitSeg(code[off..off + n]), Collect(code, classes, ip + 9 + n, |done| + 1));
        done := done + [LitSeg(code[off..off + n])];
        ip := ip + 9 + n;
      } else if ClassOpByte(op) {
        if ip + 3 > |code| { return None; }
        var rs := ClassAt(classes, U16At(code, ip + 1));
        if rs.None? || !IsAscii(rs.value) { return None; }
        BehindOne(done, ClassSegment(op, rs.value), Collect(code, classes, ip + 3, |done| + 1));
        done := done + [ClassSegment(op, rs.value)];
        ip := ip + 3;
      } else {
        return None;
      }
    }
    assert done + [] == done;
    if |done| < 2 { return None; }
    return Some(done);
  }

  // ----- Running them -----

  /** End of the run of bytes in the map. */
  function ByteRun(m: ByteSet, s: seq<byte>, pos: nat): (end: nat)
    ensures pos <= end
    decreases |s| - pos
  {
    if pos < |s| && m[s[pos]] then ByteRun(m, s, pos + 1) else pos
  }

  function SegStep(seg: Segment, s: seq<byte>, cur: nat): Option<nat> {
    match seg
    case LitSeg(text) =>
      if cur + |text| > |s| || s[cur..cur + |text|] != text then None else Some(cur + |text|)
    case RunSeg(m, min) =>
      var end := ByteRun(m, s, cur);
      if end - cur < min then None else Some(end)
    case CharSeg(m) => if cur < |s| && m[s[cur]] then Some(cur + 1) else None
  }

  function Exec(segs: seq<Segment>, s: seq<byte>, cur: nat): Option<nat>
    decreases |segs|
  {
    if segs == [] then Some(cur)
    else
      var next :- SegStep(segs[0], s, cur);
      Exec(segs[1..], s, next)
  }

  method ExecFusion(segs: seq<Segment>, s: seq<byte>, pos: nat) returns (end: Option<nat>)
    ensures end == Exec(segs, s, pos)
  {
    var cur, i := pos, 0;
    assert segs[0..] == segs;
    while i < |segs|
      invariant 0 <= i <= |segs|
      invariant Exec(segs[i..], s, cur) == Exec(segs, s, pos)
    {
      assert segs[i..][1..] == segs[i + 1..];
      match segs[i] {
        case LitSeg(text) =>
          if cur + |text| > |s| { return None; }
          if s[cur..cur + |text|] != text { return None; }
          cur := cur + |text|;
        case RunSeg(m, min) =>
          var start := cur;
          ghost var want := ByteRun(m, s, cur);
          while cur < |s| && m[s[cur]]
            invariant start <= cur && ByteRun(m, s, cur) == want
            decreases |s| - cur
          {
            cur := cur + 1;
          }
          if cur - start < min { return None; }
        case CharSeg(m) =>
          if cur >= |s| { return None; }
          if !m[s[cur]] { return None; }
          cur := cur + 1;
      }
      i := i + 1;
    }
    return Some(cur);
  }

  /** The first offset below the subject's end at which the segments match. */
  function FirstFused(segs: seq<Segment>, s: seq<byte>, from: nat): Option<(nat, nat)>
    decreases |s| - from
  {
    if from >= |s| then None
    else
      match Exec(segs, s, from)
      case Some(end) => Some((from, end))
      case None => FirstFused(segs, s, from + 1)
  }

  method TierFusion(segs: seq<Segment>, s: seq<byte>, start: nat, anchored: bool) returns (r: Option<(nat, nat)>)
    ensures anchored ==> r == (match Exec(segs, s, start) case None => None case Some(end) => Some((start, end)))
    ensures !anchored ==> r == FirstFused(segs, s, start)
    ensures !anchored && r.Some? ==> start <= r.value.0 < |s| && Exec(segs, s, r.value.0) == Some(r.value.1)
    ensures !anchored ==>
      forall q: nat :: start <= q < (if r.Some? then r.value.0 else |s|) ==> Exec(segs, s, q) == None
  {
    if anchored {
      var end := ExecFusion(segs, s, start);
      if end.None? { return None; }
      return Some((start, end.value));
    }
    var off := start;
    while off < |s|
      invariant start <= off && FirstFused(segs, s, off) == FirstFused(segs, s, start)
      invariant forall q: nat :: start <= q < off ==> Exec(segs, s, q) == None
      decreases |s| - off
    {
      var end := ExecFusion(segs, s, off);
      if end.Some? { return Some((off, end.value)); }
      off := off + 1;
    }
    return None;
  }

  // ----- Agreement with the virtual machine -----

  lemma {:induction false} RunsAgree(rs: seq<Range>, s: seq<byte>, pos: nat, negate: bool)
    requires IsAscii(rs)
    ensures ByteRun(ClassMap(rs, negate), s, pos) == RunEnd(Some(rs), s, pos, !negate)
    decreases |s| - pos
  {
    if pos < |s| {
      MapIsSet(rs, s[pos]);
      hide InMap, InSet, IsAscii;
      if ClassMap(rs, negate)[s[pos]] { RunsAgree(rs, s, pos + 1, negate); }
    }
  }

  function ClassOpOf(op: byte): ClassOp
    requires ClassOpByte(op)
  {
    if op == OP_SPAN then Span else if op == OP_ANY then Any else if op == OP_NOTANY then NotAny else Break
  }

  /** A class segment steps as its instruction does. */
  lemma SegmentSteps(op: byte, rs: seq<Range>, s: seq<byte>, pos: nat)
    requires ClassOpByte(op) && IsAscii(rs)
    ensures SegStep(ClassSegment(op, rs), s, pos) == ClassStep(s, ClassOpOf(op), Some(rs), pos)
  {
    RunsAgree(rs, s, pos, false);
    RunsAgree(rs, s, pos, true);
    if pos < |s| { MapIsSet(rs, s[pos]); }
    hide InMap, InSet, RunEnd, ByteRun;
  }

  /** Control stays inside the code, and literals are stored inline. */
  ghost predicate Contained(env: Env, at: set<nat>) {
    forall p :: p in at ==> p < |env.code| && Inline(env, p) && Stays(env, p, at)
  }

  /** A run that ends as the executor says: accepted at its end, or failed without a match. */
  ghost predicate EndsAs(env: Env, ip: nat, st: State, end: Option<nat>) {
    match end
    case Some(e) => Yields(env, ip, st, Decided(Accepted(st.(pos := e))))
    case None => Yields(env, ip, st, Exhausted) || Yields(env, ip, st, Decided(Rejected))
  }

  lemma EndsDo(env: Env, ip: nat, st: State, prim: Prim, next: nat, end: Option<nat>)
    requires ip < |env.code| && Decode(env, ip) == Do(prim, next)
    requires match PrimStep(env.subject, prim, st)
      case None => end == None
      case Some(st') => st' == st.(pos := st'.pos) && EndsAs(env, next, st', end)
    ensures EndsAs(env, ip, st, end)
  {
    hide Decode, PrimStep, Yields;
    match PrimStep(env.subject, prim, st)
    case None => YieldsDo(env, ip, st, prim, next, Exhausted);
    case Some(st') =>
      match end
      case Some(e) => YieldsDo(env, ip, st, prim, next, Decided(Accepted(st.(pos := e))));
      case None =>
        if Yields(env, next, st', Exhausted) {
          YieldsDo(env, ip, st, prim, next, Exhausted);
        } else {
          YieldsDo(env, ip, st, prim, next, Decided(Rejected));
        }
  }

  lemma EndsCut(env: Env, ip: nat, st: State, next: nat, end: Option<nat>)
    requires ip < |env.code| && Decode(env, ip) == Cut(next) && EndsAs(env, next, st, end)
    ensures EndsAs(env, ip, st, end)
  {
    hide Decode, Yields;
    match end
    case Some(e) => YieldsCut(env, ip, st, next, Decided(Accepted(st.(pos := e))));
    case None =>
      if Yields(env, next, st, Exhausted) {
        YieldsCut(env, ip, st, next, Exhausted);
      } else {
        YieldsCut(env, ip, st, next, Decided(Rejected));
      }
  }

  lemma StraightDecodes(env: Env, ip: nat)
    requires ip < |env.code| < U32 && Inline(env, ip)
    ensures env.code[ip] == OP_NOP ==> Decode(env, ip) == Do(Skip, ip + 1)
    ensures env.code[ip] == OP_FENCE ==> Decode(env, ip) == Cut(ip + 1)
    ensures env.code[ip] == OP_ACCEPT || env.code[ip] == OP_SUCCEED ==> Decode(env, ip) == Win
    ensures env.code[ip] == OP_LIT && ip + 9 <= |env.code| ==>
      var n := U32At(env.code, ip + 5);
      ip + 9 + n <= |env.code| ==> Decode(env, ip) == Do(Text(env.code[ip + 9..ip + 9 + n]), ip + 9 + n)
    ensures ClassOpByte(env.code[ip]) && ip + 3 <= |env.code| ==>
      Decode(env, ip)
      == Do(InClass(ClassOpOf(env.code[ip]), ClassAt(env.classes, U16At(env.code, ip + 1))), ip + 3)
  {
    hide U32At, U16At;
  }

  /** The executor and the machine agree from every state on every subject. */
  lemma {:induction false} ExecMeetsMachine(env: Env, at: set<nat>, ip: nat, count: nat, st: State)
    requires Contained(env, at) && ip in at && |env.code| < U32
    requires Collect(env.code, env.classes, ip, count).Some? && Inside(env, st)
    ensures EndsAs(env, ip, st, Exec(Collect(env.code, env.classes, ip, count).value, env.subject, st.pos))
    decreases if ip <= |env.code| then |env.code| - ip else 0
  {
    hide Decode, U32At, U16At, ClassStep, ClassSegment, IsAscii, EndsAs;
    assert ip < |env.code| && Inline(env, ip) && Stays(env, ip, at);
    StraightDecodes(env, ip);
    var op := env.code[ip];
    var segs := Collect(env.code, env.classes, ip, count).value;
    if op == OP_NOP {
      ExecMeetsMachine(env, at, ip + 1, count, st);
      EndsDo(env, ip, st, Skip, ip + 1, Exec(segs, env.subject, st.pos));
    } else if op == OP_FENCE {
      ExecMeetsMachine(env, at, ip + 1, count, st);
      EndsCut(env, ip, st, ip + 1, Exec(segs, env.subject, st.pos));
    } else if op == OP_ACCEPT || op == OP_SUCCEED {
      EndsNow(env, ip, st);
    } else if op == OP_LIT {
      LitMeets(env, at, ip, count, st);
    } else {
      ClassMeets(env, at, ip, count, st);
    }
  }

  lemma EndsNow(env: Env, ip: nat, st: State)
    requires ip < |env.code| && Decode(env, ip) == Win
    ensures EndsAs(env, ip, st, Some(st.pos))
  {
    hide Decode;
    YieldsNow(env, ip, st, Decided(Accepted(st)));
  }

  lemma {:induction false} LitMeets(env: Env, at: set<nat>, ip: nat, count: nat, st: State)
    requires Contained(env, at) && ip in at && ip < |env.code| < U32 && env.code[ip] == OP_LIT
    requires Collect(env.code, env.classes, ip, count).Some? && Inside(env, st)
    ensures EndsAs(env, ip, st, Exec(Collect(env.code, env.classes, ip, count).value, env.subject, st.pos))
    decreases |env.code| - ip, 0
  {
    hide Decode, U32At, U16At, ClassSegment, IsAscii, EndsAs;
    assert Inline(env, ip) && Stays(env, ip, at);
    StraightDecodes(env, ip);
    var n := U32At(env.code, ip + 5);
    var text, next := env.code[ip + 9..ip + 9 + n], ip + 9 + n;
    var segs := Collect(env.code, env.classes, ip, count).value;
    var step := PrimStep(env.subject, Text(text), st);
    if n == 0 { assert env.subject[st.pos..st.pos] == []; }
    if step.Some? {
      ExecMeetsMachine(env, at, next, if n == 0 then count else count + 1, step.value);
    }
    assert n > 0 ==> segs[0] == LitSeg(text);
    EndsDo(env, ip, st, Text(text), next, Exec(segs, env.subject, st.pos));
  }

  lemma {:induction false} ClassMeets(env: Env, at: set<nat>, ip: nat, count: nat, st: State)
    requires Contained(env, at) && ip in at && ip < |env.code| < U32 && ClassOpByte(env.code[ip])
    requires Collect(env.code, env.classes, ip, count).Some? && Inside(env, st)
    ensures EndsAs(env, ip, st, Exec(Collect(env.code, env.classes, ip, count).value, env.subject, st.pos))
    decreases |env.code| - ip, 0
  {
    hide Decode, U32At, U16At, ClassStep, ClassSegment, IsAscii, EndsAs, SegStep;
    assert Inline(env, ip) && Stays(env, ip, at);
    StraightDecodes(env, ip);
    var op := env.code[ip];
    var rs := ClassAt(env.classes, U16At(env.code, ip + 1)).value;
    var segs := Collect(env.code, env.classes, ip, count).value;
    SegmentSteps(op, rs, env.subject, st.pos);
    var step := ClassStep(env.subject, ClassOpOf(op), Some(rs), st.pos);
    if step.Some? {
      ExecMeetsMachine(env, at, ip + 3, count + 1, st.(pos := step.value));
    }
    EndsDo(env, ip, st, InClass(ClassOpOf(op), Some(rs)), ip + 3, Exec(segs, env.subject, st.pos));
  }
}
