/** The static start-byte set (compute_start_bitmap): a match that consumes anything begins with a
    byte of the set. The bit-packed map of the source is an array of 256 flags here. */
module StartBitmap {
  import opened Wrappers
  import opened Bytes
  import opened Utf8
  import opened Ranges
  import opened CharClasses
  import opened Bytecode
  import opened Semantics
  import opened MinLength

  const MAX_PENDING: nat := 2048

  /** Bytes the ASCII map of a class holds: its members below 128, up to the first range that
      leaves ASCII, where filling the map stops. */
  predicate InMap(rs: seq<Range>, b: byte) {
    rs != [] && rs[0].lo < 0x80 && rs[0].hi < 0x80 && (Covers(rs[0], b) || InMap(rs[1..], b))
  }

  /** Bytes an instruction contributes to the set, and where the walk goes from there. */
  datatype Move =
    | All
    | Begins(inside: byte -> bool)
    | Along(next: nat)
    | Both(a: nat, b: nat)
    | Nothing

  function ClassMove(classes: seq<CharClass>, code: seq<byte>, ip: nat, negate: bool): Move
    requires ip < |code|
  {
    if ip + 3 > |code| then All
    else
      match ClassAt(classes, U16At(code, ip + 1))
      case None => All
      case Some(rs) => Begins((b: byte) => InMap(rs, b) != negate)
  }

  function LitMove(code: seq<byte>, ip: nat): Move
    requires ip < |code|
  {
    if ip + 9 > |code| then All
    else
      var off, n := U32At(code, ip + 1), U32At(code, ip + 5);
      if off >= |code| || Low32(off + n) > |code| then All
      else if n == 0 then All
      else
        var first := code[off];
        Begins((b: byte) => b == first)
  }

  function MoveAt(classes: seq<CharClass>, code: seq<byte>, ip: nat): (m: Move)
    requires ip < |code|
    ensures m.Both? ==> m.a < |code| && m.b < |code|
  {
    var op := code[ip];
    if op == OP_LIT then LitMove(code, ip)
    else if op == OP_ANY || op == OP_SPAN then ClassMove(classes, code, ip, false)
    else if op == OP_NOTANY then ClassMove(classes, code, ip, true)
    else if op == OP_SPLIT then
      if ip + 9 > |code| then All
      else
        var a, b := U32At(code, ip + 1), U32At(code, ip + 5);
        if a >= |code| || b >= |code| then All else Both(a, b)
    else if op == OP_CAP_START || op == OP_CAP_END || op == OP_ANCHOR then Along(ip + 2)
    else if op == OP_FENCE || op == OP_NOP then Along(ip + 1)
    else if op == OP_ASSIGN then if ip + 4 > |code| then All else Along(ip + 4)
    else if op == OP_POS || op == OP_RPOS || op == OP_TAB || op == OP_RTAB then
      if ip + 5 > |code| then All else Along(ip + 5)
    else if op == OP_JMP then
      if ip + 5 > |code| then All
      else
        var target := U32At(code, ip + 1);
        if target >= |code| then All else Along(target)
    else if op == OP_ACCEPT || op == OP_FAIL || op == OP_ABORT || op == OP_SUCCEED then Nothing
    else All
  }

  type ByteSet = f: seq<bool> | |f| == 256 witness seq(256, _ => false)

  function NoBytes(): ByteSet { seq(256, _ => false) }

  function Mark(bm: ByteSet, inside: byte -> bool): (r: ByteSet)
    ensures forall b: byte :: r[b] == (bm[b] || inside(b))
  {
    seq(256, b requires 0 <= b < 256 => bm[b] || inside(b))
  }

  function Full(): (r: ByteSet)
    ensures forall b: byte :: r[b]
  {
    seq(256, _ => true)
  }

  // ----- The walk -----

  /** The walk from `ip` with `pending` branches stacked: the byte set it ends with. Running off
      the end of the code ends the walk, whatever is still stacked. */
  function WalkBits(classes: seq<CharClass>, code: seq<byte>, ip: nat, pending: seq<nat>, bm: ByteSet, steps: nat): ByteSet
    requires steps <= StepCap(code) && forall k :: 0 <= k < |pending| ==> pending[k] < |code|
    decreases StepCap(code) - steps, 0
  {
    if ip >= |code| then bm
    else if steps + 1 > StepCap(code) then Full()
    else
      match MoveAt(classes, code, ip)
      case Along(next) => WalkBits(classes, code, next, pending, bm, steps + 1)
      case Both(a, b) =>
        if |pending| < MAX_PENDING then WalkBits(classes, code, b, pending + [a], bm, steps + 1)
        else Resume(classes, code, pending, Full(), steps + 1)
      case All => Resume(classes, code, pending, Full(), steps + 1)
      case Begins(inside) => Resume(classes, code, pending, Mark(bm, inside), steps + 1)
      case Nothing => Resume(classes, code, pending, bm, steps + 1)
  }

  /** Take the newest pending branch, or finish. */
  function Resume(classes: seq<CharClass>, code: seq<byte>, pending: seq<nat>, bm: ByteSet, steps: nat): ByteSet
    requires steps <= StepCap(code) && forall k :: 0 <= k < |pending| ==> pending[k] < |code|
    decreases StepCap(code) - steps, 1
  {
    if pending == [] then bm
    else WalkBits(classes, code, pending[|pending| - 1], pending[..|pending| - 1], bm, steps)
  }

  method MarkAll(bm: array<bool>, inside: byte -> bool)
    requires bm.Length == 256
    modifies bm
    ensures bm[..] == Mark(old(bm[..]), inside)
  {
    var b := 0;
    while b < 256
      invariant 0 <= b <= 256
      invariant forall k: byte :: k < b ==> bm[k] == (old(bm[k]) || inside(k))
      invariant forall k: byte :: k >= b ==> bm[k] == old(bm[k])
    {
      if inside(b) { bm[b] := true; }
      b := b + 1;
    }
  }

  method SetAll(bm: array<bool>)
    requires bm.Length == 256
    modifies bm
    ensures bm[..] == Full()
  {
    var b := 0;
    while b < 256
      invariant 0 <= b <= 256 && forall k :: 0 <= k < b ==> bm[k]
    {
      bm[b] := true;
      b := b + 1;
    }
  }

  /** The walk goes on from the top of the stack. */
  lemma Resumes(classes: seq<CharClass>, code: seq<byte>, pending: seq<nat>, bm: ByteSet, steps: nat)
    requires steps <= StepCap(code) && forall k :: 0 <= k < |pending| ==> pending[k] < |code|
    ensures Resume(classes, code, pending, bm, steps)
      == if pending == [] then bm else WalkBits(classes, code, pending[|pending| - 1], pending[..|pending| - 1], bm, steps)
  {
    hide WalkBits, StepCap;
  }

  lemma WalkEnds(classes: seq<CharClass>, code: seq<byte>, ip: nat, pending: seq<nat>, bm: ByteSet, steps: nat)
    requires ip >= |code| && steps <= StepCap(code) && forall k :: 0 <= k < |pending| ==> pending[k] < |code|
    ensures WalkBits(classes, code, ip, pending, bm, steps) == bm
  {
    hide MoveAt, StepCap, Resume;
  }

  /** One operation of the walk. */
  lemma WalksOn(classes: seq<CharClass>, code: seq<byte>, ip: nat, pending: seq<nat>, bm: ByteSet, steps: nat)
    requires ip < |code| && steps <= StepCap(code) && forall k :: 0 <= k < |pending| ==> pending[k] < |code|
    ensures steps + 1 > StepCap(code) ==> WalkBits(classes, code, ip, pending, bm, steps) == Full()
    ensures steps + 1 <= StepCap(code) ==>
      WalkBits(classes, code, ip, pending, bm, steps)
      == match MoveAt(classes, code, ip)
         case Along(next) => WalkBits(classes, code, next, pending, bm, steps + 1)
         case Both(a, b) =>
           if |pending| < MAX_PENDING then WalkBits(classes, code, b, pending + [a], bm, steps + 1)
           else Resume(classes, code, pending, Full(), steps + 1)
         case All => Resume(classes, code, pending, Full(), steps + 1)
         case Begins(inside) => Resume(classes, code, pending, Mark(bm, inside), steps + 1)
         case Nothing => Resume(classes, code, pending, bm, steps + 1)
  {
    hide StepCap, Resume, Mark, Full;
  }

  /** The walk with its explicit stack of pending branches. */
  method ComputeStartBitmap(classes: seq<CharClass>, code: seq<byte>, start: nat, bm: array<bool>)
    requires bm.Length == 256
    modifies bm
    ensures bm[..] == WalkBits(classes, code, start, [], old(bm[..]), 0)
  {
    hide MoveAt, Mark, Full, WalkBits, Resume, StepCap;
    var stack := new nat[MAX_PENDING];
    var sp, steps, ip := 0, 0, start;
    ghost var want := WalkBits(classes, code, start, [], bm[..], 0);
    assert stack[..0] == [];
    while ip < |code|
      invariant 0 <= sp <= MAX_PENDING && 0 <= steps <= StepCap(code) && ip >= 0
      invariant forall k :: 0 <= k < sp ==> stack[k] < |code|
      invariant WalkBits(classes, code, ip, stack[..sp], bm[..], steps) == want
      decreases StepCap(code) - steps
    {
      ghost var pending := stack[..sp];
      WalksOn(classes, code, ip, pending, bm[..], steps);
      if steps + 1 > StepCap(code) {
        SetAll(bm);
        return;
      }
      steps := steps + 1;
      var done := true;
      match MoveAt(classes, code, ip) {
        case Along(next) =>
          ip := next;
          done := false;
        case Both(a, b) =>
          if sp < MAX_PENDING {
            stack[sp] := a;
            sp := sp + 1;
            assert stack[..sp] == pending + [a];
            ip := b;
            done := false;
          } else {
            SetAll(bm);
          }
        case All =>
          SetAll(bm);
        case Begins(inside) => MarkAll(bm, inside);
        case Nothing =>
      }
      if done {
        Resumes(classes, code, pending, bm[..], steps);
        if sp == 0 { return; }
        sp := sp - 1;
        ip := stack[sp];
        assert pending[..|pending| - 1] == stack[..sp];
      }
    }
    WalkEnds(classes, code, ip, stack[..sp], bm[..], steps);
  }

  // ----- Soundness -----

  /** What the set promises about one operation: it consumes nothing, or it matches only where the
      next byte of the subject is one of `inside`. */
  ghost predicate StartsWith(s: seq<byte>, prim: Prim, inside: byte -> bool) {
    forall st: State :: st.pos <= |s| && PrimStep(s, prim, st).Some? ==> st.pos < |s| && inside(s[st.pos])
  }

  ghost predicate ZeroWidth(s: seq<byte>, prim: Prim) {
    forall st: State :: PrimStep(s, prim, st).Some? ==> PrimStep(s, prim, st).value.pos == st.pos
  }

  lemma {:induction false} MapIsSet(rs: seq<Range>, b: byte)
    ensures InMap(rs, b) ==> InSet(rs, b) && b < 0x80
    ensures IsAscii(rs) ==> (InMap(rs, b) <==> InSet(rs, b))
    decreases |rs|
  {
    if rs != [] {
      assert rs == [rs[0]] + rs[1..];
      InSetCons(rs[0], rs[1..], b);
      MapIsSet(rs[1..], b);
      assert IsAscii(rs) ==> IsAscii(rs[1..]);
    }
  }

  /** An operation on an ASCII class starts with a byte of its map. */
  lemma ClassBegins(s: seq<byte>, op: ClassOp, rs: seq<Range>, pos: nat)
    requires pos <= |s| && (op.Any? || op.Span?) && IsAscii(rs)
    requires ClassStep(s, op, Some(rs), pos).Some?
    ensures pos < |s| && InMap(rs, s[pos])
  {
    if pos < |s| { MapIsSet(rs, s[pos]); }
  }

  /** NOTANY starts with a byte outside the map, whatever the class. */
  lemma NotAnyBegins(s: seq<byte>, rs: seq<Range>, pos: nat)
    requires pos <= |s| && ClassStep(s, NotAny, Some(rs), pos).Some?
    ensures pos < |s| && !InMap(rs, s[pos])
  {
    if pos < |s| { MapIsSet(rs, s[pos]); }
  }

  /** Code the analysis can follow: control stays among the offsets `at`, literals are inline,
      ANY and SPAN use ASCII classes, and nothing tabulates. */
  ghost predicate Tracked(env: Env, at: set<nat>) {
    forall p :: p in at ==> p < |env.code| && Inline(env, p) && Stays(env, p, at) && Plainly(env, p)
  }

  ghost predicate Stays(env: Env, p: nat, at: set<nat>)
    requires p < |env.code|
  {
    match Decode(env, p)
    case Do(_, next) => next in at
    case Fork(a, b) => a in at && b in at
    case Go(t) => t in at
    case Retry(_, next) => next in at
    case Cut(next) => next in at
    case _ => true
  }

  /** The same for code that control may run off the end of. */
  ghost predicate Loose(env: Env, at: set<nat>) {
    forall p :: p in at && p < |env.code| ==> Inline(env, p) && Follows(env, p, at) && Plainly(env, p)
  }

  predicate Plainly(env: Env, p: nat)
    requires p < |env.code|
  {
    match Decode(env, p)
    case Do(Counted(op, _), _) => !op.Tab? && !op.RTab?
    case Do(InClass(op, Some(rs)), _) => (op.Any? || op.Span?) ==> IsAscii(rs)
    case _ => true
  }

  /** Two ways to say where control goes on: the same place, or no place of the code. */
  predicate SamePlace(code: seq<byte>, a: nat, b: nat) { a == b || (a >= |code| && b >= |code|) }

  /** The move the walk makes agrees with what execution does. */
  ghost predicate MoveFits(env: Env, ip: nat)
    requires ip < |env.code|
  {
    match MoveAt(env.classes, env.code, ip)
    case All => true
    case Begins(inside) =>
      Decode(env, ip).Unmodelled? || (Decode(env, ip).Do? && StartsWith(env.subject, Decode(env, ip).prim, inside))
    case Along(next) =>
      (match Decode(env, ip)
       case Do(prim, n) => SamePlace(env.code, n, next) && ZeroWidth(env.subject, prim)
       case Go(t) => t == next
       case Cut(n) => n == next
       case _ => false)
    case Both(a, b) => Decode(env, ip) == Fork(a, b)
    case Nothing => Decode(env, ip).Win? || Decode(env, ip).Lose? || Decode(env, ip).Stop?
  }

  lemma MovesFit(env: Env, at: set<nat>, ip: nat)
    requires Loose(env, at) && ip in at && ip < |env.code| < U32
    ensures MoveFits(env, ip)
  {
    hide U32At, U16At, PrimStep, InMap;
    var op := env.code[ip];
    assert Inline(env, ip) && Plainly(env, ip);
    if op == OP_LIT {
      LitFits(env, ip);
    } else if op == OP_ANY || op == OP_SPAN || op == OP_NOTANY {
      ClassFits(env, ip);
    } else {
      OtherFits(env, ip);
    }
  }

  lemma LitFits(env: Env, ip: nat)
    requires ip < |env.code| < U32 && env.code[ip] == OP_LIT && Inline(env, ip)
    ensures MoveFits(env, ip)
  {
    hide U32At, U16At;
    match Decode(env, ip)
    case Do(prim, _) =>
      var m := MoveAt(env.classes, env.code, ip);
      if m.Begins? {
        assert prim.text[0] == env.code[ip + 9];
        forall st: State | st.pos <= |env.subject| && PrimStep(env.subject, prim, st).Some?
          ensures st.pos < |env.subject| && m.inside(env.subject[st.pos])
        {
          assert env.subject[st.pos..st.pos + |prim.text|][0] == env.subject[st.pos];
        }
      }
    case _ =>
  }

  lemma ClassFits(env: Env, ip: nat)
    requires ip < |env.code| && Plainly(env, ip)
    requires env.code[ip] == OP_ANY || env.code[ip] == OP_SPAN || env.code[ip] == OP_NOTANY
    ensures MoveFits(env, ip)
  {
    hide U32At, U16At, ClassStep, InMap;
    var m := MoveAt(env.classes, env.code, ip);
    if m.Begins? {
      var prim := Decode(env, ip).prim;
      forall st: State | st.pos <= |env.subject| && PrimStep(env.subject, prim, st).Some?
        ensures st.pos < |env.subject| && m.inside(env.subject[st.pos])
      {
        if prim.op.NotAny? {
          NotAnyBegins(env.subject, prim.cls.value, st.pos);
        } else {
          ClassBegins(env.subject, prim.op, prim.cls.value, st.pos);
        }
      }
    }
  }

  lemma OtherFits(env: Env, ip: nat)
    requires ip < |env.code| && Plainly(env, ip)
    requires var op := env.code[ip]; op != OP_LIT && op != OP_ANY && op != OP_SPAN && op != OP_NOTANY
    ensures MoveFits(env, ip)
  {
    hide U32At, U16At;
    if env.code[ip] == OP_CAP_START || env.code[ip] == OP_CAP_END || env.code[ip] == OP_ANCHOR {
      RegisterWidth(env, ip);
    }
  }

  lemma RegisterWidth(env: Env, ip: nat)
    requires ip < |env.code|
    requires env.code[ip] == OP_CAP_START || env.code[ip] == OP_CAP_END || env.code[ip] == OP_ANCHOR
    ensures Decode(env, ip).Do? && ZeroWidth(env.subject, Decode(env, ip).prim)
    ensures SamePlace(env.code, Decode(env, ip).next, ip + 2)
  {
  }

  /** An accepting run from `ip` that consumes something starting in `st`. */
  ghost predicate Consumes(env: Env, ip: nat, st: State) {
    Inside(env, st) && exists f: nat, end: State ::
      Eval(env, ip, st, f) == Decided(Accepted(end)) && end.pos > st.pos
  }

  /** The next step of a consuming run: it stays at its cursor along zero-width instructions, and
      at an instruction with start bytes the next byte is one of them. */
  lemma ConsumesNext(env: Env, at: set<nat>, ip: nat, st: State) returns (st': State)
    requires Loose(env, at) && ip in at && |env.code| < U32 && Consumes(env, ip, st)
    ensures ip < |env.code| && st.pos < |env.subject| && st'.pos == st.pos
    ensures match MoveAt(env.classes, env.code, ip)
      case All => true
      case Begins(inside) => inside(env.subject[st.pos])
      case Along(next) => next in at && Consumes(env, next, st')
      case Both(a, b) => a in at && b in at && (Consumes(env, a, st') || Consumes(env, b, st'))
      case Nothing => false
  {
    hide PrimStep, RunEnd, PastDelimiter, Decode, MoveAt, InMap;
    var f: nat, end: State :| Eval(env, ip, st, f) == Decided(Accepted(end)) && end.pos > st.pos;
    AcceptedAhead(env, ip, st, f, end);
    MovesFit(env, at, ip);
    assert Follows(env, ip, at);
    st' := st;
    match Decode(env, ip)
    case Do(prim, next) =>
      var after := PrimStep(env.subject, prim, st).value;
      if MoveAt(env.classes, env.code, ip).Along? {
        st' := after;
        assert Eval(env, next, st', f - 1) == Decided(Accepted(end));
      }
    case Fork(a, b) =>
      assert Eval(env, a, st, f - 1) == Decided(Accepted(end)) || Eval(env, b, st, f - 1) == Decided(Accepted(end));
    case Go(t) => assert Eval(env, t, st, f - 1) == Decided(Accepted(end));
    case Cut(t) => assert Eval(env, t, st, f - 1) == Decided(Accepted(end));
    case _ =>
  }

  // ----- A walk that loses nothing -----

  /** The walk that goes on with the branches still stacked when one of them runs off the end. */
  function PatientBits(classes: seq<CharClass>, code: seq<byte>, ip: nat, pending: seq<nat>, bm: ByteSet, steps: nat): ByteSet
    requires steps <= StepCap(code) && forall k :: 0 <= k < |pending| ==> pending[k] < |code|
    decreases StepCap(code) - steps, if ip >= |code| then 2 else 0
  {
    if ip >= |code| then PatientResume(classes, code, pending, bm, steps)
    else if steps + 1 > StepCap(code) then Full()
    else
      match MoveAt(classes, code, ip)
      case Along(next) => PatientBits(classes, code, next, pending, bm, steps + 1)
      case Both(a, b) =>
        if |pending| < MAX_PENDING then PatientBits(classes, code, b, pending + [a], bm, steps + 1)
        else PatientResume(classes, code, pending, Full(), steps + 1)
      case All => PatientResume(classes, code, pending, Full(), steps + 1)
      case Begins(inside) => PatientResume(classes, code, pending, Mark(bm, inside), steps + 1)
      case Nothing => PatientResume(classes, code, pending, bm, steps + 1)
  }

  function PatientResume(classes: seq<CharClass>, code: seq<byte>, pending: seq<nat>, bm: ByteSet, steps: nat): ByteSet
    requires steps <= StepCap(code) && forall k :: 0 <= k < |pending| ==> pending[k] < |code|
    decreases StepCap(code) - steps, 1
  {
    if pending == [] then bm
    else PatientBits(classes, code, pending[|pending| - 1], pending[..|pending| - 1], bm, steps)
  }

  /** The set only grows along the walk. */
  lemma {:induction false} BitsGrow(classes: seq<CharClass>, code: seq<byte>, ip: nat, pending: seq<nat>, bm: ByteSet,
                                    steps: nat, b: byte)
    requires steps <= StepCap(code) && (forall k :: 0 <= k < |pending| ==> pending[k] < |code|) && bm[b]
    ensures PatientBits(classes, code, ip, pending, bm, steps)[b]
    decreases StepCap(code) - steps, if ip >= |code| then 2 else 0
  {
    hide MoveAt, StepCap;
    if ip >= |code| {
      ResumeGrows(classes, code, pending, bm, steps, b);
    } else if steps + 1 <= StepCap(code) {
      match MoveAt(classes, code, ip)
      case Along(next) => BitsGrow(classes, code, next, pending, bm, steps + 1, b);
      case Both(x, y) =>
        if |pending| < MAX_PENDING {
          BitsGrow(classes, code, y, pending + [x], bm, steps + 1, b);
        } else {
          ResumeGrows(classes, code, pending, Full(), steps + 1, b);
        }
      case All => ResumeGrows(classes, code, pending, Full(), steps + 1, b);
      case Begins(inside) => ResumeGrows(classes, code, pending, Mark(bm, inside), steps + 1, b);
      case Nothing => ResumeGrows(classes, code, pending, bm, steps + 1, b);
    }
  }

  lemma {:induction false} ResumeGrows(classes: seq<CharClass>, code: seq<byte>, pending: seq<nat>, bm: ByteSet,
                                       steps: nat, b: byte)
    requires steps <= StepCap(code) && (forall k :: 0 <= k < |pending| ==> pending[k] < |code|) && bm[b]
    ensures PatientResume(classes, code, pending, bm, steps)[b]
    decreases StepCap(code) - steps, 1
  {
    hide PatientBits, StepCap;
    if pending != [] {
      BitsGrow(classes, code, pending[|pending| - 1], pending[..|pending| - 1], bm, steps, b);
    }
  }

  /** Soundness of the patient walk, even on code that control may run off the end of: whatever branch is
      current or still stacked, a run from it that consumes anything starts with a byte of the final set. */
  lemma {:induction false} PatientIsSound(env: Env, at: set<nat>, ip: nat, pending: seq<nat>, bm: ByteSet, steps: nat,
                                          target: nat, st: State)
    requires Loose(env, at) && |env.code| < U32 && steps <= StepCap(env.code)
    requires forall k :: 0 <= k < |pending| ==> pending[k] < |env.code|
    requires (target == ip || target in pending) && target in at && Consumes(env, target, st)
    ensures st.pos < |env.subject|
    ensures PatientBits(env.classes, env.code, ip, pending, bm, steps)[env.subject[st.pos]]
    decreases StepCap(env.code) - steps, if ip >= |env.code| then 2 else 0
  {
    hide MoveAt, Consumes, Loose, InMap, Eval, StepCap;
    var seen := ConsumesNext(env, at, target, st);
    var b := env.subject[st.pos];
    if ip >= |env.code| {
      ResumeIsSound(env, at, pending, bm, steps, target, st);
    } else if steps + 1 <= StepCap(env.code) {
      match MoveAt(env.classes, env.code, ip)
      case Along(next) =>
        var onward := if target == ip then next else target;
        PatientIsSound(env, at, next, pending, bm, steps + 1, onward, if target == ip then seen else st);
      case Both(x, y) =>
        if |pending| < MAX_PENDING {
          var onward := if target != ip then target else if Consumes(env, y, seen) then y else x;
          assert target in pending ==> target in pending + [x];
          PatientIsSound(env, at, y, pending + [x], bm, steps + 1, onward, if target == ip then seen else st);
        } else {
          ResumeGrows(env.classes, env.code, pending, Full(), steps + 1, b);
        }
      case All => ResumeGrows(env.classes, env.code, pending, Full(), steps + 1, b);
      case Begins(inside) => ResumeIsSound(env, at, pending, Mark(bm, inside), steps + 1, target, st);
      case Nothing => ResumeIsSound(env, at, pending, bm, steps + 1, target, st);
    }
  }

  lemma {:induction false} ResumeIsSound(env: Env, at: set<nat>, pending: seq<nat>, bm: ByteSet, steps: nat,
                                         target: nat, st: State)
    requires Loose(env, at) && |env.code| < U32 && steps <= StepCap(env.code)
    requires forall k :: 0 <= k < |pending| ==> pending[k] < |env.code|
    requires Consumes(env, target, st) && target in at && st.pos < |env.subject|
    requires target in pending || bm[env.subject[st.pos]]
    ensures PatientResume(env.classes, env.code, pending, bm, steps)[env.subject[st.pos]]
    decreases StepCap(env.code) - steps, 1
  {
    hide Consumes, Loose, PatientBits, StepCap;
    if bm[env.subject[st.pos]] {
      ResumeGrows(env.classes, env.code, pending, bm, steps, env.subject[st.pos]);
    } else {
      var top, rest := pending[|pending| - 1], pending[..|pending| - 1];
      assert pending == rest + [top];
      PatientIsSound(env, at, top, rest, bm, steps, target, st);
    }
  }

  // ----- What is lost -----

  /** The branches still stacked when the walk runs off the end, and the steps it has taken. */
  datatype Lost = Lost(branches: seq<nat>, steps: nat)

  function LostFrom(classes: seq<CharClass>, code: seq<byte>, ip: nat, pending: seq<nat>, steps: nat): (r: Lost)
    requires steps <= StepCap(code) && forall k :: 0 <= k < |pending| ==> pending[k] < |code|
    ensures r.steps <= StepCap(code) && forall k :: 0 <= k < |r.branches| ==> r.branches[k] < |code|
    decreases StepCap(code) - steps, 0
  {
    if ip >= |code| then Lost(pending, steps)
    else if steps + 1 > StepCap(code) then Lost([], steps)
    else
      match MoveAt(classes, code, ip)
      case Along(next) => LostFrom(classes, code, next, pending, steps + 1)
      case Both(a, b) =>
        if |pending| < MAX_PENDING then LostFrom(classes, code, b, pending + [a], steps + 1)
        else LostLater(classes, code, pending, steps + 1)
      case _ => LostLater(classes, code, pending, steps + 1)
  }

  function LostLater(classes: seq<CharClass>, code: seq<byte>, pending: seq<nat>, steps: nat): (r: Lost)
    requires steps <= StepCap(code) && forall k :: 0 <= k < |pending| ==> pending[k] < |code|
    ensures r.steps <= StepCap(code) && forall k :: 0 <= k < |r.branches| ==> r.branches[k] < |code|
    decreases StepCap(code) - steps, 1
  {
    if pending == [] then Lost([], steps)
    else LostFrom(classes, code, pending[|pending| - 1], pending[..|pending| - 1], steps)
  }

  /** The patient walk takes up what the walk has lost. */
  lemma {:induction false} PatientTakesUp(classes: seq<CharClass>, code: seq<byte>, ip: nat, pending: seq<nat>, bm: ByteSet,
                                          steps: nat)
    requires steps <= StepCap(code) && forall k :: 0 <= k < |pending| ==> pending[k] < |code|
    ensures var lost := LostFrom(classes, code, ip, pending, steps);
      PatientBits(classes, code, ip, pending, bm, steps)
      == PatientResume(classes, code, lost.branches, WalkBits(classes, code, ip, pending, bm, steps), lost.steps)
    decreases StepCap(code) - steps, 0
  {
    hide MoveAt, StepCap;
    if ip < |code| && steps + 1 <= StepCap(code) {
      match MoveAt(classes, code, ip)
      case Along(next) => PatientTakesUp(classes, code, next, pending, bm, steps + 1);
      case Both(x, y) =>
        if |pending| < MAX_PENDING {
          PatientTakesUp(classes, code, y, pending + [x], bm, steps + 1);
        } else {
          ResumeTakesUp(classes, code, pending, Full(), steps + 1);
        }
      case All => ResumeTakesUp(classes, code, pending, Full(), steps + 1);
      case Begins(inside) => ResumeTakesUp(classes, code, pending, Mark(bm, inside), steps + 1);
      case Nothing => ResumeTakesUp(classes, code, pending, bm, steps + 1);
    }
  }

  lemma {:induction false} ResumeTakesUp(classes: seq<CharClass>, code: seq<byte>, pending: seq<nat>, bm: ByteSet, steps: nat)
    requires steps <= StepCap(code) && forall k :: 0 <= k < |pending| ==> pending[k] < |code|
    ensures var lost := LostLater(classes, code, pending, steps);
      PatientResume(classes, code, pending, bm, steps)
      == PatientResume(classes, code, lost.branches, Resume(classes, code, pending, bm, steps), lost.steps)
    decreases StepCap(code) - steps, 1
  {
    hide PatientBits, WalkBits, LostFrom, StepCap;
    if pending != [] {
      PatientTakesUp(classes, code, pending[|pending| - 1], pending[..|pending| - 1], bm, steps);
    }
  }

  /** Control stays among these offsets. */
  ghost predicate Enclosed(env: Env, at: set<nat>) {
    forall p :: p in at ==> p < |env.code| && Stays(env, p, at)
  }

  /** Where the walk goes on is where execution goes on. */
  lemma NextAgrees(env: Env, ip: nat)
    requires ip < |env.code|
    ensures match MoveAt(env.classes, env.code, ip)
      case Along(next) =>
        (match Decode(env, ip)
         case Do(_, n) => SamePlace(env.code, n, next)
         case Go(t) => t == next
         case Cut(n) => n == next
         case _ => false)
      case Both(a, b) => Decode(env, ip) == Fork(a, b)
      case _ => true
  {
    hide U32At, U16At, PrimStep;
  }

  lemma StaysAlong(env: Env, at: set<nat>, ip: nat)
    requires Enclosed(env, at) && ip in at
    ensures ip < |env.code|
    ensures match MoveAt(env.classes, env.code, ip)
      case Along(next) => next in at
      case Both(a, b) => a in at && b in at
      case _ => true
  {
    hide MoveAt, Decode;
    NextAgrees(env, ip);
    assert Stays(env, ip, at);
  }

  /** Code that control cannot leave loses nothing. */
  lemma {:induction false} EnclosedLosesNothing(env: Env, at: set<nat>, ip: nat, pending: seq<nat>, steps: nat)
    requires Enclosed(env, at) && steps <= StepCap(env.code) && ip in at
    requires forall k :: 0 <= k < |pending| ==> pending[k] in at && pending[k] < |env.code|
    ensures LostFrom(env.classes, env.code, ip, pending, steps).branches == []
    decreases StepCap(env.code) - steps, 0
  {
    hide MoveAt, Enclosed, StepCap;
    StaysAlong(env, at, ip);
    if steps + 1 <= StepCap(env.code) {
      match MoveAt(env.classes, env.code, ip)
      case Along(next) => EnclosedLosesNothing(env, at, next, pending, steps + 1);
      case Both(x, y) =>
        if |pending| < MAX_PENDING {
          EnclosedLosesNothing(env, at, y, pending + [x], steps + 1);
        } else {
          LaterLosesNothing(env, at, pending, steps + 1);
        }
      case _ => LaterLosesNothing(env, at, pending, steps + 1);
    }
  }

  lemma {:induction false} LaterLosesNothing(env: Env, at: set<nat>, pending: seq<nat>, steps: nat)
    requires Enclosed(env, at) && steps <= StepCap(env.code)
    requires forall k :: 0 <= k < |pending| ==> pending[k] in at && pending[k] < |env.code|
    ensures LostLater(env.classes, env.code, pending, steps).branches == []
    decreases StepCap(env.code) - steps, 1
  {
    hide Enclosed, LostFrom, StepCap;
    if pending != [] {
      EnclosedLosesNothing(env, at, pending[|pending| - 1], pending[..|pending| - 1], steps);
    }
  }

  lemma TrackedAt(env: Env, at: set<nat>, ip: nat)
    requires Tracked(env, at) && ip in at
    ensures ip < |env.code| && Stays(env, ip, at) && Plainly(env, ip)
  {
  }

  lemma TrackedIsLoose(env: Env, at: set<nat>)
    requires Tracked(env, at)
    ensures Loose(env, at) && Enclosed(env, at)
  {
    hide Decode, Inline, Plainly;
  }

  /** Soundness of the walk on code that control cannot leave. */
  lemma WalkIsSound(env: Env, at: set<nat>, ip: nat, pending: seq<nat>, bm: ByteSet, steps: nat, target: nat, st: State)
    requires Tracked(env, at) && |env.code| < U32 && steps <= StepCap(env.code)
    requires ip in at && (forall k :: 0 <= k < |pending| ==> pending[k] in at && pending[k] < |env.code|)
    requires (target == ip || target in pending) && target in at && Consumes(env, target, st)
    ensures st.pos < |env.subject|
    ensures WalkBits(env.classes, env.code, ip, pending, bm, steps)[env.subject[st.pos]]
  {
    hide Consumes, Tracked, Loose, Enclosed, PatientBits, WalkBits, LostFrom, StepCap;
    TrackedIsLoose(env, at);
    PatientIsSound(env, at, ip, pending, bm, steps, target, st);
    PatientTakesUp(env.classes, env.code, ip, pending, bm, steps);
    EnclosedLosesNothing(env, at, ip, pending, steps);
  }

  /** Running off the end loses start bytes exactly when a branch still stacked would have added some. */
  lemma LossExact(classes: seq<CharClass>, code: seq<byte>)
    ensures var lost, bits := LostFrom(classes, code, 0, [], 0), WalkBits(classes, code, 0, [], NoBytes(), 0);
      bits == PatientBits(classes, code, 0, [], NoBytes(), 0)
      <==> forall b: byte :: PatientResume(classes, code, lost.branches, bits, lost.steps)[b] ==> bits[b]
  {
    hide PatientBits, PatientResume, WalkBits, LostFrom;
    var lost, bits := LostFrom(classes, code, 0, [], 0), WalkBits(classes, code, 0, [], NoBytes(), 0);
    PatientTakesUp(classes, code, 0, [], NoBytes(), 0);
    var all := PatientResume(classes, code, lost.branches, bits, lost.steps);
    forall b: byte | bits[b] ensures all[b] { ResumeGrows(classes, code, lost.branches, bits, lost.steps, b); }
    if forall b: byte :: all[b] ==> bits[b] {
      forall b | 0 <= b < 256 ensures bits[b] == all[b] { var c: byte := b; }
    }
  }

  lemma {:induction false} WalkGrows(classes: seq<CharClass>, code: seq<byte>, ip: nat, pending: seq<nat>, bm: ByteSet,
                                     steps: nat, b: byte)
    requires steps <= StepCap(code) && (forall k :: 0 <= k < |pending| ==> pending[k] < |code|) && bm[b]
    ensures WalkBits(classes, code, ip, pending, bm, steps)[b]
    decreases StepCap(code) - steps, 0
  {
    hide MoveAt, StepCap;
    if ip < |code| && steps + 1 <= StepCap(code) {
      match MoveAt(classes, code, ip)
      case Along(next) => WalkGrows(classes, code, next, pending, bm, steps + 1, b);
      case Both(x, y) =>
        if |pending| < MAX_PENDING {
          WalkGrows(classes, code, y, pending + [x], bm, steps + 1, b);
        } else {
          WalkGrowsLater(classes, code, pending, Full(), steps + 1, b);
        }
      case All => WalkGrowsLater(classes, code, pending, Full(), steps + 1, b);
      case Begins(inside) => WalkGrowsLater(classes, code, pending, Mark(bm, inside), steps + 1, b);
      case Nothing => WalkGrowsLater(classes, code, pending, bm, steps + 1, b);
    }
  }

  lemma {:induction false} WalkGrowsLater(classes: seq<CharClass>, code: seq<byte>, pending: seq<nat>, bm: ByteSet,
                                          steps: nat, b: byte)
    requires steps <= StepCap(code) && (forall k :: 0 <= k < |pending| ==> pending[k] < |code|) && bm[b]
    ensures Resume(classes, code, pending, bm, steps)[b]
    decreases StepCap(code) - steps, 1
  {
    hide WalkBits, StepCap;
    if pending != [] {
      WalkGrows(classes, code, pending[|pending| - 1], pending[..|pending| - 1], bm, steps, b);
    }
  }

  /** Some branch that was lost can still be taken up by a consuming run at this cursor. */
  ghost predicate LostRun(env: Env, lost: seq<nat>, pos: nat) {
    exists p: nat, st: State :: p in lost && st.pos == pos && Consumes(env, p, st)
  }

  /** A consuming run starts with a byte that the walk sets, or goes on along a branch that the walk has lost. */
  lemma {:induction false} MissIsLost(env: Env, at: set<nat>, ip: nat, pending: seq<nat>, bm: ByteSet, steps: nat,
                                      target: nat, st: State)
    requires Loose(env, at) && |env.code| < U32 && steps <= StepCap(env.code)
    requires forall k :: 0 <= k < |pending| ==> pending[k] < |env.code|
    requires (target == ip || target in pending) && target in at && Consumes(env, target, st)
    ensures st.pos < |env.subject|
    ensures WalkBits(env.classes, env.code, ip, pending, bm, steps)[env.subject[st.pos]]
         || LostRun(env, LostFrom(env.classes, env.code, ip, pending, steps).branches, st.pos)
    decreases StepCap(env.code) - steps, 0
  {
    hide MoveAt, Consumes, Loose, InMap, Eval, StepCap, LostRun;
    var seen := ConsumesNext(env, at, target, st);
    var b := env.subject[st.pos];
    if ip >= |env.code| {
      RunIsLost(env, pending, target, st);
    } else if steps + 1 <= StepCap(env.code) {
      match MoveAt(env.classes, env.code, ip)
      case Along(next) =>
        var onward := if target == ip then next else target;
        MissIsLost(env, at, next, pending, bm, steps + 1, onward, if target == ip then seen else st);
      case Both(x, y) =>
        if |pending| < MAX_PENDING {
          var onward := if target != ip then target else if Consumes(env, y, seen) then y else x;
          assert target in pending ==> target in pending + [x];
          MissIsLost(env, at, y, pending + [x], bm, steps + 1, onward, if target == ip then seen else st);
        } else {
          WalkGrowsLater(env.classes, env.code, pending, Full(), steps + 1, b);
        }
      case All => WalkGrowsLater(env.classes, env.code, pending, Full(), steps + 1, b);
      case Begins(inside) => MissIsLostLater(env, at, pending, Mark(bm, inside), steps + 1, target, st);
      case Nothing => MissIsLostLater(env, at, pending, bm, steps + 1, target, st);
    }
  }

  lemma RunIsLost(env: Env, lost: seq<nat>, p: nat, st: State)
    requires p in lost && Consumes(env, p, st)
    ensures LostRun(env, lost, st.pos)
  {
    hide Consumes;
  }

  lemma {:induction false} MissIsLostLater(env: Env, at: set<nat>, pending: seq<nat>, bm: ByteSet, steps: nat,
                                           target: nat, st: State)
    requires Loose(env, at) && |env.code| < U32 && steps <= StepCap(env.code)
    requires forall k :: 0 <= k < |pending| ==> pending[k] < |env.code|
    requires Consumes(env, target, st) && target in at && st.pos < |env.subject|
    requires target in pending || bm[env.subject[st.pos]]
    ensures Resume(env.classes, env.code, pending, bm, steps)[env.subject[st.pos]]
         || LostRun(env, LostLater(env.classes, env.code, pending, steps).branches, st.pos)
    decreases StepCap(env.code) - steps, 1
  {
    hide Consumes, Loose, WalkBits, StepCap, LostRun, LostFrom;
    if bm[env.subject[st.pos]] {
      WalkGrowsLater(env.classes, env.code, pending, bm, steps, env.subject[st.pos]);
    } else {
      var top, rest := pending[|pending| - 1], pending[..|pending| - 1];
      assert pending == rest + [top];
      MissIsLost(env, at, top, rest, bm, steps, target, st);
    }
  }
}
