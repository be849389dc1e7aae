/** The literal a pattern starts with, behind operations taken to have no width (search_meta.c), and
    when a match really begins with it. */
module LeadingLiteral {
  import opened Wrappers
  import opened Bytes
  import opened Bytecode
  import opened CharClasses
  import opened Semantics
  import opened Horspool
  import opened AlternationPrefix

  predicate IsPosition(op: byte) { op == OP_POS || op == OP_RPOS || op == OP_TAB || op == OP_RTAB }

  /** First operation that the analysis takes to consume something. */
  function RootAt(code: seq<byte>, ip: nat): (r: nat)
    ensures ip <= r
    decreases |code| - ip
  {
    if ip >= |code| then ip
    else if code[ip] == OP_ANCHOR then
      if ip + 2 > |code| then ip else RootAt(code, ip + 2)
    else if IsPosition(code[ip]) then
      if ip + 5 > |code| then ip else RootAt(code, ip + 5)
    else if code[ip] == OP_NOP || code[ip] == OP_FENCE then RootAt(code, ip + 1)
    else ip
  }

  /** At most sixteen bytes of the literal at the root; empty when there is none. */
  function LiteralPrefix(code: seq<byte>, root: nat): (p: seq<byte>) {
    if root + 9 > |code| || code[root] != OP_LIT then []
    else
      var off, len := U32At(code, root + 1), U32At(code, root + 5);
      if off >= |code| || off + len > |code| then []
      else code[off..off + (if len < MAX_PREFIX then len else MAX_PREFIX)]
  }

  function Leading(code: seq<byte>): seq<byte> { LiteralPrefix(code, RootAt(code, 0)) }

  method FindRoot(code: seq<byte>) returns (ip: nat)
    ensures ip == RootAt(code, 0)
  {
    ip := 0;
    while ip < |code|
      invariant RootAt(code, ip) == RootAt(code, 0)
      decreases |code| - ip
    {
      var peek := code[ip];
      if peek == OP_ANCHOR {
        if ip + 2 > |code| { break; }
        ip := ip + 2;
        continue;
      }
      if peek == OP_POS || peek == OP_RPOS || peek == OP_TAB || peek == OP_RTAB {
        if ip + 5 > |code| { break; }
        ip := ip + 5;
        continue;
      }
      if peek == OP_NOP || peek == OP_FENCE {
        ip := ip + 1;
        continue;
      }
      break;
    }
  }

  method FindLeading(code: seq<byte>) returns (p: seq<byte>)
    ensures p == Leading(code)
  {
    var root := FindRoot(code);
    p := LiteralPrefix(code, root);
  }

  /** None of the operations skipped on the way to the root moves the cursor. */
  predicate StaysPut(code: seq<byte>, ip: nat)
    decreases |code| - ip
  {
    if ip >= |code| then true
    else if code[ip] == OP_ANCHOR then ip + 2 > |code| || StaysPut(code, ip + 2)
    else if code[ip] == OP_TAB || code[ip] == OP_RTAB then ip + 5 > |code|
    else if IsPosition(code[ip]) then ip + 5 > |code| || StaysPut(code, ip + 5)
    else if code[ip] == OP_NOP || code[ip] == OP_FENCE then StaysPut(code, ip + 1)
    else true
  }

  lemma RootDecodes(env: Env, ip: nat)
    requires ip + 9 <= |env.code| && env.code[ip] == OP_LIT
    ensures var off, len := U32At(env.code, ip + 1), U32At(env.code, ip + 5);
      Decode(env, ip) == match LitBytes(env.code, off, len)
        case Some(text) => Do(Text(text), if off == ip + 9 then ip + 9 + len else ip + 9)
        case None => Unmodelled
  {
    hide U32At;
  }

  lemma PositionDecodes(env: Env, ip: nat, op: CountOp)
    requires ip + 5 <= |env.code| && env.code[ip] == CountOpcode(op)
    ensures Decode(env, ip) == Do(Counted(op, U32At(env.code, ip + 1)), ip + 5)
  {
    hide U32At;
  }

  lemma {:induction false} RootBegins(env: Env, ip: nat, st: State, f: nat, end: State)
    requires StaysPut(env.code, ip) && Eval(env, ip, st, f) == Decided(Accepted(end)) && st.pos <= |env.subject|
    ensures Occurs(env.subject, st.pos, LiteralPrefix(env.code, RootAt(env.code, ip)))
    decreases f
  {
    hide U32At, PrimStep, Decode, LiteralPrefix;
    var code := env.code;
    if ip < |code| {
      var op := code[ip];
      if op == OP_ANCHOR && ip + 2 <= |code| {
        AnchorDecodes(env, ip);
        StepsInPlace(env.subject, AtAnchor(code[ip + 1]), st);
        RootBegins(env, ip + 2, st, f - 1, end);
      } else if (op == OP_POS || op == OP_RPOS) && ip + 5 <= |code| {
        var count := if op == OP_POS then Pos else RPos;
        PositionDecodes(env, ip, count);
        StepsInPlace(env.subject, Counted(count, U32At(code, ip + 1)), st);
        RootBegins(env, ip + 5, st, f - 1, end);
      } else if op == OP_NOP || op == OP_FENCE {
        BareDecodes(env, ip);
        StepsInPlace(env.subject, Skip, st);
        RootBegins(env, ip + 1, st, f - 1, end);
      } else {
        RootIsHere(env, ip, st, f, end);
      }
    } else {
      NoPrefix(env.code, ip, env.subject, st.pos);
    }
  }

  lemma NoPrefix(code: seq<byte>, root: nat, s: seq<byte>, at: nat)
    requires (root >= |code| || code[root] != OP_LIT) && at <= |s|
    ensures Occurs(s, at, LiteralPrefix(code, root))
  {
  }

  lemma AnchorDecodes(env: Env, ip: nat)
    requires ip + 2 <= |env.code| && env.code[ip] == OP_ANCHOR
    ensures Decode(env, ip) == Do(AtAnchor(env.code[ip + 1]), ip + 2)
  {
  }

  lemma BareDecodes(env: Env, ip: nat)
    requires ip < |env.code|
    ensures env.code[ip] == OP_NOP ==> Decode(env, ip) == Do(Skip, ip + 1)
    ensures env.code[ip] == OP_FENCE ==> Decode(env, ip) == Cut(ip + 1)
  {
  }

  lemma StepsInPlace(s: seq<byte>, p: Prim, st: State)
    requires p.AtAnchor? || p.Skip? || (p.Counted? && (p.nop.Pos? || p.nop.RPos?))
    ensures PrimStep(s, p, st).Some? ==> PrimStep(s, p, st).value == st
  {
    hide Forward, Backward;
  }

  lemma RootIsHere(env: Env, ip: nat, st: State, f: nat, end: State)
    requires ip < |env.code| && RootAt(env.code, ip) == ip && st.pos <= |env.subject|
    requires Eval(env, ip, st, f) == Decided(Accepted(end))
    ensures Occurs(env.subject, st.pos, LiteralPrefix(env.code, ip))
  {
    hide U32At, Decode, RootAt;
    var code := env.code;
    if code[ip] == OP_LIT && ip + 9 <= |code| {
      var off, len := U32At(code, ip + 1), U32At(code, ip + 5);
      RootDecodes(env, ip);
      if off < |code| && off + len <= |code| {
        var text := code[off..off + len];
        TextOccurs(env.subject, text, st);
        PrefixOccurs(env.subject, st.pos, text, LiteralPrefix(code, ip));
      }
    }
  }

  /** Unless a tabulation is skipped, every match begins with the leading literal. */
  lemma LeadingBegins(code: seq<byte>, classes: seq<CharClass>)
    requires StaysPut(code, 0)
    ensures LeadsMatches(code, classes, Leading(code))
  {
    hide Eval, StaysPut, LiteralPrefix, RootAt, Occurs;
    forall s: seq<byte>, f: nat, end: State | Eval(Env(code, classes, s), 0, Fresh(0), f) == Decided(Accepted(end))
      ensures Occurs(s, 0, Leading(code))
    {
      RootBegins(Env(code, classes, s), 0, Fresh(0), f, end);
    }
  }
}
