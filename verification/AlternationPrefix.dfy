/** When the extracted prefix begins every match: exactly when all the alternatives share it, also
    those beyond the ones the extraction compares. */
module AlternationPrefix {
  import opened Wrappers
  import opened Bytes
  import opened Bytecode
  import opened CharClasses
  import opened Semantics
  import opened Horspool
  import opened SharedPrefix

  const MAX_LIT_BYTES: nat := 250
  const SCAN_LIMIT: nat := 2048

  /** Every match of the code from the start of a subject begins with the prefix. */
  ghost predicate LeadsMatches(code: seq<byte>, classes: seq<CharClass>, p: seq<byte>) {
    forall s: seq<byte>, f: nat, end: State ::
      Eval(Env(code, classes, s), 0, Fresh(0), f) == Decided(Accepted(end)) ==> Occurs(s, 0, p)
  }

  // ----- The shape test -----

  /** Where a chain of jumps ends. */
  function LandsOn(code: seq<byte>, cur: nat, guard: nat): Option<nat>
    decreases guard
  {
    if cur < |code| && code[cur] == OP_JMP then
      if guard == 0 || cur + 5 > |code| then None else LandsOn(code, U32At(code, cur + 1), guard - 1)
    else Some(cur)
  }

  predicate EndsAt(code: seq<byte>, cur: nat) {
    var c := LandsOn(code, cur, |code|);
    c.Some? && c.value < |code| && code[c.value] == OP_ACCEPT
  }

  /** Every branch is a literal that leads to the end of the match; the literal bytes counted. */
  function CheckLiterals(code: seq<byte>, t: AltTree, ip: nat, used: nat): Option<nat>
    requires Unfolds(code, t, ip)
    decreases t
  {
    match t
    case Tip =>
      if ip + 10 > |code| || code[ip] != OP_LIT then None
      else
        var len := U32At(code, ip + 5);
        if ip + 9 + len > |code| || used + len > MAX_LIT_BYTES || !EndsAt(code, ip + 9 + len) then None
        else Some(used + len)
    case Branch(l, r) =>
      var mid :- CheckLiterals(code, l, U32At(code, ip + 1), used);
      CheckLiterals(code, r, U32At(code, ip + 5), mid)
  }

  /** The prefix the analysis keeps for an alternation. */
  function DerivedPrefix(code: seq<byte>, t: AltTree): seq<byte>
    requires Unfolds(Front(code), t, 0)
  {
    if |code| >= 10 && code[0] == OP_SPLIT && CheckLiterals(Front(code), t, 0, 0).Some? then Extracted(Front(code), t) else []
  }

  /** The part of the code the analysis looks at. */
  function Front(code: seq<byte>): seq<byte> { if |code| > SCAN_LIMIT then code[..SCAN_LIMIT] else code }

  // ----- The machine on the same code -----

  lemma FrontOperand(code: seq<byte>, p: nat)
    requires p + 4 <= |Front(code)|
    ensures U32At(Front(code), p) == U32At(code, p)
  {
  }

  lemma FrontByte(code: seq<byte>, i: nat)
    requires i < |Front(code)|
    ensures i < |code| && Front(code)[i] == code[i]
  {
  }

  lemma FrontStretch(code: seq<byte>, i: nat, j: nat)
    requires i <= j <= |Front(code)|
    ensures j <= |code| && Front(code)[i..j] == code[i..j]
  {
  }

  lemma LiteralDecodes(env: Env, ip: nat)
    requires LiteralAt(Front(env.code), ip).Some?
    ensures var off, len := U32At(env.code, ip + 1), U32At(env.code, ip + 5);
      ip < |env.code|
      && Decode(env, ip) == Do(Text(LiteralAt(Front(env.code), ip).value), if off == ip + 9 then ip + 9 + len else ip + 9)
      && len == |LiteralAt(Front(env.code), ip).value|
  {
    hide U32At, Front;
    var c := Front(env.code);
    FrontOperand(env.code, ip + 1);
    FrontOperand(env.code, ip + 5);
    var off, len := U32At(c, ip + 1), U32At(c, ip + 5);
    FrontStretch(env.code, off, off + len);
    FrontStretch(env.code, ip, ip + 9);
    FrontByte(env.code, ip);
  }

  lemma BranchDecodes(env: Env, ip: nat)
    requires IsBranch(Front(env.code), ip)
    ensures ip < |env.code| && Decode(env, ip) == Fork(U32At(Front(env.code), ip + 1), U32At(Front(env.code), ip + 5))
  {
    hide U32At;
    FrontOperand(env.code, ip + 1);
    FrontOperand(env.code, ip + 5);
  }

  lemma TextOccurs(s: seq<byte>, text: seq<byte>, st: State)
    ensures PrimStep(s, Text(text), st) == if Occurs(s, st.pos, text) then Some(st.(pos := st.pos + |text|)) else None
  {
  }

  lemma PrefixOccurs(s: seq<byte>, at: nat, text: seq<byte>, p: seq<byte>)
    requires Occurs(s, at, text) && p <= text
    ensures Occurs(s, at, p)
  {
    assert s[at..at + |p|] == s[at..at + |text|][..|p|];
  }

  predicate AllBegin(ls: seq<seq<byte>>, p: seq<byte>) { forall j :: 0 <= j < |ls| ==> p <= ls[j] }

  ghost predicate SomeOccurs(ls: seq<seq<byte>>, s: seq<byte>, at: nat) {
    exists j :: 0 <= j < |ls| && Occurs(s, at, ls[j])
  }

  lemma OccursInJoin(a: seq<seq<byte>>, b: seq<seq<byte>>, s: seq<byte>, at: nat)
    ensures SomeOccurs(a, s, at) || SomeOccurs(b, s, at) ==> SomeOccurs(a + b, s, at)
  {
    hide Occurs;
    if SomeOccurs(a, s, at) {
      var j :| 0 <= j < |a| && Occurs(s, at, a[j]);
      assert Occurs(s, at, (a + b)[j]);
    }
    if SomeOccurs(b, s, at) {
      var j :| 0 <= j < |b| && Occurs(s, at, b[j]);
      assert Occurs(s, at, (a + b)[|a| + j]);
    }
  }

  /** An accepting run passes through one of the literals. */
  lemma {:induction false} RunsThrough(env: Env, t: AltTree, ip: nat, below: nat, st: State, f: nat, end: State)
    requires Unfolds(Front(env.code), t, ip) && Collect(Front(env.code), t, ip, below).Some?
    requires Eval(env, ip, st, f) == Decided(Accepted(end))
    ensures SomeOccurs(Collect(Front(env.code), t, ip, below).value, env.subject, st.pos)
    decreases t
  {
    hide U32At, LiteralAt, Decode, PrimStep, Occurs;
    var code := Front(env.code);
    match t
    case Tip =>
      var text := LiteralAt(code, ip).value;
      LiteralDecodes(env, ip);
      TextOccurs(env.subject, text, st);
      assert Occurs(env.subject, st.pos, [text][0]);
    case Branch(l, r) =>
      var a, b := U32At(code, ip + 1), U32At(code, ip + 5);
      BranchDecodes(env, ip);
      OccursInJoin(Collect(code, l, a, below + 1).value, Collect(code, r, b, below).value, env.subject, st.pos);
      if Eval(env, a, st, f - 1) == Decided(Accepted(end)) {
        RunsThrough(env, l, a, below + 1, st, f - 1, end);
      } else {
        RunsThrough(env, r, b, below, st, f - 1, end);
      }
  }

  /** So it begins with what all of them begin with. */
  lemma RunsBegin(env: Env, t: AltTree, ip: nat, below: nat, p: seq<byte>, st: State, f: nat, end: State)
    requires Unfolds(Front(env.code), t, ip)
    requires Collect(Front(env.code), t, ip, below).Some? && AllBegin(Collect(Front(env.code), t, ip, below).value, p)
    requires Eval(env, ip, st, f) == Decided(Accepted(end))
    ensures Occurs(env.subject, st.pos, p)
  {
    hide Eval, Unfolds, Collect, Occurs;
    var ls := Collect(Front(env.code), t, ip, below).value;
    RunsThrough(env, t, ip, below, st, f, end);
    var j :| 0 <= j < |ls| && Occurs(env.subject, st.pos, ls[j]);
    PrefixOccurs(env.subject, st.pos, ls[j], p);
  }

  // ----- Every literal can be matched -----

  lemma JumpDecodes(env: Env, cur: nat)
    requires cur + 5 <= |Front(env.code)| && Front(env.code)[cur] == OP_JMP
    ensures cur < |env.code| && Decode(env, cur) == Go(U32At(Front(env.code), cur + 1))
  {
    hide U32At;
    FrontOperand(env.code, cur + 1);
  }

  lemma EndDecodes(env: Env, cur: nat)
    requires cur < |Front(env.code)| && Front(env.code)[cur] == OP_ACCEPT
    ensures cur < |env.code| && Decode(env, cur) == Win
  {
  }

  lemma {:induction false} JumpsAccept(env: Env, cur: nat, guard: nat, st: State) returns (f: nat)
    requires var c := LandsOn(Front(env.code), cur, guard);
      c.Some? && c.value < |Front(env.code)| && Front(env.code)[c.value] == OP_ACCEPT
    ensures Eval(env, cur, st, f) == Decided(Accepted(st))
    decreases guard
  {
    hide U32At, Decode;
    var code := Front(env.code);
    if cur < |code| && code[cur] == OP_JMP {
      var t := U32At(code, cur + 1);
      JumpDecodes(env, cur);
      var g := JumpsAccept(env, t, guard - 1, st);
      f := g + 1;
    } else {
      EndDecodes(env, cur);
      f := 1;
    }
  }

  /** The literals' text follows their own header, as the compiler lays it out. */
  predicate TextsInline(code: seq<byte>, t: AltTree, ip: nat)
    requires Unfolds(code, t, ip)
    decreases t
  {
    match t
    case Tip => ip + 10 <= |code| && code[ip] == OP_LIT ==> U32At(code, ip + 1) == ip + 9
    case Branch(l, r) => TextsInline(code, l, U32At(code, ip + 1)) && TextsInline(code, r, U32At(code, ip + 5))
  }

  predicate Ends(r: Result) { r.Exhausted? || (r.Decided? && r.v.Accepted?) }

  lemma TipEnds(env: Env, ip: nat, below: nat, used: nat, st: State) returns (f: nat)
    requires var code := Front(env.code);
      && Unfolds(code, Tip, ip) && TextsInline(code, Tip, ip)
      && CheckLiterals(code, Tip, ip, used).Some? && Collect(code, Tip, ip, below).Some?
    ensures Ends(Eval(env, ip, st, f))
    ensures SomeOccurs(Collect(Front(env.code), Tip, ip, below).value, env.subject, st.pos) ==> Eval(env, ip, st, f).Decided?
  {
    hide U32At, Decode, PrimStep, LandsOn;
    var text := LiteralAt(Front(env.code), ip).value;
    LiteralDecodes(env, ip);
    TextOccurs(env.subject, text, st);
    f := 1;
    if Occurs(env.subject, st.pos, text) {
      FrontOperand(env.code, ip + 1);
      FrontOperand(env.code, ip + 5);
      var g := JumpsAccept(env, ip + 9 + |text|, |Front(env.code)|, st.(pos := st.pos + |text|));
      f := g + 1;
    }
  }

  lemma SomeOccursJoin(a: seq<seq<byte>>, b: seq<seq<byte>>, s: seq<byte>, at: nat)
    ensures SomeOccurs(a + b, s, at) ==> SomeOccurs(a, s, at) || SomeOccurs(b, s, at)
  {
    if SomeOccurs(a + b, s, at) {
      var j :| 0 <= j < |a + b| && Occurs(s, at, (a + b)[j]);
      if j < |a| { assert Occurs(s, at, a[j]); } else { assert Occurs(s, at, b[j - |a|]); }
    }
  }

  /** The alternation comes to an end, and accepts when any of its literals is there. */
  lemma {:induction false} TreeEnds(env: Env, t: AltTree, ip: nat, below: nat, used: nat, st: State) returns (f: nat)
    requires var code := Front(env.code);
      && Unfolds(code, t, ip) && TextsInline(code, t, ip)
      && CheckLiterals(code, t, ip, used).Some? && Collect(code, t, ip, below).Some?
    ensures Ends(Eval(env, ip, st, f))
    ensures SomeOccurs(Collect(Front(env.code), t, ip, below).value, env.subject, st.pos) ==> Eval(env, ip, st, f).Decided?
    decreases t
  {
    hide U32At, Decode, EndsAt, LiteralAt;
    var code := Front(env.code);
    match t
    case Tip => f := TipEnds(env, ip, below, used, st);
    case Branch(l, r) =>
      var a, b := U32At(code, ip + 1), U32At(code, ip + 5);
      BranchDecodes(env, ip);
      SomeOccursJoin(Collect(code, l, a, below + 1).value, Collect(code, r, b, below).value, env.subject, st.pos);
      var g := TreeEnds(env, l, a, below + 1, used, st);
      var h := TreeEnds(env, r, b, below, CheckLiterals(code, l, a, used).value, st);
      f := g + h + 1;
      MoreFuel(env, a, st, g, g + h);
      MoreFuel(env, b, st, h, g + h);
  }

  /** A prefix that all alternatives share begins every match. */
  lemma PrefixLeads(code: seq<byte>, classes: seq<CharClass>, t: AltTree)
    requires Unfolds(Front(code), t, 0) && Collect(Front(code), t, 0, 0).Some?
    requires var ls := Collect(Front(code), t, 0, 0).value; AllBegin(ls[|Kept(ls)|..], Extracted(Front(code), t))
    ensures LeadsMatches(code, classes, Extracted(Front(code), t))
  {
    hide Collect, Unfolds, Eval, Occurs;
    var p := Extracted(Front(code), t);
    KeptBegin(Collect(Front(code), t, 0, 0).value);
    forall s: seq<byte>, f: nat, end: State | Eval(Env(code, classes, s), 0, Fresh(0), f) == Decided(Accepted(end))
      ensures Occurs(s, 0, p)
    {
      RunsBegin(Env(code, classes, s), t, 0, 0, p, Fresh(0), f, end);
    }
  }

  /** The extracted prefix begins every match exactly when every alternative begins with it. The
      extraction only looks at the first sixty-four, so further ones have to agree by themselves. */
  lemma PrefixExact(code: seq<byte>, classes: seq<CharClass>, t: AltTree)
    requires Unfolds(Front(code), t, 0) && TextsInline(Front(code), t, 0)
    requires CheckLiterals(Front(code), t, 0, 0).Some? && Collect(Front(code), t, 0, 0).Some?
    ensures var ls := Collect(Front(code), t, 0, 0).value;
      LeadsMatches(code, classes, Extracted(Front(code), t)) <==> AllBegin(ls[|Kept(ls)|..], Extracted(Front(code), t))
  {
    hide Collect, Unfolds, TextsInline, CheckLiterals, Eval, Occurs;
    var ls := Collect(Front(code), t, 0, 0).value;
    var p := Extracted(Front(code), t);
    if AllBegin(ls[|Kept(ls)|..], p) {
      PrefixLeads(code, classes, t);
    }
    if LeadsMatches(code, classes, p) {
      forall j | 0 <= j < |ls| ensures p <= ls[j] {
        EachBegins(code, classes, t, p, j);
      }
    }
  }

  lemma KeptBegin(ls: seq<seq<byte>>)
    requires AllBegin(ls[|Kept(ls)|..], CommonPrefix(Kept(ls)))
    ensures AllBegin(ls, CommonPrefix(Kept(ls)))
  {
    var k := Kept(ls);
    var p := CommonPrefix(k);
    if |k| >= 2 { CommonIsLongest(k, []); }
    forall j | 0 <= j < |ls| ensures p <= ls[j] {
      if j < |k| { assert ls[j] == k[j]; } else { assert ls[j] == ls[|k|..][j - |k|]; }
    }
  }

  /** Any alternative is matched by its own text. */
  lemma EachBegins(code: seq<byte>, classes: seq<CharClass>, t: AltTree, p: seq<byte>, j: nat)
    requires Unfolds(Front(code), t, 0) && TextsInline(Front(code), t, 0)
    requires CheckLiterals(Front(code), t, 0, 0).Some? && Collect(Front(code), t, 0, 0).Some?
    requires LeadsMatches(code, classes, p) && j < |Collect(Front(code), t, 0, 0).value|
    ensures p <= Collect(Front(code), t, 0, 0).value[j]
  {
    hide Collect, Unfolds, TextsInline, CheckLiterals, Eval;
    var s := Collect(Front(code), t, 0, 0).value[j];
    var env := Env(code, classes, s);
    assert Occurs(s, 0, s);
    assert SomeOccurs(Collect(Front(code), t, 0, 0).value, s, 0);
    var f := TreeEnds(env, t, 0, 0, 0, Fresh(0));
    var end := Eval(env, 0, Fresh(0), f).v.st;
    assert Occurs(s, 0, p);
  }
}
