/** A literal behind TAB or RTAB: where the tabulation leads, and exactly when every match of such code
    begins with the literal, as both the leading prefix and the start bytes take for granted. */
module Tabulation {
  import opened Wrappers
  import opened Bytes
  import opened Bytecode
  import opened CharClasses
  import opened Semantics
  import opened Horspool
  import opened AlternationPrefix
  import opened LeadingLiteral

  // ----- Where it leads -----

  /** The position a tabulation leads to. */
  function Target(op: CountOp, n: nat, s: seq<byte>): nat {
    if op.Tab? then Forward(s, 0, n) else Backward(s, |s|, n)
  }

  /** Bytes of a stretch that are not inside a character. */
  function Leads(s: seq<byte>, from: nat, end: nat): (k: nat)
    requires from <= end <= |s|
    ensures from + k <= end
    decreases end
  {
    if from == end then 0 else Leads(s, from, end - 1) + (if Continuation(s[end - 1]) then 0 else 1)
  }

  lemma {:induction false} LeadsSplit(s: seq<byte>, a: nat, b: nat, c: nat)
    requires a <= b <= c <= |s|
    ensures Leads(s, a, c) == Leads(s, a, b) + Leads(s, b, c)
    decreases c
  {
    if b < c { LeadsSplit(s, a, b, c - 1); }
  }

  lemma {:induction false} LeadsOfSlice(s: seq<byte>, t: nat, text: seq<byte>, m: nat)
    requires t + |text| <= |s| && s[t..t + |text|] == text && m <= |text|
    ensures Leads(s, t, t + m) == Leads(text, 0, m)
    decreases m
  {
    if m > 0 {
      LeadsOfSlice(s, t, text, m - 1);
      assert s[t..t + |text|][m - 1] == s[t + m - 1];
    }
  }

  /** A tabulation past the start stops at a position that is not inside a character. */
  lemma {:induction false} ForwardLands(s: seq<byte>, from: nat, n: nat)
    requires n > 0 && from < |s|
    ensures var t := Forward(s, from, n); from < t && (t < |s| ==> !Continuation(s[t]))
    decreases n
  {
    SkipLands(s, from + 1);
    var next := SkipContinuation(s, from + 1);
    if n > 1 && next < |s| { ForwardLands(s, next, n - 1); }
  }

  lemma {:induction false} SkipLands(s: seq<byte>, pos: nat)
    ensures var t := SkipContinuation(s, pos); t < |s| ==> !Continuation(s[t])
    decreases |s| - pos
  {
    if pos < |s| && Continuation(s[pos]) { SkipLands(s, pos + 1); }
  }

  lemma {:induction false} ForwardAscii(s: seq<byte>, from: nat, n: nat)
    requires from + n < |s| && forall k :: from < k <= from + n ==> !Continuation(s[k])
    ensures Forward(s, from, n) == from + n
    decreases n
  {
    if n > 0 { ForwardAscii(s, from + 1, n - 1); }
  }

  /** Going back over continuation bytes ends at a byte that is none, or at the start. */
  lemma {:induction false} BackLands(s: seq<byte>, pos: nat)
    requires pos < |s|
    ensures var q := BackContinuation(s, pos);
      && (q > 0 ==> !Continuation(s[q]))
      && Leads(s, q, pos + 1) == (if Continuation(s[q]) then 0 else 1)
    decreases pos
  {
    if pos > 0 && Continuation(s[pos]) { BackLands(s, pos - 1); }
  }

  /** Unless it reaches the start, going back `n` characters passes as many bytes that begin one. */
  lemma {:induction false} BackwardLands(s: seq<byte>, from: nat, n: nat)
    requires from <= |s|
    ensures var t := Backward(s, from, n); t > 0 ==> Leads(s, t, from) == n && (n > 0 ==> !Continuation(s[t]))
    decreases n
  {
    hide BackContinuation;
    if n > 0 && from > 0 {
      var q := BackContinuation(s, from - 1);
      BackLands(s, from - 1);
      BackwardLands(s, q, n - 1);
      var t := Backward(s, q, n - 1);
      if t > 0 { LeadsSplit(s, t, q, from); }
    }
  }

  /** Going back over continuation bytes does not pass one that is none. */
  lemma {:induction false} BackStays(s: seq<byte>, pos: nat, t: nat)
    requires t <= pos < |s| && !Continuation(s[t])
    ensures BackContinuation(s, pos) >= t
    decreases pos
  {
    if pos > 0 && Continuation(s[pos]) { BackStays(s, pos - 1, t); }
  }

  /** It stops at the byte that begins the n-th character from the end. */
  lemma {:induction false} BackwardStops(s: seq<byte>, from: nat, n: nat, t: nat)
    requires t < from <= |s| && !Continuation(s[t]) && Leads(s, t, from) == n
    ensures Backward(s, from, n) == t
    decreases n
  {
    hide BackContinuation;
    var q := BackContinuation(s, from - 1);
    BackLands(s, from - 1);
    BackStays(s, from - 1, t);
    LeadsSplit(s, t, q, from);
    if q > t { BackwardStops(s, q, n - 1, t); }
  }

  // ----- When only the start of the subject will do -----

  /** The tabulation cannot lead to this literal anywhere but at the start: it does not move, or stops before
      the literal would be reached, or the literal begins inside a character. */
  predicate Pinned(op: CountOp, n: nat, text: seq<byte>)
    requires text != []
  {
    Continuation(text[0]) || (if op.Tab? then n == 0 else n < Leads(text, 0, |text|))
  }

  lemma PinnedStays(op: CountOp, n: nat, text: seq<byte>, s: seq<byte>)
    requires text != [] && Pinned(op, n, text) && Occurs(s, Target(op, n, s), text)
    ensures Occurs(s, 0, text)
  {
    hide Forward, Backward;
    var t := Target(op, n, s);
    assert s[t..t + |text|][0] == s[t];
    if op.Tab? {
      if n == 0 { assert Forward(s, 0, 0) == 0 by { ForwardNone(s); } } else { ForwardLands(s, 0, n); }
    } else {
      BackwardLands(s, |s|, n);
      LeadsSplit(s, t, t + |text|, |s|);
      LeadsOfSlice(s, t, text, |text|);
      assert n == 0 ==> Backward(s, |s|, 0) == |s| by { BackwardNone(s); }
    }
  }

  lemma ForwardNone(s: seq<byte>)
    ensures Forward(s, 0, 0) == 0
  {
  }

  lemma BackwardNone(s: seq<byte>)
    ensures Backward(s, |s|, 0) == |s|
  {
  }

  function Repeated(b: byte, n: nat): (s: seq<byte>)
    ensures |s| == n
  {
    seq(n, _ => b)
  }

  function OtherLetter(b: byte): byte { if b == 0x61 then 0x62 else 0x61 }

  /** A subject on which a literal that is not pinned is reached, but does not stand at the start. */
  function Elsewhere(op: CountOp, n: nat, text: seq<byte>): (s: seq<byte>)
    requires text != [] && !Pinned(op, n, text)
    ensures s != [] && s[0] == OtherLetter(text[0])
  {
    if op.Tab? then Repeated(OtherLetter(text[0]), n) + text
    else [OtherLetter(text[0])] + text + Repeated(OtherLetter(text[0]), n - Leads(text, 0, |text|))
  }

  lemma ElsewhereReached(op: CountOp, n: nat, text: seq<byte>)
    requires text != [] && !Pinned(op, n, text)
    ensures var s := Elsewhere(op, n, text); Occurs(s, Target(op, n, s), text)
  {
    hide Forward, Backward, Leads;
    var s := Elsewhere(op, n, text);
    if op.Tab? {
      ForwardAscii(s, 0, n);
      assert s[n..n + |text|] == text;
    } else {
      BehindOne(op, n, text);
    }
  }

  /** Counted from the end, the text behind one letter is reached. */
  lemma BehindOne(op: CountOp, n: nat, text: seq<byte>)
    requires text != [] && !Pinned(op, n, text) && !op.Tab?
    ensures var s := Elsewhere(op, n, text); Occurs(s, Backward(s, |s|, n), text)
  {
    hide Forward, Backward;
    var s := Elsewhere(op, n, text);
    var pad := n - Leads(text, 0, |text|);
    var w := 1 + |text|;
    assert s[1..w] == text;
    LeadsOfSlice(s, 1, text, |text|);
    LeadsOfPad(s, w, pad);
    LeadsSplit(s, 1, w, |s|);
    assert s[1..w][0] == s[1];
    BackwardStops(s, |s|, n, 1);
  }

  lemma {:induction false} LeadsOfPad(s: seq<byte>, from: nat, m: nat)
    requires from + m <= |s| && forall k :: from <= k < from + m ==> !Continuation(s[k])
    ensures Leads(s, from, from + m) == m
    decreases m
  {
    if m > 0 { LeadsOfPad(s, from, m - 1); }
  }

  // ----- Code that tabulates to a literal -----

  predicate Tabulates(op: CountOp) { op.Tab? || op.RTab? }

  /** The tabulation, the literal, and the end of the match. */
  function Tabbed(op: CountOp, n: nat, text: seq<byte>): (s: seq<byte>)
    ensures |s| == 15 + |text|
  {
    [CountOpcode(op)] + Enc32(n) + ([OP_LIT] + (Enc32(14) + Enc32(|text|) + text) + [OP_ACCEPT])
  }

  /** Code that begins with that. */
  ghost predicate BeginsTabbed(code: seq<byte>, op: CountOp, n: nat, text: seq<byte>) {
    Tabulates(op) && n < U32 && text != [] && |code| < U32 && At(code, 0, Tabbed(op, n, text))
  }

  lemma TabbedLayout(code: seq<byte>, op: CountOp, n: nat, text: seq<byte>)
    requires BeginsTabbed(code, op, n, text)
    ensures 15 + |text| <= |code| && code[0] == CountOpcode(op) && U32At(code, 1) == n && code[5] == OP_LIT
    ensures U32At(code, 6) == 14 && U32At(code, 10) == |text|
    ensures code[14..14 + |text|] == text && code[14 + |text|] == OP_ACCEPT
  {
    hide Enc32, U32At, Low32;
    var body := Enc32(14) + Enc32(|text|) + text;
    var rest := [OP_LIT] + body + [OP_ACCEPT];
    AtConcat(code, 0, [CountOpcode(op)] + Enc32(n), rest);
    AtConcat(code, 0, [CountOpcode(op)], Enc32(n));
    AtByte(code, 0, [CountOpcode(op)], 0);
    Decode32(code, 1, n);
    AtConcat(code, 5, [OP_LIT] + body, [OP_ACCEPT]);
    AtConcat(code, 5, [OP_LIT], body);
    AtByte(code, 5, [OP_LIT], 0);
    AtByte(code, 14 + |text|, [OP_ACCEPT], 0);
    PayloadLayout(code, 6, 14, text);
    Fits32(n);
    Fits32(14);
    Fits32(|text|);
  }

  lemma TabbedDecodes(env: Env, op: CountOp, n: nat, text: seq<byte>)
    requires BeginsTabbed(env.code, op, n, text)
    ensures 15 + |text| <= |env.code|
    ensures Decode(env, 0) == Do(Counted(op, n), 5) && Decode(env, 5) == Do(Text(text), 14 + |text|)
    ensures Decode(env, 14 + |text|) == Win
  {
    hide U32At, Tabbed, At;
    TabbedLayout(env.code, op, n, text);
    PositionDecodes(env, 0, op);
    RootDecodes(env, 5);
  }

  lemma TabbedLeading(code: seq<byte>, op: CountOp, n: nat, text: seq<byte>)
    requires BeginsTabbed(code, op, n, text)
    ensures var p := Leading(code); p != [] && p <= text
  {
    hide U32At, Tabbed, At;
    TabbedLayout(code, op, n, text);
    assert RootAt(code, 5) == 5;
    assert RootAt(code, 0) == 5;
    var m := if |text| < MAX_PREFIX then |text| else MAX_PREFIX;
    PrefixOfSlice(code, 14, 14 + |text|, m);
    assert text[..m] <= text;
  }

  lemma PrefixOfSlice(s: seq<byte>, a: nat, b: nat, m: nat)
    requires a + m <= b <= |s|
    ensures s[a..a + m] == s[a..b][..m]
  {
  }

  lemma TabStep(s: seq<byte>, op: CountOp, n: nat)
    requires Tabulates(op)
    ensures var t := Target(op, n, s);
      PrimStep(s, Counted(op, n), Fresh(0)) == if op.Tab? && t >= |s| && n > 0 then None else Some(Fresh(0).(pos := t))
  {
    hide Forward, Backward;
  }

  /** A run from the start accepts exactly when the literal is where the tabulation leads. */
  lemma TabbedRuns(env: Env, op: CountOp, n: nat, text: seq<byte>, f: nat)
    requires BeginsTabbed(env.code, op, n, text)
    ensures var t := Target(op, n, env.subject);
      var r := Eval(env, 0, Fresh(0), f);
      && (r.Decided? && r.v.Accepted? ==> Occurs(env.subject, t, text))
      && (Occurs(env.subject, t, text) && f >= 3 ==> r == Decided(Accepted(Fresh(0).(pos := t + |text|))))
  {
    hide Tabbed, Decode, PrimStep, Target, At;
    var s := env.subject;
    var t := Target(op, n, s);
    TabbedDecodes(env, op, n, text);
    TabStep(s, op, n);
    var there := Fresh(0).(pos := t);
    TextOccurs(s, text, there);
    if f >= 2 && PrimStep(s, Counted(op, n), Fresh(0)).Some? {
      assert Eval(env, 0, Fresh(0), f) == Eval(env, 5, there, f - 1);
      if Occurs(s, t, text) && f >= 3 {
        var won := there.(pos := t + |text|);
        assert Eval(env, 14 + |text|, won, f - 2) == Decided(Accepted(won));
      }
    }
  }

  lemma FirstOfOccurrence(s: seq<byte>, p: seq<byte>)
    requires p != []
    ensures Occurs(s, 0, p) ==> s != [] && s[0] == p[0]
  {
    if Occurs(s, 0, p) { assert s[0..|p|][0] == s[0]; }
  }

  /** Behind a tabulation the leading literal begins every match exactly when it is pinned. */
  lemma TabPrefixExact(code: seq<byte>, op: CountOp, n: nat, text: seq<byte>, classes: seq<CharClass>)
    requires BeginsTabbed(code, op, n, text)
    ensures LeadsMatches(code, classes, Leading(code)) <==> Pinned(op, n, text)
  {
    hide Eval, BeginsTabbed, Leading, Occurs, Target, Pinned;
    TabbedText(code, op, n, text);
    TabbedLeading(code, op, n, text);
    if Pinned(op, n, text) {
      forall s: seq<byte>, f: nat, end: State | Eval(Env(code, classes, s), 0, Fresh(0), f) == Decided(Accepted(end))
        ensures Occurs(s, 0, Leading(code))
      {
        TabbedRuns(Env(code, classes, s), op, n, text, f);
        PinnedStays(op, n, text, s);
        PrefixOccurs(s, 0, text, Leading(code));
      }
    } else {
      var s := Elsewhere(op, n, text);
      ElsewhereReached(op, n, text);
      TabbedRuns(Env(code, classes, s), op, n, text, 3);
      FirstOfOccurrence(s, Leading(code));
    }
  }

  lemma TabbedText(code: seq<byte>, op: CountOp, n: nat, text: seq<byte>)
    requires BeginsTabbed(code, op, n, text)
    ensures text != []
  {
  }
}
