/** Where the counting operations leave the cursor: LEN in units of the text, POS, RPOS, TAB and RTAB in bytes that
    begin a character. */
module CountCursors {
  import opened Wrappers
  import opened Bytes
  import opened Layout
  import opened Utf8
  import opened Bytecode
  import opened Semantics
  import T = TextFunctions

  // ----- LEN -----

  /** A unit that decodes: complete, and led by a byte that can lead. */
  predicate Decodes(u: seq<byte>) {
    T.OneUnit(u) && (u[0] < 0x80 || 0xC0 <= u[0] < 0xF8)
  }

  lemma PeeksUnit(s: seq<byte>, p: nat)
    requires p < |s|
    ensures var u := s[p..p + T.Width(s, p)];
      (Peek(s, p).Some? <==> Decodes(u)) && (Peek(s, p).Some? ==> Peek(s, p).value.width == |u|)
  {
    hide Tail6;
  }

  lemma TakeCons(u: seq<byte>, us: seq<seq<byte>>, n: nat)
    requires 0 < n <= |us| + 1
    ensures ([u] + us)[..n] == [u] + us[..n - 1]
    ensures |Flatten(([u] + us)[..n])| == |u| + |Flatten(us[..n - 1])|
  {
    T.FlattenCons(u, us[..n - 1]);
  }

  predicate FirstDecode(us: seq<seq<byte>>, n: nat) { n <= |us| && forall k :: 0 <= k < n ==> Decodes(us[k]) }

  /** LEN(n) succeeds exactly when the next `n` units of the text decode, and ends right behind them. */
  lemma {:induction false} LenTakesUnits(s: seq<byte>, pos: nat, n: nat)
    requires pos <= |s|
    ensures var us := T.Units(s[pos..]);
      SkipCodepoints(s, pos, n) == if FirstDecode(us, n) then Some(pos + |Flatten(us[..n])|) else None
    decreases n
  {
    hide Peek, Decodes, T.Units, T.Width, Flatten;
    var us := T.Units(s[pos..]);
    if n == 0 {
      NothingFlat(us);
    } else if pos == |s| {
      assert s[pos..] == [];
      T.NoUnits();
      assert Peek(s, pos).None? by { NoPeek(s); }
    } else {
      var w := T.Width(s, pos);
      T.UnitAt(s, pos);
      PeeksUnit(s, pos);
      var u, rest := s[pos..pos + w], T.Units(s[pos + w..]);
      FirstCons(u, rest, n);
      if Decodes(u) {
        LenTakesUnits(s, pos + w, n - 1);
        if n <= |rest| + 1 { TakeCons(u, rest, n); }
      }
    }
  }

  lemma NothingFlat(us: seq<seq<byte>>)
    ensures us[..0] == [] && Flatten(us[..0]) == []
  {
  }

  lemma NoPeek(s: seq<byte>)
    ensures Peek(s, |s|).None?
  {
  }

  lemma FirstCons(u: seq<byte>, us: seq<seq<byte>>, n: nat)
    requires n > 0
    ensures FirstDecode([u] + us, n) <==> Decodes(u) && FirstDecode(us, n - 1)
  {
    hide Decodes;
    if FirstDecode([u] + us, n) {
      forall k | 0 <= k < n - 1 ensures Decodes(us[k]) { assert ([u] + us)[k + 1] == us[k]; }
      assert ([u] + us)[0] == u;
    }
  }

  // ----- Characters by the bytes that begin them -----

  /** Bytes in `[a, b)` that begin a character. */
  function Begun(s: seq<byte>, a: nat, b: nat): nat
    requires b <= |s|
    decreases if a <= b then b - a else 0
  {
    if a >= b then 0 else (if Continuation(s[a]) then 0 else 1) + Begun(s, a + 1, b)
  }

  lemma {:induction false} BegunSplits(s: seq<byte>, a: nat, b: nat, c: nat)
    requires a <= b <= c <= |s|
    ensures Begun(s, a, c) == Begun(s, a, b) + Begun(s, b, c)
    decreases b - a
  {
    if a < b { BegunSplits(s, a + 1, b, c); }
  }

  lemma {:induction false} SkipsNoBegin(s: seq<byte>, a: nat)
    requires a <= |s|
    ensures var e := SkipContinuation(s, a); Begun(s, a, e) == 0 && (e == |s| || !Continuation(s[e]))
    decreases |s| - a
  {
    if a < |s| && Continuation(s[a]) { SkipsNoBegin(s, a + 1); }
  }

  /** Going `n` characters forward from `from`, which counts as one, ends in front of the n-th that begins behind it,
      or at the end of the subject when fewer do. */
  lemma {:induction false} ForwardPasses(s: seq<byte>, from: nat, n: nat)
    requires from < |s| && n > 0
    ensures var end := Forward(s, from, n);
      && from < end <= |s| && Begun(s, from + 1, end) < n
      && (end < |s| ==> !Continuation(s[end]) && Begun(s, from + 1, end) == n - 1)
    decreases n
  {
    hide Continuation;
    var e := SkipContinuation(s, from + 1);
    SkipsNoBegin(s, from + 1);
    if n > 1 && e < |s| {
      ForwardPasses(s, e, n - 1);
      var end := Forward(s, e, n - 1);
      BegunSplits(s, from + 1, e, end);
    }
  }

  lemma {:induction false} BacksNoBegin(s: seq<byte>, p: nat)
    requires p < |s|
    ensures var e := BackContinuation(s, p); Begun(s, e + 1, p + 1) == 0 && (e == 0 || !Continuation(s[e]))
    decreases p
  {
    hide Continuation;
    if 0 < p && Continuation(s[p]) {
      BacksNoBegin(s, p - 1);
      BegunSplits(s, BackContinuation(s, p - 1) + 1, p, p + 1);
    }
  }

  /** Going `n` characters back ends at the n-th beginning in front of `from`, or at the start of the subject when
      there are fewer. */
  lemma {:induction false} BackwardPasses(s: seq<byte>, from: nat, n: nat)
    requires 0 < from <= |s| && n > 0
    ensures var start := Backward(s, from, n);
      && start < from && Begun(s, start + 1, from) < n
      && (start > 0 ==> !Continuation(s[start]) && Begun(s, start + 1, from) == n - 1)
    decreases n
  {
    hide Continuation, BackContinuation;
    var e := BackContinuation(s, from - 1);
    BacksNoBegin(s, from - 1);
    if n > 1 && e > 0 {
      BackwardPasses(s, e, n - 1);
      var start := Backward(s, e, n - 1);
      BegunSplits(s, start + 1, e, from);
      BegunSplits(s, e, e + 1, from);
    }
  }

  // ----- POS, RPOS, TAB and RTAB -----

  /** Offset `p` has `n` characters in front of it; the first byte counts as one, and the end of the subject stands
      in where there are fewer. */
  predicate After(s: seq<byte>, n: nat, p: nat) {
    if n == 0 || s == [] then p == 0
    else
      && 0 < p <= |s| && Begun(s, 1, p) < n
      && (p < |s| ==> !Continuation(s[p]) && Begun(s, 1, p) == n - 1)
  }

  /** Offset `p` has `n` characters behind it; the start of the subject stands in where there are fewer. */
  predicate Before(s: seq<byte>, n: nat, p: nat) {
    if n == 0 || s == [] then p == |s|
    else
      && p < |s| && Begun(s, p + 1, |s|) < n
      && (p > 0 ==> !Continuation(s[p]) && Begun(s, p + 1, |s|) == n - 1)
  }

  lemma MoreBefore(s: seq<byte>, p: nat, q: nat)
    requires 1 <= p < q <= |s| && !Continuation(s[p])
    ensures Begun(s, 1, p) < Begun(s, 1, q)
  {
    hide Continuation;
    BegunSplits(s, 1, p, q);
  }

  lemma MoreBehind(s: seq<byte>, p: nat, q: nat)
    requires p < q < |s| && !Continuation(s[q])
    ensures Begun(s, p + 1, |s|) > Begun(s, q + 1, |s|)
  {
    hide Continuation;
    BegunSplits(s, p + 1, q, |s|);
  }

  /** There is only one such offset. */
  lemma AfterOnce(s: seq<byte>, n: nat, p: nat, q: nat)
    requires After(s, n, p) && After(s, n, q)
    ensures p == q
  {
    hide Continuation, Begun;
    if n > 0 && s != [] {
      if p < q { MoreBefore(s, p, q); }
      if q < p { MoreBefore(s, q, p); }
    }
  }

  lemma BeforeOnce(s: seq<byte>, n: nat, p: nat, q: nat)
    requires Before(s, n, p) && Before(s, n, q)
    ensures p == q
  {
    hide Continuation, Begun;
    if n > 0 && s != [] {
      if p < q { MoreBehind(s, p, q); }
      if q < p { MoreBehind(s, q, p); }
    }
  }

  lemma ForwardIsAfter(s: seq<byte>, n: nat, p: nat)
    ensures p == Forward(s, 0, n) <==> After(s, n, p)
  {
    hide Begun, Continuation;
    if n > 0 && s != [] { ForwardPasses(s, 0, n); }
    var end := Forward(s, 0, n);
    if After(s, n, p) { AfterOnce(s, n, p, end); }
  }

  lemma BackwardIsBefore(s: seq<byte>, n: nat, p: nat)
    ensures p == Backward(s, |s|, n) <==> Before(s, n, p)
  {
    hide Begun, Continuation;
    if n > 0 && s != [] { BackwardPasses(s, |s|, n); }
    var start := Backward(s, |s|, n);
    if Before(s, n, p) { BeforeOnce(s, n, p, start); }
  }

  /** POS and RPOS hold at one offset; TAB and RTAB move to it unless it lies in front of the cursor, and TAB fails at
      the end of the subject. */
  lemma CountStepMeans(s: seq<byte>, n: nat, pos: nat, q: nat)
    ensures CountStep(s, Pos, n, pos) == Some(q) <==> q == pos && After(s, n, pos)
    ensures CountStep(s, RPos, n, pos) == Some(q) <==> q == pos && Before(s, n, pos)
    ensures CountStep(s, Tab, n, pos) == Some(q) <==> pos <= q && After(s, n, q) && (n > 0 ==> q < |s|)
    ensures CountStep(s, RTab, n, pos) == Some(q) <==> pos <= q && Before(s, n, q)
  {
    hide After, Before, Forward, Backward;
    ForwardIsAfter(s, n, pos);
    ForwardIsAfter(s, n, q);
    BackwardIsBefore(s, n, pos);
    BackwardIsBefore(s, n, q);
  }
}
