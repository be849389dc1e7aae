/** Where the class operations leave the cursor, said without their run loops: over the boundaries of the text and
    the units that lie between them. */
module ClassCursors {
  import opened Wrappers
  import opened Bytes
  import opened Utf8
  import opened Ranges
  import opened Bytecode
  import opened Semantics
  import opened Outcomes

  predicate ByBytes(cls: Option<seq<Range>>) { cls.Some? && IsAscii(cls.value) }

  /** Bytes from one boundary of the text to the next: every byte is one for an ASCII class, every codepoint for
      another; a byte that does not decode stands alone. */
  function Stride(cls: Option<seq<Range>>, s: seq<byte>, p: nat): (w: nat)
    requires p < |s|
    ensures 1 <= w && p + w <= |s|
  {
    if ByBytes(cls) then 1
    else
      match Peek(s, p)
      case None => 1
      case Some(c) => c.width
  }

  /** The unit at `p` is in the class. */
  predicate Member(cls: Option<seq<Range>>, s: seq<byte>, p: nat) {
    && p < |s| && cls.Some?
    && if ByBytes(cls) then InSet(cls.value, s[p]) else Peek(s, p).Some? && InSet(cls.value, Peek(s, p).value.cp)
  }

  predicate Readable(cls: Option<seq<Range>>, s: seq<byte>, p: nat) { p < |s| && (ByBytes(cls) || Peek(s, p).Some?) }

  /** The delimiters: members of the class, and bytes that do not decode. */
  predicate Delimits(cls: Option<seq<Range>>, s: seq<byte>, p: nat) {
    p < |s| && (Member(cls, s, p) || !Readable(cls, s, p))
  }

  /** `q` is a boundary of the text behind `p`. */
  predicate Boundary(cls: Option<seq<Range>>, s: seq<byte>, p: nat, q: nat)
    decreases |s| - p
  {
    p == q || (p < |s| && Boundary(cls, s, p + Stride(cls, s, p), q))
  }

  /** BREAKX may stop here: at a delimiter, or at the end of the text. */
  predicate Stop(cls: Option<seq<Range>>, s: seq<byte>, q: nat) { q == |s| || Delimits(cls, s, q) }

  predicate StopBehind(cls: Option<seq<Range>>, s: seq<byte>, p: nat, q: nat) { Boundary(cls, s, p, q) && Stop(cls, s, q) }

  lemma {:induction false} BoundaryInside(cls: Option<seq<Range>>, s: seq<byte>, p: nat, q: nat)
    requires p <= |s| && Boundary(cls, s, p, q)
    ensures p <= q <= |s|
    decreases |s| - p
  {
    hide Stride;
    if p != q { BoundaryInside(cls, s, p + Stride(cls, s, p), q); }
  }

  /** BREAK stops at the first of them. */
  lemma {:induction false} BreakStopsFirst(cls: Option<seq<Range>>, s: seq<byte>, p: nat)
    requires p <= |s|
    ensures var end := RunEnd(cls, s, p, false);
      && StopBehind(cls, s, p, end)
      && forall q :: StopBehind(cls, s, p, q) <==> StopBehind(cls, s, end, q)
    decreases |s| - p
  {
    hide InSet, IsAscii, Peek;
    if p < |s| && !Delimits(cls, s, p) {
      var n := p + Stride(cls, s, p);
      assert RunEnd(cls, s, p, false) == RunEnd(cls, s, n, false) by { RunsOn(cls, s, p); }
      BreakStopsFirst(cls, s, n);
      forall q ensures StopBehind(cls, s, p, q) <==> StopBehind(cls, s, n, q) {}
    } else {
      StandsStill(cls, s, p);
    }
  }

  lemma RunsOn(cls: Option<seq<Range>>, s: seq<byte>, p: nat)
    requires p < |s| && !Delimits(cls, s, p)
    ensures RunEnd(cls, s, p, false) == RunEnd(cls, s, p + Stride(cls, s, p), false)
  {
    hide InSet, IsAscii, Peek;
  }

  lemma StandsStill(cls: Option<seq<Range>>, s: seq<byte>, p: nat)
    requires p == |s| || Delimits(cls, s, p)
    ensures RunEnd(cls, s, p, false) == p
  {
    hide InSet, IsAscii;
  }

  /** The retry resumes at the next boundary behind the delimiter. */
  lemma RetriesBehind(cls: Option<seq<Range>>, s: seq<byte>, p: nat)
    requires Delimits(cls, s, p)
    ensures PastDelimiter(s, p) == Some(p + Stride(cls, s, p))
  {
    if ByBytes(cls) {
      var i :| 0 <= i < |cls.value| && Covers(cls.value[i], s[p]);
      assert s[p] < 0x80;
    }
  }

  ghost predicate Offered(sts: seq<State>, q: nat) { exists k :: 0 <= k < |sts| && sts[k].pos == q }

  /** One state after the other, each with its cursor further on and everything else kept. */
  predicate InOrder(sts: seq<State>, st: State) {
    && (forall k :: 0 <= k < |sts| ==> sts[k] == st.(pos := sts[k].pos) && st.pos <= sts[k].pos)
    && (forall j, k :: 0 <= j < k < |sts| ==> sts[j].pos < sts[k].pos)
  }

  lemma OfferedCons(st: State, sts: seq<State>, q: nat)
    ensures Offered([st] + sts, q) <==> q == st.pos || Offered(sts, q)
  {
    if Offered(sts, q) {
      var k :| 0 <= k < |sts| && sts[k].pos == q;
      assert ([st] + sts)[k + 1] == sts[k];
    }
    if q == st.pos { assert ([st] + sts)[0] == st; }
  }

  lemma OrderCons(st: State, end: nat, p: nat, rest: seq<State>)
    requires st.pos <= end < p && InOrder(rest, st.(pos := p))
    ensures InOrder([st.(pos := end)] + rest, st)
  {
  }

  /** BREAKX offers, in increasing order, exactly the delimiters that lie at boundaries behind the cursor, and then the
      end of the text. */
  lemma {:induction false} BreakXOffers(s: seq<byte>, cls: Option<seq<Range>>, st: State)
    requires st.pos <= |s|
    ensures var sts := BreakXStates(s, cls, st);
      InOrder(sts, st) && forall q: nat :: Offered(sts, q) <==> StopBehind(cls, s, st.pos, q)
    decreases |s| - st.pos
  {
    hide RunEnd, PastDelimiter, Stride, Delimits, Offered, InOrder;
    var end := RunEnd(cls, s, st.pos, false);
    BreakStopsFirst(cls, s, st.pos);
    BoundaryInside(cls, s, st.pos, end);
    var one := st.(pos := end);
    if end == |s| {
      EndOnly(s, cls, st, end);
    } else {
      var p := end + Stride(cls, s, end);
      RetriesBehind(cls, s, end);
      var rest := BreakXStates(s, cls, st.(pos := p));
      assert BreakXStates(s, cls, st) == [one] + rest by { BreakXUnfolds(s, cls, st, p); }
      BreakXOffers(s, cls, st.(pos := p));
      OrderCons(st, end, p, rest);
      forall q: nat ensures Offered([one] + rest, q) <==> StopBehind(cls, s, st.pos, q) {
        OfferedCons(one, rest, q);
        assert StopBehind(cls, s, end, q) <==> q == end || StopBehind(cls, s, p, q);
      }
    }
  }

  lemma BreakXUnfolds(s: seq<byte>, cls: Option<seq<Range>>, st: State, p: nat)
    requires st.pos <= |s| && PastDelimiter(s, RunEnd(cls, s, st.pos, false)) == Some(p)
    ensures BreakXStates(s, cls, st)
         == [st.(pos := RunEnd(cls, s, st.pos, false))] + BreakXStates(s, cls, st.(pos := p))
  {
    hide RunEnd, PastDelimiter;
    assert st.(pos := RunEnd(cls, s, st.pos, false)).(pos := p) == st.(pos := p);
  }

  lemma EndOnly(s: seq<byte>, cls: Option<seq<Range>>, st: State, end: nat)
    requires st.pos <= |s| && end == |s| == RunEnd(cls, s, st.pos, false)
    requires forall q :: StopBehind(cls, s, st.pos, q) <==> StopBehind(cls, s, end, q)
    ensures var sts := BreakXStates(s, cls, st);
      InOrder(sts, st) && forall q: nat :: Offered(sts, q) <==> StopBehind(cls, s, st.pos, q)
  {
    hide RunEnd;
    var sts := BreakXStates(s, cls, st);
    assert sts == [st.(pos := end)];
    forall q: nat ensures Offered(sts, q) <==> q == end {
      OfferedCons(st.(pos := end), [], q);
      assert [st.(pos := end)] + [] == sts;
    }
  }

  lemma {:induction false} EveryByte(rs: seq<Range>, s: seq<byte>, p: nat, q: nat)
    requires p <= |s| && IsAscii(rs)
    ensures Boundary(Some(rs), s, p, q) <==> p <= q <= |s|
    decreases |s| - p
  {
    hide IsAscii;
    if p < |s| { EveryByte(rs, s, p + 1, q); }
  }

  /** With an ASCII class these are the positions of its bytes. */
  lemma BreakXOffersBytes(s: seq<byte>, rs: seq<Range>, st: State)
    requires st.pos <= |s| && IsAscii(rs)
    ensures var sts := BreakXStates(s, Some(rs), st);
      InOrder(sts, st) && forall q: nat :: Offered(sts, q) <==> q == |s| || (st.pos <= q < |s| && InSet(rs, s[q]))
  {
    hide IsAscii, InSet, InOrder, Offered, Boundary;
    BreakXOffers(s, Some(rs), st);
    forall q: nat ensures StopBehind(Some(rs), s, st.pos, q) <==> q == |s| || (st.pos <= q < |s| && InSet(rs, s[q])) {
      EveryByte(rs, s, st.pos, q);
    }
  }

  // ----- SPAN, ANY and NOTANY -----

  /** Everything from `p` up to `end` is in the class, and what stands at `end` is not. */
  ghost predicate SpansTo(cls: Option<seq<Range>>, s: seq<byte>, p: nat, end: nat) {
    && Boundary(cls, s, p, end) && !Member(cls, s, end)
    && forall q: nat :: q < end && Boundary(cls, s, p, q) ==> Member(cls, s, q)
  }

  lemma {:induction false} RunSpans(cls: Option<seq<Range>>, s: seq<byte>, p: nat)
    requires p <= |s|
    ensures SpansTo(cls, s, p, RunEnd(cls, s, p, true))
    decreases |s| - p
  {
    hide InSet, IsAscii, Peek;
    if Member(cls, s, p) {
      var n := p + Stride(cls, s, p);
      assert RunEnd(cls, s, p, true) == RunEnd(cls, s, n, true) by { SpansOn(cls, s, p); }
      RunSpans(cls, s, n);
    } else {
      assert RunEnd(cls, s, p, true) == p by { SpansNothing(cls, s, p); }
      forall q: nat | q < p ensures !Boundary(cls, s, p, q) {
        if Boundary(cls, s, p, q) { BoundaryInside(cls, s, p, q); }
      }
    }
  }

  lemma SpansOn(cls: Option<seq<Range>>, s: seq<byte>, p: nat)
    requires Member(cls, s, p)
    ensures RunEnd(cls, s, p, true) == RunEnd(cls, s, p + Stride(cls, s, p), true)
  {
    hide InSet, IsAscii, Peek;
  }

  lemma SpansNothing(cls: Option<seq<Range>>, s: seq<byte>, p: nat)
    requires p <= |s| && !Member(cls, s, p)
    ensures RunEnd(cls, s, p, true) == p
  {
    hide InSet, IsAscii, Peek;
  }

  /** ANY and NOTANY take one unit, SPAN the longest stretch of members and at least one, BREAK stops at the first
      delimiter. */
  lemma ClassStepMeans(s: seq<byte>, op: ClassOp, cls: Option<seq<Range>>, p: nat)
    requires p <= |s|
    ensures op.Any? ==>
      ClassStep(s, op, cls, p) == if Member(cls, s, p) then Some(p + Stride(cls, s, p)) else None
    ensures op.NotAny? ==>
      ClassStep(s, op, cls, p)
      == if Readable(cls, s, p) && !Member(cls, s, p) then Some(p + Stride(cls, s, p)) else None
    ensures op.Span? ==> (ClassStep(s, op, cls, p).Some? <==> Member(cls, s, p))
    ensures op.Span? && Member(cls, s, p) ==> SpansTo(cls, s, p, ClassStep(s, op, cls, p).value)
    ensures op.Break? || op.BreakX? ==>
      ClassStep(s, op, cls, p).Some?
      && var end := ClassStep(s, op, cls, p).value;
         StopBehind(cls, s, p, end) && forall q :: StopBehind(cls, s, p, q) ==> end <= q
  {
    hide InSet, IsAscii, Peek;
    match op
    case Any =>
    case NotAny =>
    case Span =>
      RunSpans(cls, s, p);
      if Member(cls, s, p) { Progresses(cls, s, p); }
    case _ =>
      BreakStopsFirst(cls, s, p);
      var end := RunEnd(cls, s, p, false);
      forall q | StopBehind(cls, s, p, q) ensures end <= q { BoundaryInside(cls, s, end, q); }
  }

  lemma Progresses(cls: Option<seq<Range>>, s: seq<byte>, p: nat)
    requires Member(cls, s, p)
    ensures RunEnd(cls, s, p, true) > p
  {
    hide InSet, IsAscii, Peek;
    SpansOn(cls, s, p);
  }
}
