/** What a set string denotes: codepoints and `X-Y` ranges, written as UTF-8, are read back one by one. */
module SetStrings {
  import opened Wrappers
  import opened Bytes
  import opened Utf8
  import opened Ranges
  import opened CharClasses
  import opened TextFunctions
  import opened Utf8Text

  /** An entry of a set string. */
  datatype Entry = One(cp: nat) | Span(lo: nat, hi: nat)

  predicate Sensible(e: Entry) {
    match e
    case One(cp) => Scalar(cp)
    case Span(lo, hi) => Scalar(lo) && Scalar(hi) && lo < hi
  }

  predicate AllSensible(es: seq<Entry>) { forall k :: 0 <= k < |es| ==> Sensible(es[k]) }

  const MINUS: seq<byte> := [0x2D]

  function Written(e: Entry): seq<byte> {
    match e
    case One(cp) => EncodeUtf8(cp)
    case Span(lo, hi) => EncodeUtf8(lo) + MINUS + EncodeUtf8(hi)
  }

  function WrittenAll(es: seq<Entry>): seq<byte> {
    if es == [] then [] else Written(es[0]) + WrittenAll(es[1..])
  }

  function RangeOf(e: Entry): Range {
    match e
    case One(cp) => Range(cp, cp)
    case Span(lo, hi) => Range(lo, hi)
  }

  function RangesOf(es: seq<Entry>): (rs: seq<Range>)
    ensures |rs| == |es|
  {
    seq(|es|, k requires 0 <= k < |es| => RangeOf(es[k]))
  }

  /** The first two codepoints that are written. */
  function FirstCp(es: seq<Entry>): Option<nat> {
    if es == [] then None else Some(RangeOf(es[0]).lo)
  }

  function SecondCp(es: seq<Entry>): Option<nat> {
    if es == [] then None else if es[0].Span? then Some(DASH) else FirstCp(es[1..])
  }

  /** A codepoint is taken for the lower end of a range when a dash and a larger codepoint are written behind it. */
  predicate TakenForRange(cp: nat, rest: seq<Entry>) {
    FirstCp(rest) == Some(DASH) && SecondCp(rest).Some? && SecondCp(rest).value > cp
  }

  predicate Unambiguous(es: seq<Entry>) {
    es == [] || ((es[0].One? ==> !TakenForRange(es[0].cp, es[1..])) && Unambiguous(es[1..]))
  }

  // ----- Reading one entry -----

  lemma DashPeeks(s: seq<byte>, p: nat, rest: seq<byte>)
    requires p <= |s| && s[p..] == MINUS + rest
    ensures Peek(s, p) == Some(Peeked(DASH, 1)) && p + 1 <= |s| && s[p + 1..] == rest
  {
    PeekAt(s, p, DASH, rest);
  }

  /** What stands behind position `p`: entries, then bytes that do not decode. */
  ghost predicate Goes(s: seq<byte>, p: nat, es: seq<Entry>, tail: seq<byte>) {
    p <= |s| && AllSensible(es) && Peek(tail, 0).None? && s[p..] == WrittenAll(es) + tail
  }

  lemma OneLaid(es: seq<Entry>, tail: seq<byte>)
    requires es != [] && es[0].One?
    ensures WrittenAll(es) + tail == EncodeUtf8(es[0].cp) + (WrittenAll(es[1..]) + tail)
  {
    hide EncodeUtf8;
  }

  lemma Regroup4(a: seq<byte>, b: seq<byte>, c: seq<byte>, d: seq<byte>, e: seq<byte>)
    ensures a + b + c + d + e == a + (b + (c + (d + e)))
  {
  }

  lemma SpanLaid(es: seq<Entry>, tail: seq<byte>)
    requires es != [] && es[0].Span?
    ensures WrittenAll(es) + tail
         == EncodeUtf8(es[0].lo) + (MINUS + (EncodeUtf8(es[0].hi) + (WrittenAll(es[1..]) + tail)))
  {
    hide EncodeUtf8;
    Regroup4(EncodeUtf8(es[0].lo), MINUS, EncodeUtf8(es[0].hi), WrittenAll(es[1..]), tail);
  }

  lemma FirstPeeked(s: seq<byte>, p: nat, es: seq<Entry>, tail: seq<byte>)
    requires Goes(s, p, es, tail)
    ensures FirstCp(es).None? ==> Peek(s, p).None?
    ensures FirstCp(es).Some? ==>
      Scalar(FirstCp(es).value) && Peek(s, p) == Some(Peeked(FirstCp(es).value, |EncodeUtf8(FirstCp(es).value)|))
  {
    hide Peek, EncodeUtf8, Scalar, WrittenAll;
    if es == [] {
      NothingWritten(tail);
      PeekLater(s, p);
    } else {
      var e, rest := es[0], WrittenAll(es[1..]) + tail;
      assert Sensible(e);
      match e
      case One(cp) =>
        OneLaid(es, tail);
        PeekAt(s, p, cp, rest);
      case Span(lo, hi) =>
        SpanLaid(es, tail);
        PeekAt(s, p, lo, MINUS + (EncodeUtf8(hi) + rest));
    }
  }

  lemma NothingWritten(tail: seq<byte>)
    ensures WrittenAll([]) + tail == tail
  {
  }

  lemma GoesOn(s: seq<byte>, p: nat, es: seq<Entry>, tail: seq<byte>)
    requires Goes(s, p, es, tail) && es != []
    ensures Goes(s, p + |Written(es[0])|, es[1..], tail)
  {
    hide Peek, Written, Sensible;
    var n := |Written(es[0])|;
    assert s[p..] == Written(es[0]) + (WrittenAll(es[1..]) + tail);
    assert s[p..][n..] == s[p + n..];
  }

  /** Behind a dash at `p` that is the first codepoint written there stands the second. */
  lemma SecondPeeked(s: seq<byte>, p: nat, es: seq<Entry>, tail: seq<byte>)
    requires Goes(s, p, es, tail) && FirstCp(es) == Some(DASH)
    ensures Peek(s, p) == Some(Peeked(DASH, 1))
    ensures SecondCp(es).None? ==> Peek(s, p + 1).None?
    ensures SecondCp(es).Some? ==> Peek(s, p + 1).Some? && Peek(s, p + 1).value.cp == SecondCp(es).value
  {
    hide Peek, Goes;
    FirstPeeked(s, p, es, tail);
    DashIsMinus();
    if es[0].One? {
      GoesOn(s, p, es, tail);
      FirstPeeked(s, p + 1, es[1..], tail);
    } else {
      SpanSecond(s, p, es, tail);
    }
  }

  lemma DashIsMinus()
    ensures EncodeUtf8(DASH) == MINUS
  {
  }

  lemma SpanSecond(s: seq<byte>, p: nat, es: seq<Entry>, tail: seq<byte>)
    requires Goes(s, p, es, tail) && es != [] && es[0].Span? && es[0].lo == DASH
    ensures Peek(s, p + 1) == Some(Peeked(DASH, 1))
  {
    hide Peek, EncodeUtf8, AllSensible, WrittenAll;
    var rest := EncodeUtf8(es[0].hi) + (WrittenAll(es[1..]) + tail);
    DashIsMinus();
    SpanLaid(es, tail);
    DashPeeks(s, p, MINUS + rest);
    DashPeeks(s, p + 1, rest);
  }

  lemma SpanReads(s: seq<byte>, p: nat, es: seq<Entry>, tail: seq<byte>)
    requires Goes(s, p, es, tail) && es != [] && es[0].Span?
    ensures NextItem(s, p) == Some(Item(RangeOf(es[0]), |Written(es[0])|))
  {
    hide Peek, EncodeUtf8, Scalar, WrittenAll;
    var lo, hi, rest := es[0].lo, es[0].hi, WrittenAll(es[1..]) + tail;
    assert Sensible(es[0]);
    SpanLaid(es, tail);
    var n := |EncodeUtf8(lo)|;
    PeekAt(s, p, lo, MINUS + (EncodeUtf8(hi) + rest));
    DashPeeks(s, p + n, EncodeUtf8(hi) + rest);
    PeekAt(s, p + n + 1, hi, rest);
  }

  /** A single codepoint is read as such exactly when it is not taken for the lower end of a range. */
  lemma OneReads(s: seq<byte>, p: nat, es: seq<Entry>, tail: seq<byte>)
    requires Goes(s, p, es, tail) && es != [] && es[0].One?
    ensures NextItem(s, p).Some?
    ensures !TakenForRange(es[0].cp, es[1..]) ==> NextItem(s, p) == Some(Item(RangeOf(es[0]), |Written(es[0])|))
    ensures TakenForRange(es[0].cp, es[1..]) ==> NextItem(s, p).value.range != RangeOf(es[0])
  {
    hide Peek, EncodeUtf8, Goes, SecondCp;
    var cp, rest := es[0].cp, es[1..];
    var q := p + |EncodeUtf8(cp)|;
    FirstPeeked(s, p, es, tail);
    GoesOn(s, p, es, tail);
    FirstPeeked(s, q, rest, tail);
    if FirstCp(rest) == Some(DASH) { SecondPeeked(s, q, rest, tail); }
  }

  // ----- Reading a whole set string -----

  lemma RangesCons(es: seq<Entry>)
    requires es != []
    ensures RangesOf(es) == [RangeOf(es[0])] + RangesOf(es[1..])
  {
  }

  lemma {:induction false} ParsesEntries(s: seq<byte>, p: nat, es: seq<Entry>, tail: seq<byte>)
    requires Goes(s, p, es, tail)
    ensures ParseSet(s, p) == RangesOf(es) <==> Unambiguous(es)
    decreases |es|
  {
    hide Peek, Goes, NextItem, RangesOf, TakenForRange, Written;
    assert p <= |s| by { Within(s, p, es, tail); }
    if es == [] {
      NothingReads(s, p, tail);
    } else {
      var q := p + |Written(es[0])|;
      RangesCons(es);
      GoesOn(s, p, es, tail);
      assert q <= |s| by { Within(s, q, es[1..], tail); }
      ParsesEntries(s, q, es[1..], tail);
      if es[0].Span? { SpanReads(s, p, es, tail); } else { OneReads(s, p, es, tail); }
      if es[0].One? && TakenForRange(es[0].cp, es[1..]) {
        assert ParseSet(s, p)[0] != RangesOf(es)[0];
      } else {
        assert ParseSet(s, p) == [RangeOf(es[0])] + ParseSet(s, q);
        assert ParseSet(s, p)[1..] == ParseSet(s, q) && RangesOf(es)[1..] == RangesOf(es[1..]);
      }
    }
  }

  lemma Within(s: seq<byte>, p: nat, es: seq<Entry>, tail: seq<byte>)
    requires Goes(s, p, es, tail)
    ensures p <= |s|
  {
  }

  lemma NothingReads(s: seq<byte>, p: nat, tail: seq<byte>)
    requires Goes(s, p, [], tail)
    ensures ParseSet(s, p) == RangesOf([])
  {
    FirstPeeked(s, p, [], tail);
  }

  /** A set string lists exactly the ranges that were written, and the bytes behind them that do not decode end the
      list, exactly when no single codepoint is followed by a dash and a larger codepoint. */
  lemma WrittenReadsBack(es: seq<Entry>, tail: seq<byte>)
    requires AllSensible(es) && Peek(tail, 0).None?
    ensures ParseSet(WrittenAll(es) + tail, 0) == RangesOf(es) <==> Unambiguous(es)
  {
    hide Peek, ParseSet, RangesOf, Unambiguous, AllSensible;
    var s := WrittenAll(es) + tail;
    assert s[0..] == s;
    ParsesEntries(s, 0, es, tail);
  }

  predicate Listed(es: seq<Entry>, c: nat) {
    exists k :: 0 <= k < |es| && match es[k] case One(cp) => c == cp case Span(lo, hi) => lo <= c <= hi
  }

  lemma InRanges(es: seq<Entry>, c: nat)
    ensures InSet(RangesOf(es), c) <==> Listed(es, c)
  {
    var rs := RangesOf(es);
    if InSet(rs, c) {
      var k :| 0 <= k < |rs| && Covers(rs[k], c);
      assert rs[k] == RangeOf(es[k]);
    }
    if Listed(es, c) {
      var k :| 0 <= k < |es| && match es[k] case One(cp) => c == cp case Span(lo, hi) => lo <= c <= hi;
      assert Covers(rs[k], c);
    }
  }

  /** The class compiled from a set string has exactly the codepoints that are listed or lie in a listed range. */
  lemma ClassHasListed(es: seq<Entry>, c: nat)
    requires AllSensible(es) && Unambiguous(es)
    ensures InSet(ClassOf(WrittenAll(es)).ranges, c) <==> Listed(es, c)
  {
    hide Listed, RangesOf, ParseSet, Unambiguous, AllSensible;
    WrittenReadsBack(es, []);
    assert WrittenAll(es) + [] == WrittenAll(es);
    InRanges(es, c);
    assert SameSet(ClassOf(WrittenAll(es)).ranges, ParseSet(WrittenAll(es), 0));
  }

  /** `lo-hi` is the set of the codepoints from `lo` to `hi`. */
  lemma SpanIsInterval(lo: nat, hi: nat, c: nat)
    requires Scalar(lo) && Scalar(hi) && lo < hi
    ensures InSet(ParseSet(EncodeUtf8(lo) + MINUS + EncodeUtf8(hi), 0), c) <==> lo <= c <= hi
  {
    hide ParseSet, EncodeUtf8, Scalar;
    var es := [Span(lo, hi)];
    assert WrittenAll(es) + [] == EncodeUtf8(lo) + MINUS + EncodeUtf8(hi) by { assert es[1..] == []; }
    assert Sensible(es[0]) && Unambiguous(es) by { assert es[1..] == []; }
    WrittenReadsBack(es, []);
    InRanges(es, c);
    assert Listed(es, c) <==> lo <= c <= hi by { assert es[0] == Span(lo, hi); }
  }
}
