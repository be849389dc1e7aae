/** When replacing an alternation of two single characters by one character class keeps its
    meaning: the exact condition for one pair of arms, and preservation for whole patterns. */
module FusionMeaning {
  import opened Wrappers
  import opened Bytes
  import opened Utf8
  import opened Ranges
  import opened CharClasses
  import opened Bytecode
  import opened Semantics
  import opened Outcomes
  import opened CodeTree
  import opened CodeMeaning
  import opened FusionPass
  import opened FusedLayout

  // ----- One pair of arms -----

  /** Cursor after an arm, as the VM runs it. */
  function ArmStep(entries: seq<CharClass>, arm: Arm, s: seq<byte>, pos: nat): Option<nat> {
    match arm
    case LitArm(cp) => if pos < |s| && s[pos] == cp then Some(pos + 1) else None
    case AnyArm(id) => ClassStep(s, Any, ClassAt(entries, id), pos)
  }

  /** The alternation of two arms: the left one when it matches, else the right one. */
  function AltStep(entries: seq<CharClass>, x: Arm, y: Arm, s: seq<byte>, pos: nat): Option<nat> {
    var l := ArmStep(entries, x, s, pos);
    if l.Some? then l else ArmStep(entries, y, s, pos)
  }

  /** The fused ANY that replaces it. */
  function FusedStep(entries: seq<CharClass>, x: Arm, y: Arm, s: seq<byte>, pos: nat): Option<nat>
    requires Canonical(entries)
  {
    ClassStep(s, Any, Some(PairClass(entries, x, y).ranges), pos)
  }

  /** An arm whose class exists: any literal, and an ANY with an entry in the table. */
  predicate Resolved(entries: seq<CharClass>, arm: Arm) {
    arm.LitArm? || 1 <= arm.classId <= |entries|
  }

  predicate AsciiLiteral(arm: Arm) { arm.LitArm? ==> arm.cp < 0x80 }

  /** Arms the VM tests byte by byte: literals, and classes below 128. */
  predicate ByteTested(entries: seq<CharClass>, arm: Arm) {
    arm.LitArm? || IsAscii(ArmClass(entries, arm).ranges)
  }

  ghost predicate SubSet(a: seq<Range>, b: seq<Range>) {
    forall c: nat :: InSet(a, c) ==> InSet(b, c)
  }

  /** The exact condition under which fusing the pair changes nothing on any subject. */
  ghost predicate Harmless(entries: seq<CharClass>, x: Arm, y: Arm) {
    var cx, cy := ArmClass(entries, x).ranges, ArmClass(entries, y).ranges;
    && AsciiLiteral(x) && AsciiLiteral(y)
    && (Resolved(entries, x) || Resolved(entries, y))
    && (!Resolved(entries, x) ==> InSet(cy, 0))
    && (!Resolved(entries, y) ==> InSet(cx, 0))
    && (Resolved(entries, x) && Resolved(entries, y) ==>
          || ByteTested(entries, x) == ByteTested(entries, y)
          || (ByteTested(entries, x) && SubSet(cx, cy))
          || (ByteTested(entries, y) && SubSet(cy, cx)))
  }

  /** No codepoint below 128 is spelled with more than one byte anywhere in the subject. */
  ghost predicate NoOverlong(s: seq<byte>) {
    forall p: nat :: Peek(s, p).Some? && Peek(s, p).value.width > 1 ==> Peek(s, p).value.cp >= 0x80
  }

  /** Fusing the pair is safe on this subject. */
  ghost predicate SafeOn(entries: seq<CharClass>, x: Arm, y: Arm, s: seq<byte>) {
    || Harmless(entries, x, y)
    || (AsciiLiteral(x) && AsciiLiteral(y) && Resolved(entries, x) && Resolved(entries, y) && NoOverlong(s))
  }

  lemma AsciiByMembers(rs: seq<Range>)
    requires Proper(rs)
    ensures IsAscii(rs) <==> forall c: nat :: InSet(rs, c) ==> c < 0x80
  {
    if !IsAscii(rs) {
      var i :| 0 <= i < |rs| && !(rs[i].lo < 0x80 && rs[i].hi < 0x80);
      assert Covers(rs[i], rs[i].hi);
      assert InSet(rs, rs[i].hi);
    }
  }

  lemma SingletonSet(cp: nat, c: nat)
    ensures InSet([Range(cp, cp)], c) <==> c == cp
  {
    if c == cp { assert Covers([Range(cp, cp)][0], c); }
  }

  lemma PeekByte(s: seq<byte>, pos: nat)
    ensures pos < |s| && s[pos] < 0x80 ==> Peek(s, pos) == Some(Peeked(s[pos], 1))
    ensures Peek(s, pos).Some? && Peek(s, pos).value.width == 1 ==>
      s[pos] < 0x80 && Peek(s, pos).value.cp == s[pos]
  {
  }

  /** A resolved arm steps as its class does. */
  lemma ArmIsClass(entries: seq<CharClass>, arm: Arm, s: seq<byte>, pos: nat)
    requires Resolved(entries, arm) && AsciiLiteral(arm)
    ensures ArmStep(entries, arm, s, pos) == ClassStep(s, Any, Some(ArmClass(entries, arm).ranges), pos)
    ensures ByteTested(entries, arm) == IsAscii(ArmClass(entries, arm).ranges)
  {
    if arm.LitArm? && pos < |s| {
      SingletonSet(arm.cp, s[pos]);
    }
  }

  /** How ANY steps over a class, case by case of how the class is tested. */
  lemma AnyStep(rs: seq<Range>, s: seq<byte>, pos: nat)
    ensures IsAscii(rs) ==>
      ClassStep(s, Any, Some(rs), pos) == if pos < |s| && InSet(rs, s[pos]) then Some(pos + 1) else None
    ensures !IsAscii(rs) ==>
      ClassStep(s, Any, Some(rs), pos)
      == if Peek(s, pos).Some? && InSet(rs, Peek(s, pos).value.cp)
         then Some(pos + Peek(s, pos).value.width) else None
  {
    hide Peek, InSet;
  }

  lemma UnionAscii(entries: seq<CharClass>, x: Arm, y: Arm)
    requires Canonical(entries)
    ensures IsAscii(PairClass(entries, x, y).ranges)
       <==> IsAscii(ArmClass(entries, x).ranges) && IsAscii(ArmClass(entries, y).ranges)
  {
    AsciiByMembers(PairClass(entries, x, y).ranges);
    AsciiByMembers(ArmClass(entries, x).ranges);
    AsciiByMembers(ArmClass(entries, y).ranges);
  }

  /** Both arms resolved: the fused step agrees with the alternation. */
  lemma ResolvedPairAgrees(entries: seq<CharClass>, x: Arm, y: Arm, s: seq<byte>, pos: nat)
    requires Canonical(entries) && Resolved(entries, x) && Resolved(entries, y)
    requires SafeOn(entries, x, y, s)
    ensures FusedStep(entries, x, y, s, pos) == AltStep(entries, x, y, s, pos)
    ensures ArmStep(entries, x, s, pos).Some? && ArmStep(entries, y, s, pos).Some? ==>
      ArmStep(entries, x, s, pos) == ArmStep(entries, y, s, pos)
  {
    var cx, cy := ArmClass(entries, x).ranges, ArmClass(entries, y).ranges;
    var u := PairClass(entries, x, y).ranges;
    ArmIsClass(entries, x, s, pos);
    ArmIsClass(entries, y, s, pos);
    UnionAscii(entries, x, y);
    AsciiByMembers(cx);
    AsciiByMembers(cy);
    PeekByte(s, pos);
    hide ArmStep, ClassStep, Peek, PairClass, ArmClass, IsAscii, Canonical;
    AnyStep(u, s, pos);
    AnyStep(cx, s, pos);
    AnyStep(cy, s, pos);
  }

  /** Proper lists that denote one set are indistinguishable to every class operation. */
  lemma SameSetSameUnit(a: seq<Range>, b: seq<Range>, s: seq<byte>, pos: nat)
    requires Proper(a) && Proper(b) && SameSet(a, b)
    ensures UnitAt(Some(a), s, pos) == UnitAt(Some(b), s, pos)
  {
    AsciiByMembers(a);
    AsciiByMembers(b);
  }

  lemma SameSetSameStep(a: seq<Range>, b: seq<Range>, s: seq<byte>, pos: nat)
    requires Proper(a) && Proper(b) && SameSet(a, b)
    ensures ClassStep(s, Any, Some(a), pos) == ClassStep(s, Any, Some(b), pos)
  {
    SameSetSameUnit(a, b, s, pos);
  }

  /** An unresolved arm never matches; read as codepoint 0 it is absorbed by a class that has it. */
  lemma UnresolvedPairAgrees(entries: seq<CharClass>, x: Arm, y: Arm, s: seq<byte>, pos: nat)
    requires Canonical(entries) && Harmless(entries, x, y)
    requires !Resolved(entries, x) || !Resolved(entries, y)
    ensures FusedStep(entries, x, y, s, pos) == AltStep(entries, x, y, s, pos)
    ensures ArmStep(entries, x, s, pos).None? || ArmStep(entries, y, s, pos).None?
  {
    var cx, cy := ArmClass(entries, x).ranges, ArmClass(entries, y).ranges;
    var u := PairClass(entries, x, y).ranges;
    if !Resolved(entries, x) {
      assert SameSet(u, cy) by {
        forall c: nat ensures InSet(u, c) <==> InSet(cy, c) { SingletonSet(0, c); }
      }
      ArmIsClass(entries, y, s, pos);
      SameSetSameStep(u, cy, s, pos);
    } else {
      assert SameSet(u, cx) by {
        forall c: nat ensures InSet(u, c) <==> InSet(cx, c) { SingletonSet(0, c); }
      }
      ArmIsClass(entries, x, s, pos);
      SameSetSameStep(u, cx, s, pos);
    }
  }

  /** Safe pairs: the fused step is the alternation, and arms that both match end alike. */
  lemma SafePairAgrees(entries: seq<CharClass>, x: Arm, y: Arm, s: seq<byte>, pos: nat)
    requires Canonical(entries) && SafeOn(entries, x, y, s)
    ensures FusedStep(entries, x, y, s, pos) == AltStep(entries, x, y, s, pos)
    ensures ArmStep(entries, x, s, pos).Some? && ArmStep(entries, y, s, pos).Some? ==>
      ArmStep(entries, x, s, pos) == ArmStep(entries, y, s, pos)
  {
    if Resolved(entries, x) && Resolved(entries, y) {
      ResolvedPairAgrees(entries, x, y, s, pos);
    } else {
      UnresolvedPairAgrees(entries, x, y, s, pos);
    }
  }

  /** Two bytes that decode to an ASCII codepoint. */
  function Overlong(cp: nat): (s: seq<byte>)
    requires cp < 0x80
    ensures Peek(s, 0) == Some(Peeked(cp, 2))
  {
    [0xC0 + cp / 0x40, 0x80 + cp % 0x40]
  }

  lemma InPairClass(entries: seq<CharClass>, x: Arm, y: Arm, c: nat)
    requires Canonical(entries)
    ensures InSet(PairClass(entries, x, y).ranges, c)
       <==> InSet(ArmClass(entries, x).ranges, c) || InSet(ArmClass(entries, y).ranges, c)
  {
  }

  /** A raw literal byte above 127: the literal matches it, the fused class cannot. */
  lemma HighLiteralBreaks(entries: seq<CharClass>, x: Arm, y: Arm, cp: byte)
    requires Canonical(entries) && cp >= 0x80 && (x == LitArm(cp) || y == LitArm(cp))
    ensures FusedStep(entries, x, y, [cp], 0) != AltStep(entries, x, y, [cp], 0)
  {
    var u := PairClass(entries, x, y).ranges;
    SingletonSet(cp, cp);
    InPairClass(entries, x, y, cp);
    AsciiByMembers(u);
    assert FusedStep(entries, x, y, [cp], 0) == None by { AnyStep(u, [cp], 0); }
    assert ArmStep(entries, LitArm(cp), [cp], 0) == Some(1);
  }

  /** The NUL byte: an unresolved arm does not match it, the class built for it does. */
  lemma MissingClassBreaks(entries: seq<CharClass>, x: Arm, y: Arm)
    requires Canonical(entries) && AsciiLiteral(x) && AsciiLiteral(y)
    requires || (!Resolved(entries, x) && (Resolved(entries, y) ==> !InSet(ArmClass(entries, y).ranges, 0)))
             || (!Resolved(entries, y) && (Resolved(entries, x) ==> !InSet(ArmClass(entries, x).ranges, 0)))
    ensures FusedStep(entries, x, y, [0], 0) != AltStep(entries, x, y, [0], 0)
  {
    var u := PairClass(entries, x, y).ranges;
    SingletonSet(0, 0);
    InPairClass(entries, x, y, 0);
    PeekByte([0], 0);
    AnyStep(u, [0], 0);
    NotMatchedOnNul(entries, x);
    NotMatchedOnNul(entries, y);
  }

  lemma NotMatchedOnNul(entries: seq<CharClass>, arm: Arm)
    requires AsciiLiteral(arm)
    ensures ArmStep(entries, arm, [0], 0).Some?
       <==> Resolved(entries, arm) && InSet(ArmClass(entries, arm).ranges, 0)
  {
    if Resolved(entries, arm) {
      ArmIsClass(entries, arm, [0], 0);
      PeekByte([0], 0);
      AnyStep(ArmClass(entries, arm).ranges, [0], 0);
    }
  }

  /** One arm tested by bytes, the other by codepoints, and a codepoint only the first has:
      spelled with two bytes, only the fused class matches it. */
  lemma MixedPairBreaks(entries: seq<CharClass>, x: Arm, y: Arm, c: nat)
    requires Canonical(entries) && AsciiLiteral(x) && AsciiLiteral(y)
    requires Resolved(entries, x) && Resolved(entries, y)
    requires ByteTested(entries, x) != ByteTested(entries, y)
    requires var cx, cy := ArmClass(entries, x).ranges, ArmClass(entries, y).ranges;
      if ByteTested(entries, x) then InSet(cx, c) && !InSet(cy, c) else InSet(cy, c) && !InSet(cx, c)
    ensures c < 0x80 && FusedStep(entries, x, y, Overlong(c), 0) != AltStep(entries, x, y, Overlong(c), 0)
  {
    var cx, cy := ArmClass(entries, x).ranges, ArmClass(entries, y).ranges;
    var u := PairClass(entries, x, y).ranges;
    AsciiByMembers(cx);
    AsciiByMembers(cy);
    ArmIsClass(entries, x, [], 0);
    ArmIsClass(entries, y, [], 0);
    assert c < 0x80;
    var s := Overlong(c);
    ArmIsClass(entries, x, s, 0);
    ArmIsClass(entries, y, s, 0);
    UnionAscii(entries, x, y);
    InPairClass(entries, x, y, c);
    AnyStep(cx, s, 0);
    AnyStep(cy, s, 0);
    AnyStep(u, s, 0);
  }

  ghost predicate AgreesEverywhere(entries: seq<CharClass>, x: Arm, y: Arm)
    requires Canonical(entries)
  {
    forall s: seq<byte>, pos: nat :: FusedStep(entries, x, y, s, pos) == AltStep(entries, x, y, s, pos)
  }

  /** Fusing two arms is invisible on every subject and cursor exactly when the pair is harmless. */
  lemma FusionExactCondition(entries: seq<CharClass>, x: Arm, y: Arm)
    requires Canonical(entries)
    ensures AgreesEverywhere(entries, x, y) <==> Harmless(entries, x, y)
  {
    if Harmless(entries, x, y) {
      forall s: seq<byte>, pos: nat
        ensures FusedStep(entries, x, y, s, pos) == AltStep(entries, x, y, s, pos)
      {
        SafePairAgrees(entries, x, y, s, pos);
      }
    } else {
      var s := Discrepancy(entries, x, y);
    }
  }

  /** A subject on which a pair that is not harmless is told apart from its fusion. */
  lemma Discrepancy(entries: seq<CharClass>, x: Arm, y: Arm) returns (s: seq<byte>)
    requires Canonical(entries) && !Harmless(entries, x, y)
    ensures FusedStep(entries, x, y, s, 0) != AltStep(entries, x, y, s, 0)
  {
    hide FusedStep, AltStep, ArmStep;
    if !AsciiLiteral(x) {
      HighLiteralBreaks(entries, x, y, x.cp);
      return [x.cp];
    }
    if !AsciiLiteral(y) {
      HighLiteralBreaks(entries, x, y, y.cp);
      return [y.cp];
    }
    if !Resolved(entries, x) || !Resolved(entries, y) {
      MissingClassBreaks(entries, x, y);
      return [0];
    }
    var cx, cy := ArmClass(entries, x).ranges, ArmClass(entries, y).ranges;
    var c: nat :| if ByteTested(entries, x) then InSet(cx, c) && !InSet(cy, c) else InSet(cy, c) && !InSet(cx, c);
    MixedPairBreaks(entries, x, y, c);
    return Overlong(c);
  }
}
