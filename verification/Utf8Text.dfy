/** The lenient reader against the encoder: text written as UTF-8 is read back codepoint by codepoint. */
module Utf8Text {
  import opened Wrappers
  import opened Bytes
  import opened Utf8
  import opened TextFunctions

  /** The reader takes the codepoint that ORD takes, and the bytes that its lead byte announces. */
  lemma PeekIsOrd(s: seq<byte>)
    ensures Peek(s, 0) == if Ord(s).Some? then Some(Peeked(Ord(s).value, Announced(s[0]))) else None
  {
    hide Tail6;
  }

  lemma PeekLater(s: seq<byte>, p: nat)
    requires p <= |s|
    ensures Peek(s[p..], 0) == Peek(s, p)
  {
    hide Tail6;
  }

  /** Every scalar value is read back from its bytes, whatever follows. */
  lemma PeekReadsBack(cp: nat, rest: seq<byte>)
    requires Scalar(cp)
    ensures Peek(EncodeUtf8(cp) + rest, 0) == Some(Peeked(cp, |EncodeUtf8(cp)|))
  {
    hide Peek, Ord, Announced;
    var u := EncodeUtf8(cp);
    OrdOfChar(cp, rest);
    PeekIsOrd(u + rest);
    CharIsUnit(cp);
    assert (u + rest)[0] == u[0];
  }

  /** The same in the middle of a text. */
  lemma PeekAt(s: seq<byte>, p: nat, cp: nat, rest: seq<byte>)
    requires Scalar(cp) && p <= |s| && s[p..] == EncodeUtf8(cp) + rest
    ensures Peek(s, p) == Some(Peeked(cp, |EncodeUtf8(cp)|))
    ensures p + |EncodeUtf8(cp)| <= |s| && s[p + |EncodeUtf8(cp)|..] == rest
  {
    hide Peek, EncodeUtf8;
    PeekReadsBack(cp, rest);
    PeekLater(s, p);
    var n := |EncodeUtf8(cp)|;
    assert s[p..][n..] == rest;
  }
}
