/** Bytes, big-endian operands, and where a byte string sits inside a code buffer. */
module Bytes {

  type byte = x: int | 0 <= x < 256 witness 0

  const U8: int := 0x100
  const U16: int := 0x1_0000
  const U32: int := 0x1_0000_0000

  /** The low 8, 16 and 32 bits of a value, as the C casts keep them. */
  function Low8(v: int): byte { v % 0x100 }

  function Low16(v: int): (r: nat)
    ensures r < U16
  {
    v % 0x1_0000
  }

  function Low32(v: int): (r: nat)
    ensures r < U32
  {
    v % 0x1_0000_0000
  }

  lemma Fits32(v: nat)
    requires v < U32
    ensures Low32(v) == v
  {
  }

  function Min(a: nat, b: nat): nat { if a < b then a else b }

  function Max(a: nat, b: nat): nat { if a < b then b else a }

  /** Two bytes, most significant first. */
  function Pair(w: nat): (s: seq<byte>)
    requires w < U16
    ensures |s| == 2
  {
    [w / 0x100, w % 0x100]
  }

  function Enc16(v: int): (s: seq<byte>)
    ensures |s| == 2
  {
    Pair(Low16(v))
  }

  function Enc32(v: int): (s: seq<byte>)
    ensures |s| == 4
  {
    Pair(Low32(v) / 0x1_0000) + Pair(Low32(v) % 0x1_0000)
  }

  function U16At(code: seq<byte>, p: nat): (v: nat)
    requires p + 2 <= |code|
    ensures v < U16
  {
    var hi: int, lo: int := code[p], code[p + 1];
    hi * 0x100 + lo
  }

  function U32At(code: seq<byte>, p: nat): (v: nat)
    requires p + 4 <= |code|
    ensures v < U32
  {
    U16At(code, p) * 0x1_0000 + U16At(code, p + 2)
  }

  lemma SmallOperand(code: seq<byte>, p: nat)
    requires p + 4 <= |code| && code[p] == 0 && code[p + 1] == 0 && code[p + 2] == 0
    ensures U32At(code, p) == code[p + 3]
  {
  }

  /** `part` sits in `code` at offset `p`. */
  ghost predicate At(code: seq<byte>, p: nat, part: seq<byte>) {
    p + |part| <= |code| && code[p..p + |part|] == part
  }

  lemma AtConcat(code: seq<byte>, p: nat, a: seq<byte>, b: seq<byte>)
    ensures At(code, p, a + b) <==> At(code, p, a) && At(code, p + |a|, b)
  {
    if At(code, p, a + b) {
      var both := code[p..p + |a + b|];
      assert both[..|a|] == a && both[|a|..] == b;
      assert code[p..p + |a|] == both[..|a|];
      assert code[p + |a|..p + |a| + |b|] == both[|a|..];
    }
    if At(code, p, a) && At(code, p + |a|, b) {
      assert code[p..p + |a + b|] == code[p..p + |a|] + code[p + |a|..p + |a| + |b|];
    }
  }

  lemma AtFour(code: seq<byte>, p: nat, a: seq<byte>, b: seq<byte>, c: seq<byte>, d: seq<byte>)
    ensures At(code, p, a + b + c + d) <==>
      && At(code, p, a)
      && At(code, p + |a|, b)
      && At(code, p + |a| + |b|, c)
      && At(code, p + |a| + |b| + |c|, d)
  {
    AtConcat(code, p, a + b + c, d);
    AtConcat(code, p, a + b, c);
    AtConcat(code, p, a, b);
  }

  lemma AtByte(code: seq<byte>, p: nat, part: seq<byte>, k: nat)
    requires At(code, p, part) && k < |part|
    ensures code[p + k] == part[k]
  {
    assert code[p..p + |part|][k] == code[p + k];
  }

  lemma DecodePair(code: seq<byte>, p: nat, w: nat)
    requires w < U16 && At(code, p, Pair(w))
    ensures U16At(code, p) == w
  {
    AtByte(code, p, Pair(w), 0);
    AtByte(code, p, Pair(w), 1);
  }

  /** Reading back an encoded operand gives its low bits. */
  lemma Decode16(code: seq<byte>, p: nat, v: int)
    requires At(code, p, Enc16(v))
    ensures U16At(code, p) == Low16(v)
  {
    DecodePair(code, p, Low16(v));
  }

  lemma Decode32(code: seq<byte>, p: nat, v: int)
    requires At(code, p, Enc32(v))
    ensures U32At(code, p) == Low32(v)
  {
    var w := Low32(v);
    AtConcat(code, p, Pair(w / 0x1_0000), Pair(w % 0x1_0000));
    DecodePair(code, p, w / 0x1_0000);
    DecodePair(code, p + 2, w % 0x1_0000);
  }
}
