/** The growable code buffer (compiler_analysis.c). */
module CodeBuffer {
  import opened Bytes

  /** Overwrite the bytes of `s` from `at` on with `e`. */
  function Patch(s: seq<byte>, at: nat, e: seq<byte>): (r: seq<byte>)
    requires at + |e| <= |s|
    ensures |r| == |s|
  {
    s[..at] + e + s[at + |e|..]
  }

  lemma PatchHole(a: seq<byte>, hole: seq<byte>, b: seq<byte>, e: seq<byte>)
    requires |hole| == |e|
    ensures Patch(a + hole + b, |a|, e) == a + e + b
  {
  }

  const INITIAL_CAPACITY: nat := 4096

  class CodeBuf {
    var buf: array<byte>
    var len: nat

    ghost predicate Valid()
      reads this
    {
      len <= buf.Length
    }

    ghost function Contents(): (s: seq<byte>)
      reads this, buf
      requires Valid()
      ensures |s| == len
    {
      buf[..len]
    }

    constructor ()
      ensures Valid() && fresh(buf) && Contents() == []
    {
      buf := new byte[INITIAL_CAPACITY];
      len := 0;
    }

    /** Make room for `need` more bytes, doubling the capacity until they fit. */
    method Ensure(need: nat)
      requires Valid()
      modifies this
      ensures Valid() && (buf == old(buf) || fresh(buf)) && len + need <= buf.Length
      ensures Contents() == old(Contents())
    {
      if len + need <= buf.Length { return; }
      var newcap := if buf.Length > 0 then buf.Length * 2 else INITIAL_CAPACITY;
      while len + need > newcap
        invariant newcap > 0
        decreases len + need - newcap
      {
        newcap := newcap * 2;
      }
      var grown := new byte[newcap];
      var i := 0;
      while i < len
        invariant 0 <= i <= len <= grown.Length && grown[..i] == buf[..i]
        modifies grown
      {
        grown[i] := buf[i];
        i := i + 1;
      }
      buf := grown;
    }

    method EmitU8(v: int)
      requires Valid()
      modifies this, buf
      ensures Valid() && (buf == old(buf) || fresh(buf))
      ensures Contents() == old(Contents()) + [Low8(v)]
    {
      Ensure(1);
      buf[len] := Low8(v);
      len := len + 1;
    }

    method EmitU16(v: int)
      requires Valid()
      modifies this, buf
      ensures Valid() && (buf == old(buf) || fresh(buf))
      ensures Contents() == old(Contents()) + Enc16(v)
    {
      Ensure(2);
      var w := Low16(v);
      buf[len] := w / 0x100;
      buf[len + 1] := w % 0x100;
      len := len + 2;
    }

    method EmitU32(v: int)
      requires Valid()
      modifies this, buf
      ensures Valid() && (buf == old(buf) || fresh(buf))
      ensures Contents() == old(Contents()) + Enc32(v)
    {
      Ensure(4);
      len := len + 4;
      Store32(len - 4, v);
    }

    method EmitBytes(text: seq<byte>)
      requires Valid()
      modifies this, buf
      ensures Valid() && (buf == old(buf) || fresh(buf))
      ensures Contents() == old(Contents()) + text
    {
      if text == [] { return; }
      Ensure(|text|);
      var b := buf;
      var i := 0;
      while i < |text|
        invariant 0 <= i <= |text| && len + |text| <= b.Length
        invariant b[..len] == old(Contents()) && b[len..len + i] == text[..i]
        modifies b
      {
        b[len + i] := text[i];
        i := i + 1;
      }
      assert text[..i] == text && b[..len + i] == b[..len] + b[len..len + i];
      len := len + |text|;
    }

    /** Overwrite four emitted bytes: the backpatching step. */
    method Store32(at: nat, v: int)
      requires Valid() && at + 4 <= len
      modifies buf
      ensures Contents() == Patch(old(Contents()), at, Enc32(v))
    {
      var w := Low32(v);
      buf[at] := w / 0x1_0000 / 0x100;
      buf[at + 1] := w / 0x1_0000 % 0x100;
      buf[at + 2] := w % 0x1_0000 / 0x100;
      buf[at + 3] := w % 0x100;
      ByteSplit(w);
      assert buf[at..at + 4] == Enc32(v);
    }
  }

  lemma ByteSplit(w: nat)
    ensures w % 0x100 == w % 0x1_0000 % 0x100
  {
  }
}
