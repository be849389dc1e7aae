/** The lenient UTF-8 reader that every pattern operation shares (utf8_peek_next in vm.h). */
module Utf8 {
  import opened Wrappers
  import opened Bytes

  datatype Peeked = Peeked(cp: nat, width: nat)

  /** Payload bits of a continuation byte: its low six bits, whatever the top two are. */
  function Tail6(b: byte): (r: nat)
    ensures r < 0x40
  {
    b % 0x40
  }

  function Peek(s: seq<byte>, pos: nat): (r: Option<Peeked>)
    ensures r.Some? ==> 1 <= r.value.width <= 4 && pos + r.value.width <= |s| && r.value.cp < 0x20_0000
  {
    if pos >= |s| then None
    else
      var c: int := s[pos];
      if c < 0x80 then Some(Peeked(c, 1))
      else if 0xC0 <= c < 0xE0 then
        if pos + 1 >= |s| then None
        else Some(Peeked((c - 0xC0) * 0x40 + Tail6(s[pos + 1]), 2))
      else if 0xE0 <= c < 0xF0 then
        if pos + 2 >= |s| then None
        else Some(Peeked(((c - 0xE0) * 0x40 + Tail6(s[pos + 1])) * 0x40 + Tail6(s[pos + 2]), 3))
      else if 0xF0 <= c < 0xF8 then
        if pos + 3 >= |s| then None
        else Some(Peeked((((c - 0xF0) * 0x40 + Tail6(s[pos + 1])) * 0x40 + Tail6(s[pos + 2])) * 0x40
                         + Tail6(s[pos + 3]), 4))
      else None
  }
}
