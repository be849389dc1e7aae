/** The template compiler (compiler.c): one scan over the text that appends to a code buffer. */
module TemplateCompiler {
  import opened Wrappers
  import opened Bytes
  import opened Bytecode
  import opened CodeBuffer
  import opened TemplateCode
  import opened TemplateSyntax

  // ----- Scanning -----

  method Scan(tpl: seq<byte>, i: nat, stops: set<byte>) returns (e: nat)
    requires i <= |tpl|
    ensures e == ScanTo(tpl, i, stops)
  {
    e := i;
    while e < |tpl| && tpl[e] !in stops
      invariant i <= e <= |tpl| && ScanTo(tpl, e, stops) == ScanTo(tpl, i, stops)
    {
      e := e + 1;
    }
  }

  lemma {:induction false} DigitsEndFrom(tpl: seq<byte>, i: nat, e: nat)
    requires i <= e <= |tpl| && forall k :: i <= k < e ==> IsDigit(tpl[k])
    ensures DigitsEnd(tpl, e) == DigitsEnd(tpl, i)
    decreases e - i
  {
    if i < e { DigitsEndFrom(tpl, i + 1, e); }
  }

  lemma NextDigit(tpl: seq<byte>, i: nat, e: nat)
    requires i <= e < |tpl| && forall k :: i <= k <= e ==> IsDigit(tpl[k])
    ensures var d: int := tpl[e];
      Decimal(tpl[i..e + 1]) == Decimal(tpl[i..e]) * 10 + (d - ZERO)
  {
    var s := tpl[i..e + 1];
    assert s[..|s| - 1] == tpl[i..e];
  }

  /** Cutting every intermediate result to a width gives the number cut to that width. */
  lemma CutSteps(b: nat, d: int)
    ensures Low8(Low8(b) * 10 + d) == Low8(b * 10 + d)
    ensures Low16(Low16(b) * 10 + d) == Low16(b * 10 + d)
  {
    var low: int := Low8(b);
    Shift8(low * 10 + d, b / 0x100 * 10);
    Shift16(Low16(b) * 10 + d, b / 0x1_0000 * 10);
  }

  lemma Shift8(x: int, k: int)
    ensures Low8(x + k * 0x100) == Low8(x)
  {
  }

  lemma Shift16(x: int, k: int)
    ensures Low16(x + k * 0x1_0000) == Low16(x)
  {
  }

  /** Registers are eight bits wide, pad widths sixteen. */
  method ReadNumber(tpl: seq<byte>, i: nat, wide: bool) returns (e: nat, v: nat)
    requires i <= |tpl|
    ensures e == DigitsEnd(tpl, i) && v == if wide then Low16(NumberAt(tpl, i)) else Low8(NumberAt(tpl, i))
  {
    hide Low8, Low16;
    e, v := i, 0;
    CutZero();
    while e < |tpl| && IsDigit(tpl[e])
      invariant i <= e <= |tpl| && (forall k :: i <= k < e ==> IsDigit(tpl[k]))
      invariant var n := Decimal(tpl[i..e]); v == if wide then Low16(n) else Low8(n)
    {
      var d: int := tpl[e];
      NextDigit(tpl, i, e);
      CutSteps(Decimal(tpl[i..e]), d - ZERO);
      v := if wide then Low16(v * 10 + (d - ZERO)) else Low8(v * 10 + (d - ZERO));
      e := e + 1;
    }
    DigitsEndFrom(tpl, i, e);
  }

  lemma CutZero()
    ensures Low8(0) == 0 && Low16(0) == 0
  {
  }

  // ----- Formats -----

  /** The format that the compiler's variables stand for; type 0 is none. */
  function FormatOf(kind: byte, width: nat, fill: byte): Format {
    if kind == FMT_UPPER then Style(Upper)
    else if kind == FMT_LOWER then Style(Lower)
    else if kind == FMT_LENGTH then Style(Length)
    else if kind == FMT_LPAD then Pad(Left, width, fill)
    else if kind == FMT_RPAD then Pad(Right, width, fill)
    else Plain
  }

  method ReadPad(tpl: seq<byte>, start: nat, padKind: byte) returns (kind: byte, width: nat, fill: byte, i: nat)
    requires start <= |tpl| && (padKind == FMT_LPAD || padKind == FMT_RPAD)
    ensures kind <= FMT_RPAD && width < U16
    ensures Read(FormatOf(kind, width, fill), i) == PadAt(tpl, start, if padKind == FMT_LPAD then Left else Right)
  {
    kind, width, fill, i := 0, 0, SPACE, start;
    if i < |tpl| && tpl[i] == LPAREN {
      i := i + 1;
      if i < |tpl| && ZERO < tpl[i] <= NINE {
        var w: nat;
        i, w := ReadNumber(tpl, i, true);
        if i < |tpl| && tpl[i] == COMMA {
          i := i + 1;
          if i < |tpl| && tpl[i] == QUOTE {
            i := i + 1;
            if i < |tpl| {
              fill := tpl[i];
              i := i + 1;
              if i < |tpl| && tpl[i] == QUOTE { i := i + 1; }
            }
          }
        }
        if i < |tpl| && tpl[i] == RPAREN {
          i := i + 1;
          kind, width := padKind, w;
        }
      }
    }
  }

  method ReadFormat(tpl: seq<byte>, start: nat) returns (kind: byte, width: nat, fill: byte, i: nat)
    requires start <= |tpl|
    ensures kind <= FMT_RPAD && width < U16
    ensures Read(FormatOf(kind, width, fill), i) == FormatAt(tpl, start)
  {
    hide PadAt;
    kind, width, fill, i := 0, 0, SPACE, start;
    if i < |tpl| && tpl[i] == DOT {
      i := i + 1;
      if HasWord(tpl, i, UPPER_CALL) {
        kind, i := FMT_UPPER, i + 7;
      } else if HasWord(tpl, i, LOWER_CALL) {
        kind, i := FMT_LOWER, i + 7;
      } else if HasWord(tpl, i, LENGTH_CALL) {
        kind, i := FMT_LENGTH, i + 8;
      } else if HasWord(tpl, i, LPAD_WORD) {
        kind, width, fill, i := ReadPad(tpl, i + 4, FMT_LPAD);
      } else if HasWord(tpl, i, RPAD_WORD) {
        kind, width, fill, i := ReadPad(tpl, i + 4, FMT_RPAD);
      }
    }
  }

  // ----- Emission -----

  method EmitText(cb: CodeBuf, text: seq<byte>)
    requires cb.Valid()
    modifies cb, cb.buf
    ensures cb.Valid() && (cb.buf == old(cb.buf) || fresh(cb.buf))
    ensures cb.Contents() == old(cb.Contents()) + PieceBytes(Text(text), |old(cb.Contents())|)
  {
    hide Enc32, CodeBuf.Contents, CodeBuf.Valid;
    ghost var p := cb.len;
    cb.EmitU8(OP_EMIT_LITERAL);
    var off := cb.len + 4 + 4;
    cb.EmitU32(off);
    cb.EmitU32(|text|);
    cb.EmitBytes(text);
    assert off == p + 9;
  }

  method EmitFormatted(cb: CodeBuf, reg: byte, kind: byte, width: nat, fill: byte)
    requires cb.Valid() && kind <= FMT_RPAD && width < U16
    modifies cb, cb.buf
    ensures cb.Valid() && (cb.buf == old(cb.buf) || fresh(cb.buf))
    ensures cb.Contents() == old(cb.Contents())
      + PieceBytes(Formatted(reg, FormatOf(kind, width, fill)), |old(cb.Contents())|)
  {
    hide Enc16, PieceBytes, Formatted, FormatOf, CodeBuf.Contents, CodeBuf.Valid;
    ghost var before := cb.Contents();
    FormattedBytes(reg, kind, width, fill, |before|);
    if kind == 0 {
      EmitTwo(cb, OP_EMIT_CAPTURE, reg);
    } else {
      EmitTwo(cb, OP_EMIT_FORMAT, reg);
      cb.EmitU8(kind);
      assert before + ([OP_EMIT_FORMAT] + [reg]) + [kind] == before + ([OP_EMIT_FORMAT] + [reg] + [kind]);
      if kind == FMT_LPAD || kind == FMT_RPAD {
        EmitPadding(cb, width, fill);
        PaddedAfter(before, [OP_EMIT_FORMAT] + [reg] + [kind], Enc16(width), [fill]);
      }
    }
  }

  method EmitTwo(cb: CodeBuf, op: byte, reg: byte)
    requires cb.Valid()
    modifies cb, cb.buf
    ensures cb.Valid() && (cb.buf == old(cb.buf) || fresh(cb.buf))
    ensures cb.Contents() == old(cb.Contents()) + ([op] + [reg])
  {
    hide CodeBuf.Contents, CodeBuf.Valid;
    cb.EmitU8(op);
    cb.EmitU8(reg);
  }

  method EmitPadding(cb: CodeBuf, width: nat, fill: byte)
    requires cb.Valid()
    modifies cb, cb.buf
    ensures cb.Valid() && (cb.buf == old(cb.buf) || fresh(cb.buf))
    ensures cb.Contents() == old(cb.Contents()) + (Enc16(width) + [fill])
  {
    hide Enc16, CodeBuf.Contents, CodeBuf.Valid;
    cb.EmitU16(width);
    cb.EmitU8(fill);
  }

  lemma PaddedAfter(a: seq<byte>, b: seq<byte>, c: seq<byte>, d: seq<byte>)
    ensures a + b + (c + d) == a + (b + c + d)
  {
  }

  lemma FormattedBytes(reg: byte, kind: byte, width: nat, fill: byte, p: nat)
    requires kind <= FMT_RPAD
    ensures PieceBytes(Formatted(reg, FormatOf(kind, width, fill)), p)
         == if kind == 0 then [OP_EMIT_CAPTURE] + [reg]
            else if kind == FMT_LPAD || kind == FMT_RPAD then [OP_EMIT_FORMAT] + [reg] + [kind] + Enc16(width) + [fill]
            else [OP_EMIT_FORMAT] + [reg] + [kind]
  {
    hide Enc16;
  }

  method EmitTable(cb: CodeBuf, name: seq<byte>, kind: byte)
    requires cb.Valid() && |name| < U8
    modifies cb, cb.buf
    ensures cb.Valid() && (cb.buf == old(cb.buf) || fresh(cb.buf))
    ensures cb.Contents() == old(cb.Contents()) + [OP_EMIT_TABLE] + Enc16(UNBOUND) + [kind, Low8(|name|)] + name
  {
    hide Enc16, CodeBuf.Contents, CodeBuf.Valid;
    cb.EmitU8(OP_EMIT_TABLE);
    cb.EmitU16(UNBOUND);
    cb.EmitU8(kind);
    cb.EmitU8(|name|);
    cb.EmitBytes(name);
  }

  // ----- References -----

  /** The buffer took exactly the bytes of the step's piece. */
  ghost predicate Took(before: seq<byte>, after: seq<byte>, s: Step) {
    after == before + PieceBytes(s.piece, |before|)
  }

  method EmitDollar(cb: CodeBuf, dollar: nat) returns (next: nat)
    requires cb.Valid()
    modifies cb, cb.buf
    ensures cb.Valid() && (cb.buf == old(cb.buf) || fresh(cb.buf))
    ensures next == dollar + 1 && Took(old(cb.Contents()), cb.Contents(), Resume(Malformed, dollar).value)
  {
    hide PieceBytes;
    EmitText(cb, [DOLLAR]);
    next := dollar + 1;
  }

  lemma LiteralKeyBytes(name: seq<byte>, key: seq<byte>, p: nat)
    ensures PieceBytes(LiteralKey(UNBOUND, name, key), p)
         == [OP_EMIT_TABLE] + Enc16(UNBOUND) + [0, Low8(|name|)] + name + Enc16(|key|) + key
  {
    hide Enc16;
    TableShape(LiteralKey(UNBOUND, name, key), p);
  }

  lemma CapturedKeyBytes(name: seq<byte>, keyReg: byte, p: nat)
    ensures PieceBytes(CapturedKey(UNBOUND, name, keyReg), p)
         == [OP_EMIT_TABLE] + Enc16(UNBOUND) + [1, Low8(|name|)] + name + [keyReg]
  {
    hide Enc16;
    TableShape(CapturedKey(UNBOUND, name, keyReg), p);
  }

  method EmitLiteralKey(cb: CodeBuf, name: seq<byte>, key: seq<byte>)
    requires cb.Valid() && |name| < U8
    modifies cb, cb.buf
    ensures cb.Valid() && (cb.buf == old(cb.buf) || fresh(cb.buf))
    ensures cb.Contents() == old(cb.Contents()) + PieceBytes(LiteralKey(UNBOUND, name, key), |old(cb.Contents())|)
  {
    hide Enc16, PieceBytes, CodeBuf.Contents, CodeBuf.Valid;
    LiteralKeyBytes(name, key, cb.len);
    EmitTable(cb, name, 0);
    cb.EmitU16(|key|);
    cb.EmitBytes(key);
  }

  method EmitCapturedKey(cb: CodeBuf, name: seq<byte>, keyReg: byte)
    requires cb.Valid() && |name| < U8
    modifies cb, cb.buf
    ensures cb.Valid() && (cb.buf == old(cb.buf) || fresh(cb.buf))
    ensures cb.Contents() == old(cb.Contents()) + PieceBytes(CapturedKey(UNBOUND, name, keyReg), |old(cb.Contents())|)
  {
    hide Enc16, PieceBytes, CodeBuf.Contents, CodeBuf.Valid;
    CapturedKeyBytes(name, keyReg, cb.len);
    EmitTable(cb, name, 1);
    cb.EmitU8(keyReg);
  }

  method EmitQuotedKey(cb: CodeBuf, tpl: seq<byte>, start: nat, dollar: nat, name: seq<byte>) returns (i: nat)
    requires cb.Valid() && start <= |tpl| && |name| < U8
    modifies cb, cb.buf
    ensures cb.Valid() && (cb.buf == old(cb.buf) || fresh(cb.buf))
    ensures var s := Resume(QuotedKey(tpl, start, name), dollar).value;
      i == s.next && Took(old(cb.Contents()), cb.Contents(), s)
  {
    hide PieceBytes, CodeBuf.Contents, CodeBuf.Valid;
    i := Scan(tpl, start, {QUOTE});
    if i >= |tpl| {
      i := EmitDollar(cb, dollar);
      return;
    }
    var keyEnd := i;
    i := i + 1;
    if i >= |tpl| || tpl[i] != RBRACKET {
      i := EmitDollar(cb, dollar);
      return;
    }
    i := i + 1;
    if i < |tpl| && tpl[i] == RBRACKET { i := i + 1; }
    EmitLiteralKey(cb, name, tpl[start..keyEnd]);
  }

  method EmitNumberedKey(cb: CodeBuf, tpl: seq<byte>, start: nat, dollar: nat, name: seq<byte>) returns (i: nat)
    requires cb.Valid() && start <= |tpl| && |name| < U8
    modifies cb, cb.buf
    ensures cb.Valid() && (cb.buf == old(cb.buf) || fresh(cb.buf))
    ensures var s := Resume(NumberedKey(tpl, start, name), dollar).value;
      i == s.next && Took(old(cb.Contents()), cb.Contents(), s)
  {
    hide PieceBytes, NumberAt, CodeBuf.Contents, CodeBuf.Valid;
    i := start;
    if i < |tpl| && tpl[i] == DOLLAR { i := i + 1; }
    if i < |tpl| && tpl[i] == LOWER_V { i := i + 1; }
    var digits := i;
    var keyReg: nat;
    i, keyReg := ReadNumber(tpl, i, false);
    if i == digits || i >= |tpl| || tpl[i] != RBRACKET {
      i := EmitDollar(cb, dollar);
      return;
    }
    i := i + 1;
    if i < |tpl| && tpl[i] == RBRACKET { i := i + 1; }
    EmitCapturedKey(cb, name, keyReg);
  }

  /** The key part of a table reference, from behind the bracket that follows the name. */
  method EmitKeyRef(cb: CodeBuf, tpl: seq<byte>, start: nat, dollar: nat, name: seq<byte>) returns (i: nat)
    requires cb.Valid() && start <= |tpl| && |name| < U8
    modifies cb, cb.buf
    ensures cb.Valid() && (cb.buf == old(cb.buf) || fresh(cb.buf))
    ensures var s := Resume(KeyRef(tpl, start, name), dollar).value;
      i == s.next && Took(old(cb.Contents()), cb.Contents(), s)
  {
    hide PieceBytes, QuotedKey, NumberedKey;
    if start < |tpl| && tpl[start] == QUOTE {
      i := EmitQuotedKey(cb, tpl, start + 1, dollar, name);
    } else {
      i := EmitNumberedKey(cb, tpl, start, dollar, name);
    }
  }

  /** A table name from `start` on and, when a bracket follows it, the key. */
  method EmitTableRef(cb: CodeBuf, tpl: seq<byte>, start: nat, dollar: nat) returns (ok: bool, i: nat)
    requires cb.Valid() && start <= |tpl|
    modifies cb, cb.buf
    ensures cb.Valid() && (cb.buf == old(cb.buf) || fresh(cb.buf))
    ensures var s := Resume(TableRef(tpl, start), dollar);
      ok == s.Some? && (ok ==> i == s.value.next && Took(old(cb.Contents()), cb.Contents(), s.value))
  {
    hide PieceBytes, KeyRef;
    ok := true;
    i := Scan(tpl, start, NAME_ENDS);
    if i == start || i >= |tpl| || tpl[i] != LBRACKET {
      i := EmitDollar(cb, dollar);
      return;
    }
    if i - start > 255 { return false, i; }
    i := EmitKeyRef(cb, tpl, i + 1, dollar, tpl[start..i]);
  }

  method EmitBracedRef(cb: CodeBuf, tpl: seq<byte>, start: nat, dollar: nat, reg: byte) returns (i: nat)
    requires cb.Valid() && start <= |tpl|
    modifies cb, cb.buf
    ensures cb.Valid() && (cb.buf == old(cb.buf) || fresh(cb.buf))
    ensures var s := Resume(BracedRef(tpl, start, reg), dollar).value;
      i == s.next && Took(old(cb.Contents()), cb.Contents(), s)
  {
    hide PieceBytes, FormatAt, FormatOf, Formatted;
    var kind, width, fill;
    kind, width, fill, i := ReadFormat(tpl, start);
    if i < |tpl| && tpl[i] == RBRACE {
      i := i + 1;
      EmitFormatted(cb, reg, kind, width, fill);
    } else {
      i := EmitDollar(cb, dollar);
    }
  }

  method EmitRef(cb: CodeBuf, tpl: seq<byte>, dollar: nat) returns (ok: bool, i: nat)
    requires cb.Valid() && dollar < |tpl|
    modifies cb, cb.buf
    ensures cb.Valid() && (cb.buf == old(cb.buf) || fresh(cb.buf))
    ensures var s := Resume(RefAt(tpl, dollar), dollar);
      ok == s.Some? && (ok ==> i == s.value.next && Took(old(cb.Contents()), cb.Contents(), s.value))
  {
    hide PieceBytes, TableRef, BracedRef, NumberAt;
    ok, i := true, dollar + 1;
    var braced := i < |tpl| && tpl[i] == LBRACE;
    if braced { i := i + 1; }
    if i < |tpl| && tpl[i] == LOWER_V {
      i := i + 1;
      var digits, reg := i, 0;
      i, reg := ReadNumber(tpl, i, false);
      if i == digits {
        i := EmitDollar(cb, dollar);
      } else if braced {
        i := EmitBracedRef(cb, tpl, i, dollar, reg);
      } else if i < |tpl| && tpl[i] == LBRACKET {
        ok, i := EmitTableRef(cb, tpl, i + 1, dollar);
      } else {
        EmitFormatted(cb, reg, 0, 0, SPACE);
      }
    } else {
      ok, i := EmitTableRef(cb, tpl, i, dollar);
    }
  }

  /** A whole template: its code, or nothing when a table name does not fit its length byte. */
  method CompileTemplate(tpl: seq<byte>) returns (out: Option<seq<byte>>)
    ensures out == CompiledTemplate(tpl)
  {
    hide PieceBytes, RefAt, PiecesFrom;
    var cb := new CodeBuf();
    var i := 0;
    ghost var done: seq<Piece> := [];
    PiecesStart(tpl);
    while i < |tpl|
      invariant i <= |tpl| && cb.Valid() && fresh(cb) && fresh(cb.buf)
      invariant cb.Contents() == CodeOf(done, 0)
      invariant Pieces(tpl) == Prepended(done, PiecesFrom(tpl, i))
    {
      PiecesStep(tpl, i, done);
      ghost var at := i;
      if tpl[i] == DOLLAR {
        var ok;
        ok, i := EmitRef(cb, tpl, i);
        if !ok { return None; }
      } else {
        var start := i;
        i := Scan(tpl, i, {DOLLAR});
        EmitText(cb, tpl[start..i]);
      }
      ghost var x := StepAt(tpl, at).value.piece;
      CodeSnoc(done, x, 0);
      done := done + [x];
    }
    PiecesEnd(tpl, done);
    cb.EmitU8(OP_ACCEPT);
    out := Some(cb.buf[..cb.len]);
  }

  function Prepended(done: seq<Piece>, rest: Option<seq<Piece>>): Option<seq<Piece>> {
    if rest.Some? then Some(done + rest.value) else None
  }

  lemma PiecesStart(tpl: seq<byte>)
    ensures Pieces(tpl) == Prepended([], PiecesFrom(tpl, 0))
  {
    hide PiecesFrom;
    var rest := PiecesFrom(tpl, 0);
    if rest.Some? { assert [] + rest.value == rest.value; }
  }

  lemma PiecesEnd(tpl: seq<byte>, done: seq<Piece>)
    ensures Prepended(done, PiecesFrom(tpl, |tpl|)) == Some(done)
  {
    assert done + [] == done;
  }

  lemma PiecesStep(tpl: seq<byte>, i: nat, done: seq<Piece>)
    requires i < |tpl|
    ensures StepAt(tpl, i).None? ==> PiecesFrom(tpl, i).None?
    ensures StepAt(tpl, i).Some? ==>
      var s := StepAt(tpl, i).value;
      Prepended(done, PiecesFrom(tpl, i)) == Prepended(done + [s.piece], PiecesFrom(tpl, s.next))
  {
    hide StepAt;
    if StepAt(tpl, i).Some? {
      var s := StepAt(tpl, i).value;
      var rest := PiecesFrom(tpl, s.next);
      if rest.Some? {
        assert done + ([s.piece] + rest.value) == done + [s.piece] + rest.value;
      }
    }
  }
}
