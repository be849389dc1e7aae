/** Writing pieces down in the documented syntax and compiling the text gives the pieces back. */
module TemplatePrinter {
  import opened Wrappers
  import opened Bytes
  import opened Bytecode
  import opened TemplateCode
  import opened TemplateSyntax
  import opened TemplateCompiler
  import opened TemplateRun

  /** Pieces the syntax can express. */
  predicate Printable(x: Piece) {
    match x
    case Text(text) => text != [] && DOLLAR !in text
    case Padded(_, _, width, _) => 0 < width < U16
    case LiteralKey(table, name, key) => table == UNBOUND && IsName(name) && QUOTE !in key
    case CapturedKey(table, name, _) => table == UNBOUND && IsName(name)
    case _ => true
  }

  predicate IsName(name: seq<byte>) {
    0 < |name| <= 255 && DOT !in name && LBRACKET !in name && RBRACKET !in name
  }

  function StyleCall(s: Style): seq<byte> {
    match s
    case Upper => UPPER_CALL
    case Lower => LOWER_CALL
    case Length => LENGTH_CALL
  }

  function PadWord(side: Side): seq<byte> { if side.Left? then LPAD_WORD else RPAD_WORD }

  function Braced(reg: byte, format: seq<byte>): seq<byte> {
    [DOLLAR, LBRACE, LOWER_V] + (Digits(reg) + (format + [RBRACE]))
  }

  function PadCall(side: Side, width: nat, fill: byte): seq<byte> {
    [DOT] + (PadWord(side) + ([LPAREN] + (Digits(width) + [COMMA, QUOTE, fill, QUOTE, RPAREN])))
  }

  function Bracketed(name: seq<byte>, key: seq<byte>): seq<byte> {
    [DOLLAR, LOWER_V, ZERO, LBRACKET] + (name + ([LBRACKET] + (key + [RBRACKET, RBRACKET])))
  }

  function Printed(x: Piece): seq<byte> {
    match x
    case Text(text) => text
    case Capture(reg) => Braced(reg, [])
    case Styled(reg, style) => Braced(reg, [DOT] + StyleCall(style))
    case Padded(reg, side, width, fill) => Braced(reg, PadCall(side, width, fill))
    case LiteralKey(_, name, key) => Bracketed(name, [QUOTE] + (key + [QUOTE]))
    case CapturedKey(_, name, reg) => Bracketed(name, Digits(reg))
  }

  function PrintedAll(xs: seq<Piece>): seq<byte> {
    if xs == [] then [] else Printed(xs[0]) + PrintedAll(xs[1..])
  }

  /** Text never follows text: the compiler reads such a stretch as one piece. */
  predicate PrintableAll(xs: seq<Piece>) {
    && (forall k :: 0 <= k < |xs| ==> Printable(xs[k]))
    && (forall k :: 0 <= k < |xs| - 1 ==> xs[k].Text? ==> !xs[k + 1].Text?)
  }

  // ----- Reading printed parts -----

  lemma {:induction false} DecimalOfDigits(n: nat)
    ensures Decimal(Digits(n)) == n
  {
    if n < 10 {
      assert [n + 48][..0] == [];
    } else {
      var d := Digits(n);
      assert d[..|d| - 1] == Digits(n / 10);
      DecimalOfDigits(n / 10);
    }
  }

  lemma {:induction false} FirstDigit(n: nat)
    requires n > 0
    ensures ZERO < Digits(n)[0]
  {
    if n >= 10 { FirstDigit(n / 10); }
  }

  /** A printed number followed by something else is read back as that number. */
  lemma NumberReads(tpl: seq<byte>, i: nat, n: nat, tail: seq<byte>)
    requires At(tpl, i, Digits(n) + tail) && tail != [] && !IsDigit(tail[0])
    ensures var e := i + |Digits(n)|; At(tpl, e, tail) && i <= |tpl|
    ensures DigitsEnd(tpl, i) == i + |Digits(n)| && NumberAt(tpl, i) == n
  {
    hide Digits, Decimal;
    var e := i + |Digits(n)|;
    AtConcat(tpl, i, Digits(n), tail);
    forall k | i <= k < e ensures IsDigit(tpl[k]) { AtByte(tpl, i, Digits(n), k - i); }
    AtByte(tpl, e, tail, 0);
    DigitsEndFrom(tpl, i, e);
    StopsHere(tpl, e);
    DecimalOfDigits(n);
  }

  lemma StopsHere(tpl: seq<byte>, e: nat)
    requires e < |tpl| && !IsDigit(tpl[e])
    ensures DigitsEnd(tpl, e) == e
  {
  }

  lemma {:induction false} ScanFrom(tpl: seq<byte>, i: nat, e: nat, stops: set<byte>)
    requires i <= e <= |tpl| && (forall k :: i <= k < e ==> tpl[k] !in stops) && (e < |tpl| ==> tpl[e] in stops)
    ensures ScanTo(tpl, i, stops) == e
    decreases e - i
  {
    if i < e { ScanFrom(tpl, i + 1, e, stops); }
  }

  lemma ScanReads(tpl: seq<byte>, i: nat, part: seq<byte>, tail: seq<byte>, stops: set<byte>)
    requires At(tpl, i, part + tail) && tail != [] && tail[0] in stops && forall k :: 0 <= k < |part| ==> part[k] !in stops
    ensures i <= |tpl| && ScanTo(tpl, i, stops) == i + |part|
    ensures At(tpl, i + |part|, tail) && tpl[i..i + |part|] == part
  {
    AtConcat(tpl, i, part, tail);
    forall k | i <= k < i + |part| ensures tpl[k] !in stops { AtByte(tpl, i, part, k - i); }
    AtByte(tpl, i + |part|, tail, 0);
    ScanFrom(tpl, i, i + |part|, stops);
  }

  lemma WordReads(tpl: seq<byte>, i: nat, word: seq<byte>, tail: seq<byte>)
    requires At(tpl, i, word + tail)
    ensures HasWord(tpl, i, word) && At(tpl, i + |word|, tail)
  {
    AtConcat(tpl, i, word, tail);
  }

  lemma FillReads(tpl: seq<byte>, i: nat, fill: byte, tail: seq<byte>)
    requires At(tpl, i, [COMMA, QUOTE, fill, QUOTE, RPAREN] + tail)
    ensures i <= |tpl| && FillAt(tpl, i) == fill && FillEnd(tpl, i) == i + 4 && Has(tpl, i + 4, RPAREN) && At(tpl, i + 5, tail)
  {
    var part := [COMMA, QUOTE, fill, QUOTE, RPAREN];
    AtConcat(tpl, i, part, tail);
    AtByte(tpl, i, part, 0);
    AtByte(tpl, i, part, 1);
    AtByte(tpl, i, part, 2);
    AtByte(tpl, i, part, 3);
    AtByte(tpl, i, part, 4);
  }

  lemma PadReads(tpl: seq<byte>, i: nat, side: Side, width: nat, fill: byte, tail: seq<byte>)
    requires 0 < width < U16
    requires At(tpl, i, [LPAREN] + (Digits(width) + ([COMMA, QUOTE, fill, QUOTE, RPAREN] + tail)))
    ensures var e := i + |Digits(width)| + 6;
      i <= |tpl| && PadAt(tpl, i, side) == Read(Pad(side, width, fill), e) && At(tpl, e, tail)
  {
    hide Digits, At, NumberAt, FillAt, FillEnd;
    var close := [COMMA, QUOTE, fill, QUOTE, RPAREN] + tail;
    AtConcat(tpl, i, [LPAREN], Digits(width) + close);
    AtByte(tpl, i, [LPAREN], 0);
    AtConcat(tpl, i + 1, Digits(width), close);
    AtByte(tpl, i + 1, Digits(width), 0);
    FirstDigit(width);
    NumberReads(tpl, i + 1, width, close);
    FillReads(tpl, i + 1 + |Digits(width)|, fill, tail);
  }

  lemma WordsDiffer(tpl: seq<byte>, i: nat)
    ensures HasWord(tpl, i, LOWER_CALL) ==> !HasWord(tpl, i, UPPER_CALL)
    ensures HasWord(tpl, i, LENGTH_CALL) ==> !HasWord(tpl, i, UPPER_CALL) && !HasWord(tpl, i, LOWER_CALL)
    ensures HasWord(tpl, i, LPAD_WORD) ==>
      !HasWord(tpl, i, UPPER_CALL) && !HasWord(tpl, i, LOWER_CALL) && !HasWord(tpl, i, LENGTH_CALL)
    ensures HasWord(tpl, i, RPAD_WORD) ==>
      !HasWord(tpl, i, UPPER_CALL) && !HasWord(tpl, i, LOWER_CALL) && !HasWord(tpl, i, LENGTH_CALL)
      && !HasWord(tpl, i, LPAD_WORD)
  {
    WordStart(tpl, i, UPPER_CALL);
    WordStart(tpl, i, LOWER_CALL);
    WordStart(tpl, i, LENGTH_CALL);
    WordStart(tpl, i, LPAD_WORD);
    WordStart(tpl, i, RPAD_WORD);
  }

  lemma WordStart(tpl: seq<byte>, i: nat, word: seq<byte>)
    requires |word| >= 2
    ensures HasWord(tpl, i, word) ==> i + 2 <= |tpl| && tpl[i] == word[0] && tpl[i + 1] == word[1]
  {
    if HasWord(tpl, i, word) {
      assert tpl[i..i + |word|][0] == tpl[i] && tpl[i..i + |word|][1] == tpl[i + 1];
    }
  }

  /** A printed format, and what it is printed from. */
  function FormatText(f: Format): seq<byte> {
    match f
    case Plain => []
    case Style(s) => [DOT] + StyleCall(s)
    case Pad(side, width, fill) => PadCall(side, width, fill)
  }

  lemma StyleReads(tpl: seq<byte>, i: nat, s: Style, tail: seq<byte>)
    requires At(tpl, i, [DOT] + (StyleCall(s) + tail))
    ensures var e := i + 1 + |StyleCall(s)|;
      i <= |tpl| && FormatAt(tpl, i) == Read(Style(s), e) && At(tpl, e, tail)
  {
    hide HasWord, PadAt, At;
    AtConcat(tpl, i, [DOT], StyleCall(s) + tail);
    AtByte(tpl, i, [DOT], 0);
    WordReads(tpl, i + 1, StyleCall(s), tail);
    WordsDiffer(tpl, i + 1);
  }

  lemma PadFormatReads(tpl: seq<byte>, i: nat, side: Side, width: nat, fill: byte, tail: seq<byte>)
    requires 0 < width < U16
    requires At(tpl, i, [DOT] + (PadWord(side) + ([LPAREN] + (Digits(width) + ([COMMA, QUOTE, fill, QUOTE, RPAREN] + tail)))))
    ensures var e := i + 11 + |Digits(width)|;
      i <= |tpl| && FormatAt(tpl, i) == Read(Pad(side, width, fill), e) && At(tpl, e, tail)
  {
    hide HasWord, PadAt, At, Digits;
    var inner := [LPAREN] + (Digits(width) + ([COMMA, QUOTE, fill, QUOTE, RPAREN] + tail));
    AtConcat(tpl, i, [DOT], PadWord(side) + inner);
    AtByte(tpl, i, [DOT], 0);
    WordReads(tpl, i + 1, PadWord(side), inner);
    WordsDiffer(tpl, i + 1);
    PadReads(tpl, i + 5, side, width, fill, tail);
  }

  lemma RegroupPad(side: Side, width: nat, fill: byte, tail: seq<byte>)
    ensures PadCall(side, width, fill) + tail
         == [DOT] + (PadWord(side) + ([LPAREN] + (Digits(width) + ([COMMA, QUOTE, fill, QUOTE, RPAREN] + tail))))
    ensures |PadCall(side, width, fill)| == 11 + |Digits(width)|
  {
    hide Digits;
  }

  predicate PrintableFormat(f: Format) { f.Pad? ==> 0 < f.width < U16 }

  lemma FormatReads(tpl: seq<byte>, i: nat, f: Format, tail: seq<byte>)
    requires PrintableFormat(f) && At(tpl, i, FormatText(f) + ([RBRACE] + tail))
    ensures var e := i + |FormatText(f)|;
      i <= |tpl| && FormatAt(tpl, i) == Read(f, e) && At(tpl, e, [RBRACE] + tail)
  {
    hide HasWord, PadAt, At, Digits, PadCall, FormatAt, StyleCall;
    var rest := [RBRACE] + tail;
    match f
    case Plain =>
      PlainReads(tpl, i, rest);
    case Style(s) =>
      assert FormatText(f) + rest == [DOT] + (StyleCall(s) + rest);
      assert |FormatText(f)| == 1 + |StyleCall(s)|;
      StyleReads(tpl, i, s, rest);
    case Pad(side, width, fill) =>
      RegroupPad(side, width, fill, rest);
      PadFormatReads(tpl, i, side, width, fill, rest);
  }

  lemma BraceHere(tpl: seq<byte>, e: nat, tail: seq<byte>)
    requires At(tpl, e, [RBRACE] + tail)
    ensures Has(tpl, e, RBRACE)
  {
    AtByte(tpl, e, [RBRACE] + tail, 0);
  }

  lemma PlainReads(tpl: seq<byte>, i: nat, rest: seq<byte>)
    requires At(tpl, i, [] + rest) && rest != [] && rest[0] == RBRACE
    ensures i <= |tpl| && FormatAt(tpl, i) == Read(Plain, i) && At(tpl, i, rest)
  {
    assert [] + rest == rest;
    AtByte(tpl, i, rest, 0);
  }

  // ----- References -----

  lemma BraceOpens(tpl: seq<byte>, p: nat)
    requires At(tpl, p, [DOLLAR, LBRACE, LOWER_V])
    ensures p + 3 <= |tpl| && tpl[p] == DOLLAR && tpl[p + 1] == LBRACE && tpl[p + 2] == LOWER_V
  {
    var open: seq<byte> := [DOLLAR, LBRACE, LOWER_V];
    AtFits(tpl, p, open);
    AtByte(tpl, p, open, 0);
    AtByte(tpl, p, open, 1);
    AtByte(tpl, p, open, 2);
  }

  lemma BracedReads(tpl: seq<byte>, p: nat, reg: byte, f: Format, tail: seq<byte>)
    requires PrintableFormat(f) && At(tpl, p, Braced(reg, FormatText(f)) + tail)
    ensures p < |tpl| && tpl[p] == DOLLAR
    ensures RefAt(tpl, p) == Found(Formatted(reg, f), p + |Braced(reg, FormatText(f))|)
  {
    hide At, Digits, FormatText, FormatAt, NumberAt, PrintableFormat, Formatted;
    var open: seq<byte> := [DOLLAR, LBRACE, LOWER_V];
    var close := FormatText(f) + ([RBRACE] + tail);
    assert Braced(reg, FormatText(f)) + tail == open + (Digits(reg) + close);
    AtConcat(tpl, p, open, Digits(reg) + close);
    BraceOpens(tpl, p);
    FormatStart(f, tail);
    NumberReads(tpl, p + 3, reg, close);
    FormatReads(tpl, p + 3 + |Digits(reg)|, f, tail);
    BraceHere(tpl, p + 3 + |Digits(reg)| + |FormatText(f)|, tail);
  }

  lemma FormatStart(f: Format, tail: seq<byte>)
    ensures var close := FormatText(f) + ([RBRACE] + tail); close != [] && !IsDigit(close[0])
  {
    hide StyleCall, Digits, PadWord;
  }

  lemma OpenReads(tpl: seq<byte>, p: nat)
    requires At(tpl, p, [DOLLAR, LOWER_V, ZERO, LBRACKET])
    ensures p + 4 <= |tpl| && tpl[p] == DOLLAR && tpl[p + 1] == LOWER_V && tpl[p + 2] == ZERO && tpl[p + 3] == LBRACKET
  {
    var open: seq<byte> := [DOLLAR, LOWER_V, ZERO, LBRACKET];
    AtFits(tpl, p, open);
    AtByte(tpl, p, open, 0);
    AtByte(tpl, p, open, 1);
    AtByte(tpl, p, open, 2);
    AtByte(tpl, p, open, 3);
  }

  lemma NameReads(tpl: seq<byte>, p: nat, name: seq<byte>, tail: seq<byte>)
    requires IsName(name) && At(tpl, p, [DOLLAR, LOWER_V, ZERO, LBRACKET] + (name + ([LBRACKET] + tail)))
    ensures p < |tpl| && tpl[p] == DOLLAR
    ensures var k := p + 5 + |name|; k <= |tpl| && At(tpl, k, tail) && RefAt(tpl, p) == KeyRef(tpl, k, name)
  {
    hide At, KeyRef, NumberAt;
    AtConcat(tpl, p, [DOLLAR, LOWER_V, ZERO, LBRACKET], name + ([LBRACKET] + tail));
    OpenReads(tpl, p);
    DigitsEndFrom(tpl, p + 2, p + 3);
    StopsHere(tpl, p + 3);
    ScanReads(tpl, p + 4, name, [LBRACKET] + tail, NAME_ENDS);
    AtConcat(tpl, p + 4 + |name|, [LBRACKET], tail);
    AtByte(tpl, p + 4 + |name|, [LBRACKET], 0);
    AtFits(tpl, p + 4 + |name|, [LBRACKET]);
  }

  lemma BracketsRead(tpl: seq<byte>, i: nat, tail: seq<byte>)
    requires At(tpl, i, [RBRACKET, RBRACKET] + tail)
    ensures Has(tpl, i, RBRACKET) && SkipBracket(tpl, i + 1) == i + 2
  {
    AtConcat(tpl, i, [RBRACKET, RBRACKET], tail);
    AtByte(tpl, i, [RBRACKET, RBRACKET], 0);
    AtByte(tpl, i, [RBRACKET, RBRACKET], 1);
  }

  lemma LiteralKeyReads(tpl: seq<byte>, k: nat, name: seq<byte>, key: seq<byte>, tail: seq<byte>)
    requires QUOTE !in key && At(tpl, k, [QUOTE] + (key + ([QUOTE] + ([RBRACKET, RBRACKET] + tail))))
    ensures k <= |tpl| && KeyRef(tpl, k, name) == Found(LiteralKey(UNBOUND, name, key), k + |key| + 4)
  {
    hide At;
    var close := [QUOTE] + ([RBRACKET, RBRACKET] + tail);
    AtConcat(tpl, k, [QUOTE], key + close);
    AtFits(tpl, k, [QUOTE]);
    AtByte(tpl, k, [QUOTE], 0);
    ScanReads(tpl, k + 1, key, close, {QUOTE});
    var q := k + 1 + |key|;
    AtConcat(tpl, q, [QUOTE], [RBRACKET, RBRACKET] + tail);
    AtFits(tpl, q, [QUOTE]);
    BracketsRead(tpl, q + 1, tail);
  }

  lemma CapturedKeyReads(tpl: seq<byte>, k: nat, name: seq<byte>, reg: byte, tail: seq<byte>)
    requires At(tpl, k, Digits(reg) + ([RBRACKET, RBRACKET] + tail))
    ensures k <= |tpl| && KeyRef(tpl, k, name) == Found(CapturedKey(UNBOUND, name, reg), k + |Digits(reg)| + 2)
  {
    hide At, Digits, NumberAt;
    var close := [RBRACKET, RBRACKET] + tail;
    NumberReads(tpl, k, reg, close);
    AtConcat(tpl, k, Digits(reg), close);
    AtByte(tpl, k, Digits(reg), 0);
    BracketsRead(tpl, k + |Digits(reg)|, tail);
  }

  lemma BracketedParts(name: seq<byte>, key: seq<byte>, tail: seq<byte>)
    ensures Bracketed(name, key) + tail
         == [DOLLAR, LOWER_V, ZERO, LBRACKET] + (name + ([LBRACKET] + (key + ([RBRACKET, RBRACKET] + tail))))
    ensures |Bracketed(name, key)| == 7 + |name| + |key|
  {
    assert key + [RBRACKET, RBRACKET] + tail == key + ([RBRACKET, RBRACKET] + tail);
  }

  lemma QuotedParts(key: seq<byte>, close: seq<byte>)
    ensures [QUOTE] + (key + [QUOTE]) + close == [QUOTE] + (key + ([QUOTE] + close))
  {
  }

  /** How a table reference is put together: its name, then a bracket and the key. */
  lemma PrintedTable(x: Piece, tail: seq<byte>)
    requires IsTable(x)
    ensures var close: seq<byte> := [RBRACKET, RBRACKET] + tail;
      var key := if x.LiteralKey? then [QUOTE] + (x.key + ([QUOTE] + close)) else Digits(x.keyReg) + close;
      Printed(x) + tail == [DOLLAR, LOWER_V, ZERO, LBRACKET] + (x.name + ([LBRACKET] + key))
    ensures |Printed(x)| == 5 + |x.name| + if x.LiteralKey? then |x.key| + 4 else |Digits(x.keyReg)| + 2
  {
    hide Digits, Bracketed;
    if x.LiteralKey? {
      BracketedParts(x.name, [QUOTE] + (x.key + [QUOTE]), tail);
      QuotedParts(x.key, [RBRACKET, RBRACKET] + tail);
    } else {
      BracketedParts(x.name, Digits(x.keyReg), tail);
    }
  }

  lemma TableReads(tpl: seq<byte>, p: nat, x: Piece, tail: seq<byte>)
    requires IsTable(x) && Printable(x) && At(tpl, p, Printed(x) + tail)
    ensures p < |tpl| && tpl[p] == DOLLAR && RefAt(tpl, p) == Found(x, p + |Printed(x)|)
  {
    hide At, Digits, RefAt, KeyRef, Printed;
    PrintedTable(x, tail);
    var close: seq<byte> := [RBRACKET, RBRACKET] + tail;
    if x.LiteralKey? {
      NameReads(tpl, p, x.name, [QUOTE] + (x.key + ([QUOTE] + close)));
      LiteralKeyReads(tpl, p + 5 + |x.name|, x.name, x.key, tail);
    } else {
      NameReads(tpl, p, x.name, Digits(x.keyReg) + close);
      CapturedKeyReads(tpl, p + 5 + |x.name|, x.name, x.keyReg, tail);
    }
  }

  /** The format a capture piece was read from. */
  function FormatOfPiece(x: Piece): Format
    requires x.Capture? || x.Styled? || x.Padded?
  {
    match x
    case Capture(_) => Plain
    case Styled(_, s) => Style(s)
    case Padded(_, side, width, fill) => Pad(side, width, fill)
  }

  lemma CaptureReads(tpl: seq<byte>, p: nat, x: Piece, tail: seq<byte>)
    requires (x.Capture? || x.Styled? || x.Padded?) && Printable(x) && At(tpl, p, Printed(x) + tail)
    ensures p < |tpl| && tpl[p] == DOLLAR && RefAt(tpl, p) == Found(x, p + |Printed(x)|)
  {
    hide At, Digits, RefAt, Braced;
    BracedReads(tpl, p, x.reg, FormatOfPiece(x), tail);
  }

  lemma TextReads(tpl: seq<byte>, p: nat, text: seq<byte>, tail: seq<byte>)
    requires Printable(Text(text)) && At(tpl, p, text + tail) && p + |text + tail| == |tpl|
    requires tail != [] ==> tail[0] == DOLLAR
    ensures p < |tpl| && StepAt(tpl, p) == Some(Step(Text(text), p + |text|))
  {
    AtConcat(tpl, p, text, tail);
    AtByte(tpl, p, text, 0);
    forall k | p <= k < p + |text| ensures tpl[k] !in {DOLLAR} { AtByte(tpl, p, text, k - p); }
    if tail != [] { AtByte(tpl, p + |text|, tail, 0); }
    ScanFrom(tpl, p, p + |text|, {DOLLAR});
  }

  lemma StepReads(tpl: seq<byte>, p: nat, x: Piece, tail: seq<byte>)
    requires Printable(x) && At(tpl, p, Printed(x) + tail) && p + |Printed(x) + tail| == |tpl|
    requires x.Text? && tail != [] ==> tail[0] == DOLLAR
    ensures p < |tpl| && StepAt(tpl, p) == Some(Step(x, p + |Printed(x)|))
  {
    hide At, RefAt, Braced, Bracketed;
    match x
    case Text(text) => TextReads(tpl, p, text, tail);
    case LiteralKey(_, _, _) => TableReads(tpl, p, x, tail);
    case CapturedKey(_, _, _) => TableReads(tpl, p, x, tail);
    case _ => CaptureReads(tpl, p, x, tail);
  }

  lemma StartsWithDollar(xs: seq<Piece>)
    requires xs != [] && !xs[0].Text?
    ensures PrintedAll(xs) != [] && PrintedAll(xs)[0] == DOLLAR
  {
    hide Digits;
  }

  lemma {:induction false} PrintedReads(tpl: seq<byte>, p: nat, xs: seq<Piece>)
    requires PrintableAll(xs) && At(tpl, p, PrintedAll(xs)) && p + |PrintedAll(xs)| == |tpl|
    ensures PiecesFrom(tpl, p) == Some(xs)
    decreases |xs|
  {
    hide At, Printed, StepAt, Printable;
    if xs != [] {
      var x, rest := xs[0], xs[1..];
      var tail := PrintedAll(rest);
      if x.Text? && rest != [] {
        assert !xs[1].Text?;
        StartsWithDollar(rest);
      }
      StepReads(tpl, p, x, tail);
      AtConcat(tpl, p, Printed(x), tail);
      RestPrintable(xs);
      PrintedReads(tpl, p + |Printed(x)|, rest);
      assert xs == [x] + rest;
    }
  }

  lemma RestPrintable(xs: seq<Piece>)
    requires xs != [] && PrintableAll(xs)
    ensures Printable(xs[0]) && PrintableAll(xs[1..])
  {
    hide Printable;
    var rest := xs[1..];
    forall k | 0 <= k < |rest| ensures Printable(rest[k]) { assert rest[k] == xs[k + 1]; }
    forall k | 0 <= k < |rest| - 1 && rest[k].Text? ensures !rest[k + 1].Text? {
      assert rest[k] == xs[k + 1] && rest[k + 1] == xs[k + 2];
    }
  }

  /** Every list of expressible pieces, written down and compiled, is that list again. */
  lemma PrintedCompiles(xs: seq<Piece>)
    requires PrintableAll(xs)
    ensures Pieces(PrintedAll(xs)) == Some(xs)
  {
    hide PrintableAll, PrintedAll, PiecesFrom, At;
    Whole(PrintedAll(xs));
    PrintedReads(PrintedAll(xs), 0, xs);
  }
}
