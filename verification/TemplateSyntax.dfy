/** The syntax of replacement templates: which pieces a template text stands for (compiler.c). */
module TemplateSyntax {
  import opened Wrappers
  import opened Bytes
  import opened Bytecode
  import opened TemplateCode

  const DOLLAR: byte := 36
  const QUOTE: byte := 39
  const LPAREN: byte := 40
  const RPAREN: byte := 41
  const COMMA: byte := 44
  const DOT: byte := 46
  const ZERO: byte := 48
  const NINE: byte := 57
  const LBRACKET: byte := 91
  const RBRACKET: byte := 93
  const LOWER_V: byte := 118
  const LBRACE: byte := 123
  const RBRACE: byte := 125
  const SPACE: byte := 32

  const UPPER_CALL: seq<byte> := [117, 112, 112, 101, 114, 40, 41]
  const LOWER_CALL: seq<byte> := [108, 111, 119, 101, 114, 40, 41]
  const LENGTH_CALL: seq<byte> := [108, 101, 110, 103, 116, 104, 40, 41]
  const LPAD_WORD: seq<byte> := [108, 112, 97, 100]
  const RPAD_WORD: seq<byte> := [114, 112, 97, 100]

  predicate IsDigit(b: byte) { ZERO <= b <= NINE }

  /** The byte at `i` is `c`. */
  predicate Has(tpl: seq<byte>, i: nat, c: byte) { i < |tpl| && tpl[i] == c }

  predicate HasWord(tpl: seq<byte>, i: nat, word: seq<byte>) {
    i + |word| <= |tpl| && tpl[i..i + |word|] == word
  }

  /** End of the run of digits at `i`. */
  function DigitsEnd(tpl: seq<byte>, i: nat): (e: nat)
    requires i <= |tpl|
    ensures i <= e <= |tpl| && (forall k :: i <= k < e ==> IsDigit(tpl[k]))
    ensures e < |tpl| ==> !IsDigit(tpl[e])
    decreases |tpl| - i
  {
    if i < |tpl| && IsDigit(tpl[i]) then DigitsEnd(tpl, i + 1) else i
  }

  /** First position from `i` on that holds one of the stop bytes. */
  function ScanTo(tpl: seq<byte>, i: nat, stops: set<byte>): (e: nat)
    requires i <= |tpl|
    ensures i <= e <= |tpl| && (forall k :: i <= k < e ==> tpl[k] !in stops)
    ensures e < |tpl| ==> tpl[e] in stops
    decreases |tpl| - i
  {
    if i < |tpl| && tpl[i] !in stops then ScanTo(tpl, i + 1, stops) else i
  }

  /** The number a run of digits spells. */
  function Decimal(digits: seq<byte>): nat
    requires forall k :: 0 <= k < |digits| ==> IsDigit(digits[k])
  {
    if digits == [] then 0
    else
      var last: int := digits[|digits| - 1];
      assert IsDigit(digits[|digits| - 1]);
      Decimal(digits[..|digits| - 1]) * 10 + (last - ZERO)
  }

  function NumberAt(tpl: seq<byte>, i: nat): nat
    requires i <= |tpl|
  {
    Decimal(tpl[i..DigitsEnd(tpl, i)])
  }

  // ----- Formats: what may follow the register in ${vN.…} -----

  datatype Format = Plain | Style(style: Style) | Pad(side: Side, width: nat, fill: byte)

  /** A format and the position behind what was read of it. */
  datatype Read = Read(format: Format, next: nat)

  function FillAt(tpl: seq<byte>, i: nat): byte {
    if Has(tpl, i, COMMA) && Has(tpl, i + 1, QUOTE) && i + 2 < |tpl| then tpl[i + 2] else SPACE
  }

  function FillEnd(tpl: seq<byte>, i: nat): (e: nat)
    requires i <= |tpl|
    ensures i <= e <= |tpl|
  {
    if !Has(tpl, i, COMMA) then i
    else if !Has(tpl, i + 1, QUOTE) then i + 1
    else if i + 2 >= |tpl| then i + 2
    else if Has(tpl, i + 3, QUOTE) then i + 4
    else i + 3
  }

  function PadAt(tpl: seq<byte>, i: nat, side: Side): (r: Read)
    requires i <= |tpl|
    ensures i <= r.next <= |tpl|
  {
    if !Has(tpl, i, LPAREN) then Read(Plain, i)
    else if !(i + 1 < |tpl| && ZERO < tpl[i + 1] <= NINE) then Read(Plain, i + 1)
    else
      var w := DigitsEnd(tpl, i + 1);
      var f := FillEnd(tpl, w);
      if Has(tpl, f, RPAREN) then Read(Pad(side, Low16(NumberAt(tpl, i + 1)), FillAt(tpl, w)), f + 1)
      else Read(Plain, f)
  }

  function FormatAt(tpl: seq<byte>, i: nat): (r: Read)
    requires i <= |tpl|
    ensures i <= r.next <= |tpl|
  {
    if !Has(tpl, i, DOT) then Read(Plain, i)
    else if HasWord(tpl, i + 1, UPPER_CALL) then Read(Style(Upper), i + 8)
    else if HasWord(tpl, i + 1, LOWER_CALL) then Read(Style(Lower), i + 8)
    else if HasWord(tpl, i + 1, LENGTH_CALL) then Read(Style(Length), i + 9)
    else if HasWord(tpl, i + 1, LPAD_WORD) then PadAt(tpl, i + 5, Left)
    else if HasWord(tpl, i + 1, RPAD_WORD) then PadAt(tpl, i + 5, Right)
    else Read(Plain, i + 1)
  }

  function Formatted(reg: byte, f: Format): Piece {
    match f
    case Plain => Capture(reg)
    case Style(s) => Styled(reg, s)
    case Pad(side, width, fill) => Padded(reg, side, width, fill)
  }

  // ----- References -----

  /** What a dollar sign begins: a reference ending before `next`, nothing, or an overlong table name. */
  datatype Reference = Found(piece: Piece, next: nat) | Malformed | NameTooLong

  /** A second closing bracket belongs to the reference when it is there. */
  function SkipBracket(tpl: seq<byte>, i: nat): nat { if Has(tpl, i, RBRACKET) then i + 1 else i }

  function CapturedKeyAt(tpl: seq<byte>, i: nat): (k: nat)
    requires i <= |tpl|
    ensures i <= k <= |tpl|
  {
    var j := if Has(tpl, i, DOLLAR) then i + 1 else i;
    if Has(tpl, j, LOWER_V) then j + 1 else j
  }

  function QuotedKey(tpl: seq<byte>, i: nat, name: seq<byte>): (r: Reference)
    requires i <= |tpl|
    ensures !r.NameTooLong? && (r.Found? ==> i < r.next <= |tpl| && IsTable(r.piece))
  {
    var q := ScanTo(tpl, i, {QUOTE});
    if q >= |tpl| || !Has(tpl, q + 1, RBRACKET) then Malformed
    else Found(LiteralKey(UNBOUND, name, tpl[i..q]), SkipBracket(tpl, q + 2))
  }

  function NumberedKey(tpl: seq<byte>, i: nat, name: seq<byte>): (r: Reference)
    requires i <= |tpl|
    ensures !r.NameTooLong? && (r.Found? ==> i < r.next <= |tpl| && IsTable(r.piece))
  {
    var k := CapturedKeyAt(tpl, i);
    var e := DigitsEnd(tpl, k);
    if e == k || !Has(tpl, e, RBRACKET) then Malformed
    else Found(CapturedKey(UNBOUND, name, Low8(NumberAt(tpl, k))), SkipBracket(tpl, e + 1))
  }

  function KeyRef(tpl: seq<byte>, i: nat, name: seq<byte>): (r: Reference)
    requires i <= |tpl|
    ensures !r.NameTooLong? && (r.Found? ==> i < r.next <= |tpl| && IsTable(r.piece))
  {
    if Has(tpl, i, QUOTE) then QuotedKey(tpl, i + 1, name) else NumberedKey(tpl, i, name)
  }

  const NAME_ENDS: set<byte> := {DOT, LBRACKET, RBRACKET}

  function TableRef(tpl: seq<byte>, i: nat): (r: Reference)
    requires i <= |tpl|
    ensures r.Found? ==> i < r.next <= |tpl|
  {
    var n := ScanTo(tpl, i, NAME_ENDS);
    if n == i || !Has(tpl, n, LBRACKET) then Malformed
    else if n - i > 255 then NameTooLong
    else KeyRef(tpl, n + 1, tpl[i..n])
  }

  function BracedRef(tpl: seq<byte>, i: nat, reg: byte): (r: Reference)
    requires i <= |tpl|
    ensures !r.NameTooLong?
    ensures r.Found? ==> i < r.next <= |tpl|
  {
    var f := FormatAt(tpl, i);
    if Has(tpl, f.next, RBRACE) then Found(Formatted(reg, f.format), f.next + 1) else Malformed
  }

  function RefAt(tpl: seq<byte>, dollar: nat): (r: Reference)
    requires dollar < |tpl|
    ensures r.Found? ==> dollar + 1 < r.next <= |tpl|
  {
    var braced := Has(tpl, dollar + 1, LBRACE);
    var i := if braced then dollar + 2 else dollar + 1;
    if !Has(tpl, i, LOWER_V) then TableRef(tpl, i)
    else
      var e := DigitsEnd(tpl, i + 1);
      var reg := Low8(NumberAt(tpl, i + 1));
      if e == i + 1 then Malformed
      else if braced then BracedRef(tpl, e, reg)
      else if Has(tpl, e, LBRACKET) then TableRef(tpl, e + 1)
      else Found(Capture(reg), e)
  }

  datatype Step = Step(piece: Piece, next: nat)

  /** A malformed reference leaves its dollar sign as text and the scan resumes right behind it. */
  function Resume(r: Reference, dollar: nat): Option<Step> {
    match r
    case Found(x, next) => Some(Step(x, next))
    case Malformed => Some(Step(Text([DOLLAR]), dollar + 1))
    case NameTooLong => None
  }

  function StepAt(tpl: seq<byte>, i: nat): (s: Option<Step>)
    requires i < |tpl|
    ensures s.Some? ==> i < s.value.next <= |tpl|
  {
    if tpl[i] == DOLLAR then Resume(RefAt(tpl, i), i)
    else
      var e := ScanTo(tpl, i, {DOLLAR});
      Some(Step(Text(tpl[i..e]), e))
  }

  /** The pieces of the template from `i` on; None when a table name is too long. */
  function PiecesFrom(tpl: seq<byte>, i: nat): Option<seq<Piece>>
    requires i <= |tpl|
    decreases |tpl| - i
  {
    if i == |tpl| then Some([])
    else
      var s :- StepAt(tpl, i);
      var rest :- PiecesFrom(tpl, s.next);
      Some([s.piece] + rest)
  }

  function Pieces(tpl: seq<byte>): Option<seq<Piece>> { PiecesFrom(tpl, 0) }

  /** The bytes of a template's program. */
  function CompiledTemplate(tpl: seq<byte>): Option<seq<byte>> {
    var xs :- Pieces(tpl);
    Some(TemplateOf(xs))
  }
}
