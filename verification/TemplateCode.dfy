/** Replacement templates as a list of pieces, and the bytes each piece compiles to (vm.h). */
module TemplateCode {
  import opened Wrappers
  import opened Bytes
  import opened Bytecode

  const FMT_UPPER: byte := 1
  const FMT_LOWER: byte := 2
  const FMT_LENGTH: byte := 3

  /** Formats without operands of their own. */
  datatype Style = Upper | Lower | Length

  datatype Side = Left | Right

  /** One piece of a template. Table pieces carry the id found for their name, if any so far. */
  datatype Piece =
    | Text(text: seq<byte>)
    | Capture(reg: byte)
    | Styled(reg: byte, style: Style)
    | Padded(reg: byte, side: Side, width: nat, fill: byte)
    | LiteralKey(table: nat, name: seq<byte>, key: seq<byte>)
    | CapturedKey(table: nat, name: seq<byte>, keyReg: byte)

  predicate IsTable(x: Piece) { x.LiteralKey? || x.CapturedKey? }

  /** What fits the fields the compiler writes. */
  predicate Fits(x: Piece) {
    match x
    case Text(text) => |text| < U32
    case Padded(_, _, width, _) => width < U16
    case LiteralKey(table, name, key) => table < U16 && |name| < U8 && |key| < U16
    case CapturedKey(table, name, _) => table < U16 && |name| < U8
    case _ => true
  }

  function StyleCode(s: Style): byte {
    match s
    case Upper => FMT_UPPER
    case Lower => FMT_LOWER
    case Length => FMT_LENGTH
  }

  function SideCode(s: Side): byte { if s.Left? then FMT_LPAD else FMT_RPAD }

  function PieceOpcode(x: Piece): byte {
    match x
    case Text(_) => OP_EMIT_LITERAL
    case Capture(_) => OP_EMIT_CAPTURE
    case Styled(_, _) => OP_EMIT_FORMAT
    case Padded(_, _, _, _) => OP_EMIT_FORMAT
    case LiteralKey(_, _, _) => OP_EMIT_TABLE
    case CapturedKey(_, _, _) => OP_EMIT_TABLE
  }

  function TableKind(x: Piece): byte
    requires IsTable(x)
  {
    if x.LiteralKey? then 0 else 1
  }

  function KeyBytes(x: Piece): seq<byte>
    requires IsTable(x)
  {
    if x.LiteralKey? then Enc16(|x.key|) + x.key else [x.keyReg]
  }

  /** The operands of a piece compiled at `p`; inline text points just behind its own header. */
  function PieceOperands(x: Piece, p: nat): seq<byte> {
    match x
    case Text(text) => Enc32(p + 9) + Enc32(|text|) + text
    case Capture(reg) => [reg]
    case Styled(reg, style) => [reg, StyleCode(style)]
    case Padded(reg, side, width, fill) => [reg, SideCode(side)] + Enc16(width) + [fill]
    case LiteralKey(table, name, _) => Enc16(table) + ([TableKind(x), Low8(|name|)] + name + KeyBytes(x))
    case CapturedKey(table, name, _) => Enc16(table) + ([TableKind(x), Low8(|name|)] + name + KeyBytes(x))
  }

  function PieceBytes(x: Piece, p: nat): (s: seq<byte>)
    ensures |s| >= 1 && s[0] == PieceOpcode(x)
  {
    [PieceOpcode(x)] + PieceOperands(x, p)
  }

  function CodeOf(xs: seq<Piece>, p: nat): seq<byte> {
    if xs == [] then [] else PieceBytes(xs[0], p) + CodeOf(xs[1..], p + |PieceBytes(xs[0], p)|)
  }

  /** A whole template: its pieces, then the end marker. */
  function TemplateOf(xs: seq<Piece>): seq<byte> { CodeOf(xs, 0) + [OP_ACCEPT] }

  /** Where the pieces begin, followed by where the end marker is. */
  function Stops(xs: seq<Piece>, p: nat): seq<nat> {
    if xs == [] then [p] else [p] + Stops(xs[1..], p + |PieceBytes(xs[0], p)|)
  }

  lemma {:induction false} CodeSnoc(xs: seq<Piece>, x: Piece, p: nat)
    ensures CodeOf(xs + [x], p) == CodeOf(xs, p) + PieceBytes(x, p + |CodeOf(xs, p)|)
    decreases |xs|
  {
    hide PieceBytes;
    if xs == [] {
      assert xs + [x] == [x];
      assert [x][1..] == [];
    } else {
      assert (xs + [x])[1..] == xs[1..] + [x];
      CodeSnoc(xs[1..], x, p + |PieceBytes(xs[0], p)|);
    }
  }

  // ----- Reading a piece back -----

  lemma TextLayout(code: seq<byte>, p: nat, text: seq<byte>)
    requires |text| < U32 && At(code, p, PieceBytes(Text(text), p))
    ensures p + 9 + |text| <= |code| && code[p] == OP_EMIT_LITERAL
    ensures U32At(code, p + 1) == Low32(p + 9) && U32At(code, p + 5) == |text| && code[p + 9..p + 9 + |text|] == text
  {
    hide Enc32, Low32, U32At;
    AtByte(code, p, PieceBytes(Text(text), p), 0);
    AtConcat(code, p, [OP_EMIT_LITERAL], Enc32(p + 9) + Enc32(|text|) + text);
    PayloadLayout(code, p + 1, p + 9, text);
    Fits32(|text|);
  }

  /** The fields of a table reference: id, key kind, name length, name, key. */
  lemma TableFields(code: seq<byte>, p: nat, op: byte, table: nat, kind: byte, name: seq<byte>, key: seq<byte>)
    requires table < U16 && |name| < U8
    requires At(code, p, [op] + (Enc16(table) + ([kind, Low8(|name|)] + name + key)))
    ensures p + 5 + |name| + |key| <= |code|
    ensures code[p] == op && U16At(code, p + 1) == table && code[p + 3] == kind && code[p + 4] == |name|
    ensures At(code, p + 5, name) && At(code, p + 5 + |name|, key)
  {
    hide Enc16, U16At, At;
    var head := [kind, Low8(|name|)];
    AtConcat(code, p, [op], Enc16(table) + (head + name + key));
    AtConcat(code, p + 1, Enc16(table), head + name + key);
    AtConcat(code, p + 3, head + name, key);
    AtConcat(code, p + 3, head, name);
    Decode16(code, p + 1, table);
    AtByte(code, p, [op], 0);
    AtByte(code, p + 3, head, 0);
    AtByte(code, p + 3, head, 1);
    AtFits(code, p + 5 + |name|, key);
  }

  lemma AtFits(code: seq<byte>, p: nat, part: seq<byte>)
    requires At(code, p, part)
    ensures p + |part| <= |code| && code[p..p + |part|] == part
  {
  }

  lemma TableShape(x: Piece, p: nat)
    requires IsTable(x)
    ensures PieceBytes(x, p) == [OP_EMIT_TABLE] + (Enc16(x.table) + ([TableKind(x), Low8(|x.name|)] + x.name + KeyBytes(x)))
    ensures |PieceBytes(x, p)| == 5 + |x.name| + |KeyBytes(x)|
  {
    hide Enc16, KeyBytes, TableKind;
  }

  lemma TableLayout(code: seq<byte>, p: nat, x: Piece)
    requires IsTable(x) && Fits(x) && At(code, p, PieceBytes(x, p))
    ensures |PieceBytes(x, p)| == 5 + |x.name| + |KeyBytes(x)|
    ensures p + 5 + |x.name| + |KeyBytes(x)| <= |code|
    ensures code[p] == OP_EMIT_TABLE && U16At(code, p + 1) == x.table
    ensures code[p + 3] == TableKind(x) && code[p + 4] == |x.name|
    ensures code[p + 5..p + 5 + |x.name|] == x.name && At(code, p + 5 + |x.name|, KeyBytes(x))
  {
    hide Enc16, KeyBytes, U16At, At, TableKind, PieceBytes;
    TableShape(x, p);
    TableFields(code, p, OP_EMIT_TABLE, x.table, TableKind(x), x.name, KeyBytes(x));
    AtFits(code, p + 5, x.name);
  }

  lemma KeyLayout(code: seq<byte>, p: nat, x: Piece)
    requires IsTable(x) && Fits(x) && At(code, p, KeyBytes(x))
    ensures x.LiteralKey? ==>
      p + 2 + |x.key| <= |code| && U16At(code, p) == |x.key| && code[p + 2..p + 2 + |x.key|] == x.key
    ensures x.CapturedKey? ==> p + 1 <= |code| && code[p] == x.keyReg
  {
    hide Enc16, U16At;
    if x.LiteralKey? {
      AtConcat(code, p, Enc16(|x.key|), x.key);
      Decode16(code, p, |x.key|);
    } else {
      AtByte(code, p, [x.keyReg], 0);
    }
  }

  lemma PaddedLayout(code: seq<byte>, p: nat, x: Piece)
    requires x.Padded? && Fits(x) && At(code, p, PieceBytes(x, p))
    ensures p + 6 <= |code| && |PieceBytes(x, p)| == 6
    ensures code[p] == OP_EMIT_FORMAT && code[p + 1] == x.reg && code[p + 2] == SideCode(x.side)
    ensures U16At(code, p + 3) == x.width && code[p + 5] == x.fill
  {
    hide Enc16, U16At;
    var head := [OP_EMIT_FORMAT, x.reg, SideCode(x.side)];
    assert PieceBytes(x, p) == head + Enc16(x.width) + [x.fill];
    AtConcat(code, p, head + Enc16(x.width), [x.fill]);
    AtConcat(code, p, head, Enc16(x.width));
    Decode16(code, p + 3, x.width);
    AtByte(code, p, head, 0);
    AtByte(code, p, head, 1);
    AtByte(code, p, head, 2);
    AtByte(code, p + 5, [x.fill], 0);
  }

  lemma SmallLayout(code: seq<byte>, p: nat, x: Piece)
    requires (x.Capture? || x.Styled?) && At(code, p, PieceBytes(x, p))
    ensures p + |PieceBytes(x, p)| <= |code| && code[p] == PieceOpcode(x) && code[p + 1] == x.reg
    ensures |PieceBytes(x, p)| == if x.Capture? then 2 else 3
    ensures x.Styled? ==> code[p + 2] == StyleCode(x.style)
  {
    AtByte(code, p, PieceBytes(x, p), 0);
    AtByte(code, p, PieceBytes(x, p), 1);
    if x.Styled? { AtByte(code, p, PieceBytes(x, p), 2); }
  }

  /** The head of a piece list sits in front of the code of the rest. */
  lemma HeadAt(code: seq<byte>, p: nat, xs: seq<Piece>, tail: seq<byte>)
    requires xs != [] && At(code, p, CodeOf(xs, p) + tail)
    ensures At(code, p, PieceBytes(xs[0], p))
    ensures var n := p + |PieceBytes(xs[0], p)|; At(code, n, CodeOf(xs[1..], n) + tail)
  {
    hide PieceBytes;
    var h := PieceBytes(xs[0], p);
    var n := p + |h|;
    assert CodeOf(xs, p) + tail == h + (CodeOf(xs[1..], n) + tail);
    AtConcat(code, p, h, CodeOf(xs[1..], n) + tail);
  }
}
