/** The two walkers on each other's code: the pattern walker on template pieces and dynamic definitions, the template
    binder on pattern instructions. */
module WalkerLayouts {
  import opened Wrappers
  import opened Bytes
  import opened Bytecode
  import opened TemplateCode
  import opened TemplateBinder

  lemma OperandsEnd(code: seq<byte>, p: nat)
    requires p < |code| && code[p] in {OP_EMIT_LITERAL, OP_EMIT_TABLE, OP_EMIT_FORMAT, OP_DYNAMIC_DEF}
    ensures code[p] == OP_EMIT_LITERAL ==> NextInstruction(code, p) == InlinePayloadEnd(code, p + 1)
    ensures code[p] == OP_EMIT_TABLE ==> NextInstruction(code, p) == EmitTableEnd(code, p + 1)
    ensures code[p] == OP_DYNAMIC_DEF ==> NextInstruction(code, p) == DynamicDefEnd(code, p + 1)
    ensures code[p] == OP_EMIT_FORMAT && p + 3 <= |code| ==>
      NextInstruction(code, p) == Some(if code[p + 2] in {FMT_LPAD, FMT_RPAD} then p + 6 else p + 3)
  {
    hide InlinePayloadEnd, EmitTableEnd, DynamicDefEnd, NamedOperandsEnd;
  }

  /** The walker steps over exactly one piece of a compiled template. */
  lemma WalkerMeetsPiece(code: seq<byte>, p: nat, x: Piece)
    requires Fits(x) && At(code, p, PieceBytes(x, p)) && |code| < U32
    ensures p < |code| && NextInstruction(code, p) == Some(p + |PieceBytes(x, p)|)
  {
    hide NextInstruction, Enc16, Enc32, U16At, U32At, Low32, At;
    match x
    case Text(text) =>
      TextLayout(code, p, text);
      Fits32(p + 9);
      OperandsEnd(code, p);
    case Padded(_, _, _, _) =>
      PaddedLayout(code, p, x);
      OperandsEnd(code, p);
    case LiteralKey(_, _, _) => WalkerMeetsTable(code, p, x);
    case CapturedKey(_, _, _) => WalkerMeetsTable(code, p, x);
    case Capture(_) =>
      SmallLayout(code, p, x);
      OneOperand(code, p);
    case Styled(_, _) =>
      SmallLayout(code, p, x);
      OperandsEnd(code, p);
  }

  lemma OneOperand(code: seq<byte>, p: nat)
    requires p + 2 <= |code| && code[p] == OP_EMIT_CAPTURE
    ensures NextInstruction(code, p) == Some(p + 2)
  {
    hide InlinePayloadEnd, EmitTableEnd, DynamicDefEnd, NamedOperandsEnd;
  }

  lemma WalkerMeetsTable(code: seq<byte>, p: nat, x: Piece)
    requires IsTable(x) && Fits(x) && At(code, p, PieceBytes(x, p))
    ensures p < |code| && NextInstruction(code, p) == Some(p + |PieceBytes(x, p)|)
  {
    hide NextInstruction, PieceBytes, KeyBytes, EmitTableEnd, U16At, At;
    TableLayout(code, p, x);
    KeyLayout(code, p + 5 + |x.name|, x);
    OperandsEnd(code, p);
    KeyEnds(code, p, x);
  }

  lemma KeyEnds(code: seq<byte>, p: nat, x: Piece)
    requires IsTable(x) && p + 5 + |x.name| + |KeyBytes(x)| <= |code|
    requires code[p + 3] == TableKind(x) && code[p + 4] == |x.name|
    requires x.LiteralKey? ==> U16At(code, p + 5 + |x.name|) == |x.key|
    ensures EmitTableEnd(code, p + 1) == Some(p + 5 + |x.name| + |KeyBytes(x)|)
  {
    hide U16At;
  }

  /** The operands of a dynamic pattern definition: the source text and its compiled code, each behind its length. */
  function DynamicDef(source: seq<byte>, body: seq<byte>): (s: seq<byte>)
    ensures |s| == 9 + |source| + |body|
  {
    [OP_DYNAMIC_DEF] + (Enc32(|source|) + source + (Enc32(|body|) + body))
  }

  lemma WalkerMeetsDefinition(code: seq<byte>, p: nat, source: seq<byte>, body: seq<byte>)
    requires At(code, p, DynamicDef(source, body)) && |code| < U32
    ensures p < |code| && NextInstruction(code, p) == Some(p + |DynamicDef(source, body)|)
  {
    hide NextInstruction, Enc32, U32At, Low32, At;
    AtByte(code, p, DynamicDef(source, body), 0);
    AtFits(code, p, DynamicDef(source, body));
    AtConcat(code, p, [OP_DYNAMIC_DEF], Enc32(|source|) + source + (Enc32(|body|) + body));
    AtConcat(code, p + 1, Enc32(|source|) + source, Enc32(|body|) + body);
    AtConcat(code, p + 1, Enc32(|source|), source);
    AtConcat(code, p + 5 + |source|, Enc32(|body|), body);
    Decode32(code, p + 1, |source|);
    Decode32(code, p + 5 + |source|, |body|);
    Fits32(|source|);
    Fits32(|body|);
    OperandsEnd(code, p);
  }

  // ----- The template binder on pattern code -----

  /** Instructions whose length the binder has wrong, or that end its walk. */
  predicate Mismeasured(i: Instr) {
    i.RepeatInit? || i.RepeatStep? || i.Anchor? || i == Bare(Accept)
  }

  lemma SkippedFits(i: Instr)
    requires !CarriesBytes(i)
    ensures Skipped(Opcode(i)) == Some(|Operands(i)|) <==> !Mismeasured(i)
    ensures NameField(Opcode(i)) == None && Opcode(i) !in {OP_LIT, OP_EMIT_LITERAL, OP_EMIT_FORMAT}
  {
  }

  lemma BinderSkips(code: seq<byte>, p: nat, i: Instr)
    requires !CarriesBytes(i) && p < |code| && code[p] == Opcode(i)
    ensures Next(code, p) == Some(p + 1 + |Operands(i)|) <==> !Mismeasured(i)
  {
    hide Opcode, Operands, Skipped, NameField, Mismeasured;
    SkippedFits(i);
  }

  lemma BinderNames(code: seq<byte>, p: nat, t: int, x: byte, y: byte, name: seq<byte>)
    requires p < |code| && code[p] in {OP_TABLE_GET, OP_TABLE_SET} && |name| < U8
    requires At(code, p + 1, Enc16(t) + [x, y, Low8(|name|)] + name)
    ensures Next(code, p) == Some(p + 6 + |name|)
  {
    hide Enc16, U16At;
    NameLayout(code, p + 1, t, x, y, name);
  }

  lemma BinderTexts(code: seq<byte>, p: nat, text: seq<byte>)
    requires p < |code| && code[p] in {OP_LIT, OP_EMIT_LITERAL} && |text| < U32
    requires At(code, p + 1, Enc32(p + 9) + Enc32(|text|) + text)
    ensures Next(code, p) == Some(p + 9 + |text|)
  {
    hide Enc32, U32At, Low32;
    PayloadLayout(code, p + 1, p + 9, text);
    Fits32(|text|);
  }

  /** The template binder steps over a pattern instruction exactly unless it is ACCEPT, where it ends, or one of three
      opcodes whose operands it has wrong. */
  lemma BinderStepsExact(code: seq<byte>, p: nat, i: Instr)
    requires At(code, p, Encode(i)) && Placed(i, p) && |code| < U32
    ensures p < |code| && (Next(code, p) == Some(p + |Encode(i)|) <==> !Mismeasured(i))
  {
    hide Opcode, Next, Enc16, Enc32, At;
    AtFits(code, p, Encode(i));
    AtByte(code, p, Encode(i), 0);
    AtConcat(code, p, [Opcode(i)], Operands(i));
    assert code[p + 0] == Opcode(i);
    match i
    case Lit(_, text) => CarriedText(code, p, i, text);
    case EmitLiteral(_, text) => CarriedText(code, p, i, text);
    case TableGet(t, k, d, name) =>
      TableOpcodes(i);
      BinderNames(code, p, t, Low8(k), Low8(d), name);
    case TableSet(t, k, v, name) =>
      TableOpcodes(i);
      BinderNames(code, p, t, Low8(k), Low8(v), name);
    case _ => BinderSkips(code, p, i);
  }

  lemma CarriedText(code: seq<byte>, p: nat, i: Instr, text: seq<byte>)
    requires (i.Lit? || i.EmitLiteral?) && i.text == text && Placed(i, p) && |code| < U32
    requires p < |code| && code[p] == Opcode(i) && At(code, p + 1, Operands(i))
    ensures Next(code, p) == Some(p + |Encode(i)|)
  {
    hide Next, Enc32, U32At, At, Low32;
    assert Operands(i) == Enc32(p + 9) + Enc32(|text|) + text;
    PayloadLayout(code, p + 1, p + 9, text);
    BinderTexts(code, p, text);
  }

  lemma TableOpcodes(i: Instr)
    requires i.TableGet? || i.TableSet?
    ensures Opcode(i) in {OP_TABLE_GET, OP_TABLE_SET}
  {
  }
}
