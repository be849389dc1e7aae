/** From template text to emitted text, through the compiler, the binder and the machine. */
module TemplateMeaning {
  import opened Wrappers
  import opened Bytes
  import opened Bytecode
  import opened TemplateCode
  import opened TemplateSyntax
  import opened TemplateBinder
  import opened TemplateBinding
  import opened TemplateRun

  lemma {:induction false} ShortAreFit(tpl: seq<byte>)
    requires |tpl| < U32 && Pieces(tpl).Some? && ShortKeys(Pieces(tpl).value)
    ensures AllFit(Pieces(tpl).value)
  {
    hide Fits, PiecesFrom;
    var xs := Pieces(tpl).value;
    forall k | 0 <= k < |xs| ensures KeyFits(xs[k]) { assert ShortKey(xs[k]); }
    PiecesFit(tpl, 0);
  }

  /** Compiling, binding and running a template emits the text of its pieces, each table looked up
      under the id its name is listed with. */
  lemma TemplateMeans(tpl: seq<byte>, dir: Directory, env: Env)
    requires |tpl| < U32 && CompiledTemplate(tpl).Some? && |CompiledTemplate(tpl).value| < U32
    requires ShortKeys(Pieces(tpl).value)
    ensures Run(BindTemplate(CompiledTemplate(tpl).value, dir).code, 0, env)
         == Some(RenderedAll(ResolveAll(Pieces(tpl).value, dir), env))
  {
    hide Run, RenderedAll, BindTemplate, TemplateOf, Resolve, Fits, ShortKey, Pieces;
    var xs := Pieces(tpl).value;
    var ys := ResolveAll(xs, dir);
    ShortAreFit(tpl);
    BindsCompiled(xs, dir);
    BindKeepsSize(TemplateOf(xs), dir);
    forall k | 0 <= k < |ys| ensures Fits(ys[k]) && ShortKey(ys[k]) {
      ResolveFits(xs[k], dir);
      ResolveKeepsKey(xs[k], dir);
    }
    RunsCompiled(ys, env);
  }

  lemma BindKeepsSize(code: seq<byte>, dir: Directory)
    ensures |BindTemplate(code, dir).code| == |code|
  {
  }

  lemma ResolveKeepsKey(x: Piece, dir: Directory)
    requires ShortKey(x)
    ensures ShortKey(Resolve(x, dir))
  {
    hide FirstNamed;
  }

  /** A literal key at the machine's limit is not stepped over: its bytes run as instructions. When
      they begin with the end marker the rest of the template is lost. */
  lemma LongKeyTruncates(xs: seq<Piece>, x: Piece, ys: seq<Piece>, env: Env)
    requires AllFit(xs) && ShortKeys(xs) && x.LiteralKey? && Fits(x) && |TemplateOf(xs + [x] + ys)| < U32
    requires |x.key| >= MAX_KEY && x.key[0] == OP_ACCEPT
    ensures Run(TemplateOf(xs + [x] + ys), 0, env) == Some(RenderedAll(xs, env))
  {
    hide CodeOf, Run, At, RenderedAll, PieceBytes, EmitAt, Fits, ShortKeys, TemplateOf;
    var c, code := CodeOf(xs, 0), TemplateOf(xs + [x] + ys);
    CodeParts(xs, x, ys);
    var b := PieceBytes(x, |c|);
    var rest :| code == c + (b + rest);
    Whole(code);
    AtConcat(code, 0, c, b + rest);
    AtConcat(code, |c|, b, rest);
    NotTheEnd(code, |c|, x);
    EmitsTable(code, |c|, x, env);
    KeyIsLast(code, |c|, x);
    RunsNothing(code, |c| + |b| - |x.key|, env);
    RunStep(code, |c|, env);
    var none: seq<byte> := [];
    assert none + none == none;
    RunsPieces(code, 0, xs, b + rest, env);
    assert RenderedAll(xs, env) + [] == RenderedAll(xs, env);
  }

  lemma RunsNothing(code: seq<byte>, p: nat, env: Env)
    requires p < |code| && code[p] == OP_ACCEPT
    ensures Run(code, p, env) == Some([])
  {
  }

  lemma KeyIsLast(code: seq<byte>, p: nat, x: Piece)
    requires x.LiteralKey? && Fits(x) && x.key != [] && At(code, p, PieceBytes(x, p))
    ensures var at := p + |PieceBytes(x, p)| - |x.key|; p < at < |code| && code[at] == x.key[0]
  {
    hide PieceBytes, KeyBytes, U16At, At;
    TableLayout(code, p, x);
    KeyWidth(x);
    KeyLayout(code, p + 5 + |x.name|, x);
    var at := p + 7 + |x.name|;
    assert code[at..at + |x.key|][0] == code[at];
  }

  // ----- Text that is not a reference -----

  predicate AllText(xs: seq<Piece>) { forall k :: 0 <= k < |xs| ==> xs[k].Text? }

  lemma {:induction false} TextFrom(tpl: seq<byte>, i: nat, env: Env)
    requires i <= |tpl| && PiecesFrom(tpl, i).Some? && AllText(PiecesFrom(tpl, i).value)
    ensures RenderedAll(PiecesFrom(tpl, i).value, env) == tpl[i..]
    decreases |tpl| - i
  {
    hide StepAt;
    if i < |tpl| {
      var s := StepAt(tpl, i).value;
      var xs, rest := PiecesFrom(tpl, i).value, PiecesFrom(tpl, s.next).value;
      assert xs[0] == s.piece && xs[1..] == rest;
      forall k | 0 <= k < |rest| ensures rest[k].Text? { assert rest[k] == xs[k + 1]; }
      TextFrom(tpl, s.next, env);
      TextStep(tpl, i);
      assert tpl[i..] == tpl[i..s.next] + tpl[s.next..];
    }
  }

  /** A text piece is a verbatim stretch of the template. */
  lemma TextStep(tpl: seq<byte>, i: nat)
    requires i < |tpl| && StepAt(tpl, i).Some? && StepAt(tpl, i).value.piece.Text?
    ensures var s := StepAt(tpl, i).value; s.piece.text == tpl[i..s.next]
  {
    hide TableRef, NumberAt, FormatAt;
    if tpl[i] == DOLLAR {
      NoTextFound(tpl, i);
      assert tpl[i..i + 1] == [DOLLAR];
    }
  }

  lemma NoTextFound(tpl: seq<byte>, dollar: nat)
    requires dollar < |tpl|
    ensures var r := RefAt(tpl, dollar); r.Found? ==> !r.piece.Text?
  {
    hide NumberAt, FormatAt, QuotedKey, NumberedKey;
  }

  /** A template in which no dollar sign begins a reference stands for itself. */
  lemma TextIsVerbatim(tpl: seq<byte>, env: Env)
    requires Pieces(tpl).Some? && AllText(Pieces(tpl).value)
    ensures RenderedAll(Pieces(tpl).value, env) == tpl
  {
    hide PiecesFrom, RenderedAll;
    TextFrom(tpl, 0, env);
    assert tpl[0..] == tpl;
  }
}
