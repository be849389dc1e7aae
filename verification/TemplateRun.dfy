/** What a template program emits (vm_exec.c), against what its pieces mean. */
module TemplateRun {
  import opened Wrappers
  import opened Bytes
  import opened Bytecode
  import opened TemplateCode
  import opened TemplateSyntax
  import opened TemplateBinder
  import opened TemplateBinding

  const MAX_CAPS: nat := 64
  const MAX_WIDTH: nat := 1024
  const MAX_KEY: nat := 1024

  /** The subject, its captures as start and end offsets, and the tables by id. */
  datatype Env = Env(subject: seq<byte>, caps: seq<(nat, nat)>, tables: map<nat, map<seq<byte>, seq<byte>>>)

  function Captured(env: Env, reg: nat): Option<seq<byte>> {
    if reg < MAX_CAPS && reg < |env.caps| && env.caps[reg].0 <= env.caps[reg].1 <= |env.subject|
    then Some(env.subject[env.caps[reg].0..env.caps[reg].1])
    else None
  }

  /** Tables are read with C strings: a key ends at its first zero byte. */
  function UpToZero(s: seq<byte>): seq<byte> {
    if s == [] || s[0] == 0 then [] else [s[0]] + UpToZero(s[1..])
  }

  function LookUp(env: Env, table: nat, key: seq<byte>): seq<byte> {
    var k := UpToZero(key);
    if table in env.tables && k in env.tables[table] then UpToZero(env.tables[table][k]) else []
  }

  function Raised(s: seq<byte>): seq<byte> {
    seq(|s|, i requires 0 <= i < |s| => if 97 <= s[i] <= 122 then s[i] - 32 else s[i])
  }

  function Lowered(s: seq<byte>): seq<byte> {
    seq(|s|, i requires 0 <= i < |s| => if 65 <= s[i] <= 90 then s[i] + 32 else s[i])
  }

  function Digits(n: nat): (s: seq<byte>)
    ensures s != [] && forall k :: 0 <= k < |s| ==> IsDigit(s[k])
  {
    if n < 10 then [n + 48] else Digits(n / 10) + [n % 10 + 48]
  }

  function Fill(b: byte, n: nat): seq<byte> { seq(n, _ => b) }

  function PadTo(s: seq<byte>, side: Side, width: nat, fill: byte): seq<byte> {
    var w := if width > MAX_WIDTH then MAX_WIDTH else width;
    if |s| >= w then s
    else if side.Left? then Fill(fill, w - |s|) + s
    else s + Fill(fill, w - |s|)
  }

  function Styling(s: seq<byte>, style: Style): seq<byte> {
    match style
    case Upper => Raised(s)
    case Lower => Lowered(s)
    case Length => Digits(|s|)
  }

  /** The text a piece stands for. Missing captures and keys stand for nothing. */
  function Rendered(x: Piece, env: Env): seq<byte> {
    match x
    case Text(text) => text
    case Capture(reg) => Captured(env, reg).UnwrapOr([])
    case Styled(reg, style) => if Captured(env, reg).Some? then Styling(Captured(env, reg).value, style) else []
    case Padded(reg, side, width, fill) =>
      if Captured(env, reg).Some? then PadTo(Captured(env, reg).value, side, width, fill) else []
    case LiteralKey(table, _, key) => if key == [] then [] else LookUp(env, table, key)
    case CapturedKey(table, _, reg) =>
      if Captured(env, reg).Some? then LookUp(env, table, Captured(env, reg).value) else []
  }

  function RenderedAll(xs: seq<Piece>, env: Env): seq<byte> {
    if xs == [] then [] else Rendered(xs[0], env) + RenderedAll(xs[1..], env)
  }

  // ----- The machine -----

  /** What one instruction emits and where the next one is read. */
  datatype Emitted = Emitted(out: seq<byte>, next: nat)

  function EmitLiteral(code: seq<byte>, ip: nat): Option<Emitted>
    requires ip + 9 <= |code|
  {
    var off, len := U32At(code, ip + 1), U32At(code, ip + 5);
    if off + len > |code| then None
    else Some(Emitted(code[off..off + len], if off == ip + 9 then ip + 9 + len else ip + 9))
  }

  function EmitFormat(code: seq<byte>, ip: nat, env: Env): Option<Emitted>
    requires ip + 3 <= |code|
  {
    var text, kind := Captured(env, code[ip + 1]), code[ip + 2];
    if kind == FMT_LPAD || kind == FMT_RPAD then
      if ip + 6 > |code| then None
      else
        var side := if kind == FMT_LPAD then Left else Right;
        Some(Emitted(if text.Some? then PadTo(text.value, side, U16At(code, ip + 3), code[ip + 5]) else [], ip + 6))
    else
      var out :=
        if text.None? then []
        else if kind == FMT_UPPER then Raised(text.value)
        else if kind == FMT_LOWER then Lowered(text.value)
        else if kind == FMT_LENGTH then Digits(|text.value|)
        else text.value;
      Some(Emitted(out, ip + 3))
  }

  /** A literal key is stepped over only when it is looked up, that is below the key limit. */
  function EmitKey(code: seq<byte>, at: nat, kind: byte, table: nat, env: Env): Option<Emitted> {
    if kind == 0 then
      if at + 2 > |code| then None
      else
        var len := U16At(code, at);
        if !(0 < len < MAX_KEY) then Some(Emitted([], at + 2))
        else if at + 2 + len > |code| then None
        else Some(Emitted(LookUp(env, table, code[at + 2..at + 2 + len]), at + 2 + len))
    else if kind == 1 then
      if at >= |code| then None
      else
        var key := Captured(env, code[at]);
        Some(Emitted(if key.Some? then LookUp(env, table, key.value) else [], at + 1))
    else Some(Emitted([], at))
  }

  function EmitTable(code: seq<byte>, ip: nat, env: Env): (r: Option<Emitted>)
    requires ip + 5 <= |code|
    ensures r.Some? ==> r.value.next > ip
  {
    EmitKey(code, ip + 5 + code[ip + 4], code[ip + 3], U16At(code, ip + 1), env)
  }

  /** One emitting instruction; None where the code is cut off or holds something else. */
  function EmitAt(code: seq<byte>, ip: nat, env: Env): (r: Option<Emitted>)
    requires ip < |code|
    ensures r.Some? ==> r.value.next > ip
  {
    var op := code[ip];
    if op == OP_EMIT_LITERAL && ip + 9 <= |code| then EmitLiteral(code, ip)
    else if op == OP_EMIT_CAPTURE && ip + 2 <= |code| then
      Some(Emitted(Captured(env, code[ip + 1]).UnwrapOr([]), ip + 2))
    else if op == OP_EMIT_FORMAT && ip + 3 <= |code| then EmitFormat(code, ip, env)
    else if op == OP_EMIT_TABLE && ip + 5 <= |code| then EmitTable(code, ip, env)
    else None
  }

  /** Everything emitted from `ip` until the end marker. */
  function Run(code: seq<byte>, ip: nat, env: Env): Option<seq<byte>>
    decreases |code| - ip
  {
    if ip >= |code| then None
    else if code[ip] == OP_ACCEPT then Some([])
    else
      var e :- EmitAt(code, ip, env);
      var rest :- Run(code, e.next, env);
      Some(e.out + rest)
  }

  // ----- One piece -----

  predicate ShortKey(x: Piece) { x.LiteralKey? ==> |x.key| < MAX_KEY }

  lemma EmitsText(code: seq<byte>, p: nat, text: seq<byte>, env: Env)
    requires |code| < U32 && p < |code| && At(code, p, PieceBytes(Text(text), p))
    ensures EmitAt(code, p, env) == Some(Emitted(text, p + 9 + |text|))
  {
    hide U32At, PieceBytes, At;
    TextFits(code, p, text);
    TextLayout(code, p, text);
    Fits32(p + 9);
  }

  lemma TextFits(code: seq<byte>, p: nat, text: seq<byte>)
    requires At(code, p, PieceBytes(Text(text), p))
    ensures |text| <= |code|
  {
    TextWidth(text, p);
  }

  lemma EmitsFormat(code: seq<byte>, p: nat, x: Piece, env: Env)
    requires x.Capture? || x.Styled? || x.Padded?
    requires Fits(x) && p < |code| && At(code, p, PieceBytes(x, p))
    ensures EmitAt(code, p, env) == Some(Emitted(Rendered(x, env), p + |PieceBytes(x, p)|))
  {
    hide U16At, PieceBytes, Captured, Raised, Lowered, Digits, PadTo, At;
    if x.Padded? { PaddedLayout(code, p, x); } else { SmallLayout(code, p, x); }
  }

  lemma EmitsTable(code: seq<byte>, p: nat, x: Piece, env: Env)
    requires IsTable(x) && Fits(x) && p < |code| && At(code, p, PieceBytes(x, p))
    ensures EmitAt(code, p, env).Some?
    ensures EmitAt(code, p, env).value.next == (if ShortKey(x) then p + |PieceBytes(x, p)| else p + |PieceBytes(x, p)| - |x.key|)
    ensures EmitAt(code, p, env).value.out == if ShortKey(x) then Rendered(x, env) else []
  {
    hide U16At, PieceBytes, KeyBytes, Captured, LookUp, At;
    TableLayout(code, p, x);
    KeyLayout(code, p + 5 + |x.name|, x);
    KeyWidth(x);
  }

  /** The machine steps over a compiled piece and emits its text exactly when a literal key stays
      below the machine's key limit. */
  lemma EmitsPiece(code: seq<byte>, p: nat, x: Piece, env: Env)
    requires Fits(x) && p < |code| < U32 && At(code, p, PieceBytes(x, p))
    ensures EmitAt(code, p, env).Some?
    ensures ShortKey(x) <==> EmitAt(code, p, env) == Some(Emitted(Rendered(x, env), p + |PieceBytes(x, p)|))
  {
    hide PieceBytes, EmitAt, Rendered, At;
    match x
    case Text(text) =>
      EmitsText(code, p, text, env);
      TextWidth(text, p);
      RendersText(text, env);
    case LiteralKey(_, _, _) => EmitsTable(code, p, x, env);
    case CapturedKey(_, _, _) => EmitsTable(code, p, x, env);
    case _ => EmitsFormat(code, p, x, env);
  }

  lemma RendersText(text: seq<byte>, env: Env)
    ensures Rendered(Text(text), env) == text
  {
  }

  // ----- Whole templates -----

  predicate ShortKeys(xs: seq<Piece>) { forall k :: 0 <= k < |xs| ==> ShortKey(xs[k]) }

  lemma RunStep(code: seq<byte>, p: nat, env: Env)
    requires p < |code| && code[p] != OP_ACCEPT && EmitAt(code, p, env).Some?
    requires Run(code, EmitAt(code, p, env).value.next, env).Some?
    ensures var e := EmitAt(code, p, env).value;
      Run(code, p, env) == Some(e.out + Run(code, e.next, env).value)
  {
    hide EmitAt;
  }

  lemma NotTheEnd(code: seq<byte>, p: nat, x: Piece)
    requires At(code, p, PieceBytes(x, p))
    ensures p < |code| && code[p] != OP_ACCEPT
  {
    AtByte(code, p, PieceBytes(x, p), 0);
  }

  lemma {:induction false} RunsPieces(code: seq<byte>, p: nat, xs: seq<Piece>, tail: seq<byte>, env: Env)
    requires AllFit(xs) && ShortKeys(xs) && |code| < U32 && At(code, p, CodeOf(xs, p) + tail)
    requires Run(code, p + |CodeOf(xs, p)|, env).Some?
    ensures Run(code, p, env) == Some(RenderedAll(xs, env) + Run(code, p + |CodeOf(xs, p)|, env).value)
    decreases |xs|
  {
    hide PieceBytes, EmitAt, Run, Rendered, Fits, ShortKey, At;
    var last := Run(code, p + |CodeOf(xs, p)|, env).value;
    if xs == [] {
      assert [] + last == last;
    } else {
      var n := p + |PieceBytes(xs[0], p)|;
      HeadAt(code, p, xs, tail);
      NotTheEnd(code, p, xs[0]);
      EmitsPiece(code, p, xs[0], env);
      RunsPieces(code, n, xs[1..], tail, env);
      RunStep(code, p, env);
      assert Rendered(xs[0], env) + (RenderedAll(xs[1..], env) + last) == RenderedAll(xs, env) + last;
    }
  }

  lemma RunEnd(code: seq<byte>, p: nat, tail: seq<byte>, env: Env)
    requires At(code, p, [OP_ACCEPT] + tail)
    ensures Run(code, p, env) == Some([])
  {
    AtByte(code, p, [OP_ACCEPT] + tail, 0);
  }

  lemma Whole(code: seq<byte>)
    ensures At(code, 0, code)
  {
    assert code[0..|code|] == code;
  }

  /** Running a compiled template emits the text of its pieces in order. */
  lemma RunsCompiled(xs: seq<Piece>, env: Env)
    requires AllFit(xs) && ShortKeys(xs) && |TemplateOf(xs)| < U32
    ensures Run(TemplateOf(xs), 0, env) == Some(RenderedAll(xs, env))
  {
    hide CodeOf, Run, At, RenderedAll;
    var code := TemplateOf(xs);
    Whole(code);
    AtConcat(code, 0, CodeOf(xs, 0), [OP_ACCEPT]);
    assert [OP_ACCEPT] + [] == [OP_ACCEPT];
    RunEnd(code, |CodeOf(xs, 0)|, [], env);
    RunsPieces(code, 0, xs, [OP_ACCEPT], env);
    assert RenderedAll(xs, env) + [] == RenderedAll(xs, env);
  }

  lemma CodeParts(xs: seq<Piece>, x: Piece, ys: seq<Piece>)
    ensures var c := CodeOf(xs, 0);
      exists rest :: TemplateOf(xs + [x] + ys) == c + (PieceBytes(x, |c|) + rest)
  {
    hide PieceBytes;
    CodeConcat(xs + [x], ys, 0);
    CodeSnoc(xs, x, 0);
    var c := CodeOf(xs, 0);
    var rest := CodeOf(ys, |CodeOf(xs + [x], 0)|) + [OP_ACCEPT];
    assert TemplateOf(xs + [x] + ys) == c + (PieceBytes(x, |c|) + rest);
  }

  lemma {:induction false} CodeConcat(xs: seq<Piece>, ys: seq<Piece>, p: nat)
    ensures CodeOf(xs + ys, p) == CodeOf(xs, p) + CodeOf(ys, p + |CodeOf(xs, p)|)
    decreases |xs|
  {
    hide PieceBytes;
    if xs == [] {
      assert xs + ys == ys;
    } else {
      assert (xs + ys)[1..] == xs[1..] + ys;
      CodeConcat(xs[1..], ys, p + |PieceBytes(xs[0], p)|);
    }
  }
}
