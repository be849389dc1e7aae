/** The compiler and the binder of templates stay in step: the binder stops at exactly the compiled
    pieces, fills in exactly the ids that are missing and listed, and fails exactly when one is not. */
module TemplateBinding {
  import opened Wrappers
  import opened Bytes
  import opened Bytecode
  import opened CodeBuffer
  import opened TemplateCode
  import opened TemplateSyntax
  import opened TemplateBinder

  predicate AllFit(xs: seq<Piece>) { forall k :: 0 <= k < |xs| ==> Fits(xs[k]) }

  predicate Unlisted(x: Piece, dir: Directory) {
    IsTable(x) && x.table == UNBOUND && !Listed(dir, x.name)
  }

  predicate AllListed(xs: seq<Piece>, dir: Directory) {
    forall k :: 0 <= k < |xs| ==> !Unlisted(xs[k], dir)
  }

  /** The piece with its missing id filled in; a bound piece keeps its id. */
  function Resolve(x: Piece, dir: Directory): Piece {
    if IsTable(x) && x.table == UNBOUND && Listed(dir, x.name) then x.(table := dir[FirstNamed(dir, x.name)].id) else x
  }

  function ResolveAll(xs: seq<Piece>, dir: Directory): (ys: seq<Piece>)
    ensures |ys| == |xs|
  {
    seq(|xs|, k requires 0 <= k < |xs| => Resolve(xs[k], dir))
  }

  // ----- One piece -----

  lemma NextPiece(code: seq<byte>, p: nat, x: Piece)
    requires Fits(x) && p < |code| && At(code, p, PieceBytes(x, p))
    ensures Next(code, p) == Some(p + |PieceBytes(x, p)|)
  {
    hide Enc16, Enc32, U16At, U32At, PieceBytes, KeyBytes, At;
    match x
    case Text(text) =>
      TextLayout(code, p, text);
      TextWidth(text, p);
    case Padded(_, _, _, _) => PaddedLayout(code, p, x);
    case LiteralKey(_, _, _) => NextTable(code, p, x);
    case CapturedKey(_, _, _) => NextTable(code, p, x);
    case _ => SmallLayout(code, p, x);
  }

  lemma TextWidth(text: seq<byte>, p: nat)
    ensures |PieceBytes(Text(text), p)| == 9 + |text|
  {
    hide Enc32;
  }

  lemma KeyWidth(x: Piece)
    requires IsTable(x)
    ensures |KeyBytes(x)| == if x.LiteralKey? then 2 + |x.key| else 1
  {
    hide Enc16;
  }

  lemma NextTable(code: seq<byte>, p: nat, x: Piece)
    requires IsTable(x) && Fits(x) && p < |code| && At(code, p, PieceBytes(x, p))
    ensures Next(code, p) == Some(p + |PieceBytes(x, p)|) && NameAt(code, p) == Some(x.name)
  {
    hide U16At, PieceBytes, KeyBytes, At;
    TableLayout(code, p, x);
    KeyLayout(code, p + 5 + |x.name|, x);
    KeyWidth(x);
  }

  lemma Within(pre: seq<byte>, part: seq<byte>, post: seq<byte>)
    ensures At(pre + part + post, |pre|, part)
  {
  }

  lemma PatchPiece(pre: seq<byte>, x: Piece, post: seq<byte>, dir: Directory)
    requires Fits(x)
    ensures |PieceBytes(Resolve(x, dir), |pre|)| == |PieceBytes(x, |pre|)| && Fits(Resolve(x, dir))
    ensures PatchedAt(pre + PieceBytes(x, |pre|) + post, |pre|, dir)
         == (pre + PieceBytes(Resolve(x, dir), |pre|) + post, !Unlisted(x, dir))
  {
    hide U16At, PieceBytes, KeyBytes, FirstNamed, Patch;
    var p := |pre|;
    var code := pre + PieceBytes(x, p) + post;
    Within(pre, PieceBytes(x, p), post);
    if IsTable(x) {
      TableLayout(code, p, x);
      NextTable(code, p, x);
      if x.table == UNBOUND && Listed(dir, x.name) {
        SwapId(pre, x, dir[FirstNamed(dir, x.name)].id, post);
      }
    } else {
      NotATable(x, p);
      assert code[p] == PieceBytes(x, p)[0];
    }
  }

  lemma NotATable(x: Piece, p: nat)
    requires !IsTable(x)
    ensures NameField(PieceBytes(x, p)[0]) == None
  {
  }

  lemma SwapId(pre: seq<byte>, x: Piece, id: nat, post: seq<byte>)
    requires IsTable(x)
    ensures var y := x.(table := id);
      && |PieceBytes(y, |pre|)| == |PieceBytes(x, |pre|)|
      && |pre| + 3 <= |pre + PieceBytes(x, |pre|) + post|
      && Patch(pre + PieceBytes(x, |pre|) + post, |pre| + 1, Enc16(id)) == pre + PieceBytes(y, |pre|) + post
  {
    hide Enc16, PieceBytes, KeyBytes, Patch;
    var y, p := x.(table := id), |pre|;
    var op: seq<byte>, rest := [OP_EMIT_TABLE], [TableKind(x), Low8(|x.name|)] + x.name + KeyBytes(x);
    TableShape(x, p);
    TableShape(y, p);
    SameKey(x, id);
    PatchHole(pre + op, Enc16(x.table), rest + post, Enc16(id));
    assert pre + PieceBytes(x, p) + post == (pre + op) + Enc16(x.table) + (rest + post);
    assert pre + PieceBytes(y, p) + post == (pre + op) + Enc16(id) + (rest + post);
  }

  lemma SameKey(x: Piece, id: nat)
    requires IsTable(x)
    ensures var y := x.(table := id);
      y.name == x.name && TableKind(y) == TableKind(x) && KeyBytes(y) == KeyBytes(x) && y.table == id
  {
  }

  // ----- Whole templates -----

  lemma {:induction false} BindPieces(pre: seq<byte>, xs: seq<Piece>, dir: Directory)
    requires AllFit(xs)
    ensures BindFrom(pre + CodeOf(xs, |pre|) + [OP_ACCEPT], |pre|, dir)
         == Bound(pre + CodeOf(ResolveAll(xs, dir), |pre|) + [OP_ACCEPT], AllListed(xs, dir))
    decreases |xs|
  {
    hide PieceBytes, PatchedAt, Next, Resolve, Unlisted, Fits, BindFrom, CodeOf;
    var p := |pre|;
    if xs == [] {
      BindEnd(pre, dir);
      assert ResolveAll(xs, dir) == [];
    } else {
      var x, rest := xs[0], xs[1..];
      var y := Resolve(x, dir);
      var q := p + |PieceBytes(x, p)|;
      var tail := CodeOf(rest, q) + [OP_ACCEPT];
      PatchPiece(pre, x, tail, dir);
      assert xs == [x] + rest;
      assert ResolveAll(xs, dir) == [y] + ResolveAll(rest, dir);
      ConsCode(x, rest, p);
      ConsCode(y, ResolveAll(rest, dir), p);
      Regroup(pre, PieceBytes(x, p), CodeOf(rest, q), [OP_ACCEPT]);
      Regroup(pre, PieceBytes(y, p), CodeOf(rest, q), [OP_ACCEPT]);
      Regroup(pre, PieceBytes(y, p), CodeOf(ResolveAll(rest, dir), q), [OP_ACCEPT]);
      Within(pre, PieceBytes(y, p), tail);
      NextPiece(pre + PieceBytes(y, p) + tail, p, y);
      BindStep(pre + PieceBytes(x, p) + tail, p, dir);
      BindPieces(pre + PieceBytes(y, p), rest, dir);
      ListedCons(x, rest, dir);
    }
  }

  lemma ListedCons(x: Piece, rest: seq<Piece>, dir: Directory)
    ensures AllListed([x] + rest, dir) == (!Unlisted(x, dir) && AllListed(rest, dir))
  {
    hide Unlisted;
    var xs := [x] + rest;
    assert xs[0] == x && xs[1..] == rest;
    if !Unlisted(x, dir) && AllListed(rest, dir) {
      forall k | 0 <= k < |xs| ensures !Unlisted(xs[k], dir) {
        if k > 0 { assert xs[k] == rest[k - 1]; }
      }
    }
    if AllListed(xs, dir) {
      forall k | 0 <= k < |rest| ensures !Unlisted(rest[k], dir) {
        assert rest[k] == xs[k + 1];
      }
    }
  }

  lemma Regroup(a: seq<byte>, b: seq<byte>, c: seq<byte>, d: seq<byte>)
    ensures a + (b + c) + d == a + b + (c + d) && a + b + (c + d) == (a + b) + c + d
  {
  }

  lemma ConsCode(x: Piece, rest: seq<Piece>, p: nat)
    ensures CodeOf([x] + rest, p) == PieceBytes(x, p) + CodeOf(rest, p + |PieceBytes(x, p)|)
  {
    hide PieceBytes;
    assert ([x] + rest)[1..] == rest;
  }

  lemma BindEnd(pre: seq<byte>, dir: Directory)
    ensures BindFrom(pre + CodeOf([], |pre|) + [OP_ACCEPT], |pre|, dir) == Bound(pre + CodeOf([], |pre|) + [OP_ACCEPT], true)
  {
    var code := pre + CodeOf([], |pre|) + [OP_ACCEPT];
    assert code[|pre|] == OP_ACCEPT;
  }

  lemma BindStep(code: seq<byte>, ip: nat, dir: Directory)
    requires ip < |code| && Next(PatchedAt(code, ip, dir).0, ip).Some?
    ensures var (code', hit) := PatchedAt(code, ip, dir);
      var rest := BindFrom(code', Next(code', ip).value, dir);
      BindFrom(code, ip, dir) == Bound(rest.code, hit && rest.ok)
  {
    hide PatchedAt, Next;
  }

  /** The binder on a compiled template: missing ids of listed names are filled in, nothing else
      changes, and it reports success exactly when every missing id was found. */
  lemma BindsCompiled(xs: seq<Piece>, dir: Directory)
    requires AllFit(xs)
    ensures BindTemplate(TemplateOf(xs), dir) == Bound(TemplateOf(ResolveAll(xs, dir)), AllListed(xs, dir))
  {
    hide CodeOf, BindFrom;
    BindPieces([], xs, dir);
    assert [] + CodeOf(xs, 0) + [OP_ACCEPT] == TemplateOf(xs);
    assert [] + CodeOf(ResolveAll(xs, dir), 0) + [OP_ACCEPT] == TemplateOf(ResolveAll(xs, dir));
  }

  lemma {:induction false} VisitsPieces(code: seq<byte>, p: nat, xs: seq<Piece>)
    requires AllFit(xs) && At(code, p, CodeOf(xs, p) + [OP_ACCEPT])
    ensures Visits(code, p) == Stops(xs, p)
    decreases |xs|
  {
    hide PieceBytes, Next, CodeOf, Fits;
    if xs == [] {
      VisitsEnd(code, p);
    } else {
      HeadAt(code, p, xs, [OP_ACCEPT]);
      NextPiece(code, p, xs[0]);
      VisitsPieces(code, p + |PieceBytes(xs[0], p)|, xs[1..]);
    }
  }

  lemma VisitsEnd(code: seq<byte>, p: nat)
    requires At(code, p, CodeOf([], p) + [OP_ACCEPT])
    ensures Visits(code, p) == [p]
  {
    assert CodeOf([], p) + [OP_ACCEPT] == [OP_ACCEPT];
    AtByte(code, p, [OP_ACCEPT], 0);
  }

  /** The binder stops at exactly the compiled pieces and then at the end marker. */
  lemma VisitsCompiled(xs: seq<Piece>)
    requires AllFit(xs)
    ensures Visits(TemplateOf(xs), 0) == Stops(xs, 0)
  {
    hide CodeOf, Visits;
    var code := TemplateOf(xs);
    assert code[0..|code|] == code;
    VisitsPieces(code, 0, xs);
  }

  // ----- Which compiled templates the binder can follow -----

  predicate KeyFits(x: Piece) { x.LiteralKey? ==> |x.key| < U16 }

  lemma KeyRefFits(tpl: seq<byte>, i: nat, name: seq<byte>)
    requires i <= |tpl| && |name| < U8
    ensures var r := KeyRef(tpl, i, name); r.Found? ==> (Fits(r.piece) <==> KeyFits(r.piece))
  {
    hide NumberAt;
  }

  lemma BracedRefFits(tpl: seq<byte>, i: nat, reg: byte)
    requires i <= |tpl|
    ensures var r := BracedRef(tpl, i, reg); r.Found? ==> Fits(r.piece) && KeyFits(r.piece)
  {
    FormatFits(tpl, i);
  }

  lemma FormatFits(tpl: seq<byte>, i: nat)
    requires i <= |tpl|
    ensures var f := FormatAt(tpl, i).format; f.Pad? ==> f.width < U16
  {
    hide NumberAt, FillAt, FillEnd;
  }

  lemma StepFits(tpl: seq<byte>, i: nat)
    requires i < |tpl| < U32 && StepAt(tpl, i).Some?
    ensures var x := StepAt(tpl, i).value.piece; Fits(x) <==> KeyFits(x)
  {
    hide KeyRef, BracedRef, NumberAt, ScanTo;
    if tpl[i] == DOLLAR {
      var braced := Has(tpl, i + 1, LBRACE);
      var j := if braced then i + 2 else i + 1;
      if Has(tpl, j, LOWER_V) {
        var e := DigitsEnd(tpl, j + 1);
        BracedRefFits(tpl, e, Low8(NumberAt(tpl, j + 1)));
        if Has(tpl, e, LBRACKET) { TableRefFits(tpl, e + 1); }
      } else {
        TableRefFits(tpl, j);
      }
    }
  }

  lemma TableRefFits(tpl: seq<byte>, i: nat)
    requires i <= |tpl|
    ensures var r := TableRef(tpl, i); r.Found? ==> (Fits(r.piece) <==> KeyFits(r.piece))
  {
    hide KeyRef, Fits, KeyFits;
    var n := ScanTo(tpl, i, NAME_ENDS);
    if n < |tpl| && n - i <= 255 { KeyRefFits(tpl, n + 1, tpl[i..n]); }
  }

  lemma {:induction false} PiecesFit(tpl: seq<byte>, i: nat)
    requires i <= |tpl| < U32 && PiecesFrom(tpl, i).Some?
    requires forall k :: 0 <= k < |PiecesFrom(tpl, i).value| ==> KeyFits(PiecesFrom(tpl, i).value[k])
    ensures AllFit(PiecesFrom(tpl, i).value)
    decreases |tpl| - i
  {
    hide StepAt, Fits, KeyFits;
    if i < |tpl| {
      var s := StepAt(tpl, i).value;
      var xs, rest := PiecesFrom(tpl, i).value, PiecesFrom(tpl, s.next).value;
      assert xs[0] == s.piece && xs[1..] == rest;
      StepFits(tpl, i);
      forall k | 0 <= k < |rest| ensures KeyFits(rest[k]) {
        assert rest[k] == xs[k + 1];
      }
      PiecesFit(tpl, s.next);
    }
  }

  /** A literal key's length field holds sixteen bits: the binder steps over the piece exactly when
      the key is shorter than 65536 bytes. */
  lemma KeyLengthExact(pre: seq<byte>, name: seq<byte>, key: seq<byte>, post: seq<byte>)
    requires |name| < U8
    ensures var x := LiteralKey(UNBOUND, name, key);
      Next(pre + PieceBytes(x, |pre|) + post, |pre|) == Some(|pre| + |PieceBytes(x, |pre|)|) <==> |key| < U16
  {
    hide U16At, PieceBytes, KeyBytes, Enc16, Low16, At;
    var x, p := LiteralKey(UNBOUND, name, key), |pre|;
    var code := pre + PieceBytes(x, p) + post;
    Within(pre, PieceBytes(x, p), post);
    TableShape(x, p);
    TableFields(code, p, OP_EMIT_TABLE, UNBOUND, 0, name, KeyBytes(x));
    KeyPrefix(x);
    AtConcat(code, p + 5 + |name|, Enc16(|key|), key);
    Decode16(code, p + 5 + |name|, |key|);
    KeyWidth(x);
    CutExact(|key|);
  }

  lemma KeyPrefix(x: Piece)
    requires x.LiteralKey?
    ensures KeyBytes(x) == Enc16(|x.key|) + x.key && TableKind(x) == 0
  {
  }

  lemma CutExact(n: nat)
    ensures Low16(n) == n <==> n < U16
  {
  }

  // ----- Binding again -----

  lemma {:induction false} FirstInBoth(a: seq<Entry>, b: seq<Entry>, name: seq<byte>)
    ensures FirstNamed(a + b, name) == if Listed(a, name) then FirstNamed(a, name) else |a| + FirstNamed(b, name)
  {
    if a == [] {
      assert a + b == b;
    } else {
      assert (a + b)[1..] == a[1..] + b;
      FirstInBoth(a[1..], b, name);
    }
  }

  lemma ResolveTwice(x: Piece, a: Directory, b: Directory)
    requires forall k :: 0 <= k < |a| ==> a[k].id != UNBOUND
    ensures Resolve(Resolve(x, a), b) == Resolve(x, a + b)
    ensures Unlisted(Resolve(x, a), b) == Unlisted(x, a + b)
  {
    hide FirstNamed;
    if IsTable(x) { FirstInBoth(a, b, x.name); }
  }

  /** Binding is one-shot: two calls in turn do what one call with the joined lists does, so an id
      filled in by the first call is never overwritten by the second. */
  lemma BindInTurns(xs: seq<Piece>, a: Directory, b: Directory)
    requires AllFit(xs) && forall k :: 0 <= k < |a| ==> a[k].id != UNBOUND
    ensures BindTemplate(BindTemplate(TemplateOf(xs), a).code, b) == BindTemplate(TemplateOf(xs), a + b)
  {
    hide BindTemplate, TemplateOf, Resolve, Unlisted, Fits;
    var ys := ResolveAll(xs, a);
    BindsCompiled(xs, a);
    BindsCompiled(xs, a + b);
    forall k | 0 <= k < |xs|
      ensures Fits(ys[k]) && Resolve(ys[k], b) == Resolve(xs[k], a + b) && Unlisted(ys[k], b) == Unlisted(xs[k], a + b)
    {
      ResolveFits(xs[k], a);
      ResolveTwice(xs[k], a, b);
    }
    BindsCompiled(ys, b);
    assert ResolveAll(ys, b) == ResolveAll(xs, a + b);
    SameListed(xs, ys, a + b, b);
  }

  lemma SameListed(xs: seq<Piece>, ys: seq<Piece>, a: Directory, b: Directory)
    requires |xs| == |ys| && forall k :: 0 <= k < |xs| ==> Unlisted(ys[k], b) == Unlisted(xs[k], a)
    ensures AllListed(xs, a) == AllListed(ys, b)
  {
    hide Unlisted;
  }

  lemma ResolveFits(x: Piece, dir: Directory)
    requires Fits(x)
    ensures Fits(Resolve(x, dir))
  {
    hide FirstNamed;
  }
}
