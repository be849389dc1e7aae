/** What the pieces of a template emit, byte by byte: captures, letter case, length, padding and table values. */
module RenderedText {
  import opened Bytes
  import opened TemplateCode
  import opened TemplateSyntax
  import opened TemplateRun
  import opened TemplatePrinter

  // ----- Captures -----

  /** `text` is what capture `reg` delimits. */
  predicate Holds(env: Env, reg: nat, text: seq<byte>) {
    && reg < 64 && reg < |env.caps|
    && var (from, end) := env.caps[reg]; from <= end <= |env.subject| && text == env.subject[from..end]
  }

  /** The capture was not set, or delimits nothing of the subject. */
  predicate Missing(env: Env, reg: nat) {
    reg >= 64 || reg >= |env.caps| || env.caps[reg].0 > env.caps[reg].1 || env.caps[reg].1 > |env.subject|
  }

  lemma CapturedMeans(env: Env, reg: nat)
    ensures Missing(env, reg) <==> Captured(env, reg).None?
    ensures Captured(env, reg).Some? ==> Holds(env, reg, Captured(env, reg).value)
  {
  }

  /** A captured text is emitted as it is; a missing capture emits nothing, whatever its format. */
  lemma CaptureMeans(x: Piece, env: Env)
    requires x.Capture? || x.Styled? || x.Padded?
    ensures Missing(env, x.reg) ==> Rendered(x, env) == []
    ensures x.Capture? && !Missing(env, x.reg) ==> Holds(env, x.reg, Rendered(x, env))
  {
    hide Styling, PadTo;
  }

  // ----- Letter case -----

  predicate SmallLetter(b: byte) { 0x61 <= b <= 0x7A }
  predicate BigLetter(b: byte) { 0x41 <= b <= 0x5A }

  /** Small letters become the big letters of the same place in the alphabet; every other byte stays. */
  predicate InCapitals(s: seq<byte>, r: seq<byte>) {
    && |r| == |s|
    && forall i :: 0 <= i < |s| ==>
         if SmallLetter(s[i]) then BigLetter(r[i]) && r[i] - 0x41 == s[i] - 0x61 else r[i] == s[i]
  }

  predicate InSmall(s: seq<byte>, r: seq<byte>) {
    && |r| == |s|
    && forall i :: 0 <= i < |s| ==>
         if BigLetter(s[i]) then SmallLetter(r[i]) && r[i] - 0x61 == s[i] - 0x41 else r[i] == s[i]
  }

  lemma UpperMeans(x: Piece, env: Env, text: seq<byte>)
    requires x.Styled? && x.style.Upper? && Holds(env, x.reg, text)
    ensures InCapitals(text, Rendered(x, env))
  {
  }

  lemma LowerMeans(x: Piece, env: Env, text: seq<byte>)
    requires x.Styled? && x.style.Lower? && Holds(env, x.reg, text)
    ensures InSmall(text, Rendered(x, env))
  {
  }

  /** Raising forgets only the case: lowering gives the same before and after it, and the other way round. */
  lemma CaseForgotten(s: seq<byte>)
    ensures Lowered(Raised(s)) == Lowered(s) && Raised(Lowered(s)) == Raised(s)
    ensures Raised(Raised(s)) == Raised(s) && Lowered(Lowered(s)) == Lowered(s)
  {
  }

  // ----- Length -----

  /** The length is spelled in decimal, without leading zeros. */
  lemma LengthMeans(x: Piece, env: Env, text: seq<byte>)
    requires x.Styled? && x.style.Length? && Holds(env, x.reg, text)
    ensures var out := Rendered(x, env);
      && out != [] && (forall k :: 0 <= k < |out| ==> IsDigit(out[k])) && Decimal(out) == |text|
      && (|out| > 1 ==> out[0] != 48)
  {
    hide Decimal;
    DecimalOfDigits(|text|);
    if |text| > 0 { FirstDigit(|text|); }
  }

  // ----- Padding -----

  predicate Filled(s: seq<byte>, b: byte) { forall i :: 0 <= i < |s| ==> s[i] == b }

  /** Padding reaches the width, at most 1024, with the text at the other end and the fill byte everywhere else; a text
      that is wide enough stays. */
  lemma PaddingMeans(x: Piece, env: Env, text: seq<byte>)
    requires x.Padded? && Holds(env, x.reg, text)
    ensures var out, w := Rendered(x, env), Min(x.width, 1024);
      && |out| == Max(|text|, w)
      && (x.side.Left? ==> out[|out| - |text|..] == text && Filled(out[..|out| - |text|], x.fill))
      && (x.side.Right? ==> out[..|text|] == text && Filled(out[|text|..], x.fill))
  {
  }

  // ----- Tables -----

  /** `r` is `s` up to its first zero byte. */
  predicate CutAtZero(s: seq<byte>, r: seq<byte>) {
    r <= s && 0 !in r && (|r| < |s| ==> s[|r|] == 0)
  }

  lemma {:induction false} UpToZeroCuts(s: seq<byte>)
    ensures CutAtZero(s, UpToZero(s))
  {
    if s != [] && s[0] != 0 {
      UpToZeroCuts(s[1..]);
      var r := UpToZero(s[1..]);
      assert s == [s[0]] + s[1..] && [s[0]] + r <= s;
    }
  }

  lemma LongerHasZero(s: seq<byte>, a: seq<byte>, b: seq<byte>)
    requires CutAtZero(s, a) && b <= s && |a| < |b|
    ensures 0 in b
  {
    assert b[|a|] == s[|a|];
  }

  lemma CutOnce(s: seq<byte>, a: seq<byte>, b: seq<byte>)
    requires CutAtZero(s, a) && CutAtZero(s, b)
    ensures a == b
  {
    if |a| < |b| { LongerHasZero(s, a, b); }
    if |b| < |a| { LongerHasZero(s, b, a); }
  }

  /** A table reference emits the value under its key, both cut at their first zero byte, and nothing when the table
      is unknown or has no such key. */
  ghost predicate Finds(env: Env, table: nat, key: seq<byte>, out: seq<byte>) {
    exists k :: CutAtZero(key, k)
      && if table in env.tables && k in env.tables[table] then CutAtZero(env.tables[table][k], out) else out == []
  }

  lemma LookUpFinds(env: Env, table: nat, key: seq<byte>)
    ensures Finds(env, table, key, LookUp(env, table, key))
  {
    hide CutAtZero, UpToZero;
    var k := UpToZero(key);
    UpToZeroCuts(key);
    if table in env.tables && k in env.tables[table] { UpToZeroCuts(env.tables[table][k]); }
  }

  lemma TableMeans(x: Piece, env: Env)
    requires IsTable(x)
    ensures x.LiteralKey? ==>
      if x.key == [] then Rendered(x, env) == [] else Finds(env, x.table, x.key, Rendered(x, env))
    ensures x.CapturedKey? ==> forall text ::
      Holds(env, x.keyReg, text) ==> Finds(env, x.table, text, Rendered(x, env))
    ensures x.CapturedKey? && Missing(env, x.keyReg) ==> Rendered(x, env) == []
  {
    hide Finds, LookUp;
    if x.LiteralKey? {
      LookUpFinds(env, x.table, x.key);
    } else if Captured(env, x.keyReg).Some? {
      LookUpFinds(env, x.table, Captured(env, x.keyReg).value);
    }
  }
}
