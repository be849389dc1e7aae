/** Codepoint-aware string functions (string_fn.c) on arbitrary bytes: size, reversal, substrings,
    replacement, padding, CHAR and ORD. */
module TextFunctions {
  import opened Wrappers
  import opened Bytes
  import opened Layout
  import opened Utf8

  // ----- Units -----

  /** Bytes a lead byte announces; a byte that cannot lead stands alone. */
  function Announced(b: byte): (w: nat)
    ensures 1 <= w <= 4
  {
    if b < 0x80 then 1
    else if 0xC0 <= b < 0xE0 then 2
    else if 0xE0 <= b < 0xF0 then 3
    else if 0xF0 <= b < 0xF8 then 4
    else 1
  }

  /** Width of the codepoint at `pos`, 0 past the end or when it is cut off (utf8_cp_len). */
  function CpLen(s: seq<byte>, pos: nat): (w: nat)
    ensures w > 0 ==> pos + w <= |s| && w == Announced(s[pos])
  {
    if pos >= |s| then 0
    else
      var w := Announced(s[pos]);
      if pos + w <= |s| then w else 0
  }

  /** The step every scan takes: a cut-off codepoint counts byte by byte. */
  function Width(s: seq<byte>, pos: nat): (w: nat)
    requires pos < |s|
    ensures 1 <= w && pos + w <= |s|
  {
    if CpLen(s, pos) == 0 then 1 else CpLen(s, pos)
  }

  /** The string cut into the units that scans see. */
  function Units(s: seq<byte>): (us: seq<seq<byte>>)
    ensures Flatten(us) == s
    ensures forall k :: 0 <= k < |us| ==> us[k] != []
  {
    if s == [] then []
    else
      var w := Width(s, 0);
      assert s == s[..w] + s[w..];
      [s[..w]] + Units(s[w..])
  }

  /** No codepoint of the string is cut off. */
  predicate Whole(s: seq<byte>) {
    s == [] || (CpLen(s, 0) > 0 && Whole(s[Width(s, 0)..]))
  }

  predicate Ascii(s: seq<byte>) { forall i :: 0 <= i < |s| ==> s[i] < 0x80 }

  /** A single complete codepoint. */
  predicate OneUnit(u: seq<byte>) { u != [] && |u| == Announced(u[0]) }

  lemma UnitFirst(u: seq<byte>, rest: seq<byte>)
    requires OneUnit(u)
    ensures Units(u + rest) == [u] + Units(rest)
    ensures Whole(u + rest) <==> Whole(rest)
  {
    var s := u + rest;
    assert Width(s, 0) == |u|;
    assert s[..|u|] == u && s[|u|..] == rest;
  }

  /** Peel the first codepoint off. */
  lemma Peel(s: seq<byte>) returns (u: seq<byte>, rest: seq<byte>)
    requires s != [] && CpLen(s, 0) > 0
    ensures u == s[..Width(s, 0)] && rest == s[|u|..] && s == u + rest && |rest| < |s| && OneUnit(u)
    ensures Units(s) == [u] + Units(rest) && (Whole(s) <==> Whole(rest))
  {
    u, rest := s[..Width(s, 0)], s[Width(s, 0)..];
  }

  lemma WholeHead(s: seq<byte>)
    requires s != [] && Whole(s)
    ensures CpLen(s, 0) > 0
  {
  }

  /** Cutting is compatible with concatenation behind whole codepoints. */
  lemma {:induction false} UnitsConcat(a: seq<byte>, b: seq<byte>)
    requires Whole(a)
    ensures Units(a + b) == Units(a) + Units(b)
    ensures Whole(a + b) <==> Whole(b)
    decreases |a|
  {
    if a == [] {
      assert a + b == b;
    } else {
      hide Units, Whole, OneUnit, Width, CpLen;
      WholeHead(a);
      var u, rest := Peel(a);
      Regroup(u, rest, b);
      UnitFirst(u, rest + b);
      UnitsConcat(rest, b);
      Regroup([u], Units(rest), Units(b));
    }
  }

  lemma Regroup<T>(a: seq<T>, b: seq<T>, c: seq<T>)
    ensures a + (b + c) == (a + b) + c
  {
  }

  lemma {:induction false} AsciiUnits(s: seq<byte>)
    requires Ascii(s)
    ensures Whole(s) && |Units(s)| == |s|
    ensures forall k :: 0 <= k < |s| ==> Units(s)[k] == [s[k]]
    decreases |s|
  {
    if s != [] { AsciiUnits(s[1..]); }
  }

  // ----- SIZE -----

  function Size(s: seq<byte>): nat { |Units(s)| }

  method AllAscii(s: seq<byte>) returns (ok: bool)
    ensures ok == Ascii(s)
  {
    var i := 0;
    while i < |s|
      invariant 0 <= i <= |s| && Ascii(s[..i])
    {
      if s[i] >= 0x80 { return false; }
      i := i + 1;
    }
    return true;
  }

  method SizeOf(s: seq<byte>) returns (count: nat)
    ensures count == Size(s)
  {
    hide CpLen, Flatten;
    var ascii := AllAscii(s);
    if ascii {
      AsciiUnits(s);
      return |s|;
    }
    hide Size;
    count := 0;
    var i := 0;
    assert s[0..] == s;
    while i < |s|
      invariant 0 <= i <= |s| && count + Size(s[i..]) == Size(s)
    {
      SizeStep(s, i);
      var cl := CpLen(s, i);
      if cl == 0 { cl := 1; }
      count := count + 1;
      i := i + cl;
    }
    assert s[i..] == [];
    assert Size([]) == 0 by { NoUnits(); }
  }

  lemma SizeStep(s: seq<byte>, i: nat)
    requires i < |s|
    ensures Size(s[i..]) == 1 + Size(s[i + Width(s, i)..])
  {
    hide Units, Width;
    UnitAt(s, i);
  }

  /** The scan of a suffix starts with the unit at its offset. */
  lemma UnitAt(s: seq<byte>, i: nat)
    requires i < |s|
    ensures var w := Width(s, i);
      Units(s[i..]) == [s[i..i + w]] + Units(s[i + w..])
  {
    var w := Width(s, i);
    assert Width(s[i..], 0) == w;
    assert s[i..][..w] == s[i..i + w] && s[i..][w..] == s[i + w..];
  }

  /** Where a cut-off codepoint begins, when there is one. */
  lemma {:induction false} CutOff(s: seq<byte>) returns (p: nat)
    requires !Whole(s)
    ensures p < |s| && CpLen(s, p) == 0 && Whole(s[..p])
    decreases |s|
  {
    hide Units, Whole, OneUnit, Width, CpLen;
    NotEmpty(s);
    if CpLen(s, 0) == 0 {
      p := 0;
      assert s[..0] == [];
    } else {
      var u, rest := Peel(s);
      var q := CutOff(rest);
      p := |u| + q;
      assert s[..p] == u + rest[..q];
      UnitFirst(u, rest[..q]);
      CpLenLater(u, rest, q);
    }
  }

  lemma CpLenLater(u: seq<byte>, rest: seq<byte>, q: nat)
    ensures CpLen(u + rest, |u| + q) == CpLen(rest, q)
  {
  }

  lemma NotEmpty(s: seq<byte>)
    requires !Whole(s)
    ensures s != [] && Whole([])
  {
  }

  lemma {:induction false} AsciiFiller(n: nat)
    ensures Ascii(seq(n, _ => 0x61)) && Size(seq(n, _ => 0x61)) == n
  {
    AsciiUnits(seq(n, _ => 0x61));
  }

  ghost predicate Additive(a: seq<byte>) {
    forall b: seq<byte> :: Size(a + b) == Size(a) + Size(b)
  }

  /** SIZE adds up over concatenation, whatever follows, exactly when no codepoint of the first
      string is cut off. */
  lemma SizeAddsExactly(a: seq<byte>)
    ensures Additive(a) <==> Whole(a)
  {
    if Whole(a) {
      forall b: seq<byte> ensures Size(a + b) == Size(a) + Size(b) { UnitsConcat(a, b); }
    } else {
      var b := Completion(a);
      assert Size(a + b) < Size(a) + Size(b);
    }
  }

  /** Bytes that complete a cut-off codepoint, making one unit where there were several. */
  lemma Completion(a: seq<byte>) returns (b: seq<byte>)
    requires !Whole(a)
    ensures Size(a + b) < Size(a) + Size(b)
  {
    hide Units, Whole, Width;
    var p := CutOff(a);
    var missing := p + Announced(a[p]) - |a|;
    b := seq(missing, _ => 0x61);
    AsciiFiller(missing);
    var head, tail := a[..p], a[p..];
    var u := tail + b;
    assert a == head + tail && a + b == head + u && u + [] == u;
    UnitFirst(u, []);
    UnitsConcat(head, u);
    UnitsConcat(head, tail);
    assert Units([]) == [] by { NoUnits(); }
    assert |Units(tail)| > 0 by { SomeUnits(tail); }
  }

  lemma NoUnits()
    ensures Units([]) == []
  {
  }

  lemma SomeUnits(s: seq<byte>)
    requires s != []
    ensures |Units(s)| > 0
  {
  }

  // ----- REVERSE -----

  function Backwards(us: seq<seq<byte>>): (r: seq<seq<byte>>)
    ensures |r| == |us| && forall k :: 0 <= k < |us| ==> r[k] == us[|us| - 1 - k]
  {
    seq(|us|, k requires 0 <= k < |us| => us[|us| - 1 - k])
  }

  function Reversed(s: seq<byte>): seq<byte> { Flatten(Backwards(Units(s))) }

  predicate AllOneUnit(us: seq<seq<byte>>) { forall k :: 0 <= k < |us| ==> OneUnit(us[k]) }

  lemma {:induction false} WholeUnits(s: seq<byte>)
    requires Whole(s)
    ensures AllOneUnit(Units(s))
    decreases |s|
  {
    if s != [] { WholeUnits(s[Width(s, 0)..]); }
  }

  /** Complete codepoints put together are cut where they were joined. */
  lemma {:induction false} Recut(us: seq<seq<byte>>)
    requires AllOneUnit(us)
    ensures Units(Flatten(us)) == us && Whole(Flatten(us))
  {
    if us != [] {
      Recut(us[1..]);
      UnitFirst(us[0], Flatten(us[1..]));
    }
  }

  /** Reversal is its own inverse on strings of complete codepoints, and keeps their size. */
  lemma ReverseTwice(s: seq<byte>)
    requires Whole(s)
    ensures Reversed(Reversed(s)) == s && Whole(Reversed(s)) && Size(Reversed(s)) == Size(s)
  {
    WholeUnits(s);
    var back := Backwards(Units(s));
    Recut(back);
    assert Backwards(back) == Units(s);
  }

  /** A cut-off lead byte swallows what reversal puts behind it. */
  lemma ReverseTwiceCutOff()
    ensures !Whole([0x61, 0xC3]) && Reversed([0x61, 0xC3]) == [0xC3, 0x61]
    ensures Reversed(Reversed([0x61, 0xC3])) != [0x61, 0xC3]
  {
    var s: seq<byte>, t: seq<byte> := [0x61, 0xC3], [0xC3, 0x61];
    assert s[1..] == [0xC3] && s[..1] == [0x61];
    assert Units([0xC3]) == [[0xC3]] by { assert [0xC3][..1] == [0xC3] && [0xC3][1..] == []; }
    assert Units(s) == [[0x61], [0xC3]];
    assert Backwards(Units(s)) == [[0xC3], [0x61]];
    TwoParts([0xC3], [0x61]);
    assert OneUnit(t) && t + [] == t;
    UnitFirst(t, []);
    assert Units(t) == [t];
    assert Backwards([t]) == [t];
    FlattenOne(t);
  }

  /** A piece that a scan cuts off where it stands: a complete codepoint, or a lead byte with too little behind it. */
  predicate Stands(u: seq<byte>, behind: nat) {
    OneUnit(u) || (|u| == 1 && 1 + behind < Announced(u[0]))
  }

  predicate AllStand(us: seq<seq<byte>>) {
    us == [] || (Stands(us[0], |Flatten(us[1..])|) && AllStand(us[1..]))
  }

  predicate Pieces(us: seq<seq<byte>>) { forall k :: 0 <= k < |us| ==> OneUnit(us[k]) || |us[k]| == 1 }

  /** Pieces put together are cut where they were joined exactly when each of them stands. */
  lemma {:induction false} RecutExact(us: seq<seq<byte>>)
    requires Pieces(us)
    ensures Units(Flatten(us)) == us <==> AllStand(us)
  {
    hide Whole;
    if us != [] {
      var u, rest := us[0], Flatten(us[1..]);
      var s := u + rest;
      RecutExact(us[1..]);
      assert Width(s, 0) == |u| <==> Stands(u, |rest|);
      if Stands(u, |rest|) {
        assert s[..|u|] == u && s[|u|..] == rest;
        assert Units(s) == [u] + Units(rest);
        assert ([u] + Units(rest))[1..] == Units(rest) && us == [u] + us[1..];
      } else {
        assert |Units(s)[0]| == Width(s, 0);
      }
    }
  }

  lemma {:induction false} UnitsArePieces(s: seq<byte>)
    ensures Pieces(Units(s))
    decreases |s|
  {
    if s != [] { UnitsArePieces(s[Width(s, 0)..]); }
  }

  lemma {:induction false} FlattenLength(us: seq<seq<byte>>)
    ensures |Flatten(Backwards(us))| == |Flatten(us)|
    decreases |us|
  {
    if us == [] {
      assert Backwards(us) == [];
    } else {
      var n := |us| - 1;
      assert Backwards(us) == [us[n]] + Backwards(us[..n]);
      assert us == us[..n] + [us[n]];
      FlattenConcat(us[..n], [us[n]]);
      FlattenOne(us[n]);
      FlattenLength(us[..n]);
      assert ([us[n]] + Backwards(us[..n]))[1..] == Backwards(us[..n]);
    }
  }

  /** Every cut-off lead byte has fewer bytes in front of it than it lacks. */
  predicate CutsNearStart(us: seq<seq<byte>>) {
    forall k :: 0 <= k < |us| ==> Stands(us[k], |Flatten(us[..k])|)
  }

  lemma {:induction false} BackwardsStand(us: seq<seq<byte>>)
    ensures AllStand(Backwards(us)) <==> CutsNearStart(us)
    decreases |us|
  {
    hide Stands, Flatten;
    if us != [] {
      var n := |us| - 1;
      var less := us[..n];
      assert Backwards(us) == [us[n]] + Backwards(less) && Backwards(us)[1..] == Backwards(less);
      FlattenLength(less);
      BackwardsStand(less);
      if CutsNearStart(us) {
        forall k | 0 <= k < n ensures Stands(less[k], |Flatten(less[..k])|) { assert less[..k] == us[..k]; }
      }
      if CutsNearStart(less) && Stands(us[n], |Flatten(less)|) {
        forall k | 0 <= k < |us| ensures Stands(us[k], |Flatten(us[..k])|) {
          if k < n { assert less[k] == us[k] && less[..k] == us[..k]; }
        }
      }
    }
  }

  /** Reversal reverses the units, and so is undone by another, exactly as long as every cut-off lead byte has too
      little in front of it to complete it. */
  lemma ReversalExact(s: seq<byte>)
    ensures Units(Reversed(s)) == Backwards(Units(s)) <==> CutsNearStart(Units(s))
    ensures CutsNearStart(Units(s)) ==> Reversed(Reversed(s)) == s && Size(Reversed(s)) == Size(s)
    ensures Whole(s) ==> CutsNearStart(Units(s))
  {
    hide CutsNearStart, AllStand, Units, Whole;
    var us := Units(s);
    UnitsArePieces(s);
    assert Pieces(Backwards(us));
    RecutExact(Backwards(us));
    BackwardsStand(us);
    assert Backwards(Backwards(us)) == us;
    if Whole(s) {
      WholeUnits(s);
      AllNear(us);
    }
  }

  lemma AllNear(us: seq<seq<byte>>)
    requires AllOneUnit(us)
    ensures CutsNearStart(us)
  {
    hide OneUnit;
  }

  lemma TwoParts(a: seq<byte>, b: seq<byte>)
    ensures Flatten([a, b]) == a + b
  {
    assert [a, b][1..] == [b];
    FlattenOne(b);
  }

  lemma {:induction false} ReversedAscii(s: seq<byte>)
    requires Ascii(s)
    ensures |Reversed(s)| == |s| && forall k :: 0 <= k < |s| ==> Reversed(s)[k] == s[|s| - 1 - k]
  {
    AsciiUnits(s);
    Singles(Backwards(Units(s)));
  }

  lemma {:induction false} Singles(us: seq<seq<byte>>)
    requires forall k :: 0 <= k < |us| ==> |us[k]| == 1
    ensures |Flatten(us)| == |us| && forall k :: 0 <= k < |us| ==> Flatten(us)[k] == us[k][0]
  {
    if us != [] { Singles(us[1..]); }
  }

  /** Byte reversal on the ASCII path, two passes over recorded spans otherwise. */
  method Reverse(s: seq<byte>) returns (out: seq<byte>)
    ensures out == Reversed(s)
  {
    var ascii := AllAscii(s);
    if ascii {
      ReversedAscii(s);
      var buf := new byte[|s|];
      var i := 0;
      while i < |s|
        invariant 0 <= i <= |s| && forall k :: 0 <= k < i ==> buf[k] == s[|s| - 1 - k]
      {
        buf[i] := s[|s| - 1 - i];
        i := i + 1;
      }
      return buf[..];
    }
    out := ReverseSpans(s);
  }

  method ReverseSpans(s: seq<byte>) returns (out: seq<byte>)
    ensures out == Reversed(s)
  {
    hide Units, Flatten, Backwards;
    var starts, ends := new nat[|s|], new nat[|s|];
    var count;
    ghost var us;
    count, us := CollectSpans(s, starts, ends);
    ghost var back := Backwards(us);
    out := [];
    assert Flatten([]) == [] by { FlattenNothing(); }
    var i := count;
    while i > 0
      invariant 0 <= i <= count && out == Flatten(back[..count - i])
      modifies {}
    {
      assert us[i - 1] == s[starts[i - 1]..ends[i - 1]];
      NextBack(us, i);
      out := out + s[starts[i - 1]..ends[i - 1]];
      i := i - 1;
    }
    assert back[..count] == back;
  }

  lemma FlattenNothing()
    ensures Flatten([]) == []
  {
  }

  lemma NextBack(us: seq<seq<byte>>, i: nat)
    requires 0 < i <= |us|
    ensures var back, k := Backwards(us), |us| - i;
      Flatten(back[..k + 1]) == Flatten(back[..k]) + us[i - 1]
  {
    var back, k := Backwards(us), |us| - i;
    assert back[..k + 1] == back[..k] + [us[i - 1]];
    FlattenConcat(back[..k], [us[i - 1]]);
    FlattenOne(us[i - 1]);
  }

  /** First pass: where each unit begins and ends. */
  method CollectSpans(s: seq<byte>, starts: array<nat>, ends: array<nat>) returns (count: nat, ghost us: seq<seq<byte>>)
    requires starts.Length == ends.Length == |s| && starts != ends
    modifies starts, ends
    ensures us == Units(s) && count == |us| <= |s|
    ensures forall k :: 0 <= k < count ==> starts[k] <= ends[k] <= |s| && us[k] == s[starts[k]..ends[k]]
  {
    hide Units, Flatten;
    count, us := 0, [];
    var pos := 0;
    assert s[0..] == s;
    while pos < |s|
      invariant 0 <= count <= pos <= |s| && |us| == count && us + Units(s[pos..]) == Units(s)
      invariant forall k :: 0 <= k < count ==> starts[k] <= ends[k] <= |s| && us[k] == s[starts[k]..ends[k]]
    {
      UnitAt(s, pos);
      var cl := CpLen(s, pos);
      if cl == 0 { cl := 1; }
      assert us + ([s[pos..pos + cl]] + Units(s[pos + cl..])) == (us + [s[pos..pos + cl]]) + Units(s[pos + cl..]);
      starts[count], ends[count] := pos, pos + cl;
      us := us + [s[pos..pos + cl]];
      count := count + 1;
      pos := pos + cl;
    }
    NoUnits();
    assert s[pos..] == [];
  }

  // ----- CHAR and ORD -----

  predicate Scalar(cp: nat) { cp <= 0x10_FFFF && !(0xD800 <= cp <= 0xDFFF) }

  /** The bytes of a codepoint; empty when it has none. */
  function EncodeUtf8(cp: nat): (s: seq<byte>)
    ensures |s| <= 4 && (s != [] <==> Scalar(cp))
  {
    if !Scalar(cp) then []
    else if cp < 0x80 then [cp]
    else if cp < 0x800 then [0xC0 + cp / 0x40, 0x80 + cp % 0x40]
    else if cp < 0x1_0000 then [0xE0 + cp / 0x1000, 0x80 + cp / 0x40 % 0x40, 0x80 + cp % 0x40]
    else [0xF0 + cp / 0x4_0000, 0x80 + cp / 0x1000 % 0x40, 0x80 + cp / 0x40 % 0x40, 0x80 + cp % 0x40]
  }

  function Ord(s: seq<byte>): Option<nat> {
    if s == [] then None
    else
      var c: int := s[0];
      if c < 0x80 then Some(c)
      else if 0xC0 <= c < 0xE0 then
        if |s| < 2 then None else Some((c - 0xC0) * 0x40 + Tail6(s[1]))
      else if 0xE0 <= c < 0xF0 then
        if |s| < 3 then None else Some((c - 0xE0) * 0x1000 + Tail6(s[1]) * 0x40 + Tail6(s[2]))
      else if 0xF0 <= c < 0xF8 then
        if |s| < 4 then None
        else Some((c - 0xF0) * 0x4_0000 + Tail6(s[1]) * 0x1000 + Tail6(s[2]) * 0x40 + Tail6(s[3]))
      else None
  }

  lemma SixBits(cp: nat)
    ensures cp == cp / 0x40 * 0x40 + cp % 0x40
    ensures cp / 0x40 == cp / 0x1000 * 0x40 + cp / 0x40 % 0x40
    ensures cp / 0x1000 == cp / 0x4_0000 * 0x40 + cp / 0x1000 % 0x40
  {
  }

  lemma TailOf(v: nat)
    requires v < 0x40
    ensures Tail6(0x80 + v) == v
  {
  }

  lemma OrdTwo(cp: nat, rest: seq<byte>)
    requires 0x80 <= cp < 0x800
    ensures Ord(EncodeUtf8(cp) + rest) == Some(cp)
  {
    hide Tail6;
    SixBits(cp);
    TailOf(cp % 0x40);
  }

  lemma OrdThree(cp: nat, rest: seq<byte>)
    requires 0x800 <= cp < 0x1_0000 && Scalar(cp)
    ensures Ord(EncodeUtf8(cp) + rest) == Some(cp)
  {
    hide Tail6;
    SixBits(cp);
    TailOf(cp % 0x40);
    TailOf(cp / 0x40 % 0x40);
    var s := EncodeUtf8(cp) + rest;
    assert s[0] == 0xE0 + cp / 0x1000 && s[1] == 0x80 + cp / 0x40 % 0x40 && s[2] == 0x80 + cp % 0x40;
  }

  lemma OrdFour(cp: nat, rest: seq<byte>)
    requires 0x1_0000 <= cp && Scalar(cp)
    ensures Ord(EncodeUtf8(cp) + rest) == Some(cp)
  {
    hide Tail6;
    SixBits(cp);
    TailOf(cp % 0x40);
    TailOf(cp / 0x40 % 0x40);
    TailOf(cp / 0x1000 % 0x40);
    var s := EncodeUtf8(cp) + rest;
    assert s[0] == 0xF0 + cp / 0x4_0000 && s[1] == 0x80 + cp / 0x1000 % 0x40;
    assert s[2] == 0x80 + cp / 0x40 % 0x40 && s[3] == 0x80 + cp % 0x40;
  }

  /** Encoding a codepoint and reading it back, whatever follows. */
  lemma OrdOfChar(cp: nat, rest: seq<byte>)
    requires Scalar(cp)
    ensures Ord(EncodeUtf8(cp) + rest) == Some(cp)
  {
    if cp < 0x80 {
    } else if cp < 0x800 {
      OrdTwo(cp, rest);
    } else if cp < 0x1_0000 {
      OrdThree(cp, rest);
    } else {
      OrdFour(cp, rest);
    }
  }

  lemma CharIsUnit(cp: nat)
    requires Scalar(cp)
    ensures OneUnit(EncodeUtf8(cp))
  {
  }

  // ----- LPAD and RPAD -----

  function Repeated(u: seq<byte>, n: nat): seq<byte> {
    if n == 0 then [] else Repeated(u, n - 1) + u
  }

  /** Padding: what LPAD puts before and RPAD behind the string. */
  function Padding(s: seq<byte>, width: nat, cp: nat): seq<byte> {
    if Size(s) >= width then [] else Repeated(EncodeUtf8(cp), width - Size(s))
  }

  method AppendRepeated(out: seq<byte>, u: seq<byte>, n: nat) returns (r: seq<byte>)
    ensures r == out + Repeated(u, n)
  {
    r := out;
    var i := 0;
    while i < n
      invariant 0 <= i <= n && r == out + Repeated(u, i)
    {
      Regroup(out, Repeated(u, i), u);
      r := r + u;
      i := i + 1;
    }
  }

  /** LPAD and RPAD: the output, and whether the call succeeds. */
  method Lpad(s: seq<byte>, width: nat, cp: nat) returns (ok: bool, out: seq<byte>)
    ensures ok == (Size(s) >= width || Scalar(cp))
    ensures out == if ok then Padding(s, width, cp) + s else []
  {
    var cur := SizeOf(s);
    if cur >= width {
      assert [] + s == s;
      return true, s;
    }
    var pad := EncodeUtf8(cp);
    if |pad| == 0 { return false, []; }
    out := AppendRepeated([], pad, width - cur);
    assert [] + Repeated(pad, width - cur) == Repeated(pad, width - cur);
    out := out + s;
    ok := true;
  }

  method Rpad(s: seq<byte>, width: nat, cp: nat) returns (ok: bool, out: seq<byte>)
    ensures ok == (Size(s) >= width || Scalar(cp))
    ensures out == if ok then s + Padding(s, width, cp) else s
  {
    var cur := SizeOf(s);
    if cur >= width {
      assert s + [] == s;
      return true, s;
    }
    var pad := EncodeUtf8(cp);
    if |pad| == 0 { return false, s; }
    out := AppendRepeated(s, pad, width - cur);
    ok := true;
  }

  /** The units of a repeated codepoint are that many copies of it. */
  lemma {:induction false} CopiesOf(u: seq<byte>, n: nat)
    requires OneUnit(u)
    ensures Units(Repeated(u, n)) == seq(n, _ => u) && Whole(Repeated(u, n))
  {
    hide Units, Whole;
    if n == 0 {
      NoUnits();
      NothingWhole();
    } else {
      CopiesOf(u, n - 1);
      UnitsConcat(Repeated(u, n - 1), u);
      assert u + [] == u;
      UnitFirst(u, []);
      NoUnits();
      NothingWhole();
      assert seq(n, _ => u) == seq(n - 1, _ => u) + [u];
    }
  }

  lemma NothingWhole()
    ensures Whole([])
  {
  }

  /** How many codepoints are missing. */
  function Missing(s: seq<byte>, width: nat): nat { if Size(s) < width then width - Size(s) else 0 }

  /** LPAD puts the missing number of copies of the codepoint, each as CHAR writes it, in front of the units of the
      string. */
  lemma LpadUnits(s: seq<byte>, width: nat, cp: nat)
    requires Scalar(cp)
    ensures Units(Padding(s, width, cp) + s) == seq(Missing(s, width), _ => EncodeUtf8(cp)) + Units(s)
  {
    hide Units, Whole, EncodeUtf8;
    CharIsUnit(cp);
    CopiesOf(EncodeUtf8(cp), Missing(s, width));
    UnitsConcat(Padding(s, width, cp), s);
  }

  /** RPAD puts them behind, when the codepoints of the string are complete. */
  lemma RpadUnits(s: seq<byte>, width: nat, cp: nat)
    requires Scalar(cp) && Whole(s)
    ensures Units(s + Padding(s, width, cp)) == Units(s) + seq(Missing(s, width), _ => EncodeUtf8(cp))
  {
    hide Units, Whole, EncodeUtf8;
    CharIsUnit(cp);
    CopiesOf(EncodeUtf8(cp), Missing(s, width));
    UnitsConcat(s, Padding(s, width, cp));
  }

  /** Padding on the left reaches the width for every string. */
  lemma LpadSize(s: seq<byte>, width: nat, cp: nat)
    requires Scalar(cp)
    ensures Size(Padding(s, width, cp) + s) == Max(width, Size(s))
  {
    hide Units, Whole;
    CharIsUnit(cp);
    if Size(s) < width {
      CopiesOf(EncodeUtf8(cp), width - Size(s));
      UnitsConcat(Padding(s, width, cp), s);
    } else {
      assert [] + s == s;
    }
  }

  /** On the right it does so for strings whose codepoints are complete. */
  lemma RpadSize(s: seq<byte>, width: nat, cp: nat)
    requires Scalar(cp) && Whole(s)
    ensures Size(s + Padding(s, width, cp)) == Max(width, Size(s))
  {
    hide Units, Whole;
    CharIsUnit(cp);
    if Size(s) < width {
      CopiesOf(EncodeUtf8(cp), width - Size(s));
      UnitsConcat(s, Padding(s, width, cp));
    } else {
      assert s + [] == s;
    }
  }

  // ----- SUBSTR -----

  /** Offset after at most `n` units from `from`. */
  function Skip(s: seq<byte>, from: nat, n: nat): (end: nat)
    ensures from <= end && (from <= |s| ==> end <= |s|)
    decreases n
  {
    if n == 0 || from >= |s| then from else Skip(s, from + Width(s, from), n - 1)
  }

  method SkipUnits(s: seq<byte>, from: nat, n: nat) returns (end: nat)
    ensures end == Skip(s, from, n)
  {
    hide CpLen;
    end := from;
    var cp := 0;
    while cp < n && end < |s|
      invariant 0 <= cp <= n && Skip(s, end, n - cp) == Skip(s, from, n)
    {
      var cl := CpLen(s, end);
      if cl == 0 { cl := 1; }
      end := end + cl;
      cp := cp + 1;
    }
  }

  /** The substring of `len` codepoints from the 1-based position `pos`. */
  function Substring(s: seq<byte>, pos: nat, len: nat): Option<seq<byte>> {
    if pos == 0 then None
    else
      var start := Skip(s, 0, pos - 1);
      if start >= |s| && pos > 1 then None else Some(s[start..Skip(s, start, len)])
  }

  method Substr(s: seq<byte>, pos: nat, len: nat) returns (r: Option<seq<byte>>)
    ensures r == Substring(s, pos, len)
  {
    if pos == 0 { return None; }
    var start := SkipUnits(s, 0, pos - 1);
    if start >= |s| && pos > 1 { return None; }
    var end := SkipUnits(s, start, len);
    return Some(s[start..end]);
  }

  function Take<T>(us: seq<T>, n: nat): seq<T> { if n <= |us| then us[..n] else us }

  function Drop<T>(us: seq<T>, n: nat): seq<T> { if n <= |us| then us[n..] else [] }

  lemma FlattenCons(u: seq<byte>, us: seq<seq<byte>>)
    ensures Flatten([u] + us) == u + Flatten(us)
  {
    assert ([u] + us)[1..] == us;
  }

  lemma TakeDropCons<T>(u: T, us: seq<T>, n: nat)
    requires n > 0
    ensures Take([u] + us, n) == [u] + Take(us, n - 1) && Drop([u] + us, n) == Drop(us, n - 1)
  {
  }

  lemma SkipStep(s: seq<byte>, from: nat, n: nat)
    requires from < |s| && n > 0
    ensures Skip(s, from, n) == Skip(s, from + Width(s, from), n - 1)
  {
  }

  lemma SkipNone(s: seq<byte>, from: nat, n: nat)
    requires from <= |s| && (n == 0 || from == |s|)
    ensures Skip(s, from, n) == from
    ensures Flatten(Take(Units(s[from..]), n)) == [] && Drop(Units(s[from..]), n) == Units(s[from..])
  {
    if from == |s| {
      assert s[from..] == [];
      NoUnits();
    }
  }

  /** Skipping takes whole units off the front. */
  lemma {:induction false} SkipTakes(s: seq<byte>, from: nat, n: nat)
    requires from <= |s|
    ensures var end := Skip(s, from, n);
      && s[from..end] == Flatten(Take(Units(s[from..]), n))
      && Units(s[end..]) == Drop(Units(s[from..]), n)
    decreases n
  {
    hide Units, Width, CpLen, Take, Drop, Flatten, Skip;
    if n > 0 && from < |s| {
      var next := from + Width(s, from);
      var u, us := s[from..next], Units(s[next..]);
      UnitAt(s, from);
      SkipStep(s, from, n);
      SkipTakes(s, next, n - 1);
      TakeDropCons(u, us, n);
      FlattenCons(u, Take(us, n - 1));
      assert s[from..Skip(s, from, n)] == u + s[next..Skip(s, from, n)];
    } else {
      SkipNone(s, from, n);
    }
  }

  /** SUBSTR is a stretch of the string's units. */
  lemma SubstringIsUnits(s: seq<byte>, pos: nat, len: nat)
    requires pos > 0
    ensures Substring(s, pos, len)
         == if pos > 1 && Size(s) < pos then None
            else Some(Flatten(Take(Drop(Units(s), pos - 1), len)))
  {
    hide Units, Skip;
    var start := Skip(s, 0, pos - 1);
    SkipTakes(s, 0, pos - 1);
    assert s[0..] == s;
    SkipTakes(s, start, len);
    UnitsOfSuffix(s, start);
  }

  lemma UnitsOfSuffix(s: seq<byte>, p: nat)
    requires p <= |s|
    ensures Units(s[p..]) == [] <==> p == |s|
  {
    if p < |s| { SomeUnits(s[p..]); }
  }

  /** Cutting a string in two at any codepoint loses nothing. */
  lemma SubstringsJoin(s: seq<byte>, n: nat)
    requires 0 < n < Size(s)
    ensures Substring(s, 1, n).Some? && Substring(s, n + 1, Size(s) - n).Some?
    ensures Substring(s, 1, n).value + Substring(s, n + 1, Size(s) - n).value == s
  {
    hide Units, Substring;
    var us := Units(s);
    SubstringIsUnits(s, 1, n);
    SubstringIsUnits(s, n + 1, Size(s) - n);
    assert Take(Drop(us, 0), n) == us[..n] && Take(Drop(us, n), |us| - n) == us[n..];
    assert us == us[..n] + us[n..];
    FlattenConcat(us[..n], us[n..]);
    UnitsFlatten(s);
  }

  lemma UnitsFlatten(s: seq<byte>)
    ensures Flatten(Units(s)) == s
  {
  }

  // ----- REPLACE -----

  /** Replace occurrences from left to right, continuing behind each one. */
  function Replaced(s: seq<byte>, from: seq<byte>, to: seq<byte>): seq<byte>
    requires from != []
    decreases |s|
  {
    if |from| > |s| then s
    else if s[..|from|] == from then to + Replaced(s[|from|..], from, to)
    else [s[0]] + Replaced(s[1..], from, to)
  }

  lemma ReplacedFrom(s: seq<byte>, from: seq<byte>, to: seq<byte>, i: nat)
    requires from != [] && i <= |s|
    ensures Replaced(s[i..], from, to)
         == if i + |from| > |s| then s[i..]
            else if s[i..i + |from|] == from then to + Replaced(s[i + |from|..], from, to)
            else [s[i]] + Replaced(s[i + 1..], from, to)
  {
    var rest := s[i..];
    if i + |from| <= |s| {
      assert rest[..|from|] == s[i..i + |from|];
      assert rest[|from|..] == s[i + |from|..] && rest[1..] == s[i + 1..];
    }
  }

  method Replace(s: seq<byte>, from: seq<byte>, to: seq<byte>) returns (out: seq<byte>)
    ensures out == if from == [] then s else Replaced(s, from, to)
  {
    hide Replaced;
    if from == [] { return s; }
    out := [];
    var i := 0;
    assert s[0..] == s;
    while i + |from| <= |s|
      invariant 0 <= i <= |s| && out + Replaced(s[i..], from, to) == Replaced(s, from, to)
      decreases |s| - i
    {
      ReplacedFrom(s, from, to, i);
      if s[i..i + |from|] == from {
        Regroup(out, to, Replaced(s[i + |from|..], from, to));
        out := out + to;
        i := i + |from|;
      } else {
        Regroup(out, [s[i]], Replaced(s[i + 1..], from, to));
        out := out + [s[i]];
        i := i + 1;
      }
    }
    ReplacedFrom(s, from, to, i);
    out := out + s[i..];
  }

  /** Replacing a string by itself changes nothing. */
  lemma {:induction false} ReplaceBySelf(s: seq<byte>, from: seq<byte>)
    requires from != []
    ensures Replaced(s, from, from) == s
    decreases |s|
  {
    if |from| <= |s| {
      if s[..|from|] == from {
        ReplaceBySelf(s[|from|..], from);
        assert s == from + s[|from|..];
      } else {
        ReplaceBySelf(s[1..], from);
        assert s == [s[0]] + s[1..];
      }
    }
  }

  /** How often a string is replaced, counted from the left without overlap. */
  function Occurrences(s: seq<byte>, from: seq<byte>): nat
    requires from != []
    decreases |s|
  {
    if |from| > |s| then 0
    else if s[..|from|] == from then 1 + Occurrences(s[|from|..], from)
    else Occurrences(s[1..], from)
  }

  function Times(n: nat, d: int): int { n * d }

  lemma TimesNext(n: nat, d: int)
    ensures Times(0, d) == 0 && Times(1 + n, d) == Times(n, d) + d
  {
  }

  lemma {:induction false} ReplacedGrows(s: seq<byte>, from: seq<byte>, to: seq<byte>)
    requires from != []
    ensures |Replaced(s, from, to)| == |s| + Times(Occurrences(s, from), |to| - |from|)
    decreases |s|
  {
    hide Times;
    var d: int := |to| - |from|;
    TimesNext(0, d);
    if |from| <= |s| {
      if s[..|from|] == from {
        ReplacedGrows(s[|from|..], from, to);
        TimesNext(Occurrences(s[|from|..], from), d);
      } else {
        ReplacedGrows(s[1..], from, to);
      }
    }
  }

  /** Each replacement changes the length by the difference of the two strings. */
  lemma ReplacedLength(s: seq<byte>, from: seq<byte>, to: seq<byte>)
    requires from != []
    ensures |Replaced(s, from, to)| == |s| + Occurrences(s, from) * (|to| - |from|)
  {
    hide Replaced, Occurrences;
    ReplacedGrows(s, from, to);
  }
}
