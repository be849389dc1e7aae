/** The peephole pass that turns an alternation of two single-character arms into one ANY of
    their union (compiler_analysis.c). The pass scans raw bytes from right to left. */
module FusionPass {
  import opened Wrappers
  import opened Bytes
  import opened Ranges
  import opened CharClasses
  import opened Bytecode
  import opened CodeBuffer

  /** A single-character arm: a one-byte literal or an ANY. */
  datatype Arm = LitArm(cp: byte) | AnyArm(classId: nat)

  /** A parsed arm operation and the offset behind it. */
  datatype ArmOp = ArmOp(arm: Arm, after: nat)

  function ParseOp(code: seq<byte>, p: nat): (r: Option<ArmOp>)
    ensures r.Some? ==> p < r.value.after <= |code|
  {
    if p >= |code| then None
    else if code[p] == OP_LIT then
      if p + 9 > |code| || U32At(code, p + 5) != 1 || p + 9 >= |code| then None
      else Some(ArmOp(LitArm(code[p + 9]), p + 10))
    else if code[p] == OP_ANY then
      if p + 3 > |code| then None
      else Some(ArmOp(AnyArm(U16At(code, p + 1)), p + 3))
    else None
  }

  function SkipNops(code: seq<byte>, p: nat): (q: nat)
    ensures p <= q && (p <= |code| ==> q <= |code|)
    decreases |code| - p
  {
    if p < |code| && code[p] == OP_NOP then SkipNops(code, p + 1) else p
  }

  datatype Merged = Merged(arm: Arm, merge: nat)

  /** Left arm: an operation, NOPs, and the JMP whose target is the merge point. */
  function ParseArmA(code: seq<byte>, a: nat): Option<Merged> {
    var op :- ParseOp(code, a);
    var jmp := SkipNops(code, op.after);
    if jmp + 5 > |code| || code[jmp] != OP_JMP then None
    else Some(Merged(op.arm, U32At(code, jmp + 1)))
  }

  /** Right arm: an operation that falls through NOPs to the merge point. */
  function ParseArmB(code: seq<byte>, b: nat): (r: Option<Merged>)
    ensures r.Some? ==> b < r.value.merge <= |code|
  {
    var op :- ParseOp(code, b);
    Some(Merged(op.arm, SkipNops(code, op.after)))
  }

  /** The class an arm contributes. An ANY whose id has no entry is read as codepoint 0. */
  function ArmClass(entries: seq<CharClass>, arm: Arm): CharClass {
    match arm
    case LitArm(cp) => CharClass([Range(cp, cp)], false)
    case AnyArm(id) =>
      if 1 <= id <= |entries| then entries[id - 1] else CharClass([Range(0, 0)], false)
  }

  /** The class the pass registers for a pair of arms. */
  function PairClass(entries: seq<CharClass>, x: Arm, y: Arm): (c: CharClass)
    requires Canonical(entries)
    ensures Normal(c.ranges)
  {
    var cx, cy := ArmClass(entries, x), ArmClass(entries, y);
    UnionOf(cx, cy, cx.fold || cy.fold)
  }

  /** Code and class table together: what the pass transforms. */
  datatype Image = Image(code: seq<byte>, entries: seq<CharClass>)

  /** The arms of a fusable SPLIT at `pos`, and their merge point. */
  datatype Pair = Pair(left: Arm, right: Arm, merge: nat)

  function FusableAt(code: seq<byte>, pos: nat): (r: Option<Pair>)
    ensures r.Some? ==> pos + 9 <= |code| && r.value.merge <= |code|
  {
    if pos + 9 > |code| || code[pos] != OP_SPLIT then None
    else
      var a, b := U32At(code, pos + 1), U32At(code, pos + 5);
      if a <= pos || b <= pos || a >= |code| || b >= |code| then None
      else
        var x :- ParseArmA(code, a);
        var y :- ParseArmB(code, b);
        if x.merge != y.merge then None else Some(Pair(x.arm, y.arm, y.merge))
  }

  /** The bytes after writing ANY `id` at `pos` and NOPs up to `merge`. */
  function Rewritten(code: seq<byte>, pos: nat, id: nat, merge: nat): (r: seq<byte>)
    requires pos + 9 <= |code| && merge <= |code|
    ensures |r| == |code|
  {
    var c := code[..pos] + [OP_ANY] + Enc16(id) + code[pos + 3..];
    if merge > pos + 3 then c[..pos + 3] + NopBytes(merge - pos - 3) + c[merge..] else c
  }

  /** One position of the scan. */
  function Visit(m: Image, pos: nat): (r: Image)
    requires Canonical(m.entries)
    ensures |r.code| == |m.code| && Canonical(r.entries) && m.entries <= r.entries
  {
    match FusableAt(m.code, pos)
    case None => m
    case Some(p) =>
      var c := PairClass(m.entries, p.left, p.right);
      var (entries, id) := Register(m.entries, c);
      assert Canonical(entries) by { RegisterKeepsCanonical(m.entries, c); }
      if id > 0xFFFF then Image(m.code, entries)
      else Image(Rewritten(m.code, pos, id, p.merge), entries)
  }

  /** Visit positions `hi - 1` down to `lo`. */
  function Scan(m: Image, hi: nat, lo: nat): (r: Image)
    requires Canonical(m.entries)
    ensures |r.code| == |m.code| && Canonical(r.entries) && m.entries <= r.entries
    decreases hi
  {
    if hi <= lo then m else Scan(Visit(m, hi - 1), hi - 1, lo)
  }

  lemma {:induction false} ScanSplits(m: Image, hi: nat, mid: nat, lo: nat)
    requires Canonical(m.entries) && lo <= mid <= hi
    ensures Scan(m, hi, lo) == Scan(Scan(m, hi, mid), mid, lo)
    decreases hi
  {
    hide Visit;
    if hi > mid {
      ScanSplits(Visit(m, hi - 1), hi - 1, mid, lo);
    }
  }

  // ----- The pass as the source runs it -----

  method ParseArm(cb: CodeBuf, p: nat) returns (op: Option<ArmOp>)
    requires cb.Valid()
    ensures op == ParseOp(cb.Contents(), p)
  {
    var n := cb.len;
    ghost var code := cb.Contents();
    if p >= n { return None; }
    if cb.buf[p] == OP_LIT {
      if p + 9 > n { return None; }
      var len := ReadU32(cb, p + 5);
      if len != 1 || p + 9 >= n { return None; }
      return Some(ArmOp(LitArm(cb.buf[p + 9]), p + 10));
    } else if cb.buf[p] == OP_ANY {
      if p + 3 > n { return None; }
      var id := ReadU16(cb, p + 1);
      return Some(ArmOp(AnyArm(id), p + 3));
    }
    return None;
  }

  method ReadU16(cb: CodeBuf, p: nat) returns (v: nat)
    requires cb.Valid() && p + 2 <= cb.len
    ensures v == U16At(cb.Contents(), p)
  {
    var hi: int, lo: int := cb.buf[p], cb.buf[p + 1];
    v := hi * 0x100 + lo;
  }

  method ReadU32(cb: CodeBuf, p: nat) returns (v: nat)
    requires cb.Valid() && p + 4 <= cb.len
    ensures v == U32At(cb.Contents(), p)
  {
    var hi := ReadU16(cb, p);
    var lo := ReadU16(cb, p + 2);
    v := hi * 0x1_0000 + lo;
  }

  method SkipNopBytes(cb: CodeBuf, p: nat) returns (q: nat)
    requires cb.Valid() && p <= cb.len
    ensures q == SkipNops(cb.Contents(), p)
  {
    q := p;
    while q < cb.len && cb.buf[q] == OP_NOP
      invariant p <= q <= cb.len
      invariant SkipNops(cb.Contents(), q) == SkipNops(cb.Contents(), p)
    {
      assert cb.Contents()[q] == cb.buf[q];
      q := q + 1;
    }
    assert q < cb.len ==> cb.Contents()[q] == cb.buf[q];
  }

  method FindPair(cb: CodeBuf, pos: nat) returns (pair: Option<Pair>)
    requires cb.Valid() && pos < cb.len
    ensures pair == FusableAt(cb.Contents(), pos)
  {
    hide ParseOp, SkipNops, U32At;
    var n := cb.len;
    assert cb.Contents()[pos] == cb.buf[pos];
    if cb.buf[pos] != OP_SPLIT || pos + 9 > n { return None; }
    var a := ReadU32(cb, pos + 1);
    var b := ReadU32(cb, pos + 5);
    if a <= pos || b <= pos || a >= n || b >= n { return None; }
    var x := ParseArm(cb, a);
    var y := ParseArm(cb, b);
    if x.None? { return None; }
    var jmp := SkipNopBytes(cb, x.value.after);
    if jmp + 5 > n { return None; }
    assert cb.Contents()[jmp] == cb.buf[jmp];
    if cb.buf[jmp] != OP_JMP { return None; }
    var mergeA := ReadU32(cb, jmp + 1);
    if y.None? { return None; }
    var mergeB := SkipNopBytes(cb, y.value.after);
    if mergeA != mergeB { return None; }
    return Some(Pair(x.value.arm, y.value.arm, mergeB));
  }

  method WriteAny(cb: CodeBuf, pos: nat, id: nat, merge: nat)
    requires cb.Valid() && pos + 9 <= cb.len && merge <= cb.len && id < U16
    modifies cb.buf
    ensures cb.Contents() == Rewritten(old(cb.Contents()), pos, id, merge)
  {
    hide Enc16, NopBytes;
    WriteOperation(cb, pos, id);
    if merge > pos + 3 { WriteNops(cb, pos + 3, merge); }
  }

  method WriteOperation(cb: CodeBuf, pos: nat, id: nat)
    requires cb.Valid() && pos + 3 <= cb.len && id < U16
    modifies cb.buf
    ensures cb.Contents() == old(cb.Contents())[..pos] + [OP_ANY] + Enc16(id) + old(cb.Contents())[pos + 3..]
  {
    var b := cb.buf;
    b[pos] := OP_ANY;
    b[pos + 1] := id / 0x100;
    b[pos + 2] := id % 0x100;
  }

  method WriteNops(cb: CodeBuf, from: nat, merge: nat)
    requires cb.Valid() && from <= merge <= cb.len
    modifies cb.buf
    ensures cb.Contents() == old(cb.Contents())[..from] + NopBytes(merge - from) + old(cb.Contents())[merge..]
  {
    var b := cb.buf;
    ghost var c := b[..cb.len];
    var i := from;
    while i < merge
      invariant from <= i <= merge
      invariant b[..cb.len] == c[..from] + NopBytes(i - from) + c[i..]
      modifies b
    {
      b[i] := OP_NOP;
      i := i + 1;
    }
  }

  method VisitInPlace(cb: CodeBuf, table: ClassTable, pos: nat)
    requires cb.Valid() && table.Valid() && pos < cb.len
    modifies cb.buf, table
    ensures cb.Valid() && table.Valid()
    ensures Image(cb.Contents(), table.entries) == Visit(old(Image(cb.Contents(), table.entries)), pos)
  {
    var pair := FindPair(cb, pos);
    if pair.None? { return; }
    var p := pair.value;
    var cx := ArmClass(table.entries, p.left);
    var cy := ArmClass(table.entries, p.right);
    var id := table.AddUnion(cx, cy, cx.fold || cy.fold);
    if id > 0xFFFF { return; }
    WriteAny(cb, pos, id, p.merge);
  }

  /** The whole pass: one right-to-left scan over every byte position. */
  method FuseSplitAny(cb: CodeBuf, table: ClassTable)
    requires cb.Valid() && table.Valid()
    modifies cb.buf, table
    ensures cb.Valid() && table.Valid()
    ensures Image(cb.Contents(), table.entries) == Scan(old(Image(cb.Contents(), table.entries)), cb.len, 0)
  {
    hide Visit;
    ghost var start := Image(cb.Contents(), table.entries);
    var pos := cb.len;
    while pos > 0
      invariant 0 <= pos <= cb.len && cb.Valid() && table.Valid()
      invariant Scan(Image(cb.Contents(), table.entries), pos, 0) == Scan(start, cb.len, 0)
      modifies cb.buf, table
    {
      pos := pos - 1;
      VisitInPlace(cb, table, pos);
    }
  }
}
