/** The pattern compiler from end to end (compile_ast_to_bytecode_c): emission, the label check,
    fusion, and the trailing sections. */
module Compiler {
  import opened Wrappers
  import opened Bytes
  import opened Ranges
  import opened CharClasses
  import opened Bytecode
  import opened CodeTree
  import opened CodeBuffer
  import opened Pattern
  import opened Translate
  import opened Codegen
  import opened GenShape
  import opened FusionPass
  import opened FusionStarts
  import opened Trailer

  const NO_TABLES: Tables := Tables([], 0, [])

  /** Some label is used and never defined. */
  predicate Unresolved(labels: seq<LabelEntry>) {
    exists i :: 0 <= i < |labels| && labels[i].referenced && !labels[i].defined
  }

  /** The instruction stream after the fusion pass, with the class table it leaves. */
  function FusedBody(g: Generated): Image
    requires Canonical(g.tables.classes)
  {
    var body := BodyOf(g.tree);
    Scan(Image(body, g.tables.classes), |body|, 0)
  }

  /** What compiling a pattern yields; None where the compiler reports failure. */
  function Compiled(a: Ast): Option<seq<byte>> {
    var g :- Gen(a, 0, NO_TABLES);
    assert Canonical(g.tables.classes) by { GenIsSound(a, 0, NO_TABLES); }
    if Unresolved(g.tables.labels) then None
    else
      var m := FusedBody(g);
      Some(ImageOf(m.code, m.entries, g.tables.labels))
  }

  // ----- The trailing sections, as they are written -----

  method WriteRanges(cb: CodeBuf, ranges: seq<Range>)
    requires cb.Valid()
    modifies cb, cb.buf
    ensures cb.Valid() && (cb.buf == old(cb.buf) || fresh(cb.buf))
    ensures cb.Contents() == old(cb.Contents()) + RangeBytes(ranges)
  {
    hide Enc32;
    ghost var c0 := cb.Contents();
    ghost var all := c0 + RangeBytes(ranges);
    var i := 0;
    while i < |ranges|
      invariant 0 <= i <= |ranges|
      invariant cb.Valid() && (cb.buf == old(cb.buf) || fresh(cb.buf))
      invariant cb.Contents() + RangeBytes(ranges[i..]) == all
    {
      ghost var c, r := cb.Contents(), ranges[i];
      assert ranges[i..][1..] == ranges[i + 1..];
      cb.EmitU32(ranges[i].lo);
      cb.EmitU32(ranges[i].hi);
      Shift3(c, Enc32(r.lo), Enc32(r.hi), RangeBytes(ranges[i + 1..]));
      i := i + 1;
    }
    assert RangeBytes(ranges[i..]) == [];
  }

  lemma Shift3(c: seq<byte>, a: seq<byte>, b: seq<byte>, d: seq<byte>)
    ensures c + (a + b + d) == c + a + b + d
  {
  }

  method WriteBlob(cb: CodeBuf, c: CharClass)
    requires cb.Valid()
    modifies cb, cb.buf
    ensures cb.Valid() && (cb.buf == old(cb.buf) || fresh(cb.buf))
    ensures cb.Contents() == old(cb.Contents()) + ClassBlob(c)
  {
    hide Enc16, RangeBytes;
    ghost var c0 := cb.Contents();
    cb.EmitU16(|c.ranges|);
    cb.EmitU16(if c.fold then 1 else 0);
    WriteRanges(cb, c.ranges);
    Shift3(c0, Enc16(|c.ranges|), Enc16(FoldFlag(c)), RangeBytes(c.ranges));
  }

  /** Where the blob of class `k` was put. */
  ghost predicate OffsetsNoted(offsets: array<nat>, classes: seq<CharClass>, base: nat, from: nat)
    reads offsets
  {
    offsets.Length == |classes|
    && forall k :: from <= k < |classes| ==> offsets[|classes| - 1 - k] == base + BlobOffset(classes, k)
  }

  /** Blobs newest first, noting each offset. */
  method WriteBlobs(cb: CodeBuf, classes: seq<CharClass>, offsets: array<nat>)
    requires cb.Valid() && offsets.Length == |classes| && (offsets as object) != (cb.buf as object)
    modifies cb, cb.buf, offsets
    ensures cb.Valid() && (cb.buf == old(cb.buf) || fresh(cb.buf))
    ensures cb.Contents() == old(cb.Contents()) + Blobs(classes)
    ensures OffsetsNoted(offsets, classes, old(cb.len), 0)
  {
    hide ClassBlob;
    ghost var c0 := cb.Contents();
    var n := |classes|;
    var i := n;
    while i > 0
      invariant 0 <= i <= n
      invariant cb.Valid() && (cb.buf == old(cb.buf) || fresh(cb.buf))
      invariant cb.Contents() == c0 + Blobs(classes[i..])
      invariant OffsetsNoted(offsets, classes, |c0|, i)
    {
      i := i - 1;
      assert classes[i..][1..] == classes[i + 1..];
      offsets[n - 1 - i] := cb.len;
      WriteBlob(cb, classes[i]);
      assert c0 + Blobs(classes[i..]) == c0 + Blobs(classes[i + 1..]) + ClassBlob(classes[i]);
    }
    assert classes[0..] == classes;
  }

  /** The offset table in id order, reading the noted offsets backwards. */
  method WriteOffsets(cb: CodeBuf, ghost classes: seq<CharClass>, offsets: array<nat>, ghost base: nat)
    requires cb.Valid() && OffsetsNoted(offsets, classes, base, 0)
    requires (offsets as object) != (cb.buf as object)
    modifies cb, cb.buf
    ensures cb.Valid() && (cb.buf == old(cb.buf) || fresh(cb.buf))
    ensures cb.Contents() == old(cb.Contents()) + OffsetTable(classes, base)
  {
    hide Enc32, Blobs;
    ghost var all := cb.Contents() + OffsetTable(classes, base);
    var n := offsets.Length;
    ghost var k := 0;
    var i := n;
    assert classes[0..] == classes;
    while i > 0
      invariant 0 <= i <= n && k == n - i
      invariant cb.Valid() && (cb.buf == old(cb.buf) || fresh(cb.buf))
      invariant OffsetsNoted(offsets, classes, base, 0)
      invariant cb.Contents() + OffsetTable(classes[k..], base) == all
    {
      i := i - 1;
      ghost var c, off := cb.Contents(), base + BlobOffset(classes, k);
      assert classes[k..][1..] == classes[k + 1..];
      assert offsets[i] == off;
      cb.EmitU32(offsets[i]);
      assert c + (Enc32(off) + OffsetTable(classes[k + 1..], base)) == c + Enc32(off) + OffsetTable(classes[k + 1..], base);
      k := k + 1;
    }
    assert OffsetTable(classes[k..], base) == [];
  }

  method WriteClasses(cb: CodeBuf, classes: seq<CharClass>)
    requires cb.Valid()
    modifies cb, cb.buf
    ensures cb.Valid() && (cb.buf == old(cb.buf) || fresh(cb.buf))
    ensures cb.Contents() == old(cb.Contents()) + ClassSection(classes, old(cb.len))
  {
    hide Enc32, Blobs, OffsetTable;
    ghost var c0, base := cb.Contents(), cb.len;
    var offsets := new nat[|classes|];
    WriteBlobs(cb, classes, offsets);
    WriteOffsets(cb, classes, offsets, base);
    cb.EmitU32(|classes|);
    Shift3(c0, Blobs(classes), OffsetTable(classes, base), Enc32(|classes|));
  }

  method WriteLabelOffsets(cb: CodeBuf, labels: seq<LabelEntry>)
    requires cb.Valid()
    modifies cb, cb.buf
    ensures cb.Valid() && (cb.buf == old(cb.buf) || fresh(cb.buf))
    ensures cb.Contents() == old(cb.Contents()) + LabelOffsets(labels)
  {
    hide Enc32;
    ghost var all := cb.Contents() + LabelOffsets(labels);
    var i := 0;
    assert labels[0..] == labels;
    while i < |labels|
      invariant 0 <= i <= |labels|
      invariant cb.Valid() && (cb.buf == old(cb.buf) || fresh(cb.buf))
      invariant cb.Contents() + LabelOffsets(labels[i..]) == all
    {
      ghost var c, off := cb.Contents(), LabelOffset(labels[i]);
      assert labels[i..][1..] == labels[i + 1..];
      cb.EmitU32(LabelOffset(labels[i]));
      assert c + (Enc32(off) + LabelOffsets(labels[i + 1..])) == c + Enc32(off) + LabelOffsets(labels[i + 1..]);
      i := i + 1;
    }
    assert LabelOffsets(labels[i..]) == [];
  }

  method WriteLabels(cb: CodeBuf, labels: seq<LabelEntry>)
    requires cb.Valid()
    modifies cb, cb.buf
    ensures cb.Valid() && (cb.buf == old(cb.buf) || fresh(cb.buf))
    ensures cb.Contents() == old(cb.Contents()) + LabelSection(labels)
  {
    hide Enc32, LabelOffsets;
    ghost var c0 := cb.Contents();
    WriteLabelOffsets(cb, labels);
    cb.EmitU32(|labels|);
    cb.EmitU32(MAGIC);
    Shift3(c0, LabelOffsets(labels), Enc32(|labels|), Enc32(MAGIC));
  }

  method CheckLabels(labels: seq<LabelEntry>) returns (bad: bool)
    ensures bad == Unresolved(labels)
  {
    var i := 0;
    while i < |labels|
      invariant 0 <= i <= |labels|
      invariant forall j :: 0 <= j < i ==> !(labels[j].referenced && !labels[j].defined)
    {
      if labels[i].referenced && !labels[i].defined { return true; }
      i := i + 1;
    }
    return false;
  }

  method Finish(e: Emitter, ghost g: Generated) returns (image: seq<byte>)
    requires e.Valid() && e.Code() == Emitted(g.tree, 0) && e.State() == g.tables
    requires Canonical(g.tables.classes)
    modifies e.cb, e.cb.buf, e.classes
    ensures var m := FusedBody(g);
      image == ImageOf(m.code, m.entries, g.tables.labels)
  {
    hide Emitted, Scan, ClassSection, LabelSection;
    e.cb.EmitU8(OP_ACCEPT);
    FuseSplitAny(e.cb, e.classes);
    ghost var body := e.cb.Contents();
    WriteClasses(e.cb, e.classes.entries);
    WriteLabels(e.cb, e.labels);
    image := e.cb.buf[..e.cb.len];
  }

  method Compile(a: Ast) returns (r: Option<seq<byte>>)
    ensures r == Compiled(a)
  {
    hide Gen, FusedBody, ImageOf, Emitted;
    var e := new Emitter();
    var ok := e.EmitNode(a);
    ghost var g := Gen(a, 0, NO_TABLES);
    if !ok { return None; }
    EmptyPrefix(Emitted(g.value.tree, 0));
    var bad := CheckLabels(e.labels);
    if bad { return None; }
    GenIsSound(a, 0, NO_TABLES);
    var image := Finish(e, g.value);
    r := Some(image);
  }

  lemma EmptyPrefix(s: seq<byte>)
    ensures [] + s == s
  {
  }
}
