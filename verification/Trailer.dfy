/** The sections behind the instruction stream: class blobs, class offsets, label offsets and the
    closing magic, and how the VM finds its way back through them from the end of the image. */
module Trailer {
  import opened Wrappers
  import opened Bytes
  import opened Ranges
  import opened CharClasses
  import opened Translate

  const MAGIC: nat := 0x534E_424C

  // ----- Writing -----

  function RangeBytes(rs: seq<Range>): (s: seq<byte>)
    ensures |s| == 8 * |rs|
  {
    if rs == [] then [] else Enc32(rs[0].lo) + Enc32(rs[0].hi) + RangeBytes(rs[1..])
  }

  function FoldFlag(c: CharClass): nat { if c.fold then 1 else 0 }

  function ClassBlob(c: CharClass): (s: seq<byte>)
    ensures |s| == 4 + 8 * |c.ranges|
  {
    Enc16(|c.ranges|) + Enc16(FoldFlag(c)) + RangeBytes(c.ranges)
  }

  /** Class blobs are stored newest first. */
  function Blobs(classes: seq<CharClass>): seq<byte> {
    if classes == [] then [] else Blobs(classes[1..]) + ClassBlob(classes[0])
  }

  /** Offsets of the blobs laid out from `base`, oldest class first. */
  function OffsetTable(classes: seq<CharClass>, base: nat): (s: seq<byte>)
    ensures |s| == 4 * |classes|
  {
    if classes == [] then []
    else Enc32(base + |Blobs(classes[1..])|) + OffsetTable(classes[1..], base)
  }

  function LabelOffset(l: LabelEntry): nat { if l.defined then l.offset else 0 }

  function LabelOffsets(labels: seq<LabelEntry>): (s: seq<byte>)
    ensures |s| == 4 * |labels|
  {
    if labels == [] then [] else Enc32(LabelOffset(labels[0])) + LabelOffsets(labels[1..])
  }

  function ClassSection(classes: seq<CharClass>, base: nat): seq<byte> {
    Blobs(classes) + OffsetTable(classes, base) + Enc32(|classes|)
  }

  function LabelSection(labels: seq<LabelEntry>): (s: seq<byte>)
    ensures |s| == 4 * |labels| + 8
  {
    LabelOffsets(labels) + Enc32(|labels|) + Enc32(MAGIC)
  }

  /** The whole image: instructions, classes, labels. */
  function ImageOf(body: seq<byte>, classes: seq<CharClass>, labels: seq<LabelEntry>): seq<byte> {
    body + ClassSection(classes, |body|) + LabelSection(labels)
  }

  // ----- Reading -----

  /** End of the class section, from the last bytes of the image; without the magic the class
      count is taken to be the last word itself. */
  function ClassSectionEnd(image: seq<byte>): (r: Option<nat>)
    ensures r.Some? ==> r.value <= |image|
  {
    var n := |image|;
    if n < 4 then None
    else if U32At(image, n - 4) != MAGIC then Some(n)
    else if n < 8 then None
    else
      var skip := 8 + 4 * U32At(image, n - 8);
      if n < skip + 4 then None else Some(n - skip)
  }

  /** Number of classes, and where their offset table starts. */
  function ClassIndex(image: seq<byte>): (r: Option<(nat, nat)>)
    ensures r.Some? ==> r.value.1 + 4 * r.value.0 + 4 <= |image|
  {
    var end :- ClassSectionEnd(image);
    if end < 4 then None
    else
      var count := U32At(image, end - 4);
      if end < 4 + 4 * count then None else Some((count, end - 4 - 4 * count))
  }

  function ReadRanges(image: seq<byte>, p: nat, count: nat): Option<seq<Range>>
    decreases count
  {
    if count == 0 then Some([])
    else if p + 8 > |image| then None
    else
      var rest :- ReadRanges(image, p + 8, count - 1);
      Some([Range(U32At(image, p), U32At(image, p + 4))] + rest)
  }

  function ReadBlob(image: seq<byte>, p: nat): Option<CharClass> {
    if p + 4 > |image| then None
    else
      var rs :- ReadRanges(image, p + 4, U16At(image, p));
      Some(CharClass(rs, U16At(image, p + 2) != 0))
  }

  /** The class an id stands for (get_ranges_ptr). */
  function FindClass(image: seq<byte>, id: nat): Option<CharClass> {
    if id == 0 then None
    else
      var (count, table) :- ClassIndex(image);
      if id > count then None
      else
        var off := U32At(image, table + 4 * (id - 1));
        if off >= |image| then None else ReadBlob(image, off)
  }

  function Earliest(image: seq<byte>, table: nat, count: nat): (e: nat)
    requires table + 4 * count <= |image|
    decreases count
  {
    if count == 0 then U32
    else
      var off := U32At(image, table);
      var rest := Earliest(image, table + 4, count - 1);
      if off < rest then off else rest
  }

  /** Length of the instruction stream; 0 when the image is not in this format (snobol_bc_body_len). */
  function BodyLen(image: seq<byte>): (e: nat)
    ensures e <= |image|
  {
    var n := |image|;
    if n < 12 || U32At(image, n - 4) != MAGIC then 0
    else
      match ClassIndex(image)
      case None => 0
      case Some((count, table)) =>
        if count == 0 then table
        else
          var e := Earliest(image, table, count);
          if e == 0 || e > table then 0 else e
  }

  // ----- Reading back what was written -----

  /** The class fits its blob: the range count fits 16 bits, codepoints fit 32. */
  predicate Storable(c: CharClass) {
    |c.ranges| < U16 && forall i :: 0 <= i < |c.ranges| ==> c.ranges[i].lo < U32 && c.ranges[i].hi < U32
  }

  predicate AllStorable(classes: seq<CharClass>) {
    forall k :: 0 <= k < |classes| ==> Storable(classes[k])
  }

  lemma {:induction false} RangesReadBack(image: seq<byte>, p: nat, rs: seq<Range>)
    requires At(image, p, RangeBytes(rs))
    requires forall i :: 0 <= i < |rs| ==> rs[i].lo < U32 && rs[i].hi < U32
    ensures ReadRanges(image, p, |rs|) == Some(rs)
    decreases |rs|
  {
    hide Enc32, U32At, Low32;
    if rs != [] {
      AtConcat(image, p, Enc32(rs[0].lo) + Enc32(rs[0].hi), RangeBytes(rs[1..]));
      AtConcat(image, p, Enc32(rs[0].lo), Enc32(rs[0].hi));
      Decode32(image, p, rs[0].lo);
      Decode32(image, p + 4, rs[0].hi);
      Fits32(rs[0].lo);
      Fits32(rs[0].hi);
      RangesReadBack(image, p + 8, rs[1..]);
      assert rs == [rs[0]] + rs[1..];
    }
  }

  lemma BlobReadsBack(image: seq<byte>, p: nat, c: CharClass)
    requires At(image, p, ClassBlob(c)) && Storable(c)
    ensures ReadBlob(image, p) == Some(c)
  {
    hide Enc16, U16At, ReadRanges;
    var head := Enc16(|c.ranges|) + Enc16(FoldFlag(c));
    AtConcat(image, p, head, RangeBytes(c.ranges));
    AtConcat(image, p, Enc16(|c.ranges|), Enc16(FoldFlag(c)));
    Decode16(image, p, |c.ranges|);
    Decode16(image, p + 2, FoldFlag(c));
    RangesReadBack(image, p + 4, c.ranges);
  }

  /** Where the blob of class `k` begins, relative to the first blob. */
  function BlobOffset(classes: seq<CharClass>, k: nat): nat
    requires k < |classes|
  {
    |Blobs(classes[k + 1..])|
  }

  lemma {:induction false} BlobAt(image: seq<byte>, base: nat, classes: seq<CharClass>, k: nat)
    requires At(image, base, Blobs(classes)) && k < |classes|
    ensures At(image, base + BlobOffset(classes, k), ClassBlob(classes[k]))
    decreases k
  {
    hide ClassBlob;
    AtConcat(image, base, Blobs(classes[1..]), ClassBlob(classes[0]));
    if k > 0 {
      BlobAt(image, base, classes[1..], k - 1);
      assert classes[1..][k..] == classes[k + 1..];
    }
  }

  lemma {:induction false} OffsetAt(image: seq<byte>, p: nat, classes: seq<CharClass>, base: nat, k: nat)
    requires At(image, p, OffsetTable(classes, base)) && k < |classes|
    requires base + BlobOffset(classes, k) < U32
    ensures U32At(image, p + 4 * k) == base + BlobOffset(classes, k)
    decreases k
  {
    hide Enc32, U32At, Low32, Blobs;
    var off := base + |Blobs(classes[1..])|;
    AtConcat(image, p, Enc32(off), OffsetTable(classes[1..], base));
    if k == 0 {
      Decode32(image, p, off);
      Fits32(off);
    } else {
      assert classes[1..][k..] == classes[k + 1..];
      OffsetAt(image, p + 4, classes[1..], base, k - 1);
    }
  }

  /** Where the sections of an image sit. */
  lemma SectionsAt(body: seq<byte>, classes: seq<CharClass>, labels: seq<LabelEntry>)
    ensures var image := ImageOf(body, classes, labels);
      var table := |body| + |Blobs(classes)|;
      var end := table + 4 * |classes| + 4;
      && At(image, |body|, Blobs(classes))
      && At(image, table, OffsetTable(classes, |body|))
      && At(image, end - 4, Enc32(|classes|))
      && At(image, end + 4 * |labels|, Enc32(|labels|))
      && At(image, end + 4 * |labels| + 4, Enc32(MAGIC))
      && |image| == end + 4 * |labels| + 8
      && At(image, 0, body)
  {
    hide Enc32, Blobs, OffsetTable, LabelOffsets;
    var image := ImageOf(body, classes, labels);
    var cs, ls := ClassSection(classes, |body|), LabelSection(labels);
    assert At(image, 0, body + cs + ls);
    AtConcat(image, 0, body + cs, ls);
    AtConcat(image, 0, body, cs);
    AtConcat(image, |body|, Blobs(classes) + OffsetTable(classes, |body|), Enc32(|classes|));
    AtConcat(image, |body|, Blobs(classes), OffsetTable(classes, |body|));
    var end := |body| + |cs|;
    AtConcat(image, end, LabelOffsets(labels) + Enc32(|labels|), Enc32(MAGIC));
    AtConcat(image, end, LabelOffsets(labels), Enc32(|labels|));
  }

  /** The readers find the class count and the offset table. */
  lemma IndexReadsBack(body: seq<byte>, classes: seq<CharClass>, labels: seq<LabelEntry>)
    requires |ImageOf(body, classes, labels)| < U32
    ensures ClassIndex(ImageOf(body, classes, labels)) == Some((|classes|, |body| + |Blobs(classes)|))
    ensures var image := ImageOf(body, classes, labels);
      |image| >= 12 && U32At(image, |image| - 4) == MAGIC
  {
    hide Enc32, U32At, Low32, ImageOf, Blobs, OffsetTable;
    var image := ImageOf(body, classes, labels);
    SectionsAt(body, classes, labels);
    var end := |body| + |Blobs(classes)| + 4 * |classes| + 4;
    Decode32(image, end - 4, |classes|);
    Decode32(image, end + 4 * |labels|, |labels|);
    Decode32(image, end + 4 * |labels| + 4, MAGIC);
    Fits32(|classes|);
    Fits32(|labels|);
    Fits32(MAGIC);
  }

  lemma {:induction false} BlobsShrink(classes: seq<CharClass>, k: nat)
    requires k < |classes|
    ensures BlobOffset(classes, k) + |ClassBlob(classes[k])| <= |Blobs(classes)|
    decreases k
  {
    hide ClassBlob;
    if k > 0 {
      assert classes[1..][k..] == classes[k + 1..];
      BlobsShrink(classes[1..], k - 1);
    }
  }

  /** Every id finds the class it was given for, and no other id finds a class. */
  lemma ClassesReadBack(body: seq<byte>, classes: seq<CharClass>, labels: seq<LabelEntry>, id: nat)
    requires |ImageOf(body, classes, labels)| < U32 && AllStorable(classes)
    ensures FindClass(ImageOf(body, classes, labels), id)
         == if 1 <= id <= |classes| then Some(classes[id - 1]) else None
  {
    hide ImageOf, U32At, Blobs, OffsetTable, ClassBlob, ReadBlob, At, ClassIndex;
    var image := ImageOf(body, classes, labels);
    SectionsAt(body, classes, labels);
    IndexReadsBack(body, classes, labels);
    if 1 <= id <= |classes| {
      var k := id - 1;
      BlobsShrink(classes, k);
      BlobAt(image, |body|, classes, k);
      OffsetAt(image, |body| + |Blobs(classes)|, classes, |body|, k);
      BlobReadsBack(image, |body| + BlobOffset(classes, k), classes[k]);
    }
  }

  /** All classes, by id. */
  function LoadFrom(image: seq<byte>, id: nat, count: nat): Option<seq<CharClass>>
    decreases count
  {
    if count == 0 then Some([])
    else
      var c :- FindClass(image, id);
      var rest :- LoadFrom(image, id + 1, count - 1);
      Some([c] + rest)
  }

  /** The class table as the VM builds it when a program is loaded. */
  function LoadClasses(image: seq<byte>): seq<CharClass> {
    match ClassIndex(image)
    case None => []
    case Some((count, _)) =>
      match LoadFrom(image, 1, count)
      case None => []
      case Some(cs) => cs
  }

  lemma {:induction false} LoadFromReadsBack(body: seq<byte>, classes: seq<CharClass>, labels: seq<LabelEntry>, k: nat)
    requires |ImageOf(body, classes, labels)| < U32 && AllStorable(classes) && k <= |classes|
    ensures LoadFrom(ImageOf(body, classes, labels), k + 1, |classes| - k) == Some(classes[k..])
    decreases |classes| - k
  {
    hide ImageOf, FindClass, AllStorable;
    var image, n := ImageOf(body, classes, labels), |classes| - k;
    if n > 0 {
      ClassesReadBack(body, classes, labels, k + 1);
      LoadFromReadsBack(body, classes, labels, k + 1);
      assert LoadFrom(image, k + 2, n - 1) == Some(classes[k + 1..]);
      assert LoadFrom(image, k + 1, n) == Some([classes[k]] + classes[k + 1..]);
      assert classes[k..] == [classes[k]] + classes[k + 1..];
    } else {
      assert classes[k..] == [];
    }
  }

  /** Loading a program gives back exactly the class table it was compiled with. */
  lemma LoadReadsBack(body: seq<byte>, classes: seq<CharClass>, labels: seq<LabelEntry>)
    requires |ImageOf(body, classes, labels)| < U32 && AllStorable(classes)
    ensures LoadClasses(ImageOf(body, classes, labels)) == classes
  {
    hide ImageOf, ClassIndex, LoadFrom;
    IndexReadsBack(body, classes, labels);
    LoadFromReadsBack(body, classes, labels, 0);
    assert classes[0..] == classes;
  }

  // ----- The body length -----

  /** Offsets decrease along the table; the newest class has the first blob. */
  lemma {:induction false} EarliestIsBody(image: seq<byte>, p: nat, classes: seq<CharClass>, base: nat)
    requires At(image, p, OffsetTable(classes, base)) && base + |Blobs(classes)| < U32 && classes != []
    ensures Earliest(image, p, |classes|) == base
    decreases |classes|
  {
    hide Enc32, U32At, Low32, Earliest, Blobs, At, ClassBlob;
    var tail := classes[1..];
    var off := base + |Blobs(tail)|;
    BlobsCons(classes);
    AtConcat(image, p, Enc32(off), OffsetTable(tail, base));
    AtEnd(image, p, OffsetTable(classes, base));
    Decode32(image, p, off);
    Fits32(off);
    EarliestStep(image, p, |classes|);
    if tail != [] {
      EarliestIsBody(image, p + 4, tail, base);
    }
  }

  lemma BlobsCons(classes: seq<CharClass>)
    requires classes != []
    ensures |Blobs(classes[1..])| <= |Blobs(classes)|
    ensures classes[1..] == [] ==> |Blobs(classes[1..])| == 0
  {
  }

  lemma AtEnd(code: seq<byte>, p: nat, part: seq<byte>)
    requires At(code, p, part)
    ensures p + |part| <= |code|
  {
  }

  lemma EarliestStep(image: seq<byte>, table: nat, count: nat)
    requires table + 4 * count <= |image| && count > 0
    ensures var off := U32At(image, table);
      Earliest(image, table, count)
      == if count == 1 then off
         else if off < Earliest(image, table + 4, count - 1) then off else Earliest(image, table + 4, count - 1)
  {
    hide U32At;
  }

  /** The end of the instruction stream is recovered exactly. */
  lemma BodyLenReadsBack(body: seq<byte>, classes: seq<CharClass>, labels: seq<LabelEntry>)
    requires |ImageOf(body, classes, labels)| < U32 && body != []
    ensures BodyLen(ImageOf(body, classes, labels)) == |body|
  {
    hide ImageOf, U32At, OffsetTable, At, ClassIndex, Earliest;
    SectionsAt(body, classes, labels);
    IndexReadsBack(body, classes, labels);
    if classes != [] {
      EarliestIsBody(ImageOf(body, classes, labels), |body| + |Blobs(classes)|, classes, |body|);
    }
  }
}
