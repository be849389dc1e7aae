/** The right-to-left byte scan over a tree's code produces the code of the fused tree, as long as
    it only ever rewrites at instruction starts. */
module FusedScan {
  import opened Wrappers
  import opened Bytes
  import opened Layout
  import opened CharClasses
  import opened Bytecode
  import opened CodeTree
  import opened CodeBuffer
  import opened FusionPass
  import opened FusedLayout

  // ----- One alternation -----

  lemma {:induction false} SkipNopsOver(code: seq<byte>, p: nat, q: nat)
    requires p <= q < |code| && At(code, p, NopBytes(q - p)) && code[q] != OP_NOP
    ensures SkipNops(code, p) == q
    decreases q - p
  {
    if p < q {
      assert NopBytes(q - p) == [OP_NOP] + NopBytes(q - p - 1);
      AtConcat(code, p, [OP_NOP], NopBytes(q - p - 1));
      AtByte(code, p, [OP_NOP], 0);
      SkipNopsOver(code, p + 1, q);
    }
  }

  /** The left arm parses exactly when its tree is an arm; it must end at its JMP. */
  lemma LeftArm(code: seq<byte>, l: Tree, a: nat, jmp: nat, end: nat)
    requires Seen(code, a, LeadOf(l), Weight(l)) && jmp == a + Weight(l)
    requires At(code, jmp, Encode(Jmp(end))) && end < U32
    ensures ParseArmA(code, a) == if AsArm(l).Some? then Some(Merged(AsArm(l).value, end)) else None
  {
    hide LeadOf, NopBytes, U32At, ParseOp, At, Encode;
    JmpOperands(code, jmp, end);
    match LeadOf(l)
    case Nothing => JmpIsNoArm(code, a);
    case Other =>
    case Single(arm, width) => SkipNopsOver(code, ParseOp(code, a).value.after, a + width);
  }

  lemma JmpOperands(code: seq<byte>, p: nat, t: nat)
    requires At(code, p, Encode(Jmp(t))) && t < U32
    ensures p + 5 <= |code| && code[p] == OP_JMP && U32At(code, p + 1) == t
  {
    hide Enc32, U32At, Encode, Operands;
    JumpBytes(0, 0, t);
    AtConcat(code, p, [OP_JMP], Enc32(t));
    AtByte(code, p, [OP_JMP], 0);
    Decode32(code, p + 1, t);
  }

  lemma JmpIsNoArm(code: seq<byte>, a: nat)
    requires a < |code| && code[a] == OP_JMP
    ensures ParseOp(code, a) == None
  {
  }

  /** The right arm reaches the merge point exactly when its tree is an arm. */
  lemma RightArm(code: seq<byte>, r: Tree, b: nat, end: nat)
    requires Seen(code, b, LeadOf(r), Weight(r)) && end == b + Weight(r)
    requires end < |code| && code[end] != OP_NOP
    ensures AsArm(r).Some? ==> ParseArmB(code, b) == Some(Merged(AsArm(r).value, end))
    ensures AsArm(r).None? ==> ParseArmB(code, b).None? || ParseArmB(code, b).value.merge != end
  {
    hide LeadOf, NopBytes, ParseOp, Weight, At;
    match LeadOf(r)
    case Nothing =>
    case Other =>
    case Single(arm, width) => SkipNopsOver(code, ParseOp(code, b).value.after, b + width);
  }

  lemma FusableMeetsTree(code: seq<byte>, l: Tree, r: Tree, base: nat)
    requires At(code, base, Emitted(Either(l, r), base)) && |code| < U32 && NoNops(l) && NoNops(r)
    requires var end := base + Weight(Either(l, r)); end < |code| && code[end] != OP_NOP
    ensures FusableAt(code, base)
         == if AsArm(l).Some? && AsArm(r).Some?
            then Some(Pair(AsArm(l).value, AsArm(r).value, base + Weight(Either(l, r))))
            else None
  {
    hide Encode, Emitted, Enc32, U32At, LeadOf, ParseArmA, ParseArmB, AsArm, At, Seen;
    var jmp, right := base + 9 + Weight(l), base + 14 + Weight(l);
    var end := right + Weight(r);
    SplitLayout(code, l, r, base);
    SplitOperands(code, base, base + 9, right);
    SeenTree(code, l, base + 9);
    SeenTree(code, r, right);
    LeftArm(code, l, base + 9, jmp, end);
    RightArm(code, r, right, end);
  }

  lemma SplitOperands(code: seq<byte>, p: nat, a: nat, b: nat)
    requires At(code, p, Encode(Split(a, b))) && a < U32 && b < U32
    ensures p + 9 <= |code| && code[p] == OP_SPLIT && U32At(code, p + 1) == a && U32At(code, p + 5) == b
  {
    hide Enc32, U32At, Encode, Operands;
    JumpBytes(a, b, 0);
    AtConcat(code, p, [OP_SPLIT], Enc32(a) + Enc32(b));
    AtByte(code, p, [OP_SPLIT], 0);
    AtConcat(code, p + 1, Enc32(a), Enc32(b));
    Decode32(code, p + 1, a);
    Decode32(code, p + 5, b);
  }

  // ----- Regions of the code buffer -----

  /** `after` is `before` with `part` written at `base`. */
  ghost predicate Spliced(before: seq<byte>, after: seq<byte>, base: nat, part: seq<byte>) {
    && |after| == |before| && base + |part| <= |before|
    && after[..base] == before[..base]
    && after[base + |part|..] == before[base + |part|..]
    && At(after, base, part)
  }

  lemma WithinTake(s: seq<byte>, k: nat, i: nat, j: nat)
    requires i <= j <= k <= |s|
    ensures s[..k][i..j] == s[i..j]
  {
  }

  lemma WithinDrop(s: seq<byte>, k: nat, i: nat, j: nat)
    requires k <= i <= j <= |s|
    ensures s[k..][i - k..j - k] == s[i..j]
  {
  }

  lemma SplicedElsewhere(before: seq<byte>, after: seq<byte>, base: nat, part: seq<byte>, p: nat, other: seq<byte>)
    requires Spliced(before, after, base, part) && At(before, p, other)
    requires p + |other| <= base || base + |part| <= p
    ensures At(after, p, other)
  {
    var q, k := p + |other|, base + |part|;
    if q <= base {
      WithinTake(after, base, p, q);
      WithinTake(before, base, p, q);
    } else {
      WithinDrop(after, k, p, q);
      WithinDrop(before, k, p, q);
    }
  }

  lemma SplicedByte(before: seq<byte>, after: seq<byte>, base: nat, part: seq<byte>, p: nat)
    requires Spliced(before, after, base, part) && p < |before| && (p < base || base + |part| <= p)
    ensures after[p] == before[p]
  {
    if p < base {
      assert after[..base][p] == before[..base][p];
    } else {
      var k := base + |part|;
      assert after[k..][p - k] == before[k..][p - k];
    }
  }

  /** Two writes, the later one in front of the earlier one, make one write over both. */
  lemma SplicedBoth(c0: seq<byte>, c1: seq<byte>, c2: seq<byte>, p: nat, x: seq<byte>, q: nat, y: seq<byte>,
                    base: nat, whole: seq<byte>)
    requires Spliced(c0, c1, q, y) && Spliced(c1, c2, p, x)
    requires base <= p && p + |x| <= q && q + |y| <= base + |whole| <= |c0|
    requires At(c2, base, whole)
    ensures Spliced(c0, c2, base, whole)
  {
    forall k | 0 <= k < base ensures c2[..base][k] == c0[..base][k] {
      SplicedByte(c0, c1, q, y, k);
      SplicedByte(c1, c2, p, x, k);
    }
    var end := base + |whole|;
    forall k | 0 <= k < |c0| - end ensures c2[end..][k] == c0[end..][k] {
      SplicedByte(c0, c1, q, y, end + k);
      SplicedByte(c1, c2, p, x, end + k);
    }
  }

  lemma SplicedAdjacent(c0: seq<byte>, c1: seq<byte>, c2: seq<byte>, p: nat, x: seq<byte>, q: nat, y: seq<byte>)
    requires Spliced(c0, c1, q, y) && Spliced(c1, c2, p, x) && q == p + |x|
    ensures Spliced(c0, c2, p, x + y)
  {
    SplicedElsewhere(c1, c2, p, x, q, y);
    AtConcat(c2, p, x, y);
    SplicedBoth(c0, c1, c2, p, x, q, y, p, x + y);
  }

  lemma SplicedAt(before: seq<byte>, after: seq<byte>, base: nat, part: seq<byte>)
    requires Spliced(before, after, base, part)
    ensures At(after, base, part)
  {
  }

  lemma SplicedNothing(c: seq<byte>, base: nat, part: seq<byte>)
    requires At(c, base, part)
    ensures Spliced(c, c, base, part)
  {
  }

  // ----- The hypothesis on the scan -----

  /** Nothing between `lo` and `hi` is rewritten except at the positions in `starts`. */
  ghost predicate OnlyAt(m: Image, hi: nat, lo: nat, starts: seq<nat>)
    requires Canonical(m.entries)
    decreases hi
  {
    hi <= lo
    || ((hi - 1 in starts || FusableAt(m.code, hi - 1).None?) && OnlyAt(Visit(m, hi - 1), hi - 1, lo, starts))
  }

  lemma {:induction false} OnlyAtSplits(m: Image, hi: nat, mid: nat, lo: nat, starts: seq<nat>)
    requires Canonical(m.entries) && lo <= mid <= hi && OnlyAt(m, hi, lo, starts)
    ensures OnlyAt(m, hi, mid, starts) && OnlyAt(Scan(m, hi, mid), mid, lo, starts)
    decreases hi
  {
    hide Visit, FusableAt, Canonical;
    if hi > mid {
      OnlyAtSplits(Visit(m, hi - 1), hi - 1, mid, lo, starts);
    }
  }

  /** A stretch without SPLIT instructions is left alone. */
  lemma {:induction false} QuietStretch(m: Image, hi: nat, lo: nat, starts: seq<nat>)
    requires Canonical(m.entries) && lo <= hi <= |m.code| && OnlyAt(m, hi, lo, starts)
    requires forall p :: lo <= p < hi && p in starts ==> m.code[p] != OP_SPLIT
    ensures Scan(m, hi, lo) == m
    decreases hi
  {
    if hi > lo {
      hide Canonical, PairClass, Rewritten;
      assert Visit(m, hi - 1) == m;
      QuietStretch(m, hi - 1, lo, starts);
    }
  }

  /** The part of `starts` inside a tree's bytes are that tree's instruction starts. */
  ghost predicate StartsFit(starts: seq<nat>, t: Tree, base: nat) {
    forall p :: base <= p < base + Weight(t) && p in starts ==> p in TreeStarts(t, base)
  }

  ghost predicate StartsFitAll(starts: seq<nat>, ps: seq<Tree>, base: nat) {
    forall p :: base <= p < base + WeightAll(ps) && p in starts ==> p in TreeStartsAll(ps, base)
  }

  /** Trees before the pass: no fused nodes yet. */
  predicate Unfused(t: Tree) {
    match t
    case Leaf(i) => i != Bare(Nop) && Floating(i)
    case Sequence(ps) => forall k :: 0 <= k < |ps| ==> Unfused(ps[k])
    case Either(l, r) => Unfused(l) && Unfused(r)
    case Loop(_, _, _, b) => Unfused(b)
    case Fused(_, _) => false
    case _ => true
  }

  lemma {:induction false} FuseKeepsNoNops(t: Tree, entries: seq<CharClass>)
    requires Unfused(t) && Canonical(entries)
    ensures NoNops(FuseTree(t, entries).tree)
    decreases t, 0
  {
    hide Canonical, PairClass, AsArm, Weight, Floating;
    match t
    case Sequence(ps) => FuseAllKeepsNoNops(ps, entries);
    case Either(l, r) =>
      FuseKeepsNoNops(r, entries);
      FuseKeepsNoNops(l, FuseTree(r, entries).entries);
    case Loop(_, _, _, b) => FuseKeepsNoNops(b, entries);
    case _ =>
  }

  lemma {:induction false} FuseAllKeepsNoNops(ps: seq<Tree>, entries: seq<CharClass>)
    requires Canonical(entries) && forall k :: 0 <= k < |ps| ==> Unfused(ps[k])
    ensures |FuseTrees(ps, entries).trees| == |ps|
    ensures forall k :: 0 <= k < |ps| ==> NoNops(FuseTrees(ps, entries).trees[k])
    decreases ps, 0
  {
    hide Canonical, PairClass, Floating;
    if ps != [] {
      FuseAllKeepsNoNops(ps[1..], entries);
      FuseKeepsNoNops(ps[0], FuseTrees(ps[1..], entries).entries);
    }
  }

  // ----- The scan over a tree -----

  /** What scanning a region must leave: `part` in its place, `entries` in the class table. */
  ghost predicate Became(m: Image, r: Image, base: nat, part: seq<byte>, entries: seq<CharClass>) {
    Spliced(m.code, r.code, base, part) && r.entries == entries
  }

  /** The byte after a region: present, and not a NOP the parsers would run into. */
  ghost predicate Followed(code: seq<byte>, end: nat) {
    end < |code| < U32 && code[end] != OP_NOP
  }

  /** Visiting the SPLIT of an alternation whose arms are already fused. */
  lemma VisitMeetsTree(m: Image, l: Tree, r: Tree, base: nat)
    requires Canonical(m.entries) && NoNops(l) && NoNops(r)
    requires At(m.code, base, Emitted(Either(l, r), base)) && Followed(m.code, base + Weight(Either(l, r)))
    ensures var f := FusePair(l, r, m.entries);
      Became(m, Visit(m, base), base, Emitted(f.tree, base), f.entries)
  {
    hide Encode, Emitted, FusableAt, Canonical, AsArm, NoNops, PairClass, Rewritten, Register;
    var end := base + Weight(Either(l, r));
    FusableMeetsTree(m.code, l, r, base);
    var f := FusePair(l, r, m.entries);
    if f.tree.Fused? {
      var id := f.tree.classId;
      EmittedOf(f.tree, base);
      RewrittenRegion(m.code, base, id, end);
    } else {
      SplicedNothing(m.code, base, Emitted(Either(l, r), base));
    }
  }

  lemma RewrittenRegion(code: seq<byte>, pos: nat, id: nat, merge: nat)
    requires pos + 9 <= merge <= |code|
    ensures Spliced(code, Rewritten(code, pos, id, merge), pos,
                    Encode(Class(Any, id)) + NopBytes(merge - pos - 3))
  {
    hide Enc16;
    var part := [OP_ANY] + Enc16(id) + NopBytes(merge - pos - 3);
    assert Rewritten(code, pos, id, merge) == code[..pos] + part + code[merge..];
    assert Encode(Class(Any, id)) + NopBytes(merge - pos - 3) == part;
  }

  /** Scanning the bytes of a tree turns them into the bytes of the fused tree. */
  lemma {:induction false} ScanFusesTree(m: Image, t: Tree, base: nat, starts: seq<nat>)
    requires Canonical(m.entries) && Unfused(t)
    requires At(m.code, base, Emitted(t, base)) && Followed(m.code, base + Weight(t))
    requires StartsFit(starts, t, base) && OnlyAt(m, base + Weight(t), base, starts)
    ensures var f := FuseTree(t, m.entries);
      Became(m, Scan(m, base + Weight(t), base), base, Emitted(f.tree, base), f.entries)
    decreases t, 1
  {
    hide Encode, Emitted, Canonical, Visit, FusableAt, Scan, OnlyAt, At, Spliced, TreeStarts, Followed, PairClass;
    match t
    case Sequence(ps) => ScanFusesSequence(m, ps, base, starts);
    case Either(l, r) => ScanFusesEither(m, l, r, base, starts);
    case Loop(id, min, max, b) => ScanFusesLoop(m, id, min, max, b, base, starts);
    case _ => ScanKeepsLeaf(m, t, base, starts);
  }

  lemma {:induction false} ScanFusesSequence(m: Image, ps: seq<Tree>, base: nat, starts: seq<nat>)
    requires var t := Sequence(ps);
      && Canonical(m.entries) && Unfused(t)
      && At(m.code, base, Emitted(t, base)) && Followed(m.code, base + Weight(t))
      && StartsFit(starts, t, base) && OnlyAt(m, base + Weight(t), base, starts)
    ensures var t := Sequence(ps);
      var f := FuseTree(t, m.entries);
      Became(m, Scan(m, base + Weight(t), base), base, Emitted(f.tree, base), f.entries)
    decreases Sequence(ps), 0
  {
    hide Encode, Emitted, EmittedAll, Canonical, Visit, FusableAt, Scan, OnlyAt, At, Spliced, TreeStarts,
         TreeStartsAll, Followed, PairClass, Became, FuseTree, FuseTrees, Weight, WeightAll;
    StartsOfSequence(ps, base);
    SequenceWeight(ps);
    SequenceEmits(ps, base);
    SequenceFuses(ps, m.entries);
    ScanFusesTrees(m, ps, base, starts);
    SequenceEmits(FuseTrees(ps, m.entries).trees, base);
  }

  lemma SequenceEmits(ps: seq<Tree>, base: nat)
    ensures Emitted(Sequence(ps), base) == EmittedAll(ps, base)
  {
    hide EncodeAll;
  }

  lemma SequenceFuses(ps: seq<Tree>, entries: seq<CharClass>)
    requires Canonical(entries)
    ensures var f := FuseTrees(ps, entries); FuseTree(Sequence(ps), entries) == FusedTree(Sequence(f.trees), f.entries)
  {
    hide Canonical, FuseTrees;
  }

  lemma ScanKeepsLeaf(m: Image, t: Tree, base: nat, starts: seq<nat>)
    requires Canonical(m.entries) && Unfused(t) && (t.Leaf? || t.TextLeaf? || t.EmitLeaf?)
    requires At(m.code, base, Emitted(t, base))
    requires StartsFit(starts, t, base) && OnlyAt(m, base + Weight(t), base, starts)
    ensures Became(m, Scan(m, base + Weight(t), base), base, Emitted(t, base), m.entries)
  {
    hide Emitted, Canonical, Scan, OnlyAt, Operands, TreeStarts;
    EmittedOf(t, base);
    var i := if t.Leaf? then t.instr else if t.TextLeaf? then Lit(base + 9, t.text) else EmitLiteral(base + 9, t.text);
    AtByte(m.code, base, Encode(i), 0);
    StartsOfLeaf(t, i, base);
    QuietStretch(m, base + Weight(t), base, starts);
    SplicedNothing(m.code, base, Emitted(t, base));
  }

  lemma StartsOfLeaf(t: Tree, i: Instr, base: nat)
    requires t.Leaf? || t.TextLeaf? || t.EmitLeaf?
    requires Lay(t, base) == [i]
    ensures TreeStarts(t, base) == [base]
  {
    hide Encode;
    StartsOne(i, base);
  }

  lemma {:induction false} ScanFusesTrees(m: Image, ps: seq<Tree>, base: nat, starts: seq<nat>)
    requires Canonical(m.entries) && forall k :: 0 <= k < |ps| ==> Unfused(ps[k])
    requires At(m.code, base, EmittedAll(ps, base)) && Followed(m.code, base + WeightAll(ps))
    requires StartsFitAll(starts, ps, base) && OnlyAt(m, base + WeightAll(ps), base, starts)
    ensures var f := FuseTrees(ps, m.entries);
      Became(m, Scan(m, base + WeightAll(ps), base), base, EmittedAll(f.trees, base), f.entries)
    decreases ps, 0
  {
    hide Encode, Emitted, EmittedAll, Canonical, Visit, FusableAt, Scan, OnlyAt, Spliced, Weight, Unfused, TreeStarts,
         TreeStartsAll, FuseTree, At, Followed;
    EmittedOfAll(ps, base);
    if ps == [] {
      AtEnds(m.code, base, []);
      QuietStretch(m, base, base, starts);
      SplicedNothing(m.code, base, []);
    } else {
      var head, rest, mid, end := ps[0], ps[1..], base + Weight(ps[0]), base + WeightAll(ps);
      EmittedWidth(head, base);
      AtConcat(m.code, base, Emitted(head, base), EmittedAll(rest, mid));
      SplitStarts(starts, ps, base);
      OnlyAtSplits(m, end, mid, base, starts);
      ScanSplits(m, end, mid, base);
      ScanFusesTrees(m, rest, mid, starts);
      var m1, fr := Scan(m, end, mid), FuseTrees(rest, m.entries);
      assert Canonical(m1.entries);
      EmittedOfAll(rest, mid);
      FuseAllKeepsWeight(rest, m.entries);
      EmittedOfAll(fr.trees, mid);
      SplicedElsewhere(m.code, m1.code, mid, EmittedAll(fr.trees, mid), base, Emitted(head, base));
      FuseAllKeepsNoNops(rest, m.entries);
      FollowedHead(m.code, m1.code, fr.trees, mid, end);
      ScanFusesTree(m1, head, base, starts);
      var m2, fh := Scan(m1, mid, base), FuseTree(head, fr.entries);
      FuseKeepsWeight(head, fr.entries);
      EmittedWidth(fh.tree, base);
      EmittedOfAll([fh.tree] + fr.trees, base);
      assert ([fh.tree] + fr.trees)[1..] == fr.trees;
      SplicedAdjacent(m.code, m1.code, m2.code, base, Emitted(fh.tree, base), mid, EmittedAll(fr.trees, mid));
    }
  }

  /** After its successors have been scanned, a part is still not followed by a NOP. */
  lemma FollowedHead(before: seq<byte>, after: seq<byte>, rest: seq<Tree>, mid: nat, end: nat)
    requires end == mid + WeightAll(rest) && Followed(before, end)
    requires Spliced(before, after, mid, EmittedAll(rest, mid))
    requires forall k :: 0 <= k < |rest| ==> NoNops(rest[k])
    ensures Followed(after, mid)
  {
    hide Emitted, EmittedAll, ParsesAs, LeadOfAll, NoNops;
    EmittedOfAll(rest, mid);
    SeenTrees(after, rest, mid);
    if WeightAll(rest) == 0 {
      SplicedByte(before, after, mid, EmittedAll(rest, mid), end);
    }
  }

  lemma SplitStarts(starts: seq<nat>, ps: seq<Tree>, base: nat)
    requires ps != [] && StartsFitAll(starts, ps, base)
    ensures StartsFit(starts, ps[0], base) && StartsFitAll(starts, ps[1..], base + Weight(ps[0]))
  {
    hide TreeStarts, TreeStartsAll, Weight;
    var head, rest, mid := ps[0], ps[1..], base + Weight(ps[0]);
    StartsOfSequence(ps, base);
    StartsOfSequence(rest, mid);
    SequenceWeight(rest);
    forall p | base <= p < mid && p in starts ensures p in TreeStarts(head, base) {
      if p in TreeStartsAll(rest, mid) { StartsInside(Sequence(rest), mid, p); }
    }
    forall p | mid <= p < mid + WeightAll(rest) && p in starts ensures p in TreeStartsAll(rest, mid) {
      if p in TreeStarts(head, base) { StartsInside(head, base, p); }
    }
  }

  /** The two arms of an alternation see their own starts only. */
  lemma EitherStarts(starts: seq<nat>, l: Tree, r: Tree, base: nat)
    requires StartsFit(starts, Either(l, r), base)
    ensures StartsFit(starts, l, base + 9) && StartsFit(starts, r, base + 14 + Weight(l))
    ensures forall p :: base < p < base + 9 ==> p !in starts
    ensures forall p :: base + 9 + Weight(l) < p < base + 14 + Weight(l) ==> p !in starts
  {
    hide TreeStarts;
    var jmp, right := base + 9 + Weight(l), base + 14 + Weight(l);
    StartsOfEither(l, r, base);
    forall p | p in TreeStarts(Either(l, r), base)
      ensures p == base || p == jmp || (p in TreeStarts(l, base + 9) && base + 9 <= p < jmp)
           || (p in TreeStarts(r, right) && right <= p)
    {
      if p in TreeStarts(l, base + 9) { StartsInside(l, base + 9, p); }
      if p in TreeStarts(r, right) { StartsInside(r, right, p); }
    }
  }

  lemma LoopStarts(starts: seq<nat>, id: nat, min: int, max: int, b: Tree, base: nat)
    requires StartsFit(starts, Loop(id, min, max, b), base)
    ensures StartsFit(starts, b, base + 14)
    ensures forall p :: base < p < base + 14 ==> p !in starts
    ensures forall p :: base + 14 + Weight(b) < p < base + 20 + Weight(b) ==> p !in starts
  {
    hide TreeStarts;
    StartsOfLoop(id, min, max, b, base);
    forall p | p in TreeStarts(Loop(id, min, max, b), base)
      ensures p == base || p == base + 14 + Weight(b)
           || (p in TreeStarts(b, base + 14) && base + 14 <= p < base + 14 + Weight(b))
    {
      if p in TreeStarts(b, base + 14) { StartsInside(b, base + 14, p); }
    }
  }

  lemma {:induction false} ScanFusesEither(m: Image, l: Tree, r: Tree, base: nat, starts: seq<nat>)
    requires Canonical(m.entries) && Unfused(l) && Unfused(r)
    requires var t := Either(l, r);
      && At(m.code, base, Emitted(t, base)) && Followed(m.code, base + Weight(t))
      && StartsFit(starts, t, base) && OnlyAt(m, base + Weight(t), base, starts)
    ensures var t := Either(l, r);
      var f := FuseTree(t, m.entries);
      Became(m, Scan(m, base + Weight(t), base), base, Emitted(f.tree, base), f.entries)
    decreases Either(l, r), 0
  {
    hide Encode, Emitted, Canonical, Visit, FusableAt, Scan, OnlyAt, Spliced, Weight, Unfused, TreeStarts, At,
         FuseTree, FusePair;
    var left, jmp, right := base + 9, base + 9 + Weight(l), base + 14 + Weight(l);
    var end := right + Weight(r);
    EitherWeight(l, r);
    SplitLayout(m.code, l, r, base);
    EitherStarts(starts, l, r, base);
    OnlyAtSplits(m, end, right, base, starts);
    ScanSplits(m, end, right, base);
    ScanFusesTree(m, r, right, starts);
    var m1, fr := Scan(m, end, right), FuseTree(r, m.entries);
    FuseKeepsWeight(r, m.entries);
    EmittedOf(l, left);
    RightScanned(m.code, m1.code, l, r, fr.tree, base);
    ScanLeftArm(m1, l, base, jmp, right, end, starts);
    var m2, fl := Scan(m1, right, left), FuseTree(l, fr.entries);
    FuseKeepsWeight(l, fr.entries);
    LeftScanned(m1.code, m2.code, l, fl.tree, r, fr.tree, base);
    OnlyAtSplits(m1, right, left, base, starts);
    ScanSplits(m1, right, left, base);
    FuseKeepsNoNops(r, m.entries);
    FuseKeepsNoNops(l, fr.entries);
    ScanHead(m, m1, m2, fl.tree, fr.tree, base, left, right, end, starts);
    FuseEither(l, r, m.entries);
  }

  /** With the right arm replaced, everything in front of it is still in place. */
  lemma RightScanned(c0: seq<byte>, c1: seq<byte>, l: Tree, r: Tree, r': Tree, base: nat)
    requires At(c0, base, Emitted(Either(l, r), base)) && Weight(r') == Weight(r)
    requires Spliced(c0, c1, base + 14 + Weight(l), Emitted(r', base + 14 + Weight(l)))
    ensures var jmp, right := base + 9 + Weight(l), base + 14 + Weight(l);
      && At(c1, base, Encode(Split(base + 9, right))) && At(c1, base + 9, Emitted(l, base + 9))
      && At(c1, jmp, Encode(Jmp(right + Weight(r)))) && At(c1, right, Emitted(r', right))
  {
    hide Encode, Emitted, Spliced, Weight, At;
    var jmp, right := base + 9 + Weight(l), base + 14 + Weight(l);
    var end, er := right + Weight(r), Emitted(r', right);
    SplitLayout(c0, l, r, base);
    EmittedWidth(r', right);
    EmittedWidth(l, base + 9);
    FixedWidths(0, base + 9, right, 0, 0);
    FixedWidths(0, end, 0, 0, 0);
    SplicedElsewhere(c0, c1, right, er, jmp, Encode(Jmp(end)));
    SplicedElsewhere(c0, c1, right, er, base + 9, Emitted(l, base + 9));
    SplicedElsewhere(c0, c1, right, er, base, Encode(Split(base + 9, right)));
    SplicedAt(c0, c1, right, er);
  }

  /** With both arms replaced, the alternation of the replacements is in place. */
  lemma LeftScanned(c1: seq<byte>, c2: seq<byte>, l: Tree, l': Tree, r: Tree, r': Tree, base: nat)
    requires Weight(l') == Weight(l) && Weight(r') == Weight(r)
    requires var jmp, right := base + 9 + Weight(l), base + 14 + Weight(l);
      && At(c1, base, Encode(Split(base + 9, right)))
      && At(c1, jmp, Encode(Jmp(right + Weight(r)))) && At(c1, right, Emitted(r', right))
    requires Spliced(c1, c2, base + 9, Emitted(l', base + 9))
    ensures At(c2, base, Emitted(Either(l', r'), base))
  {
    hide *;
    var left, jmp, right := base + 9, base + 9 + Weight(l), base + 14 + Weight(l);
    var end := right + Weight(r);
    EmittedWidth(l', left);
    FixedWidths(0, left, right, 0, 0);
    FixedWidths(0, end, 0, 0, 0);
    PartsAround(c1, c2, base, Encode(Split(left, right)), left, Emitted(l', left), jmp, Encode(Jmp(end)),
                right, Emitted(r', right));
    EitherPlaced(c2, l', r', base);
  }

  /** Replacing the second of four parts leaves the others where they are. */
  lemma PartsAround(c1: seq<byte>, c2: seq<byte>, base: nat, a: seq<byte>, left: nat, b: seq<byte>, jmp: nat, c: seq<byte>,
                    right: nat, d: seq<byte>)
    requires left == base + |a| && jmp == left + |b| && right == jmp + |c|
    requires At(c1, base, a) && At(c1, jmp, c) && At(c1, right, d) && Spliced(c1, c2, left, b)
    ensures At(c2, base, a) && At(c2, left, b) && At(c2, jmp, c) && At(c2, right, d)
  {
    hide At, Spliced;
    SplicedElsewhere(c1, c2, left, b, base, a);
    SplicedElsewhere(c1, c2, left, b, jmp, c);
    SplicedElsewhere(c1, c2, left, b, right, d);
    SplicedAt(c1, c2, left, b);
  }

  /** Four parts in place make an alternation. */
  lemma EitherPlaced(code: seq<byte>, l: Tree, r: Tree, base: nat)
    requires var left, jmp, right := base + 9, base + 9 + Weight(l), base + 14 + Weight(l);
      && At(code, base, Encode(Split(left, right))) && At(code, left, Emitted(l, left))
      && At(code, jmp, Encode(Jmp(right + Weight(r)))) && At(code, right, Emitted(r, right))
    ensures At(code, base, Emitted(Either(l, r), base))
  {
    hide Encode, Emitted, Weight, At;
    var left, right := base + 9, base + 14 + Weight(l);
    EmittedWidth(l, left);
    EmittedWidth(r, right);
    FixedWidths(0, left, right, 0, 0);
    FixedWidths(0, right + Weight(r), 0, 0, 0);
    EmittedOf(Either(l, r), base);
    AtFour(code, base, Encode(Split(left, right)), Emitted(l, left), Encode(Jmp(right + Weight(r))), Emitted(r, right));
  }

  /** From the end of the JMP down to the start of the left arm. */
  lemma {:induction false} ScanLeftArm(m: Image, l: Tree, base: nat, jmp: nat, right: nat, end: nat, starts: seq<nat>)
    requires Canonical(m.entries) && Unfused(l) && |m.code| < U32
    requires jmp == base + 9 + Weight(l) && right == jmp + 5
    requires At(m.code, base + 9, Emitted(l, base + 9)) && At(m.code, jmp, Encode(Jmp(end)))
    requires StartsFit(starts, l, base + 9) && OnlyAt(m, right, base, starts)
    requires forall p :: jmp < p < right ==> p !in starts
    ensures var f := FuseTree(l, m.entries);
      Became(m, Scan(m, right, base + 9), base + 9, Emitted(f.tree, base + 9), f.entries)
    decreases l, 2
  {
    hide Encode, Emitted, Canonical, Visit, FusableAt, Scan, OnlyAt, Spliced, Weight, Unfused, TreeStarts, At, FuseTree;
    JmpStarts(m.code, jmp, end);
    OnlyAtSplits(m, right, base + 9, base, starts);
    OnlyAtSplits(m, right, jmp, base + 9, starts);
    ScanSplits(m, right, jmp, base + 9);
    QuietStretch(m, right, jmp, starts);
    ScanFusesTree(m, l, base + 9, starts);
  }

  lemma JmpStarts(code: seq<byte>, p: nat, t: nat)
    requires At(code, p, Encode(Jmp(t)))
    ensures p + 5 <= |code| && code[p] == OP_JMP
  {
    hide Enc32;
    AtByte(code, p, Encode(Jmp(t)), 0);
  }

  /** The SPLIT operands, then the SPLIT itself. */
  lemma ScanHead(m: Image, m1: Image, m2: Image, l: Tree, r: Tree, base: nat, left: nat, right: nat, end: nat,
                 starts: seq<nat>)
    requires left == base + 9 && right == base + 14 + Weight(l) && end == right + Weight(r)
    requires Canonical(m2.entries) && NoNops(l) && NoNops(r)
    requires Spliced(m.code, m1.code, right, Emitted(r, right)) && Spliced(m1.code, m2.code, left, Emitted(l, left))
    requires At(m2.code, base, Emitted(Either(l, r), base)) && Followed(m.code, end)
    requires OnlyAt(m2, left, base, starts) && forall p :: base < p < left ==> p !in starts
    ensures var f := FusePair(l, r, m2.entries);
      Became(m, Scan(m2, left, base), base, Emitted(f.tree, base), f.entries)
  {
    hide Encode, Emitted, Canonical, Visit, FusableAt, Spliced, Weight, At, FusePair, OnlyAt, NoNops;
    EitherWeight(l, r);
    EmittedWidth(l, left);
    EmittedWidth(r, right);
    EmittedOf(Either(l, r), base);
    SplicedBoth(m.code, m1.code, m2.code, left, Emitted(l, left), right, Emitted(r, right),
                base, Emitted(Either(l, r), base));
    FollowedAfter(m.code, m2.code, base, Emitted(Either(l, r), base), end);
    OnlyAtSplits(m2, left, base + 1, base, starts);
    ScanSplits(m2, left, base + 1, base);
    QuietStretch(m2, left, base + 1, starts);
    assert Scan(m2, base + 1, base) == Visit(m2, base);
    VisitMeetsTree(m2, l, r, base);
    var f := FusePair(l, r, m2.entries);
    PairKeepsWeight(l, r, m2.entries);
    EmittedOf(f.tree, base);
    SplicedAgain(m.code, m2.code, Visit(m2, base).code, base, Emitted(Either(l, r), base), Emitted(f.tree, base));
  }

  lemma FollowedAfter(before: seq<byte>, after: seq<byte>, base: nat, part: seq<byte>, end: nat)
    requires Followed(before, end) && Spliced(before, after, base, part) && end == base + |part|
    ensures Followed(after, end)
  {
    SplicedByte(before, after, base, part, end);
  }

  /** Writing the same region twice leaves the second version. */
  lemma SplicedAgain(c0: seq<byte>, c1: seq<byte>, c2: seq<byte>, p: nat, x: seq<byte>, y: seq<byte>)
    requires Spliced(c0, c1, p, x) && Spliced(c1, c2, p, y) && |x| == |y|
    ensures Spliced(c0, c2, p, y)
  {
  }

  lemma {:induction false} ScanFusesLoop(m: Image, id: nat, min: int, max: int, b: Tree, base: nat, starts: seq<nat>)
    requires Canonical(m.entries) && Unfused(b)
    requires var t := Loop(id, min, max, b);
      && At(m.code, base, Emitted(t, base)) && Followed(m.code, base + Weight(t))
      && StartsFit(starts, t, base) && OnlyAt(m, base + Weight(t), base, starts)
    ensures var t := Loop(id, min, max, b);
      var f := FuseTree(t, m.entries);
      Became(m, Scan(m, base + Weight(t), base), base, Emitted(f.tree, base), f.entries)
    decreases Loop(id, min, max, b), 0
  {
    hide Encode, Emitted, Canonical, Visit, FusableAt, Scan, OnlyAt, Spliced, Weight, Unfused, TreeStarts, At;
    var t := Loop(id, min, max, b);
    var body, step, end := base + 14, base + 14 + Weight(b), base + 20 + Weight(b);
    LoopWeight(id, min, max, b);
    LoopStarts(starts, id, min, max, b, base);
    LoopLayout(m.code, id, min, max, b, base);
    OnlyAtSplits(m, end, step, base, starts);
    ScanSplits(m, end, step, base);
    QuietStretch(m, end, step, starts);
    OnlyAtSplits(m, step, body, base, starts);
    ScanSplits(m, step, body, base);
    ScanFusesTree(m, b, body, starts);
    var m1, f := Scan(m, step, body), FuseTree(b, m.entries);
    FuseKeepsWeight(b, m.entries);
    EmittedOf(f.tree, body);
    var eb := Emitted(f.tree, body);
    LoopHeadQuiet(m, m1, id, min, max, f.tree, base, starts);
  }

  lemma LoopOpcodes(id: nat, min: int, max: int, end: nat, body: nat)
    ensures Encode(RepeatInit(id, min, max, end))[0] == OP_REPEAT_INIT && Encode(RepeatStep(id, body))[0] == OP_REPEAT_STEP
  {
    hide Operands;
  }

  lemma LoopLayout(code: seq<byte>, id: nat, min: int, max: int, b: Tree, base: nat)
    requires At(code, base, Emitted(Loop(id, min, max, b), base))
    ensures var step := base + 14 + Weight(b);
      && At(code, base, Encode(RepeatInit(id, min, max, step + 6)))
      && At(code, base + 14, Emitted(b, base + 14))
      && At(code, step, Encode(RepeatStep(id, base + 14)))
      && step + 6 <= |code| && code[base] == OP_REPEAT_INIT && code[step] == OP_REPEAT_STEP
  {
    hide Emitted, Encode, Weight, At;
    var init, step := Encode(RepeatInit(id, min, max, base + 20 + Weight(b))), Encode(RepeatStep(id, base + 14));
    EmittedOfLoop(id, min, max, b, base);
    EmittedWidth(b, base + 14);
    FixedWidths(0, id, min, max, base + 20 + Weight(b));
    FixedWidths(0, id, base + 14, 0, 0);
    LoopOpcodes(id, min, max, base + 20 + Weight(b), base + 14);
    AtConcat(code, base, init + Emitted(b, base + 14), step);
    AtConcat(code, base, init, Emitted(b, base + 14));
    AtByte(code, base, init, 0);
    AtByte(code, base + 14 + Weight(b), step, 0);
    AtEnds(code, base + 14 + Weight(b), step);
  }

  /** With its body replaced the whole loop is in place. */
  lemma LoopAround(c0: seq<byte>, c1: seq<byte>, id: nat, min: int, max: int, b: Tree, base: nat)
    requires Spliced(c0, c1, base + 14, Emitted(b, base + 14))
    requires At(c0, base, Encode(RepeatInit(id, min, max, base + 20 + Weight(b))))
    requires At(c0, base + 14 + Weight(b), Encode(RepeatStep(id, base + 14)))
    ensures At(c1, base, Emitted(Loop(id, min, max, b), base)) && base < |c1| && c1[base] == OP_REPEAT_INIT
  {
    hide Emitted, Encode, Weight, Spliced, At;
    var init, step := Encode(RepeatInit(id, min, max, base + 20 + Weight(b))), Encode(RepeatStep(id, base + 14));
    var eb := Emitted(b, base + 14);
    EmittedWidth(b, base + 14);
    EmittedOfLoop(id, min, max, b, base);
    FixedWidths(0, id, min, max, base + 20 + Weight(b));
    FixedWidths(0, id, base + 14, 0, 0);
    LoopOpcodes(id, min, max, base + 20 + Weight(b), base + 14);
    SplicedElsewhere(c0, c1, base + 14, eb, base, init);
    SplicedElsewhere(c0, c1, base + 14, eb, base + 14 + Weight(b), step);
    SplicedAt(c0, c1, base + 14, eb);
    AtConcat(c1, base, init, eb);
    AtConcat(c1, base, init + eb, step);
    AtByte(c1, base, init, 0);
  }

  lemma LoopHeadQuiet(m: Image, m1: Image, id: nat, min: int, max: int, b: Tree, base: nat, starts: seq<nat>)
    requires Canonical(m1.entries) && base + 20 + Weight(b) <= |m.code|
    requires Spliced(m.code, m1.code, base + 14, Emitted(b, base + 14))
    requires At(m.code, base, Encode(RepeatInit(id, min, max, base + 20 + Weight(b))))
    requires At(m.code, base + 14 + Weight(b), Encode(RepeatStep(id, base + 14)))
    requires OnlyAt(m1, base + 14, base, starts) && forall p :: base < p < base + 14 ==> p !in starts
    ensures Became(m, Scan(m1, base + 14, base), base, Emitted(Loop(id, min, max, b), base), m1.entries)
  {
    hide Emitted, Encode, Canonical, Scan, OnlyAt, Spliced, At, Weight;
    LoopAround(m.code, m1.code, id, min, max, b, base);
    EmittedWidth(b, base + 14);
    EmittedWidth(Loop(id, min, max, b), base);
    LoopWeight(id, min, max, b);
    SplicedWider(m.code, m1.code, base + 14, Emitted(b, base + 14), base, Emitted(Loop(id, min, max, b), base));
    QuietStretch(m1, base + 14, base, starts);
  }

  /** A write seen as a write of a larger region that was otherwise already right. */
  lemma SplicedWider(c0: seq<byte>, c1: seq<byte>, p: nat, x: seq<byte>, base: nat, whole: seq<byte>)
    requires Spliced(c0, c1, p, x) && base <= p && p + |x| <= base + |whole| && At(c1, base, whole)
    ensures Spliced(c0, c1, base, whole)
  {
    SplicedNothing(c1, p, x);
    forall k | 0 <= k < base ensures c1[..base][k] == c0[..base][k] {
      SplicedByte(c0, c1, p, x, k);
    }
    var end := base + |whole|;
    forall k | 0 <= k < |c0| - end ensures c1[end..][k] == c0[end..][k] {
      SplicedByte(c0, c1, p, x, end + k);
    }
  }
}
