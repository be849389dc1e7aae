/** When the byte scan of the fusion pass rewrites nothing but real SPLIT instructions, and a
    pattern whose literal text is mistaken for one. */
module FusionStarts {
  import opened Wrappers
  import opened Bytes
  import opened Layout
  import opened CharClasses
  import opened Bytecode
  import opened CodeTree
  import opened FusionPass
  import opened FusedScan

  /** Code this short keeps the two high bytes of every offset zero. */
  const MAX_SHORT: nat := 0x1_0000

  // ----- What stops the scan from parsing the middle of an instruction -----

  /** Byte `k` counted from the instruction's start is not zero, or belongs to the next instruction. */
  predicate Breaks(e: seq<byte>, k: nat) { k == |e| || (k < |e| && e[k] != 0) }

  /** No inner byte of the instruction can pass for a SPLIT with short operands. */
  predicate Guarded(e: seq<byte>) {
    forall d :: 1 <= d < |e| && e[d] == OP_SPLIT ==>
      Breaks(e, d + 1) || Breaks(e, d + 2) || Breaks(e, d + 5) || Breaks(e, d + 6)
  }

  /** Operands small enough, and text without NUL bytes. */
  predicate Mild(i: Instr) {
    match i
    case Bare(op) => !op.Accept?
    case Class(_, _) => true
    case Count(_, n) => 0 <= n < MAX_SHORT
    case Jmp(t) => 0 <= t < MAX_SHORT
    case Split(a, b) => 0 <= a < MAX_SHORT && 0 <= b < MAX_SHORT
    case Lit(off, text) => 0 <= off < MAX_SHORT && |text| < MAX_SHORT && 0 !in text
    case CapStart(_) => true
    case CapEnd(_) => true
    case Assign(v, _) => 0 <= v < 0x300
    case CallFn(f, _) => 0 <= f < 0x300
    case Anchor(_) => true
    case RepeatInit(id, min, max, skip) => 0 <= skip < MAX_SHORT && HarmlessBounds(id, min, max)
    case RepeatStep(_, body) => 0 <= body < MAX_SHORT
    case EmitLiteral(off, text) => 0 <= off < MAX_SHORT && |text| < MAX_SHORT && 0 !in text
    case EmitCapture(_) => true
    case Label(_) => true
    case Goto(_) => true
    case TableGet(table, _, _, name) => table == UNBOUND && MildName(name)
    case TableSet(table, _, _, name) => table == UNBOUND && MildName(name)
    case Bal(o, c) => 0 <= o < MAX_SHORT && 0 <= c < MAX_SHORT
  }

  /** Operands of a loop that do not read as a SPLIT with short targets. Without an upper bound its four bytes
      of ones protect the rest; a bounded loop is exposed by a 3 as its number or as the low byte of its minimum,
      and by a 3 as the high byte of a minimum with nothing but zeros behind it. A 3 in the maximum does no harm. */
  predicate HarmlessBounds(id: int, min: int, max: int) {
    && 0 <= min < MAX_SHORT
    && (max == -1 || (0 <= max < MAX_SHORT && Low8(id) != 3 && min % 0x100 != 3 && (min != 0x300 || max % 0x100 != 0)))
  }

  predicate MildName(name: seq<byte>) { 0 < |name| < U8 && 0 !in name }

  lemma Short32(v: int)
    requires 0 <= v < MAX_SHORT
    ensures Enc32(v) == [0, 0, v / 0x100, v % 0x100]
  {
    assert Low32(v) == v;
    assert Bytes.Pair(0) == [0, 0] && Bytes.Pair(v) == [v / 0x100, v % 0x100];
    assert Enc32(v) == Bytes.Pair(0) + Bytes.Pair(v);
  }

  lemma Short16(v: int)
    requires 0 <= v < 0x300
    ensures Enc16(v) == [v / 0x100, v % 0x100] && v / 0x100 < 3
  {
  }

  lemma ShortHead(i: Instr, off: int, text: seq<byte>)
    requires i == Lit(off, text) || i == EmitLiteral(off, text)
    requires Mild(i)
    ensures Encode(i) == [Opcode(i), 0, 0, off / 0x100, off % 0x100, 0, 0, |text| / 0x100, |text| % 0x100] + text
  {
    hide Enc32;
    Short32(off);
    Short32(|text|);
  }

  lemma LitGuarded(i: Instr, off: int, text: seq<byte>)
    requires i == Lit(off, text) || i == EmitLiteral(off, text)
    requires Mild(i)
    ensures Guarded(Encode(i))
  {
    hide Encode, Opcode, Breaks;
    ShortHead(i, off, text);
    var head := [Opcode(i), 0, 0, off / 0x100, off % 0x100, 0, 0, |text| / 0x100, |text| % 0x100];
    var e := Encode(i);
    forall d | 1 <= d < |e| && e[d] == OP_SPLIT
      ensures Breaks(e, d + 1) || Breaks(e, d + 2) || Breaks(e, d + 5) || Breaks(e, d + 6)
    {
      TextBreaks(head, text, d);
    }
  }

  lemma TextBreaks(head: seq<byte>, text: seq<byte>, d: nat)
    requires |head| == 9 && head[1] == head[2] == head[5] == head[6] == 0 && 0 !in text
    requires 1 <= d < 9 + |text| && (head + text)[d] == OP_SPLIT
    ensures var e := head + text;
      Breaks(e, d + 1) || Breaks(e, d + 2) || Breaks(e, d + 5) || Breaks(e, d + 6)
  {
    var e := head + text;
    var j := if d == 3 then 6 else if d == 4 then 5 else if d == 7 then 2 else 1;
    assert d + j >= 9;
    if d + j < |e| {
      assert e[d + j] == text[d + j - 9];
      assert text[d + j - 9] in text;
    }
  }

  lemma JumpGuarded(a: int, b: int)
    requires 0 <= a < MAX_SHORT && 0 <= b < MAX_SHORT
    ensures Guarded(Encode(Split(a, b))) && Guarded(Encode(Jmp(a)))
    ensures |Encode(Split(a, b))| == 9
  {
    hide Enc32;
    Short32(a);
    Short32(b);
    assert Encode(Jmp(a)) == [OP_JMP, 0, 0, a / 0x100, a % 0x100];
    assert Encode(Split(a, b)) == [OP_SPLIT, 0, 0, a / 0x100, a % 0x100, 0, 0, b / 0x100, b % 0x100];
  }

  lemma CountGuarded(op: CountOp, n: int)
    requires 0 <= n < MAX_SHORT
    ensures Guarded(Encode(Count(op, n)))
  {
    hide Enc32;
    Short32(n);
    assert Encode(Count(op, n)) == [CountOpcode(op), 0, 0, n / 0x100, n % 0x100];
  }

  lemma AssignGuarded(i: Instr, v: int, r: int)
    requires 0 <= v < 0x300 && (i == Assign(v, r) || i == CallFn(v, r))
    ensures Guarded(Encode(i))
  {
    hide Enc16;
    Short16(v);
    var e := Encode(i);
    assert e == [Opcode(i), v / 0x100, v % 0x100, Low8(r)];
    assert Breaks(e, 4);
    forall d | 1 <= d < |e| && e[d] == OP_SPLIT
      ensures Breaks(e, d + 1) || Breaks(e, d + 2) || Breaks(e, d + 5) || Breaks(e, d + 6)
    {
      assert d >= 2;
      assert d == 2 ==> Breaks(e, d + 2);
      assert d == 3 ==> Breaks(e, d + 1);
    }
  }

  lemma InitGuarded(l: int, min: int, max: int, skip: int)
    requires HarmlessBounds(l, min, max) && 0 <= skip < MAX_SHORT
    ensures Guarded(Encode(RepeatInit(l, min, max, skip)))
  {
    var e := Encode(RepeatInit(l, min, max, skip));
    InitBytes(l, min, max, skip);
    hide Encode;
    assert Breaks(e, 14);
    if max == -1 {
      assert Breaks(e, 6);
    } else {
      assert e[1] != OP_SPLIT && e[5] != OP_SPLIT;
      assert e[4] == OP_SPLIT ==> Breaks(e, 5) || Breaks(e, 9);
    }
  }

  lemma InitBytes(l: int, min: int, max: int, skip: int)
    requires 0 <= min < MAX_SHORT && (max == -1 || 0 <= max < MAX_SHORT) && 0 <= skip < MAX_SHORT
    ensures Encode(RepeatInit(l, min, max, skip))
      == [OP_REPEAT_INIT, Low8(l), 0, 0, min / 0x100, min % 0x100]
         + (if max == -1 then [0xFF, 0xFF, 0xFF, 0xFF] else [0, 0, max / 0x100, max % 0x100])
         + [0, 0, skip / 0x100, skip % 0x100]
  {
    hide Enc32;
    Short32(min);
    Short32(skip);
    if max == -1 { AllOnes(); } else { Short32(max); }
  }

  lemma AllOnes()
    ensures Enc32(-1) == [0xFF, 0xFF, 0xFF, 0xFF]
  {
    assert Low32(-1) == 0xFFFF_FFFF;
  }

  lemma StepGuarded(l: int, body: int)
    requires 0 <= body < MAX_SHORT
    ensures Guarded(Encode(RepeatStep(l, body)))
  {
    hide Enc32;
    Short32(body);
    var e := Encode(RepeatStep(l, body));
    assert e == [OP_REPEAT_STEP, Low8(l), 0, 0, body / 0x100, body % 0x100];
    assert Breaks(e, 6);
  }

  lemma TableGuarded(i: Instr, k: int, d: int, name: seq<byte>)
    requires (i == TableGet(UNBOUND, k, d, name) || i == TableSet(UNBOUND, k, d, name)) && MildName(name)
    ensures Guarded(Encode(i))
  {
    hide Enc16;
    assert Enc16(UNBOUND) == [0xFF, 0xFF] by { UnboundBytes(); }
    var e := Encode(i);
    assert e == [Opcode(i), 0xFF, 0xFF, Low8(k), Low8(d), |name|] + name;
    assert Breaks(e, 5);
    forall j | 6 <= j <= |e| ensures Breaks(e, j) {
      if j < |e| { assert e[j] == name[j - 6]; }
    }
  }

  lemma UnboundBytes()
    ensures Enc16(UNBOUND) == [0xFF, 0xFF]
  {
  }

  lemma BalGuarded(o: int, c: int)
    requires 0 <= o < MAX_SHORT && 0 <= c < MAX_SHORT
    ensures Guarded(Encode(Bal(o, c)))
  {
    hide Enc32;
    Short32(o);
    Short32(c);
    var e := Encode(Bal(o, c));
    assert e == [OP_BAL, 0, 0, o / 0x100, o % 0x100, 0, 0, c / 0x100, c % 0x100];
    assert Breaks(e, 9);
  }

  lemma NarrowGuarded(i: Instr)
    requires i.Bare? || i.Class? || i.CapStart? || i.CapEnd? || i.Anchor? || i.Label? || i.Goto? || i.EmitCapture?
    ensures |Encode(i)| <= 3 && Guarded(Encode(i))
  {
    var e := Encode(i);
    forall d | 1 <= d < |e| && e[d] == OP_SPLIT
      ensures Breaks(e, d + 1) || Breaks(e, d + 2) || Breaks(e, d + 5) || Breaks(e, d + 6)
    {
      assert d + 1 == |e| || d + 2 == |e|;
    }
  }

  /** An instruction whose bytes cannot mislead the scan. */
  predicate Shaped(e: seq<byte>) {
    e != [] && e[0] != 0 && Guarded(e) && (e[0] == OP_SPLIT ==> |e| == 9)
  }

  lemma MildIsShaped(i: Instr)
    requires Mild(i)
    ensures Shaped(Encode(i))
  {
    hide Encode, Guarded;
    assert Encode(i)[0] == Opcode(i);
    match i
    case Count(op, n) => CountGuarded(op, n);
    case Jmp(t) => JumpGuarded(t, 0);
    case Split(a, b) => JumpGuarded(a, b);
    case Lit(off, text) => LitGuarded(i, off, text);
    case EmitLiteral(off, text) => LitGuarded(i, off, text);
    case Assign(v, r) => AssignGuarded(i, v, r);
    case CallFn(v, r) => AssignGuarded(i, v, r);
    case RepeatInit(l, min, max, skip) => InitGuarded(l, min, max, skip);
    case RepeatStep(l, body) => StepGuarded(l, body);
    case TableGet(_, k, d, name) => TableGuarded(i, k, d, name);
    case TableSet(_, k, d, name) => TableGuarded(i, k, d, name);
    case Bal(o, c) => BalGuarded(o, c);
    case _ => NarrowGuarded(i);
  }

  /** A non-zero byte high in either operand makes the target lie outside short code. */
  lemma NotFusable(code: seq<byte>, p: nat, j: nat)
    requires |code| <= MAX_SHORT && p + 9 <= |code| && j in {1, 2, 5, 6} && code[p + j] != 0
    ensures FusableAt(code, p).None?
  {
    hide ParseArmA, ParseArmB;
    WideOperand(code, if j <= 2 then p + 1 else p + 5);
  }

  lemma WideOperand(code: seq<byte>, q: nat)
    requires q + 4 <= |code| && (code[q] != 0 || code[q + 1] != 0)
    ensures U32At(code, q) >= MAX_SHORT
  {
    var hi: int, lo: int := code[q], code[q + 1];
    assert hi * 0x100 + lo >= 1;
    assert U16At(code, q) >= 1;
  }

  // ----- The scan -----

  ghost predicate Listing(cs: seq<seq<byte>>) {
    && cs != []
    && (forall k :: 0 <= k < |cs| - 1 ==> Shaped(cs[k]))
    && cs[|cs| - 1] == [OP_ACCEPT]
    && |Flatten(cs)| <= MAX_SHORT
  }

  /** Instructions below `hi` are untouched, and no instruction start has become zero. */
  ghost predicate Kept(code: seq<byte>, cs: seq<seq<byte>>, hi: nat) {
    && |code| == |Flatten(cs)|
    && (forall k :: 0 <= k < |cs| && Starts(cs, 0)[k] < hi ==> At(code, Starts(cs, 0)[k], cs[k]))
    && (forall k :: 0 <= k < |cs| - 1 ==> Starts(cs, 0)[k] < |code| && code[Starts(cs, 0)[k]] != 0)
  }

  /** Chunk `k` ends where the next one starts, or at the end. */
  lemma {:induction false} StartsChain(cs: seq<seq<byte>>, base: nat, k: nat)
    requires k < |cs|
    ensures var end := Starts(cs, base)[k] + |cs[k]|;
      end == if k + 1 < |cs| then Starts(cs, base)[k + 1] else base + |Flatten(cs)|
    decreases k
  {
    if k > 0 {
      StartsChain(cs[1..], base + |cs[0]|, k - 1);
    } else if |cs| > 1 {
      assert Starts(cs, base)[1] == Starts(cs[1..], base + |cs[0]|)[0];
    } else {
      assert cs[1..] == [];
    }
  }

  lemma {:induction false} StartsOrder(cs: seq<seq<byte>>, base: nat, j: nat, k: nat)
    requires j < k < |cs|
    ensures Starts(cs, base)[j] + |cs[j]| <= Starts(cs, base)[k]
    decreases k - j
  {
    StartsChain(cs, base, j);
    if j + 1 < k {
      StartsOrder(cs, base, j + 1, k);
    }
  }

  /** A position belongs to exactly one chunk. */
  lemma {:induction false} ChunkOf(cs: seq<seq<byte>>, base: nat, p: nat) returns (k: nat)
    requires base <= p < base + |Flatten(cs)|
    ensures k < |cs| && Starts(cs, base)[k] <= p < Starts(cs, base)[k] + |cs[k]|
    decreases |cs|
  {
    if p < base + |cs[0]| {
      k := 0;
    } else {
      var j := ChunkOf(cs[1..], base + |cs[0]|, p);
      k := j + 1;
    }
  }

  /** Inside an instruction, a byte that could pass for a SPLIT has a non-zero byte high in what would
      be its operands. */
  lemma SplitIsGuarded(code: seq<byte>, cs: seq<seq<byte>>, k: nat, p: nat) returns (j: nat)
    requires Listing(cs) && k < |cs| && Starts(cs, 0)[k] < p < Starts(cs, 0)[k] + |cs[k]|
    requires Kept(code, cs, p + 1) && p + 9 <= |code| && code[p] == OP_SPLIT
    ensures j in {1, 2, 5, 6} && code[p + j] != 0
  {
    hide Starts, Kept, Listing, Shaped, Guarded, At;
    var q, e := Starts(cs, 0)[k], cs[k];
    InnerChunk(code, cs, k, p);
    AtByte(code, q, e, p - q);
    j := GuardedByte(e, p - q);
    if p - q + j < |e| {
      AtByte(code, q, e, p - q + j);
    } else {
      NextIsNotZero(code, cs, k, p);
    }
  }

  lemma InnerChunk(code: seq<byte>, cs: seq<seq<byte>>, k: nat, p: nat)
    requires Listing(cs) && k < |cs| && Starts(cs, 0)[k] < p < Starts(cs, 0)[k] + |cs[k]| && Kept(code, cs, p + 1)
    ensures k < |cs| - 1 && At(code, Starts(cs, 0)[k], cs[k]) && Guarded(cs[k])
    ensures Starts(cs, 0)[k + 1] == Starts(cs, 0)[k] + |cs[k]|
  {
    hide Starts, At, Guarded;
    StartsChain(cs, 0, k);
    assert |cs[|cs| - 1]| == 1;
  }

  lemma GuardedByte(e: seq<byte>, d: nat) returns (j: nat)
    requires Guarded(e) && 1 <= d < |e| && e[d] == OP_SPLIT
    ensures j in {1, 2, 5, 6} && Breaks(e, d + j)
  {
    j := if Breaks(e, d + 1) then 1 else if Breaks(e, d + 2) then 2 else if Breaks(e, d + 5) then 5 else 6;
  }

  /** A position inside an instruction is never rewritten. */
  lemma InsideIsQuiet(code: seq<byte>, cs: seq<seq<byte>>, k: nat, p: nat)
    requires Listing(cs) && k < |cs| && Starts(cs, 0)[k] < p < Starts(cs, 0)[k] + |cs[k]|
    requires Kept(code, cs, p + 1)
    ensures FusableAt(code, p).None?
  {
    hide FusableAt, Listing, Starts;
    KeptSize(code, cs, p + 1);
    OnlySplitsFuse(code, p);
    if p + 9 <= |code| {
      if code[p] == OP_SPLIT {
        var j := SplitIsGuarded(code, cs, k, p);
        NotFusable(code, p, j);
      }
    }
  }

  lemma KeptSize(code: seq<byte>, cs: seq<seq<byte>>, hi: nat)
    requires Listing(cs) && Kept(code, cs, hi)
    ensures |code| <= MAX_SHORT
  {
  }

  lemma OnlySplitsFuse(code: seq<byte>, p: nat)
    ensures FusableAt(code, p).Some? ==> p + 9 <= |code| && code[p] == OP_SPLIT
  {
    hide ParseArmA, ParseArmB;
  }

  lemma NextIsNotZero(code: seq<byte>, cs: seq<seq<byte>>, k: nat, p: nat)
    requires Listing(cs) && k < |cs| - 1 && Kept(code, cs, p + 1) && Starts(cs, 0)[k] < p && p + 9 <= |code|
    requires Starts(cs, 0)[k + 1] < p + 8
    ensures code[Starts(cs, 0)[k + 1]] != 0
  {
    StartsChain(cs, 0, k + 1);
  }

  lemma RewrittenShape(code: seq<byte>, pos: nat, id: nat, merge: nat)
    requires pos + 9 <= |code| && merge <= |code|
    ensures var r := Rewritten(code, pos, id, merge);
      && r[..pos] == code[..pos] && r[pos] == OP_ANY
      && forall p :: pos + 3 <= p < |r| ==> r[p] == code[p] || r[p] == OP_NOP
  {
    hide Enc16;
  }

  /** Rewriting at a SPLIT keeps the instructions before it, and every start non-zero. */
  lemma VisitKeeps(m: Image, cs: seq<seq<byte>>, k: nat)
    requires Canonical(m.entries) && Listing(cs) && k < |cs|
    requires Kept(m.code, cs, Starts(cs, 0)[k] + 1)
    ensures Kept(Visit(m, Starts(cs, 0)[k]).code, cs, Starts(cs, 0)[k])
  {
    hide PairClass, Canonical, FusableAt, Register, Listing, Rewritten, Kept;
    var q := Starts(cs, 0)[k];
    KeptLess(m.code, cs, q);
    match FusableAt(m.code, q)
    case None =>
    case Some(p) =>
      var id := Register(m.entries, PairClass(m.entries, p.left, p.right)).1;
      SplitIsNine(m.code, cs, k);
      RewrittenShape(m.code, q, id, p.merge);
      RewriteKeeps(m.code, Rewritten(m.code, q, id, p.merge), cs, k);
  }

  lemma KeptLess(code: seq<byte>, cs: seq<seq<byte>>, q: nat)
    requires Kept(code, cs, q + 1)
    ensures Kept(code, cs, q)
  {
  }

  lemma RewriteKeeps(before: seq<byte>, after: seq<byte>, cs: seq<seq<byte>>, k: nat)
    requires k < |cs| && |cs[k]| == 9 && Kept(before, cs, Starts(cs, 0)[k])
    requires var q := Starts(cs, 0)[k];
      && q < |after| == |before| && after[..q] == before[..q] && after[q] == OP_ANY
      && forall p :: q + 3 <= p < |after| ==> after[p] == before[p] || after[p] == OP_NOP
    ensures Kept(after, cs, Starts(cs, 0)[k])
  {
    hide At;
    var ps := Starts(cs, 0);
    var q := ps[k];
    forall j | 0 <= j < |cs| && ps[j] < q ensures At(after, ps[j], cs[j]) {
      if j > k { StartsOrder(cs, 0, k, j); }
      StartsOrder(cs, 0, j, k);
      SameAt(before, after, ps[j], cs[j], q);
    }
    forall j | 0 <= j < |cs| - 1 ensures after[ps[j]] != 0 {
      if j > k { StartsOrder(cs, 0, k, j); }
      if j < k {
        StartsOrder(cs, 0, j, k);
        assert ps[j] < q ==> after[..q][ps[j]] == before[..q][ps[j]];
      }
    }
  }

  lemma SameAt(before: seq<byte>, after: seq<byte>, p: nat, part: seq<byte>, n: nat)
    requires At(before, p, part) && p + |part| <= n <= |before| && n <= |after| && after[..n] == before[..n]
    ensures At(after, p, part)
  {
    assert after[p..p + |part|] == after[..n][p..p + |part|];
    assert before[p..p + |part|] == before[..n][p..p + |part|];
  }

  lemma SplitIsNine(code: seq<byte>, cs: seq<seq<byte>>, k: nat)
    requires Listing(cs) && k < |cs| && Kept(code, cs, Starts(cs, 0)[k] + 1)
    requires FusableAt(code, Starts(cs, 0)[k]).Some?
    ensures |cs[k]| == 9
  {
    AtByte(code, Starts(cs, 0)[k], cs[k], 0);
  }

  /** Over short code of mild instructions the scan rewrites only at instruction starts. */
  lemma {:induction false} OnlyStartsFuse(m: Image, cs: seq<seq<byte>>, hi: nat)
    requires Canonical(m.entries) && Listing(cs) && hi <= |m.code| && Kept(m.code, cs, hi)
    ensures OnlyAt(m, hi, 0, Starts(cs, 0))
    decreases hi
  {
    hide Visit, FusableAt, Canonical, Listing, Guarded;
    if hi > 0 {
      var p := hi - 1;
      var k := ChunkOf(cs, 0, p);
      var q := Starts(cs, 0)[k];
      if q == p {
        assert p in Starts(cs, 0);
        VisitKeeps(m, cs, k);
      } else {
        InsideIsQuiet(m.code, cs, k, p);
        QuietVisit(m, p);
      }
      OnlyStartsFuse(Visit(m, p), cs, p);
    }
  }

  lemma QuietVisit(m: Image, p: nat)
    requires Canonical(m.entries) && FusableAt(m.code, p).None?
    ensures Visit(m, p) == m
  {
  }

  // ----- Whole trees -----

  predicate MildTree(t: Tree) {
    match t
    case Leaf(i) => Mild(i) && Floating(i)
    case TextLeaf(text) => 0 !in text
    case EmitLeaf(text) => 0 !in text
    case Sequence(ps) => forall k :: 0 <= k < |ps| ==> MildTree(ps[k])
    case Either(l, r) => MildTree(l) && MildTree(r)
    case Loop(id, min, max, b) => HarmlessBounds(id, min, max) && MildTree(b)
    case Fused(_, _) => false
  }

  predicate AllMild(prog: seq<Instr>) { forall k :: 0 <= k < |prog| ==> Mild(prog[k]) }

  lemma {:induction false} LayIsMild(t: Tree, base: nat)
    requires MildTree(t) && base + Weight(t) < MAX_SHORT
    ensures AllMild(Lay(t, base))
    decreases t, 0
  {
    hide Encode, AllMild;
    match t
    case Leaf(i) => MildOne(i);
    case TextLeaf(text) => MildOne(Lit(base + 9, text));
    case EmitLeaf(text) => MildOne(EmitLiteral(base + 9, text));
    case Loop(id, min, max, b) =>
      LayIsMild(b, base + 14);
      MildOne(RepeatInit(id, min, max, base + 20 + Weight(b)));
      MildOne(RepeatStep(id, base + 14));
      MildThree([RepeatInit(id, min, max, base + 20 + Weight(b))], Lay(b, base + 14), [RepeatStep(id, base + 14)]);
    case Sequence(ps) => LayAllIsMild(ps, base);
    case Either(l, r) =>
      var jmp, right := base + 9 + Weight(l), base + 14 + Weight(l);
      var end := right + Weight(r);
      LayIsMild(l, base + 9);
      LayIsMild(r, right);
      MildOne(Split(base + 9, right));
      MildOne(Jmp(end));
      MildFour([Split(base + 9, right)], Lay(l, base + 9), [Jmp(end)], Lay(r, right));
  }

  lemma MildOne(i: Instr)
    requires Mild(i)
    ensures AllMild([i])
  {
  }

  lemma MildThree(a: seq<Instr>, b: seq<Instr>, c: seq<Instr>)
    requires AllMild(a) && AllMild(b) && AllMild(c)
    ensures AllMild(a + b + c)
  {
    hide Mild;
  }

  lemma MildFour(a: seq<Instr>, b: seq<Instr>, c: seq<Instr>, d: seq<Instr>)
    requires AllMild(a) && AllMild(b) && AllMild(c) && AllMild(d)
    ensures AllMild(a + b + c + d)
  {
    hide Mild;
  }

  lemma {:induction false} LayAllIsMild(ps: seq<Tree>, base: nat)
    requires (forall k :: 0 <= k < |ps| ==> MildTree(ps[k])) && base + WeightAll(ps) < MAX_SHORT
    ensures AllMild(LayAll(ps, base))
    decreases ps, 0
  {
    hide Encode, Lay, MildTree, Mild;
    if ps != [] {
      LayIsMild(ps[0], base);
      LayAllIsMild(ps[1..], base + Weight(ps[0]));
    }
  }

  /** The body of a compiled tree: its code and the final ACCEPT. */
  function BodyOf(t: Tree): seq<byte> { Emitted(t, 0) + [OP_ACCEPT] }

  /** Positions the scan may rewrite in that body. */
  function BodyStarts(t: Tree): seq<nat> { TreeStarts(t, 0) + [Weight(t)] }

  lemma BodyListing(t: Tree)
    requires MildTree(t) && Weight(t) < MAX_SHORT
    ensures var cs := Chunks(Lay(t, 0)) + [[OP_ACCEPT]];
      Listing(cs) && Flatten(cs) == BodyOf(t) && Starts(cs, 0) == BodyStarts(t)
  {
    hide Encode, Mild, Shaped, EncodeAll, MildTree, Weight, BodyStarts, Starts;
    var prog := Lay(t, 0);
    var cs := Chunks(prog);
    LayIsMild(t, 0);
    forall k | 0 <= k < |prog| ensures Shaped(cs[k]) { MildIsShaped(prog[k]); }
    EmittedOf(t, 0);
    assert Flatten(cs) == Emitted(t, 0) by { FlattenIsCode(prog); }
    FlattenConcat(cs, [[OP_ACCEPT]]);
    FlattenOne([OP_ACCEPT]);
    StartsOfBody(t);
  }

  lemma StartsOfBody(t: Tree)
    ensures Starts(Chunks(Lay(t, 0)) + [[OP_ACCEPT]], 0) == BodyStarts(t)
  {
    hide Encode, EncodeAll, Weight, Flatten;
    var cs := Chunks(Lay(t, 0));
    EmittedOf(t, 0);
    assert Flatten(cs) == Emitted(t, 0) by { FlattenIsCode(Lay(t, 0)); }
    StartsConcat(cs, [[OP_ACCEPT]], 0);
    assert [[OP_ACCEPT]][1..] == [];
  }

  lemma FlattenIsCode(prog: seq<Instr>)
    ensures Flatten(Chunks(prog)) == EncodeAll(prog)
  {
  }

  lemma {:induction false} FreshListingKept(cs: seq<seq<byte>>, code: seq<byte>)
    requires Listing(cs) && code == Flatten(cs)
    ensures Kept(code, cs, |code|)
  {
    hide Guarded;
    assert At(code, 0, Flatten(cs));
    forall k | 0 <= k < |cs| ensures At(code, Starts(cs, 0)[k], cs[k]) { ChunkAt(code, 0, cs, k); }
    forall k | 0 <= k < |cs| - 1
      ensures Starts(cs, 0)[k] < |code| && code[Starts(cs, 0)[k]] != 0
    {
      AtByte(code, Starts(cs, 0)[k], cs[k], 0);
    }
  }

  /** For a tree of mild leaves whose code stays below 64 KiB, the pass rewrites its SPLIT
      instructions and nothing else. */
  lemma FusesOnlySplits(t: Tree, entries: seq<CharClass>)
    requires Canonical(entries) && MildTree(t) && Weight(t) < MAX_SHORT
    ensures OnlyAt(Image(BodyOf(t), entries), |BodyOf(t)|, 0, BodyStarts(t))
  {
    hide Canonical, Listing, Kept, OnlyAt, MildTree;
    var cs := Chunks(Lay(t, 0)) + [[OP_ACCEPT]];
    BodyListing(t);
    FreshListingKept(cs, BodyOf(t));
    OnlyStartsFuse(Image(BodyOf(t), entries), cs, |BodyOf(t)|);
  }
}
