/** The static minimum is no mere bound: over every compiled body it is the number that a recursion over the tree gives,
    and where only literals, LEN and single-character classes consume, some match has just that size. */
module MinAttained {
  import opened Wrappers
  import opened Bytes
  import opened Ranges
  import opened CharClasses
  import opened Bytecode
  import opened Semantics
  import opened Machine
  import opened Outcomes
  import opened CodeTree
  import opened CodeMeaning
  import opened FusionStarts
  import opened Trailer
  import opened EndToEnd
  import opened Walker
  import opened MinLength
  import opened TreeWords

  // ----- What the walk counts -----

  /** Result of the walk from some place on: so many bytes more, nothing at all, or a branch that always fails. */
  datatype Tally = Adds(n: nat) | Resets | Fails

  function Total(t: Tally, len: nat): nat {
    match t
    case Adds(n) => len + n
    case Resets => 0
    case Fails => DEAD
  }

  function More(n: nat, t: Tally): Tally { if t.Adds? then Adds(n + t.n) else t }

  /** The cheaper of two branches; one that always fails does not count, and two of them take nothing. */
  function Cheaper(a: Tally, b: Tally): Tally {
    if a.Fails? && b.Fails? then Adds(0)
    else if a.Fails? then Adds(Total(b, 0))
    else if b.Fails? then Adds(Total(a, 0))
    else Adds(Min(Total(a, 0), Total(b, 0)))
  }

  /** The bytes that an operation takes at least, if the match goes on behind it. */
  function LeafLeast(i: Instr): Option<nat> {
    match i
    case Class(op, _) => Some(if op.Break? || op.BreakX? then 0 else 1)
    case Count(op, n) => Some(if op.Len? then Low32(n) else 0)
    case Bare(op) => if op.Fence? || op.Nop? then Some(0) else None
    case CapStart(_) => Some(0)
    case CapEnd(_) => Some(0)
    case Assign(_, _) => Some(0)
    case Anchor(_) => Some(0)
    case _ => None
  }

  /** What is counted where the walk ends. */
  function LeafEnd(i: Instr): Tally {
    match i
    case Bare(op) => if op.Fail? then Fails else Adds(0)
    case Bal(_, _) => Adds(2)
    case _ => Resets
  }

  /** What is counted for a tree with `rest` behind it. */
  function TreeTally(t: Tree, rest: Tally): Tally
    decreases t, 0
  {
    match t
    case Leaf(i) => if LeafLeast(i).Some? then More(LeafLeast(i).value, rest) else LeafEnd(i)
    case TextLeaf(text) => More(|text|, rest)
    case Sequence(ps) => RowTally(ps, rest)
    case Either(l, r) => Cheaper(TreeTally(l, rest), TreeTally(r, rest))
    case Fused(_, _) => More(1, rest)
    case _ => Resets
  }

  function RowTally(ps: seq<Tree>, rest: Tally): Tally
    decreases ps, 0
  {
    if ps == [] then rest else TreeTally(ps[0], RowTally(ps[1..], rest))
  }

  /** The most that is counted along any way. */
  function Most(t: Tree): nat
    decreases t, 0
  {
    match t
    case Leaf(i) => if LeafLeast(i).Some? then LeafLeast(i).value else 2
    case TextLeaf(text) => |text|
    case Sequence(ps) => MostAll(ps)
    case Either(l, r) => Max(Most(l), Most(r))
    case Fused(_, _) => 1
    case _ => 0
  }

  function MostAll(ps: seq<Tree>): nat
    decreases ps, 0
  {
    if ps == [] then 0 else Most(ps[0]) + MostAll(ps[1..])
  }

  /** Alternations that a run meets at most. */
  function Forks(t: Tree): nat
    decreases t, 0
  {
    match t
    case Sequence(ps) => ForksAll(ps)
    case Either(l, r) => 1 + Max(Forks(l), Forks(r))
    case _ => 0
  }

  function ForksAll(ps: seq<Tree>): nat
    decreases ps, 0
  {
    if ps == [] then 0 else Forks(ps[0]) + ForksAll(ps[1..])
  }

  predicate UpTo(t: Tally, most: nat) { t.Adds? ==> t.n <= most }

  lemma {:induction false} TreeUpTo(t: Tree, rest: Tally, most: nat)
    requires UpTo(rest, most)
    ensures UpTo(TreeTally(t, rest), Most(t) + most)
    decreases t, 0
  {
    hide LeafLeast;
    match t
    case Sequence(ps) => RowUpTo(ps, rest, most);
    case Either(l, r) =>
      TreeUpTo(l, rest, most);
      TreeUpTo(r, rest, most);
    case _ =>
  }

  lemma {:induction false} RowUpTo(ps: seq<Tree>, rest: Tally, most: nat)
    requires UpTo(rest, most)
    ensures UpTo(RowTally(ps, rest), MostAll(ps) + most)
    decreases ps, 0
  {
    hide TreeTally, Most;
    if ps != [] {
      RowUpTo(ps[1..], rest, most);
      TreeUpTo(ps[0], RowTally(ps[1..], rest), MostAll(ps[1..]) + most);
    }
  }

  /** From `ip` on the walk counts this, with room for `most` bytes and `forks` branches. */
  ghost predicate Counts(code: seq<byte>, ip: nat, t: Tally, most: nat, forks: nat) {
    forall depth: nat, len: nat, steps: nat ::
      depth + forks <= MAX_DEPTH && len + most < DEAD && steps <= ip && steps <= StepCap(code) ==>
        WalkMin(code, ip, depth, len, steps) == Total(t, len)
  }

  lemma Passes(code: seq<byte>, ip: nat, more: nat, next: nat, t: Tally, most: nat, forks: nat)
    requires ip < |code| && next > ip
    requires forall len: nat :: TurnAt(code, ip, len) == Onward(more, next)
    requires Counts(code, next, t, most, forks)
    ensures Counts(code, ip, More(more, t), more + most, forks)
  {
    hide TurnAt, Low32;
    forall depth: nat, len: nat, steps: nat
      | depth + forks <= MAX_DEPTH && len + (more + most) < DEAD && steps <= ip && steps <= StepCap(code)
      ensures WalkMin(code, ip, depth, len, steps) == Total(More(more, t), len)
    {
      assert TurnAt(code, ip, len) == Onward(more, next);
      Fits32(len + more);
      assert WalkMin(code, next, depth, len + more, steps + 1) == Total(t, len + more);
    }
  }

  lemma Ends(code: seq<byte>, ip: nat, t: Tally, most: nat, forks: nat)
    requires ip < |code| && UpTo(t, most)
    requires forall len: nat :: len + most < DEAD ==> TurnAt(code, ip, len) == Done(Total(t, len))
    ensures Counts(code, ip, t, most, forks)
  {
    hide TurnAt, Low32;
    forall depth: nat, len: nat, steps: nat
      | depth + forks <= MAX_DEPTH && len + most < DEAD && steps <= ip && steps <= StepCap(code)
      ensures WalkMin(code, ip, depth, len, steps) == Total(t, len)
    {
      assert TurnAt(code, ip, len) == Done(Total(t, len));
      Fits32(Total(t, len));
    }
  }

  lemma LeafTurns(code: seq<byte>, ip: nat, i: Instr)
    requires Floating(i) && At(code, ip, Encode(i))
    ensures ip < |code|
    ensures LeafLeast(i).Some? ==>
      forall len: nat :: TurnAt(code, ip, len) == Onward(LeafLeast(i).value, ip + |Encode(i)|)
    ensures LeafLeast(i).None? ==>
      UpTo(LeafEnd(i), 2) && forall len: nat :: len + 2 < DEAD ==> TurnAt(code, ip, len) == Done(Total(LeafEnd(i), len))
  {
    hide TurnAt, LeafLeast, LeafEnd, At, Encode, UpTo, Total;
    LeafPlace(code, ip, i);
    if LeafLeast(i).Some? {
      OnwardTurns(code, ip, i);
    } else {
      EndTurns(code, ip, i);
    }
  }

  lemma LeafPlace(code: seq<byte>, ip: nat, i: Instr)
    requires At(code, ip, Encode(i))
    ensures ip + |Encode(i)| <= |code| && |Encode(i)| == 1 + |Operands(i)|
    ensures code[ip] == Opcode(i) && At(code, ip + 1, Operands(i))
  {
    hide Operands, Opcode;
    AtByte(code, ip, Encode(i), 0);
    AtConcat(code, ip, [Opcode(i)], Operands(i));
  }

  lemma OnwardTurns(code: seq<byte>, ip: nat, i: Instr)
    requires LeafLeast(i).Some? && ip + |Encode(i)| <= |code| && |Encode(i)| == 1 + |Operands(i)|
    requires code[ip] == Opcode(i) && At(code, ip + 1, Operands(i))
    ensures forall len: nat :: TurnAt(code, ip, len) == Onward(LeafLeast(i).value, ip + |Encode(i)|)
  {
    hide Enc16, Enc32, U32At, Low32, At;
    match i
    case Count(_, n) => Decode32(code, ip + 1, n);
    case _ =>
  }

  lemma EndTurns(code: seq<byte>, ip: nat, i: Instr)
    requires LeafLeast(i).None? && Floating(i) && ip < |code| && code[ip] == Opcode(i)
    ensures UpTo(LeafEnd(i), 2)
    ensures forall len: nat :: len + 2 < DEAD ==> TurnAt(code, ip, len) == Done(Total(LeafEnd(i), len))
  {
    match i
    case Bal(_, _) => BalTurns(code, ip);
    case Bare(op) => BareTurns(code, ip, op);
    case _ =>
  }

  lemma BalTurns(code: seq<byte>, ip: nat)
    requires ip < |code| && code[ip] == OP_BAL
    ensures forall len: nat :: len + 2 < DEAD ==> TurnAt(code, ip, len) == Done(len + 2)
  {
    hide Low32;
    forall len: nat | len + 2 < DEAD ensures TurnAt(code, ip, len) == Done(len + 2) {
      Fits32(len + 2);
    }
  }

  lemma BareTurns(code: seq<byte>, ip: nat, op: BareOp)
    requires ip < |code| && code[ip] == BareOpcode(op)
    ensures op.Fence? || op.Nop? ==> forall len: nat :: TurnAt(code, ip, len) == Onward(0, ip + 1)
    ensures !op.Fence? && !op.Nop? ==>
      forall len: nat :: TurnAt(code, ip, len) == Done(if op.Fail? then DEAD else len)
  {
  }

  lemma TextTurns(code: seq<byte>, ip: nat, text: seq<byte>)
    requires At(code, ip, Encode(Lit(ip + 9, text))) && |code| < U32
    ensures ip < |code|
    ensures Weight(TextLeaf(text)) == 9 + |text|
    ensures forall len: nat :: TurnAt(code, ip, len) == Onward(|text|, ip + 9 + |text|)
  {
    hide Enc32, U32At, Low32;
    var i := Lit(ip + 9, text);
    AtByte(code, ip, Encode(i), 0);
    AtConcat(code, ip, [Opcode(i)], Operands(i));
    PayloadLayout(code, ip + 1, ip + 9, text);
    Fits32(|text|);
    Fits32(9 + |text|);
  }

  lemma SplitTurns(code: seq<byte>, base: nat, a: nat, b: nat)
    requires At(code, base, Encode(Split(a, b))) && a < |code| < U32 && b < |code|
    ensures base < |code|
    ensures forall len: nat :: TurnAt(code, base, len) == Branch(a, b)
  {
    hide Enc32, U32At, Low32;
    var op: seq<byte> := [OP_SPLIT];
    assert Encode(Split(a, b)) == op + (Enc32(a) + Enc32(b));
    AtConcat(code, base, op, Enc32(a) + Enc32(b));
    AtConcat(code, base + 1, Enc32(a), Enc32(b));
    AtByte(code, base, op, 0);
    Decode32(code, base + 1, a);
    Decode32(code, base + 5, b);
    Fits32(a);
    Fits32(b);
  }

  lemma JumpTurns(code: seq<byte>, base: nat, t: nat)
    requires At(code, base, Encode(Jmp(t))) && t < |code| < U32
    ensures base < |code|
    ensures forall len: nat :: TurnAt(code, base, len) == Onward(0, t)
  {
    hide Enc32, U32At, Low32;
    AtByte(code, base, Encode(Jmp(t)), 0);
    AtConcat(code, base, [OP_JMP], Enc32(t));
    Decode32(code, base + 1, t);
    Fits32(t);
  }

  /** Output and loops end the walk with nothing. */
  lemma OpaqueTurns(code: seq<byte>, ip: nat)
    requires ip < |code| && code[ip] in {OP_EMIT_LITERAL, OP_REPEAT_INIT}
    ensures forall len: nat :: TurnAt(code, ip, len) == Done(0)
  {
  }

  lemma ForkCounts(code: seq<byte>, ip: nat, x: nat, y: nat, a: Tally, b: Tally, ma: nat, mb: nat, fa: nat, fb: nat)
    requires ip < |code| && forall len: nat :: TurnAt(code, ip, len) == Branch(x, y)
    requires Counts(code, x, a, ma, fa) && Counts(code, y, b, mb, fb) && UpTo(a, ma) && UpTo(b, mb)
    ensures Counts(code, ip, Cheaper(a, b), Max(ma, mb), 1 + Max(fa, fb))
  {
    hide TurnAt, Low32;
    var most, forks := Max(ma, mb), 1 + Max(fa, fb);
    forall depth: nat, len: nat, steps: nat
      | depth + forks <= MAX_DEPTH && len + most < DEAD && steps <= ip && steps <= StepCap(code)
      ensures WalkMin(code, ip, depth, len, steps) == Total(Cheaper(a, b), len)
    {
      assert TurnAt(code, ip, len) == Branch(x, y);
      assert WalkMin(code, x, depth + 1, 0, 0) == Total(a, 0);
      assert WalkMin(code, y, depth + 1, 0, 0) == Total(b, 0);
      Fits32(Total(Cheaper(a, b), len));
    }
  }

  lemma {:induction false} PaddingCounts(code: seq<byte>, p: nat, pad: nat, t: Tally, most: nat, forks: nat)
    requires At(code, p, NopBytes(pad)) && Counts(code, p + pad, t, most, forks)
    ensures Counts(code, p, t, most, forks)
    decreases pad
  {
    hide Counts, TurnAt;
    if pad > 0 {
      assert NopBytes(pad) == [OP_NOP] + NopBytes(pad - 1);
      AtConcat(code, p, [OP_NOP], NopBytes(pad - 1));
      AtByte(code, p, [OP_NOP], 0);
      AtEnds(code, p, [OP_NOP]);
      PaddingCounts(code, p + 1, pad - 1, t, most, forks);
      BareTurns(code, p, BareOp.Nop);
      Passes(code, p, 0, p + 1, t, most, forks);
      assert More(0, t) == t;
    }
  }

  lemma LeafCounts(code: seq<byte>, i: Instr, base: nat, rest: Tally, most: nat, forks: nat)
    requires Floating(i) && At(code, base, Encode(i)) && Counts(code, base + |Encode(i)|, rest, most, forks)
    ensures Counts(code, base, TreeTally(Leaf(i), rest), Most(Leaf(i)) + most, forks)
  {
    hide Encode, At, Counts, TurnAt, LeafLeast, LeafEnd;
    LeafTurns(code, base, i);
    if LeafLeast(i).Some? {
      Passes(code, base, LeafLeast(i).value, base + |Encode(i)|, rest, most, forks);
    } else {
      Ends(code, base, LeafEnd(i), 2 + most, forks);
    }
  }

  /** Output and loops. */
  lemma OpaqueCounts(code: seq<byte>, i: Instr, base: nat, most: nat, forks: nat)
    requires (i.EmitLiteral? || i.RepeatInit?) && At(code, base, Encode(i))
    ensures Counts(code, base, Resets, most, forks)
  {
    hide Encode, At, Counts, TurnAt;
    OpcodeAt(code, base, i);
    OpaqueTurns(code, base);
    Ends(code, base, Resets, most, forks);
  }

  lemma FusedCounts(code: seq<byte>, id: nat, pad: nat, base: nat, rest: Tally, most: nat, forks: nat)
    requires At(code, base, Encode(Class(Any, id)) + NopBytes(pad)) && Counts(code, base + 3 + pad, rest, most, forks)
    ensures Counts(code, base, More(1, rest), 1 + most, forks)
  {
    hide Encode, At, Counts, TurnAt, LeafLeast;
    var any := Class(Any, id);
    AtConcat(code, base, Encode(any), NopBytes(pad));
    LeafTurns(code, base, any);
    FusedSize(id, pad);
    PaddingCounts(code, base + 3, pad, rest, most, forks);
    Passes(code, base, 1, base + 3, rest, most, forks);
  }

  lemma LoopOpens(code: seq<byte>, n: nat, min: int, max: int, b: Tree, base: nat)
    requires At(code, base, Emitted(Loop(n, min, max, b), base))
    ensures At(code, base, Encode(RepeatInit(n, min, max, base + Weight(Loop(n, min, max, b)))))
  {
    hide Encode, Emitted, At, Weight;
    var init := RepeatInit(n, min, max, base + Weight(Loop(n, min, max, b)));
    EmittedOf(Loop(n, min, max, b), base);
    AtConcat(code, base, Encode(init) + Emitted(b, base + 14), Encode(RepeatStep(n, base + 14)));
    AtConcat(code, base, Encode(init), Emitted(b, base + 14));
  }

  lemma {:induction false} TreeCounts(code: seq<byte>, t: Tree, base: nat, rest: Tally, most: nat, forks: nat)
    requires Walkable(t) && At(code, base, Emitted(t, base)) && base + Weight(t) < |code| < U32
    requires Counts(code, base + Weight(t), rest, most, forks) && UpTo(rest, most)
    ensures Counts(code, base, TreeTally(t, rest), Most(t) + most, Forks(t) + forks)
    decreases t, 0
  {
    hide Encode, Emitted, At, Weight, Counts, TurnAt, LeafLeast, LeafEnd, Cheaper, UpTo;
    EmittedOf(t, base);
    match t
    case Leaf(i) => LeafCounts(code, i, base, rest, most, forks);
    case TextLeaf(text) =>
      TextTurns(code, base, text);
      Passes(code, base, |text|, base + 9 + |text|, rest, most, forks);
    case Sequence(ps) =>
      SequenceWeight(ps);
      RowCounts(code, ps, base, rest, most, forks);
    case Either(l, r) =>
      var jmp, right := base + 9 + Weight(l), base + 14 + Weight(l);
      var end := right + Weight(r);
      SplitLayout(code, l, r, base);
      EitherWeight(l, r);
      JumpCounts(code, jmp, end, rest, most, forks);
      TreeCounts(code, l, base + 9, rest, most, forks);
      TreeCounts(code, r, right, rest, most, forks);
      TreeUpTo(l, rest, most);
      TreeUpTo(r, rest, most);
      SplitTurns(code, base, base + 9, right);
      ForkCounts(code, base, base + 9, right, TreeTally(l, rest), TreeTally(r, rest), Most(l) + most, Most(r) + most,
                 Forks(l) + forks, Forks(r) + forks);
    case EmitLeaf(text) => OpaqueCounts(code, EmitLiteral(base + 9, text), base, most, forks);
    case Loop(n, min, max, b) =>
      LoopOpens(code, n, min, max, b, base);
      OpaqueCounts(code, RepeatInit(n, min, max, base + Weight(t)), base, most, forks);
    case Fused(id, pad) =>
      FusedSize(id, pad);
      FusedCounts(code, id, pad, base, rest, most, forks);
  }

  lemma JumpCounts(code: seq<byte>, base: nat, t: nat, rest: Tally, most: nat, forks: nat)
    requires At(code, base, Encode(Jmp(t))) && base < t < |code| < U32 && Counts(code, t, rest, most, forks)
    ensures Counts(code, base, rest, most, forks)
  {
    hide Encode, At, Counts, TurnAt;
    JumpTurns(code, base, t);
    Passes(code, base, 0, t, rest, most, forks);
    assert More(0, rest) == rest;
  }

  lemma OpcodeAt(code: seq<byte>, p: nat, i: Instr)
    requires At(code, p, Encode(i))
    ensures p < |code| && code[p] == Opcode(i)
  {
    AtByte(code, p, Encode(i), 0);
  }

  lemma FusedSize(id: nat, pad: nat)
    ensures Weight(Fused(id, pad)) == 3 + pad && |Encode(Class(Any, id))| == 3
    ensures LeafLeast(Class(Any, id)) == Some(1)
  {
  }

  lemma {:induction false} RowCounts(code: seq<byte>, ps: seq<Tree>, base: nat, rest: Tally, most: nat, forks: nat)
    requires forall k :: 0 <= k < |ps| ==> Walkable(ps[k])
    requires At(code, base, EmittedAll(ps, base)) && base + WeightAll(ps) < |code| < U32
    requires Counts(code, base + WeightAll(ps), rest, most, forks) && UpTo(rest, most)
    ensures Counts(code, base, RowTally(ps, rest), MostAll(ps) + most, ForksAll(ps) + forks)
    decreases ps, 0
  {
    hide Emitted, EmittedAll, At, Weight, Counts, TreeTally, Most, Forks, Walkable;
    if ps != [] {
      var mid := base + Weight(ps[0]);
      EmittedOfAll(ps, base);
      EmittedWidth(ps[0], base);
      AtConcat(code, base, Emitted(ps[0], base), EmittedAll(ps[1..], mid));
      RowCounts(code, ps[1..], mid, rest, most, forks);
      RowUpTo(ps[1..], rest, most);
      TreeCounts(code, ps[0], base, RowTally(ps[1..], rest), MostAll(ps[1..]) + most, ForksAll(ps[1..]) + forks);
    }
  }

  /** The minimum derived from the code of a tree is what the tree tallies. */
  lemma MinimumIsTally(image: seq<byte>, t: Tree)
    requires Walkable(t) && At(image, 0, BodyOf(t)) && |image| < U32 && Most(t) < DEAD && Forks(t) <= MAX_DEPTH
    ensures MinLen(image, 0, 0) == Total(TreeTally(t, Adds(0)), 0)
  {
    hide Emitted, Weight, TreeTally, Most, Forks, Walkable, WalkMin, TurnAt;
    var w := Weight(t);
    EmittedWidth(t, 0);
    AtConcat(image, 0, Emitted(t, 0), [OP_ACCEPT]);
    AtByte(image, w, [OP_ACCEPT], 0);
    BareTurns(image, w, BareOp.Accept);
    Ends(image, w, Adds(0), 0, 0);
    TreeCounts(image, t, 0, Adds(0), 0, 0);
    assert WalkMin(image, 0, 0, 0, 0) == Total(TreeTally(t, Adds(0)), 0);
  }

  // ----- What a match takes at least -----

  /** The bytes that a match takes along the cheapest way. */
  function Least(t: Tree): nat
    requires Countable(t)
    decreases t, 0
  {
    match t
    case Leaf(i) => LeafLeast(i).value
    case TextLeaf(text) => |text|
    case Sequence(ps) => LeastAll(ps)
    case Either(l, r) => Min(Least(l), Least(r))
  }

  function LeastAll(ps: seq<Tree>): nat
    requires forall k :: 0 <= k < |ps| ==> Countable(ps[k])
    decreases ps, 0
  {
    if ps == [] then 0 else Least(ps[0]) + LeastAll(ps[1..])
  }

  lemma {:induction false} TallyIsLeast(t: Tree, rest: nat)
    requires Countable(t)
    ensures TreeTally(t, Adds(rest)) == Adds(Least(t) + rest)
    decreases t, 0
  {
    hide LeafLeast;
    match t
    case Leaf(i) => assert LeafLeast(i).Some? by { CountableGoesOn(i); }
    case TextLeaf(_) =>
    case Sequence(ps) => RowTallyIsLeast(ps, rest);
    case Either(l, r) =>
      TallyIsLeast(l, rest);
      TallyIsLeast(r, rest);
  }

  lemma CountableGoesOn(i: Instr)
    requires CountableLeaf(i)
    ensures LeafLeast(i).Some?
  {
  }

  lemma {:induction false} RowTallyIsLeast(ps: seq<Tree>, rest: nat)
    requires forall k :: 0 <= k < |ps| ==> Countable(ps[k])
    ensures RowTally(ps, Adds(rest)) == Adds(LeastAll(ps) + rest)
    decreases ps, 0
  {
    hide TreeTally, Least, Countable;
    if ps != [] {
      RowTallyIsLeast(ps[1..], rest);
      TallyIsLeast(ps[0], LeastAll(ps[1..]) + rest);
    }
  }

  // ----- A match of that size -----

  /** Only literals, LEN and single-character classes decide where a match goes on, and every class has a character that
      passes it. */
  ghost predicate Satisfiable(t: Tree, classes: seq<CharClass>)
    requires Countable(t)
  {
    match t
    case Leaf(Class(op, id)) => exists b: byte :: TakesByte(op, ClassAt(classes, Low16(id)), b)
    case Leaf(Count(op, _)) => op.Len?
    case Leaf(Anchor(_)) => false
    case Sequence(ps) => forall k :: 0 <= k < |ps| ==> Satisfiable(ps[k], classes)
    case Either(l, r) => Satisfiable(l, classes) && Satisfiable(r, classes)
    case _ => true
  }

  function Letters(n: nat): (s: seq<byte>)
    ensures |s| == n && AllLetters(s)
  {
    seq(n, _ => 0x61)
  }

  ghost function Shortest(t: Tree, classes: seq<CharClass>): (w: seq<byte>)
    requires Countable(t) && Satisfiable(t, classes)
    ensures |w| == Least(t) && Word(t, classes, w)
    decreases t, 0
  {
    match t
    case Leaf(i) =>
      (match i
       case Class(op, id) =>
         var b: byte :| TakesByte(op, ClassAt(classes, Low16(id)), b);
         [b]
       case Count(_, n) => Letters(n)
       case _ => [])
    case TextLeaf(text) => text
    case Sequence(ps) => ShortestAll(ps, classes)
    case Either(l, r) => if Least(l) <= Least(r) then Shortest(l, classes) else Shortest(r, classes)
  }

  ghost function ShortestAll(ps: seq<Tree>, classes: seq<CharClass>): (w: seq<byte>)
    requires forall k :: 0 <= k < |ps| ==> Countable(ps[k]) && Satisfiable(ps[k], classes)
    ensures |w| == LeastAll(ps) && RowWord(ps, classes, w)
    decreases ps, 0
  {
    if ps == [] then []
    else
      var v, w := Shortest(ps[0], classes), ShortestAll(ps[1..], classes);
      RowWordJoins(ps, classes, v, w);
      v + w
  }

  // ----- No match consumes less -----

  /** Every outcome stands inside the subject, `low` or further. */
  predicate Within(o: Outcome, s: seq<byte>, low: nat) {
    forall k :: 0 <= k < |o.states| ==> low <= o.states[k].pos <= |s|
  }

  lemma {:induction false} RetriesConsume(s: seq<byte>, cls: Option<seq<Range>>, st: State, low: nat)
    requires low <= st.pos <= |s|
    ensures Within(Outcome(BreakXStates(s, cls, st), Exhausted), s, low)
    decreases |s| - st.pos
  {
    hide RunEnd, PastDelimiter;
    var end := RunEnd(cls, s, st.pos, false);
    match PastDelimiter(s, end)
    case None =>
    case Some(p) => RetriesConsume(s, cls, st.(pos := p), low);
  }

  lemma LeafConsumes(i: Instr, classes: seq<CharClass>, s: seq<byte>, st: State)
    requires CountableLeaf(i) && st.pos <= |s| && Plain(Leaf(i))
    ensures Within(Run(Leaf(i), classes, s, st), s, st.pos + LeafLeast(i).value)
  {
    hide PrimStep, BreakXStates;
    match i
    case Class(op, id) =>
      if op.BreakX? {
        RetriesConsume(s, ClassAt(classes, Low16(id)), st, st.pos);
      } else {
        PrimLands(s, InClass(op, ClassAt(classes, Low16(id))), st);
      }
    case Count(op, n) =>
      Fits32(n);
      PrimLands(s, Counted(op, n), st);
    case CapStart(r) => PrimLands(s, Prim.StartCap(Low8(r)), st);
    case CapEnd(r) => PrimLands(s, Prim.EndCap(Low8(r)), st);
    case Assign(v, r) => PrimLands(s, Prim.StoreVar(Low16(v), Low8(r)), st);
    case Anchor(k) => PrimLands(s, Prim.AtAnchor(Low8(k)), st);
  }

  lemma PrimLands(s: seq<byte>, p: Prim, st: State)
    requires st.pos <= |s|
    ensures PrimStep(s, p, st).Some? ==>
      var d := PrimStep(s, p, st).value.pos;
      && st.pos <= d <= |s|
      && (p.Text? ==> d == st.pos + |p.text|)
      && (p.InClass? && (p.op.Any? || p.op.NotAny? || p.op.Span?) ==> d >= st.pos + 1)
      && (p.Counted? && p.nop.Len? ==> d >= st.pos + p.n)
  {
    hide PrimStep;
    if PrimStep(s, p, st).Some? { PrimConsumes(s, p, st); }
  }

  lemma {:induction false} TreeConsumes(t: Tree, classes: seq<CharClass>, s: seq<byte>, st: State)
    requires Countable(t) && Plain(t) && st.pos <= |s|
    ensures Within(Run(t, classes, s, st), s, st.pos + Least(t))
    decreases t, 0, 0
  {
    hide Acts, ActOutcome, PrimStep, Within, LeafLeast;
    match t
    case Leaf(i) => LeafConsumes(i, classes, s, st);
    case TextLeaf(text) => TextConsumes(text, s, st);
    case Sequence(ps) => RowConsumes(ps, classes, s, st);
    case Either(l, r) =>
      TreeConsumes(l, classes, s, st);
      TreeConsumes(r, classes, s, st);
      EitherConsumes(Run(l, classes, s, st), Run(r, classes, s, st), s, st.pos + Least(l), st.pos + Least(r));
  }

  lemma TextConsumes(text: seq<byte>, s: seq<byte>, st: State)
    requires st.pos <= |s|
    ensures Within(Maybe(PrimStep(s, Text(text), st)), s, st.pos + |text|)
  {
    hide PrimStep;
    PrimLands(s, Text(text), st);
  }

  lemma EitherConsumes(a: Outcome, b: Outcome, s: seq<byte>, low: nat, high: nat)
    requires Within(a, s, low) && Within(b, s, high)
    ensures Within(OrElse(a, b), s, Min(low, high))
  {
  }

  lemma {:induction false} RowConsumes(ps: seq<Tree>, classes: seq<CharClass>, s: seq<byte>, st: State)
    requires (forall k :: 0 <= k < |ps| ==> Countable(ps[k]) && Plain(ps[k])) && st.pos <= |s|
    ensures Within(RunAll(ps, classes, s, st), s, st.pos + LeastAll(ps))
    decreases ps, 0, 0
  {
    hide Run, RunEach, Least, Countable, Plain;
    if ps != [] {
      TreeConsumes(ps[0], classes, s, st);
      EachConsumes(ps[1..], classes, s, Run(ps[0], classes, s, st), st.pos + Least(ps[0]));
    }
  }

  lemma {:induction false} EachConsumes(ps: seq<Tree>, classes: seq<CharClass>, s: seq<byte>, o: Outcome, low: nat)
    requires (forall k :: 0 <= k < |ps| ==> Countable(ps[k]) && Plain(ps[k])) && Within(o, s, low)
    ensures Within(RunEach(ps, classes, s, o), s, low + LeastAll(ps))
      || (o.states == [] && RunEach(ps, classes, s, o) == o)
    decreases ps, 1, |o.states|
  {
    hide RunAll, LeastAll, Countable, Plain;
    if o.states != [] {
      RowConsumes(ps, classes, s, o.states[0]);
      EachConsumes(ps, classes, s, Outcome(o.states[1..], o.fin), low);
    }
  }

  /** A match of the code of a tree takes what its operations take at least. */
  lemma AcceptedConsumes(image: seq<byte>, t: Tree, s: seq<byte>, end: State)
    requires Countable(t) && At(image, 0, BodyOf(t)) && |image| < U32
    requires Runs(Boot(image, s), 0, Fresh(0), Accepted(end))
    ensures Least(t) <= end.pos <= |s|
  {
    hide BodyOf, Runs, LoadClasses, Countable, Run, Yields, Least, Plain, Walkable;
    CountablePlain(t);
    var env, st := Boot(image, s), Fresh(0);
    BodyRuns(env, t, st);
    RunsOut(t, env.classes, s, st);
    TreeConsumes(t, env.classes, s, st);
    var o := Run(t, env.classes, s, st);
    YieldsDecides(env, st, First(o, Accepting()), Accepted(end));
  }

  /** The derived minimum is attained: some subject of just that size is matched from end to end, and no match of any
      subject consumes less. */
  lemma LeastIsAttained(image: seq<byte>, t: Tree)
    requires Countable(t) && Satisfiable(t, LoadClasses(image)) && At(image, 0, BodyOf(t)) && |image| < U32
    requires Most(t) < DEAD && Forks(t) <= MAX_DEPTH
    ensures MinLen(image, 0, 0) == Least(t)
    ensures forall s, end :: Runs(Boot(image, s), 0, Fresh(0), Accepted(end)) ==> end.pos >= Least(t)
    ensures exists s, end :: |s| == Least(t) && Runs(Boot(image, s), 0, Fresh(0), Accepted(end)) && end.pos == |s|
  {
    hide BodyOf, Runs, LoadClasses, Countable, Satisfiable, Least, Most, Forks, MinLen, Word, Walkable, TreeTally;
    CountablePlain(t);
    MinimumIsTally(image, t);
    TallyIsLeast(t, 0);
    forall s, end | Runs(Boot(image, s), 0, Fresh(0), Accepted(end)) ensures Least(t) <= end.pos <= |s| {
      AcceptedConsumes(image, t, s, end);
    }
    var s := Shortest(t, LoadClasses(image));
    var end := WordIsAccepted(image, t, s);
    assert Runs(Boot(image, s), 0, Fresh(0), Accepted(end));
  }
}
