/** The start-byte set is no mere bound: over every compiled body with ASCII classes it is the set that a recursion over
    the tree gives, and where every operation that consumes is a literal or takes one byte, matches begin with just
    these bytes. */
module StartsAttained {
  import opened Wrappers
  import opened Bytes
  import opened Ranges
  import opened CharClasses
  import opened Bytecode
  import opened Semantics
  import opened Machine
  import opened CodeTree
  import opened FusionStarts
  import opened Trailer
  import opened EndToEnd
  import opened Walker
  import opened MinLength
  import opened StartBitmap
  import opened SearchMeta
  import opened CompiledFlow
  import opened TrackablePatterns
  import opened CompiledSearch
  import opened TreeWords
  import opened MinAttained

  // ----- What a match can begin with -----

  function AllBytes(): set<byte> { set b: byte | Full()[b] }

  /** Operations without width, which a match passes on its way to its first byte. */
  predicate Passing(i: Instr) {
    match i
    case Count(op, _) => !op.Len?
    case Bare(op) => op.Fence? || op.Nop?
    case CapStart(_) => true
    case CapEnd(_) => true
    case Assign(_, _) => true
    case Anchor(_) => true
    case _ => false
  }

  function ClassBegin(op: ClassOp, cls: Option<seq<Range>>): set<byte> {
    if op.Break? || op.BreakX? || cls.None? then AllBytes()
    else set b: byte | InSet(cls.value, b) != op.NotAny?
  }

  /** First bytes of an operation that is not passed: those of a class, none where the match ends or fails, and any
      for whatever else. */
  function LeafBegin(i: Instr, classes: seq<CharClass>): set<byte> {
    match i
    case Class(op, id) => ClassBegin(op, ClassAt(classes, Low16(id)))
    case Bare(op) => if op.Rem? then AllBytes() else {}
    case _ => AllBytes()
  }

  /** Bytes that the matches of a tree begin with, when those of what is behind it begin with one of `rest`. */
  function Begin(t: Tree, classes: seq<CharClass>, rest: set<byte>): set<byte>
    decreases t, 0
  {
    match t
    case Leaf(i) => if Passing(i) then rest else LeafBegin(i, classes)
    case TextLeaf(text) => if text == [] then AllBytes() else {text[0]}
    case EmitLeaf(_) => AllBytes()
    case Sequence(ps) => BeginAll(ps, classes, rest)
    case Either(l, r) => Begin(l, classes, rest) + Begin(r, classes, rest)
    case Loop(_, _, _, _) => AllBytes()
    case Fused(id, _) => ClassBegin(Any, ClassAt(classes, Low16(id)))
  }

  function BeginAll(ps: seq<Tree>, classes: seq<CharClass>, rest: set<byte>): set<byte>
    decreases ps, 0
  {
    if ps == [] then rest else Begin(ps[0], classes, BeginAll(ps[1..], classes, rest))
  }

  /** Instructions the walk visits from the tree on, with `rest` behind it. */
  function Turns(t: Tree, rest: nat): nat
    decreases t, 0
  {
    match t
    case Leaf(i) => if Passing(i) then 1 + rest else 1
    case Sequence(ps) => TurnsAll(ps, rest)
    case Either(l, r) => 1 + Turns(r, rest) + Turns(l, 1 + rest)
    case _ => 1
  }

  function TurnsAll(ps: seq<Tree>, rest: nat): nat
    decreases ps, 0
  {
    if ps == [] then rest else Turns(ps[0], TurnsAll(ps[1..], rest))
  }

  /** Branches that are stacked at once. */
  function Room(t: Tree, rest: nat): nat
    decreases t, 0
  {
    match t
    case Leaf(i) => if Passing(i) then rest else 0
    case Sequence(ps) => RoomAll(ps, rest)
    case Either(l, r) => Max(1 + Room(r, rest), Room(l, rest))
    case _ => 0
  }

  function RoomAll(ps: seq<Tree>, rest: nat): nat
    decreases ps, 0
  {
    if ps == [] then rest else Room(ps[0], RoomAll(ps[1..], rest))
  }

  // ----- The walk marks just those -----

  predicate Stacked(code: seq<byte>, pending: seq<nat>) { forall k :: 0 <= k < |pending| ==> pending[k] < |code| }

  predicate Marked(before: ByteSet, after: ByteSet, marks: set<byte>) {
    forall b: byte :: after[b] <==> before[b] || b in marks
  }

  /** From `ip` the walk has the given bytes marked after no more than `turns` instructions, and takes up what was
      stacked before. */
  ghost predicate Finds(classes: seq<CharClass>, code: seq<byte>, ip: nat, marks: set<byte>, turns: nat,
                        pending: seq<nat>, bm: ByteSet, steps: nat)
    requires Stacked(code, pending) && steps + turns <= StepCap(code)
  {
    exists after: ByteSet, last: nat | last <= steps + turns && Marked(bm, after, marks) ::
      WalkBits(classes, code, ip, pending, bm, steps) == Resume(classes, code, pending, after, last)
  }

  ghost predicate Sets(classes: seq<CharClass>, code: seq<byte>, ip: nat, marks: set<byte>, turns: nat, room: nat) {
    forall pending: seq<nat>, bm: ByteSet, steps: nat
      | Stacked(code, pending) && |pending| + room <= MAX_PENDING && steps + turns <= StepCap(code) ::
      Finds(classes, code, ip, marks, turns, pending, bm, steps)
  }

  /** An instruction that ends the walk along its branch, having marked these bytes. */
  lemma StopSets(classes: seq<CharClass>, code: seq<byte>, ip: nat, marks: set<byte>)
    requires ip < |code|
    requires var m := MoveAt(classes, code, ip); (m == All && marks == AllBytes()) || (m == Nothing && marks == {})
    ensures Sets(classes, code, ip, marks, 1, 0)
  {
    hide StepCap, Resume, MoveAt;
    forall pending: seq<nat>, bm: ByteSet, steps: nat
      | Stacked(code, pending) && |pending| <= MAX_PENDING && steps + 1 <= StepCap(code)
      ensures Finds(classes, code, ip, marks, 1, pending, bm, steps)
    {
      WalksOn(classes, code, ip, pending, bm, steps);
      assert Marked(bm, if marks == {} then bm else Full(), marks);
    }
  }

  lemma ConsumingSets(classes: seq<CharClass>, code: seq<byte>, ip: nat, marks: set<byte>)
    requires ip < |code| && MoveAt(classes, code, ip).Begins?
    requires forall b: byte :: MoveAt(classes, code, ip).inside(b) <==> b in marks
    ensures Sets(classes, code, ip, marks, 1, 0)
  {
    hide StepCap, Resume, MoveAt;
    forall pending: seq<nat>, bm: ByteSet, steps: nat
      | Stacked(code, pending) && |pending| <= MAX_PENDING && steps + 1 <= StepCap(code)
      ensures Finds(classes, code, ip, marks, 1, pending, bm, steps)
    {
      WalksOn(classes, code, ip, pending, bm, steps);
      assert Marked(bm, Mark(bm, MoveAt(classes, code, ip).inside), marks);
    }
  }

  lemma PassingSets(classes: seq<CharClass>, code: seq<byte>, ip: nat, next: nat, marks: set<byte>, turns: nat, room: nat)
    requires ip < |code| && MoveAt(classes, code, ip) == Along(next)
    requires Sets(classes, code, next, marks, turns, room)
    ensures Sets(classes, code, ip, marks, 1 + turns, room)
  {
    hide StepCap, Resume, MoveAt, WalkBits, Marked;
    var more := 1 + turns;
    forall pending: seq<nat>, bm: ByteSet, steps: nat
      | Stacked(code, pending) && |pending| + room <= MAX_PENDING && steps + more <= StepCap(code)
      ensures Finds(classes, code, ip, marks, more, pending, bm, steps)
    {
      WalksOn(classes, code, ip, pending, bm, steps);
      assert Finds(classes, code, next, marks, turns, pending, bm, steps + 1);
    }
  }

  lemma BranchSets(classes: seq<CharClass>, code: seq<byte>, ip: nat, a: nat, b: nat, ma: set<byte>, mb: set<byte>,
                   ta: nat, tb: nat, ra: nat, rb: nat)
    requires ip < |code| && a < |code| && b < |code| && MoveAt(classes, code, ip) == Both(a, b)
    requires Sets(classes, code, a, ma, ta, ra) && Sets(classes, code, b, mb, tb, rb)
    ensures Sets(classes, code, ip, ma + mb, 1 + tb + ta, Max(1 + rb, ra))
  {
    hide StepCap, Resume, MoveAt, WalkBits;
    var marks, turns, room := ma + mb, 1 + tb + ta, Max(1 + rb, ra);
    forall pending: seq<nat>, bm: ByteSet, steps: nat
      | Stacked(code, pending) && |pending| + room <= MAX_PENDING && steps + turns <= StepCap(code)
      ensures Finds(classes, code, ip, marks, turns, pending, bm, steps)
    {
      var grown := pending + [a];
      WalksOn(classes, code, ip, pending, bm, steps);
      assert Finds(classes, code, b, mb, tb, grown, bm, steps + 1);
      var mid: ByteSet, far: nat :| far <= steps + 1 + tb && Marked(bm, mid, mb)
        && WalkBits(classes, code, b, grown, bm, steps + 1) == Resume(classes, code, grown, mid, far);
      Resumes(classes, code, grown, mid, far);
      assert grown[..|grown| - 1] == pending;
      assert Finds(classes, code, a, ma, ta, pending, mid, far);
      var after: ByteSet, last: nat :| last <= far + ta && Marked(mid, after, ma)
        && WalkBits(classes, code, a, pending, mid, far) == Resume(classes, code, pending, after, last);
      assert Marked(bm, after, marks);
    }
  }

  /** Where the walk goes from an instruction that is no jump. */
  lemma LeafMoves(classes: seq<CharClass>, code: seq<byte>, ip: nat, i: Instr)
    requires Floating(i) && !i.Class? && At(code, ip, Encode(i))
    ensures ip < |code|
    ensures Passing(i) ==> MoveAt(classes, code, ip) == Along(ip + |Encode(i)|)
    ensures !Passing(i) && LeafBegin(i, classes) == {} ==> MoveAt(classes, code, ip) == Nothing
    ensures !Passing(i) && LeafBegin(i, classes) != {} ==> MoveAt(classes, code, ip) == All
    ensures LeafBegin(i, classes) == {} || LeafBegin(i, classes) == AllBytes()
  {
    hide Enc16, Enc32, AllBytes;
    AtByte(code, ip, Encode(i), 0);
    SomeByte();
    match i
    case Bare(op) => BareMoves(classes, code, ip, op);
    case _ =>
  }

  lemma SomeByte()
    ensures AllBytes() != {}
  {
    assert 0 in AllBytes();
  }

  lemma BareMoves(classes: seq<CharClass>, code: seq<byte>, ip: nat, op: BareOp)
    requires ip < |code| && code[ip] == BareOpcode(op)
    ensures MoveAt(classes, code, ip)
         == match op
            case Fence => Along(ip + 1)
            case Nop => Along(ip + 1)
            case Rem => All
            case _ => Nothing
  {
  }

  lemma ClassMoves(classes: seq<CharClass>, code: seq<byte>, ip: nat, op: ClassOp, id: int)
    requires AsciiClasses(classes) && At(code, ip, Encode(Class(op, id)))
    ensures ip < |code|
    ensures var m, cls := MoveAt(classes, code, ip), ClassAt(classes, Low16(id));
      if op.Break? || op.BreakX? || cls.None? then m == All
      else m.Begins? && forall b: byte :: m.inside(b) <==> InSet(cls.value, b) != op.NotAny?
  {
    hide Enc16, U16At, IsAscii, InMap, InSet;
    AtByte(code, ip, Encode(Class(op, id)), 0);
    AtConcat(code, ip, [Opcode(Class(op, id))], Enc16(id));
    Decode16(code, ip + 1, id);
    var cls := ClassAt(classes, Low16(id));
    if cls.Some? {
      forall b: byte ensures InMap(cls.value, b) == InSet(cls.value, b) { AsciiMap(cls.value, b); }
    }
  }

  lemma {:induction false} AsciiMap(rs: seq<Range>, b: byte)
    requires IsAscii(rs)
    ensures InMap(rs, b) == InSet(rs, b)
    decreases rs
  {
    if rs != [] {
      AsciiMap(rs[1..], b);
      if InSet(rs[1..], b) {
        var k :| 0 <= k < |rs[1..]| && Covers(rs[1..][k], b);
        assert Covers(rs[k + 1], b);
      }
    }
  }

  lemma TextMoves(classes: seq<CharClass>, code: seq<byte>, ip: nat, text: seq<byte>)
    requires At(code, ip, Encode(Lit(ip + 9, text))) && ip + 9 + |text| < |code| < U32
    ensures var m := MoveAt(classes, code, ip);
      if text == [] then m == All else m.Begins? && forall b: byte :: m.inside(b) <==> b == text[0]
  {
    hide Enc32, U32At, Low32;
    var i := Lit(ip + 9, text);
    AtByte(code, ip, Encode(i), 0);
    AtConcat(code, ip, [Opcode(i)], Operands(i));
    PayloadLayout(code, ip + 1, ip + 9, text);
    if text != [] { AtByte(code, ip + 9, text, 0); }
    Fits32(ip + 9);
    Fits32(|text|);
    Fits32(ip + 9 + |text|);
  }

  lemma OpaqueMoves(classes: seq<CharClass>, code: seq<byte>, ip: nat)
    requires ip < |code| && code[ip] in {OP_EMIT_LITERAL, OP_REPEAT_INIT}
    ensures MoveAt(classes, code, ip) == All
  {
  }

  lemma SplitMoves(classes: seq<CharClass>, code: seq<byte>, ip: nat, a: nat, b: nat)
    requires At(code, ip, Encode(Split(a, b))) && a < |code| < U32 && b < |code|
    ensures ip < |code| && MoveAt(classes, code, ip) == Both(a, b)
  {
    hide Enc32, U32At, Low32;
    var op: seq<byte> := [OP_SPLIT];
    assert Encode(Split(a, b)) == op + (Enc32(a) + Enc32(b));
    AtConcat(code, ip, op, Enc32(a) + Enc32(b));
    AtConcat(code, ip + 1, Enc32(a), Enc32(b));
    AtByte(code, ip, op, 0);
    Decode32(code, ip + 1, a);
    Decode32(code, ip + 5, b);
    Fits32(a);
    Fits32(b);
  }

  lemma JumpMoves(classes: seq<CharClass>, code: seq<byte>, ip: nat, t: nat)
    requires At(code, ip, Encode(Jmp(t))) && t < |code| < U32
    ensures ip < |code| && MoveAt(classes, code, ip) == Along(t)
  {
    hide Enc32, U32At, Low32;
    AtByte(code, ip, Encode(Jmp(t)), 0);
    AtConcat(code, ip, [OP_JMP], Enc32(t));
    Decode32(code, ip + 1, t);
    Fits32(t);
  }

  lemma ClassSets(classes: seq<CharClass>, code: seq<byte>, ip: nat, op: ClassOp, id: int)
    requires AsciiClasses(classes) && At(code, ip, Encode(Class(op, id)))
    ensures Sets(classes, code, ip, ClassBegin(op, ClassAt(classes, Low16(id))), 1, 0)
  {
    hide Sets, MoveAt, Encode, At, AsciiClasses, AllBytes, InSet;
    ClassMoves(classes, code, ip, op, id);
    var marks := ClassBegin(op, ClassAt(classes, Low16(id)));
    if MoveAt(classes, code, ip) == All {
      StopSets(classes, code, ip, marks);
    } else {
      ConsumingSets(classes, code, ip, marks);
    }
  }

  lemma LeafSets(classes: seq<CharClass>, code: seq<byte>, i: Instr, base: nat, marks: set<byte>, turns: nat, room: nat)
    requires AsciiClasses(classes) && Floating(i) && At(code, base, Encode(i))
    requires Sets(classes, code, base + |Encode(i)|, marks, turns, room)
    ensures Sets(classes, code, base, Begin(Leaf(i), classes, marks), Turns(Leaf(i), turns), Room(Leaf(i), room))
  {
    hide Encode, At, Sets, MoveAt, ClassBegin, AllBytes, AsciiClasses;
    if i.Class? {
      ClassSets(classes, code, base, i.cop, i.classId);
    } else {
      LeafMoves(classes, code, base, i);
      if Passing(i) {
        PassingSets(classes, code, base, base + |Encode(i)|, marks, turns, room);
      } else {
        StopSets(classes, code, base, LeafBegin(i, classes));
      }
    }
  }

  lemma TextSets(classes: seq<CharClass>, code: seq<byte>, text: seq<byte>, base: nat)
    requires At(code, base, Encode(Lit(base + 9, text))) && base + 9 + |text| < |code| < U32
    ensures Sets(classes, code, base, if text == [] then AllBytes() else {text[0]}, 1, 0)
  {
    hide Encode, At, Sets, MoveAt, AllBytes;
    TextMoves(classes, code, base, text);
    if text == [] {
      StopSets(classes, code, base, AllBytes());
    } else {
      ConsumingSets(classes, code, base, {text[0]});
    }
  }

  /** Output and loops. */
  lemma OpaqueSets(classes: seq<CharClass>, code: seq<byte>, i: Instr, base: nat)
    requires (i.EmitLiteral? || i.RepeatInit?) && At(code, base, Encode(i))
    ensures Sets(classes, code, base, AllBytes(), 1, 0)
  {
    hide Encode, At, Sets, MoveAt, AllBytes;
    OpcodeAt(code, base, i);
    OpaqueMoves(classes, code, base);
    StopSets(classes, code, base, AllBytes());
  }

  lemma {:induction false} TreeSets(classes: seq<CharClass>, code: seq<byte>, t: Tree, base: nat, marks: set<byte>,
                                    turns: nat, room: nat)
    requires AsciiClasses(classes) && Walkable(t) && At(code, base, Emitted(t, base)) && base + Weight(t) < |code| < U32
    requires Sets(classes, code, base + Weight(t), marks, turns, room)
    ensures Sets(classes, code, base, Begin(t, classes, marks), Turns(t, turns), Room(t, room))
    decreases t, 0
  {
    hide Encode, Emitted, At, Weight, Sets, MoveAt, ClassBegin, AllBytes, AsciiClasses, LeafBegin, Passing;
    EmittedOf(t, base);
    match t
    case Leaf(i) => LeafSets(classes, code, i, base, marks, turns, room);
    case TextLeaf(text) =>
      TextSize(text);
      TextSets(classes, code, text, base);
    case EmitLeaf(text) => OpaqueSets(classes, code, EmitLiteral(base + 9, text), base);
    case Loop(n, min, max, b) =>
      LoopOpens(code, n, min, max, b, base);
      OpaqueSets(classes, code, RepeatInit(n, min, max, base + Weight(t)), base);
    case Fused(id, pad) =>
      AtConcat(code, base, Encode(Class(Any, id)), NopBytes(pad));
      ClassSets(classes, code, base, Any, id);
    case Sequence(ps) =>
      SequenceWeight(ps);
      RowSets(classes, code, ps, base, marks, turns, room);
    case Either(l, r) =>
      var jmp, right := base + 9 + Weight(l), base + 14 + Weight(l);
      var end := right + Weight(r);
      SplitLayout(code, l, r, base);
      EitherWeight(l, r);
      JumpMoves(classes, code, jmp, end);
      PassingSets(classes, code, jmp, end, marks, turns, room);
      TreeSets(classes, code, l, base + 9, marks, 1 + turns, room);
      TreeSets(classes, code, r, right, marks, turns, room);
      SplitMoves(classes, code, base, base + 9, right);
      BranchSets(classes, code, base, base + 9, right, Begin(l, classes, marks), Begin(r, classes, marks),
                 Turns(l, 1 + turns), Turns(r, turns), Room(l, room), Room(r, room));
  }

  lemma TextSize(text: seq<byte>)
    ensures Weight(TextLeaf(text)) == 9 + |text|
  {
  }

  lemma {:induction false} RowSets(classes: seq<CharClass>, code: seq<byte>, ps: seq<Tree>, base: nat, marks: set<byte>,
                                   turns: nat, room: nat)
    requires AsciiClasses(classes) && forall k :: 0 <= k < |ps| ==> Walkable(ps[k])
    requires At(code, base, EmittedAll(ps, base)) && base + WeightAll(ps) < |code| < U32
    requires Sets(classes, code, base + WeightAll(ps), marks, turns, room)
    ensures Sets(classes, code, base, BeginAll(ps, classes, marks), TurnsAll(ps, turns), RoomAll(ps, room))
    decreases ps, 0
  {
    hide Emitted, EmittedAll, At, Weight, Sets, Begin, Turns, Room, Walkable, AsciiClasses;
    if ps != [] {
      var mid := base + Weight(ps[0]);
      EmittedOfAll(ps, base);
      EmittedWidth(ps[0], base);
      AtConcat(code, base, Emitted(ps[0], base), EmittedAll(ps[1..], mid));
      RowSets(classes, code, ps[1..], mid, marks, turns, room);
      TreeSets(classes, code, ps[0], base, BeginAll(ps[1..], classes, marks), TurnsAll(ps[1..], turns),
               RoomAll(ps[1..], room));
    }
  }

  /** The walk fits its limits on the code of the tree. */
  predicate WalkFits(image: seq<byte>, t: Tree) { Turns(t, 1) <= StepCap(image) && Room(t, 0) <= MAX_PENDING }

  /** The set derived from the code of a tree is the one that the tree gives. */
  lemma StartsAreFirsts(image: seq<byte>, t: Tree, b: byte)
    requires Walkable(t) && AsciiClasses(LoadClasses(image)) && At(image, 0, BodyOf(t)) && |image| < U32
    requires WalkFits(image, t)
    ensures StartBytes(image)[b] <==> b in Begin(t, LoadClasses(image), {})
  {
    hide Emitted, Weight, Begin, Turns, Room, Walkable, WalkBits, LoadClasses, StepCap, AsciiClasses;
    var w, classes := Weight(t), LoadClasses(image);
    EmittedWidth(t, 0);
    AtConcat(image, 0, Emitted(t, 0), [OP_ACCEPT]);
    AtByte(image, w, [OP_ACCEPT], 0);
    BareMoves(classes, image, w, BareOp.Accept);
    StopSets(classes, image, w, {});
    TreeSets(classes, image, t, 0, {}, 1, 0);
    assert Finds(classes, image, 0, Begin(t, classes, {}), Turns(t, 1), [], NoBytes(), 0);
    var after: ByteSet, last: nat :| last <= Turns(t, 1) && Marked(NoBytes(), after, Begin(t, classes, {}))
      && WalkBits(classes, image, 0, [], NoBytes(), 0) == Resume(classes, image, [], after, last);
    Resumes(classes, image, [], after, last);
  }

  // ----- Each of them begins a match -----

  ghost predicate BytewiseLeaf(i: Instr, classes: seq<CharClass>) {
    match i
    case Class(op, id) =>
      var cls := ClassAt(classes, Low16(id));
      cls.Some? && IsAscii(cls.value) && exists b: byte :: TakesByte(op, cls, b)
    case CapStart(_) => true
    case CapEnd(_) => true
    case Assign(_, _) => true
    case _ => false
  }

  /** Literals, ANY and NOTANY of ASCII classes, captures and alternations; nothing that cannot match. */
  ghost predicate Bytewise(t: Tree, classes: seq<CharClass>) {
    match t
    case Leaf(i) => BytewiseLeaf(i, classes)
    case TextLeaf(text) => 0 < |text| < U32
    case Sequence(ps) => forall k :: 0 <= k < |ps| ==> Bytewise(ps[k], classes)
    case Either(l, r) => Bytewise(l, classes) && Bytewise(r, classes)
    case _ => false
  }

  lemma {:induction false} BytewiseCounts(t: Tree, classes: seq<CharClass>)
    requires Bytewise(t, classes)
    ensures Countable(t) && Satisfiable(t, classes) && NoTabs(t)
  {
    hide TakesByte;
    match t
    case Sequence(ps) =>
      forall k | 0 <= k < |ps| ensures Countable(ps[k]) && Satisfiable(ps[k], classes) && NoTabs(ps[k]) {
        BytewiseCounts(ps[k], classes);
      }
    case Either(l, r) =>
      BytewiseCounts(l, classes);
      BytewiseCounts(r, classes);
    case _ =>
  }

  ghost predicate WordFrom(t: Tree, classes: seq<CharClass>, b: byte) {
    exists w: seq<byte> :: w != [] && w[0] == b && Word(t, classes, w)
  }

  lemma ClassHasWord(op: ClassOp, id: int, classes: seq<CharClass>, b: byte)
    requires BytewiseLeaf(Class(op, id), classes) && b in ClassBegin(op, ClassAt(classes, Low16(id)))
    ensures WordFrom(Leaf(Class(op, id)), classes, b)
  {
    hide IsAscii, InSet;
    assert Word(Leaf(Class(op, id)), classes, [b]);
  }

  /** A byte that a tree may begin with begins one of its texts, unless it comes from behind a tree that may be passed
      over without a byte. */
  lemma {:induction false} BeginHasWord(t: Tree, classes: seq<CharClass>, rest: set<byte>, b: byte)
    requires Bytewise(t, classes) && b in Begin(t, classes, rest)
    ensures WordFrom(t, classes, b) || (b in rest && Word(t, classes, []))
    decreases t, 0
  {
    match t
    case Leaf(i) => if i.Class? { ClassHasWord(i.cop, i.classId, classes, b); }
    case TextLeaf(text) => assert Word(t, classes, text);
    case Sequence(ps) => RowHasWord(ps, classes, rest, b);
    case Either(l, r) =>
      if b in Begin(l, classes, rest) {
        BeginHasWord(l, classes, rest, b);
      } else {
        BeginHasWord(r, classes, rest, b);
      }
  }

  ghost predicate RowWordFrom(ps: seq<Tree>, classes: seq<CharClass>, b: byte) {
    exists w: seq<byte> :: w != [] && w[0] == b && RowWord(ps, classes, w)
  }

  lemma {:induction false} RowHasWord(ps: seq<Tree>, classes: seq<CharClass>, rest: set<byte>, b: byte)
    requires (forall k :: 0 <= k < |ps| ==> Bytewise(ps[k], classes)) && b in BeginAll(ps, classes, rest)
    ensures RowWordFrom(ps, classes, b) || (b in rest && RowWord(ps, classes, []))
    decreases ps, 0
  {
    hide Word, Begin, Bytewise;
    if ps != [] {
      var behind := BeginAll(ps[1..], classes, rest);
      BeginHasWord(ps[0], classes, behind, b);
      if WordFrom(ps[0], classes, b) {
        var v: seq<byte> :| v != [] && v[0] == b && Word(ps[0], classes, v);
        var w := SomeRowWord(ps[1..], classes);
        RowWordJoins(ps, classes, v, w);
        assert (v + w)[0] == b;
      } else {
        RowHasWord(ps[1..], classes, rest, b);
        if RowWordFrom(ps[1..], classes, b) {
          var w: seq<byte> :| w != [] && w[0] == b && RowWord(ps[1..], classes, w);
          RowWordJoins(ps, classes, [], w);
          assert [] + w == w;
        } else {
          var none: seq<byte> := [];
          RowWordJoins(ps, classes, none, none);
          assert none + none == none;
        }
      }
    }
  }

  lemma SomeRowWord(ps: seq<Tree>, classes: seq<CharClass>) returns (w: seq<byte>)
    requires forall k :: 0 <= k < |ps| ==> Bytewise(ps[k], classes)
    ensures RowWord(ps, classes, w)
  {
    hide Bytewise, Countable, Satisfiable, RowWord;
    forall k | 0 <= k < |ps| ensures Countable(ps[k]) && Satisfiable(ps[k], classes) { BytewiseCounts(ps[k], classes); }
    w := ShortestAll(ps, classes);
  }

  /** On a pattern that cannot match the empty text a byte is in the derived set exactly when some subject that begins
      with it is matched. */
  lemma StartsExact(image: seq<byte>, t: Tree, b: byte)
    requires var classes := LoadClasses(image);
      Bytewise(t, classes) && AsciiClasses(classes) && At(image, 0, BodyOf(t)) && |image| < U32
    requires WalkFits(image, t) && Countable(t) && Least(t) > 0
    ensures StartBytes(image)[b] <==>
      exists s: seq<byte>, end: State :: s != [] && s[0] == b && end.pos > 0 && Runs(Boot(image, s), 0, Fresh(0), Accepted(end))
  {
    hide Bytewise, AsciiClasses, LoadClasses, StartBytes, WalkFits, Countable, Least, Runs, Begin, Satisfiable, NoTabs,
         MinLen, TabFree, Word, BodyOf, Walkable;
    var classes := LoadClasses(image);
    BytewiseCounts(t, classes);
    CountablePlain(t);
    StartsAreFirsts(image, t, b);
    BodyIsTabFree(t);
    if StartBytes(image)[b] {
      BeginHasWord(t, classes, {}, b);
      var w: seq<byte> :| w != [] && w[0] == b && Word(t, classes, w);
      var end := WordIsAccepted(image, t, w);
      AcceptedConsumes(image, t, w, end);
      assert Runs(Boot(image, w), 0, Fresh(0), Accepted(end));
    }
    forall s: seq<byte>, end: State | s != [] && s[0] == b && end.pos > 0 && Runs(Boot(image, s), 0, Fresh(0), Accepted(end))
      ensures StartBytes(image)[b]
    {
      ImageBounds(image, t, s, end);
    }
  }

  lemma BodyIsTabFree(t: Tree)
    requires NoTabs(t)
    ensures TabFree(BodyProgram(t))
  {
    hide Lay, NoTabs;
    LayIsTabFree(t, 0);
  }
}
