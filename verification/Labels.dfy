/** Labels end to end: where the compiler puts them, the table it writes behind the classes, and the targets that the VM
    registers from it and GOTO looks up. */
module Labels {
  import opened Wrappers
  import opened Bytes
  import opened CharClasses
  import opened Bytecode
  import opened CodeTree
  import opened Pattern
  import opened Translate
  import opened FusionPass
  import opened FusedLayout
  import opened FusionStarts
  import opened Trailer
  import opened Compiler
  import opened EndToEnd
  import opened Walker
  import opened QuietPatterns

  // ----- The VM's label table -----

  /** Store an offset, in sixteen bits, under an id that is in use already or the next free one. */
  function RegisterLabel(targets: seq<nat>, id: nat, offset: nat): (r: seq<nat>)
    requires id <= |targets|
    ensures |r| >= |targets| && id < |r|
  {
    if id < |targets| then targets[id := Low16(offset)] else targets + [Low16(offset)]
  }

  /** The label count of an image, and where its offset table starts; ids are cut to sixteen bits. */
  function LabelIndex(image: seq<byte>): (r: Option<(nat, nat)>)
    ensures r.Some? ==> r.value.1 + 4 * r.value.0 + 8 == |image|
  {
    var n := |image|;
    if n < 8 || U32At(image, n - 4) != MAGIC then None
    else
      var count := U32At(image, n - 8);
      if count == 0 || n < 8 + 4 * count then None else Some((count, n - 8 - 4 * count))
  }

  /** The last of the numbers below `n` that are cut to `id`. */
  function LastUse(id: nat, n: nat): nat {
    if id < U16 && id < n then id + (n - 1 - id) / U16 * U16 else id
  }

  lemma CutId(i: nat)
    ensures Low16(i) == i % U16 <= i && i % U16 < U16
  {
  }

  lemma NextUse(id: nat, n: nat)
    requires id < U16 && id < n + 1
    ensures LastUse(id, n + 1) <= n
    ensures id == n % U16 ==> LastUse(id, n + 1) == n
    ensures id != n % U16 ==> id < n && LastUse(id, n + 1) == LastUse(id, n)
  {
  }

  lemma LastUseIsBelow(id: nat, n: nat)
    requires id < U16 && id < n
    ensures LastUse(id, n) < n
  {
  }

  /** Where GOTO leads for a label id; nowhere when the id is not registered. */
  function TargetOf(image: seq<byte>, id: nat): Option<nat> {
    var (count, table) :- LabelIndex(image);
    if id < Min(count, U16) then
      LastUseIsBelow(id, count);
      Some(Low16(U32At(image, table + 4 * LastUse(id, count))))
    else None
  }

  /** The loop that registers the labels of an image before it runs. */
  method RegisterLabels(image: seq<byte>) returns (targets: seq<nat>)
    ensures forall id: nat :: TargetOf(image, id) == if id < |targets| then Some(targets[id]) else None
  {
    hide U32At, Low16;
    targets := [];
    var index := LabelIndex(image);
    if index.None? { return; }
    var (count, table) := index.value;
    var i := 0;
    while i < count
      invariant 0 <= i <= count && |targets| == Min(i, U16)
      invariant forall id :: 0 <= id < |targets| ==>
        LastUse(id, i) < i && targets[id] == Low16(U32At(image, table + 4 * LastUse(id, i)))
    {
      ghost var before := targets;
      CutId(i);
      targets := RegisterLabel(targets, Low16(i), U32At(image, table + 4 * i));
      forall id | 0 <= id < |targets|
        ensures LastUse(id, i + 1) < i + 1
        ensures targets[id] == Low16(U32At(image, table + 4 * LastUse(id, i + 1)))
      {
        NextUse(id, i);
        if id != i % U16 { assert targets[id] == before[id]; }
      }
      i := i + 1;
    }
  }

  // ----- Labels in a code tree -----

  /** The tree laid out from `base` has LABEL `id` right in front of offset `p`. */
  predicate Marks(t: Tree, base: nat, id: nat, p: nat)
    decreases t, 0
  {
    match t
    case Leaf(i) => i == Label(id) && p == base + 3
    case Sequence(ps) => MarksAll(ps, base, id, p)
    case Either(l, r) => Marks(l, base + 9, id, p) || Marks(r, base + 14 + Weight(l), id, p)
    case Loop(_, _, _, b) => Marks(b, base + 14, id, p)
    case _ => false
  }

  predicate MarksAll(ps: seq<Tree>, base: nat, id: nat, p: nat)
    decreases ps, 0
  {
    ps != [] && (Marks(ps[0], base, id, p) || MarksAll(ps[1..], base + Weight(ps[0]), id, p))
  }

  lemma {:induction false} MarksWeigh(t: Tree, base: nat, id: nat, p: nat)
    requires Marks(t, base, id, p)
    ensures base + 3 <= p <= base + Weight(t)
    decreases t, 0
  {
    match t
    case Leaf(i) => LabelWeighs(i, id);
    case Sequence(ps) => RowMarksWeigh(ps, base, id, p);
    case Either(l, r) =>
      if Marks(l, base + 9, id, p) {
        MarksWeigh(l, base + 9, id, p);
      } else {
        MarksWeigh(r, base + 14 + Weight(l), id, p);
      }
    case Loop(_, _, _, b) => MarksWeigh(b, base + 14, id, p);
  }

  lemma LabelWeighs(i: Instr, id: nat)
    requires i == Label(id)
    ensures Weight(Leaf(i)) == 3 && |Encode(i)| == 3
  {
    hide Enc16;
  }

  lemma {:induction false} RowMarksWeigh(ps: seq<Tree>, base: nat, id: nat, p: nat)
    requires MarksAll(ps, base, id, p)
    ensures base + 3 <= p <= base + WeightAll(ps)
    decreases ps, 0
  {
    hide Marks;
    if Marks(ps[0], base, id, p) {
      MarksWeigh(ps[0], base, id, p);
    } else {
      RowMarksWeigh(ps[1..], base + Weight(ps[0]), id, p);
    }
  }

  /** An arm that fusion takes up has no label. */
  lemma {:induction false} ArmUnmarked(t: Tree, base: nat, id: nat, p: nat)
    requires AsArm(t).Some?
    ensures !Marks(t, base, id, p)
    decreases t, 0
  {
    if t.Sequence? { RowUnmarked(t.parts, base, id, p); }
  }

  lemma {:induction false} RowUnmarked(ps: seq<Tree>, base: nat, id: nat, p: nat)
    requires LeadOfAll(ps).Single? && LeadOfAll(ps).width == WeightAll(ps)
    ensures !MarksAll(ps, base, id, p)
    decreases ps, 0
  {
    hide Marks, LeadOf, Weight;
    var head, mid := ps[0], base + Weight(ps[0]);
    if Weight(head) > 0 {
      ArmUnmarked(head, base, id, p);
      NoWeightNoMark(ps[1..], mid, id, p);
    } else {
      if Marks(head, base, id, p) { MarksWeigh(head, base, id, p); }
      RowUnmarked(ps[1..], mid, id, p);
    }
  }

  lemma NoWeightNoMark(ps: seq<Tree>, base: nat, id: nat, p: nat)
    requires WeightAll(ps) == 0
    ensures !MarksAll(ps, base, id, p)
  {
    hide MarksAll;
    if MarksAll(ps, base, id, p) { RowMarksWeigh(ps, base, id, p); }
  }

  /** Fusion keeps every label where it is. */
  lemma {:induction false} FuseKeepsMarks(t: Tree, entries: seq<CharClass>, base: nat, id: nat, p: nat)
    requires Canonical(entries) && Marks(t, base, id, p)
    ensures Marks(FuseTree(t, entries).tree, base, id, p)
    decreases t, 0
  {
    hide Canonical, FusePair, Weight, AsArm;
    match t
    case Leaf(_) =>
    case Sequence(ps) => FuseAllKeepsMarks(ps, entries, base, id, p);
    case Either(l, r) =>
      var fr := FuseTree(r, entries);
      var fl := FuseTree(l, fr.entries);
      FuseKeepsWeight(l, fr.entries);
      if Marks(l, base + 9, id, p) {
        FuseKeepsMarks(l, fr.entries, base + 9, id, p);
      } else {
        FuseKeepsMarks(r, entries, base + 14 + Weight(l), id, p);
      }
      PairMarked(fl.tree, fr.tree, fl.entries, base, id, p);
    case Loop(_, _, _, b) => FuseKeepsMarks(b, entries, base + 14, id, p);
  }

  lemma PairMarked(l: Tree, r: Tree, entries: seq<CharClass>, base: nat, id: nat, p: nat)
    requires Canonical(entries) && Marks(Either(l, r), base, id, p)
    ensures Marks(FusePair(l, r, entries).tree, base, id, p)
  {
    hide Canonical, AsArm, Weight, PairClass;
    if AsArm(l).Some? { ArmUnmarked(l, base + 9, id, p); }
    if AsArm(r).Some? { ArmUnmarked(r, base + 14 + Weight(l), id, p); }
  }

  lemma {:induction false} FuseAllKeepsMarks(ps: seq<Tree>, entries: seq<CharClass>, base: nat, id: nat, p: nat)
    requires Canonical(entries) && MarksAll(ps, base, id, p)
    ensures MarksAll(FuseTrees(ps, entries).trees, base, id, p)
    decreases ps, 0
  {
    hide Canonical, FuseTree, Weight, Marks;
    var rest := FuseTrees(ps[1..], entries);
    var head := FuseTree(ps[0], rest.entries);
    FuseKeepsWeight(ps[0], rest.entries);
    assert ([head.tree] + rest.trees)[1..] == rest.trees;
    if Marks(ps[0], base, id, p) {
      FuseKeepsMarks(ps[0], rest.entries, base, id, p);
    } else {
      FuseAllKeepsMarks(ps[1..], entries, base + Weight(ps[0]), id, p);
    }
  }

  // ----- Labels in the code -----

  /** LABEL `id` is encoded right in front of `p`, an instruction of the tree begins there, and one begins at `p` unless
      the tree ends there. */
  ghost predicate Stands(code: seq<byte>, t: Tree, base: nat, id: nat, p: nat) {
    p >= 3 && At(code, p - 3, Encode(Label(id))) && p - 3 in TreeStarts(t, base) && Landing(t, base, p)
  }

  lemma {:induction false} MarksStand(code: seq<byte>, t: Tree, base: nat, id: nat, p: nat)
    requires Marks(t, base, id, p) && At(code, base, Emitted(t, base))
    ensures Stands(code, t, base, id, p)
    decreases t, 0
  {
    hide Encode, Emitted, At, Weight, TreeStarts, Landing;
    match t
    case Leaf(i) => LeafStands(code, i, base, id, p);
    case Sequence(ps) =>
      EmittedOf(t, base);
      RowStands(code, ps, base, id, p);
      SequenceWeight(ps);
      StartsOfSequence(ps, base);
      RowIsLanding(ps, base, p);
    case Either(l, r) =>
      var right := base + 14 + Weight(l);
      SplitLayout(code, l, r, base);
      StartsOfEither(l, r, base);
      if Marks(l, base + 9, id, p) {
        MarksStand(code, l, base + 9, id, p);
      } else {
        MarksStand(code, r, right, id, p);
      }
      InFour([base], TreeStarts(l, base + 9), [base + 9 + Weight(l)], TreeStarts(r, right), p - 3);
      EitherLanding(l, r, base, p);
    case Loop(n, min, max, b) =>
      BodyInPlace(code, n, min, max, b, base);
      StartsOfLoop(n, min, max, b, base);
      MarksStand(code, b, base + 14, id, p);
      LoopLanding(n, min, max, b, base, p);
  }

  lemma LeafStands(code: seq<byte>, i: Instr, base: nat, id: nat, p: nat)
    requires i == Label(id) && p == base + 3 && At(code, base, Emitted(Leaf(i), base))
    ensures Stands(code, Leaf(i), base, id, p)
  {
    hide Encode, At, Emitted;
    EmittedOf(Leaf(i), base);
    LabelWeighs(i, id);
    OneStart(Leaf(i), i, base);
  }

  lemma BodyInPlace(code: seq<byte>, n: nat, min: int, max: int, b: Tree, base: nat)
    requires At(code, base, Emitted(Loop(n, min, max, b), base))
    ensures At(code, base + 14, Emitted(b, base + 14))
  {
    hide Encode, Emitted, At, Weight;
    var init, step := Encode(RepeatInit(n, min, max, base + 20 + Weight(b))), Encode(RepeatStep(n, base + 14));
    EmittedOfLoop(n, min, max, b, base);
    FixedWidths(0, n, min, max, base + 20 + Weight(b));
    AtConcat(code, base, init + Emitted(b, base + 14), step);
    AtConcat(code, base, init, Emitted(b, base + 14));
  }

  lemma LoopLanding(n: nat, min: int, max: int, b: Tree, base: nat, p: nat)
    requires Landing(b, base + 14, p)
    ensures Landing(Loop(n, min, max, b), base, p)
  {
    hide TreeStarts, Weight;
    var step := base + 14 + Weight(b);
    StartsOfLoop(n, min, max, b, base);
    assert step in [step];
  }

  ghost predicate StandsInRow(code: seq<byte>, ps: seq<Tree>, base: nat, id: nat, p: nat) {
    p >= 3 && At(code, p - 3, Encode(Label(id))) && p - 3 in TreeStartsAll(ps, base) && RowLanding(ps, base, p)
  }

  lemma RowIsLanding(ps: seq<Tree>, base: nat, p: nat)
    requires RowLanding(ps, base, p)
    ensures Landing(Sequence(ps), base, p)
  {
    hide TreeStarts, TreeStartsAll;
    SequenceWeight(ps);
    StartsOfSequence(ps, base);
  }

  lemma {:induction false} RowStands(code: seq<byte>, ps: seq<Tree>, base: nat, id: nat, p: nat)
    requires MarksAll(ps, base, id, p) && At(code, base, EmittedAll(ps, base))
    ensures StandsInRow(code, ps, base, id, p)
    decreases ps, 0
  {
    hide Encode, Emitted, EmittedAll, At, Weight, TreeStarts, TreeStartsAll, Marks;
    var mid := base + Weight(ps[0]);
    EmittedOfAll(ps, base);
    EmittedWidth(ps[0], base);
    AtConcat(code, base, Emitted(ps[0], base), EmittedAll(ps[1..], mid));
    StartsOfSequence(ps, base);
    RowBegins(ps[1..], mid);
    if Marks(ps[0], base, id, p) {
      MarksStand(code, ps[0], base, id, p);
    } else {
      RowStands(code, ps[1..], mid, id, p);
    }
  }

  // ----- The compiler's table against the tree -----

  predicate Defines(labels: seq<LabelEntry>, id: nat, p: nat) {
    id < |labels| && labels[id].defined && labels[id].offset == p
  }

  /** Every entry is defined or referred to. */
  predicate InUse(labels: seq<LabelEntry>) {
    forall id :: 0 <= id < |labels| ==> labels[id].defined || labels[id].referenced
  }

  /** What is defined afterwards was so before, or is marked in the tree. */
  ghost predicate Told(t: Tree, base: nat, before: seq<LabelEntry>, after: seq<LabelEntry>) {
    && (InUse(before) ==> InUse(after))
    && forall id: nat, p: nat :: Defines(after, id, p) ==> Defines(before, id, p) || Marks(t, base, id, p)
  }

  ghost predicate ToldAll(ts: seq<Tree>, base: nat, before: seq<LabelEntry>, after: seq<LabelEntry>) {
    && (InUse(before) ==> InUse(after))
    && forall id: nat, p: nat :: Defines(after, id, p) ==> Defines(before, id, p) || MarksAll(ts, base, id, p)
  }

  lemma ToldRow(ts: seq<Tree>, base: nat, before: seq<LabelEntry>, after: seq<LabelEntry>)
    requires ToldAll(ts, base, before, after)
    ensures Told(Sequence(ts), base, before, after)
  {
  }

  lemma ToldCons(t: Tree, ts: seq<Tree>, base: nat, before: seq<LabelEntry>, mid: seq<LabelEntry>, after: seq<LabelEntry>)
    requires Told(t, base, before, mid) && ToldAll(ts, base + Weight(t), mid, after)
    ensures ToldAll([t] + ts, base, before, after)
  {
    hide Defines, InUse, Marks, Weight;
    assert ([t] + ts)[1..] == ts;
  }

  lemma ToldNothing(base: nat, labels: seq<LabelEntry>)
    ensures ToldAll([], base, labels, labels)
  {
  }

  lemma ToldQuiet(t: Tree, base: nat, labels: seq<LabelEntry>)
    ensures Told(t, base, labels, labels)
  {
  }

  lemma ToldEither(l: Tree, r: Tree, base: nat, before: seq<LabelEntry>, mid: seq<LabelEntry>, after: seq<LabelEntry>)
    requires Told(l, base + 9, before, mid) && Told(r, base + 14 + Weight(l), mid, after)
    ensures Told(Either(l, r), base, before, after)
  {
    hide Defines, InUse, Weight;
  }

  lemma ToldLoop(n: nat, min: int, max: int, b: Tree, base: nat, before: seq<LabelEntry>, after: seq<LabelEntry>)
    requires Told(b, base + 14, before, after)
    ensures Told(Loop(n, min, max, b), base, before, after)
  {
    hide Defines, InUse;
  }

  lemma ToldPair(a: Tree, b: Tree, base: nat, before: seq<LabelEntry>, mid: seq<LabelEntry>, after: seq<LabelEntry>)
    requires Told(a, base, before, mid) && Told(b, base + Weight(a), mid, after)
    ensures Told(Sequence([a, b]), base, before, after)
  {
    hide Told, Weight;
    assert [b] + [] == [b] && [a] + [b] == [a, b];
    ToldNothing(base + Weight(a) + Weight(b), after);
    ToldCons(b, [], base + Weight(a), mid, after, after);
    ToldCons(a, [b], base, before, mid, after);
    ToldRow([a, b], base, before, after);
  }

  lemma ToldCaptured(reg: int, t: Tree, base: nat, before: seq<LabelEntry>, after: seq<LabelEntry>)
    requires Told(t, base + 2, before, after)
    ensures Told(Captured(reg, t), base, before, after)
  {
    hide Told, Weight;
    var first, last := Leaf(CapStart(reg)), Leaf(CapEnd(reg));
    CaptureWeighs(reg);
    var end := base + 2 + Weight(t);
    ToldQuiet(first, base, before);
    ToldQuiet(last, end, after);
    assert [last] + [] == [last] && [t] + [last] == [t, last] && [first] + [t, last] == [first, t, last];
    ToldNothing(end + 2, after);
    ToldCons(last, [], end, after, after, after);
    ToldCons(t, [last], base + 2, before, after, after);
    ToldCons(first, [t, last], base, before, before, after);
    ToldRow([first, t, last], base, before, after);
  }

  lemma CaptureWeighs(reg: int)
    ensures Weight(Leaf(CapStart(reg))) == 2 && Weight(Leaf(CapEnd(reg))) == 2
  {
  }

  lemma DefinedHere(labels: seq<LabelEntry>, name: seq<byte>, p: nat)
    requires DefineLabel(labels, name, p).Some? && p >= 3
    ensures Told(Leaf(Label(FindLabel(labels, name))), p - 3, labels, DefineLabel(labels, name, p).value)
  {
    hide FindLabel;
  }

  lemma ReferredHere(labels: seq<LabelEntry>, name: seq<byte>, t: Tree, base: nat)
    ensures Told(t, base, labels, ReferLabel(labels, name))
  {
    hide FindLabel, Marks;
  }

  /** Whatever a pattern defines is marked in the tree it generates. */
  lemma {:induction false} GenTells(a: Ast, base: nat, tb: Tables)
    requires Gen(a, base, tb).Some?
    ensures var g := Gen(a, base, tb).value; Told(g.tree, base, tb.labels, g.tables.labels)
    decreases a, 4
  {
    hide Gen, Weight, DefineLabel, GenAll, GenLoop, GenCaptured, GenBody, GenKeyValue, GenKey, Told, ToldAll;
    GenNested(a, base, tb);
    match a
    case Concat(ps) =>
      GenAllTells(ps, base, tb);
      ToldRow(GenAll(ps, base, tb).value.trees, base, tb.labels, GenAll(ps, base, tb).value.tables.labels);
    case Alt(l, r) =>
      GenAlt(l, r, base, tb);
      var gl := Gen(l, base + 9, tb).value;
      var right := base + 14 + Weight(gl.tree);
      var gr := Gen(r, right, gl.tables).value;
      GenTells(l, base + 9, tb);
      GenTells(r, right, gl.tables);
      ToldEither(gl.tree, gr.tree, base, tb.labels, gl.tables.labels, gr.tables.labels);
    case Repetition(sub, min, max) =>
      GenRepeat(sub, min, max, base, tb);
      var tb' := tb.(loops := tb.loops + 1);
      if min == 0 && max == UNBOUNDED {
        GenLoopTells(Unrepeat(sub), base, tb');
      } else {
        GenBodyTells(sub, tb.loops, min, max, base, tb');
      }
    case Arbno(sub) => GenLoopTells(sub, base, tb);
    case Cap(reg, sub) => GenCapturedTells(reg, sub, base, tb);
    case DynamicEval(e) => GenTells(e, base, tb);
    case LabelNode(name, target) => LabelTells(name, target, base, tb);
    case TableAccess(table, key) =>
      GenAccess(table, key, base, tb);
      GenKeyTells(key, base, tb);
      var k := GenKey(key, base, tb).value;
      var get := Leaf(TableGet(UNBOUND, KeyRegister(key), 0, table));
      ToldQuiet(get, base + Weight(k.tree), k.tables.labels);
      ToldPair(k.tree, get, base, tb.labels, k.tables.labels, k.tables.labels);
    case TableUpdate(table, key, value) => UpdateTells(table, key, value, base, tb);
    case _ => NodeTells(a, base, tb);
  }

  lemma NodeTells(a: Ast, base: nat, tb: Tables)
    requires Childless(a) && Gen(a, base, tb).Some?
    ensures var g := Gen(a, base, tb).value; Told(g.tree, base, tb.labels, g.tables.labels)
  {
    if a.GotoNode? {
      GenGoto(a.name, base, tb);
      ReferredHere(tb.labels, a.name, Gen(a, base, tb).value.tree, base);
    } else {
      KeepsLabels(a, base, tb);
      ToldQuiet(Gen(a, base, tb).value.tree, base, tb.labels);
    }
  }

  lemma GenGoto(name: seq<byte>, base: nat, tb: Tables)
    ensures Gen(GotoNode(name), base, tb)
         == Some(Generated(Leaf(Goto(FindLabel(tb.labels, name))), tb.(labels := ReferLabel(tb.labels, name))))
  {
    hide FindLabel, ReferLabel;
  }

  lemma KeepsLabels(a: Ast, base: nat, tb: Tables)
    requires Childless(a) && !a.GotoNode? && Gen(a, base, tb).Some?
    ensures Gen(a, base, tb).value.tables.labels == tb.labels
  {
    hide CharClasses.Register, ClassOf;
  }

  lemma {:induction false} LabelTells(name: seq<byte>, target: Ast, base: nat, tb: Tables)
    requires Gen(LabelNode(name, target), base, tb).Some?
    ensures var g := Gen(LabelNode(name, target), base, tb).value; Told(g.tree, base, tb.labels, g.tables.labels)
    decreases target, 5
  {
    hide Gen, Weight, DefineLabel, FindLabel, Told;
    GenLabel(name, target, base, tb);
    var labels := DefineLabel(tb.labels, name, base + 3).value;
    var g := Gen(target, base + 3, tb.(labels := labels)).value;
    var here := Leaf(Label(FindLabel(tb.labels, name)));
    DefinedHere(tb.labels, name, base + 3);
    LabelWeighs(Label(FindLabel(tb.labels, name)), FindLabel(tb.labels, name));
    GenTells(target, base + 3, tb.(labels := labels));
    ToldPair(here, g.tree, base, tb.labels, labels, g.tables.labels);
  }

  lemma {:induction false} GenCapturedTells(reg: int, sub: Ast, base: nat, tb: Tables)
    requires GenCaptured(reg, sub, base, tb).Some?
    ensures var g := GenCaptured(reg, sub, base, tb).value; Told(g.tree, base, tb.labels, g.tables.labels)
    decreases sub, 5
  {
    hide Gen, Captured, Told;
    GenTells(sub, base + 2, tb);
    var g := Gen(sub, base + 2, tb).value;
    ToldCaptured(reg, g.tree, base, tb.labels, g.tables.labels);
  }

  lemma {:induction false} GenBodyTells(sub: Ast, id: nat, min: int, max: int, base: nat, tb: Tables)
    requires GenBody(sub, id, min, max, base, tb).Some?
    ensures var g := GenBody(sub, id, min, max, base, tb).value; Told(g.tree, base, tb.labels, g.tables.labels)
    decreases sub, 5
  {
    hide Gen, Told;
    GenTells(sub, base + 14, tb);
    var g := Gen(sub, base + 14, tb).value;
    ToldLoop(id, min, max, g.tree, base, tb.labels, g.tables.labels);
  }

  lemma {:induction false} GenLoopTells(sub: Ast, base: nat, tb: Tables)
    requires GenLoop(sub, base, tb).Some?
    ensures var g := GenLoop(sub, base, tb).value; Told(g.tree, base, tb.labels, g.tables.labels)
    decreases sub, 5
  {
    hide Gen, Told;
    var core, tb' := Unrepeat(Unarbno(sub)), tb.(loops := tb.loops + 1);
    GenTells(core, base + 14, tb');
    var g := Gen(core, base + 14, tb').value;
    ToldLoop(tb.loops, 0, UNBOUNDED, g.tree, base, tb.labels, g.tables.labels);
  }

  lemma {:induction false} GenKeyTells(key: Ast, base: nat, tb: Tables)
    requires GenKey(key, base, tb).Some?
    ensures var g := GenKey(key, base, tb).value; Told(g.tree, base, tb.labels, g.tables.labels)
    decreases key, 5
  {
    hide Gen, Captured, Told;
    if key.RegRef? {
      ToldQuiet(Sequence([]), base, tb.labels);
    } else {
      GenTells(key, base + 2, tb);
      var g := Gen(key, base + 2, tb).value;
      ToldCaptured(0, g.tree, base, tb.labels, g.tables.labels);
    }
  }

  lemma {:induction false} UpdateTells(table: seq<byte>, key: Ast, value: Ast, base: nat, tb: Tables)
    requires Gen(TableUpdate(table, key, value), base, tb).Some?
    ensures var g := Gen(TableUpdate(table, key, value), base, tb).value; Told(g.tree, base, tb.labels, g.tables.labels)
    decreases if key < value then value else key, 6
  {
    hide Gen, GenKey, GenCaptured, Weight, Told, ToldAll;
    GenUpdate(table, key, value, base, tb);
    var (k, v) := GenKeyValue(key, value, base, tb).value;
    var mid, end := base + Weight(k.tree), base + Weight(k.tree) + Weight(v.tree);
    var put := Leaf(TableSet(UNBOUND, KeyRegister(key), 1, table));
    GenKeyTells(key, base, tb);
    GenCapturedTells(1, value, mid, k.tables);
    ToldQuiet(put, end, v.tables.labels);
    assert [put] + [] == [put] && [v.tree] + [put] == [v.tree, put];
    assert [k.tree] + [v.tree, put] == [k.tree, v.tree, put];
    ToldNothing(end + Weight(put), v.tables.labels);
    ToldCons(put, [], end, v.tables.labels, v.tables.labels, v.tables.labels);
    ToldCons(v.tree, [put], mid, k.tables.labels, v.tables.labels, v.tables.labels);
    ToldCons(k.tree, [v.tree, put], base, tb.labels, k.tables.labels, v.tables.labels);
    ToldRow([k.tree, v.tree, put], base, tb.labels, v.tables.labels);
  }

  lemma {:induction false} GenAllTells(ps: seq<Ast>, base: nat, tb: Tables)
    requires GenAll(ps, base, tb).Some?
    ensures var g := GenAll(ps, base, tb).value; ToldAll(g.trees, base, tb.labels, g.tables.labels)
    decreases ps, 0
  {
    hide Gen, Weight, Told, ToldAll;
    if ps == [] {
      ToldNothing(base, tb.labels);
    } else {
      var g := Gen(ps[0], base, tb).value;
      var mid := base + Weight(g.tree);
      GenTells(ps[0], base, tb);
      GenAllTells(ps[1..], mid, g.tables);
      var rest := GenAll(ps[1..], mid, g.tables).value;
      ToldCons(g.tree, rest.trees, base, tb.labels, g.tables.labels, rest.tables.labels);
    }
  }

  // ----- Reading back -----

  lemma {:induction false} OffsetsReadBack(image: seq<byte>, p: nat, labels: seq<LabelEntry>, k: nat)
    requires At(image, p, LabelOffsets(labels)) && k < |labels|
    ensures p + 4 * k + 4 <= |image|
    ensures U32At(image, p + 4 * k) == Low32(if labels[k].defined then labels[k].offset else 0)
    decreases k
  {
    hide Enc32, U32At, Low32;
    var first := Enc32(LabelOffset(labels[0]));
    AtConcat(image, p, first, LabelOffsets(labels[1..]));
    if k == 0 {
      Decode32(image, p, LabelOffset(labels[0]));
    } else {
      OffsetsReadBack(image, p + 4, labels[1..], k - 1);
    }
  }

  /** Where the label section sits. */
  lemma LabelsAt(body: seq<byte>, classes: seq<CharClass>, labels: seq<LabelEntry>)
    ensures var image := ImageOf(body, classes, labels);
      |image| >= 8 + 4 * |labels| && At(image, |image| - 8 - 4 * |labels|, LabelOffsets(labels))
  {
    hide LabelOffsets, ClassSection;
    var image, front := ImageOf(body, classes, labels), body + ClassSection(classes, |body|);
    assert image == front + LabelSection(labels);
    assert At(image, 0, image) by { assert image[0..|image|] == image; }
    AtConcat(image, 0, front, LabelSection(labels));
    AtConcat(image, |front|, LabelOffsets(labels) + Enc32(|labels|), Enc32(MAGIC));
    AtConcat(image, |front|, LabelOffsets(labels), Enc32(|labels|));
  }

  lemma IndexOfLabels(body: seq<byte>, classes: seq<CharClass>, labels: seq<LabelEntry>)
    requires |ImageOf(body, classes, labels)| < U32
    ensures var image := ImageOf(body, classes, labels);
      && |image| >= 8 + 4 * |labels|
      && LabelIndex(image) == if labels == [] then None else Some((|labels|, |image| - 8 - 4 * |labels|))
  {
    hide Enc32, U32At, Low32, ImageOf, Blobs, OffsetTable;
    var image := ImageOf(body, classes, labels);
    SectionsAt(body, classes, labels);
    var end := |body| + |Blobs(classes)| + 4 * |classes| + 4;
    Decode32(image, end + 4 * |labels|, |labels|);
    Decode32(image, end + 4 * |labels| + 4, MAGIC);
    Fits32(|labels|);
    Fits32(MAGIC);
  }

  /** Each id leads to the offset that its entry has in the table, cut to sixteen bits, and no other id leads anywhere. */
  lemma TargetsReadBack(body: seq<byte>, classes: seq<CharClass>, labels: seq<LabelEntry>, id: nat)
    requires |ImageOf(body, classes, labels)| < U32 && |labels| <= U16
    ensures TargetOf(ImageOf(body, classes, labels), id)
         == if id < |labels| then Some(Low16(Low32(if labels[id].defined then labels[id].offset else 0))) else None
  {
    hide U32At, Low32, Low16, ImageOf, LabelIndex;
    var image := ImageOf(body, classes, labels);
    IndexOfLabels(body, classes, labels);
    if id < |labels| {
      LabelsAt(body, classes, labels);
      OffsetsReadBack(image, |image| - 8 - 4 * |labels|, labels, id);
      UsedOnce(id, |labels|);
    }
  }

  lemma UsedOnce(id: nat, n: nat)
    requires id < n <= U16
    ensures LastUse(id, n) == id
  {
  }

  /** The walk of the image stops at LABEL `id`, and right behind it, at `p`. */
  ghost predicate LabelHere(image: seq<byte>, id: nat, p: nat) {
    && Walk(image, 0, BodyLen(image)).Some?
    && var starts := Walk(image, 0, BodyLen(image)).value;
       && p >= 3 && p - 3 in starts && p in starts && p <= |image|
       && image[p - 3] == OP_LABEL && U16At(image, p - 2) == id
  }

  lemma LabelReads(image: seq<byte>, id: nat, p: nat)
    requires p >= 3 && At(image, p - 3, Encode(Label(id))) && id < U16
    ensures p <= |image| && image[p - 3] == OP_LABEL && U16At(image, p - 2) == id
  {
    hide Enc16, U16At, At, Low16;
    LabelBytes(id);
    AtConcat(image, p - 3, [OP_LABEL], Enc16(id));
    AtByte(image, p - 3, [OP_LABEL], 0);
    AtEnd(image, p - 2, Enc16(id));
    Decode16(image, p - 2, id);
    Fits16(id);
  }

  lemma LabelBytes(id: nat)
    ensures Encode(Label(id)) == [OP_LABEL] + Enc16(id)
  {
    hide Enc16;
  }

  lemma Fits16(v: nat)
    requires v < U16
    ensures Low16(v) == v
  {
  }

  lemma InBody(t: Tree, p: nat)
    requires Landing(t, 0, p)
    ensures p in BodyStarts(t)
  {
    hide TreeStarts;
  }

  lemma StartInBody(t: Tree, p: nat)
    requires p in TreeStarts(t, 0)
    ensures p in BodyStarts(t)
  {
    hide TreeStarts;
  }

  /** A defined label of the table is where the walk of the image finds it. */
  lemma DefinedIsHere(a: Ast, id: nat, p: nat)
    requires NamesFit(a) && Compiled(a).Some? && |Compiled(a).value| < U32 && FusesAtStarts(a)
    requires Defines(Gen(a, 0, NO_TABLES).value.tables.labels, id, p) && id < U16
    ensures LabelHere(Compiled(a).value, id, p)
  {
    hide Gen, Walk, BodyOf, FuseTree, ImageOf, BodyLen, EncodeAll, JumpsStayInside, Canonical, AllBounded,
         FewRanges, LoadClasses, At, NamesFit, BodyStarts, Marks, Landing, TreeStarts, Encode, Emitted, BodyProgram;
    var g := Gen(a, 0, NO_TABLES).value;
    GenFromNothing(a);
    var t, image := FusedTreeOf(a), Compiled(a).value;
    GenTells(a, 0, NO_TABLES);
    assert Marks(g.tree, 0, id, p);
    FuseKeepsMarks(g.tree, g.tables.classes, 0, id, p);
    ImageHolds(g, image);
    TreeInPlace(image, t);
    MarksStand(image, t, 0, id, p);
    LabelReads(image, id, p);
    InBody(t, p);
    StartInBody(t, p - 3);
    WalkerMeetsCompiler(a);
  }

  lemma TreeInPlace(image: seq<byte>, t: Tree)
    requires At(image, 0, BodyOf(t))
    ensures At(image, 0, Emitted(t, 0))
  {
    hide Emitted, At;
    AtConcat(image, 0, Emitted(t, 0), [OP_ACCEPT]);
  }

  /** An id leads behind the LABEL instruction that carries it, exactly when that place lies below 64 KiB: the VM keeps
      sixteen bits of it. */
  ghost predicate LeadsHome(image: seq<byte>, id: nat) {
    exists p: nat :: LabelHere(image, id, p) && TargetOf(image, id) == Some(Low16(p))
                     && (TargetOf(image, id) == Some(p) <==> p < U16)
  }

  /** Every label id of a compiled pattern leads to its label, as far as sixteen bits can; other ids lead nowhere. */
  lemma LabelsReadBack(a: Ast, id: nat)
    requires NamesFit(a) && Compiled(a).Some? && |Compiled(a).value| < U32 && FusesAtStarts(a)
    requires |Gen(a, 0, NO_TABLES).value.tables.labels| <= U16
    ensures if id < |Gen(a, 0, NO_TABLES).value.tables.labels| then LeadsHome(Compiled(a).value, id)
            else TargetOf(Compiled(a).value, id) == None
  {
    hide Gen, FusedBody, ImageOf, TargetOf, LabelHere, NamesFit, FusesAtStarts, Low32, Low16, Told, Compiled, FewRanges,
         BodyOf, Canonical;
    CompiledMayGenerate(a);
    var g, image := Gen(a, 0, NO_TABLES).value, Compiled(a).value;
    var labels := g.tables.labels;
    ImageParts(a);
    TargetsReadBack(FusedBody(g).code, FusedBody(g).entries, labels, id);
    if id < |labels| {
      AllDefined(a, id);
      var p := labels[id].offset;
      DefinedIsHere(a, id, p);
      HereFits(image, id, p);
      CutExactly(p);
      assert LabelHere(image, id, p) && TargetOf(image, id) == Some(Low16(p));
    }
  }

  lemma ImageParts(a: Ast)
    requires Compiled(a).Some? && Gen(a, 0, NO_TABLES).Some?
    ensures var g := Gen(a, 0, NO_TABLES).value;
      Canonical(g.tables.classes)
      && Compiled(a).value == ImageOf(FusedBody(g).code, FusedBody(g).entries, g.tables.labels)
  {
    hide Gen, ImageOf, FusedBody;
    GenFromNothing(a);
  }

  lemma HereFits(image: seq<byte>, id: nat, p: nat)
    requires LabelHere(image, id, p) && |image| < U32
    ensures Low32(p) == p
  {
    hide Walk, BodyLen;
  }

  lemma CutExactly(p: nat)
    ensures Low16(p) == p <==> p < U16
  {
  }

  /** No label of a compiled pattern is left undefined. */
  lemma AllDefined(a: Ast, id: nat)
    requires Compiled(a).Some? && Gen(a, 0, NO_TABLES).Some? && id < |Gen(a, 0, NO_TABLES).value.tables.labels|
    ensures Gen(a, 0, NO_TABLES).value.tables.labels[id].defined
  {
    hide Gen, ImageOf, FusedBody;
    GenTells(a, 0, NO_TABLES);
    var labels := Gen(a, 0, NO_TABLES).value.tables.labels;
    assert InUse(labels) && !Unresolved(labels);
  }

  /** In the short image of a quiet pattern every label id leads to its label. */
  lemma QuietLabels(a: Ast, id: nat)
    requires Quiet(a) && Compiled(a).Some? && |Compiled(a).value| < U16
    ensures Gen(a, 0, NO_TABLES).Some?
    ensures if id < |Gen(a, 0, NO_TABLES).value.tables.labels| then
              exists p: nat :: LabelHere(Compiled(a).value, id, p) && TargetOf(Compiled(a).value, id) == Some(p)
            else TargetOf(Compiled(a).value, id) == None
  {
    hide Quiet, Gen, FusesAtStarts, NamesFit, TargetOf, LabelHere, FusedBody, ImageOf, Low16, Compiled, Canonical;
    CompiledMayGenerate(a);
    QuietFusesAtStarts(a);
    var g, image := Gen(a, 0, NO_TABLES).value, Compiled(a).value;
    ImageParts(a);
    LabelsAt(FusedBody(g).code, FusedBody(g).entries, g.tables.labels);
    LabelsReadBack(a, id);
    if id < |g.tables.labels| {
      var p: nat :| LabelHere(image, id, p) && TargetOf(image, id) == Some(Low16(p))
                    && (TargetOf(image, id) == Some(p) <==> p < U16);
      HereIsInside(image, id, p);
    }
  }

  lemma CompiledMayGenerate(a: Ast)
    requires Compiled(a).Some?
    ensures Gen(a, 0, NO_TABLES).Some?
  {
    hide Gen;
  }

  lemma HereIsInside(image: seq<byte>, id: nat, p: nat)
    requires LabelHere(image, id, p)
    ensures p <= |image|
  {
    hide Walk, BodyLen;
  }

  /** A label right behind a text. */
  function Behind(text: seq<byte>, name: seq<byte>): Ast { Concat([Literal(text), LabelNode(name, Literal([]))]) }

  lemma BehindGenerates(text: seq<byte>, name: seq<byte>)
    ensures var g := Gen(Behind(text, name), 0, NO_TABLES);
      && g.Some? && |g.value.tables.labels| == 1 && g.value.tables.labels[0].defined
      && g.value.tables.labels[0].offset == |text| + 12 && !g.value.tables.labels[0].referenced
  {
    hide Gen, Weight;
    var target := LabelNode(name, Literal([]));
    GenNested(Behind(text, name), 0, NO_TABLES);
    GenAllStep([Literal(text), target], 0, NO_TABLES);
    GenText(text, 0, NO_TABLES);
    TextWeighs(text);
    assert [Literal(text), target][1..] == [target] && [target][1..] == [];
    GenAllStep([target], |text| + 9, NO_TABLES);
    GenLabel(name, Literal([]), |text| + 9, NO_TABLES);
    GenText([], |text| + 12, NO_TABLES.(labels := DefineLabel([], name, |text| + 12).value));
    GenAllStep([], |text| + 9 + Weight(Gen(target, |text| + 9, NO_TABLES).value.tree),
               Gen(target, |text| + 9, NO_TABLES).value.tables);
  }

  lemma TextWeighs(text: seq<byte>)
    ensures Weight(TextLeaf(text)) == |text| + 9
  {
  }

  /** Behind a text the label's target is its place exactly when the text is short enough. */
  lemma FarLabelIsLost(text: seq<byte>, name: seq<byte>)
    ensures Compiled(Behind(text, name)).Some?
    ensures var image := Compiled(Behind(text, name)).value;
      |image| < U32 ==>
        TargetOf(image, 0) == Some(Low16(|text| + 12))
        && (TargetOf(image, 0) == Some(|text| + 12) <==> |text| + 12 < U16)
  {
    hide Gen, FusedBody, ImageOf, TargetOf, Low16, Canonical;
    BehindGenerates(text, name);
    var a := Behind(text, name);
    var g := Gen(a, 0, NO_TABLES).value;
    GenFromNothing(a);
    ImageParts(a);
    if |Compiled(a).value| < U32 {
      TargetsReadBack(FusedBody(g).code, FusedBody(g).entries, g.tables.labels, 0);
      LabelsAt(FusedBody(g).code, FusedBody(g).entries, g.tables.labels);
      CutTwice(|text| + 12);
      CutExactly(|text| + 12);
    }
  }

  lemma CutTwice(v: nat)
    ensures Low16(Low32(v)) == Low16(v)
  {
    var q, r := v / U32, v % U32;
    RestOf(r / U16, r % U16);
    RestOf(q * U16 + r / U16, r % U16);
    assert v == (q * U16 + r / U16) * U16 + r % U16;
  }

  lemma RestOf(m: nat, b: nat)
    requires b < U16
    ensures (m * U16 + b) % U16 == b
  {
  }
}
