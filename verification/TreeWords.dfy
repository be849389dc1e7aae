/** The texts that the code of a tree passes over: what can be matched by a tree of literals, LEN, single-character
    classes, captures and alternations is matched by its compiled code. */
module TreeWords {
  import opened Wrappers
  import opened Bytes
  import opened Ranges
  import opened CharClasses
  import opened Bytecode
  import opened Semantics
  import opened Machine
  import opened Outcomes
  import opened CodeTree
  import opened CodeMeaning
  import opened FusionStarts
  import opened Trailer
  import opened EndToEnd
  import opened Walker

  predicate CountableLeaf(i: Instr) {
    match i
    case Class(_, _) => true
    case Count(_, n) => 0 <= n < U32
    case CapStart(_) => true
    case CapEnd(_) => true
    case Assign(_, _) => true
    case Anchor(_) => true
    case _ => false
  }

  predicate Countable(t: Tree) {
    match t
    case Leaf(i) => CountableLeaf(i)
    case TextLeaf(text) => |text| < U32
    case Sequence(ps) => forall k :: 0 <= k < |ps| ==> Countable(ps[k])
    case Either(l, r) => Countable(l) && Countable(r)
    case _ => false
  }

  // ----- Texts of a tree -----

  /** A class operation takes the byte as a character of its own. */
  predicate TakesByte(op: ClassOp, cls: Option<seq<Range>>, b: byte) {
    && (op.Any? || op.NotAny?)
    && (b < 0x80 || (cls.Some? && IsAscii(cls.value)))
    && (op.Any? <==> cls.Some? && InSet(cls.value, b))
  }

  predicate AllLetters(w: seq<byte>) { forall k :: 0 <= k < |w| ==> w[k] < 0x80 }

  /** The tree can pass over the text, wherever it stands. */
  ghost predicate Word(t: Tree, classes: seq<CharClass>, w: seq<byte>)
    decreases t, 0
  {
    match t
    case Leaf(Class(op, id)) => |w| == 1 && TakesByte(op, ClassAt(classes, Low16(id)), w[0])
    case Leaf(Count(op, n)) => op.Len? && |w| == n && AllLetters(w)
    case Leaf(CapStart(_)) => w == []
    case Leaf(CapEnd(_)) => w == []
    case Leaf(Assign(_, _)) => w == []
    case TextLeaf(text) => w == text
    case Sequence(ps) => RowWord(ps, classes, w)
    case Either(l, r) => Word(l, classes, w) || Word(r, classes, w)
    case _ => false
  }

  ghost predicate RowWord(ps: seq<Tree>, classes: seq<CharClass>, w: seq<byte>)
    decreases ps, 0
  {
    if ps == [] then w == []
    else exists k | 0 <= k <= |w| :: Word(ps[0], classes, w[..k]) && RowWord(ps[1..], classes, w[k..])
  }

  lemma RowWordJoins(ps: seq<Tree>, classes: seq<CharClass>, v: seq<byte>, w: seq<byte>)
    requires ps != [] && Word(ps[0], classes, v) && RowWord(ps[1..], classes, w)
    ensures RowWord(ps, classes, v + w)
  {
    hide Word;
    assert (v + w)[..|v|] == v && (v + w)[|v|..] == w;
  }

  // ----- Outcomes -----

  /** Some outcome stands at `pos`, and the outcomes end by running out. */
  ghost predicate Offers(o: Outcome, pos: nat) {
    o.fin.Exhausted? && exists k :: 0 <= k < |o.states| && o.states[k].pos == pos
  }

  lemma {:induction false} CountablePlain(t: Tree)
    requires Countable(t)
    ensures Plain(t) && Walkable(t)
  {
    match t
    case Sequence(ps) => forall k | 0 <= k < |ps| ensures Plain(ps[k]) && Walkable(ps[k]) { CountablePlain(ps[k]); }
    case Either(l, r) =>
      CountablePlain(l);
      CountablePlain(r);
    case _ =>
  }

  lemma {:induction false} RunsOut(t: Tree, classes: seq<CharClass>, s: seq<byte>, st: State)
    requires Countable(t) && Plain(t)
    ensures Run(t, classes, s, st).fin.Exhausted?
    decreases t, 0, 0
  {
    hide PrimStep;
    match t
    case Sequence(ps) => RowRunsOut(ps, classes, s, st);
    case Either(l, r) =>
      RunsOut(l, classes, s, st);
      RunsOut(r, classes, s, st);
    case _ =>
  }

  lemma {:induction false} RowRunsOut(ps: seq<Tree>, classes: seq<CharClass>, s: seq<byte>, st: State)
    requires forall k :: 0 <= k < |ps| ==> Countable(ps[k]) && Plain(ps[k])
    ensures RunAll(ps, classes, s, st).fin.Exhausted?
    decreases ps, 0, 0
  {
    if ps != [] {
      RunsOut(ps[0], classes, s, st);
      EachRunsOut(ps[1..], classes, s, Run(ps[0], classes, s, st));
    }
  }

  lemma {:induction false} EachRunsOut(ps: seq<Tree>, classes: seq<CharClass>, s: seq<byte>, o: Outcome)
    requires forall k :: 0 <= k < |ps| ==> Countable(ps[k]) && Plain(ps[k])
    requires o.fin.Exhausted?
    ensures RunEach(ps, classes, s, o).fin.Exhausted?
    decreases ps, 1, |o.states|
  {
    if o.states != [] {
      RowRunsOut(ps, classes, s, o.states[0]);
      EachRunsOut(ps, classes, s, Outcome(o.states[1..], o.fin));
    }
  }

  /** What the tail offers from one outcome of the head, the row offers. */
  lemma {:induction false} EachOffers(ps: seq<Tree>, classes: seq<CharClass>, s: seq<byte>, o: Outcome, k: nat, pos: nat)
    requires forall j :: 0 <= j < |ps| ==> Countable(ps[j]) && Plain(ps[j])
    requires o.fin.Exhausted? && k < |o.states| && Offers(RunAll(ps, classes, s, o.states[k]), pos)
    ensures Offers(RunEach(ps, classes, s, o), pos)
    decreases k
  {
    hide RunAll, Countable, Plain;
    var head, others := RunAll(ps, classes, s, o.states[0]), Outcome(o.states[1..], o.fin);
    RowRunsOut(ps, classes, s, o.states[0]);
    EachRunsOut(ps, classes, s, others);
    if k > 0 { EachOffers(ps, classes, s, others, k - 1, pos); }
    EitherOffers(head, RunEach(ps, classes, s, others), pos);
  }

  lemma EitherOffers(a: Outcome, b: Outcome, pos: nat)
    requires a.fin.Exhausted? && b.fin.Exhausted? && (Offers(a, pos) || Offers(b, pos))
    ensures Offers(OrElse(a, b), pos)
  {
    var o := OrElse(a, b);
    if Offers(a, pos) {
      var k :| 0 <= k < |a.states| && a.states[k].pos == pos;
      assert o.states[k].pos == pos;
    } else {
      var k :| 0 <= k < |b.states| && b.states[k].pos == pos;
      assert o.states[|a.states| + k].pos == pos;
    }
  }

  lemma OnceOffers(st: State)
    ensures Offers(Once(st), st.pos)
  {
    assert Once(st).states[0].pos == st.pos;
  }

  /** A text stands in the subject. */
  predicate Stands(s: seq<byte>, pos: nat, w: seq<byte>) { pos + |w| <= |s| && s[pos..pos + |w|] == w }

  lemma StandsInTwo(s: seq<byte>, pos: nat, v: seq<byte>, w: seq<byte>)
    requires Stands(s, pos, v + w)
    ensures Stands(s, pos, v) && Stands(s, pos + |v|, w)
  {
    var both := s[pos..pos + |v + w|];
    assert both[..|v|] == v && both[|v|..] == w;
  }

  lemma {:induction false} LettersPass(s: seq<byte>, pos: nat, w: seq<byte>)
    requires Stands(s, pos, w) && AllLetters(w)
    ensures SkipCodepoints(s, pos, |w|) == Some(pos + |w|)
    decreases |w|
  {
    if w != [] {
      assert w == w[..1] + w[1..];
      StandsInTwo(s, pos, w[..1], w[1..]);
      assert s[pos] == s[pos..pos + 1][0] == w[0];
      LettersPass(s, pos + 1, w[1..]);
    }
  }

  lemma ClassOffers(op: ClassOp, id: int, classes: seq<CharClass>, s: seq<byte>, st: State, b: byte)
    requires TakesByte(op, ClassAt(classes, Low16(id)), b) && Stands(s, st.pos, [b])
    ensures Offers(Run(Leaf(Class(op, id)), classes, s, st), st.pos + 1)
  {
    hide InSet, IsAscii, Offers, ClassAt, Low16;
    assert s[st.pos] == s[st.pos..st.pos + 1][0] == b;
    OnceOffers(st.(pos := st.pos + 1));
  }

  lemma CountOffers(n: int, classes: seq<CharClass>, s: seq<byte>, st: State, w: seq<byte>)
    requires 0 <= n < U32 && |w| == n && AllLetters(w) && Stands(s, st.pos, w)
    ensures Offers(Run(Leaf(Count(Len, n)), classes, s, st), st.pos + n)
  {
    hide SkipCodepoints, AllLetters, Offers;
    LettersPass(s, st.pos, w);
    Fits32(n);
    OnceOffers(st.(pos := st.pos + n));
  }

  lemma SetsOffer(t: Tree, classes: seq<CharClass>, s: seq<byte>, st: State)
    requires t.Leaf? && (t.instr.CapStart? || t.instr.CapEnd? || t.instr.Assign?)
    ensures Offers(Run(t, classes, s, st), st.pos)
  {
    match t
    case Leaf(CapStart(r)) => OnceOffers(SetCapStart(st, Low8(r)));
    case Leaf(CapEnd(r)) => OnceOffers(SetCapEnd(st, Low8(r)));
    case Leaf(Assign(v, r)) => OnceOffers(SetVar(st, Low16(v), Low8(r)));
  }

  lemma LeafOffers(i: Instr, classes: seq<CharClass>, s: seq<byte>, st: State, w: seq<byte>)
    requires CountableLeaf(i) && Word(Leaf(i), classes, w) && Stands(s, st.pos, w)
    ensures Offers(Run(Leaf(i), classes, s, st), st.pos + |w|)
  {
    hide AllLetters, TakesByte, Offers, Stands, SetCapStart, SetCapEnd, SetVar, ClassStep, CountStep;
    match i
    case Class(op, id) =>
      assert w == [w[0]];
      ClassOffers(op, id, classes, s, st, w[0]);
    case Count(_, n) => CountOffers(n, classes, s, st, w);
    case CapStart(r) => SetsOffer(Leaf(i), classes, s, st);
    case CapEnd(r) => SetsOffer(Leaf(i), classes, s, st);
    case Assign(v, r) => SetsOffer(Leaf(i), classes, s, st);
  }

  lemma TextOffers(text: seq<byte>, classes: seq<CharClass>, s: seq<byte>, st: State)
    requires Stands(s, st.pos, text)
    ensures Offers(Run(TextLeaf(text), classes, s, st), st.pos + |text|)
  {
    OnceOffers(st.(pos := st.pos + |text|));
  }

  /** Where one of its texts stands, a tree passes over just that. */
  lemma {:induction false} TreeOffers(t: Tree, classes: seq<CharClass>, s: seq<byte>, st: State, w: seq<byte>)
    requires Countable(t) && Word(t, classes, w) && Plain(t) && Stands(s, st.pos, w)
    ensures Offers(Run(t, classes, s, st), st.pos + |w|)
    decreases t, 0
  {
    hide Acts, ActOutcome, Offers, Stands;
    match t
    case Leaf(i) => LeafOffers(i, classes, s, st, w);
    case TextLeaf(text) => TextOffers(text, classes, s, st);
    case Sequence(ps) => RowOffers(ps, classes, s, st, w);
    case Either(l, r) =>
      RunsOut(l, classes, s, st);
      RunsOut(r, classes, s, st);
      if Word(l, classes, w) {
        TreeOffers(l, classes, s, st, w);
      } else {
        TreeOffers(r, classes, s, st, w);
      }
      EitherOffers(Run(l, classes, s, st), Run(r, classes, s, st), st.pos + |w|);
  }

  lemma {:induction false} RowOffers(ps: seq<Tree>, classes: seq<CharClass>, s: seq<byte>, st: State, w: seq<byte>)
    requires forall k :: 0 <= k < |ps| ==> Countable(ps[k]) && Plain(ps[k])
    requires RowWord(ps, classes, w) && Stands(s, st.pos, w)
    ensures Offers(RunAll(ps, classes, s, st), st.pos + |w|)
    decreases ps, 0
  {
    hide Run, RunEach, Countable, Plain, Word, Stands;
    if ps == [] {
      OnceOffers(st);
    } else {
      var n :| 0 <= n <= |w| && Word(ps[0], classes, w[..n]) && RowWord(ps[1..], classes, w[n..]);
      assert w == w[..n] + w[n..];
      StandsInTwo(s, st.pos, w[..n], w[n..]);
      TreeOffers(ps[0], classes, s, st, w[..n]);
      var o := Run(ps[0], classes, s, st);
      var k :| 0 <= k < |o.states| && o.states[k].pos == st.pos + n;
      RowOffers(ps[1..], classes, s, o.states[k], w[n..]);
      EachOffers(ps[1..], classes, s, o, k, st.pos + |w|);
    }
  }

  /** The compiled code accepts every text of its tree. */
  lemma WordIsAccepted(image: seq<byte>, t: Tree, w: seq<byte>) returns (end: State)
    requires Countable(t) && Word(t, LoadClasses(image), w) && At(image, 0, BodyOf(t)) && |image| < U32
    ensures Runs(Boot(image, w), 0, Fresh(0), Accepted(end))
  {
    hide BodyOf, Runs, LoadClasses, Countable, Run, Word, Yields;
    CountablePlain(t);
    var st := Fresh(0);
    assert w[0..|w|] == w;
    TreeOffers(t, LoadClasses(image), w, st, w);
    var env := Boot(image, w);
    BodyRuns(env, t, st);
    var o := Run(t, env.classes, w, st);
    end := o.states[0];
    assert First(o, Accepting()) == Decided(Accepted(end));
    YieldsDecides(env, st, Decided(Accepted(end)), Accepted(end));
  }
}
