/** The branches of a compiled body lead forward, so the analyses that unfold them end; and with no
    tabulation every operation they skip stays put. */
module CompiledBranches {
  import opened Bytes
  import opened Bytecode
  import opened CharClasses
  import opened Semantics
  import opened CodeTree
  import opened CodeMeaning
  import opened FusionStarts
  import opened Walker
  import opened StartBitmap
  import opened CompiledFlow
  import opened SharedPrefix
  import opened AlternationPrefix
  import opened LeadingLiteral
  import opened SearchMeta

  /** A SPLIT at `p` has both targets behind it. */
  predicate Onward(i: Instr, p: nat) { i.Split? ==> p < i.a && p < i.b }

  predicate AllOnward(prog: seq<Instr>, base: nat) {
    forall k :: 0 <= k < |prog| ==> Onward(prog[k], InstrStarts(prog, base)[k])
  }

  lemma OnwardConcat(a: seq<Instr>, b: seq<Instr>, base: nat)
    requires AllOnward(a, base) && AllOnward(b, base + Size(a))
    ensures AllOnward(a + b, base)
  {
    hide Onward;
    InstrStartsConcat(a, b, base);
    var sa, sb := InstrStarts(a, base), InstrStarts(b, base + Size(a));
    forall k | 0 <= k < |a + b| ensures Onward((a + b)[k], InstrStarts(a + b, base)[k]) {
      if k < |a| {
        assert (sa + sb)[k] == sa[k];
      } else {
        assert (sa + sb)[k] == sb[k - |a|] && (a + b)[k] == b[k - |a|];
      }
    }
  }

  lemma OneOnward(i: Instr, base: nat)
    requires Onward(i, base)
    ensures AllOnward([i], base)
  {
    hide Onward;
    StartsOne(i, base);
  }

  lemma {:induction false} LayIsOnward(t: Tree, base: nat)
    requires Plain(t)
    ensures AllOnward(Lay(t, base), base)
    decreases t, 0
  {
    hide AllOnward, Encode, Size, Weight;
    match t
    case Leaf(i) => OneOnward(i, base);
    case TextLeaf(text) => OneOnward(Lit(base + 9, text), base);
    case Sequence(ps) => LayAllIsOnward(ps, base);
    case Either(l, r) =>
      LayIsOnward(l, base + 9);
      LayIsOnward(r, base + 14 + Weight(l));
      EitherOnward(l, r, base);
    case Fused(id, pad) => FusedOnward(id, pad, base);
  }

  lemma EitherOnward(l: Tree, r: Tree, base: nat)
    requires AllOnward(Lay(l, base + 9), base + 9)
    requires AllOnward(Lay(r, base + 14 + Weight(l)), base + 14 + Weight(l))
    ensures AllOnward(Lay(Either(l, r), base), base)
  {
    hide AllOnward, Encode, Size;
    var right := base + 14 + Weight(l);
    var s, j := Split(base + 9, right), Jmp(right + Weight(r));
    var ll, lr := Lay(l, base + 9), Lay(r, right);
    OneOnward(s, base);
    OneOnward(j, right - 5);
    SizeOne(s);
    SizeOne(j);
    FixedWidths(0, base + 9, right, 0, 0);
    FixedWidths(0, right + Weight(r), 0, 0, 0);
    SizeOfTree(l, base + 9);
    SizeConcat([s], ll);
    SizeConcat([s] + ll, [j]);
    OnwardConcat([s], ll, base);
    OnwardConcat([s] + ll, [j], base);
    OnwardConcat([s] + ll + [j], lr, base);
  }

  lemma FusedOnward(id: nat, pad: nat, base: nat)
    ensures AllOnward(Lay(Fused(id, pad), base), base)
  {
    hide InstrStarts;
  }

  lemma {:induction false} LayAllIsOnward(ps: seq<Tree>, base: nat)
    requires forall k :: 0 <= k < |ps| ==> Plain(ps[k])
    ensures AllOnward(LayAll(ps, base), base)
    decreases ps, 0
  {
    hide Encode, Plain, Onward, Size, Weight, Lay;
    if ps != [] {
      LayIsOnward(ps[0], base);
      LayAllIsOnward(ps[1..], base + Weight(ps[0]));
      SizeOfTree(ps[0], base);
      OnwardConcat(Lay(ps[0], base), LayAll(ps[1..], base + Weight(ps[0])), base);
    }
  }

  lemma BodyOnward(t: Tree)
    requires Plain(t)
    ensures AllOnward(BodyProgram(t), 0)
  {
    hide AllOnward, Encode, Size;
    LayIsOnward(t, 0);
    SizeOfTree(t, 0);
    OneOnward(Bare(BareOp.Accept), Weight(t));
    OnwardConcat(Lay(t, 0), [Bare(BareOp.Accept)], 0);
  }

  /** A byte that reads as SPLIT at an instruction start is a SPLIT, and leads forward. */
  lemma SplitLeadsOn(env: Env, t: Tree, p: nat)
    requires Plain(t) && Walkable(t) && At(env.code, 0, BodyOf(t)) && |env.code| < U32 && p in StartSet(t)
    requires p < |env.code| && env.code[p] == OP_SPLIT
    ensures Decode(env, p).Fork?
    ensures var a, b := Decode(env, p).a, Decode(env, p).b; p < a && p < b && a in StartSet(t) && b in StartSet(t)
  {
    hide Encode, Decode, BodyOf, EncodeAll, Walkable, Plain, At, StartSet, BodyProgram, InstrStarts;
    var k := StartHasInstr(t, p);
    var i := BodyProgram(t)[k];
    BodyProgramIs(t);
    BodyInstr(env, t, k);
    InstrAt(env.code, BodyProgram(t), k);
    AtByte(env.code, p, Encode(i), 0);
    FirstIsOpcode(i);
    PlainIsRunnable(t, 0);
    BodyRunnable(t, k);
    OpcodeOfSplit(i);
    BodyOnward(t);
    assert Onward(i, p);
    TargetsSmall(env.code, t, k);
    SplitTargets(i);
    DecodeSplitAt(env, p, i.a, i.b);
  }

  lemma FirstIsOpcode(i: Instr)
    ensures Encode(i) != [] && Encode(i)[0] == Opcode(i)
  {
    hide Operands;
  }

  lemma OpcodeOfSplit(i: Instr)
    requires Runnable(i) && Opcode(i) == OP_SPLIT
    ensures i.Split?
  {
  }

  lemma SplitTargets(i: Instr)
    requires i.Split?
    ensures i.a in Targets(i) && i.b in Targets(i)
  {
  }

  /** The branches of a compiled body lead forward. */
  lemma CompiledLeadsForward(env: Env, t: Tree)
    requires Plain(t) && Walkable(t) && At(env.code, 0, BodyOf(t)) && |env.code| < U32
    ensures LeadsForward(env.code)
  {
    hide Plain, Walkable, At, BodyOf, U32At, Decode, StartSet, Unfolds;
    var code, at := Front(env.code), StartSet(t);
    forall p | p in at && IsBranch(code, p)
      ensures p < U32At(code, p + 1) && U32At(code, p + 1) in at && p < U32At(code, p + 5) && U32At(code, p + 5) in at
    {
      BranchDecodes(env, p);
      assert env.code[p] == OP_SPLIT;
      SplitLeadsOn(env, t, p);
    }
    BodyBegins(t);
    ForwardUnfolds(code, at, 0);
  }

  /** Nothing that is skipped in front of a leading literal moves the cursor of tracked code. */
  lemma {:induction false} TrackedStaysPut(env: Env, at: set<nat>, ip: nat)
    requires Tracked(env, at) && ip in at
    ensures StaysPut(env.code, ip)
    decreases |env.code| - ip
  {
    hide U32At, Tracked, Loose;
    TrackedAt(env, at, ip);
    TrackedIsLoose(env, at);
    var code := env.code;
    var op := code[ip];
    if op == OP_ANCHOR && ip + 2 <= |code| {
      AnchorDecodes(env, ip);
      TrackedStaysPut(env, at, ip + 2);
    } else if IsPosition(op) && ip + 5 <= |code| {
      PositionDecodes(env, ip, CountOf(op));
      TrackedStaysPut(env, at, ip + 5);
    } else if op == OP_NOP || op == OP_FENCE {
      BareDecodes(env, ip);
      TrackedStaysPut(env, at, ip + 1);
    }
  }

  function CountOf(op: byte): CountOp
    requires IsPosition(op)
    ensures CountOpcode(CountOf(op)) == op
  {
    if op == OP_POS then Pos else if op == OP_RPOS then RPos else if op == OP_TAB then Tab else RTab
  }
}
