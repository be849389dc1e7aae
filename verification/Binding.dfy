/** Binding table names (snobol_pattern_bind_bytecode_tables): one in-place walk over the body
    that rewrites table ids and nothing else. */
module Binding {
  import opened Wrappers
  import opened Bytes
  import opened Layout
  import opened CharClasses
  import opened Bytecode
  import opened CodeTree
  import opened Pattern
  import opened Translate
  import opened FusionPass
  import opened FusedLayout
  import opened FusedScan
  import opened FusionStarts
  import opened GenShape
  import opened Trailer
  import opened Compiler
  import opened EndToEnd
  import opened Walker

  /** A caller's list of table names; missing entries match nothing. */
  type Names = seq<Option<seq<byte>>>

  /** Position of the first entry with this name, or the unbound id. */
  function IdOf(names: Names, name: seq<byte>): (id: nat)
    requires |names| < UNBOUND
    ensures id <= UNBOUND
    ensures id < UNBOUND ==> id < |names| && names[id] == Some(name) && Some(name) !in names[..id]
    ensures id == UNBOUND ==> Some(name) !in names
  {
    var k := FirstWith(names, name);
    if k < |names| then k else UNBOUND
  }

  function FirstWith(names: Names, name: seq<byte>): (k: nat)
    ensures k <= |names| && Some(name) !in names[..k]
    ensures k < |names| ==> names[k] == Some(name)
  {
    if names == [] then 0
    else if names[0] == Some(name) then 0
    else
      var k := FirstWith(names[1..], name);
      assert names[..k + 1] == [names[0]] + names[1..][..k];
      k + 1
  }

  /** The bytes a binding call leaves, and whether it reports success. */
  datatype Bound = Bound(code: seq<byte>, ok: bool)

  function WriteId(code: seq<byte>, ip: nat, id: nat): (r: seq<byte>)
    requires ip + 3 <= |code| && id < U16
    ensures |r| == |code|
  {
    code[ip + 1 := id / 0x100][ip + 2 := id % 0x100]
  }

  /** The walk from `ip`. An unbounded walk ends at the first terminal instruction. */
  function BindFrom(code: seq<byte>, ip: nat, limit: nat, bounded: bool, names: Names): (r: Bound)
    requires limit <= |code| && |names| < UNBOUND
    ensures |r.code| == |code|
    decreases limit - ip
  {
    if ip >= limit then Bound(code, true)
    else if !bounded && (code[ip] == OP_ACCEPT || code[ip] == OP_SUCCEED || code[ip] == OP_ABORT) then Bound(code, true)
    else if code[ip] == OP_TABLE_GET || code[ip] == OP_TABLE_SET then
      if ip + 6 > |code| || ip + 6 + code[ip + 5] > |code| then Bound(code, false)
      else
        var next := ip + 6 + code[ip + 5];
        var id := IdOf(names, code[ip + 6..next]);
        BindFrom(WriteId(code, ip, id), next, limit, bounded, names)
    else
      match NextInstruction(code, ip)
      case None => Bound(code, false)
      case Some(next) => if next > limit then Bound(code, false) else BindFrom(code, next, limit, bounded, names)
  }

  function Bind(code: seq<byte>, names: Names): (r: Bound)
    ensures |r.code| == |code|
  {
    if code == [] || |names| >= UNBOUND then Bound(code, false)
    else
      var body := BodyLen(code);
      BindFrom(code, 0, if body > 0 then body else |code|, body > 0, names)
  }

  // ----- The walk in place -----

  method FindName(bc: array<byte>, from: nat, to: nat, names: Names) returns (id: nat)
    requires from <= to <= bc.Length && |names| < UNBOUND
    ensures id == IdOf(names, bc[from..to])
  {
    var name := bc[from..to];
    var k := 0;
    while k < |names|
      invariant 0 <= k <= |names|
      invariant FirstWith(names, name) == k + FirstWith(names[k..], name)
    {
      assert names[k..][1..] == names[k + 1..];
      if names[k] == Some(name) { return k; }
      k := k + 1;
    }
    return UNBOUND;
  }

  method PatchId(bc: array<byte>, ip: nat, id: nat)
    requires ip + 3 <= bc.Length && id < U16
    modifies bc
    ensures bc[..] == WriteId(old(bc[..]), ip, id)
  {
    bc[ip + 1], bc[ip + 2] := id / 0x100, id % 0x100;
  }

  method BindInPlace(bc: array<byte>, names: Names) returns (rc: int)
    modifies bc
    ensures rc == 0 || rc == -1
    ensures Bound(bc[..], rc == 0) == Bind(old(bc[..]), names)
  {
    hide NextInstruction, BodyLen, IdOf, WriteId;
    var n := bc.Length;
    if n == 0 || |names| >= UNBOUND { return -1; }
    var body := BodyLen(bc[..]);
    var bounded := body > 0;
    var limit := if bounded then body else n;
    ghost var want := Bind(bc[..], names);
    var ip := 0;
    while ip < limit
      invariant BindFrom(bc[..], ip, limit, bounded, names) == want
      decreases limit - ip
    {
      if !bounded && (bc[ip] == OP_ACCEPT || bc[ip] == OP_SUCCEED || bc[ip] == OP_ABORT) { return 0; }
      if bc[ip] == OP_TABLE_GET || bc[ip] == OP_TABLE_SET {
        if ip + 6 > n || ip + 6 + bc[ip + 5] > n { return -1; }
        var next := ip + 6 + bc[ip + 5];
        var id := FindName(bc, ip + 6, next, names);
        assert bc[..][ip + 6..next] == bc[ip + 6..next];
        PatchId(bc, ip, id);
        ip := next;
      } else {
        var next := NextInstruction(bc[..], ip);
        if next.None? || next.value > limit { return -1; }
        ip := next.value;
      }
    }
    return 0;
  }

  // ----- What binding does to a compiled program -----

  /** The instruction with its table reference resolved against the list. */
  function Resolved(i: Instr, names: Names): (r: Instr)
    requires |names| < UNBOUND
  {
    match i
    case TableGet(_, k, d, name) => TableGet(IdOf(names, name), k, d, name)
    case TableSet(_, k, v, name) => TableSet(IdOf(names, name), k, v, name)
    case _ => i
  }

  function ResolvedAll(prog: seq<Instr>, names: Names): (r: seq<Instr>)
    requires |names| < UNBOUND
    ensures |r| == |prog|
  {
    seq(|prog|, k requires 0 <= k < |prog| => Resolved(prog[k], names))
  }

  lemma TableBytes(i: Instr)
    requires i.TableGet? || i.TableSet?
    ensures var third := if i.TableGet? then i.dst else i.value;
      Encode(i) == [Opcode(i)] + Enc16(i.table) + [Low8(i.key), Low8(third), Low8(|i.name|)] + i.name
  {
    hide Enc16;
  }

  lemma ResolvedWidth(i: Instr, names: Names)
    requires |names| < UNBOUND
    ensures |Encode(Resolved(i, names))| == |Encode(i)|
  {
    hide Enc16, Enc32, IdOf;
  }

  lemma SwapPair(pre: seq<byte>, op: byte, t: int, u: nat, rest: seq<byte>)
    requires u < U16
    ensures WriteId(pre + ([op] + Enc16(t) + rest), |pre|, u) == pre + ([op] + Enc16(u) + rest)
  {
    assert Low16(u) == u;
  }

  /** What the walk reads at a table instruction. */
  lemma TableHeader(code: seq<byte>, p: nat, i: Instr)
    requires (i.TableGet? || i.TableSet?) && |i.name| < U8 && At(code, p, Encode(i))
    ensures var next := p + 6 + |i.name|;
      && |Encode(i)| == 6 + |i.name| && next <= |code|
      && code[p] == Opcode(i) && code[p + 5] == |i.name| && code[p + 6..next] == i.name
  {
    hide Enc16, Opcode, Encode;
    var third := if i.TableGet? then i.dst else i.value;
    var head := [Opcode(i)] + Enc16(i.table) + [Low8(i.key), Low8(third), Low8(|i.name|)];
    TableBytes(i);
    AtConcat(code, p, head, i.name);
    AtByte(code, p, head, 0);
    AtByte(code, p, head, 5);
  }

  /** Writing a new id over an encoded table instruction encodes the resolved one. */
  lemma WriteResolves(pre: seq<byte>, i: Instr, post: seq<byte>, names: Names)
    requires (i.TableGet? || i.TableSet?) && |names| < UNBOUND
    requires |pre| + 3 <= |pre + Encode(i) + post|
    ensures WriteId(pre + Encode(i) + post, |pre|, IdOf(names, i.name)) == pre + Encode(Resolved(i, names)) + post
  {
    hide Enc16, IdOf, Opcode, Encode, WriteId;
    var j := Resolved(i, names);
    var third := if i.TableGet? then i.dst else i.value;
    TableBytes(i);
    TableBytes(j);
    OpcodeKept(i, names);
    var rest := [Low8(i.key), Low8(third), Low8(|i.name|)] + i.name + post;
    SwapPair(pre, Opcode(i), i.table, IdOf(names, i.name), rest);
    assert pre + Encode(i) + post == pre + ([Opcode(i)] + Enc16(i.table) + rest);
    assert pre + Encode(j) + post == pre + ([Opcode(i)] + Enc16(j.table) + rest);
  }

  lemma BindsAt(code: seq<byte>, p: nat, name: seq<byte>, limit: nat, names: Names)
    requires |names| < UNBOUND && p < limit <= |code| && p + 6 + |name| <= |code|
    requires code[p] == OP_TABLE_GET || code[p] == OP_TABLE_SET
    requires code[p + 5] == |name| && code[p + 6..p + 6 + |name|] == name
    ensures BindFrom(code, p, limit, true, names)
         == BindFrom(WriteId(code, p, IdOf(names, name)), p + 6 + |name|, limit, true, names)
  {
    hide WriteId, IdOf, NextInstruction;
  }

  /** One table instruction: the walk writes its new id and steps behind its name. */
  lemma TableStep(pre: seq<byte>, i: Instr, post: seq<byte>, limit: nat, names: Names)
    requires (i.TableGet? || i.TableSet?) && |i.name| < U8 && |names| < UNBOUND
    requires |pre| < limit <= |pre + Encode(i) + post|
    ensures |Encode(Resolved(i, names))| == |Encode(i)|
    ensures BindFrom(pre + Encode(i) + post, |pre|, limit, true, names)
         == BindFrom(pre + Encode(Resolved(i, names)) + post, |pre| + |Encode(i)|, limit, true, names)
  {
    hide IdOf, Encode, Opcode, WriteId, BindFrom, Resolved;
    var code, p := pre + Encode(i) + post, |pre|;
    assert code[p..p + |Encode(i)|] == Encode(i);
    TableHeader(code, p, i);
    OpcodeKept(i, names);
    ResolvedWidth(i, names);
    BindsAt(code, p, i.name, limit, names);
    WriteResolves(pre, i, post, names);
  }

  lemma OpcodeKept(i: Instr, names: Names)
    requires |names| < UNBOUND
    ensures Opcode(Resolved(i, names)) == Opcode(i)
    ensures i.TableGet? ==> Opcode(i) == OP_TABLE_GET
    ensures i.TableSet? ==> Opcode(i) == OP_TABLE_SET
    ensures !i.TableGet? && !i.TableSet? ==> Opcode(i) != OP_TABLE_GET && Opcode(i) != OP_TABLE_SET
  {
    hide IdOf;
  }

  lemma OtherStep(pre: seq<byte>, i: Instr, post: seq<byte>, limit: nat, names: Names)
    requires !i.TableGet? && !i.TableSet? && Placed(i, |pre|) && |names| < UNBOUND
    requires |pre| + |Encode(i)| <= limit <= |pre + Encode(i) + post| < U32
    ensures BindFrom(pre + Encode(i) + post, |pre|, limit, true, names)
         == BindFrom(pre + Encode(i) + post, |pre| + |Encode(i)|, limit, true, names)
  {
    hide IdOf, NextInstruction, Encode, Opcode, Placed, BindFrom;
    var code, p := pre + Encode(i) + post, |pre|;
    assert Encode(i)[0] == Opcode(i);
    OpcodeKept(i, names);
    assert code[p..p + |Encode(i)|] == Encode(i);
    AtByte(code, p, Encode(i), 0);
    WalkerMeetsEncoder(code, p, i);
    StepsOver(code, p, limit, names);
  }

  lemma StepsOver(code: seq<byte>, p: nat, limit: nat, names: Names)
    requires |names| < UNBOUND && p < limit <= |code|
    requires code[p] != OP_TABLE_GET && code[p] != OP_TABLE_SET
    requires NextInstruction(code, p).Some? && NextInstruction(code, p).value <= limit
    ensures BindFrom(code, p, limit, true, names) == BindFrom(code, NextInstruction(code, p).value, limit, true, names)
  {
    hide IdOf, NextInstruction;
  }

  /** Binding an encoded listing gives the encoding of the listing with its names resolved. */
  lemma {:induction false} BindListing(pre: seq<byte>, prog: seq<Instr>, post: seq<byte>, names: Names)
    requires AllPlaced(prog, |pre|) && |names| < UNBOUND && |pre + EncodeAll(prog) + post| < U32
    ensures |EncodeAll(ResolvedAll(prog, names))| == Size(prog)
    ensures BindFrom(pre + EncodeAll(prog) + post, |pre|, |pre| + Size(prog), true, names)
         == Bound(pre + EncodeAll(ResolvedAll(prog, names)) + post, true)
    decreases |prog|
  {
    hide Encode, BindFrom, Resolved, EncodeAll, Placed, InstrStarts;
    if prog == [] {
      NothingToBind(pre, post, names);
      assert ResolvedAll(prog, names) == [];
    } else {
      var i, rest := prog[0], prog[1..];
      var j := Resolved(i, names);
      var limit := |pre| + Size(prog);
      ConsProgram(i, rest);
      assert prog == [i] + rest;
      assert ResolvedAll(prog, names) == [j] + ResolvedAll(rest, names);
      ConsProgram(j, ResolvedAll(rest, names));
      ResolvedWidth(i, names);
      SplitPlaced(i, rest, |pre|);
      var tail := EncodeAll(rest) + post;
      StepOne(pre, i, tail, limit, names);
      assert pre + EncodeAll(prog) + post == pre + Encode(i) + tail;
      assert pre + Encode(j) + tail == (pre + Encode(j)) + EncodeAll(rest) + post;
      BindListing(pre + Encode(j), rest, post, names);
      assert pre + EncodeAll([j] + ResolvedAll(rest, names)) + post
          == (pre + Encode(j)) + EncodeAll(ResolvedAll(rest, names)) + post;
    }
  }

  lemma NothingToBind(pre: seq<byte>, post: seq<byte>, names: Names)
    requires |names| < UNBOUND
    ensures EncodeAll([]) == []
    ensures BindFrom(pre + [] + post, |pre|, |pre|, true, names) == Bound(pre + [] + post, true)
  {
    assert Chunks([]) == [];
  }

  lemma ConsProgram(i: Instr, rest: seq<Instr>)
    ensures EncodeAll([i] + rest) == Encode(i) + EncodeAll(rest)
  {
    hide Encode, EncodeAll;
    EncodeOne(i);
    EncodeAllConcat([i], rest);
  }

  lemma SplitPlaced(i: Instr, rest: seq<Instr>, base: nat)
    requires AllPlaced([i] + rest, base)
    ensures Placed(i, base) && AllPlaced(rest, base + |Encode(i)|)
  {
    hide Encode, Placed, EncodeAll;
    EncodeOne(i);
    StartsOne(i, base);
    InstrStartsConcat([i], rest, base);
    var all := [i] + rest;
    assert all[0] == i && InstrStarts(all, base)[0] == base;
    forall k | 0 <= k < |rest| ensures Placed(rest[k], InstrStarts(rest, base + |Encode(i)|)[k]) {
      assert all[k + 1] == rest[k];
      assert InstrStarts(all, base)[k + 1] == InstrStarts(rest, base + |Encode(i)|)[k];
    }
  }

  lemma StepOne(pre: seq<byte>, i: Instr, post: seq<byte>, limit: nat, names: Names)
    requires Placed(i, |pre|) && |names| < UNBOUND
    requires |pre| + |Encode(i)| <= limit <= |pre + Encode(i) + post| < U32
    ensures |Encode(Resolved(i, names))| == |Encode(i)|
    ensures BindFrom(pre + Encode(i) + post, |pre|, limit, true, names)
         == BindFrom(pre + Encode(Resolved(i, names)) + post, |pre| + |Encode(i)|, limit, true, names)
  {
    hide BindFrom, Encode;
    if i.TableGet? || i.TableSet? {
      TableStep(pre, i, post, limit, names);
    } else {
      OtherStep(pre, i, post, limit, names);
    }
  }

  /** Binding a compiled image resolves the names in its instructions and touches nothing else;
      it succeeds for every list that leaves room for the unbound id. */
  lemma BindMeetsCompiler(a: Ast, names: Names)
    requires NamesFit(a) && Compiled(a).Some? && |Compiled(a).value| < U32 && FusesAtStarts(a)
    requires |names| < UNBOUND
    ensures var prog, image := BodyProgram(FusedTreeOf(a)), Compiled(a).value;
      && Size(prog) <= |image|
      && image == EncodeAll(prog) + image[Size(prog)..]
      && Bind(image, names) == Bound(EncodeAll(ResolvedAll(prog, names)) + image[Size(prog)..], true)
  {
    hide Gen, BodyOf, FuseTree, FusedTreeOf, ImageOf, OnlyAt, Scan, BodyLen, Walkable, EncodeAll, Canonical, FewRanges,
         AllPlaced, FusesAtStarts, NamesFit, BindFrom, BodyProgram, Compiled, ResolvedAll;
    CompiledGenerates(a);
    var prog, image := BodyProgram(FusedTreeOf(a)), Compiled(a).value;
    BodyOfCompiled(a);
    var post := image[Size(prog)..];
    assert [] + EncodeAll(prog) + post == image;
    BindListing([], prog, post, names);
    var bound := EncodeAll(ResolvedAll(prog, names));
    assert [] + bound + post == bound + post;
  }

  lemma CompiledGenerates(a: Ast)
    requires Compiled(a).Some?
    ensures Gen(a, 0, NO_TABLES).Some?
  {
    hide Gen;
  }

  /** The image begins with the placed program, and its recovered body length is the program's size. */
  lemma BodyOfCompiled(a: Ast)
    requires NamesFit(a) && Compiled(a).Some? && |Compiled(a).value| < U32 && FusesAtStarts(a)
    ensures var prog, image := BodyProgram(FusedTreeOf(a)), Compiled(a).value;
      && 0 < Size(prog) <= |image| && image[..Size(prog)] == EncodeAll(prog)
      && BodyLen(image) == Size(prog) && AllPlaced(prog, 0)
  {
    hide Gen, FuseTree, ImageOf, OnlyAt, Scan, BodyLen, Walkable, EncodeAll, Canonical, FewRanges, AllPlaced, NamesFit,
         BodyOf, AllBounded, Unfused, LoadClasses;
    var g := Gen(a, 0, NO_TABLES).value;
    GenFromNothing(a);
    var t, image := FusedTreeOf(a), Compiled(a).value;
    ImageHolds(g, image);
    GenIsWalkable(a, 0, NO_TABLES);
    FuseKeepsWalkable(g.tree, g.tables.classes);
    FusedBodyIsTree(g.tree, g.tables.classes);
    BodyNotEmpty(t);
    BodyLenReadsBack(FusedBody(g).code, FusedBody(g).entries, g.tables.labels);
    BodyProgramIs(t);
    BodySize(t);
    BodyPlaced(t);
  }

  // ----- Binding again -----

  lemma {:induction false} ResolvedStarts(prog: seq<Instr>, names: Names, base: nat)
    requires |names| < UNBOUND
    ensures InstrStarts(ResolvedAll(prog, names), base) == InstrStarts(prog, base)
    decreases |prog|
  {
    hide Encode, EncodeAll, InstrStarts, Resolved;
    if prog == [] {
      assert ResolvedAll(prog, names) == prog;
    } else {
      var i, j, rest := prog[0], Resolved(prog[0], names), prog[1..];
      assert prog == [i] + rest && ResolvedAll(prog, names) == [j] + ResolvedAll(rest, names);
      EncodeOne(i);
      EncodeOne(j);
      ResolvedWidth(i, names);
      StartsOne(i, base);
      StartsOne(j, base);
      InstrStartsConcat([i], rest, base);
      InstrStartsConcat([j], ResolvedAll(rest, names), base);
      ResolvedStarts(rest, names, base + |Encode(i)|);
    }
  }

  lemma ResolvedPlaced(prog: seq<Instr>, names: Names, base: nat)
    requires |names| < UNBOUND && AllPlaced(prog, base)
    ensures AllPlaced(ResolvedAll(prog, names), base)
  {
    hide Encode, IdOf;
    ResolvedStarts(prog, names, base);
    forall k | 0 <= k < |prog|
      ensures Placed(ResolvedAll(prog, names)[k], InstrStarts(ResolvedAll(prog, names), base)[k])
    {
      assert Placed(prog[k], InstrStarts(prog, base)[k]);
    }
  }

  lemma ResolvedTwice(prog: seq<Instr>, first: Names, second: Names)
    requires |first| < UNBOUND && |second| < UNBOUND
    ensures ResolvedAll(ResolvedAll(prog, first), second) == ResolvedAll(prog, second)
  {
    hide IdOf;
  }

  /** Replacing the body by one of the same length moves no other section. */
  lemma SameSections(body: seq<byte>, body': seq<byte>, classes: seq<CharClass>, labels: seq<LabelEntry>)
    requires |body| == |body'|
    ensures ImageOf(body', classes, labels) == body' + ImageOf(body, classes, labels)[|body|..]
  {
    hide ClassSection, LabelSection;
    var c, l := ClassSection(classes, |body|), LabelSection(labels);
    assert ImageOf(body, classes, labels) == body + (c + l);
    assert ImageOf(body', classes, labels) == body' + (c + l);
    assert (body + (c + l))[|body|..] == c + l;
  }

  /** A later binding call undoes an earlier one: only the last list of names counts. */
  lemma RebindingForgets(a: Ast, first: Names, second: Names)
    requires NamesFit(a) && Compiled(a).Some? && |Compiled(a).value| < U32 && FusesAtStarts(a)
    requires |first| < UNBOUND && |second| < UNBOUND
    ensures Bind(Bind(Compiled(a).value, first).code, second) == Bind(Compiled(a).value, second)
  {
    hide Gen, FuseTree, FusedTreeOf, ImageOf, BodyLen, EncodeAll, FusesAtStarts, NamesFit, BindFrom, BodyProgram,
         ResolvedAll, FusedBody, AllPlaced, InstrStarts;
    CompiledGenerates(a);
    GenFromNothing(a);
    var g := Gen(a, 0, NO_TABLES).value;
    var m := FusedBody(g);
    var prog, image := BodyProgram(FusedTreeOf(a)), Compiled(a).value;
    BodyOfCompiled(a);
    BindMeetsCompiler(a, first);
    BindMeetsCompiler(a, second);
    BodySplit(a);
    var once := ResolvedAll(prog, first);
    assert [] + EncodeAll(prog) + image[Size(prog)..] == image;
    BindListing([], prog, image[Size(prog)..], first);
    SameSections(m.code, EncodeAll(once), m.entries, g.tables.labels);
    var bound := EncodeAll(once) + image[Size(prog)..];
    BodyLenReadsBack(EncodeAll(once), m.entries, g.tables.labels);
    ResolvedPlaced(prog, first, 0);
    assert [] + EncodeAll(once) + image[Size(prog)..] == bound;
    BindListing([], once, image[Size(prog)..], second);
    ResolvedTwice(prog, first, second);
    var twice := EncodeAll(ResolvedAll(prog, second));
    assert [] + twice + image[Size(prog)..] == twice + image[Size(prog)..];
  }

  lemma BodySplit(a: Ast)
    requires NamesFit(a) && Compiled(a).Some? && |Compiled(a).value| < U32 && FusesAtStarts(a)
    ensures var g := Gen(a, 0, NO_TABLES).value;
      Canonical(g.tables.classes) && FusedBody(g).code == EncodeAll(BodyProgram(FusedTreeOf(a)))
  {
    hide Gen, FuseTree, ImageOf, OnlyAt, Scan, EncodeAll, Canonical, FewRanges, NamesFit, BodyOf, AllBounded, Unfused,
         LoadClasses;
    var g := Gen(a, 0, NO_TABLES).value;
    GenFromNothing(a);
    ImageHolds(g, Compiled(a).value);
    FusedBodyIsTree(g.tree, g.tables.classes);
    BodyProgramIs(FusedTreeOf(a));
  }
}
