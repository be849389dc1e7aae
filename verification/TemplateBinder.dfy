/** Binding the table names of a compiled template (snobol_template_bind_tables): a second walker,
    written apart from the compiler, that patches ids in place. */
module TemplateBinder {
  import opened Wrappers
  import opened Bytes
  import opened Bytecode
  import opened CodeBuffer
  import opened TemplateCode

  /** A caller's table: a name, which may be missing, and the id it stands for. */
  datatype Entry = Entry(name: Option<seq<byte>>, id: nat)

  type Directory = dir: seq<Entry> | forall k :: 0 <= k < |dir| ==> dir[k].id < U16

  function FirstNamed(dir: seq<Entry>, name: seq<byte>): (k: nat)
    ensures k <= |dir| && (forall j :: 0 <= j < k ==> dir[j].name != Some(name))
    ensures k < |dir| ==> dir[k].name == Some(name)
  {
    if dir == [] || dir[0].name == Some(name) then 0 else 1 + FirstNamed(dir[1..], name)
  }

  predicate Listed(dir: seq<Entry>, name: seq<byte>) { FirstNamed(dir, name) < |dir| }

  /** Operand bytes the walker skips for an opcode without a length of its own. */
  function Skipped(op: byte): Option<nat> {
    if op in {OP_REM, OP_FENCE, OP_DYNAMIC, OP_NOP, OP_FAIL, OP_ABORT, OP_SUCCEED} then Some(0)
    else if op in {OP_EMIT_CAPTURE, OP_CAP_START, OP_CAP_END} then Some(1)
    else if op in {OP_EMIT_EXPR, OP_ANY, OP_NOTANY, OP_SPAN, OP_BREAK, OP_BREAKX, OP_LABEL, OP_GOTO, OP_GOTO_F}
    then Some(2)
    else if op in {OP_ASSIGN, OP_EVAL} then Some(3)
    else if op in {OP_LEN, OP_REPEAT_STEP, OP_JMP, OP_RPOS, OP_RTAB, OP_POS, OP_TAB} then Some(4)
    else if op in {OP_SPLIT, OP_REPEAT_INIT, OP_BAL} then Some(8)
    else None
  }

  /** Offset of the name length in an opcode's operands, for opcodes that hold a table id. */
  function NameField(op: byte): Option<nat> {
    if op == OP_EMIT_TABLE then Some(3)
    else if op == OP_TABLE_GET || op == OP_TABLE_SET then Some(4)
    else None
  }

  /** The name of the table instruction at `ip`, unless the code ends before it does. */
  function NameAt(code: seq<byte>, ip: nat): (r: Option<seq<byte>>)
    requires ip < |code|
    ensures r.Some? ==> NameField(code[ip]).Some? && ip + 2 + NameField(code[ip]).value + |r.value| <= |code|
  {
    var field :- NameField(code[ip]);
    var at := ip + 1 + field;
    if at >= |code| || at + 1 + code[at] > |code| then None
    else Some(code[at + 1..at + 1 + code[at]])
  }

  /** Offset behind the table instruction at `ip` whose name ends at `end`. */
  function AfterName(code: seq<byte>, ip: nat, end: nat): Option<nat>
    requires ip + 4 < |code|
  {
    if code[ip] != OP_EMIT_TABLE then Some(end)
    else if code[ip + 3] == 0 then
      if end + 2 > |code| then None else Some(end + 2 + U16At(code, end))
    else if code[ip + 3] == 1 then Some(end + 1)
    else Some(end)
  }

  /** Where the walk goes from `ip`; None when it ends there. */
  function Next(code: seq<byte>, ip: nat): (n: Option<nat>)
    requires ip < |code|
    ensures n.Some? ==> n.value > ip
  {
    var op := code[ip];
    if op == OP_EMIT_LITERAL || op == OP_LIT then
      if ip + 9 > |code| then None else Some(ip + 9 + U32At(code, ip + 5))
    else if op == OP_EMIT_FORMAT then
      if ip + 3 > |code| then None
      else Some(if code[ip + 2] == FMT_LPAD || code[ip + 2] == FMT_RPAD then ip + 6 else ip + 3)
    else if NameField(op).Some? then
      var name :- NameAt(code, ip);
      AfterName(code, ip, ip + 2 + NameField(op).value + |name|)
    else
      var n :- Skipped(op);
      Some(ip + 1 + n)
  }

  /** The code with the table id at `ip` filled in, and whether its name was found or not needed. */
  function PatchedAt(code: seq<byte>, ip: nat, dir: Directory): (r: (seq<byte>, bool))
    requires ip < |code|
    ensures |r.0| == |code|
  {
    match NameAt(code, ip)
    case None => (code, true)
    case Some(name) =>
      if U16At(code, ip + 1) != UNBOUND then (code, true)
      else if Listed(dir, name) then (Patch(code, ip + 1, Enc16(dir[FirstNamed(dir, name)].id)), true)
      else (code, false)
  }

  datatype Bound = Bound(code: seq<byte>, ok: bool)

  function BindFrom(code: seq<byte>, ip: nat, dir: Directory): (r: Bound)
    ensures |r.code| == |code|
    decreases |code| - ip
  {
    if ip >= |code| then Bound(code, true)
    else
      var (code', hit) := PatchedAt(code, ip, dir);
      match Next(code', ip)
      case None => Bound(code', hit)
      case Some(n) =>
        var rest := BindFrom(code', n, dir);
        Bound(rest.code, hit && rest.ok)
  }

  function BindTemplate(code: seq<byte>, dir: Directory): Bound { BindFrom(code, 0, dir) }

  /** Every position the walk from `ip` stops at. */
  function Visits(code: seq<byte>, ip: nat): seq<nat>
    decreases |code| - ip
  {
    if ip >= |code| then []
    else if Next(code, ip).None? then [ip]
    else [ip] + Visits(code, Next(code, ip).value)
  }

  // ----- The walk in place -----

  lemma {:induction false} FirstAfter(dir: seq<Entry>, k: nat, name: seq<byte>)
    requires k < |dir| && forall j :: 0 <= j <= k ==> dir[j].name != Some(name)
    ensures FirstNamed(dir[k..], name) == 1 + FirstNamed(dir[k + 1..], name)
  {
    assert dir[k..][1..] == dir[k + 1..];
  }

  method FindEntry(bc: array<byte>, at: nat, len: nat, dir: Directory) returns (k: nat)
    requires at + len <= bc.Length
    ensures k == FirstNamed(dir, bc[at..at + len])
  {
    k := 0;
    ghost var name := bc[at..at + len];
    assert dir[0..] == dir;
    while k < |dir|
      invariant k <= |dir| && FirstNamed(dir, name) == k + FirstNamed(dir[k..], name)
      invariant forall j :: 0 <= j < k ==> dir[j].name != Some(name)
    {
      if dir[k].name == Some(bc[at..at + len]) { return; }
      FirstAfter(dir, k, name);
      k := k + 1;
    }
  }

  lemma IdWritten(code: seq<byte>, p: nat, id: nat, high: byte, low: byte)
    requires p + 2 <= |code| && id < U16 && high == id / 0x100 && low == id % 0x100
    ensures Patch(code, p, Enc16(id)) == code[p := high][p + 1 := low]
  {
    assert Enc16(id) == [high, low];
  }

  method PatchId(bc: array<byte>, ip: nat, dir: Directory) returns (hit: bool)
    requires ip < bc.Length
    modifies bc
    ensures (bc[..], hit) == PatchedAt(old(bc[..]), ip, dir)
  {
    hide FirstNamed, Patch, Enc16, U16At;
    hit := true;
    var name := NameAt(bc[..], ip);
    if name.Some? {
      if U16At(bc[..], ip + 1) == UNBOUND {
        var at := ip + 2 + NameField(bc[ip]).value;
        assert bc[..][at..at + |name.value|] == bc[at..at + |name.value|];
        var k := FindEntry(bc, at, |name.value|, dir);
        hit := k < |dir|;
        if hit {
          ghost var before: seq<byte> := bc[..];
          var id := dir[k].id;
          var high: byte, low: byte := id / 0x100, id % 0x100;
          bc[ip + 1], bc[ip + 2] := high, low;
          assert bc[..] == before[ip + 1 := high][ip + 2 := low];
          IdWritten(before, ip + 1, id, high, low);
        }
      }
    }
  }

  method BindInPlace(bc: array<byte>, dir: Directory) returns (rc: int)
    modifies bc
    ensures rc == 0 || rc == -1
    ensures Bound(bc[..], rc == 0) == BindTemplate(old(bc[..]), dir)
  {
    hide PatchedAt, Next;
    rc := 0;
    var ip := 0;
    while ip < bc.Length
      invariant rc == 0 || rc == -1
      invariant var rest := BindFrom(bc[..], ip, dir);
        BindTemplate(old(bc[..]), dir) == Bound(rest.code, rc == 0 && rest.ok)
      decreases bc.Length - ip
    {
      var hit := PatchId(bc, ip, dir);
      if !hit { rc := -1; }
      var next := Next(bc[..], ip);
      if next.None? { return; }
      ip := next.value;
    }
  }
}
