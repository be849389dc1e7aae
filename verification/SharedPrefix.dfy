/** The prefix shared by an alternation of literals (search_meta.c), from which the skip table of
    the general search is built, and exactly when every match begins with it. */
module SharedPrefix {
  import opened Wrappers
  import opened Bytes
  import opened Bytecode
  import opened Semantics
  import opened Horspool

  const MAX_LITERALS: nat := 64
  const MAX_PENDING: nat := 64

  /** How the branches below a code position unfold: finite, since branches do not lead back. */
  datatype AltTree = Tip | Branch(left: AltTree, right: AltTree)

  predicate IsBranch(code: seq<byte>, ip: nat) {
    ip + 9 <= |code| && code[ip] == OP_SPLIT && U32At(code, ip + 1) < |code| && U32At(code, ip + 5) < |code|
  }

  predicate Unfolds(code: seq<byte>, t: AltTree, ip: nat)
    decreases t
  {
    match t
    case Tip => !IsBranch(code, ip)
    case Branch(l, r) =>
      IsBranch(code, ip) && Unfolds(code, l, U32At(code, ip + 1)) && Unfolds(code, r, U32At(code, ip + 5))
  }

  /** The branches below `ip` as far as they lead forward, which those of compiled code always do. */
  function TreeAt(code: seq<byte>, ip: nat): AltTree
    decreases |code| - ip
  {
    if IsBranch(code, ip) && U32At(code, ip + 1) > ip && U32At(code, ip + 5) > ip
    then Branch(TreeAt(code, U32At(code, ip + 1)), TreeAt(code, U32At(code, ip + 5)))
    else Tip
  }

  /** From these positions branches lead forward and to each other. */
  ghost predicate ForwardWithin(code: seq<byte>, at: set<nat>) {
    forall p :: p in at && IsBranch(code, p) ==>
      && p < U32At(code, p + 1) && U32At(code, p + 1) in at
      && p < U32At(code, p + 5) && U32At(code, p + 5) in at
  }

  lemma {:induction false} ForwardUnfolds(code: seq<byte>, at: set<nat>, ip: nat)
    requires ForwardWithin(code, at) && ip in at
    ensures Unfolds(code, TreeAt(code, ip), ip)
    decreases |code| - ip
  {
    hide U32At;
    if IsBranch(code, ip) {
      ForwardUnfolds(code, at, U32At(code, ip + 1));
      ForwardUnfolds(code, at, U32At(code, ip + 5));
    }
  }

  /** The text of the literal at `ip`; None for anything else, for an empty or a cut-off literal. */
  function LiteralAt(code: seq<byte>, ip: nat): (r: Option<seq<byte>>)
    ensures r.Some? ==> r.value != []
  {
    if ip + 10 > |code| || code[ip] != OP_LIT then None
    else
      var off, len := U32At(code, ip + 1), U32At(code, ip + 5);
      if off >= |code| || off + len > |code| || len == 0 then None else Some(code[off..off + len])
  }

  function Join(a: Option<seq<seq<byte>>>, b: Option<seq<seq<byte>>>): Option<seq<seq<byte>>> {
    if a.Some? && b.Some? then Some(a.value + b.value) else None
  }

  /** The literals under `ip`, left to right, while `below` more branches are pending. */
  function Collect(code: seq<byte>, t: AltTree, ip: nat, below: nat): Option<seq<seq<byte>>>
    requires Unfolds(code, t, ip)
    decreases t
  {
    match t
    case Tip =>
      var text :- LiteralAt(code, ip);
      Some([text])
    case Branch(l, r) =>
      if below + 2 > MAX_PENDING then None
      else
        Join(Collect(code, l, U32At(code, ip + 1), below + 1), Collect(code, r, U32At(code, ip + 5), below))
  }

  function BranchLiterals(code: seq<byte>, t: AltTree, ip: nat, below: nat): Option<seq<seq<byte>>>
    requires t.Branch? && Unfolds(code, t, ip)
  {
    if below + 2 > MAX_PENDING then None
    else
      Join(Collect(code, t.left, U32At(code, ip + 1), below + 1), Collect(code, t.right, U32At(code, ip + 5), below))
  }

  predicate AllUnfold(code: seq<byte>, ts: seq<AltTree>, ps: seq<nat>) {
    |ts| == |ps| && forall k :: 0 <= k < |ts| ==> Unfolds(code, ts[k], ps[k])
  }

  /** The literals of all pending branches, newest first. */
  function CollectAll(code: seq<byte>, ts: seq<AltTree>, ps: seq<nat>): Option<seq<seq<byte>>>
    requires AllUnfold(code, ts, ps)
  {
    if ts == [] then Some([])
    else
      var n := |ts| - 1;
      Join(Collect(code, ts[n], ps[n], n), CollectAll(code, ts[..n], ps[..n]))
  }

  function TreeSize(t: AltTree): (n: nat)
    ensures n >= 1
  {
    if t.Tip? then 1 else 1 + TreeSize(t.left) + TreeSize(t.right)
  }

  function PendingSize(ts: seq<AltTree>): nat {
    if ts == [] then 0 else TreeSize(ts[|ts| - 1]) + PendingSize(ts[..|ts| - 1])
  }

  // ----- The longest common prefix -----

  predicate SameAt(ls: seq<seq<byte>>, n: nat)
    requires ls != []
  {
    n < |ls[0]| && forall j :: 0 <= j < |ls| ==> n < |ls[j]| && ls[j][n] == ls[0][n]
  }

  function SharedLength(ls: seq<seq<byte>>, n: nat): (m: nat)
    requires ls != []
    ensures m >= n
    decreases MAX_PREFIX - n
  {
    if n < MAX_PREFIX && SameAt(ls, n) then SharedLength(ls, n + 1) else n
  }

  lemma {:induction false} SharedIsShared(ls: seq<seq<byte>>, n: nat)
    requires ls != [] && n <= MAX_PREFIX && forall k :: 0 <= k < n ==> SameAt(ls, k)
    ensures var m := SharedLength(ls, n);
      m <= MAX_PREFIX && (forall k :: 0 <= k < m ==> SameAt(ls, k)) && (m < MAX_PREFIX ==> !SameAt(ls, m))
    decreases MAX_PREFIX - n
  {
    if n < MAX_PREFIX && SameAt(ls, n) { SharedIsShared(ls, n + 1); }
  }

  /** What two or more literals have in common at their start, up to the prefix limit. */
  function CommonPrefix(ls: seq<seq<byte>>): (p: seq<byte>) {
    if |ls| < 2 then []
    else
      var m := SharedLength(ls, 0);
      assert m <= |ls[0]| by {
        SharedIsShared(ls, 0);
        if m > 0 { assert SameAt(ls, m - 1); }
      }
      ls[0][..m]
  }

  /** Every literal begins with the common prefix, and no longer one within the limit will do. */
  lemma CommonIsLongest(ls: seq<seq<byte>>, q: seq<byte>)
    requires |ls| >= 2
    ensures |CommonPrefix(ls)| <= MAX_PREFIX && forall j :: 0 <= j < |ls| ==> CommonPrefix(ls) <= ls[j]
    ensures |q| <= MAX_PREFIX && (forall j :: 0 <= j < |ls| ==> q <= ls[j]) ==> q <= CommonPrefix(ls)
  {
    var p, m := CommonPrefix(ls), SharedLength(ls, 0);
    SharedIsShared(ls, 0);
    if m > 0 { assert SameAt(ls, m - 1); }
    forall j | 0 <= j < |ls| ensures p <= ls[j] {
      forall k | 0 <= k < m ensures p[k] == ls[j][k] { assert SameAt(ls, k); }
      assert p == ls[j][..m];
    }
    if |q| <= MAX_PREFIX && (forall j :: 0 <= j < |ls| ==> q <= ls[j]) {
      assert q <= ls[0];
      if |q| > m { SharedBeyond(ls, q, m); }
      assert |q| <= m && p == ls[0][..m];
      assert q == ls[0][..|q|] == p[..|q|];
    }
  }

  lemma SharedBeyond(ls: seq<seq<byte>>, q: seq<byte>, m: nat)
    requires ls != [] && m < |q| && forall j :: 0 <= j < |ls| ==> q <= ls[j]
    ensures SameAt(ls, m)
  {
    forall j | 0 <= j < |ls| ensures m < |ls[j]| && ls[j][m] == ls[0][m] {
      assert q <= ls[j] && q <= ls[0];
    }
  }

  function Kept(ls: seq<seq<byte>>): seq<seq<byte>> { if |ls| <= MAX_LITERALS then ls else ls[..MAX_LITERALS] }

  /** The extracted prefix: only the first literals are compared. */
  function Extracted(code: seq<byte>, t: AltTree): seq<byte>
    requires Unfolds(code, t, 0)
  {
    match Collect(code, t, 0, 0)
    case None => []
    case Some(ls) => CommonPrefix(Kept(ls))
  }

  // ----- The extraction loop -----

  method Compare(ls: seq<seq<byte>>) returns (p: seq<byte>)
    ensures p == CommonPrefix(ls)
  {
    if |ls| < 2 { return []; }
    var maxLen := if |ls[0]| < MAX_PREFIX then |ls[0]| else MAX_PREFIX;
    var i := 0;
    while i < maxLen
      invariant i <= maxLen && SharedLength(ls, i) == SharedLength(ls, 0)
    {
      var same, j := true, 1;
      while j < |ls|
        invariant 1 <= j <= |ls| && same
        invariant forall k :: 0 <= k < j ==> i < |ls[k]| && ls[k][i] == ls[0][i]
      {
        if i >= |ls[j]| || ls[j][i] != ls[0][i] {
          same := false;
          break;
        }
        j := j + 1;
      }
      assert same == SameAt(ls, i);
      if !same { break; }
      i := i + 1;
    }
    return ls[0][..i];
  }

  lemma JoinAssoc(a: Option<seq<seq<byte>>>, b: Option<seq<seq<byte>>>, c: Option<seq<seq<byte>>>)
    ensures Join(a, Join(b, c)) == Join(Join(a, b), c)
  {
    if a.Some? && b.Some? && c.Some? { assert a.value + (b.value + c.value) == a.value + b.value + c.value; }
  }

  /** What is found below one code position. */
  lemma CollectHere(code: seq<byte>, t: AltTree, ip: nat, below: nat)
    requires Unfolds(code, t, ip)
    ensures ip + 2 > |code| ==> Collect(code, t, ip, below).None?
    ensures ip < |code| && code[ip] == OP_LIT ==>
      Collect(code, t, ip, below) == if LiteralAt(code, ip).Some? then Some([LiteralAt(code, ip).value]) else None
    ensures IsBranch(code, ip) ==>
      (&& t.Branch?
       && Unfolds(code, t.left, U32At(code, ip + 1)) && Unfolds(code, t.right, U32At(code, ip + 5))
       && Collect(code, t, ip, below) == BranchLiterals(code, t, ip, below))
    ensures ip < |code| && code[ip] != OP_LIT && !IsBranch(code, ip) ==> Collect(code, t, ip, below).None?
  {
    hide U32At;
  }

  lemma PopPending(code: seq<byte>, ts: seq<AltTree>, ps: seq<nat>)
    requires AllUnfold(code, ts, ps) && ts != []
    ensures var n := |ts| - 1;
      && Unfolds(code, ts[n], ps[n]) && AllUnfold(code, ts[..n], ps[..n])
      && CollectAll(code, ts, ps) == Join(Collect(code, ts[n], ps[n], n), CollectAll(code, ts[..n], ps[..n]))
      && PendingSize(ts) == PendingSize(ts[..n]) + TreeSize(ts[n])
  {
    hide Unfolds, Collect;
  }

  lemma PushPending(code: seq<byte>, ts: seq<AltTree>, ps: seq<nat>, t: AltTree, ip: nat)
    requires AllUnfold(code, ts, ps) && Unfolds(code, t, ip)
    ensures AllUnfold(code, ts + [t], ps + [ip])
    ensures CollectAll(code, ts + [t], ps + [ip]) == Join(Collect(code, t, ip, |ts|), CollectAll(code, ts, ps))
    ensures PendingSize(ts + [t]) == PendingSize(ts) + TreeSize(t)
  {
    hide Unfolds, Collect;
    assert (ts + [t])[..|ts|] == ts && (ps + [ip])[..|ts|] == ps;
  }

  /** The walk with its explicit stack of pending branches. */
  method Extract(code: seq<byte>, ghost t: AltTree) returns (p: seq<byte>)
    requires Unfolds(code, t, 0)
    ensures p == Extracted(code, t)
  {
    hide Unfolds, Collect, LiteralAt, CollectAll, PendingSize, AllUnfold, CommonPrefix;
    var found: seq<seq<byte>> := [];
    var stack: seq<nat> := [0];
    ghost var trees := [t];
    ghost var seen: seq<seq<byte>> := [];
    StartPending(code, t);
    while stack != []
      invariant AllUnfold(code, trees, stack) && |trees| == |stack| <= MAX_PENDING && found == Kept(seen)
      invariant Join(Some(seen), CollectAll(code, trees, stack)) == Collect(code, t, 0, 0)
      decreases PendingSize(trees)
    {
      var n := |stack| - 1;
      var ip := stack[n];
      ghost var top := trees[n];
      PopPending(code, trees, stack);
      CollectHere(code, top, ip, n);
      stack, trees := stack[..n], trees[..n];
      if ip + 2 > |code| { return []; }
      ghost var rest := CollectAll(code, trees, stack);
      if code[ip] == OP_LIT {
        var text := LiteralAt(code, ip);
        if text.None? { return []; }
        JoinAssoc(Some(seen), Some([text.value]), rest);
        if |found| < MAX_LITERALS { found := found + [text.value]; }
        seen := seen + [text.value];
      } else if IsBranch(code, ip) {
        if |stack| + 2 > MAX_PENDING { return []; }
        var a, b := U32At(code, ip + 1), U32At(code, ip + 5);
        PushPending(code, trees, stack, top.right, b);
        PushPending(code, trees + [top.right], stack + [b], top.left, a);
        JoinAssoc(Collect(code, top.left, a, n + 1), Collect(code, top.right, b, n), rest);
        stack := stack + [b] + [a];
        trees := trees + [top.right] + [top.left];
      } else {
        return [];
      }
    }
    NonePending(code, trees, stack, seen);
    p := Compare(found);
  }

  lemma NonePending(code: seq<byte>, ts: seq<AltTree>, ps: seq<nat>, seen: seq<seq<byte>>)
    requires ts == [] && AllUnfold(code, ts, ps)
    ensures Join(Some(seen), CollectAll(code, ts, ps)) == Some(seen)
  {
    assert seen + [] == seen;
  }

  lemma StartPending(code: seq<byte>, t: AltTree)
    requires Unfolds(code, t, 0)
    ensures AllUnfold(code, [t], [0])
    ensures Join(Some([]), CollectAll(code, [t], [0])) == Collect(code, t, 0, 0)
  {
    hide Unfolds, Collect, CollectAll;
    assert [] + [t] == [t] && [] + [0] == [0 as nat];
    PushPending(code, [], [], t, 0);
    NonePending(code, [], [], []);
    JoinNothing(Collect(code, t, 0, 0));
  }

  lemma JoinNothing(a: Option<seq<seq<byte>>>)
    ensures Join(Some([]), Join(a, Some([]))) == a
  {
    if a.Some? { assert [] + (a.value + []) == a.value; }
  }
}
