/** Lists of inclusive codepoint ranges: the sets they denote, and their one normal form. */
module Ranges {
  import opened Bytes

  datatype Range = Range(lo: nat, hi: nat)

  predicate Covers(r: Range, c: nat) { r.lo <= c <= r.hi }

  predicate InSet(rs: seq<Range>, c: nat) {
    exists i :: 0 <= i < |rs| && Covers(rs[i], c)
  }

  /** Every range holds at least one codepoint. */
  predicate Proper(rs: seq<Range>) {
    forall i :: 0 <= i < |rs| ==> rs[i].lo <= rs[i].hi
  }

  ghost predicate SameSet(a: seq<Range>, b: seq<Range>) {
    forall c: nat :: InSet(a, c) <==> InSet(b, c)
  }

  /** Sorted, disjoint and with a gap of at least one codepoint between neighbours. */
  predicate Normal(rs: seq<Range>) {
    && Proper(rs)
    && forall i, j :: 0 <= i < j < |rs| ==> rs[i].hi + 1 < rs[j].lo
  }

  lemma InSetCons(r: Range, rs: seq<Range>, c: nat)
    ensures InSet([r] + rs, c) <==> Covers(r, c) || InSet(rs, c)
  {
    var all := [r] + rs;
    if InSet(rs, c) {
      var i :| 0 <= i < |rs| && Covers(rs[i], c);
      assert Covers(all[i + 1], c);
    }
    if Covers(r, c) {
      assert Covers(all[0], c);
    }
    if InSet(all, c) {
      var i :| 0 <= i < |all| && Covers(all[i], c);
      if i > 0 { assert Covers(rs[i - 1], c); }
    }
  }

  lemma InSetConcat(a: seq<Range>, b: seq<Range>, c: nat)
    ensures InSet(a + b, c) <==> InSet(a, c) || InSet(b, c)
  {
    if InSet(a, c) {
      var i :| 0 <= i < |a| && Covers(a[i], c);
      assert Covers((a + b)[i], c);
    }
    if InSet(b, c) {
      var i :| 0 <= i < |b| && Covers(b[i], c);
      assert Covers((a + b)[|a| + i], c);
    }
    if InSet(a + b, c) {
      var i :| 0 <= i < |a + b| && Covers((a + b)[i], c);
      if i < |a| { assert Covers(a[i], c); } else { assert Covers(b[i - |a|], c); }
    }
  }

  /** Two normal lists that denote the same set are the same list. */
  lemma {:induction false} NormalFormUnique(a: seq<Range>, b: seq<Range>)
    requires Normal(a) && Normal(b) && SameSet(a, b)
    ensures a == b
  {
    if a == [] || b == [] {
      if a != [] { assert Covers(a[0], a[0].lo); assert InSet(a, a[0].lo); }
      if b != [] { assert Covers(b[0], b[0].lo); assert InSet(b, b[0].lo); }
      return;
    }
    FirstRangesAgree(a, b);
    forall c: nat ensures InSet(a[1..], c) <==> InSet(b[1..], c) {
      assert a == [a[0]] + a[1..] && b == [b[0]] + b[1..];
      InSetCons(a[0], a[1..], c);
      InSetCons(b[0], b[1..], c);
      if InSet(a[1..], c) { NotInRest(a, c); }
      if InSet(b[1..], c) { NotInRest(b, c); }
    }
    NormalFormUnique(a[1..], b[1..]);
  }

  lemma LeastElement(a: seq<Range>, c: nat)
    requires Normal(a) && InSet(a, c)
    ensures a != [] && a[0].lo <= c
  {
    var i :| 0 <= i < |a| && Covers(a[i], c);
    assert a[0].lo <= a[i].lo;
  }

  lemma GapAfterFirst(a: seq<Range>)
    requires a != [] && Normal(a)
    ensures InSet(a, a[0].lo) && !InSet(a, a[0].hi + 1)
  {
    assert Covers(a[0], a[0].lo);
    forall i | 0 <= i < |a| ensures !Covers(a[i], a[0].hi + 1) {
      assert i > 0 ==> a[0].hi + 1 < a[i].lo;
    }
  }

  /** Of two normal lists for one set, neither first range can outrun the other. */
  lemma FirstRangesAgree(a: seq<Range>, b: seq<Range>)
    requires a != [] && b != [] && Normal(a) && Normal(b) && SameSet(a, b)
    ensures a[0] == b[0]
  {
    GapAfterFirst(a);
    GapAfterFirst(b);
    LeastElement(b, a[0].lo);
    LeastElement(a, b[0].lo);
    assert !InSet(a, b[0].hi + 1) && !InSet(b, a[0].hi + 1);
    assert !Covers(a[0], b[0].hi + 1) && !Covers(b[0], a[0].hi + 1);
  }

  lemma NotInRest(a: seq<Range>, c: nat)
    requires a != [] && Normal(a) && InSet(a[1..], c)
    ensures !Covers(a[0], c)
  {
    var i :| 0 <= i < |a[1..]| && Covers(a[1..][i], c);
    assert a[1..][i] == a[i + 1];
  }

  lemma SetOfCons(r: Range, rs: seq<Range>)
    ensures forall c: nat :: InSet([r] + rs, c) <==> Covers(r, c) || InSet(rs, c)
  {
    forall c: nat ensures InSet([r] + rs, c) <==> Covers(r, c) || InSet(rs, c) { InSetCons(r, rs, c); }
  }

  lemma SetOfFirst(rs: seq<Range>)
    requires rs != []
    ensures forall c: nat :: InSet(rs, c) <==> Covers(rs[0], c) || InSet(rs[1..], c)
  {
    assert rs == [rs[0]] + rs[1..];
    SetOfCons(rs[0], rs[1..]);
  }

  /** Add one range to a normal list. */
  function Insert(r: Range, rs: seq<Range>): (out: seq<Range>)
    requires r.lo <= r.hi && Normal(rs)
    ensures Normal(out)
    ensures forall c: nat :: InSet(out, c) <==> Covers(r, c) || InSet(rs, c)
    ensures out != [] && out[0].lo == if rs == [] then r.lo else Min(r.lo, rs[0].lo)
    decreases |rs|
  {
    if rs == [] || r.hi + 1 < rs[0].lo then
      SetOfCons(r, rs);
      [r] + rs
    else if rs[0].hi + 1 < r.lo then
      var rest := Insert(r, rs[1..]);
      SetOfFirst(rs);
      SetOfCons(rs[0], rest);
      [rs[0]] + rest
    else
      var m := Range(Min(r.lo, rs[0].lo), Max(r.hi, rs[0].hi));
      assert forall c: nat :: Covers(m, c) <==> Covers(r, c) || Covers(rs[0], c);
      SetOfFirst(rs);
      Insert(m, rs[1..])
  }

  /** The normal form of a list: the only normal list that denotes its set. */
  function NormalForm(rs: seq<Range>): (out: seq<Range>)
    requires Proper(rs)
    ensures Normal(out) && SameSet(out, rs)
  {
    if rs == [] then []
    else
      var rest := NormalForm(rs[1..]);
      assert rs == [rs[0]] + rs[1..];
      assert forall c: nat :: InSet(rs, c) <==> Covers(rs[0], c) || InSet(rs[1..], c) by {
        forall c: nat ensures InSet(rs, c) <==> Covers(rs[0], c) || InSet(rs[1..], c) {
          InSetCons(rs[0], rs[1..], c);
        }
      }
      Insert(rs[0], rest)
  }

  /** Equal normal forms mean equal sets, and the other way round. */
  lemma NormalFormDecidesSet(a: seq<Range>, b: seq<Range>)
    requires Proper(a) && Proper(b)
    ensures NormalForm(a) == NormalForm(b) <==> SameSet(a, b)
  {
    if SameSet(a, b) {
      NormalFormUnique(NormalForm(a), NormalForm(b));
    }
  }
}
