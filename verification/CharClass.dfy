/** Character classes: parsing a set string, normalizing in place, and the class table
    that hands out ids (compiler_analysis.c). */
module CharClasses {
  import opened Wrappers
  import opened Bytes
  import opened Utf8
  import opened Ranges

  /** A class as the compiler stores it: normalized ranges and the case-folding flag. */
  datatype CharClass = CharClass(ranges: seq<Range>, fold: bool)

  // ----- Set strings -----

  const DASH: nat := 0x2D

  /** The upper end of an `X-Y` item whose `X` ends at `pos`, when there is one. */
  function RangeEnd(s: seq<byte>, pos: nat, first: nat): (r: Option<Peeked>)
    ensures r.Some? ==> first < r.value.cp && pos < pos + r.value.width <= |s|
  {
    match Peek(s, pos)
    case None => None
    case Some(dash) =>
      if dash.cp != DASH then None
      else
        match Peek(s, pos + dash.width)
        case None => None
        case Some(last) => if last.cp > first then Some(Peeked(last.cp, dash.width + last.width)) else None
  }

  /** One item of a set string: a range and the bytes it takes. */
  datatype Item = Item(range: Range, width: nat)

  function NextItem(s: seq<byte>, pos: nat): (r: Option<Item>)
    ensures r.Some? ==> r.value.range.lo <= r.value.range.hi && 0 < r.value.width && pos + r.value.width <= |s|
  {
    var first :- Peek(s, pos);
    match RangeEnd(s, pos + first.width, first.cp)
    case Some(last) => Some(Item(Range(first.cp, last.cp), first.width + last.width))
    case None => Some(Item(Range(first.cp, first.cp), first.width))
  }

  /** The ranges a case-sensitive set string lists from `pos` on; undecodable bytes end the list. */
  function ParseSet(s: seq<byte>, pos: nat): (rs: seq<Range>)
    requires pos <= |s|
    ensures Proper(rs)
    decreases |s| - pos
  {
    match NextItem(s, pos)
    case None => []
    case Some(item) => [item.range] + ParseSet(s, pos + item.width)
  }

  function ClassOf(set_: seq<byte>): (c: CharClass)
    ensures Normal(c.ranges) && SameSet(c.ranges, ParseSet(set_, 0))
  {
    CharClass(NormalForm(ParseSet(set_, 0)), false)
  }

  // ----- Normalizing in place -----

  predicate SortedByStart(rs: seq<Range>) {
    forall i, j :: 0 <= i < j < |rs| ==> rs[i].lo <= rs[j].lo
  }

  lemma SwapKeepsSet(a: seq<Range>, i: nat, j: nat)
    requires i < |a| && j < |a|
    ensures SameSet(a, a[i := a[j]][j := a[i]])
  {
    var b := a[i := a[j]][j := a[i]];
    forall c: nat ensures InSet(a, c) <==> InSet(b, c) {
      if InSet(a, c) {
        var k :| 0 <= k < |a| && Covers(a[k], c);
        var k' := if k == i then j else if k == j then i else k;
        assert Covers(b[k'], c);
      }
      if InSet(b, c) {
        var k :| 0 <= k < |b| && Covers(b[k], c);
        var k' := if k == i then j else if k == j then i else k;
        assert Covers(a[k'], c);
      }
    }
  }

  lemma SwapKeepsProper(a: seq<Range>, i: nat, j: nat)
    requires Proper(a) && i < |a| && j < |a|
    ensures Proper(a[i := a[j]][j := a[i]])
  {
  }

  lemma SetReflexive(a: seq<Range>)
    ensures SameSet(a, a)
  {
  }

  lemma SetTransitive(a: seq<Range>, b: seq<Range>, c: seq<Range>)
    requires SameSet(b, a) && SameSet(b, c)
    ensures SameSet(c, a)
  {
  }

  /** The order `qsort` establishes, by insertion. */
  method SortByStart(a: array<Range>, n: nat)
    requires n <= a.Length && Proper(a[..n])
    modifies a
    ensures SortedByStart(a[..n]) && Proper(a[..n]) && SameSet(a[..n], old(a[..n]))
  {
    hide Proper, SameSet;
    var i := 0;
    SetReflexive(a[..n]);
    while i < n
      invariant 0 <= i <= n
      invariant SortedByStart(a[..i]) && Proper(a[..n]) && SameSet(a[..n], old(a[..n]))
    {
      var j := i;
      while j > 0 && a[j].lo < a[j - 1].lo
        invariant 0 <= j <= i
        invariant forall p, q :: 0 <= p < q <= i && q != j ==> a[p].lo <= a[q].lo
        invariant Proper(a[..n]) && SameSet(a[..n], old(a[..n]))
      {
        ghost var before := a[..n];
        a[j - 1], a[j] := a[j], a[j - 1];
        assert a[..n] == before[j - 1 := before[j]][j := before[j - 1]];
        SwapKeepsSet(before, j - 1, j);
        SwapKeepsProper(before, j - 1, j);
        SetTransitive(old(a[..n]), before, a[..n]);
        j := j - 1;
      }
      i := i + 1;
    }
  }

  /** The merged prefix and the unread suffix still denote the whole set. */
  ghost predicate Covering(all: seq<Range>, done: seq<Range>, rest: seq<Range>) {
    forall c: nat :: InSet(all, c) <==> InSet(done, c) || InSet(rest, c)
  }

  lemma SplitCovers(all: seq<Range>, done: seq<Range>, rest: seq<Range>)
    requires all == done + rest
    ensures Covering(all, done, rest)
  {
    forall c: nat ensures InSet(all, c) <==> InSet(done, c) || InSet(rest, c) {
      InSetConcat(done, rest, c);
    }
  }

  /** One merge step on values: widen the last range, or open a new one. */
  function MergeOne(done: seq<Range>, next: Range): (r: seq<Range>)
    requires done != []
    ensures r != []
  {
    var last := done[|done| - 1];
    if next.lo <= last.hi + 1
    then done[|done| - 1 := Range(last.lo, Max(last.hi, next.hi))]
    else done + [next]
  }

  lemma MergeOneNormal(done: seq<Range>, next: Range)
    requires done != [] && Normal(done) && next.lo <= next.hi && done[|done| - 1].lo <= next.lo
    ensures Normal(MergeOne(done, next)) && MergeOne(done, next)[|MergeOne(done, next)| - 1].lo <= next.lo
  {
  }

  lemma MergeOneSet(done: seq<Range>, next: Range, c: nat)
    requires done != [] && done[|done| - 1].lo <= next.lo
    ensures InSet(MergeOne(done, next), c) <==> InSet(done, c) || Covers(next, c)
  {
    var k := |done| - 1;
    var last := done[k];
    assert done == done[..k] + [last];
    InSetConcat(done[..k], [last], c);
    InSetCons(last, [], c);
    if next.lo <= last.hi + 1 {
      var wide := Range(last.lo, Max(last.hi, next.hi));
      assert MergeOne(done, next) == done[..k] + [wide];
      InSetConcat(done[..k], [wide], c);
      InSetCons(wide, [], c);
    } else {
      InSetConcat(done, [next], c);
      InSetCons(next, [], c);
    }
  }

  /** Merging the first `k` ranges from left to right. */
  function MergeFirst(rs: seq<Range>, k: nat): (done: seq<Range>)
    requires 1 <= k <= |rs|
    ensures done != []
  {
    if k == 1 then [rs[0]] else MergeOne(MergeFirst(rs, k - 1), rs[k - 1])
  }

  lemma {:induction false} MergeFirstNormal(rs: seq<Range>, k: nat)
    requires 1 <= k <= |rs| && Proper(rs) && SortedByStart(rs)
    ensures var done := MergeFirst(rs, k);
            Normal(done) && done[|done| - 1].lo <= rs[k - 1].lo && Covering(rs, done, rs[k..])
  {
    if k == 1 {
      assert rs == [rs[0]] + rs[1..];
      SplitCovers(rs, [rs[0]], rs[1..]);
    } else {
      var before, next := MergeFirst(rs, k - 1), rs[k - 1];
      MergeFirstNormal(rs, k - 1);
      MergeOneNormal(before, next);
      assert rs[k - 1..] == [next] + rs[k..];
      forall c: nat ensures InSet(rs, c) <==> InSet(MergeOne(before, next), c) || InSet(rs[k..], c) {
        MergeOneSet(before, next, c);
        InSetCons(next, rs[k..], c);
      }
    }
  }

  lemma MergeIsNormalForm(input: seq<Range>, sorted: seq<Range>)
    requires Proper(input) && Proper(sorted) && SortedByStart(sorted) && SameSet(sorted, input) && sorted != []
    ensures MergeFirst(sorted, |sorted|) == NormalForm(input)
  {
    MergeFirstNormal(sorted, |sorted|);
    assert sorted[|sorted|..] == [];
    NormalFormUnique(MergeFirst(sorted, |sorted|), NormalForm(input));
  }

  /** Sort, then merge neighbours that touch; the surviving ranges are a prefix of the array. */
  method NormalizeInPlace(a: array<Range>, n: nat) returns (m: nat)
    requires n <= a.Length && Proper(a[..n])
    modifies a
    ensures m <= n && a[..m] == NormalForm(old(a[..n]))
  {
    ghost var input := a[..n];
    if n == 0 { return 0; }
    SortByStart(a, n);
    ghost var sorted := a[..n];
    m := MergeSorted(a, n);
    MergeIsNormalForm(input, sorted);
  }

  method MergeSorted(a: array<Range>, n: nat) returns (m: nat)
    requires 0 < n <= a.Length
    modifies a
    ensures m <= n && a[..m] == MergeFirst(old(a[..n]), n)
  {
    ghost var sorted := a[..n];
    var write := 0;
    var read := 1;
    while read < n
      invariant 0 <= write < read <= n
      invariant forall k :: read <= k < n ==> a[k] == sorted[k]
      invariant a[..write + 1] == MergeFirst(sorted, read)
    {
      ghost var done := a[..write + 1];
      if a[read].lo <= a[write].hi + 1 {
        if a[read].hi > a[write].hi {
          a[write] := Range(a[write].lo, a[read].hi);
        }
      } else {
        write := write + 1;
        a[write] := a[read];
      }
      assert a[..write + 1] == MergeOne(done, sorted[read]);
      read := read + 1;
    }
    m := write + 1;
  }

  // ----- The class table -----

  /** Position of the first entry equal to `c`, or the length when there is none. */
  function Find(entries: seq<CharClass>, c: CharClass): (i: nat)
    ensures i <= |entries|
    ensures i < |entries| ==> entries[i] == c
    ensures c !in entries[..i]
  {
    if entries == [] then 0
    else if entries[0] == c then 0
    else
      var i := Find(entries[1..], c);
      assert entries[..i + 1] == [entries[0]] + entries[1..][..i];
      i + 1
  }

  function Register(entries: seq<CharClass>, c: CharClass): (r: (seq<CharClass>, nat))
    ensures 1 <= r.1 <= |r.0| && r.0[r.1 - 1] == c
    ensures entries <= r.0 && |r.0| <= |entries| + 1
  {
    var i := Find(entries, c);
    if i < |entries| then (entries, i + 1) else (entries + [c], |entries| + 1)
  }

  /** Entries are normalized and no two of them are equal. */
  ghost predicate Canonical(entries: seq<CharClass>) {
    && (forall i :: 0 <= i < |entries| ==> Normal(entries[i].ranges))
    && (forall i, j :: 0 <= i < j < |entries| ==> entries[i] != entries[j])
  }

  ghost predicate SameClass(a: CharClass, b: CharClass) {
    a.fold == b.fold && SameSet(a.ranges, b.ranges)
  }

  lemma RegisterKeepsCanonical(entries: seq<CharClass>, c: CharClass)
    requires Canonical(entries) && Normal(c.ranges)
    ensures Canonical(Register(entries, c).0)
  {
    if Find(entries, c) == |entries| {
      assert entries[..|entries|] == entries;
    }
  }

  lemma FindEntry(entries: seq<CharClass>, c: CharClass, k: nat)
    requires Canonical(entries) && k < |entries| && entries[k] == c
    ensures Find(entries, c) == k
  {
    forall i | 0 <= i < k ensures entries[i] != c {}
    assert c !in entries[..k];
    FindIs(entries, c, k);
  }

  /** Along any later growth of the table, a second registration returns the id of the first
      exactly when both classes denote the same set under the same case flag. */
  lemma SameIdIffSameClass(entries: seq<CharClass>, c: CharClass, later: seq<CharClass>, d: CharClass)
    requires Canonical(entries) && Normal(c.ranges) && Normal(d.ranges)
    requires Canonical(later) && Register(entries, c).0 <= later
    ensures Register(later, d).1 == Register(entries, c).1 <==> SameClass(c, d)
  {
    var id := Register(entries, c).1;
    assert later[id - 1] == c;
    if SameClass(c, d) {
      NormalFormUnique(c.ranges, d.ranges);
      assert c == d;
      FindEntry(later, d, id - 1);
    } else {
      assert c != d;
    }
  }

  // ----- Codepoint bound -----

  /** One past the largest codepoint the UTF-8 reader can produce. */
  const CODEPOINTS: nat := 0x20_0000

  predicate Bounded(rs: seq<Range>) {
    forall i :: 0 <= i < |rs| ==> rs[i].lo < CODEPOINTS && rs[i].hi < CODEPOINTS
  }

  predicate AllBounded(entries: seq<CharClass>) {
    forall k :: 0 <= k < |entries| ==> Bounded(entries[k].ranges)
  }

  lemma {:induction false} ParseSetBounded(s: seq<byte>, pos: nat)
    requires pos <= |s|
    ensures Bounded(ParseSet(s, pos))
    decreases |s| - pos
  {
    hide Peek;
    match NextItem(s, pos)
    case None =>
    case Some(item) => ParseSetBounded(s, pos + item.width);
  }

  /** Normalizing a list invents no codepoint. */
  lemma NormalFormBounded(rs: seq<Range>)
    requires Proper(rs) && Bounded(rs)
    ensures Bounded(NormalForm(rs))
  {
    var out := NormalForm(rs);
    forall i | 0 <= i < |out| ensures out[i].lo < CODEPOINTS && out[i].hi < CODEPOINTS {
      assert Covers(out[i], out[i].hi);
      assert InSet(out, out[i].hi);
    }
  }

  lemma RegisterKeepsBounded(entries: seq<CharClass>, c: CharClass)
    requires AllBounded(entries) && Bounded(c.ranges)
    ensures AllBounded(Register(entries, c).0)
  {
  }

  lemma ClassOfBounded(set_: seq<byte>)
    ensures Bounded(ClassOf(set_).ranges)
  {
    ParseSetBounded(set_, 0);
    NormalFormBounded(ParseSet(set_, 0));
  }

  /** The union the fusion pass registers for the two arms of an alternation. */
  function UnionOf(a: CharClass, b: CharClass, fold: bool): (c: CharClass)
    requires Proper(a.ranges) && Proper(b.ranges)
    ensures Normal(c.ranges) && c.fold == fold
    ensures forall cp: nat :: InSet(c.ranges, cp) <==> InSet(a.ranges, cp) || InSet(b.ranges, cp)
  {
    assert forall cp: nat :: InSet(a.ranges + b.ranges, cp) <==> InSet(a.ranges, cp) || InSet(b.ranges, cp) by {
      forall cp: nat
        ensures InSet(a.ranges + b.ranges, cp) <==> InSet(a.ranges, cp) || InSet(b.ranges, cp)
      {
        InSetConcat(a.ranges, b.ranges, cp);
      }
    }
    CharClass(NormalForm(a.ranges + b.ranges), fold)
  }

  lemma ParseOn(set_: seq<byte>, pos: nat)
    requires pos <= |set_|
    ensures NextItem(set_, pos).None? ==> ParseSet(set_, pos) == []
    ensures NextItem(set_, pos).Some? ==>
      var item := NextItem(set_, pos).value;
      pos < pos + item.width <= |set_| && ParseSet(set_, pos) == [item.range] + ParseSet(set_, pos + item.width)
  {
    hide NextItem;
  }

  /** The parse loop over a set string. */
  method ScanSet(set_: seq<byte>) returns (ranges: seq<Range>)
    ensures ranges == ParseSet(set_, 0)
  {
    hide NextItem, ParseSet;
    ranges := [];
    var pos := 0;
    assert ranges + ParseSet(set_, 0) == ParseSet(set_, 0);
    while pos < |set_|
      invariant 0 <= pos <= |set_|
      invariant ranges + ParseSet(set_, pos) == ParseSet(set_, 0)
    {
      ParseOn(set_, pos);
      var item := NextItem(set_, pos);
      if item.None? { break; }
      ghost var rest := ParseSet(set_, pos + item.value.width);
      assert ranges + ([item.value.range] + rest) == ranges + [item.value.range] + rest;
      ranges := ranges + [item.value.range];
      pos := pos + item.value.width;
    }
    ParseOn(set_, pos);
  }

  method MakeClass(ranges: seq<Range>, fold: bool) returns (c: CharClass)
    requires Proper(ranges)
    ensures c == CharClass(NormalForm(ranges), fold)
  {
    var a := new Range[|ranges|](i requires 0 <= i < |ranges| => ranges[i]);
    assert a[..|ranges|] == ranges;
    var m := NormalizeInPlace(a, |ranges|);
    c := CharClass(a[..m], fold);
  }

  /** The compiler's list of classes; ids are 1-based positions. */
  class ClassTable {
    var entries: seq<CharClass>

    ghost predicate Valid()
      reads this
    {
      Canonical(entries)
    }

    constructor ()
      ensures Valid() && entries == []
    {
      entries := [];
    }

    /** The dedup walk both registering functions end with. */
    method Intern(c: CharClass) returns (id: nat)
      requires Valid() && Normal(c.ranges)
      modifies this
      ensures Valid() && (entries, id) == Register(old(entries), c)
    {
      RegisterKeepsCanonical(entries, c);
      var i := 0;
      while i < |entries|
        invariant 0 <= i <= |entries| && c !in entries[..i]
      {
        if entries[i] == c {
          FindIs(entries, c, i);
          return i + 1;
        }
        i := i + 1;
      }
      assert entries[..i] == entries;
      FindIs(entries, c, i);
      entries := entries + [c];
      id := |entries|;
    }

    method AddOrGet(set_: seq<byte>) returns (id: nat)
      requires Valid()
      modifies this
      ensures Valid() && (entries, id) == Register(old(entries), ClassOf(set_))
    {
      var ranges := ScanSet(set_);
      var c := MakeClass(ranges, false);
      id := Intern(c);
    }

    method AddUnion(a: CharClass, b: CharClass, fold: bool) returns (id: nat)
      requires Valid() && Proper(a.ranges) && Proper(b.ranges)
      modifies this
      ensures Valid() && (entries, id) == Register(old(entries), UnionOf(a, b, fold))
    {
      var c := MakeClass(a.ranges + b.ranges, fold);
      id := Intern(c);
    }
  }

  lemma {:induction false} FindIs(entries: seq<CharClass>, c: CharClass, i: nat)
    requires i <= |entries| && c !in entries[..i] && (i < |entries| ==> entries[i] == c)
    ensures Find(entries, c) == i
  {
    if i > 0 {
      assert entries[..i] == [entries[0]] + entries[1..][..i - 1];
      FindIs(entries[1..], c, i - 1);
    }
  }

  /** Binary search over packed ranges, as the VM looks a codepoint up. */
  method RangeContains(rs: seq<Range>, cp: nat) returns (found: bool)
    requires Normal(rs)
    ensures found <==> InSet(rs, cp)
  {
    var lo, hi := 0, |rs|;
    while lo < hi
      invariant 0 <= lo <= hi <= |rs|
      invariant forall i :: 0 <= i < lo ==> rs[i].hi < cp
      invariant forall i :: hi <= i < |rs| ==> cp < rs[i].lo
    {
      var mid := lo + (hi - lo) / 2;
      if cp < rs[mid].lo {
        hi := mid;
      } else if cp > rs[mid].hi {
        lo := mid + 1;
      } else {
        assert Covers(rs[mid], cp);
        return true;
      }
    }
    return false;
  }
}
