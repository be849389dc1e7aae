/** The page-linked arena that holds choice records (vm_choice.c): each record carries its
    footprint in a leading and a trailing word, and the pages together are a stack. */
module Arena {
  import opened Bytes
  import opened CodeBuffer

  const PAGE_SIZE: nat := 4096

  /** Payload sizes are rounded up to a multiple of eight. */
  function Align8(n: nat): (r: nat)
    ensures n <= r < n + 8 && r % 8 == 0
  {
    (n + 7) / 8 * 8
  }

  /** Two size words, and four bytes of padding after the first and before the second. */
  function Footprint(area: nat): nat { area + 16 }

  /** A record with this payload area lies at `p`: both size words hold its footprint. */
  ghost predicate RecordAt(bytes: seq<byte>, p: nat, area: seq<byte>) {
    var f := Footprint(|area|);
    && |area| % 8 == 0 && p + f <= |bytes| && f < U32
    && U32At(bytes, p) == f
    && U32At(bytes, p + f - 4) == f
    && bytes[p + 8..p + 8 + |area|] == area
  }

  /** Where record `k` of a page begins. */
  function Offset(areas: seq<seq<byte>>, k: nat): nat
    requires k <= |areas|
  {
    if k == 0 then 0 else Offset(areas, k - 1) + Footprint(|areas[k - 1]|)
  }

  /** The used bytes of a page are exactly these records, back to back. */
  ghost predicate Holds(bytes: seq<byte>, areas: seq<seq<byte>>) {
    && |bytes| == Offset(areas, |areas|)
    && forall k :: 0 <= k < |areas| ==> RecordAt(bytes, Offset(areas, k), areas[k])
  }

  lemma {:induction false} OffsetPrefix(areas: seq<seq<byte>>, more: seq<seq<byte>>, k: nat)
    requires k <= |areas|
    ensures Offset(areas + more, k) == Offset(areas, k)
  {
    if k > 0 { OffsetPrefix(areas, more, k - 1); }
  }

  lemma {:induction false} OffsetGrows(areas: seq<seq<byte>>, j: nat, k: nat)
    requires j < k <= |areas|
    ensures Offset(areas, j) + Footprint(|areas[j]|) <= Offset(areas, k)
    decreases k
  {
    if j < k - 1 { OffsetGrows(areas, j, k - 1); }
  }

  /** Records start at multiples of eight, so payloads do too. */
  lemma {:induction false} OffsetAligned(areas: seq<seq<byte>>, k: nat)
    requires k <= |areas| && forall i :: 0 <= i < k ==> |areas[i]| % 8 == 0
    ensures Offset(areas, k) % 8 == 0
  {
    if k > 0 { OffsetAligned(areas, k - 1); }
  }

  function Payload(areas: seq<seq<byte>>): nat {
    if areas == [] then 0 else Payload(areas[..|areas| - 1]) + |areas[|areas| - 1]|
  }

  /** A record costs sixteen bytes beyond its payload. */
  lemma {:induction false} OffsetCounts(areas: seq<seq<byte>>)
    ensures Offset(areas, |areas|) == Payload(areas) + 16 * |areas|
    decreases |areas|
  {
    if areas != [] {
      var older, last := areas[..|areas| - 1], areas[|areas| - 1];
      OffsetCounts(older);
      assert older + [last] == areas;
      OffsetPrefix(older, [last], |older|);
    }
  }

  lemma RecordInPrefix(bytes: seq<byte>, n: nat, p: nat, area: seq<byte>)
    requires n <= |bytes| && p + Footprint(|area|) <= n
    ensures RecordAt(bytes[..n], p, area) <==> RecordAt(bytes, p, area)
  {
    var f := Footprint(|area|);
    assert bytes[..n][p + 8..p + 8 + |area|] == bytes[p + 8..p + 8 + |area|];
  }

  lemma OffsetStep(areas: seq<seq<byte>>, k: nat)
    requires k < |areas|
    ensures Offset(areas, k + 1) == Offset(areas, k) + Footprint(|areas[k]|)
  {
  }

  /** Record `k` of a page in place. */
  lemma HoldsAt(bytes: seq<byte>, areas: seq<seq<byte>>, k: nat)
    requires Holds(bytes, areas) && k < |areas|
    ensures RecordAt(bytes, Offset(areas, k), areas[k]) && Offset(areas, k) + Footprint(|areas[k]|) <= |bytes|
  {
    hide U32At;
  }

  lemma HoldsIs(bytes: seq<byte>, areas: seq<seq<byte>>)
    requires |bytes| == Offset(areas, |areas|)
    requires forall k :: 0 <= k < |areas| ==> RecordAt(bytes, Offset(areas, k), areas[k])
    ensures Holds(bytes, areas)
  {
  }

  /** Appending a record. */
  lemma HoldsMore(before: seq<byte>, after: seq<byte>, areas: seq<seq<byte>>, area: seq<byte>)
    requires Holds(before, areas) && |after| == |before| + Footprint(|area|)
    requires after[..|before|] == before && RecordAt(after, |before|, area)
    ensures Holds(after, areas + [area])
  {
    hide RecordAt, Offset, Footprint;
    var all, n := areas + [area], |areas|;
    OffsetPrefix(areas, [area], n);
    OffsetStep(all, n);
    assert |before| == Offset(areas, n) by { HoldsSize(before, areas); }
    forall k | 0 <= k < |all| ensures RecordAt(after, Offset(all, k), all[k]) {
      if k < n {
        OffsetPrefix(areas, [area], k);
        HoldsAt(before, areas, k);
        RecordInPrefix(after, |before|, Offset(areas, k), areas[k]);
      }
    }
    hide Holds;
    HoldsIs(after, all);
  }

  lemma HoldsSize(bytes: seq<byte>, areas: seq<seq<byte>>)
    requires Holds(bytes, areas)
    ensures |bytes| == Offset(areas, |areas|)
  {
  }

  /** Dropping the last record. */
  lemma HoldsLess(bytes: seq<byte>, areas: seq<seq<byte>>)
    requires areas != [] && Holds(bytes, areas)
    ensures var n := |areas| - 1;
      && Offset(areas, n) <= |bytes|
      && Holds(bytes[..Offset(areas, n)], areas[..n])
  {
    hide RecordAt, Offset, Footprint;
    var n := |areas| - 1;
    var rest, cut := areas[..n], Offset(areas, n);
    assert areas == rest + [areas[n]];
    OffsetPrefix(rest, [areas[n]], n);
    HoldsAt(bytes, areas, n);
    forall k | 0 <= k < n ensures RecordAt(bytes[..cut], Offset(rest, k), rest[k]) {
      OffsetPrefix(rest, [areas[n]], k);
      OffsetGrows(areas, k, n);
      HoldsAt(bytes, areas, k);
      RecordInPrefix(bytes, cut, Offset(areas, k), areas[k]);
    }
    hide Holds;
    HoldsIs(bytes[..cut], rest);
  }

  /** The trailing word of a non-empty page gives the footprint of its last record. */
  lemma LastRecord(bytes: seq<byte>, areas: seq<seq<byte>>)
    requires areas != [] && Holds(bytes, areas)
    ensures var n := |areas| - 1;
      && |bytes| >= 16 && U32At(bytes, |bytes| - 4) == Footprint(|areas[n]|) <= |bytes|
      && |bytes| - Footprint(|areas[n]|) == Offset(areas, n)
      && RecordAt(bytes, Offset(areas, n), areas[n])
  {
    hide U32At, Holds, Offset;
    var n := |areas| - 1;
    HoldsSize(bytes, areas);
    HoldsAt(bytes, areas, n);
    OffsetStep(areas, n);
  }

  /** The forward walk over leading words, counting records. */
  function CountFrom(bytes: seq<byte>, p: nat): nat
    requires p <= |bytes|
    decreases |bytes| - p
  {
    if p + 8 > |bytes| then 0
    else
      var f := U32At(bytes, p);
      if f == 0 || p + f > |bytes| then 0 else 1 + CountFrom(bytes, p + f)
  }

  /** The forward walk finds exactly the records that the trailing words find backwards. */
  lemma {:induction false} WalkCounts(bytes: seq<byte>, areas: seq<seq<byte>>, k: nat)
    requires Holds(bytes, areas) && k <= |areas|
    ensures Offset(areas, k) <= |bytes| && CountFrom(bytes, Offset(areas, k)) == |areas| - k
    decreases |areas| - k
  {
    hide U32At, Holds, Offset;
    HoldsSize(bytes, areas);
    if k < |areas| {
      HoldsAt(bytes, areas, k);
      OffsetStep(areas, k);
      WalkCounts(bytes, areas, k + 1);
    }
  }

  // ----- The arena -----

  type Pages = seq<seq<seq<byte>>>

  /** All payload areas, oldest record first. */
  function Stacked(pages: Pages): seq<seq<byte>> {
    if pages == [] then [] else Stacked(pages[..|pages| - 1]) + pages[|pages| - 1]
  }

  function Total(used: seq<nat>): nat {
    if used == [] then 0 else Total(used[..|used| - 1]) + used[|used| - 1]
  }

  class ChoiceArena {
    var pages: seq<array<byte>>
    var used: seq<nat>
    var totalUsed: nat
    var peakUsed: nat
    var lastRecSize: nat
    ghost var areas: Pages

    ghost predicate Shape()
      reads this
    {
      && |pages| == |used| == |areas| >= 1
      && (forall i, j :: 0 <= i < j < |pages| ==> pages[i] != pages[j])
      && (forall i :: 0 <= i < |pages| ==> used[i] <= pages[i].Length)
    }

    ghost predicate PagesHold()
      reads this, pages
      requires Shape()
    {
      forall i :: 0 <= i < |pages| ==> Holds(pages[i][..used[i]], areas[i])
    }

    /** Every page is one of the given ones or new. */
    twostate predicate PagesKept(before: seq<array<byte>>)
      reads this
    {
      forall p :: p in pages ==> p in before || fresh(p)
    }

    /** Every page holds its records, pages past the first are in use, and the totals agree. */
    ghost predicate Valid()
      reads this, pages
    {
      && Shape()
      && PagesHold()
      && (forall i :: 1 <= i < |pages| ==> areas[i] != [])
      && totalUsed == Total(used)
      && lastRecSize == TopSize()
    }

    ghost function TopSize(): nat
      reads this
      requires Shape()
    {
      var top := areas[|areas| - 1];
      if top == [] then 0 else Footprint(|top[|top| - 1]|)
    }

    /** The records as a stack, oldest first. */
    ghost function Records(): seq<seq<byte>>
      reads this
    {
      Stacked(areas)
    }

    constructor ()
      ensures Valid() && Records() == [] && totalUsed == 0
      ensures |pages| == 1 && fresh(pages[0])
    {
      hide Holds, Stacked, Total;
      var head := new byte[PAGE_SIZE];
      pages := [head];
      used := [0];
      areas := [[]];
      totalUsed, peakUsed, lastRecSize := 0, 0, 0;
      new;
      NothingHeld(pages[0][..0]);
    }

    /** Keep the first page, empty it, and free the rest. */
    method Reset()
      requires Valid()
      modifies this
      ensures Valid() && Records() == [] && totalUsed == 0
      ensures |pages| == 1 && pages[0] == old(pages[0]) && PagesKept(old(pages))
    {
      hide Holds, Stacked, Total;
      pages := pages[..1];
      used := [0];
      areas := [[]];
      totalUsed, peakUsed, lastRecSize := 0, 0, 0;
      NothingHeld(pages[0][..0]);
    }

    /** The page allocations go to, and the bytes used there. */
    ghost function Current(): array<byte>
      reads this
      requires Shape()
    {
      pages[|pages| - 1]
    }

    /** Start a new page when `footprint` more bytes do not fit the current one. */
    method MakeRoom(footprint: nat)
      requires Valid() && footprint > 0
      modifies this
      ensures Shape() && used[|used| - 1] + footprint <= Current().Length
      ensures PagesHold()
      ensures forall i :: 1 <= i < |pages| - 1 ==> areas[i] != []
      ensures totalUsed == old(totalUsed) == Total(used) && peakUsed == old(peakUsed) && Records() == old(Records())
      ensures fresh(Current()) || Current() == old(Current())
      ensures PagesKept(old(pages))
    {
      hide Holds, Stacked, Total;
      var cur := |pages| - 1;
      if used[cur] + footprint <= pages[cur].Length { return; }
      var page := new byte[if footprint > PAGE_SIZE then footprint else PAGE_SIZE];
      NothingHeld(page[..0]);
      MoreTotal(used, 0);
      MoreStacked(areas, []);
      pages := pages + [page];
      used := used + [0];
      areas := areas + [[]];
    }

    /** The payload area `area` lies at `off` in the current page. */
    ghost predicate AreaAt(off: nat, area: seq<byte>)
      reads this, pages
    {
      Shape() && At(Current()[..], off, area)
    }

    /** The pages hold their records, and the current one a further one of `f` bytes. */
    ghost predicate Extended(f: nat, area: seq<byte>)
      reads this, pages
      requires Shape() && used[|used| - 1] + f <= Current().Length
    {
      && (forall i :: 0 <= i < |pages| - 1 ==> Holds(pages[i][..used[i]], areas[i]))
      && Holds(Current()[..used[|used| - 1] + f], areas[|areas| - 1] + [area])
    }

    /** Write the size words of a new record into the current page. */
    method WriteRecord(f: nat) returns (ghost area: seq<byte>)
      requires Shape() && PagesHold() && f >= 16 && f % 8 == 0 && f < U32
      requires used[|used| - 1] + f <= Current().Length
      modifies Current()
      ensures Shape() && used[|used| - 1] + f <= Current().Length && Extended(f, area)
      ensures AreaAt(used[|used| - 1] + 8, area)
      ensures Footprint(|area|) == f && used[|used| - 1] % 8 == 0
    {
      hide Holds, U32At, RecordAt, At, Footprint;
      var cur := |pages| - 1;
      var page, base := pages[cur], used[cur];
      PageAligned(page[..base], areas[cur]);
      area := WriteFrame(page, base, f);
      HoldsMore(old(page[..base]), page[..base + f], areas[cur], area);
      forall i | 0 <= i < cur ensures Holds(pages[i][..used[i]], areas[i]) {
        assert pages[i] != page && pages[i][..used[i]] == old(pages[i][..used[i]]);
      }
    }

    /** Count the record just written at the end of the current page. */
    method CountRecord(f: nat, ghost area: seq<byte>)
      requires Shape() && Footprint(|area|) == f && totalUsed == Total(used)
      requires used[|used| - 1] + f <= Current().Length && Extended(f, area)
      requires forall i :: 1 <= i < |pages| - 1 ==> areas[i] != []
      modifies this
      ensures Valid() && pages == old(pages)
      ensures used[|used| - 1] == old(used[|used| - 1]) + f
      ensures Records() == old(Records()) + [area]
      ensures totalUsed == old(totalUsed) + f && peakUsed == Max(totalUsed, old(peakUsed))
    {
      hide Holds, Stacked, Total;
      var cur := |pages| - 1;
      var top := used[cur] + f;
      TotalLast(used, top);
      StackedGrows(areas, area);
      used := used[cur := top];
      areas := areas[cur := areas[cur] + [area]];
      totalUsed := totalUsed + f;
      if totalUsed > peakUsed { peakUsed := totalUsed; }
      lastRecSize := f;
    }

    /** Append a record to the current page. */
    method Append(f: nat) returns (off: nat, ghost area: seq<byte>)
      requires Shape() && PagesHold() && f >= 16 && f % 8 == 0 && f < U32
      requires used[|used| - 1] + f <= Current().Length && totalUsed == Total(used)
      requires forall i :: 1 <= i < |pages| - 1 ==> areas[i] != []
      modifies this, Current()
      ensures Valid() && pages == old(pages)
      ensures off % 8 == 0 && Footprint(|area|) == f && AreaAt(off, area) && off + |area| + 8 == used[|used| - 1]
      ensures Records() == old(Records()) + [area]
      ensures totalUsed == old(totalUsed) + f && peakUsed == Max(totalUsed, old(peakUsed))
    {
      hide Holds, Stacked, Total, At, ChoiceArena.TopSize, ChoiceArena.PagesHold, ChoiceArena.Extended;
      off := used[|used| - 1] + 8;
      area := WriteRecord(f);
      CountRecord(f, area);
    }

    /** Reserve a record with room for `n` payload bytes; the result is the payload's offset in the
        current page. */
    method Alloc(n: nat) returns (off: nat, ghost area: seq<byte>)
      requires Valid() && Footprint(Align8(n)) < U32
      modifies this, pages
      ensures Valid() && PagesKept(old(pages))
      ensures off % 8 == 0 && |area| == Align8(n) && AreaAt(off, area) && off + |area| + 8 == used[|used| - 1]
      ensures Shape() && Current() in pages
      ensures Records() == old(Records()) + [area]
      ensures totalUsed == old(totalUsed) + Footprint(Align8(n)) && peakUsed == Max(totalUsed, old(peakUsed))
    {
      hide Holds, Stacked, Total;
      var f := Footprint(Align8(n));
      MakeRoom(f);
      off, area := Append(f);
    }

    /** Some record is live: the current page is not empty. */
    lemma CurrentInUse()
      requires Valid()
      ensures Records() != [] <==> totalUsed > 0
      ensures Records() != [] ==> areas[|areas| - 1] != []
      ensures used[|used| - 1] == 0 <==> areas[|areas| - 1] == []
    {
      hide RecordAt;
      forall i | 0 <= i < |pages| ensures used[i] == 0 <==> areas[i] == [] {
        HoldsSize(pages[i][..used[i]], areas[i]);
        OffsetZero(areas[i]);
      }
      TotalZero(used, areas);
    }

    /** The pages hold their records, and the current one those of `top`. */
    ghost predicate Refilled(top: seq<seq<byte>>)
      reads this, pages
      requires Shape()
    {
      var cur := |pages| - 1;
      && (forall i :: 0 <= i < cur ==> Holds(pages[i][..used[i]], areas[i]))
      && Holds(pages[cur][..used[cur]], top)
    }

    /** Write a payload over the newest record's area. */
    method FillRecord(off: nat, payload: seq<byte>, ghost rest: seq<seq<byte>>, ghost area: seq<byte>)
      requires Shape() && PagesHold() && areas[|areas| - 1] == rest + [area] && |payload| <= |area|
      requires AreaAt(off, area) && off + |area| + 8 == used[|used| - 1]
      modifies Current()
      ensures Shape() && Refilled(rest + [payload + area[|payload|..]]) && AreaAt(off, payload + area[|payload|..])
    {
      hide Holds, RecordAt, At;
      var cur := |pages| - 1;
      var page := pages[cur];
      ghost var bytes, filled := page[..used[cur]], payload + area[|payload|..];
      FillArea(page, off, payload);
      StoredRecord(bytes, page[..used[cur]], rest, area, off, payload, filled);
      AtPrefix(page[..], used[cur], off, filled);
      forall i | 0 <= i < cur ensures Holds(pages[i][..used[i]], areas[i]) {
        assert pages[i] != page && pages[i][..used[i]] == old(pages[i][..used[i]]);
      }
    }

    /** Fill the payload of the newest record. */
    method Store(off: nat, payload: seq<byte>, ghost area: seq<byte>)
      requires Valid() && Records() != [] && area == Records()[|Records()| - 1] && |payload| <= |area|
      requires AreaAt(off, area) && off + |area| + 8 == used[|used| - 1]
      modifies this`areas, Current()
      ensures Valid() && pages == old(pages) && totalUsed == old(totalUsed)
      ensures Records() == old(Records())[..|old(Records())| - 1] + [payload + area[|payload|..]]
      ensures used == old(used) && AreaAt(off, payload + area[|payload|..])
    {
      hide Holds, Stacked, Total, At;
      CurrentInUse();
      var cur := |pages| - 1;
      ghost var top := areas[cur];
      ghost var rest, filled := top[..|top| - 1], payload + area[|payload|..];
      StackedLast(areas, top);
      assert top == rest + [area];
      FillRecord(off, payload, rest, area);
      StackedLast(areas, rest + [filled]);
      areas := areas[cur := rest + [filled]];
    }

    /** The newest record: where its payload lies, found through the trailing word. */
    method Top() returns (off: nat, ghost area: seq<byte>)
      requires Valid() && Records() != []
      ensures Shape() && area == Records()[|Records()| - 1] && AreaAt(off, area)
      ensures off + |area| + 8 == used[|used| - 1]
    {
      hide Holds, Stacked, Total, U32At;
      CurrentInUse();
      var cur := |pages| - 1;
      var page, end := pages[cur], used[cur];
      ghost var top := areas[cur];
      StackedLast(areas, top);
      LastRecord(page[..end], top);
      area := top[|top| - 1];
      var f := LoadWord(page, end - 4);
      assert U32At(page[..], end - 4) == U32At(page[..end], end - 4) by { SameWord(page[..], end, end - 4); }
      off := end - f + 8;
      assert page[..][off..off + |area|] == page[..end][off..off + |area|];
    }

    lemma TopFits()
      requires Valid() && areas[|areas| - 1] != []
      ensures var top := areas[|areas| - 1];
        && Records() != [] && Records()[|Records()| - 1] == top[|top| - 1]
        && Footprint(|top[|top| - 1]|) <= used[|used| - 1] <= totalUsed
    {
      hide Holds, U32At, Offset;
      var cur := |pages| - 1;
      StackedLast(areas, areas[cur]);
      LastRecord(pages[cur][..used[cur]], areas[cur]);
      TotalLast(used, 0);
    }

    /** Free the current page, which holds nothing. */
    method DropEmpty()
      requires Shape() && PagesHold() && |pages| > 1 && totalUsed == Total(used)
      requires used[|used| - 1] == 0 && areas[|areas| - 1] == []
      requires forall i :: 1 <= i < |pages| - 1 ==> areas[i] != []
      modifies this
      ensures Shape() && PagesHold() && totalUsed == old(totalUsed) == Total(used) && Records() == old(Records())
      ensures forall i :: 1 <= i < |pages| ==> areas[i] != []
      ensures PagesKept(old(pages)) && lastRecSize == old(lastRecSize)
    {
      hide Holds;
      var cur := |pages| - 1;
      pages := pages[..cur];
      used := used[..cur];
      areas := areas[..cur];
    }

    /** Recover the size of the newest record from the trailing word. */
    method RefreshLastSize()
      requires Shape() && PagesHold()
      modifies this`lastRecSize
      ensures Shape() && PagesHold() && lastRecSize == TopSize()
    {
      hide Holds, U32At;
      var cur := |pages| - 1;
      HoldsSize(pages[cur][..used[cur]], areas[cur]);
      OffsetZero(areas[cur]);
      if used[cur] > 0 {
        LastRecord(pages[cur][..used[cur]], areas[cur]);
        lastRecSize := LoadWord(pages[cur], used[cur] - 4);
        SameWord(pages[cur][..], used[cur], used[cur] - 4);
      } else {
        lastRecSize := 0;
      }
    }

    /** Drop the newest record, and its page when that becomes empty. */
    method PopLast()
      requires Valid() && Records() != []
      modifies this
      ensures Valid() && PagesKept(old(pages))
      ensures Records() == old(Records())[..|old(Records())| - 1]
      ensures totalUsed == old(totalUsed) - Footprint(|old(Records())[|old(Records())| - 1]|)
    {
      hide Holds, Stacked, Total, U32At, At, ChoiceArena.PagesHold, ChoiceArena.TopSize;
      var cur := |pages| - 1;
      var off;
      ghost var area;
      off, area := Top();
      CurrentInUse();
      TopFits();
      Shrink(used[cur] - off + 8);
      if used[cur] == 0 && cur > 0 {
        DropEmpty();
      }
      RefreshLastSize();
    }

    /** Walk every page over the leading words: the number of live records. */
    method Depth() returns (d: nat)
      requires Valid()
      ensures d == |Records()|
    {
      hide Holds, U32At;
      d := 0;
      var i := 0;
      assert areas[..0] == [];
      while i < |pages|
        invariant 0 <= i <= |pages| && d == |Stacked(areas[..i])|
      {
        var n := CountPage(pages[i], used[i], areas[i]);
        assert areas[..i + 1][..i] == areas[..i];
        d := d + n;
        i := i + 1;
      }
      assert areas[..i] == areas;
    }

    /** Take the last record's footprint off the current page. */
    method Shrink(f: nat)
      requires Shape() && PagesHold() && areas[|areas| - 1] != []
      requires (forall i :: 1 <= i < |pages| ==> areas[i] != []) && totalUsed == Total(used)
      requires var top := areas[|areas| - 1];
        f == Footprint(|top[|top| - 1]|) <= used[|used| - 1] && f <= totalUsed
      modifies this`used, this`areas, this`totalUsed
      ensures Shape() && PagesHold() && totalUsed == old(totalUsed) - f == Total(used)
      ensures forall i :: 1 <= i < |pages| - 1 ==> areas[i] != []
      ensures Records() == old(Records())[..|old(Records())| - 1] && |used| == |old(used)|
      ensures used[|used| - 1] == 0 <==> areas[|areas| - 1] == []
    {
      hide Holds, Stacked, Total, U32At, Offset;
      var cur := |pages| - 1;
      ghost var top := areas[cur];
      ghost var bytes := pages[cur][..used[cur]];
      LastRecord(bytes, top);
      HoldsLess(bytes, top);
      StackedLast(areas, top[..|top| - 1]);
      TotalLast(used, used[cur] - f);
      areas := areas[cur := top[..|top| - 1]];
      used := used[cur := used[cur] - f];
      totalUsed := totalUsed - f;
      assert pages[cur][..used[cur]] == bytes[..used[cur]];
      HoldsSize(pages[cur][..used[cur]], areas[cur]);
      OffsetZero(areas[cur]);
    }
  }

  /** Write a size word. */
  method StoreWord(page: array<byte>, at: nat, v: nat)
    requires at + 4 <= page.Length
    modifies page
    ensures page[..] == Patch(old(page[..]), at, Enc32(v))
  {
    var w := Low32(v);
    page[at] := w / 0x1_0000 / 0x100;
    page[at + 1] := w / 0x1_0000 % 0x100;
    page[at + 2] := w % 0x1_0000 / 0x100;
    page[at + 3] := w % 0x100;
    ByteSplit(w);
    assert page[at..at + 4] == Enc32(v);
  }

  /** The two size words of a record of footprint `f` at `base`. */
  method WriteFrame(page: array<byte>, base: nat, f: nat) returns (ghost area: seq<byte>)
    requires f >= 16 && f % 8 == 0 && f < U32 && base + f <= page.Length
    modifies page
    ensures page[..base] == old(page[..base]) && Footprint(|area|) == f
    ensures RecordAt(page[..base + f], base, area) && At(page[..], base + 8, area)
  {
    hide Enc32, U32At, Patch;
    ghost var before := page[..];
    StoreWord(page, base, f);
    StoreWord(page, base + f - 4, f);
    ghost var after := page[..];
    PatchedRecord(before, after, base, f);
    area := after[base + 8..base + f - 8];
    assert after[..base] == page[..base] && before[..base] == old(page[..base]);
    assert after[..base + f] == page[..base + f];
  }

  lemma PatchedRecord(before: seq<byte>, after: seq<byte>, base: nat, f: nat)
    requires f >= 16 && f % 8 == 0 && f < U32 && base + f <= |before|
    requires after == Patch(Patch(before, base, Enc32(f)), base + f - 4, Enc32(f))
    ensures RecordAt(after[..base + f], base, after[base + 8..base + f - 8])
    ensures after[..base] == before[..base]
  {
    hide Enc32, U32At;
    var mid := Patch(before, base, Enc32(f));
    var cut := after[..base + f];
    assert At(cut, base, Enc32(f)) by {
      assert cut[base..base + 4] == mid[base..base + 4] == Enc32(f);
    }
    assert At(cut, base + f - 4, Enc32(f)) by {
      assert cut[base + f - 4..base + f] == Enc32(f);
    }
    Decode32(cut, base, f);
    Decode32(cut, base + f - 4, f);
    assert cut[base + 8..base + f - 8] == after[base + 8..base + f - 8];
  }

  lemma PageAligned(bytes: seq<byte>, areas: seq<seq<byte>>)
    requires Holds(bytes, areas)
    ensures |bytes| % 8 == 0
  {
    hide U32At;
    OffsetAligned(areas, |areas|);
  }

  method CountPage(page: array<byte>, used: nat, ghost areas: seq<seq<byte>>) returns (n: nat)
    requires used <= page.Length && Holds(page[..used], areas)
    ensures n == |areas|
  {
    hide U32At, Holds, RecordAt, Offset;
    ghost var bytes := page[..used];
    var pos := 0;
    n := 0;
    OffsetStart(areas);
    HoldsSize(bytes, areas);
    while pos + 8 <= used
      invariant n <= |areas| && pos == Offset(areas, n) <= used
      decreases used - pos
    {
      if n == |areas| { assert false; }
      HoldsAt(bytes, areas, n);
      OffsetStep(areas, n);
      LeadingWord(bytes, pos, areas[n]);
      var f := LoadWord(page, pos);
      SameWord(page[..], used, pos);
      assert page[..][..used] == bytes;
      pos := pos + f;
      n := n + 1;
    }
    if n < |areas| {
      OffsetStep(areas, n);
      HoldsAt(bytes, areas, n);
      assert false;
    }
  }

  lemma OffsetStart(areas: seq<seq<byte>>)
    ensures Offset(areas, 0) == 0
  {
  }

  lemma LeadingWord(bytes: seq<byte>, p: nat, area: seq<byte>)
    requires RecordAt(bytes, p, area)
    ensures p + Footprint(|area|) <= |bytes| && U32At(bytes, p) == Footprint(|area|)
  {
    hide U32At;
  }

  lemma AtPrefix(bytes: seq<byte>, n: nat, p: nat, part: seq<byte>)
    requires n <= |bytes| && At(bytes[..n], p, part)
    ensures At(bytes, p, part)
  {
    assert bytes[..n][p..p + |part|] == bytes[p..p + |part|];
  }

  method FillArea(page: array<byte>, off: nat, payload: seq<byte>)
    requires off + |payload| <= page.Length
    modifies page
    ensures page[..] == Patch(old(page[..]), off, payload)
  {
    var i := 0;
    while i < |payload|
      invariant 0 <= i <= |payload|
      invariant page[..] == Patch(old(page[..]), off, payload[..i])
    {
      page[off + i] := payload[i];
      i := i + 1;
    }
  }

  method LoadWord(page: array<byte>, at: nat) returns (v: nat)
    requires at + 4 <= page.Length
    ensures v == U32At(page[..], at)
  {
    var a: int, b: int, c: int, d: int := page[at], page[at + 1], page[at + 2], page[at + 3];
    v := (a * 0x100 + b) * 0x1_0000 + c * 0x100 + d;
  }

  lemma SameWord(bytes: seq<byte>, n: nat, at: nat)
    requires at + 4 <= n <= |bytes|
    ensures U32At(bytes[..n], at) == U32At(bytes, at)
  {
  }

  /** Overwriting payload bytes of the last record leaves its frame and all other records. */
  lemma StoredRecord(bytes: seq<byte>, after: seq<byte>, rest: seq<seq<byte>>, area: seq<byte>, off: nat,
                     payload: seq<byte>, filled: seq<byte>)
    requires Holds(bytes, rest + [area]) && |payload| <= |area| && filled == payload + area[|payload|..]
    requires off + |area| + 8 == |bytes| && after == Patch(bytes, off, payload)
    ensures Holds(after, rest + [filled]) && At(after, off, filled)
  {
    hide Holds, Offset, RecordAt, At;
    var areas := rest + [area];
    assert areas[..|rest|] == rest;
    LastRecord(bytes, areas);
    HoldsLess(bytes, areas);
    var cut := Offset(areas, |rest|);
    FilledRecord(bytes, after, cut, area, payload);
    HoldsMore(bytes[..cut], after, rest, filled);
  }

  lemma FilledRecord(bytes: seq<byte>, after: seq<byte>, cut: nat, area: seq<byte>, payload: seq<byte>)
    requires RecordAt(bytes, cut, area) && |payload| <= |area| && cut + Footprint(|area|) == |bytes|
    requires after == Patch(bytes, cut + 8, payload)
    ensures var filled := payload + area[|payload|..];
      && RecordAt(after, cut, filled) && At(after, cut + 8, filled)
      && after[..cut] == bytes[..cut]
  {
    var filled := payload + area[|payload|..];
    WordsKept(bytes, after, cut, |area|, payload);
    hide U32At;
    assert bytes[cut + 8..cut + 8 + |area|] == area;
    assert after[cut + 8..cut + 8 + |area|] == filled;
  }

  lemma WordsKept(bytes: seq<byte>, after: seq<byte>, cut: nat, n: nat, payload: seq<byte>)
    requires cut + n + 16 == |bytes| && |payload| <= n && after == Patch(bytes, cut + 8, payload)
    ensures U32At(after, cut) == U32At(bytes, cut) && U32At(after, |bytes| - 4) == U32At(bytes, |bytes| - 4)
  {
    assert after[cut..cut + 4] == bytes[cut..cut + 4];
    assert after[|bytes| - 4..] == bytes[|bytes| - 4..];
    SameBytes(bytes, after, cut);
    SameBytes(bytes, after, |bytes| - 4);
  }

  lemma SameBytes(a: seq<byte>, b: seq<byte>, p: nat)
    requires p + 4 <= |a| && p + 4 <= |b| && a[p..p + 4] == b[p..p + 4]
    ensures U32At(a, p) == U32At(b, p)
  {
    assert forall k :: p <= k < p + 4 ==> a[k] == a[p..p + 4][k - p] == b[k];
  }

  lemma {:induction false} OffsetZero(areas: seq<seq<byte>>)
    ensures Offset(areas, |areas|) == 0 <==> areas == []
  {
  }

  lemma {:induction false} TotalZero(used: seq<nat>, pages: Pages)
    requires |used| == |pages| && forall i :: 0 <= i < |used| ==> (used[i] == 0 <==> pages[i] == [])
    ensures Total(used) == 0 <==> Stacked(pages) == []
    decreases |used|
  {
    if used != [] {
      var k := |used| - 1;
      TotalZero(used[..k], pages[..k]);
    }
  }

  lemma TotalLast(used: seq<nat>, n: nat)
    requires used != []
    ensures Total(used[|used| - 1 := n]) == Total(used) - used[|used| - 1] + n
  {
    var k := |used| - 1;
    assert used[k := n][..k] == used[..k];
  }

  lemma StackedLast(pages: Pages, page: seq<seq<byte>>)
    requires pages != []
    ensures Stacked(pages[|pages| - 1 := page]) == Stacked(pages[..|pages| - 1]) + page
    ensures Stacked(pages) == Stacked(pages[..|pages| - 1]) + pages[|pages| - 1]
  {
    var k := |pages| - 1;
    assert pages[k := page][..k] == pages[..k];
  }

  lemma StackedGrows(pages: Pages, area: seq<byte>)
    requires pages != []
    ensures var k := |pages| - 1; Stacked(pages[k := pages[k] + [area]]) == Stacked(pages) + [area]
  {
    var k := |pages| - 1;
    StackedLast(pages, pages[k] + [area]);
    assert Stacked(pages[..k]) + (pages[k] + [area]) == Stacked(pages[..k]) + pages[k] + [area];
  }

  lemma NothingHeld(bytes: seq<byte>)
    requires bytes == []
    ensures Holds(bytes, []) && Total([0]) == 0 && Stacked([[]]) == []
  {
    var none: seq<seq<byte>> := [];
    assert [0][..0] == [] && [none][..0] == [];
  }

  lemma MoreTotal(used: seq<nat>, n: nat)
    ensures Total(used + [n]) == Total(used) + n
  {
    assert (used + [n])[..|used|] == used;
  }

  lemma MoreStacked(pages: Pages, page: seq<seq<byte>>)
    ensures Stacked(pages + [page]) == Stacked(pages) + page
  {
    assert (pages + [page])[..|pages|] == pages;
  }
}
