/** The cache of runtime-compiled patterns (dynamic_pattern.c): bucket chains, a size bound with
    eviction, and reference counts. */
module PatternCache {
  import opened Wrappers
  import opened Bytes
  import opened StringTable

  const DEFAULT_MAX: nat := 64
  const BUCKETS: nat := 32

  /** A compiled pattern. `handles` counts the references its users hold; it is freed when the last
      reference goes. */
  class Pattern {
    var refcount: nat
    ghost var handles: nat

    /** What creation leaves: one reference, held by the creator. */
    constructor ()
      ensures refcount == 1 && handles == 1
    {
      refcount := 1;
      handles := 1;
    }
  }

  datatype Entry = Entry(source: Key, hash: nat, pattern: Pattern)

  type Chain = seq<Entry>

  /** All entries, bucket by bucket, front first: the order in which eviction meets them. */
  function Flat(buckets: seq<Chain>): seq<Entry> {
    if buckets == [] then [] else buckets[0] + Flat(buckets[1..])
  }

  /** How often the cache refers to a pattern. */
  function Count(entries: seq<Entry>, p: Pattern): nat {
    if entries == [] then 0 else (if entries[0].pattern == p then 1 else 0) + Count(entries[1..], p)
  }

  lemma {:induction false} CountConcat(a: seq<Entry>, b: seq<Entry>, p: Pattern)
    ensures Count(a + b, p) == Count(a, p) + Count(b, p)
  {
    if a == [] {
      assert a + b == b;
    } else {
      assert (a + b)[1..] == a[1..] + b;
      CountConcat(a[1..], b, p);
    }
  }

  lemma {:induction false} FlatConcat(a: seq<Chain>, b: seq<Chain>)
    ensures Flat(a + b) == Flat(a) + Flat(b)
  {
    if a == [] {
      assert a + b == b;
    } else {
      assert (a + b)[1..] == a[1..] + b;
      FlatConcat(a[1..], b);
    }
  }

  /** The list around one bucket. */
  lemma FlatAround(buckets: seq<Chain>, b: nat, chain: Chain)
    requires b < |buckets|
    ensures Flat(buckets) == Flat(buckets[..b]) + buckets[b] + Flat(buckets[b + 1..])
    ensures Flat(buckets[b := chain]) == Flat(buckets[..b]) + chain + Flat(buckets[b + 1..])
  {
    var before, after := buckets[..b], buckets[b + 1..];
    assert buckets == before + ([buckets[b]] + after);
    assert buckets[b := chain] == before + ([chain] + after);
    FlatConcat(before, [buckets[b]] + after);
    FlatConcat(before, [chain] + after);
  }

  /** No two entries share a source. */
  predicate Unique(entries: seq<Entry>) {
    forall i, j :: 0 <= i < j < |entries| ==> entries[i].source != entries[j].source
  }

  predicate Homed(buckets: seq<Chain>) {
    |buckets| == BUCKETS
    && forall b, i :: 0 <= b < BUCKETS && 0 <= i < |buckets[b]| ==>
         buckets[b][i].hash == Hash(buckets[b][i].source) && buckets[b][i].hash % BUCKETS == b
  }

  /** The entry for a source, wherever it is. */
  ghost predicate Cached(entries: seq<Entry>, source: Key, p: Pattern) {
    exists i :: 0 <= i < |entries| && entries[i].source == source && entries[i].pattern == p
  }

  ghost predicate Holds(entries: seq<Entry>, source: Key) {
    exists i :: 0 <= i < |entries| && entries[i].source == source
  }

  lemma {:induction false} InFlat(buckets: seq<Chain>, b: nat, i: nat) returns (k: nat)
    requires b < |buckets| && i < |buckets[b]|
    ensures k < |Flat(buckets)| && Flat(buckets)[k] == buckets[b][i]
  {
    FlatAround(buckets, b, buckets[b]);
    k := |Flat(buckets[..b])| + i;
  }

  lemma {:induction false} FromFlat(buckets: seq<Chain>, k: nat) returns (b: nat, i: nat)
    requires k < |Flat(buckets)|
    ensures b < |buckets| && i < |buckets[b]| && Flat(buckets)[k] == buckets[b][i]
  {
    if k < |buckets[0]| {
      b, i := 0, k;
    } else {
      var c;
      c, i := FromFlat(buckets[1..], k - |buckets[0]|);
      b := c + 1;
    }
  }

  class Cache {
    var buckets: seq<Chain>
    var size: nat
    var maxSize: nat
    /** Every pattern whose references are accounted for. */
    ghost var world: set<Pattern>

    ghost predicate Valid()
      reads this, world
    {
      && Homed(buckets) && Unique(Flat(buckets)) && size == |Flat(buckets)| <= maxSize && maxSize > 0
      && (forall i :: 0 <= i < |Flat(buckets)| ==> Flat(buckets)[i].pattern in world)
      && forall p :: p in world ==> p.refcount == p.handles + Count(Flat(buckets), p)
    }

    constructor (max: nat)
      ensures Valid() && Flat(buckets) == [] && world == {} && maxSize == (if max > 0 then max else DEFAULT_MAX)
    {
      maxSize := if max > 0 then max else DEFAULT_MAX;
      buckets := seq(BUCKETS, _ => []);
      size := 0;
      world := {};
      new;
      AllEmpty(buckets);
    }

    /** Position of a source in its bucket, or the chain's length. */
    method FindInChain(chain: Chain, hash: nat, source: Key) returns (i: nat)
      ensures i <= |chain|
      ensures i < |chain| ==> chain[i].hash == hash && chain[i].source == source
      ensures forall j :: 0 <= j < i ==> !(chain[j].hash == hash && chain[j].source == source)
    {
      i := 0;
      while i < |chain|
        invariant i <= |chain|
        invariant forall j :: 0 <= j < i ==> !(chain[j].hash == hash && chain[j].source == source)
      {
        if chain[i].hash == hash && chain[i].source == source { return; }
        i := i + 1;
      }
    }

    /** A source is cached exactly when its own bucket's chain has it. */
    lemma FoundInBucket(source: Key, i: nat)
      requires Homed(buckets)
      requires var chain := buckets[Hash(source) % BUCKETS];
        i <= |chain| && (i < |chain| ==> chain[i].source == source)
        && forall j :: 0 <= j < i ==> !(chain[j].hash == Hash(source) && chain[j].source == source)
      ensures Holds(Flat(buckets), source) <==> i < |buckets[Hash(source) % BUCKETS]|
      ensures i < |buckets[Hash(source) % BUCKETS]| ==>
        Cached(Flat(buckets), source, buckets[Hash(source) % BUCKETS][i].pattern)
    {
      hide Hash;
      var b := Hash(source) % BUCKETS;
      if i < |buckets[b]| {
        var k := InFlat(buckets, b, i);
        assert Flat(buckets)[k].source == source;
      }
      if Holds(Flat(buckets), source) {
        var k :| 0 <= k < |Flat(buckets)| && Flat(buckets)[k].source == source;
        var c, j := FromFlat(buckets, k);
        assert buckets[c][j].hash % BUCKETS == c;
      }
    }

    /** Look a source up; a hit hands out one more reference. */
    method Get(source: Key) returns (p: Pattern?)
      requires Valid()
      modifies world
      ensures Valid() && buckets == old(buckets) && world == old(world)
      ensures p == null <==> !Holds(Flat(buckets), source)
      ensures p != null ==> Cached(Flat(buckets), source, p) && p in world
      ensures p != null ==> p.refcount == old(p.refcount) + 1 && p.handles == old(p.handles) + 1
      ensures forall q :: q in world && q != p ==> q.refcount == old(q.refcount) && q.handles == old(q.handles)
    {
      hide Hash, Count;
      var hash := Hash(source);
      var chain := buckets[hash % BUCKETS];
      var i := FindInChain(chain, hash, source);
      FoundInBucket(source, i);
      if i == |chain| { return null; }
      ghost var k := InFlat(buckets, hash % BUCKETS, i);
      var found := chain[i].pattern;
      found.refcount := found.refcount + 1;
      found.handles := found.handles + 1;
      return found;
    }

    /** A user gives a reference back. */
    method Release(p: Pattern)
      requires Valid() && p in world && p.handles > 0
      modifies p
      ensures Valid() && p.refcount == old(p.refcount) - 1 && p.handles == old(p.handles) - 1
    {
      p.refcount := p.refcount - 1;
      p.handles := p.handles - 1;
    }

    method FirstInUse() returns (b: nat)
      ensures b <= |buckets| && Flat(buckets[..b]) == [] && (b < |buckets| ==> buckets[b] != [])
    {
      b := 0;
      while b < |buckets| && buckets[b] == []
        invariant 0 <= b <= |buckets| && Flat(buckets[..b]) == []
      {
        assert buckets[..b + 1] == buckets[..b] + [buckets[b]];
        FlatConcat(buckets[..b], [buckets[b]]);
        b := b + 1;
      }
    }

    /** Take entry `i` out of bucket `b` and give back the cache's reference to its pattern. */
    method Unlink(b: nat, i: nat)
      requires Valid() && b < |buckets| && i < |buckets[b]|
      modifies this`buckets, this`size, world
      ensures Valid() && buckets == Without(old(buckets), b, i)
      ensures forall q :: q in world ==> q.handles == old(q.handles)
    {
      hide Count, Flat, Homed, Unique;
      UnlinkFacts(buckets, b, i, world);
      var p := buckets[b][i].pattern;
      buckets := Without(buckets, b, i);
      p.refcount := p.refcount - 1;
      size := size - 1;
    }

    /** Drop the first entry of the first bucket that has one. */
    method EvictOne() returns (evicted: bool)
      requires Valid()
      modifies this`buckets, this`size, world
      ensures Valid() && evicted == (old(Flat(buckets)) != [])
      ensures evicted ==> Flat(buckets) == old(Flat(buckets))[1..]
      ensures !evicted ==> buckets == old(buckets)
      ensures forall q :: q in world ==> q.handles == old(q.handles)
    {
      hide Hash, Count, Valid;
      var b := FirstInUse();
      if b == |buckets| {
        assert buckets[..b] == buckets;
        return false;
      }
      FlatAround(buckets, b, buckets[b][1..]);
      assert buckets[b][..0] + buckets[b][1..] == buckets[b][1..];
      assert [] + buckets[b] + Flat(buckets[b + 1..]) == buckets[b] + Flat(buckets[b + 1..]);
      Unlink(b, 0);
      return true;
    }

    /** The entries that survive making room for one more. */
    ghost function Survivors(): seq<Entry>
      reads this
    {
      var all := Flat(buckets);
      if all != [] && |all| >= maxSize then all[1..] else all
    }

    /** Evict while the cache is full. */
    method MakeRoom()
      requires Valid()
      modifies this`buckets, this`size, world
      ensures Valid() && size < maxSize && Flat(buckets) == old(Survivors())
      ensures forall q :: q in world ==> q.handles == old(q.handles)
    {
      hide Hash, Count, Homed, Unique, Flat;
      ghost var all := Flat(buckets);
      while size >= maxSize
        invariant Valid() && (Flat(buckets) == all || (|all| >= maxSize && all != [] && Flat(buckets) == all[1..]))
        invariant |all| <= maxSize && size == |Flat(buckets)|
        invariant forall q :: q in world ==> q.handles == old(q.handles)
        decreases size
      {
        var evicted := EvictOne();
        if !evicted { break; }
      }
    }

    /** Cache a pattern under a source that is not cached yet, evicting when the cache is full. */
    method Put(source: Key, p: Pattern)
      requires Valid() && (p !in world ==> p.refcount == p.handles)
      modifies this, world, p
      ensures Valid() && maxSize == old(maxSize) && world == old(world) + {p}
      ensures old(Holds(Flat(buckets), source)) ==> buckets == old(buckets)
      ensures !old(Holds(Flat(buckets), source)) ==>
        Cached(Flat(buckets), source, p) && Inserted(old(Survivors()), Flat(buckets), Entry(source, Hash(source), p))
      ensures forall q :: q in world ==> q.handles == old(q.handles)
    {
      hide Hash, Count, Holds, Cached;
      var hash := Hash(source);
      Adopt(p);
      var i := FindInChain(buckets[hash % BUCKETS], hash, source);
      FoundInBucket(source, i);
      if i < |buckets[hash % BUCKETS]| { return; }
      ghost var all := Flat(buckets);
      ghost var kept := Survivors();
      MakeRoom();
      StillAbsent(all, Flat(buckets), source);
      Insert(Entry(source, hash, p));
    }

    /** Account for a pattern that the cache has not met. */
    ghost method Adopt(p: Pattern)
      requires Valid() && (p !in world ==> p.refcount == p.handles)
      modifies this`world
      ensures Valid() && world == old(world) + {p}
    {
      NotCounted(Flat(buckets), world, p);
      world := world + {p};
    }

    /** Push an entry onto the front of its bucket. */
    method Insert(e: Entry)
      requires Valid() && size < maxSize && e.pattern in world && e.hash == Hash(e.source)
      requires !Holds(Flat(buckets), e.source)
      modifies this`buckets, this`size, e.pattern`refcount
      ensures Valid() && Inserted(old(Flat(buckets)), Flat(buckets), e)
      ensures Cached(Flat(buckets), e.source, e.pattern)
    {
      hide Hash, Count, Unique, Inserted, Homed, Flat, Cached;
      var b := e.hash % BUCKETS;
      assert |buckets| == BUCKETS by { HasBuckets(buckets); }
      PushFacts(buckets, e, world);
      buckets := buckets[b := [e] + buckets[b]];
      e.pattern.refcount := e.pattern.refcount + 1;
      size := size + 1;
    }

    /** Drop every entry, bucket by bucket; only handed-out references are left. */
    method Clear()
      requires Valid()
      modifies this`buckets, this`size, world
      ensures Valid() && Flat(buckets) == [] && size == 0 && world == old(world)
      ensures forall q :: q in world ==> q.refcount == q.handles == old(q.handles)
    {
      hide Hash, Count, Homed, Unique;
      assert |buckets| == BUCKETS by { HasBuckets(buckets); }
      var b := 0;
      while b < BUCKETS
        invariant 0 <= b <= BUCKETS == |buckets| && Valid() && Flat(buckets[..b]) == []
        invariant forall q :: q in world ==> q.handles == old(q.handles)
      {
        while buckets[b] != []
          invariant |buckets| == BUCKETS && Valid() && Flat(buckets[..b]) == []
          invariant forall q :: q in world ==> q.handles == old(q.handles)
          decreases |buckets[b]|
        {
          ghost var before := buckets;
          Unlink(b, 0);
          assert buckets[..b] == before[..b];
        }
        assert buckets[..b + 1] == buckets[..b] + [buckets[b]];
        FlatConcat(buckets[..b], [buckets[b]]);
        b := b + 1;
      }
      assert buckets[..b] == buckets;
      NothingCounted();
    }

    /** Drop the entry of a source. */
    method Remove(source: Key) returns (removed: bool)
      requires Valid()
      modifies this`buckets, this`size, world
      ensures Valid() && removed == old(Holds(Flat(buckets), source))
      ensures !removed ==> buckets == old(buckets)
      ensures removed ==> Removed(old(Flat(buckets)), Flat(buckets), source)
      ensures forall q :: q in world ==> q.handles == old(q.handles)
    {
      hide Hash, Count, Unique, Removed, Homed, Flat;
      var hash := Hash(source);
      var b := hash % BUCKETS;
      assert |buckets| == BUCKETS by { HasBuckets(buckets); }
      var chain := buckets[b];
      var i := FindInChain(chain, hash, source);
      FoundInBucket(source, i);
      if i == |chain| { return false; }
      UnlinkFacts(buckets, b, i, world);
      Unlink(b, i);
      return true;
    }
  }

  function Without(buckets: seq<Chain>, b: nat, i: nat): seq<Chain>
    requires b < |buckets| && i < |buckets[b]|
  {
    buckets[b := buckets[b][..i] + buckets[b][i + 1..]]
  }

  lemma WithoutHomed(buckets: seq<Chain>, b: nat, i: nat)
    requires Homed(buckets) && b < |buckets| && i < |buckets[b]|
    ensures Homed(Without(buckets, b, i))
  {
    hide Hash;
    var after: seq<Chain> := Without(buckets, b, i);
    forall k: nat | k < |after[b]|
      ensures after[b][k].hash == Hash(after[b][k].source) && after[b][k].hash % BUCKETS == b
    {
      assert after[b][k] == buckets[b][if k < i then k else k + 1];
    }
  }

  /** The list is the entry between what remains of it. */
  lemma FlatWithout(buckets: seq<Chain>, b: nat, i: nat) returns (head: seq<Entry>, tail: seq<Entry>)
    requires b < |buckets| && i < |buckets[b]|
    ensures Flat(buckets) == head + [buckets[b][i]] + tail && Flat(Without(buckets, b, i)) == head + tail
  {
    hide Flat;
    var chain := buckets[b];
    var less := chain[..i] + chain[i + 1..];
    FlatAround(buckets, b, less);
    head, tail := Flat(buckets[..b]) + chain[..i], chain[i + 1..] + Flat(buckets[b + 1..]);
    assert chain == chain[..i] + [chain[i]] + chain[i + 1..];
  }

  /** What taking an entry out of its bucket does to the whole list. */
  lemma UnlinkFacts(buckets: seq<Chain>, b: nat, i: nat, world: set<Pattern>)
    requires Homed(buckets) && Unique(Flat(buckets)) && b < |buckets| && i < |buckets[b]|
    requires forall k :: 0 <= k < |Flat(buckets)| ==> Flat(buckets)[k].pattern in world
    ensures var e, after := buckets[b][i], Without(buckets, b, i);
      && Homed(after) && Unique(Flat(after)) && |Flat(after)| + 1 == |Flat(buckets)|
      && (forall k :: 0 <= k < |Flat(after)| ==> Flat(after)[k].pattern in world)
      && (forall p :: Count(Flat(buckets), p) == Count(Flat(after), p) + (if e.pattern == p then 1 else 0))
      && e.pattern in world && Removed(Flat(buckets), Flat(after), e.source)
  {
    hide Hash, Count, Unique, Flat, Homed, Without, Removed;
    WithoutHomed(buckets, b, i);
    var e := buckets[b][i];
    var head, tail := FlatWithout(buckets, b, i);
    CountInserted(head, e, tail);
    UniqueInserted(head, e, tail);
    InWorld(head, e, tail, world);
    TakenOut(head, e, tail);
  }

  lemma TakenOut(head: seq<Entry>, e: Entry, tail: seq<Entry>)
    ensures Removed(head + [e] + tail, head + tail, e.source)
  {
    var all, n := head + [e] + tail, |head|;
    assert all[n] == e && all[..n] == head && all[n + 1..] == tail;
  }

  /** What pushing an entry onto its bucket does to the whole list. */
  lemma PushFacts(buckets: seq<Chain>, e: Entry, world: set<Pattern>)
    requires Homed(buckets) && Unique(Flat(buckets)) && e.hash == Hash(e.source) && e.pattern in world
    requires !Holds(Flat(buckets), e.source)
    requires forall k :: 0 <= k < |Flat(buckets)| ==> Flat(buckets)[k].pattern in world
    ensures var after := buckets[e.hash % BUCKETS := [e] + buckets[e.hash % BUCKETS]];
      && Homed(after) && Unique(Flat(after)) && |Flat(after)| == |Flat(buckets)| + 1
      && (forall k :: 0 <= k < |Flat(after)| ==> Flat(after)[k].pattern in world)
      && (forall p :: Count(Flat(after), p) == Count(Flat(buckets), p) + (if e.pattern == p then 1 else 0))
      && Inserted(Flat(buckets), Flat(after), e) && Cached(Flat(after), e.source, e.pattern)
  {
    hide Hash, Count, Unique, Flat;
    var b := e.hash % BUCKETS;
    var chain := [e] + buckets[b];
    FlatAround(buckets, b, chain);
    var head, tail := Flat(buckets[..b]), buckets[b] + Flat(buckets[b + 1..]);
    assert Flat(buckets) == head + tail;
    assert Flat(buckets[b := chain]) == head + [e] + tail;
    CountInserted(head, e, tail);
    UniqueInserted(head, e, tail);
    InWorld(head, e, tail, world);
    assert (head + [e] + tail)[|head|] == e;
  }

  lemma HasBuckets(buckets: seq<Chain>)
    requires Homed(buckets)
    ensures |buckets| == BUCKETS
  {
  }

  lemma UniqueInserted(head: seq<Entry>, e: Entry, tail: seq<Entry>)
    ensures Unique(head + [e] + tail) <==> Unique(head + tail) && !Holds(head + tail, e.source)
  {
    var with, without, n := head + [e] + tail, head + tail, |head|;
    assert forall i :: 0 <= i < |without| ==> without[i] == with[if i < n then i else i + 1];
    assert forall i :: 0 <= i < |with| && i != n ==> with[i] == without[if i < n then i else i - 1];
    assert with[n] == e;
  }

  lemma InWorld(head: seq<Entry>, e: Entry, tail: seq<Entry>, world: set<Pattern>)
    ensures (forall i :: 0 <= i < |head + [e] + tail| ==> (head + [e] + tail)[i].pattern in world)
       <==> e.pattern in world && forall i :: 0 <= i < |head + tail| ==> (head + tail)[i].pattern in world
  {
    var with, without, n := head + [e] + tail, head + tail, |head|;
    assert forall i :: 0 <= i < |without| ==> without[i] == with[if i < n then i else i + 1];
    assert forall i :: 0 <= i < |with| && i != n ==> with[i] == without[if i < n then i else i - 1];
    assert with[n] == e;
  }

  /** One entry, that of the source, was taken out of the list. */
  ghost predicate Removed(before: seq<Entry>, after: seq<Entry>, source: Key) {
    exists k :: 0 <= k < |before| && before[k].source == source && after == before[..k] + before[k + 1..]
  }

  /** One entry was put somewhere into the list, everything else in order. */
  ghost predicate Inserted(before: seq<Entry>, after: seq<Entry>, e: Entry) {
    exists k :: 0 <= k <= |before| && after == before[..k] + [e] + before[k..]
  }

  lemma CountHead(e: Entry, rest: seq<Entry>)
    ensures forall p :: Count([e] + rest, p) == (if e.pattern == p then 1 else 0) + Count(rest, p)
  {
    assert ([e] + rest)[1..] == rest;
  }

  lemma CountInserted(head: seq<Entry>, e: Entry, tail: seq<Entry>)
    ensures forall p :: Count(head + [e] + tail, p) == Count(head + tail, p) + (if e.pattern == p then 1 else 0)
    ensures Inserted(head + tail, head + [e] + tail, e)
  {
    forall p ensures Count(head + [e] + tail, p) == Count(head + tail, p) + (if e.pattern == p then 1 else 0) {
      assert head + [e] + tail == head + ([e] + tail);
      CountConcat(head, [e] + tail, p);
      CountConcat(head, tail, p);
      CountHead(e, tail);
    }
    var all := head + tail;
    assert all[..|head|] == head && all[|head|..] == tail;
  }

  lemma {:induction false} NotCounted(entries: seq<Entry>, world: set<Pattern>, p: Pattern)
    requires forall i :: 0 <= i < |entries| ==> entries[i].pattern in world
    ensures p !in world ==> Count(entries, p) == 0
  {
    if entries != [] { NotCounted(entries[1..], world, p); }
  }

  lemma StillAbsent(all: seq<Entry>, kept: seq<Entry>, source: Key)
    requires !Holds(all, source) && (kept == all || (all != [] && kept == all[1..]))
    ensures !Holds(kept, source)
  {
    assert kept != all ==> forall i :: 0 <= i < |kept| ==> kept[i] == all[i + 1];
  }

  lemma NothingCounted()
    ensures forall p :: Count([], p) == 0
  {
  }

  lemma {:induction false} AllEmpty(buckets: seq<Chain>)
    requires forall b :: 0 <= b < |buckets| ==> buckets[b] == []
    ensures Flat(buckets) == []
    decreases |buckets|
  {
    if buckets != [] { AllEmpty(buckets[1..]); }
  }
}
