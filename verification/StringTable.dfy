/** The string table (table.c): open addressing with linear probing and doubling. Without deletions
    it is a map; a deletion is harmless exactly when its slot lies on nobody's probe path. */
module StringTable {
  import opened Wrappers
  import opened Bytes

  type Key = seq<byte>
  type Value = seq<byte>

  const INITIAL_CAPACITY: nat := 16
  const FNV_OFFSET: nat := 2166136261
  const FNV_PRIME: nat := 16777619

  /** The weight of a bit, when it differs. */
  function Differ(a: nat, b: nat, weight: nat): nat
    requires weight > 0
  {
    if a / weight % 2 == b / weight % 2 then 0 else weight
  }

  /** Exclusive or of two bytes. */
  function Xor8(a: nat, b: nat): nat {
    Differ(a, b, 1) + Differ(a, b, 2) + Differ(a, b, 4) + Differ(a, b, 8)
    + Differ(a, b, 16) + Differ(a, b, 32) + Differ(a, b, 64) + Differ(a, b, 128)
  }

  /** A byte is mixed into the low byte of the word. */
  function Mix(h: nat, b: byte): nat { h / 0x100 * 0x100 + Xor8(h % 0x100, b) }

  /** 32-bit FNV-1a. */
  function HashFrom(key: Key, h: nat): (r: nat)
    requires h < U32
    ensures r < U32
    decreases |key|
  {
    if key == [] then h else HashFrom(key[1..], Low32(Mix(h, key[0]) * FNV_PRIME))
  }

  function Hash(key: Key): (r: nat)
    ensures r < U32
  {
    HashFrom(key, FNV_OFFSET)
  }

  /** Hashing goes on where it stopped. */
  lemma {:induction false} HashGoesOn(a: Key, b: Key, h: nat)
    requires h < U32
    ensures HashFrom(a + b, h) == HashFrom(b, HashFrom(a, h))
    decreases |a|
  {
    hide Mix;
    if a == [] {
      assert a + b == b;
    } else {
      assert (a + b)[1..] == a[1..] + b;
      HashGoesOn(a[1..], b, Low32(Mix(h, a[0]) * FNV_PRIME));
    }
  }

  lemma HashStep(key: Key, c: byte)
    ensures Hash(key + [c]) == Low32(Mix(Hash(key), c) * FNV_PRIME)
  {
    hide Mix;
    HashGoesOn(key, [c], FNV_OFFSET);
    assert [c][1..] == [];
  }

  /** One byte hashed: the exclusive or goes to the low byte `x`, and the product is `q` times 2^32 and the rest. */
  lemma HashByte(key: Key, c: byte, h: nat, x: byte, r: nat)
    requires Hash(key) == h && Xor8(h % 0x100, c) == x
    requires (h / 0x100 * 0x100 + x) * FNV_PRIME % U32 == r
    ensures Hash(key + [c]) == r
  {
    hide Hash, Xor8;
    HashStep(key, c);
  }

  lemma VectorBytes()
    ensures Xor8(0xC5, 0x61) == 0xA4
      && Xor8(0xC5, 0x66) == 0xA3
      && Xor8(0x99, 0x6F) == 0xF6
  {
  }

  lemma LaterBytes()
    ensures Xor8(0x42, 0x6F) == 0x2D
      && Xor8(0xD7, 0x62) == 0xB5
      && Xor8(0xEF, 0x61) == 0x8E
      && Xor8(0x8A, 0x72) == 0xF8
  {
  }

  lemma HashNothing()
    ensures Hash([]) == 0x811C9DC5
  {
  }

  /** Published test vectors of 32-bit FNV-1a: the empty key, "a" and "foobar". */
  lemma HashVectors()
    ensures Hash([]) == 0x811C9DC5
    ensures Hash([0x61]) == 0xE40C292C && Home(Hash([0x61]), INITIAL_CAPACITY) == 12
    ensures Hash([0x66, 0x6F, 0x6F, 0x62, 0x61, 0x72]) == 0xBF9CF968
  {
    hide Hash, Xor8;
    VectorBytes();
    LaterBytes();
    HashNothing();
    var key: Key := [];
    assert key + [0x61] == [0x61];
    HashByte(key, 0x61, 0x811C9DC5, 0xA4, 0xE40C292C);
    HashByte(key, 0x66, 0x811C9DC5, 0xA3, 0xE30C2799);
    key := key + [0x66];
    HashByte(key, 0x6F, 0xE30C2799, 0xF6, 0x6222E842);
    key := key + [0x6F];
    HashByte(key, 0x6F, 0x6222E842, 0x2D, 0xA9F37ED7);
    key := key + [0x6F];
    HashByte(key, 0x62, 0xA9F37ED7, 0xB5, 0x3F5076EF);
    key := key + [0x62];
    HashByte(key, 0x61, 0x3F5076EF, 0x8E, 0x39AAA18A);
    key := key + [0x61];
    HashByte(key, 0x72, 0x39AAA18A, 0xF8, 0xBF9CF968);
    key := key + [0x72];
    assert key == [0x66, 0x6F, 0x6F, 0x62, 0x61, 0x72];
  }

  datatype Slot = Vacant | Used(hash: nat, key: Key, value: Value)

  // ----- Probe sequences -----

  /** First slot probed; the capacity is a power of two, so the mask is a remainder. */
  function Home(hash: nat, cap: nat): (i: nat)
    requires cap > 0
    ensures i < cap
  {
    hash % cap
  }

  /** The slot `d` steps after `from`, going round. */
  function Around(from: nat, d: nat, cap: nat): (i: nat)
    requires from < cap && d <= cap
    ensures i < cap
  {
    if from + d < cap then from + d else from + d - cap
  }

  /** Steps from `from` to `to`, going round. */
  function Distance(from: nat, to: nat, cap: nat): (d: nat)
    requires from < cap && to < cap
    ensures d < cap && Around(from, d, cap) == to
    ensures forall e: nat :: e < cap && Around(from, e, cap) == to ==> e == d
  {
    if to >= from then to - from else to + cap - from
  }

  /** Every slot probed before reaching slot `i` from its key's home is in use. */
  ghost predicate Reachable(slots: seq<Slot>, i: nat)
    requires i < |slots| && slots[i].Used?
  {
    var home := Home(slots[i].hash, |slots|);
    forall d :: 0 <= d < Distance(home, i, |slots|) ==> slots[Around(home, d, |slots|)].Used?
  }

  ghost predicate Distinct(slots: seq<Slot>) {
    forall i, j :: 0 <= i < j < |slots| && slots[i].Used? && slots[j].Used? ==> slots[i].key != slots[j].key
  }

  /** Keys appear once, under their own hash, where probing finds them. */
  ghost predicate Sound(slots: seq<Slot>) {
    && Distinct(slots)
    && (forall i :: 0 <= i < |slots| && slots[i].Used? ==> slots[i].hash == Hash(slots[i].key))
    && forall i :: 0 <= i < |slots| && slots[i].Used? ==> Reachable(slots, i)
  }

  /** The map the slots hold. */
  ghost function Content(slots: seq<Slot>): map<Key, Value> {
    if slots == [] then map[]
    else
      var rest := Content(slots[..|slots| - 1]);
      match slots[|slots| - 1]
      case Vacant => rest
      case Used(_, k, v) => rest[k := v]
  }

  function InUse(slots: seq<Slot>): nat {
    if slots == [] then 0
    else InUse(slots[..|slots| - 1]) + (if slots[|slots| - 1].Used? then 1 else 0)
  }

  /** A key is in the map exactly when some slot holds it. */
  lemma {:induction false} ContentBySlot(slots: seq<Slot>)
    requires Distinct(slots)
    ensures forall i :: 0 <= i < |slots| && slots[i].Used? ==>
      slots[i].key in Content(slots) && Content(slots)[slots[i].key] == slots[i].value
    ensures forall k :: k in Content(slots) ==> exists i :: 0 <= i < |slots| && slots[i].Used? && slots[i].key == k
    ensures |Content(slots)| == InUse(slots)
    decreases |slots|
  {
    if slots != [] {
      var n := |slots| - 1;
      var rest := slots[..n];
      ContentBySlot(rest);
      if slots[n].Used? {
        assert forall i :: 0 <= i < n && rest[i].Used? ==> rest[i].key != slots[n].key;
        assert slots[n].key !in Content(rest);
      }
      forall i | 0 <= i < |slots| && slots[i].Used?
        ensures slots[i].key in Content(slots) && Content(slots)[slots[i].key] == slots[i].value
      {
        if i < n { assert rest[i] == slots[i]; }
      }
      forall k | k in Content(slots)
        ensures exists i :: 0 <= i < |slots| && slots[i].Used? && slots[i].key == k
      {
        if slots[n].Used? && k == slots[n].key {
          assert slots[n].key == k;
        } else {
          var i :| 0 <= i < |rest| && rest[i].Used? && rest[i].key == k;
          assert slots[i] == rest[i];
        }
      }
    }
  }

  lemma {:induction false} SomeVacant(slots: seq<Slot>)
    requires InUse(slots) < |slots|
    ensures exists i :: 0 <= i < |slots| && slots[i].Vacant?
    decreases |slots|
  {
    var n := |slots| - 1;
    if slots[n].Used? {
      SomeVacant(slots[..n]);
      var i :| 0 <= i < n && slots[..n][i].Vacant?;
      assert slots[i].Vacant?;
    }
  }

  /** The first `d` probes met only other keys. */
  ghost predicate Passed(slots: seq<Slot>, key: Key, d: nat) {
    |slots| > 0 && d <= |slots|
    && var home := Home(Hash(key), |slots|);
       forall e :: 0 <= e < d ==> slots[Around(home, e, |slots|)].Used? && slots[Around(home, e, |slots|)].key != key
  }

  lemma ProbeExcludes(slots: seq<Slot>, key: Key, d: nat, i: nat)
    requires Sound(slots) && Passed(slots, key, d) && d < |slots|
    requires slots[Around(Home(Hash(key), |slots|), d, |slots|)].Vacant?
    requires i < |slots| && slots[i].Used?
    ensures slots[i].key != key
  {
    hide Hash, Home;
    assert Reachable(slots, i);
    var home := Home(slots[i].hash, |slots|);
    var at := Distance(home, i, |slots|);
    assert Around(home, at, |slots|) == i;
  }

  /** A probe that reaches a vacant slot proves the key absent. */
  lemma VacantMeansAbsent(slots: seq<Slot>, key: Key, d: nat)
    requires Sound(slots) && Passed(slots, key, d) && d < |slots|
    requires slots[Around(Home(Hash(key), |slots|), d, |slots|)].Vacant?
    ensures key !in Content(slots)
  {
    hide Passed;
    ContentBySlot(slots);
    forall i | 0 <= i < |slots| && slots[i].Used? ensures slots[i].key != key {
      ProbeExcludes(slots, key, d, i);
    }
  }

  lemma FillSound(slots: seq<Slot>, key: Key, value: Value, d: nat)
    requires Sound(slots) && Passed(slots, key, d) && d < |slots|
    requires slots[Around(Home(Hash(key), |slots|), d, |slots|)].Vacant?
    ensures Sound(slots[Around(Home(Hash(key), |slots|), d, |slots|) := Used(Hash(key), key, value)])
  {
    hide Hash, Home;
    var n := |slots|;
    var home := Home(Hash(key), n);
    var i := Around(home, d, n);
    var after := slots[i := Used(Hash(key), key, value)];
    forall j | 0 <= j < n && slots[j].Used? ensures slots[j].key != key { ProbeExcludes(slots, key, d, j); }
    forall j | 0 <= j < n && after[j].Used? ensures Reachable(after, j) {
      if j == i {
        assert Distance(home, i, n) == d;
      } else {
        assert Reachable(slots, j);
      }
    }
  }

  /** Filling the vacant slot a probe ended at adds the key to the map. */
  lemma FillAdds(slots: seq<Slot>, key: Key, value: Value, d: nat)
    requires Sound(slots) && Passed(slots, key, d) && d < |slots|
    requires slots[Around(Home(Hash(key), |slots|), d, |slots|)].Vacant?
    ensures var i := Around(Home(Hash(key), |slots|), d, |slots|);
      var after := slots[i := Used(Hash(key), key, value)];
      Sound(after) && Content(after) == Content(slots)[key := value] && InUse(after) == InUse(slots) + 1
  {
    hide Hash, Home, Around, Passed, Reachable, Content;
    var i := Around(Home(Hash(key), |slots|), d, |slots|);
    var after := slots[i := Used(Hash(key), key, value)];
    FillSound(slots, key, value, d);
    VacantMeansAbsent(slots, key, d);
    ReplaceContent(slots, after, i);
    CountChanged(slots, after, i);
  }

  /** Writing one slot over a vacant one, or over one with the same key. */
  lemma ReplaceContent(before: seq<Slot>, after: seq<Slot>, i: nat)
    requires |before| == |after| && i < |before| && Distinct(before) && Distinct(after) && after[i].Used?
    requires forall j :: 0 <= j < |before| && j != i ==> after[j] == before[j]
    requires before[i].Used? ==> before[i].key == after[i].key
    ensures Content(after) == Content(before)[after[i].key := after[i].value]
  {
    hide Content;
    var m := Content(before)[after[i].key := after[i].value];
    ContentBySlot(before);
    forall j | 0 <= j < |after| && after[j].Used? ensures after[j].key in m && m[after[j].key] == after[j].value {
      if j != i { assert before[j].Used?; }
    }
    forall k | k in m ensures exists j :: 0 <= j < |after| && after[j].Used? && after[j].key == k {
      if k == after[i].key {
      } else {
        var j :| 0 <= j < |before| && before[j].Used? && before[j].key == k;
        assert after[j].Used? && after[j].key == k;
      }
    }
    SameContent(after, m);
  }

  /** Two ways to see the content: a map with the same bindings as the slots. */
  lemma SameContent(slots: seq<Slot>, m: map<Key, Value>)
    requires Distinct(slots)
    requires forall i :: 0 <= i < |slots| && slots[i].Used? ==> slots[i].key in m && m[slots[i].key] == slots[i].value
    requires forall k :: k in m ==> exists i :: 0 <= i < |slots| && slots[i].Used? && slots[i].key == k
    ensures Content(slots) == m
  {
    ContentBySlot(slots);
    assert forall k :: k in m <==> k in Content(slots);
  }

  lemma {:induction false} CountChanged(before: seq<Slot>, after: seq<Slot>, i: nat)
    requires |before| == |after| && i < |before|
    requires forall j :: 0 <= j < |before| && j != i ==> after[j] == before[j]
    ensures InUse(after) - (if after[i].Used? then 1 else 0) == InUse(before) - (if before[i].Used? then 1 else 0)
    decreases |before|
  {
    var n := |before| - 1;
    if i == n {
      assert before[..n] == after[..n];
    } else {
      CountChanged(before[..n], after[..n], i);
    }
  }

  // ----- Lookups and deletions -----

  /** Probing on from `d` steps past home, up to one whole round. */
  function LookupFrom(slots: seq<Slot>, key: Key, d: nat): Option<Value>
    requires slots != [] && d <= |slots|
    decreases |slots| - d
  {
    if d == |slots| then None
    else
      match slots[Around(Home(Hash(key), |slots|), d, |slots|)]
      case Vacant => None
      case Used(h, k, v) => if h == Hash(key) && k == key then Some(v) else LookupFrom(slots, key, d + 1)
  }

  function Lookup(slots: seq<Slot>, key: Key): Option<Value>
    requires slots != []
  {
    LookupFrom(slots, key, 0)
  }

  ghost predicate Hashed(slots: seq<Slot>) {
    forall i :: 0 <= i < |slots| && slots[i].Used? ==> slots[i].hash == Hash(slots[i].key)
  }

  lemma {:induction false} LookupReaches(slots: seq<Slot>, i: nat, d: nat)
    requires Distinct(slots) && Hashed(slots) && i < |slots| && slots[i].Used? && Reachable(slots, i)
    requires d <= Distance(Home(slots[i].hash, |slots|), i, |slots|)
    ensures LookupFrom(slots, slots[i].key, d) == Some(slots[i].value)
    decreases |slots| - d
  {
    hide Hash, Home;
    var home, n := Home(slots[i].hash, |slots|), |slots|;
    if d < Distance(home, i, n) {
      assert slots[Around(home, d, n)].Used?;
      assert Around(home, d, n) != i;
      LookupReaches(slots, i, d + 1);
    }
  }

  lemma {:induction false} LookupStops(slots: seq<Slot>, key: Key, d: nat, v: nat)
    requires slots != [] && Hashed(slots) && d <= v < |slots|
    requires slots[Around(Home(Hash(key), |slots|), v, |slots|)].Vacant?
    requires forall e :: d <= e < v ==> var x := slots[Around(Home(Hash(key), |slots|), e, |slots|)];
      x.Used? ==> x.key != key
    ensures LookupFrom(slots, key, d) == None
    decreases v - d
  {
    hide Hash, Home;
    if d < v { LookupStops(slots, key, d + 1, v); }
  }

  /** A stored key is found exactly when its probe path has no vacancy. */
  lemma FoundExactlyWhenReachable(slots: seq<Slot>, i: nat)
    requires Distinct(slots) && Hashed(slots) && i < |slots| && slots[i].Used?
    ensures Lookup(slots, slots[i].key) == (if Reachable(slots, i) then Some(slots[i].value) else None)
  {
    hide Hash, Home, LookupFrom;
    var home, n := Home(slots[i].hash, |slots|), |slots|;
    if Reachable(slots, i) {
      LookupReaches(slots, i, 0);
    } else {
      var v :| 0 <= v < Distance(home, i, n) && !slots[Around(home, v, n)].Used?;
      forall e | 0 <= e < v ensures slots[Around(home, e, n)].Used? ==> slots[Around(home, e, n)].key != slots[i].key {
        assert Around(home, e, n) != i;
      }
      LookupStops(slots, slots[i].key, 0, v);
    }
  }

  lemma {:induction false} AbsentNotFound(slots: seq<Slot>, key: Key, d: nat)
    requires slots != [] && d <= |slots| && forall i :: 0 <= i < |slots| && slots[i].Used? ==> slots[i].key != key
    ensures LookupFrom(slots, key, d) == None
    decreases |slots| - d
  {
    hide Hash, Home;
    if d < |slots| { AbsentNotFound(slots, key, d + 1); }
  }

  /** In a sound table a lookup is a map lookup. */
  lemma LookupIsContent(slots: seq<Slot>, key: Key)
    requires slots != [] && Sound(slots)
    ensures Lookup(slots, key) == if key in Content(slots) then Some(Content(slots)[key]) else None
  {
    hide LookupFrom, Reachable, Content;
    ContentBySlot(slots);
    if key in Content(slots) {
      var i :| 0 <= i < |slots| && slots[i].Used? && slots[i].key == key;
      FoundExactlyWhenReachable(slots, i);
    } else {
      AbsentNotFound(slots, key, 0);
    }
  }

  /** Slot `i` is probed on the way to slot `j`. */
  predicate OnPathTo(slots: seq<Slot>, i: nat, j: nat)
    requires i < |slots| && j < |slots| && slots[j].Used?
  {
    var home := Home(slots[j].hash, |slots|);
    Distance(home, i, |slots|) < Distance(home, j, |slots|)
  }

  /** Vacating a slot keeps the table sound exactly when no other key is reached through it. */
  lemma DeletionExact(slots: seq<Slot>, i: nat)
    requires Sound(slots) && i < |slots| && slots[i].Used?
    ensures Sound(slots[i := Vacant])
       <==> forall j :: 0 <= j < |slots| && j != i && slots[j].Used? ==> !OnPathTo(slots, i, j)
  {
    hide Hash, Home;
    var after, n := slots[i := Vacant], |slots|;
    forall j | 0 <= j < n && j != i && slots[j].Used?
      ensures Reachable(after, j) <==> !OnPathTo(slots, i, j)
    {
      var home := Home(slots[j].hash, n);
      assert Reachable(slots, j) && after[j] == slots[j];
      if OnPathTo(slots, i, j) {
        assert after[Around(home, Distance(home, i, n), n)].Vacant?;
      } else {
        forall d | 0 <= d < Distance(home, j, n) ensures after[Around(home, d, n)].Used? {
          assert Around(home, d, n) != i;
        }
      }
    }
  }

  // ----- Two colliding keys -----

  const KEY_A: Key := [0x61]
  const KEY_Q: Key := [0x71]

  lemma HashRound(key: Key, h: nat)
    requires key != [] && h < U32
    ensures HashFrom(key, h) == HashFrom(key[1..], Low32(Mix(h, key[0]) * FNV_PRIME))
  {
    hide Low32, Mix;
  }

  lemma HashEnd(h: nat)
    requires h < U32
    ensures HashFrom([], h) == h
  {
  }

  /** One round of the hash. */
  lemma OneByteHash(key: Key, b: byte)
    requires key == [b]
    ensures Hash(key) == Low32(Mix(FNV_OFFSET, b) * FNV_PRIME)
  {
    hide Low32, Mix, HashFrom;
    HashRound(key, FNV_OFFSET);
    assert key[1..] == [];
    HashEnd(Low32(Mix(FNV_OFFSET, b) * FNV_PRIME));
  }

  lemma LowByteA()
    ensures Xor8(0xC5, 0x61) == 0xA4
  {
  }

  lemma LowByteQ()
    ensures Xor8(0xC5, 0x71) == 0xB4
  {
  }

  lemma LowBytesMix()
    ensures Mix(FNV_OFFSET, 0x61) == 0x811C9DA4 && Mix(FNV_OFFSET, 0x71) == 0x811C9DB4
  {
    hide Xor8;
    LowByteA();
    LowByteQ();
  }

  lemma ProductsWrap()
    ensures Low32(0x811C9DA4 * FNV_PRIME) == 0xE40C292C && Low32(0x811C9DB4 * FNV_PRIME) == 0xF40C425C
  {
  }

  lemma KeysHash()
    ensures Hash(KEY_A) == 0xE40C292C && Hash(KEY_Q) == 0xF40C425C
  {
    hide Hash, Low32, Mix;
    LowBytesMix();
    ProductsWrap();
    OneByteHash(KEY_A, 0x61);
    OneByteHash(KEY_Q, 0x71);
  }

  /** A fresh table into which first a and then q went: both have the same home. */
  function Collided(v: Value, w: Value): seq<Slot> {
    seq(INITIAL_CAPACITY, _ => Vacant)[12 := Used(Hash(KEY_A), KEY_A, v)][13 := Used(Hash(KEY_Q), KEY_Q, w)]
  }

  /** Deleting the one key of two that collide hides the other, which is still stored. */
  lemma DeletionHides(v: Value, w: Value)
    ensures var slots := Collided(v, w);
      && Sound(slots) && Lookup(slots, KEY_A) == Some(v) && Lookup(slots, KEY_Q) == Some(w)
      && slots[13].Used? && OnPathTo(slots, 12, 13)
      && !Sound(slots[12 := Vacant]) && Lookup(slots[12 := Vacant], KEY_Q) == None
  {
    hide Hash, LookupFrom;
    KeysHash();
    var none: seq<Slot> := seq(INITIAL_CAPACITY, _ => Vacant);
    var one, slots := none[12 := Used(Hash(KEY_A), KEY_A, v)], Collided(v, w);
    AllVacant(none);
    assert KEY_A != KEY_Q by { assert KEY_A[0] != KEY_Q[0]; }
    FillSound(none, KEY_A, v, 0);
    FillSound(one, KEY_Q, w, 1);
    FoundExactlyWhenReachable(slots, 12);
    FoundExactlyWhenReachable(slots, 13);
    DeletionExact(slots, 12);
    var after := slots[12 := Vacant];
    assert !Reachable(after, 13) by { assert after[Around(12, 0, 16)].Vacant?; }
    FoundExactlyWhenReachable(after, 13);
  }

  /** The slot of this key, and no other, was vacated. */
  ghost predicate Vacated(before: seq<Slot>, after: seq<Slot>, key: Key) {
    exists i :: 0 <= i < |before| && before[i].Used? && before[i].key == key && after == before[i := Vacant]
  }

  /** Whatever happens to other keys, the vacated one is gone from the map. */
  lemma DeletionRemoves(slots: seq<Slot>, i: nat)
    requires Distinct(slots) && i < |slots| && slots[i].Used?
    ensures var after := slots[i := Vacant];
      Distinct(after) && Content(after) == Content(slots) - {slots[i].key} && InUse(after) + 1 == InUse(slots)
  {
    hide Content;
    var after := slots[i := Vacant];
    var m := Content(slots) - {slots[i].key};
    ContentBySlot(slots);
    CountChanged(slots, after, i);
    forall k | k in m ensures exists j :: 0 <= j < |after| && after[j].Used? && after[j].key == k {
      var j :| 0 <= j < |slots| && slots[j].Used? && slots[j].key == k;
      assert after[j].Used? && after[j].key == k;
    }
    SameContent(after, m);
  }

  // ----- The table -----

  class Table {
    var entries: array<Slot>
    var size: nat
    var tombstones: nat

    /** The load bound leaves a vacant slot, so every probe ends. */
    ghost predicate Valid()
      reads this, entries
    {
      && entries.Length >= INITIAL_CAPACITY
      && size == InUse(entries[..])
      && size + tombstones <= entries.Length * 3 / 4 + 1
    }

    constructor ()
      ensures Valid() && Sound(entries[..]) && Content(entries[..]) == map[] && size == 0
      ensures fresh(entries)
    {
      entries := new Slot[INITIAL_CAPACITY](_ => Vacant);
      size, tombstones := 0, 0;
      new;
      AllVacant(entries[..]);
    }

    /** Where probing for a key ends: at its slot, or at a vacant one. */
    method Probe(slots: array<Slot>, key: Key) returns (idx: nat, found: bool, ghost d: nat)
      requires slots.Length > 0 && InUse(slots[..]) < slots.Length
      ensures idx < slots.Length && d < slots.Length
      ensures idx == Around(Home(Hash(key), slots.Length), d, slots.Length)
      ensures found <==> slots[idx].Used?
      ensures found ==> slots[idx].key == key && slots[idx].hash == Hash(key)
      ensures Hashed(slots[..]) ==> Passed(slots[..], key, d)
      ensures Lookup(slots[..], key) == if found then Some(slots[idx].value) else None
    {
      hide Hash, Home, InUse;
      var hash := Hash(key);
      var home := Home(hash, slots.Length);
      idx, d := home, 0;
      SomeVacant(slots[..]);
      ghost var v :| 0 <= v < slots.Length && slots[..][v].Vacant?;
      while slots[idx].Used?
        invariant d <= Distance(home, v, slots.Length) && idx == Around(home, d, slots.Length)
        invariant Hashed(slots[..]) ==> Passed(slots[..], key, d)
        invariant Lookup(slots[..], key) == LookupFrom(slots[..], key, d)
        decreases Distance(home, v, slots.Length) - d
      {
        if slots[idx].hash == hash && slots[idx].key == key {
          found := true;
          return;
        }
        assert slots[..][idx] == slots[idx];
        idx := if idx + 1 == slots.Length then 0 else idx + 1;
        d := d + 1;
      }
      found := false;
      assert slots[..][idx] == slots[idx];
    }

    method Get(key: Key) returns (r: Option<Value>)
      requires Valid()
      ensures r == Lookup(entries[..], key)
    {
      var idx, found;
      ghost var d;
      idx, found, d := Probe(entries, key);
      r := if found then Some(entries[idx].value) else None;
    }

    /** Move every entry to an array twice the size. */
    method Resize()
      requires Valid()
      modifies this`entries, this`tombstones
      ensures Valid() && fresh(entries) && tombstones == 0 && entries.Length == 2 * old(entries.Length)
      ensures size == InUse(entries[..]) <= old(entries.Length)
      ensures old(Distinct(entries[..]) && Hashed(entries[..])) ==>
        Sound(entries[..]) && Content(entries[..]) == old(Content(entries[..]))
    {
      hide Hash, Home, Content, InUse, Lookup;
      var n := entries.Length;
      var bigger := new Slot[2 * n](_ => Vacant);
      AllVacant(bigger[..]);
      ghost var nice := Distinct(entries[..]) && Hashed(entries[..]);
      var i := 0;
      NoneYet(entries[..]);
      while i < n
        invariant 0 <= i <= n && InUse(bigger[..]) == InUse(entries[..i]) <= i
        invariant nice ==> Sound(bigger[..]) && Content(bigger[..]) == Content(entries[..i])
        modifies bigger
      {
        NextEntry(entries[..], i);
        if entries[i].Used? {
          Rehash(bigger, entries[i], entries[..], i);
        }
        i := i + 1;
      }
      assert entries[..n] == entries[..];
      entries := bigger;
      tombstones := 0;
    }

    method Rehash(bigger: array<Slot>, e: Slot, ghost all: seq<Slot>, ghost i: nat)
      requires bigger.Length > 0 && InUse(bigger[..]) < bigger.Length && i < |all| && e == all[i] && e.Used?
      modifies bigger
      ensures InUse(bigger[..]) == old(InUse(bigger[..])) + 1
      ensures Distinct(all) && Hashed(all) && old(Sound(bigger[..]) && Content(bigger[..]) == Content(all[..i])) ==>
        Sound(bigger[..]) && Content(bigger[..]) == old(Content(bigger[..]))[e.key := e.value]
    {
      hide Hash, Home, Content, InUse;
      var n := bigger.Length;
      var home := Home(e.hash, n);
      ghost var before := bigger[..];
      ghost var nice := Distinct(all) && Hashed(all) && Sound(before) && Content(before) == Content(all[..i]);
      if nice { NotYetMoved(before, all, i); }
      SomeVacant(before);
      ghost var v :| 0 <= v < n && before[v].Vacant?;
      var idx := home;
      ghost var d := 0;
      while bigger[idx].Used?
        invariant d <= Distance(home, v, n) && idx == Around(home, d, n)
        invariant nice ==> Passed(before, e.key, d)
        decreases Distance(home, v, n) - d
      {
        assert before[idx] == bigger[idx];
        idx := if idx + 1 == n then 0 else idx + 1;
        d := d + 1;
      }
      bigger[idx] := e;
      assert bigger[..] == before[idx := e];
      CountChanged(before, bigger[..], idx);
      if nice { FillAdds(before, e.key, e.value, d); }
    }

    /** Store a value under a key, growing first when the load passes three quarters. */
    method Set(key: Key, value: Value)
      requires Valid()
      modifies this, entries
      ensures Valid() && (entries == old(entries) || fresh(entries))
      ensures old(Sound(entries[..])) ==>
        Sound(entries[..]) && Content(entries[..]) == old(Content(entries[..]))[key := value]
        && size == |Content(entries[..])|
    {
      hide Hash, Home, Content, InUse, Lookup, Around, Passed, Reachable;
      if size + tombstones > entries.Length * 3 / 4 { Resize(); }
      var idx, found;
      ghost var d;
      ghost var before := entries[..];
      idx, found, d := Probe(entries, key);
      entries[idx] := Used(Hash(key), key, value);
      if !found { size := size + 1; }
      assert entries[..] == before[idx := Used(Hash(key), key, value)];
      CountChanged(before, entries[..], idx);
      if Sound(before) {
        SetKeeps(before, key, value, idx, d);
      }
    }

    /** Vacate the slot of a key, when probing finds it. */
    method Delete(key: Key) returns (deleted: bool)
      requires Valid()
      modifies this, entries
      ensures Valid() && entries == old(entries)
      ensures deleted == old(Lookup(entries[..], key)).Some?
      ensures !deleted ==> entries[..] == old(entries[..])
      ensures deleted ==> Vacated(old(entries[..]), entries[..], key)
    {
      hide Hash, Home, Content, InUse, Lookup;
      var idx, found;
      ghost var d;
      ghost var before := entries[..];
      idx, found, d := Probe(entries, key);
      if !found { return false; }
      entries[idx] := Vacant;
      assert entries[..] == before[idx := Vacant];
      CountChanged(before, entries[..], idx);
      size := size - 1;
      tombstones := tombstones + 1;
      return true;
    }
  }

  lemma {:induction false} AllVacant(slots: seq<Slot>)
    requires forall i :: 0 <= i < |slots| ==> slots[i].Vacant?
    ensures Sound(slots) && Content(slots) == map[] && InUse(slots) == 0
    decreases |slots|
  {
    if slots != [] { AllVacant(slots[..|slots| - 1]); }
  }

  lemma NoneYet(slots: seq<Slot>)
    ensures InUse(slots[..0]) == 0 && Content(slots[..0]) == map[]
  {
  }

  lemma NextEntry(slots: seq<Slot>, i: nat)
    requires i < |slots|
    ensures InUse(slots[..i + 1]) == InUse(slots[..i]) + (if slots[i].Used? then 1 else 0)
    ensures Content(slots[..i + 1])
         == match slots[i] case Vacant => Content(slots[..i]) case Used(_, k, v) => Content(slots[..i])[k := v]
  {
    assert slots[..i + 1][..i] == slots[..i];
  }

  /** An entry still to be moved is not in the new array yet. */
  lemma NotYetMoved(moved: seq<Slot>, all: seq<Slot>, i: nat)
    requires Sound(moved) && Distinct(all) && i < |all| && all[i].Used? && Content(moved) == Content(all[..i])
    ensures forall j :: 0 <= j < |moved| && moved[j].Used? ==> moved[j].key != all[i].key
  {
    hide Content;
    ContentBySlot(moved);
    ContentBySlot(all[..i]);
    assert forall k :: 0 <= k < i && all[k].Used? ==> all[k].key != all[i].key;
    assert all[i].key !in Content(all[..i]);
  }

  /** Overwriting a value in place. */
  lemma Overwritten(slots: seq<Slot>, i: nat, value: Value)
    requires Sound(slots) && i < |slots| && slots[i].Used?
    ensures var after := slots[i := Used(slots[i].hash, slots[i].key, value)];
      Sound(after) && Content(after) == Content(slots)[slots[i].key := value]
  {
    hide Hash, Home, Content;
    var after := slots[i := Used(slots[i].hash, slots[i].key, value)];
    forall j | 0 <= j < |after| && after[j].Used? ensures Reachable(after, j) { assert Reachable(slots, j); }
    ReplaceContent(slots, after, i);
  }

  /** Storing at the slot that probing found keeps the table sound and updates the map. */
  lemma SetKeeps(slots: seq<Slot>, key: Key, value: Value, idx: nat, d: nat)
    requires Sound(slots) && idx < |slots| && d < |slots| && idx == Around(Home(Hash(key), |slots|), d, |slots|)
    requires Hashed(slots) ==> Passed(slots, key, d)
    requires slots[idx].Used? ==> slots[idx].key == key && slots[idx].hash == Hash(key)
    ensures var after := slots[idx := Used(Hash(key), key, value)];
      Sound(after) && Content(after) == Content(slots)[key := value] && |Content(after)| == InUse(after)
  {
    hide Hash, Home, Content, InUse, Around, Passed, Reachable;
    if slots[idx].Used? {
      Overwritten(slots, idx, value);
    } else {
      FillAdds(slots, key, value, d);
    }
    ContentBySlot(slots[idx := Used(Hash(key), key, value)]);
  }
}
