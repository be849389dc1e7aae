/** Lists of encoded instructions: the bytes they occupy and where each of them starts. */
module Layout {
  import opened Bytes

  /** The bytes of a list of encoded instructions, one after the other. */
  function Flatten(cs: seq<seq<byte>>): seq<byte> {
    if cs == [] then [] else cs[0] + Flatten(cs[1..])
  }

  lemma {:induction false} FlattenConcat(a: seq<seq<byte>>, b: seq<seq<byte>>)
    ensures Flatten(a + b) == Flatten(a) + Flatten(b)
  {
    if a == [] {
      assert a + b == b;
    } else {
      assert (a + b)[1..] == a[1..] + b;
      FlattenConcat(a[1..], b);
    }
  }

  lemma FlattenOne(c: seq<byte>)
    ensures Flatten([c]) == c
  {
    assert [c][1..] == [];
  }

  /** Where each chunk begins when the list is laid out from `base`. */
  function Starts(cs: seq<seq<byte>>, base: nat): (ps: seq<nat>)
    ensures |ps| == |cs|
  {
    if cs == [] then [] else [base] + Starts(cs[1..], base + |cs[0]|)
  }

  lemma {:induction false} StartsConcat(a: seq<seq<byte>>, b: seq<seq<byte>>, base: nat)
    ensures Starts(a + b, base) == Starts(a, base) + Starts(b, base + |Flatten(a)|)
  {
    if a == [] {
      assert a + b == b;
    } else {
      assert (a + b)[1..] == a[1..] + b;
      StartsConcat(a[1..], b, base + |a[0]|);
    }
  }

  /** A laid-out list has each of its chunks at that chunk's start. */
  lemma {:induction false} ChunkAt(code: seq<byte>, base: nat, cs: seq<seq<byte>>, k: nat)
    requires At(code, base, Flatten(cs)) && k < |cs|
    ensures At(code, Starts(cs, base)[k], cs[k])
    decreases k
  {
    AtConcat(code, base, cs[0], Flatten(cs[1..]));
    if k > 0 {
      ChunkAt(code, base + |cs[0]|, cs[1..], k - 1);
    }
  }

  /** Starts of non-empty chunks lie inside the laid-out bytes. */
  lemma {:induction false} StartsRange(cs: seq<seq<byte>>, base: nat, p: nat)
    requires p in Starts(cs, base) && forall k :: 0 <= k < |cs| ==> cs[k] != []
    ensures base <= p < base + |Flatten(cs)|
    decreases |cs|
  {
    if p != base {
      StartsRange(cs[1..], base + |cs[0]|, p);
    }
  }
}
