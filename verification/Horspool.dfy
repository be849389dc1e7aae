/** The Boyer-Moore-Horspool skip table of a literal prefix, and why shifting by it is safe. */
module Horspool {
  import opened Bytes

  const MAX_PREFIX: nat := 16

  predicate Occurs(s: seq<byte>, at: nat, p: seq<byte>) {
    at + |p| <= |s| && s[at..at + |p|] == p
  }

  /** Distance from the last occurrence of `b` in all but the last byte of the prefix to its end. */
  function Shift(p: seq<byte>, b: byte): (d: nat)
    requires p != []
    ensures 1 <= d <= |p|
  {
    ShiftBelow(p, b, |p| - 1)
  }

  /** The same, with only the first `n` bytes entered so far. */
  function ShiftBelow(p: seq<byte>, b: byte, n: nat): (d: nat)
    requires n < |p|
    ensures 1 <= d <= |p|
    decreases n
  {
    if n == 0 then |p|
    else if p[n - 1] == b then |p| - n
    else ShiftBelow(p, b, n - 1)
  }

  /** Nothing closer to the end than the shift distance equals the byte. */
  lemma {:induction false} ShiftSkips(p: seq<byte>, b: byte, n: nat, i: nat)
    requires n < |p| && i < n && |p| - 1 - i < ShiftBelow(p, b, n)
    ensures p[i] != b
    decreases n
  {
    if p[n - 1] != b && i < n - 1 {
      ShiftSkips(p, b, n - 1, i);
    }
  }

  /** Between a window and that window shifted by the entry for its last byte the prefix does
      not occur. */
  lemma ShiftIsSafe(s: seq<byte>, at: nat, p: seq<byte>, k: nat)
    requires p != [] && at + |p| <= |s| && 0 < k < Shift(p, s[at + |p| - 1])
    ensures !Occurs(s, at + k, p)
  {
    var b := s[at + |p| - 1];
    if at + k + |p| <= |s| {
      var i := |p| - 1 - k;
      ShiftSkips(p, b, |p| - 1, i);
      assert s[at + k..at + k + |p|][i] == b;
    }
  }

  // ----- Occurrences of something else -----

  /** The last byte of the prefix window can be one that the table shifts past offset `j` of `w`: `w` is over
      by then, or its byte there is none of the inner bytes from `j` on. */
  predicate Overtaken(p: seq<byte>, w: seq<byte>, j: nat)
    requires j < |p|
  {
    j < |w| ==> forall i :: j <= i < |p| - 1 ==> p[i] != w[j]
  }

  /** Shifting never passes over `w`. */
  predicate Spares(p: seq<byte>, w: seq<byte>) {
    forall j :: 0 <= j < |p| - 1 ==> !Overtaken(p, w, j)
  }

  /** Shifting from the window at `at` passes over an occurrence of `w`. */
  predicate PassesOver(p: seq<byte>, w: seq<byte>, s: seq<byte>, at: nat, k: nat)
    requires p != []
  {
    at + |p| <= |s| && 0 < k < Shift(p, s[at + |p| - 1]) && Occurs(s, at + k, w)
  }

  ghost predicate NeverShiftedOver(p: seq<byte>, w: seq<byte>)
    requires p != []
  {
    forall s: seq<byte>, at: nat, k: nat :: !PassesOver(p, w, s, at, k)
  }

  /** The shift for a byte exceeds `k` exactly when the byte is none of the last `k` inner bytes. */
  lemma {:induction false} ShiftExceeds(p: seq<byte>, b: byte, n: nat, k: nat)
    requires n < |p| && k < |p|
    ensures ShiftBelow(p, b, n) > k <==> forall i :: |p| - 1 - k <= i < n ==> p[i] != b
    decreases n
  {
    if n > 0 && p[n - 1] != b { ShiftExceeds(p, b, n - 1, k); }
  }

  /** A byte that does not occur in a short string. */
  lemma {:induction false} FreshByte(p: seq<byte>, below: nat) returns (z: byte)
    requires |p| < below <= 256
    ensures z < below && z !in p
    decreases below
  {
    z := below - 1;
    if z in p {
      var i :| 0 <= i < |p| && p[i] == z;
      var rest := p[..i] + p[i + 1..];
      var y := FreshByte(rest, below - 1);
      assert forall k :: 0 <= k < |p| && k != i ==> p[k] in rest by {
        forall k | 0 <= k < |p| && k != i ensures p[k] in rest {
          if k < i { assert rest[k] == p[k]; } else { assert rest[k - 1] == p[k]; }
        }
      }
      z := y;
    }
  }

  lemma WindowByte(s: seq<byte>, at: nat, w: seq<byte>, j: nat)
    requires Occurs(s, at, w) && j < |w|
    ensures s[at + j] == w[j]
  {
    assert s[at..at + |w|][j] == s[at + j];
  }

  /** Shifting by the table never passes over `w`, on any subject, exactly when the prefix spares it. */
  lemma ShiftExact(p: seq<byte>, w: seq<byte>)
    requires 0 < |p| <= MAX_PREFIX
    ensures NeverShiftedOver(p, w) <==> Spares(p, w)
  {
    hide Occurs;
    if Spares(p, w) {
      forall s: seq<byte>, at: nat, k: nat ensures !PassesOver(p, w, s, at, k) {
        if at + |p| <= |s| && 0 < k < Shift(p, s[at + |p| - 1]) { SparedHere(s, at, p, w, k); }
      }
    } else {
      var j :| 0 <= j < |p| - 1 && Overtaken(p, w, j);
      var z := FreshByte(p, 256);
      var k := |p| - 1 - j;
      var s := Bridge(z, k) + w + Bridge(z, |p|);
      OvertakenThere(p, w, j, z);
      OccursBetween(Bridge(z, k), w, Bridge(z, |p|));
      assert PassesOver(p, w, s, 0, k);
    }
  }

  function Bridge(z: byte, n: nat): (s: seq<byte>)
    ensures |s| == n
  {
    seq(n, _ => z)
  }

  lemma OccursBetween(a: seq<byte>, w: seq<byte>, b: seq<byte>)
    ensures Occurs(a + w + b, |a|, w)
  {
    assert (a + w + b)[|a|..|a| + |w|] == w;
  }

  /** An occurrence that is not overtaken is not passed over. */
  lemma SparedHere(s: seq<byte>, at: nat, p: seq<byte>, w: seq<byte>, k: nat)
    requires p != [] && at + |p| <= |s| && 0 < k < Shift(p, s[at + |p| - 1]) && !Overtaken(p, w, |p| - 1 - k)
    ensures !Occurs(s, at + k, w)
  {
    hide Occurs;
    var j := |p| - 1 - k;
    ShiftExceeds(p, s[at + |p| - 1], |p| - 1, k);
    if Occurs(s, at + k, w) { WindowByte(s, at + k, w, j); }
  }

  /** Where `w` is overtaken a window with such a last byte shifts past it. */
  lemma OvertakenThere(p: seq<byte>, w: seq<byte>, j: nat, z: byte)
    requires j < |p| - 1 && Overtaken(p, w, j) && z !in p
    ensures var s := Bridge(z, |p| - 1 - j) + w + Bridge(z, |p|);
      |p| <= |s| && Shift(p, s[|p| - 1]) > |p| - 1 - j
  {
    var k := |p| - 1 - j;
    var s := Bridge(z, k) + w + Bridge(z, |p|);
    var x := s[|p| - 1];
    assert x == if j < |w| then w[j] else z;
    ShiftExceeds(p, x, |p| - 1, k);
  }

  /** The table as it is built: every entry the prefix length, then one overwrite a byte. */
  method BuildSkip(p: seq<byte>) returns (table: array<nat>)
    requires p != []
    ensures fresh(table) && table.Length == 256
    ensures forall b: byte :: table[b] == Shift(p, b)
  {
    table := new nat[256](_ => |p|);
    var i := 0;
    while i < |p| - 1
      invariant 0 <= i <= |p| - 1
      invariant forall b: byte :: table[b] == ShiftBelow(p, b, i)
    {
      table[p[i]] := |p| - 1 - i;
      i := i + 1;
    }
  }
}
