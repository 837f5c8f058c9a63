/** The 32-bit address space as the processor sees it: one byte for every address. */
module Memory {
  import opened Bytes

  type Bytes32 = m: seq<byte> | |m| == U32 witness seq(U32, i => 0)

  /** The little-endian word at a. */
  function Word(mem: seq<byte>, a: nat): (w: word)
    requires a + 4 <= |mem|
  {
    OctetPowers();
    FromLeRoundTrip(mem[a..a + 4]);
    FromLe(mem[a..a + 4])
  }

  /** The little-endian halfword at a. */
  function Half(mem: seq<byte>, a: nat): (h: nat)
    requires a + 2 <= |mem|
    ensures h < 0x1_0000
  {
    OctetPowers();
    FromLeRoundTrip(mem[a..a + 2]);
    FromLe(mem[a..a + 2])
  }

  /** mem with these bytes stored from a on. */
  function Store(mem: seq<byte>, a: nat, bytes: seq<byte>): (m: seq<byte>)
    requires a + |bytes| <= |mem|
    ensures |m| == |mem|
  {
    mem[..a] + bytes + mem[a + |bytes|..]
  }

  /** Store, in place. */
  method StoreInto(a: array<byte>, at: nat, bytes: seq<byte>)
    requires at + |bytes| <= a.Length
    modifies a
    ensures a[..] == Store(old(a[..]), at, bytes)
  {
    forall i | 0 <= i < |bytes| {
      a[at + i] := bytes[i];
    }
    assert a[..at] == old(a[..at]) && a[at + |bytes|..] == old(a[at + |bytes|..]);
    assert a[at..at + |bytes|] == bytes;
    assert a[..] == a[..at] + a[at..at + |bytes|] + a[at + |bytes|..];
  }

  /** The two memories agree at every address outside [lo, hi). */
  predicate Only(before: seq<byte>, after: seq<byte>, lo: nat, hi: nat) {
    && |before| == |after|
    && forall i | 0 <= i < |before| && !(lo <= i < hi) :: after[i] == before[i]
  }

  /** The two memories agree on [lo, hi). */
  predicate Same(before: seq<byte>, after: seq<byte>, lo: nat, hi: nat) {
    && |before| == |after| && lo <= hi <= |before|
    && forall i | lo <= i < hi :: after[i] == before[i]
  }

  lemma SameSlice(before: seq<byte>, after: seq<byte>, lo: nat, hi: nat)
    requires Same(before, after, lo, hi)
    ensures after[lo..hi] == before[lo..hi]
  {
    var a, b := after[lo..hi], before[lo..hi];
    forall k | 0 <= k < hi - lo ensures a[k] == b[k] {
      assert a[k] == after[lo + k] && b[k] == before[lo + k];
    }
  }

  lemma StoreOnly(mem: seq<byte>, a: nat, bytes: seq<byte>)
    requires a + |bytes| <= |mem|
    ensures Only(mem, Store(mem, a, bytes), a, a + |bytes|)
    ensures Store(mem, a, bytes)[a..a + |bytes|] == bytes
  {
  }

  lemma SubSlice(m: seq<byte>, lo: nat, hi: nat, i: nat, j: nat)
    requires lo <= hi <= |m| && i <= j <= hi - lo
    ensures m[lo..hi][i..j] == m[lo + i..lo + j]
  {
    forall k | 0 <= k < j - i ensures m[lo..hi][i..j][k] == m[lo + i..lo + j][k] {
      assert m[lo..hi][i..j][k] == m[lo..hi][i + k] == m[lo + (i + k)];
    }
  }

  lemma WordStored(mem: seq<byte>, a: nat, w: word)
    requires a + 4 <= |mem|
    ensures Word(Store(mem, a, Le(w, 4)), a) == w
  {
    OctetPowers();
    LeRoundTrip(w, 4);
    StoreOnly(mem, a, Le(w, 4));
  }

  lemma WordSame(before: seq<byte>, after: seq<byte>, a: nat)
    requires a + 4 <= |before| && Same(before, after, a, a + 4)
    ensures Word(after, a) == Word(before, a)
  {
    SameSlice(before, after, a, a + 4);
  }

  /** The bytes from a up to the first NUL, as the print routine reads them. */
  function Text(mem: seq<byte>, a: nat): seq<byte>
    decreases |mem| - a
  {
    if a >= |mem| || mem[a] == 0 then [] else [mem[a]] + Text(mem, a + 1)
  }

  lemma {:induction false} TextAt(mem: seq<byte>, a: nat, text: seq<byte>)
    requires a + |text| < |mem| && mem[a..a + |text|] == text && mem[a + |text|] == 0
    requires 0 !in text
    ensures Text(mem, a) == text
    decreases |text|
  {
    if text != [] {
      assert mem[a] == mem[a..a + |text|][0] == text[0];
      assert mem[a + 1..a + |text|] == mem[a..a + |text|][1..];
      TextAt(mem, a + 1, text[1..]);
    }
  }
}
