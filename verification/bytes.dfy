/** Bytes, machine words and the integer encodings the protocols share. */
module Bytes {

  type byte = i: int | 0 <= i < 256

  /** An unsigned 32-bit machine word, held as the integer it denotes. */
  type word = i: int | 0 <= i < 0x1_0000_0000

  const U32: int := 0x1_0000_0000

  datatype Option<T> = None | Some(value: T)

  function Concat(parts: seq<seq<byte>>): seq<byte> {
    if parts == [] then [] else parts[0] + Concat(parts[1..])
  }

  /** Base-256 digit i of n, digit 0 being the least significant. */
  function Octet(n: nat, i: nat): byte
    decreases i
  {
    if i == 0 then n % 256 else Octet(n / 256, i - 1)
  }

  /** Big-endian digits of n, as struct.pack and int.to_bytes(..., "big") write them. */
  function Be(n: nat, width: nat): (s: seq<byte>)
    ensures |s| == width
  {
    seq(width, i requires 0 <= i < width => Octet(n, width - 1 - i))
  }

  /** The number a big-endian byte string denotes. */
  function FromBe(s: seq<byte>): nat
  {
    if s == [] then 0 else FromBe(s[..|s| - 1]) * 256 + s[|s| - 1]
  }

  /** Little-endian digits of n. */
  function Le(n: nat, width: nat): (s: seq<byte>)
    ensures |s| == width
  {
    seq(width, i requires 0 <= i < width => Octet(n, i))
  }

  function FromLe(s: seq<byte>): nat
  {
    if s == [] then 0 else s[0] + 256 * FromLe(s[1..])
  }

  function Pow256(width: nat): (p: nat)
    ensures p >= 1
  {
    if width == 0 then 1 else 256 * Pow256(width - 1)
  }

  lemma BeSplit(n: nat, width: nat)
    requires width > 0
    ensures Be(n, width) == Be(n / 256, width - 1) + [n % 256]
  {
    var split := Be(n / 256, width - 1) + [n % 256];
    forall i | 0 <= i < width ensures Be(n, width)[i] == split[i] {
      var j := width - 1 - i;
      assert Be(n, width)[i] == Octet(n, j);
      if j > 0 {
        assert Octet(n, j) == Octet(n / 256, j - 1);
        assert split[i] == Be(n / 256, width - 1)[i];
      }
    }
  }

  lemma LeSplit(n: nat, width: nat)
    requires width > 0
    ensures Le(n, width) == [n % 256] + Le(n / 256, width - 1)
  {
    var split := [n % 256] + Le(n / 256, width - 1);
    forall i | 0 <= i < width ensures Le(n, width)[i] == split[i] {
      if i > 0 {
        assert Octet(n, i) == Octet(n / 256, i - 1);
      }
    }
  }

  lemma {:induction false} BeRoundTrip(n: nat, width: nat)
    requires n < Pow256(width)
    ensures FromBe(Be(n, width)) == n
    decreases width
  {
    if width > 0 {
      BeRoundTrip(n / 256, width - 1);
      BeSplit(n, width);
      var s := Be(n, width);
      assert s[..|s| - 1] == Be(n / 256, width - 1);
    }
  }

  lemma {:induction false} LeRoundTrip(n: nat, width: nat)
    requires n < Pow256(width)
    ensures FromLe(Le(n, width)) == n
    decreases width
  {
    if width > 0 {
      LeRoundTrip(n / 256, width - 1);
      LeSplit(n, width);
      assert Le(n, width)[1..] == Le(n / 256, width - 1);
    }
  }

  lemma {:induction false} FromLeRoundTrip(s: seq<byte>)
    ensures FromLe(s) < Pow256(|s|)
    ensures Le(FromLe(s), |s|) == s
  {
    if s != [] {
      FromLeRoundTrip(s[1..]);
      LeSplit(FromLe(s), |s|);
      assert FromLe(s) / 256 == FromLe(s[1..]) && FromLe(s) % 256 == s[0];
      assert s == [s[0]] + s[1..];
    }
  }

  lemma OctetPowers()
    ensures Pow256(2) == 0x1_0000 && Pow256(4) == U32
    ensures Pow256(8) == 0x1_0000_0000_0000_0000
  {
    assert Pow256(6) == 0x1_0000_0000_0000;
  }
}
