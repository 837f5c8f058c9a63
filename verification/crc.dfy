/** Shift registers as the programs write them, on machine words. */
module Crc {
  import opened Bytes
  import opened Bitwise
  import P = Polynomial

  const POLY16: nat := 0x8408
  const POLY32: nat := 0xEDB8_8320

  /** One right shift, adding the reflected generator when a one falls out. */
  function Bit(s: nat, poly: nat): nat {
    if s % 2 == 1 then Xor(s / 2, poly) else s / 2
  }

  function Bits(s: nat, poly: nat, n: nat): nat
    decreases n
  {
    if n == 0 then s else Bits(Bit(s, poly), poly, n - 1)
  }

  function Fold(s: nat, poly: nat, b: byte): nat {
    Bits(Xor(s, b), poly, 8)
  }

  function Run(s: nat, poly: nat, data: seq<byte>): nat
    decreases |data|
  {
    if data == [] then s else Run(Fold(s, poly, data[0]), poly, data[1..])
  }

  lemma BitShifts(s: nat, poly: nat, n: nat)
    requires n > 0 && s < Pow2(n) && poly < Pow2(n)
    ensures Bit(s, poly) < Pow2(n)
    ensures P.Stages(Bit(s, poly), n) == P.Shift(P.Stages(s, n), P.Stages(poly, n))
  {
    XorBound(s / 2, poly, n);
    P.StepShifts(s, poly, n);
  }

  lemma {:induction false} BitsShift(s: nat, poly: nat, n: nat, k: nat)
    requires n > 0 && s < Pow2(n) && poly < Pow2(n)
    ensures Bits(s, poly, k) < Pow2(n)
    ensures P.Stages(Bits(s, poly, k), n) == P.ShiftMany(P.Stages(s, n), P.Stages(poly, n), k)
    decreases k
  {
    if k > 0 {
      BitShifts(s, poly, n);
      BitsShift(Bit(s, poly), poly, n, k - 1);
    }
  }

  lemma {:induction false} WiderPow2(m: nat, n: nat)
    requires m <= n
    ensures Pow2(m) <= Pow2(n)
    decreases n
  {
    if m < n { WiderPow2(m, n - 1); }
  }

  lemma {:induction false} RunIsRegister(s: nat, poly: nat, data: seq<byte>, n: nat)
    requires n >= 8 && s < Pow2(n) && poly < Pow2(n)
    ensures Run(s, poly, data) < Pow2(n)
    ensures P.Stages(Run(s, poly, data), n) == P.Register(P.Stages(s, n), data, P.Stages(poly, n))
    decreases |data|
  {
    if data != [] {
      Powers();
      WiderPow2(8, n);
      XorBound(s, data[0], n);
      P.StagesXor(s, data[0], 8, n);
      BitsShift(Xor(s, data[0]), poly, n, 8);
      RunIsRegister(Fold(s, poly, data[0]), poly, data[1..], n);
    }
  }
}
