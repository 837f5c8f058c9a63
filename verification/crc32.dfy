/** The 32-bit check of RFC 1952 section 8. */
module Crc32 {
  import opened Bytes
  import opened Bitwise
  import opened Crc
  import P = Polynomial
  import FrameCheck

  function Of(data: seq<byte>): nat {
    Xor(Run(0xFFFF_FFFF, POLY32, data), 0xFFFF_FFFF)
  }

  /** x^32 + x^26 + x^23 + x^22 + x^16 + x^12 + x^11 + x^10 + x^8 + x^7 + x^5 + x^4 + x^2 + x + 1. */
  function Generator(): (g: P.bits)
    ensures |g| == 32 && g[31]
  {
    [false, false, false, false, false, true, false, false,
     true, true, false, false, false, false, false, true,
     false, false, false, true, true, true, false, true,
     true, false, true, true, false, true, true, true]
  }

  lemma LowOctets(i: nat)
    requires i < 8
    ensures Digit(0x20, i) == Generator()[i] && Digit(0x83, i) == Generator()[8 + i]
  {
    assert !Digit(0x20, 0) && !Digit(0x20, 1) && !Digit(0x20, 2) && !Digit(0x20, 3);
    assert !Digit(0x20, 4) && Digit(0x20, 5) && !Digit(0x20, 6) && !Digit(0x20, 7);
    assert Digit(0x83, 0) && Digit(0x83, 1) && !Digit(0x83, 2) && !Digit(0x83, 3);
    assert !Digit(0x83, 4) && !Digit(0x83, 5) && !Digit(0x83, 6) && Digit(0x83, 7);
  }

  lemma HighOctets(i: nat)
    requires i < 8
    ensures Digit(0xB8, i) == Generator()[16 + i] && Digit(0xED, i) == Generator()[24 + i]
  {
    assert !Digit(0xB8, 0) && !Digit(0xB8, 1) && !Digit(0xB8, 2) && Digit(0xB8, 3);
    assert Digit(0xB8, 4) && Digit(0xB8, 5) && !Digit(0xB8, 6) && Digit(0xB8, 7);
    assert Digit(0xED, 0) && !Digit(0xED, 1) && Digit(0xED, 2) && Digit(0xED, 3);
    assert !Digit(0xED, 4) && Digit(0xED, 5) && Digit(0xED, 6) && Digit(0xED, 7);
  }

  lemma GeneratorAt(i: nat)
    requires i < 32
    ensures Digit(POLY32, i) == Generator()[i]
  {
    Powers();
    DigitSplit(0x8320, 0xEDB8, 16, i);
    if i < 16 {
      DigitSplit(0x20, 0x83, 8, i);
      LowOctets(if i < 8 then i else i - 8);
    } else {
      DigitSplit(0xB8, 0xED, 8, i - 16);
      HighOctets(if i < 24 then i - 16 else i - 24);
    }
  }

  lemma GeneratorStages()
    ensures POLY32 < Pow2(32) && P.Stages(POLY32, 32) == Generator()
  {
    Powers();
    forall i | 0 <= i < 32 ensures P.Stages(POLY32, 32)[i] == Generator()[i] {
      GeneratorAt(i);
    }
  }

  /** The target's bit loop computes the polynomial check of RFC 1952, for every byte string. */
  lemma OfIsPolynomialCheck(data: seq<byte>)
    ensures Of(data) < U32
    ensures P.Stages(Of(data), 32) == P.Check(data, Generator())
  {
    Powers();
    GeneratorStages();
    FrameCheck.AllOnes(32);
    RunIsRegister(0xFFFF_FFFF, POLY32, data, 32);
    P.RegisterDivides(P.Ones(32), data, Generator());
    FrameCheck.Complement(Run(0xFFFF_FFFF, POLY32, data), 32);
  }

  /** The exponents of the generator below its degree. */
  lemma GeneratorExponents(i: nat)
    requires i < 32
    ensures Generator()[i] <==> 31 - i in {26, 23, 22, 16, 12, 11, 10, 8, 7, 5, 4, 2, 1, 0}
  {
  }
}
