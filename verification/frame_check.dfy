/** The frame check sequence of the serial framing: CRC-16 of RFC 1662 appendix C. */
module FrameCheck {
  import opened Bytes
  import opened Bitwise
  import opened Crc
  import P = Polynomial
  import B = Bursts

  function X25(data: seq<byte>): nat {
    Xor(Run(0xFFFF, POLY16, data), 0xFFFF)
  }

  method Compute(data: seq<byte>) returns (crc: nat)
    ensures crc == X25(data)
  {
    crc := Fold16(data, 0xFFFF, 0x8408);
    crc := Xor(crc, 0xFFFF);
  }

  /** The two nested loops, from any start and generator. */
  method Fold16(data: seq<byte>, start: nat, poly: nat) returns (crc: nat)
    ensures crc == Run(start, poly, data)
  {
    crc := start;
    ghost var rest := data;
    for i := 0 to |data|
      invariant rest == data[i..] && Run(crc, poly, rest) == Run(start, poly, data)
    {
      ghost var folded := Fold(crc, poly, data[i]);
      rest := rest[1..];
      crc := Xor(crc, data[i]);
      for k := 0 to 8
        invariant Bits(crc, poly, 8 - k) == folded
      {
        crc := if crc % 2 == 1 then Xor(crc / 2, poly) else crc / 2;
      }
    }
  }

  /** x^16 + x^12 + x^5 + 1, highest power first, without its leading coefficient. */
  function Generator(): (g: P.bits)
    ensures |g| == 16 && g[15]
  {
    [false, false, false, true, false, false, false, false,
     false, false, true, false, false, false, false, true]
  }

  lemma GeneratorOctets(i: nat)
    requires i < 8
    ensures Digit(0x08, i) == Generator()[i] && Digit(0x84, i) == Generator()[8 + i]
  {
    assert !Digit(0x08, 0) && !Digit(0x08, 1) && !Digit(0x08, 2) && Digit(0x08, 3);
    assert !Digit(0x08, 4) && !Digit(0x08, 5) && !Digit(0x08, 6) && !Digit(0x08, 7);
    assert !Digit(0x84, 0) && !Digit(0x84, 1) && Digit(0x84, 2) && !Digit(0x84, 3);
    assert !Digit(0x84, 4) && !Digit(0x84, 5) && !Digit(0x84, 6) && Digit(0x84, 7);
  }

  lemma GeneratorAt(i: nat)
    requires i < 16
    ensures Digit(POLY16, i) == Generator()[i]
  {
    Powers();
    DigitSplit(0x08, 0x84, 8, i);
    GeneratorOctets(if i < 8 then i else i - 8);
  }

  lemma GeneratorStages()
    ensures POLY16 < Pow2(16) && P.Stages(POLY16, 16) == Generator()
  {
    Powers();
    forall i | 0 <= i < 16 ensures P.Stages(POLY16, 16)[i] == Generator()[i] {
      GeneratorAt(i);
    }
  }

  lemma {:induction false} OnesDigit(n: nat, i: nat)
    requires i < n
    ensures Digit(Pow2(n) - 1, i)
    decreases i
  {
    if i > 0 {
      assert (Pow2(n) - 1) / 2 == Pow2(n - 1) - 1;
      OnesDigit(n - 1, i - 1);
    }
  }

  lemma AllOnes(n: nat)
    ensures P.Stages(Pow2(n) - 1, n) == P.Ones(n)
  {
    var ones := P.Stages(Pow2(n) - 1, n);
    forall i | 0 <= i < n ensures ones[i] == P.Ones(n)[i] {
      OnesDigit(n, i);
    }
  }

  lemma Complement(s: nat, n: nat)
    requires s < Pow2(n)
    ensures Xor(s, Pow2(n) - 1) < Pow2(n)
    ensures P.Stages(Xor(s, Pow2(n) - 1), n) == P.Not(P.Stages(s, n))
  {
    XorBound(s, Pow2(n) - 1, n);
    AllOnes(n);
    P.StagesXor(s, Pow2(n) - 1, n, n);
    assert P.XorFront(P.Ones(n), P.Stages(s, n)) == P.Not(P.Stages(s, n));
  }

  lemma RunStages(data: seq<byte>)
    ensures Run(0xFFFF, POLY16, data) < Pow2(16)
    ensures P.Stages(Run(0xFFFF, POLY16, data), 16) == P.Register(P.Ones(16), data, Generator())
  {
    Powers();
    GeneratorStages();
    AllOnes(16);
    RunIsRegister(0xFFFF, POLY16, data, 16);
  }

  /** The nested loops compute the polynomial check of RFC 1662, for every message. */
  lemma X25IsPolynomialCheck(data: seq<byte>)
    ensures X25(data) < 0x1_0000
    ensures P.Stages(X25(data), 16) == P.Check(data, Generator())
  {
    Powers();
    RunStages(data);
    P.RegisterDivides(P.Ones(16), data, Generator());
    Complement(Run(0xFFFF, POLY16, data), 16);
  }

  /** The receiver's comparison of the last two bytes, low byte first, with the check of the rest. */
  predicate Accepts(body: seq<byte>)
    requires |body| >= 2
  {
    FromLe(body[|body| - 2..]) == X25(body[..|body| - 2])
  }

  lemma TrailerValue(t: seq<byte>, low: nat, high: nat)
    requires |t| == 2 && t[0] == low && t[1] == high
    ensures FromLe(t) == low + 256 * high
  {
    assert t[1..][1..] == [];
    assert FromLe(t[1..]) == t[1];
  }

  lemma TrailerStages(t: seq<byte>)
    requires |t| == 2
    ensures FromLe(t) == t[0] + 256 * t[1] < Pow2(16)
    ensures P.MessageBits(t) == P.Stages(FromLe(t), 16)
  {
    Powers();
    TrailerValue(t, t[0], t[1]);
    assert t == [t[0], t[1]];
    P.MessageOfTwo(t[0], t[1]);
    StagesOfTwo(t[0], t[1], P.MessageBits(t));
  }

  lemma StagesOfTwo(a: byte, b: byte, m: P.bits)
    requires m == P.ByteBits(a) + P.ByteBits(b)
    ensures m == P.Stages(a + 256 * b, 16)
  {
    Powers();
    forall i | 0 <= i < 16 ensures m[i] == P.Stages(a + 256 * b, 16)[i] {
      DigitSplit(a, b, 8, i);
    }
  }

  /** Where a register that started all ones must stop when its own check has passed through. */
  function Residue(): (r: P.bits)
    ensures |r| == 16
  {
    P.ShiftMany(P.Ones(16), Generator(), 16)
  }

  function Passed(body: seq<byte>): (r: P.bits)
    ensures |r| == 16
  {
    B.Feed(P.Ones(16), P.MessageBits(body), Generator())
  }

  lemma PassedTrailer(payload: seq<byte>, t: seq<byte>)
    requires |t| == 2
    ensures Passed(payload + t)
         == P.ShiftMany(P.XorFront(P.Stages(FromLe(t), 16),
                                   P.Stages(Run(0xFFFF, POLY16, payload), 16)),
                        Generator(), 16)
  {
    P.MessageConcat(payload, t);
    TrailerStages(t);
    RunStages(payload);
    B.RegisterFeeds(P.Ones(16), payload, Generator());
    B.FeedConcat(P.Ones(16), P.MessageBits(payload), P.MessageBits(t), Generator());
    B.FeedLoad(P.Stages(Run(0xFFFF, POLY16, payload), 16), P.MessageBits(t), Generator());
  }

  lemma ResidueIffComplement(m: P.bits, r: P.bits)
    requires |m| == |r| == 16
    ensures P.ShiftMany(P.XorFront(m, r), Generator(), 16) == Residue() <==> m == P.Not(r)
  {
    assert P.XorFront(P.Not(r), r) == P.Ones(16);
    if P.ShiftMany(P.XorFront(m, r), Generator(), 16) == Residue() {
      B.ShiftManyInjective(P.XorFront(m, r), P.Ones(16), Generator(), 16);
      B.XorFrontInjective(m, P.Not(r), r, r);
    }
  }

  /** One step of this register, stage by stage. */
  lemma Stepped(r: P.bits, n: nat) returns (s: P.bits)
    requires |r| == 16
    ensures s == [r[1], r[2], r[3], r[4] != r[0], r[5], r[6], r[7], r[8],
                  r[9], r[10], r[11] != r[0], r[12], r[13], r[14], r[15], r[0]]
    ensures P.ShiftMany(r, Generator(), n + 1) == P.ShiftMany(s, Generator(), n)
  {
    s := P.Shift(r, Generator());
    forall i | 0 <= i < 16 ensures s[i] == ((i < 15 && r[i + 1]) != (r[0] && i in {3, 10, 15})) {
      P.ShiftAt(r, Generator(), i);
    }
  }

  lemma SteppedTwo(r: P.bits, n: nat) returns (s: P.bits)
    requires |r| == 16
    ensures s == [r[2], r[3], r[4] != r[0], r[5] != r[1], r[6], r[7], r[8], r[9],
                  r[10], r[11] != r[0], r[12] != r[1], r[13], r[14], r[15], r[0], r[1]]
    ensures P.ShiftMany(r, Generator(), n + 2) == P.ShiftMany(s, Generator(), n)
  {
    s := Stepped(r, n + 1);
    s := Stepped(s, n);
  }

  lemma SteppedFour(r: P.bits, n: nat) returns (s: P.bits)
    requires |r| == 16
    ensures s == [r[4] != r[0], r[5] != r[1], r[6] != r[2], r[7] != r[3],
                  r[8], r[9], r[10], r[11] != r[0],
                  r[12] != r[1], r[13] != r[2], r[14] != r[3], r[15],
                  r[0], r[1], r[2], r[3]]
    ensures P.ShiftMany(r, Generator(), n + 4) == P.ShiftMany(s, Generator(), n)
  {
    s := SteppedTwo(r, n + 2);
    s := SteppedTwo(s, n);
  }

  lemma SixteenSteps(n: nat) returns (s: P.bits)
    ensures s == [false, false, false, true, true, true, false, true,
                  false, false, false, false, true, true, true, true]
    ensures P.ShiftMany(P.Ones(16), Generator(), n + 16) == P.ShiftMany(s, Generator(), n)
  {
    s := SteppedFour(P.Ones(16), n + 12);
    s := SteppedFour(s, n + 8);
    assert s == [true, true, true, false, false, false, false, true,
                 true, true, true, true, false, false, false, false];
    s := SteppedFour(s, n + 4);
    s := SteppedFour(s, n);
  }

  lemma ResidueOctets(i: nat)
    requires i < 8
    ensures Digit(0xB8, i) == (i in {3, 4, 5, 7}) && Digit(0xF0, i) == (i >= 4)
  {
    assert !Digit(0xB8, 0) && !Digit(0xB8, 1) && !Digit(0xB8, 2) && Digit(0xB8, 3);
    assert Digit(0xB8, 4) && Digit(0xB8, 5) && !Digit(0xB8, 6) && Digit(0xB8, 7);
    assert !Digit(0xF0, 0) && !Digit(0xF0, 1) && !Digit(0xF0, 2) && !Digit(0xF0, 3);
    assert Digit(0xF0, 4) && Digit(0xF0, 5) && Digit(0xF0, 6) && Digit(0xF0, 7);
  }

  /** The good final register of appendix C of RFC 1662: 0xF0B8. */
  lemma ResidueIs()
    ensures Residue() == P.ByteBits(0xB8) + P.ByteBits(0xF0)
  {
    var s := SixteenSteps(0);
    forall i | 0 <= i < 8 ensures s[i] == P.ByteBits(0xB8)[i] && s[8 + i] == P.ByteBits(0xF0)[i] {
      ResidueOctets(i);
    }
  }

  /** The comparison succeeds exactly when the whole body, check included, leaves the good register. */
  lemma AcceptsIffResidue(body: seq<byte>)
    requires |body| >= 2
    ensures Accepts(body) <==> Passed(body) == P.ByteBits(0xB8) + P.ByteBits(0xF0)
  {
    ResidueIs();
    var payload, t := body[..|body| - 2], body[|body| - 2..];
    var s := Run(0xFFFF, POLY16, payload);
    assert body == payload + t;
    PassedTrailer(payload, t);
    ResidueIffComplement(P.Stages(FromLe(t), 16), P.Stages(s, 16));
    TrailerStages(t);
    RunStages(payload);
    Powers();
    Complement(s, 16);
    if P.Stages(FromLe(t), 16) == P.Stages(X25(payload), 16) {
      P.StagesInjective(FromLe(t), X25(payload), 16);
    }
  }

  /** A body carrying its own check is accepted. */
  lemma OwnTrailerAccepted(payload: seq<byte>)
    ensures Accepts(payload + Le(X25(payload), 2))
  {
    var crc := X25(payload);
    var body := payload + Le(crc, 2);
    X25IsPolynomialCheck(payload);
    OctetPowers();
    LeRoundTrip(crc, 2);
    assert body[..|body| - 2] == payload && body[|body| - 2..] == Le(crc, 2);
  }

  /**
   Error detection: of two different bodies of one length whose bits differ only within a
   window of sixteen, at any bit offset, at most one is accepted.
   */
  lemma BurstRejected(good: seq<byte>, bad: seq<byte>, at: nat)
    requires |good| == |bad| >= 2 && good != bad && Accepts(good)
    requires B.Burst(P.MessageBits(good), P.MessageBits(bad), at, 16)
    ensures !Accepts(bad)
  {
    AcceptsIffResidue(good);
    AcceptsIffResidue(bad);
    P.MessageInjective(good, bad);
    B.BurstDetected(P.Ones(16), P.MessageBits(good), P.MessageBits(bad), at, 16, Generator());
  }

  /** In bytes: one byte, or two neighbouring bytes, replaced by anything else. */
  lemma AdjacentBytesRejected(good: seq<byte>, bad: seq<byte>, at: nat)
    requires |good| == |bad| >= 2 && good != bad && Accepts(good)
    requires at + 2 <= |good|
    requires good[..at] == bad[..at] && good[at + 2..] == bad[at + 2..]
    ensures !Accepts(bad)
  {
    P.MessageSplit(good, at);
    P.MessageSplit(bad, at);
    P.MessageSplit(good, at + 2);
    P.MessageSplit(bad, at + 2);
    BurstRejected(good, bad, 8 * at);
  }

  /** The exponents of the generator below its degree. */
  lemma GeneratorExponents(i: nat)
    requires i < 16
    ensures Generator()[i] <==> 15 - i in {12, 5, 0}
  {
  }
}
