/**
 Cyclic redundancy checks, defined without any register: the message is a polynomial over
 GF(2), and the check is the remainder of its long division by the generator. A shift
 register is then shown to compute that remainder.
 */
module Polynomial {
  import opened Bytes
  import opened Bitwise

  /** Coefficients, highest power first. The first bit sent on a line is the highest power. */
  type bits = seq<bool>

  function Zeros(n: nat): (z: bits)
    ensures |z| == n
  {
    seq(n, i => false)
  }

  function Ones(n: nat): (z: bits)
    ensures |z| == n
  {
    seq(n, i => true)
  }

  function Not(a: bits): (c: bits)
    ensures |c| == |a|
  {
    seq(|a|, i requires 0 <= i < |a| => !a[i])
  }

  /** Adds r, modulo two, onto the leading coefficients of m. */
  function XorFront(r: bits, m: bits): (c: bits)
    requires |r| <= |m|
    ensures |c| == |m|
  {
    seq(|m|, i requires 0 <= i < |m| => if i < |r| then m[i] != r[i] else m[i])
  }

  /** Long division of m by x^|g| + g, one leading coefficient at a time. */
  function Remainder(m: bits, g: bits): (r: bits)
    requires |m| >= |g| > 0
    ensures |r| == |g|
    decreases |m|
  {
    if |m| == |g| then m
    else Remainder(if m[0] then XorFront(g, m[1..]) else m[1..], g)
  }

  /** The low n binary digits of a register, least significant first. */
  function Stages(s: nat, n: nat): (r: bits)
    ensures |r| == n
  {
    seq(n, i requires 0 <= i < n => Digit(s, i))
  }

  /** The eight coefficients of a byte, sent least significant bit first. */
  function ByteBits(b: byte): (s: bits)
    ensures |s| == 8
  {
    Stages(b, 8)
  }

  function MessageBits(data: seq<byte>): (s: bits)
    ensures |s| == 8 * |data|
  {
    if data == [] then [] else ByteBits(data[0]) + MessageBits(data[1..])
  }

  /**
   The check of RFC 1662 appendix C and of RFC 1952 section 8: complement the leading
   coefficients, multiply by x^|g|, divide, complement the remainder.
   */
  function Check(data: seq<byte>, g: bits): (c: bits)
    requires |g| > 0
    ensures |c| == |g|
  {
    Not(Remainder(XorFront(Ones(|g|), MessageBits(data) + Zeros(|g|)), g))
  }

  /** One step of a shift register whose stage 0 holds the highest power. */
  function Shift(r: bits, g: bits): (s: bits)
    requires |r| == |g| > 0
    ensures |s| == |g|
  {
    var moved := r[1..] + [false];
    if r[0] then XorFront(g, moved) else moved
  }

  function ShiftMany(r: bits, g: bits, n: nat): (s: bits)
    requires |r| == |g| > 0
    ensures |s| == |g|
    decreases n
  {
    if n == 0 then r else ShiftMany(Shift(r, g), g, n - 1)
  }

  function Register(r: bits, data: seq<byte>, g: bits): (s: bits)
    requires |r| == |g| >= 8
    ensures |s| == |g|
    decreases |data|
  {
    if data == [] then r
    else Register(ShiftMany(XorFront(ByteBits(data[0]), r), g, 8), data[1..], g)
  }

  lemma ShiftAt(r: bits, g: bits, i: nat)
    requires |r| == |g| > 0 && i < |g|
    ensures Shift(r, g)[i] == ((i + 1 < |r| && r[i + 1]) != (r[0] && g[i]))
  {
    var moved := r[1..] + [false];
    assert moved[i] == (i + 1 < |r| && r[i + 1]);
  }

  lemma ShiftFront(r: bits, m: bits, g: bits)
    requires |r| == |g| > 0 && |m| >= |g|
    ensures var moved := XorFront(r, [false] + m)[1..];
            XorFront(Shift(r, g), m) == if r[0] then XorFront(g, moved) else moved
  {
    var wide := XorFront(r, [false] + m);
    var narrow := XorFront(Shift(r, g), m);
    forall i | 0 <= i < |m|
      ensures narrow[i] == (wide[1..][i] != (i < |g| && r[0] && g[i]))
    {
      assert wide[1..][i] == wide[i + 1];
      if i < |g| { ShiftAt(r, g, i); }
    }
    assert r[0] ==> narrow == XorFront(g, wide[1..]);
    assert !r[0] ==> narrow == wide[1..];
  }

  lemma ShiftDivides(r: bits, m: bits, g: bits)
    requires |r| == |g| > 0 && |m| >= |g|
    ensures Remainder(XorFront(r, [false] + m), g) == Remainder(XorFront(Shift(r, g), m), g)
  {
    ShiftFront(r, m, g);
    var wide := XorFront(r, [false] + m);
    assert wide[0] == r[0];
  }

  lemma {:induction false} ShiftManyDivides(r: bits, m: bits, g: bits, n: nat)
    requires |r| == |g| > 0 && |m| >= |g|
    ensures Remainder(XorFront(r, Zeros(n) + m), g)
         == Remainder(XorFront(ShiftMany(r, g, n), m), g)
    decreases n
  {
    if n == 0 {
      assert Zeros(0) + m == m;
    } else {
      assert Zeros(n) + m == [false] + (Zeros(n - 1) + m);
      ShiftDivides(r, Zeros(n - 1) + m, g);
      ShiftManyDivides(Shift(r, g), m, g, n - 1);
    }
  }

  /** A register fed one byte at a time computes the long-division remainder. */
  lemma {:induction false} RegisterDivides(r: bits, data: seq<byte>, g: bits)
    requires |r| == |g| >= 8
    ensures Remainder(XorFront(r, MessageBits(data) + Zeros(|g|)), g) == Register(r, data, g)
    decreases |data|
  {
    if data == [] {
      assert XorFront(r, MessageBits(data) + Zeros(|g|)) == r;
    } else {
      var first := ByteBits(data[0]);
      var rest := MessageBits(data[1..]) + Zeros(|g|);
      var loaded := XorFront(first, r);
      assert XorFront(r, MessageBits(data) + Zeros(|g|)) == XorFront(loaded, Zeros(8) + rest);
      ShiftManyDivides(loaded, rest, g, 8);
      RegisterDivides(ShiftMany(loaded, g, 8), data[1..], g);
    }
  }

  lemma XorFrontAt(r: bits, m: bits, i: nat)
    requires |r| <= |m| && i < |m|
    ensures XorFront(r, m)[i] == (m[i] != (i < |r| && r[i]))
  {
  }

  /** A word exclusive-ored with a shorter one, stage by stage. */
  lemma StagesXor(a: nat, b: nat, m: nat, n: nat)
    requires m <= n && b < Pow2(m)
    ensures Stages(Xor(a, b), n) == XorFront(Stages(b, m), Stages(a, n))
  {
    forall i | 0 <= i < n
      ensures Stages(Xor(a, b), n)[i] == XorFront(Stages(b, m), Stages(a, n))[i]
    {
      XorDigit(a, b, i);
      if i >= m { DigitAbove(b, m, i); }
    }
  }

  /** Shifting right and adding the generator when a one falls out is one step of division. */
  lemma StepShifts(s: nat, g: nat, n: nat)
    requires n > 0 && s < Pow2(n)
    ensures Stages(if s % 2 == 1 then Xor(s / 2, g) else s / 2, n)
         == Shift(Stages(s, n), Stages(g, n))
  {
    var t := if s % 2 == 1 then Xor(s / 2, g) else s / 2;
    forall i | 0 <= i < n
      ensures Stages(t, n)[i] == Shift(Stages(s, n), Stages(g, n))[i]
    {
      ShiftAt(Stages(s, n), Stages(g, n), i);
      XorDigit(s / 2, g, i);
      assert Digit(s / 2, i) == Digit(s, i + 1);
      assert Digit(s, 0) == (s % 2 == 1);
      if i + 1 == n { DigitAbove(s, n, n); }
    }
  }

  lemma StagesInjective(a: nat, b: nat, n: nat)
    requires a < Pow2(n) && b < Pow2(n) && Stages(a, n) == Stages(b, n)
    ensures a == b
  {
    forall i | 0 <= i < n ensures Digit(a, i) == Digit(b, i) {
      assert Stages(a, n)[i] == Stages(b, n)[i];
    }
    DigitsDetermine(a, b, n);
  }

  lemma {:induction false} MessageConcat(a: seq<byte>, b: seq<byte>)
    ensures MessageBits(a + b) == MessageBits(a) + MessageBits(b)
    decreases |a|
  {
    if a == [] {
      assert a + b == b;
    } else {
      assert (a + b)[1..] == a[1..] + b;
      MessageConcat(a[1..], b);
    }
  }

  lemma MessageOfTwo(a: byte, b: byte)
    ensures MessageBits([a, b]) == ByteBits(a) + ByteBits(b)
  {
    assert [a, b][1..] == [b];
    assert MessageBits([b]) == ByteBits(b) + [];
  }

  lemma MessageSplit(a: seq<byte>, at: nat)
    requires at <= |a|
    ensures MessageBits(a)[..8 * at] == MessageBits(a[..at])
    ensures MessageBits(a)[8 * at..] == MessageBits(a[at..])
  {
    assert a == a[..at] + a[at..];
    MessageConcat(a[..at], a[at..]);
  }

  /** The bits determine the bytes. */
  lemma {:induction false} MessageInjective(a: seq<byte>, b: seq<byte>)
    requires |a| == |b|
    ensures MessageBits(a) == MessageBits(b) ==> a == b
    decreases |a|
  {
    if a != [] && MessageBits(a) == MessageBits(b) {
      var x, y := MessageBits(a), MessageBits(b);
      assert x[..8] == ByteBits(a[0]) && y[..8] == ByteBits(b[0]);
      assert x[8..] == MessageBits(a[1..]) && y[8..] == MessageBits(b[1..]);
      Powers();
      StagesInjective(a[0], b[0], 8);
      MessageInjective(a[1..], b[1..]);
      assert a == [a[0]] + a[1..] && b == [b[0]] + b[1..];
    }
  }
}
