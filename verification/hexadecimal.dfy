/** Eight-digit hexadecimal text: the monitor's shift loop and Python's int(text, 16). */
module Hexadecimal {
  import opened Bytes

  function Pow16(n: nat): (p: nat)
    ensures p > 0
  {
    if n == 0 then 1 else 16 * Pow16(n - 1)
  }

  /** The n-digit numeral of v, most significant digit first, spelled by a table. */
  function Numeral(table: seq<byte>, v: nat, n: nat): (s: seq<byte>)
    requires |table| == 16 && v < Pow16(n)
    ensures |s| == n
    decreases n
  {
    if n == 0 then []
    else
      Quotient(v, n);
      [table[v / Pow16(n - 1)]] + Numeral(table, v % Pow16(n - 1), n - 1)
  }

  lemma Quotient(v: nat, n: nat)
    requires n > 0 && v < Pow16(n)
    ensures v / Pow16(n - 1) < 16
  {
    DivBound(v, Pow16(n - 1), 16);
  }

  lemma AtLeastOnce(k: nat, d: nat)
    requires k >= 1
    ensures k * d >= d
  {
    assert (k - 1) * d >= 0;
  }

  lemma NotPositive(k: int, d: nat)
    requires d > 0 && k * d < d
    ensures k <= 0
  {
    if k >= 1 {
      AtLeastOnce(k, d);
    }
  }

  lemma SmallMultiple(k: int, d: nat)
    requires d > 0 && 0 - d < k * d < d
    ensures k == 0
  {
    NotPositive(k, d);
    assert (0 - k) * d == 0 - k * d;
    NotPositive(0 - k, d);
  }

  lemma DivMod(n: nat, d: nat, q: nat, r: nat)
    requires d > 0 && r < d && n == q * d + r
    ensures n / d == q && n % d == r
  {
    var q', r' := n / d, n % d;
    assert n == q' * d + r';
    assert (q - q') * d == q * d - q' * d;
    SmallMultiple(q - q', d);
  }

  lemma DivBound(x: nat, b: nat, c: nat)
    requires b > 0 && x < c * b
    ensures x / b < c
  {
    var q := x / b;
    assert x == q * b + x % b;
    assert q * b < c * b;
    if q >= c {
      Monotone(c, q, b);
    }
  }

  lemma Monotone(c: nat, q: nat, b: nat)
    requires c <= q
    ensures c * b <= q * b
  {
    assert (q - c) * b >= 0;
  }

  /** "0123456789ABCDEF" */
  function Digits(): (t: seq<byte>)
    ensures |t| == 16
    ensures t == [0x30, 0x31, 0x32, 0x33, 0x34, 0x35, 0x36, 0x37,
                  0x38, 0x39, 0x41, 0x42, 0x43, 0x44, 0x45, 0x46]
  {
    seq(16, i requires 0 <= i < 16 => Digit(i))
  }

  function Digit(d: nat): (c: byte)
    requires d < 16
  {
    if d < 10 then 0x30 + d else 0x41 + (d - 10)
  }

  /** What int(c, 16) gives for one ASCII character, in either case. */
  function Value(c: byte): (v: int)
    ensures -1 <= v < 16
  {
    if 0x30 <= c <= 0x39 then c - 0x30
    else if 0x41 <= c <= 0x46 then c - 0x41 + 10
    else if 0x61 <= c <= 0x66 then c - 0x61 + 10
    else -1
  }

  /** The characters read as digits are 0-9, A-F and a-f, and case does not matter. */
  lemma HexCharacters(c: byte)
    ensures Value(c) >= 0 <==> 0x30 <= c <= 0x39 || 0x41 <= c <= 0x46 || 0x61 <= c <= 0x66
    ensures 0x61 <= c <= 0x66 ==> Value(c) == Value(c - 0x20)
    ensures forall d | 0 <= d < 16 :: Value(Digits()[d]) == d
  {
  }

  predicate IsHex(s: seq<byte>) {
    forall i | 0 <= i < |s| :: Value(s[i]) >= 0
  }

  /** int(text, 16) */
  function FromHex(s: seq<byte>): (n: nat)
    requires IsHex(s)
  {
    if s == [] then 0
    else Value(s[0]) * Pow16(|s| - 1) + FromHex(s[1..])
  }

  lemma {:induction false} NumeralReads(table: seq<byte>, v: nat, n: nat)
    requires table == Digits() && v < Pow16(n)
    ensures Reads(Numeral(table, v, n), v)
    decreases n
  {
    if n > 0 {
      var q, r := FirstDigit(table, v, n);
      NumeralReads(table, r, n - 1);
      NumeralFirst(table, q, r, n, Numeral(table, r, n - 1), Numeral(table, v, n));
    }
  }

  /** The text is a hexadecimal numeral of v without NUL. */
  predicate Reads(s: seq<byte>, v: nat) {
    IsHex(s) && 0 !in s && FromHex(s) == v
  }

  lemma FirstDigit(table: seq<byte>, v: nat, n: nat) returns (q: nat, r: nat)
    requires |table| == 16 && n > 0 && v < Pow16(n)
    ensures q < 16 && r < Pow16(n - 1) && v == q * Pow16(n - 1) + r
    ensures q == v / Pow16(n - 1) && r == v % Pow16(n - 1)
    ensures Numeral(table, v, n) == [table[q]] + Numeral(table, r, n - 1)
  {
    Quotient(v, n);
    q, r := v / Pow16(n - 1), v % Pow16(n - 1);
  }

  lemma NumeralFirst(table: seq<byte>, q: nat, r: nat, n: nat, rest: seq<byte>, s: seq<byte>)
    requires table == Digits() && n > 0 && q < 16 && |rest| == n - 1 && s == [table[q]] + rest
    requires Reads(rest, r)
    ensures Reads(s, q * Pow16(n - 1) + r)
  {
    assert s[0] == Digit(q) && s[1..] == rest && Value(Digit(q)) == q;
  }

  lemma Sixteenfold(a: nat, b: nat)
    ensures 16 * (a * b) == (16 * a) * b
  {
  }

  lemma {:induction false} Pow16Sum(a: nat, b: nat)
    ensures Pow16(a + b) == Pow16(a) * Pow16(b)
  {
    if a > 0 {
      Pow16Sum(a - 1, b);
      Sixteenfold(Pow16(a - 1), Pow16(b));
    }
  }

  lemma ScaleSum(q: nat, b: nat, r: nat, a: nat)
    ensures (q * b + r) * a == q * (b * a) + r * a
  {
    assert (q * b) * a == q * (b * a);
  }

  lemma ScaleLess(r: nat, b: nat, a: nat)
    requires r < b && a > 0
    ensures 0 <= r * a < b * a
  {
    AtLeastOnce(b - r, a);
    assert (b - r) * a == b * a - r * a;
  }

  lemma Scale(x: nat, a: nat, b: nat)
    requires a > 0 && b > 0
    ensures b * a > 0 && (x * a) / (b * a) == x / b && (x * a) % (b * a) == (x % b) * a
  {
    var q, r := x / b, x % b;
    assert x == q * b + r;
    ScaleSum(q, b, r, a);
    ScaleLess(r, b, a);
    DivMod(x * a, b * a, q, r * a);
  }

  lemma Powers()
    ensures Pow16(0) == 1 && Pow16(1) == 16 && Pow16(7) == 0x1000_0000 && Pow16(8) == U32
  {
    assert Pow16(4) == 0x1_0000;
  }

  /** With the value's low n digits at the top of the register, the top nibble is the next digit. */
  lemma TopNibble(v: nat, n: nat, s: nat)
    requires 1 <= n <= 8 && v < Pow16(n) && s == v * Pow16(8 - n)
    ensures s < U32 && s / 0x1000_0000 == v / Pow16(n - 1)
    ensures s * 16 % U32 == (v % Pow16(n - 1)) * Pow16(8 - (n - 1))
  {
    Powers();
    var a := Pow16(8 - n);
    Pow16Sum(n - 1, 8 - n);
    Pow16Sum(n, 8 - n);
    Pow16Sum(n - 1, 9 - n);
    assert v * a < Pow16(n) * a;
    Scale(v, a, Pow16(n - 1));
    Scale(v, 16 * a, Pow16(n - 1));
    assert s * 16 == v * (16 * a);
    assert 8 - (n - 1) == 9 - n && Pow16(9 - n) == 16 * a;
  }
}
