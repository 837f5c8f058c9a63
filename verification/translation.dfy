/** The translation table base register: which of its bits say where the tables are. */
module Translation {
  import opened Bytes
  import opened Bitwise

  /** The translation base the driver compares: ttbr with its low 14 bits masked away. */
  function Base(ttbr: word): nat {
    ttbr / 0x4000
  }

  lemma BasePowers()
    ensures Pow2(14) == 0x4000 && Pow2(18) == 0x4_0000
  {
    assert Pow2(8) == 256;
  }

  lemma DigitOfBase(a: word, i: nat)
    ensures Digit(a, 14 + i) == Digit(Base(a), i)
  {
    BasePowers();
    DigitSplit(a % 0x4000, Base(a), 14, 14 + i);
  }

  predicate Agree(a: nat, b: nat, i: nat) {
    Digit(a, i) == Digit(b, i)
  }

  lemma AgreeHigher(a: word, b: word, i: nat)
    ensures Agree(a, b, 14 + i) <==> Agree(Base(a), Base(b), i)
  {
    DigitOfBase(a, i);
    DigitOfBase(b, i);
  }

  /** Two translation bases are the same exactly if they agree in every bit from 14 up. */
  lemma BasesAgreeIff(a: word, b: word)
    ensures Base(a) == Base(b) <==> forall i | 14 <= i < 32 :: Agree(a, b, i)
  {
    if Base(a) == Base(b) {
      forall i | 14 <= i < 32 ensures Agree(a, b, i) {
        AgreeHigher(a, b, i - 14);
      }
    }
    if forall i | 14 <= i < 32 :: Agree(a, b, i) {
      forall i | 0 <= i < 18 ensures Digit(Base(a), i) == Digit(Base(b), i) {
        assert Agree(a, b, 14 + i);
        AgreeHigher(a, b, i);
      }
      BasePowers();
      DigitsDetermine(Base(a), Base(b), 18);
    }
  }
}
