/** Declared Galois types that are not fields, although the documentation says all are. */
module GaloisTypes {
  import opened Bits
  import opened BinaryPolynomials
  import opened GaloisField

  /** `x^40 + x^5 + x^3 + x^2 + 1`. */
  const GF40 := Field(40, 0x100_0000_002D)
  /** The literal has degree 19: `x^19 + x^7 + x^3 + x^2 + 1`. */
  const GF20 := Field(20, 0x8_008D)
  /** `x^5 + x^4 + x^3 + x^2 + x + 1`. */
  const GF5 := Field(5, 0x3F)

  /** One column of an xor. */
  lemma {:induction false} XorColumn(a: nat, b: nat, x: nat, y: nat)
    requires x < 2 && y < 2
    ensures Xor(2 * a + x, 2 * b + y) == 2 * Xor(a, b) + (x + y) % 2
  {
  }

  lemma {:induction false} LowBitsFree(b: nat, k: nat, low: nat)
    requires low < Pow2(k)
    ensures Xor(Shl(b, k), low) == Shl(b, k) + low
  {
    if k == 0 {
      XorZero(b);
    } else {
      assert Shl(b, k) == 2 * Shl(b, k - 1) && low / 2 < Pow2(k - 1);
      hide Xor, Shl, Pow2;
      LowBitsFree(b, k - 1, low / 2);
      XorColumn(Shl(b, k - 1), low / 2, 0, low % 2);
      assert low == 2 * (low / 2) + low % 2;
    }
  }

  lemma {:induction false} LeadingTerm(k: nat, low: nat)
    requires low < Pow2(k)
    ensures Shl(1, k) + low == Xor(Shl(1, k), low) && BitLength(Shl(1, k) + low) == k + 1
  {
    hide Xor, Shl;
    LowBitsFree(1, k, low);
    BitLengthShl(1, k);
    BitLengthXor(Shl(1, k), low);
    ShortIfSmall(low, k);
  }

  lemma {:induction false} ShortIfSmall(x: nat, k: nat)
    requires x < Pow2(k)
    ensures BitLength(x) <= k
  {
    if x > 0 {
      ShortIfSmall(x / 2, k - 1);
    }
  }

  lemma {:induction false} Powers()
    ensures Shl(1, 5) == 32 == Pow2(5) && Shl(1, 19) == 0x8_0000 == Pow2(19) && Shl(1, 40) == 0x100_0000_0000 == Pow2(40)
  {
    ShlIsPow2(5);
    ShlIsPow2(19);
    ShlIsPow2(40);
    hide Pow2, Shl;
    ShlFive(1);
    ShlShl(1, 5, 5);
    ShlFive(0x20);
    ShlShl(1, 10, 5);
    ShlFive(0x400);
    ShlShl(1, 15, 4);
    ShlFive(0x8000);
    ShlShl(1, 15, 5);
    ShlFive(0x10_0000);
    ShlShl(1, 20, 5);
    ShlFive(0x200_0000);
    ShlShl(1, 25, 5);
    ShlFive(0x4000_0000);
    ShlShl(1, 30, 5);
    ShlFive(0x8_0000_0000);
    ShlShl(1, 35, 5);
  }

  lemma ShlFive(a: nat)
    ensures Shl(a, 4) == 16 * a && Shl(a, 5) == 32 * a
  {
    assert Shl(a, 1) == 2 * a;
    assert Shl(a, 2) == 4 * a;
    assert Shl(a, 3) == 8 * a;
    assert Shl(a, 4) == 16 * a;
  }

  lemma {:induction false} ShlIsPow2(k: nat)
    ensures Shl(1, k) == Pow2(k)
  {
    if k > 0 { ShlIsPow2(k - 1); }
  }

  lemma {:induction false} MulByThree(a: nat)
    ensures ClMul(a, 3) == Xor(a, 2 * a)
  {
    hide Xor;
    MulOne(a);
    MulUnfold(a, 3);
  }

  /** `63 == 3 * 21`: the polynomial has the root 1. */
  lemma {:induction false} Gf5IsNotField()
    ensures IsParameters(GF5) && IsElement(GF5, 0x3) && !HasInverse(GF5, 0x3)
  {
    hide Xor, ClMul, HasInverse, Shl, Rem;
    assert BitLength(0x3F) == 6 && BitLength(0x3) == 2;
    Unshifted(0x3F);
    MulByThree(21);
    XorColumn(10, 21, 1, 0);
    XorColumn(5, 10, 0, 1);
    XorColumn(2, 5, 1, 0);
    XorColumn(1, 2, 0, 1);
    XorColumn(0, 1, 1, 0);
    XorZero(1);
    MulCommutes(21, 3);
    FactorHasNoInverse(GF5, 0x3, 21);
  }

  /** Shifting the literal to degree 20 multiplies it by `x`. */
  lemma {:induction false} Gf20IsNotField()
    ensures IsParameters(GF20) && IsElement(GF20, 0x2) && !HasInverse(GF20, 0x2)
  {
    hide Xor, ClMul, HasInverse, Rem, Pow2;
    Powers();
    LeadingTerm(19, 0x8D);
    Unshifted(0x8_008D);
    MulOne(0x8_008D);
    MulDoubleLeft(1, 0x8_008D);
    FactorHasNoInverse(GF20, 0x2, 0x8_008D);
  }

  /** `d` divides `x^7 + 1`, so shifting by 7 does nothing modulo `d`. */
  lemma {:induction false} ShiftBySeven(y: nat)
    ensures Rem(Shl(y, 7), 0xD) == Rem(y, 0xD)
  {
    hide Xor, ClMul, Rem, BitLength;
    // (x^4 + x^3 + x^2 + 1) * (x^3 + x^2 + 1) == x^7 + 1
    assert ClMul(29, 13) == 129 by {
      MulOne(29);
      MulUnfold(29, 13);
      MulUnfold(29, 6);
      MulUnfold(29, 3);
      SmallXors();
    }
    var multiple := ClMul(ClMul(y, 29), 13);
    assert multiple == Xor(Shl(y, 7), y) by {
      MulAssociates(y, 29, 13);
      LowBitsFree(1, 7, 1);
      MulDistributesRight(y, Shl(1, 7), 1);
      ShlIsMul(y, 7);
      MulCommutes(y, Shl(1, 7));
      MulOne(y);
    }
    MultipleIsDivisible(ClMul(y, 29), 13);
    RemXor(Shl(y, 7), y, 13);
    XorZeroMeansEqual(Rem(Shl(y, 7), 13), Rem(y, 13));
  }

  lemma {:induction false} SmallXors()
    ensures Xor(29, 58) == 39 && Xor(0, 78) == 78 && Xor(29, 156) == 129
  {
    hide Xor;
    XorZero(78);
    XorZero(1);
    XorZero(3);
    XorZero(4);
    XorColumn(14, 29, 1, 0); XorColumn(7, 14, 0, 1); XorColumn(3, 7, 1, 0); XorColumn(1, 3, 1, 1); XorColumn(0, 1, 1, 1);
    XorColumn(14, 78, 1, 0); XorColumn(7, 39, 0, 0); XorColumn(3, 19, 1, 1); XorColumn(1, 9, 1, 1); XorColumn(0, 4, 1, 1);
  }

  /** `x^40 + x^5` is a multiple of `d == x^3 + x^2 + 1`, because `x^35 == 1` modulo `d`; adding `d` gives the polynomial. */
  lemma {:induction false} Gf40Divisible()
    ensures Rem(0x100_0000_002D, 0xD) == 0 && BitLength(0x100_0000_002D) == 41
  {
    hide Xor, ClMul, Rem, Quotient, Shl, Pow2, BitLength;
    Powers();
    LeadingTerm(40, 45);
    LeadingTerm(5, 13);
    ShlShl(1, 33, 7); ShlShl(1, 26, 7); ShlShl(1, 19, 7); ShlShl(1, 12, 7); ShlShl(1, 5, 7);
    ShiftBySeven(Shl(1, 33)); ShiftBySeven(Shl(1, 26)); ShiftBySeven(Shl(1, 19)); ShiftBySeven(Shl(1, 12)); ShiftBySeven(Shl(1, 5));
    MulOne(13);
    MultipleIsDivisible(1, 13);
    RemXor(32, 13, 13);
    RemXor(Shl(1, 40), 45, 13);
    XorZero(Rem(32, 13));
    XorSelf(Rem(32, 13));
  }

  lemma {:induction false} Gf40IsNotField()
    ensures IsParameters(GF40) && IsElement(GF40, 0xD) && !HasInverse(GF40, 0xD)
  {
    hide Xor, ClMul, HasInverse, Rem, Quotient, Shl, BitLength;
    var m := 0x100_0000_002D;
    Gf40Divisible();
    DivisionLaw(m, 13);
    var q := Quotient(m, 13);
    XorZero(ClMul(q, 13));
    MulCommutes(q, 13);
    Unshifted(m);
    assert q != 1 by { MulOne(13); }
    FactorHasNoInverse(GF40, 0xD, q);
  }
}
