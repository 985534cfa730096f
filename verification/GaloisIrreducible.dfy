/** Declared Galois types that are fields: their polynomials have no factor of at most half the degree. */
module GaloisIrreducible {
  import opened Bits
  import opened BinaryPolynomials
  import opened GaloisField

  /** `x^9 + x^4 + x^3 + x + 1`. */
  const GF9 := Field(9, 0x21B)
  /** `x^8 + x^4 + x^3 + x + 1`, section 4.2 of FIPS 197. */
  const GF8 := Field(8, 0x11B)
  /** `x^3 + x + 1`. */
  const GF3 := Field(3, 0xB)
  /** `x`. */
  const GF2 := Field(1, 0x2)

  /** The coefficient of `x^k`. */
  predicate On(a: nat, k: int) { k >= 0 && BitOf(a, k) == 1 }

  lemma {:induction false} OnXor(a: nat, b: nat, k: int)
    ensures On(Xor(a, b), k) <==> On(a, k) != On(b, k)
    decreases k
  {
    if k > 0 {
      OnXor(a / 2, b / 2, k - 1);
      XorHalf(a, b);
    }
  }

  lemma OnDouble(a: nat, k: int)
    ensures On(2 * a, k) <==> On(a, k - 1)
  {
  }

  lemma {:induction false} OnZero(k: int)
    ensures !On(0, k)
    decreases k
  {
    if k > 0 { OnZero(k - 1); }
  }

  /** A column of the schoolbook product, one row at a time. */
  lemma OnMul(a: nat, b: nat, k: int)
    ensures On(ClMul(a, b), k) <==> (On(b, 0) && On(a, k)) != On(ClMul(a, b / 2), k - 1)
  {
    hide Xor, ClMul;
    MulUnfold(a, b);
    OnXor(Head(a, b), 2 * ClMul(a, b / 2), k);
    OnDouble(ClMul(a, b / 2), k);
    OnZero(k);
  }

  lemma OnHalf(b: nat, k: nat)
    ensures On(b / 2, k) <==> On(b, k + 1)
  {
  }

  /** The sum of products `b_i * a_(k-i)`. */
  predicate Sum(b: (bool, bool, bool, bool, bool), a0: bool, a1: bool, a2: bool, a3: bool, a4: bool)
  {
    (b.0 && a0) != ((b.1 && a1) != ((b.2 && a2) != ((b.3 && a3) != (b.4 && a4))))
  }

  function Five(b: nat): (r: (bool, bool, bool, bool, bool)) { (On(b, 0), On(b, 1), On(b, 2), On(b, 3), On(b, 4)) }

  /** A column of the product with a polynomial of degree at most 4. */
  lemma Column(a: nat, b: nat, k: int)
    requires b < 32
    ensures On(ClMul(a, b), k) <==> Sum(Five(b), On(a, k), On(a, k - 1), On(a, k - 2), On(a, k - 3), On(a, k - 4))
  {
    hide ClMul, On;
    var b1, b2, b3, b4 := b / 2, b / 2 / 2, b / 2 / 2 / 2, b / 2 / 2 / 2 / 2;
    OnMul(a, b, k);
    OnMul(a, b1, k - 1);
    OnMul(a, b2, k - 2);
    OnMul(a, b3, k - 3);
    OnMul(a, b4, k - 4);
    MulZero(a);
    OnZero(k - 5);
    OnHalf(b, 0); OnHalf(b, 1); OnHalf(b, 2); OnHalf(b, 3);
    OnHalf(b1, 0); OnHalf(b1, 1); OnHalf(b1, 2);
    OnHalf(b2, 0); OnHalf(b2, 1);
    OnHalf(b3, 0);
  }

  lemma {:induction false} OnAbove(a: nat, k: int)
    requires BitLength(a) <= k
    ensures !On(a, k)
  {
    if k == 0 { } else { OnAbove(a / 2, k - 1); }
  }

  lemma OnBelow(a: nat)
    ensures !On(a, -1) && !On(a, -2) && !On(a, -3) && !On(a, -4)
  {
  }

  lemma OnlyOne(b: nat)
    requires b < 32 && !On(b, 1) && !On(b, 2) && !On(b, 3) && !On(b, 4)
    ensures b <= 1
  {
  }

  /** The equations for the coefficients of a factorisation of 0x11B have only the trivial solution. */
  lemma Unsolvable8(b: (bool, bool, bool, bool, bool), a0: bool, a1: bool, a2: bool, a3: bool, a4: bool, a5: bool, a6: bool, a7: bool, a8: bool)
    requires Sum(b, a0, false, false, false, false) && Sum(b, a1, a0, false, false, false) && !Sum(b, a2, a1, a0, false, false)
    requires Sum(b, a3, a2, a1, a0, false) && Sum(b, a4, a3, a2, a1, a0) && !Sum(b, a5, a4, a3, a2, a1)
    requires !Sum(b, a6, a5, a4, a3, a2) && !Sum(b, a7, a6, a5, a4, a3) && Sum(b, a8, a7, a6, a5, a4)
    requires !Sum(b, false, a8, a7, a6, a5) && !Sum(b, false, false, a8, a7, a6) && !Sum(b, false, false, false, a8, a7)
    requires !Sum(b, false, false, false, false, a8)
    ensures !b.1 && !b.2 && !b.3 && !b.4
  {
  }

  lemma NoFactor8(a: nat, b: nat)
    requires b < 32 && BitLength(a) <= 9 && ClMul(a, b) == 0x11B
    ensures b <= 1
  {
    Coefficients8();
    hide ClMul, On, BitLength, Sum, Five;
    OnBelow(a);
    Column(a, b, 0); Column(a, b, 1); Column(a, b, 2); Column(a, b, 3); Column(a, b, 4); Column(a, b, 5);
    Column(a, b, 6); Column(a, b, 7); Column(a, b, 8); Column(a, b, 9); Column(a, b, 10); Column(a, b, 11);
    Column(a, b, 12);
    OnAbove(a, 9); OnAbove(a, 10); OnAbove(a, 11); OnAbove(a, 12);
    Unsolvable8(Five(b), On(a, 0), On(a, 1), On(a, 2), On(a, 3), On(a, 4), On(a, 5), On(a, 6), On(a, 7), On(a, 8));
    FiveIs(b);
    OnlyOne(b);
  }

  lemma Coefficients8()
    ensures On(0x11B, 0) && On(0x11B, 1) && !On(0x11B, 2) && On(0x11B, 3) && On(0x11B, 4) && !On(0x11B, 5) && !On(0x11B, 6)
    ensures !On(0x11B, 7) && On(0x11B, 8) && !On(0x11B, 9) && !On(0x11B, 10) && !On(0x11B, 11) && !On(0x11B, 12)
  {
  }

  /** The equations for the coefficients of a factorisation of 0x21B have only the trivial solution. */
  lemma Unsolvable9(b: (bool, bool, bool, bool, bool), a0: bool, a1: bool, a2: bool, a3: bool, a4: bool, a5: bool, a6: bool, a7: bool, a8: bool, a9: bool)
    requires Sum(b, a0, false, false, false, false) && Sum(b, a1, a0, false, false, false) && !Sum(b, a2, a1, a0, false, false)
    requires Sum(b, a3, a2, a1, a0, false) && Sum(b, a4, a3, a2, a1, a0) && !Sum(b, a5, a4, a3, a2, a1)
    requires !Sum(b, a6, a5, a4, a3, a2) && !Sum(b, a7, a6, a5, a4, a3) && !Sum(b, a8, a7, a6, a5, a4)
    requires Sum(b, a9, a8, a7, a6, a5) && !Sum(b, false, a9, a8, a7, a6) && !Sum(b, false, false, a9, a8, a7)
    requires !Sum(b, false, false, false, a9, a8) && !Sum(b, false, false, false, false, a9)
    ensures !b.1 && !b.2 && !b.3 && !b.4
  {
  }

  lemma NoFactor9(a: nat, b: nat)
    requires b < 32 && BitLength(a) <= 10 && ClMul(a, b) == 0x21B
    ensures b <= 1
  {
    Coefficients9();
    hide ClMul, On, BitLength, Sum, Five;
    OnBelow(a);
    Column(a, b, 0); Column(a, b, 1); Column(a, b, 2); Column(a, b, 3); Column(a, b, 4); Column(a, b, 5);
    Column(a, b, 6); Column(a, b, 7); Column(a, b, 8); Column(a, b, 9); Column(a, b, 10); Column(a, b, 11);
    Column(a, b, 12); Column(a, b, 13);
    OnAbove(a, 10); OnAbove(a, 11); OnAbove(a, 12); OnAbove(a, 13);
    Unsolvable9(Five(b), On(a, 0), On(a, 1), On(a, 2), On(a, 3), On(a, 4), On(a, 5), On(a, 6), On(a, 7), On(a, 8), On(a, 9));
    FiveIs(b);
    OnlyOne(b);
  }

  lemma Coefficients9()
    ensures On(0x21B, 0) && On(0x21B, 1) && !On(0x21B, 2) && On(0x21B, 3) && On(0x21B, 4) && !On(0x21B, 5) && !On(0x21B, 6)
    ensures !On(0x21B, 7) && !On(0x21B, 8) && On(0x21B, 9) && !On(0x21B, 10) && !On(0x21B, 11) && !On(0x21B, 12) && !On(0x21B, 13)
  {
  }

  /** The equations for the coefficients of a factorisation of 0xB have only the trivial solution. */
  lemma Unsolvable3(b: (bool, bool, bool, bool, bool), a0: bool, a1: bool, a2: bool, a3: bool)
    requires Sum(b, a0, false, false, false, false) && Sum(b, a1, a0, false, false, false) && !Sum(b, a2, a1, a0, false, false)
    requires Sum(b, a3, a2, a1, a0, false) && !Sum(b, false, a3, a2, a1, a0) && !Sum(b, false, false, a3, a2, a1)
    requires !Sum(b, false, false, false, a3, a2) && !Sum(b, false, false, false, false, a3)
    requires !b.2 && !b.3 && !b.4
    ensures !b.1
  {
  }

  lemma NoFactor3(a: nat, b: nat)
    requires b < 4 && BitLength(a) <= 4 && ClMul(a, b) == 0xB
    ensures b <= 1
  {
    Coefficients3();
    assert !On(b, 2) && !On(b, 3) && !On(b, 4) by { Small(b); }
    hide ClMul, On, BitLength, Sum, Five;
    OnBelow(a);
    Column(a, b, 0); Column(a, b, 1); Column(a, b, 2); Column(a, b, 3); Column(a, b, 4); Column(a, b, 5);
    Column(a, b, 6); Column(a, b, 7);
    OnAbove(a, 4); OnAbove(a, 5); OnAbove(a, 6); OnAbove(a, 7);
    FiveIs(b);
    Unsolvable3(Five(b), On(a, 0), On(a, 1), On(a, 2), On(a, 3));
    FiveIs(b);
    OnlyOne(b);
  }

  lemma Coefficients3()
    ensures On(0xB, 0) && On(0xB, 1) && !On(0xB, 2) && On(0xB, 3) && !On(0xB, 4) && !On(0xB, 5) && !On(0xB, 6)
    ensures !On(0xB, 7)
  {
  }

  lemma FiveIs(b: nat)
    ensures Five(b) == (On(b, 0), On(b, 1), On(b, 2), On(b, 3), On(b, 4))
  {
  }

  lemma Small(b: nat)
    requires b < 4
    ensures !On(b, 2) && !On(b, 3) && !On(b, 4)
  {
  }

  lemma {:induction false} ShortIsSmall(x: nat, n: nat)
    requires BitLength(x) <= n
    ensures x < Pow2(n)
  {
    if x > 0 {
      ShortIsSmall(x / 2, n - 1);
    }
  }

  /** In a factorisation the shorter factor has at most half the length; if it must be 1, there is none. */
  lemma ShorterFactor(d: nat, e: nat) returns (small: nat, large: nat)
    requires ClMul(d, e) > 0
    ensures (small, large) == (d, e) || (small, large) == (e, d)
    ensures small > 0 && large > 0 && ClMul(large, small) == ClMul(d, e)
    ensures 2 * BitLength(small) <= BitLength(ClMul(d, e)) + 1 && BitLength(large) <= BitLength(ClMul(d, e))
  {
    hide ClMul;
    MulZero(d);
    MulZero(e);
    BitLengthMul(d, e);
    MulCommutes(d, e);
    if BitLength(d) <= BitLength(e) {
      small, large := d, e;
    } else {
      small, large := e, d;
    }
  }

  lemma Gf8IsField()
    ensures IsParameters(GF8) && IsField(GF8)
  {
    Gf8IsIrreducible();
    FieldIffIrreducible(GF8);
  }

  lemma Gf8IsIrreducible()
    ensures IsParameters(GF8) && IsIrreducible(Modulus(GF8))
  {
    hide ClMul;
    assert BitLength(0x11B) == 9;
    Unshifted(0x11B);
    forall d: nat, e: nat | ClMul(d, e) == 0x11B ensures d == 1 || e == 1 {
      var small, large := ShorterFactor(d, e);
      ShortIsSmall(small, 5);
      assert Pow2(5) == 32;
      NoFactor8(large, small);
    }
  }

  lemma Gf9IsField()
    ensures IsParameters(GF9) && IsField(GF9)
  {
    Gf9IsIrreducible();
    FieldIffIrreducible(GF9);
  }

  lemma Gf9IsIrreducible()
    ensures IsParameters(GF9) && IsIrreducible(Modulus(GF9))
  {
    hide ClMul;
    assert BitLength(0x21B) == 10;
    Unshifted(0x21B);
    forall d: nat, e: nat | ClMul(d, e) == 0x21B ensures d == 1 || e == 1 {
      var small, large := ShorterFactor(d, e);
      ShortIsSmall(small, 5);
      assert Pow2(5) == 32;
      NoFactor9(large, small);
    }
  }

  lemma Gf3IsField()
    ensures IsParameters(GF3) && IsField(GF3)
  {
    Gf3IsIrreducible();
    FieldIffIrreducible(GF3);
  }

  lemma Gf3IsIrreducible()
    ensures IsParameters(GF3) && IsIrreducible(Modulus(GF3))
  {
    hide ClMul;
    assert BitLength(0xB) == 4;
    Unshifted(0xB);
    forall d: nat, e: nat | ClMul(d, e) == 0xB ensures d == 1 || e == 1 {
      var small, large := ShorterFactor(d, e);
      ShortIsSmall(small, 2);
      assert Pow2(2) == 4;
      NoFactor3(large, small);
    }
  }

  lemma Gf2IsField()
    ensures IsParameters(GF2) && IsField(GF2)
  {
    Gf2IsIrreducible();
    FieldIffIrreducible(GF2);
  }

  lemma Gf2IsIrreducible()
    ensures IsParameters(GF2) && IsIrreducible(Modulus(GF2))
  {
    hide ClMul;
    assert BitLength(2) == 2;
    Unshifted(2);
    forall d: nat, e: nat | ClMul(d, e) == 2 ensures d == 1 || e == 1 {
      var small, large := ShorterFactor(d, e);
      ShortIsSmall(small, 1);
      assert Pow2(1) == 2;
    }
  }
}
