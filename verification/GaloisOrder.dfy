/** The 32-bit Galois type is a field.  A proper factor of its polynomial would have at most 2^16
    residues; but there is an element of prime order 65537 modulo every factor. */
module GaloisOrder {
  import opened Sets
  import opened Bits
  import opened BinaryPolynomials
  import opened GaloisField
  import opened GaloisTypes
  import opened GaloisIrreducible
  import opened GaloisWords

  /** `x^32 + x^7 + x^3 + x^2 + 1`. */
  const GF32 := Field(32, 0x1_0000_008D)

  // ---------------------------------------------------------------- powers modulo a polynomial

  function Pow(g: nat, n: nat, f: nat): (r: nat)
    requires f > 0
  {
    if n == 0 then Rem(1, f) else Rem(ClMul(Pow(g, n - 1, f), g), f)
  }

  lemma PowIsResidue(g: nat, n: nat, f: nat)
    requires f > 0
    ensures BitLength(Pow(g, n, f)) < BitLength(f) && Rem(Pow(g, n, f), f) == Pow(g, n, f)
  {
    hide ClMul, Rem, Quotient;
    if n == 0 {
      DivisionLaw(1, f);
    } else {
      DivisionLaw(ClMul(Pow(g, n - 1, f), g), f);
    }
    RemOfSmall(Pow(g, n, f), f);
  }

  lemma RemMulLeft(a: nat, b: nat, f: nat)
    requires f > 0
    ensures Rem(ClMul(Rem(a, f), b), f) == Rem(ClMul(a, b), f)
  {
    hide ClMul, Rem;
    MulCommutes(Rem(a, f), b);
    RemMul(b, a, f);
    MulCommutes(b, a);
  }

  lemma {:induction false} PowAdd(g: nat, a: nat, b: nat, f: nat)
    requires f > 0
    ensures Rem(ClMul(Pow(g, a, f), Pow(g, b, f)), f) == Pow(g, a + b, f)
    decreases b
  {
    hide ClMul, Rem;
    var p := Pow(g, a, f);
    if b == 0 {
      RemMul(p, 1, f);
      MulOne(p);
      PowIsResidue(g, a, f);
    } else {
      var q := Pow(g, b - 1, f);
      PowAdd(g, a, b - 1, f);
      RemMulLeft(ClMul(p, q), g, f);
      MulAssociates(p, q, g);
      RemMul(p, ClMul(q, g), f);
    }
  }

  lemma RemRem(x: nat, f: nat, e: nat)
    requires f > 0 && ClMul(e, f) > 0
    ensures Rem(Rem(x, ClMul(e, f)), f) == Rem(x, f)
  {
    hide ClMul, Rem, Quotient, Xor;
    var m := ClMul(e, f);
    DivisionLaw(x, m);
    var q, r := Quotient(x, m), Rem(x, m);
    RemXor(ClMul(q, m), r, f);
    MulAssociates(q, e, f);
    MultipleIsDivisible(ClMul(q, e), f);
    XorZero(Rem(r, f));
  }

  /** Powers modulo a multiple of `f` are powers modulo `f`. */
  lemma {:induction false} PowModFactor(g: nat, n: nat, f: nat, e: nat)
    requires f > 0 && ClMul(e, f) > 0
    ensures Rem(Pow(g, n, ClMul(e, f)), f) == Pow(g, n, f)
  {
    hide ClMul, Rem;
    var m := ClMul(e, f);
    if n == 0 {
      RemRem(1, f, e);
    } else {
      PowModFactor(g, n - 1, f, e);
      var p := Pow(g, n - 1, m);
      RemRem(ClMul(p, g), f, e);
      RemMulLeft(p, g, f);
    }
  }

  // ---------------------------------------------------------------- orders

  /** `Pow(g, n, f)` is one, with the exponents up to `n` shifted by `d`. */
  lemma PowShift(g: nat, n: nat, d: nat, f: nat)
    requires BitLength(f) >= 2 && Pow(g, d, f) == 1
    ensures Pow(g, n + d, f) == Pow(g, n, f)
  {
    hide ClMul, Rem;
    PowAdd(g, n, d, f);
    MulOne(Pow(g, n, f));
    PowIsResidue(g, n, f);
  }

  /** `d` is the order of `g`. */
  ghost predicate IsOrder(g: nat, d: nat, f: nat)
    requires f > 0
  {
    d > 0 && Pow(g, d, f) == 1 && forall k: nat :: 0 < k < d ==> Pow(g, k, f) != 1
  }

  lemma {:induction false} HasOrder(g: nat, n: nat, f: nat) returns (d: nat)
    requires f > 0 && n > 0 && Pow(g, n, f) == 1
    ensures d <= n && IsOrder(g, d, f)
  {
    hide Pow;
    if k: nat :| 0 < k < n && Pow(g, k, f) == 1 {
      d := HasOrder(g, k, f);
    } else {
      d := n;
    }
  }

  lemma {:induction false} OrderDivides(g: nat, d: nat, n: nat, f: nat) returns (q: nat)
    requires BitLength(f) >= 2 && IsOrder(g, d, f) && Pow(g, n, f) == 1
    ensures n == q * d
    decreases n
  {
    hide Pow;
    if n == 0 {
      q := 0;
    } else {
      assert n >= d;
      PowShift(g, n - d, d, f);
      var q' := OrderDivides(g, d, n - d, f);
      q := q' + 1;
    }
  }

  /** Below the order all powers differ. */
  lemma PowersDiffer(g: nat, d: nat, i: nat, j: nat, f: nat)
    requires BitLength(f) >= 2 && IsOrder(g, d, f) && i < j < d
    ensures Pow(g, i, f) != Pow(g, j, f)
  {
    hide Pow, ClMul, Rem;
    PowAdd(g, i, d - j, f);
    PowAdd(g, j, d - j, f);
    assert Pow(g, i + (d - j), f) != 1;
  }

  // ---------------------------------------------------------------- counting

  ghost function Powers(g: nat, n: nat, f: nat): (r: set<nat>)
    requires f > 0
  {
    if n == 0 then {} else Powers(g, n - 1, f) + {Pow(g, n - 1, f)}
  }

  lemma {:induction false} PowersAre(g: nat, n: nat, f: nat, x: nat) returns (i: nat)
    requires f > 0 && x in Powers(g, n, f)
    ensures i < n && x == Pow(g, i, f)
  {
    hide Pow;
    if x == Pow(g, n - 1, f) {
      i := n - 1;
    } else {
      i := PowersAre(g, n - 1, f, x);
    }
  }

  lemma {:induction false} PowersCount(g: nat, n: nat, d: nat, f: nat)
    requires BitLength(f) >= 2 && IsOrder(g, d, f) && n <= d
    ensures |Powers(g, n, f)| == n
  {
    hide Pow;
    if n > 0 {
      PowersCount(g, n - 1, d, f);
      if Pow(g, n - 1, f) in Powers(g, n - 1, f) {
        var i := PowersAre(g, n - 1, f, Pow(g, n - 1, f));
        PowersDiffer(g, d, i, n - 1, f);
      }
    }
  }

  /** There are no more powers than residues. */
  lemma OrderIsBounded(g: nat, d: nat, f: nat, k: nat)
    requires 2 <= BitLength(f) <= k + 1 && IsOrder(g, d, f)
    ensures d <= Pow2(k)
  {
    hide Pow;
    PowersCount(g, d, d, f);
    forall x | x in Powers(g, d, f)
      ensures x in Range(Pow2(k))
    {
      var i := PowersAre(g, d, f, x);
      PowIsResidue(g, i, f);
      ShortIsSmall(x, k);
    }
    SubsetSize(Powers(g, d, f), Range(Pow2(k)));
  }

  lemma Fermat4IsPrime(p: nat, q: nat)
    requires p * q == 65537
    ensures p == 1 || q == 1
  {
    NoSmallFactor(p, q);
    NoSmallFactor(q, p);
    assert p >= 257 && q >= 257 ==> p * q >= 257 * 257 by { LargeProduct(p, q); }
  }

  lemma NoSmallFactor(p: int, q: int)
    ensures 2 <= p <= 256 ==> p * q != 65537
  {
  }

  lemma LargeProduct(p: int, q: int)
    ensures p >= 257 && q >= 257 ==> p * q >= 257 * 257
  {
    if p >= 257 && q >= 257 {
      assert p * q >= 257 * q;
    }
  }

  lemma Pow2Of16()
    ensures Pow2(16) == 65536
  {
    assert Pow2(8) == 256;
    assert Pow2(12) == 4096;
  }

  lemma PowOne(g: nat, f: nat)
    requires BitLength(f) >= 2
    ensures Pow(g, 1, f) == Rem(g, f)
  {
    hide ClMul, Rem;
    RemMulLeft(1, g, f);
    MulOne(g);
  }

  /** Modulo a polynomial of degree at most 16 only one has an order that divides the prime 65537. */
  lemma OrderIsOne(g: nat, f: nat)
    requires 2 <= BitLength(f) <= 17 && Pow(g, 65537, f) == 1
    ensures Rem(g, f) == 1
  {
    assert f > 0;
    hide Pow, ClMul, Rem, BitLength, Pow2, IsOrder;
    var d := HasOrder(g, 65537, f);
    OrderIsBounded(g, d, f, 16);
    Pow2Of16();
    var q := OrderDivides(g, d, 65537, f);
    ProperDivisor(q, d);
    OrderOne(g, d, f);
    PowOne(g, f);
  }

  lemma ProperDivisor(q: nat, d: nat)
    requires q * d == 65537 && d <= 65536
    ensures d == 1
  {
    Fermat4IsPrime(q, d);
  }

  lemma OrderOne(g: nat, d: nat, f: nat)
    requires f > 0 && IsOrder(g, d, f)
    ensures d > 0 && Pow(g, d, f) == 1
  {
  }

  /** So `g + 1` is a multiple of it. */
  lemma NothingInverts(g: nat, h: nat, f: nat)
    requires 2 <= BitLength(f) <= 17 && Pow(g, 65537, f) == 1
    ensures Rem(ClMul(Xor(g, 1), h), f) == 0
  {
    OrderIsOne(g, f);
    RemOfSmall(1, f);
    RemOfSmall(0, f);
    hide Pow, ClMul, Rem, Xor;
    RemXor(g, 1, f);
    XorSelf(1);
    RemMulLeft(Xor(g, 1), h, f);
    MulCommutes(0, h);
    MulZero(h);
  }

  /** The certificate: an element of order dividing 65537 such that one plus it is invertible. */
  lemma Certified(m: nat, g: nat, h: nat, d: nat, e: nat)
    requires BitLength(m) == 33 && Pow(g, 65537, m) == 1 && Rem(ClMul(Xor(g, 1), h), m) == 1
    requires ClMul(d, e) == m
    ensures d == 1 || e == 1
  {
    assert m > 0;
    hide Pow, ClMul, Rem, Xor, BitLength;
    var small, large := ShorterFactor(d, e);
    PowModFactor(g, 65537, small, large);
    RemRem(ClMul(Xor(g, 1), h), small, large);
    SmallLength(small);
    if BitLength(small) >= 2 {
      RemOfSmall(1, small);
      NothingInverts(g, h, small);
    }
  }

  lemma SmallLength(x: nat)
    requires x > 0
    ensures BitLength(x) >= 1 && (BitLength(x) == 1 ==> x == 1) && (BitLength(x) >= 2 ==> BitLength(1) < BitLength(x))
  {
  }

  // ---------------------------------------------------------------- words as polynomials

  /** The polynomial whose coefficients are the bits of a word. */
  function Poly(a: Word): (r: nat)
  {
    HalfShrinks(a);
    if a == 0 then 0 else (if Odd(a) then 1 else 0) + 2 * Poly(Half(a))
  }

  lemma PolyHalves(a: Word)
    ensures Poly(a) / 2 == Poly(Half(a)) && (Poly(a) % 2 == 1 <==> Odd(a)) && Poly(0) == 0
  {
    HalfZero(0);
    hide Half, Odd;
  }

  lemma {:induction false} PolyPlus(a: Word, b: Word)
    ensures Poly(Plus(a, b)) == Xor(Poly(a), Poly(b))
    decreases a
  {
    hide *;
    if a == 0 {
      HalfZero(b);
      PolyHalves(0);
      XorZero(Poly(b));
    } else {
      HalfShrinks(a);
      PolyPlus(Half(a), Half(b));
      PlusHalves(a, b);
    }
  }

  lemma PlusHalves(a: Word, b: Word)
    requires Poly(Plus(Half(a), Half(b))) == Xor(Poly(Half(a)), Poly(Half(b)))
    ensures Poly(Plus(a, b)) == Xor(Poly(a), Poly(b))
  {
    hide *;
    HalfPlus(a, b);
    PolyHalves(a);
    PolyHalves(b);
    PolyHalves(Plus(a, b));
    XorFromHalves(Poly(a), Poly(b), Poly(Plus(a, b)));
  }

  lemma XorFromHalves(x: nat, y: nat, z: nat)
    requires (z % 2 == 1 <==> ((x % 2 == 1) != (y % 2 == 1))) && z / 2 == Xor(x / 2, y / 2)
    ensures z == Xor(x, y)
  {
    hide Xor;
    XorHalf(x, y);
    SumParity(x, y);
    FromHalves(z, Xor(x, y));
  }

  lemma SumParity(x: nat, y: nat)
    ensures (x + y) % 2 == 1 <==> ((x % 2 == 1) != (y % 2 == 1))
  {
  }

  lemma PolyDouble(a: Word)
    requires Within(a, MASK39)
    ensures Poly(Double(a)) == 2 * Poly(a)
  {
    hide Double, Half, Odd, Poly;
    HalfDouble(a);
    PolyHalves(Double(a));
  }

  /** `mask` has at most `n` bits. */
  predicate IsMask(mask: Word, n: nat)
  {
    if n == 0 then mask == 0 else IsMask(Half(mask), n - 1)
  }

  lemma {:induction false} PolyLength(a: Word, mask: Word, n: nat)
    requires Within(a, mask) && IsMask(mask, n)
    ensures BitLength(Poly(a)) <= n
    decreases n
  {
    HalfWithin(a, mask);
    PolyHalves(a);
    hide Poly, Half, Within, Odd;
    if n > 0 {
      PolyLength(Half(a), Half(mask), n - 1);
    }
  }

  lemma MaskFour(mask: Word, mask': Word, n: nat)
    requires IsNext(mask, mask') && IsMask(mask', n)
    ensures IsMask(mask, n + 4)
  {
    Halves(mask);
    hide Half;
    assert IsMask(mask >> 3, n + 1);
    assert IsMask(mask >> 2, n + 2);
    assert IsMask(mask >> 1, n + 3);
  }

  lemma MaskOf32()
    ensures IsMask(MASK32, 32)
  {
    assert IsMask(0, 0);
    assert IsNext(0xF, 0) && IsNext(0xFF, 0xF) && IsNext(0xFFF, 0xFF) && IsNext(0xFFFF, 0xFFF);
    assert IsNext(0xF_FFFF, 0xFFFF) && IsNext(0xFF_FFFF, 0xF_FFFF) && IsNext(0xFFF_FFFF, 0xFF_FFFF) && IsNext(MASK32, 0xFFF_FFFF);
    hide IsMask, IsNext;
    MaskFour(0xF, 0, 0);
    MaskFour(0xFF, 0xF, 4);
    MaskFour(0xFFF, 0xFF, 8);
    MaskFour(0xFFFF, 0xFFF, 12);
    MaskFour(0xF_FFFF, 0xFFFF, 16);
    MaskFour(0xFF_FFFF, 0xF_FFFF, 20);
    MaskFour(0xFFF_FFFF, 0xFF_FFFF, 24);
    MaskFour(MASK32, 0xFFF_FFFF, 28);
  }

  lemma PolyShort(a: Word)
    requires Within(a, MASK32)
    ensures BitLength(Poly(a)) <= 32
  {
    hide *;
    MaskOf32();
    PolyLength(a, MASK32, 32);
  }

  // ---------------------------------------------------------------- the polynomial itself

  lemma Quad(a: Word, b: Word)
    requires Within(a, MASK39) && Within(Double(a), MASK39) && Within(Double(Double(a)), MASK39)
    requires Within(Double(Double(Double(a))), MASK39) && b == Double(Double(Double(Double(a))))
    ensures Poly(b) == 16 * Poly(a)
  {
    hide *;
    PolyDouble(a);
    PolyDouble(Double(a));
    PolyDouble(Double(Double(a)));
    PolyDouble(Double(Double(Double(a))));
  }

  lemma LeadingWord()
    ensures Poly(0x1_0000_0000) == 0x1_0000_0000
  {
    Small1();
    hide Poly;
    Quad(0x1, 0x10);
    Quad(0x10, 0x100);
    Quad(0x100, 0x1000);
    Quad(0x1000, 0x1_0000);
    Quad(0x1_0000, 0x10_0000);
    Quad(0x10_0000, 0x100_0000);
    Quad(0x100_0000, 0x1000_0000);
    Quad(0x1000_0000, 0x1_0000_0000);
  }

  lemma Small1()
    ensures Poly(1) == 1
  {
    assert Half(1) == 0 && Odd(1);
    hide Half, Odd, Poly;
    PolyHalves(1);
  }

  lemma LowWord()
    ensures Poly(0x8D) == 0x8D
  {
    assert Half(0x8D) == 0x46 && Half(0x46) == 0x23 && Half(0x23) == 0x11 && Half(0x11) == 0x8;
    assert Half(0x8) == 0x4 && Half(0x4) == 0x2 && Half(0x2) == 0x1;
    assert Odd(0x8D) && !Odd(0x46) && Odd(0x23) && Odd(0x11) && !Odd(0x8) && !Odd(0x4) && !Odd(0x2);
    hide *;
    Small1();
    PolyHalves(0x8D); PolyHalves(0x46); PolyHalves(0x23); PolyHalves(0x11);
    PolyHalves(0x8); PolyHalves(0x4); PolyHalves(0x2);
  }

  lemma PolyOfM()
    ensures Poly(M) == 0x1_0000_008D && BitLength(Poly(M)) == 33
  {
    assert Plus(0x1_0000_0000, 0x8D) == M;
    Shl32();
    hide *;
    LeadingWord();
    LowWord();
    PolyPlus(0x1_0000_0000, 0x8D);
    ShlIsPow2(32);
    LeadingTerm(32, 0x8D);
  }

  lemma Shl32()
    ensures Shl(1, 32) == 0x1_0000_0000
  {
    hide Shl;
    ShlFive(1);
    ShlShl(1, 4, 4);
    ShlFive(0x10);
    ShlShl(1, 8, 4);
    ShlFive(0x100);
    ShlShl(1, 12, 5);
    ShlFive(0x1000);
    ShlShl(1, 17, 5);
    ShlFive(0x2_0000);
    ShlShl(1, 22, 5);
    ShlFive(0x40_0000);
    ShlShl(1, 27, 5);
    ShlFive(0x800_0000);
  }

  // ---------------------------------------------------------------- multiplication

  /** Doubling stays in the residue class. */
  lemma TwiceIs(r: Word, m: nat)
    requires Within(r, MASK32) && m == Poly(M) && BitLength(m) == 33
    ensures Poly(Twice(r)) == Rem(2 * Poly(r), m)
  {
    TwiceWithin(r);
    assert Twice(r) == Double(r) || Twice(r) == Plus(Double(r), M);
    assert m > 0;
    hide *;
    WithinMore(r);
    PolyShort(Twice(r));
    PolyDouble(r);
    PolyPlus(Double(r), M);
    RemOfSmall(Poly(Twice(r)), m);
    RemXor(2 * Poly(r), m, m);
    MulOne(m);
    MultipleIsDivisible(1, m);
    RemSelf(m);
    XorZero(Rem(2 * Poly(r), m));
  }

  lemma RemSelf(m: nat)
    requires m > 0
    ensures Rem(m, m) == 0
  {
    hide ClMul, Rem;
    MulOne(m);
    MultipleIsDivisible(1, m);
  }

  lemma RemDouble(x: nat, m: nat)
    requires m > 0
    ensures Rem(2 * Rem(x, m), m) == Rem(2 * x, m)
  {
    hide ClMul, Rem;
    RemMul(2, x, m);
    MulDoubleLeft(1, x);
    MulDoubleLeft(1, Rem(x, m));
    MulOne(x);
    MulOne(Rem(x, m));
  }

  /** One row of the schoolbook product, reduced. */
  lemma StepIs(r: Word, a: Word, b: Word, m: nat)
    requires Within(r, MASK32) && Within(a, MASK32) && m == Poly(M) && BitLength(m) == 33
    requires Poly(r) == Rem(ClMul(Poly(a), Poly(Half(b))), m)
    ensures Poly(Step(r, a, b)) == Rem(ClMul(Poly(a), Poly(b)), m)
  {
    var c, head := ClMul(Poly(a), Poly(Half(b))), Head(Poly(a), Poly(b));
    assert m > 0;
    PolyHalves(b);
    assert head == Poly(if Odd(b) then a else 0);
    assert Step(r, a, b) == Plus(Twice(r), if Odd(b) then a else 0);
    PlusWithin(a, a);
    PolyShort(if Odd(b) then a else 0);
    hide *;
    TwiceIs(r, m);
    RemDouble(c, m);
    PolyPlus(Twice(r), if Odd(b) then a else 0);
    RemOfSmall(head, m);
    MulUnfold(Poly(a), Poly(b));
    RemXor(head, 2 * c, m);
    XorCommutes(head, Rem(2 * c, m));
  }

  lemma {:induction false} HornerIs(a: Word, b: Word, m: nat)
    requires Within(a, MASK32) && m == Poly(M) && BitLength(m) == 33
    ensures Within(Horner(a, b), MASK32)
    ensures m > 0 && Poly(Horner(a, b)) == Rem(ClMul(Poly(a), Poly(b)), m)
    decreases b
  {
    assert m > 0;
    assert Horner(a, 0) == 0 && BitLength(0) == 0;
    hide *;
    if b == 0 {
      PlusWithin(a, a);
      PolyHalves(0);
      MulCommutes(Poly(a), 0);
      MulZero(Poly(a));
      RemOfSmall(0, m);
    } else {
      HalfShrinks(b);
      HornerIs(a, Half(b), m);
      StepWithin(Horner(a, Half(b)), a, b);
      StepIs(Horner(a, Half(b)), a, b, m);
      HornerStep(a, b);
    }
  }

  // ---------------------------------------------------------------- the certificate

  lemma Squared(g: nat, n: nat, w: Word, w': Word)
    requires Poly(M) > 0 && Within(w, MASK32) && Horner(w, w) == w' && Pow(g, n, Poly(M)) == Poly(w)
    ensures Pow(g, 2 * n, Poly(M)) == Poly(w')
  {
    hide *;
    PolyOfM();
    HornerIs(w, w, Poly(M));
    PowAdd(g, n, n, Poly(M));
  }

  lemma PowStart(g: nat)
    requires g == Poly(G)
    ensures Poly(M) > 0 && Pow(g, 1, Poly(M)) == g
  {
    assert Within(G, MASK32);
    hide *;
    PolyOfM();
    PolyShort(G);
    RemOfSmall(g, Poly(M));
    PowOne(g, Poly(M));
  }

  lemma PowLow(g: nat)
    requires g == Poly(G)
    ensures Poly(M) > 0 && Pow(g, 256, Poly(M)) == Poly(0x8829_8D1C)
  {
    hide Horner, Pow, Poly;
    PowStart(g);
    SquaresLow();
    Squared(g, 1, 0x4893_E13D, 0xA762_CE80);
    Squared(g, 2, 0xA762_CE80, 0x2E37_B719);
    Squared(g, 4, 0x2E37_B719, 0x58B3_B332);
    Squared(g, 8, 0x58B3_B332, 0x3B64_FAD5);
    Squared(g, 16, 0x3B64_FAD5, 0xCDB7_BCDB);
    Squared(g, 32, 0xCDB7_BCDB, 0xFE6C_B673);
    Squared(g, 64, 0xFE6C_B673, 0x45BA_CFD0);
    Squared(g, 128, 0x45BA_CFD0, 0x8829_8D1C);
  }

  lemma PowHigh(g: nat)
    requires g == Poly(G)
    ensures Poly(M) > 0 && Pow(g, 65536, Poly(M)) == Poly(INVERSE)
  {
    hide Horner, Pow, Poly;
    PowLow(g);
    SquaresHigh();
    Squared(g, 256, 0x8829_8D1C, 0x2313_06AA);
    Squared(g, 512, 0x2313_06AA, 0x36AD_CAE7);
    Squared(g, 1024, 0x36AD_CAE7, 0xE381_0A12);
    Squared(g, 2048, 0xE381_0A12, 0xA6DE_54CC);
    Squared(g, 4096, 0xA6DE_54CC, 0x6FDF_75D9);
    Squared(g, 8192, 0x6FDF_75D9, 0xD813_601A);
    Squared(g, 16384, 0xD813_601A, 0x2A40_9AA2);
    Squared(g, 32768, 0x2A40_9AA2, 0x5438_951E);
  }

  /** `G` has order 65537, and `G + 1` has the inverse `H`. */
  lemma Certificate(m: nat)
    requires m == Poly(M)
    ensures m > 0 && Pow(Poly(G), 65537, m) == 1 && Rem(ClMul(Xor(Poly(G), 1), Poly(H)), m) == 1
  {
    assert Within(INVERSE, MASK32) && Within(Plus(G, 1), MASK32);
    var g := Poly(G);
    assert Poly(M) > 0 ==> Pow(g, 65537, Poly(M)) == Rem(ClMul(Pow(g, 65536, Poly(M)), g), Poly(M));
    hide *;
    PolyOfM();
    PowHigh(g);
    LastProducts();
    Small1();
    HornerIs(INVERSE, G, m);
    HornerIs(Plus(G, 1), H, m);
    PolyPlus(G, 1);
  }

  lemma Gf32IsField()
    ensures IsParameters(GF32) && IsField(GF32)
  {
    Gf32IsIrreducible();
    FieldIffIrreducible(GF32);
  }

  lemma Gf32IsIrreducible()
    ensures IsParameters(GF32) && IsIrreducible(Modulus(GF32))
  {
    PolyOfM();
    Unshifted(0x1_0000_008D);
    var m := Poly(M);
    assert Modulus(GF32) == m;
    Certificate(m);
    hide Poly, Rem, ClMul, Xor, Shl, Pow, Modulus, BitLength;
    forall d: nat, e: nat | ClMul(d, e) == m ensures d == 1 || e == 1 {
      Certified(m, Poly(G), Poly(H), d, e);
    }
  }
}
