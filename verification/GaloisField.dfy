/** `galois_field.rs`: multiplication by carry-less product and shift-xor reduction, for every width. */
module GaloisField {
  import opened Bits
  import opened BinaryPolynomials

  /** The parameters of `bit_array_impl!`. */
  datatype Field = Field(bits: nat, polynomial: nat)

  /** The widths and literals for which the reduction loop works: `POLYNOMIAL` is not zero and has
      degree at most `BITS`.  The literal need not have degree exactly `BITS`. */
  predicate IsParameters(f: Field)
  {
    f.bits >= 1 && 1 <= BitLength(f.polynomial) <= f.bits + 1
  }

  predicate IsElement(f: Field, a: nat) { BitLength(a) <= f.bits }

  /** What the loop reduces by: `POLYNOMIAL` shifted up to degree `BITS`. */
  function Modulus(f: Field): (m: nat)
    requires IsParameters(f)
    ensures m > 0 && BitLength(m) == f.bits + 1
  {
    BitLengthShl(f.polynomial, f.bits + 1 - BitLength(f.polynomial));
    Shl(f.polynomial, f.bits + 1 - BitLength(f.polynomial))
  }

  /** The product in the ring of polynomials modulo `Modulus(f)`. */
  function Mul(f: Field, a: nat, b: nat): (r: nat)
    requires IsParameters(f)
    ensures IsElement(f, r)
  {
    DivisionLaw(ClMul(a, b), Modulus(f));
    Rem(ClMul(a, b), Modulus(f))
  }

  // ---------------------------------------------------------------- the implementation

  lemma {:induction false} ClmulStep(a: nat, b: nat, i: nat, product: nat)
    requires Xor(product, Shl(ClMul(a, Shr(b, i)), i)) == ClMul(a, b)
    ensures Xor(Xor(product, Shl(Head(a, Shr(b, i)), i)), Shl(ClMul(a, Shr(b, i + 1)), i + 1)) == ClMul(a, b)
  {
    hide Xor, ClMul;
    var head, rest := Head(a, Shr(b, i)), ClMul(a, Shr(b, i + 1));
    MulUnfold(a, Shr(b, i));
    ShlXor(head, 2 * rest, i);
    ShlDouble(rest, i);
    XorAssociates(product, Shl(head, i), Shl(rest, i + 1));
  }

  /** The portable `clmul`.  With `2 * BITS <= 128` no bit is shifted out of a `u128`. */
  method Clmul(f: Field, a: nat, b: nat) returns (product: nat)
    requires IsElement(f, a) && IsElement(f, b)
    ensures product == ClMul(a, b)
    ensures BitLength(product) <= 2 * f.bits
  {
    hide Xor, ClMul, Shr, Shl;
    product := 0;
    assert Shr(b, 0) == b && Shl(ClMul(a, b), 0) == ClMul(a, b) by { Unshifted(b); Unshifted(ClMul(a, b)); }
    XorZero(ClMul(a, b));
    for i := 0 to f.bits
      invariant Xor(product, Shl(ClMul(a, Shr(b, i)), i)) == ClMul(a, b)
      invariant BitLength(product) <= 2 * f.bits
    {
      var bit := Shr(b, i) % 2;
      var term := bit * Shl(a, i);
      HeadTerm(a, Shr(b, i), i);
      ClmulStep(a, b, i, product);
      BitLengthXor(product, term);
      product := Xor(product, term);
    }
    BitLengthShr(b, f.bits);
    ShiftedZero(f.bits);
    MulZero(a);
    XorZero(product);
  }

  lemma {:induction false} Unshifted(a: nat)
    ensures Shr(a, 0) == a && Shl(a, 0) == a
  {
  }

  lemma {:induction false} ShiftedZero(k: nat)
    ensures Shl(0, k) == 0
  {
    if k > 0 { ShiftedZero(k - 1); }
  }

  lemma {:induction false} HeadTerm(a: nat, s: nat, i: nat)
    ensures (s % 2) * Shl(a, i) == Shl(Head(a, s), i)
    ensures BitLength((s % 2) * Shl(a, i)) <= BitLength(a) + i
  {
    ShiftedZero(i);
    assert s % 2 == 0 || s % 2 == 1;
    if a > 0 {
      BitLengthShl(a, i);
    }
    assert BitLength(0) == 0;
    hide Shl, BitLength;
    if s % 2 == 1 {
      assert 1 * Shl(a, i) == Shl(a, i);
    } else {
      assert 0 * Shl(a, i) == 0;
    }
  }

  /** The `Mul` implementation: terminates, and with the residue. */
  method Multiply(f: Field, a: nat, b: nat) returns (product: nat)
    requires IsParameters(f) && IsElement(f, a) && IsElement(f, b)
    ensures IsElement(f, product)
    ensures product == Mul(f, a, b)
  {
    hide Xor, ClMul, Shl, Rem;
    product := Clmul(f, a, b);
    ghost var full, m := product, Modulus(f);
    while BitLength(product) > f.bits
      invariant Rem(product, m) == Rem(full, m)
      decreases BitLength(product)
    {
      var bitsToShift := BitLength(product) - BitLength(f.polynomial);
      ReductionStep(f, product);
      product := Xor(product, Shl(f.polynomial, bitsToShift));
    }
    RemOfSmall(product, m);
  }

  lemma {:induction false} RemOfSmall(x: nat, m: nat)
    requires BitLength(x) < BitLength(m)
    ensures Rem(x, m) == x
  {
  }

  lemma {:induction false} ReductionStep(f: Field, product: nat)
    requires IsParameters(f) && BitLength(product) > f.bits
    ensures
      var next := Xor(product, Shl(f.polynomial, BitLength(product) - BitLength(f.polynomial)));
      BitLength(next) < BitLength(product) && Rem(next, Modulus(f)) == Rem(product, Modulus(f))
  {
    var up, over := f.bits + 1 - BitLength(f.polynomial), BitLength(product) - (f.bits + 1);
    hide *;
    ModulusIs(f);
    ShlShl(f.polynomial, up, over);
    BitLengthShl(f.polynomial, up + over);
    BitLengthXor(product, Shl(f.polynomial, up + over));
    RemUnfold(product, Modulus(f));
  }

  lemma ModulusIs(f: Field)
    requires IsParameters(f)
    ensures f.polynomial > 0 && f.bits >= 1 && 1 <= BitLength(f.polynomial) <= f.bits + 1
    ensures Modulus(f) == Shl(f.polynomial, f.bits + 1 - BitLength(f.polynomial)) && BitLength(Modulus(f)) == f.bits + 1
  {
    assert BitLength(0) == 0;
    hide BitLength, Shl;
  }

  lemma RemUnfold(x: nat, m: nat)
    requires m > 0 && BitLength(x) >= BitLength(m)
    ensures Rem(x, m) == Rem(Xor(x, Shl(m, BitLength(x) - BitLength(m))), m)
  {
    hide Xor, Shl;
  }

  // ---------------------------------------------------------------- residues

  lemma {:induction false} RemXor(x: nat, y: nat, m: nat)
    requires m > 0
    ensures Rem(Xor(x, y), m) == Xor(Rem(x, m), Rem(y, m))
  {
    hide Xor, ClMul, Rem, Quotient;
    DivisionLaw(x, m);
    DivisionLaw(y, m);
    var qx, qy := Quotient(x, m), Quotient(y, m);
    XorSwap(ClMul(qx, m), Rem(x, m), ClMul(qy, m), Rem(y, m));
    MulDistributesLeft(qx, qy, m);
    BitLengthXor(Rem(x, m), Rem(y, m));
    RemIsUnique(Xor(x, y), m, Xor(qx, qy), Xor(Rem(x, m), Rem(y, m)));
  }

  lemma {:induction false} RemMul(a: nat, b: nat, m: nat)
    requires m > 0
    ensures Rem(ClMul(a, Rem(b, m)), m) == Rem(ClMul(a, b), m)
  {
    hide Xor, ClMul, Rem, Quotient;
    DivisionLaw(b, m);
    var q, r := Quotient(b, m), Rem(b, m);
    MulDistributesRight(a, ClMul(q, m), r);
    MulAssociates(a, q, m);
    RemXor(ClMul(ClMul(a, q), m), ClMul(a, r), m);
    MultipleIsDivisible(ClMul(a, q), m);
    XorZero(Rem(ClMul(a, r), m));
  }

  // ---------------------------------------------------------------- ring laws

  lemma {:induction false} MultiplicationCommutes(f: Field, a: nat, b: nat)
    requires IsParameters(f)
    ensures Mul(f, a, b) == Mul(f, b, a)
  {
    hide ClMul, Rem;
    MulCommutes(a, b);
  }

  lemma {:induction false} MultiplicationAssociates(f: Field, a: nat, b: nat, c: nat)
    requires IsParameters(f)
    ensures Mul(f, Mul(f, a, b), c) == Mul(f, a, Mul(f, b, c))
  {
    hide ClMul, Rem, Modulus;
    var m := Modulus(f);
    MulCommutes(Mul(f, a, b), c);
    RemMul(c, ClMul(a, b), m);
    MulCommutes(c, ClMul(a, b));
    MulAssociates(a, b, c);
    RemMul(a, ClMul(b, c), m);
  }

  lemma {:induction false} MultiplicationDistributes(f: Field, a: nat, b: nat, c: nat)
    requires IsParameters(f)
    ensures Mul(f, a, Xor(b, c)) == Xor(Mul(f, a, b), Mul(f, a, c))
  {
    hide ClMul, Rem, Xor, Modulus;
    MulDistributesRight(a, b, c);
    RemXor(ClMul(a, b), ClMul(a, c), Modulus(f));
  }

  lemma {:induction false} OneIsIdentity(f: Field, a: nat)
    requires IsParameters(f) && IsElement(f, a)
    ensures Mul(f, a, 1) == a == Mul(f, 1, a)
  {
    MulOne(a);
    RemOfSmall(a, Modulus(f));
  }

  /** The product is the only element that differs from the carry-less product by a multiple of the modulus. */
  lemma {:induction false} ProductIsUnique(f: Field, a: nat, b: nat, r: nat)
    requires IsParameters(f) && IsElement(f, r)
    ensures r == Mul(f, a, b) <==> exists q: nat :: ClMul(a, b) == Xor(ClMul(q, Modulus(f)), r)
  {
    hide ClMul, Rem, Quotient, Xor, Modulus;
    var x, m := ClMul(a, b), Modulus(f);
    DivisionLaw(x, m);
    if r == Mul(f, a, b) {
      var q := Quotient(x, m);
      assert x == Xor(ClMul(q, m), r);
    }
    if q: nat :| x == Xor(ClMul(q, m), r) {
      RemIsUnique(x, m, q, r);
    }
  }

  // ---------------------------------------------------------------- inverses

  ghost predicate IsIrreducible(m: nat)
  {
    BitLength(m) >= 2 && forall d: nat, e: nat :: ClMul(d, e) == m ==> d == 1 || e == 1
  }

  ghost predicate HasInverse(f: Field, a: nat)
    requires IsParameters(f)
  {
    exists b: nat :: IsElement(f, b) && Mul(f, a, b) == 1
  }

  ghost predicate IsField(f: Field)
    requires IsParameters(f)
  {
    forall a: nat :: IsElement(f, a) && a > 0 ==> HasInverse(f, a)
  }

  /** Extended Euclid: a common divisor `d` with cofactors, as a combination of `a` and `b`. */
  lemma {:induction false} Bezout(a: nat, b: nat) returns (x: nat, y: nat, d: nat, p: nat, q: nat)
    ensures d == Xor(ClMul(x, a), ClMul(y, b))
    ensures a == ClMul(p, d) && b == ClMul(q, d)
    decreases BitLength(b)
  {
    hide Xor, ClMul, Rem, Quotient;
    if b == 0 {
      x, y, d, p, q := 1, 0, a, 1, 0;
      MulOne(a);
      MulZero(a);
      MulZero(0);
      XorZero(a);
    } else {
      DivisionLaw(a, b);
      var k, r := Quotient(a, b), Rem(a, b);
      var x', y', p', q';
      x', y', d, p', q' := Bezout(b, r);
      x, y, p, q := y', Xor(x', ClMul(y', k)), Xor(ClMul(k, p'), q'), p';
      BezoutCombination(a, b, k, r, x', y');
      MulAssociates(k, p', d);
      MulDistributesLeft(ClMul(k, p'), q', d);
    }
  }

  lemma {:induction false} BezoutCombination(a: nat, b: nat, k: nat, r: nat, x: nat, y: nat)
    requires a == Xor(ClMul(k, b), r)
    ensures Xor(ClMul(x, b), ClMul(y, r)) == Xor(ClMul(y, a), ClMul(Xor(x, ClMul(y, k)), b))
  {
    hide Xor, ClMul;
    var xb, ykb, yr := ClMul(x, b), ClMul(y, ClMul(k, b)), ClMul(y, r);
    MulDistributesRight(y, ClMul(k, b), r);
    MulDistributesLeft(x, ClMul(y, k), b);
    MulAssociates(y, k, b);
    // (ykb + yr) + (xb + ykb) == xb + yr
    XorCommutes(ykb, yr);
    XorSwap(yr, ykb, xb, ykb);
    XorSelf(ykb);
    XorZero(Xor(yr, xb));
    XorCommutes(yr, xb);
  }

  lemma {:induction false} IrreducibleGivesInverse(f: Field, a: nat)
    requires IsParameters(f) && IsIrreducible(Modulus(f)) && IsElement(f, a) && a > 0
    ensures HasInverse(f, a)
  {
    hide Xor, ClMul, Rem, Quotient, Modulus;
    var m := Modulus(f);
    var x, y, d, p, q := Bezout(a, m);
    if q == 1 {
      MulOne(d);
      MulZero(d);
      BitLengthMul(p, d);
    } else {
      var b := Rem(x, m);
      DivisionLaw(x, m);
      MulCommutes(a, b);
      RemMul(a, x, m);
      MulCommutes(a, x);
      RemXor(ClMul(x, a), ClMul(y, m), m);
      MultipleIsDivisible(y, m);
      XorZero(Rem(ClMul(x, a), m));
      RemOfSmall(1, m);
      assert Mul(f, a, b) == 1;
    }
  }

  lemma {:induction false} FactorHasNoInverse(f: Field, d: nat, e: nat)
    requires IsParameters(f) && ClMul(d, e) == Modulus(f) && d != 1 && e != 1
    ensures d > 0 && IsElement(f, d) && !HasInverse(f, d)
  {
    hide Xor, ClMul, Rem, Modulus;
    var m := Modulus(f);
    MulZero(d);
    MulZero(e);
    BitLengthMul(d, e);
    forall b: nat | IsElement(f, b) ensures Mul(f, d, b) != 1 {
      if Mul(f, d, b) == 1 {
        // e == (b * d) * e == b * (d * e) == 0
        OneIsIdentity(f, e);
        MultiplicationCommutes(f, d, b);
        MultiplicationAssociates(f, b, d, e);
        MulOne(m);
        MultipleIsDivisible(1, m);
        MulZero(b);
        RemOfSmall(0, m);
      }
    }
  }

  /** The documented claim that the elements form a field is true exactly for the widths whose
      shifted polynomial is irreducible. */
  lemma {:induction false} FieldIffIrreducible(f: Field)
    requires IsParameters(f)
    ensures IsField(f) <==> IsIrreducible(Modulus(f))
  {
    hide Xor, ClMul, Rem, Modulus, HasInverse;
    if IsIrreducible(Modulus(f)) {
      forall a: nat | IsElement(f, a) && a > 0 ensures HasInverse(f, a) {
        IrreducibleGivesInverse(f, a);
      }
    } else {
      var d: nat, e: nat :| ClMul(d, e) == Modulus(f) && d != 1 && e != 1;
      FactorHasNoInverse(f, d, e);
    }
  }
}
