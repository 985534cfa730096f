/** Polynomials over GF(2), written as naturals whose bit `i` is the coefficient of `x^i`. */
module BinaryPolynomials {
  import opened Bits

  function Xor(a: nat, b: nat): (r: nat)
    ensures r % 2 == (a + b) % 2
  {
    if a == 0 && b == 0 then 0 else (a + b) % 2 + 2 * Xor(a / 2, b / 2)
  }

  /** `a << k`. */
  function Shl(a: nat, k: nat): (r: nat)
  {
    if k == 0 then a else 2 * Shl(a, k - 1)
  }

  /** `a >> k`. */
  function Shr(a: nat, k: nat): (r: nat)
  {
    if k == 0 then a else Shr(a, k - 1) / 2
  }

  /** The product of polynomials: schoolbook multiplication without carries. */
  function ClMul(a: nat, b: nat): (r: nat)
    decreases b
  {
    if b == 0 then 0 else Xor(Head(a, b), 2 * ClMul(a, b / 2))
  }

  /** The term that the constant coefficient of `b` contributes to `a * b`. */
  function Head(a: nat, b: nat): (r: nat) { if b % 2 == 1 then a else 0 }

  // ---------------------------------------------------------------- xor

  lemma XorZero(a: nat)
    ensures Xor(a, 0) == a && Xor(0, a) == a
  {
  }

  lemma XorSelf(a: nat)
    ensures Xor(a, a) == 0
  {
  }

  lemma XorCommutes(a: nat, b: nat)
    ensures Xor(a, b) == Xor(b, a)
  {
  }

  lemma XorHalf(a: nat, b: nat)
    ensures Xor(a, b) / 2 == Xor(a / 2, b / 2)
  {
  }

  lemma XorDouble(a: nat, b: nat)
    ensures Xor(2 * a, 2 * b) == 2 * Xor(a, b)
  {
    hide Xor;
    XorHalf(2 * a, 2 * b);
    assert (2 * a) / 2 == a && (2 * b) / 2 == b && (2 * a + 2 * b) % 2 == 0;
  }

  lemma {:induction false} FromHalves(x: nat, y: nat)
    requires x % 2 == y % 2 && x / 2 == y / 2
    ensures x == y
  {
  }

  lemma {:induction false} ParityAssociates(a: nat, b: nat, c: nat, ab: nat, bc: nat)
    requires ab % 2 == (a + b) % 2 && bc % 2 == (b + c) % 2
    ensures (ab + c) % 2 == (a + bc) % 2
  {
  }

  lemma {:induction false} XorAssociates(a: nat, b: nat, c: nat)
    ensures Xor(Xor(a, b), c) == Xor(a, Xor(b, c))
    decreases a + b + c
  {
    hide Xor;
    if a + b + c == 0 {
      XorZero(0);
    } else {
      XorAssociates(a / 2, b / 2, c / 2);
      XorHalf(a, b);
      XorHalf(b, c);
      XorHalf(Xor(a, b), c);
      XorHalf(a, Xor(b, c));
      ParityAssociates(a, b, c, Xor(a, b), Xor(b, c));
      FromHalves(Xor(Xor(a, b), c), Xor(a, Xor(b, c)));
    }
  }

  lemma {:induction false} XorSwap(a: nat, b: nat, c: nat, d: nat)
    ensures Xor(Xor(a, b), Xor(c, d)) == Xor(Xor(a, c), Xor(b, d))
  {
    hide Xor;
    XorAssociates(a, b, Xor(c, d));
    XorAssociates(b, c, d);
    XorCommutes(b, c);
    XorAssociates(c, b, d);
    XorAssociates(a, c, Xor(b, d));
  }

  lemma {:induction false} XorCancels(a: nat, b: nat)
    ensures Xor(Xor(a, b), b) == a && Xor(a, Xor(a, b)) == b
  {
    hide Xor;
    XorAssociates(a, b, b);
    XorSelf(b);
    XorZero(a);
    XorAssociates(a, a, b);
    XorSelf(a);
    XorZero(b);
  }

  lemma {:induction false} XorZeroMeansEqual(a: nat, b: nat)
    requires Xor(a, b) == 0
    ensures a == b
  {
    hide Xor;
    XorCancels(a, b);
    XorZero(b);
  }

  // ---------------------------------------------------------------- products

  lemma {:induction false} MulZero(a: nat)
    ensures ClMul(0, a) == 0 && ClMul(a, 0) == 0
  {
    if a > 0 {
      MulZero(a / 2);
      XorZero(0);
    }
  }

  lemma {:induction false} MulOne(a: nat)
    ensures ClMul(a, 1) == a && ClMul(1, a) == a
  {
    assert ClMul(a, 1) == Xor(a, 2 * ClMul(a, 0));
    XorZero(a);
    if a > 0 {
      MulOne(a / 2);
      OnlyLowBit(a % 2, a / 2);
    }
  }

  lemma {:induction false} OnlyLowBit(bit: nat, rest: nat)
    requires bit < 2
    ensures Xor(bit, 2 * rest) == bit + 2 * rest
  {
    XorZero(rest);
  }

  lemma {:induction false} MulDoubleLeft(a: nat, b: nat)
    ensures ClMul(2 * a, b) == 2 * ClMul(a, b)
    decreases b
  {
    hide Xor;
    if b > 0 {
      MulDoubleLeft(a, b / 2);
      XorDouble(Head(a, b), 2 * ClMul(a, b / 2));
    }
  }

  lemma {:induction false} MulDoubleRight(a: nat, b: nat)
    ensures ClMul(a, 2 * b) == 2 * ClMul(a, b)
  {
    hide Xor;
    if b > 0 {
      assert Head(a, 2 * b) == 0;
      XorZero(2 * ClMul(a, b));
    }
  }

  lemma {:induction false} MulDistributesRight(a: nat, b: nat, c: nat)
    ensures ClMul(a, Xor(b, c)) == Xor(ClMul(a, b), ClMul(a, c))
    decreases b + c
  {
    hide Xor, ClMul, Head;
    if b + c == 0 {
      XorZero(0);
      MulZero(a);
    } else {
      var xb, xc := ClMul(a, b / 2), ClMul(a, c / 2);
      MulUnfold(a, b);
      MulUnfold(a, c);
      MulUnfold(a, Xor(b, c));
      MulDistributesRight(a, b / 2, c / 2);
      XorHalf(b, c);
      XorDouble(xb, xc);
      XorSwap(Head(a, b), 2 * xb, Head(a, c), 2 * xc);
      XorHeads(a, b, c);
    }
  }

  lemma {:induction false} XorHeads(a: nat, b: nat, c: nat)
    ensures Head(a, Xor(b, c)) == Xor(Head(a, b), Head(a, c))
  {
    hide Xor;
    XorSelf(a);
    XorZero(a);
    XorZero(0);
  }

  lemma {:induction false} MulUnfold(a: nat, b: nat)
    ensures ClMul(a, b) == Xor(Head(a, b), 2 * ClMul(a, b / 2))
  {
    hide Xor;
    XorZero(0);
  }

  lemma {:induction false} MulDistributesLeft(a: nat, b: nat, c: nat)
    ensures ClMul(Xor(a, b), c) == Xor(ClMul(a, c), ClMul(b, c))
    decreases c
  {
    hide Xor;
    if c == 0 {
      XorZero(0);
    } else {
      MulDistributesLeft(a, b, c / 2);
      var h, ha, hb := Head(Xor(a, b), c), Head(a, c), Head(b, c);
      XorZero(0);
      assert h == Xor(ha, hb);
      XorDouble(ClMul(a, c / 2), ClMul(b, c / 2));
      XorSwap(ha, hb, 2 * ClMul(a, c / 2), 2 * ClMul(b, c / 2));
    }
  }

  lemma {:induction false} MulCommutes(a: nat, b: nat)
    ensures ClMul(a, b) == ClMul(b, a)
    decreases b
  {
    hide Xor;
    if b == 0 {
      MulZero(a);
    } else {
      MulCommutes(a, b / 2);
      OnlyLowBit(b % 2, b / 2);
      MulDistributesLeft(b % 2, 2 * (b / 2), a);
      MulDoubleLeft(b / 2, a);
      MulOne(a);
      MulZero(a);
    }
  }

  lemma {:induction false} MulAssociates(a: nat, b: nat, c: nat)
    ensures ClMul(ClMul(a, b), c) == ClMul(a, ClMul(b, c))
    decreases c
  {
    hide Xor;
    if c > 0 {
      MulAssociates(a, b, c / 2);
      var h := Head(b, c);
      MulDistributesRight(a, h, 2 * ClMul(b, c / 2));
      MulDoubleRight(a, ClMul(b, c / 2));
      MulZero(a);
    }
  }

  // ---------------------------------------------------------------- shifts

  lemma {:induction false} ShlXor(a: nat, b: nat, k: nat)
    ensures Shl(Xor(a, b), k) == Xor(Shl(a, k), Shl(b, k))
  {
    hide Xor;
    if k > 0 {
      ShlXor(a, b, k - 1);
      XorDouble(Shl(a, k - 1), Shl(b, k - 1));
    }
  }

  lemma {:induction false} ShlDouble(a: nat, k: nat)
    ensures Shl(2 * a, k) == 2 * Shl(a, k)
  {
    if k > 0 {
      ShlDouble(a, k - 1);
    }
  }

  lemma {:induction false} ShlShl(a: nat, j: nat, k: nat)
    ensures Shl(Shl(a, j), k) == Shl(a, j + k)
  {
    if k > 0 {
      ShlShl(a, j, k - 1);
    }
  }

  /** Shifting is multiplication by a power of `x`. */
  lemma {:induction false} ShlIsMul(a: nat, k: nat)
    ensures Shl(a, k) == ClMul(Shl(1, k), a)
  {
    hide Xor, ClMul;
    if k == 0 {
      MulOne(a);
    } else {
      ShlIsMul(a, k - 1);
      MulDoubleLeft(Shl(1, k - 1), a);
    }
  }

  // ---------------------------------------------------------------- degrees

  lemma {:induction false} BitLengthShl(a: nat, k: nat)
    requires a > 0
    ensures Shl(a, k) > 0 && BitLength(Shl(a, k)) == BitLength(a) + k
  {
    if k > 0 {
      BitLengthShl(a, k - 1);
    }
  }

  lemma {:induction false} BitLengthShr(a: nat, k: nat)
    ensures BitLength(Shr(a, k)) == if BitLength(a) >= k then BitLength(a) - k else 0
  {
    if k > 0 {
      BitLengthShr(a, k - 1);
    }
  }

  /** Terms of different degree keep the larger degree; leading terms of equal degree cancel. */
  lemma {:induction false} BitLengthXor(a: nat, b: nat)
    ensures BitLength(a) > BitLength(b) ==> BitLength(Xor(a, b)) == BitLength(a)
    ensures BitLength(a) < BitLength(b) ==> BitLength(Xor(a, b)) == BitLength(b)
    ensures BitLength(a) == BitLength(b) > 0 ==> BitLength(Xor(a, b)) < BitLength(a)
    ensures BitLength(Xor(a, b)) <= BitLength(a) || BitLength(Xor(a, b)) <= BitLength(b)
    decreases a + b
  {
    if a + b > 0 {
      BitLengthXor(a / 2, b / 2);
      XorHalf(a, b);
    }
  }

  lemma {:induction false} BitLengthMul(a: nat, b: nat)
    requires a > 0 && b > 0
    ensures ClMul(a, b) > 0 && BitLength(ClMul(a, b)) == BitLength(a) + BitLength(b) - 1
    decreases b
  {
    hide Xor;
    if b / 2 == 0 {
      MulOne(a);
    } else {
      BitLengthMul(a, b / 2);
      BitLengthXor(Head(a, b), 2 * ClMul(a, b / 2));
    }
  }

  // ---------------------------------------------------------------- division

  /** Long division: cancel the leading term until the degree is below that of `m`. */
  function Rem(x: nat, m: nat): (r: nat)
    requires m > 0
    decreases BitLength(x)
  {
    if BitLength(x) < BitLength(m) then x
    else
      var shifted := Shl(m, BitLength(x) - BitLength(m));
      BitLengthShl(m, BitLength(x) - BitLength(m));
      BitLengthXor(x, shifted);
      Rem(Xor(x, shifted), m)
  }

  function Quotient(x: nat, m: nat): (r: nat)
    requires m > 0
    decreases BitLength(x)
  {
    if BitLength(x) < BitLength(m) then 0
    else
      var k := BitLength(x) - BitLength(m);
      BitLengthShl(m, k);
      BitLengthXor(x, Shl(m, k));
      Xor(Shl(1, k), Quotient(Xor(x, Shl(m, k)), m))
  }

  lemma {:induction false} DivisionLaw(x: nat, m: nat)
    requires m > 0
    ensures BitLength(Rem(x, m)) < BitLength(m)
    ensures x == Xor(ClMul(Quotient(x, m), m), Rem(x, m))
    decreases BitLength(x)
  {
    hide Xor, ClMul, Shl;
    if BitLength(x) < BitLength(m) {
      MulZero(m);
      XorZero(x);
    } else {
      var k := BitLength(x) - BitLength(m);
      var s := Shl(m, k);
      BitLengthShl(m, k);
      BitLengthXor(x, s);
      var y := Xor(x, s);
      DivisionLaw(y, m);
      var q, r := Quotient(y, m), Rem(y, m);
      ShlIsMul(m, k);
      MulDistributesLeft(Shl(1, k), q, m);
      XorAssociates(s, ClMul(q, m), r);
      XorCommutes(x, s);
      XorCancels(s, x);
    }
  }

  predicate Divides(d: nat, x: nat)
    requires d > 0
  {
    Rem(x, d) == 0
  }

  /** A residue is unique: of all polynomials that differ from `x` by a multiple of `m`, exactly
      one has smaller degree than `m`. */
  lemma {:induction false} RemIsUnique(x: nat, m: nat, q: nat, r: nat)
    requires m > 0 && BitLength(r) < BitLength(m) && x == Xor(ClMul(q, m), r)
    ensures Rem(x, m) == r && Quotient(x, m) == q
  {
    hide Xor, ClMul, Shl, Rem, Quotient;
    DivisionLaw(x, m);
    var q', r' := Quotient(x, m), Rem(x, m);
    // q*m + r == q'*m + r', so (q+q')*m == r+r'
    XorSwap(ClMul(q, m), r, ClMul(q', m), r');
    XorSelf(x);
    MulDistributesLeft(q, q', m);
    XorZeroMeansEqual(ClMul(Xor(q, q'), m), Xor(r, r'));
    BitLengthXor(r, r');
    if Xor(q, q') > 0 {
      BitLengthMul(Xor(q, q'), m);
    } else {
      XorZeroMeansEqual(q, q');
      MulZero(m);
      XorZeroMeansEqual(r, r');
    }
  }

  lemma {:induction false} MultipleIsDivisible(q: nat, m: nat)
    requires m > 0
    ensures Divides(m, ClMul(q, m))
  {
    hide Xor, ClMul;
    XorZero(ClMul(q, m));
    RemIsUnique(ClMul(q, m), m, q, 0);
  }
}
