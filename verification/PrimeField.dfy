/** Arithmetic on the values that secret shares reconstruct to.

    A field element is an integer below the modulus `p`.  Nothing in this project needs `p` to be
    prime, so every statement holds for every modulus of at least 2. */
module PrimeField {

  predicate IsModulus(p: int) { p >= 2 }

  predicate IsElement(p: int, x: int) { 0 <= x < p }

  predicate IsBit(x: int) { x == 0 || x == 1 }

  predicate AreElements(p: int, xs: seq<int>) { forall i :: 0 <= i < |xs| ==> IsElement(p, xs[i]) }

  predicate AreBits(xs: seq<int>) { forall i :: 0 <= i < |xs| ==> IsBit(xs[i]) }

  /** The element an integer stands for. */
  function Mod(p: int, x: int): (r: int)
    requires IsModulus(p)
    ensures IsElement(p, r)
  {
    x % p
  }

  function Add(p: int, a: int, b: int): (r: int)
    requires IsModulus(p)
    ensures IsElement(p, r)
  {
    Mod(p, a + b)
  }

  function Sub(p: int, a: int, b: int): (r: int)
    requires IsModulus(p)
    ensures IsElement(p, r)
  {
    Mod(p, a - b)
  }

  function Mul(p: int, a: int, b: int): (r: int)
    requires IsModulus(p)
    ensures IsElement(p, r)
  {
    Mod(p, a * b)
  }

  /** The `or` protocol: `-ab + a + b`. */
  function Or(p: int, a: int, b: int): (r: int)
    requires IsModulus(p)
    ensures IsElement(p, r)
  {
    Add(p, Add(p, Sub(p, 0, Mul(p, a, b)), a), b)
  }

  /** The `if_else` protocol: `false_value + condition * (true_value - false_value)`. */
  function IfElse(p: int, condition: int, onTrue: int, onFalse: int): (r: int)
    requires IsModulus(p)
    ensures IsElement(p, r)
  {
    Add(p, onFalse, Mul(p, condition, Sub(p, onTrue, onFalse)))
  }

  // ---------------------------------------------------------------- remainders

  lemma NonzeroMultipleIsLarge(p: int, d: int)
    requires p >= 1 && d != 0
    ensures d * p >= p || d * p <= -p
  {
    if d >= 1 {
      assert (d - 1) * p >= 0;
    } else {
      assert (-d - 1) * p >= 0;
    }
  }

  lemma ModIs(p: int, x: int, q: int, r: int)
    requires IsModulus(p) && IsElement(p, r)
    requires x == q * p + r
    ensures Mod(p, x) == r
  {
    var d := q - x / p;
    assert d * p == x % p - r by {
      assert x == p * (x / p) + x % p;
      assert d * p == q * p - (x / p) * p;
    }
    if d != 0 {
      NonzeroMultipleIsLarge(p, d);
    }
  }

  /** `x` is its element plus a multiple of the modulus. */
  lemma ModQuotient(p: int, x: int) returns (q: int)
    requires IsModulus(p)
    ensures x == q * p + Mod(p, x)
  {
    q := x / p;
  }

  lemma ElementMod(p: int, x: int)
    requires IsModulus(p) && IsElement(p, x)
    ensures Mod(p, x) == x
  {
    hide Mod;
    ModIs(p, x, 0, x);
  }

  lemma ModOfMultiple(p: int, x: int, k: int)
    requires IsModulus(p)
    ensures Mod(p, x + k * p) == Mod(p, x)
  {
    hide Mod;
    var q := ModQuotient(p, x);
    assert x + k * p == (q + k) * p + Mod(p, x);
    ModIs(p, x + k * p, q + k, Mod(p, x));
  }

  lemma ModAddLeft(p: int, a: int, b: int)
    requires IsModulus(p)
    ensures Mod(p, Mod(p, a) + b) == Mod(p, a + b)
  {
    hide Mod;
    var q := ModQuotient(p, a);
    ModOfMultiple(p, Mod(p, a) + b, q);
    assert Mod(p, a) + b + q * p == a + b;
  }

  lemma ModMulLeft(p: int, a: int, b: int)
    requires IsModulus(p)
    ensures Mod(p, Mod(p, a) * b) == Mod(p, a * b)
  {
    hide Mod;
    var q := ModQuotient(p, a);
    var m := Mod(p, a);
    ModOfMultiple(p, m * b, q * b);
    assert a * b == m * b + q * b * p by {
      calc {
        a * b;
        (q * p + m) * b;
        (q * p) * b + m * b;
        q * b * p + m * b;
      }
    }
  }

  // ---------------------------------------------------------------- ring laws

  lemma AddAssociates(p: int, a: int, b: int, c: int)
    requires IsModulus(p)
    ensures Add(p, Add(p, a, b), c) == Add(p, a, Add(p, b, c))
  {
    hide Mod;
    ModAddLeft(p, a + b, c);
    ModAddLeft(p, b + c, a);
    assert a + Mod(p, b + c) == Mod(p, b + c) + a;
    assert b + c + a == a + b + c;
  }

  /** Reducing inside a sum changes nothing. */
  lemma AddOfSum(p: int, a: int, b: int, c: int)
    requires IsModulus(p)
    ensures Add(p, a, Add(p, b, c)) == Add(p, a, b + c)
  {
    hide Mod;
    ModAddLeft(p, b + c, a);
    assert a + Mod(p, b + c) == Mod(p, b + c) + a;
    assert b + c + a == a + (b + c);
  }

  lemma MulAssociates(p: int, a: int, b: int, c: int)
    requires IsModulus(p)
    ensures Mul(p, Mul(p, a, b), c) == Mul(p, a, Mul(p, b, c))
  {
    hide Mod;
    ModMulLeft(p, a * b, c);
    ModMulLeft(p, b * c, a);
    assert a * Mod(p, b * c) == Mod(p, b * c) * a;
    assert (a * b) * c == (b * c) * a;
  }

  lemma MulDistributes(p: int, a: int, b: int, c: int)
    requires IsModulus(p)
    ensures Mul(p, a, Add(p, b, c)) == Add(p, Mul(p, a, b), Mul(p, a, c))
  {
    hide Mod;
    ModMulLeft(p, b + c, a);
    assert a * Mod(p, b + c) == Mod(p, b + c) * a;
    assert (b + c) * a == a * b + a * c;
    var x, y := a * b, a * c;
    ModAddLeft(p, x, Mod(p, y));
    assert x + Mod(p, y) == Mod(p, y) + x;
    ModAddLeft(p, y, x);
    assert y + x == x + y;
  }

  // ---------------------------------------------------------------- bits as conditions

  lemma MulBit(p: int, bit: int, x: int)
    requires IsModulus(p) && IsElement(p, x) && IsBit(bit)
    ensures Mul(p, bit, x) == Mul(p, x, bit) == if bit == 1 then x else 0
  {
    hide Mod;
    ElementMod(p, x);
    ElementMod(p, 0);
    assert bit * x == x * bit == if bit == 1 then x else 0;
  }

  lemma SubElements(p: int, a: int, b: int)
    requires IsModulus(p) && IsElement(p, a) && IsElement(p, b)
    ensures Sub(p, a, b) == if a >= b then a - b else a - b + p
  {
    hide Mod;
    if a >= b {
      ElementMod(p, a - b);
    } else {
      ModIs(p, a - b, -1, a - b + p);
    }
  }

  lemma AddElements(p: int, a: int, b: int)
    requires IsModulus(p) && IsElement(p, a) && IsElement(p, b)
    ensures Add(p, a, b) == if a + b < p then a + b else a + b - p
  {
    hide Mod;
    if a + b < p {
      ElementMod(p, a + b);
    } else {
      ModIs(p, a + b, 1, a + b - p);
    }
  }

  lemma NotBit(p: int, bit: int)
    requires IsModulus(p) && IsBit(bit)
    ensures Sub(p, 1, bit) == 1 - bit
  {
    hide Mod;
    SubElements(p, 1, bit);
  }

  lemma OrOfBits(p: int, a: int, b: int)
    requires IsModulus(p) && IsBit(a) && IsBit(b)
    ensures Or(p, a, b) == if a == 1 || b == 1 then 1 else 0
  {
    hide Mod, Mul, Add, Sub;
    MulBit(p, a, b);
    var ab := Mul(p, a, b);
    SubElements(p, 0, ab);
    AddElements(p, Sub(p, 0, ab), a);
    AddElements(p, Add(p, Sub(p, 0, ab), a), b);
  }

  lemma IfElseSelects(p: int, condition: int, onTrue: int, onFalse: int)
    requires IsModulus(p) && IsBit(condition) && IsElement(p, onTrue) && IsElement(p, onFalse)
    ensures IfElse(p, condition, onTrue, onFalse) == if condition == 1 then onTrue else onFalse
  {
    hide Mod, Mul, Add, Sub;
    MulBit(p, condition, Sub(p, onTrue, onFalse));
    SubElements(p, onTrue, onFalse);
    AddElements(p, onFalse, Mul(p, condition, Sub(p, onTrue, onFalse)));
  }
}
