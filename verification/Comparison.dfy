/** `greater_than_constant`: comparison of a masked secret with a public constant. */
module Comparison {
  import opened PrimeField
  import opened Bits

  datatype RBounds = RBounds(rLo: int, rHi: int, invert: bool)

  /** `compute_r_bounds`: the public interval whose membership test on `r` decides `a > c`. */
  function ComputeRBounds(b: int, c: int, p: int): (r: RBounds)
    requires 0 <= b < p && 0 <= c < p
    ensures 0 <= r.rLo < p && 0 < r.rHi <= p
  {
    if b > c then RBounds(b - c - 1, b + 1, true) else RBounds(b, p + b - c, false)
  }

  predicate Evaluate(bounds: RBounds, r: int)
  {
    var inRange := bounds.rLo < r < bounds.rHi;
    if bounds.invert then !inRange else inRange
  }

  /** The interval test on the mask decides the comparison, whatever the mask is. */
  lemma BoundsDecideComparison(p: int, a: int, r: int, c: int)
    requires IsModulus(p) && IsElement(p, a) && IsElement(p, r) && IsElement(p, c)
    ensures Evaluate(ComputeRBounds(Add(p, r, a), c, p), r) <==> a > c
  {
    hide Mod, Mul, Add, Sub;
    AddElements(p, r, a);
  }

  // ---------------------------------------------------------------- first differing bit

  /** `i` is the highest set bit of `x`. */
  predicate IsTop(x: seq<int>, i: int)
  {
    0 <= i < |x| && x[i] == 1 && forall j :: i < j < |x| ==> x[j] == 0
  }

  /** `d` has a single one, at the highest set bit of `x`, or is all zero when `x` is. */
  predicate IsOneHotAtTop(d: seq<int>, x: seq<int>)
  {
    |d| == |x| && forall i :: 0 <= i < |d| ==> d[i] == if IsTop(x, i) then 1 else 0
  }

  /** `[a] ^ b`, locally. */
  function XorWithConstant(p: int, a: seq<int>, b: nat): (r: seq<int>)
    requires IsModulus(p)
    ensures |r| == |a|
  {
    seq(|a|, i requires 0 <= i < |a| => if BitOf(b, i) == 0 then a[i] else Sub(p, 1, a[i]))
  }

  lemma XorMarksDifferences(p: int, a: seq<int>, b: nat)
    requires IsModulus(p) && AreBits(a)
    ensures AreBits(XorWithConstant(p, a, b))
    ensures forall i :: 0 <= i < |a| ==> (XorWithConstant(p, a, b)[i] == 1 <==> a[i] != BitsOf(b, |a|)[i])
  {
    hide Mod, Mul, Add, Sub;
    forall i | 0 <= i < |a|
      ensures IsBit(XorWithConstant(p, a, b)[i])
      ensures XorWithConstant(p, a, b)[i] == 1 <==> a[i] != BitOf(b, i)
    {
      NotBit(p, a[i]);
    }
  }

  /** Prefix-OR from the most significant bit down, subtracting the previous OR from each. */
  method FirstDifferingBit(p: int, a: seq<int>, b: nat) returns (d: seq<int>)
    requires IsModulus(p) && AreBits(a) && |a| > 0
    ensures IsOneHotAtTop(d, XorWithConstant(p, a, b))
  {
    hide Mod, Mul, Add, Sub;
    var xored := XorWithConstant(p, a, b);
    XorMarksDifferences(p, a, b);
    var previousBit := xored[|a| - 1];
    var marks := [previousBit];
    for i := 0 to |a| - 1
      invariant |marks| == i + 1
      invariant IsBit(previousBit)
      invariant previousBit == 0 <==> forall j :: |a| - 1 - i <= j < |a| ==> xored[j] == 0
      invariant forall t :: 0 <= t <= i ==> marks[t] == if IsTop(xored, |a| - 1 - t) then 1 else 0
    {
      var at := |a| - 2 - i;
      var result := Or(p, previousBit, xored[at]);
      OrOfBits(p, previousBit, xored[at]);
      SubElements(p, result, previousBit);
      assert IsTop(xored, at) <==> xored[at] == 1 && previousBit == 0;
      marks := marks + [Sub(p, result, previousBit)];
      previousBit := result;
    }
    d := seq(|a|, i requires 0 <= i < |a| => marks[|a| - 1 - i]);
  }

  /** `sum_of_products`. */
  function SumOfProducts(p: int, x: seq<int>, y: seq<int>): (r: int)
    requires IsModulus(p) && |x| == |y|
    ensures IsElement(p, r)
  {
    if x == [] then 0 else Add(p, Mul(p, x[0], y[0]), SumOfProducts(p, x[1..], y[1..]))
  }

  lemma {:induction false} SumOfZeros(p: int, x: seq<int>, y: seq<int>)
    requires IsModulus(p) && |x| == |y| && AreBits(y)
    requires forall i :: 0 <= i < |x| ==> x[i] == 0
    ensures SumOfProducts(p, x, y) == 0
  {
    hide Mod, Mul, Add, Sub;
    if x != [] {
      MulBit(p, 0, y[0]);
      AddElements(p, 0, 0);
      assert AreBits(y[1..]);
      SumOfZeros(p, x[1..], y[1..]);
    }
  }

  /** Multiplying with a one-hot vector selects. */
  lemma {:induction false} SumOfOneHot(p: int, x: seq<int>, y: seq<int>, k: int)
    requires IsModulus(p) && |x| == |y| && AreBits(y) && 0 <= k < |x|
    requires forall i :: 0 <= i < |x| ==> x[i] == if i == k then 1 else 0
    ensures SumOfProducts(p, x, y) == y[k]
  {
    hide Mod, Mul, Add, Sub;
    assert AreBits(y[1..]);
    MulBit(p, x[0], y[0]);
    if k == 0 {
      SumOfZeros(p, x[1..], y[1..]);
    } else {
      SumOfOneHot(p, x[1..], y[1..], k - 1);
    }
    AddElements(p, Mul(p, x[0], y[0]), SumOfProducts(p, x[1..], y[1..]));
  }

  function NotBits(p: int, a: seq<int>): (r: seq<int>)
    requires IsModulus(p)
    ensures |r| == |a|
  {
    seq(|a|, i requires 0 <= i < |a| => Sub(p, 1, a[i]))
  }

  /** The dot products of the one-hot difference with `a` and with `not a` are the two comparisons. */
  lemma OneHotSelectsComparison(p: int, a: seq<int>, c: nat, d: seq<int>)
    requires IsModulus(p) && AreBits(a)
    requires IsOneHotAtTop(d, XorWithConstant(p, a, c))
    ensures SumOfProducts(p, d, a) == if Value(a) > Truncate(c, |a|) then 1 else 0
    ensures SumOfProducts(p, d, NotBits(p, a)) == if Value(a) < Truncate(c, |a|) then 1 else 0
  {
    hide Mod, Mul, Add, Sub;
    var x, y := XorWithConstant(p, a, c), BitsOf(c, |a|);
    XorMarksDifferences(p, a, c);
    BitsOfIsTruncation(c, |a|);
    assert forall i :: 0 <= i < |a| ==> NotBits(p, a)[i] == 1 - a[i] by {
      forall i | 0 <= i < |a| ensures NotBits(p, a)[i] == 1 - a[i] { NotBit(p, a[i]); }
    }
    if forall i :: 0 <= i < |x| ==> x[i] == 0 {
      assert a == y;
      SumOfZeros(p, d, a);
      SumOfZeros(p, d, NotBits(p, a));
    } else {
      var k := HighestOne(x);
      assert DifferFirstAt(a, y, k);
      HighestDifferenceDecides(a, y, k);
      assert forall i :: 0 <= i < |d| && i != k ==> !IsTop(x, i);
      SumOfOneHot(p, d, a, k);
      SumOfOneHot(p, d, NotBits(p, a), k);
    }
  }

  lemma {:induction false} HighestOne(x: seq<int>) returns (k: int)
    requires AreBits(x) && exists i :: 0 <= i < |x| && x[i] != 0
    ensures IsTop(x, k)
  {
    k := |x| - 1;
    while x[k] == 0
      invariant 0 <= k < |x|
      invariant forall j :: k < j < |x| ==> x[j] == 0
      decreases k
    {
      k := k - 1;
    }
  }

  method BitwiseGreaterThanConstant(p: int, a: seq<int>, c: nat) returns (r: int)
    requires IsModulus(p) && AreBits(a) && |a| > 0
    ensures r == if Value(a) > Truncate(c, |a|) then 1 else 0
  {
    hide Mod, Mul, Add, Sub, Truncate;
    var firstDiffBit := FirstDifferingBit(p, a, c);
    OneHotSelectsComparison(p, a, c, firstDiffBit);
    r := SumOfProducts(p, firstDiffBit, a);
  }

  method BitwiseLessThanConstant(p: int, a: seq<int>, c: nat) returns (r: int)
    requires IsModulus(p) && AreBits(a) && |a| > 0
    ensures r == if Value(a) < Truncate(c, |a|) then 1 else 0
  {
    hide Mod, Mul, Add, Sub, Truncate;
    var firstDiffBit := FirstDifferingBit(p, a, c);
    OneHotSelectsComparison(p, a, c, firstDiffBit);
    r := SumOfProducts(p, firstDiffBit, NotBits(p, a));
  }

  /** What the random-bits generator supplies: an element and its bits, as many as the prime has. */
  datatype RandomBits = RandomBits(value: int, bits: seq<int>)

  predicate IsRandomBits(p: int, r: RandomBits)
    requires IsModulus(p)
  {
    IsElement(p, r.value) && AreBits(r.bits) && |r.bits| == BitLength(p) && Value(r.bits) == r.value
  }

  method GreaterThanConstant(p: int, r: RandomBits, a: int, c: int) returns (result: int)
    requires IsModulus(p) && IsElement(p, a) && IsElement(p, c) && IsRandomBits(p, r)
    ensures result == if a > c then 1 else 0
  {
    hide Mod, Mul, Add, Sub, Truncate;
    var b := Add(p, r.value, a);
    var bounds := ComputeRBounds(b, c, p);
    BitLengthBounds(p);
    TruncateFits(bounds.rLo, |r.bits|);
    TruncateFits(bounds.rHi, |r.bits|);
    var aboveLow := BitwiseGreaterThanConstant(p, r.bits, bounds.rLo);
    var belowHigh := BitwiseLessThanConstant(p, r.bits, bounds.rHi);
    var inRange := Mul(p, aboveLow, belowHigh);
    MulBit(p, aboveLow, belowHigh);
    BoundsDecideComparison(p, a, r.value, c);
    if bounds.invert {
      NotBit(p, inRange);
      result := Sub(p, 1, inRange);
    } else {
      result := inRange;
    }
  }
}
