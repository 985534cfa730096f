/** Little-endian bit strings and the integers they denote. */
module Bits {
  import opened PrimeField

  function Value(bits: seq<int>): (r: int)
  {
    if bits == [] then 0 else bits[0] + 2 * Value(bits[1..])
  }

  /** `(c >> i) & 1`. */
  function BitOf(c: nat, i: nat): (r: int)
    ensures IsBit(r)
    decreases i
  {
    if i == 0 then c % 2 else BitOf(c / 2, i - 1)
  }

  function BitsOf(c: nat, length: nat): (r: seq<int>)
    ensures |r| == length && AreBits(r)
  {
    seq(length, i requires 0 <= i < length => BitOf(c, i))
  }

  function Pow2(n: nat): (r: nat)
    ensures r >= 1
  {
    if n == 0 then 1 else 2 * Pow2(n - 1)
  }

  /** `u128::BITS - x.leading_zeros()`. */
  function BitLength(x: nat): (r: nat)
  {
    if x == 0 then 0 else 1 + BitLength(x / 2)
  }

  lemma BitLengthBounds(x: nat)
    ensures x < Pow2(BitLength(x))
    ensures x > 0 ==> BitLength(x) > 0 && Pow2(BitLength(x) - 1) <= x
  {
  }

  /** The number in the low `length` bits of `c`. */
  function Truncate(c: nat, length: nat): (r: nat)
    ensures r < Pow2(length)
  {
    c % Pow2(length)
  }

  lemma TruncateFits(c: nat, length: nat)
    requires c < Pow2(length)
    ensures Truncate(c, length) == c
  {
    if length > 0 {
      ElementMod(Pow2(length), c);
    }
  }

  lemma TruncationStep(b: nat, m: nat)
    requires m >= 1
    ensures b % (2 * m) == b % 2 + 2 * ((b / 2) % m)
  {
    var half := b / 2;
    var q, r := half / m, half % m;
    assert half == q * m + r;
    assert b == q * (2 * m) + (b % 2 + 2 * r) by {
      assert q * (2 * m) == 2 * (q * m);
    }
    ModIs(2 * m, b, q, b % 2 + 2 * r);
  }

  /** The low `length` bits of `b` denote its truncation. */
  lemma {:induction false} BitsOfIsTruncation(b: nat, length: nat)
    ensures Value(BitsOf(b, length)) == Truncate(b, length)
  {
    if length > 0 {
      BitsOfIsTruncation(b / 2, length - 1);
      assert BitsOf(b, length)[1..] == BitsOf(b / 2, length - 1);
      TruncationStep(b, Pow2(length - 1));
    }
  }

  /** `k` is the highest index where `x` and `y` differ. */
  predicate DifferFirstAt(x: seq<int>, y: seq<int>, k: int)
    requires |x| == |y|
  {
    0 <= k < |x| && x[k] != y[k] && forall j :: k < j < |x| ==> x[j] == y[j]
  }

  lemma {:induction false} HighestDifferenceDecides(x: seq<int>, y: seq<int>, k: int)
    requires |x| == |y| && AreBits(x) && AreBits(y) && DifferFirstAt(x, y, k)
    ensures if x[k] == 1 then Value(x) > Value(y) else Value(x) < Value(y)
  {
    assert AreBits(x[1..]) && AreBits(y[1..]);
    if k == 0 {
      assert x[1..] == y[1..];
    } else {
      assert forall j :: 0 <= j < |x| - 1 ==> x[1..][j] == x[j + 1] && y[1..][j] == y[j + 1];
      HighestDifferenceDecides(x[1..], y[1..], k - 1);
    }
  }

  lemma {:induction false} ValueAppend(bits: seq<int>, b: int)
    ensures Value(bits + [b]) == Value(bits) + Pow2(|bits|) * b
  {
    if bits == [] {
      assert [b][1..] == [];
      assert bits + [b] == [b];
    } else {
      ValueAppend(bits[1..], b);
      assert (bits + [b])[1..] == bits[1..] + [b];
      assert Pow2(|bits|) * b == 2 * (Pow2(|bits| - 1) * b);
    }
  }
}
