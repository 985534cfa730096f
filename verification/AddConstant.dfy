/** `add_constant`: ripple-carry addition of a public constant to a bitwise-shared number. */
module AddConstant {
  import opened PrimeField
  import opened Bits

  /** The next carry: a product where the constant has a zero, an OR where it has a one. */
  function NextCarry(p: int, constantBit: int, carry: int, bit: int, product: int): (r: int)
    requires IsModulus(p)
  {
    if constantBit == 1 then Add(p, Add(p, Sub(p, 0, product), carry), bit) else product
  }

  /** `-2 * next_carry + constant bit + bit + carry`. */
  function ResultBit(p: int, constantBit: int, carry: int, bit: int, nextCarry: int): (r: int)
    requires IsModulus(p)
  {
    var doubled := Sub(p, 0, Mul(p, nextCarry, Mod(p, 2)));
    if constantBit == 1
    then Add(p, Add(p, Add(p, doubled, 1), bit), carry)
    else Add(p, Add(p, doubled, bit), carry)
  }

  lemma NextCarryIsMajority(p: int, constantBit: int, carry: int, bit: int, product: int)
    requires IsModulus(p) && IsBit(constantBit) && IsBit(carry) && IsBit(bit)
    requires product == if carry == 1 && bit == 1 then 1 else 0
    ensures NextCarry(p, constantBit, carry, bit, product) == if constantBit + carry + bit >= 2 then 1 else 0
  {
    SubElements(p, 0, product);
    AddElements(p, Sub(p, 0, product), carry);
    AddElements(p, Add(p, Sub(p, 0, product), carry), bit);
  }

  lemma DoubledCarry(p: int, nextCarry: int)
    requires IsModulus(p) && IsBit(nextCarry)
    ensures Sub(p, 0, Mul(p, nextCarry, Mod(p, 2))) == Mod(p, -2 * nextCarry)
  {
    hide Mod, Mul;
    MulBit(p, nextCarry, Mod(p, 2));
    if nextCarry == 1 {
      var q := ModQuotient(p, 2);
      ModOfMultiple(p, -2, q);
      assert -2 + q * p == 0 - Mod(p, 2);
    }
  }

  lemma ResultBitIsSum(p: int, constantBit: int, carry: int, bit: int, nextCarry: int)
    requires IsModulus(p) && IsBit(constantBit) && IsBit(carry) && IsBit(bit)
    requires nextCarry == if constantBit + carry + bit >= 2 then 1 else 0
    ensures ResultBit(p, constantBit, carry, bit, nextCarry) == constantBit + carry + bit - 2 * nextCarry
  {
    hide Mod, Mul, Sub;
    DoubledCarry(p, nextCarry);
    ModAddLeft(p, -2 * nextCarry, 1);
    ModAddLeft(p, -2 * nextCarry + constantBit, bit);
    ModAddLeft(p, -2 * nextCarry + constantBit + bit, carry);
    ElementMod(p, constantBit + carry + bit - 2 * nextCarry);
  }

  lemma StepKeepsSum(a: seq<int>, b: nat, k: nat, output: seq<int>, carry: int, result: int, nextCarry: int)
    requires k < |a| && |output| == k
    requires Value(output) + Pow2(k) * carry == Value(a[..k]) + Value(BitsOf(b, k))
    requires result == BitOf(b, k) + carry + a[k] - 2 * nextCarry
    ensures Value(output + [result]) + Pow2(k + 1) * nextCarry == Value(a[..k + 1]) + Value(BitsOf(b, k + 1))
  {
    ValueAppend(output, result);
    ValueAppend(a[..k], a[k]);
    assert a[..k] + [a[k]] == a[..k + 1];
    ValueAppend(BitsOf(b, k), BitOf(b, k));
    assert BitsOf(b, k) + [BitOf(b, k)] == BitsOf(b, k + 1);
    WeightedSum(Pow2(k), BitOf(b, k), carry, a[k], nextCarry, result);
    assert Pow2(k + 1) == 2 * Pow2(k);
  }

  lemma WeightedSum(w: int, x: int, y: int, z: int, c: int, result: int)
    requires result == x + y + z - 2 * c
    ensures w * result + 2 * w * c == w * x + w * y + w * z
  {
    assert w * result == w * x + w * y + w * z - w * (2 * c);
    assert w * (2 * c) == 2 * w * c;
  }

  method AddConstant(p: int, a: seq<int>, b: nat) returns (output: seq<int>)
    requires IsModulus(p) && AreBits(a) && |a| > 0
    ensures |output| == |a| + 1 && AreBits(output)
    ensures Value(output) == Value(a) + Truncate(b, |a|)
  {
    var knownZero := b % 2 == 0;
    var lastCarry := if knownZero then 0 else a[0];
    NotBit(p, a[0]);
    output := [if knownZero then a[0] else Sub(p, 1, a[0])];
    assert a[..1] == [a[0]] && BitsOf(b, 1) == [b % 2];
    assert Value(output) + Pow2(1) * lastCarry == Value(a[..1]) + Value(BitsOf(b, 1));
    hide Mod, Mul, Add, Sub, Value, Pow2, BitsOf, NextCarry, ResultBit, Truncate;
    for k := 1 to |a|
      invariant |output| == k && AreBits(output) && IsBit(lastCarry)
      invariant knownZero ==> lastCarry == 0
      invariant Value(output) + Pow2(k) * lastCarry == Value(a[..k]) + Value(BitsOf(b, k))
    {
      var bit := a[k];
      MulBit(p, lastCarry, bit);
      var product := if knownZero then 0 else Mul(p, lastCarry, bit);
      var constantBit := BitOf(b, k);
      var nextCarry := NextCarry(p, constantBit, lastCarry, bit, product);
      NextCarryIsMajority(p, constantBit, lastCarry, bit, product);
      if constantBit == 1 {
        knownZero := false;
      }
      var resultBit := ResultBit(p, constantBit, lastCarry, bit, nextCarry);
      ResultBitIsSum(p, constantBit, lastCarry, bit, nextCarry);
      StepKeepsSum(a, b, k, output, lastCarry, resultBit, nextCarry);
      output := output + [resultBit];
      lastCarry := nextCarry;
    }
    ValueAppend(output, lastCarry);
    assert a[..|a|] == a;
    BitsOfIsTruncation(b, |a|);
    output := output + [lastCarry];
  }
}
