/** The two log-depth scans of `attribution/mod.rs`.

    Both double their step on every round and overwrite values and stop bits in place.  Both are
    proved equal to the linear right-to-left recurrence, although stop bits at and past
    `next_end` are never refreshed and go stale. */
module SegmentedScan {
  import opened PrimeField

  function Min(a: int, b: int): int { if a <= b then a else b }

  /** `v[i] + stop[i] * (v[i+1] + stop[i+1] * (...))`, over the rows `i..e`. */
  function SumOver(p: int, stop: seq<int>, v: seq<int>, i: int, e: int): (r: int)
    requires IsModulus(p) && 0 <= i < e <= |v| <= |stop| + 1
    decreases e - i
  {
    if i + 1 == e then v[i] else Add(p, v[i], Mul(p, stop[i], SumOver(p, stop, v, i + 1, e)))
  }

  function ProductOver(p: int, stop: seq<int>, i: int, e: int): (r: int)
    requires IsModulus(p) && 0 <= i < e <= |stop|
    decreases e - i
  {
    if i + 1 == e then stop[i] else Mul(p, stop[i], ProductOver(p, stop, i + 1, e))
  }

  /** The linear reference: row `i` holds `v[i] + stop[i] * (row i+1)`. */
  function SegmentedSums(p: int, stop: seq<int>, v: seq<int>): (out: seq<int>)
    requires IsModulus(p) && |v| <= |stop| + 1
    ensures |out| == |v|
  {
    seq(|v|, i requires 0 <= i < |v| => SumOver(p, stop, v, i, |v|))
  }

  lemma SumsStep(p: int, stop: seq<int>, v: seq<int>, i: int)
    requires IsModulus(p) && 0 <= i < |v| <= |stop| + 1
    ensures
      var out := SegmentedSums(p, stop, v);
      out[i] == if i + 1 < |v| then Add(p, v[i], Mul(p, stop[i], out[i + 1])) else v[i]
  {
    hide Mod, Mul, Add, Sub;
  }

  lemma {:induction false} SumOverSplits(p: int, stop: seq<int>, v: seq<int>, i: int, m: int, e: int)
    requires IsModulus(p) && 0 <= i < m < e <= |v| <= |stop| + 1
    ensures SumOver(p, stop, v, i, e)
         == Add(p, SumOver(p, stop, v, i, m), Mul(p, ProductOver(p, stop, i, m), SumOver(p, stop, v, m, e)))
    decreases m - i
  {
    hide Mod, Mul, Add, Sub;
    if i + 1 < m {
      var s, near, prod, far := stop[i], SumOver(p, stop, v, i + 1, m), ProductOver(p, stop, i + 1, m), SumOver(p, stop, v, m, e);
      calc {
        SumOver(p, stop, v, i, e);
        Add(p, v[i], Mul(p, s, SumOver(p, stop, v, i + 1, e)));
        { SumOverSplits(p, stop, v, i + 1, m, e); }
        Add(p, v[i], Mul(p, s, Add(p, near, Mul(p, prod, far))));
        { MulDistributes(p, s, near, Mul(p, prod, far)); }
        Add(p, v[i], Add(p, Mul(p, s, near), Mul(p, s, Mul(p, prod, far))));
        { MulAssociates(p, s, prod, far); }
        Add(p, v[i], Add(p, Mul(p, s, near), Mul(p, Mul(p, s, prod), far)));
        { AddAssociates(p, v[i], Mul(p, s, near), Mul(p, Mul(p, s, prod), far)); }
        Add(p, Add(p, v[i], Mul(p, s, near)), Mul(p, Mul(p, s, prod), far));
      }
    }
  }

  lemma {:induction false} ProductOverSplits(p: int, stop: seq<int>, i: int, m: int, e: int)
    requires IsModulus(p) && 0 <= i < m < e <= |stop|
    ensures ProductOver(p, stop, i, e) == Mul(p, ProductOver(p, stop, i, m), ProductOver(p, stop, m, e))
    decreases m - i
  {
    hide Mod, Mul, Add, Sub;
    if i + 1 < m {
      ProductOverSplits(p, stop, i + 1, m, e);
      MulAssociates(p, stop[i], ProductOver(p, stop, i + 1, m), ProductOver(p, stop, m, e));
    }
  }

  /** What a round with step `step` relies on: each value already covers `step` rows, and the stop
      bits that can still be read (those before `|v| - step`) are products of `step` stop bits. */
  ghost predicate CoversStep(p: int, stop0: seq<int>, v0: seq<int>, stop: seq<int>, v: seq<int>, step: nat)
    requires IsModulus(p) && |v0| <= |stop0| + 1
  {
    && |v| == |v0| && |stop| == |stop0| && step > 0
    && (forall i :: 0 <= i < |v| ==> v[i] == SumOver(p, stop0, v0, i, Min(i + step, |v|)))
    && (forall i :: 0 <= i < |v| - step ==> stop[i] == ProductOver(p, stop0, i, i + step))
  }

  /** The stop bits after a round: `stop_bits[i] * stop_bits[i + step]` before `next_end`, stale after. */
  function NextStop(p: int, stop: seq<int>, numRows: nat, step: nat): (r: seq<int>)
    requires IsModulus(p) && numRows <= |stop| + 1 && 0 < step < numRows
    ensures |r| == |stop|
  {
    var nextEnd := if 2 * step <= numRows then numRows - 2 * step else 0;
    seq(nextEnd, i requires 0 <= i < nextEnd => Mul(p, stop[i], stop[i + step])) + stop[nextEnd..]
  }

  /** The products added to the values before `end` in a round. */
  function ValueUpdates(p: int, stop: seq<int>, v: seq<int>, step: nat): (r: seq<int>)
    requires IsModulus(p) && |v| <= |stop| + 1 && 0 < step < |v|
    ensures |r| == |v| - step
  {
    seq(|v| - step, i requires 0 <= i < |v| - step => Mul(p, stop[i], v[i + step]))
  }

  lemma RoundDoublesValue(p: int, stop0: seq<int>, v0: seq<int>, stop: seq<int>, v: seq<int>, step: nat, i: int)
    requires IsModulus(p) && |v0| <= |stop0| + 1 && 0 < step < |v0|
    requires CoversStep(p, stop0, v0, stop, v, step) && 0 <= i < |v0| - step
    ensures Add(p, v[i], ValueUpdates(p, stop, v, step)[i]) == SumOver(p, stop0, v0, i, Min(i + 2 * step, |v0|))
  {
    hide Mod, Mul, Add, Sub;
    SumOverSplits(p, stop0, v0, i, i + step, Min(i + 2 * step, |v0|));
  }

  lemma RoundDoublesStop(p: int, stop0: seq<int>, v0: seq<int>, stop: seq<int>, v: seq<int>, step: nat, i: int)
    requires IsModulus(p) && |v0| <= |stop0| + 1 && 0 < step < |v0|
    requires CoversStep(p, stop0, v0, stop, v, step) && 0 <= i < |v0| - 2 * step
    ensures NextStop(p, stop, |v|, step)[i] == ProductOver(p, stop0, i, i + 2 * step)
  {
    hide *;
    StopCovers(p, stop0, v0, stop, v, step, i);
    StopCovers(p, stop0, v0, stop, v, step, i + step);
    NextStopAt(p, stop, |v|, step, i);
    ProductOverSplits(p, stop0, i, i + step, i + 2 * step);
  }

  lemma StopCovers(p: int, stop0: seq<int>, v0: seq<int>, stop: seq<int>, v: seq<int>, step: nat, i: int)
    requires IsModulus(p) && |v0| <= |stop0| + 1 && CoversStep(p, stop0, v0, stop, v, step) && 0 <= i < |v0| - step
    ensures |v| == |v0| && |stop| == |stop0| && stop[i] == ProductOver(p, stop0, i, i + step)
  {
    hide Mod, ProductOver, SumOver;
  }

  lemma NextStopAt(p: int, stop: seq<int>, numRows: nat, step: nat, i: int)
    requires IsModulus(p) && numRows <= |stop| + 1 && 0 < step < numRows && 0 <= i < numRows - 2 * step
    ensures NextStop(p, stop, numRows, step)[i] == Mul(p, stop[i], stop[i + step])
  {
    hide Mod, Mul;
  }

  lemma RoundDoublesStep(p: int, stop0: seq<int>, v0: seq<int>, stop: seq<int>, v: seq<int>, step: nat, v': seq<int>)
    requires IsModulus(p) && |v0| <= |stop0| + 1 && 0 < step < |v0|
    requires CoversStep(p, stop0, v0, stop, v, step)
    requires |v'| == |v| && v'[|v| - step..] == v[|v| - step..]
    requires forall i :: 0 <= i < |v| - step ==> v'[i] == Add(p, v[i], ValueUpdates(p, stop, v, step)[i])
    ensures CoversStep(p, stop0, v0, NextStop(p, stop, |v|, step), v', 2 * step)
  {
    hide Mod, Mul, Add, Sub;
    var n := |v|;
    forall i | 0 <= i < n
      ensures v'[i] == SumOver(p, stop0, v0, i, Min(i + 2 * step, n))
    {
      if i < n - step {
        RoundDoublesValue(p, stop0, v0, stop, v, step, i);
      } else {
        assert v'[i] == v'[n - step..][i - (n - step)] == v[n - step..][i - (n - step)];
      }
    }
    forall i | 0 <= i < n - 2 * step
      ensures NextStop(p, stop, n, step)[i] == ProductOver(p, stop0, i, i + 2 * step)
    {
      RoundDoublesStop(p, stop0, v0, stop, v, step, i);
    }
  }

  lemma CoversOne(p: int, stop: seq<int>, v: seq<int>)
    requires IsModulus(p) && |v| <= |stop| + 1
    ensures CoversStep(p, stop, v, stop, v, 1)
  {
    hide Mod, Mul, Add, Sub;
  }

  lemma CoversAll(p: int, stop0: seq<int>, v0: seq<int>, stop: seq<int>, v: seq<int>, step: nat)
    requires IsModulus(p) && |v0| <= |stop0| + 1 && step >= |v0| && CoversStep(p, stop0, v0, stop, v, step)
    ensures v == SegmentedSums(p, stop0, v0)
  {
    hide Mod, Mul, Add, Sub, SumOver;
  }

  method DoTheBinaryTreeThing(p: int, stopBits: seq<int>, values: array<int>)
    requires IsModulus(p) && values.Length <= |stopBits| + 1
    modifies values
    ensures values[..] == SegmentedSums(p, stopBits, old(values[..]))
  {
    hide Mod, Mul, Add, Sub, CoversStep, NextStop, ValueUpdates, SegmentedSums;
    var numRows := values.Length;
    ghost var v0 := values[..];
    var stop := stopBits;
    var step := 1;
    CoversOne(p, stop, v0);
    while step < numRows
      invariant step > 0 && |stop| == |stopBits|
      invariant CoversStep(p, stopBits, v0, stop, values[..], step)
      decreases numRows - step
    {
      ghost var v := values[..];
      var valueUpdates := ValueUpdates(p, stop, values[..], step);
      ghost var s := stop;
      stop := NextStop(p, stop, numRows, step);
      AddUpdates(p, values, valueUpdates);
      RoundDoublesStep(p, stopBits, v0, s, v, step, values[..]);
      step := 2 * step;
    }
    CoversAll(p, stopBits, v0, stop, values[..], step);
  }

  /** `values[i] += update` for every update. */
  method AddUpdates(p: int, values: array<int>, updates: seq<int>)
    requires IsModulus(p) && |updates| <= values.Length
    modifies values
    ensures forall j :: 0 <= j < |updates| ==> values[j] == Add(p, old(values[j]), updates[j])
    ensures values[|updates|..] == old(values[|updates|..])
  {
    hide Mod, Mul, Add, Sub;
    for i := 0 to |updates|
      invariant forall j :: 0 <= j < i ==> values[j] == Add(p, old(values[j]), updates[j])
      invariant forall j :: i <= j < values.Length ==> values[j] == old(values[j])
    {
      values[i] := Add(p, values[i], updates[i]);
    }
  }

  // ---------------------------------------------------------------- prefix OR

  /** `v[i] or (stop[i] and (v[i+1] or ...))`, over the rows `i..e`. */
  function OrOver(stop: seq<int>, v: seq<int>, i: int, e: int): (r: int)
    requires 0 <= i < e <= |v| <= |stop| + 1 && AreBits(v)
    ensures IsBit(r)
    decreases e - i
  {
    if i + 1 == e || v[i] == 1 then v[i] else if stop[i] == 1 then OrOver(stop, v, i + 1, e) else 0
  }

  function AllStop(stop: seq<int>, i: int, e: int): (r: int)
    requires 0 <= i < e <= |stop|
  {
    if forall k :: i <= k < e ==> stop[k] == 1 then 1 else 0
  }

  /** The linear reference: row `i` holds `v[i] or (stop[i] and row i+1)`. */
  function SegmentedOrs(stop: seq<int>, v: seq<int>): (out: seq<int>)
    requires |v| <= |stop| + 1 && AreBits(v)
    ensures |out| == |v| && AreBits(out)
  {
    seq(|v|, i requires 0 <= i < |v| => OrOver(stop, v, i, |v|))
  }

  lemma OrsStep(stop: seq<int>, v: seq<int>, i: int)
    requires 0 <= i < |v| <= |stop| + 1 && AreBits(v)
    ensures
      var out := SegmentedOrs(stop, v);
      out[i] == if v[i] == 1 || (i + 1 < |v| && stop[i] == 1 && out[i + 1] == 1) then 1 else 0
  {
  }

  lemma {:induction false} OrOverSplits(stop: seq<int>, v: seq<int>, i: int, m: int, e: int)
    requires 0 <= i < m < e <= |v| <= |stop| + 1 && AreBits(v)
    ensures OrOver(stop, v, i, e)
         == if OrOver(stop, v, i, m) == 1 || (AllStop(stop, i, m) == 1 && OrOver(stop, v, m, e) == 1) then 1 else 0
    decreases m - i
  {
    if i + 1 < m {
      OrOverSplits(stop, v, i + 1, m, e);
    }
  }

  /** No row holding 1 continues into a row holding 1: the promise behind `should_add_on_first_iteration`. */
  predicate NoAdjacentOnes(stop: seq<int>, v: seq<int>)
    requires |v| <= |stop| + 1
  {
    forall i :: 0 <= i < |v| - 1 ==> !(v[i] == 1 && stop[i] == 1 && v[i + 1] == 1)
  }

  ghost predicate OrCoversStep(stop0: seq<int>, v0: seq<int>, stop: seq<int>, v: seq<int>, step: nat)
    requires |v0| <= |stop0| + 1 && AreBits(v0)
  {
    && |v| == |v0| && |stop| == |stop0| && step > 0
    && (forall i :: 0 <= i < |v| ==> v[i] == OrOver(stop0, v0, i, Min(i + step, |v|)))
    && (forall i :: 0 <= i < |v| - step ==> stop[i] == AllStop(stop0, i, i + step))
  }

  /** One credit update: an addition on a first round that may add, and the OR protocol otherwise. */
  function OrUpdate(p: int, add: bool, current: int, stopBit: int, sibling: int): (r: int)
    requires IsModulus(p)
    ensures IsElement(p, r)
  {
    var update := Mul(p, stopBit, sibling);
    if add then Add(p, update, current) else Or(p, current, update)
  }

  lemma OrUpdateIsOr(p: int, add: bool, current: int, stopBit: int, sibling: int)
    requires IsModulus(p) && IsBit(current) && IsBit(stopBit) && IsBit(sibling)
    requires add ==> !(current == 1 && stopBit == 1 && sibling == 1)
    ensures OrUpdate(p, add, current, stopBit, sibling)
         == if current == 1 || (stopBit == 1 && sibling == 1) then 1 else 0
  {
    hide Mod, Mul, Add, Sub;
    MulBit(p, stopBit, sibling);
    var update := Mul(p, stopBit, sibling);
    AddElements(p, update, current);
    OrOfBits(p, current, update);
  }

  /** The credit updates of a round, for the rows before `end`. */
  function CreditUpdates(p: int, stop: seq<int>, v: seq<int>, step: nat, add: bool): (r: seq<int>)
    requires IsModulus(p) && |v| <= |stop| + 1 && 0 < step < |v|
    ensures |r| == |v| - step
  {
    seq(|v| - step, i requires 0 <= i < |v| - step => OrUpdate(p, add, v[i], stop[i], v[i + step]))
  }

  lemma OrRoundDoublesCredit(p: int, stop0: seq<int>, v0: seq<int>, stop: seq<int>, v: seq<int>, step: nat, add: bool, i: int)
    requires IsModulus(p) && |v0| <= |stop0| + 1 && 0 < step < |v0| && AreBits(v0) && AreBits(stop0)
    requires OrCoversStep(stop0, v0, stop, v, step) && 0 <= i < |v0| - step
    requires add ==> step == 1 && NoAdjacentOnes(stop0, v0)
    ensures CreditUpdates(p, stop, v, step, add)[i] == OrOver(stop0, v0, i, Min(i + 2 * step, |v0|))
  {
    hide *;
    var end := Min(i + 2 * step, |v0|);
    DoubledEnd(i, step, |v0|);
    OrCovers(stop0, v0, stop, v, step, i);
    OrCovers(stop0, v0, stop, v, step, i + step);
    OrOverSplits(stop0, v0, i, i + step, end);
    if add {
      FirstRoundApart(stop0, v0, stop, v, i);
    }
    OrUpdateIsOr(p, add, v[i], stop[i], v[i + step]);
    CreditUpdateAt(p, stop, v, step, add, i);
  }

  lemma DoubledEnd(i: int, step: nat, n: nat)
    requires 0 <= i < n - step && step > 0
    ensures i + step < Min(i + 2 * step, n) <= n && Min(i + step, n) == i + step
    ensures Min(i + step + step, n) == Min(i + 2 * step, n)
  {
  }

  lemma OrCovers(stop0: seq<int>, v0: seq<int>, stop: seq<int>, v: seq<int>, step: nat, i: int)
    requires |v0| <= |stop0| + 1 && AreBits(v0) && OrCoversStep(stop0, v0, stop, v, step) && 0 <= i < |v0|
    ensures |v| == |v0| && |stop| == |stop0| && step > 0
    ensures v[i] == OrOver(stop0, v0, i, Min(i + step, |v0|)) && IsBit(v[i])
    ensures i < |v0| - step ==> stop[i] == AllStop(stop0, i, i + step) && IsBit(stop[i])
  {
    assert i < |v0| - step ==> stop[i] == AllStop(stop0, i, i + step);
    hide OrOver;
  }

  lemma CreditUpdateAt(p: int, stop: seq<int>, v: seq<int>, step: nat, add: bool, i: int)
    requires IsModulus(p) && |v| <= |stop| + 1 && 0 < step < |v| && 0 <= i < |v| - step
    ensures CreditUpdates(p, stop, v, step, add)[i] == OrUpdate(p, add, v[i], stop[i], v[i + step])
  {
    hide OrUpdate, Mod, Mul, Add, Sub;
  }

  lemma FirstRoundApart(stop0: seq<int>, v0: seq<int>, stop: seq<int>, v: seq<int>, i: int)
    requires |v0| <= |stop0| + 1 && AreBits(v0) && OrCoversStep(stop0, v0, stop, v, 1) && NoAdjacentOnes(stop0, v0)
    requires 0 <= i < |v0| - 1
    ensures !(v[i] == 1 && stop[i] == 1 && v[i + 1] == 1)
  {
    assert v[i] == OrOver(stop0, v0, i, i + 1) == v0[i];
    assert v[i + 1] == OrOver(stop0, v0, i + 1, i + 2) == v0[i + 1];
    assert stop[i] == AllStop(stop0, i, i + 1);
    assert stop0[i] == 1 || AllStop(stop0, i, i + 1) == 0;
  }

  lemma OrRoundDoublesStop(p: int, stop0: seq<int>, v0: seq<int>, stop: seq<int>, v: seq<int>, step: nat, i: int)
    requires IsModulus(p) && |v0| <= |stop0| + 1 && 0 < step < |v0| && AreBits(v0)
    requires OrCoversStep(stop0, v0, stop, v, step) && 0 <= i < |v0| - 2 * step
    ensures NextStop(p, stop, |v|, step)[i] == AllStop(stop0, i, i + 2 * step)
  {
    hide Mod, Mul, Add, Sub;
    assert stop[i] == AllStop(stop0, i, i + step) && stop[i + step] == AllStop(stop0, i + step, i + 2 * step);
    MulBit(p, stop[i], stop[i + step]);
  }

  lemma OrRoundDoublesStep(p: int, stop0: seq<int>, v0: seq<int>, stop: seq<int>, v: seq<int>, step: nat, add: bool)
    requires IsModulus(p) && |v0| <= |stop0| + 1 && 0 < step < |v0| && AreBits(v0) && AreBits(stop0)
    requires OrCoversStep(stop0, v0, stop, v, step)
    requires add ==> step == 1 && NoAdjacentOnes(stop0, v0)
    ensures OrCoversStep(stop0, v0, NextStop(p, stop, |v|, step),
                         CreditUpdates(p, stop, v, step, add) + v[|v| - step..], 2 * step)
  {
    hide Mod, Mul, Add, Sub;
    var n, v' := |v|, CreditUpdates(p, stop, v, step, add) + v[|v| - step..];
    forall i | 0 <= i < n
      ensures v'[i] == OrOver(stop0, v0, i, Min(i + 2 * step, n))
    {
      if i < n - step {
        OrRoundDoublesCredit(p, stop0, v0, stop, v, step, add, i);
      }
    }
    forall i | 0 <= i < n - 2 * step
      ensures NextStop(p, stop, n, step)[i] == AllStop(stop0, i, i + 2 * step)
    {
      OrRoundDoublesStop(p, stop0, v0, stop, v, step, i);
    }
  }

  lemma OrCoversOne(stop: seq<int>, v: seq<int>)
    requires |v| <= |stop| + 1 && AreBits(v) && AreBits(stop)
    ensures OrCoversStep(stop, v, stop, v, 1)
  {
  }

  lemma OrCoversAll(stop0: seq<int>, v0: seq<int>, stop: seq<int>, v: seq<int>, step: nat)
    requires |v0| <= |stop0| + 1 && AreBits(v0) && step >= |v0| && OrCoversStep(stop0, v0, stop, v, step)
    ensures v == SegmentedOrs(stop0, v0)
  {
    hide OrOver;
  }

  method PrefixOrBinaryTreeStyle(p: int, stopBits: seq<int>, uncappedCredits: seq<int>, addOnFirst: bool)
    returns (credits: seq<int>)
    requires IsModulus(p) && |stopBits| + 1 == |uncappedCredits|
    requires AreBits(stopBits) && AreBits(uncappedCredits)
    requires addOnFirst ==> NoAdjacentOnes(stopBits, uncappedCredits)
    ensures credits == SegmentedOrs(stopBits, uncappedCredits)
  {
    hide Mod, Mul, Add, Sub, OrCoversStep, NextStop, CreditUpdates, SegmentedOrs;
    var numRows := |uncappedCredits|;
    credits := uncappedCredits;
    var stop := stopBits;
    var step := 1;
    OrCoversOne(stop, credits);
    while step < numRows
      invariant step > 0 && |stop| == |stopBits| && |credits| == numRows
      invariant OrCoversStep(stopBits, uncappedCredits, stop, credits, step)
      decreases numRows - step
    {
      var firstIteration := step == 1;
      var end := numRows - step;
      var creditUpdates := CreditUpdates(p, stop, credits, step, firstIteration && addOnFirst);
      OrRoundDoublesStep(p, stopBits, uncappedCredits, stop, credits, step, firstIteration && addOnFirst);
      stop := NextStop(p, stop, numRows, step);
      credits := creditUpdates + credits[end..];
      step := 2 * step;
    }
    OrCoversAll(stopBits, uncappedCredits, stop, credits, step);
  }
}
