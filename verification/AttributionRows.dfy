/** Rows of the attribution protocols, and the plain-language reference for who gets credit. */
module AttributionRows {
  import opened Wrappers
  import opened PrimeField

  /** How the pipeline fails.  `ComparisonPanic` stands for the assertion that the constant of a
      comparison is below the modulus, `SlicePanic` for a slice that starts beyond its end. */
  datatype AttributionError = InvalidQueryParameter | ComparisonPanic | SlicePanic

  /** A sorted IPA row: what its shares reconstruct to. */
  datatype Row = Row(matchKey: int, timestamp: int, isTrigger: int, value: int)

  /** Output of the window step, `AccumulateCreditInputRow`. */
  datatype WindowedRow = WindowedRow(isTrigger: int, helper: int, activeBit: int, value: int)

  /** Output of the accumulation step, `CreditCappingInputRow`. */
  datatype CreditRow = CreditRow(isTrigger: int, helper: int, value: int)

  predicate AreRows(p: int, rows: seq<Row>)
  {
    forall i :: 0 <= i < |rows| ==>
      IsElement(p, rows[i].timestamp) && IsBit(rows[i].isTrigger) && IsElement(p, rows[i].value)
  }

  predicate AreCreditRows(p: int, rows: seq<CreditRow>)
  {
    forall i :: 0 <= i < |rows| ==>
      IsBit(rows[i].isTrigger) && IsBit(rows[i].helper) && IsElement(p, rows[i].value)
  }

  // ---------------------------------------------------------------- users

  /** Row `i` belongs to the user of the row above it. */
  predicate Continues(rows: seq<Row>, i: int)
  {
    0 < i < |rows| && rows[i].matchKey == rows[i - 1].matchKey
  }

  /** Helper bit of every row; the first is 0. */
  function HelperBits(rows: seq<Row>): (r: seq<int>)
    ensures |r| == |rows| && AreBits(r)
  {
    seq(|rows|, i requires 0 <= i < |rows| => if Continues(rows, i) then 1 else 0)
  }

  predicate SameUser(rows: seq<Row>, i: int, j: int)
  {
    0 <= i <= j < |rows| && forall k :: i < k <= j ==> Continues(rows, k)
  }

  // ---------------------------------------------------------------- last touch

  /** `s` is the nearest source before the trigger `t`, and of the same user. */
  predicate Attributed(rows: seq<Row>, s: int, t: int)
  {
    && 0 <= s < t < |rows| && rows[s].isTrigger == 0
    && forall k :: s < k <= t ==> rows[k].isTrigger == 1 && Continues(rows, k)
  }

  /** The time from `s` to `t`, as the field computes it, is within the window. */
  predicate InWindow(p: int, rows: seq<Row>, window: Option<nat>, s: int, t: int)
    requires IsModulus(p) && 0 <= s < |rows| && 0 <= t < |rows|
  {
    window.None? || Sub(p, rows[t].timestamp, rows[s].timestamp) <= window.value
  }

  predicate Touches(p: int, rows: seq<Row>, window: Option<nat>, s: int, t: int)
    requires IsModulus(p)
  {
    Attributed(rows, s, t) && InWindow(p, rows, window, s, t)
  }

  /** Integer sum of the values of the triggers from row `from` on that credit the source `s`. */
  function TouchSum(p: int, rows: seq<Row>, window: Option<nat>, s: int, from: int): (r: int)
    requires IsModulus(p) && 0 <= from <= |rows|
    decreases |rows| - from
  {
    if from == |rows| then 0
    else (if Touches(p, rows, window, s, from) then rows[from].value else 0) + TouchSum(p, rows, window, s, from + 1)
  }

  /** Last-touch credit of a row: nothing for a trigger; its own value (0 in real inputs) plus the
      values of the triggers it is credited with, for a source. */
  function Credit(p: int, rows: seq<Row>, window: Option<nat>, s: int): (r: int)
    requires IsModulus(p) && 0 <= s < |rows|
    ensures IsElement(p, r)
  {
    if rows[s].isTrigger == 1 then 0 else Add(p, rows[s].value, TouchSum(p, rows, window, s, s + 1))
  }

  // ---------------------------------------------------------------- in terms of match keys

  /** The rows of a user stand together, as the sort leaves them. */
  ghost predicate Grouped(rows: seq<Row>)
  {
    forall i, j, k :: 0 <= i < j < k < |rows| && rows[i].matchKey == rows[k].matchKey ==> rows[j].matchKey == rows[i].matchKey
  }

  /** Integer sum of `x` over the rows from `from` on whose match key is `key`. */
  function KeySum(rows: seq<Row>, x: seq<int>, key: int, from: int): (r: int)
    requires 0 <= from <= |x| <= |rows|
    decreases |x| - from
  {
    if from == |x| then 0 else (if rows[from].matchKey == key then x[from] else 0) + KeySum(rows, x, key, from + 1)
  }

  lemma {:induction false} SameUserSameKey(rows: seq<Row>, i: int, j: int)
    requires SameUser(rows, i, j)
    ensures rows[i].matchKey == rows[j].matchKey
    decreases j - i
  {
    if i < j {
      assert Continues(rows, j);
      SameUserSameKey(rows, i, j - 1);
    }
  }

  /** A source is credited with exactly those triggers of the same match key that are separated from
      it by nothing but triggers of that key, and that are in the window. */
  lemma TouchMeans(p: int, rows: seq<Row>, window: Option<nat>, s: int, t: int)
    requires IsModulus(p)
    ensures Touches(p, rows, window, s, t) <==>
      && 0 <= s < t < |rows| && rows[s].isTrigger == 0
      && (forall k :: s < k <= t ==> rows[k].isTrigger == 1 && rows[k].matchKey == rows[s].matchKey)
      && (window.None? || Sub(p, rows[t].timestamp, rows[s].timestamp) <= window.value)
  {
    hide Mod, Sub;
    if Touches(p, rows, window, s, t) {
      forall k | s < k <= t
        ensures rows[k].matchKey == rows[s].matchKey
      {
        SameUserSameKey(rows, s, k);
      }
    }
  }

  // ---------------------------------------------------------------- stop bits

  /** `compute_stop_bits`: trigger bit times helper bit, for every row but the first. */
  function StopBits(p: int, rows: seq<Row>): (r: seq<int>)
    requires IsModulus(p) && |rows| > 0
    ensures |r| == |rows| - 1
  {
    seq(|rows| - 1, i requires 0 <= i < |rows| - 1 => Mul(p, rows[i + 1].isTrigger, HelperBits(rows)[i + 1]))
  }

  lemma StopBitsMark(p: int, rows: seq<Row>)
    requires IsModulus(p) && |rows| > 0 && AreRows(p, rows)
    ensures AreBits(StopBits(p, rows))
    ensures forall i :: 0 <= i < |rows| - 1 ==>
      (StopBits(p, rows)[i] == 1 <==> rows[i + 1].isTrigger == 1 && Continues(rows, i + 1))
  {
    hide Mod, Mul, Add, Sub;
    forall i | 0 <= i < |rows| - 1
      ensures IsBit(StopBits(p, rows)[i])
      ensures StopBits(p, rows)[i] == 1 <==> rows[i + 1].isTrigger == 1 && Continues(rows, i + 1)
    {
      MulBit(p, rows[i + 1].isTrigger, HelperBits(rows)[i + 1]);
    }
  }
}
