/** `accumulate_credit.rs` and the pipeline of `attribution/mod.rs`: window, accumulate, cap. */
module SecureAttribution {
  import opened Wrappers
  import opened PrimeField
  import opened SegmentedScan
  import opened Comparison
  import opened AttributionRows
  import opened ApplyAttributionWindow
  import opened CreditCapping

  // ---------------------------------------------------------------- accumulation

  function WindowedValues(p: int, rows: seq<Row>, window: Option<nat>): (r: seq<int>)
    requires IsModulus(p)
    ensures |r| == |rows|
  {
    seq(|rows|, i requires 0 <= i < |rows| => Windowed(p, rows, window, i).value)
  }

  method Accumulate(p: int, input: seq<WindowedRow>, stop: seq<int>) returns (out: seq<CreditRow>)
    requires IsModulus(p) && |input| == |stop| + 1
    ensures |out| == |input|
    ensures
      var sums := SegmentedSums(p, stop, seq(|input|, i requires 0 <= i < |input| => input[i].value));
      forall i :: 0 <= i < |input| ==> out[i] == CreditRow(input[i].isTrigger, input[i].helper, sums[i])
  {
    hide Mod, Mul, Add, Sub;
    ghost var initial := seq(|input|, i requires 0 <= i < |input| => input[i].value);
    var credits := new int[|input|](i requires 0 <= i < |input| => input[i].value);
    assert credits[..] == initial;
    DoTheBinaryTreeThing(p, stop, credits);
    var c := credits[..];
    out := seq(|input|, i requires 0 <= i < |input| && |c| == |input| =>
      CreditRow(input[i].isTrigger, input[i].helper, c[i]));
  }

  /** `accumulate_credit_cap_one`: a row only looks at the row below it, so the last row is dropped. */
  method AccumulateCapOne(p: int, input: seq<WindowedRow>, stop: seq<int>, window: Option<nat>) returns (out: seq<CreditRow>)
    requires IsModulus(p) && |input| == |stop| + 1 && AreBits(stop)
    requires forall i :: 0 <= i < |input| ==> IsBit(input[i].activeBit)
    ensures |out| == |input| - 1
    ensures forall i :: 0 <= i < |out| ==>
      out[i] == CreditRow(input[i].isTrigger, input[i].helper,
                          if stop[i] == 1 && (window.None? || input[i + 1].activeBit == 1) then 1 else 0)
  {
    hide Mod, Mul, Add, Sub;
    var bits := if window.None? then stop
                else seq(|stop|, i requires 0 <= i < |stop| => Mul(p, input[i + 1].activeBit, stop[i]));
    out := seq(|stop|, i requires 0 <= i < |stop| => CreditRow(input[i].isTrigger, input[i].helper, bits[i]));
    forall i | 0 <= i < |out|
      ensures bits[i] == if stop[i] == 1 && (window.None? || input[i + 1].activeBit == 1) then 1 else 0
    {
      MulBit(p, input[i + 1].activeBit, stop[i]);
    }
  }

  // ---------------------------------------------------------------- last touch

  /** Between a source and the triggers it is credited with, every stop bit is set. */
  lemma AttributedRun(p: int, rows: seq<Row>, s: int, t: int)
    requires IsModulus(p) && AreRows(p, rows) && 0 <= s <= t < |rows| && rows[s].isTrigger == 0
    ensures (s < t ==> Attributed(rows, s, t)) <==> forall k :: s <= k < t ==> StopBits(p, rows)[k] == 1
    ensures (s < t ==> Attributed(rows, s, t)) ==> Anchor(StopBits(p, rows), t) == s
  {
    hide Mod, Mul, Add, Sub;
    StopBitsMark(p, rows);
    var stop := StopBits(p, rows);
    if s < t ==> Attributed(rows, s, t) {
      assert forall k :: s <= k < t ==> stop[k] == 1 by {
        forall k | s <= k < t ensures stop[k] == 1 {
          assert Continues(rows, k + 1) && rows[k + 1].isTrigger == 1;
        }
      }
      assert s > 0 ==> stop[s - 1] != 1;
      AnchorUnique(stop, t, s);
    } else {
      var k :| s < k <= t && !(rows[k].isTrigger == 1 && Continues(rows, k));
      assert stop[k - 1] != 1;
    }
  }

  /** Past a row that does not continue the run, nothing more is credited to `s`. */
  lemma {:induction false} NoTouchPastBreak(p: int, rows: seq<Row>, window: Option<nat>, s: int, b: int, from: int)
    requires IsModulus(p) && 0 <= s < b <= from <= |rows| && b < |rows|
    requires !(rows[b].isTrigger == 1 && Continues(rows, b))
    ensures TouchSum(p, rows, window, s, from) == 0
    decreases |rows| - from
  {
    hide Mod, Mul, Add, Sub;
    if from < |rows| {
      NoTouchPastBreak(p, rows, window, s, b, from + 1);
      assert !Attributed(rows, s, from);
    }
  }

  lemma WindowedAreElements(p: int, rows: seq<Row>, window: Option<nat>)
    requires IsModulus(p) && AreRows(p, rows) && |rows| > 0
    ensures AreElements(p, WindowedValues(p, rows, window))
    ensures AreElements(p, SegmentedSums(p, StopBits(p, rows), WindowedValues(p, rows, window)))
  {
    hide Mod, Mul, Add, Sub;
    SumsAreElements(p, StopBits(p, rows), WindowedValues(p, rows, window));
  }

  lemma BitScanStep(p: int, stop: seq<int>, v: seq<int>, j: int)
    requires IsModulus(p) && |v| == |stop| + 1 && AreBits(stop) && AreElements(p, v) && 0 <= j < |stop|
    ensures SegmentedSums(p, stop, v)[j] == if stop[j] == 1 then Add(p, v[j], SegmentedSums(p, stop, v)[j + 1]) else v[j]
  {
    hide Mod, Mul, Add, Sub;
    SumsAreElements(p, stop, v);
    SumsStep(p, stop, v, j);
    MulBit(p, stop[j], SegmentedSums(p, stop, v)[j + 1]);
    AddElements(p, v[j], 0);
  }

  /** One step of the accumulation scan. */
  lemma ScanStep(p: int, rows: seq<Row>, window: Option<nat>, j: int)
    requires IsModulus(p) && AreRows(p, rows) && 0 <= j < |rows| - 1
    ensures
      var v := Windowed(p, rows, window, j).value;
      var sums := SegmentedSums(p, StopBits(p, rows), WindowedValues(p, rows, window));
      sums[j] == if rows[j + 1].isTrigger == 1 && Continues(rows, j + 1) then Add(p, v, sums[j + 1]) else v
  {
    hide Mod, Mul, Add, Sub;
    StopBitsMark(p, rows);
    WindowedAreElements(p, rows, window);
    BitScanStep(p, StopBits(p, rows), WindowedValues(p, rows, window), j);
  }

  lemma TouchSumStep(p: int, rows: seq<Row>, window: Option<nat>, s: int, t: int)
    requires IsModulus(p) && AreRows(p, rows) && Attributed(rows, s, t)
    ensures TouchSum(p, rows, window, s, t) == Windowed(p, rows, window, t).value + TouchSum(p, rows, window, s, t + 1)
  {
    hide Mod, Mul, Add, Sub;
    AttributedRun(p, rows, s, t);
  }

  lemma ExtendRun(rows: seq<Row>, s: int, j: int)
    requires 0 <= s <= j < |rows| - 1 && rows[s].isTrigger == 0
    requires s < j ==> Attributed(rows, s, j)
    requires rows[j + 1].isTrigger == 1 && Continues(rows, j + 1)
    ensures Attributed(rows, s, j + 1)
  {
  }

  lemma {:induction false} RunAccumulates(p: int, rows: seq<Row>, window: Option<nat>, s: int, j: int)
    requires IsModulus(p) && AreRows(p, rows) && 0 <= s <= j < |rows| && rows[s].isTrigger == 0
    requires s < j ==> Attributed(rows, s, j)
    ensures SegmentedSums(p, StopBits(p, rows), WindowedValues(p, rows, window))[j]
         == Add(p, Windowed(p, rows, window, j).value, TouchSum(p, rows, window, s, j + 1))
    decreases |rows| - j
  {
    hide Mod, Mul, Add, Sub, Attributed, Windowed, StopBits, SegmentedSums, Continues;
    var v := Windowed(p, rows, window, j).value;
    WindowedAreElements(p, rows, window);
    assert WindowedValues(p, rows, window)[j] == v;
    AddElements(p, v, 0);
    if j + 1 == |rows| {
      SumsStep(p, StopBits(p, rows), WindowedValues(p, rows, window), j);
    } else {
      ScanStep(p, rows, window, j);
      if rows[j + 1].isTrigger == 1 && Continues(rows, j + 1) {
        ExtendRun(rows, s, j);
        RunAccumulates(p, rows, window, s, j + 1);
        TouchSumStep(p, rows, window, s, j + 1);
        AddOfSum(p, v, Windowed(p, rows, window, j + 1).value, TouchSum(p, rows, window, s, j + 2));
      } else {
        NoTouchPastBreak(p, rows, window, s, j + 1, j + 1);
      }
    }
  }

  /** The window never expires a source: it is measured from itself. */
  lemma SourceKeepsValue(p: int, rows: seq<Row>, window: Option<nat>, s: int)
    requires IsModulus(p) && AreRows(p, rows) && 0 <= s < |rows| && rows[s].isTrigger == 0
    ensures Windowed(p, rows, window, s).value == rows[s].value
  {
    hide Mod, Mul, Add, Sub;
    AttributedRun(p, rows, s, s);
    SubElements(p, rows[s].timestamp, rows[s].timestamp);
  }

  /** A row's accumulated value, masked to source rows, is its last-touch credit. */
  lemma AccumulationIsLastTouch(p: int, rows: seq<Row>, window: Option<nat>, s: int)
    requires IsModulus(p) && AreRows(p, rows) && 0 <= s < |rows|
    ensures
      var sum := SegmentedSums(p, StopBits(p, rows), WindowedValues(p, rows, window))[s];
      Credit(p, rows, window, s) == if rows[s].isTrigger == 1 then 0 else sum
  {
    hide Mod, Mul, Add, Sub;
    if rows[s].isTrigger == 0 {
      RunAccumulates(p, rows, window, s, s);
      SourceKeepsValue(p, rows, window, s);
    }
  }

  function Credits(p: int, rows: seq<Row>, window: Option<nat>): (r: seq<int>)
    requires IsModulus(p)
    ensures |r| == |rows|
  {
    seq(|rows|, s requires 0 <= s < |rows| => Credit(p, rows, window, s))
  }

  // ---------------------------------------------------------------- cap-one conversions

  /** Row `s` is a source directly followed by an in-window trigger of the same user. */
  predicate Converts(p: int, rows: seq<Row>, window: Option<nat>, s: int)
    requires IsModulus(p)
  {
    s + 1 < |rows| && Touches(p, rows, window, s, s + 1)
  }

  function Conversions(p: int, rows: seq<Row>, window: Option<nat>): (r: seq<int>)
    requires IsModulus(p) && |rows| > 0
    ensures |r| == |rows| - 1 && AreBits(r)
  {
    seq(|rows| - 1, s requires 0 <= s < |rows| - 1 => if Converts(p, rows, window, s) then 1 else 0)
  }

  lemma CapOneBitIsConversion(p: int, rows: seq<Row>, window: Option<nat>, s: int)
    requires IsModulus(p) && AreRows(p, rows) && 0 <= s < |rows| - 1
    ensures
      var w := Windowed(p, rows, window, s + 1);
      var bit := if StopBits(p, rows)[s] == 1 && (window.None? || w.activeBit == 1) then 1 else 0;
      Conversions(p, rows, window)[s] == if rows[s].isTrigger == 1 then 0 else bit
  {
    hide Mod, Mul, Add, Sub;
    if rows[s].isTrigger == 0 {
      AttributedRun(p, rows, s, s + 1);
      assert (forall k :: s <= k < s + 1 ==> StopBits(p, rows)[k] == 1) <==> StopBits(p, rows)[s] == 1;
    }
  }

  /** Adding instead of OR-ing is safe: a converting source is followed by a trigger. */
  lemma ConversionsAreApart(p: int, rows: seq<Row>, window: Option<nat>, helper: seq<int>)
    requires IsModulus(p) && |rows| >= 3 && |helper| == |rows| - 1
    ensures NoAdjacentOnes(helper[2..], Conversions(p, rows, window)[1..])
  {
    hide Mod, Mul, Add, Sub;
    var c := Conversions(p, rows, window);
    forall i | 0 <= i < |c| - 2 ensures !(c[1..][i] == 1 && c[1..][i + 1] == 1) {
      assert Converts(p, rows, window, i + 1) ==> rows[i + 2].isTrigger == 1;
    }
  }

  // ---------------------------------------------------------------- the pipeline

  /** Rows, and their credits, that reach the capping step. */
  function Attributable(p: int, rows: seq<Row>, window: Option<nat>, cap: nat): (r: seq<int>)
    requires IsModulus(p) && |rows| > 0
  {
    if cap == 1 then Conversions(p, rows, window) else Credits(p, rows, window)
  }

  ghost predicate IsAttributable(p: int, rows: seq<Row>, window: Option<nat>, cap: nat, out: seq<CreditRow>)
    requires IsModulus(p) && |rows| > 0
  {
    && AreCreditRows(p, out) && SourceCredits(out) == Attributable(p, rows, window, cap)
    && Helpers(out) == HelperBits(rows)[..|out|]
  }

  function CapOneRow(p: int, rows: seq<Row>, window: Option<nat>, i: int): (r: CreditRow)
    requires IsModulus(p) && 0 <= i < |rows| - 1
  {
    var active := window.None? || Windowed(p, rows, window, i + 1).activeBit == 1;
    CreditRow(rows[i].isTrigger, HelperBits(rows)[i], if StopBits(p, rows)[i] == 1 && active then 1 else 0)
  }

  lemma CapOneRowsAreAttributable(p: int, rows: seq<Row>, window: Option<nat>, out: seq<CreditRow>)
    requires IsModulus(p) && |rows| > 0 && AreRows(p, rows) && |out| == |rows| - 1
    requires forall i :: 0 <= i < |out| ==> out[i] == CapOneRow(p, rows, window, i)
    ensures IsAttributable(p, rows, window, 1, out)
  {
    hide Mod, Mul, Add, Sub;
    forall s | 0 <= s < |out| ensures SourceCredits(out)[s] == Conversions(p, rows, window)[s] {
      CapOneBitIsConversion(p, rows, window, s);
    }
  }

  lemma SumsAreAttributable(p: int, rows: seq<Row>, window: Option<nat>, cap: nat, out: seq<CreditRow>)
    requires IsModulus(p) && |rows| > 0 && AreRows(p, rows) && |out| == |rows| && cap != 1
    requires
      var sums := SegmentedSums(p, StopBits(p, rows), WindowedValues(p, rows, window));
      forall i :: 0 <= i < |out| ==> out[i] == CreditRow(rows[i].isTrigger, HelperBits(rows)[i], sums[i])
    ensures IsAttributable(p, rows, window, cap, out)
  {
    WindowedAreElements(p, rows, window);
    hide Mod, Mul, Add, Sub, SegmentedSums, StopBits, WindowedValues, Credit, SourceCredits, Credits;
    var sums := SegmentedSums(p, StopBits(p, rows), WindowedValues(p, rows, window));
    forall s | 0 <= s < |rows|
      ensures Credit(p, rows, window, s) == if rows[s].isTrigger == 1 then 0 else sums[s]
    {
      AccumulationIsLastTouch(p, rows, window, s);
    }
    SourceCreditsAre(p, rows, window, sums, out);
  }

  lemma SourceCreditsAre(p: int, rows: seq<Row>, window: Option<nat>, sums: seq<int>, out: seq<CreditRow>)
    requires IsModulus(p) && |out| == |rows| == |sums|
    requires forall s :: 0 <= s < |rows| ==> Credit(p, rows, window, s) == if rows[s].isTrigger == 1 then 0 else sums[s]
    requires forall i :: 0 <= i < |out| ==> out[i].isTrigger == rows[i].isTrigger && out[i].value == sums[i]
    ensures SourceCredits(out) == Credits(p, rows, window)
  {
    hide Mod, Credit;
  }

  method AccumulateCredit(p: int, rows: seq<Row>, windowed: seq<WindowedRow>, window: Option<nat>, cap: nat)
    returns (out: seq<CreditRow>)
    requires IsModulus(p) && |rows| > 0 && AreRows(p, rows) && |windowed| == |rows|
    requires forall i :: 0 <= i < |rows| ==> windowed[i] == Windowed(p, rows, window, i)
    ensures IsAttributable(p, rows, window, cap, out)
  {
    hide Mod, Mul, Add, Sub;
    var stop := StopBits(p, rows);
    StopBitsMark(p, rows);
    if cap == 1 {
      out := AccumulateCapOne(p, windowed, stop, window);
      forall i | 0 <= i < |out| ensures out[i] == CapOneRow(p, rows, window, i) {
        var next := i + 1;
        assert windowed[next] == Windowed(p, rows, window, next);
      }
      CapOneRowsAreAttributable(p, rows, window, out);
    } else {
      out := Accumulate(p, windowed, stop);
      assert WindowedValues(p, rows, window) == seq(|windowed|, i requires 0 <= i < |windowed| => windowed[i].value);
      SumsAreAttributable(p, rows, window, cap, out);
    }
  }

  // ---------------------------------------------------------------- per match key

  /** Where the key has ended it does not come back. */
  lemma {:induction false} KeyIsOver(rows: seq<Row>, x: seq<int>, i: int, from: int)
    requires Grouped(rows) && 0 <= i < from <= |x| <= |rows|
    requires from < |x| ==> rows[i + 1].matchKey != rows[i].matchKey
    ensures KeySum(rows, x, rows[i].matchKey, from) == 0
    decreases |x| - from
  {
    if from < |x| {
      KeyIsOver(rows, x, i, from + 1);
      assert rows[from].matchKey != rows[i].matchKey;
    }
  }

  /** A user's rows from `i` on are the rows with that match key. */
  lemma {:induction false} UserSumIsKeySum(rows: seq<Row>, x: seq<int>, i: int)
    requires Grouped(rows) && 0 <= i < |x| <= |rows|
    ensures UserSum(HelperBits(rows)[..|x|], x, i) == KeySum(rows, x, rows[i].matchKey, i)
    decreases |x| - i
  {
    var helper := HelperBits(rows)[..|x|];
    if i + 1 < |x| {
      assert Next(helper, i) <==> rows[i + 1].matchKey == rows[i].matchKey;
      UserSumIsKeySum(rows, x, i + 1);
    }
    if !Next(helper, i) {
      KeyIsOver(rows, x, i, i + 1);
    }
  }

  lemma {:induction false} KeyTotalFrom(rows: seq<Row>, credits: seq<int>, cap: nat, out: seq<int>, key: int, from: int)
    requires Grouped(rows) && 0 <= from <= |credits| <= |rows|
    requires IsUserCapped(HelperBits(rows)[..|credits|], credits, cap, out)
    requires forall j :: 0 <= j < |credits| ==> credits[j] >= 0
    ensures |out| == |credits| && KeySum(rows, out, key, from) == Min(cap, KeySum(rows, Capped(credits, cap), key, from))
    decreases |credits| - from
  {
    var helper := HelperBits(rows)[..|credits|];
    assert |out| == |credits|;
    if from < |credits| {
      if rows[from].matchKey == key {
        UserTotalIsCapped(helper, credits, cap, out, from);
        UserSumIsKeySum(rows, out, from);
        UserSumIsKeySum(rows, Capped(credits, cap), from);
      } else {
        KeyTotalFrom(rows, credits, cap, out, key, from + 1);
      }
    }
  }

  /** What the pipeline promises per user: the rows of one match key together get what their capped
      credits come to, and no more than the cap. */
  ghost predicate IsCappedPerKey(rows: seq<Row>, credits: seq<int>, cap: nat, out: seq<int>)
    requires |credits| <= |rows|
  {
    && |out| == |credits|
    && forall key: int :: KeySum(rows, out, key, 0) == Min(cap, KeySum(rows, Capped(credits, cap), key, 0))
  }

  lemma UsersAreCapped(p: int, rows: seq<Row>, window: Option<nat>, cap: nat, out: seq<int>)
    requires IsModulus(p) && |rows| > 0 && Grouped(rows)
    requires
      var credits := Attributable(p, rows, window, cap);
      IsUserCapped(HelperBits(rows)[..|credits|], credits, cap, out)
    ensures IsCappedPerKey(rows, Attributable(p, rows, window, cap), cap, out)
  {
    hide Mod, Mul, Add, Sub, IsUserCapped;
    var credits := Attributable(p, rows, window, cap);
    AttributableIsNatural(p, rows, window, cap);
    KeyTotalFrom(rows, credits, cap, out, 0, 0);
    forall key: int
      ensures KeySum(rows, out, key, 0) == Min(cap, KeySum(rows, Capped(credits, cap), key, 0))
    {
      KeyTotalFrom(rows, credits, cap, out, key, 0);
    }
  }

  lemma AttributableIsNatural(p: int, rows: seq<Row>, window: Option<nat>, cap: nat)
    requires IsModulus(p) && |rows| > 0
    ensures forall j :: 0 <= j < |Attributable(p, rows, window, cap)| ==> Attributable(p, rows, window, cap)[j] >= 0
  {
    hide Mod, Mul, Add, Sub, Credit;
  }

  /** `secure_attribution` up to aggregation.  The window is compared first; the cap-one mode
      accumulates into one row less, so it panics on fewer than three. */
  method Attribute(p: int, rbg: nat -> RandomBits, rows: seq<Row>, window: Option<nat>, cap: nat)
    returns (r: Result<seq<int>, AttributionError>)
    requires IsModulus(p) && IsGenerator(p, rbg) && |rows| > 0 && AreRows(p, rows)
    ensures
      var outside := window.Some? && window.value >= p;
      && (r == Err(ComparisonPanic) <==> outside)
      && (r == Err(InvalidQueryParameter) <==> !outside && cap != 1 && 2 * cap >= p)
      && (r == Err(SlicePanic) <==> !outside && cap == 1 && |rows| < 3)
    ensures
      var credits := Attributable(p, rows, window, cap);
      && (r.Ok? ==> IsUserCapped(HelperBits(rows)[..|credits|], credits, cap, r.value))
      && (r.Ok? && Grouped(rows) ==> IsCappedPerKey(rows, credits, cap, r.value))
  {
    hide Mod, Mul, Add, Sub;
    var windowed := ApplyWindow(p, rbg, rows, window);
    if windowed.Err? {
      return Err(windowed.error);
    }
    var accumulated := AccumulateCredit(p, rows, windowed.value, window, cap);
    if cap == 1 && |rows| >= 3 {
      ConversionsAreApart(p, rows, window, Helpers(accumulated));
    }
    r := CapCredits(p, rbg, accumulated, cap);
    if r.Ok? && Grouped(rows) {
      UsersAreCapped(p, rows, window, cap, r.value);
    }
  }
}
