/** `credit_capping.rs`: user-level capping, exact although the prefix sums wrap modulo `p`. */
module CreditCapping {
  import opened Wrappers
  import opened PrimeField
  import opened SegmentedScan
  import opened Comparison
  import opened AttributionRows
  import opened ApplyAttributionWindow

  /** Row `i + 1` exists and belongs to the user of row `i`. */
  predicate Next(helper: seq<int>, i: int)
  {
    0 <= i && i + 1 < |helper| && helper[i + 1] == 1
  }

  /** Integer sum of `x` from row `i` to the last row of its user. */
  function UserSum(helper: seq<int>, x: seq<int>, i: int): (r: int)
    requires 0 <= i < |x| == |helper|
    decreases |x| - i
  {
    x[i] + if Next(helper, i) then UserSum(helper, x, i + 1) else 0
  }

  /** What the user's rows after `i` hold. */
  function LaterSum(helper: seq<int>, x: seq<int>, i: int): (r: int)
    requires 0 <= i < |x| == |helper|
  {
    if Next(helper, i) then UserSum(helper, x, i + 1) else 0
  }

  function Capped(credits: seq<int>, cap: nat): (r: seq<int>)
    ensures |r| == |credits|
    ensures forall i :: 0 <= i < |r| ==> r[i] == Min(credits[i], cap)
  {
    seq(|credits|, i requires 0 <= i < |credits| => Min(credits[i], cap))
  }

  /** The capping rule: working from the newest row to the oldest, a row keeps its own credit,
      at most `cap`, as far as the user's budget is not used up by the rows after it. */
  predicate IsUserCapped(helper: seq<int>, credits: seq<int>, cap: nat, out: seq<int>)
    requires |credits| == |helper|
  {
    && |out| == |helper|
    && forall i :: 0 <= i < |out| ==> out[i] == Min(Min(credits[i], cap), cap - LaterSum(helper, out, i))
  }

  /** Under the rule each user's total is the capped integer total, so never more than `cap`. */
  lemma {:induction false} UserTotalIsCapped(helper: seq<int>, credits: seq<int>, cap: nat, out: seq<int>, i: int)
    requires |credits| == |helper| && IsUserCapped(helper, credits, cap, out) && 0 <= i < |out|
    requires forall j :: 0 <= j < |credits| ==> credits[j] >= 0
    ensures UserSum(helper, out, i) == Min(cap, UserSum(helper, Capped(credits, cap), i))
    ensures 0 <= UserSum(helper, out, i) <= cap
    decreases |out| - i
  {
    RuleAt(helper, credits, cap, out, i);
    hide IsUserCapped;
    if Next(helper, i) {
      UserTotalIsCapped(helper, credits, cap, out, i + 1);
    }
  }

  lemma {:induction false} RuleDetermines(helper: seq<int>, credits: seq<int>, cap: nat, a: seq<int>, b: seq<int>, i: int)
    requires |credits| == |helper| && 0 <= i < |helper|
    requires IsUserCapped(helper, credits, cap, a) && IsUserCapped(helper, credits, cap, b)
    ensures a[i] == b[i] && UserSum(helper, a, i) == UserSum(helper, b, i)
    decreases |helper| - i
  {
    RuleAt(helper, credits, cap, a, i);
    RuleAt(helper, credits, cap, b, i);
    hide IsUserCapped;
    if Next(helper, i) {
      RuleDetermines(helper, credits, cap, a, b, i + 1);
    }
  }

  lemma RuleAt(helper: seq<int>, credits: seq<int>, cap: nat, out: seq<int>, i: int)
    requires |credits| == |helper| && IsUserCapped(helper, credits, cap, out) && 0 <= i < |helper|
    ensures |out| == |helper| && out[i] == Min(Min(credits[i], cap), cap - LaterSum(helper, out, i))
  {
    hide LaterSum;
  }

  /** The rule leaves no choice. */
  lemma RuleIsDeterministic(helper: seq<int>, credits: seq<int>, cap: nat, a: seq<int>, b: seq<int>)
    requires |credits| == |helper|
    requires IsUserCapped(helper, credits, cap, a) && IsUserCapped(helper, credits, cap, b)
    ensures a == b
  {
    hide UserSum, LaterSum;
    forall i | 0 <= i < |helper|
      ensures a[i] == b[i]
    {
      RuleDetermines(helper, credits, cap, a, b, i);
    }
  }

  // ---------------------------------------------------------------- overflow detection

  /** `is_credit_larger_than_cap`, as values. */
  function ExceedsCap(sums: seq<int>, cap: nat): (r: seq<int>)
    ensures |r| == |sums| && AreBits(r)
    ensures forall i :: 0 <= i < |r| ==> (r[i] == 1 <==> sums[i] > cap)
  {
    seq(|sums|, i requires 0 <= i < |sums| => if sums[i] > cap then 1 else 0)
  }

  /** Why wrap-around is harmless: with `2 * cap < p` a sum that passes the cap is still below `p`
      the first time it does, is caught there, and the prefix OR carries that to all older rows.
      So the OR bit is the integer comparison, and where it is 0 the modular sum is the integer sum. */
  lemma {:induction false} OverflowIsCaught(p: int, helper: seq<int>, x: seq<int>, cap: nat, i: int)
    requires IsModulus(p) && 2 * cap < p && AreBits(helper)
    requires 0 <= i < |x| == |helper| && forall j :: 0 <= j < |x| ==> 0 <= x[j] <= cap
    ensures
      var sums := SegmentedSums(p, helper[1..], x);
      && (SegmentedOrs(helper[1..], ExceedsCap(sums, cap))[i] == 1 <==> UserSum(helper, x, i) > cap)
      && (UserSum(helper, x, i) <= cap ==> sums[i] == UserSum(helper, x, i))
      && UserSum(helper, x, i) >= 0
    decreases |x| - i
  {
    hide Mod, Mul, Add, Sub;
    var stop := helper[1..];
    var sums := SegmentedSums(p, stop, x);
    SumsAreElements(p, stop, x);
    SumsStep(p, stop, x, i);
    OrsStep(stop, ExceedsCap(sums, cap), i);
    if i + 1 < |x| {
      OverflowIsCaught(p, helper, x, cap, i + 1);
      assert stop[i] == helper[i + 1];
      MulBit(p, stop[i], sums[i + 1]);
      AddElements(p, x[i], Mul(p, stop[i], sums[i + 1]));
    }
  }

  lemma SumsAreElements(p: int, stop: seq<int>, x: seq<int>)
    requires IsModulus(p) && |x| <= |stop| + 1 && AreElements(p, x)
    ensures AreElements(p, SegmentedSums(p, stop, x))
  {
    hide Mod, Mul, Add, Sub;
    var sums := SegmentedSums(p, stop, x);
    forall i | 0 <= i < |x| ensures IsElement(p, sums[i]) {
      SumsStep(p, stop, x, i);
    }
  }

  // ---------------------------------------------------------------- the six steps

  function Helpers(rows: seq<CreditRow>): (r: seq<int>)
    ensures |r| == |rows|
  {
    seq(|rows|, i requires 0 <= i < |rows| => rows[i].helper)
  }

  /** Credits of source rows; triggers hold none. */
  function SourceCredits(rows: seq<CreditRow>): (r: seq<int>)
    ensures |r| == |rows|
  {
    seq(|rows|, i requires 0 <= i < |rows| => if rows[i].isTrigger == 1 then 0 else rows[i].value)
  }

  method MaskSourceCredits(p: int, rows: seq<CreditRow>) returns (r: seq<int>)
    requires IsModulus(p) && AreCreditRows(p, rows)
    ensures r == SourceCredits(rows)
  {
    hide Mod, Mul, Add, Sub;
    r := seq(|rows|, i requires 0 <= i < |rows| => Mul(p, rows[i].value, Sub(p, 1, rows[i].isTrigger)));
    forall i | 0 <= i < |rows| ensures r[i] == SourceCredits(rows)[i] {
      NotBit(p, rows[i].isTrigger);
      MulBit(p, 1 - rows[i].isTrigger, rows[i].value);
    }
  }

  method IsCreditLargerThanCap(p: int, rbg: nat -> RandomBits, credits: seq<int>, cap: nat) returns (bits: seq<int>)
    requires IsModulus(p) && IsGenerator(p, rbg) && AreElements(p, credits) && IsElement(p, cap)
    ensures bits == ExceedsCap(credits, cap)
  {
    hide Mod, Mul, Add, Sub;
    bits := [];
    for i := 0 to |credits|
      invariant bits == ExceedsCap(credits, cap)[..i]
    {
      var b := GreaterThanConstant(p, rbg(i), credits[i], cap);
      bits := bits + [b];
    }
  }

  method ReportLevelCapping(p: int, rbg: nat -> RandomBits, credits: seq<int>, cap: nat) returns (r: seq<int>)
    requires IsModulus(p) && IsGenerator(p, rbg) && AreElements(p, credits) && IsElement(p, cap)
    ensures r == Capped(credits, cap)
  {
    hide Mod, Mul, Add, Sub;
    var exceeds := IsCreditLargerThanCap(p, rbg, credits, cap);
    r := seq(|credits|, i requires 0 <= i < |credits| && |exceeds| == |credits| =>
      IfElse(p, exceeds[i], cap, credits[i]));
    forall i | 0 <= i < |credits| ensures r[i] == Capped(credits, cap)[i] {
      IfElseSelects(p, exceeds[i], cap, credits[i]);
    }
  }

  method CreditPrefixSum(p: int, rows: seq<CreditRow>, credits: seq<int>) returns (sums: seq<int>)
    requires IsModulus(p) && |credits| == |rows| > 0
    ensures sums == SegmentedSums(p, Helpers(rows)[1..], credits)
  {
    hide Mod, Mul, Add, Sub;
    var values := new int[|credits|](i requires 0 <= i < |credits| => credits[i]);
    assert values[..] == credits;
    DoTheBinaryTreeThing(p, Helpers(rows)[1..], values);
    sums := values[..];
  }

  method PropagateOverflowDetection(p: int, rows: seq<CreditRow>, exceeds: seq<int>) returns (ors: seq<int>)
    requires IsModulus(p) && |exceeds| == |rows| > 0 && AreCreditRows(p, rows) && AreBits(exceeds)
    ensures ors == SegmentedOrs(Helpers(rows)[1..], exceeds)
  {
    hide Mod, Mul, Add, Sub;
    ors := PrefixOrBinaryTreeStyle(p, Helpers(rows)[1..], exceeds, false);
  }

  /** One row of `compute_final_credits`. */
  function FinalCredit(p: int, cap: int, credit: int, nextSum: int, exceeds: int, nextExceeds: int, nextHelper: int): (r: int)
    requires IsModulus(p)
  {
    var remaining := IfElse(p, nextHelper, IfElse(p, nextExceeds, 0, Sub(p, cap, nextSum)), cap);
    IfElse(p, exceeds, remaining, credit)
  }

  /** The branches behind the nested `if_else` protocols. */
  function SelectCredit(p: int, cap: int, credit: int, nextSum: int, exceeds: int, nextExceeds: int, nextHelper: int): (r: int)
    requires IsModulus(p)
  {
    if exceeds == 0 then credit
    else if nextHelper == 0 then cap
    else if nextExceeds == 1 then 0
    else Sub(p, cap, nextSum)
  }

  predicate IsSelection(p: int, helper: seq<int>, sums: seq<int>, exceeds: seq<int>, x: seq<int>, cap: int, out: seq<int>)
    requires IsModulus(p) && |sums| == |exceeds| == |x| == |helper| > 0
  {
    && |out| == |helper| && out[|out| - 1] == x[|out| - 1]
    && forall i :: 0 <= i < |out| - 1 ==>
      out[i] == SelectCredit(p, cap, x[i], sums[i + 1], exceeds[i], exceeds[i + 1], helper[i + 1])
  }

  lemma FinalCreditSelects(p: int, cap: int, credit: int, nextSum: int, exceeds: int, nextExceeds: int, nextHelper: int)
    requires IsModulus(p) && IsElement(p, cap) && IsElement(p, credit) && IsElement(p, nextSum)
    requires IsBit(exceeds) && IsBit(nextExceeds) && IsBit(nextHelper)
    ensures FinalCredit(p, cap, credit, nextSum, exceeds, nextExceeds, nextHelper)
         == SelectCredit(p, cap, credit, nextSum, exceeds, nextExceeds, nextHelper)
  {
    hide Mod, Mul, Add, Sub;
    var inner := IfElse(p, nextExceeds, 0, Sub(p, cap, nextSum));
    IfElseSelects(p, nextExceeds, 0, Sub(p, cap, nextSum));
    IfElseSelects(p, nextHelper, inner, cap);
    IfElseSelects(p, exceeds, IfElse(p, nextHelper, inner, cap), credit);
  }

  method ComputeFinalCredits(p: int, rows: seq<CreditRow>, sums: seq<int>, exceeds: seq<int>, credits: seq<int>, cap: int)
    returns (out: seq<int>)
    requires IsModulus(p) && |rows| > 0 && |sums| == |exceeds| == |credits| == |rows|
    requires IsElement(p, cap) && AreElements(p, sums) && AreElements(p, credits)
    requires AreBits(exceeds) && AreCreditRows(p, rows)
    ensures IsSelection(p, Helpers(rows), sums, exceeds, credits, cap, out)
  {
    hide Mod, Mul, Add, Sub;
    var last := credits[|rows| - 1];
    out := seq(|rows| - 1, i requires 0 <= i < |rows| - 1 =>
      FinalCredit(p, cap, credits[i], sums[i + 1], exceeds[i], exceeds[i + 1], rows[i + 1].helper)) + [last];
    forall i | 0 <= i < |rows| - 1
      ensures out[i] == SelectCredit(p, cap, credits[i], sums[i + 1], exceeds[i], exceeds[i + 1], rows[i + 1].helper)
    {
      FinalCreditSelects(p, cap, credits[i], sums[i + 1], exceeds[i], exceeds[i + 1], rows[i + 1].helper);
    }
  }

  /** The final selection implements the rule, from the newest row back. */
  lemma {:induction false} SelectionFollowsRule(p: int, helper: seq<int>, credits: seq<int>, cap: nat, out: seq<int>, i: int)
    requires IsModulus(p) && 2 * cap < p && AreBits(helper) && |credits| == |helper| == |out| > 0
    requires forall j :: 0 <= j < |credits| ==> credits[j] >= 0
    requires
      var x := Capped(credits, cap);
      var sums := SegmentedSums(p, helper[1..], x);
      IsSelection(p, helper, sums, SegmentedOrs(helper[1..], ExceedsCap(sums, cap)), x, cap, out)
    requires 0 <= i < |out|
    ensures out[i] == Min(Min(credits[i], cap), cap - LaterSum(helper, out, i))
    ensures UserSum(helper, out, i) == Min(cap, UserSum(helper, Capped(credits, cap), i))
    decreases |out| - i
  {
    hide Mod, Mul, Add, Sub, SegmentedSums, SegmentedOrs, ExceedsCap, SelectCredit;
    var x := Capped(credits, cap);
    OverflowIsCaught(p, helper, x, cap, i);
    if i + 1 < |out| {
      SelectionFollowsRule(p, helper, credits, cap, out, i + 1);
      OverflowIsCaught(p, helper, x, cap, i + 1);
      var sums := SegmentedSums(p, helper[1..], x);
      var exceeds := SegmentedOrs(helper[1..], ExceedsCap(sums, cap));
      assert out[i] == SelectCredit(p, cap, x[i], sums[i + 1], exceeds[i], exceeds[i + 1], helper[i + 1]);
      SelectionStep(p, cap, x[i], sums[i + 1], exceeds[i], exceeds[i + 1], helper[i + 1], UserSum(helper, x, i + 1));
    }
  }

  /** What one selection does to the user's budget; `later` is the uncapped sum of the rows after it. */
  lemma SelectionStep(p: int, cap: nat, x: int, nextSum: int, exceeds: int, nextExceeds: int, nextHelper: int, later: int)
    requires IsModulus(p) && 2 * cap < p && 0 <= x <= cap && later >= 0 && (later <= cap ==> nextSum == later)
    requires IsBit(exceeds) && IsBit(nextExceeds) && IsBit(nextHelper)
    requires exceeds == 1 <==> x + (if nextHelper == 1 then later else 0) > cap
    requires nextExceeds == 1 <==> later > cap
    ensures
      var out := SelectCredit(p, cap, x, nextSum, exceeds, nextExceeds, nextHelper);
      var used := if nextHelper == 1 then Min(cap, later) else 0;
      out == Min(x, cap - used) && out + used == Min(cap, x + if nextHelper == 1 then later else 0)
  {
    hide Mod, Mul, Add, Sub;
    if later <= cap {
      SubElements(p, cap, later);
    }
  }

  lemma SelectionIsUserCapped(p: int, helper: seq<int>, credits: seq<int>, cap: nat, out: seq<int>)
    requires IsModulus(p) && 2 * cap < p && AreBits(helper) && |credits| == |helper| == |out| > 0
    requires forall j :: 0 <= j < |credits| ==> credits[j] >= 0
    requires
      var x := Capped(credits, cap);
      var sums := SegmentedSums(p, helper[1..], x);
      IsSelection(p, helper, sums, SegmentedOrs(helper[1..], ExceedsCap(sums, cap)), x, cap, out)
    ensures IsUserCapped(helper, credits, cap, out)
  {
    hide Mod, Mul, Add, Sub;
    forall i | 0 <= i < |out|
      ensures out[i] == Min(Min(credits[i], cap), cap - LaterSum(helper, out, i))
    {
      SelectionFollowsRule(p, helper, credits, cap, out, i);
    }
  }

  method CapCreditsAboveOne(p: int, rbg: nat -> RandomBits, rows: seq<CreditRow>, cap: nat) returns (r: Result<seq<int>, AttributionError>)
    requires IsModulus(p) && IsGenerator(p, rbg) && |rows| > 0 && AreCreditRows(p, rows) && cap != 1
    ensures r.Err? <==> 2 * cap >= p
    ensures r.Err? ==> r.error == InvalidQueryParameter
    ensures r.Ok? ==> IsUserCapped(Helpers(rows), SourceCredits(rows), cap, r.value)
  {
    hide Mod, Mul, Add, Sub;
    if cap * 2 >= p {
      return Err(InvalidQueryParameter);
    }
    var originalCredits := MaskSourceCredits(p, rows);
    var cappedCredits := ReportLevelCapping(p, rbg, originalCredits, cap);
    var sums := CreditPrefixSum(p, rows, cappedCredits);
    SumsAreElements(p, Helpers(rows)[1..], cappedCredits);
    var exceedsCapBits := IsCreditLargerThanCap(p, rbg, sums, cap);
    var prefixOrs := PropagateOverflowDetection(p, rows, exceedsCapBits);
    var out := ComputeFinalCredits(p, rows, sums, prefixOrs, cappedCredits, cap);
    SelectionIsUserCapped(p, Helpers(rows), originalCredits, cap, out);
    r := Ok(out);
  }

  // ---------------------------------------------------------------- cap one

  /** Ones selected where no newer row of the user holds one follow the rule for `cap == 1`. */
  lemma {:induction false} LatestOnlyFollowsRule(helper: seq<int>, credits: seq<int>, out: seq<int>, i: int)
    requires |helper| == |credits| == |out| >= 2 && AreBits(helper) && AreBits(credits)
    requires out[|out| - 1] == credits[|out| - 1]
    requires
      var ors := SegmentedOrs(helper[2..], credits[1..]);
      forall j :: 0 <= j < |out| - 1 ==> out[j] == if helper[j + 1] == 1 && ors[j] == 1 then 0 else credits[j]
    requires 0 <= i < |out|
    ensures out[i] == Min(Min(credits[i], 1), 1 - LaterSum(helper, out, i))
    ensures i > 0 ==> UserSum(helper, out, i) == SegmentedOrs(helper[2..], credits[1..])[i - 1]
    decreases |out| - i
  {
    var stop, x := helper[2..], credits[1..];
    if i > 0 {
      OrsStep(stop, x, i - 1);
    }
    if i + 1 < |out| {
      LatestOnlyFollowsRule(helper, credits, out, i + 1);
      if i > 0 {
        assert stop[i - 1] == helper[i + 1] && x[i - 1] == credits[i];
      }
    }
  }

  /** `uncapped * (1 - prefix_or * helper_bit)`. */
  function DropIfSubsequent(p: int, credit: int, prefixOr: int, helperBit: int): (r: int)
    requires IsModulus(p)
  {
    Mul(p, credit, Sub(p, 1, Mul(p, prefixOr, helperBit)))
  }

  lemma DropSelects(p: int, credit: int, prefixOr: int, helperBit: int)
    requires IsModulus(p) && IsElement(p, credit) && IsBit(prefixOr) && IsBit(helperBit)
    ensures DropIfSubsequent(p, credit, prefixOr, helperBit) == if helperBit == 1 && prefixOr == 1 then 0 else credit
  {
    hide Mod, Mul, Add, Sub;
    MulBit(p, prefixOr, helperBit);
    NotBit(p, Mul(p, prefixOr, helperBit));
    MulBit(p, 1 - Mul(p, prefixOr, helperBit), credit);
  }

  /** The values `credit_capping_max_one` produces from its prefix ORs. */
  function DropAll(p: int, helper: seq<int>, credits: seq<int>, ors: seq<int>): (r: seq<int>)
    requires IsModulus(p) && |helper| == |credits| == |ors| + 1
    ensures |r| == |credits|
  {
    seq(|ors|, i requires 0 <= i < |ors| => DropIfSubsequent(p, credits[i], ors[i], helper[i + 1])) + [credits[|ors|]]
  }

  lemma DropAllIsUserCapped(p: int, helper: seq<int>, credits: seq<int>)
    requires IsModulus(p) && |helper| == |credits| >= 2 && AreBits(helper) && AreBits(credits)
    ensures IsUserCapped(helper, credits, 1, DropAll(p, helper, credits, SegmentedOrs(helper[2..], credits[1..])))
  {
    hide Mod, Mul, Add, Sub;
    var ors := SegmentedOrs(helper[2..], credits[1..]);
    var out := DropAll(p, helper, credits, ors);
    forall j | 0 <= j < |out| - 1
      ensures out[j] == if helper[j + 1] == 1 && ors[j] == 1 then 0 else credits[j]
    {
      DropSelects(p, credits[j], ors[j], helper[j + 1]);
    }
    forall i | 0 <= i < |out|
      ensures out[i] == Min(Min(credits[i], 1), 1 - LaterSum(helper, out, i))
    {
      LatestOnlyFollowsRule(helper, credits, out, i);
    }
  }

  /** What the cap-one protocol asks of credits: bits, of which no two in a row are ones of one user. */
  predicate FitsCapOne(rows: seq<CreditRow>)
  {
    |rows| >= 2 ==> AreBits(SourceCredits(rows)) && NoAdjacentOnes(Helpers(rows)[2..], SourceCredits(rows)[1..])
  }

  /** `credit_capping_max_one`, which slices the helper bits of all rows but the first from index 1. */
  method CapCreditsMaxOne(p: int, rows: seq<CreditRow>) returns (r: Result<seq<int>, AttributionError>)
    requires IsModulus(p) && AreCreditRows(p, rows) && FitsCapOne(rows)
    ensures r.Err? <==> |rows| < 2
    ensures r.Err? ==> r.error == SlicePanic
    ensures r.Ok? ==> IsUserCapped(Helpers(rows), SourceCredits(rows), 1, r.value)
  {
    hide Mod, Mul, Add, Sub;
    var uncapped := MaskSourceCredits(p, rows);
    if |Helpers(rows)| < 2 {
      return Err(SlicePanic);
    }
    var prefixOrs := PrefixOrBinaryTreeStyle(p, Helpers(rows)[2..], uncapped[1..], true);
    var out := DropAll(p, Helpers(rows), uncapped, prefixOrs);
    DropAllIsUserCapped(p, Helpers(rows), uncapped);
    r := Ok(out);
  }

  /** `credit_capping`: one rule for every cap, and the two ways in which it fails. */
  method CapCredits(p: int, rbg: nat -> RandomBits, rows: seq<CreditRow>, cap: nat) returns (r: Result<seq<int>, AttributionError>)
    requires IsModulus(p) && IsGenerator(p, rbg) && AreCreditRows(p, rows)
    requires if cap == 1 then FitsCapOne(rows) else |rows| > 0
    ensures r == Err(InvalidQueryParameter) <==> cap != 1 && 2 * cap >= p
    ensures r == Err(SlicePanic) <==> cap == 1 && |rows| < 2
    ensures r != Err(ComparisonPanic)
    ensures r.Ok? ==> IsUserCapped(Helpers(rows), SourceCredits(rows), cap, r.value)
  {
    hide Mod, Mul, Add, Sub;
    if cap == 1 {
      r := CapCreditsMaxOne(p, rows);
    } else {
      r := CapCreditsAboveOne(p, rbg, rows, cap);
    }
  }

  /** The rule for `cap == 1` keeps exactly the user's latest one. */
  lemma {:induction false} CapOneKeepsLatest(helper: seq<int>, credits: seq<int>, out: seq<int>, i: int)
    requires |credits| == |helper| && AreBits(credits) && IsUserCapped(helper, credits, 1, out) && 0 <= i < |out|
    ensures out[i] == 1 <==> credits[i] == 1 && (Next(helper, i) ==> UserSum(helper, credits, i + 1) == 0)
    ensures UserSum(helper, out, i) == Min(1, UserSum(helper, credits, i))
    ensures UserSum(helper, credits, i) >= 0
    decreases |out| - i
  {
    RuleAt(helper, credits, 1, out, i);
    hide IsUserCapped;
    if Next(helper, i) {
      CapOneKeepsLatest(helper, credits, out, i + 1);
    }
  }
}
