/** `apply_attribution_window.rs`: time from each trigger to its source, and expiry. */
module ApplyAttributionWindow {
  import opened Wrappers
  import opened PrimeField
  import opened SegmentedScan
  import opened Comparison
  import opened AttributionRows

  /** The row a run of set stop bits ending at row `i` started from. */
  function Anchor(stop: seq<int>, i: int): (r: int)
    requires 0 <= i <= |stop|
    ensures 0 <= r <= i
    ensures forall k :: r <= k < i ==> stop[k] == 1
    ensures r > 0 ==> stop[r - 1] != 1
    decreases i
  {
    if i == 0 || stop[i - 1] != 1 then i else Anchor(stop, i - 1)
  }

  lemma {:induction false} AnchorUnique(stop: seq<int>, i: int, s: int)
    requires 0 <= s <= i <= |stop|
    requires forall k :: s <= k < i ==> stop[k] == 1
    requires s > 0 ==> stop[s - 1] != 1
    ensures Anchor(stop, i) == s
  {
    if s < i {
      AnchorUnique(stop, i - 1, s);
    }
  }

  /** Initial time deltas: zero where the stop bit is. */
  function InitialDeltas(p: int, t: seq<int>, stop: seq<int>): (r: seq<int>)
    requires IsModulus(p) && |t| == |stop| + 1
    ensures |r| == |t|
  {
    [0] + seq(|stop|, i requires 0 <= i < |stop| => Mul(p, Sub(p, t[i + 1], t[i]), stop[i]))
  }

  function Reversed(s: seq<int>): (r: seq<int>)
    ensures |r| == |s| && forall i :: 0 <= i < |s| ==> r[i] == s[|s| - 1 - i]
  {
    seq(|s|, i requires 0 <= i < |s| => s[|s| - 1 - i])
  }

  lemma TelescopeStep(p: int, bit: int, now: int, before: int, first: int)
    requires IsModulus(p) && IsBit(bit) && IsElement(p, now) && IsElement(p, before) && IsElement(p, first)
    ensures Add(p, Mul(p, Sub(p, now, before), bit), Mul(p, bit, Sub(p, before, first)))
         == if bit == 1 then Sub(p, now, first) else Sub(p, now, now)
  {
    hide Mod, Mul, Add, Sub;
    var x, y := Sub(p, now, before), Sub(p, before, first);
    MulBit(p, bit, x);
    MulBit(p, bit, y);
    SubElements(p, now, before);
    SubElements(p, before, first);
    SubElements(p, now, first);
    SubElements(p, now, now);
    AddElements(p, if bit == 1 then x else 0, if bit == 1 then y else 0);
  }

  lemma DeltaAt(p: int, t: seq<int>, stop: seq<int>, i: int)
    requires IsModulus(p) && |t| == |stop| + 1 && 0 <= i < |t|
    ensures Reversed(InitialDeltas(p, t, stop))[|t| - 1 - i]
         == if i == 0 then 0 else Mul(p, Sub(p, t[i], t[i - 1]), stop[i - 1])
    ensures i > 0 ==> Reversed(stop)[|t| - 1 - i] == stop[i - 1]
  {
    hide Mod, Mul, Sub;
  }

  /** Scanning the reversed deltas telescopes to the distance from the anchor. */
  lemma {:induction false} DeltasTelescope(p: int, t: seq<int>, stop: seq<int>, i: int)
    requires IsModulus(p) && |t| == |stop| + 1 && AreBits(stop) && AreElements(p, t) && 0 <= i < |t|
    ensures SegmentedSums(p, Reversed(stop), Reversed(InitialDeltas(p, t, stop)))[|t| - 1 - i]
         == Sub(p, t[i], t[Anchor(stop, i)])
  {
    hide Mod, Mul, Add, Sub, SegmentedSums, Reversed, InitialDeltas;
    var k, d := |t| - 1 - i, Reversed(InitialDeltas(p, t, stop));
    SumsStep(p, Reversed(stop), d, k);
    DeltaAt(p, t, stop, i);
    if i == 0 {
      SubElements(p, t[0], t[0]);
    } else {
      DeltasTelescope(p, t, stop, i - 1);
      TelescopeStep(p, stop[i - 1], t[i], t[i - 1], t[Anchor(stop, i - 1)]);
      SubElements(p, t[i], t[i]);
    }
  }

  method PrefixSumTimeDeltas(p: int, t: seq<int>, stop: seq<int>) returns (deltas: seq<int>)
    requires IsModulus(p) && |t| == |stop| + 1 && AreBits(stop) && AreElements(p, t)
    ensures |deltas| == |t|
    ensures forall i :: 0 <= i < |t| ==> deltas[i] == Sub(p, t[i], t[Anchor(stop, i)])
  {
    hide Mod, Mul, Add, Sub;
    var initial := Reversed(InitialDeltas(p, t, stop));
    var tDelta := new int[|t|](i requires 0 <= i < |initial| => initial[i]);
    assert tDelta[..] == initial;
    DoTheBinaryTreeThing(p, Reversed(stop), tDelta);
    deltas := Reversed(tDelta[..]);
    forall i | 0 <= i < |t| ensures deltas[i] == Sub(p, t[i], t[Anchor(stop, i)]) {
      DeltasTelescope(p, t, stop, i);
    }
  }

  /** A supply of random bits, one draw per record. */
  ghost predicate IsGenerator(p: int, rbg: nat -> RandomBits)
    requires IsModulus(p)
  {
    forall i: nat :: IsRandomBits(p, rbg(i))
  }

  /** 1 when the trigger at `i` is inside the window measured from its anchor. */
  function ActiveBit(p: int, rows: seq<Row>, window: nat, i: int): (r: int)
    requires IsModulus(p) && 0 <= i < |rows|
    ensures IsBit(r)
  {
    if InWindow(p, rows, Some(window), Anchor(StopBits(p, rows), i), i) then 1 else 0
  }

  /** What the window step leaves in row `i`. */
  function Windowed(p: int, rows: seq<Row>, window: Option<nat>, i: int): (r: WindowedRow)
    requires IsModulus(p) && 0 <= i < |rows|
  {
    var helper := HelperBits(rows)[i];
    match window
    case None => WindowedRow(rows[i].isTrigger, helper, 0, rows[i].value)
    case Some(w) =>
      var active := ActiveBit(p, rows, w, i);
      WindowedRow(rows[i].isTrigger, helper, active, if active == 1 then rows[i].value else 0)
  }

  method ZeroOutExpiredTriggerValues(p: int, rbg: nat -> RandomBits, rows: seq<Row>, deltas: seq<int>, cap: nat)
    returns (r: Result<seq<(int, int)>, AttributionError>)
    requires IsModulus(p) && IsGenerator(p, rbg)
    requires AreRows(p, rows) && |deltas| == |rows| && AreElements(p, deltas)
    ensures r.Err? <==> |rows| > 0 && cap >= p
    ensures r.Err? ==> r.error == ComparisonPanic
    ensures r.Ok? ==> |r.value| == |rows| && forall i :: 0 <= i < |rows| ==>
      r.value[i] == if deltas[i] <= cap then (1, rows[i].value) else (0, 0)
  {
    hide Mod, Mul, Add, Sub;
    var result := [];
    for i := 0 to |rows|
      invariant |result| == i && (i > 0 ==> cap < p)
      invariant forall j :: 0 <= j < i ==> result[j] == if deltas[j] <= cap then (1, rows[j].value) else (0, 0)
    {
      if cap >= p {
        return Err(ComparisonPanic);
      }
      var expired := GreaterThanConstant(p, rbg(i), deltas[i], cap);
      var compareBit := Sub(p, 1, expired);
      NotBit(p, expired);
      MulBit(p, compareBit, rows[i].value);
      result := result + [(compareBit, Mul(p, rows[i].value, compareBit))];
    }
    r := Ok(result);
  }

  method ApplyWindow(p: int, rbg: nat -> RandomBits, rows: seq<Row>, window: Option<nat>)
    returns (r: Result<seq<WindowedRow>, AttributionError>)
    requires IsModulus(p) && IsGenerator(p, rbg) && |rows| > 0 && AreRows(p, rows)
    ensures r.Err? <==> window.Some? && window.value >= p
    ensures r.Err? ==> r.error == ComparisonPanic
    ensures r.Ok? ==> |r.value| == |rows| && forall i :: 0 <= i < |rows| ==> r.value[i] == Windowed(p, rows, window, i)
  {
    hide Mod, Mul, Add, Sub;
    match window {
      case None =>
        r := Ok(seq(|rows|, i requires 0 <= i < |rows| =>
          WindowedRow(rows[i].isTrigger, HelperBits(rows)[i], 0, rows[i].value)));
      case Some(w) =>
        StopBitsMark(p, rows);
        var timestamps := seq(|rows|, i requires 0 <= i < |rows| => rows[i].timestamp);
        var deltas := PrefixSumTimeDeltas(p, timestamps, StopBits(p, rows));
        var result := ZeroOutExpiredTriggerValues(p, rbg, rows, deltas, w);
        if result.Err? {
          return Err(result.error);
        }
        var active := result.value;
        r := Ok(seq(|rows|, i requires 0 <= i < |rows| && |active| == |rows| =>
          WindowedRow(rows[i].isTrigger, HelperBits(rows)[i], active[i].0, active[i].1)));
    }
  }
}
