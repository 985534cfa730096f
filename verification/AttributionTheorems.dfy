/** What the capping rule and the last-touch reference mean for users and for triggers. */
module AttributionTheorems {
  import opened Wrappers
  import opened PrimeField
  import opened SegmentedScan
  import opened AttributionRows
  import opened CreditCapping
  import opened SecureAttribution

  // ---------------------------------------------------------------- every trigger counts once

  /** No trigger credits two sources. */
  lemma TouchIsUnique(p: int, rows: seq<Row>, window: Option<nat>, s: int, s': int, t: int)
    requires IsModulus(p) && Touches(p, rows, window, s, t) && Touches(p, rows, window, s', t)
    ensures s == s'
  {
    hide Mod, Mul, Add, Sub;
  }

  predicate IsTouching(p: int, rows: seq<Row>, window: Option<nat>, t: int)
    requires IsModulus(p)
  {
    exists s :: 0 <= s < |rows| && Touches(p, rows, window, s, t)
  }

  /** Integer sum, from row `from` on, of the triggers that credit some source. */
  function AllTouching(p: int, rows: seq<Row>, window: Option<nat>, from: int): (r: int)
    requires IsModulus(p) && 0 <= from <= |rows|
    decreases |rows| - from
  {
    if from == |rows| then 0
    else (if IsTouching(p, rows, window, from) then rows[from].value else 0) + AllTouching(p, rows, window, from + 1)
  }

  /** What the first `m` sources are credited with, from triggers at or after `from`. */
  function CreditedToFirst(p: int, rows: seq<Row>, window: Option<nat>, m: int, from: int): (r: int)
    requires IsModulus(p) && 0 <= m <= |rows| && 0 <= from <= |rows|
    decreases m
  {
    if m == 0 then 0 else CreditedToFirst(p, rows, window, m - 1, from) + TouchSum(p, rows, window, m - 1, from)
  }

  lemma {:induction false} OneTriggerOneCredit(p: int, rows: seq<Row>, window: Option<nat>, m: int, from: int)
    requires IsModulus(p) && 0 <= m <= |rows| && 0 <= from < |rows|
    ensures CreditedToFirst(p, rows, window, m, from) == CreditedToFirst(p, rows, window, m, from + 1)
         + if exists s :: 0 <= s < m && Touches(p, rows, window, s, from) then rows[from].value else 0
  {
    hide Mod, Mul, Add, Sub;
    if m > 0 {
      OneTriggerOneCredit(p, rows, window, m - 1, from);
      if Touches(p, rows, window, m - 1, from) {
        forall s | 0 <= s < m - 1 ensures !Touches(p, rows, window, s, from) {
          if Touches(p, rows, window, s, from) { TouchIsUnique(p, rows, window, s, m - 1, from); }
        }
      }
    }
  }

  lemma {:induction false} NothingAfterTheEnd(p: int, rows: seq<Row>, window: Option<nat>, m: int)
    requires IsModulus(p) && 0 <= m <= |rows|
    ensures CreditedToFirst(p, rows, window, m, |rows|) == 0
  {
    hide Mod, Mul, Add, Sub;
    if m > 0 { NothingAfterTheEnd(p, rows, window, m - 1); }
  }

  /** Conservation: over all sources, the credited values are exactly the values of the triggers
      that have a nearest in-window source, each counted once. */
  lemma {:induction false} CreditIsConserved(p: int, rows: seq<Row>, window: Option<nat>, from: int)
    requires IsModulus(p) && 0 <= from <= |rows|
    ensures CreditedToFirst(p, rows, window, |rows|, from) == AllTouching(p, rows, window, from)
    decreases |rows| - from
  {
    hide Mod, Mul, Add, Sub;
    if from == |rows| {
      NothingAfterTheEnd(p, rows, window, |rows|);
    } else {
      CreditIsConserved(p, rows, window, from + 1);
      OneTriggerOneCredit(p, rows, window, |rows|, from);
    }
  }

  /** A row is credited only with later triggers, so where the sum starts does not matter. */
  lemma {:induction false} OnlyLaterTriggers(p: int, rows: seq<Row>, window: Option<nat>, s: int, from: int)
    requires IsModulus(p) && 0 <= s < |rows| && 0 <= from <= s + 1
    ensures TouchSum(p, rows, window, s, from) == TouchSum(p, rows, window, s, s + 1)
    decreases s - from
  {
    hide Mod, Mul, Add, Sub;
    if from <= s {
      OnlyLaterTriggers(p, rows, window, s, from + 1);
    }
  }

  lemma {:induction false} TriggersGetNothing(p: int, rows: seq<Row>, window: Option<nat>, s: int, from: int)
    requires IsModulus(p) && 0 <= s < |rows| && rows[s].isTrigger == 1 && 0 <= from <= |rows|
    ensures TouchSum(p, rows, window, s, from) == 0
    decreases |rows| - from
  {
    hide Mod, Mul, Add, Sub;
    if from < |rows| {
      TriggersGetNothing(p, rows, window, s, from + 1);
    }
  }

  /** Integer sum of the first `m` of `credits`. */
  function Total(credits: seq<int>, m: int): (r: int)
    requires 0 <= m <= |credits|
  {
    if m == 0 then 0 else Total(credits, m - 1) + credits[m - 1]
  }

  /** Integer sum of the sources' own values among the first `m` rows. */
  function OwnValues(rows: seq<Row>, m: int): (r: int)
    requires 0 <= m <= |rows|
  {
    if m == 0 then 0 else OwnValues(rows, m - 1) + if rows[m - 1].isTrigger == 1 then 0 else rows[m - 1].value
  }

  lemma {:induction false} CreditsAddUp(p: int, rows: seq<Row>, window: Option<nat>, m: int)
    requires IsModulus(p) && 0 <= m <= |rows|
    ensures Mod(p, Total(Credits(p, rows, window), m)) == Mod(p, OwnValues(rows, m) + CreditedToFirst(p, rows, window, m, 0))
  {
    hide Mod, Mul, Sub;
    if m > 0 {
      var s, t := m - 1, TouchSum(p, rows, window, m - 1, 0);
      var own := if rows[s].isTrigger == 1 then 0 else rows[s].value;
      CreditsAddUp(p, rows, window, s);
      OnlyLaterTriggers(p, rows, window, s, 0);
      if rows[s].isTrigger == 1 {
        TriggersGetNothing(p, rows, window, s, 0);
        ElementMod(p, 0);
      }
      var before, sums := Total(Credits(p, rows, window), s), OwnValues(rows, s) + CreditedToFirst(p, rows, window, s, 0);
      assert Credit(p, rows, window, s) == Mod(p, own + t);
      hide Credit, TouchSum;
      AddCongruent(p, before, sums, own + t);
      assert Total(Credits(p, rows, window), m) == before + Mod(p, own + t);
    }
  }

  lemma AddCongruent(p: int, a: int, b: int, c: int)
    requires IsModulus(p) && Mod(p, a) == Mod(p, b)
    ensures Mod(p, a + Mod(p, c)) == Mod(p, b + c)
  {
    hide Mod;
    ModAddLeft(p, c, a);
    assert a + Mod(p, c) == Mod(p, c) + a && c + a == a + c;
    ModAddLeft(p, a, c);
    ModAddLeft(p, b, c);
  }

  /** Conservation of what is computed: the credits of all rows sum up, modulo `p`, to the sources'
      own values and the values of the triggers that have a nearest in-window source. */
  lemma CreditsAreConserved(p: int, rows: seq<Row>, window: Option<nat>)
    requires IsModulus(p)
    ensures Mod(p, Total(Credits(p, rows, window), |rows|)) == Mod(p, OwnValues(rows, |rows|) + AllTouching(p, rows, window, 0))
  {
    hide Mod, Mul, Add, Sub;
    CreditsAddUp(p, rows, window, |rows|);
    CreditIsConserved(p, rows, window, 0);
  }

  // ---------------------------------------------------------------- timestamps in order

  ghost predicate OrderedInTime(rows: seq<Row>)
  {
    forall i :: Continues(rows, i) ==> rows[i - 1].timestamp <= rows[i].timestamp
  }

  lemma {:induction false} LaterInRun(rows: seq<Row>, s: int, t: int)
    requires OrderedInTime(rows) && SameUser(rows, s, t)
    ensures rows[s].timestamp <= rows[t].timestamp
    decreases t
  {
    if s < t {
      assert Continues(rows, t);
      LaterInRun(rows, s, t - 1);
    }
  }

  /** With timestamps ordered inside a user, the window measures real elapsed time. */
  lemma WindowIsElapsedTime(p: int, rows: seq<Row>, window: Option<nat>, s: int, t: int)
    requires IsModulus(p) && AreRows(p, rows) && OrderedInTime(rows) && Attributed(rows, s, t)
    ensures Touches(p, rows, window, s, t)
       <==> window.None? || rows[t].timestamp - rows[s].timestamp <= window.value
  {
    hide Mod, Mul, Add, Sub;
    LaterInRun(rows, s, t);
    SubElements(p, rows[t].timestamp, rows[s].timestamp);
  }

  /** Looking only at the next row loses nothing: a source has some in-window trigger exactly when
      the row right below it is one. */
  lemma NextRowDecides(p: int, rows: seq<Row>, window: Option<nat>, s: int)
    requires IsModulus(p) && AreRows(p, rows) && OrderedInTime(rows) && 0 <= s < |rows|
    ensures Converts(p, rows, window, s) <==> exists t :: 0 <= t < |rows| && Touches(p, rows, window, s, t)
  {
    hide Mod, Mul, Add, Sub;
    if t :| 0 <= t < |rows| && Touches(p, rows, window, s, t) {
      assert Attributed(rows, s, s + 1) && SameUser(rows, s + 1, t);
      LaterInRun(rows, s + 1, t);
      WindowIsElapsedTime(p, rows, window, s, t);
      WindowIsElapsedTime(p, rows, window, s, s + 1);
    }
  }

  // ---------------------------------------------------------------- cap one, per user

  lemma {:induction false} UserHasOne(p: int, rows: seq<Row>, window: Option<nat>, i: int)
    requires IsModulus(p) && 0 <= i < |rows| - 1
    ensures
      var helper := HelperBits(rows)[..|rows| - 1];
      var sum := UserSum(helper, Conversions(p, rows, window), i);
      && sum >= 0
      && (sum > 0 <==> exists s :: SameUser(rows, i, s) && Converts(p, rows, window, s))
    decreases |rows| - i
  {
    hide Mod, Mul, Add, Sub;
    var helper := HelperBits(rows)[..|rows| - 1];
    var c := Conversions(p, rows, window);
    if Converts(p, rows, window, i) {
      assert SameUser(rows, i, i);
    }
    if Next(helper, i) {
      UserHasOne(p, rows, window, i + 1);
      assert Continues(rows, i + 1);
      if s :| SameUser(rows, i + 1, s) && Converts(p, rows, window, s) {
        assert SameUser(rows, i, s);
      }
      if s :| SameUser(rows, i, s) && s > i && Converts(p, rows, window, s) {
        assert SameUser(rows, i + 1, s);
      }
    } else {
      assert forall s :: SameUser(rows, i, s) && s > i ==> Continues(rows, i + 1);
    }
  }

  /** Cap-one mode: a user contributes 1 exactly when one of their sources is followed by an
      in-window trigger credited to it, and then the 1 sits on the latest such source. */
  lemma CapOnePerUser(p: int, rows: seq<Row>, window: Option<nat>, out: seq<int>, i: int)
    requires IsModulus(p) && AreRows(p, rows) && OrderedInTime(rows) && 0 <= i < |rows| - 1
    requires IsUserCapped(HelperBits(rows)[..|rows| - 1], Conversions(p, rows, window), 1, out)
    ensures
      var total := UserSum(HelperBits(rows)[..|rows| - 1], out, i);
      && IsBit(total)
      && (total == 1 <==> exists s, t :: SameUser(rows, i, s) && Touches(p, rows, window, s, t))
    ensures out[i] == 1 <==> Converts(p, rows, window, i) &&
                             forall s :: SameUser(rows, i, s) && Converts(p, rows, window, s) ==> s == i
  {
    hide Mod, Mul, Add, Sub;
    var helper, c := HelperBits(rows)[..|rows| - 1], Conversions(p, rows, window);
    CapOneKeepsLatest(helper, c, out, i);
    UserHasOne(p, rows, window, i);
    if s :| SameUser(rows, i, s) && Converts(p, rows, window, s) {
      assert Touches(p, rows, window, s, s + 1);
    }
    if s, t :| SameUser(rows, i, s) && Touches(p, rows, window, s, t) {
      NextRowDecides(p, rows, window, s);
    }
    LatestInUser(p, rows, window, i);
  }

  /** In grouped rows, the later rows of a match key are the later rows of that user. */
  lemma KeyIsUser(rows: seq<Row>, i: int, j: int)
    requires Grouped(rows) && 0 <= i <= j < |rows|
    ensures rows[j].matchKey == rows[i].matchKey <==> SameUser(rows, i, j)
  {
    if SameUser(rows, i, j) { SameUserSameKey(rows, i, j); }
    if rows[j].matchKey == rows[i].matchKey {
      forall k | i < k <= j ensures Continues(rows, k) {
        assert rows[k].matchKey == rows[i].matchKey;
        assert rows[k - 1].matchKey == rows[i].matchKey;
      }
    }
  }

  ghost predicate KeyConverts(p: int, rows: seq<Row>, window: Option<nat>, key: int, from: int)
    requires IsModulus(p) && 0 <= from
  {
    exists s, t :: from <= s < |rows| && rows[s].matchKey == key && Touches(p, rows, window, s, t)
  }

  ghost predicate UserConverts(p: int, rows: seq<Row>, window: Option<nat>, i: int)
    requires IsModulus(p)
  {
    exists s, t :: SameUser(rows, i, s) && Touches(p, rows, window, s, t)
  }

  lemma UserTotalIs(p: int, rows: seq<Row>, window: Option<nat>, out: seq<int>, i: int)
    requires IsModulus(p) && AreRows(p, rows) && OrderedInTime(rows) && 0 <= i < |rows| - 1 && |out| == |rows| - 1
    requires IsUserCapped(HelperBits(rows)[..|rows| - 1], Conversions(p, rows, window), 1, out)
    ensures UserSum(HelperBits(rows)[..|rows| - 1], out, i) == if UserConverts(p, rows, window, i) then 1 else 0
  {
    hide Touches, SameUser, Converts, UserSum, IsUserCapped, Conversions, HelperBits, OrderedInTime, AreRows;
    CapOnePerUser(p, rows, window, out, i);
  }

  lemma KeyConvertsHere(p: int, rows: seq<Row>, window: Option<nat>, from: int)
    requires IsModulus(p) && Grouped(rows) && 0 <= from < |rows|
    ensures KeyConverts(p, rows, window, rows[from].matchKey, from) <==> UserConverts(p, rows, window, from)
  {
    hide Touches, Grouped;
    forall s | from <= s < |rows| ensures rows[s].matchKey == rows[from].matchKey <==> SameUser(rows, from, s) {
      KeyIsUser(rows, from, s);
    }
  }

  lemma KeyConvertsLater(p: int, rows: seq<Row>, window: Option<nat>, key: int, from: int)
    requires IsModulus(p) && 0 <= from < |rows| && rows[from].matchKey != key
    ensures KeyConverts(p, rows, window, key, from) <==> KeyConverts(p, rows, window, key, from + 1)
  {
    hide Touches;
  }

  lemma NoneConvertsLast(p: int, rows: seq<Row>, window: Option<nat>, key: int)
    requires IsModulus(p) && |rows| > 0
    ensures !KeyConverts(p, rows, window, key, |rows| - 1)
  {
    hide Mod, Mul, Add, Sub;
  }

  lemma KeySumStep(rows: seq<Row>, x: seq<int>, key: int, from: int)
    requires 0 <= from <= |x| <= |rows|
    ensures KeySum(rows, x, key, from)
         == if from == |x| then 0 else (if rows[from].matchKey == key then x[from] else 0) + KeySum(rows, x, key, from + 1)
  {
  }

  lemma CappedLength(p: int, rows: seq<Row>, window: Option<nat>, out: seq<int>)
    requires IsModulus(p) && |rows| > 0
    requires IsUserCapped(HelperBits(rows)[..|rows| - 1], Conversions(p, rows, window), 1, out)
    ensures |out| == |rows| - 1
  {
  }

  lemma {:induction false} CapOneKeyFrom(p: int, rows: seq<Row>, window: Option<nat>, out: seq<int>, key: int, from: int)
    requires IsModulus(p) && AreRows(p, rows) && OrderedInTime(rows) && Grouped(rows) && 0 <= from <= |rows| - 1
    requires IsUserCapped(HelperBits(rows)[..|rows| - 1], Conversions(p, rows, window), 1, out)
    ensures |out| == |rows| - 1
    ensures KeySum(rows, out, key, from) == if KeyConverts(p, rows, window, key, from) then 1 else 0
    decreases |rows| - from
  {
    hide *;
    CappedLength(p, rows, window, out);
    KeySumStep(rows, out, key, from);
    if from == |out| {
      NoneConvertsLast(p, rows, window, key);
    } else if rows[from].matchKey == key {
      UserSumIsKeySum(rows, out, from);
      UserTotalIs(p, rows, window, out, from);
      KeyConvertsHere(p, rows, window, from);
    } else {
      CapOneKeyFrom(p, rows, window, out, key, from + 1);
      KeyConvertsLater(p, rows, window, key, from);
    }
  }

  /** Cap-one mode by match key: its rows sum to 1 if some source with that key has an in-window
      trigger credited to it, and to 0 otherwise. */
  lemma CapOnePerKey(p: int, rows: seq<Row>, window: Option<nat>, out: seq<int>, key: int)
    requires IsModulus(p) && AreRows(p, rows) && OrderedInTime(rows) && Grouped(rows) && |rows| > 0
    requires IsUserCapped(HelperBits(rows)[..|rows| - 1], Conversions(p, rows, window), 1, out)
    ensures |out| == |rows| - 1
    ensures KeySum(rows, out, key, 0) ==
      if exists s, t :: 0 <= s < |rows| && rows[s].matchKey == key && Touches(p, rows, window, s, t) then 1 else 0
  {
    hide Mod, Mul, Add, Sub;
    CapOneKeyFrom(p, rows, window, out, key, 0);
  }

  lemma LatestInUser(p: int, rows: seq<Row>, window: Option<nat>, i: int)
    requires IsModulus(p) && 0 <= i < |rows| - 1
    ensures
      var helper := HelperBits(rows)[..|rows| - 1];
      (forall s :: SameUser(rows, i, s) && Converts(p, rows, window, s) ==> s == i)
      <==> (Next(helper, i) ==> UserSum(helper, Conversions(p, rows, window), i + 1) == 0)
  {
    hide Mod, Mul, Add, Sub;
    var helper := HelperBits(rows)[..|rows| - 1];
    if Next(helper, i) {
      UserHasOne(p, rows, window, i + 1);
      assert Continues(rows, i + 1);
      if s :| SameUser(rows, i + 1, s) && Converts(p, rows, window, s) {
        assert SameUser(rows, i, s) && s != i;
      }
      if s :| SameUser(rows, i, s) && Converts(p, rows, window, s) && s != i {
        assert SameUser(rows, i + 1, s);
      }
    } else {
      assert forall s :: SameUser(rows, i, s) && s > i ==> Continues(rows, i + 1);
    }
  }
}
