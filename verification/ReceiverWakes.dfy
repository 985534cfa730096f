/** How often a receiver that polls far ahead of its turn is woken for nothing, in `unordered_receiver.rs`.

    A receiver more than `c` places ahead overflows, and is woken on every half lap of `c / 2` places. */
module ReceiverWakes {
  import opened Wrappers
  import opened PrimeField
  import opened UnorderedReceiver

  function Half(capacity: nat): (h: nat)
    requires capacity >= 2
    ensures h >= 1 && 2 * h <= capacity
  {
    capacity / 2
  }

  /** How many half laps end at or before place `n`. */
  function HalfLaps(capacity: nat, n: nat): (r: nat)
    requires capacity >= 2
  {
    n / Half(capacity)
  }

  /** Place `n` ends a half lap. */
  predicate EndsHalfLap(capacity: nat, n: nat)
    requires capacity >= 2
  {
    n % Half(capacity) == 0
  }

  function NextOf(capacity: nat, steps: seq<WindowStep>): (n: nat)
    requires capacity >= 2
  {
    RunWindow(capacity, steps).0.next
  }

  /** The move to the next place wakes `i` although it is not its turn. */
  predicate IsEarly(w: Window, i: nat)
    requires IsWindow(w)
  {
    i in WokenBy(w) && i != w.next + 1
  }

  /** How often `i` is woken early in a run. */
  function Early(capacity: nat, steps: seq<WindowStep>, i: nat): (r: nat)
    requires capacity >= 2
  {
    if steps == [] then 0
    else
      var before := steps[..|steps| - 1];
      Early(capacity, before, i)
      + if steps[|steps| - 1] == Received && IsEarly(RunWindow(capacity, before).0, i) then 1 else 0
  }

  // ---------------------------------------------------------------- one step

  lemma EarlyIsOverflow(w: Window, parked: set<nat>, i: nat)
    requires WindowInv(w, parked)
    ensures IsEarly(w, i) <==> i in w.overflow && EndsHalfLap(|w.ring|, w.next + 1)
  {
    hide Mod, NextMultiple, IsKept;
    var n := w.next + 1;
    var slot := w.ring[Slot(w, n)];
    if slot.Some? {
      SameSlot(w, w.next, n, slot.value);
    }
    if i in w.overflow {
      OverflowIsFar(w, parked, i);
    }
  }

  lemma OverflowIsFar(w: Window, parked: set<nat>, i: nat)
    requires WindowInv(w, parked) && i in w.overflow
    ensures i > |w.ring| && i > w.next + 1
    ensures HalfLaps(|w.ring|, i - |w.ring| - 1) >= HalfLaps(|w.ring|, w.next)
  {
    assert i > NextMultiple(w.next, Half(|w.ring|)) + (|w.ring| - Half(|w.ring|)) by {
      hide Mod, IsKept, NextMultiple;
    }
    hide *;
    FarBeyond(i, |w.ring|, w.next);
  }

  lemma FarBeyond(i: nat, c: nat, n: nat)
    requires c >= 2 && i > NextMultiple(n, Half(c)) + (c - Half(c))
    ensures i > c && i > n + 1 && HalfLaps(c, i - c - 1) >= HalfLaps(c, n)
  {
    NextMultipleBounds(n, Half(c));
    LapEndIs(c, n);
    hide *;
    MulNonNegative(HalfLaps(c, n), Half(c));
    LapsAtLeast(c, i - c - 1, HalfLaps(c, n));
  }

  lemma LapEndIs(c: nat, n: nat)
    requires c >= 2
    ensures NextMultiple(n, Half(c)) == HalfLaps(c, n) * Half(c) + Half(c)
  {
    var q, h := n / Half(c), Half(c);
    assert (q + 1) * h == q * h + h;
  }

  lemma LapsAtLeast(c: nat, m: nat, q: nat)
    requires c >= 2 && m >= q * Half(c)
    ensures HalfLaps(c, m) >= q
  {
    hide Half;
    QuotientAtLeast(m, q, Half(c));
  }

  lemma MulNonNegative(a: nat, b: nat)
    ensures a * b >= 0
  {
  }

  lemma NextHalfLap(capacity: nat, n: nat)
    requires capacity >= 2
    ensures HalfLaps(capacity, n + 1) == HalfLaps(capacity, n) + if EndsHalfLap(capacity, n + 1) then 1 else 0
  {
    var h := Half(capacity);
    var q, r := n / h, n % h;
    assert n == h * q + r;
    if r == h - 1 {
      assert n + 1 == h * (q + 1) + 0 by { assert h * (q + 1) == h * q + h; }
      DivIs(n + 1, h, q + 1, 0);
    } else {
      DivIs(n + 1, h, q, r + 1);
    }
  }

  lemma QuotientAtLeast(m: nat, q: nat, h: nat)
    requires h >= 1 && m >= q * h
    ensures m / h >= q
  {
    var p := m / h;
    assert m == h * p + m % h;
    assert (p + 1) * h == h * p + h;
    if p + 1 <= q {
      MulMonotone(p + 1, q, h);
    }
  }

  lemma MulMonotone(a: nat, b: nat, h: nat)
    requires a <= b
    ensures a * h <= b * h
  {
    assert b * h == a * h + (b - a) * h;
  }

  /** How a step moves the position, the overflow list and the count. */
  lemma StepMoves(capacity: nat, steps: seq<WindowStep>, step: WindowStep, i: nat)
    requires capacity >= 2
    ensures
      var w, w' := RunWindow(capacity, steps).0, RunWindow(capacity, steps + [step]).0;
      var early := step == Received && i in w.overflow && EndsHalfLap(capacity, w.next + 1);
      && |w.ring| == |w'.ring| == capacity
      && w'.next == w.next + (if step == Received then 1 else 0)
      && Early(capacity, steps + [step], i) == Early(capacity, steps, i) + (if early then 1 else 0)
      && (i in w'.overflow <==>
            if step == Received then i in w.overflow && !EndsHalfLap(capacity, w.next + 1)
            else i in w.overflow || (step.i == i && i > w.next + capacity))
  {
    hide Mod, Slot;
    var (w, parked) := RunWindow(capacity, steps);
    assert (steps + [step])[..|steps|] == steps;
    EarlyIsOverflow(w, parked, i);
    hide WindowInv;
  }

  // ---------------------------------------------------------------- the bound

  /** In every continuation of every run a receiver `i` is woken early at most once for the half lap
      it is on, and once for each that begins more than `c` places before it. */
  lemma {:induction false} EarlyIsBounded(capacity: nat, before: seq<WindowStep>, more: seq<WindowStep>, i: nat)
    requires capacity >= 2
    ensures
      var laps := HalfLaps(capacity, NextOf(capacity, before));
      var early := Early(capacity, before + more, i) - Early(capacity, before, i);
      && 0 <= early <= HalfLaps(capacity, NextOf(capacity, before + more)) - laps
      && (early > 0 ==> i > capacity && early <= 1 + HalfLaps(capacity, i - capacity - 1) - laps)
    decreases |more|
  {
    hide Early, RunWindow, HalfLaps, EndsHalfLap, WindowInv;
    if more == [] {
      assert before + more == before;
    } else {
      var most, step := more[..|more| - 1], more[|more| - 1];
      assert before + more == (before + most) + [step];
      EarlyIsBounded(capacity, before, most, i);
      StepMoves(capacity, before + most, step, i);
      var (w, parked) := RunWindow(capacity, before + most);
      NextHalfLap(capacity, w.next);
      if i in w.overflow {
        OverflowIsFar(w, parked, i);
      }
    }
  }

  /** Within reach of the ring nobody is woken early. */
  lemma {:induction false} NeverEarlyInReach(capacity: nat, before: seq<WindowStep>, more: seq<WindowStep>, i: nat)
    requires capacity >= 2 && i !in RunWindow(capacity, before).0.overflow && i <= NextOf(capacity, before) + capacity
    ensures Early(capacity, before + more, i) == Early(capacity, before, i)
    ensures i !in RunWindow(capacity, before + more).0.overflow
    ensures i <= NextOf(capacity, before + more) + capacity
    decreases |more|
  {
    hide Early, RunWindow, EndsHalfLap;
    if more == [] {
      assert before + more == before;
    } else {
      var most, step := more[..|more| - 1], more[|more| - 1];
      assert before + more == (before + most) + [step];
      NeverEarlyInReach(capacity, before, most, i);
      StepMoves(capacity, before + most, step, i);
    }
  }

  // ---------------------------------------------------------------- the bound is reached

  /** `i` is polled again before every move. */
  function Rounds(k: nat, i: nat): (r: seq<WindowStep>)
  {
    if k == 0 then [] else Rounds(k - 1, i) + [Park(i)] + [Received]
  }

  /** Where the half lap that `m` is on ends. */
  function LapEnd(capacity: nat, m: nat): (r: nat)
    requires capacity >= 2
  {
    NextMultiple(m, Half(capacity))
  }

  lemma InsideHalfLap(capacity: nat, m: nat)
    requires capacity >= 2
    ensures m < LapEnd(capacity, m) <= m + Half(capacity)
    ensures HalfLaps(capacity, LapEnd(capacity, m)) == HalfLaps(capacity, m) + 1
    ensures forall x :: m < x < LapEnd(capacity, m) ==> !EndsHalfLap(capacity, x)
  {
    var h, q := Half(capacity), m / Half(capacity);
    NextMultipleBounds(m, h);
    assert LapEnd(capacity, m) == (q + 1) * h == h * q + h && m == h * q + m % h;
    DivIs(LapEnd(capacity, m), h, q + 1, 0);
    hide NextMultiple, Half;
    forall x | m < x < LapEnd(capacity, m) ensures !EndsHalfLap(capacity, x) {
      DivIs(x, h, q, x - h * q);
    }
  }

  /** A receiver that is polled before every move is woken early at the end of every half lap, up to
      the one after which it is in reach. */
  lemma {:induction false} PromptRun(capacity: nat, before: seq<WindowStep>, i: nat, k: nat)
    requires capacity >= 2 && i > NextOf(capacity, before) + capacity
    requires NextOf(capacity, before) + k <= LapEnd(capacity, i - capacity - 1)
    ensures
      var n, steps := NextOf(capacity, before), before + Rounds(k, i);
      && NextOf(capacity, steps) == n + k
      && Early(capacity, steps, i) - Early(capacity, before, i) == HalfLaps(capacity, n + k) - HalfLaps(capacity, n)
      && (i - capacity - 1 < n + k < LapEnd(capacity, i - capacity - 1) ==> i in RunWindow(capacity, steps).0.overflow)
  {
    hide Early, RunWindow, HalfLaps, EndsHalfLap, LapEnd;
    if k == 0 {
      assert before + Rounds(k, i) == before;
    } else {
      var steps := before + Rounds(k - 1, i);
      assert before + Rounds(k, i) == steps + [Park(i)] + [Received];
      PromptRun(capacity, before, i, k - 1);
      StepMoves(capacity, steps, Park(i), i);
      StepMoves(capacity, steps + [Park(i)], Received, i);
      InsideHalfLap(capacity, i - capacity - 1);
      NextHalfLap(capacity, NextOf(capacity, steps));
    }
  }

  // ---------------------------------------------------------------- the documented bound

  /** `early` wakes keep within `2d/c + 1`, for a receiver `d` places out of reach. */
  predicate WithinDocumented(capacity: nat, d: int, early: int) { (early - 1) * capacity <= 2 * d }

  /** The most often a receiver that is `d` places out of reach at `n` can be woken early. */
  function MostEarly(capacity: nat, n: nat, d: nat): (r: nat)
    requires capacity >= 2 && d >= 1
  {
    LapsGrow(capacity, n, n + d - 1);
    1 + HalfLaps(capacity, n + d - 1) - HalfLaps(capacity, n)
  }

  lemma LapsGrow(capacity: nat, m: nat, n: nat)
    requires capacity >= 2 && m <= n
    ensures HalfLaps(capacity, m) <= HalfLaps(capacity, n)
  {
    var h := Half(capacity);
    assert m == h * (m / h) + m % h;
    QuotientAtLeast(n, m / h, h);
  }

  /** No run wakes it more often, and a prompt one does so as often. */
  lemma MostEarlyIsExact(capacity: nat, before: seq<WindowStep>, i: nat)
    requires capacity >= 2 && i > NextOf(capacity, before) + capacity
    ensures
      var n := NextOf(capacity, before);
      var most := MostEarly(capacity, n, i - n - capacity);
      && (forall more :: Early(capacity, before + more, i) <= Early(capacity, before, i) + most)
      && exists more :: Early(capacity, before + more, i) == Early(capacity, before, i) + most
  {
    hide Early, RunWindow, HalfLaps, LapEnd;
    var n, m := NextOf(capacity, before), i - capacity - 1;
    forall more ensures Early(capacity, before + more, i) <= Early(capacity, before, i) + MostEarly(capacity, n, i - n - capacity) {
      EarlyIsBounded(capacity, before, more, i);
    }
    InsideHalfLap(capacity, m);
    PromptRun(capacity, before, i, LapEnd(capacity, m) - n);
  }

  /** The documentation promises at most `2d/c + 1` extra wakes.  That is true for a receiver `d`
      places out of reach at `n` if and only if the count above says so. */
  lemma DocumentedBound(capacity: nat, before: seq<WindowStep>, i: nat)
    requires capacity >= 2 && i > NextOf(capacity, before) + capacity
    ensures
      var n := NextOf(capacity, before);
      var d := i - n - capacity;
      (forall more :: WithinDocumented(capacity, d, Early(capacity, before + more, i) - Early(capacity, before, i)))
      <==> (HalfLaps(capacity, n + d - 1) - HalfLaps(capacity, n)) * capacity <= 2 * d
  {
    hide Early, RunWindow, HalfLaps;
    var n := NextOf(capacity, before);
    var d := i - n - capacity;
    var most := MostEarly(capacity, n, d);
    MostEarlyIsExact(capacity, before, i);
    if (most - 1) * capacity <= 2 * d {
      forall more
        ensures WithinDocumented(capacity, d, Early(capacity, before + more, i) - Early(capacity, before, i))
      {
        FewerIsWithin(capacity, d, Early(capacity, before + more, i) - Early(capacity, before, i), most);
      }
    } else {
      var more :| Early(capacity, before + more, i) == Early(capacity, before, i) + most;
      assert !WithinDocumented(capacity, d, Early(capacity, before + more, i) - Early(capacity, before, i));
    }
  }

  lemma FewerIsWithin(capacity: nat, d: int, early: int, most: int)
    requires early <= most && WithinDocumented(capacity, d, most)
    ensures WithinDocumented(capacity, d, early)
  {
    MulNonNegative(most - early, capacity);
    assert (most - 1) * capacity == (early - 1) * capacity + (most - early) * capacity;
  }

  /** It is not always: with eight wakers, a receiver three places out of reach at place 3 can be woken
      twice for nothing. */
  lemma DocumentedBoundFails()
    ensures
      var before := [Received, Received, Received];
      && NextOf(8, before) == 3
      && exists more :: !WithinDocumented(8, 3, Early(8, before + more, 14) - Early(8, before, 14))
  {
    var before := [Received, Received, Received];
    NextAfterMoves(8, 3, before);
    hide Early, RunWindow;
    assert HalfLaps(8, 5) == 1 && HalfLaps(8, 3) == 0;
    DocumentedBound(8, before, 14);
  }

  lemma {:induction false} NextAfterMoves(capacity: nat, k: nat, steps: seq<WindowStep>)
    requires capacity >= 2 && |steps| == k && forall j :: 0 <= j < k ==> steps[j] == Received
    ensures NextOf(capacity, steps) == k
  {
    if k > 0 {
      var before := steps[..k - 1];
      assert steps == before + [Received];
      NextAfterMoves(capacity, k - 1, before);
      StepMoves(capacity, before, Received, 0);
    }
  }
}
