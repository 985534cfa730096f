/** Progress of the `OrderingSender` protocol: whatever the scheduler does, as long as it keeps
    taking steps that are due, it runs out of them, and then everything has been delivered. */
module OrderingProgress {
  import opened Wrappers
  import opened OrderingBuffer
  import opened OrderingProtocol

  /** The step is due: a first poll, a poll that was asked for, or the next action of something that runs. */
  predicate IsDue(c: Config, s: State, step: Step)
  {
    && Enabled(c, s, step)
    && (step.Poll? ==> At(s, step.i).Fresh? || step.i in s.woken)
    && (step.StreamTake? ==> s.reader.Resting? || s.readerWoken)
  }

  // ---------------------------------------------------------------- the measure

  function Operations(c: Config): (n: nat) { |c.messages| + if c.closes then 1 else 0 }

  function PhaseWeight(phase: Phase, next: nat): (w: nat)
    ensures w <= 30
  {
    match phase
    case Fresh => 10
    case Loading => 6
    case Adding(curr) => if curr < next then 7 else 1
    case Turn => 1
    case Waking => 30
    case _ => 0
  }

  function Weight(s: State, i: nat): (w: nat)
  {
    PhaseWeight(At(s, i), s.next) + if i in s.woken then 20 else 0
  }

  function TotalWeight(s: State, n: nat): (w: nat)
  {
    if n == 0 then 0 else TotalWeight(s, n - 1) + Weight(s, n - 1)
  }

  function ReaderWeight(s: State): (w: nat)
  {
    (match s.reader case Resting => 1 case Holding => 31 case HoldingLoaded(_) => 30 case _ => 0)
    + if s.readerWoken then 2 else 0
  }

  /** Operations that have not acted, operations not counted in `next`, bytes to read, work at hand. */
  datatype Measure = Measure(toAct: int, toCount: int, toRead: nat, atHand: nat)

  ghost function MeasureOf(c: Config, s: State): (m: Measure)
  {
    Measure(Operations(c) - Acted(s), Operations(c) - s.next, |s.buffer.data|,
            TotalWeight(s, Operations(c)) + ReaderWeight(s))
  }

  /** Lexicographic order on measures whose parts are not negative. */
  ghost predicate Decreases(m: Measure, m': Measure)
  {
    && m'.toAct >= 0 && m'.toCount >= 0
    && (m'.toAct < m.toAct
        || (m'.toAct == m.toAct && (m'.toCount < m.toCount
        || (m'.toCount == m.toCount && (m'.toRead < m.toRead
        || (m'.toRead == m.toRead && m'.atHand < m.atHand))))))
  }

  lemma {:induction false} OnlyAt(s: State, s': State, n: nat, i: nat)
    requires forall j: nat :: j < n && j != i ==> Weight(s', j) == Weight(s, j)
    ensures TotalWeight(s', n) == TotalWeight(s, n) + if i < n then Weight(s', i) - Weight(s, i) else 0
  {
    if n > 0 {
      OnlyAt(s, s', n - 1, i);
    }
  }

  /** Waking an index costs at most one entry in `woken`. */
  lemma WakeWeight(s: State, i: nat, n: nat)
    requires |s.shards| == SHARDS
    ensures TotalWeight(WakeIndex(s, i), n) <= TotalWeight(s, n) + 20
  {
    hide ShardOf, Woken;
    var s' := WakeIndex(s, i);
    assert forall j: nat :: At(s', j) == At(s, j);
    OnlyAt(s, s', n, i);
  }

  /** A step that only does work at hand. */
  lemma LessAtHand(c: Config, s: State, s': State)
    requires Acted(s') == Acted(s) <= Operations(c) && s'.next == s.next <= Operations(c) && s'.buffer == s.buffer
    requires TotalWeight(s', Operations(c)) + ReaderWeight(s') < TotalWeight(s, Operations(c)) + ReaderWeight(s)
    ensures Decreases(MeasureOf(c, s), MeasureOf(c, s'))
  {
  }

  lemma SetWeight(s: State, n: nat, i: nat, phase: Phase)
    requires i < n
    ensures TotalWeight(Set(s, i, phase), n) == TotalWeight(s, n) + PhaseWeight(phase, s.next) - PhaseWeight(At(s, i), s.next)
  {
    OnlyAt(s, Set(s, i, phase), n, i);
  }

  lemma TaskStepDecreases(c: Config, s: State, i: nat, step: Step)
    requires IsConfig(c) && Inv(c, s) && (step == Poll(i) || step == Load(i) || step == Add(i)) && IsDue(c, s, step)
    ensures Decreases(MeasureOf(c, s), MeasureOf(c, Do(c, s, step)))
  {
    var s', n := Do(c, s, step), Operations(c);
    assert PhaseFits(c, s, i);
    assert PhaseFits(c, s, s.next);
    assert s'.next == s.next && s'.buffer == s.buffer && ReaderWeight(s') == ReaderWeight(s) && Acted(s') == Acted(s);
    assert i < n && s.next <= n && Acted(s) <= n;
    TaskWeight(c, s, i, step);
    hide Inv, Do, IsDue, MeasureOf, Decreases;
    LessAtHand(c, s, s');
  }

  lemma TaskWeight(c: Config, s: State, i: nat, step: Step)
    requires |s.shards| == SHARDS && s.buffer.Valid() && i < Operations(c) && PhaseFits(c, s, i)
    requires (step == Poll(i) || step == Load(i) || step == Add(i)) && IsDue(c, s, step)
    requires step.Add? ==> (At(s, i).curr < s.shards[ShardOf(i)].wokenAt ==> At(s, i).curr < s.next)
    ensures TotalWeight(Do(c, s, step), Operations(c)) < TotalWeight(s, Operations(c))
  {
    hide ShardOf, Insert;
    var s' := Do(c, s, step);
    assert forall j: nat :: j != i ==> Weight(s', j) == Weight(s, j);
    OnlyAt(s, s', Operations(c), i);
  }

  lemma ActDecreases(c: Config, s: State, i: nat)
    requires IsConfig(c) && Inv(c, s) && IsDue(c, s, Act(i))
    ensures Decreases(MeasureOf(c, s), MeasureOf(c, Do(c, s, Act(i))))
  {
    hide ShardOf;
    var s' := Do(c, s, Act(i));
    assert PhaseFits(c, s, i);
    ActHolds(c, s, i);
    assert forall j: nat :: j != i ==> Weight(s', j) == Weight(s, j);
    OnlyAt(s, s', Operations(c), i);
  }

  lemma FetchAddDecreases(c: Config, s: State, i: nat)
    requires IsConfig(c) && Inv(c, s) && IsDue(c, s, FetchAdd(i))
    ensures Decreases(MeasureOf(c, s), MeasureOf(c, Do(c, s, FetchAdd(i))))
  {
    assert PhaseFits(c, s, i);
    assert PhaseFits(c, s, i + 1);
  }

  lemma WakeDecreases(c: Config, s: State, i: nat)
    requires IsConfig(c) && Inv(c, s) && IsDue(c, s, Wake(i))
    ensures Decreases(MeasureOf(c, s), MeasureOf(c, Do(c, s, Wake(i))))
  {
    var w, s', n := WakeIndex(s, i + 1), Do(c, s, Wake(i)), Operations(c);
    assert PhaseFits(c, s, i);
    assert PhaseFits(c, s, s.next);
    assert s' == Set(w, i, Done) && At(w, i).Waking?;
    assert s'.next == s.next && s'.buffer == s.buffer && ReaderWeight(s') == ReaderWeight(s) && Acted(s') == Acted(s);
    assert i < n && s.next <= n && Acted(s) <= n;
    hide Inv, Do, IsDue, MeasureOf, Decreases, Set, WakeIndex, ReaderWeight;
    WakeWeight(s, i + 1, n);
    SetWeight(w, n, i, Done);
    LessAtHand(c, s, s');
  }

  lemma StreamDecreases(c: Config, s: State, step: Step)
    requires IsConfig(c) && Inv(c, s) && (step.StreamTake? || step.StreamLoad? || step.StreamWake?) && IsDue(c, s, step)
    ensures Decreases(MeasureOf(c, s), MeasureOf(c, Do(c, s, step)))
  {
    hide ShardOf, Woken;
    var s' := Do(c, s, step);
    assert PhaseFits(c, s, s.next);
    if step.StreamWake? {
      WakeWeight(s, s.reader.n, Operations(c));
      SameWeight(WakeIndex(s, s.reader.n), s', Operations(c));
    } else if step.StreamLoad? || !s.buffer.TakeReady() {
      SameWeight(s, s', Operations(c));
    }
  }

  lemma {:induction false} SameWeight(s: State, s': State, n: nat)
    requires forall j: nat :: At(s', j) == At(s, j)
    requires s'.next == s.next && s'.woken == s.woken
    ensures TotalWeight(s', n) == TotalWeight(s, n)
  {
    if n > 0 {
      SameWeight(s, s', n - 1);
    }
  }

  /** In every reachable state every step that is due brings the protocol closer to rest, so no
      schedule of due steps goes on for ever. */
  lemma DueStepsRunOut(c: Config, steps: seq<Step>, step: Step)
    requires IsConfig(c) && IsDue(c, Exec(c, steps), step)
    ensures Decreases(MeasureOf(c, Exec(c, steps)), MeasureOf(c, Do(c, Exec(c, steps), step)))
  {
    hide *;
    var s := Exec(c, steps);
    match step
    case Poll(i) => TaskStepDecreases(c, s, i, step);
    case Load(i) => TaskStepDecreases(c, s, i, step);
    case Add(i) => TaskStepDecreases(c, s, i, step);
    case Act(i) => ActDecreases(c, s, i);
    case FetchAdd(i) => FetchAddDecreases(c, s, i);
    case Wake(i) => WakeDecreases(c, s, i);
    case StreamTake => StreamDecreases(c, s, step);
    case StreamLoad => StreamDecreases(c, s, step);
    case StreamWake => StreamDecreases(c, s, step);
  }

  /** The step that is due for an operation that is not at rest. */
  function DueStep(s: State, i: nat): (step: Step)
  {
    match At(s, i)
    case Fresh => Poll(i)
    case Parked => Poll(i)
    case Loading => Load(i)
    case Adding(_) => Add(i)
    case Turn => if s.reader.Holding? then StreamLoad else if s.reader.HoldingLoaded? then StreamWake else Act(i)
    case Written => FetchAdd(i)
    case _ => Wake(i)
  }

  lemma RestsAt(c: Config, s: State, i: nat)
    requires Inv(c, s) && !IsDue(c, s, DueStep(s, i))
    requires !IsDue(c, s, StreamLoad) && !IsDue(c, s, StreamWake)
    ensures At(s, i).Fresh? || At(s, i).Done? || (At(s, i).Parked? && i !in s.woken)
    ensures IsOperation(c, i) ==> !At(s, i).Fresh?
  {
    hide NoneStranded, WakesRemembered, Conserved, ShardsFit, ReaderFits;
    assert PhaseFits(c, s, i);
  }

  lemma RestsEverywhere(c: Config, s: State)
    requires Inv(c, s) && forall step :: !IsDue(c, s, step)
    ensures Quiescent(c, s)
    ensures forall i: nat :: IsOperation(c, i) ==> !At(s, i).Fresh?
  {
    assert !IsDue(c, s, StreamTake) && !IsDue(c, s, StreamLoad) && !IsDue(c, s, StreamWake);
    hide Inv, At, IsOperation;
    forall i: nat
      ensures At(s, i).Fresh? || At(s, i).Done? || (At(s, i).Parked? && i !in s.woken)
    {
      RestsAt(c, s, i);
    }
    forall i: nat | IsOperation(c, i)
      ensures !At(s, i).Fresh?
    {
      RestsAt(c, s, i);
    }
  }

  /** Progress: when no step is due, every operation has completed, and a closing channel has
      delivered every byte and ended its stream. */
  lemma NoDueStepMeansDelivered(c: Config, steps: seq<Step>)
    requires IsConfig(c) && forall step :: !IsDue(c, Exec(c, steps), step)
    ensures IsDelivered(c, Exec(c, steps))
  {
    var s := Exec(c, steps);
    RestsEverywhere(c, s);
    RestMeansDelivered(c, steps);
    hide IsOperation, At, Quiescent, Exec, Inv, IsDue;
    assert IsDelivered(c, s);
  }

  ghost predicate IsDelivered(c: Config, s: State)
  {
    && (forall i: nat :: IsOperation(c, i) ==> At(s, i).Done?)
    && (c.closes ==> s.reader.Ended? && s.taken == Concat(c.messages, |c.messages|))
  }

  // ---------------------------------------------------------------- every scheduler

  ghost predicate SomeDue(c: Config, s: State) { exists step :: IsDue(c, s, step) }

  /** The scheduler, which may look at the whole run so far, takes a due step whenever there is one. */
  ghost predicate IsScheduler(c: Config, pick: seq<Step> -> Step)
    requires IsConfig(c)
  {
    forall run :: SomeDue(c, Exec(c, run)) ==> IsDue(c, Exec(c, run), pick(run))
  }

  /** The part of the run from `from` on is what the scheduler does. */
  ghost predicate IsScheduled(pick: seq<Step> -> Step, run: seq<Step>, from: nat)
  {
    forall k :: from <= k < |run| ==> run[k] == pick(run[..k])
  }

  /** From every point of every run every scheduler comes to an end after finitely many steps, and
      then everything has been delivered. */
  lemma {:induction false} EverySchedulerDelivers(c: Config, steps: seq<Step>, pick: seq<Step> -> Step) returns (run: seq<Step>)
    requires IsConfig(c) && IsScheduler(c, pick)
    ensures steps <= run && IsScheduled(pick, run, |steps|)
    ensures !SomeDue(c, Exec(c, run)) && IsDelivered(c, Exec(c, run))
    decreases MeasureOf(c, Exec(c, steps)).toAct, MeasureOf(c, Exec(c, steps)).toCount,
      MeasureOf(c, Exec(c, steps)).toRead, MeasureOf(c, Exec(c, steps)).atHand
  {
    hide *;
    if SomeDue(c, Exec(c, steps)) {
      var step := pick(steps);
      PickDecreases(c, steps, pick);
      run := EverySchedulerDelivers(c, steps + [step], pick);
      ScheduledFromEarlier(pick, run, steps);
    } else {
      NoneDueMeansDelivered(c, steps);
      run := steps;
      NothingScheduled(pick, run);
    }
  }

  lemma PickDecreases(c: Config, steps: seq<Step>, pick: seq<Step> -> Step)
    requires IsConfig(c) && IsScheduler(c, pick) && SomeDue(c, Exec(c, steps))
    ensures
      var m, m' := MeasureOf(c, Exec(c, steps)), MeasureOf(c, Exec(c, steps + [pick(steps)]));
      && m'.toAct >= 0 && m'.toCount >= 0
      && (m'.toAct < m.toAct
          || (m'.toAct == m.toAct && (m'.toCount < m.toCount
          || (m'.toCount == m.toCount && (m'.toRead < m.toRead
          || (m'.toRead == m.toRead && m'.atHand < m.atHand))))))
  {
    var step := pick(steps);
    assert Exec(c, steps + [step]) == Do(c, Exec(c, steps), step) by { assert (steps + [step])[..|steps|] == steps; }
    hide IsDue, Exec, Do, MeasureOf, Inv, SomeDue, IsConfig;
    assert IsDue(c, Exec(c, steps), step);
    DueStepsRunOut(c, steps, step);
  }

  lemma ScheduledFromEarlier(pick: seq<Step> -> Step, run: seq<Step>, steps: seq<Step>)
    requires steps + [pick(steps)] <= run && IsScheduled(pick, run, |steps| + 1)
    ensures steps <= run && IsScheduled(pick, run, |steps|)
  {
    assert run[..|steps| + 1][..|steps|] == steps && run[..|steps|] == steps;
    assert run[..|steps| + 1][|steps|] == run[|steps|];
  }

  lemma NothingScheduled(pick: seq<Step> -> Step, run: seq<Step>)
    ensures IsScheduled(pick, run, |run|)
  {
  }

  lemma NoneDueMeansDelivered(c: Config, steps: seq<Step>)
    requires IsConfig(c) && !SomeDue(c, Exec(c, steps))
    ensures IsDelivered(c, Exec(c, steps))
  {
    hide Exec, IsDelivered, IsDue, Inv, IsConfig;
    assert forall step :: !IsDue(c, Exec(c, steps), step);
    NoDueStepMeansDelivered(c, steps);
  }
}
