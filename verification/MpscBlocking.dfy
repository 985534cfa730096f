/** `OrderingMpscEnd` in `ordering_mpsc.rs`: senders that wait for room in the reorder ring.

    `block` loads `end` and only then creates the future that `notify_waiters` will complete, and
    `incr` first moves `end` and then notifies; each of these is a step of its own. */
module MpscBlocking {
  import opened Wrappers
  import opened OrderingBuffer
  import opened OrderingMpsc

  datatype Phase =
    | Fresh
    | Loaded          // saw an `end` that is too small, about to call `notified`
    | Waiting
    | Woken           // notified, about to load again
    | Cleared         // past `block`, about to push
    | Pushed

  /** `notifying` says that the receiver has moved `end` and is about to notify. */
  datatype State = State(ch: Channel<Bytes>, phases: map<nat, Phase>, notifying: bool)

  /** `count` senders, one for each index. */
  datatype Config = Config(message: nat -> Bytes, capacity: nat, count: nat)

  datatype BlockStep = Load(i: nat) | Register(i: nat) | Push(i: nat) | Receive | TakeSome | Notify

  function At(s: State, i: nat): (r: Phase) { if i in s.phases then s.phases[i] else Fresh }

  function Set(s: State, i: nat, phase: Phase): (r: State)
    ensures forall j: nat :: At(r, j) == if j == i then phase else At(s, j)
  {
    s.(phases := s.phases[i := phase])
  }

  /** `notify_waiters` reaches those who wait now, and nobody else. */
  function Notified(s: State): (r: State)
    ensures forall j: nat :: At(r, j) == if At(s, j).Waiting? then Woken else At(s, j)
  {
    s.(notifying := false, phases := map i | i in s.phases :: if s.phases[i].Waiting? then Woken else s.phases[i])
  }

  predicate Enabled(c: Config, s: State, step: BlockStep)
    requires IsRing(s.ch.ring)
  {
    match step
    case Load(i) => i < c.count && (At(s, i).Fresh? || At(s, i).Woken?)
    case Register(i) => At(s, i).Loaded?
    case Push(i) => At(s, i).Cleared?
    case Receive => !s.notifying && s.ch.inFlight != []
    case TakeSome => !s.notifying && Tail(s.ch.ring) + Wrap(s.ch.ring) >= 1
    case Notify => s.notifying
  }

  /** A step that is not enabled does nothing. */
  function Next(c: Config, s: State, step: BlockStep): (r: State)
    requires IsRing(s.ch.ring)
  {
    if !Enabled(c, s, step) then s
    else
      match step
      case Load(i) => Set(s, i, if i < s.ch.ring.end then Cleared else Loaded)
      case Register(i) => Set(s, i, Waiting)
      case Push(i) => Set(s.(ch := Do(c.message, s.ch, Send(i))), i, Pushed)
      case Receive => s.(ch := Do(c.message, s.ch, Deliver))
      case TakeSome => s.(ch := Do(c.message, s.ch, Take(1)), notifying := true)
      case Notify => Notified(s)
  }

  /** The sender of the very message the receiver needs begins to wait, and nobody will notify it: the
      last notification came between its load and its registration. */
  predicate Misses(c: Config, s: State, step: BlockStep)
    requires IsRing(s.ch.ring)
  {
    step.Register? && At(s, step.i).Loaded? && step.i == Start(s.ch.ring) && !s.notifying
  }

  // ---------------------------------------------------------------- the invariant

  ghost predicate PhaseFits(c: Config, s: State, i: nat)
  {
    && (i in s.ch.sent <==> At(s, i).Pushed?)
    && (At(s, i).Cleared? ==> i < s.ch.ring.end)
    && (!At(s, i).Fresh? ==> i < c.count)
  }

  ghost predicate BlockInv(c: Config, s: State)
  {
    Inv(c.message, s.ch) && forall i: nat :: PhaseFits(c, s, i)
  }

  /** What the three channel steps do to what senders can see. */
  lemma ChannelMoves(message: nat -> Bytes, ch: Channel<Bytes>, step: Step)
    requires IsRing(ch.ring)
    ensures
      var ch' := Do(message, ch, step);
      && IsRing(ch'.ring) && |ch'.ring.slots| == |ch.ring.slots| && ch'.ring.end >= ch.ring.end
      && ch'.sent == (if step.Send? && step.i < ch.ring.end then ch.sent + {step.i} else ch.sent)
      && (!step.Take? ==> ch'.ring.end == ch.ring.end)
      && (step.Take? && Tail(ch.ring) + Wrap(ch.ring) >= step.minCount ==>
          ch'.ring.end == ch.ring.end + Tail(ch.ring) + Wrap(ch.ring) && ch'.inFlight == ch.inFlight)
  {
    hide Tail, Wrap, Taken, Position;
    if step.Take? {
      AfterTakeEnd(ch.ring);
      hide AfterTake;
    }
  }

  lemma PhaseStep(c: Config, s: State, step: BlockStep, i: nat)
    requires IsRing(s.ch.ring) && PhaseFits(c, s, i) && (step.Push? ==> PhaseFits(c, s, step.i))
    ensures PhaseFits(c, Next(c, s, step), i)
  {
    hide Do, Tail, Wrap;
    match step
    case Push(k) => ChannelMoves(c.message, s.ch, Send(k));
    case Receive => ChannelMoves(c.message, s.ch, Deliver);
    case TakeSome => ChannelMoves(c.message, s.ch, Take(1));
    case _ =>
  }

  lemma ChannelFits(c: Config, s: State, step: BlockStep)
    requires Inv(c.message, s.ch)
    ensures Inv(c.message, Next(c, s, step).ch)
  {
    hide Do, Inv, Tail, Wrap;
    match step
    case Push(i) => StepHolds(c.message, s.ch, Send(i));
    case Receive => StepHolds(c.message, s.ch, Deliver);
    case TakeSome => StepHolds(c.message, s.ch, Take(1));
    case _ =>
  }

  lemma StepFits(c: Config, s: State, step: BlockStep)
    requires BlockInv(c, s)
    ensures BlockInv(c, Next(c, s, step))
  {
    ChannelFits(c, s, step);
    assert step.Push? ==> PhaseFits(c, s, step.i);
    hide Inv, Next, PhaseFits;
    forall i: nat
      ensures PhaseFits(c, Next(c, s, step), i)
    {
      assert PhaseFits(c, s, i);
      PhaseStep(c, s, step, i);
    }
  }

  // ---------------------------------------------------------------- runs

  predicate IsConfig(c: Config) { c.capacity >= 2 }

  function Init(c: Config): (s: State)
    requires IsConfig(c)
  {
    State(Exec(c.message, c.capacity, []), map[], false)
  }

  function RunAll(c: Config, steps: seq<BlockStep>): (s: State)
    requires IsConfig(c)
    ensures BlockInv(c, s)
  {
    if steps == [] then Init(c)
    else
      var before := RunAll(c, steps[..|steps| - 1]);
      StepFits(c, before, steps[|steps| - 1]);
      Next(c, before, steps[|steps| - 1])
  }

  ghost predicate NoneMissed(c: Config, steps: seq<BlockStep>)
    requires IsConfig(c)
  {
    steps == [] || (NoneMissed(c, steps[..|steps| - 1]) && !Misses(c, RunAll(c, steps[..|steps| - 1]), steps[|steps| - 1]))
  }

  // ---------------------------------------------------------------- without a miss

  /** Nobody waits for room while the receiver waits for them, unless they are about to be notified. */
  ghost predicate NeededIsAwake(s: State)
    requires IsRing(s.ch.ring)
  {
    At(s, Start(s.ch.ring)).Waiting? ==> s.notifying
  }

  lemma StepKeepsAwake(c: Config, s: State, step: BlockStep)
    requires IsRing(s.ch.ring) && NeededIsAwake(s) && !Misses(c, s, step)
    ensures IsRing(Next(c, s, step).ch.ring) && NeededIsAwake(Next(c, s, step))
  {
    hide Do, Tail, Wrap;
    match step
    case Push(k) => ChannelMoves(c.message, s.ch, Send(k));
    case Receive => ChannelMoves(c.message, s.ch, Deliver);
    case TakeSome => ChannelMoves(c.message, s.ch, Take(1));
    case _ =>
  }

  lemma {:induction false} RunKeepsAwake(c: Config, steps: seq<BlockStep>)
    requires IsConfig(c) && NoneMissed(c, steps)
    ensures NeededIsAwake(RunAll(c, steps))
  {
    if steps != [] {
      var before, step := steps[..|steps| - 1], steps[|steps| - 1];
      RunKeepsAwake(c, before);
      hide Misses, Next, NeededIsAwake;
      StepKeepsAwake(c, RunAll(c, before), step);
    }
  }

  // ---------------------------------------------------------------- after a miss

  /** The needed sender waits, its message is not sent, and no notification is under way. */
  predicate IsStuck(s: State)
    requires IsRing(s.ch.ring)
  {
    var i := Start(s.ch.ring);
    At(s, i).Waiting? && i !in s.ch.sent && !s.notifying
  }

  /** Without its message nothing can be taken. */
  lemma TakeNeedsStart(message: nat -> Bytes, ch: Channel<Bytes>)
    requires Inv(message, ch)
    ensures Tail(ch.ring) + Wrap(ch.ring) >= 1 <==> Arrived(ch, Start(ch.ring))
  {
    var r := ch.ring;
    PositionFromStart(r, 0);
    assert Position(r, Start(r)) == Position(r, r.end);
    assert Arrived(ch, Start(r)) <==> r.slots[Position(r, Start(r))].Some?;
    hide Inv, SlotsFit, Position, Arrived;
    assert LeadingOnes(r.slots, Position(r, r.end), |r.slots|) >= 1 <==> r.slots[Position(r, r.end)].Some?;
  }

  lemma StuckStays(c: Config, s: State, step: BlockStep)
    requires BlockInv(c, s) && IsStuck(s)
    ensures IsRing(Next(c, s, step).ch.ring) && IsStuck(Next(c, s, step))
    ensures Start(Next(c, s, step).ch.ring) == Start(s.ch.ring)
  {
    TakeNeedsStart(c.message, s.ch);
    hide Do, Tail, Wrap, BlockInv;
    match step
    case Push(k) => ChannelMoves(c.message, s.ch, Send(k));
    case Receive => ChannelMoves(c.message, s.ch, Deliver);
    case TakeSome => ChannelMoves(c.message, s.ch, Take(1));
    case _ =>
  }

  lemma MissSticks(c: Config, s: State, step: BlockStep)
    requires BlockInv(c, s) && Misses(c, s, step)
    ensures IsRing(Next(c, s, step).ch.ring) && IsStuck(Next(c, s, step))
  {
    assert PhaseFits(c, s, step.i);
    hide BlockInv;
  }

  /** The needed sender is stuck in exactly those runs that have missed a notification. */
  lemma {:induction false} StuckIffMissed(c: Config, steps: seq<BlockStep>)
    requires IsConfig(c)
    ensures IsStuck(RunAll(c, steps)) <==> !NoneMissed(c, steps)
  {
    if NoneMissed(c, steps) {
      RunKeepsAwake(c, steps);
    } else {
      var before, step := steps[..|steps| - 1], steps[|steps| - 1];
      StuckIffMissed(c, before);
      hide IsStuck, Misses, Next;
      if NoneMissed(c, before) {
        MissSticks(c, RunAll(c, before), step);
      } else {
        StuckStays(c, RunAll(c, before), step);
      }
    }
  }

  /** Once it is stuck it stays so, and not one more message is taken. */
  lemma {:induction false} StuckForEver(c: Config, steps: seq<BlockStep>, more: seq<BlockStep>)
    requires IsConfig(c) && !NoneMissed(c, steps)
    ensures !NoneMissed(c, steps + more)
    ensures Start(RunAll(c, steps + more).ch.ring) == Start(RunAll(c, steps).ch.ring)
  {
    if more == [] {
      assert steps + more == steps;
    } else {
      var rest, last := more[..|more| - 1], more[|more| - 1];
      assert steps + more == steps + rest + [last];
      hide *;
      StuckForEver(c, steps, rest);
      StuckIffMissed(c, steps + rest);
      StuckStays(c, RunAll(c, steps + rest), last);
      RunOne(c, steps + rest, last);
    }
  }

  lemma RunOne(c: Config, steps: seq<BlockStep>, step: BlockStep)
    requires IsConfig(c)
    ensures RunAll(c, steps + [step]) == Next(c, RunAll(c, steps), step)
    ensures NoneMissed(c, steps + [step]) <==> NoneMissed(c, steps) && !Misses(c, RunAll(c, steps), step)
  {
    hide Next, Misses;
    assert (steps + [step])[..|steps|] == steps;
  }

  // ---------------------------------------------------------------- at rest

  ghost predicate AtRest(c: Config, s: State)
    requires IsRing(s.ch.ring)
  {
    forall step: BlockStep :: !Enabled(c, s, step)
  }

  ghost predicate IsDelivered(c: Config, s: State)
  {
    |s.ch.received| == c.count && forall k :: 0 <= k < c.count ==> s.ch.received[k] == c.message(k)
  }

  lemma RestMeansTaken(c: Config, s: State)
    requires BlockInv(c, s) && NeededIsAwake(s) && AtRest(c, s)
    ensures Start(s.ch.ring) >= c.count
  {
    var i := Start(s.ch.ring);
    assert PhaseFits(c, s, i);
    TakeNeedsStart(c.message, s.ch);
    assert !Enabled(c, s, Notify) && !Enabled(c, s, Receive) && !Enabled(c, s, TakeSome);
    assert !Enabled(c, s, Load(i)) && !Enabled(c, s, Register(i)) && !Enabled(c, s, Push(i));
    hide Inv, Tail, Wrap, AtRest;
  }

  lemma TakenAreReal(c: Config, s: State)
    requires BlockInv(c, s)
    ensures |s.ch.received| == Start(s.ch.ring) <= c.count
    ensures forall k :: 0 <= k < |s.ch.received| ==> s.ch.received[k] == c.message(k)
  {
    assert PhaseFits(c, s, c.count);
  }

  /** Every run that has come to rest has delivered all messages in order, if and only if no sender
      whose message was needed missed its notification. */
  lemma DeliveredIffNoneMissed(c: Config, steps: seq<BlockStep>)
    requires IsConfig(c) && AtRest(c, RunAll(c, steps))
    ensures IsDelivered(c, RunAll(c, steps)) <==> NoneMissed(c, steps)
  {
    var s := RunAll(c, steps);
    StuckIffMissed(c, steps);
    TakenAreReal(c, s);
    if NoneMissed(c, steps) {
      RunKeepsAwake(c, steps);
      RestMeansTaken(c, s);
    } else {
      assert PhaseFits(c, s, Start(s.ch.ring));
    }
  }

  // ---------------------------------------------------------------- every run comes to rest

  function Weight(phase: Phase): (w: nat)
  {
    match phase
    case Fresh => 4
    case Woken => 4
    case Loaded => 2
    case Cleared => 2
    case _ => 0
  }

  function TotalWeight(s: State, n: nat): (w: nat)
  {
    if n == 0 then 0 else TotalWeight(s, n - 1) + Weight(At(s, n - 1))
  }

  lemma {:induction false} SetWeight(s: State, s': State, n: nat, i: nat)
    requires forall j: nat :: j != i ==> At(s', j) == At(s, j)
    ensures TotalWeight(s', n) == TotalWeight(s, n) + if i < n then Weight(At(s', i)) - Weight(At(s, i)) else 0
  {
    if n > 0 {
      SetWeight(s, s', n - 1, i);
    }
  }

  /** Messages to take, a notification to give, work at hand. */
  datatype Measure = Measure(toTake: int, toNotify: nat, atHand: nat)

  function MeasureOf(c: Config, s: State): (m: Measure)
    requires IsRing(s.ch.ring)
  {
    Measure(c.count - Start(s.ch.ring), if s.notifying then 1 else 0, TotalWeight(s, c.count) + |s.ch.inFlight|)
  }

  ghost predicate Decreases(m: Measure, m': Measure)
  {
    && m'.toTake >= 0
    && (m'.toTake < m.toTake
        || (m'.toTake == m.toTake && (m'.toNotify < m.toNotify
        || (m'.toNotify == m.toNotify && m'.atHand < m.atHand))))
  }

  lemma SenderStepDecreases(c: Config, s: State, step: BlockStep)
    requires IsRing(s.ch.ring) && (step.Load? || step.Register? || step.Push?) && Enabled(c, s, step) && PhaseFits(c, s, step.i)
    requires Start(s.ch.ring) <= c.count
    ensures IsRing(Next(c, s, step).ch.ring) && Decreases(MeasureOf(c, s), MeasureOf(c, Next(c, s, step)))
  {
    hide Tail, Wrap;
    var s' := Next(c, s, step);
    SetWeight(s, s', c.count, step.i);
  }

  lemma ReceiverStepDecreases(c: Config, s: State, step: BlockStep)
    requires BlockInv(c, s) && BlockInv(c, Next(c, s, step)) && (step.Receive? || step.TakeSome? || step.Notify?) && Enabled(c, s, step)
    ensures Decreases(MeasureOf(c, s), MeasureOf(c, Next(c, s, step)))
  {
    var s' := Next(c, s, step);
    TakenAreReal(c, s);
    TakenAreReal(c, s');
    if step.TakeSome? {
      ChannelMoves(c.message, s.ch, Take(1));
    } else if step.Receive? {
      ChannelMoves(c.message, s.ch, Deliver);
      SetWeight(s, s', c.count, c.count);
    }
  }

  lemma EnabledStepsRunOut(c: Config, steps: seq<BlockStep>, step: BlockStep)
    requires IsConfig(c) && Enabled(c, RunAll(c, steps), step)
    ensures Decreases(MeasureOf(c, RunAll(c, steps)), MeasureOf(c, RunAll(c, steps + [step])))
  {
    var s := RunAll(c, steps);
    RunOne(c, steps, step);
    TakenAreReal(c, s);
    assert (step.Load? || step.Register? || step.Push?) ==> PhaseFits(c, s, step.i);
    hide RunAll, Next, Enabled, BlockInv, MeasureOf, Decreases;
    if step.Load? || step.Register? || step.Push? {
      SenderStepDecreases(c, s, step);
    } else {
      ReceiverStepDecreases(c, s, step);
    }
  }

  ghost predicate SomeEnabled(c: Config, s: State)
    requires IsRing(s.ch.ring)
  {
    exists step: BlockStep :: Enabled(c, s, step)
  }

  /** The scheduler, which may look at the whole run so far, takes a step whenever there is one. */
  ghost predicate IsScheduler(c: Config, pick: seq<BlockStep> -> BlockStep)
    requires IsConfig(c)
  {
    forall run :: SomeEnabled(c, RunAll(c, run)) ==> Enabled(c, RunAll(c, run), pick(run))
  }

  ghost predicate IsScheduled(pick: seq<BlockStep> -> BlockStep, run: seq<BlockStep>, from: nat)
  {
    forall k :: from <= k < |run| ==> run[k] == pick(run[..k])
  }

  lemma ScheduledFromEarlier(pick: seq<BlockStep> -> BlockStep, run: seq<BlockStep>, steps: seq<BlockStep>)
    requires steps + [pick(steps)] <= run && IsScheduled(pick, run, |steps| + 1)
    ensures steps <= run && IsScheduled(pick, run, |steps|)
  {
    assert run[..|steps| + 1][..|steps|] == steps && run[..|steps|] == steps;
    assert run[..|steps| + 1][|steps|] == run[|steps|];
  }

  lemma PickDecreases(c: Config, steps: seq<BlockStep>, pick: seq<BlockStep> -> BlockStep)
    requires IsConfig(c) && IsScheduler(c, pick) && SomeEnabled(c, RunAll(c, steps))
    ensures
      var m, m' := MeasureOf(c, RunAll(c, steps)), MeasureOf(c, RunAll(c, steps + [pick(steps)]));
      && m'.toTake >= 0
      && (m'.toTake < m.toTake
          || (m'.toTake == m.toTake && (m'.toNotify < m.toNotify
          || (m'.toNotify == m.toNotify && m'.atHand < m.atHand))))
  {
    hide SomeEnabled, Enabled, MeasureOf, RunAll, IsConfig;
    assert Enabled(c, RunAll(c, steps), pick(steps));
    EnabledStepsRunOut(c, steps, pick(steps));
  }

  lemma NothingScheduled(pick: seq<BlockStep> -> BlockStep, run: seq<BlockStep>)
    ensures IsScheduled(pick, run, |run|)
  {
  }

  lemma NoneEnabledMeansRest(c: Config, s: State)
    requires IsRing(s.ch.ring) && !SomeEnabled(c, s)
    ensures AtRest(c, s)
  {
    hide Enabled;
  }

  /** Every scheduler comes to rest after finitely many steps, and what it has then delivered is all,
      if and only if it made no needed sender miss its notification. */
  lemma {:induction false} EverySchedulerRests(c: Config, steps: seq<BlockStep>, pick: seq<BlockStep> -> BlockStep)
    returns (run: seq<BlockStep>)
    requires IsConfig(c) && IsScheduler(c, pick)
    ensures steps <= run && IsScheduled(pick, run, |steps|) && AtRest(c, RunAll(c, run))
    ensures IsDelivered(c, RunAll(c, run)) <==> NoneMissed(c, run)
    decreases MeasureOf(c, RunAll(c, steps)).toTake, MeasureOf(c, RunAll(c, steps)).toNotify, MeasureOf(c, RunAll(c, steps)).atHand
  {
    assert IsRing(RunAll(c, steps).ch.ring);
    if SomeEnabled(c, RunAll(c, steps)) {
      hide *;
      PickDecreases(c, steps, pick);
      run := EverySchedulerRests(c, steps + [pick(steps)], pick);
      ScheduledFromEarlier(pick, run, steps);
    } else {
      hide *;
      run := steps;
      NothingScheduled(pick, run);
      NoneEnabledMeansRest(c, RunAll(c, run));
      DeliveredIffNoneMissed(c, run);
    }
  }

  // ---------------------------------------------------------------- a miss

  /** The first `i` messages have been taken, and the sender that found the ring full is about to register. */
  ghost predicate IsFilled(c: Config, s: State, i: nat)
  {
    && IsRing(s.ch.ring) && |s.ch.ring.slots| == c.capacity && Start(s.ch.ring) == i
    && s.ch.inFlight == [] && !s.notifying && (forall j: nat :: j in s.ch.sent <==> j < i)
    && At(s, c.capacity).Loaded? && (forall j: nat :: i <= j < c.capacity ==> At(s, j).Fresh?)
  }

  /** One sender passes, its message is received and taken, and the waiters are notified. */
  lemma PassOne(c: Config, steps: seq<BlockStep>, i: nat) returns (run: seq<BlockStep>)
    requires IsConfig(c) && IsFilled(c, RunAll(c, steps), i) && i < c.capacity < c.count
    ensures IsFilled(c, RunAll(c, run), i + 1)
  {
    hide RunAll, NoneMissed, IsConfig;
    var r1 := steps + [Load(i)];
    RunOne(c, steps, Load(i));
    var r2 := r1 + [Push(i)];
    RunOne(c, r1, Push(i));
    var r3 := r2 + [Receive];
    RunOne(c, r2, Receive);
    var r4 := r3 + [TakeSome];
    RunOne(c, r3, TakeSome);
    run := r4 + [Notify];
    RunOne(c, r4, Notify);
    PassAndPush(c, RunAll(c, steps), i);
    ReceiveAndTake(c, RunAll(c, r2), i);
    hide IsFilled, IsPushed, Next;
  }

  /** Message `i` is on its way to the receiver. */
  ghost predicate IsPushed(c: Config, s: State, i: nat)
  {
    && IsRing(s.ch.ring) && |s.ch.ring.slots| == c.capacity && Start(s.ch.ring) == i
    && s.ch.inFlight == [i] && !s.notifying && (forall j: nat :: j in s.ch.sent <==> j <= i)
    && At(s, c.capacity).Loaded? && (forall j: nat :: i < j < c.capacity ==> At(s, j).Fresh?)
  }

  lemma PassAndPush(c: Config, s: State, i: nat)
    requires IsFilled(c, s, i) && i < c.capacity < c.count
    ensures
      var s1 := Next(c, s, Load(i));
      IsRing(s1.ch.ring) && IsPushed(c, Next(c, s1, Push(i)), i)
  {
    hide Tail, Wrap;
    var s1 := Next(c, s, Load(i));
    assert At(s1, i).Cleared? && s1.ch == s.ch;
    var s2 := Next(c, s1, Push(i));
    assert s2.ch.inFlight == [] + [i] == [i] && s2.ch.sent == s.ch.sent + {i} && s2.ch.ring == s.ch.ring;
    hide Do, Next;
    assert forall j: nat :: j != i ==> At(s2, j) == At(s, j);
  }

  lemma ReceiveAndTake(c: Config, s: State, i: nat)
    requires BlockInv(c, s) && IsPushed(c, s, i)
    ensures
      var s1 := Next(c, s, Receive);
      IsRing(s1.ch.ring) &&
      var s2 := Next(c, s1, TakeSome);
      IsRing(s2.ch.ring) && IsFilled(c, Next(c, s2, Notify), i + 1)
  {
    assert IsRing(s.ch.ring);
    hide *;
    StepFits(c, s, Receive);
    ReceiveOne(c, s, i);
    var s1 := Next(c, s, Receive);
    StepFits(c, s1, TakeSome);
    TakeOne(c, s1, i);
  }

  /** Message `i` has been received, and not taken. */
  ghost predicate IsReceived(c: Config, s: State, i: nat)
  {
    && IsRing(s.ch.ring) && |s.ch.ring.slots| == c.capacity && Start(s.ch.ring) == i
    && s.ch.inFlight == [] && !s.notifying && (forall j: nat :: j in s.ch.sent <==> j <= i)
    && At(s, c.capacity).Loaded? && (forall j: nat :: i < j < c.capacity ==> At(s, j).Fresh?)
  }

  lemma ReceiveOne(c: Config, s: State, i: nat)
    requires IsRing(s.ch.ring) && IsPushed(c, s, i)
    ensures IsRing(Next(c, s, Receive).ch.ring) && IsReceived(c, Next(c, s, Receive), i)
  {
    var s1 := Next(c, s, Receive);
    ChannelMoves(c.message, s.ch, Deliver);
    assert s1.ch.inFlight == [i][1..] == [] && s1.phases == s.phases;
    hide Do, Next, Tail, Wrap;
    assert forall j: nat :: At(s1, j) == At(s, j);
  }

  lemma TakeOne(c: Config, s: State, i: nat)
    requires BlockInv(c, s) && IsReceived(c, s, i) && BlockInv(c, Next(c, s, TakeSome))
    ensures
      var s2 := Next(c, s, TakeSome);
      IsRing(s2.ch.ring) && IsFilled(c, Next(c, s2, Notify), i + 1)
  {
    hide Do, Tail, Wrap, BlockInv;
    CanTake(c, s, i);
    TakeMoves(c, s);
    hide Next;
    var s2 := Next(c, s, TakeSome);
    SentBelowStart(c, s2, i + 1);
    NotifyFills(c, s, s2, i);
  }

  lemma CanTake(c: Config, s: State, i: nat)
    requires BlockInv(c, s) && IsReceived(c, s, i)
    ensures Enabled(c, s, TakeSome)
  {
    assert Inv(c.message, s.ch);
    hide Inv, BlockInv, Tail, Wrap;
    TakeNeedsStart(c.message, s.ch);
  }

  lemma TakeMoves(c: Config, s: State)
    requires IsRing(s.ch.ring) && Enabled(c, s, TakeSome)
    ensures
      var s' := Next(c, s, TakeSome);
      && IsRing(s'.ch.ring) && |s'.ch.ring.slots| == |s.ch.ring.slots| && Start(s'.ch.ring) > Start(s.ch.ring)
      && s'.phases == s.phases && s'.notifying && s'.ch.inFlight == s.ch.inFlight && s'.ch.sent == s.ch.sent
  {
    hide Do, Tail, Wrap;
    ChannelMoves(c.message, s.ch, Take(1));
  }

  lemma NotifyFills(c: Config, s: State, s2: State, i: nat)
    requires IsReceived(c, s, i) && IsRing(s2.ch.ring) && Start(s2.ch.ring) == i + 1 && |s2.ch.ring.slots| == c.capacity
    requires s2.phases == s.phases && s2.notifying && s2.ch.inFlight == [] && s2.ch.sent == s.ch.sent
    ensures IsFilled(c, Next(c, s2, Notify), i + 1)
  {
    hide Do, Tail, Wrap;
    var s3 := Next(c, s2, Notify);
    assert s3 == Notified(s2);
    hide Next;
    assert forall j: nat :: At(s2, j) == At(s, j);
  }

  lemma SentBelowStart(c: Config, s: State, n: nat)
    requires BlockInv(c, s) && forall j: nat :: j in s.ch.sent ==> j < n
    ensures Start(s.ch.ring) <= n
  {
    hide PhaseFits;
    assert n !in s.ch.sent;
  }

  lemma StartsFilled(c: Config)
    requires IsConfig(c) && c.capacity < c.count
    ensures IsFilled(c, RunAll(c, [Load(c.capacity)]), 0)
  {
    RunOne(c, [], Load(c.capacity));
    assert [] + [Load(c.capacity)] == [Load(c.capacity)];
    var s := RunAll(c, []);
    assert s == Init(c);
    hide RunAll, Inv, Tail, Wrap;
    assert Start(s.ch.ring) == 0 && s.ch.ring.end == c.capacity;
  }

  lemma {:induction false} Fill(c: Config, i: nat) returns (steps: seq<BlockStep>)
    requires IsConfig(c) && i <= c.capacity < c.count
    ensures IsFilled(c, RunAll(c, steps), i)
  {
    hide *;
    if i == 0 {
      StartsFilled(c);
      steps := [Load(c.capacity)];
    } else {
      steps := Fill(c, i - 1);
      steps := PassOne(c, steps, i - 1);
    }
  }

  /** For every capacity there is a run in which the sender right behind a full ring loads `end`, all
      messages before its own are taken, and it registers after the last notification. */
  lemma MissesHappen(c: Config) returns (steps: seq<BlockStep>)
    requires IsConfig(c) && c.capacity < c.count
    ensures !NoneMissed(c, steps + [Register(c.capacity)])
    ensures Misses(c, RunAll(c, steps), Register(c.capacity))
  {
    steps := Fill(c, c.capacity);
    FilledMisses(c, RunAll(c, steps));
    hide *;
    RunOne(c, steps, Register(c.capacity));
  }

  lemma FilledMisses(c: Config, s: State)
    requires IsFilled(c, s, c.capacity)
    ensures Misses(c, s, Register(c.capacity))
  {
  }
}
