/** Progress of the receivers: whatever the scheduler does, as long as it keeps polling receivers that
    have a reason to be polled, every message arrives. */
module ChannelProgress {
  import opened Wrappers
  import opened Sets
  import opened OrderingBuffer
  import opened OrderingProtocol
  import opened UnorderedReceiver
  import opened Channel

  /** A receiving side: how many wakers it has, what it reads, and the messages asked for. */
  datatype Receiving = Receiving(capacity: nat, size: nat -> nat, stream: seq<Event>, messages: seq<Bytes>)

  ghost predicate IsReceiving(rx: Receiving)
  {
    rx.capacity >= 2 && AreSizes(rx.size, rx.messages) && Flatten(rx.stream) == Concat(rx.messages, |rx.messages|)
  }

  function After(rx: Receiving, polls: seq<nat>): (s: Rx)
    requires rx.capacity >= 2
    ensures IsWindow(s.window)
  {
    Run(rx.capacity, rx.size, rx.stream, polls).0
  }

  function Answers(rx: Receiving, polls: seq<nat>): (r: seq<Poll>)
    requires rx.capacity >= 2
    ensures |r| == |polls|
  {
    Run(rx.capacity, rx.size, rx.stream, polls).1
  }

  function Waits(rx: Receiving, polls: seq<nat>): (p: Waiting)
    requires rx.capacity >= 2
  {
    Track(rx.capacity, polls, Answers(rx, polls)).1
  }

  /** Receiver `i` is not done and has never been polled, has been woken since, or waits for the stream. */
  predicate IsDue(rx: Receiving, polls: seq<nat>, i: nat)
    requires rx.capacity >= 2
  {
    && After(rx, polls).window.next <= i < |rx.messages|
    && (i !in polls || i in Waits(rx, polls).awake || i in Waits(rx, polls).atTurn)
  }

  ghost predicate SomeDue(rx: Receiving, polls: seq<nat>)
    requires rx.capacity >= 2
  {
    exists i: nat :: IsDue(rx, polls, i)
  }

  /** The scheduler, which may look at the whole run so far, polls a due receiver whenever there is one. */
  ghost predicate IsPoller(rx: Receiving, pick: seq<nat> -> nat)
    requires rx.capacity >= 2
  {
    forall polls :: SomeDue(rx, polls) ==> IsDue(rx, polls, pick(polls))
  }

  ghost predicate IsPolled(pick: seq<nat> -> nat, polls: seq<nat>, from: nat)
  {
    forall k :: from <= k < |polls| ==> polls[k] == pick(polls[..k])
  }

  /** Messages to come, events to come, receivers that are not parked. */
  datatype Measure = Measure(toCome: int, events: nat, unparked: nat)

  ghost function MeasureAt(n: nat, s: Rx, p: Waiting): (m: Measure)
  {
    Measure(n - s.window.next, |s.stream|, |Range(n) - p.parked|)
  }

  ghost function MeasureOf(rx: Receiving, polls: seq<nat>): (m: Measure)
    requires rx.capacity >= 2
  {
    MeasureAt(|rx.messages|, After(rx, polls), Waits(rx, polls))
  }

  ghost predicate Decreases(m: Measure, m': Measure)
  {
    && m'.toCome >= 0
    && (m'.toCome < m.toCome
        || (m'.toCome == m.toCome && (m'.events < m.events
        || (m'.events == m.events && m'.unparked < m.unparked))))
  }

  /** Whose turn it is is always due, so at rest everyone is done. */
  lemma TurnIsDue(rx: Receiving, polls: seq<nat>)
    requires IsReceiving(rx) && After(rx, polls).window.next < |rx.messages|
    ensures IsDue(rx, polls, After(rx, polls).window.next)
  {
    RunIsTracked(rx.capacity, rx.size, rx.stream, polls);
    hide Run, Track;
  }

  lemma DueIsNotParked(rx: Receiving, polls: seq<nat>, i: nat)
    requires IsReceiving(rx) && IsDue(rx, polls, i)
    ensures i !in Waits(rx, polls).parked
  {
    RunIsTracked(rx.capacity, rx.size, rx.stream, polls);
    hide Run, Track;
  }

  /** A poll delivers, uses up an event, or parks somebody. */
  lemma StepDecreases(rx: Receiving, s: Rx, p: Waiting, i: nat)
    requires IsReceiving(rx) && IsWindow(s.window) && Reads(rx.messages, rx.stream, s)
    requires s.window.next <= i < |rx.messages| && i !in p.parked
    ensures
      var (r, s') := PollRx(s, i, rx.size(i));
      Decreases(MeasureAt(|rx.messages|, s, p), MeasureAt(|rx.messages|, s', AfterPoll(p, s.window, i, r)))
  {
    var (r, s') := PollRx(s, i, rx.size(i));
    ReadHolds(rx.size, rx.messages, rx.stream, s, i);
    PollConserves(s, i, rx.size(i));
    if i == s.window.next {
      EnoughAhead(rx.size, rx.messages, rx.stream, s, i);
      ReadsInRange(rx.messages, rx.stream, s');
      hide *;
      assert r.Ready? || r.Pending?;
      SameParked(|rx.messages|, s, s', p, i, r);
    } else {
      assert r == Pending && s'.stream == s.stream && s'.window.next == s.window.next;
      hide Reads, AreSizes, Flatten, Concat, PollRx, Register;
      ParkOne(|rx.messages|, p.parked, i);
    }
  }

  lemma ReadsInRange(messages: seq<Bytes>, stream: seq<Event>, s: Rx)
    requires Reads(messages, stream, s)
    ensures s.window.next <= |messages|
  {
    hide Concat, Flatten;
  }

  lemma SameParked(n: nat, s: Rx, s': Rx, p: Waiting, i: nat, r: Poll)
    requires IsWindow(s.window) && i == s.window.next && s'.window.next <= n
    requires if r.Ready? then s'.window.next == s.window.next + 1
             else r.Pending? && s'.window.next == s.window.next && |s'.stream| < |s.stream|
    ensures Decreases(MeasureAt(n, s, p), MeasureAt(n, s', AfterPoll(p, s.window, i, r)))
  {
    hide WokenBy;
  }

  lemma ParkOne(n: nat, parked: set<nat>, i: nat)
    requires i < n && i !in parked
    ensures |Range(n) - (parked + {i})| < |Range(n) - parked|
  {
    assert Range(n) - parked == (Range(n) - (parked + {i})) + {i};
  }

  lemma PollDecreases(rx: Receiving, polls: seq<nat>, i: nat)
    requires IsReceiving(rx) && IsDue(rx, polls, i)
    ensures Decreases(MeasureOf(rx, polls), MeasureOf(rx, polls + [i]))
  {
    var s, p, answers := After(rx, polls), Waits(rx, polls), Answers(rx, polls);
    DueIsNotParked(rx, polls, i);
    RunIsRight(rx.capacity, rx.size, rx.stream, polls, rx.messages);
    RunIsTracked(rx.capacity, rx.size, rx.stream, polls);
    RunOne(rx.capacity, rx.size, rx.stream, polls, i);
    TrackOne(rx.capacity, polls, answers, i, PollRx(s, i, rx.size(i)).0);
    hide Run, Track, PollRx, AfterPoll, Moved, Reads, AreAnswers, AllGot, NobodyLost, AreSizes, Flatten, Concat, MeasureAt, Decreases;
    StepDecreases(rx, s, p, i);
  }

  /** When nobody is due everyone has their message. */
  lemma NoneDueMeansReceived(rx: Receiving, polls: seq<nat>)
    requires IsReceiving(rx) && !SomeDue(rx, polls)
    ensures AllGot(polls, Answers(rx, polls), |rx.messages|)
  {
    RunIsRight(rx.capacity, rx.size, rx.stream, polls, rx.messages);
    if After(rx, polls).window.next < |rx.messages| {
      TurnIsDue(rx, polls);
    }
    hide Run, AreAnswers, IsDue, Concat, Flatten;
  }

  lemma PolledFromEarlier(pick: seq<nat> -> nat, run: seq<nat>, polls: seq<nat>)
    requires polls + [pick(polls)] <= run && IsPolled(pick, run, |polls| + 1)
    ensures polls <= run && IsPolled(pick, run, |polls|)
  {
    assert run[..|polls| + 1][..|polls|] == polls && run[..|polls|] == polls;
    assert run[..|polls| + 1][|polls|] == run[|polls|];
  }

  lemma PickDecreases(rx: Receiving, polls: seq<nat>, pick: seq<nat> -> nat)
    requires IsReceiving(rx) && IsPoller(rx, pick) && SomeDue(rx, polls)
    ensures
      var m, m' := MeasureOf(rx, polls), MeasureOf(rx, polls + [pick(polls)]);
      && m'.toCome >= 0
      && (m'.toCome < m.toCome
          || (m'.toCome == m.toCome && (m'.events < m.events
          || (m'.events == m.events && m'.unparked < m.unparked))))
  {
    hide SomeDue, MeasureOf, AreSizes, Flatten, Concat;
    assert IsDue(rx, polls, pick(polls));
    hide IsDue;
    PollDecreases(rx, polls, pick(polls));
  }

  /** From every point of every run, for every stream that carries all messages, every scheduler of
      due polls comes to an end after finitely many, and then every receiver has had its message. */
  lemma {:induction false} EveryPollerReceives(rx: Receiving, polls: seq<nat>, pick: seq<nat> -> nat) returns (run: seq<nat>)
    requires IsReceiving(rx) && IsPoller(rx, pick)
    ensures polls <= run && IsPolled(pick, run, |polls|) && !SomeDue(rx, run)
    ensures AllGot(run, Answers(rx, run), |rx.messages|)
    decreases MeasureOf(rx, polls).toCome, MeasureOf(rx, polls).events, MeasureOf(rx, polls).unparked
  {
    assert rx.capacity >= 2;
    if SomeDue(rx, polls) {
      hide *;
      PickDecreases(rx, polls, pick);
      run := EveryPollerReceives(rx, polls + [pick(polls)], pick);
      PolledFromEarlier(pick, run, polls);
    } else {
      NoneDueMeansReceived(rx, polls);
      run := polls;
    }
  }
}
