/** The record channel end to end: an `OrderingSender` read by a stream, re-chunked in transit, and
    an `UnorderedReceiver` on the other side. */
module Channel {
  import opened Wrappers
  import opened Sets
  import opened OrderingBuffer
  import opened OrderingProtocol
  import opened UnorderedReceiver

  lemma {:induction false} ConcatGrows(messages: seq<Bytes>, n: nat, k: nat)
    requires n <= k <= |messages|
    ensures Concat(messages, n) <= Concat(messages, k)
    decreases k
  {
    if n < k {
      ConcatGrows(messages, n, k - 1);
    }
  }

  /** With the first `n` messages read, what is read next with the right number of bytes is message `n`. */
  lemma NextIsMessage(messages: seq<Bytes>, n: nat, ahead: Bytes, m: Bytes, ahead': Bytes)
    requires n <= |messages| && Concat(messages, n) + ahead <= Concat(messages, |messages|)
    requires |m| >= 1 && m + ahead' == ahead && (n < |messages| ==> |m| == |messages[n]|)
    ensures n < |messages| && m == messages[n]
    ensures Concat(messages, n + 1) + ahead' <= Concat(messages, |messages|)
  {
    assert |Concat(messages, n)| + |ahead| <= |Concat(messages, |messages|)|;
    ConcatGrows(messages, n + 1, |messages|);
    SplitNext(Concat(messages, n), messages[n], Concat(messages, |messages|), m, ahead');
  }

  lemma SplitNext(done: Bytes, message: Bytes, all: Bytes, m: Bytes, ahead': Bytes)
    requires done + message <= all && done + (m + ahead') <= all && |m| == |message|
    ensures m == message && done + message + ahead' <= all
  {
    assert m == all[|done|..|done| + |m|] == message by {
      assert (done + (m + ahead'))[|done|..|done| + |m|] == m;
      assert (done + message)[|done|..|done| + |m|] == message;
    }
    assert done + message + ahead' == done + (m + ahead');
  }

  /** The sizes the receivers ask for are those of the messages, and no message type is empty. */
  ghost predicate AreSizes(size: nat -> nat, messages: seq<Bytes>)
  {
    && (forall i :: 0 <= i < |messages| ==> size(i) == |messages[i]|)
    && (forall i: nat :: size(i) >= 1)
  }

  // ---------------------------------------------------------------- any order of polling

  /** The receiving side after a run of polls, and their answers. */
  function Run(capacity: nat, size: nat -> nat, stream: seq<Event>, polls: seq<nat>): (r: (Rx, seq<Poll>))
    requires capacity >= 2
    ensures IsWindow(r.0.window) && |r.1| == |polls|
  {
    if polls == [] then (StartRx(stream, capacity), [])
    else
      var (s, answers) := Run(capacity, size, stream, polls[..|polls| - 1]);
      var i := polls[|polls| - 1];
      var (answer, s') := PollRx(s, i, size(i));
      (s', answers + [answer])
  }

  lemma RunOne(capacity: nat, size: nat -> nat, stream: seq<Event>, polls: seq<nat>, i: nat)
    requires capacity >= 2
    ensures
      var (s, answers) := Run(capacity, size, stream, polls);
      var (answer, s') := PollRx(s, i, size(i));
      Run(capacity, size, stream, polls + [i]) == (s', answers + [answer])
  {
    hide PollRx;
    assert (polls + [i])[..|polls|] == polls;
  }

  /** Where the receivers that were polled are: parked in the window, woken and not polled since, or
      answered by the stream at their turn. */
  datatype Waiting = Waiting(parked: set<nat>, awake: set<nat>, atTurn: set<nat>)

  function AfterPoll(p: Waiting, w: Window, i: nat, r: Poll): Waiting
    requires IsWindow(w)
  {
    if r.Panic? then p
    else if r.Ready? then
      Waiting(p.parked - WokenBy(w), (p.awake - {i}) + p.parked * WokenBy(w), {})
    else if i > w.next then Waiting(p.parked + {i}, p.awake - {i}, p.atTurn)
    else Waiting(p.parked, p.awake - {i}, {i})
  }

  /** What the polls and their answers say about the window and about who waits, by the registrations
      and wake-ups that go with them. */
  function Track(capacity: nat, polls: seq<nat>, answers: seq<Poll>): (r: (Window, Waiting))
    requires capacity >= 2 && |polls| == |answers|
    ensures IsWindow(r.0)
  {
    if polls == [] then (Window(0, seq(capacity, _ => None), []), Waiting({}, {}, {}))
    else
      var n := |polls| - 1;
      var (w, p) := Track(capacity, polls[..n], answers[..n]);
      (Moved(w, polls[n], answers[n]), AfterPoll(p, w, polls[n], answers[n]))
  }

  lemma TrackOne(capacity: nat, polls: seq<nat>, answers: seq<Poll>, i: nat, r: Poll)
    requires capacity >= 2 && |polls| == |answers|
    ensures
      var (w, p) := Track(capacity, polls, answers);
      Track(capacity, polls + [i], answers + [r]) == (Moved(w, i, r), AfterPoll(p, w, i, r))
  {
    hide Moved, AfterPoll;
    assert (polls + [i])[..|polls|] == polls && (answers + [r])[..|answers|] == answers;
  }

  // ---------------------------------------------------------------- nobody is lost

  /** Who was polled and is not done waits in one of the three ways; who is parked is ahead and kept. */
  ghost predicate NobodyLost(polls: seq<nat>, w: Window, p: Waiting)
  {
    && WindowInv(w, p.parked) && p.atTurn <= {w.next} && p.parked !! p.awake
    && (forall i :: i in polls ==> i < w.next || i in p.parked + p.awake + p.atTurn)
    && (forall i :: i in p.parked ==> i in polls)
  }

  lemma PollHolds(polls: seq<nat>, w: Window, p: Waiting, i: nat, r: Poll)
    requires NobodyLost(polls, w, p) && (r.Panic? <==> i < w.next) && (r.Ready? ==> i == w.next)
    ensures NobodyLost(polls + [i], Moved(w, i, r), AfterPoll(p, w, i, r))
  {
    assert IsWindow(w);
    hide WokenBy, WindowInv;
    if r.Ready? {
      AdvanceHolds(w, p.parked);
    } else if i > w.next {
      RegisterHolds(w, p.parked, i);
    }
  }

  /** The window that the answers tell of is the one the receiver has. */
  lemma {:induction false} RunIsTracked(capacity: nat, size: nat -> nat, stream: seq<Event>, polls: seq<nat>)
    requires capacity >= 2
    ensures
      var (s, answers) := Run(capacity, size, stream, polls);
      var (w, p) := Track(capacity, polls, answers);
      s.window == w && NobodyLost(polls, w, p)
  {
    if polls == [] {
      Begins(capacity);
    } else {
      var n := |polls| - 1;
      var before, i := polls[..n], polls[n];
      RunIsTracked(capacity, size, stream, before);
      var (s, answers) := Run(capacity, size, stream, before);
      var (w, p) := Track(capacity, before, answers);
      var (answer, s') := PollRx(s, i, size(i));
      assert before + [i] == polls;
      hide Run, Track, PollRx, NobodyLost, Moved, AfterPoll;
      RunOne(capacity, size, stream, before, i);
      TrackOne(capacity, before, answers, i, answer);
      PollConserves(s, i, size(i));
      PollHolds(before, w, p, i, answer);
    }
  }

  lemma Begins(capacity: nat)
    requires capacity >= 2
    ensures NobodyLost([], Window(0, seq(capacity, _ => None), []), Waiting({}, {}, {}))
  {
  }

  // ---------------------------------------------------------------- everybody gets their own

  /** Some poll of receiver `i` among the answered ones has delivered. */
  ghost predicate Got(polls: seq<nat>, answers: seq<Poll>, i: nat)
  {
    exists k :: 0 <= k < |answers| && k < |polls| && polls[k] == i && answers[k].Ready?
  }

  /** A receiver gets its own message; it is told of the end only when its message is not all there;
      it panics only when it is polled after that. */
  ghost predicate IsAnswer(messages: seq<Bytes>, total: nat, size: nat -> nat, polls: seq<nat>, answers: seq<Poll>, k: nat)
    requires k < |answers| <= |polls|
  {
    match answers[k]
    case Ready(m) => polls[k] < |messages| && m == messages[polls[k]]
    case EndOfStream(i) => i == polls[k] && i <= |messages| && total < |Concat(messages, i)| + size(i)
    case Panic => Got(polls, answers[..k], polls[k])
    case Pending => true
  }

  /** `total` is the number of bytes in the stream. */
  ghost predicate AreAnswers(messages: seq<Bytes>, total: nat, size: nat -> nat, polls: seq<nat>, answers: seq<Poll>)
  {
    |answers| == |polls| && forall k: nat :: k < |answers| ==> IsAnswer(messages, total, size, polls, answers, k)
  }

  /** Everyone before `n` has been answered, by somebody's poll. */
  ghost predicate AllGot(polls: seq<nat>, answers: seq<Poll>, n: nat)
  {
    forall i: nat :: i < n ==> Got(polls, answers, i)
  }

  lemma GotGrows(polls: seq<nat>, answers: seq<Poll>, i: nat, r: Poll, j: nat)
    requires |polls| == |answers| && (Got(polls, answers, j) || (j == i && r.Ready?))
    ensures Got(polls + [i], answers + [r], j)
  {
    var polls', answers' := polls + [i], answers + [r];
    if Got(polls, answers, j) {
      var k :| 0 <= k < |answers| && k < |polls| && polls[k] == j && answers[k].Ready?;
      assert polls'[k] == j && answers'[k] == answers[k];
    } else {
      assert polls'[|polls|] == i && answers'[|answers|] == r;
    }
  }

  lemma SamePrefix(messages: seq<Bytes>, total: nat, size: nat -> nat, polls: seq<nat>, answers: seq<Poll>, i: nat, r: Poll, k: nat)
    requires |answers| == |polls| && k < |answers| && IsAnswer(messages, total, size, polls, answers, k)
    ensures IsAnswer(messages, total, size, polls + [i], answers + [r], k)
  {
    hide Concat;
    assert (answers + [r])[..k] == answers[..k] && (polls + [i])[k] == polls[k];
    GotInMore(polls, answers[..k], i, polls[k]);
  }

  lemma GotInMore(polls: seq<nat>, answers: seq<Poll>, i: nat, j: nat)
    ensures Got(polls, answers, j) ==> Got(polls + [i], answers, j)
  {
    if Got(polls, answers, j) {
      var k :| 0 <= k < |answers| && k < |polls| && polls[k] == j && answers[k].Ready?;
      assert (polls + [i])[k] == j;
    }
  }

  lemma AnswersGrow(messages: seq<Bytes>, total: nat, size: nat -> nat, polls: seq<nat>, answers: seq<Poll>, i: nat, r: Poll, n: nat)
    requires AreAnswers(messages, total, size, polls, answers) && AllGot(polls, answers, n)
    requires r.Ready? ==> i == n < |messages| && r.message == messages[i]
    requires r.EndOfStream? ==> r.record == i && i <= |messages| && total < |Concat(messages, i)| + size(i)
    requires r.Panic? ==> i < n
    ensures AreAnswers(messages, total, size, polls + [i], answers + [r])
    ensures AllGot(polls + [i], answers + [r], if r.Ready? then n + 1 else n)
  {
    hide Concat, Got;
    var polls', answers' := polls + [i], answers + [r];
    forall k: nat | k < |answers'|
      ensures IsAnswer(messages, total, size, polls', answers', k)
    {
      if k < |answers| {
        SamePrefix(messages, total, size, polls, answers, i, r, k);
      } else {
        assert answers'[..k] == answers;
        GotInMore(polls, answers, i, i);
      }
    }
    forall j: nat | j < if r.Ready? then n + 1 else n
      ensures Got(polls', answers', j)
    {
      GotGrows(polls, answers, i, r, j);
    }
  }

  /** The bytes read and the bytes ahead are those of the stream. */
  ghost predicate Reads(messages: seq<Bytes>, stream: seq<Event>, s: Rx)
  {
    s.window.next <= |messages| && Concat(messages, s.window.next) + Ahead(s) == Flatten(stream)
  }

  lemma ReadHolds(size: nat -> nat, messages: seq<Bytes>, stream: seq<Event>, s: Rx, i: nat)
    requires AreSizes(size, messages) && IsWindow(s.window) && Reads(messages, stream, s)
    requires Flatten(stream) <= Concat(messages, |messages|)
    ensures
      var (r, s') := PollRx(s, i, size(i));
      && Reads(messages, stream, s') && s'.window.next == s.window.next + (if r.Ready? then 1 else 0)
      && (r.Ready? ==> i == s.window.next < |messages| && r.message == messages[i])
      && (r.EndOfStream? ==> r.record == i && i <= |messages| && |Flatten(stream)| < |Concat(messages, i)| + size(i))
      && (r.Panic? <==> i < s.window.next)
  {
    PollConserves(s, i, size(i));
    var (r, s') := PollRx(s, i, size(i));
    var n := s.window.next;
    hide PollRx, Flatten, Ahead, Advance, Register;
    if r.Ready? {
      NextIsMessage(messages, n, Ahead(s), r.message, Ahead(s'));
      Rejoin(Concat(messages, n), messages[n], Ahead(s'), Ahead(s));
    }
  }

  lemma Rejoin(done: Bytes, m: Bytes, ahead': Bytes, ahead: Bytes)
    requires m + ahead' == ahead
    ensures done + m + ahead' == done + ahead
  {
  }

  /** In every run of polls every receiver gets its own message or the right excuse. */
  lemma {:induction false} RunIsRight(capacity: nat, size: nat -> nat, stream: seq<Event>, polls: seq<nat>, messages: seq<Bytes>)
    requires capacity >= 2 && AreSizes(size, messages) && Flatten(stream) <= Concat(messages, |messages|)
    ensures
      var (s, answers) := Run(capacity, size, stream, polls);
      && Reads(messages, stream, s) && AreAnswers(messages, |Flatten(stream)|, size, polls, answers)
      && AllGot(polls, answers, s.window.next)
  {
    if polls == [] {
      assert Concat(messages, 0) + ([] + Flatten(stream)) == Flatten(stream);
    } else {
      var n := |polls| - 1;
      var before, i := polls[..n], polls[n];
      RunIsRight(capacity, size, stream, before, messages);
      var (s, answers) := Run(capacity, size, stream, before);
      var (answer, s') := PollRx(s, i, size(i));
      assert before + [i] == polls;
      hide Run, PollRx, Reads, AreAnswers, AllGot, AreSizes, Flatten, Concat;
      RunOne(capacity, size, stream, before, i);
      ReadHolds(size, messages, stream, s, i);
      AnswersGrow(messages, |Flatten(stream)|, size, before, answers, i, answer, s.window.next);
    }
  }

  /** When every receiver has been polled, nobody has a wake-up to follow and the stream keeps nobody
      waiting, every receiver has had its message. */
  lemma QuietMeansDelivered(capacity: nat, size: nat -> nat, stream: seq<Event>, polls: seq<nat>, messages: seq<Bytes>)
    requires capacity >= 2 && AreSizes(size, messages) && Flatten(stream) <= Concat(messages, |messages|)
    requires forall i: nat :: i < |messages| ==> i in polls
    requires
      var p := Track(capacity, polls, Run(capacity, size, stream, polls).1).1;
      p.awake == {} && p.atTurn == {}
    ensures AllGot(polls, Run(capacity, size, stream, polls).1, |messages|)
  {
    RunIsRight(capacity, size, stream, polls, messages);
    RunIsTracked(capacity, size, stream, polls);
    var (s, answers) := Run(capacity, size, stream, polls);
    var (w, p) := Track(capacity, polls, answers);
    hide Run, Track, AreAnswers, Concat, Flatten, AreSizes, Got;
    TurnIsNotParked(polls, w, p);
    assert w.next < |messages| ==> w.next in polls;
  }

  lemma TurnIsNotParked(polls: seq<nat>, w: Window, p: Waiting)
    requires NobodyLost(polls, w, p)
    ensures w.next !in p.parked && (w.next in polls ==> w.next in p.awake + p.atTurn)
  {
    hide IsKept, RingFits, OverflowFits;
  }

  // ---------------------------------------------------------------- the receiver

  /** Receivers polled in any order, any number of times, while the stream may stop anywhere: every
      message delivered is the one asked for, and nobody who waits is lost. */
  method Receive(polls: seq<nat>, size: nat -> nat, stream: seq<Event>, capacity: nat, ghost messages: seq<Bytes>)
    returns (answers: seq<Poll>)
    requires capacity >= 2 && AreSizes(size, messages) && Flatten(stream) <= Concat(messages, |messages|)
    ensures answers == Run(capacity, size, stream, polls).1
    ensures AreAnswers(messages, |Flatten(stream)|, size, polls, answers)
    ensures
      var (w, p) := Track(capacity, polls, answers);
      w.next <= |messages| && AllGot(polls, answers, w.next) && NobodyLost(polls, w, p)
  {
    var rx := new OperatingState(stream, capacity);
    answers := [];
    assert polls[..0] == [] && polls[..|polls|] == polls;
    for k := 0 to |polls|
      invariant rx.Valid() && fresh(rx) && fresh(rx.spare) && fresh(rx.wakers)
      invariant (rx.Value(), answers) == Run(capacity, size, stream, polls[..k])
    {
      hide *;
      var i := polls[k];
      RunOne(capacity, size, stream, polls[..k], i);
      assert polls[..k] + [i] == polls[..k + 1];
      var r, woken := rx.Poll(i, size(i));
      answers := answers + [r];
    }
    hide Track, NobodyLost, AreAnswers, AllGot, AreSizes, Run;
    RunIsRight(capacity, size, stream, polls, messages);
    RunIsTracked(capacity, size, stream, polls);
  }

  /** Receiving message after message, polling again whenever the stream is not ready. */
  method ReceiveAll(count: nat, size: nat -> nat, stream: seq<Event>, capacity: nat, ghost messages: seq<Bytes>)
    returns (received: seq<Bytes>)
    requires capacity >= 2 && AreSizes(size, messages) && count == |messages|
    requires Flatten(stream) == Concat(messages, |messages|)
    ensures received == messages
  {
    assert Reads(messages, stream, StartRx(stream, capacity)) by {
      assert Concat(messages, 0) + ([] + Flatten(stream)) == Flatten(stream);
    }
    assert messages[..0] == [] && messages[..count] == messages;
    var rx := new OperatingState(stream, capacity);
    received := [];
    assert IsWindow(rx.Value().window) && rx.Value().window.next == 0;
    hide *;
    while |received| < count
      invariant rx.Valid() && fresh(rx) && fresh(rx.spare) && fresh(rx.wakers)
      invariant |received| <= count && received == messages[..|received|]
      invariant IsWindow(rx.Value().window) && rx.Value().window.next == |received|
      invariant Reads(messages, stream, rx.Value())
      decreases count - |received|, |rx.Value().stream|
    {
      var i := |received|;
      ghost var s := rx.Value();
      NextArrives(size, messages, stream, s, i);
      var r, woken := rx.Poll(i, size(i));
      if r.Ready? {
        OneMore(messages, received);
        received := received + [r.message];
      }
    }
  }

  lemma OneMore(messages: seq<Bytes>, received: seq<Bytes>)
    requires |received| < |messages| && received == messages[..|received|]
    ensures received + [messages[|received|]] == messages[..|received| + 1]
  {
  }

  /** With everything in the stream, the receiver whose turn it is gets its message or uses up an event. */
  lemma NextArrives(size: nat -> nat, messages: seq<Bytes>, stream: seq<Event>, s: Rx, i: nat)
    requires AreSizes(size, messages) && IsWindow(s.window) && Reads(messages, stream, s) && i == s.window.next < |messages|
    requires Flatten(stream) == Concat(messages, |messages|)
    ensures
      var (r, s') := PollRx(s, i, size(i));
      && Reads(messages, stream, s')
      && (r.Ready? ==> r.message == messages[i] && s'.window.next == i + 1)
      && (!r.Ready? ==> s'.window.next == i && |s'.stream| < |s.stream|)
  {
    EnoughAhead(size, messages, stream, s, i);
    ReadHolds(size, messages, stream, s, i);
    PollConserves(s, i, size(i));
    hide *;
  }

  /** A stream that carries everything has a message for everyone whose turn comes. */
  lemma EnoughAhead(size: nat -> nat, messages: seq<Bytes>, stream: seq<Event>, s: Rx, i: nat)
    requires AreSizes(size, messages) && IsWindow(s.window) && Reads(messages, stream, s) && i == s.window.next < |messages|
    requires Flatten(stream) == Concat(messages, |messages|)
    ensures !PollRx(s, i, size(i)).0.EndOfStream?
  {
    ReadHolds(size, messages, stream, s, i);
    ConcatGrows(messages, i + 1, |messages|);
    hide PollRx, Flatten, Reads;
    assert |Concat(messages, i + 1)| == |Concat(messages, i)| + size(i);
  }

  // ---------------------------------------------------------------- both ends

  lemma TakenIsPrefix(c: Config, steps: seq<Step>)
    requires IsConfig(c)
    ensures Exec(c, steps).taken <= Concat(c.messages, |c.messages|)
  {
    BytesInOrder(c, steps);
    var n := Acted(Exec(c, steps));
    ConcatGrows(c.messages, if n <= |c.messages| then n else |c.messages|, |c.messages|);
  }

  /** At every point of every run of the sending side, however the bytes taken so far are chunked in
      between and however the receivers are polled: a receiver that completes has the message that
      was sent under its index, and no receiver is lost. */
  method EndToEnd(ghost c: Config, ghost steps: seq<Step>, polls: seq<nat>, size: nat -> nat, stream: seq<Event>, capacity: nat)
    returns (answers: seq<Poll>)
    requires IsConfig(c) && capacity >= 2 && AreSizes(size, c.messages)
    requires Flatten(stream) <= Exec(c, steps).taken
    ensures answers == Run(capacity, size, stream, polls).1
    ensures AreAnswers(c.messages, |Flatten(stream)|, size, polls, answers)
    ensures
      var (w, p) := Track(capacity, polls, answers);
      w.next <= |c.messages| && AllGot(polls, answers, w.next) && NobodyLost(polls, w, p)
  {
    TakenIsPrefix(c, steps);
    hide *;
    answers := Receive(polls, size, stream, capacity, c.messages);
  }

  /** A stream that has ended delivers exactly the messages, by index. */
  method EndToEndAll(ghost c: Config, ghost steps: seq<Step>, count: nat, size: nat -> nat, stream: seq<Event>, capacity: nat)
    returns (received: seq<Bytes>)
    requires IsConfig(c) && capacity >= 2 && AreSizes(size, c.messages) && count == |c.messages|
    requires Exec(c, steps).reader.Ended? && Flatten(stream) == Exec(c, steps).taken
    ensures received == c.messages
  {
    EndMeansEverything(c, steps);
    received := ReceiveAll(count, size, stream, capacity, c.messages);
  }
}
