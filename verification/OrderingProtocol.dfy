/** `OrderingSender` as a concurrent protocol.

    A step is one atomic action: a load of `next`, a critical section on a shard or on the buffer,
    or the `fetch_add`.  Any number of tasks and the reading stream interleave their steps freely.
    A run is any sequence of steps; a step that is not enabled does nothing. */
module OrderingProtocol {
  import opened Wrappers
  import opened OrderingBuffer

  /** The operations: `messages[i]` is sent at index `i`, and if `closes`, the close comes at `|messages|`. */
  datatype Config = Config(messages: seq<Bytes>, closes: bool, capacity: nat, spare: nat)

  predicate IsConfig(c: Config)
  {
    && c.capacity >= 1 && c.spare >= 1
    && forall i :: 0 <= i < |c.messages| ==> |c.messages[i]| < c.spare
  }

  predicate IsSend(c: Config, i: nat) { i < |c.messages| }

  predicate IsOperation(c: Config, i: nat) { IsSend(c, i) || (c.closes && i == |c.messages|) }

  /** Where the future of one operation stands. */
  datatype Phase =
    | Fresh                 // never polled
    | Parked                // the last poll returned Pending
    | Loading               // about to load `next`
    | Adding(curr: nat)     // loaded a smaller `curr`, about to lock the shard
    | Turn                  // loaded its own index, about to lock the buffer
    | Written               // wrote or closed, about to `fetch_add`
    | Waking                // moved `next`, about to wake its successor
    | Done
    | Panicked

  datatype Reader = Resting | Holding | HoldingLoaded(n: nat) | ReaderParked | Ended

  datatype State = State(
    next: nat, phases: map<nat, Phase>, buffer: Buffer, shards: seq<Shard>,
    woken: set<nat>, reader: Reader, readerWoken: bool, taken: Bytes)

  const SHARDS: nat := 8
  const CONTIGUOUS: nat := 64

  function ShardOf(i: nat): (k: nat)
    ensures k < SHARDS
  {
    (i / CONTIGUOUS) % SHARDS
  }

  function At(s: State, i: nat): (r: Phase)
  {
    if i in s.phases then s.phases[i] else Fresh
  }

  function Set(s: State, i: nat, phase: Phase): (r: State)
    ensures forall j: nat :: At(r, j) == if j == i then phase else At(s, j)
  {
    s.(phases := s.phases[i := phase])
  }

  function Init(c: Config): (s: State)
  {
    State(0, map[], Buffer(c.capacity, c.spare, [], false, None, false),
          seq(SHARDS, _ => Shard(0, [])), {}, Resting, false, [])
  }

  // ---------------------------------------------------------------- steps

  datatype Step =
    | Poll(i: nat) | Load(i: nat) | Add(i: nat) | Act(i: nat) | FetchAdd(i: nat) | Wake(i: nat)
    | StreamTake | StreamLoad | StreamWake

  predicate Enabled(c: Config, s: State, step: Step)
  {
    match step
    case Poll(i) => IsOperation(c, i) && (At(s, i).Fresh? || At(s, i).Parked?)
    case Load(i) => At(s, i).Loading?
    case Add(i) => At(s, i).Adding?
    case Act(i) => At(s, i).Turn? && !s.reader.Holding? && !s.reader.HoldingLoaded?
    case FetchAdd(i) => At(s, i).Written?
    case Wake(i) => At(s, i).Waking?
    case StreamTake => s.reader.Resting? || s.reader.ReaderParked?
    case StreamLoad => s.reader.Holding?
    case StreamWake => s.reader.HoldingLoaded?
  }

  function DoLoad(s: State, i: nat): (r: State)
  {
    Set(s, i, if s.next == i then Turn else if s.next < i then Adding(s.next) else Panicked)
  }

  /** `WaitingShard::add`; a rejected caller loads again. */
  function DoAdd(s: State, i: nat): (r: State)
    requires At(s, i).Adding? && |s.shards| == SHARDS
  {
    var shard := s.shards[ShardOf(i)];
    if At(s, i).curr < shard.wokenAt then Set(s, i, Loading)
    else Set(s.(shards := s.shards[ShardOf(i) := shard.(wakers := Insert(shard.wakers, i))]), i, Parked)
  }

  /** The closure of `Send::poll` or `Close::poll` under the buffer lock. */
  function DoAct(c: Config, s: State, i: nat): (r: State)
    requires s.buffer.Valid()
  {
    if IsSend(c, i) then
      if s.buffer.closed || |c.messages[i]| >= s.buffer.spare then Set(s, i, Panicked)
      else
        var (buffer, wakes) := BufferWrite(s.buffer, c.messages[i], i);
        Set(s.(buffer := buffer, readerWoken := s.readerWoken || wakes), i,
            if s.buffer.Fits(c.messages[i]) then Written else Parked)
    else
      var (buffer, wakes) := BufferClose(s.buffer);
      Set(s.(buffer := buffer, readerWoken := s.readerWoken || wakes), i, Written)
  }

  function DoFetchAdd(c: Config, s: State, i: nat): (r: State)
  {
    Set(s.(next := s.next + 1), i, if IsSend(c, i) then Waking else Done)
  }

  /** `WaitingShard::wake` for index `i`. */
  function WakeIndex(s: State, i: nat): (r: State)
    requires |s.shards| == SHARDS
  {
    var shard := s.shards[ShardOf(i)];
    var shard' := Shard(if shard.wokenAt < i then i else shard.wokenAt, Woken(shard.wakers, i));
    s.(shards := s.shards[ShardOf(i) := shard'], woken := if i in shard.wakers then s.woken + {i} else s.woken)
  }

  function DoStreamTake(s: State): (r: State)
    requires s.buffer.Valid()
  {
    var (buffer, chunk, wakes) := BufferTake(s.buffer);
    var s' := s.(buffer := buffer, readerWoken := false);
    match chunk
    case Some(bytes) =>
      s'.(taken := s.taken + bytes, reader := Holding,
          woken := if wakes.Some? then s.woken + {wakes.value} else s.woken)
    case None => s'.(reader := if s.buffer.closed then Ended else ReaderParked)
  }

  function Do(c: Config, s: State, step: Step): (r: State)
    requires s.buffer.Valid() && |s.shards| == SHARDS
  {
    if !Enabled(c, s, step) then s
    else
      match step
      case Poll(i) => Set(s.(woken := s.woken - {i}), i, Loading)
      case Load(i) => DoLoad(s, i)
      case Add(i) => DoAdd(s, i)
      case Act(i) => DoAct(c, s, i)
      case FetchAdd(i) => DoFetchAdd(c, s, i)
      case Wake(i) => Set(WakeIndex(s, i + 1), i, Done)
      case StreamTake => DoStreamTake(s)
      case StreamLoad => s.(reader := HoldingLoaded(s.next))
      case StreamWake => WakeIndex(s, s.reader.n).(reader := Resting)
  }

  // ---------------------------------------------------------------- the invariant

  /** Operations before `next` have completed, only the one at `next` can have its turn. */
  ghost predicate InOrder(c: Config, s: State)
  {
    forall i: nat :: PhaseFits(c, s, i)
  }

  ghost predicate PhaseFits(c: Config, s: State, i: nat)
  {
    && (At(s, i).Waking? || At(s, i).Done? <==> i < s.next)
    && (At(s, i).Turn? || At(s, i).Written? ==> i == s.next)
    && (At(s, i).Adding? ==> At(s, i).curr < i && At(s, i).curr <= s.next)
    && (At(s, i).Waking? ==> IsSend(c, i))
    && (!At(s, i).Fresh? ==> IsOperation(c, i))
    && !At(s, i).Panicked?
  }

  ghost predicate ShardsFit(c: Config, s: State)
  {
    && |s.shards| == SHARDS
    && (forall k :: 0 <= k < SHARDS ==> s.shards[k].Valid() && s.shards[k].wokenAt <= s.next)
    && (s.reader.HoldingLoaded? ==> s.reader.n <= s.next)
  }

  /** The wake-up for a reached index is still to come, or its shard remembers it. */
  ghost predicate WakesRemembered(c: Config, s: State)
    requires |s.shards| == SHARDS
  {
    forall i: nat :: 0 < i <= s.next && IsOperation(c, i) ==> WakeRemembered(s, i)
  }

  ghost predicate WakeRemembered(s: State, i: nat)
    requires |s.shards| == SHARDS && i > 0
  {
    At(s, i - 1).Waking? || s.shards[ShardOf(i)].wokenAt >= i
  }

  /** A parked operation is awake again, or waits in its shard with its wake-up still to come, or
      waits for room that the next take will make. */
  ghost predicate NoneStranded(c: Config, s: State)
    requires |s.shards| == SHARDS
  {
    forall i: nat :: At(s, i).Parked? ==> i in s.woken || WaitsInShard(s, i) || WaitsForRoom(c, s, i)
  }

  ghost predicate WaitsInShard(s: State, i: nat)
    requires |s.shards| == SHARDS
  {
    i > 0 && i in s.shards[ShardOf(i)].wakers && (i == s.next ==> At(s, i - 1).Waking?)
  }

  ghost predicate WaitsForRoom(c: Config, s: State, i: nat)
  {
    i == s.next && s.buffer.writeReady == Some(i) && IsSend(c, i) && !s.buffer.Fits(c.messages[i])
  }

  function Concat(messages: seq<Bytes>, n: nat): (r: Bytes)
    requires n <= |messages|
  {
    if n == 0 then [] else Concat(messages, n - 1) + messages[n - 1]
  }

  /** How many operations have acted on the buffer. */
  function Acted(s: State): (n: nat)
  {
    if At(s, s.next).Written? then s.next + 1 else s.next
  }

  /** Bytes are neither lost nor reordered, and the buffer is closed exactly by the close. */
  ghost predicate Conserved(c: Config, s: State)
  {
    && s.buffer.Valid() && s.buffer.capacity == c.capacity && s.buffer.spare == c.spare
    && Acted(s) <= |c.messages| + (if c.closes then 1 else 0)
    && s.taken + s.buffer.data == Concat(c.messages, if IsSend(c, Acted(s)) then Acted(s) else |c.messages|)
    && (s.buffer.closed <==> Acted(s) > |c.messages|)
  }

  /** A sleeping reader has nothing to read, and will be woken; an ended one has read everything. */
  ghost predicate ReaderFits(s: State)
  {
    && (s.reader.ReaderParked? && !s.readerWoken ==>
         s.buffer.streamReady && !s.buffer.closed && !s.buffer.AtThreshold())
    && (s.reader.Ended? ==> s.buffer.closed && s.buffer.data == [])
  }

  ghost predicate Inv(c: Config, s: State)
  {
    InOrder(c, s) && ShardsFit(c, s) && WakesRemembered(c, s) && NoneStranded(c, s) && Conserved(c, s) && ReaderFits(s)
  }

  lemma InitHolds(c: Config)
    requires IsConfig(c)
    ensures Inv(c, Init(c))
  {
  }

  // ---------------------------------------------------------------- preservation

  lemma PollHolds(c: Config, s: State, i: nat)
    requires IsConfig(c) && Inv(c, s) && Enabled(c, s, Poll(i))
    ensures Inv(c, Do(c, s, Poll(i)))
  {
    hide ShardOf;
    var s' := Do(c, s, Poll(i));
    assert PhaseFits(c, s, i);
    forall j: nat ensures PhaseFits(c, s', j) { assert PhaseFits(c, s, j); }
    forall j: nat | 0 < j <= s'.next && IsOperation(c, j) ensures WakeRemembered(s', j) {
      assert WakeRemembered(s, j);
    }
    forall j: nat | At(s', j).Parked? ensures j in s'.woken || WaitsInShard(s', j) || WaitsForRoom(c, s', j) {
      assert j in s.woken || WaitsInShard(s, j) || WaitsForRoom(c, s, j);
    }
  }

  lemma LoadHolds(c: Config, s: State, i: nat)
    requires IsConfig(c) && Inv(c, s) && Enabled(c, s, Load(i))
    ensures Inv(c, Do(c, s, Load(i)))
  {
    hide ShardOf;
    var s' := Do(c, s, Load(i));
    assert PhaseFits(c, s, i);
    forall j: nat ensures PhaseFits(c, s', j) { assert PhaseFits(c, s, j); }
    forall j: nat | 0 < j <= s'.next && IsOperation(c, j) ensures WakeRemembered(s', j) {
      assert WakeRemembered(s, j);
    }
    forall j: nat | At(s', j).Parked? ensures j in s'.woken || WaitsInShard(s', j) || WaitsForRoom(c, s', j) {
      assert j in s.woken || WaitsInShard(s, j) || WaitsForRoom(c, s, j);
    }
  }

  /** A step that leaves operations and shards alone, and wakes whom it deprives of the wait for room. */
  lemma SameOperations(c: Config, s: State, s': State)
    requires |s.shards| == SHARDS && InOrder(c, s) && WakesRemembered(c, s) && NoneStranded(c, s)
    requires s'.next == s.next && s'.phases == s.phases && s'.shards == s.shards && s.woken <= s'.woken
    requires forall j: nat :: WaitsForRoom(c, s, j) ==> j in s'.woken || WaitsForRoom(c, s', j)
    ensures InOrder(c, s') && WakesRemembered(c, s') && NoneStranded(c, s')
  {
    hide ShardOf, WaitsForRoom;
    forall j: nat ensures PhaseFits(c, s', j) { assert PhaseFits(c, s, j); }
    forall j: nat | 0 < j <= s'.next && IsOperation(c, j) ensures WakeRemembered(s', j) {
      assert WakeRemembered(s, j);
    }
    forall j: nat | At(s', j).Parked? ensures j in s'.woken || WaitsInShard(s', j) || WaitsForRoom(c, s', j) {
      assert j in s.woken || WaitsInShard(s, j) || WaitsForRoom(c, s, j);
    }
  }

  lemma AddHolds(c: Config, s: State, i: nat)
    requires IsConfig(c) && Inv(c, s) && Enabled(c, s, Add(i))
    ensures Inv(c, Do(c, s, Add(i)))
  {
    if At(s, i).curr < s.shards[ShardOf(i)].wokenAt {
      AddRejectedHolds(c, s, i);
    } else {
      AddAcceptedHolds(c, s, i);
    }
  }

  lemma AddRejectedHolds(c: Config, s: State, i: nat)
    requires IsConfig(c) && Inv(c, s) && Enabled(c, s, Add(i)) && At(s, i).curr < s.shards[ShardOf(i)].wokenAt
    ensures Inv(c, Do(c, s, Add(i)))
  {
    hide ShardOf, Insert;
    var s' := Do(c, s, Add(i));
    forall j: nat ensures PhaseFits(c, s', j) { assert PhaseFits(c, s, j); }
    forall j: nat | 0 < j <= s'.next && IsOperation(c, j) ensures WakeRemembered(s', j) {
      assert WakeRemembered(s, j);
    }
    forall j: nat | At(s', j).Parked? ensures j in s'.woken || WaitsInShard(s', j) || WaitsForRoom(c, s', j) {
      assert j in s.woken || WaitsInShard(s, j) || WaitsForRoom(c, s, j);
    }
  }

  lemma AddAcceptedHolds(c: Config, s: State, i: nat)
    requires IsConfig(c) && Inv(c, s) && Enabled(c, s, Add(i)) && At(s, i).curr >= s.shards[ShardOf(i)].wokenAt
    ensures Inv(c, Do(c, s, Add(i)))
  {
    hide ShardOf, Insert;
    var s' := Do(c, s, Add(i));
    assert PhaseFits(c, s, i);
    InsertKeepsOrder(s.shards[ShardOf(i)].wakers, i);
    forall j: nat ensures PhaseFits(c, s', j) { assert PhaseFits(c, s, j); }
    forall j: nat | 0 < j <= s'.next && IsOperation(c, j) ensures WakeRemembered(s', j) {
      assert WakeRemembered(s, j);
    }
    forall j: nat | At(s', j).Parked? ensures j in s'.woken || WaitsInShard(s', j) || WaitsForRoom(c, s', j) {
      if j == i {
        if i == s.next {
          assert WakeRemembered(s, i);
        }
        assert WaitsInShard(s', i);
      } else {
        assert j in s.woken || WaitsInShard(s, j) || WaitsForRoom(c, s, j);
      }
    }
  }

  lemma ActHolds(c: Config, s: State, i: nat)
    requires IsConfig(c) && Inv(c, s) && Enabled(c, s, Act(i))
    ensures Inv(c, Do(c, s, Act(i)))
  {
    hide ShardOf;
    var s' := Do(c, s, Act(i));
    assert PhaseFits(c, s, i);
    forall j: nat ensures PhaseFits(c, s', j) { assert PhaseFits(c, s, j); }
    forall j: nat | 0 < j <= s'.next && IsOperation(c, j) ensures WakeRemembered(s', j) {
      assert WakeRemembered(s, j);
    }
    forall j: nat | At(s', j).Parked? ensures j in s'.woken || WaitsInShard(s', j) || WaitsForRoom(c, s', j) {
      if j != i {
        assert j in s.woken || WaitsInShard(s, j) || WaitsForRoom(c, s, j);
      }
    }
    ActConserves(c, s, i);
  }

  lemma ActConserves(c: Config, s: State, i: nat)
    requires IsConfig(c) && Inv(c, s) && Enabled(c, s, Act(i))
    ensures Conserved(c, Do(c, s, Act(i)))
  {
    hide ShardOf;
    var s' := Do(c, s, Act(i));
    assert PhaseFits(c, s, i);
    if IsSend(c, i) && s.buffer.Fits(c.messages[i]) {
      assert s'.taken + s'.buffer.data == s.taken + s.buffer.data + c.messages[i];
      assert Concat(c.messages, i + 1) == Concat(c.messages, i) + c.messages[i];
    }
  }

  lemma FetchAddHolds(c: Config, s: State, i: nat)
    requires IsConfig(c) && Inv(c, s) && Enabled(c, s, FetchAdd(i))
    ensures Inv(c, Do(c, s, FetchAdd(i)))
  {
    hide ShardOf;
    var s' := Do(c, s, FetchAdd(i));
    assert PhaseFits(c, s, i) && PhaseFits(c, s, i + 1);
    forall j: nat ensures PhaseFits(c, s', j) { assert PhaseFits(c, s, j); }
    forall j: nat | 0 < j <= s'.next && IsOperation(c, j) ensures WakeRemembered(s', j) {
      if j <= s.next {
        assert WakeRemembered(s, j);
        assert PhaseFits(c, s, j - 1);
      }
    }
    forall j: nat | At(s', j).Parked? ensures j in s'.woken || WaitsInShard(s', j) || WaitsForRoom(c, s', j) {
      assert j in s.woken || WaitsInShard(s, j) || WaitsForRoom(c, s, j);
      assert PhaseFits(c, s, j);
    }
  }

  /** Waking an index that has been reached keeps everyone else's wake-up. */
  lemma WakeIndexHolds(c: Config, s: State, i: nat)
    requires IsConfig(c) && Inv(c, s) && 0 <= i <= s.next
    ensures Inv(c, WakeIndex(s, i))
    ensures WakeIndex(s, i).shards[ShardOf(i)].wokenAt >= i
    ensures forall j: nat :: At(WakeIndex(s, i), j) == At(s, j)
    ensures i !in WakeIndex(s, i).shards[ShardOf(i)].wakers
  {
    hide ShardOf, Woken;
    var s', shard := WakeIndex(s, i), s.shards[ShardOf(i)];
    WokenKeepsOrder(shard.wakers, i);
    forall j: nat ensures PhaseFits(c, s', j) { assert PhaseFits(c, s, j); }
    forall j: nat | 0 < j <= s'.next && IsOperation(c, j) ensures WakeRemembered(s', j) {
      assert WakeRemembered(s, j);
    }
    forall j: nat | At(s', j).Parked? ensures j in s'.woken || WaitsInShard(s', j) || WaitsForRoom(c, s', j) {
      assert j in s.woken || WaitsInShard(s, j) || WaitsForRoom(c, s, j);
      assert PhaseFits(c, s, j);
    }
  }

  lemma WakeHolds(c: Config, s: State, i: nat)
    requires IsConfig(c) && Inv(c, s) && Enabled(c, s, Wake(i))
    ensures Inv(c, Do(c, s, Wake(i)))
  {
    hide ShardOf, Woken, After, Insert, WakeIndex;
    assert PhaseFits(c, s, i);
    WakeIndexHolds(c, s, i + 1);
    var w, s' := WakeIndex(s, i + 1), Do(c, s, Wake(i));
    forall j: nat ensures PhaseFits(c, s', j) { assert PhaseFits(c, w, j); }
    forall j: nat | 0 < j <= s'.next && IsOperation(c, j) ensures WakeRemembered(s', j) {
      assert WakeRemembered(w, j);
    }
    forall j: nat | At(s', j).Parked? ensures j in s'.woken || WaitsInShard(s', j) || WaitsForRoom(c, s', j) {
      assert j in w.woken || WaitsInShard(w, j) || WaitsForRoom(c, w, j);
    }
  }

  lemma StreamTakeHolds(c: Config, s: State)
    requires IsConfig(c) && Inv(c, s) && Enabled(c, s, StreamTake)
    ensures Inv(c, Do(c, s, StreamTake))
  {
    var s' := Do(c, s, StreamTake);
    TakeConserves(c, s);
    assert forall j: nat {:trigger WaitsForRoom(c, s, j)} :: WaitsForRoom(c, s, j) ==> j in s'.woken || WaitsForRoom(c, s', j);
    hide InOrder, WakesRemembered, NoneStranded, Conserved;
    SameOperations(c, s, s');
  }

  lemma TakeConserves(c: Config, s: State)
    requires s.buffer.Valid() && |s.shards| == SHARDS && Conserved(c, s) && Enabled(c, s, StreamTake)
    ensures Conserved(c, Do(c, s, StreamTake))
  {
    hide Concat;
    var s' := Do(c, s, StreamTake);
    assert s'.taken + s'.buffer.data == s.taken + s.buffer.data;
    assert Acted(s') == Acted(s);
  }

  lemma StreamLoadHolds(c: Config, s: State)
    requires IsConfig(c) && Inv(c, s) && Enabled(c, s, StreamLoad)
    ensures Inv(c, Do(c, s, StreamLoad))
  {
    SameOperations(c, s, Do(c, s, StreamLoad));
    hide InOrder, WakesRemembered, NoneStranded;
  }

  lemma StreamWakeHolds(c: Config, s: State)
    requires IsConfig(c) && Inv(c, s) && Enabled(c, s, StreamWake)
    ensures Inv(c, Do(c, s, StreamWake))
  {
    hide ShardOf, Woken, After, Insert, WakeIndex;
    WakeIndexHolds(c, s, s.reader.n);
    var w, s' := WakeIndex(s, s.reader.n), Do(c, s, StreamWake);
    forall j: nat ensures PhaseFits(c, s', j) { assert PhaseFits(c, w, j); }
    forall j: nat | 0 < j <= s'.next && IsOperation(c, j) ensures WakeRemembered(s', j) {
      assert WakeRemembered(w, j);
    }
    forall j: nat | At(s', j).Parked? ensures j in s'.woken || WaitsInShard(s', j) || WaitsForRoom(c, s', j) {
      assert j in w.woken || WaitsInShard(w, j) || WaitsForRoom(c, w, j);
    }
  }

  lemma StepHolds(c: Config, s: State, step: Step)
    requires IsConfig(c) && Inv(c, s)
    ensures Inv(c, Do(c, s, step))
  {
    hide ShardOf;
    if Enabled(c, s, step) {
      match step
      case Poll(i) => PollHolds(c, s, i);
      case Load(i) => LoadHolds(c, s, i);
      case Add(i) => AddHolds(c, s, i);
      case Act(i) => ActHolds(c, s, i);
      case FetchAdd(i) => FetchAddHolds(c, s, i);
      case Wake(i) => WakeHolds(c, s, i);
      case StreamTake => StreamTakeHolds(c, s);
      case StreamLoad => StreamLoadHolds(c, s);
      case StreamWake => StreamWakeHolds(c, s);
    }
  }

  // ---------------------------------------------------------------- runs

  /** The state after a run. */
  function Exec(c: Config, steps: seq<Step>): (s: State)
    requires IsConfig(c)
    ensures Inv(c, s)
  {
    if steps == [] then
      InitHolds(c);
      Init(c)
    else
      var before := Exec(c, steps[..|steps| - 1]);
      StepHolds(c, before, steps[|steps| - 1]);
      Do(c, before, steps[|steps| - 1])
  }

  // ---------------------------------------------------------------- what every run guarantees

  /** No poll hits an assertion: no index is written twice, nothing is written after the close. */
  lemma NeverPanics(c: Config, steps: seq<Step>, i: nat)
    requires IsConfig(c)
    ensures !At(Exec(c, steps), i).Panicked?
  {
    assert PhaseFits(c, Exec(c, steps), i);
  }

  /** A rejected registration means the position has moved since it was read, so a retry is not idle. */
  lemma RejectionMeansProgress(c: Config, steps: seq<Step>, i: nat)
    requires IsConfig(c)
    ensures
      var s := Exec(c, steps);
      At(s, i).Adding? && At(s, i).curr < s.shards[ShardOf(i)].wokenAt ==> At(s, i).curr < s.next
  {
    assert PhaseFits(c, Exec(c, steps), i);
  }

  /** What has been read and what is buffered is the first messages in index order, whole. */
  lemma BytesInOrder(c: Config, steps: seq<Step>)
    requires IsConfig(c)
    ensures
      var s := Exec(c, steps);
      && s.taken + s.buffer.data == Concat(c.messages, if Acted(s) <= |c.messages| then Acted(s) else |c.messages|)
      && (s.buffer.closed <==> Acted(s) > |c.messages|)
      && (Acted(s) == s.next || (Acted(s) == s.next + 1 && At(s, s.next).Written?))
  {
    assert Conserved(c, Exec(c, steps));
  }

  /** What the stream is handed: while the channel is open, chunks of at least the capacity and at
      most the capacity and the spare room; a shorter one comes only after the close.  Below the
      capacity an open channel gives nothing and the reader sleeps. */
  ghost predicate TakesFull(c: Config, s: State, s': State)
  {
    var n := |s'.taken| - |s.taken|;
    && s.taken <= s'.taken && n <= c.capacity + c.spare
    && (0 < n < c.capacity ==> s.buffer.closed)
    && (n > 0 ==> s'.buffer.data == [])
    && (Enabled(c, s, StreamTake) && !s.buffer.closed && |s.buffer.data| < c.capacity ==>
          s'.taken == s.taken && s'.reader == ReaderParked && s'.buffer.streamReady)
    && (Enabled(c, s, StreamTake) && |s.buffer.data| >= (if s.buffer.closed then 1 else c.capacity) ==>
          s'.taken == s.taken + s.buffer.data)
  }

  lemma TakesAreFull(c: Config, steps: seq<Step>)
    requires IsConfig(c)
    ensures TakesFull(c, Exec(c, steps), Exec(c, steps + [StreamTake]))
  {
    var s := Exec(c, steps);
    assert s.buffer.Valid() && |s.shards| == SHARDS && s.buffer.capacity == c.capacity && s.buffer.spare == c.spare;
    hide *;
    ExecOne(c, steps, StreamTake);
    TakeIsFull(c, s);
  }

  lemma TakeIsFull(c: Config, s: State)
    requires IsConfig(c) && s.buffer.Valid() && |s.shards| == SHARDS
    requires s.buffer.capacity == c.capacity && s.buffer.spare == c.spare
    ensures TakesFull(c, s, Do(c, s, StreamTake))
  {
  }

  lemma ExecOne(c: Config, steps: seq<Step>, step: Step)
    requires IsConfig(c)
    ensures Exec(c, steps + [step]) == Do(c, Exec(c, steps), step)
  {
    assert (steps + [step])[..|steps|] == steps;
    hide Do, Inv;
  }

  /** Who has asked to be woken is asleep, and who has been woken has something to come back for. */
  ghost predicate WakeFits(s: State)
  {
    && (s.buffer.streamReady ==> s.reader.ReaderParked? || s.reader.Ended?)
    && (s.readerWoken ==> s.reader.ReaderParked? && !s.buffer.streamReady && (s.buffer.AtThreshold() || s.buffer.closed))
  }

  lemma WakeStaysFit(c: Config, s: State, step: Step)
    requires IsConfig(c) && Inv(c, s) && WakeFits(s)
    ensures WakeFits(Do(c, s, step))
  {
    hide ShardOf, Insert, Woken, Concat;
    if step.Act? && Enabled(c, s, step) {
      assert PhaseFits(c, s, step.i);
    }
  }

  lemma {:induction false} WakesFit(c: Config, steps: seq<Step>)
    requires IsConfig(c)
    ensures WakeFits(Exec(c, steps))
  {
    if steps != [] {
      var before, step := steps[..|steps| - 1], steps[|steps| - 1];
      assert Exec(c, steps) == Do(c, Exec(c, before), step);
      hide *;
      WakesFit(c, before);
      WakeStaysFit(c, Exec(c, before), step);
    }
  }

  /** A sleeping reader is woken if and only if a full chunk is there or the channel is closed: never
      for less, and never left asleep. */
  lemma ReaderWokenExactly(c: Config, steps: seq<Step>)
    requires IsConfig(c)
    ensures
      var s := Exec(c, steps);
      s.reader.ReaderParked? ==> (s.readerWoken <==> |s.buffer.data| >= c.capacity || s.buffer.closed)
  {
    WakesFit(c, steps);
  }

  /** Whatever waits at the position the stream saw when it had taken bytes is woken. */
  lemma TakeWakesNext(c: Config, steps: seq<Step>)
    requires IsConfig(c) && Exec(c, steps).reader.HoldingLoaded?
    ensures
      var s, s' := Exec(c, steps), Exec(c, steps + [StreamWake]);
      var n := s.reader.n;
      && (n in s'.woken <==> n in s.woken || n in s.shards[ShardOf(n)].wakers)
      && n !in s'.shards[ShardOf(n)].wakers && s'.shards[ShardOf(n)].wokenAt >= n
      && s'.reader == Resting
  {
    hide ShardOf, Woken;
    var s := Exec(c, steps);
    ExecOne(c, steps, StreamWake);
    WakeIndexHolds(c, s, s.reader.n);
  }

  /** A writer waiting for room and a reader waiting for data never wait for each other. */
  lemma NeverBothParked(c: Config, steps: seq<Step>, i: nat)
    requires IsConfig(c)
    ensures
      var s := Exec(c, steps);
      WaitsForRoom(c, s, i) ==> s.buffer.TakeReady() && !(s.reader.ReaderParked? && !s.readerWoken)
  {
  }

  /** The stream ends only after the close, and then every message has been read. */
  lemma EndMeansEverything(c: Config, steps: seq<Step>)
    requires IsConfig(c)
    ensures
      var s := Exec(c, steps);
      s.reader.Ended? ==> c.closes && s.taken == Concat(c.messages, |c.messages|)
  {
    var s := Exec(c, steps);
    if s.reader.Ended? {
      assert s.taken + [] == s.taken;
    }
  }

  /** Nothing is running and nobody is about to: no step is enabled except polls that nobody asked for. */
  ghost predicate Quiescent(c: Config, s: State)
  {
    && (forall i: nat :: At(s, i).Fresh? || At(s, i).Done? || (At(s, i).Parked? && i !in s.woken))
    && ((s.reader.ReaderParked? && !s.readerWoken) || s.reader.Ended?)
  }

  /** No stranded send or close: when everything has come to rest, the operation whose turn it is
      has simply not been polled yet. */
  lemma NoStrandedOperation(c: Config, steps: seq<Step>)
    requires IsConfig(c)
    ensures
      var s := Exec(c, steps);
      Quiescent(c, s) ==> At(s, s.next).Fresh?
  {
    var s := Exec(c, steps);
    if Quiescent(c, s) && s.next > 0 {
      assert !At(s, s.next - 1).Waking?;
    }
    assert PhaseFits(c, s, s.next);
  }

  /** Completion: if every operation has been polled and everything has come to rest, all of them
      have completed, and a closed channel has delivered every byte and ended its stream. */
  lemma RestMeansDelivered(c: Config, steps: seq<Step>)
    requires IsConfig(c)
    ensures
      var s := Exec(c, steps);
      Quiescent(c, s) && (forall i: nat :: IsOperation(c, i) ==> !At(s, i).Fresh?) ==>
        && (forall i: nat :: IsOperation(c, i) ==> At(s, i).Done?)
        && (c.closes ==> s.reader.Ended? && s.taken == Concat(c.messages, |c.messages|))
  {
    var s := Exec(c, steps);
    if Quiescent(c, s) && forall i: nat :: IsOperation(c, i) ==> !At(s, i).Fresh? {
      NoStrandedOperation(c, steps);
      assert !IsOperation(c, s.next);
      assert PhaseFits(c, s, |c.messages|);
      forall i: nat | IsOperation(c, i) ensures At(s, i).Done? {
        assert PhaseFits(c, s, i);
      }
      EndMeansEverything(c, steps);
    }
  }

  // ---------------------------------------------------------------- record limit

  datatype TotalRecords = Unspecified | Specified(count: nat) | Indeterminate

  /** `GatewaySender::send`: the index sent at and the index closed at, or `TooManyRecords`. */
  function GatewaySend(total: TotalRecords, record: nat): (r: Option<(nat, Option<nat>)>)
  {
    if total.Specified? && record >= total.count then None
    else Some((record, if total.Specified? && record == total.count - 1 then Some(record + 1) else None))
  }

  /** Every accepted record is sent at its own index, whatever is known of the total, so no two share
      one; a close never takes the index of an accepted record. */
  lemma RecordsKeepTheirIndex(total: TotalRecords, a: nat, b: nat)
    ensures GatewaySend(total, a).None? <==> total.Specified? && a >= total.count
    ensures GatewaySend(total, a).Some? ==> GatewaySend(total, a).value.0 == a
    ensures GatewaySend(total, a).Some? && GatewaySend(total, b).Some? ==>
      && (GatewaySend(total, a).value.0 == GatewaySend(total, b).value.0 <==> a == b)
      && GatewaySend(total, b).value.1 != Some(a)
  {
  }

  /** With a specified count the accepted records use exactly the indices of a closing channel, each once. */
  lemma LimitFitsChannel(c: Config, i: nat)
    requires c.closes && |c.messages| > 0
    ensures IsSend(c, i) <==> GatewaySend(Specified(|c.messages|), i) != None
    ensures IsOperation(c, i) && !IsSend(c, i) <==>
      exists r: nat :: GatewaySend(Specified(|c.messages|), r) == Some((r, Some(i)))
  {
    if IsOperation(c, i) && !IsSend(c, i) {
      var r: nat := i - 1;
      assert GatewaySend(Specified(|c.messages|), r) == Some((r, Some(i)));
    }
  }

  /** Runs in which the gateway polls the close only once the last send has completed. */
  ghost predicate IsGatewayRun(c: Config, steps: seq<Step>)
    requires IsConfig(c)
  {
    forall k :: 0 <= k < |steps| && steps[k] == Poll(|c.messages|) && |c.messages| > 0 ==>
      At(Exec(c, steps[..k]), |c.messages| - 1).Done?
  }

  ghost predicate CloseReady(c: Config, s: State)
  {
    var n := |c.messages|;
    !At(s, n).Adding? && !At(s, n).Parked? && (!At(s, n).Fresh? ==> s.next >= n)
  }

  lemma CloseStaysReady(c: Config, s: State, step: Step)
    requires Inv(c, s) && Inv(c, Do(c, s, step)) && CloseReady(c, s)
    requires step == Poll(|c.messages|) ==> s.next >= |c.messages|
    ensures CloseReady(c, Do(c, s, step))
  {
    var n := |c.messages|;
    assert PhaseFits(c, s, n) && PhaseFits(c, Do(c, s, step), n);
    hide Inv, PhaseFits, BufferWrite, BufferTake, BufferClose, Insert, Woken, ShardOf;
  }

  /** In the gateway the close finds its turn at once: it never waits in a shard. */
  lemma {:induction false} CloseNeverWaits(c: Config, steps: seq<Step>)
    requires IsConfig(c) && IsGatewayRun(c, steps)
    ensures CloseReady(c, Exec(c, steps))
  {
    if steps != [] {
      var before, step := steps[..|steps| - 1], steps[|steps| - 1];
      var s := Exec(c, before);
      assert Exec(c, steps) == Do(c, s, step);
      hide *;
      GatewayPrefix(c, steps);
      CloseNeverWaits(c, before);
      if step == Poll(|c.messages|) {
        SentMeansReached(c, s);
      }
      StepHolds(c, s, step);
      CloseStaysReady(c, s, step);
    }
  }

  lemma GatewayPrefix(c: Config, steps: seq<Step>)
    requires IsConfig(c) && IsGatewayRun(c, steps) && steps != []
    ensures
      var before, step := steps[..|steps| - 1], steps[|steps| - 1];
      && IsGatewayRun(c, before)
      && (step == Poll(|c.messages|) && |c.messages| > 0 ==> At(Exec(c, before), |c.messages| - 1).Done?)
  {
    hide Exec, At;
    var before := steps[..|steps| - 1];
    forall k | 0 <= k < |before|
      ensures before[..k] == steps[..k]
    {
    }
  }

  lemma SentMeansReached(c: Config, s: State)
    requires Inv(c, s) && (|c.messages| > 0 ==> At(s, |c.messages| - 1).Done?)
    ensures s.next >= |c.messages|
  {
    if |c.messages| > 0 {
      assert PhaseFits(c, s, |c.messages| - 1);
    }
    hide Inv;
  }
}
