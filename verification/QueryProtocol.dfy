/** `query/processor.rs` and `query/state.rs`: three helpers agree on who coordinates a query.

    Every critical section on a helper's query table is one step; `prepare` takes the lock twice,
    requests may arrive at any later time, and transport failures happen at will. */
module QueryProtocol {
  import opened Wrappers

  datatype Status = Preparing | AwaitingInputs | Running | AwaitingCompletion | Completed

  datatype StateError = AlreadyRunning | InvalidState(from: Status, to: Status)

  /** `QueryState::transition`, where no entry means `Empty`. */
  function Transition(cur: Option<Status>, to: Status): (r: Result<Status, StateError>)
    requires to.Preparing? || to.AwaitingInputs?
    ensures r.Ok? <==> cur.None? || (cur == Some(Preparing) && to.AwaitingInputs?)
    ensures r.Ok? ==> r.value == to
    ensures r.Err? ==> r.error == if to.Preparing? then StateError.AlreadyRunning else InvalidState(cur.value, to)
  {
    match (cur, to)
    case (None, _) => Ok(to)
    case (Some(Preparing), AwaitingInputs) => Ok(to)
    case (Some(_), Preparing) => Err(StateError.AlreadyRunning)
    case (Some(from), _) => Err(InvalidState(from, to))
  }

  // ---------------------------------------------------------------- one helper's table

  datatype TableError = NoSuchQuery | Refused(source: StateError)

  datatype PrepareError = WrongTarget | AlreadyRunning | NotRegistered(source: StateError)

  datatype NewQueryError = Transport | NotSet(source: StateError)

  function Lookup<K>(table: map<K, Status>, k: K): (r: Option<Status>)
  {
    if k in table then Some(table[k]) else None
  }

  function WithEntry<K>(table: map<K, Status>, k: K, e: Option<Status>): (r: map<K, Status>)
  {
    if e.Some? then table[k := e.value] else table - {k}
  }

  /** What `set_state`, `receive_inputs`, a `query_status` that finds the result, and `complete`
      leave in place of the entry `e`. */
  function AfterSet(e: Option<Status>, to: Status): (r: Option<Status>)
    requires to.Preparing? || to.AwaitingInputs?
  {
    if Transition(e, to).Ok? then Some(to) else e
  }

  function AfterInputs(e: Option<Status>): (r: Option<Status>)
  {
    if e == Some(AwaitingInputs) then Some(Running) else e
  }

  function AfterResult(e: Option<Status>): (r: Option<Status>)
  {
    if e == Some(Running) then Some(Completed) else e
  }

  function AfterComplete(e: Option<Status>): (r: Option<Status>)
  {
    match e
    case Some(Completed) => None
    case Some(Running) => Some(AwaitingCompletion)
    case _ => e
  }

  /** `prepare` up to its first critical section, which finds the entry `e`. */
  function PrepareCheck(e: Option<Status>, coordinator: bool): (r: Result<(), PrepareError>)
  {
    if coordinator then Err(WrongTarget) else if e.Some? then Err(PrepareError.AlreadyRunning) else Ok(())
  }

  /** The error of an operation that found `e` and wanted a query to run or to end. */
  function Refusal(e: Option<Status>): (r: TableError)
  {
    if e.None? then NoSuchQuery else Refused(InvalidState(e.value, Running))
  }

  /** `RunningQueries` of one helper, with the operations that hold its lock. */
  class RunningQueries {
    var queries: map<nat, Status>

    ghost function Entry(id: nat): Option<Status>
      reads this
    {
      Lookup(queries, id)
    }

    constructor ()
      ensures queries == map[]
    {
      queries := map[];
    }

    method SetState(id: nat, to: Status) returns (r: Result<(), StateError>)
      requires to.Preparing? || to.AwaitingInputs?
      modifies this
      ensures r.Ok? <==> Transition(old(Entry(id)), to).Ok?
      ensures r.Err? ==> r.error == Transition(old(Entry(id)), to).error
      ensures queries == WithEntry(old(queries), id, AfterSet(old(Entry(id)), to))
    {
      var t := Transition(Lookup(queries, id), to);
      if t.Err? {
        assert queries == WithEntry(queries, id, Lookup(queries, id));
        return Err(t.error);
      }
      queries := queries[id := t.value];
      r := Ok(());
    }

    /** `prepare`.  The two critical sections are apart: `between` is the table that the second one finds. */
    method Prepare(id: nat, coordinator: bool, between: map<nat, Status>) returns (r: Result<(), PrepareError>)
      modifies this
      ensures coordinator ==> r == Err(WrongTarget) && queries == old(queries)
      ensures !coordinator && id in old(queries) ==> r == Err(PrepareError.AlreadyRunning) && queries == old(queries)
      ensures !coordinator && id !in old(queries) ==>
        if id in between && between[id] != Preparing
        then r == Err(NotRegistered(InvalidState(between[id], AwaitingInputs))) && queries == between
        else r == Ok(()) && queries == between[id := AwaitingInputs]
    {
      var check := PrepareCheck(Lookup(queries, id), coordinator);
      if check.Err? {
        return check;
      }
      queries := between;
      var t := SetState(id, AwaitingInputs);
      assert id in between ==> between[id := between[id]] == between;
      r := if t.Ok? then Ok(()) else Err(NotRegistered(t.error));
    }

    /** `new_query`.  `joined` says whether both requests were accepted, and `between` is the table
        found after that; a call that fails from then on removes whatever entry is there. */
    method NewQuery(id: nat, joined: bool, between: map<nat, Status>) returns (r: Result<(), NewQueryError>)
      modifies this
      ensures id in old(queries) ==> r == Err(NotSet(StateError.AlreadyRunning)) && queries == old(queries)
      ensures id !in old(queries) && !joined ==> r == Err(Transport) && queries == between - {id}
      ensures id !in old(queries) && joined ==>
        if id in between && between[id] != Preparing
        then r == Err(NotSet(InvalidState(between[id], AwaitingInputs))) && queries == between - {id}
        else r == Ok(()) && queries == between[id := AwaitingInputs]
    {
      var t := SetState(id, Preparing);
      if t.Err? {
        assert queries == old(queries);
        return Err(NotSet(t.error));
      }
      queries := between;
      if !joined {
        var _ := Remove(id);
        return Err(Transport);
      }
      t := SetState(id, AwaitingInputs);
      if t.Err? {
        var _ := Remove(id);
        return Err(NotSet(t.error));
      }
      r := Ok(());
    }

    /** The drop of a `RemoveQuery` guard: whatever entry is there goes. */
    method Remove(id: nat) returns (found: bool)
      modifies this
      ensures found == (id in old(queries)) && queries == WithEntry(old(queries), id, None)
    {
      found := id in queries;
      queries := queries - {id};
    }

    method ReceiveInputs(id: nat) returns (r: Result<(), TableError>)
      modifies this
      ensures r.Ok? <==> old(Entry(id)) == Some(AwaitingInputs)
      ensures r.Err? ==> r.error == Refusal(old(Entry(id)))
      ensures queries == WithEntry(old(queries), id, AfterInputs(old(Entry(id))))
    {
      if id !in queries {
        assert queries == queries - {id};
        return Err(NoSuchQuery);
      }
      var state := queries[id];
      queries := queries - {id};
      if state.AwaitingInputs? {
        queries := queries[id := Running];
        return Ok(());
      }
      queries := queries[id := state];
      return Err(Refused(InvalidState(state, Running)));
    }

    /** `ready` says whether the running query has a result. */
    method QueryStatus(id: nat, ready: bool) returns (r: Result<Status, TableError>)
      modifies this
      ensures r == if Entry(id).None? then Err(NoSuchQuery) else Ok(Entry(id).value)
      ensures queries == if ready then WithEntry(old(queries), id, AfterResult(old(Entry(id)))) else old(queries)
    {
      if id !in queries {
        assert queries == queries - {id};
        return Err(NoSuchQuery);
      }
      var state := queries[id];
      queries := queries - {id};
      if state.Running? && ready {
        state := Completed;
      }
      queries := queries[id := state];
      assert !ready ==> queries == old(queries);
      return Ok(state);
    }

    /** The first critical section of `complete`; `Ok(true)` says that a guard will remove the entry later. */
    method BeginComplete(id: nat) returns (r: Result<bool, TableError>)
      modifies this
      ensures r.Ok? <==> old(Entry(id)) == Some(Completed) || old(Entry(id)) == Some(Running)
      ensures r.Ok? ==> r.value == (old(Entry(id)) == Some(Running))
      ensures r.Err? ==> r.error == Refusal(old(Entry(id)))
      ensures queries == WithEntry(old(queries), id, AfterComplete(old(Entry(id))))
    {
      if id !in queries {
        assert queries == queries - {id};
        return Err(NoSuchQuery);
      }
      var state := queries[id];
      queries := queries - {id};
      match state
      case Completed => return Ok(false);
      case Running =>
        queries := queries[id := AwaitingCompletion];
        return Ok(true);
      case _ =>
        queries := queries[id := state];
        return Err(Refused(InvalidState(state, Running)));
    }
  }

  // ---------------------------------------------------------------- three helpers

  datatype Helper = A | B | C

  /** A `prepare` request of a call at one of the other helpers. */
  datatype Prepare = Sent | Checked | Accepted | Rejected

  datatype Phase = Waiting | Succeeded | Failed

  /** A `new_query` call that registered itself, with its two requests. */
  datatype Call = Call(origin: Helper, phase: Phase, requests: map<Helper, Prepare>)

  function RequestAt(c: Call, g: Helper): (r: Prepare) { if g in c.requests then c.requests[g] else Sent }

  /** `successes` counts the calls that succeeded since a completion last removed an entry. */
  datatype State = State(entries: map<Helper, Status>, calls: seq<Call>, completing: multiset<Helper>, successes: nat)

  function EntryAt(s: State, h: Helper): (r: Option<Status>) { Lookup(s.entries, h) }

  const INIT := State(map[], [], multiset{}, 0)

  datatype Step =
    | New(h: Helper)                 // new_query: set_state(Preparing)
    | Check(c: nat, g: Helper)       // prepare: status()
    | Accept(c: nat, g: Helper)      // prepare: set_state(AwaitingInputs)
    | Finalise(c: nat)               // new_query: set_state(AwaitingInputs) after both accepted
    | Abort(c: nat)                  // new_query: a request was rejected or lost
    | Inputs(h: Helper)
    | Finish(h: Helper)              // query_status sees the result
    | Complete(h: Helper)
    | DropCompletion(h: Helper)      // the CompletionHandle's guard

  function SetEntry(s: State, h: Helper, e: Option<Status>): (r: State)
  {
    s.(entries := WithEntry(s.entries, h, e))
  }

  function Put(s: State, h: Helper, status: Status): (r: State) { SetEntry(s, h, Some(status)) }

  function Remove(s: State, h: Helper): (r: State) { SetEntry(s, h, None) }

  function SetCall(s: State, c: nat, call: Call): (r: State)
    requires c < |s.calls|
  {
    s.(calls := s.calls[c := call])
  }

  function Answer(s: State, c: nat, g: Helper, answer: Prepare): (r: State)
    requires c < |s.calls|
  {
    SetCall(s, c, s.calls[c].(requests := s.calls[c].requests[g := answer]))
  }

  predicate AcceptedByAll(c: Call)
  {
    forall g: Helper :: g != c.origin ==> RequestAt(c, g).Accepted?
  }

  function DoFinalise(s: State, c: nat): (r: State)
    requires c < |s.calls|
  {
    var call := s.calls[c];
    if Transition(EntryAt(s, call.origin), AwaitingInputs).Ok? then
      SetCall(Put(s, call.origin, AwaitingInputs), c, call.(phase := Succeeded)).(successes := s.successes + 1)
    else SetCall(Remove(s, call.origin), c, call.(phase := Failed))
  }

  function DoComplete(s: State, h: Helper): (r: State)
  {
    var e := EntryAt(s, h);
    SetEntry(s, h, AfterComplete(e)).(
      successes := if e == Some(Completed) then 0 else s.successes,
      completing := if e == Some(Running) then s.completing + multiset{h} else s.completing)
  }

  predicate IsWaiting(s: State, c: nat) { c < |s.calls| && s.calls[c].phase.Waiting? }

  /** A step that does not apply does nothing. */
  function Do(s: State, step: Step): (r: State)
  {
    match step
    case New(h) =>
      if Transition(EntryAt(s, h), Preparing).Ok?
      then Put(s, h, Preparing).(calls := s.calls + [Call(h, Waiting, map[])]) else s
    case Check(c, g) =>
      if c < |s.calls| && g != s.calls[c].origin && RequestAt(s.calls[c], g).Sent?
      then Answer(s, c, g, if PrepareCheck(EntryAt(s, g), false).Ok? then Checked else Rejected) else s
    case Accept(c, g) =>
      if c < |s.calls| && g != s.calls[c].origin && RequestAt(s.calls[c], g).Checked? then
        if Transition(EntryAt(s, g), AwaitingInputs).Ok?
        then Answer(Put(s, g, AwaitingInputs), c, g, Accepted) else Answer(s, c, g, Rejected)
      else s
    case Finalise(c) => if IsWaiting(s, c) && AcceptedByAll(s.calls[c]) then DoFinalise(s, c) else s
    case Abort(c) =>
      if IsWaiting(s, c) then SetCall(Remove(s, s.calls[c].origin), c, s.calls[c].(phase := Failed)) else s
    case Inputs(h) => SetEntry(s, h, AfterInputs(EntryAt(s, h)))
    case Finish(h) => SetEntry(s, h, AfterResult(EntryAt(s, h)))
    case Complete(h) => DoComplete(s, h)
    case DropCompletion(h) =>
      if h in s.completing then Remove(s, h).(completing := s.completing - multiset{h}, successes := 0) else s
  }

  predicate IsQueryStep(step: Step) { step.Inputs? || step.Finish? || step.Complete? || step.DropCompletion? }

  /** What the steps of a query do to the entry of its helper; the rest of the tables stays. */
  lemma QueryMoves(s: State, step: Step)
    requires IsQueryStep(step)
    ensures
      var s', e := Do(s, step), EntryAt(s, step.h);
      && s'.calls == s.calls && (s'.successes == s.successes || s'.successes == 0)
      && s'.entries - {step.h} == s.entries - {step.h}
      && (step.Inputs? ==> EntryAt(s', step.h) == AfterInputs(e) && s'.completing == s.completing)
      && (step.Finish? ==> EntryAt(s', step.h) == AfterResult(e) && s'.completing == s.completing)
      && (step.Complete? ==> EntryAt(s', step.h) == AfterComplete(e) && (e == Some(Running) || step.h in s.completing ==> step.h in s'.completing))
      && (step.DropCompletion? ==> EntryAt(s', step.h) == if step.h in s.completing then None else e)
  {
  }

  /** What the steps of a call do to an entry. */
  lemma CallMoves(s: State, step: Step, g: Helper)
    requires !IsQueryStep(step)
    ensures
      var s', e' := Do(s, step), EntryAt(Do(s, step), g);
      && s'.completing == s.completing
      && (e' == EntryAt(s, g) || e'.None? || e' == Some(AwaitingInputs) || (e' == Some(Preparing) && step == New(g)))
  {
    hide AcceptedByAll, Transition;
  }

  /** The step is a completion that removes the entry of a helper whose own call is still waiting. */
  ghost predicate Orphans(s: State, step: Step)
  {
    && (step.Complete? || step.DropCompletion?)
    && step.h !in Do(s, step).entries
    && exists c: nat :: IsWaiting(s, c) && s.calls[c].origin == step.h
  }

  // ---------------------------------------------------------------- the invariant

  /** A waiting call's helper is occupied, and has no other waiting call. */
  ghost predicate Occupied(s: State)
  {
    && (forall c: nat :: IsWaiting(s, c) ==> s.calls[c].origin in s.entries)
    && (forall c: nat, d: nat :: IsWaiting(s, c) && IsWaiting(s, d) && s.calls[c].origin == s.calls[d].origin ==> c == d)
  }

  /** The call can still succeed: nobody has overwritten its entry. */
  ghost predicate Intact(s: State, c: nat)
  {
    IsWaiting(s, c) && EntryAt(s, s.calls[c].origin) == Some(Preparing)
  }

  /** Two calls that can both still succeed have not accepted each other. */
  ghost predicate NotMutual(s: State)
  {
    forall c: nat, d: nat :: Intact(s, c) && Intact(s, d) && s.calls[c].origin != s.calls[d].origin ==>
      !(RequestAt(s.calls[c], s.calls[d].origin).Accepted? && RequestAt(s.calls[d], s.calls[c].origin).Accepted?)
  }

  /** Once a call has succeeded, some helper blocks every other call: it is occupied, no call waits
      there, and no call that can still succeed has been accepted there. */
  ghost predicate Blocks(s: State, h: Helper)
  {
    && h in s.entries && !s.entries[h].Preparing?
    && (forall c: nat :: IsWaiting(s, c) ==> s.calls[c].origin != h)
    && (forall c: nat :: Intact(s, c) ==> !RequestAt(s.calls[c], h).Accepted?)
  }

  ghost predicate Inv(s: State)
  {
    && Occupied(s) && NotMutual(s) && s.successes <= 1
    && (s.successes == 1 ==> exists h :: Blocks(s, h))
  }

  lemma StepHolds(s: State, step: Step)
    requires Inv(s) && !Orphans(s, step)
    ensures Inv(Do(s, step))
  {
    match step
    case New(h) => NewHolds(s, h);
    case Check(c, g) =>
      if Do(s, step) != s {
        RejectedHolds(s, c, g, if PrepareCheck(EntryAt(s, g), false).Ok? then Checked else Rejected);
      }
    case Accept(c, g) => AcceptHolds(s, c, g);
    case Finalise(c) => FinaliseHolds(s, c);
    case Abort(c) => AbortHolds(s, c);
    case _ => QueryHolds(s, step);
  }

  lemma NewHolds(s: State, h: Helper)
    requires Inv(s)
    ensures Inv(Do(s, New(h)))
  {
    var s', n := Do(s, New(h)), |s.calls|;
    assert forall c: nat {:trigger IsWaiting(s', c)} :: IsWaiting(s', c) ==> (IsWaiting(s, c) && s'.calls[c] == s.calls[c]) || (c == n && s'.calls[c].requests == map[]);
    assert forall c: nat {:trigger Intact(s', c)} :: Intact(s', c) && c != n ==> Intact(s, c);
    if s.successes == 1 {
      var b :| Blocks(s, b);
      assert Blocks(s', b);
    }
  }

  /** A request that is not accepted changes nothing the invariant speaks of. */
  lemma RejectedHolds(s: State, c: nat, g: Helper, answer: Prepare)
    requires Inv(s) && c < |s.calls| && !answer.Accepted?
    ensures Inv(Answer(s, c, g, answer))
  {
    var s' := Answer(s, c, g, answer);
    assert forall d: nat {:trigger IsWaiting(s', d)} :: IsWaiting(s', d) ==> IsWaiting(s, d) && s'.calls[d].origin == s.calls[d].origin;
    assert forall d: nat {:trigger Intact(s', d)} :: Intact(s', d) ==> Intact(s, d);
    forall d: nat, h | Intact(s', d) && RequestAt(s'.calls[d], h).Accepted?
      ensures RequestAt(s.calls[d], h).Accepted?
    {
    }
    assert NotMutual(s');
    if s.successes == 1 {
      var b :| Blocks(s, b);
      assert Blocks(s', b);
    }
  }

  lemma AcceptHolds(s: State, c: nat, g: Helper)
    requires Inv(s)
    ensures Inv(Do(s, Accept(c, g)))
  {
    if c < |s.calls| && g != s.calls[c].origin && RequestAt(s.calls[c], g).Checked? {
      if Transition(EntryAt(s, g), AwaitingInputs).Ok? {
        AcceptedHolds(s, c, g);
      } else {
        RejectedHolds(s, c, g, Rejected);
      }
    }
  }

  /** Accepting overwrites the helper's own call, if any, so that call can no longer succeed. */
  lemma AcceptedHolds(s: State, c: nat, g: Helper)
    requires Inv(s) && c < |s.calls| && Transition(EntryAt(s, g), AwaitingInputs).Ok?
    ensures Inv(Answer(Put(s, g, AwaitingInputs), c, g, Accepted))
    ensures forall d: nat :: IsWaiting(s, d) && s.calls[d].origin == g ==>
      !Intact(Answer(Put(s, g, AwaitingInputs), c, g, Accepted), d)
  {
    var s' := Answer(Put(s, g, AwaitingInputs), c, g, Accepted);
    assert forall d: nat :: IsWaiting(s', d) <==> IsWaiting(s, d);
    assert forall d: nat :: Intact(s', d) ==> Intact(s, d) && s.calls[d].origin != g;
    assert forall d: nat, h: Helper :: d < |s.calls| && h != g ==> RequestAt(s'.calls[d], h) == RequestAt(s.calls[d], h);
    assert forall d: nat :: d < |s.calls| ==> s'.calls[d].origin == s.calls[d].origin;
    if s.successes == 1 {
      var b :| Blocks(s, b);
      assert b != g;
      assert Blocks(s', b);
    }
  }

  /** A call that ends without success is aborted. */
  lemma FinaliseHolds(s: State, c: nat)
    requires Inv(s)
    ensures Inv(Do(s, Finalise(c)))
  {
    if IsWaiting(s, c) && AcceptedByAll(s.calls[c]) {
      if Transition(EntryAt(s, s.calls[c].origin), AwaitingInputs).Ok? {
        SuccessHolds(s, c);
      } else {
        assert Do(s, Finalise(c)) == Do(s, Abort(c));
        AbortHolds(s, c);
      }
    }
  }

  /** The entry of a waiting call that may move on is its own, and nobody else has succeeded. */
  lemma SuccessHolds(s: State, c: nat)
    requires Inv(s) && IsWaiting(s, c) && AcceptedByAll(s.calls[c])
    requires Transition(EntryAt(s, s.calls[c].origin), AwaitingInputs).Ok?
    ensures Inv(DoFinalise(s, c))
  {
    var s', h := DoFinalise(s, c), s.calls[c].origin;
    assert Intact(s, c);
    assert forall b :: !Blocks(s, b);
    assert forall d: nat {:trigger IsWaiting(s', d)} :: IsWaiting(s', d) ==> d != c && IsWaiting(s, d) && s'.calls[d] == s.calls[d];
    assert forall d: nat {:trigger Intact(s', d)} :: Intact(s', d) ==> Intact(s, d) && s.calls[d].origin != h;
    forall d: nat | Intact(s', d)
      ensures !RequestAt(s'.calls[d], h).Accepted?
    {
      assert Intact(s, d) && RequestAt(s.calls[c], s.calls[d].origin).Accepted?;
    }
    assert Blocks(s', h);
  }

  lemma AbortHolds(s: State, c: nat)
    requires Inv(s)
    ensures Inv(Do(s, Abort(c)))
  {
    var s' := Do(s, Abort(c));
    assert forall d: nat :: IsWaiting(s', d) ==> IsWaiting(s, d);
    assert forall d: nat :: Intact(s', d) ==> Intact(s, d);
    if s.successes == 1 {
      var b :| Blocks(s, b);
      assert Blocks(s', b);
    }
  }

  /** A query step that leaves the entries of waiting calls in place. */
  lemma QueryHolds(s: State, step: Step)
    requires Inv(s) && IsQueryStep(step) && !Orphans(s, step)
    ensures Inv(Do(s, step))
  {
    var s' := Do(s, step);
    QueryMoves(s, step);
    hide Do;
    assert forall d: nat {:trigger IsWaiting(s', d)} :: IsWaiting(s', d) ==> IsWaiting(s, d);
    forall d: nat | IsWaiting(s, d)
      ensures s.calls[d].origin in s'.entries
    {
      assert s.calls[d].origin != step.h ==> s.calls[d].origin in s'.entries - {step.h};
    }
    forall d: nat | Intact(s', d)
      ensures Intact(s, d)
    {
      assert s.calls[d].origin != step.h ==> EntryAt(s', s.calls[d].origin) == EntryAt(s, s.calls[d].origin);
    }
    if s'.successes == 1 {
      var b :| Blocks(s, b);
      assert b != step.h ==> b in s'.entries - {step.h} && s'.entries[b] == s.entries[b];
      assert Blocks(s', b);
    }
  }

  // ---------------------------------------------------------------- runs

  function Run(s: State, steps: seq<Step>): (r: State)
    decreases steps
  {
    if steps == [] then s else Run(Do(s, steps[0]), steps[1..])
  }

  function Exec(steps: seq<Step>): (s: State) { Run(INIT, steps) }

  /** No completion in the run removes the entry of a helper whose own `new_query` is still waiting. */
  ghost predicate OrphanFree(s: State, steps: seq<Step>)
    decreases steps
  {
    steps == [] || (!Orphans(s, steps[0]) && OrphanFree(Do(s, steps[0]), steps[1..]))
  }

  lemma {:induction false} RunHolds(s: State, steps: seq<Step>)
    requires Inv(s) && OrphanFree(s, steps)
    ensures Inv(Run(s, steps))
    decreases steps
  {
    if steps != [] {
      StepHolds(s, steps[0]);
      RunHolds(Do(s, steps[0]), steps[1..]);
    }
  }

  /** A waiting call whose entry was overwritten stays without it, or fails. */
  lemma OverwrittenStaysLost(s: State, step: Step, d: nat)
    requires Occupied(s) && IsWaiting(s, d) && !Intact(s, d) && !Orphans(s, step)
    ensures
      var s' := Do(s, step);
      d < |s'.calls| && (s'.calls[d].phase.Failed? || (IsWaiting(s', d) && !Intact(s', d)))
  {
    var h := s.calls[d].origin;
    assert EntryAt(s, h).Some? && EntryAt(s, h) != Some(Preparing);
    assert step.Finalise? || step.Abort? ==> (IsWaiting(s, step.c) && step.c != d ==> s.calls[step.c].origin != h);
    if IsQueryStep(step) {
      QueryLeavesLost(s, step, d);
    } else {
      hide Occupied, Orphans;
      CallLeavesLost(s, step, d);
    }
  }

  lemma QueryLeavesLost(s: State, step: Step, d: nat)
    requires IsWaiting(s, d) && IsQueryStep(step) && !Orphans(s, step)
    requires EntryAt(s, s.calls[d].origin).Some? && EntryAt(s, s.calls[d].origin) != Some(Preparing)
    ensures IsWaiting(Do(s, step), d) && !Intact(Do(s, step), d)
  {
    var h := s.calls[d].origin;
    QueryMoves(s, step);
    hide Do;
    assert h != step.h ==> EntryAt(Do(s, step), h) == EntryAt(s, h);
  }

  lemma CallLeavesLost(s: State, step: Step, d: nat)
    requires IsWaiting(s, d) && !IsQueryStep(step)
    requires EntryAt(s, s.calls[d].origin).Some? && EntryAt(s, s.calls[d].origin) != Some(Preparing)
    requires step.Finalise? || step.Abort? ==> (IsWaiting(s, step.c) && step.c != d ==> s.calls[step.c].origin != s.calls[d].origin)
    ensures
      var s' := Do(s, step);
      d < |s'.calls| && (s'.calls[d].phase.Failed? || (IsWaiting(s', d) && !Intact(s', d)))
  {
    hide AcceptedByAll;
  }

  lemma FailedStays(s: State, step: Step, d: nat)
    requires d < |s.calls| && s.calls[d].phase.Failed?
    ensures d < |Do(s, step).calls| && Do(s, step).calls[d].phase.Failed?
  {
    hide AcceptedByAll, Transition;
  }

  /** So accepting a request on a helper whose own call waits is the end of that call. */
  lemma {:induction false} OverwrittenNeverSucceeds(s: State, steps: seq<Step>, d: nat)
    requires Inv(s) && OrphanFree(s, steps) && d < |s.calls|
    requires s.calls[d].phase.Failed? || (IsWaiting(s, d) && !Intact(s, d))
    ensures var s' := Run(s, steps); d < |s'.calls| && !s'.calls[d].phase.Succeeded?
    decreases steps
  {
    if steps != [] {
      StepHolds(s, steps[0]);
      assert Occupied(s);
      hide Do, Inv, Occupied, Orphans, Intact;
      if IsWaiting(s, d) {
        OverwrittenStaysLost(s, steps[0], d);
      } else {
        FailedStays(s, steps[0], d);
      }
      OverwrittenNeverSucceeds(Do(s, steps[0]), steps[1..], d);
    }
  }

  /** At most one coordinator: between completions at most one `new_query` succeeds, on whatever
      helpers the calls were made. */
  lemma AtMostOneCoordinator(steps: seq<Step>)
    requires OrphanFree(INIT, steps)
    ensures Exec(steps).successes <= 1
  {
    RunHolds(INIT, steps);
  }

  ghost predicate NoCompletion(steps: seq<Step>)
  {
    forall k :: 0 <= k < |steps| ==> !steps[k].Complete? && !steps[k].DropCompletion?
  }

  lemma {:induction false} NoCompletionOrphansNothing(s: State, steps: seq<Step>)
    requires NoCompletion(steps)
    ensures OrphanFree(s, steps)
    decreases steps
  {
    if steps != [] {
      NoCompletionOrphansNothing(Do(s, steps[0]), steps[1..]);
    }
  }

  /** In particular in a run without completions, which cannot orphan anything. */
  lemma AtMostOneWithoutCompletion(steps: seq<Step>)
    requires NoCompletion(steps)
    ensures Exec(steps).successes <= 1
  {
    NoCompletionOrphansNothing(INIT, steps);
    AtMostOneCoordinator(steps);
  }
}
