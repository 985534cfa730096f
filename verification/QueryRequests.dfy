/** What `prepare` in `query/processor.rs` promises the helper it is sent to: a helper that has an
    entry refuses, and no entry is written on a request that never found the helper free. */
module QueryRequests {
  import opened Wrappers
  import opened QueryProtocol
  import opened QueryOrphans

  // ---------------------------------------------------------------- one step

  /** How a request moves: it is checked against the table it finds, and only then accepted; an answer is final. */
  ghost predicate RequestMoves(s: State, c: nat, g: Helper, r: Prepare, r': Prepare, step: Step)
  {
    match r
    case Sent => r' == Sent || (step == Check(c, g) && r' == if g in s.entries then Rejected else Checked)
    case Checked => r' == Checked || (step == Accept(c, g) && (r' == Accepted || r' == Rejected))
    case Accepted => r' == Accepted
    case Rejected => r' == Rejected
  }

  lemma CallHistory(s: State, step: Step, c: nat, g: Helper)
    requires c < |s.calls|
    ensures
      var s' := Do(s, step);
      && c < |s'.calls| && s'.calls[c].origin == s.calls[c].origin
      && RequestMoves(s, c, g, RequestAt(s.calls[c], g), RequestAt(s'.calls[c], g), step)
  {
    if step.Check? || step.Accept? {
      AnswerHistory(s, step, c, g);
    } else {
      OtherStepsAnswerNothing(s, step, c);
    }
  }

  lemma AnswerHistory(s: State, step: Step, c: nat, g: Helper)
    requires c < |s.calls| && (step.Check? || step.Accept?)
    ensures
      var s' := Do(s, step);
      && c < |s'.calls| && s'.calls[c].origin == s.calls[c].origin
      && RequestMoves(s, c, g, RequestAt(s.calls[c], g), RequestAt(s'.calls[c], g), step)
  {
    hide Do, Answer, RequestAt, Put;
    var d, h := step.c, step.g;
    if Do(s, step) != s {
      if step.Check? {
        CheckDoes(s, d, h);
        AnswerAt(s, d, h, if h in s.entries then Rejected else Checked, c, g);
      } else {
        AcceptDoes(s, d, h);
        AnswerAt(s, d, h, Rejected, c, g);
        PutKeepsCalls(s, h);
        AnswerAt(Put(s, h, AwaitingInputs), d, h, Accepted, c, g);
      }
    }
  }

  lemma CheckDoes(s: State, d: nat, h: Helper)
    requires Do(s, Check(d, h)) != s
    ensures d < |s.calls| && RequestAt(s.calls[d], h) == Sent
    ensures Do(s, Check(d, h)) == Answer(s, d, h, if h in s.entries then Rejected else Checked)
  {
    hide Answer;
  }

  lemma AcceptDoes(s: State, d: nat, h: Helper)
    requires Do(s, Accept(d, h)) != s
    ensures d < |s.calls| && |Put(s, h, AwaitingInputs).calls| == |s.calls| && RequestAt(s.calls[d], h) == Checked
    ensures Do(s, Accept(d, h)) == Answer(s, d, h, Rejected)
         || Do(s, Accept(d, h)) == Answer(Put(s, h, AwaitingInputs), d, h, Accepted)
  {
    hide Answer;
  }

  lemma PutKeepsCalls(s: State, h: Helper)
    ensures Put(s, h, AwaitingInputs).calls == s.calls
  {
  }

  lemma AnswerAt(s: State, d: nat, h: Helper, answer: Prepare, c: nat, g: Helper)
    requires d < |s.calls| && c < |s.calls|
    ensures
      var s' := Answer(s, d, h, answer);
      && |s'.calls| == |s.calls| && s'.calls[c].origin == s.calls[c].origin
      && RequestAt(s'.calls[c], g) == if (d, h) == (c, g) then answer else RequestAt(s.calls[c], g)
  {
  }

  lemma OtherStepsAnswerNothing(s: State, step: Step, c: nat)
    requires c < |s.calls| && !step.Check? && !step.Accept?
    ensures
      var s' := Do(s, step);
      c < |s'.calls| && s'.calls[c].origin == s.calls[c].origin && s'.calls[c].requests == s.calls[c].requests
  {
    hide AcceptedByAll, Transition, WithEntry, Lookup, AfterInputs, AfterResult, AfterComplete;
    if IsQueryStep(step) {
      hide Do;
      QueryMoves(s, step);
    }
  }

  /** A call ends once: it succeeds only with both requests accepted, and its outcome is final. */
  lemma OutcomeHistory(s: State, step: Step, c: nat)
    requires c < |s.calls|
    ensures
      var p, p' := s.calls[c].phase, Do(s, step).calls[c].phase;
      && (p != Waiting ==> p' == p)
      && (p == Waiting && p' == Succeeded ==> step == Finalise(c) && AcceptedByAll(s.calls[c]))
  {
    hide AcceptedByAll, Transition, WithEntry, Lookup, AfterInputs, AfterResult, AfterComplete;
    if IsQueryStep(step) {
      hide Do;
      QueryMoves(s, step);
    }
  }

  lemma NewCalls(s: State, step: Step, c: nat)
    requires |s.calls| <= c < |Do(s, step).calls|
    ensures step.New? && Do(s, step).calls[c] == Call(step.h, Waiting, map[])
  {
    hide AcceptedByAll, Transition, WithEntry, Lookup, AfterInputs, AfterResult, AfterComplete;
  }

  lemma EntryAfter(table: map<Helper, Status>, h: Helper, e: Option<Status>, g: Helper)
    ensures Lookup(WithEntry(table, h, e), g) == if g == h then e else Lookup(table, g)
  {
  }

  /** A call that ends without success leaves no entry at its helper. */
  lemma FailureLeavesNothing(s: State, step: Step, c: nat)
    requires IsWaiting(s, c) && !IsWaiting(Do(s, step), c)
    ensures c < |Do(s, step).calls|
    ensures
      var s' := Do(s, step);
      if s'.calls[c].phase == Failed then s.calls[c].origin !in s'.entries
      else s'.calls[c].phase == Succeeded && EntryAt(s', s.calls[c].origin) == Some(AwaitingInputs)
  {
    hide AcceptedByAll, Transition, WithEntry, AfterInputs, AfterResult, AfterComplete;
    var h := s.calls[c].origin;
    EntryAfter(s.entries, h, None, h);
    EntryAfter(s.entries, h, Some(AwaitingInputs), h);
  }

  /** The life of an entry: what can become of it, and in which step. */
  ghost predicate EntryMoves(s: State, g: Helper, e: Option<Status>, e': Option<Status>, step: Step)
  {
    || e' == e
    || (step == New(g) && e == None && e' == Some(Preparing))
    || (IsGrant(s, step, g) && (e == None || e == Some(Preparing)) && e' == Some(AwaitingInputs))
    || (step == Inputs(g) && e == Some(AwaitingInputs) && e' == Some(Running))
    || (step == Finish(g) && e == Some(Running) && e' == Some(Completed))
    || (step == Complete(g) && e == Some(Running) && e' == Some(AwaitingCompletion))
    || (step == Complete(g) && e == Some(Completed) && e' == None)
    || (step == DropCompletion(g) && g in s.completing && e' == None)
    || (IsOwn(s, step, g) && e' == None)
  }

  /** The step ends a call that waits at `g`. */
  ghost predicate IsOwn(s: State, step: Step, g: Helper)
  {
    (step.Finalise? || step.Abort?) && IsWaiting(s, step.c) && s.calls[step.c].origin == g
  }

  /** The step is the second half of a `prepare` at `g`, or the success of a call that waits there. */
  ghost predicate IsGrant(s: State, step: Step, g: Helper)
  {
    (step.Accept? && step.g == g) || (step.Finalise? && IsOwn(s, step, g) && AcceptedByAll(s.calls[step.c]))
  }

  lemma EntryLife(s: State, step: Step, g: Helper)
    ensures EntryMoves(s, g, EntryAt(s, g), EntryAt(Do(s, step), g), step)
  {
    if IsQueryStep(step) {
      QueryEntryLife(s, step, g);
    } else {
      CallEntryLife(s, step, g);
    }
  }

  /** The steps of a query never fail to move an entry that is ready for them. */
  lemma EntryAdvances(s: State, g: Helper)
    ensures EntryAt(s, g) == None ==> EntryAt(Do(s, New(g)), g) == Some(Preparing)
    ensures EntryAt(s, g) == Some(AwaitingInputs) ==> EntryAt(Do(s, Inputs(g)), g) == Some(Running)
    ensures EntryAt(s, g) == Some(Running) ==> EntryAt(Do(s, Finish(g)), g) == Some(Completed)
    ensures EntryAt(s, g) == Some(Running) ==> EntryAt(Do(s, Complete(g)), g) == Some(AwaitingCompletion)
    ensures EntryAt(s, g) == Some(Completed) ==> EntryAt(Do(s, Complete(g)), g) == None
  {
  }

  lemma QueryEntryLife(s: State, step: Step, g: Helper)
    requires IsQueryStep(step)
    ensures EntryMoves(s, g, EntryAt(s, g), EntryAt(Do(s, step), g), step)
  {
    QueryMoves(s, step);
    hide Do, IsGrant, IsOwn, WithEntry;
    if g != step.h {
      SameElsewhere(s.entries, Do(s, step).entries, step.h, g);
    }
  }

  lemma CallEntryLife(s: State, step: Step, g: Helper)
    requires !IsQueryStep(step)
    ensures EntryMoves(s, g, EntryAt(s, g), EntryAt(Do(s, step), g), step)
  {
    hide AcceptedByAll, WithEntry, Lookup, AfterInputs, AfterResult, AfterComplete;
    match step
    case New(h) => EntryAfter(s.entries, h, Some(Preparing), g);
    case Check(c, h) =>
    case Accept(c, h) => EntryAfter(s.entries, h, Some(AwaitingInputs), g);
    case Finalise(c) =>
      if c < |s.calls| {
        EntryAfter(s.entries, s.calls[c].origin, Some(AwaitingInputs), g);
        EntryAfter(s.entries, s.calls[c].origin, None, g);
      }
    case Abort(c) =>
      if c < |s.calls| {
        EntryAfter(s.entries, s.calls[c].origin, None, g);
      }
  }

  // ---------------------------------------------------------------- a refused request

  ghost predicate SuccessNeedsAll(s: State)
  {
    forall c: nat :: c < |s.calls| && s.calls[c].phase == Succeeded ==> AcceptedByAll(s.calls[c])
  }

  lemma SuccessHistory(s: State, step: Step)
    requires SuccessNeedsAll(s)
    ensures SuccessNeedsAll(Do(s, step))
  {
    hide Do;
    var s' := Do(s, step);
    forall c: nat | c < |s'.calls| && s'.calls[c].phase == Succeeded
      ensures AcceptedByAll(s'.calls[c])
    {
      if c < |s.calls| {
        OutcomeHistory(s, step, c);
        forall g: Helper | g != s'.calls[c].origin
          ensures RequestAt(s'.calls[c], g).Accepted?
        {
          CallHistory(s, step, c, g);
        }
      } else {
        NewCalls(s, step, c);
      }
    }
  }

  lemma {:induction false} SuccessNeverWithout(s: State, steps: seq<Step>)
    requires SuccessNeedsAll(s)
    ensures SuccessNeedsAll(Run(s, steps))
    decreases steps
  {
    hide Do, SuccessNeedsAll;
    if steps != [] {
      SuccessHistory(s, steps[0]);
      SuccessNeverWithout(Do(s, steps[0]), steps[1..]);
    }
  }

  lemma {:induction false} RefusalIsFinal(s: State, steps: seq<Step>, c: nat, g: Helper)
    requires c < |s.calls| && RequestAt(s.calls[c], g) == Rejected
    ensures
      var s' := Run(s, steps);
      c < |s'.calls| && s'.calls[c].origin == s.calls[c].origin && RequestAt(s'.calls[c], g) == Rejected
    decreases steps
  {
    hide Do;
    if steps != [] {
      CallHistory(s, steps[0], c, g);
      RefusalIsFinal(Do(s, steps[0]), steps[1..], c, g);
    }
  }

  /** A request that is checked while the helper has an entry is rejected without touching any table,
      and its call never succeeds, however the run goes on. */
  lemma BusyHelperRefuses(steps: seq<Step>, c: nat, g: Helper, more: seq<Step>)
    requires c < |Exec(steps).calls| && g != Exec(steps).calls[c].origin
    requires RequestAt(Exec(steps).calls[c], g) == Sent && g in Exec(steps).entries
    ensures
      var s, s', s'' := Exec(steps), Exec(steps + [Check(c, g)]), Exec(steps + [Check(c, g)] + more);
      && s'.entries == s.entries && c < |s'.calls| && RequestAt(s'.calls[c], g) == Rejected
      && c < |s''.calls| && s''.calls[c].phase != Succeeded
  {
    var s := Exec(steps);
    var s' := Do(s, Check(c, g));
    assert s'.entries == s.entries && c < |s'.calls| && RequestAt(s'.calls[c], g) == Rejected;
    assert s'.calls[c].origin == s.calls[c].origin;
    RunSplits(INIT, steps, [Check(c, g)]);
    RunOne(s, Check(c, g));
    RunSplits(INIT, steps + [Check(c, g)], more);
    hide Do, Run;
    assert SuccessNeedsAll(INIT);
    SuccessNeverWithout(INIT, steps + [Check(c, g)] + more);
    RefusalIsFinal(s', more, c, g);
  }

  // ---------------------------------------------------------------- a granted request

  /** At some moment of the run, after the request was sent, the helper had no entry. */
  ghost predicate WasVacant(steps: seq<Step>, c: nat, g: Helper)
  {
    exists j: nat :: j <= |steps| && VacantAt(steps, j, c, g)
  }

  ghost predicate VacantAt(steps: seq<Step>, j: nat, c: nat, g: Helper)
    requires j <= |steps|
  {
    var s := Exec(steps[..j]);
    c < |s.calls| && RequestAt(s.calls[c], g) == Sent && g !in s.entries
  }

  lemma VacantBefore(steps: seq<Step>, step: Step, c: nat, g: Helper)
    requires WasVacant(steps, c, g)
    ensures WasVacant(steps + [step], c, g)
  {
    hide Exec;
    var j: nat :| j <= |steps| && VacantAt(steps, j, c, g);
    assert (steps + [step])[..j] == steps[..j];
    assert VacantAt(steps + [step], j, c, g);
  }

  lemma {:induction false} CheckedWasVacant(steps: seq<Step>, c: nat, g: Helper)
    requires c < |Exec(steps).calls|
    requires RequestAt(Exec(steps).calls[c], g) == Checked || RequestAt(Exec(steps).calls[c], g) == Accepted
    ensures WasVacant(steps, c, g)
    decreases |steps|
  {
    if steps != [] {
      var before, step := steps[..|steps| - 1], steps[|steps| - 1];
      var s := Exec(before);
      assert steps == before + [step];
      RunSplits(INIT, before, [step]);
      RunOne(s, step);
      hide Do, Run;
      if |s.calls| <= c {
        NewCalls(s, step, c);
      } else {
        CallHistory(s, step, c, g);
        if RequestAt(s.calls[c], g) == Sent {
          assert steps[..|before|] == before;
          assert VacantAt(steps, |before|, c, g);
        } else {
          CheckedWasVacant(before, c, g);
          VacantBefore(before, step, c, g);
        }
      }
    }
  }

  /** Every entry that a `prepare` writes was preceded by a moment, after its request was sent, at
      which the helper had no entry. */
  lemma PreparedWasVacant(steps: seq<Step>, c: nat, g: Helper)
    requires EntryAt(Exec(steps + [Accept(c, g)]), g) != EntryAt(Exec(steps), g)
    ensures WasVacant(steps, c, g)
  {
    RunSplits(INIT, steps, [Accept(c, g)]);
    RunOne(Exec(steps), Accept(c, g));
    CheckedWasVacant(steps, c, g);
  }
}
