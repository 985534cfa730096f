/** `complete` in `query/processor.rs` removes whatever entry is there, also one that a waiting
    `new_query` on the same helper still counts on.  That is exactly what lets two calls succeed. */
module QueryOrphans {
  import opened Wrappers
  import opened QueryProtocol

  // ---------------------------------------------------------------- what every run keeps

  ghost predicate WaitsAt(s: State, g: Helper)
  {
    exists c: nat :: IsWaiting(s, c) && s.calls[c].origin == g
  }

  /** A `Preparing` entry belongs to a waiting call, and an `AwaitingCompletion` entry to a guard. */
  ghost predicate Owned(s: State)
  {
    && (forall g :: EntryAt(s, g) == Some(Preparing) ==> WaitsAt(s, g))
    && (forall g :: EntryAt(s, g) == Some(AwaitingCompletion) ==> g in s.completing)
  }

  lemma StillWaits(s: State, step: Step, g: Helper)
    requires EntryAt(s, g) == Some(Preparing) ==> WaitsAt(s, g)
    requires EntryAt(Do(s, step), g) == Some(Preparing)
    ensures WaitsAt(Do(s, step), g)
  {
    if EntryAt(s, g) == Some(Preparing) {
      hide Do;
      var c: nat :| IsWaiting(s, c) && s.calls[c].origin == g;
      CallStays(s, step, c);
    } else {
      OnlyNewPrepares(s, step, g);
    }
  }

  lemma OnlyNewPrepares(s: State, step: Step, g: Helper)
    requires EntryAt(s, g) != Some(Preparing) && EntryAt(Do(s, step), g) == Some(Preparing)
    ensures WaitsAt(Do(s, step), g)
  {
    if IsQueryStep(step) {
      QueryMoves(s, step);
    } else {
      CallMoves(s, step, g);
    }
    hide AcceptedByAll, Transition;
    assert step == New(g);
    assert IsWaiting(Do(s, step), |s.calls|);
  }

  lemma CallStays(s: State, step: Step, c: nat)
    requires IsWaiting(s, c) && EntryAt(Do(s, step), s.calls[c].origin) == Some(Preparing)
    ensures IsWaiting(Do(s, step), c) && Do(s, step).calls[c].origin == s.calls[c].origin
  {
    hide AcceptedByAll;
  }

  lemma StillAwaited(s: State, step: Step, g: Helper)
    requires EntryAt(s, g) == Some(AwaitingCompletion) ==> g in s.completing
    requires EntryAt(Do(s, step), g) == Some(AwaitingCompletion)
    ensures g in Do(s, step).completing
  {
    if IsQueryStep(step) {
      QueryMoves(s, step);
      hide Do, EntryAt, WithEntry;
      if g != step.h {
        SameElsewhere(s.entries, Do(s, step).entries, step.h, g);
        QueryKeepsGuards(s, step, g);
      }
    } else {
      hide Do, EntryAt;
      CallMoves(s, step, g);
    }
  }

  lemma SameElsewhere(entries: map<Helper, Status>, entries': map<Helper, Status>, h: Helper, g: Helper)
    requires entries' - {h} == entries - {h} && g != h
    ensures Lookup(entries', g) == Lookup(entries, g)
  {
    assert g in entries <==> g in entries - {h};
    assert g in entries' <==> g in entries' - {h};
  }

  lemma QueryKeepsGuards(s: State, step: Step, g: Helper)
    requires IsQueryStep(step) && g != step.h
    ensures g in s.completing ==> g in Do(s, step).completing
    ensures EntryAt(s, g) == Lookup(s.entries, g) && EntryAt(Do(s, step), g) == Lookup(Do(s, step).entries, g)
  {
  }

  lemma OwnedHolds(s: State, step: Step)
    requires Owned(s)
    ensures Owned(Do(s, step))
  {
    hide Do, WaitsAt, EntryAt;
    var s' := Do(s, step);
    forall g | EntryAt(s', g) == Some(Preparing)
      ensures WaitsAt(s', g)
    {
      StillWaits(s, step, g);
    }
    forall g | EntryAt(s', g) == Some(AwaitingCompletion)
      ensures g in s'.completing
    {
      StillAwaited(s, step, g);
    }
  }

  lemma {:induction false} RunOwned(s: State, steps: seq<Step>)
    requires Owned(s)
    ensures Owned(Run(s, steps))
    decreases steps
  {
    if steps != [] {
      OwnedHolds(s, steps[0]);
      RunOwned(Do(s, steps[0]), steps[1..]);
    }
  }

  lemma {:induction false} RunSplits(s: State, a: seq<Step>, b: seq<Step>)
    ensures Run(s, a + b) == Run(Run(s, a), b)
    ensures OrphanFree(s, a + b) <==> OrphanFree(s, a) && OrphanFree(Run(s, a), b)
    decreases a
  {
    if a == [] {
      assert a + b == b;
    } else {
      assert (a + b)[1..] == a[1..] + b;
      RunSplits(Do(s, a[0]), a[1..], b);
    }
  }

  lemma RunOne(s: State, step: Step)
    ensures Run(s, [step]) == Do(s, step)
    ensures OrphanFree(s, [step]) <==> !Orphans(s, step)
  {
    hide Do, Orphans;
    assert [step][1..] == [];
    assert Run(Do(s, step), []) == Do(s, step);
  }

  // ---------------------------------------------------------------- all tables can be emptied

  lemma AbortEnds(s: State, d: nat)
    ensures
      var s' := Do(s, Abort(d));
      && |s'.calls| == |s.calls| && (forall c: nat {:trigger IsWaiting(s', c)} :: IsWaiting(s', c) ==> c != d && IsWaiting(s, c))
      && (forall h :: h in s'.entries ==> h in s.entries)
      && (forall c :: 0 <= c < |s.calls| && c != d ==> s'.calls[c] == s.calls[c])
  {
  }

  /** Every call before `n` gives up, except `c`, which has no entry. */
  lemma {:induction false} AbortOthers(s: State, c: nat, n: nat) returns (steps: seq<Step>)
    requires IsWaiting(s, c) && s.calls[c].origin !in s.entries && n <= |s.calls|
    ensures NoCompletion(steps)
    ensures
      var s' := Run(s, steps);
      && IsWaiting(s', c) && s'.calls[c] == s.calls[c] && s.calls[c].origin !in s'.entries
      && |s'.calls| == |s.calls|
      && forall d: nat :: d < n && d != c ==> !IsWaiting(s', d)
  {
    if n == 0 {
      steps := [];
    } else {
      var before := AbortOthers(s, c, n - 1);
      if n - 1 == c {
        return before;
      }
      steps := before + [Abort(n - 1)];
      RunSplits(s, before, [Abort(n - 1)]);
      RunOne(Run(s, before), Abort(n - 1));
      AbortEnds(Run(s, before), n - 1);
      hide Run, Do;
    }
  }

  /** The four steps of a query at `g` from its inputs to the end of its completion. */
  function Cleared(s: State, g: Helper): (r: State)
  {
    Do(Do(Do(Do(s, Inputs(g)), Finish(g)), Complete(g)), DropCompletion(g))
  }

  lemma ClearedEntry(s: State, g: Helper)
    requires EntryAt(s, g) != Some(Preparing) && (EntryAt(s, g) == Some(AwaitingCompletion) ==> g in s.completing)
    ensures g !in Cleared(s, g).entries && Cleared(s, g).calls == s.calls
    ensures forall h :: h !in s.entries ==> h !in Cleared(s, g).entries
  {
    var s1 := Do(s, Inputs(g));
    var s2 := Do(s1, Finish(g));
    var s3 := Do(s2, Complete(g));
    QueryMoves(s, Inputs(g));
    QueryMoves(s1, Finish(g));
    QueryMoves(s2, Complete(g));
    QueryMoves(s3, DropCompletion(g));
    hide Do;
  }

  /** A query that no call of its own helper waits for can run to its end. */
  lemma Clear(s: State, g: Helper) returns (steps: seq<Step>)
    requires Owned(s) && !WaitsAt(s, g)
    ensures OrphanFree(s, steps)
    ensures
      var s' := Run(s, steps);
      && s'.calls == s.calls && g !in s'.entries && Owned(s')
      && forall h :: h !in s.entries ==> h !in s'.entries
  {
    ClearedEntry(s, g);
    steps := [Inputs(g), Finish(g), Complete(g), DropCompletion(g)];
    var s1 := Do(s, Inputs(g));
    var s2 := Do(s1, Finish(g));
    var s3 := Do(s2, Complete(g));
    assert s1.calls == s.calls && s2.calls == s.calls && s3.calls == s.calls;
    hide Do, Owned, EntryAt, Cleared;
    SameCalls(s, s2, g);
    SameCalls(s, s3, g);
    FourSteps(s, Inputs(g), Finish(g), Complete(g), DropCompletion(g));
    assert Cleared(s, g) == Run(s, steps);
    RunOwned(s, steps);
  }

  lemma FourSteps(s: State, a: Step, b: Step, c: Step, d: Step)
    ensures Run(s, [a, b, c, d]) == Do(Do(Do(Do(s, a), b), c), d)
    ensures !Orphans(s, a) && !Orphans(Do(s, a), b) && !Orphans(Do(Do(s, a), b), c) && !Orphans(Do(Do(Do(s, a), b), c), d) ==>
      OrphanFree(s, [a, b, c, d])
  {
    hide Do, Orphans;
    var s1 := Do(s, a);
    var s2 := Do(s1, b);
    var s3 := Do(s2, c);
    RunSplits(s, [a], [b, c, d]);
    RunSplits(s1, [b], [c, d]);
    RunSplits(s2, [c], [d]);
    RunOne(s, a);
    RunOne(s1, b);
    RunOne(s2, c);
    RunOne(s3, d);
    hide Run, OrphanFree;
    assert [a, b, c, d] == [a] + [b, c, d] && [b, c, d] == [b] + [c, d] && [c, d] == [c] + [d];
  }

  lemma SameCalls(s: State, s': State, g: Helper)
    requires s'.calls == s.calls && !WaitsAt(s, g)
    ensures !WaitsAt(s', g)
  {
    assert forall d: nat :: IsWaiting(s', d) ==> IsWaiting(s, d);
  }

  lemma NoneLeft(entries: map<Helper, Status>, a: Helper, b: Helper, c: Helper)
    requires a != b && b != c && a != c && a !in entries && b !in entries && c !in entries
    ensures entries == map[]
  {
    forall g
      ensures g !in entries
    {
      assert g == a || g == b || g == c;
    }
  }

  /** Every query ends and every other call gives up, but the waiting call `c` goes on. */
  lemma EmptyTables(s: State, c: nat) returns (steps: seq<Step>)
    requires Owned(s) && IsWaiting(s, c) && s.calls[c].origin !in s.entries
    ensures OrphanFree(s, steps)
    ensures
      var s' := Run(s, steps);
      s'.entries == map[] && IsWaiting(s', c) && s'.calls[c].origin == s.calls[c].origin
  {
    hide Run, Do, OrphanFree, Owned, NoCompletion;
    var aborts := AbortOthers(s, c, |s.calls|);
    var s1 := Run(s, aborts);
    NoCompletionOrphansNothing(s, aborts);
    RunOwned(s, aborts);
    var g1, g2 := Others(s.calls[c].origin).0, Others(s.calls[c].origin).1;
    assert !WaitsAt(s1, g1);
    var end1 := Clear(s1, g1);
    var s2 := Run(s1, end1);
    SameCalls(s1, s2, g2);
    var end2 := Clear(s2, g2);
    var s3 := Run(s2, end2);
    RunSplits(s1, end1, end2);
    RunSplits(s, aborts, end1 + end2);
    steps := aborts + (end1 + end2);
    NoneLeft(s3.entries, s.calls[c].origin, g1, g2);
  }

  function Others(h: Helper): (r: (Helper, Helper))
    ensures r.0 != h && r.1 != h && r.0 != r.1
  {
    match h
    case A => (B, C)
    case B => (C, A)
    case C => (A, B)
  }

  // ---------------------------------------------------------------- then two calls succeed

  lemma ThreeSteps(s: State, a: Step, b: Step, c: Step)
    ensures Run(s, [a, b, c]) == Do(Do(Do(s, a), b), c)
  {
    hide Do, Orphans;
    RunSplits(s, [a], [b, c]);
    RunSplits(Do(s, a), [b], [c]);
    RunOne(s, a);
    RunOne(Do(s, a), b);
    RunOne(Do(Do(s, a), b), c);
    hide Run;
    assert [a, b, c] == [a] + [b, c] && [b, c] == [b] + [c];
  }

  function Open(n: nat, h: Helper): (steps: seq<Step>)
  {
    [New(h), Check(n, Others(h).0), Check(n, Others(h).1)]
  }

  /** With empty tables a new call at `h` passes the check of both others. */
  lemma Opens(s: State, h: Helper)
    requires s.entries == map[]
    ensures
      var s' := Run(s, Open(|s.calls|, h));
      && s'.entries == map[h := Preparing] && s'.successes == s.successes
      && s'.calls == s.calls + [Call(h, Waiting, map[Others(h).0 := Checked, Others(h).1 := Checked])]
  {
    var a, b, n := Others(h).0, Others(h).1, |s.calls|;
    ThreeSteps(s, New(h), Check(n, a), Check(n, b));
    var s1 := Do(s, New(h));
    var s2 := Do(s1, Check(n, a));
    assert s2.calls == s.calls + [Call(h, Waiting, map[a := Checked])];
    var s3 := Do(s2, Check(n, b));
    assert s3.calls == s.calls + [Call(h, Waiting, map[a := Checked, b := Checked])];
  }

  function Close(n: nat, h: Helper): (steps: seq<Step>)
  {
    [Accept(n, Others(h).0), Accept(n, Others(h).1), Finalise(n)]
  }

  /** A call that both others have checked succeeds, also when they have begun calls of their own. */
  lemma Closes(s: State, n: nat, h: Helper)
    requires n < |s.calls| && s.calls[n] == Call(h, Waiting, map[Others(h).0 := Checked, Others(h).1 := Checked])
    requires EntryAt(s, h) == Some(Preparing)
    requires Transition(EntryAt(s, Others(h).0), AwaitingInputs).Ok?
    requires Transition(EntryAt(s, Others(h).1), AwaitingInputs).Ok?
    ensures
      var s' := Run(s, Close(n, h));
      && s'.successes == s.successes + 1 && |s'.calls| == |s.calls|
      && s'.calls == s.calls[n := s'.calls[n]] && s'.calls[n].phase.Succeeded? && s'.calls[n].origin == h
  {
    var a, b := Others(h).0, Others(h).1;
    ThreeSteps(s, Accept(n, a), Accept(n, b), Finalise(n));
    var s1 := Do(s, Accept(n, a));
    var s2 := Do(s1, Accept(n, b));
    Accepts(s, n, a);
    Accepts(s1, n, b);
    Finalises(s2, n);
    hide Do, Run;
  }

  lemma Accepts(s: State, n: nat, g: Helper)
    requires n < |s.calls| && s.calls[n].origin != g && RequestAt(s.calls[n], g).Checked?
    requires Transition(EntryAt(s, g), AwaitingInputs).Ok?
    ensures
      var s' := Do(s, Accept(n, g));
      && s'.successes == s.successes && s'.entries == s.entries[g := AwaitingInputs]
      && s'.calls == s.calls[n := s.calls[n].(requests := s.calls[n].requests[g := Accepted])]
  {
  }

  lemma Finalises(s: State, n: nat)
    requires IsWaiting(s, n) && AcceptedByAll(s.calls[n]) && EntryAt(s, s.calls[n].origin) == Some(Preparing)
    ensures
      var s' := Do(s, Finalise(n));
      s'.successes == s.successes + 1 && s'.calls == s.calls[n := s.calls[n].(phase := Succeeded)]
  {
  }

  /** When calls wait on all three helpers and give up, all three tables are empty. */
  lemma Aborts(s: State, c: nat, d: nat, e: nat)
    requires c < d < e && IsWaiting(s, c) && IsWaiting(s, d) && IsWaiting(s, e)
    requires s.calls[c].origin != s.calls[d].origin && s.calls[c].origin != s.calls[e].origin
    requires s.calls[d].origin != s.calls[e].origin
    ensures
      var s' := Run(s, [Abort(c), Abort(d), Abort(e)]);
      && s'.entries == map[] && s'.successes == s.successes && |s'.calls| == |s.calls|
      && forall k :: 0 <= k < |s.calls| && k != c && k != d && k != e ==> s'.calls[k] == s.calls[k]
  {
    ThreeSteps(s, Abort(c), Abort(d), Abort(e));
    var s' := Run(s, [Abort(c), Abort(d), Abort(e)]);
    NoneLeft(s'.entries, s.calls[c].origin, s.calls[d].origin, s.calls[e].origin);
  }

  function FirstCall(n: nat, h: Helper): (steps: seq<Step>)
  {
    Open(n, h) + ([New(Others(h).0), New(Others(h).1)] + Close(n, h))
  }

  /** A first call succeeds over the calls that the two others begin. */
  lemma FirstSucceeds(s: State, h: Helper)
    requires s.entries == map[]
    ensures
      var n, s' := |s.calls|, Run(s, FirstCall(|s.calls|, h));
      && s'.successes == s.successes + 1 && |s'.calls| == n + 3 && s'.calls[..n] == s.calls
      && s'.calls[n].phase.Succeeded? && s'.calls[n].origin == h
      && IsWaiting(s', n + 1) && s'.calls[n + 1].origin == Others(h).0
      && IsWaiting(s', n + 2) && s'.calls[n + 2].origin == Others(h).1
  {
    var a, b, n := Others(h).0, Others(h).1, |s.calls|;
    Opens(s, h);
    var s1 := Run(s, Open(n, h));
    var s2 := Do(Do(s1, New(a)), New(b));
    assert Run(s1, [New(a), New(b)]) == s2 by {
      assert [New(a), New(b)][1..] == [New(b)];
      assert Run(Do(s1, New(a)), [New(b)]) == s2;
    }
    Closes(s2, n, h);
    RunSplits(s1, [New(a), New(b)], Close(n, h));
    RunSplits(s, Open(n, h), [New(a), New(b)] + Close(n, h));
  }

  function SecondCall(n: nat, h: Helper): (steps: seq<Step>) { Open(n, h) + Close(n, h) }

  lemma SecondSucceeds(s: State, h: Helper)
    requires s.entries == map[]
    ensures
      var n, s' := |s.calls|, Run(s, SecondCall(|s.calls|, h));
      && s'.successes == s.successes + 1 && |s'.calls| == n + 1 && s'.calls[..n] == s.calls
      && s'.calls[n].phase.Succeeded? && s'.calls[n].origin == h
  {
    var n := |s.calls|;
    Opens(s, h);
    Closes(Run(s, Open(n, h)), n, h);
    RunSplits(s, Open(n, h), Close(n, h));
  }

  /** With empty tables and a call waiting at `h` all the same, two new calls succeed: when the
      waiting call gives up it takes away the entry of the first. */
  lemma TwoSucceed(s: State, c: nat) returns (steps: seq<Step>)
    requires s.entries == map[] && IsWaiting(s, c)
    ensures NoCompletion(steps)
    ensures
      var n, s' := |s.calls|, Run(s, steps);
      && s'.successes == s.successes + 2 && |s'.calls| > n + 3
      && s'.calls[n].phase.Succeeded? && s'.calls[n + 3].phase.Succeeded?
      && s'.calls[n].origin != s'.calls[n + 3].origin
  {
    hide Run, Do;
    var n, h := |s.calls|, s.calls[c].origin;
    var first, second := FirstCall(n, h), SecondCall(n + 3, Others(h).0);
    var aborts := [Abort(c), Abort(n + 1), Abort(n + 2)];
    FirstSucceeds(s, h);
    var s1 := Run(s, first);
    assert s1.calls[c] == s.calls[c];
    Aborts(s1, c, n + 1, n + 2);
    var s2 := Run(s1, aborts);
    SecondSucceeds(s2, Others(h).0);
    RunSplits(s1, aborts, second);
    RunSplits(s, first, aborts + second);
    steps := first + (aborts + second);
    assert Run(s2, second).calls[..n + 3][n] == s2.calls[n];
  }

  // ---------------------------------------------------------------- the exact condition

  lemma ExecSplits(steps: seq<Step>, more: seq<Step>)
    ensures Exec(steps + more) == Run(Exec(steps), more)
    ensures OrphanFree(INIT, steps + more) <==> OrphanFree(INIT, steps) && OrphanFree(Exec(steps), more)
  {
    hide Run, OrphanFree;
    RunSplits(INIT, steps, more);
  }

  lemma ExecOne(steps: seq<Step>, step: Step)
    ensures Exec(steps + [step]) == Do(Exec(steps), step)
    ensures OrphanFree(INIT, steps + [step]) <==> OrphanFree(INIT, steps) && !Orphans(Exec(steps), step)
  {
    hide *;
    ExecSplits(steps, [step]);
    RunOne(Exec(steps), step);
  }

  lemma ExecOwned(steps: seq<Step>)
    ensures Owned(Exec(steps))
  {
    hide Run;
    RunOwned(INIT, steps);
  }

  lemma Orphan(s: State, step: Step) returns (w: nat)
    requires Orphans(s, step)
    ensures IsWaiting(Do(s, step), w) && Do(s, step).calls[w].origin !in Do(s, step).entries
  {
    w :| IsWaiting(s, w) && s.calls[w].origin == step.h;
    assert Do(s, step).calls == s.calls;
  }

  /** After any completion that orphans a call, in any run, two calls on different helpers can begin
      and succeed with no completion between them. */
  lemma OrphaningAllowsTwo(steps: seq<Step>, step: Step) returns (clear: seq<Step>, more: seq<Step>, c: nat, d: nat)
    requires Orphans(Exec(steps), step)
    ensures OrphanFree(Exec(steps + [step]), clear + more) && NoCompletion(more)
    ensures
      var before := Exec(steps + [step] + clear);
      var after := Exec(steps + [step] + clear + more);
      && |before.calls| <= c < |after.calls| && |before.calls| <= d < |after.calls|
      && after.calls[c].phase.Succeeded? && after.calls[d].phase.Succeeded?
      && after.calls[c].origin != after.calls[d].origin
      && after.successes == before.successes + 2
  {
    hide *;
    ExecOwned(steps + [step]);
    ExecOne(steps, step);
    var s := Exec(steps + [step]);
    var w := Orphan(Exec(steps), step);
    clear := EmptyTables(s, w);
    var before := Run(s, clear);
    more := TwoSucceed(before, w);
    c, d := |before.calls|, |before.calls| + 3;
    ExecSplits(steps + [step], clear);
    ExecSplits(steps + [step] + clear, more);
    NoCompletionOrphansNothing(before, more);
    RunSplits(s, clear, more);
  }

  ghost predicate AllowsTwo(steps: seq<Step>, more: seq<Step>)
  {
    OrphanFree(Exec(steps), more) && Exec(steps + more).successes >= 2
  }

  /** A completion is safe exactly when it orphans nothing: otherwise, and only otherwise, the run
      can go on, with no further orphans, to two successes between completions. */
  lemma OrphaningIsExact(steps: seq<Step>, step: Step)
    requires OrphanFree(INIT, steps)
    ensures Orphans(Exec(steps), step) <==> exists more :: AllowsTwo(steps + [step], more)
  {
    hide Run, OrphanFree, Exec, Orphans, Do, NoCompletion;
    if Orphans(Exec(steps), step) {
      var clear, more, _, _ := OrphaningAllowsTwo(steps, step);
      assert steps + [step] + (clear + more) == steps + [step] + clear + more;
      assert AllowsTwo(steps + [step], clear + more);
    } else {
      ExecOne(steps, step);
      forall more | AllowsTwo(steps + [step], more)
        ensures false
      {
        ExecSplits(steps + [step], more);
        AtMostOneCoordinator(steps + [step] + more);
      }
    }
  }

  /** The condition is not empty: C's call 0 is checked by A, A begins its own call 1, and C's request
      takes over A's entry; when that query completes, call 1 is orphaned. */
  lemma OrphansHappen() returns (steps: seq<Step>, step: Step)
    ensures OrphanFree(INIT, steps) && Orphans(Exec(steps), step)
  {
    var begin := [New(C), Check(0, A), New(A)];
    var end := [Accept(0, A), Inputs(A), Finish(A)];
    steps, step := begin + end, Complete(A);
    NoCompletionOrphansNothing(INIT, steps);
    hide OrphanFree, Run;
    ThreeSteps(INIT, New(C), Check(0, A), New(A));
    ExecSplits(begin, end);
    var s := Exec(begin);
    assert s == Run(INIT, begin);
    hide *;
    Overwritten(s);
    ThreeSteps(s, Accept(0, A), Inputs(A), Finish(A));
    CompletingOrphans(Exec(steps));
  }

  lemma CompletingOrphans(s: State)
    requires EntryAt(s, A) == Some(Completed) && IsWaiting(s, 1) && s.calls[1].origin == A
    ensures Orphans(s, Complete(A))
  {
  }

  lemma Overwritten(s: State)
    requires s == Do(Do(Do(INIT, New(C)), Check(0, A)), New(A))
    ensures
      var s' := Do(Do(Do(s, Accept(0, A)), Inputs(A)), Finish(A));
      EntryAt(s', A) == Some(Completed) && IsWaiting(s', 1) && s'.calls[1].origin == A
  {
    assert s.calls == [Call(C, Waiting, map[A := Checked]), Call(A, Waiting, map[])];
    assert EntryAt(s, A) == Some(Preparing);
    hide AcceptedByAll;
    var s1 := Do(s, Accept(0, A));
    assert EntryAt(s1, A) == Some(AwaitingInputs) && s1.calls[1] == s.calls[1] && |s1.calls| == 2;
  }
}
