/** When `seq_join` makes progress: futures that wait for one another, with a bounded number in progress. */
module SeqJoinDeadlock {
  import opened SeqJoin

  function AllItems<O>(values: seq<O>): (r: seq<Event<O>>)
    ensures |r| == |values|
  {
    seq(|values|, k requires 0 <= k < |values| => Item(values[k]))
  }

  /** What is left of such a source when `drawn` futures have been taken from it. */
  function Left<O>(values: seq<O>, drawn: nat): (r: seq<Event<O>>)
    requires drawn <= |values|
  {
    AllItems(values)[drawn..]
  }

  lemma {:induction false} ValuesOfItems<O>(values: seq<O>)
    ensures Values(AllItems(values)) == values
  {
    if values != [] {
      ValuesOfItems(values[1..]);
      assert AllItems(values)[1..] == AllItems(values[1..]);
      assert values == [values[0]] + values[1..];
    }
  }

  /** The future `id` waits for one that is not held while `id` is the next to be delivered: it is
      `capacity` or more behind it, or does not exist. */
  predicate IsBlocked(needs: nat -> nat, n: nat, capacity: nat, id: nat)
  {
    needs(id) >= id + capacity || needs(id) >= n
  }

  function Min(a: nat, b: nat): (r: nat) { if a < b then a else b }

  function Max(a: nat, b: nat): (r: nat) { if a < b then b else a }

  /** With a source that is always ready, the next `capacity` futures are held. */
  lemma HeldOfItems<O>(active: seq<Active<O>>, values: seq<O>, drawn: nat, capacity: nat)
    requires |active| <= drawn <= |values| && |active| <= capacity
    ensures
      var held := Held(active, Left(values, drawn), drawn, capacity);
      && |held| == Min(capacity, |active| + |values| - drawn) && active <= held
      && forall k :: |active| <= k < |held| ==> held[k] == Pending(drawn + k - |active|, values[drawn + k - |active|])
  {
    var source := AllItems(values)[drawn..];
    assert forall k :: 0 <= k < |source| ==> source[k] == Item(values[drawn + k]);
    hide Items;
  }

  /** Between calls: what is held is the next futures in order; none that is blocked has resolved. */
  ghost predicate JoinFits<O>(
    active: seq<Active<O>>, delivered: nat, drawn: nat, seen: nat, needs: nat -> nat, n: nat, capacity: nat)
  {
    && delivered <= seen <= drawn <= n && drawn == delivered + |active| && |active| <= capacity
    && (forall k :: 0 <= k < |active| ==> active[k].Pending? ==> active[k].id == delivered + k)
    && (forall k :: 0 <= k < |active| ==> active[k].Resolved? ==>
          delivered + k < seen && !IsBlocked(needs, n, capacity, delivered + k))
    && (forall id: nat :: id < delivered ==> !IsBlocked(needs, n, capacity, id))
  }

  lemma HeldFits<O>(
    active: seq<Active<O>>, values: seq<O>, delivered: nat, drawn: nat, seen: nat, needs: nat -> nat, capacity: nat)
    requires JoinFits(active, delivered, drawn, seen, needs, |values|, capacity)
    ensures
      var held := Held(active, Left(values, drawn), drawn, capacity);
      && delivered + |held| == Min(delivered + capacity, |values|)
      && JoinFits(held, delivered, delivered + |held|, seen, needs, |values|, capacity)
  {
    HeldOfItems(active, values, drawn, capacity);
    hide Held, AllItems, IsBlocked;
  }

  /** The first held future is delivered only if it is not blocked. */
  lemma FirstFits<O>(held: seq<Active<O>>, delivered: nat, seen: nat, needs: nat -> nat, n: nat, capacity: nat)
    requires JoinFits(held, delivered, delivered + |held|, seen, needs, n, capacity) && held != []
    requires held[0].Resolved? || needs(held[0].id) < seen
    ensures JoinFits(held[1..], delivered + 1, delivered + |held|, Max(seen, delivered + 1), needs, n, capacity)
  {
    assert !IsBlocked(needs, n, capacity, delivered + 0);
    hide IsBlocked;
    var rest := held[1..];
    assert forall k :: 0 <= k < |rest| ==> rest[k] == held[k + 1];
  }

  /** A poll of all of them resolves none that is blocked. */
  lemma StalledFits<O>(
    held: seq<Active<O>>, active: seq<Active<O>>, ready: nat -> bool, polls: seq<Polled>,
    delivered: nat, seen: nat, needs: nat -> nat, n: nat, capacity: nat)
    requires JoinFits(held, delivered, delivered + |held|, seen, needs, n, capacity)
    requires AllPolled(held, active, ready, polls) && forall id :: ready(id) <==> needs(id) < seen
    ensures JoinFits(active, delivered, delivered + |held|, delivered + |held|, needs, n, capacity)
  {
    forall k | 0 <= k < |active| && active[k].Resolved? ensures !IsBlocked(needs, n, capacity, delivered + k) {
      assert active[k] == AfterPoll(held[k], ready);
    }
  }

  // ---------------------------------------------------------------- which futures have been polled

  ghost predicate IsPolled(polls: seq<Polled>, id: nat) { Polled(id, true) in polls || Polled(id, false) in polls }

  /** The futures polled so far are the first `seen`. */
  ghost predicate SeenAre(polls: seq<Polled>, seen: nat) { forall id: nat :: IsPolled(polls, id) <==> id < seen }

  lemma {:induction false} PolledAreHeld<O>(held: seq<Active<O>>, ready: nat -> bool, p: Polled)
    requires p in PollsOf(held, ready)
    ensures exists k :: 0 <= k < |held| && held[k] == Pending(p.id, Output(held[k]))
  {
    var n := |held| - 1;
    if p in PollOf(held[n], ready) {
      assert held[n] == Pending(p.id, Output(held[n]));
    } else {
      PolledAreHeld(held[..n], ready, p);
      var k :| 0 <= k < n && held[..n][k] == Pending(p.id, Output(held[..n][k]));
      assert held[k] == Pending(p.id, Output(held[k]));
    }
  }

  lemma SeenFirst<O>(
    held: seq<Active<O>>, ready: nat -> bool, polls: seq<Polled>, delivered: nat, seen: nat, needs: nat -> nat, n: nat, capacity: nat)
    requires JoinFits(held, delivered, delivered + |held|, seen, needs, n, capacity) && held != [] && SeenAre(polls, seen)
    ensures SeenAre(polls + PollOf(held[0], ready), Max(seen, delivered + 1))
  {
    hide IsBlocked;
    var polls' := polls + PollOf(held[0], ready);
    forall id: nat ensures IsPolled(polls', id) <==> id < Max(seen, delivered + 1) {
      assert IsPolled(polls, id) <==> id < seen;
      assert held[0].Pending? ==> held[0].id == delivered + 0 && Polled(delivered, ready(delivered)) in polls';
    }
  }

  lemma SeenAll<O>(
    held: seq<Active<O>>, ready: nat -> bool, polls: seq<Polled>, delivered: nat, seen: nat, needs: nat -> nat, n: nat, capacity: nat)
    requires JoinFits(held, delivered, delivered + |held|, seen, needs, n, capacity) && SeenAre(polls, seen)
    ensures SeenAre(polls + PollsOf(held, ready), delivered + |held|)
  {
    hide IsBlocked, PollsOf;
    var polls' := polls + PollsOf(held, ready);
    forall id: nat ensures IsPolled(polls', id) <==> id < delivered + |held| {
      assert IsPolled(polls, id) <==> id < seen;
      if p: bool :| Polled(id, p) in PollsOf(held, ready) {
        PolledAreHeld(held, ready, Polled(id, p));
      }
      if delivered <= id < delivered + |held| && held[id - delivered].Pending? {
        PollsOfHeld(held, ready, id - delivered);
      }
    }
  }

  // ---------------------------------------------------------------- progress

  lemma DrawnItems<O>(values: seq<O>, drawn: nat, n: int, full: bool, source: seq<Event<O>>, done: bool)
    requires drawn <= |values| && IsDrawn(Left(values, drawn), n, full, source, done)
    ensures 0 <= n <= |values| - drawn && source == Left(values, drawn + n)
    ensures !full ==> done
  {
    var all := AllItems(values);
    assert n < |all[drawn..]| ==> all[drawn..][n] == all[drawn + n] != NotReady;
  }

  /** Between calls, for a source that is always ready. */
  ghost predicate Fits<O>(
    active: seq<Active<O>>, source: seq<Event<O>>, delivered: nat, drawn: nat, polls: seq<Polled>,
    values: seq<O>, seen: nat, needs: nat -> nat, capacity: nat)
  {
    && JoinFits(active, delivered, drawn, seen, needs, |values|, capacity)
    && source == Left(values, drawn) && SeenAre(polls, seen)
  }

  ghost predicate Follows<O>(join: SequentialFutures<O>, values: seq<O>, seen: nat, needs: nat -> nat)
    reads join
  {
    join.Valid() && Fits(join.active, join.source, join.delivered, join.drawn, join.polls, values, seen, needs, join.capacity)
  }

  lemma FitsBounds<O>(
    active: seq<Active<O>>, delivered: nat, drawn: nat, seen: nat, needs: nat -> nat, n: nat, capacity: nat)
    requires JoinFits(active, delivered, drawn, seen, needs, n, capacity)
    ensures delivered <= seen <= drawn <= n && drawn == delivered + |active| && |active| <= capacity
    ensures active != [] && active[0].Pending? ==> active[0].id == delivered
  {
    assert active != [] && active[0].Pending? ==> active[0].id == delivered + 0;
    hide IsBlocked;
  }

  ghost predicate IsReadyAt(ready: nat -> bool, needs: nat -> nat, seen: nat)
  {
    forall id :: ready(id) <==> needs(id) < seen
  }

  lemma NextFits<O>(
    held: seq<Active<O>>, ready: nat -> bool, needs: nat -> nat, n: nat, capacity: nat, delivered: nat, seen: nat,
    r: Poll<O>, active: seq<Active<O>>, before: seq<Polled>, polls: seq<Polled>)
    requires JoinFits(held, delivered, delivered + |held|, seen, needs, n, capacity) && SeenAre(before, seen)
    requires IsReadyAt(ready, needs, seen) && r.Next? && HasPolled(held, ready, r, active, before, polls)
    ensures JoinFits(active, delivered + 1, delivered + |held|, Max(seen, delivered + 1), needs, n, capacity)
    ensures SeenAre(polls, Max(seen, delivered + 1))
  {
    hide JoinFits, SeenAre, PollOf, PollsOf, AllPolled;
    FirstFits(held, delivered, seen, needs, n, capacity);
    SeenFirst(held, ready, before, delivered, seen, needs, n, capacity);
  }

  lemma NotYetFits<O>(
    held: seq<Active<O>>, ready: nat -> bool, needs: nat -> nat, n: nat, capacity: nat, delivered: nat, seen: nat,
    r: Poll<O>, active: seq<Active<O>>, before: seq<Polled>, polls: seq<Polled>)
    requires JoinFits(held, delivered, delivered + |held|, seen, needs, n, capacity) && SeenAre(before, seen)
    requires IsReadyAt(ready, needs, seen) && r.NotYet? && HasPolled(held, ready, r, active, before, polls)
    ensures JoinFits(active, delivered, delivered + |held|, delivered + |held|, needs, n, capacity)
    ensures SeenAre(polls, delivered + |held|) && |active| == |held|
    ensures active != [] && active[0].Pending? ==> active[0].id == delivered
  {
    hide JoinFits, SeenAre, PollOf, PollsOf, AfterPoll;
    StalledFits(held, active, ready, PollsOf(held, ready), delivered, seen, needs, n, capacity);
    SeenAll(held, ready, before, delivered, seen, needs, n, capacity);
    hide AllPolled;
    FitsBounds(active, delivered, delivered + |held|, delivered + |held|, needs, n, capacity);
  }

  /** How many futures have been polled after a call that answered `r`. */
  function SeenAfter<O>(r: Poll<O>, seen: nat, delivered: nat, drawn: nat): (n: nat)
  {
    match r
    case Next(_) => Max(seen, delivered)
    case Finished => seen
    case NotYet => drawn
  }

  /** What one call leaves behind fits again. */
  lemma CallFits<O>(
    active: seq<Active<O>>, source: seq<Event<O>>, delivered: nat, drawn: nat, polls: seq<Polled>,
    values: seq<O>, seen: nat, needs: nat -> nat, capacity: nat, ready: nat -> bool, r: Poll<O>,
    active': seq<Active<O>>, source': seq<Event<O>>, done': bool, delivered': nat, drawn': nat, polls': seq<Polled>)
    requires Fits(active, source, delivered, drawn, polls, values, seen, needs, capacity)
    requires capacity >= 1 && IsReadyAt(ready, needs, seen) && |active| <= capacity
    requires
      var held := Held(active, source, drawn, capacity);
      IsDrawn(source, |held| - |active|, |held| == capacity, source', done') && HasPolled(held, ready, r, active', polls, polls')
    requires delivered' == (if r.Next? then delivered + 1 else delivered) && drawn' == delivered' + |active'|
    requires r.NotYet? ==> if active' == [] then !done' else active'[0].Pending? && !ready(active'[0].id)
    ensures Fits(active', source', delivered', drawn', polls', values, SeenAfter(r, seen, delivered', drawn'), needs, capacity)
    ensures r.NotYet? ==>
      delivered < |values| && needs(delivered) >= seen && drawn' == Min(delivered + capacity, |values|)
  {
    hide Held, IsDrawn, HasPolled, JoinFits, SeenAre, Left, IsReadyAt;
    var held := Held(active, source, drawn, capacity);
    FitsBounds(active, delivered, drawn, seen, needs, |values|, capacity);
    HeldFits(active, values, delivered, drawn, seen, needs, capacity);
    DrawnItems(values, drawn, |held| - |active|, |held| == capacity, source', done');
    PolledCounts(held, ready, r, active', polls, polls');
    if r.Next? {
      NextFits(held, ready, needs, |values|, capacity, delivered, seen, r, active', polls, polls');
    } else if r.NotYet? {
      NotYetFits(held, ready, needs, |values|, capacity, delivered, seen, r, active', polls, polls');
      ReadyMeans(ready, needs, seen, delivered);
    }
  }

  lemma ReadyMeans(ready: nat -> bool, needs: nat -> nat, seen: nat, id: nat)
    requires IsReadyAt(ready, needs, seen)
    ensures ready(id) <==> needs(id) < seen
  {
  }

  /** One call: a value is delivered, or all was delivered before, or every held future has been polled. */
  method Step<O>(join: SequentialFutures<O>, ghost values: seq<O>, seen: nat, needs: nat -> nat)
    returns (r: Poll<O>, seen': nat)
    requires Follows(join, values, seen, needs)
    modifies join
    ensures Follows(join, values, seen', needs)
    ensures match r
            case Next(v) => [v] + join.Ahead() == old(join.Ahead()) && join.delivered == old(join.delivered) + 1
            case Finished => old(join.Ahead()) == join.Ahead() == [] && join.delivered == old(join.delivered)
            case NotYet =>
              && join.Ahead() == old(join.Ahead()) && join.delivered == old(join.delivered) < |values|
              && needs(join.delivered) >= seen && seen' == Min(join.delivered + join.capacity, |values|)
  {
    hide Held, IsDrawn, HasPolled, Values, Outputs, HeldInOrder, NeverAgain, Fits, Min, Max;
    var ready := (id: nat) => needs(id) < seen;
    assert IsReadyAt(ready, needs, seen);
    hide IsReadyAt;
    ghost var active, source, d, drawn, polls := join.active, join.source, join.delivered, join.drawn, join.polls;
    r := join.PollNext(ready);
    CallFits(active, source, d, drawn, polls, values, seen, needs, join.capacity, ready, r,
             join.active, join.source, join.sourceDone, join.delivered, join.drawn, join.polls);
    seen' := SeenAfter(r, seen, join.drawn - |join.active|, join.drawn);
  }

  lemma PolledCounts<O>(
    held: seq<Active<O>>, ready: nat -> bool, r: Poll<O>, active: seq<Active<O>>, before: seq<Polled>, polls: seq<Polled>)
    requires HasPolled(held, ready, r, active, before, polls)
    ensures r.Finished? ==> held == active == [] && polls == before
    ensures r.Next? ==> |active| == |held| - 1
    ensures r.NotYet? ==> |active| == |held|
  {
  }

  /** A future resolves when it is polled after the furthest one it needs has been polled; there is one
      poll of the join per round, until it ends.  The join delivers everything, in order and within two rounds
      for each value, if and only if no future needs one that is `capacity` or more behind it or does
      not exist.  Nothing at or after a future that does is ever delivered. */
  method JoinDependent<O>(capacity: nat, values: seq<O>, needs: nat -> nat, rounds: nat)
    returns (outputs: seq<O>, finished: bool)
    requires capacity >= 1
    ensures outputs <= values && (finished ==> outputs == values)
    ensures forall id: nat :: id < |values| && IsBlocked(needs, |values|, capacity, id) ==> |outputs| <= id
    ensures rounds > 2 * |values| ==>
      (finished <==> forall id: nat :: id < |values| ==> !IsBlocked(needs, |values|, capacity, id))
  {
    hide *;
    var join := new SequentialFutures(capacity, AllItems(values));
    outputs, finished := [], false;
    var seen: nat, stalled, t := 0, false, 0;
    StartFollows(join, values, needs);
    while t < rounds && !finished
      invariant fresh(join) && join.capacity == capacity && Follows(join, values, seen, needs)
      invariant outputs + join.Ahead() == values && |outputs| == join.delivered && (finished ==> join.Ahead() == [])
      invariant stalled ==> |outputs| < |values| && seen == Min(|outputs| + capacity, |values|)
      invariant finished || t <= 2 * |outputs| + (if stalled then 1 else 0) || AnyBlocked(needs, |values|, capacity)
      decreases rounds - t
    {
      var r, seen' := Step(join, values, seen, needs);
      t := t + 1;
      match r {
        case Next(v) =>
          AppendOne(outputs, v, join.Ahead());
          outputs, stalled := outputs + [v], false;
        case Finished => finished := true;
        case NotYet =>
          if stalled {
            StillBlocked(needs, |values|, capacity, |outputs|);
          }
          stalled := true;
      }
      seen := seen';
    }
    BlockedStay(join, values, seen, needs);
  }

  ghost predicate AnyBlocked(needs: nat -> nat, n: nat, capacity: nat)
  {
    exists id: nat :: id < n && IsBlocked(needs, n, capacity, id)
  }

  lemma StartFollows<O>(join: SequentialFutures<O>, values: seq<O>, needs: nat -> nat)
    requires join.Valid() && join.delivered == 0 && join.polls == [] && join.source == AllItems(values)
    requires join.Ahead() == Values(join.source) && join.Work() == |join.source|
    ensures Follows(join, values, 0, needs) && join.Ahead() == values
  {
    hide Values, HeldInOrder, NeverAgain, Outputs;
    ValuesOfItems(values);
  }

  /** A first future that is not ready although all that can be held has been polled. */
  lemma StillBlocked(needs: nat -> nat, n: nat, capacity: nat, id: nat)
    requires id < n && needs(id) >= Min(id + capacity, n)
    ensures AnyBlocked(needs, n, capacity)
  {
    assert IsBlocked(needs, n, capacity, id);
  }

  lemma BlockedStay<O>(join: SequentialFutures<O>, values: seq<O>, seen: nat, needs: nat -> nat)
    requires Follows(join, values, seen, needs)
    ensures forall id: nat :: id < |values| && IsBlocked(needs, |values|, join.capacity, id) ==> join.delivered <= id
    ensures join.delivered == |values| ==> !AnyBlocked(needs, |values|, join.capacity)
    ensures join.delivered <= |values|
    ensures AnyBlocked(needs, |values|, join.capacity)
       <==> exists id: nat :: id < |values| && IsBlocked(needs, |values|, join.capacity, id)
  {
    hide Values, HeldInOrder, NeverAgain, Outputs, IsBlocked, AllItems, SeenAre;
  }
}
