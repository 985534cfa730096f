/** `seq_join.rs`: futures joined in order, with a bounded number of them in progress. */
module SeqJoin {

  /** What polling the source stream yields, in turn; after the last event it has ended.  A future
      is known by the value it will resolve to. */
  datatype Event<O> = NotReady | Item(value: O)

  function Values<O>(events: seq<Event<O>>): (r: seq<O>)
  {
    if events == [] then []
    else (if events[0].Item? then [events[0].value] else []) + Values(events[1..])
  }

  /** `ActiveItem`: the `id`-th future of the source, or what it resolved to. */
  datatype Active<O> = Pending(id: nat, value: O) | Resolved(output: O)

  datatype Poll<O> = NotYet | Next(value: O) | Finished

  function Output<O>(a: Active<O>): (v: O) { if a.Pending? then a.value else a.output }

  function Outputs<O>(active: seq<Active<O>>): (r: seq<O>)
    ensures |r| == |active|
    ensures forall k :: 0 <= k < |r| ==> r[k] == Output(active[k])
  {
    seq(|active|, k requires 0 <= k < |active| => Output(active[k]))
  }

  /** The held futures are the `delivered`-th and following of the source; those still pending have never resolved. */
  ghost predicate HeldInOrder<O>(active: seq<Active<O>>, delivered: nat, resolved: set<nat>)
  {
    && (forall k {:trigger active[k]} :: 0 <= k < |active| ==> HeldAs(active[k], delivered + k, resolved))
    && (forall id :: id in resolved ==> id < delivered + |active|)
  }

  ghost predicate HeldAs<O>(a: Active<O>, id: nat, resolved: set<nat>)
  {
    if a.Pending? then a.id == id && id !in resolved else id in resolved
  }

  lemma HoldNext<O>(active: seq<Active<O>>, delivered: nat, resolved: set<nat>, v: O)
    requires HeldInOrder(active, delivered, resolved)
    ensures HeldInOrder(active + [Pending(delivered + |active|, v)], delivered, resolved)
    ensures Outputs(active + [Pending(delivered + |active|, v)]) == Outputs(active) + [v]
  {
  }

  lemma ResolveHeld<O>(active: seq<Active<O>>, delivered: nat, resolved: set<nat>, k: nat)
    requires HeldInOrder(active, delivered, resolved) && k < |active| && active[k].Pending?
    ensures active[k].id !in resolved
    ensures HeldInOrder(active[k := Resolved(active[k].value)], delivered, resolved + {active[k].id})
    ensures Outputs(active[k := Resolved(active[k].value)]) == Outputs(active)
  {
    assert HeldAs(active[k], delivered + k, resolved);
    var a, r := active[k := Resolved(active[k].value)], resolved + {active[k].id};
    forall j | 0 <= j < |a| ensures HeldAs(a[j], delivered + j, r) {
      assert HeldAs(active[j], delivered + j, resolved);
    }
  }

  lemma DeliverFirst<O>(active: seq<Active<O>>, delivered: nat, resolved: set<nat>)
    requires HeldInOrder(active, delivered, resolved) && |active| > 0
    ensures HeldInOrder(active[1..], delivered + 1, resolved)
    ensures Outputs(active) == [Output(active[0])] + Outputs(active[1..])
  {
    forall j | 0 <= j < |active[1..]| ensures HeldAs(active[1..][j], delivered + 1 + j, resolved) {
      assert HeldAs(active[j + 1], delivered + (j + 1), resolved);
    }
  }

  /** A poll of the `id`-th future, and whether it resolved. */
  datatype Polled = Polled(id: nat, ready: bool)

  /** No future is polled again after it has resolved, and it resolves only when polled. */
  ghost predicate NeverAgain(polls: seq<Polled>, resolved: set<nat>)
  {
    && (forall a, b :: 0 <= a < b < |polls| && polls[a].ready ==> polls[b].id != polls[a].id)
    && (forall id :: Polled(id, true) in polls <==> id in resolved)
  }

  lemma PollUnresolved(polls: seq<Polled>, resolved: set<nat>, p: Polled)
    requires NeverAgain(polls, resolved) && p.id !in resolved
    ensures NeverAgain(polls + [p], if p.ready then resolved + {p.id} else resolved)
  {
  }

  // ---------------------------------------------------------------- what one call does

  /** `n` futures were drawn, and if there was room for more the source was not ready or had ended. */
  ghost predicate IsDrawn<O>(source: seq<Event<O>>, n: int, full: bool, source': seq<Event<O>>, done: bool)
  {
    && 0 <= n <= |source|
    && if full then source' == source[n..]
       else if n < |source| then source[n] == NotReady && source' == source[n + 1..] else source' == [] && done
  }

  /** How many futures a source gives before it is not ready, has ended, or `room` is used up. */
  function Items<O>(source: seq<Event<O>>, room: nat): (n: nat)
    ensures n <= room && n <= |source|
    ensures forall k :: 0 <= k < n ==> source[k].Item?
    ensures n < room && n < |source| ==> source[n].NotReady?
  {
    if room == 0 || source == [] || source[0].NotReady? then 0 else 1 + Items(source[1..], room - 1)
  }

  /** What is held after drawing up to the capacity. */
  function Held<O>(active: seq<Active<O>>, source: seq<Event<O>>, drawn: nat, capacity: nat): (r: seq<Active<O>>)
    requires |active| <= capacity
  {
    active + seq(Items(source, capacity - |active|),
                 k requires 0 <= k < Items(source, capacity - |active|) => Pending(drawn + k, source[k].value))
  }

  lemma HoldsNothingMore<O>(active: seq<Active<O>>, source: seq<Event<O>>, drawn: nat, capacity: nat)
    requires |active| <= capacity && (|active| < capacity && source != [] ==> source[0].NotReady?)
    ensures Held(active, source, drawn, capacity) == active
  {
  }

  lemma HoldsOneMore<O>(active: seq<Active<O>>, source: seq<Event<O>>, drawn: nat, capacity: nat)
    requires |active| < capacity && source != [] && source[0].Item?
    ensures Held(active, source, drawn, capacity)
         == Held(active + [Pending(drawn, source[0].value)], source[1..], drawn + 1, capacity)
  {
    var n := Items(source, capacity - |active|);
    assert n == 1 + Items(source[1..], capacity - |active| - 1);
    hide Items;
  }

  function PollOf<O>(a: Active<O>, ready: nat -> bool): (r: seq<Polled>)
  {
    if a.Resolved? then [] else [Polled(a.id, ready(a.id))]
  }

  /** One poll for each unresolved future, in order. */
  function PollsOf<O>(held: seq<Active<O>>, ready: nat -> bool): (r: seq<Polled>)
  {
    if held == [] then [] else PollsOf(held[..|held| - 1], ready) + PollOf(held[|held| - 1], ready)
  }

  function AfterPoll<O>(a: Active<O>, ready: nat -> bool): (r: Active<O>)
  {
    if a.Pending? && ready(a.id) then Resolved(a.value) else a
  }

  lemma PollsOfNext<O>(held: seq<Active<O>>, ready: nat -> bool, k: nat)
    requires k < |held|
    ensures PollsOf(held[..k + 1], ready) == PollsOf(held[..k], ready) + PollOf(held[k], ready)
  {
    assert held[..k + 1][..k] == held[..k];
  }

  lemma {:induction false} PollsOfHeld<O>(held: seq<Active<O>>, ready: nat -> bool, k: nat)
    requires k < |held| && held[k].Pending?
    ensures Polled(held[k].id, ready(held[k].id)) in PollsOf(held, ready)
  {
    var n := |held| - 1;
    if k < n {
      PollsOfHeld(held[..n], ready, k);
    } else {
      assert Polled(held[k].id, ready(held[k].id)) in PollOf(held[n], ready);
    }
  }

  /** What a poll of every held future makes of them: each has resolved, or was polled and was not ready. */
  ghost predicate AllPolled<O>(held: seq<Active<O>>, active: seq<Active<O>>, ready: nat -> bool, polls: seq<Polled>)
  {
    && |active| == |held|
    && (forall k :: 0 <= k < |active| ==> active[k] == AfterPoll(held[k], ready))
    && (forall k :: 0 <= k < |active| ==>
          active[k].Resolved? || (!ready(active[k].id) && Polled(active[k].id, false) in polls))
  }

  lemma PolledAll<O>(held: seq<Active<O>>, active: seq<Active<O>>, ready: nat -> bool)
    requires |active| == |held| && forall k :: 0 <= k < |active| ==> active[k] == AfterPoll(held[k], ready)
    ensures AllPolled(held, active, ready, PollsOf(held, ready))
  {
    forall k | 0 <= k < |active| && active[k].Pending?
      ensures !ready(active[k].id) && Polled(active[k].id, false) in PollsOf(held, ready)
    {
      PollsOfHeld(held, ready, k);
    }
  }

  /** What one call makes of the held futures: a first one that is ready is handed out and nothing else
      is polled; otherwise each unresolved one is polled once, in order. */
  ghost predicate HasPolled<O>(
    held: seq<Active<O>>, ready: nat -> bool, r: Poll<O>, active: seq<Active<O>>, before: seq<Polled>, polls: seq<Polled>)
  {
    match r
    case Next(v) =>
      && held != [] && (held[0].Resolved? || ready(held[0].id)) && v == Output(held[0])
      && active == held[1..] && polls == before + PollOf(held[0], ready)
    case Finished => held == active == [] && polls == before
    case NotYet => polls == before + PollsOf(held, ready) && AllPolled(held, active, ready, PollsOf(held, ready))
  }

  /** The first `k` held futures have been polled, and the others not yet. */
  ghost predicate PolledUpTo<O>(
    held: seq<Active<O>>, active: seq<Active<O>>, ready: nat -> bool, before: seq<Polled>, polls: seq<Polled>, k: nat)
  {
    && k <= |held| == |active| && polls == before + PollsOf(held[..k], ready)
    && (forall j :: 0 <= j < k ==> active[j] == AfterPoll(held[j], ready))
    && (forall j :: k <= j < |held| ==> active[j] == held[j])
  }

  lemma PolledFirst<O>(held: seq<Active<O>>, ready: nat -> bool, before: seq<Polled>)
    requires |held| > 0 && held[0].Pending? && !ready(held[0].id)
    ensures PolledUpTo(held, held, ready, before, before + PollOf(held[0], ready), 1)
    ensures AfterPoll(held[0], ready) == held[0]
  {
    assert held[..0] == [];
    PollsOfNext(held, ready, 0);
  }

  lemma PolledOneMore<O>(
    held: seq<Active<O>>, active: seq<Active<O>>, ready: nat -> bool, before: seq<Polled>, polls: seq<Polled>, k: nat)
    requires PolledUpTo(held, active, ready, before, polls, k) && k < |active|
    ensures PolledUpTo(held, active[k := AfterPoll(active[k], ready)], ready, before, polls + PollOf(active[k], ready), k + 1)
  {
    PollsOfNext(held, ready, k);
    hide PollsOf, PollOf, AfterPoll;
    assert before + PollsOf(held[..k], ready) + PollOf(held[k], ready)
        == before + (PollsOf(held[..k], ready) + PollOf(held[k], ready));
  }

  lemma PolledToTheEnd<O>(
    held: seq<Active<O>>, active: seq<Active<O>>, ready: nat -> bool, before: seq<Polled>, polls: seq<Polled>)
    requires PolledUpTo(held, active, ready, before, polls, |held|) && |held| > 0
    ensures polls == before + PollsOf(held, ready) && AllPolled(held, active, ready, PollsOf(held, ready))
    ensures active[0] == AfterPoll(held[0], ready)
  {
    hide PollsOf, AfterPoll, AllPolled;
    assert held[..|held|] == held;
    PolledAll(held, active, ready);
  }

  lemma NothingPolled<O>(ready: nat -> bool)
    ensures PollsOf<O>([], ready) == [] && AllPolled<O>([], [], ready, [])
  {
  }

  class SequentialFutures<O> {
    const capacity: nat
    var source: seq<Event<O>>
    var sourceDone: bool
    var active: seq<Active<O>>
    var drawn: nat
    ghost var delivered: nat
    ghost var resolved: set<nat>
    ghost var polls: seq<Polled>

    ghost predicate Valid()
      reads this
    {
      && capacity >= 1 && |active| <= capacity && drawn == delivered + |active|
      && HeldInOrder(active, delivered, resolved) && NeverAgain(polls, resolved)
      && (sourceDone ==> source == [])
    }

    /** All values still to come, in order. */
    ghost function Ahead(): seq<O>
      reads this
    {
      Outputs(active) + Values(source)
    }

    /** Futures held and events to come. */
    ghost function Work(): nat
      reads this
    {
      |active| + |source|
    }

    constructor (capacity: nat, source: seq<Event<O>>)
      requires capacity >= 1
      ensures Valid() && delivered == 0 && polls == [] && Ahead() == Values(source) && this.capacity == capacity && this.source == source
      ensures Work() == |source|
    {
      this.capacity, this.source := capacity, source;
      sourceDone, active, drawn, delivered, resolved, polls := false, [], 0, 0, {}, [];
    }

    /** Draws from the source up to the capacity, stopping at the first time it is not ready. */
    method Fill()
      requires Valid()
      modifies this`source, this`sourceDone, this`active, this`drawn
      ensures Valid() && Ahead() == old(Ahead()) && |source| <= old(|source|)
      ensures Work() <= old(Work())
      ensures active == [] && !sourceDone ==> Work() < old(Work())
      ensures active == Held(old(active), old(source), old(drawn), capacity)
      ensures IsDrawn(old(source), |active| - old(|active|), |active| == capacity, source, sourceDone)
    {
      hide Items, Held;
      while |active| < capacity
        invariant Valid() && Ahead() == old(Ahead()) && |source| <= old(|source|)
        invariant |active| >= old(|active|) && |active| - old(|active|) <= old(|source|)
        invariant source == old(source)[|active| - old(|active|)..]
        invariant Held(active, source, drawn, capacity) == Held(old(active), old(source), old(drawn), capacity)
        invariant Work() <= old(Work())
        decreases |source|
      {
        if source == [] {
          sourceDone := true;
          HoldsNothingMore(active, source, drawn, capacity);
          return;
        }
        var event := source[0];
        ghost var rest := Values(source[1..]);
        ghost var before := active;
        if event.NotReady? {
          HoldsNothingMore(active, source, drawn, capacity);
          source := source[1..];
          return;
        }
        HoldsOneMore(active, source, drawn, capacity);
        source := source[1..];
        HoldNext(active, delivered, resolved, event.value);
        active := active + [Pending(drawn, event.value)];
        drawn := drawn + 1;
        assert Outputs(active) + rest == Outputs(before) + ([event.value] + rest);
      }
      HoldsNothingMore(active, source, drawn, capacity);
    }

    /** Polls the `k`-th held future unless it has resolved. */
    method CheckReady(k: nat, ready: nat -> bool) returns (r: bool)
      requires Valid() && k < |active|
      modifies this`active, this`resolved, this`polls
      ensures Valid() && Ahead() == old(Ahead()) && |active| == old(|active|)
      ensures r == active[k].Resolved? == (old(active[k]).Resolved? || ready(old(active[k]).id))
      ensures active == old(active)[k := AfterPoll(old(active[k]), ready)] && (!r ==> active == old(active))
      ensures Output(active[k]) == Output(old(active[k]))
      ensures polls == old(polls) + PollOf(old(active[k]), ready)
    {
      if active[k].Resolved? {
        return true;
      }
      var id := active[k].id;
      ResolveHeld(active, delivered, resolved, k);
      PollUnresolved(polls, resolved, Polled(id, ready(id)));
      polls := polls + [Polled(id, ready(id))];
      if ready(id) {
        active := active[k := Resolved(active[k].value)];
        resolved := resolved + {id};
        return true;
      }
      return false;
    }

    /** Takes the first held future, which has resolved. */
    method TakeFirst() returns (v: O)
      requires Valid() && |active| > 0 && active[0].Resolved?
      modifies this`active, this`delivered
      ensures Valid() && [v] + Ahead() == old(Ahead()) && delivered == old(delivered) + 1
      ensures active == old(active)[1..] && v == Output(old(active)[0])
    {
      DeliverFirst(active, delivered, resolved);
      v := active[0].output;
      ghost var rest := Values(source);
      active := active[1..];
      delivered := delivered + 1;
      assert [v] + (Outputs(active) + rest) == ([v] + Outputs(active)) + rest;
    }

    /** Polls the held futures after the first, which has just been polled and was not ready. */
    method CheckRest(ready: nat -> bool, ghost before: seq<Polled>)
      requires Valid() && |active| > 0 && active[0].Pending? && !ready(active[0].id)
      requires polls == before + PollOf(active[0], ready)
      modifies this`active, this`resolved, this`polls
      ensures Valid() && Ahead() == old(Ahead())
      ensures polls == before + PollsOf(old(active), ready)
      ensures AllPolled(old(active), active, ready, PollsOf(old(active), ready))
      ensures |active| == old(|active|) && active[0] == old(active[0])
    {
      hide *;
      ghost var held := active;
      PolledFirst(held, ready, before);
      for k := 1 to |active|
        invariant Valid() && Ahead() == old(Ahead()) && |active| == |held|
        invariant PolledUpTo(held, active, ready, before, polls, k)
      {
        PolledOneMore(held, active, ready, before, polls, k);
        var _ := CheckReady(k, ready);
      }
      PolledToTheEnd(held, active, ready, before, polls);
    }

    /** Polls the held futures: the first, and if it is not ready all the others. */
    method PollHeld(ready: nat -> bool) returns (r: Poll<O>)
      requires Valid()
      modifies this`active, this`delivered, this`resolved, this`polls
      ensures Valid()
      ensures match r
              case Next(v) => [v] + Ahead() == old(Ahead()) && delivered == old(delivered) + 1 && |active| < old(|active|)
              case Finished => old(active) == active == [] && delivered == old(delivered) && sourceDone
              case NotYet =>
                && Ahead() == old(Ahead()) && delivered == old(delivered) && |active| == old(|active|)
                && if active == [] then !sourceDone else active[0].Pending? && !ready(active[0].id)
      ensures HasPolled(old(active), ready, r, active, old(polls), polls)
    {
      hide HeldInOrder, NeverAgain, Values, Outputs, AllPolled, PollsOf, PollOf, AfterPoll;
      if |active| > 0 {
        var ok := CheckReady(0, ready);
        if ok {
          var v := TakeFirst();
          r := Next(v);
        } else {
          CheckRest(ready, old(polls));
          r := NotYet;
        }
      } else if sourceDone {
        r := Finished;
      } else {
        NothingPolled<O>(ready);
        r := NotYet;
      }
    }

    /** `poll_next`, when the futures for which `ready` holds would resolve if polled. */
    method PollNext(ready: nat -> bool) returns (r: Poll<O>)
      requires Valid()
      modifies this
      ensures Valid()
      ensures match r
              case Next(v) => [v] + Ahead() == old(Ahead()) && delivered == old(delivered) + 1
              case Finished => Ahead() == old(Ahead()) == [] && sourceDone && delivered == old(delivered)
              case NotYet =>
                && Ahead() == old(Ahead()) && delivered == old(delivered)
                && if active == [] then !sourceDone else active[0].Pending? && !ready(active[0].id)
      ensures Work() <= old(Work())
      ensures r.Next? || (r.NotYet? && active == []) ==> Work() < old(Work())
      ensures |source| <= old(|source|)
      ensures
        var held := Held(old(active), old(source), old(drawn), capacity);
        && IsDrawn(old(source), |held| - old(|active|), |held| == capacity, source, sourceDone)
        && HasPolled(held, ready, r, active, old(polls), polls)
    {
      assert Values<O>([]) == [];
      hide HeldInOrder, NeverAgain, Values, Outputs, Held, IsDrawn, AllPolled, PollsOf, PollOf, AfterPoll, HasPolled;
      Fill();
      r := PollHeld(ready);
    }

    /** `size_hint` for a source whose own hint is exact. */
    method SizeHint(sourceRemaining: nat) returns (n: nat)
      requires Valid() && sourceRemaining == |Values(source)|
      ensures n == |Ahead()|
    {
      n := sourceRemaining + |active|;
    }
  }

  /** Every future resolves when it is polled. */
  ghost predicate AllReady(ready: nat -> bool) { forall id: nat :: ready(id) }

  /** How many of the first `n` rounds find some future not ready. */
  ghost function Stalls(rounds: seq<nat -> bool>, n: nat): (r: nat)
    requires n <= |rounds|
  {
    if n == 0 then 0 else Stalls(rounds, n - 1) + if AllReady(rounds[n - 1]) then 0 else 1
  }

  lemma StallsNext(rounds: seq<nat -> bool>, n: nat)
    requires n < |rounds|
    ensures Stalls(rounds, 0) == 0 && Stalls(rounds, n + 1) >= Stalls(rounds, n)
    ensures forall id: nat :: !rounds[n](id) ==> Stalls(rounds, n + 1) == Stalls(rounds, n) + 1
  {
  }

  lemma AppendOne<O>(a: seq<O>, v: O, b: seq<O>)
    ensures a + ([v] + b) == a + [v] + b
  {
  }

  /** For every source and every schedule of readiness, one poll per round: the outputs are the
      values of the source in order, the stream ends only when all have been delivered, and it ends
      when there are more rounds than events and rounds that find a future not ready. */
  method Join<O>(capacity: nat, source: seq<Event<O>>, rounds: seq<nat -> bool>)
    returns (outputs: seq<O>, finished: bool)
    requires capacity >= 1
    ensures outputs <= Values(source)
    ensures finished ==> outputs == Values(source)
    ensures |rounds| > |source| + Stalls(rounds, |rounds|) ==> finished
  {
    hide *;
    var join := new SequentialFutures(capacity, source);
    outputs, finished := [], false;
    for t := 0 to |rounds|
      invariant join.Valid() && fresh(join)
      invariant outputs + join.Ahead() == Values(source)
      invariant finished ==> join.Ahead() == []
      invariant finished || t + join.Work() <= |source| + Stalls(rounds, t)
    {
      StallsNext(rounds, t);
      var r := join.PollNext(rounds[t]);
      match r
      case Next(v) =>
        AppendOne(outputs, v, join.Ahead());
        outputs := outputs + [v];
      case Finished => finished := true;
      case NotYet =>
    }
  }
}
