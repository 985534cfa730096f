/** `ordering_mpsc.rs`: a channel that reorders through a ring of `capacity` slots, one message each. */
module OrderingMpsc {
  import opened Wrappers
  import opened PrimeField
  import opened OrderingBuffer

  /** `slots[k]` is `Some` when bit `k` of `added` is set. */
  datatype Ring<M> = Ring(end: nat, slots: seq<Option<M>>)

  predicate IsRing<M>(r: Ring<M>) { |r.slots| >= 2 && r.end >= |r.slots| }

  /** The first index not taken yet. */
  function Start<M>(r: Ring<M>): (s: nat)
    requires IsRing(r)
  {
    r.end - |r.slots|
  }

  function Position<M>(r: Ring<M>, index: nat): (k: nat)
    requires IsRing(r)
    ensures k < |r.slots|
  {
    Mod(|r.slots|, index)
  }

  function RingInsert<M>(r: Ring<M>, index: nat, m: M): (r': Ring<M>)
    requires IsRing(r)
  {
    r.(slots := r.slots[Position(r, index) := Some(m)])
  }

  predicate AllSome<M>(slots: seq<Option<M>>, low: nat, high: nat)
  {
    low <= high <= |slots| && forall k :: low <= k < high ==> slots[k].Some?
  }

  /** `added[i..high].leading_ones()`. */
  function LeadingOnes<M>(slots: seq<Option<M>>, i: nat, high: nat): (n: nat)
    requires i <= high <= |slots|
    ensures i + n <= high && AllSome(slots, i, i + n)
    ensures i + n < high ==> slots[i + n].None?
    decreases high - i
  {
    if i == high || slots[i].None? then 0 else 1 + LeadingOnes(slots, i + 1, high)
  }

  function Values<M>(slots: seq<Option<M>>, low: nat, high: nat): (r: seq<M>)
    requires AllSome(slots, low, high)
    ensures |r| == high - low
    ensures forall k :: 0 <= k < |r| ==> slots[low + k] == Some(r[k])
  {
    seq(high - low, k requires 0 <= k < high - low => slots[low + k].value)
  }

  function Tail<M>(r: Ring<M>): (n: nat)
    requires IsRing(r)
    ensures AllSome(r.slots, Position(r, r.end), Position(r, r.end) + n)
  {
    LeadingOnes(r.slots, Position(r, r.end), |r.slots|)
  }

  function Wrap<M>(r: Ring<M>): (n: nat)
    requires IsRing(r)
    ensures n <= Position(r, r.end) && AllSome(r.slots, 0, n)
  {
    var i := Position(r, r.end);
    if Tail(r) + i == |r.slots| then LeadingOnes(r.slots, 0, i) else 0
  }

  /** What a successful `take` returns: the tail of the ring, then its beginning. */
  function Taken<M>(r: Ring<M>): (v: seq<M>)
    requires IsRing(r)
    ensures |v| == Tail(r) + Wrap(r)
  {
    var i := Position(r, r.end);
    Values(r.slots, i, i + Tail(r)) + Values(r.slots, 0, Wrap(r))
  }

  function Cleared<M>(slots: seq<Option<M>>, low: nat, high: nat): (r: seq<Option<M>>)
    requires low <= high <= |slots|
    ensures |r| == |slots|
    ensures forall k :: 0 <= k < |slots| ==> r[k] == if low <= k < high then None else slots[k]
  {
    slots[..low] + seq(high - low, _ => None) + slots[high..]
  }

  function AfterTake<M>(r: Ring<M>): (r': Ring<M>)
    requires IsRing(r)
    ensures IsRing(r')
  {
    var i := Position(r, r.end);
    Ring(r.end + Tail(r) + Wrap(r), Cleared(Cleared(r.slots, i, i + Tail(r)), 0, Wrap(r)))
  }

  // ---------------------------------------------------------------- slots in a buffer of bytes

  /** Where slot `k` starts. */
  function Offset(k: nat, size: nat): (r: nat) { k * size }

  /** The bytes of slot `k`, when messages have `size` bytes. */
  function Slice(buf: Bytes, size: nat, k: nat): (m: Bytes)
    requires Offset(k + 1, size) <= |buf|
    ensures |m| == size
  {
    SliceFits(size, k, k + 1);
    buf[Offset(k, size)..Offset(k + 1, size)]
  }

  lemma SliceFits(size: nat, k: nat, n: nat)
    requires k < n
    ensures Offset(k + 1, size) == Offset(k, size) + size <= Offset(n, size) && Offset(0, size) == 0
  {
    MulAdd(k, 1, size);
    MulAdd(k + 1, n - k - 1, size);
    MulNonNegative(n - k - 1, size);
  }

  lemma MulAdd(a: int, b: int, size: int)
    ensures (a + b) * size == a * size + b * size
  {
  }

  lemma MulNonNegative(a: nat, size: nat)
    ensures a * size >= 0
  {
  }

  ghost predicate IsBuffer(buf: Bytes, added: seq<bool>, size: nat) { |buf| == Offset(|added|, size) }

  ghost function SlotAt(buf: Bytes, added: seq<bool>, size: nat, k: nat): (r: Option<Bytes>)
    requires IsBuffer(buf, added, size) && k < |added|
  {
    SliceFits(size, k, |added|);
    if added[k] then Some(Slice(buf, size, k)) else None
  }

  ghost function Slots(buf: Bytes, added: seq<bool>, size: nat): (r: seq<Option<Bytes>>)
    requires IsBuffer(buf, added, size)
    ensures |r| == |added|
  {
    seq(|added|, k requires 0 <= k < |added| => SlotAt(buf, added, size, k))
  }

  /** Writing the bytes of one slot leaves the others alone. */
  lemma WriteSlot(buf: Bytes, added: seq<bool>, size: nat, i: nat, m: Bytes, buf': Bytes)
    requires IsBuffer(buf, added, size) && i < |added| && |m| == size && 0 <= Offset(i, size) <= Offset(i, size) + size <= |buf|
    requires buf' == buf[..Offset(i, size)] + m + buf[Offset(i, size) + size..]
    ensures Slots(buf', added[i := true], size) == Slots(buf, added, size)[i := Some(m)]
  {
    var slots, slots' := Slots(buf, added, size), Slots(buf', added[i := true], size);
    forall k | 0 <= k < |added| ensures slots'[k] == slots[i := Some(m)][k] {
      SliceFits(size, k, |added|);
      if k < i {
        SliceFits(size, k, i);
      } else if i < k {
        SliceFits(size, i, k);
      }
      if added[i := true][k] {
        assert Slice(buf', size, k) == if k == i then m else Slice(buf, size, k);
      }
    }
  }

  function Flat(messages: seq<Bytes>): (r: Bytes)
  {
    if messages == [] then [] else Flat(messages[..|messages| - 1]) + messages[|messages| - 1]
  }

  lemma SlotBytes(buf: Bytes, added: seq<bool>, size: nat, k: nat)
    requires IsBuffer(buf, added, size) && k < |added|
    ensures Offset(k, size) <= Offset(k + 1, size) <= |buf|
    ensures
      var slot := Slots(buf, added, size)[k];
      slot.Some? ==> slot.value == buf[Offset(k, size)..Offset(k + 1, size)]
  {
    SliceFits(size, k, |added|);
    hide Offset;
    assert Slots(buf, added, size)[k] == SlotAt(buf, added, size, k);
  }

  lemma OffsetFits(buf: Bytes, added: seq<bool>, size: nat, k: nat)
    requires IsBuffer(buf, added, size) && k <= |added|
    ensures Offset(k, size) <= |buf|
  {
    if k < |added| {
      SliceFits(size, k, |added|);
    }
  }

  lemma FlatLast(slots: seq<Option<Bytes>>, low: nat, high: nat)
    requires AllSome(slots, low, high) && low < high
    ensures AllSome(slots, low, high - 1) && slots[high - 1].Some?
    ensures Flat(Values(slots, low, high)) == Flat(Values(slots, low, high - 1)) + slots[high - 1].value
  {
    var v := Values(slots, low, high);
    assert v[..|v| - 1] == Values(slots, low, high - 1) && v[|v| - 1] == slots[high - 1].value;
  }

  lemma JoinStretches(buf: Bytes, a: nat, b: nat, c: nat)
    requires a <= b <= c <= |buf|
    ensures buf[a..b] + buf[b..c] == buf[a..c]
  {
  }

  /** Neighbouring slots are one stretch of the buffer. */
  lemma {:induction false} FlatValues(buf: Bytes, added: seq<bool>, size: nat, low: nat, high: nat)
    requires IsBuffer(buf, added, size) && AllSome(Slots(buf, added, size), low, high)
    ensures Offset(low, size) <= Offset(high, size) <= |buf|
    ensures Flat(Values(Slots(buf, added, size), low, high)) == buf[Offset(low, size)..Offset(high, size)]
    decreases high - low
  {
    var slots := Slots(buf, added, size);
    assert low <= high <= |added|;
    if low == high {
      assert Flat(Values(slots, low, high)) == [];
      hide *;
      OffsetFits(buf, added, size, low);
    } else {
      hide *;
      FlatLast(slots, low, high);
      FlatValues(buf, added, size, low, high - 1);
      SlotBytes(buf, added, size, high - 1);
      JoinStretches(buf, Offset(low, size), Offset(high - 1, size), Offset(high, size));
    }
  }

  lemma {:induction false} FlatConcat(a: seq<Bytes>, b: seq<Bytes>)
    ensures Flat(a + b) == Flat(a) + Flat(b)
  {
    if b == [] {
      assert a + b == a;
    } else {
      FlatConcat(a, b[..|b| - 1]);
      assert (a + b)[..|a + b| - 1] == a + b[..|b| - 1] && (a + b)[|a + b| - 1] == b[|b| - 1];
      assert Flat(a + b) == Flat(a + b[..|b| - 1]) + b[|b| - 1];
      hide Flat;
    }
  }

  /** The bytes of what a take returns: a stretch of the buffer, and another one if it wraps. */
  lemma TakenBytes(buf: Bytes, added: seq<bool>, size: nat, r: Ring<Bytes>, i: nat, tail: nat, wrap: nat)
    requires IsBuffer(buf, added, size) && IsRing(r) && r.slots == Slots(buf, added, size)
    requires i == Position(r, r.end) && tail == Tail(r) && wrap == Wrap(r)
    ensures 0 <= Offset(i, size) <= Offset(i + tail, size) <= |buf| && 0 <= Offset(wrap, size) <= |buf|
    ensures Flat(Taken(r)) == if wrap > 0 then buf[Offset(i, size)..] + buf[..Offset(wrap, size)] else buf[Offset(i, size)..Offset(i + tail, size)]
  {
    hide *;
    TakenIs(r);
    WrapMeansFull(r);
    StretchBytes(buf, added, size, i, i + tail, wrap);
  }

  lemma TakenIs<M>(r: Ring<M>)
    requires IsRing(r)
    ensures Taken(r) == Values(r.slots, Position(r, r.end), Position(r, r.end) + Tail(r)) + Values(r.slots, 0, Wrap(r))
  {
    hide Mod, LeadingOnes, Position, Tail, Wrap, Values;
  }

  lemma StretchBytes(buf: Bytes, added: seq<bool>, size: nat, low: nat, high: nat, wrap: nat)
    requires IsBuffer(buf, added, size) && (wrap > 0 ==> high == |added|)
    requires AllSome(Slots(buf, added, size), low, high) && AllSome(Slots(buf, added, size), 0, wrap)
    ensures Offset(low, size) <= Offset(high, size) <= |buf| && Offset(wrap, size) <= |buf|
    ensures Flat(Values(Slots(buf, added, size), low, high) + Values(Slots(buf, added, size), 0, wrap))
         == if wrap > 0 then buf[Offset(low, size)..] + buf[..Offset(wrap, size)] else buf[Offset(low, size)..Offset(high, size)]
  {
    var slots := Slots(buf, added, size);
    assert |buf| == Offset(|added|, size);
    SliceFits(size, 0, 1);
    hide *;
    FlatValues(buf, added, size, low, high);
    FlatValues(buf, added, size, 0, wrap);
    FlatConcat(Values(slots, low, high), Values(slots, 0, wrap));
    TwoStretches(buf, Offset(low, size), Offset(high, size), Offset(wrap, size), wrap > 0);
  }

  lemma TwoStretches(buf: Bytes, from: nat, to: nat, rest: nat, wraps: bool)
    requires from <= to <= |buf| && rest <= |buf| && if wraps then to == |buf| else rest == 0
    ensures buf[from..to] + buf[0..rest] == if wraps then buf[from..] + buf[..rest] else buf[from..to]
  {
  }

  lemma SomeIffAdded(buf: Bytes, added: seq<bool>, size: nat)
    requires IsBuffer(buf, added, size)
    ensures forall k :: 0 <= k < |added| ==> (Slots(buf, added, size)[k].Some? <==> added[k])
  {
  }

  lemma ClearSlots(buf: Bytes, added: seq<bool>, size: nat, low: nat, high: nat, added': seq<bool>)
    requires IsBuffer(buf, added, size) && low <= high <= |added| == |added'|
    requires forall j :: 0 <= j < |added| ==> added'[j] == if low <= j < high then false else added[j]
    ensures IsBuffer(buf, added', size) && Slots(buf, added', size) == Cleared(Slots(buf, added, size), low, high)
  {
    var slots, slots' := Slots(buf, added, size), Slots(buf, added', size);
    forall j | 0 <= j < |added| ensures slots'[j] == Cleared(slots, low, high)[j] {
      assert slots'[j] == SlotAt(buf, added', size, j) && slots[j] == SlotAt(buf, added, size, j);
    }
  }

  // ---------------------------------------------------------------- in place

  /** How `insert` ends; the two panics are assertions of debug builds. */
  datatype Inserted = Stored | OutOfRange | Duplicate

  class OrderingMpscReceiver {
    const size: nat
    const buf: array<bv8>
    const added: array<bool>
    var end: nat

    ghost predicate Valid()
      reads this, buf, added
    {
      buf as object != added as object && IsBuffer(buf[..], added[..], size) && IsRing(View())
    }

    ghost function View(): Ring<Bytes>
      requires IsBuffer(buf[..], added[..], size)
      reads this, buf, added
    {
      Ring(end, Slots(buf[..], added[..], size))
    }

    constructor (capacity: nat, size: nat)
      requires capacity >= 2
      ensures Valid() && fresh(buf) && fresh(added) && this.size == size
      ensures View() == Ring(capacity, seq(capacity, _ => None))
    {
      this.size, end := size, capacity;
      buf := new bv8[Offset(capacity, size)];
      added := new bool[capacity](_ => false);
      new;
      assert buf.Length == Offset(capacity, size) && |buf[..]| == Offset(|added[..]|, size);
      assert Slots(buf[..], added[..], size) == seq(capacity, _ => None);
    }

    method Insert(index: nat, m: Bytes, debug: bool) returns (r: Inserted)
      requires Valid() && |m| == size
      modifies buf, added
      ensures Valid()
      ensures r.OutOfRange? <==> debug && !(Start(old(View())) <= index < end)
      ensures r.Duplicate? <==> debug && Start(old(View())) <= index < end && old(View()).slots[Position(old(View()), index)].Some?
      ensures View() == if r.Stored? then RingInsert(old(View()), index, m) else old(View())
    {
      if debug && !(end - added.Length <= index < end) {
        return OutOfRange;
      }
      var i := index % added.Length;
      ghost var was, bits := buf[..], added[..];
      assert i == Position(View(), index);
      assert View().slots[i].Some? <==> added[i];
      if debug && added[i] {
        return Duplicate;
      }
      hide Slots, SlotAt, Position, Mod;
      SliceFits(size, i, added.Length);
      Write(Offset(i, size), m);
      added[i] := true;
      WriteSlot(was, bits, size, i, m, buf[..]);
      assert added[..] == bits[i := true];
      r := Stored;
    }

    method Write(start: nat, m: Bytes)
      requires start + |m| <= buf.Length
      modifies buf
      ensures buf[..] == old(buf[..start]) + m + old(buf[start + |m|..])
    {
      for t := 0 to |m|
        invariant forall u {:trigger buf[u]} :: 0 <= u < buf.Length ==> buf[u] == if start <= u < start + t then m[u - start] else old(buf[u])
      {
        buf[start + t] := m[t];
      }
    }

    method CountOnes(low: nat, high: nat) returns (n: nat)
      requires Valid() && low <= high <= added.Length
      ensures n == LeadingOnes(View().slots, low, high)
    {
      hide SlotAt;
      n := 0;
      assert forall k :: 0 <= k < added.Length ==> (View().slots[k].Some? <==> added[k]) by { SomeIffAdded(buf[..], added[..], size); }
      hide Slots, IsRing;
      while low + n < high && added[low + n]
        invariant low + n <= high
        invariant LeadingOnes(View().slots, low, high) == n + LeadingOnes(View().slots, low + n, high)
      {
        n := n + 1;
      }
    }

    method CountReady() returns (i: nat, tail: nat, wrap: nat)
      requires Valid()
      ensures i == Position(View(), end) && tail == Tail(View()) && wrap == Wrap(View())
      ensures wrap <= i <= i + tail <= added.Length && (wrap > 0 ==> i + tail == added.Length)
    {
      i := end % added.Length;
      assert i == Position(View(), end);
      hide Mod, LeadingOnes, Position, Slots;
      tail := CountOnes(i, added.Length);
      wrap := 0;
      if tail + i == added.Length {
        wrap := CountOnes(0, i);
      }
    }

    /** A copy of the bytes of `tail` slots from `i` on and of the first `wrap` slots. */
    method Copy(i: nat, tail: nat, wrap: nat) returns (v: Bytes)
      requires Valid() && i == Position(View(), end) && tail == Tail(View()) && wrap == Wrap(View())
      requires i + tail <= added.Length && (wrap > 0 ==> i + tail == added.Length)
      ensures v == Flat(Taken(View()))
    {
      var bytes := buf[..];
      TakenBytes(bytes, added[..], size, View(), i, tail, wrap);
      hide *;
      v := if wrap > 0 then bytes[Offset(i, size)..] + bytes[..Offset(wrap, size)] else bytes[Offset(i, size)..Offset(i + tail, size)];
    }

    method Take(minCount: nat) returns (v: Option<Bytes>)
      requires Valid()
      modifies this`end, added
      ensures Valid()
      ensures
        var r := old(View());
        if Tail(r) + Wrap(r) < minCount then v.None? && View() == r
        else v == Some(Flat(Taken(r))) && View() == AfterTake(r)
    {
      hide Mod, LeadingOnes, Values, Cleared, Position, AllSome, Tail, Wrap, Flat, Slots, Taken;
      var i, tail, wrap := CountReady();
      if tail + wrap < minCount {
        return None;
      }
      var bytes := Copy(i, tail, wrap);
      end := end + tail + wrap;
      Fill(i, i + tail);
      if wrap > 0 {
        Fill(0, wrap);
      } else {
        ClearedNothing(View().slots);
      }
      v := Some(bytes);
    }

    method Fill(low: nat, high: nat)
      requires buf as object != added as object && IsBuffer(buf[..], added[..], size) && low <= high <= added.Length
      modifies added
      ensures IsBuffer(buf[..], added[..], size) && View().end == old(View()).end
      ensures View().slots == Cleared(old(View()).slots, low, high)
    {
      hide Slots;
      for k := low to high
        invariant forall j :: 0 <= j < added.Length ==> added[j] == if low <= j < k then false else old(added[j])
      {
        added[k] := false;
      }
      assert buf[..] == old(buf[..]);
      ClearSlots(buf[..], old(added[..]), size, low, high, added[..]);
    }
  }

  lemma ClearedNothing<M>(slots: seq<Option<M>>)
    ensures Cleared(slots, 0, 0) == slots
  {
  }

  // ---------------------------------------------------------------- positions in the ring

  /** The index `d` places after the start sits `d` places after the position of the end, wrapping once. */
  lemma PositionFromStart<M>(r: Ring<M>, d: nat)
    requires IsRing(r) && d < 2 * |r.slots|
    ensures
      var c, i := |r.slots|, Position(r, r.end);
      Position(r, Start(r) + d) == if i + d < c then i + d else if i + d < 2 * c then i + d - c else i + d - 2 * c
  {
    hide Mod;
    var c, i := |r.slots|, Position(r, r.end);
    var q := ModQuotient(c, r.end);
    var x := Start(r) + d;
    assert x == (q - 1) * c + (i + d) && (q - 1) * c == q * c - c;
    if i + d < c {
      ModIs(c, x, q - 1, i + d);
    } else if i + d < 2 * c {
      ModIs(c, x, q, i + d - c);
    } else {
      assert (q + 1) * c == q * c + c;
      ModIs(c, x, q + 1, i + d - 2 * c);
    }
  }

  lemma SamePosition<M>(r: Ring<M>, a: nat, b: nat)
    requires IsRing(r) && Start(r) <= a < r.end && Start(r) <= b < r.end && Position(r, a) == Position(r, b)
    ensures a == b
  {
    hide Position;
    PositionFromStart(r, a - Start(r));
    PositionFromStart(r, b - Start(r));
  }

  /** The `d`-th value taken comes from the slot of the `d`-th untaken index. */
  lemma TakenAt<M>(r: Ring<M>, d: nat)
    requires IsRing(r) && d < Tail(r) + Wrap(r)
    ensures d < |r.slots| && r.slots[Position(r, Start(r) + d)] == Some(Taken(r)[d])
  {
    hide Position, LeadingOnes, Tail, Wrap, Mod;
    WrapMeansFull(r);
    PositionFromStart(r, d);
    var i := Position(r, r.end);
    if d < Tail(r) {
      assert Taken(r)[d] == Values(r.slots, i, i + Tail(r))[d];
    } else {
      assert Taken(r)[d] == Values(r.slots, 0, Wrap(r))[d - Tail(r)];
    }
  }

  lemma WrapMeansFull<M>(r: Ring<M>)
    requires IsRing(r)
    ensures Wrap(r) > 0 ==> Position(r, r.end) + Tail(r) == |r.slots|
    ensures Tail(r) + Wrap(r) <= |r.slots|
  {
    hide Position, LeadingOnes;
  }

  /** What is counted is the whole stretch from the start: the slot after it is empty, unless all are full. */
  lemma TakeStopsAtGap<M>(r: Ring<M>)
    requires IsRing(r)
    ensures
      var n := Tail(r) + Wrap(r);
      n <= |r.slots| && (n < |r.slots| ==> r.slots[Position(r, Start(r) + n)].None?)
  {
    hide Position, LeadingOnes, Mod;
    WrapMeansFull(r);
    PositionFromStart(r, Tail(r) + Wrap(r));
  }

  /** A take clears exactly the slots it returns. */
  lemma ClearedAt<M>(r: Ring<M>, d: nat)
    requires IsRing(r) && d < |r.slots|
    ensures AfterTake(r).slots[Position(r, Start(r) + d)]
         == if d < Tail(r) + Wrap(r) then None else r.slots[Position(r, Start(r) + d)]
  {
    hide Position, LeadingOnes, Tail, Wrap, Mod;
    WrapMeansFull(r);
    PositionFromStart(r, d);
  }

  // ---------------------------------------------------------------- the channel

  /** Senders push below `end` only; `inFlight` is the queue between them and the receiver. */
  datatype Channel<M> = Channel(ring: Ring<M>, inFlight: seq<nat>, sent: set<nat>, received: seq<M>)

  datatype Step = Send(i: nat) | Deliver | Take(minCount: nat)

  /** A sender passes `block` once `i < end`; every index is sent once. */
  function Do<M>(message: nat -> M, ch: Channel<M>, step: Step): (r: Channel<M>)
    requires IsRing(ch.ring)
  {
    match step
    case Send(i) =>
      if i < ch.ring.end && i !in ch.sent then ch.(inFlight := ch.inFlight + [i], sent := ch.sent + {i}) else ch
    case Deliver =>
      if ch.inFlight == [] then ch
      else ch.(ring := RingInsert(ch.ring, ch.inFlight[0], message(ch.inFlight[0])), inFlight := ch.inFlight[1..])
    case Take(minCount) =>
      if Tail(ch.ring) + Wrap(ch.ring) < minCount then ch
      else ch.(ring := AfterTake(ch.ring), received := ch.received + Taken(ch.ring))
  }

  ghost predicate Arrived<M>(ch: Channel<M>, i: nat) { i in ch.sent && i !in ch.inFlight }

  /** Every slot within reach holds its message exactly if it has arrived. */
  ghost predicate SlotsFit<M>(message: nat -> M, ch: Channel<M>)
    requires IsRing(ch.ring)
  {
    forall i {:trigger Arrived(ch, i)} :: Start(ch.ring) <= i < ch.ring.end ==>
      ch.ring.slots[Position(ch.ring, i)] == if Arrived(ch, i) then Some(message(i)) else None
  }

  ghost predicate Inv<M>(message: nat -> M, ch: Channel<M>)
  {
    && IsRing(ch.ring) && SlotsFit(message, ch)
    && (forall i :: i in ch.sent ==> i < ch.ring.end)
    && (forall i :: i in ch.inFlight ==> i in ch.sent && Start(ch.ring) <= i < ch.ring.end)
    && (forall a, b :: 0 <= a < b < |ch.inFlight| ==> ch.inFlight[a] != ch.inFlight[b])
    && (forall i :: 0 <= i < Start(ch.ring) ==> i in ch.sent)
    && |ch.received| == Start(ch.ring)
    && (forall k :: 0 <= k < |ch.received| ==> ch.received[k] == message(k))
  }

  /** `take` counts the longest run of arrived indices from the first one not taken, wherever it wraps. */
  lemma CountIsLongestRun<M>(message: nat -> M, ch: Channel<M>)
    requires Inv(message, ch)
    ensures
      var start, n := Start(ch.ring), Tail(ch.ring) + Wrap(ch.ring);
      && (forall i :: start <= i < start + n ==> Arrived(ch, i))
      && n <= |ch.ring.slots| && (n < |ch.ring.slots| ==> !Arrived(ch, start + n))
  {
    hide Position, LeadingOnes, Mod, Tail, Wrap, Taken;
    var r, n := ch.ring, Tail(ch.ring) + Wrap(ch.ring);
    TakeStopsAtGap(r);
    assert forall i :: Start(r) <= i < r.end ==> (Arrived(ch, i) <==> r.slots[Position(r, i)].Some?);
    hide SlotsFit, Arrived;
    forall i | Start(r) <= i < Start(r) + n ensures Arrived(ch, i) {
      TakenAt(r, i - Start(r));
    }
  }

  lemma SendHolds<M>(message: nat -> M, ch: Channel<M>, i: nat)
    requires Inv(message, ch)
    ensures Inv(message, Do(message, ch, Send(i)))
  {
    var ch' := Do(message, ch, Send(i));
    forall j | Start(ch.ring) <= j < ch.ring.end ensures Arrived(ch', j) == Arrived(ch, j) { }
  }

  /** A delivered message never overwrites a live slot. */
  lemma DeliverHolds<M>(message: nat -> M, ch: Channel<M>)
    requires Inv(message, ch)
    ensures ch.inFlight != [] ==> ch.ring.slots[Position(ch.ring, ch.inFlight[0])].None?
    ensures Inv(message, Do(message, ch, Deliver))
  {
    hide Mod;
    if ch.inFlight != [] {
      var i, ch' := ch.inFlight[0], Do(message, ch, Deliver);
      assert !Arrived(ch, i);
      assert forall j :: j in ch'.inFlight ==> j in ch.inFlight;
      forall j | Start(ch'.ring) <= j < ch'.ring.end
        ensures ch'.ring.slots[Position(ch'.ring, j)] == if Arrived(ch', j) then Some(message(j)) else None
      {
        if j != i && Position(ch.ring, j) == Position(ch.ring, i) {
          SamePosition(ch.ring, i, j);
        }
        assert j != i ==> Arrived(ch', j) == Arrived(ch, j);
      }
    }
  }

  lemma TakeHolds<M>(message: nat -> M, ch: Channel<M>, minCount: nat)
    requires Inv(message, ch)
    ensures Inv(message, Do(message, ch, Take(minCount)))
  {
    hide Mod, Position, LeadingOnes, Tail, Wrap, Taken, AfterTake, Cleared, Values;
    var r, n := ch.ring, Tail(ch.ring) + Wrap(ch.ring);
    if n >= minCount {
      var ch' := Do(message, ch, Take(minCount));
      WrapMeansFull(r);
      AfterTakeEnd(r);
      forall j | Start(r) <= j < Start(r) + n ensures Arrived(ch, j) && Taken(r)[j - Start(r)] == message(j) {
        TakenAt(r, j - Start(r));
        assert Arrived(ch, j);
      }
      forall j | Start(ch'.ring) <= j < ch'.ring.end
        ensures ch'.ring.slots[Position(ch'.ring, j)] == if Arrived(ch', j) then Some(message(j)) else None
      {
        TakeSlot(message, ch, j);
      }
      forall i | i in ch.inFlight ensures i >= Start(r) + n {
        assert !Arrived(ch, i);
      }
      forall i | 0 <= i < Start(ch'.ring) ensures i in ch'.sent {
        assert i >= Start(r) ==> Arrived(ch, i);
      }
      forall k | 0 <= k < |ch'.received| ensures ch'.received[k] == message(k) {
        assert k >= Start(r) ==> Arrived(ch, k);
      }
    }
  }

  lemma AfterTakeEnd<M>(r: Ring<M>)
    requires IsRing(r)
    ensures AfterTake(r).end == r.end + Tail(r) + Wrap(r) && |AfterTake(r).slots| == |r.slots|
    ensures forall j: nat :: Position(AfterTake(r), j) == Position(r, j)
  {
    hide Mod, LeadingOnes, Tail, Wrap;
  }

  lemma TakeSlot<M>(message: nat -> M, ch: Channel<M>, j: nat)
    requires Inv(message, ch)
    requires
      var n := Tail(ch.ring) + Wrap(ch.ring);
      Start(ch.ring) + n <= j < ch.ring.end + n
    ensures AfterTake(ch.ring).slots[Position(ch.ring, j)] == if Arrived(ch, j) then Some(message(j)) else None
  {
    hide Mod, Position, LeadingOnes, Tail, Wrap, Taken, AfterTake, Cleared, Values;
    var r, c := ch.ring, |ch.ring.slots|;
    WrapMeansFull(r);
    if j < r.end {
      ClearedAt(r, j - Start(r));
      assert Arrived(ch, j) ==> j in ch.sent;
    } else {
      PositionFromStart(r, j - Start(r));
      PositionFromStart(r, j - r.end);
      ClearedAt(r, j - r.end);
      assert !Arrived(ch, j);
    }
  }

  /** The channel after any run of steps. */
  function Exec<M>(message: nat -> M, capacity: nat, steps: seq<Step>): (ch: Channel<M>)
    requires capacity >= 2
    ensures Inv(message, ch)
  {
    if steps == [] then Channel(Ring(capacity, seq(capacity, _ => None)), [], {}, [])
    else
      var before := Exec(message, capacity, steps[..|steps| - 1]);
      var step := steps[|steps| - 1];
      StepHolds(message, before, step);
      Do(message, before, step)
  }

  lemma StepHolds<M>(message: nat -> M, ch: Channel<M>, step: Step)
    requires Inv(message, ch)
    ensures Inv(message, Do(message, ch, step))
  {
    match step
    case Send(i) => SendHolds(message, ch, i);
    case Deliver => DeliverHolds(message, ch);
    case Take(minCount) => TakeHolds(message, ch, minCount);
  }

  /** In every run the takes concatenate to the messages in index order, and whatever is in flight
      fits the window that `insert` demands. */
  lemma ReorderedIsOrdered<M>(message: nat -> M, capacity: nat, steps: seq<Step>, i: nat)
    requires capacity >= 2
    ensures
      var ch := Exec(message, capacity, steps);
      && (forall k :: 0 <= k < |ch.received| ==> ch.received[k] == message(k))
      && (i in ch.inFlight ==> ch.ring.end - |ch.ring.slots| <= i < ch.ring.end)
  {
  }
}
