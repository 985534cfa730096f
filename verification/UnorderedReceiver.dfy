/** `unordered_receiver.rs`: reassembly of messages from chunks, and the window of wakers. */
module UnorderedReceiver {
  import opened Wrappers
  import opened OrderingBuffer
  import opened PrimeField

  // ---------------------------------------------------------------- spare bytes

  /** Unread bytes of received chunks. */
  class Spare {
    var buf: Bytes
    var offset: nat

    ghost predicate Valid()
      reads this
    {
      offset <= |buf|
    }

    ghost function Unread(): Bytes
      requires Valid()
      reads this
    {
      buf[offset..]
    }

    constructor ()
      ensures Valid() && Unread() == []
    {
      buf, offset := [], 0;
    }

    /** A message of `size` bytes, if there is enough data. */
    method Read(size: nat) returns (m: Option<Bytes>)
      requires Valid()
      modifies this
      ensures Valid()
      ensures if old(|Unread()|) >= size
              then m.Some? && |m.value| == size && m.value + Unread() == old(Unread())
              else m.None? && Unread() == old(Unread())
    {
      var end := offset + size;
      if end <= |buf| {
        m := Some(buf[offset..end]);
        offset := end;
      } else {
        m := None;
      }
    }

    method Replace(v: Bytes)
      modifies this
      ensures Valid() && Unread() == v
    {
      offset := 0;
      buf := v;
    }

    /** Adds a chunk when a read has come up short, and tries again.  The caller has less than
        `size` bytes left; otherwise the original subtracts below zero. */
    method Extend(v: Bytes, size: nat) returns (m: Option<Bytes>)
      requires Valid() && |Unread()| <= size
      modifies this
      ensures Valid()
      ensures if old(|Unread()|) + |v| >= size
              then m.Some? && |m.value| == size && m.value + Unread() == old(Unread()) + v
              else m.None? && Unread() == old(Unread()) + v
    {
      var remainder := |buf| - offset;
      if remainder + |v| < size {
        buf := buf[offset..] + v;
        offset := 0;
        return None;
      }
      if remainder > 0 {
        var needed := size - remainder;
        var joined := buf[offset..] + v[..needed];
        Replace(v[needed..]);
        m := Some(joined);
      } else {
        Replace(v[size..]);
        m := Some(v[..size]);
      }
    }
  }

  // ---------------------------------------------------------------- the waker window

  /** Positions of the waiting receivers: a ring of wakers and an overflow list. */
  datatype Window = Window(next: nat, ring: seq<Option<nat>>, overflow: seq<nat>)

  predicate IsWindow(w: Window) { |w.ring| >= 2 }

  /** `add_waker`, where `i` must not have been received yet. */
  function Register(w: Window, i: nat): (r: Window)
    requires IsWindow(w) && i > w.next
    ensures IsWindow(r) && r.next == w.next
  {
    if i > w.next + |w.ring| then w.(overflow := w.overflow + [i])
    else w.(ring := w.ring[Slot(w, i) := Some(i)])
  }

  function Slot(w: Window, i: nat): (k: nat)
    requires IsWindow(w)
    ensures k < |w.ring|
  {
    Mod(|w.ring|, i)
  }

  /** The receivers `wake_next` wakes: the one whose turn it is, and on every half lap all that overflowed. */
  function WokenBy(w: Window): (r: set<nat>)
    requires IsWindow(w)
  {
    var slot := w.ring[Slot(w, w.next + 1)];
    (if slot.Some? then {slot.value} else {})
    + (if (w.next + 1) % (|w.ring| / 2) == 0 then set i | i in w.overflow else {})
  }

  /** `wake_next`. */
  function Advance(w: Window): (r: Window)
    requires IsWindow(w)
    ensures IsWindow(r) && r.next == w.next + 1
  {
    var n := w.next + 1;
    Window(n, w.ring[Slot(w, n) := None], if n % (|w.ring| / 2) == 0 then [] else w.overflow)
  }

  /** The first multiple of `h` after `n`. */
  function NextMultiple(n: nat, h: nat): (r: nat)
    requires h >= 1
  {
    (n / h + 1) * h
  }

  /** A ring slot belongs to the one index within reach that maps to it. */
  ghost predicate RingFits(w: Window)
    requires IsWindow(w)
  {
    forall k :: 0 <= k < |w.ring| && w.ring[k].Some? ==>
      Slot(w, w.ring[k].value) == k && w.next < w.ring[k].value <= w.next + |w.ring|
  }

  /** An overflowed index lies more than `c - c/2` beyond the next half lap, which will wake it. */
  ghost predicate OverflowFits(w: Window)
    requires IsWindow(w)
  {
    var c := |w.ring|;
    forall i :: i in w.overflow ==> i > NextMultiple(w.next, c / 2) + (c - c / 2)
  }

  ghost predicate IsKept(w: Window, i: nat)
    requires IsWindow(w)
  {
    w.ring[Slot(w, i)] == Some(i) || i in w.overflow
  }

  /** Everyone who is parked is ahead of `next`, and kept. */
  ghost predicate AllKept(w: Window, parked: set<nat>)
    requires IsWindow(w)
  {
    forall i :: i in parked ==> i > w.next && IsKept(w, i)
  }

  ghost predicate WindowInv(w: Window, parked: set<nat>)
  {
    IsWindow(w) && RingFits(w) && OverflowFits(w) && AllKept(w, parked)
  }

  lemma SameSlot(w: Window, n: nat, i: nat, j: nat)
    requires IsWindow(w) && Slot(w, i) == Slot(w, j)
    requires n < i <= n + |w.ring| && n < j <= n + |w.ring|
    ensures i == j
  {
    hide Mod;
    var c := |w.ring|;
    var qi := ModQuotient(c, i);
    var qj := ModQuotient(c, j);
    assert i - j == (qi - qj) * c;
    if qi != qj {
      NonzeroMultipleIsLarge(c, qi - qj);
    }
  }

  lemma NextMultipleBounds(n: nat, h: nat)
    requires h >= 1
    ensures n < NextMultiple(n, h) <= n + h
  {
    var q := n / h;
    assert n == h * q + n % h;
    assert (q + 1) * h == h * q + h;
  }

  lemma NextMultipleStep(n: nat, h: nat)
    requires h >= 1 && (n + 1) % h != 0
    ensures NextMultiple(n + 1, h) == NextMultiple(n, h)
  {
    var q, r := n / h, n % h;
    assert n == h * q + r;
    if r == h - 1 {
      assert n + 1 == h * (q + 1) + 0 by { assert h * (q + 1) == h * q + h; }
      DivIs(n + 1, h, q + 1, 0);
    } else {
      DivIs(n + 1, h, q, r + 1);
    }
  }

  lemma DivIs(x: nat, h: nat, q: nat, r: nat)
    requires h >= 1 && r < h && x == h * q + r
    ensures x / h == q && x % h == r
  {
    var d := q - x / h;
    assert d * h == x % h - r by {
      assert x == h * (x / h) + x % h;
      assert d * h == h * q - h * (x / h);
    }
    if d != 0 {
      NonzeroMultipleIsLarge(h, d);
    }
  }

  /** Registering keeps everyone who was kept: a slot is only rewritten for the same index, so the
      original's check that both wakers wake the same task holds. */
  lemma RegisterHolds(w: Window, parked: set<nat>, i: nat)
    requires WindowInv(w, parked) && i > w.next
    ensures WindowInv(Register(w, i), parked + {i})
    ensures i <= w.next + |w.ring| && w.ring[Slot(w, i)].Some? ==> w.ring[Slot(w, i)] == Some(i)
  {
    hide Mod, NextMultiple;
    var c := |w.ring|;
    NextMultipleBounds(w.next, c / 2);
    if i <= w.next + c && w.ring[Slot(w, i)].Some? {
      SameSlot(w, w.next, i, w.ring[Slot(w, i)].value);
    }
    var w' := Register(w, i);
    forall j | j in parked + {i} ensures j > w'.next && IsKept(w', j) {
      if j != i {
        assert IsKept(w, j);
      }
    }
  }

  /** Moving on wakes exactly the parked receivers that are no longer kept, the next one among them. */
  lemma AdvanceHolds(w: Window, parked: set<nat>)
    requires WindowInv(w, parked)
    ensures WindowInv(Advance(w), parked - WokenBy(w))
    ensures w.next + 1 in parked ==> w.next + 1 in WokenBy(w)
    ensures forall i :: i in WokenBy(w) ==> i > w.next
  {
    hide Mod, NextMultiple;
    var c, n, w' := |w.ring|, w.next + 1, Advance(w);
    var slot := w.ring[Slot(w, n)];
    NextMultipleBounds(w.next, c / 2);
    if slot.Some? {
      SameSlot(w, w.next, n, slot.value);
    }
    if n % (c / 2) != 0 {
      NextMultipleStep(w.next, c / 2);
    }
    assert RingFits(w') by {
      forall k | 0 <= k < c && w'.ring[k].Some?
        ensures Slot(w', w'.ring[k].value) == k && n < w'.ring[k].value <= n + c
      {
        assert w'.ring[k] == w.ring[k] && k != Slot(w, n);
      }
    }
    forall i | i in parked - WokenBy(w) ensures i > n && IsKept(w', i) {
      assert i > w.next && IsKept(w, i);
      assert i !in w.overflow && Slot(w, i) == Slot(w, n) ==> slot == Some(i);
    }
  }

  // ---------------------------------------------------------------- runs of the window

  datatype WindowStep = Park(i: nat) | Received

  /** The state after a run: the window and who is parked. A receiver polled at or behind `next` does not park. */
  function RunWindow(capacity: nat, steps: seq<WindowStep>): (r: (Window, set<nat>))
    requires capacity >= 2
    ensures WindowInv(r.0, r.1) && |r.0.ring| == capacity
  {
    if steps == [] then (Window(0, seq(capacity, _ => None), []), {})
    else
      var (w, parked) := RunWindow(capacity, steps[..|steps| - 1]);
      match steps[|steps| - 1]
      case Park(i) =>
        if i <= w.next then (w, parked)
        else RegisterHolds(w, parked, i); (Register(w, i), parked + {i})
      case Received => AdvanceHolds(w, parked); (Advance(w), parked - WokenBy(w))
  }

  /** No receiver sleeps through its turn: in every run, whoever is still parked waits for a later index. */
  lemma NobodyOversleeps(capacity: nat, steps: seq<WindowStep>, i: nat)
    requires capacity >= 2
    ensures i in RunWindow(capacity, steps).1 ==> i > RunWindow(capacity, steps).0.next
  {
  }

  // ---------------------------------------------------------------- the receiver

  /** What polling the underlying stream yields, in turn; after the last event the stream has ended. */
  datatype Event = NotReady | Chunk(bytes: Bytes)

  function Flatten(events: seq<Event>): (r: Bytes)
  {
    if events == [] then []
    else (if events[0].Chunk? then events[0].bytes else []) + Flatten(events[1..])
  }

  /** `Panic` stands for the failing assertion in `add_waker`. */
  datatype Poll = Pending | Ready(message: Bytes) | EndOfStream(record: nat) | Panic

  /** What the receiver whose turn it is gets from the unread bytes and the stream, and what is left of them. */
  function Serve(unread: Bytes, stream: seq<Event>, next: nat, size: nat): (r: (Poll, Bytes, seq<Event>))
    decreases |stream|
  {
    if |unread| >= size then (Ready(unread[..size]), unread[size..], stream)
    else if stream == [] then (EndOfStream(next), unread, stream)
    else
      match stream[0]
      case NotReady => (Pending, unread, stream[1..])
      case Chunk(bytes) => Serve(unread + bytes, stream[1..], next, size)
  }

  /** A message is the next bytes however they are chunked; otherwise no byte is lost, and the stream
      was not ready or has ended with too few bytes.  `left` and `left'` count the events of the stream. */
  predicate IsServed(ahead: Bytes, left: nat, next: nat, size: nat, r: Poll, ahead': Bytes, left': nat)
  {
    && left' <= left
    && match r
       case Ready(m) => |m| == size && m + ahead' == ahead
       case Pending => ahead' == ahead && left' < left
       case EndOfStream(record) => ahead' == ahead && record == next && |ahead'| < size
       case Panic => false
  }

  lemma {:induction false} ServeConserves(unread: Bytes, stream: seq<Event>, next: nat, size: nat)
    ensures
      var (r, unread', stream') := Serve(unread, stream, next, size);
      IsServed(unread + Flatten(stream), |stream|, next, size, r, unread' + Flatten(stream'), |stream'|)
    decreases |stream|
  {
    if |unread| >= size {
      hide Flatten;
      assert unread[..size] + (unread[size..] + Flatten(stream)) == unread + Flatten(stream);
    } else if stream != [] {
      var rest := stream[1..];
      if stream[0].Chunk? {
        var bytes := stream[0].bytes;
        assert Flatten(stream) == bytes + Flatten(rest);
        assert Serve(unread, stream, next, size) == Serve(unread + bytes, rest, next, size);
        hide Flatten, Serve;
        ServeConserves(unread + bytes, rest, next, size);
        assert unread + bytes + Flatten(rest) == unread + (bytes + Flatten(rest));
      } else {
        assert Flatten(stream) == [] + Flatten(rest) == Flatten(rest);
        hide Flatten;
      }
    }
  }

  ghost predicate AllChunks(events: seq<Event>)
  {
    forall j :: 0 <= j < |events| ==> events[j].Chunk?
  }

  /** The answer after `k` chunks have been taken from the stream, each because the bytes before it
      were too few: the message when they suffice, else what the stream says next. */
  ghost predicate AnsweredAfter(
    unread: Bytes, stream: seq<Event>, next: nat, size: nat, r: Poll, unread': Bytes, stream': seq<Event>, k: nat)
  {
    && k <= |stream| && AllChunks(stream[..k])
    && (forall j :: 0 <= j < k ==> |unread| + |Flatten(stream[..j])| < size)
    && var held := unread + Flatten(stream[..k]);
       match r
       case Ready(m) => |held| >= size && m == held[..size] && unread' == held[size..] && stream' == stream[k..]
       case Pending =>
         |held| < size && k < |stream| && stream[k] == NotReady && unread' == held && stream' == stream[k + 1..]
       case EndOfStream(record) => |held| < size && k == |stream| && unread' == held && stream' == [] && record == next
       case Panic => false
  }

  /** Bytes that are there are served: chunks that reach the size before the first gap give `Ready`. */
  ghost predicate IsPrompt(
    unread: Bytes, stream: seq<Event>, next: nat, size: nat, r: Poll, unread': Bytes, stream': seq<Event>)
  {
    && (exists k: nat :: AnsweredAfter(unread, stream, next, size, r, unread', stream', k))
    && forall n :: 0 <= n <= |stream| && AllChunks(stream[..n]) && |unread| + |Flatten(stream[..n])| >= size ==> r.Ready?
  }

  lemma {:induction false} ServeIsPrompt(unread: Bytes, stream: seq<Event>, next: nat, size: nat)
    ensures
      var (r, unread', stream') := Serve(unread, stream, next, size);
      IsPrompt(unread, stream, next, size, r, unread', stream')
    decreases |stream|
  {
    var (r, unread', stream') := Serve(unread, stream, next, size);
    EmptyFlattens(unread, stream);
    if |unread| >= size || stream == [] || stream[0].NotReady? {
      assert AnsweredAfter(unread, stream, next, size, r, unread', stream', 0);
      hide *;
      AnswerIsPrompt(unread, stream, next, size, r, unread', stream', 0);
    } else {
      assert Serve(unread, stream, next, size) == Serve(unread + stream[0].bytes, stream[1..], next, size);
      ServeIsPrompt(unread + stream[0].bytes, stream[1..], next, size);
      hide Serve, Flatten, AnsweredAfter;
      var k: nat :| AnsweredAfter(unread + stream[0].bytes, stream[1..], next, size, r, unread', stream', k);
      hide *;
      AnsweredLater(unread, stream, next, size, r, unread', stream', k);
      AnswerIsPrompt(unread, stream, next, size, r, unread', stream', k + 1);
    }
  }

  lemma AnswerIsPrompt(
    unread: Bytes, stream: seq<Event>, next: nat, size: nat, r: Poll, unread': Bytes, stream': seq<Event>, k: nat)
    requires AnsweredAfter(unread, stream, next, size, r, unread', stream', k)
    ensures IsPrompt(unread, stream, next, size, r, unread', stream')
  {
    hide Flatten;
    forall n | 0 <= n <= |stream| && AllChunks(stream[..n]) && |unread| + |Flatten(stream[..n])| >= size ensures r.Ready? {
      if n > k && k < |stream| {
        assert stream[..n][k].Chunk?;
      }
    }
  }

  lemma AnsweredLater(
    unread: Bytes, stream: seq<Event>, next: nat, size: nat, r: Poll, unread': Bytes, stream': seq<Event>, k: nat)
    requires |unread| < size && stream != [] && stream[0].Chunk?
    requires AnsweredAfter(unread + stream[0].bytes, stream[1..], next, size, r, unread', stream', k)
    ensures AnsweredAfter(unread, stream, next, size, r, unread', stream', k + 1)
  {
    var bytes, rest := stream[0].bytes, stream[1..];
    forall j | 0 <= j <= |rest|
      ensures Flatten(stream[..j + 1]) == bytes + Flatten(rest[..j])
    {
      assert stream[..j + 1][1..] == rest[..j];
    }
    hide Flatten;
    assert unread + Flatten(stream[..k + 1]) == unread + bytes + Flatten(rest[..k]);
    forall j | 0 <= j < k + 1 ensures |unread| + |Flatten(stream[..j])| < size {
      if j > 0 {
        assert |unread + bytes| + |Flatten(rest[..j - 1])| < size;
      } else {
        EmptyFlattens(unread, stream);
      }
    }
    assert stream[..k + 1] == [stream[0]] + rest[..k];
  }

  lemma EmptyFlattens(unread: Bytes, stream: seq<Event>)
    ensures Flatten(stream[..0]) == [] && unread + Flatten(stream[..0]) == unread
  {
  }

  /** The receiving side as a value. */
  datatype Rx = Rx(window: Window, unread: Bytes, stream: seq<Event>)

  function Ahead(s: Rx): (r: Bytes) { s.unread + Flatten(s.stream) }

  function StartRx(stream: seq<Event>, capacity: nat): (s: Rx)
  {
    Rx(Window(0, seq(capacity, _ => None), []), [], stream)
  }

  /** `Receiver::poll`: whose turn it is polls the stream, who is early parks, who is late panics. */
  function PollRx(s: Rx, i: nat, size: nat): (r: (Poll, Rx))
    requires IsWindow(s.window)
    ensures IsWindow(r.1.window)
  {
    if i < s.window.next then (Panic, s)
    else if i > s.window.next then (Pending, s.(window := Register(s.window, i)))
    else
      var (answer, unread, stream) := Serve(s.unread, s.stream, i, size);
      (answer, Rx(Moved(s.window, i, answer), unread, stream))
  }

  lemma PollConserves(s: Rx, i: nat, size: nat)
    requires IsWindow(s.window)
    ensures
      var (r, s') := PollRx(s, i, size);
      && (r.Panic? <==> i < s.window.next) && |s'.stream| <= |s.stream|
      && s'.window == Moved(s.window, i, r)
      && (r.Ready? ==> i == s.window.next && |r.message| == size && r.message + Ahead(s') == Ahead(s))
      && (!r.Ready? ==> Ahead(s') == Ahead(s))
      && (r.Pending? && i == s.window.next ==> |s'.stream| < |s.stream|)
      && (r.EndOfStream? ==> i == s.window.next && r.record == i && |Ahead(s')| < size)
      && (i == s.window.next ==> IsPrompt(s.unread, s.stream, i, size, r, s'.unread, s'.stream))
      && (i > s.window.next ==> r.Pending? && s'.unread == s.unread && s'.stream == s.stream)
  {
    hide Register, Advance, Flatten, Serve, IsPrompt;
    ServeConserves(s.unread, s.stream, i, size);
    ServeIsPrompt(s.unread, s.stream, i, size);
  }

  /** The window after receiver `i` has been polled with answer `r`. */
  function Moved(w: Window, i: nat, r: Poll): (w': Window)
    requires IsWindow(w)
    ensures IsWindow(w')
  {
    if r.Ready? then Advance(w) else if i > w.next then Register(w, i) else w
  }

  class OperatingState {
    var stream: seq<Event>
    var next: nat
    const spare: Spare
    const wakers: array<Option<nat>>
    var overflow: seq<nat>

    ghost predicate Valid()
      reads this, spare
    {
      wakers.Length >= 2 && spare.Valid()
    }

    ghost function View(): Window
      requires Valid()
      reads this, spare, wakers
    {
      Window(next, wakers[..], overflow)
    }

    ghost function Value(): Rx
      requires Valid()
      reads this, spare, wakers
    {
      Rx(View(), spare.Unread(), stream)
    }

    constructor (stream: seq<Event>, capacity: nat)
      requires capacity >= 2
      ensures Valid() && fresh(spare) && fresh(wakers) && Value() == StartRx(stream, capacity)
    {
      this.stream := stream;
      next, overflow := 0, [];
      spare := new Spare();
      wakers := new Option<nat>[capacity](_ => None);
    }

    method AddWaker(i: nat)
      requires Valid() && i > next
      modifies this`overflow, wakers
      ensures Valid() && View() == Register(old(View()), i)
    {
      if i > next + wakers.Length {
        overflow := overflow + [i];
      } else {
        wakers[i % wakers.Length] := Some(i);
      }
    }

    method WakeNext() returns (woken: set<nat>)
      requires Valid()
      modifies this`next, this`overflow, wakers
      ensures Valid() && View() == Advance(old(View())) && woken == WokenBy(old(View()))
    {
      next := next + 1;
      var index := next % wakers.Length;
      woken := if wakers[index].Some? then {wakers[index].value} else {};
      wakers[index] := None;
      if next % (wakers.Length / 2) == 0 {
        woken := woken + set i | i in overflow;
        overflow := [];
      }
    }

    /** `poll_next` for a message of `size` bytes, by the receiver whose turn it is. */
    method PollNext(size: nat) returns (r: Poll, woken: set<nat>)
      requires Valid()
      modifies this, spare, wakers
      ensures Valid() && (r, spare.Unread(), stream) == Serve(old(spare.Unread()), old(stream), old(next), size)
      ensures IsPrompt(old(spare.Unread()), old(stream), old(next), size, r, spare.Unread(), stream)
      ensures View() == Moved(old(View()), old(next), r)
      ensures woken == if r.Ready? then WokenBy(old(View())) else {}
    {
      hide Advance, WokenBy, IsPrompt;
      ServeIsPrompt(spare.Unread(), stream, next, size);
      woken := {};
      ghost var answer := Serve(spare.Unread(), stream, next, size);
      ghost var view := View();
      var m := spare.Read(size);
      if m.Some? {
        woken := WakeNext();
        return Ready(m.value), woken;
      }
      while true
        invariant Valid() && |spare.Unread()| < size && View() == view && woken == {}
        invariant Serve(spare.Unread(), stream, next, size) == answer
        decreases |stream|
      {
        if stream == [] {
          return EndOfStream(next), woken;
        }
        var event := stream[0];
        stream := stream[1..];
        match event
        case NotReady =>
          return Pending, woken;
        case Chunk(bytes) =>
          ghost var joined := spare.Unread() + bytes;
          m := spare.Extend(bytes, size);
          if m.Some? {
            assert m.value == joined[..size] && spare.Unread() == joined[size..];
            woken := WakeNext();
            return Ready(m.value), woken;
          }
      }
    }

    /** `Receiver::poll`. */
    method Poll(i: nat, size: nat) returns (r: Poll, woken: set<nat>)
      requires Valid()
      modifies this, spare, wakers
      ensures Valid() && (r, Value()) == PollRx(old(Value()), i, size)
      ensures woken == if r.Ready? then WokenBy(old(View())) else {}
    {
      hide Serve, Register, Advance, WokenBy;
      if i == next {
        r, woken := PollNext(size);
      } else if i < next {
        r, woken := Panic, {};
      } else {
        AddWaker(i);
        r, woken := Pending, {};
      }
    }
  }
}
