/** The two locked parts of `OrderingSender`: the byte buffer and the waker shards.

    Each is a value with the operations as functions, and a class that performs them in place. */
module OrderingBuffer {
  import opened Wrappers

  type Bytes = seq<bv8>

  // ---------------------------------------------------------------- buffer

  /** `State`.  A task is named by the index it sends at; the stream is a single reader. */
  datatype Buffer = Buffer(
    capacity: nat, spare: nat, data: Bytes, closed: bool, writeReady: Option<nat>, streamReady: bool)
  {
    predicate Valid() { capacity >= 1 && spare >= 1 && |data| <= capacity + spare }

    predicate Fits(m: Bytes) { |data| + |m| <= capacity + spare }

    /** `written + spare >= buf.len()`. */
    predicate AtThreshold() { |data| >= capacity }

    predicate TakeReady() { |data| > 0 && (AtThreshold() || closed) }
  }

  /** `State::write` by the task at `i`; `wakes` says whether the reader is woken. */
  function BufferWrite(b: Buffer, m: Bytes, i: nat): (r: (Buffer, bool))
    requires b.Valid()
    ensures r.0.Valid()
  {
    if b.Fits(m) then
      var next := b.(data := b.data + m);
      if next.AtThreshold() then (next.(streamReady := false), b.streamReady) else (next, false)
    else
      (b.(writeReady := Some(i)), false)
  }

  /** `State::take`: the bytes when ready, and the task to wake. */
  function BufferTake(b: Buffer): (r: (Buffer, Option<Bytes>, Option<nat>))
    requires b.Valid()
    ensures r.0.Valid()
  {
    if b.TakeReady() then (b.(data := [], writeReady := None), Some(b.data), b.writeReady)
    else (b.(streamReady := true), None, None)
  }

  /** `State::close`. */
  function BufferClose(b: Buffer): (r: (Buffer, bool))
    requires b.Valid()
    ensures r.0.Valid()
  {
    (b.(closed := true, streamReady := false), b.streamReady)
  }

  class SenderState {
    const buf: array<bv8>
    const spare: nat
    var written: nat
    var closed: bool
    var writeReady: Option<nat>
    var streamReady: bool

    ghost predicate Valid()
      reads this
    {
      spare >= 1 && buf.Length > spare && written <= buf.Length
    }

    ghost function View(): Buffer
      requires Valid()
      reads this, buf
    {
      Buffer(buf.Length - spare, spare, buf[..written], closed, writeReady, streamReady)
    }

    constructor (capacity: nat, spare: nat)
      requires capacity >= 1 && spare >= 1
      ensures Valid() && fresh(buf)
      ensures View() == Buffer(capacity, spare, [], false, None, false)
    {
      this.buf := new bv8[capacity + spare](_ => 0);
      this.spare := spare;
      written, closed, writeReady, streamReady := 0, false, None, false;
    }

    /** A message must be smaller than the spare capacity, or the original panics. */
    method Write(m: Bytes, i: nat) returns (ready: bool, wakesReader: bool)
      requires Valid() && |m| < spare
      modifies this, buf
      ensures Valid()
      ensures ready == old(View().Fits(m))
      ensures (View(), wakesReader) == BufferWrite(old(View()), m, i)
      ensures ready <==> old(written) + |m| <= buf.Length
      ensures wakesReader <==> ready && old(streamReady) && old(written) + |m| >= buf.Length - spare
    {
      wakesReader := false;
      if |m| <= buf.Length - written {
        ghost var data := buf[..written];
        forall k | 0 <= k < |m| {
          buf[written + k] := m[k];
        }
        written := written + |m|;
        assert buf[..written] == data + m;
        if written + spare >= buf.Length {
          wakesReader := streamReady;
          streamReady := false;
        }
        ready := true;
      } else {
        writeReady := Some(i);
        ready := false;
      }
    }

    method Take() returns (chunk: Option<Bytes>, wakes: Option<nat>)
      requires Valid()
      modifies this
      ensures Valid()
      ensures (View(), chunk, wakes) == BufferTake(old(View()))
      ensures chunk.Some? <==> old(written) > 0 && (old(written) >= buf.Length - spare || old(closed))
      ensures chunk.Some? ==> chunk.value == old(buf[..written]) && written == 0
      ensures chunk.None? ==> written == old(written) && streamReady
    {
      if written > 0 && (written + spare >= buf.Length || closed) {
        chunk := Some(buf[..written]);
        written := 0;
        wakes := writeReady;
        writeReady := None;
      } else {
        streamReady := true;
        chunk, wakes := None, None;
      }
    }

    method Close() returns (wakesReader: bool)
      requires Valid() && !closed
      modifies this
      ensures Valid()
      ensures (View(), wakesReader) == BufferClose(old(View()))
    {
      closed := true;
      wakesReader := streamReady;
      streamReady := false;
    }
  }

  // ---------------------------------------------------------------- waker shards

  datatype Shard = Shard(wokenAt: nat, wakers: seq<nat>)
  {
    predicate Valid() { forall i, j :: 0 <= i < j < |wakers| ==> wakers[i] < wakers[j] }
  }

  /** Sorted insertion without duplicates. */
  function Insert(wakers: seq<nat>, i: nat): (r: seq<nat>)
  {
    if wakers == [] || wakers[0] > i then [i] + wakers
    else if wakers[0] == i then wakers
    else [wakers[0]] + Insert(wakers[1..], i)
  }

  /** The wakers that stay when `i` is woken: if `i` waits, everything after it, else all. */
  function Woken(wakers: seq<nat>, i: nat): (r: seq<nat>)
  {
    if i in wakers then After(wakers, i) else wakers
  }

  function After(wakers: seq<nat>, i: nat): (r: seq<nat>)
  {
    if wakers == [] then [] else if wakers[0] > i then wakers else After(wakers[1..], i)
  }

  lemma {:induction false} InsertKeepsOrder(wakers: seq<nat>, i: nat)
    requires Shard(0, wakers).Valid()
    ensures Shard(0, Insert(wakers, i)).Valid()
    ensures forall k :: k in Insert(wakers, i) <==> k == i || k in wakers
  {
    if wakers != [] && wakers[0] < i {
      var rest := wakers[1..];
      InsertKeepsOrder(rest, i);
      assert wakers == [wakers[0]] + rest;
      var r := Insert(wakers, i);
      assert r == [wakers[0]] + Insert(rest, i);
      hide Insert;
      forall a, b | 0 <= a < b < |r| ensures r[a] < r[b] {
        if a == 0 {
          assert r[b] in Insert(rest, i);
        }
      }
    }
  }

  lemma WokenKeepsOrder(wakers: seq<nat>, i: nat)
    requires Shard(0, wakers).Valid()
    ensures Shard(0, Woken(wakers, i)).Valid()
    ensures forall k :: k in Woken(wakers, i) <==> k in wakers && (i in wakers ==> k > i)
  {
    hide After;
    AfterKeepsOrder(wakers, i);
  }

  lemma {:induction false} AfterKeepsOrder(wakers: seq<nat>, i: nat)
    requires Shard(0, wakers).Valid()
    ensures Shard(0, After(wakers, i)).Valid()
    ensures forall k :: k in After(wakers, i) <==> k in wakers && k > i
  {
    if wakers != [] {
      assert wakers == [wakers[0]] + wakers[1..];
      if wakers[0] <= i {
        AfterKeepsOrder(wakers[1..], i);
      }
    }
  }

  class WaitingShard {
    var wokenAt: nat
    var wakers: seq<nat>

    ghost function View(): Shard
      reads this
    {
      Shard(wokenAt, wakers)
    }

    constructor ()
      ensures View() == Shard(0, [])
    {
      wokenAt, wakers := 0, [];
    }

    /** Rejects a caller whose view of the position is behind; else inserts, searching backwards. */
    method Add(current: nat, i: nat) returns (ok: bool)
      requires View().Valid()
      modifies this
      ensures ok == (current >= old(wokenAt)) && wokenAt == old(wokenAt)
      ensures wakers == if ok then Insert(old(wakers), i) else old(wakers)
    {
      if current < wokenAt {
        return false;
      }
      var j := |wakers|;
      while j > 0
        invariant 0 <= j <= |wakers|
        invariant forall k :: j <= k < |wakers| ==> wakers[k] > i
      {
        j := j - 1;
        if wakers[j] == i {
          InsertExisting(wakers, i);
          return true;
        } else if wakers[j] < i {
          InsertAt(wakers, i, j + 1);
          wakers := wakers[..j + 1] + [i] + wakers[j + 1..];
          return true;
        }
      }
      InsertAt(wakers, i, 0);
      wakers := wakers[..0] + [i] + wakers[0..];
      return true;
    }

    /** Moves the position, drops what waits before `i`, and wakes what waits at `i`. */
    method Wake(i: nat) returns (woke: bool)
      requires View().Valid()
      modifies this
      ensures wokenAt == if old(wokenAt) < i then i else old(wokenAt)
      ensures woke == (i in old(wakers)) && wakers == Woken(old(wakers), i)
    {
      wokenAt := if wokenAt < i then i else wokenAt;
      var idx := 0;
      while idx < |wakers| && wakers[idx] < i
        invariant 0 <= idx <= |wakers|
        invariant forall k :: 0 <= k < idx ==> wakers[k] < i
      {
        idx := idx + 1;
      }
      woke := idx < |wakers| && wakers[idx] == i;
      if woke {
        AfterAt(wakers, i, idx);
        wakers := wakers[idx + 1..];
      }
    }
  }

  lemma {:induction false} InsertExisting(wakers: seq<nat>, i: nat)
    requires Shard(0, wakers).Valid() && i in wakers
    ensures Insert(wakers, i) == wakers
  {
    if wakers[0] < i {
      var rest := wakers[1..];
      assert wakers == [wakers[0]] + rest;
      assert Shard(0, rest).Valid() && i in rest;
      assert Insert(wakers, i) == [wakers[0]] + Insert(rest, i);
      hide Insert;
      InsertExisting(rest, i);
    } else {
      assert wakers[0] == i;
    }
  }

  /** Everything before `j` is below `i`, and everything from there on above. */
  ghost predicate Splits(wakers: seq<nat>, i: nat, j: nat)
  {
    && j <= |wakers|
    && (forall k :: 0 <= k < j ==> wakers[k] < i)
    && (forall k :: j <= k < |wakers| ==> wakers[k] > i)
  }

  lemma {:induction false} InsertAt(wakers: seq<nat>, i: nat, j: nat)
    requires Splits(wakers, i, j)
    ensures j <= |wakers| && Insert(wakers, i) == wakers[..j] + [i] + wakers[j..]
  {
    assert j <= |wakers|;
    if j == 0 {
      assert Insert(wakers, i) == [i] + wakers;
      hide Insert;
    } else {
      assert wakers[0] < i && Insert(wakers, i) == [wakers[0]] + Insert(wakers[1..], i);
      SplitsRest(wakers, i, j);
      hide *;
      InsertAt(wakers[1..], i, j - 1);
      SplitFirst(wakers, i, j);
    }
  }

  lemma SplitsRest(wakers: seq<nat>, i: nat, j: nat)
    requires Splits(wakers, i, j) && j > 0
    ensures Splits(wakers[1..], i, j - 1)
  {
  }

  lemma SplitFirst(wakers: seq<nat>, i: nat, j: nat)
    requires 0 < j <= |wakers|
    ensures [wakers[0]] + (wakers[1..][..j - 1] + [i] + wakers[1..][j - 1..]) == wakers[..j] + [i] + wakers[j..]
  {
    assert wakers[..j] == [wakers[0]] + wakers[1..][..j - 1] && wakers[j..] == wakers[1..][j - 1..];
  }

  lemma {:induction false} AfterAt(wakers: seq<nat>, i: nat, idx: nat)
    requires Shard(0, wakers).Valid() && idx < |wakers| && wakers[idx] == i
    ensures After(wakers, i) == wakers[idx + 1..]
  {
    if idx > 0 {
      AfterAt(wakers[1..], i, idx - 1);
      assert wakers[1..][idx..] == wakers[idx + 1..];
    } else if |wakers| > 1 {
      assert After(wakers, i) == After(wakers[1..], i) == wakers[1..];
    }
  }
}
