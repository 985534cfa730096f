/** `apply_permutation.rs`: in-place permutation by following cycles. */
module ApplyPermutation {
  import opened Sets

  predicate IsPermutation(perm: seq<nat>)
  {
    && (forall i :: 0 <= i < |perm| ==> perm[i] < |perm|)
    && (forall i, j :: 0 <= i < j < |perm| ==> perm[i] != perm[j])
  }

  /** The reordering `apply` promises: position `i` receives what stood at `perm[i]`. */
  ghost predicate IsApplied<T>(perm: seq<nat>, before: seq<T>, after: seq<T>)
    requires IsPermutation(perm)
  {
    |before| == |after| == |perm| && forall i :: 0 <= i < |perm| ==> after[i] == before[perm[i]]
  }

  /** The reordering `apply_inv` promises: what stood at `i` goes to `perm[i]`. */
  ghost predicate IsInverseApplied<T>(perm: seq<nat>, before: seq<T>, after: seq<T>)
    requires IsPermutation(perm)
  {
    |before| == |after| == |perm| && forall i :: 0 <= i < |perm| ==> after[perm[i]] == before[i]
  }

  function Swap<T>(s: seq<T>, i: nat, j: nat): (r: seq<T>)
    requires i < |s| && j < |s|
    ensures |r| == |s|
  {
    s[i := s[j]][j := s[i]]
  }

  /** A set of positions made of whole cycles. */
  ghost predicate IsClosed(perm: seq<nat>, done: set<nat>)
    requires IsPermutation(perm)
  {
    && (forall k :: k in done ==> k < |perm|)
    && (forall k {:trigger perm[k]} :: 0 <= k < |perm| ==> (k in done <==> perm[k] in done))
  }

  /** `path` is the stretch of a cycle from `first` to `last`, outside `done`: its positions other
      than `first` are the images of its positions other than `last`. */
  ghost predicate IsPath(perm: seq<nat>, done: set<nat>, path: set<nat>, first: nat, last: nat)
    requires IsPermutation(perm)
  {
    && first in path && last in path && path !! done
    && (forall k :: k in path ==> k < |perm|)
    && (forall k {:trigger perm[k]} :: 0 <= k < |perm| && k != last ==> (k in path <==> perm[k] in path && perm[k] != first))
  }

  lemma NextIsNew(perm: seq<nat>, done: set<nat>, path: set<nat>, first: nat, last: nat)
    requires IsPermutation(perm) && IsClosed(perm, done) && IsPath(perm, done, path, first, last)
    requires perm[last] != first
    ensures perm[last] < |perm| && perm[perm[last]] < |perm|
    ensures perm[last] !in path && perm[last] !in done && perm[last] in Range(|perm|)
    ensures IsPath(perm, done, path + {perm[last]}, first, perm[last])
  {
    var next := perm[last];
    PathImages(perm, done, path, first, last);
    var path' := path + {next};
    forall k | 0 <= k < |perm| && k != next
      ensures k in path' <==> perm[k] in path' && perm[k] != first
    {
      if k != last {
        assert perm[k] != next;
      }
    }
  }

  /** Counting: a stretch with distinct images maps onto itself minus its first position. */
  lemma PathImages(perm: seq<nat>, done: set<nat>, path: set<nat>, first: nat, last: nat)
    requires IsPermutation(perm) && IsPath(perm, done, path, first, last)
    ensures perm[last] == first || perm[last] !in path
  {
    if perm[last] in path - {first} {
      var images := set k | k in path :: perm[k];
      assert images <= path - {first};
      ImageSize(perm, path);
      SubsetSize(images, path - {first});
    }
  }

  lemma {:induction false} ImageSize(perm: seq<nat>, s: set<nat>)
    requires IsPermutation(perm) && forall k :: k in s ==> k < |perm|
    ensures |set k | k in s :: perm[k]| == |s|
  {
    if s != {} {
      var x :| x in s;
      var rest := s - {x};
      ImageSize(perm, rest);
      var images := set k | k in rest :: perm[k];
      assert perm[x] !in images by {
        forall k | k in rest ensures perm[k] != perm[x] { assert k != x; }
      }
      assert (set k | k in s :: perm[k]) == images + {perm[x]};
    }
  }

  lemma CycleCloses(perm: seq<nat>, done: set<nat>, path: set<nat>, first: nat, last: nat)
    requires IsPermutation(perm) && IsClosed(perm, done) && IsPath(perm, done, path, first, last)
    requires perm[last] == first
    ensures IsClosed(perm, done + path) && IsClosed(perm, path)
  {
    forall k | 0 <= k < |perm| ensures k in path <==> perm[k] in path {
      if k != last { assert perm[k] != first; }
    }
  }

  /** Every set of whole cycles that holds `first` holds all of `path`. */
  ghost predicate IsReached(perm: seq<nat>, path: set<nat>, first: nat)
    requires IsPermutation(perm)
  {
    forall t {:trigger IsClosed(perm, t)} :: IsClosed(perm, t) && first in t ==> path <= t
  }

  /** The cycle of `first`: the least set of whole cycles that holds it. */
  ghost predicate IsCycleOf(perm: seq<nat>, cycle: set<nat>, first: nat)
    requires IsPermutation(perm)
  {
    first in cycle && IsClosed(perm, cycle) && IsReached(perm, cycle, first)
  }

  lemma ReachNext(perm: seq<nat>, path: set<nat>, first: nat, last: nat)
    requires IsPermutation(perm) && last < |perm| && last in path && IsReached(perm, path, first)
    ensures IsReached(perm, path + {perm[last]}, first)
  {
  }

  lemma ReachStart(perm: seq<nat>, first: nat)
    requires IsPermutation(perm)
    ensures IsReached(perm, {first}, first)
  {
  }

  lemma CycleIs(perm: seq<nat>, done: set<nat>, path: set<nat>, first: nat, last: nat)
    requires IsPermutation(perm) && IsClosed(perm, done) && IsPath(perm, done, path, first, last)
    requires perm[last] == first && IsReached(perm, path, first)
    ensures IsClosed(perm, done + path) && IsCycleOf(perm, path, first) && done + path - done == path
  {
    CycleCloses(perm, done, path, first, last);
  }

  // ---------------------------------------------------------------- the `permuted` bits

  /** Before round `i`, the finished positions are those below `i` and those with a bit set. */
  ghost predicate Marked(permuted: seq<bool>, done: set<nat>, i: nat)
  {
    forall k {:trigger permuted[k]} {:trigger k in done} :: 0 <= k < |permuted| ==> (k in done <==> k < i || permuted[k])
  }

  lemma MarkNext(permuted: seq<bool>, done: set<nat>, i: nat)
    requires Marked(permuted, done, i) && i < |permuted|
    ensures permuted[i] <==> i in done
    ensures permuted[i] ==> Marked(permuted, done, i + 1)
    ensures Marked(permuted, done + {i}, i + 1)
  {
  }

  lemma MarkStep(permuted: seq<bool>, done: set<nat>, i: nat, k: nat)
    requires Marked(permuted, done, i) && k < |permuted|
    ensures Marked(permuted[k := true], done + {k}, i)
  {
  }

  lemma MarkedAll(permuted: seq<bool>, done: set<nat>, k: nat)
    requires Marked(permuted, done, |permuted|) && k < |permuted|
    ensures k in done
  {
  }

  lemma PathStart(perm: seq<nat>, done: set<nat>, i: nat)
    requires IsPermutation(perm) && i < |perm| && i !in done
    ensures IsPath(perm, done, {i}, i, i) && perm[i] < |perm|
  {
  }

  // ---------------------------------------------------------------- apply

  /** The finished cycles are reordered and the rest is untouched. */
  ghost predicate AppliedOn<T>(perm: seq<nat>, before: seq<T>, now: seq<T>, done: set<nat>)
    requires IsPermutation(perm)
  {
    && |before| == |now| == |perm|
    && forall k {:trigger now[k]} :: 0 <= k < |perm| ==> now[k] == if k in done then before[perm[k]] else before[k]
  }

  /** In the middle of a cycle: the stretch is reordered too, except for its last position, which
      carries the value of the first. */
  ghost predicate ApplyInProgress<T>(perm: seq<nat>, before: seq<T>, now: seq<T>, done: set<nat>, path: set<nat>, first: nat, last: nat)
    requires IsPermutation(perm) && last < |perm| && first < |perm|
  {
    && |before| == |now| == |perm| && now[last] == before[first]
    && forall k {:trigger now[k]} :: 0 <= k < |perm| && k != last ==>
      now[k] == if k in done || k in path then before[perm[k]] else before[k]
  }

  lemma ApplyStart<T>(perm: seq<nat>, before: seq<T>, now: seq<T>, done: set<nat>, i: nat)
    requires IsPermutation(perm) && i < |perm| && i !in done && AppliedOn(perm, before, now, done)
    ensures ApplyInProgress(perm, before, now, done, {i}, i, i)
  {
  }

  lemma ApplyStep<T>(perm: seq<nat>, before: seq<T>, now: seq<T>, done: set<nat>, path: set<nat>, first: nat, last: nat)
    requires IsPermutation(perm) && IsClosed(perm, done) && IsPath(perm, done, path, first, last)
    requires perm[last] != first && ApplyInProgress(perm, before, now, done, path, first, last)
    ensures ApplyInProgress(perm, before, Swap(now, last, perm[last]), done, path + {perm[last]}, first, perm[last])
  {
    NextIsNew(perm, done, path, first, last);
  }

  lemma ApplyEnd<T>(perm: seq<nat>, before: seq<T>, now: seq<T>, done: set<nat>, path: set<nat>, first: nat, last: nat)
    requires IsPermutation(perm) && IsPath(perm, done, path, first, last)
    requires perm[last] == first && ApplyInProgress(perm, before, now, done, path, first, last)
    ensures AppliedOn(perm, before, now, done + path)
  {
  }

  method ApplyCycle<T>(perm: seq<nat>, values: array<T>, permuted: seq<bool>, i: nat, ghost before: seq<T>, ghost done: set<nat>)
    returns (permuted': seq<bool>, ghost done': set<nat>)
    requires IsPermutation(perm) && i < |perm| == values.Length == |permuted|
    requires IsClosed(perm, done) && Marked(permuted, done, i) && i !in done
    requires AppliedOn(perm, before, values[..], done)
    modifies values
    ensures done <= done' && IsCycleOf(perm, done' - done, i)
    ensures IsClosed(perm, done') && |permuted'| == |perm| && Marked(permuted', done', i + 1)
    ensures AppliedOn(perm, before, values[..], done')
  {
    hide *;
    var posI := i;
    PathStart(perm, done, i);
    ReachStart(perm, i);
    var posJ := perm[posI];
    permuted' := permuted;
    ghost var path: set<nat> := {i};
    MarkNext(permuted, done, i);
    ApplyStart(perm, before, values[..], done, i);
    while posJ != i
      invariant posI < |perm| && posJ == perm[posI] < |perm| && |permuted'| == |perm|
      invariant IsReached(perm, path, i) && posI in path
      invariant IsPath(perm, done, path, i, posI) && Marked(permuted', done + path, i + 1)
      invariant ApplyInProgress(perm, before, values[..], done, path, i, posI)
      decreases Range(|perm|) - path
    {
      NextIsNew(perm, done, path, i, posI);
      ReachNext(perm, path, i, posI);
      ApplyStep(perm, before, values[..], done, path, i, posI);
      ghost var now := values[..];
      values[posI], values[posJ] := values[posJ], values[posI];
      SwapIs(now, values[..], posI, posJ);
      MarkStep(permuted', done + path, i + 1, posJ);
      permuted' := permuted'[posJ := true];
      assert done + path + {posJ} == done + (path + {posJ});
      path := path + {posJ};
      posI := posJ;
      posJ := perm[posI];
    }
    ApplyEnd(perm, before, values[..], done, path, i, posI);
    CycleIs(perm, done, path, i, posI);
    done' := done + path;
  }

  lemma SwapIs<T>(s: seq<T>, r: seq<T>, i: nat, j: nat)
    requires i < |s| && j < |s| && r == s[i := s[j]][j := s[i]]
    ensures r == Swap(s, i, j)
  {
  }

  method Apply<T>(perm: seq<nat>, values: array<T>)
    requires IsPermutation(perm) && |perm| == values.Length
    modifies values
    ensures IsApplied(perm, old(values[..]), values[..])
  {
    var permuted := seq(|perm|, _ => false);
    ghost var before, done := values[..], {};
    assert AppliedOn(perm, before, values[..], done) && IsClosed(perm, done) && Marked(permuted, done, 0);
    hide *;
    for i := 0 to |perm|
      invariant IsClosed(perm, done) && |permuted| == |perm| && Marked(permuted, done, i)
      invariant AppliedOn(perm, before, values[..], done)
    {
      MarkNext(permuted, done, i);
      if !permuted[i] {
        permuted, done := ApplyCycle(perm, values, permuted, i, before, done);
      }
    }
    AppliedEverywhere(perm, before, values[..], permuted, done);
  }

  lemma AppliedEverywhere<T>(perm: seq<nat>, before: seq<T>, now: seq<T>, permuted: seq<bool>, done: set<nat>)
    requires IsPermutation(perm) && |permuted| == |perm| && Marked(permuted, done, |perm|)
    requires AppliedOn(perm, before, now, done)
    ensures IsApplied(perm, before, now)
  {
    forall k | 0 <= k < |perm| ensures now[k] == before[perm[k]] {
      MarkedAll(permuted, done, k);
    }
  }

  // ---------------------------------------------------------------- apply_inv

  ghost predicate InvAppliedOn<T>(perm: seq<nat>, before: seq<T>, now: seq<T>, done: set<nat>)
    requires IsPermutation(perm)
  {
    && |before| == |now| == |perm|
    && (forall k {:trigger perm[k]} :: 0 <= k < |perm| && k in done ==> now[perm[k]] == before[k])
    && (forall k {:trigger now[k]} :: 0 <= k < |perm| && k !in done ==> now[k] == before[k])
  }

  /** In the middle of a cycle: position `first` carries the value that stood at `last`. */
  ghost predicate InvInProgress<T>(perm: seq<nat>, before: seq<T>, now: seq<T>, done: set<nat>, path: set<nat>, first: nat, last: nat)
    requires IsPermutation(perm) && last < |perm| && first < |perm|
  {
    && |before| == |now| == |perm| && now[first] == before[last]
    && (forall k {:trigger perm[k]} :: 0 <= k < |perm| && k != last && (k in done || k in path) ==> now[perm[k]] == before[k])
    && (forall k {:trigger now[k]} :: 0 <= k < |perm| && k !in done && k !in path ==> now[k] == before[k])
  }

  lemma InvStart<T>(perm: seq<nat>, before: seq<T>, now: seq<T>, done: set<nat>, i: nat)
    requires IsPermutation(perm) && i < |perm| && i !in done && InvAppliedOn(perm, before, now, done)
    ensures InvInProgress(perm, before, now, done, {i}, i, i)
  {
  }

  lemma InvStep<T>(perm: seq<nat>, before: seq<T>, now: seq<T>, done: set<nat>, path: set<nat>, first: nat, last: nat)
    requires IsPermutation(perm) && IsClosed(perm, done) && IsPath(perm, done, path, first, last)
    requires perm[last] != first && InvInProgress(perm, before, now, done, path, first, last)
    ensures InvInProgress(perm, before, Swap(now, first, perm[last]), done, path + {perm[last]}, first, perm[last])
  {
    NextIsNew(perm, done, path, first, last);
  }

  lemma InvEnd<T>(perm: seq<nat>, before: seq<T>, now: seq<T>, done: set<nat>, path: set<nat>, first: nat, last: nat)
    requires IsPermutation(perm) && IsPath(perm, done, path, first, last)
    requires perm[last] == first && InvInProgress(perm, before, now, done, path, first, last)
    ensures InvAppliedOn(perm, before, now, done + path)
  {
  }

  method ApplyInvCycle<T>(perm: seq<nat>, values: array<T>, permuted: seq<bool>, i: nat, ghost before: seq<T>, ghost done: set<nat>)
    returns (permuted': seq<bool>, ghost done': set<nat>)
    requires IsPermutation(perm) && i < |perm| == values.Length == |permuted|
    requires IsClosed(perm, done) && Marked(permuted, done, i) && i !in done
    requires InvAppliedOn(perm, before, values[..], done)
    modifies values
    ensures done <= done' && IsCycleOf(perm, done' - done, i)
    ensures IsClosed(perm, done') && |permuted'| == |perm| && Marked(permuted', done', i + 1)
    ensures InvAppliedOn(perm, before, values[..], done')
  {
    hide *;
    PathStart(perm, done, i);
    ReachStart(perm, i);
    var destination := perm[i];
    permuted' := permuted;
    ghost var path: set<nat>, last: nat := {i}, i;
    MarkNext(permuted, done, i);
    InvStart(perm, before, values[..], done, i);
    while destination != i
      invariant last < |perm| && destination == perm[last] < |perm| && |permuted'| == |perm|
      invariant IsReached(perm, path, i) && last in path
      invariant IsPath(perm, done, path, i, last) && Marked(permuted', done + path, i + 1)
      invariant InvInProgress(perm, before, values[..], done, path, i, last)
      decreases Range(|perm|) - path
    {
      NextIsNew(perm, done, path, i, last);
      ReachNext(perm, path, i, last);
      InvStep(perm, before, values[..], done, path, i, last);
      ghost var now := values[..];
      values[i], values[destination] := values[destination], values[i];
      SwapIs(now, values[..], i, destination);
      MarkStep(permuted', done + path, i + 1, destination);
      permuted' := permuted'[destination := true];
      assert done + path + {destination} == done + (path + {destination});
      path := path + {destination};
      last := destination;
      destination := perm[destination];
    }
    InvEnd(perm, before, values[..], done, path, i, last);
    CycleIs(perm, done, path, i, last);
    done' := done + path;
  }

  method ApplyInv<T>(perm: seq<nat>, values: array<T>)
    requires IsPermutation(perm) && |perm| == values.Length
    modifies values
    ensures IsInverseApplied(perm, old(values[..]), values[..])
  {
    var permuted := seq(|perm|, _ => false);
    ghost var before, done := values[..], {};
    assert InvAppliedOn(perm, before, values[..], done) && IsClosed(perm, done) && Marked(permuted, done, 0);
    hide *;
    for i := 0 to |perm|
      invariant IsClosed(perm, done) && |permuted| == |perm| && Marked(permuted, done, i)
      invariant InvAppliedOn(perm, before, values[..], done)
    {
      MarkNext(permuted, done, i);
      if !permuted[i] {
        permuted, done := ApplyInvCycle(perm, values, permuted, i, before, done);
      }
    }
    InvAppliedEverywhere(perm, before, values[..], permuted, done);
  }

  lemma InvAppliedEverywhere<T>(perm: seq<nat>, before: seq<T>, now: seq<T>, permuted: seq<bool>, done: set<nat>)
    requires IsPermutation(perm) && |permuted| == |perm| && Marked(permuted, done, |perm|)
    requires InvAppliedOn(perm, before, now, done)
    ensures IsInverseApplied(perm, before, now)
  {
    forall k | 0 <= k < |perm| ensures now[perm[k]] == before[k] {
      MarkedAll(permuted, done, k);
    }
  }

  // ---------------------------------------------------------------- each undoes the other

  /** Every position is the image of one. */
  lemma HasPreimage(perm: seq<nat>, j: nat) returns (i: nat)
    requires IsPermutation(perm) && j < |perm|
    ensures i < |perm| && perm[i] == j
  {
    var all := Range(|perm|);
    var images := set k | k in all :: perm[k];
    if j in images {
      i :| i in all && perm[i] == j;
    } else {
      ImageSize(perm, all);
      SubsetSize(images, all - {j});
      assert false;
    }
  }

  lemma ApplyThenInverse<T>(perm: seq<nat>, a: seq<T>, b: seq<T>, c: seq<T>)
    requires IsPermutation(perm) && IsApplied(perm, a, b) && IsInverseApplied(perm, b, c)
    ensures c == a
  {
    forall j | 0 <= j < |perm| ensures c[j] == a[j] {
      var i := HasPreimage(perm, j);
    }
  }

  lemma InverseThenApply<T>(perm: seq<nat>, a: seq<T>, b: seq<T>, c: seq<T>)
    requires IsPermutation(perm) && IsInverseApplied(perm, a, b) && IsApplied(perm, b, c)
    ensures c == a
  {
  }
}
