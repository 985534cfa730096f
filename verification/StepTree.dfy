/** `ipa-macros/src/parser.rs`: the one-pass construction of the step tree from sorted paths, and
    `scripts/collect_steps.py`, which produces them. */
module StepTree {
  import opened Wrappers

  // ---------------------------------------------------------------- paths

  function Slashes(p: string): (n: nat)
  {
    if p == "" then 0 else Slashes(p[..|p| - 1]) + if p[|p| - 1] == '/' then 1 else 0
  }

  /** The number of components; the root is the empty path. */
  function Depth(p: string): (n: nat) { if p == "" then 0 else 1 + Slashes(p) }

  /** The path without its last component; the root for a path of one component. */
  function Parent(p: string): (q: string)
    ensures |q| <= |p| && q == p[..|q|]
    ensures p != "" ==> |q| < |p|
  {
    if p == "" then ""
    else if p[|p| - 1] == '/' then p[..|p| - 1]
    else Parent(p[..|p| - 1])
  }

  /** The path without its last `n` components. */
  function Strip(p: string, n: nat): (q: string)
  {
    if n == 0 then p else Strip(Parent(p), n - 1)
  }

  predicate IsPath(p: string) { p != "" && p[0] != '/' }

  lemma {:induction false} SlashesConcat(a: string, b: string)
    ensures Slashes(a + b) == Slashes(a) + Slashes(b)
  {
    if b == "" {
      assert a + b == a;
    } else {
      SlashesConcat(a, b[..|b| - 1]);
      assert (a + b)[..|a + b| - 1] == a + b[..|b| - 1];
    }
  }

  lemma {:induction false} ParentDepth(p: string)
    requires p != ""
    ensures Slashes(p) > 0 ==> Slashes(Parent(p)) == Slashes(p) - 1 && p[|Parent(p)|] == '/'
    ensures Slashes(p) == 0 ==> Parent(p) == ""
  {
    var q := p[..|p| - 1];
    if p[|p| - 1] != '/' && q != "" {
      ParentDepth(q);
    }
  }

  lemma {:induction false} ParentOfConcat(q: string, t: string)
    requires Slashes(t) > 0
    ensures Parent(q + t) == q + Parent(t)
  {
    var t' := t[..|t| - 1];
    assert (q + t)[..|q + t| - 1] == q + t';
    if t[|t| - 1] != '/' {
      ParentOfConcat(q, t');
    }
  }

  /** A component appended to a path is what its parent lacks. */
  lemma {:induction false} ParentOfChild(q: string, name: string)
    requires Slashes(name) == 0
    ensures Parent(q + "/" + name) == q && Parent(name) == ""
    ensures q != "" ==> Depth(q + "/" + name) == Depth(q) + 1
    decreases |name|
  {
    var p := q + "/" + name;
    SlashesConcat(q + "/", name);
    SlashesConcat(q, "/");
    assert Slashes("/") == 1 by { assert "/"[..0] == ""; }
    if name == "" {
      assert p[..|p| - 1] == q && p[|p| - 1] == '/';
    } else {
      ParentOfChild(q, name[..|name| - 1]);
      assert p[..|p| - 1] == q + "/" + name[..|name| - 1];
    }
  }

  lemma ParentOfPath(p: string)
    requires IsPath(p)
    ensures Depth(Parent(p)) == Depth(p) - 1
    ensures Parent(p) == "" || IsPath(Parent(p))
  {
    ParentDepth(p);
    assert Slashes(p) > 0 ==> p[|Parent(p)|] == '/';
  }

  /** Stripping as many components as a sub-path adds leads back. */
  lemma {:induction false} StripSuffix(q: string, t: string)
    requires t == "" || t[0] == '/'
    ensures Strip(q + t, Slashes(t)) == q
  {
    if t == "" {
      assert q + t == q;
    } else {
      SlashesConcat(t[..1], t[1..]);
      assert t == t[..1] + t[1..] && Slashes(t[..1]) == 1;
      ParentOfConcat(q, t);
      ParentDepth(t);
      StripSuffix(q, Parent(t));
    }
  }

  /** From a path that merely continues the last component of `q`, it does not lead to `q`. */
  lemma {:induction false} StripIntruder(q: string, t: string)
    requires t != "" && t[0] != '/'
    ensures |Strip(q + t, Slashes(t))| > |q|
  {
    ParentDepth(t);
    if Slashes(t) > 0 {
      ParentOfConcat(q, t);
      StripIntruder(q, Parent(t));
    }
  }

  lemma {:induction false} StripAll(p: string)
    requires p == "" || IsPath(p)
    ensures Strip(p, Depth(p)) == ""
    decreases |p|
  {
    if p != "" {
      ParentOfPath(p);
      StripAll(Parent(p));
    }
  }

  // ---------------------------------------------------------------- alphabetical order

  predicate Less(a: string, b: string)
  {
    b != "" && (a == "" || a[0] < b[0] || (a[0] == b[0] && Less(a[1..], b[1..])))
  }

  lemma {:induction false} LessIsStrict(a: string, b: string)
    ensures !(Less(a, b) && Less(b, a)) && !Less(a, a)
  {
    if a != "" {
      LessIsStrict(a[1..], a[1..]);
      if b != "" {
        LessIsStrict(a[1..], b[1..]);
      }
    }
  }

  lemma {:induction false} LessAfterPrefix(q: string, s: string, t: string)
    ensures Less(q + s, q + t) <==> Less(s, t)
  {
    if q == "" {
      assert q + s == s && q + t == t;
    } else {
      LessAfterPrefix(q[1..], s, t);
      assert (q + s)[1..] == q[1..] + s && (q + t)[1..] == q[1..] + t;
    }
  }

  /** What sorts from `q` up to a path below `q` starts with `q`. */
  lemma {:induction false} BetweenSharesPrefix(q: string, s: string, t: string)
    requires s == q || Less(q, s)
    requires Less(s, q + t)
    ensures q <= s
  {
    if q != "" {
      assert (q + t)[1..] == q[1..] + t;
      LessIsStrict(q, s);
      BetweenSharesPrefix(q[1..], s[1..], t);
    }
  }

  // ---------------------------------------------------------------- the input contract

  ghost predicate IsSorted(nodes: seq<string>)
  {
    forall i, j :: 0 <= i < j < |nodes| ==> Less(nodes[i], nodes[j])
  }

  /** The root and the sorted step paths: every path's parent is among them. */
  ghost predicate IsSteps(nodes: seq<string>)
  {
    && |nodes| > 0 && nodes[0] == "" && IsSorted(nodes)
    && (forall i :: 1 <= i < |nodes| ==> IsPath(nodes[i]))
    && (forall i :: 1 <= i < |nodes| ==> Parent(nodes[i]) in nodes)
  }

  lemma RootAndPaths(nodes: seq<string>, k: nat)
    requires IsSteps(nodes) && k < |nodes|
    ensures IsSorted(nodes) && nodes[0] == "" && if k == 0 then nodes[k] == "" else IsPath(nodes[k])
  {
    hide Parent;
  }

  lemma ParentNode(nodes: seq<string>, k: nat) returns (i: nat)
    requires IsSteps(nodes) && 1 <= k < |nodes|
    ensures i < |nodes| && nodes[i] == Parent(nodes[k])
  {
    hide Parent;
    i :| 0 <= i < |nodes| && nodes[i] == Parent(nodes[k]);
  }

  lemma SortedAt(nodes: seq<string>, i: nat, j: nat)
    requires IsSorted(nodes) && i < j < |nodes|
    ensures Less(nodes[i], nodes[j])
  {
  }

  lemma OrderOfNodes(nodes: seq<string>, i: int, j: int)
    requires IsSorted(nodes) && 0 <= i < |nodes| && 0 <= j < |nodes| && Less(nodes[i], nodes[j])
    ensures i < j
  {
    LessIsStrict(nodes[i], nodes[j]);
  }

  // ---------------------------------------------------------------- the walk

  /** Following `n` parent links from node `v`; `None` where the original unwraps a missing parent. */
  function Up(parents: seq<nat>, v: nat, n: nat): (r: Option<nat>)
    decreases n
  {
    if n == 0 then Some(v)
    else if v == 0 || v > |parents| then None
    else Up(parents, parents[v - 1], n - 1)
  }

  /** How far the walk climbs before adding a step: `0..=delta` rounds. */
  function Climb(last: nat, depth: nat): (n: nat) { if last + 1 > depth then last + 1 - depth else 0 }

  /** The parents of nodes `1..k`, where `depths` includes the root's 0. */
  function Build(depths: seq<nat>, k: nat): (r: Option<seq<nat>>)
    requires k < |depths|
    ensures r.Some? ==> |r.value| == k
  {
    if k == 0 then Some([])
    else
      var before := Build(depths, k - 1);
      if before.None? then None
      else
        var parent := Up(before.value, k - 1, Climb(depths[k - 1], depths[k]));
        if parent.None? then None else Some(before.value + [parent.value])
  }

  /** `construct_tree`: node 0 is the root, node `k` the `k`-th step. */
  method ConstructTree(depths: seq<nat>) returns (parents: Option<seq<nat>>)
    requires |depths| > 0
    ensures parents == Build(depths, |depths| - 1)
  {
    var links: seq<nat> := [];
    var lastNode := 0;
    for k := 1 to |depths|
      invariant Build(depths, k - 1) == Some(links) && lastNode == k - 1
    {
      var delta: int := depths[lastNode] as int - depths[k] as int;
      var node: nat := lastNode;
      var round := 0;
      while round <= delta
        invariant 0 <= round <= Climb(depths[k - 1], depths[k])
        invariant Up(links, lastNode, Climb(depths[k - 1], depths[k])) == Up(links, node, Climb(depths[k - 1], depths[k]) - round)
      {
        if node == 0 || node > |links| {
          BuildStops(depths, k, |depths| - 1);
          return None;
        }
        node := links[node - 1];
        round := round + 1;
      }
      links := links + [node];
      lastNode := k;
    }
    parents := Some(links);
  }

  lemma {:induction false} BuildStops(depths: seq<nat>, k: nat, n: nat)
    requires k <= n < |depths| && Build(depths, k).None?
    ensures Build(depths, n).None?
  {
    if k < n {
      BuildStops(depths, k, n - 1);
    }
  }

  function Depths(nodes: seq<string>): (r: seq<nat>)
    ensures |r| == |nodes|
  {
    seq(|nodes|, i requires 0 <= i < |nodes| => Depth(nodes[i]))
  }

  // ---------------------------------------------------------------- when the walk is right

  /** Every node so far has the parent that its path names. */
  ghost predicate IsRight(nodes: seq<string>, parents: seq<nat>)
  {
    |parents| < |nodes| && forall v :: 1 <= v <= |parents| ==> HasRightParent(nodes, parents, v)
  }

  ghost predicate HasRightParent(nodes: seq<string>, parents: seq<nat>, v: nat)
    requires 1 <= v <= |parents| < |nodes|
  {
    parents[v - 1] < v && nodes[parents[v - 1]] == Parent(nodes[v])
  }

  lemma {:induction false} UpStrips(nodes: seq<string>, parents: seq<nat>, v: nat, n: nat)
    requires IsSteps(nodes) && IsRight(nodes, parents) && v <= |parents| && n <= Depth(nodes[v])
    ensures
      var u := Up(parents, v, n);
      u.Some? && u.value <= v && nodes[u.value] == Strip(nodes[v], n)
    decreases n
  {
    hide IsSteps, Parent, Slashes, IsSorted;
    if n > 0 {
      RootAndPaths(nodes, v);
      ParentOfPath(nodes[v]);
      assert HasRightParent(nodes, parents, v);
      UpStrips(nodes, parents, parents[v - 1], n - 1);
    }
  }

  /** The preceding path is the parent of `nodes[k]` or lies below it. */
  ghost predicate Follows(nodes: seq<string>, k: nat)
    requires 1 <= k < |nodes|
  {
    var q, s := Parent(nodes[k]), nodes[k - 1];
    q == "" || (q <= s && (|s| == |q| || s[|q|] == '/'))
  }

  /** In sorted order the preceding path starts with the parent, and continues with nothing, with
      the separator, or with a character that sorts before it. */
  lemma PredecessorSharesParent(nodes: seq<string>, k: nat)
    requires IsSteps(nodes) && 1 <= k < |nodes|
    ensures
      var q, s := Parent(nodes[k]), nodes[k - 1];
      q <= s && (q == "" || |s| == |q| || s[|q|] <= '/')
  {
    hide *;
    var p, q, s := nodes[k], Parent(nodes[k]), nodes[k - 1];
    RootAndPaths(nodes, k);
    assert p != "" by { PathIsNonempty(p); }
    var t := p[|q|..];
    assert p == q + t;
    var i := ParentNode(nodes, k);
    ParentIsBefore(q, t);
    OrderOfNodes(nodes, i, k);
    if i < k - 1 {
      SortedAt(nodes, i, k - 1);
    }
    SortedAt(nodes, k - 1, k);
    BetweenSharesPrefix(q, s, t);
    ParentDepth(p);
    if q != "" && |s| > |q| {
      var r := s[|q|..];
      assert s == q + r;
      LessAfterPrefix(q, r, t);
      LessHead(r, t);
      assert t[0] == '/';
    }
  }

  lemma PathIsNonempty(p: string)
    requires IsPath(p)
    ensures p != ""
  {
  }

  lemma LessHead(a: string, b: string)
    requires a != "" && Less(a, b)
    ensures b != "" && a[0] <= b[0]
  {
  }

  lemma ParentIsBefore(q: string, t: string)
    requires t != ""
    ensures Less(q, q + t)
  {
    LessAfterPrefix(q, "", t);
    assert q + "" == q;
  }

  function ParentFound(nodes: seq<string>, parents: seq<nat>, k: nat): (r: Option<nat>)
    requires 1 <= k < |nodes|
  {
    Up(parents, k - 1, Climb(Depth(nodes[k - 1]), Depth(nodes[k])))
  }

  /** One step of the walk finds the right parent exactly when the step follows. */
  lemma StepIsRight(nodes: seq<string>, parents: seq<nat>, k: nat)
    requires IsSteps(nodes) && 1 <= k < |nodes| && |parents| == k - 1 && IsRight(nodes, parents)
    ensures
      var parent := ParentFound(nodes, parents, k);
      parent.Some? && parent.value < k && (nodes[parent.value] == Parent(nodes[k]) <==> Follows(nodes, k))
  {
    hide IsSteps, Parent, Slashes, IsSorted, IsRight, Strip, Up;
    var s := nodes[k - 1];
    RootAndPaths(nodes, k);
    RootAndPaths(nodes, k - 1);
    var n := Climb(Depth(s), Depth(nodes[k]));
    PredecessorSharesParent(nodes, k);
    StripFinds(s, nodes[k]);
    UpStrips(nodes, parents, k - 1, n);
  }

  /** Climbing from `s` to the depth above `p` leads to the parent of `p` exactly when `s` is that parent or lies below it. */
  lemma StripFinds(s: string, p: string)
    requires IsPath(p) && (s == "" || IsPath(s)) && Parent(p) <= s
    ensures
      var q, n := Parent(p), Climb(Depth(s), Depth(p));
      n <= Depth(s) && (Strip(s, n) == q <==> q == "" || |s| == |q| || s[|q|] == '/')
  {
    hide Parent, Slashes, Strip, Climb, Depth, IsPath;
    var q := Parent(p);
    var t := s[|q|..];
    assert s == q + t;
    ClimbIs(s, p, t);
    if q == "" {
      StripAll(s);
    } else if t == "" || t[0] == '/' {
      StripSuffix(q, t);
    } else {
      StripIntruder(q, t);
    }
  }

  lemma ClimbIs(s: string, p: string, t: string)
    requires IsPath(p) && s == Parent(p) + t
    ensures
      var n := Climb(Depth(s), Depth(p));
      n <= Depth(s) && n == if Parent(p) == "" then Depth(s) else Slashes(t)
  {
    hide Parent, Slashes;
    ParentOfPath(p);
    SlashesConcat(Parent(p), t);
  }

  lemma ExtendRight(nodes: seq<string>, parents: seq<nat>, u: nat)
    requires IsRight(nodes, parents) && |parents| + 1 < |nodes|
    requires u <= |parents| && nodes[u] == Parent(nodes[|parents| + 1])
    ensures IsRight(nodes, parents + [u])
  {
    hide Parent;
    forall v | 1 <= v <= |parents| + 1 ensures HasRightParent(nodes, parents + [u], v) {
      if v <= |parents| {
        assert HasRightParent(nodes, parents, v);
      }
    }
  }

  lemma ShrinkRight(nodes: seq<string>, parents: seq<nat>)
    requires IsRight(nodes, parents) && |parents| > 0
    ensures IsRight(nodes, parents[..|parents| - 1]) && |parents| < |nodes|
    ensures parents[|parents| - 1] < |nodes| && nodes[parents[|parents| - 1]] == Parent(nodes[|parents|])
  {
    hide Parent;
    var before := parents[..|parents| - 1];
    assert HasRightParent(nodes, parents, |parents|);
    forall v | 1 <= v <= |before| ensures HasRightParent(nodes, before, v) {
      assert HasRightParent(nodes, parents, v);
    }
  }

  lemma BuildStep(nodes: seq<string>, k: nat)
    requires 1 <= k < |nodes|
    ensures
      var before, all := Build(Depths(nodes), k - 1), Build(Depths(nodes), k);
      if before.Some? && ParentFound(nodes, before.value, k).Some?
      then all == Some(before.value + [ParentFound(nodes, before.value, k).value])
      else all.None?
  {
    hide Depth, Up, Climb;
  }

  lemma NothingBuilt(nodes: seq<string>)
    requires |nodes| > 0
    ensures Build(Depths(nodes), 0) == Some([]) && IsRight(nodes, [])
  {
  }

  lemma {:induction false} BuildIsRight(nodes: seq<string>, k: nat)
    requires IsSteps(nodes) && k < |nodes| && forall j :: 1 <= j <= k ==> Follows(nodes, j)
    ensures
      var r := Build(Depths(nodes), k);
      r.Some? && IsRight(nodes, r.value)
  {
    hide *;
    if k == 0 {
      NothingBuilt(nodes);
    } else {
      BuildIsRight(nodes, k - 1);
      BuildStep(nodes, k);
      var before := Build(Depths(nodes), k - 1).value;
      StepIsRight(nodes, before, k);
      ExtendRight(nodes, before, ParentFound(nodes, before, k).value);
    }
  }

  lemma {:induction false} RightMeansFollows(nodes: seq<string>, k: nat)
    requires IsSteps(nodes) && k < |nodes| && Build(Depths(nodes), k).Some? && IsRight(nodes, Build(Depths(nodes), k).value)
    ensures forall j :: 1 <= j <= k ==> Follows(nodes, j)
  {
    hide *;
    if k > 0 {
      BuildStep(nodes, k);
      var before, all := Build(Depths(nodes), k - 1).value, Build(Depths(nodes), k).value;
      ShrinkRight(nodes, all);
      assert all[..k - 1] == before;
      RightMeansFollows(nodes, k - 1);
      StepIsRight(nodes, before, k);
    }
  }

  // ---------------------------------------------------------------- the condition on characters

  /** No path extends the name of a path that has children by a character that sorts before the separator. */
  ghost predicate NoIntruder(nodes: seq<string>)
  {
    forall i, j :: 0 <= i < |nodes| && 1 <= j < |nodes| ==> !IsIntruder(nodes[i], Parent(nodes[j]))
  }

  predicate IsIntruder(s: string, q: string)
  {
    q != "" && q <= s && |s| > |q| && s[|q|] < '/'
  }

  lemma NoIntruderMeansFollows(nodes: seq<string>, k: nat)
    requires IsSteps(nodes) && NoIntruder(nodes) && 1 <= k < |nodes|
    ensures Follows(nodes, k)
  {
    hide IsSteps, Parent, IsSorted;
    PredecessorSharesParent(nodes, k);
    assert !IsIntruder(nodes[k - 1], Parent(nodes[k]));
  }

  /** The first path below `q` is a child of `q`, and does not follow if an intruder sorts before it. */
  lemma IntruderBreaks(nodes: seq<string>, i: nat, j: nat) returns (k: nat)
    requires IsSteps(nodes) && i < |nodes| && 1 <= j < |nodes| && IsIntruder(nodes[i], Parent(nodes[j]))
    ensures 1 <= k < |nodes| && !Follows(nodes, k)
  {
    hide IsSteps, Parent, IsSorted, Less, Slashes;
    var q := Parent(nodes[j]);
    var below := q + "/";
    RootAndPaths(nodes, j);
    ParentDepth(nodes[j]);
    assert below <= nodes[j];
    k := FirstBelow(nodes, below, j);
    FirstBelowIsChild(nodes, q, k);
    IntruderIsBefore(nodes, q, i, k);
    if nodes[k - 1] == q {
      ParentIsBefore(q, nodes[i][|q|..]);
      assert nodes[i] == q + nodes[i][|q|..];
      OrderOfNodes(nodes, k - 1, i);
    }
    SeparatorMeansBelow(q, nodes[k - 1]);
  }

  lemma SeparatorMeansBelow(q: string, s: string)
    ensures q <= s && |s| > |q| && s[|q|] == '/' ==> q + "/" <= s
  {
  }

  lemma IntruderIsBefore(nodes: seq<string>, q: string, i: nat, k: nat)
    requires IsSorted(nodes) && i < |nodes| && k < |nodes| && IsIntruder(nodes[i], q) && q + "/" <= nodes[k]
    ensures i < k
  {
    hide IsSorted;
    var t, r := nodes[i][|q|..], nodes[k][|q|..];
    assert nodes[i] == q + t && nodes[k] == q + r;
    assert r[0] == '/';
    LessAfterPrefix(q, t, r);
    OrderOfNodes(nodes, i, k);
  }

  lemma {:induction false} FirstBelow(nodes: seq<string>, below: string, j: nat) returns (k: nat)
    requires 1 <= j < |nodes| && below <= nodes[j] && below != "" && nodes[0] == ""
    ensures 1 <= k <= j && below <= nodes[k] && forall m :: 0 <= m < k ==> !(below <= nodes[m])
    decreases j
  {
    if m :| 0 <= m < j && below <= nodes[m] {
      k := FirstBelow(nodes, below, m);
    } else {
      k := j;
    }
  }

  lemma FirstBelowIsChild(nodes: seq<string>, q: string, k: nat)
    requires IsSteps(nodes) && q != "" && 1 <= k < |nodes| && q + "/" <= nodes[k]
    requires forall m :: 0 <= m < k ==> !(q + "/" <= nodes[m])
    ensures Parent(nodes[k]) == q
  {
    hide IsSteps, Parent, IsSorted, Less, Slashes;
    var p, c := nodes[k], Parent(nodes[k]);
    RootAndPaths(nodes, k);
    ParentBelow(q, p);
    if c != q {
      var i := ParentNode(nodes, k);
      ParentIsBefore(c, p[|c|..]);
      assert p == c + p[|c|..];
      OrderOfNodes(nodes, i, k);
    }
  }

  /** The parent of a path below `q` is `q` or below `q`. */
  lemma ParentBelow(q: string, p: string)
    requires q + "/" <= p
    ensures Parent(p) == q || q + "/" <= Parent(p)
  {
    hide Parent;
    var t := p[|q|..];
    assert p == q + t && t[0] == '/';
    SlashesConcat(t[..1], t[1..]);
    assert t == t[..1] + t[1..] && Slashes(t[..1]) == 1;
    ParentOfConcat(q, t);
    if Parent(t) != "" {
      assert Parent(p)[..|q| + 1] == q + "/";
    }
  }

  /** Intruders exist: `a-b` sorts between `a` and `a/c`. */
  const INTRUDED := ["", "a", "a-b", "a/c"]

  lemma IntrudersExist()
    ensures IsSteps(INTRUDED) && !NoIntruder(INTRUDED)
    ensures
      var r := Build(Depths(INTRUDED), |INTRUDED| - 1);
      !(r.Some? && IsRight(INTRUDED, r.value))
  {
    IntruderIsThere();
    TreeIsRightIffNoIntruder(INTRUDED);
  }

  lemma IntruderIsThere()
    ensures IsSteps(INTRUDED) && !NoIntruder(INTRUDED)
  {
    assert Parent("a") == "" by { assert "a"[..0] == ""; }
    assert Parent("a-b") == "" by { assert "a-b"[..2] == "a-" && "a-"[..1] == "a"; }
    assert Parent("a/c") == "a" by { assert "a/c"[..2] == "a/" && "a/"[..1] == "a"; }
    hide Parent;
    assert Less("a", "a-b") by { assert "a"[1..] == "" && "a-b"[1..] == "-b"; }
    assert Less("a", "a/c") by { assert "a"[1..] == "" && "a/c"[1..] == "/c"; }
    assert Less("a-b", "a/c") by { assert "a-b"[1..] == "-b" && "a/c"[1..] == "/c"; }
    hide Less;
    assert INTRUDED[1] == "a";
    assert IsIntruder(INTRUDED[2], Parent(INTRUDED[3]));
  }

  /** The tree is right exactly when no path intrudes: for every sorted, prefix-closed list of paths
      the walk completes with every node under the path that is its own minus the last component,
      if and only if no path extends a parent's name by a character that sorts before '/'. */
  lemma TreeIsRightIffNoIntruder(nodes: seq<string>)
    requires IsSteps(nodes)
    ensures
      var r := Build(Depths(nodes), |nodes| - 1);
      r.Some? && IsRight(nodes, r.value) <==> NoIntruder(nodes)
  {
    hide *;
    RootIsThere(nodes);
    if NoIntruder(nodes) {
      forall k | 1 <= k <= |nodes| - 1 ensures Follows(nodes, k) { NoIntruderMeansFollows(nodes, k); }
      BuildIsRight(nodes, |nodes| - 1);
    } else {
      var i, j := SomeIntruder(nodes);
      var k := IntruderBreaks(nodes, i, j);
      var r := Build(Depths(nodes), |nodes| - 1);
      if r.Some? && IsRight(nodes, r.value) {
        RightMeansFollows(nodes, |nodes| - 1);
      }
    }
  }

  lemma RootIsThere(nodes: seq<string>)
    requires IsSteps(nodes)
    ensures |nodes| > 0
  {
  }

  lemma SomeIntruder(nodes: seq<string>) returns (i: nat, j: nat)
    requires !NoIntruder(nodes)
    ensures i < |nodes| && 1 <= j < |nodes| && IsIntruder(nodes[i], Parent(nodes[j]))
  {
    hide IsIntruder, Parent;
    i, j :| i < |nodes| && 1 <= j < |nodes| && IsIntruder(nodes[i], Parent(nodes[j]));
  }

  /** In particular when no character sorts before the separator. */
  lemma TreeIsRight(nodes: seq<string>)
    requires IsSteps(nodes)
    requires forall i, c :: 0 <= i < |nodes| && c in nodes[i] ==> c >= '/'
    ensures
      var r := Build(Depths(nodes), |nodes| - 1);
      r.Some? && IsRight(nodes, r.value)
  {
    hide IsSteps, Parent, IsSorted, IsRight, Build;
    assert NoIntruder(nodes) by {
      forall i, j | 0 <= i < |nodes| && 1 <= j < |nodes| ensures !IsIntruder(nodes[i], Parent(nodes[j])) {
        var q := Parent(nodes[j]);
        assert |nodes[i]| > |q| ==> nodes[i][|q|] in nodes[i];
      }
    }
    TreeIsRightIffNoIntruder(nodes);
  }

  // ---------------------------------------------------------------- where the paths come from

  /** The paths above `p`: what precedes each separator. */
  function Above(p: string): (r: set<string>)
  {
    set i | 0 <= i < |p| && p[i] == '/' :: p[..i]
  }

  /** The collected paths and everything above them, without the empty path. */
  ghost predicate IsExtracted(steps: set<string>, r: set<string>)
  {
    forall q :: q in r <==> q != "" && (q in steps || exists p :: p in steps && q in Above(p))
  }

  /** `extract_intermediate_steps`. */
  method ExtractIntermediateSteps(steps: set<string>) returns (r: set<string>)
    ensures IsExtracted(steps, r)
  {
    var output: set<string> := {};
    var todo := steps;
    while todo != {}
      invariant todo <= steps
      invariant forall q :: q in output <==> exists p :: p in steps - todo && q in Above(p)
      decreases todo
    {
      var step :| step in todo;
      var prefixes: set<string> := {};
      for i := 0 to |step|
        invariant prefixes == set k | 0 <= k < i && step[k] == '/' :: step[..k]
      {
        if step[i] == '/' {
          prefixes := prefixes + {step[..i]};
        }
      }
      assert prefixes == Above(step);
      ghost var before := output;
      output := output + prefixes;
      forall q ensures q in output <==> exists p :: p in steps - (todo - {step}) && q in Above(p) {
        if q in before {
          var p :| p in steps - todo && q in Above(p);
          assert p in steps - (todo - {step});
        }
        if q in prefixes {
          assert step in steps - (todo - {step}) && q in Above(step);
        }
      }
      todo := todo - {step};
    }
    assert steps - {} == steps;
    r := steps + output - {""};
  }

  lemma AboveIsTransitive(p: string, q: string)
    requires q in Above(p) && IsPath(q) && Parent(q) != ""
    ensures Parent(q) in Above(p)
  {
    ParentDepth(q);
    var i := |Parent(q)|;
    assert q <= p && p[i] == '/' && p[..i] == Parent(q);
  }

  /** The extracted paths, sorted, meet the contract of the walk. */
  lemma ExtractedFits(steps: set<string>, r: set<string>, nodes: seq<string>)
    requires IsExtracted(steps, r) && forall p :: p in steps && p != "" ==> p[0] != '/'
    requires |nodes| > 0 && nodes[0] == "" && IsSorted(nodes)
    requires forall q :: q in nodes[1..] <==> q in r
    ensures IsSteps(nodes)
  {
    hide Parent, IsSorted, Slashes;
    forall k | 1 <= k < |nodes| ensures IsPath(nodes[k]) && Parent(nodes[k]) in nodes {
      assert nodes[k] == nodes[1..][k - 1] && nodes[k] in r;
      ExtractedIsClosed(steps, r, nodes[k]);
      if Parent(nodes[k]) != "" {
        assert Parent(nodes[k]) in nodes[1..];
      }
    }
  }

  lemma ExtractedIsClosed(steps: set<string>, r: set<string>, q: string)
    requires IsExtracted(steps, r) && forall p :: p in steps && p != "" ==> p[0] != '/'
    requires q in r
    ensures IsPath(q) && (Parent(q) == "" || Parent(q) in r)
  {
    hide Parent, Slashes;
    if q in steps {
      ParentDepth(q);
      if Parent(q) != "" {
        assert q[..|Parent(q)|] in Above(q);
      }
    } else {
      var p :| p in steps && q in Above(p);
      if Parent(q) != "" {
        AboveIsTransitive(p, q);
      }
    }
  }
}
