/** The bounded simple-path enumerator: an iterative depth-first search over
    an explicit stack of (node, path-so-far) frames that reports every path
    reaching the destination, in the order the search finds them. */
module PathEnumeration {

  /** The neighbour list of `node`: `graph.get(node, [])`. */
  function Neighbors<N>(graph: map<N, seq<N>>, node: N): seq<N> {
    if node in graph then graph[node] else []
  }

  ghost predicate Distinct<T>(s: seq<T>) {
    forall i, j :: 0 <= i < j < |s| ==> s[i] != s[j]
  }

  /** Each node of `p` after the first is a listed neighbour of the one
      before it. */
  ghost predicate FollowsEdges<N>(graph: map<N, seq<N>>, p: seq<N>) {
    forall i :: 0 <= i < |p| - 1 ==> p[i + 1] in Neighbors(graph, p[i])
  }

  /** No adjacency list names the same neighbour twice. */
  ghost predicate NoDuplicateNeighbors<N>(graph: map<N, seq<N>>) {
    forall n :: n in graph ==> Distinct(graph[n])
  }

  /** A route the enumerator may report: a simple path along the graph's
      edges from `source` to `dest` with at least one edge and at most
      `maxHops + 1` edges (the hop test is made on the path before it is
      extended by one more node). */
  ghost predicate IsRoute<N>(graph: map<N, seq<N>>, source: N, dest: N, maxHops: nat, p: seq<N>) {
    2 <= |p| <= maxHops + 2 && p[0] == source && p[|p| - 1] == dest
    && Distinct(p) && FollowsEdges(graph, p)
  }

  /** A stack entry: the node at the end of the path and the path itself. */
  datatype Frame<N> = Frame(node: N, path: seq<N>)

  /** What every frame on the stack satisfies: a simple path along the
      graph from `source`, ending at the frame's node, at most one node
      longer than the hop limit allows to be expanded, and not passing
      through `dest` except as `source` itself. */
  ghost predicate IsPartial<N>(graph: map<N, seq<N>>, source: N, dest: N, maxHops: nat, f: Frame<N>) {
    1 <= |f.path| <= maxHops + 2 && f.path[0] == source && f.node == f.path[|f.path| - 1]
    && Distinct(f.path) && FollowsEdges(graph, f.path) && dest !in f.path[1..]
  }

  ghost predicate IsStrictPrefix<N>(q: seq<N>, p: seq<N>) {
    |q| < |p| && q == p[..|q|]
  }

  /** How many frames on the stack hold a proper prefix of `p`. */
  ghost function PrefixCount<N>(stack: seq<Frame<N>>, p: seq<N>): nat {
    if stack == [] then 0
    else PrefixCount(stack[..|stack| - 1], p) + (if IsStrictPrefix(stack[|stack| - 1].path, p) then 1 else 0)
  }

  /** Whether `p` still waits for the extension of `path` by one of the
      neighbours in `rest`. */
  ghost function Pending<N>(path: seq<N>, rest: seq<N>, p: seq<N>): nat {
    if IsStrictPrefix(path, p) && p[|path|] in rest then 1 else 0
  }

  // ---------------------------------------------------------------------
  // Termination measure: every frame weighs b^(k - |path|), with b larger
  // than every out-degree and k the longest path a frame can hold.

  /** n copies of u added up (kept apart from `*` so that the measure needs
      no non-linear arithmetic). */
  ghost function Times(n: nat, u: nat): nat {
    if n == 0 then 0 else Times(n - 1, u) + u
  }

  ghost function Pow(b: nat, e: nat): nat {
    if e == 0 then 1 else Times(b, Pow(b, e - 1))
  }

  lemma {:induction false} TimesLess(m: nat, n: nat, u: nat)
    requires m < n && u >= 1
    ensures Times(m, u) < Times(n, u)
  {
    if m < n - 1 {
      TimesLess(m, n - 1, u);
    }
  }

  lemma {:induction false} PowPositive(b: nat, e: nat)
    requires b >= 1
    ensures Pow(b, e) >= 1
  {
    if e > 0 {
      PowPositive(b, e - 1);
      TimesLess(0, b, Pow(b, e - 1));
    }
  }

  ghost function FrameWeight<N>(f: Frame<N>, b: nat, k: nat): nat {
    if |f.path| <= k then Pow(b, k - |f.path|) else 0
  }

  ghost function Weight<N>(stack: seq<Frame<N>>, b: nat, k: nat): nat {
    if stack == [] then 0
    else Weight(stack[..|stack| - 1], b, k) + FrameWeight(stack[|stack| - 1], b, k)
  }

  ghost function MaxDegree<N>(graph: map<N, seq<N>>): (d: nat)
    ensures forall n :: n in graph ==> |graph[n]| <= d
    decreases |graph|
  {
    if graph == map[] then 0
    else
      var n :| n in graph;
      var rest := graph - {n};
      assert |rest| < |graph| by { assert rest.Keys == graph.Keys - {n}; }
      assert forall m :: m in graph ==> m == n || m in rest;
      var d := MaxDegree(rest);
      if |graph[n]| > d then |graph[n]| else d
  }

  lemma WeightPush<N>(stack: seq<Frame<N>>, f: Frame<N>, b: nat, k: nat)
    ensures Weight(stack + [f], b, k) == Weight(stack, b, k) + FrameWeight(f, b, k)
  {
    assert (stack + [f])[..|stack|] == stack;
  }

  lemma PrefixCountPush<N>(stack: seq<Frame<N>>, f: Frame<N>, p: seq<N>)
    ensures PrefixCount(stack + [f], p) == PrefixCount(stack, p) + (if IsStrictPrefix(f.path, p) then 1 else 0)
  {
    assert (stack + [f])[..|stack|] == stack;
  }

  /** Expanding a frame into fewer than b frames one node longer lowers
      the weight of the stack. */
  lemma WeightDrops<N>(rest: seq<Frame<N>>, top: Frame<N>, stack: seq<Frame<N>>, b: nat, k: nat, n: nat)
    requires |top.path| < k && n < b
    requires Weight(stack, b, k) <= Weight(rest, b, k) + Times(n, Pow(b, k - |top.path| - 1))
    ensures Weight(stack, b, k) < Weight(rest + [top], b, k)
  {
    var e := k - |top.path|;
    var unit := Pow(b, e - 1);
    WeightPush(rest, top, b, k);
    assert FrameWeight(top, b, k) == Pow(b, e) == Times(b, unit);
    PowPositive(b, e - 1);
    TimesLess(n, b, unit);
  }

  /** A frame that is dropped lowers the weight of the stack. */
  lemma WeightDropsOnDiscard<N>(rest: seq<Frame<N>>, top: Frame<N>, b: nat, k: nat)
    requires |top.path| <= k && b >= 1
    ensures Weight(rest, b, k) < Weight(rest + [top], b, k)
  {
    WeightPush(rest, top, b, k);
    PowPositive(b, k - |top.path|);
  }

  // ---------------------------------------------------------------------
  // One step of the inner loop, for one route p.

  /** At the start of the neighbour loop, a route extending `path` waits
      for exactly one more visit. */
  lemma PendingAtStart<N>(graph: map<N, seq<N>>, source: N, dest: N, maxHops: nat, f: Frame<N>, p: seq<N>)
    requires IsPartial(graph, source, dest, maxHops, f)
    requires IsRoute(graph, source, dest, maxHops, p)
    ensures Pending(f.path, Neighbors(graph, f.node), p) == (if IsStrictPrefix(f.path, p) then 1 else 0)
  {
    if IsStrictPrefix(f.path, p) {
      var n := |f.path|;
      assert p[n - 1] == f.path[n - 1] == f.node;
      assert p[n] in Neighbors(graph, p[n - 1]);
    }
  }

  /** A neighbour already on the path leads to no route. */
  lemma StepSkip<N>(path: seq<N>, nbrs: seq<N>, i: nat, p: seq<N>)
    requires i < |nbrs| && nbrs[i] in path
    requires Distinct(p)
    ensures Pending(path, nbrs[i..], p) == Pending(path, nbrs[i + 1..], p)
  {
    assert nbrs[i..] == [nbrs[i]] + nbrs[i + 1..];
    if IsStrictPrefix(path, p) {
      var n := |path|;
      assert p[n] != nbrs[i];
    }
  }

  /** Reaching the destination completes exactly the route `path + [dest]`. */
  lemma StepEmit<N>(graph: map<N, seq<N>>, source: N, dest: N, maxHops: nat, path: seq<N>, nbrs: seq<N>, i: nat, p: seq<N>)
    requires i < |nbrs| && nbrs[i] == dest && Distinct(nbrs)
    requires IsRoute(graph, source, dest, maxHops, p)
    ensures Pending(path, nbrs[i..], p) == Pending(path, nbrs[i + 1..], p) + (if p == path + [dest] then 1 else 0)
  {
    assert nbrs[i..] == [nbrs[i]] + nbrs[i + 1..];
    assert nbrs[i] !in nbrs[i + 1..];
    var n := |path|;
    if IsStrictPrefix(path, p) && p[n] == dest {
      assert n == |p| - 1;
      assert p == p[..n] + [p[n]];
    }
  }

  /** Any other new neighbour becomes a frame that every route through it
      extends. */
  lemma StepPush<N>(graph: map<N, seq<N>>, source: N, dest: N, maxHops: nat, path: seq<N>, nbrs: seq<N>, i: nat, p: seq<N>)
    requires i < |nbrs| && nbrs[i] != dest && Distinct(nbrs)
    requires IsRoute(graph, source, dest, maxHops, p)
    ensures Pending(path, nbrs[i..], p) == Pending(path, nbrs[i + 1..], p) + (if IsStrictPrefix(path + [nbrs[i]], p) then 1 else 0)
  {
    assert nbrs[i..] == [nbrs[i]] + nbrs[i + 1..];
    assert nbrs[i] !in nbrs[i + 1..];
    var n := |path|;
    if IsStrictPrefix(path, p) && p[n] == nbrs[i] {
      assert n + 1 < |p|;
      assert p[..n + 1] == p[..n] + [p[n]];
    }
    if IsStrictPrefix(path + [nbrs[i]], p) {
      assert p[..n] == (path + [nbrs[i]])[..n] == path;
      assert p[n] == (path + [nbrs[i]])[n];
    }
  }

  // ---------------------------------------------------------------------
  // The counting invariant: every route is either yielded already, or
  // extends exactly one frame on the stack (or one neighbour still to be
  // visited from the frame being expanded).

  ghost predicate Accounted<N(!new)>(graph: map<N, seq<N>>, source: N, dest: N, maxHops: nat,
                                     paths: seq<seq<N>>, stack: seq<Frame<N>>)
  {
    forall p :: IsRoute(graph, source, dest, maxHops, p) ==> multiset(paths)[p] + PrefixCount(stack, p) == 1
  }

  ghost predicate AccountedWhileExpanding<N(!new)>(graph: map<N, seq<N>>, source: N, dest: N, maxHops: nat,
                                                   paths: seq<seq<N>>, stack: seq<Frame<N>>, path: seq<N>, rest: seq<N>)
  {
    forall p :: IsRoute(graph, source, dest, maxHops, p) ==>
      multiset(paths)[p] + PrefixCount(stack, p) + Pending(path, rest, p) == 1
  }

  lemma AccountedAtStart<N(!new)>(graph: map<N, seq<N>>, source: N, dest: N, maxHops: nat,
                            paths: seq<seq<N>>, stack: seq<Frame<N>>, top: Frame<N>)
    requires Accounted(graph, source, dest, maxHops, paths, stack + [top])
    requires IsPartial(graph, source, dest, maxHops, top)
    ensures AccountedWhileExpanding(graph, source, dest, maxHops, paths, stack, top.path, Neighbors(graph, top.node))
  {
    forall p | IsRoute(graph, source, dest, maxHops, p)
      ensures multiset(paths)[p] + PrefixCount(stack, p) + Pending(top.path, Neighbors(graph, top.node), p) == 1
    {
      PrefixCountPush(stack, top, p);
      PendingAtStart(graph, source, dest, maxHops, top, p);
    }
  }

  lemma AccountedAfterDiscard<N(!new)>(graph: map<N, seq<N>>, source: N, dest: N, maxHops: nat,
                                 paths: seq<seq<N>>, stack: seq<Frame<N>>, top: Frame<N>)
    requires Accounted(graph, source, dest, maxHops, paths, stack + [top])
    requires |top.path| > maxHops + 1
    ensures Accounted(graph, source, dest, maxHops, paths, stack)
  {
    forall p | IsRoute(graph, source, dest, maxHops, p)
      ensures multiset(paths)[p] + PrefixCount(stack, p) == 1
    {
      PrefixCountPush(stack, top, p);
    }
  }

  lemma AccountedAfterExpanding<N(!new)>(graph: map<N, seq<N>>, source: N, dest: N, maxHops: nat,
                                   paths: seq<seq<N>>, stack: seq<Frame<N>>, path: seq<N>, nbrs: seq<N>)
    requires AccountedWhileExpanding(graph, source, dest, maxHops, paths, stack, path, nbrs[|nbrs|..])
    ensures Accounted(graph, source, dest, maxHops, paths, stack)
  {
  }

  lemma AccountedSkip<N(!new)>(graph: map<N, seq<N>>, source: N, dest: N, maxHops: nat,
                         paths: seq<seq<N>>, stack: seq<Frame<N>>, path: seq<N>, nbrs: seq<N>, i: nat)
    requires i < |nbrs| && nbrs[i] in path
    requires AccountedWhileExpanding(graph, source, dest, maxHops, paths, stack, path, nbrs[i..])
    ensures AccountedWhileExpanding(graph, source, dest, maxHops, paths, stack, path, nbrs[i + 1..])
  {
    forall p | IsRoute(graph, source, dest, maxHops, p)
      ensures multiset(paths)[p] + PrefixCount(stack, p) + Pending(path, nbrs[i + 1..], p) == 1
    {
      StepSkip(path, nbrs, i, p);
    }
  }

  lemma AccountedEmit<N(!new)>(graph: map<N, seq<N>>, source: N, dest: N, maxHops: nat,
                         paths: seq<seq<N>>, stack: seq<Frame<N>>, path: seq<N>, nbrs: seq<N>, i: nat)
    requires i < |nbrs| && nbrs[i] == dest && Distinct(nbrs)
    requires AccountedWhileExpanding(graph, source, dest, maxHops, paths, stack, path, nbrs[i..])
    ensures AccountedWhileExpanding(graph, source, dest, maxHops, paths + [path + [dest]], stack, path, nbrs[i + 1..])
  {
    forall p | IsRoute(graph, source, dest, maxHops, p)
      ensures multiset(paths + [path + [dest]])[p] + PrefixCount(stack, p) + Pending(path, nbrs[i + 1..], p) == 1
    {
      StepEmit(graph, source, dest, maxHops, path, nbrs, i, p);
      assert multiset(paths + [path + [dest]])[p] == multiset(paths)[p] + (if p == path + [dest] then 1 else 0);
    }
  }

  lemma AccountedPush<N(!new)>(graph: map<N, seq<N>>, source: N, dest: N, maxHops: nat,
                         paths: seq<seq<N>>, stack: seq<Frame<N>>, path: seq<N>, nbrs: seq<N>, i: nat)
    requires i < |nbrs| && nbrs[i] != dest && Distinct(nbrs)
    requires AccountedWhileExpanding(graph, source, dest, maxHops, paths, stack, path, nbrs[i..])
    ensures AccountedWhileExpanding(graph, source, dest, maxHops, paths, stack + [Frame(nbrs[i], path + [nbrs[i]])],
                                    path, nbrs[i + 1..])
  {
    var f := Frame(nbrs[i], path + [nbrs[i]]);
    forall p | IsRoute(graph, source, dest, maxHops, p)
      ensures multiset(paths)[p] + PrefixCount(stack + [f], p) + Pending(path, nbrs[i + 1..], p) == 1
    {
      StepPush(graph, source, dest, maxHops, path, nbrs, i, p);
      PrefixCountPush(stack, f, p);
    }
  }

  /** Extending an expandable frame by a new neighbour gives a route when the
      neighbour is the destination, and an expandable frame otherwise. */
  lemma Extend<N>(graph: map<N, seq<N>>, source: N, dest: N, maxHops: nat, f: Frame<N>, nbr: N)
    requires IsPartial(graph, source, dest, maxHops, f) && |f.path| <= maxHops + 1
    requires nbr in Neighbors(graph, f.node) && nbr !in f.path
    ensures nbr == dest ==> IsRoute(graph, source, dest, maxHops, f.path + [nbr])
    ensures nbr != dest ==> IsPartial(graph, source, dest, maxHops, Frame(nbr, f.path + [nbr]))
  {
    var path, newPath := f.path, f.path + [nbr];
    forall j | 0 <= j < |newPath| - 1
      ensures newPath[j + 1] in Neighbors(graph, newPath[j])
    {
      if j < |path| - 1 {
        assert newPath[j] == path[j] && newPath[j + 1] == path[j + 1];
      } else {
        assert newPath[j] == f.node;
      }
    }
    assert newPath[1..] == path[1..] + [nbr];
  }

  ghost predicate AllPartial<N>(graph: map<N, seq<N>>, source: N, dest: N, maxHops: nat, stack: seq<Frame<N>>) {
    forall f :: f in stack ==> IsPartial(graph, source, dest, maxHops, f)
  }

  ghost predicate AllRoutes<N>(graph: map<N, seq<N>>, source: N, dest: N, maxHops: nat, paths: seq<seq<N>>) {
    forall p :: p in paths ==> IsRoute(graph, source, dest, maxHops, p)
  }

  lemma AllPartialPop<N>(graph: map<N, seq<N>>, source: N, dest: N, maxHops: nat, stack: seq<Frame<N>>, top: Frame<N>)
    requires AllPartial(graph, source, dest, maxHops, stack + [top])
    ensures AllPartial(graph, source, dest, maxHops, stack)
    ensures IsPartial(graph, source, dest, maxHops, top)
  {
    assert top in stack + [top];
    forall f | f in stack ensures IsPartial(graph, source, dest, maxHops, f) {
      assert f in stack + [top];
    }
  }

  // ---------------------------------------------------------------------
  // What one expansion adds: the neighbour loop appends, neighbour by
  // neighbour, the completed routes to the output and the other new
  // frames to the stack.

  /** The paths yielded while visiting `nbrs` from `path`. */
  function Emitted<N(==)>(path: seq<N>, nbrs: seq<N>, dest: N): seq<seq<N>> {
    if nbrs == [] then []
    else
      var nbr := nbrs[|nbrs| - 1];
      Emitted(path, nbrs[..|nbrs| - 1], dest) + (if nbr !in path && nbr == dest then [path + [nbr]] else [])
  }

  /** The frames pushed while visiting `nbrs` from `path`. */
  function Pushed<N(==)>(path: seq<N>, nbrs: seq<N>, dest: N): seq<Frame<N>> {
    if nbrs == [] then []
    else
      var nbr := nbrs[|nbrs| - 1];
      Pushed(path, nbrs[..|nbrs| - 1], dest) + (if nbr !in path && nbr != dest then [Frame(nbr, path + [nbr])] else [])
  }

  lemma ExpansionSnoc<N>(path: seq<N>, nbrs: seq<N>, i: nat, dest: N)
    requires i < |nbrs|
    ensures Emitted(path, nbrs[..i + 1], dest)
            == Emitted(path, nbrs[..i], dest) + (if nbrs[i] !in path && nbrs[i] == dest then [path + [nbrs[i]]] else [])
    ensures Pushed(path, nbrs[..i + 1], dest)
            == Pushed(path, nbrs[..i], dest) + (if nbrs[i] !in path && nbrs[i] != dest then [Frame(nbrs[i], path + [nbrs[i]])] else [])
  {
    assert nbrs[..i + 1][..i] == nbrs[..i];
  }

  /** The facts the outer loop keeps while `top` is being expanded, with
      `paths` and `stack` as they stand after the first i neighbours. */
  ghost predicate Expanding<N(!new)>(graph: map<N, seq<N>>, source: N, dest: N, maxHops: nat,
                                     paths: seq<seq<N>>, stack: seq<Frame<N>>, rest: seq<Frame<N>>, top: Frame<N>,
                                     b: nat, k: nat, i: nat)
    requires i <= |Neighbors(graph, top.node)| && |top.path| < k
  {
    AllPartial(graph, source, dest, maxHops, stack)
    && AllRoutes(graph, source, dest, maxHops, paths)
    && (NoDuplicateNeighbors(graph) ==>
          AccountedWhileExpanding(graph, source, dest, maxHops, paths, stack, top.path, Neighbors(graph, top.node)[i..]))
    && Weight(stack, b, k) <= Weight(rest, b, k) + Times(i, Pow(b, k - |top.path| - 1))
  }

  lemma SkipKeepsExpanding<N(!new)>(graph: map<N, seq<N>>, source: N, dest: N, maxHops: nat,
                                  paths: seq<seq<N>>, stack: seq<Frame<N>>, rest: seq<Frame<N>>, top: Frame<N>,
                                  b: nat, k: nat, i: nat)
    requires IsPartial(graph, source, dest, maxHops, top) && |top.path| <= maxHops + 1 && k == maxHops + 2
    requires i < |Neighbors(graph, top.node)|
    requires Expanding(graph, source, dest, maxHops, paths, stack, rest, top, b, k, i)
    requires Neighbors(graph, top.node)[i] in top.path
    ensures Expanding(graph, source, dest, maxHops, paths, stack, rest, top, b, k, i + 1)
  {
    var unit := Pow(b, k - |top.path| - 1);
    assert Times(i + 1, unit) == Times(i, unit) + unit;
    ExpansionSkip(graph, source, dest, maxHops, paths, stack, top, Neighbors(graph, top.node), i);
  }

  lemma EmitKeepsExpanding<N(!new)>(graph: map<N, seq<N>>, source: N, dest: N, maxHops: nat,
                                  paths: seq<seq<N>>, stack: seq<Frame<N>>, rest: seq<Frame<N>>, top: Frame<N>,
                                  b: nat, k: nat, i: nat)
    requires IsPartial(graph, source, dest, maxHops, top) && |top.path| <= maxHops + 1 && k == maxHops + 2
    requires i < |Neighbors(graph, top.node)|
    requires Expanding(graph, source, dest, maxHops, paths, stack, rest, top, b, k, i)
    requires Neighbors(graph, top.node)[i] !in top.path && Neighbors(graph, top.node)[i] == dest
    ensures Expanding(graph, source, dest, maxHops, paths + [top.path + [dest]], stack, rest, top, b, k, i + 1)
  {
    var nbrs := Neighbors(graph, top.node);
    assert NoDuplicateNeighbors(graph) ==> Distinct(nbrs);
    var unit := Pow(b, k - |top.path| - 1);
    assert Times(i + 1, unit) == Times(i, unit) + unit;
    ExpansionEmit(graph, source, dest, maxHops, paths, stack, top, nbrs, i);
  }

  lemma PushKeepsExpanding<N(!new)>(graph: map<N, seq<N>>, source: N, dest: N, maxHops: nat,
                                  paths: seq<seq<N>>, stack: seq<Frame<N>>, rest: seq<Frame<N>>, top: Frame<N>,
                                  b: nat, k: nat, i: nat)
    requires IsPartial(graph, source, dest, maxHops, top) && |top.path| <= maxHops + 1 && k == maxHops + 2
    requires i < |Neighbors(graph, top.node)|
    requires Expanding(graph, source, dest, maxHops, paths, stack, rest, top, b, k, i)
    requires Neighbors(graph, top.node)[i] !in top.path && Neighbors(graph, top.node)[i] != dest
    ensures Expanding(graph, source, dest, maxHops, paths,
                      stack + [Frame(Neighbors(graph, top.node)[i], top.path + [Neighbors(graph, top.node)[i]])],
                      rest, top, b, k, i + 1)
  {
    var nbrs := Neighbors(graph, top.node);
    assert NoDuplicateNeighbors(graph) ==> Distinct(nbrs);
    var unit := Pow(b, k - |top.path| - 1);
    assert Times(i + 1, unit) == Times(i, unit) + unit;
    ExpansionPush(graph, source, dest, maxHops, paths, stack, top, nbrs, i, b, k);
  }

  /** A neighbour already on the path is skipped. */
  lemma ExpansionSkip<N(!new)>(graph: map<N, seq<N>>, source: N, dest: N, maxHops: nat,
                               paths: seq<seq<N>>, stack: seq<Frame<N>>, top: Frame<N>, nbrs: seq<N>, i: nat)
    requires i < |nbrs| && nbrs[i] in top.path
    requires NoDuplicateNeighbors(graph) ==>
               AccountedWhileExpanding(graph, source, dest, maxHops, paths, stack, top.path, nbrs[i..])
    ensures NoDuplicateNeighbors(graph) ==>
              AccountedWhileExpanding(graph, source, dest, maxHops, paths, stack, top.path, nbrs[i + 1..])
  {
    if NoDuplicateNeighbors(graph) {
      AccountedSkip(graph, source, dest, maxHops, paths, stack, top.path, nbrs, i);
    }
  }

  /** The destination as a new neighbour completes a route. */
  lemma ExpansionEmit<N(!new)>(graph: map<N, seq<N>>, source: N, dest: N, maxHops: nat,
                               paths: seq<seq<N>>, stack: seq<Frame<N>>, top: Frame<N>, nbrs: seq<N>, i: nat)
    requires IsPartial(graph, source, dest, maxHops, top) && |top.path| <= maxHops + 1
    requires nbrs == Neighbors(graph, top.node) && i < |nbrs| && nbrs[i] !in top.path && nbrs[i] == dest
    requires NoDuplicateNeighbors(graph) ==> Distinct(nbrs)
    requires AllRoutes(graph, source, dest, maxHops, paths)
    requires NoDuplicateNeighbors(graph) ==>
               AccountedWhileExpanding(graph, source, dest, maxHops, paths, stack, top.path, nbrs[i..])
    ensures AllRoutes(graph, source, dest, maxHops, paths + [top.path + [dest]])
    ensures NoDuplicateNeighbors(graph) ==>
              AccountedWhileExpanding(graph, source, dest, maxHops, paths + [top.path + [dest]], stack, top.path, nbrs[i + 1..])
  {
    Extend(graph, source, dest, maxHops, top, nbrs[i]);
    AllRoutesPush(graph, source, dest, maxHops, paths, top.path + [dest]);
    if NoDuplicateNeighbors(graph) {
      AccountedEmit(graph, source, dest, maxHops, paths, stack, top.path, nbrs, i);
    }
  }

  /** Any other new neighbour becomes a new frame on the stack. */
  lemma ExpansionPush<N(!new)>(graph: map<N, seq<N>>, source: N, dest: N, maxHops: nat,
                               paths: seq<seq<N>>, stack: seq<Frame<N>>, top: Frame<N>, nbrs: seq<N>, i: nat, b: nat, k: nat)
    requires IsPartial(graph, source, dest, maxHops, top) && |top.path| <= maxHops + 1 && k == maxHops + 2
    requires nbrs == Neighbors(graph, top.node) && i < |nbrs| && nbrs[i] !in top.path && nbrs[i] != dest
    requires NoDuplicateNeighbors(graph) ==> Distinct(nbrs)
    requires AllPartial(graph, source, dest, maxHops, stack)
    requires NoDuplicateNeighbors(graph) ==>
               AccountedWhileExpanding(graph, source, dest, maxHops, paths, stack, top.path, nbrs[i..])
    ensures AllPartial(graph, source, dest, maxHops, stack + [Frame(nbrs[i], top.path + [nbrs[i]])])
    ensures NoDuplicateNeighbors(graph) ==>
              AccountedWhileExpanding(graph, source, dest, maxHops, paths, stack + [Frame(nbrs[i], top.path + [nbrs[i]])],
                                      top.path, nbrs[i + 1..])
    ensures Weight(stack + [Frame(nbrs[i], top.path + [nbrs[i]])], b, k)
            == Weight(stack, b, k) + Pow(b, k - |top.path| - 1)
  {
    var f := Frame(nbrs[i], top.path + [nbrs[i]]);
    Extend(graph, source, dest, maxHops, top, nbrs[i]);
    AllPartialPush(graph, source, dest, maxHops, stack, f);
    WeightPush(stack, f, b, k);
    if NoDuplicateNeighbors(graph) {
      AccountedPush(graph, source, dest, maxHops, paths, stack, top.path, nbrs, i);
    }
  }

  /** What visiting neighbour i appends to the output and to the stack. */
  lemma ExpansionShape<N>(path: seq<N>, nbrs: seq<N>, i: nat, dest: N, paths0: seq<seq<N>>, rest: seq<Frame<N>>)
    requires i < |nbrs|
    ensures paths0 + Emitted(path, nbrs[..i + 1], dest)
            == (paths0 + Emitted(path, nbrs[..i], dest))
               + (if nbrs[i] !in path && nbrs[i] == dest then [path + [nbrs[i]]] else [])
    ensures rest + Pushed(path, nbrs[..i + 1], dest)
            == (rest + Pushed(path, nbrs[..i], dest))
               + (if nbrs[i] !in path && nbrs[i] != dest then [Frame(nbrs[i], path + [nbrs[i]])] else [])
  {
    ExpansionSnoc(path, nbrs, i, dest);
    if nbrs[i] !in path && nbrs[i] == dest {
      assert paths0 + (Emitted(path, nbrs[..i], dest) + [path + [nbrs[i]]]) == (paths0 + Emitted(path, nbrs[..i], dest)) + [path + [nbrs[i]]];
    } else {
      assert paths0 + Emitted(path, nbrs[..i], dest) + [] == paths0 + Emitted(path, nbrs[..i], dest);
    }
    if nbrs[i] !in path && nbrs[i] != dest {
      assert rest + (Pushed(path, nbrs[..i], dest) + [Frame(nbrs[i], path + [nbrs[i]])]) == (rest + Pushed(path, nbrs[..i], dest)) + [Frame(nbrs[i], path + [nbrs[i]])];
    } else {
      assert rest + Pushed(path, nbrs[..i], dest) + [] == rest + Pushed(path, nbrs[..i], dest);
    }
  }

  lemma AllPartialPush<N>(graph: map<N, seq<N>>, source: N, dest: N, maxHops: nat, stack: seq<Frame<N>>, f: Frame<N>)
    requires AllPartial(graph, source, dest, maxHops, stack) && IsPartial(graph, source, dest, maxHops, f)
    ensures AllPartial(graph, source, dest, maxHops, stack + [f])
  {
  }

  lemma AllRoutesPush<N>(graph: map<N, seq<N>>, source: N, dest: N, maxHops: nat, paths: seq<seq<N>>, p: seq<N>)
    requires AllRoutes(graph, source, dest, maxHops, paths) && IsRoute(graph, source, dest, maxHops, p)
    ensures AllRoutes(graph, source, dest, maxHops, paths + [p])
  {
  }

  /** After the first i neighbours: the facts of `Expanding` hold of the
      output and the stack that `VisitNeighbors` has built so far. */
  lemma {:induction false} ExpansionPrefix<N(!new)>(graph: map<N, seq<N>>, source: N, dest: N, maxHops: nat,
                                                    paths0: seq<seq<N>>, rest: seq<Frame<N>>, top: Frame<N>,
                                                    b: nat, k: nat, i: nat)
    requires IsPartial(graph, source, dest, maxHops, top) && |top.path| <= maxHops + 1 && k == maxHops + 2
    requires i <= |Neighbors(graph, top.node)|
    requires AllPartial(graph, source, dest, maxHops, rest) && AllRoutes(graph, source, dest, maxHops, paths0)
    requires NoDuplicateNeighbors(graph) ==> Accounted(graph, source, dest, maxHops, paths0, rest + [top])
    ensures Expanding(graph, source, dest, maxHops,
                      paths0 + Emitted(top.path, Neighbors(graph, top.node)[..i], dest),
                      rest + Pushed(top.path, Neighbors(graph, top.node)[..i], dest), rest, top, b, k, i)
  {
    var nbrs := Neighbors(graph, top.node);
    if i == 0 {
      assert nbrs[..0] == [] && nbrs[0..] == nbrs;
      assert paths0 + [] == paths0 && rest + [] == rest;
      if NoDuplicateNeighbors(graph) {
        AccountedAtStart(graph, source, dest, maxHops, paths0, rest, top);
      }
    } else {
      var j := i - 1;
      ExpansionPrefix(graph, source, dest, maxHops, paths0, rest, top, b, k, j);
      var paths := paths0 + Emitted(top.path, nbrs[..j], dest);
      var stack := rest + Pushed(top.path, nbrs[..j], dest);
      ExpansionShape(top.path, nbrs, j, dest, paths0, rest);
      var paths', stack' := paths0 + Emitted(top.path, nbrs[..i], dest), rest + Pushed(top.path, nbrs[..i], dest);
      if nbrs[j] in top.path {
        assert paths' == paths && stack' == stack;
        SkipKeepsExpanding(graph, source, dest, maxHops, paths, stack, rest, top, b, k, j);
      } else if nbrs[j] == dest {
        assert paths' == paths + [top.path + [dest]] && stack' == stack;
        EmitKeepsExpanding(graph, source, dest, maxHops, paths, stack, rest, top, b, k, j);
      } else {
        assert paths' == paths && stack' == stack + [Frame(nbrs[j], top.path + [nbrs[j]])];
        PushKeepsExpanding(graph, source, dest, maxHops, paths, stack, rest, top, b, k, j);
      }
    }
  }

  // ---------------------------------------------------------------------
  // The order of the output: the search as a function of its stack.

  /** The frames pushed while expanding `path` weigh together at most
      one unit of the next length per neighbour. */
  lemma {:induction false} PushedWeight<N>(rest: seq<Frame<N>>, path: seq<N>, nbrs: seq<N>, dest: N, b: nat, k: nat)
    requires |path| < k
    ensures Weight(rest + Pushed(path, nbrs, dest), b, k) <= Weight(rest, b, k) + Times(|nbrs|, Pow(b, k - |path| - 1))
  {
    if nbrs != [] {
      var init, nbr := nbrs[..|nbrs| - 1], nbrs[|nbrs| - 1];
      PushedWeight(rest, path, init, dest, b, k);
      var unit := Pow(b, k - |path| - 1);
      assert Times(|nbrs|, unit) == Times(|init|, unit) + unit;
      if nbr !in path && nbr != dest {
        var f := Frame(nbr, path + [nbr]);
        assert FrameWeight(f, b, k) == unit;
        assert Pushed(path, nbrs, dest) == Pushed(path, init, dest) + [f];
        assert rest + (Pushed(path, init, dest) + [f]) == (rest + Pushed(path, init, dest)) + [f];
        WeightPush(rest + Pushed(path, init, dest), f, b, k);
      } else {
        assert Pushed(path, nbrs, dest) == Pushed(path, init, dest) + [];
        assert rest + Pushed(path, nbrs, dest) == rest + Pushed(path, init, dest);
      }
    } else {
      assert rest + Pushed(path, nbrs, dest) == rest;
    }
  }

  /** The paths the search yields from `stack` on, in order: the last
      frame is popped; a frame over the hop limit is dropped, and any
      other is expanded, its completed routes yielded at once and its
      other extensions searched before the rest of the stack. */
  ghost function Dfs<N>(graph: map<N, seq<N>>, dest: N, maxHops: nat, stack: seq<Frame<N>>): seq<seq<N>>
    decreases Weight(stack, MaxDegree(graph) + 1, maxHops + 2), |stack|
  {
    if stack == [] then []
    else
      var b, k := MaxDegree(graph) + 1, maxHops + 2;
      var top, rest := stack[|stack| - 1], stack[..|stack| - 1];
      assert stack == rest + [top];
      WeightPush(rest, top, b, k);
      if |top.path| - 1 > maxHops then Dfs(graph, dest, maxHops, rest)
      else
        var nbrs := Neighbors(graph, top.node);
        PushedWeight(rest, top.path, nbrs, dest, b, k);
        WeightDrops(rest, top, rest + Pushed(top.path, nbrs, dest), b, k, |nbrs|);
        Emitted(top.path, nbrs, dest) + Dfs(graph, dest, maxHops, rest + Pushed(top.path, nbrs, dest))
  }

  /** One iteration of the outer loop, as `Dfs` sees it. */
  lemma DfsStep<N>(graph: map<N, seq<N>>, dest: N, maxHops: nat, stack: seq<Frame<N>>, paths: seq<seq<N>>)
    requires stack != []
    ensures var top, rest := stack[|stack| - 1], stack[..|stack| - 1];
            var nbrs := Neighbors(graph, top.node);
            paths + Dfs(graph, dest, maxHops, stack)
            == if |top.path| - 1 > maxHops then paths + Dfs(graph, dest, maxHops, rest)
               else (paths + Emitted(top.path, nbrs, dest)) + Dfs(graph, dest, maxHops, rest + Pushed(top.path, nbrs, dest))
  {
  }

  /** The neighbour loop of `enumerate_simple_paths`: for each neighbour
      not yet on `path`, the extended path is yielded when the neighbour is
      the destination and pushed as a new frame otherwise. */
  method VisitNeighbors<N(==)>(path: seq<N>, nbrs: seq<N>, dest: N, paths0: seq<seq<N>>, stack0: seq<Frame<N>>)
    returns (paths: seq<seq<N>>, stack: seq<Frame<N>>)
    ensures paths == paths0 + Emitted(path, nbrs, dest)
    ensures stack == stack0 + Pushed(path, nbrs, dest)
  {
    paths, stack := paths0, stack0;
    var i := 0;
    while i < |nbrs|
      invariant 0 <= i <= |nbrs|
      invariant paths == paths0 + Emitted(path, nbrs[..i], dest)
      invariant stack == stack0 + Pushed(path, nbrs[..i], dest)
    {
      var nbr := nbrs[i];
      ExpansionSnoc(path, nbrs, i, dest);
      if nbr !in path {
        var newPath := path + [nbr];
        if nbr == dest {
          assert paths0 + (Emitted(path, nbrs[..i], dest) + [newPath]) == (paths0 + Emitted(path, nbrs[..i], dest)) + [newPath];
          paths := paths + [newPath];
        } else {
          assert stack0 + (Pushed(path, nbrs[..i], dest) + [Frame(nbr, newPath)]) == (stack0 + Pushed(path, nbrs[..i], dest)) + [Frame(nbr, newPath)];
          stack := stack + [Frame(nbr, newPath)];
        }
      }
      i := i + 1;
    }
    assert nbrs[..|nbrs|] == nbrs;
  }

  /** One iteration of the search loop: pop the last frame, drop it when
      it is over the hop limit, and expand it otherwise. */
  method SearchStep<N(==,!new)>(graph: map<N, seq<N>>, source: N, dest: N, maxHops: nat,
                                paths0: seq<seq<N>>, stack0: seq<Frame<N>>, ghost whole: seq<seq<N>>)
    returns (paths: seq<seq<N>>, stack: seq<Frame<N>>)
    requires stack0 != []
    requires AllPartial(graph, source, dest, maxHops, stack0)
    requires AllRoutes(graph, source, dest, maxHops, paths0)
    requires NoDuplicateNeighbors(graph) ==> Accounted(graph, source, dest, maxHops, paths0, stack0)
    requires paths0 + Dfs(graph, dest, maxHops, stack0) == whole
    ensures AllPartial(graph, source, dest, maxHops, stack)
    ensures AllRoutes(graph, source, dest, maxHops, paths)
    ensures NoDuplicateNeighbors(graph) ==> Accounted(graph, source, dest, maxHops, paths, stack)
    ensures paths + Dfs(graph, dest, maxHops, stack) == whole
    ensures Weight(stack, MaxDegree(graph) + 1, maxHops + 2) < Weight(stack0, MaxDegree(graph) + 1, maxHops + 2)
  {
    ghost var b, k := MaxDegree(graph) + 1, maxHops + 2;
    ghost var noDup := NoDuplicateNeighbors(graph);
    paths := paths0;
    var top := stack0[|stack0| - 1];
    stack := stack0[..|stack0| - 1];
    assert stack0 == stack + [top];
    AllPartialPop(graph, source, dest, maxHops, stack, top);
    ghost var rest := stack;
    var node, path := top.node, top.path;
    if |path| - 1 > maxHops {
      WeightDropsOnDiscard(rest, top, b, k);
      if noDup {
        AccountedAfterDiscard(graph, source, dest, maxHops, paths, rest, top);
      }
      assert paths + Dfs(graph, dest, maxHops, stack) == whole by {
        DfsStep(graph, dest, maxHops, stack0, paths0);
      }
    } else {
      var nbrs := Neighbors(graph, node);
      paths, stack := VisitNeighbors(path, nbrs, dest, paths, stack);
      assert nbrs[..|nbrs|] == nbrs;
      ExpansionPrefix(graph, source, dest, maxHops, paths0, rest, top, b, k, |nbrs|);
      if noDup {
        AccountedAfterExpanding(graph, source, dest, maxHops, paths, stack, path, nbrs);
      }
      assert |nbrs| < b;
      WeightDrops(rest, top, stack, b, k, |nbrs|);
      assert paths + Dfs(graph, dest, maxHops, stack) == whole by {
        DfsStep(graph, dest, maxHops, stack0, paths0);
      }
    }
  }

  /** `enumerate_simple_paths(graph, source, dest, max_hops)`: the paths it
      yields, in the order it yields them. Every one is a route, so it ends
      at `dest` and passes it nowhere else; when no adjacency list repeats
      a neighbour, every route is yielded exactly once. */
  method EnumerateSimplePaths<N(==,!new)>(graph: map<N, seq<N>>, source: N, dest: N, maxHops: nat)
    returns (paths: seq<seq<N>>)
    ensures forall p :: p in paths ==> IsRoute(graph, source, dest, maxHops, p)
    ensures forall p :: p in paths ==> forall i :: 0 <= i < |p| - 1 ==> p[i] != dest
    ensures source == dest || source !in graph ==> paths == []
    ensures NoDuplicateNeighbors(graph) ==>
              forall p :: IsRoute(graph, source, dest, maxHops, p) ==> multiset(paths)[p] == 1
    ensures paths == Dfs(graph, dest, maxHops, [Frame(source, [source])])
  {
    ghost var b := MaxDegree(graph) + 1;
    ghost var k := maxHops + 2;
    ghost var noDup := NoDuplicateNeighbors(graph);
    var stack := [Frame(source, [source])];
    paths := [];
    ghost var whole := Dfs(graph, dest, maxHops, stack);
    assert paths + Dfs(graph, dest, maxHops, stack) == whole;
    assert noDup ==> Accounted(graph, source, dest, maxHops, paths, stack) by {
      forall p | IsRoute(graph, source, dest, maxHops, p)
        ensures PrefixCount(stack, p) == 1
      {
        PrefixCountPush([], stack[0], p);
      }
    }
    while stack != []
      invariant AllPartial(graph, source, dest, maxHops, stack)
      invariant AllRoutes(graph, source, dest, maxHops, paths)
      invariant noDup ==> Accounted(graph, source, dest, maxHops, paths, stack)
      invariant paths + Dfs(graph, dest, maxHops, stack) == whole
      decreases Weight(stack, b, k)
    {
      paths, stack := SearchStep(graph, source, dest, maxHops, paths, stack, whole);
    }
    assert paths == whole by {
      assert Dfs(graph, dest, maxHops, stack) == [];
      assert paths + [] == paths;
    }
    if paths != [] {
      var p := paths[0];
      assert p in paths;
      assert p[1] in Neighbors(graph, p[0]);
      assert p[0] != p[|p| - 1];
    }
  }
}
