/**
 * The greedy Prim-style walk of script.js (lines 139-168). The traversal keeps
 * the visited vertices (`visitedVertices[0]`), the log of chosen edges (the
 * rest of `visitedVertices`) and `totalWeight`. Each `nextStep` scans the node
 * list in order and, for every visited node, its weight row in column order,
 * and takes the first strictly lightest non-zero edge to an unvisited vertex.
 *
 * The scan is specified by two left folds (`RowScan`, `NodeScan`) over scan
 * positions, which the loops of `Walk.Scan` follow step by step, and
 * by an independent reference definition (`IsFirstMinimum`) they are proved
 * to meet.
 */
module Traversal {
  import opened Matrices
  import opened NodeLists

  datatype Option<T> = None | Some(value: T)

  /** The `(value, weight row)` pairs of the node list, in list order. */
  type Entries = seq<(int, seq<int>)>

  /** A scan position: the index of a node in list order and a column of its row. */
  type Pos = (nat, nat)

  /**
   * Lines 147-149: the node at `p` is visited, column `c` of its row holds a
   * non-zero weight, and `c` is not visited.
   */
  predicate IsCandidate(entries: Entries, visited: seq<int>, p: nat, c: nat)
  {
    p < |entries| && entries[p].0 in visited && c < |entries[p].1| && entries[p].1[c] != 0 && c !in visited
  }

  ghost predicate HasCandidate(entries: Entries, visited: seq<int>)
  {
    exists p: nat, c: nat :: IsCandidate(entries, visited, p, c)
  }

  predicate InBounds(entries: Entries, best: Option<Pos>)
  {
    best.Some? ==> best.value.0 < |entries| && best.value.1 < |entries[best.value.0].1|
  }

  function WeightAt(entries: Entries, pos: Pos): int
    requires pos.0 < |entries| && pos.1 < |entries[pos.0].1|
  {
    entries[pos.0].1[pos.1]
  }

  /** `a` comes before `b` in scan order: by node first, then by column. */
  predicate Before(a: Pos, b: Pos)
  {
    a.0 < b.0 || (a.0 == b.0 && a.1 < b.1)
  }

  /**
   * Lines 149-153: the pair at `(p, c)` replaces the best pair so far when it
   * is a candidate and strictly lighter (no best pair yet stands for
   * `minWeight == Infinity`).
   */
  function Consider(entries: Entries, visited: seq<int>, best: Option<Pos>, p: nat, c: nat): (r: Option<Pos>)
    requires InBounds(entries, best)
    ensures InBounds(entries, r)
  {
    if IsCandidate(entries, visited, p, c) && (best.None? || entries[p].1[c] < WeightAt(entries, best.value))
    then Some((p, c))
    else best
  }

  /** The best pair after the `forEach` of line 148 has seen columns `0 .. c-1` of node `p`. */
  function RowScan(entries: Entries, visited: seq<int>, best: Option<Pos>, p: nat, c: nat): (r: Option<Pos>)
    requires p < |entries| && c <= |entries[p].1| && InBounds(entries, best)
    ensures InBounds(entries, r)
  {
    if c == 0 then best
    else Consider(entries, visited, RowScan(entries, visited, best, p, c - 1), p, c - 1)
  }

  /** The best pair after the `while` of line 146 has passed the first `k` nodes. */
  function NodeScan(entries: Entries, visited: seq<int>, k: nat): (r: Option<Pos>)
    requires k <= |entries|
    ensures InBounds(entries, r)
  {
    if k == 0 then None
    else
      var best := NodeScan(entries, visited, k - 1);
      if entries[k - 1].0 in visited then RowScan(entries, visited, best, k - 1, |entries[k - 1].1|)
      else best
  }

  /** The pair one call of `nextStep` chooses. */
  function Select(entries: Entries, visited: seq<int>): (r: Option<Pos>)
    ensures InBounds(entries, r)
  {
    NodeScan(entries, visited, |entries|)
  }

  // ---------------------------------------------------------------------
  // Reference definition of the choice and its proof

  /**
   * `pos` is the lightest candidate, and every candidate before it in scan
   * order is strictly heavier: the first minimum.
   */
  ghost predicate IsFirstMinimum(entries: Entries, visited: seq<int>, pos: Pos)
  {
    && IsCandidate(entries, visited, pos.0, pos.1)
    && (forall p: nat, c: nat :: IsCandidate(entries, visited, p, c) ==> WeightAt(entries, pos) <= entries[p].1[c])
    && (forall p: nat, c: nat :: IsCandidate(entries, visited, p, c) && Before((p, c), pos) ==>
          WeightAt(entries, pos) < entries[p].1[c])
  }

  /** `best` is the first minimum among the candidates strictly before `bound`. */
  ghost predicate IsBestBefore(entries: Entries, visited: seq<int>, best: Option<Pos>, bound: Pos)
  {
    match best
    case None =>
      forall p: nat, c: nat :: IsCandidate(entries, visited, p, c) ==> !Before((p, c), bound)
    case Some(pos) =>
      && IsCandidate(entries, visited, pos.0, pos.1) && Before(pos, bound)
      && (forall p: nat, c: nat :: IsCandidate(entries, visited, p, c) && Before((p, c), bound) ==>
            WeightAt(entries, pos) <= entries[p].1[c])
      && (forall p: nat, c: nat :: IsCandidate(entries, visited, p, c) && Before((p, c), pos) ==>
            WeightAt(entries, pos) < entries[p].1[c])
  }

  lemma {:induction false} RowScanIsBest(entries: Entries, visited: seq<int>, best: Option<Pos>, p: nat, c: nat)
    requires p < |entries| && c <= |entries[p].1| && InBounds(entries, best)
    requires IsBestBefore(entries, visited, best, (p, 0))
    ensures IsBestBefore(entries, visited, RowScan(entries, visited, best, p, c), (p, c))
  {
    if c > 0 {
      RowScanIsBest(entries, visited, best, p, c - 1);
      var prev := RowScan(entries, visited, best, p, c - 1);
      assert forall q: Pos :: Before(q, (p, c)) <==> Before(q, (p, c - 1)) || q == (p, c - 1);
    }
  }

  lemma {:induction false} NodeScanIsBest(entries: Entries, visited: seq<int>, k: nat)
    requires k <= |entries|
    ensures IsBestBefore(entries, visited, NodeScan(entries, visited, k), (k, 0))
  {
    if k > 0 {
      NodeScanIsBest(entries, visited, k - 1);
      var best := NodeScan(entries, visited, k - 1);
      var row := entries[k - 1].1;
      if entries[k - 1].0 in visited {
        RowScanIsBest(entries, visited, best, k - 1, |row|);
      }
      // no candidate sits in node k - 1 past its row, nor in an unvisited node
      assert forall p: nat, c: nat :: IsCandidate(entries, visited, p, c) && Before((p, c), (k, 0)) ==>
        Before((p, c), (k - 1, 0)) || (entries[k - 1].0 in visited && Before((p, c), (k - 1, |row|)));
    }
  }

  /**
   * The scan of lines 145-157 finds a pair exactly when a candidate exists,
   * and the pair it finds is the first minimum.
   */
  lemma SelectIsFirstMinimum(entries: Entries, visited: seq<int>)
    ensures Select(entries, visited).None? <==> !HasCandidate(entries, visited)
    ensures Select(entries, visited).Some? ==> IsFirstMinimum(entries, visited, Select(entries, visited).value)
  {
    NodeScanIsBest(entries, visited, |entries|);
  }

  /** The first minimum is unique, so it determines the choice completely. */
  lemma FirstMinimumIsUnique(entries: Entries, visited: seq<int>, a: Pos, b: Pos)
    requires IsFirstMinimum(entries, visited, a) && IsFirstMinimum(entries, visited, b)
    ensures a == b
  {
  }

  // ---------------------------------------------------------------------
  // Traversal state and one step

  /** `visited` is `visitedVertices[0]`, `edges` the `[start, end]` pairs pushed after it. */
  datatype State = State(visited: seq<int>, edges: seq<(int, int)>, totalWeight: int)

  /**
   * Lines 158, 161 and 166: the chosen end vertex is appended to the visited
   * list, the pair `[start, end]` to the log, and its weight to the total.
   */
  function Step(entries: Entries, s: State): (r: State)
    requires HasCandidate(entries, s.visited)
    ensures |r.visited| == |s.visited| + 1 && r.visited[..|s.visited|] == s.visited
    ensures |r.edges| == |s.edges| + 1 && r.edges[..|s.edges|] == s.edges
    ensures r.edges[|s.edges|].1 == r.visited[|s.visited|] && r.visited[|s.visited|] !in s.visited
    ensures r.edges[|s.edges|].0 in s.visited
    ensures r.totalWeight != s.totalWeight
  {
    SelectIsFirstMinimum(entries, s.visited);
    var pos := Select(entries, s.visited).value;
    State(s.visited + [pos.1], s.edges + [(entries[pos.0].0, pos.1)], s.totalWeight + WeightAt(entries, pos))
  }

  /** Node `k` holds vertex `k` and a row of length n, as the list built at lines 131-132. */
  predicate IsMatrixList(entries: Entries)
  {
    forall k :: 0 <= k < |entries| ==> entries[k].0 == k && |entries[k].1| == |entries|
  }

  predicate Distinct(s: seq<int>)
  {
    forall i, j :: 0 <= i < j < |s| ==> s[i] != s[j]
  }

  predicate EdgesInRange(entries: Entries, edges: seq<(int, int)>)
    requires IsMatrixList(entries)
  {
    forall k :: 0 <= k < |edges| ==> 0 <= edges[k].0 < |entries| && 0 <= edges[k].1 < |entries|
  }

  /** The weight of edge `(s, e)`: column `e` of the row of vertex `s`. */
  function EdgeWeight(entries: Entries, e: (int, int)): int
    requires IsMatrixList(entries) && 0 <= e.0 < |entries| && 0 <= e.1 < |entries|
  {
    entries[e.0].1[e.1]
  }

  function SumWeights(entries: Entries, edges: seq<(int, int)>): int
    requires IsMatrixList(entries) && EdgesInRange(entries, edges)
  {
    if edges == [] then 0
    else SumWeights(entries, edges[..|edges| - 1]) + EdgeWeight(entries, edges[|edges| - 1])
  }

  /**
   * What every reachable traversal state satisfies: the walk starts at
   * vertex 0, never visits a vertex twice, each logged edge joins an earlier
   * visited vertex to the vertex visited at that step by a non-zero weight,
   * and `totalWeight` is the sum of the logged edges' weights.
   */
  predicate IsTrace(entries: Entries, s: State)
  {
    && IsMatrixList(entries) && |entries| > 0
    && |s.visited| == |s.edges| + 1 && s.visited[0] == 0
    && (forall k :: 0 <= k < |s.visited| ==> 0 <= s.visited[k] < |entries|)
    && Distinct(s.visited)
    && EdgesInRange(entries, s.edges)
    && (forall k :: 0 <= k < |s.edges| ==>
          s.edges[k].1 == s.visited[k + 1] && s.edges[k].0 in s.visited[..k + 1] &&
          EdgeWeight(entries, s.edges[k]) != 0)
    && s.totalWeight == SumWeights(entries, s.edges)
  }

  /** Lines 139-140: the start state is a trace. */
  lemma InitialIsTrace(entries: Entries)
    requires IsMatrixList(entries) && |entries| > 0
    ensures IsTrace(entries, State([0], [], 0))
  {
  }

  lemma {:induction false} SumWeightsAppend(entries: Entries, edges: seq<(int, int)>, e: (int, int))
    requires IsMatrixList(entries) && EdgesInRange(entries, edges) && 0 <= e.0 < |entries| && 0 <= e.1 < |entries|
    ensures EdgesInRange(entries, edges + [e])
    ensures SumWeights(entries, edges + [e]) == SumWeights(entries, edges) + EdgeWeight(entries, e)
  {
    assert (edges + [e])[..|edges|] == edges;
  }

  /**
   * Appending an edge from a visited vertex to an unvisited one, with a
   * non-zero weight, to a trace (and its weight to the total) gives a trace.
   */
  lemma TraceAppend(entries: Entries, s: State, a: int, b: int)
    requires IsTrace(entries, s)
    requires a in s.visited && 0 <= a < |entries| && 0 <= b < |entries| && b !in s.visited
    requires EdgeWeight(entries, (a, b)) != 0
    ensures IsTrace(entries, State(s.visited + [b], s.edges + [(a, b)], s.totalWeight + EdgeWeight(entries, (a, b))))
  {
    var visited, edges := s.visited + [b], s.edges + [(a, b)];
    SumWeightsAppend(entries, s.edges, (a, b));
    DistinctAppend(s.visited, b);
    assert forall k :: 0 <= k < |visited| ==> 0 <= visited[k] < |entries|;
    forall k | 0 <= k < |edges|
      ensures edges[k].1 == visited[k + 1] && edges[k].0 in visited[..k + 1]
      ensures EdgeWeight(entries, edges[k]) != 0
    {
      if k < |s.edges| {
        assert visited[..k + 1] == s.visited[..k + 1];
      } else {
        assert visited[..k + 1] == s.visited;
      }
    }
  }

  lemma DistinctAppend(s: seq<int>, b: int)
    requires Distinct(s) && b !in s
    ensures Distinct(s + [b])
  {
  }

  /**
   * A step keeps the trace invariant: exactly one new, previously unvisited
   * vertex is appended, the visited prefix and the log prefix are kept, and
   * the total grows by exactly the weight of the new edge.
   */
  lemma StepPreservesTrace(entries: Entries, s: State)
    requires IsTrace(entries, s) && HasCandidate(entries, s.visited)
    ensures var r := Step(entries, s);
      && IsTrace(entries, r)
      && |r.visited| == |s.visited| + 1 && r.visited[..|s.visited|] == s.visited
      && r.visited[|s.visited|] !in s.visited
      && r.edges[..|s.edges|] == s.edges
      && r.totalWeight == s.totalWeight + EdgeWeight(entries, r.edges[|s.edges|])
  {
    SelectIsFirstMinimum(entries, s.visited);
    var pos := Select(entries, s.visited).value;
    var e := (entries[pos.0].0, pos.1);
    assert IsCandidate(entries, s.visited, pos.0, pos.1);
    assert Step(entries, s) == State(s.visited + [e.1], s.edges + [e], s.totalWeight + EdgeWeight(entries, e));
    TraceAppend(entries, s, e.0, e.1);
    assert (s.visited + [e.1])[..|s.visited|] == s.visited;
    assert (s.edges + [e])[..|s.edges|] == s.edges;
  }

  /**
   * Lines 145-157 in terms of vertices: the new edge runs from a visited
   * vertex to an unvisited one with a non-zero weight, no such edge is
   * lighter, and every equally light one comes later in scan order
   * (ascending start vertex, then ascending end vertex).
   */
  lemma StepIsGreedy(entries: Entries, s: State)
    requires IsMatrixList(entries) && HasCandidate(entries, s.visited)
    ensures var e := Step(entries, s).edges[|s.edges|];
      && e.0 in s.visited && 0 <= e.0 < |entries|
      && e.1 !in s.visited && 0 <= e.1 < |entries|
      && entries[e.0].1[e.1] != 0
      && (forall a: nat, b: nat ::
            (a < |entries| && b < |entries| && a in s.visited && b !in s.visited && entries[a].1[b] != 0) ==>
            entries[e.0].1[e.1] <= entries[a].1[b] &&
            ((a < e.0 || (a == e.0 && b < e.1)) ==> entries[e.0].1[e.1] < entries[a].1[b]))
  {
    SelectIsFirstMinimum(entries, s.visited);
    var pos := Select(entries, s.visited).value;
    assert Step(entries, s).edges[|s.edges|] == (pos.0, pos.1);
    forall a: nat, b: nat | a < |entries| && b < |entries| && a in s.visited && b !in s.visited && entries[a].1[b] != 0
      ensures IsCandidate(entries, s.visited, a, b)
    {
    }
  }

  lemma {:induction false} DistinctElements(s: seq<int>)
    requires Distinct(s)
    ensures |(set x | x in s)| == |s|
  {
    if |s| > 0 {
      var init := s[..|s| - 1];
      DistinctElements(init);
      assert (set x | x in s) == (set x | x in init) + {s[|s| - 1]};
      assert s[|s| - 1] !in init;
    }
  }

  /** The vertices `0 .. n-1`. */
  function Range(n: nat): (r: set<int>)
    ensures |r| == n
    ensures forall x :: x in r <==> 0 <= x < n
  {
    if n == 0 then {} else Range(n - 1) + {n - 1}
  }

  lemma SubsetSize<T>(a: set<T>, b: set<T>)
    requires a <= b
    ensures |a| <= |b|
    ensures |a| == |b| ==> a == b
  {
    assert b == a + (b - a);
    assert a * (b - a) == {};
  }

  /** Pigeonhole: a duplicate-free sequence over 0 .. n-1 has at most n elements, and with n it has them all. */
  lemma DistinctInRange(s: seq<int>, n: nat)
    requires Distinct(s) && forall k :: 0 <= k < |s| ==> 0 <= s[k] < n
    ensures |s| <= n
    ensures |s| == n ==> forall x :: 0 <= x < n ==> x in s
  {
    var elems, range := (set x | x in s), Range(n);
    DistinctElements(s);
    SubsetSize(elems, range);
    if |s| == n {
      forall x | 0 <= x < n ensures x in s {
        assert x in range;
      }
    }
  }

  /**
   * At most n vertices are ever visited, so there are at most n - 1 steps,
   * and once all n are visited no candidate is left.
   */
  lemma VisitedBounded(entries: Entries, s: State)
    requires IsTrace(entries, s)
    ensures |s.visited| <= |entries|
    ensures |s.visited| == |entries| ==> !HasCandidate(entries, s.visited)
  {
    DistinctInRange(s.visited, |entries|);
    if |s.visited| == |entries| {
      forall p: nat, c: nat ensures !IsCandidate(entries, s.visited, p, c) {
        if p < |entries| && c < |entries[p].1| {
          assert c in s.visited;
        }
      }
    }
  }

  /** Column `b` of the row of vertex `a` holds a non-zero weight. */
  predicate Hop(entries: Entries, a: int, b: int)
  {
    0 <= a < |entries| && 0 <= b < |entries[a].1| && entries[a].1[b] != 0
  }

  /** `path` is a walk along non-zero weights, from `path[0]` to its last vertex. */
  predicate IsPath(entries: Entries, path: seq<int>)
    decreases |path|
  {
    && |path| > 0 && 0 <= path[0] < |entries|
    && (|path| > 1 ==> Hop(entries, path[0], path[1]) && IsPath(entries, path[1..]))
  }

  /** Vertex `v` can be reached from the start vertex 0 along non-zero weights. */
  ghost predicate Reachable(entries: Entries, v: int)
  {
    exists path :: IsPath(entries, path) && path[0] == 0 && path[|path| - 1] == v
  }

  ghost predicate Connected(entries: Entries)
  {
    forall v :: 0 <= v < |entries| ==> Reachable(entries, v)
  }

  /** A path that starts inside `visited` and ends outside it leaves it by one hop. */
  lemma {:induction false} PathLeaves(entries: Entries, visited: seq<int>, path: seq<int>)
    requires IsPath(entries, path) && path[0] in visited && path[|path| - 1] !in visited
    ensures exists a, b :: a in visited && b !in visited && Hop(entries, a, b)
  {
    if path[1] in visited {
      PathLeaves(entries, visited, path[1..]);
    } else {
      assert Hop(entries, path[0], path[1]);
    }
  }

  /** Pigeonhole again: fewer than n distinct vertices in range leave one of them out. */
  lemma UnvisitedExists(entries: Entries, s: State)
    requires IsTrace(entries, s) && |s.visited| < |entries|
    ensures exists v :: 0 <= v < |entries| && v !in s.visited
  {
    var elems, range := (set x | x in s.visited), Range(|entries|);
    DistinctElements(s.visited);
    var missing := range - elems;
    assert range == elems + missing && elems * missing == {};
    var v :| v in missing;
    assert 0 <= v < |entries| && v !in s.visited;
  }

  /**
   * On a graph whose every vertex is reachable from 0, a trace that has not
   * visited every vertex still has a candidate edge, so `nextStep` can be
   * taken until all n vertices are visited, that is n - 1 times.
   */
  lemma ConnectedHasCandidate(entries: Entries, s: State)
    requires IsTrace(entries, s) && |s.visited| < |entries| && Connected(entries)
    ensures HasCandidate(entries, s.visited)
  {
    UnvisitedExists(entries, s);
    var v :| 0 <= v < |entries| && v !in s.visited;
    assert Reachable(entries, v);
    var path :| IsPath(entries, path) && path[0] == 0 && path[|path| - 1] == v;
    assert s.visited[0] == 0;
    PathLeaves(entries, s.visited, path);
    var a, b :| a in s.visited && b !in s.visited && Hop(entries, a, b);
    assert entries[a].0 == a;
    assert IsCandidate(entries, s.visited, a, b);
  }

  lemma PrefixOfPrefix<T>(a: seq<T>, b: seq<T>, c: seq<T>)
    requires |c| <= |b| <= |a| && a[..|b|] == b && b[..|c|] == c
    ensures a[..|c|] == c
  {
  }

  /** `k` calls of `nextStep` from `s`; on a connected graph each one has a candidate. */
  function Run(entries: Entries, s: State, k: nat): (r: State)
    requires IsTrace(entries, s) && Connected(entries) && |s.visited| + k <= |entries|
    ensures IsTrace(entries, r) && |r.visited| == |s.visited| + k
    ensures r.visited[..|s.visited|] == s.visited && r.edges[..|s.edges|] == s.edges
    decreases k
  {
    if k == 0 then s
    else
      ConnectedHasCandidate(entries, s);
      StepPreservesTrace(entries, s);
      var next := Step(entries, s);
      var r := Run(entries, next, k - 1);
      PrefixOfPrefix(r.visited, next.visited, s.visited);
      PrefixOfPrefix(r.edges, next.edges, s.edges);
      r
  }

  /**
   * On a connected graph the walk from vertex 0 visits every vertex after
   * exactly n - 1 steps, and then no candidate is left.
   */
  lemma ConnectedWalkVisitsAll(entries: Entries)
    requires IsMatrixList(entries) && |entries| > 0 && Connected(entries)
    ensures var r := Run(entries, State([0], [], 0), |entries| - 1);
      && |r.edges| == |entries| - 1
      && (forall v :: 0 <= v < |entries| ==> v in r.visited)
      && !HasCandidate(entries, r.visited)
  {
    InitialIsTrace(entries);
    var r := Run(entries, State([0], [], 0), |entries| - 1);
    DistinctInRange(r.visited, |entries|);
    VisitedBounded(entries, r);
  }

  /**
   * The interactive traversal: the node list it scans and the state the
   * source keeps in `visitedVertices` and `totalWeight`.
   */
  class Walk {
    const list: NodeList
    var visited: seq<int>
    var edges: seq<(int, int)>
    var totalWeight: int

    function Current(): State
      reads this
    {
      State(visited, edges, totalWeight)
    }

    ghost predicate Valid()
      reads this, list, list.Repr
    {
      list.Valid() && this !in list.Repr && IsTrace(list.Contents(), Current())
    }

    /** Lines 139-140: start at the head's vertex with an empty log and weight 0. */
    constructor (list: NodeList)
      requires list.Valid() && IsMatrixList(list.Contents()) && |list.nodes| > 0
      ensures Valid() && this.list == list
      ensures visited == [0] && edges == [] && totalWeight == 0
    {
      assert list.Contents()[0].0 == list.head.value;
      this.list := list;
      visited := [list.head.value];
      edges := [];
      totalWeight := 0;
    }

    /**
     * Lines 143-157: walk the list from `head`; for each node whose vertex is
     * visited, walk its weight row and keep the first strictly lightest
     * non-zero weight to an unvisited column. `found == false` stands for
     * `minWeight` still being `Infinity` and the two vertices `undefined`.
     */
    method Scan() returns (found: bool, minWeight: int, startVertex: int, endVertex: int)
      requires Valid()
      ensures Agrees(list.Contents(), Select(list.Contents(), visited), found, minWeight, startVertex, endVertex)
    {
      ghost var entries := list.Contents();
      found, minWeight, startVertex, endVertex := false, 0, 0, 0;
      var node := list.head;
      ghost var k := 0;
      while node != null
        invariant list.Valid() && entries == list.Contents()
        invariant 0 <= k <= |entries| && |entries| == |list.nodes|
        invariant node == if k < |entries| then list.nodes[k] else null
        invariant Agrees(entries, NodeScan(entries, visited, k), found, minWeight, startVertex, endVertex)
        decreases |entries| - k
      {
        assert entries[k] == (node.value, node.weight);
        assert list.nodes[k].next == if k + 1 < |list.nodes| then list.nodes[k + 1] else null;
        if node.value in visited {
          found, minWeight, startVertex, endVertex :=
            ScanRow(node.value, node.weight, visited, entries, k, NodeScan(entries, visited, k),
                    found, minWeight, startVertex, endVertex);
        }
        node := node.next;
        k := k + 1;
      }
    }

    /**
     * Lines 142-168 without the drawing and logging: take the edge `Scan`
     * finds. The source has no branch for "no such edge" (it would push
     * `undefined` and add `Infinity`), so one must exist.
     */
    method NextStep()
      requires Valid() && HasCandidate(list.Contents(), visited)
      modifies this
      ensures Valid()
      ensures Current() == Step(list.Contents(), old(Current()))
    {
      ghost var entries := list.Contents();
      var found, minWeight, startVertex, endVertex := Scan();
      StepFromScan(entries, Current(), found, minWeight, startVertex, endVertex);
      StepPreservesTrace(entries, Current());
      ghost var next := Step(entries, Current());
      visited := visited + [endVertex];
      edges := edges + [(startVertex, endVertex)];
      totalWeight := totalWeight + minWeight;
      assert Current() == next;
    }
  }

  /** The loop variables a scan leaves behind determine the step. */
  lemma StepFromScan(entries: Entries, s: State, found: bool, minWeight: int, startVertex: int, endVertex: int)
    requires HasCandidate(entries, s.visited)
    requires Agrees(entries, Select(entries, s.visited), found, minWeight, startVertex, endVertex)
    ensures Step(entries, s) == State(s.visited + [endVertex], s.edges + [(startVertex, endVertex)], s.totalWeight + minWeight)
  {
    SelectIsFirstMinimum(entries, s.visited);
  }

  /**
   * Lines 148-154: the `forEach` over the row of the visited node at position
   * `k`, carrying the loop variables of `nextStep` from the pair `before`
   * kept so far to the pair `RowScan` keeps after the whole row.
   */
  method ScanRow(value: int, row: seq<int>, visited: seq<int>, ghost entries: Entries, ghost k: nat, ghost before: Option<Pos>,
                 found0: bool, minWeight0: int, startVertex0: int, endVertex0: int)
    returns (found: bool, minWeight: int, startVertex: int, endVertex: int)
    requires k < |entries| && entries[k] == (value, row) && value in visited && InBounds(entries, before)
    requires Agrees(entries, before, found0, minWeight0, startVertex0, endVertex0)
    ensures Agrees(entries, RowScan(entries, visited, before, k, |row|), found, minWeight, startVertex, endVertex)
  {
    found, minWeight, startVertex, endVertex := found0, minWeight0, startVertex0, endVertex0;
    var i := 0;
    while i < |row|
      invariant 0 <= i <= |row|
      invariant Agrees(entries, RowScan(entries, visited, before, k, i), found, minWeight, startVertex, endVertex)
    {
      var w := row[i];
      if (!found || w < minWeight) && w != 0 && i !in visited {
        found, minWeight, startVertex, endVertex := true, w, value, i;
      }
      i := i + 1;
    }
  }

  /** The loop variables of `nextStep` hold the best pair `best` (none: `minWeight` is still Infinity). */
  predicate Agrees(entries: Entries, best: Option<Pos>, found: bool, minWeight: int, startVertex: int, endVertex: int)
  {
    && found == best.Some?
    && (best.Some? ==>
          && best.value.0 < |entries| && best.value.1 < |entries[best.value.0].1|
          && minWeight == WeightAt(entries, best.value)
          && startVertex == entries[best.value.0].0
          && endVertex == best.value.1)
  }
}
