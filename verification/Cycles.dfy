// src/governance/graph.rs, find_cycle: depth-first search with three colours and an explicit path.
module Cycles {

  datatype Option<+T> = None | Some(value: T)

  type Edges = seq<(string, string)>

  // ---------------------------------------------------------------- walks

  ghost predicate IsWalk(edges: Edges, walk: seq<string>) {
    walk != [] && forall i :: 0 <= i < |walk| - 1 ==> (walk[i], walk[i + 1]) in edges
  }

  /** A closed walk of at least one edge. */
  ghost predicate IsCycle(edges: Edges, walk: seq<string>) {
    IsWalk(edges, walk) && |walk| > 1 && walk[0] == walk[|walk| - 1]
  }

  ghost predicate IsAcyclic(edges: Edges) { forall walk :: !IsCycle(edges, walk) }

  // ---------------------------------------------------------------- adjacency

  type Adjacency = map<string, seq<string>>

  /** The adjacency of the first n edges: every node has an entry. */
  function AdjacencyOf(edges: Edges, n: nat): Adjacency
    requires n <= |edges|
  {
    if n == 0 then map[]
    else
      var before := AdjacencyOf(edges, n - 1);
      var (from, target) := edges[n - 1];
      var pushed := before[from := (if from in before then before[from] else []) + [target]];
      if target in pushed then pushed else pushed[target := []]
  }

  ghost predicate IsAdjacency(edges: Edges, n: nat, next: Adjacency)
    requires n <= |edges|
  {
    && (forall i :: 0 <= i < n ==> edges[i].0 in next && edges[i].1 in next && edges[i].1 in next[edges[i].0])
    && (forall node, child :: node in next && child in next[node] ==> child in next && (node, child) in edges[..n])
  }

  lemma {:induction false} AdjacencyIsRight(edges: Edges, n: nat)
    requires n <= |edges|
    ensures IsAdjacency(edges, n, AdjacencyOf(edges, n))
  {
    if n > 0 {
      AdjacencyIsRight(edges, n - 1);
      assert edges[..n] == edges[..n - 1] + [edges[n - 1]];
      OneMoreEdge(edges, n, AdjacencyOf(edges, n - 1), AdjacencyOf(edges, n));
    }
  }

  lemma OneMoreEdge(edges: Edges, n: nat, before: Adjacency, after: Adjacency)
    requires 0 < n <= |edges| && IsAdjacency(edges, n - 1, before) && edges[..n] == edges[..n - 1] + [edges[n - 1]]
    requires forall node :: node in after <==> node in before || node == edges[n - 1].0 || node == edges[n - 1].1
    requires forall node :: node in after ==>
               after[node] == (if node in before then before[node] else [])
                              + if node == edges[n - 1].0 then [edges[n - 1].1] else []
    ensures IsAdjacency(edges, n, after)
  {
    forall node, child | node in after && child in after[node]
      ensures child in after && (node, child) in edges[..n]
    {
      if node in before && child in before[node] {
        assert (node, child) in edges[..n - 1];
      } else {
        assert edges[..n][n - 1] == (node, child);
      }
    }
  }

  // ---------------------------------------------------------------- the search

  /** Finished nodes in the order they were finished, the current path with the next child to look at,
      and the nodes not seen yet. */
  datatype Search = Search(done: seq<string>, path: seq<(string, nat)>, white: set<string>)

  ghost predicate IsOnPath(path: seq<(string, nat)>, node: string) {
    exists i :: 0 <= i < |path| && path[i].0 == node
  }

  /** Every child of a finished node was finished before it. */
  ghost predicate IsFinished(next: Adjacency, done: seq<string>) {
    && (forall i, j :: 0 <= i < j < |done| ==> done[i] != done[j])
    && (forall i :: 0 <= i < |done| ==> done[i] in next && forall child :: child in next[done[i]] ==>
          child in done[..i])
  }

  /** The path is a walk, its nodes are distinct, and the children looked at so far are finished,
      except those the path goes on to. */
  ghost predicate IsPath(next: Adjacency, done: seq<string>, path: seq<(string, nat)>) {
    && (forall i :: 0 <= i < |path| ==> path[i].0 in next && path[i].0 !in done && path[i].1 <= |next[path[i].0]|)
    && (forall i, j :: 0 <= i < j < |path| ==> path[i].0 != path[j].0)
    && (forall i :: 0 <= i < |path| - 1 ==> 0 < path[i].1 && next[path[i].0][path[i].1 - 1] == path[i + 1].0)
    && (forall i, k :: 0 <= i < |path| && 0 <= k < path[i].1 ==> IsLookedAt(done, path, i, next[path[i].0][k]))
  }

  ghost predicate IsLookedAt(done: seq<string>, path: seq<(string, nat)>, i: int, child: string) {
    child in done || (0 <= i < |path| - 1 && child == path[i + 1].0)
  }

  ghost predicate IsSearch(next: Adjacency, s: Search) {
    && IsFinished(next, s.done) && IsPath(next, s.done, s.path)
    && (forall node :: node in next ==> node in s.white || node in s.done || IsOnPath(s.path, node))
    && (forall node :: node in s.white ==> node in next && node !in s.done && !IsOnPath(s.path, node))
  }

  /** Children on the path still to look at. */
  ghost function Remaining(next: Adjacency, path: seq<(string, nat)>): int {
    if path == [] then 0
    else
      var (node, position) := path[|path| - 1];
      Remaining(next, path[..|path| - 1]) + if node in next then |next[node]| - position else 0
  }

  lemma {:induction false} RemainingIsNat(next: Adjacency, path: seq<(string, nat)>)
    requires forall i :: 0 <= i < |path| ==> path[i].0 in next && path[i].1 <= |next[path[i].0]|
    ensures Remaining(next, path) >= 0
  {
    if path != [] { RemainingIsNat(next, path[..|path| - 1]); }
  }

  // ---------------------------------------------------------------- steps of the search

  lemma FinishLast(next: Adjacency, done: seq<string>, path: seq<(string, nat)>, node: string)
    requires IsFinished(next, done) && IsPath(next, done, path) && path != []
    requires node in next && path[|path| - 1] == (node, |next[node]|)
    ensures IsFinished(next, done + [node])
  {
    var n := |path| - 1;
    forall child | child in next[node]
      ensures child in done
    {
      var k :| 0 <= k < |next[node]| && next[node][k] == child;
      assert IsLookedAt(done, path, n, next[node][k]);
    }
    var done' := done + [node];
    forall i | 0 <= i < |done'|
      ensures done'[i] in next && forall child :: child in next[done'[i]] ==> child in done'[..i]
    {
      if i < |done| { assert done'[..i] == done[..i]; } else { assert done'[..i] == done; }
    }
  }

  lemma FinishPath(next: Adjacency, done: seq<string>, path: seq<(string, nat)>)
    requires IsPath(next, done, path) && path != []
    ensures IsPath(next, done + [path[|path| - 1].0], path[..|path| - 1])
  {
    var n := |path| - 1;
    forall i, k | 0 <= i < n && 0 <= k < path[i].1
      ensures IsLookedAt(done + [path[n].0], path[..n], i, next[path[i].0][k])
    {
      assert IsLookedAt(done, path, i, next[path[i].0][k]);
    }
  }

  /** Every child of the last node has been looked at: it is finished. */
  lemma Finish(next: Adjacency, s: Search)
    requires IsSearch(next, s) && s.path != [] && s.path[|s.path| - 1].1 == |next[s.path[|s.path| - 1].0]|
    ensures var n := |s.path| - 1;
            IsSearch(next, Search(s.done + [s.path[n].0], s.path[..n], s.white))
  {
    hide IsLookedAt;
    var n := |s.path| - 1;
    var node := s.path[n].0;
    var path := s.path[..n];
    FinishLast(next, s.done, s.path, node);
    FinishPath(next, s.done, s.path);
    assert s.path[n].0 == node && IsOnPath(s.path, node);
    forall m
      ensures IsOnPath(s.path, m) ==> m == node || IsOnPath(path, m)
      ensures IsOnPath(path, m) ==> IsOnPath(s.path, m)
    {
      PrefixOnPath(s.path, n, m);
      if IsOnPath(s.path, m) && m != node {
        var i :| 0 <= i < |s.path| && s.path[i].0 == m;
        assert path[i].0 == m;
      }
    }
  }

  lemma PrefixOnPath(path: seq<(string, nat)>, n: nat, node: string)
    requires n <= |path|
    ensures IsOnPath(path[..n], node) ==> IsOnPath(path, node)
  {
    if IsOnPath(path[..n], node) {
      var i :| 0 <= i < n && path[..n][i].0 == node;
      assert path[i].0 == node;
    }
  }

  lemma SkipPath(next: Adjacency, done: seq<string>, path: seq<(string, nat)>, path': seq<(string, nat)>)
    requires IsPath(next, done, path) && path != []
    requires var (node, position) := path[|path| - 1];
             position < |next[node]| && next[node][position] in done
             && path' == path[..|path| - 1] + [(node, position + 1)]
    ensures IsPath(next, done, path')
  {
    hide IsLookedAt;
    forall i, k | 0 <= i < |path'| && 0 <= k < path'[i].1
      ensures IsLookedAt(done, path', i, next[path'[i].0][k])
    {
      SkipLooks(next, done, path, path', i, k);
    }
  }

  lemma SkipLooks(next: Adjacency, done: seq<string>, path: seq<(string, nat)>, path': seq<(string, nat)>, i: nat,
                  k: nat)
    requires IsPath(next, done, path) && path != []
    requires var (node, position) := path[|path| - 1];
             position < |next[node]| && next[node][position] in done
             && path' == path[..|path| - 1] + [(node, position + 1)]
    requires i < |path'| && k < path'[i].1
    ensures IsLookedAt(done, path', i, next[path'[i].0][k])
  {
    var n := |path| - 1;
    if i < n || k < path[n].1 { assert IsLookedAt(done, path, i, next[path[i].0][k]); }
  }

  /** The next child was finished before: go on. */
  lemma Skip(next: Adjacency, s: Search)
    requires IsSearch(next, s) && s.path != []
    requires var (node, position) := s.path[|s.path| - 1];
             position < |next[node]| && next[node][position] in s.done
    ensures var n := |s.path| - 1;
            IsSearch(next, s.(path := s.path[..n] + [(s.path[n].0, s.path[n].1 + 1)]))
  {
    hide IsPath;
    var n := |s.path| - 1;
    var path := s.path[..n] + [(s.path[n].0, s.path[n].1 + 1)];
    SkipPath(next, s.done, s.path, path);
    SameNodes(s.path, path);
  }

  lemma SkipLeavesLess(next: Adjacency, path: seq<(string, nat)>, path': seq<(string, nat)>)
    requires path != [] && path[|path| - 1].0 in next
    requires path' == path[..|path| - 1] + [(path[|path| - 1].0, path[|path| - 1].1 + 1)]
    ensures Remaining(next, path') < Remaining(next, path)
  {
    assert path'[..|path| - 1] == path[..|path| - 1];
  }

  lemma SameNodes(path: seq<(string, nat)>, path': seq<(string, nat)>)
    requires |path| == |path'| && forall i :: 0 <= i < |path| ==> path[i].0 == path'[i].0
    ensures forall node :: IsOnPath(path, node) <==> IsOnPath(path', node)
  {
    forall node
      ensures IsOnPath(path, node) <==> IsOnPath(path', node)
    {
      if IsOnPath(path, node) {
        var i :| 0 <= i < |path| && path[i].0 == node;
        assert path'[i].0 == node;
      }
      if IsOnPath(path', node) {
        var i :| 0 <= i < |path'| && path'[i].0 == node;
        assert path[i].0 == node;
      }
    }
  }

  /** path' goes on from path to the next child of its last node. */
  predicate GoesOn(path: seq<(string, nat)>, path': seq<(string, nat)>, child: string) {
    && path != [] && |path'| == |path| + 1
    && (forall i :: 0 <= i < |path| - 1 ==> path'[i] == path[i])
    && path'[|path| - 1] == (path[|path| - 1].0, path[|path| - 1].1 + 1) && path'[|path|] == (child, 0)
  }

  lemma PushIsDistinct(path: seq<(string, nat)>, path': seq<(string, nat)>, child: string)
    requires GoesOn(path, path', child) && !IsOnPath(path, child)
    requires forall i, j :: 0 <= i < j < |path| ==> path[i].0 != path[j].0
    ensures forall i, j :: 0 <= i < j < |path'| ==> path'[i].0 != path'[j].0
  {
    forall i, j | 0 <= i < j < |path'|
      ensures path'[i].0 != path'[j].0
    {
      assert path'[i].0 == path[i].0 && IsOnPath(path, path[i].0);
    }
  }

  lemma PushLooksAt(next: Adjacency, done: seq<string>, path: seq<(string, nat)>, path': seq<(string, nat)>,
                    child: string, i: nat, k: nat)
    requires IsPath(next, done, path) && GoesOn(path, path', child) && i < |path'| && k < path'[i].1
    requires var (node, position) := path[|path| - 1]; position < |next[node]| && next[node][position] == child
    ensures path'[i].0 in next && k < |next[path'[i].0]| && IsLookedAt(done, path', i, next[path'[i].0][k])
  {
    var n := |path| - 1;
    if i < n || k < path[n].1 { assert IsLookedAt(done, path, i, next[path[i].0][k]); }
  }

  lemma PushStays(next: Adjacency, done: seq<string>, path: seq<(string, nat)>, path': seq<(string, nat)>,
                  child: string)
    requires IsPath(next, done, path) && GoesOn(path, path', child) && child in next && child !in done
    requires var (node, position) := path[|path| - 1]; position < |next[node]| && next[node][position] == child
    ensures forall i :: 0 <= i < |path'| ==>
              path'[i].0 in next && path'[i].0 !in done && path'[i].1 <= |next[path'[i].0]|
    ensures forall i :: 0 <= i < |path'| - 1 ==> 0 < path'[i].1 && next[path'[i].0][path'[i].1 - 1] == path'[i + 1].0
  {
    hide IsLookedAt;
    assert path'[|path| - 1].0 == path[|path| - 1].0;
  }

  lemma PushPath(next: Adjacency, done: seq<string>, path: seq<(string, nat)>, path': seq<(string, nat)>, child: string)
    requires IsPath(next, done, path) && GoesOn(path, path', child) && !IsOnPath(path, child)
    requires child in next && child !in done
    requires var (node, position) := path[|path| - 1]; position < |next[node]| && next[node][position] == child
    ensures IsPath(next, done, path')
  {
    hide IsLookedAt, IsOnPath;
    PushIsDistinct(path, path', child);
    PushStays(next, done, path, path', child);
    forall i, k | 0 <= i < |path'| && 0 <= k < path'[i].1
      ensures k < |next[path'[i].0]| && IsLookedAt(done, path', i, next[path'[i].0][k])
    {
      PushLooksAt(next, done, path, path', child, i, k);
    }
  }

  lemma PushCovers(next: Adjacency, s: Search, path': seq<(string, nat)>, child: string)
    requires GoesOn(s.path, path', child) && child in s.white
    requires forall node :: node in next ==> node in s.white || node in s.done || IsOnPath(s.path, node)
    requires forall node :: node in s.white ==> node in next && node !in s.done && !IsOnPath(s.path, node)
    ensures forall node :: node in next ==> node in s.white - {child} || node in s.done || IsOnPath(path', node)
    ensures forall node :: node in s.white - {child} ==> node in next && node !in s.done && !IsOnPath(path', node)
  {
    forall node
      ensures IsOnPath(path', node) <==> IsOnPath(s.path, node) || node == child
    {
      PushedOnPath(s.path, path', child, node);
    }
  }

  /** The next child has not been seen: the path goes on to it. */
  lemma Push(next: Adjacency, s: Search)
    requires IsSearch(next, s) && s.path != []
    requires var (node, position) := s.path[|s.path| - 1];
             position < |next[node]| && next[node][position] in s.white
    ensures var n := |s.path| - 1;
            var child := next[s.path[n].0][s.path[n].1];
            IsSearch(next, Search(s.done, s.path[..n] + [(s.path[n].0, s.path[n].1 + 1), (child, 0)],
                                  s.white - {child}))
  {
    hide IsFinished, IsOnPath;
    var n := |s.path| - 1;
    var child := next[s.path[n].0][s.path[n].1];
    var path := s.path[..n] + [(s.path[n].0, s.path[n].1 + 1), (child, 0)];
    assert GoesOn(s.path, path, child);
    PushPath(next, s.done, s.path, path, child);
    PushCovers(next, s, path, child);
  }

  lemma PushedOnPath(path: seq<(string, nat)>, path': seq<(string, nat)>, child: string, m: string)
    requires |path'| == |path| + 1 && path'[|path|].0 == child && forall i :: 0 <= i < |path| ==>
               path[i].0 == path'[i].0
    ensures IsOnPath(path', m) <==> IsOnPath(path, m) || m == child
  {
    if IsOnPath(path, m) {
      var i :| 0 <= i < |path| && path[i].0 == m;
      assert path'[i].0 == m;
    }
    if IsOnPath(path', m) {
      var i :| 0 <= i < |path'| && path'[i].0 == m;
      assert i < |path| ==> path[i].0 == m;
    }
    if m == child { assert path'[|path|].0 == m; }
  }

  /** The next child is on the path: the path from it closes a cycle. */
  lemma Close(edges: Edges, next: Adjacency, s: Search, at: nat)
    requires IsAdjacency(edges, |edges|, next) && IsSearch(next, s) && at < |s.path|
    requires var (node, position) := s.path[|s.path| - 1];
             position < |next[node]| && next[node][position] == s.path[at].0
    ensures IsCycle(edges, Nodes(s.path[at..]) + [s.path[at].0])
  {
    var walk := Nodes(s.path[at..]) + [s.path[at].0];
    assert edges[..|edges|] == edges;
    forall i | 0 <= i < |walk| - 1
      ensures (walk[i], walk[i + 1]) in edges
    {
      PathStep(next, s.done, s.path, at, i);
    }
  }

  lemma PathStep(next: Adjacency, done: seq<string>, path: seq<(string, nat)>, at: nat, i: nat)
    requires IsPath(next, done, path) && at + i < |path|
    requires var (node, position) := path[|path| - 1];
             position < |next[node]| && next[node][position] == path[at].0
    ensures var walk := Nodes(path[at..]) + [path[at].0];
            walk[i] in next && walk[i + 1] in next[walk[i]]
  {
    hide Nodes;
    var walk := Nodes(path[at..]) + [path[at].0];
    var (node, position) := path[at + i];
    assert walk[i] == path[at..][i].0 == node;
    if at + i < |path| - 1 {
      assert next[node][position - 1] == path[at + i + 1].0 == path[at..][i + 1].0 == walk[i + 1];
    } else {
      assert next[node][position] == walk[i + 1];
    }
  }

  function Nodes(path: seq<(string, nat)>): (nodes: seq<string>)
    ensures |nodes| == |path| && forall i :: 0 <= i < |nodes| ==> nodes[i] == path[i].0
  {
    if path == [] then [] else [path[0].0] + Nodes(path[1..])
  }

  /** When every node is finished, walks go down the order of finishing, so none is closed. */
  lemma {:induction false} WalksGoDown(next: Adjacency, edges: Edges, done: seq<string>, walk: seq<string>, last: nat)
    requires IsAdjacency(edges, |edges|, next) && IsFinished(next, done) && IsWalk(edges, walk) && |walk| > 1
    requires last < |done| && done[last] == walk[0]
    ensures walk[|walk| - 1] in done[..last]
    decreases |walk|
  {
    var i :| 0 <= i < |edges| && edges[i] == (walk[0], walk[1]);
    assert walk[1] in next[walk[0]];
    var k :| 0 <= k < last && done[k] == walk[1];
    if |walk| > 2 {
      forall j | 0 <= j < |walk| - 2
        ensures (walk[1..][j], walk[1..][j + 1]) in edges
      {
        assert (walk[j + 1], walk[j + 2]) in edges;
      }
      WalksGoDown(next, edges, done, walk[1..], k);
      assert forall x :: x in done[..k] ==> x in done[..last];
    }
  }

  lemma FinishedIsAcyclic(edges: Edges, next: Adjacency, done: seq<string>)
    requires IsAdjacency(edges, |edges|, next) && IsFinished(next, done) && forall node :: node in next ==> node in done
    ensures IsAcyclic(edges)
  {
    forall walk
      ensures !IsCycle(edges, walk)
    {
      if IsCycle(edges, walk) {
        assert (walk[0], walk[1]) in edges;
        var i :| 0 <= i < |edges| && edges[i] == (walk[0], walk[1]);
        var last :| 0 <= last < |done| && done[last] == walk[0];
        WalksGoDown(next, edges, done, walk, last);
      }
    }
  }

  /** A search that begins at a node not seen yet. */
  lemma Begin(next: Adjacency, s: Search, start: string)
    requires IsSearch(next, s) && s.path == [] && start in s.white
    ensures IsSearch(next, Search(s.done, [(start, 0)], s.white - {start}))
  {
    var path := [(start, 0)];
    assert path[0].0 == start && IsOnPath(path, start);
    forall node
      ensures IsOnPath(path, node) <==> node == start
    {
      assert IsOnPath(path, node) ==> node == path[0].0;
    }
  }

  // ---------------------------------------------------------------- the method

  /** 0: not visited, 1: on the current path, 2: finished. */
  ghost predicate AreColors(next: Adjacency, color: map<string, nat>, s: Search) {
    && color.Keys == next.Keys
    && forall node :: node in next ==>
         && color[node] <= 2
         && (color[node] == 0 <==> node in s.white)
         && (color[node] == 1 <==> IsOnPath(s.path, node))
         && (color[node] == 2 <==> node in s.done)
  }

  method BuildAdjacency(edges: Edges) returns (next: Adjacency)
    ensures IsAdjacency(edges, |edges|, next)
  {
    next := map[];
    for n := 0 to |edges|
      invariant next == AdjacencyOf(edges, n)
    {
      var (from, target) := edges[n];
      next := next[from := (if from in next then next[from] else []) + [target]];
      if target !in next { next := next[target := []]; }
    }
    AdjacencyIsRight(edges, |edges|);
  }

  method PositionOf(path: seq<(string, nat)>, node: string) returns (at: nat)
    requires IsOnPath(path, node)
    ensures at < |path| && path[at].0 == node
  {
    at := 0;
    while path[at].0 != node
      invariant at < |path| && forall i :: 0 <= i < at ==> path[i].0 != node
      decreases |path| - at
    {
      at := at + 1;
    }
  }

  /** What the loop keeps. */
  ghost predicate IsRunning(next: Adjacency, color: map<string, nat>, s: Search) {
    IsSearch(next, s) && AreColors(next, color, s)
  }

  /** Nodes not seen, children to look at, and the length of the path: every step lowers one of them
      without raising an earlier one. */
  ghost predicate IsLower(next: Adjacency, s: Search, than: Search) {
    s.white < than.white
    || (s.white == than.white && Remaining(next, s.path) < Remaining(next, than.path))
    || (s.white == than.white && Remaining(next, s.path) == Remaining(next, than.path) && |s.path| < |than.path|)
  }

  method Leave(next: Adjacency, colors: map<string, nat>, ghost s: Search, path: seq<(string, nat)>)
    returns (path': seq<(string, nat)>, color: map<string, nat>, ghost s': Search)
    requires IsRunning(next, colors, s) && s.path == path && path != []
             && path[|path| - 1].1 == |next[path[|path| - 1].0]|
    ensures IsRunning(next, color, s') && s'.path == path' && IsLower(next, s', s)
  {
    var n := |path| - 1;
    var node := path[n].0;
    Finish(next, s);
    Popped(next, colors, s, node);
    color, path' := colors[node := 2], path[..n];
    s' := Search(s.done + [node], path', s.white);
  }

  method Enter(next: Adjacency, colors: map<string, nat>, ghost s: Search, path: seq<(string, nat)>)
    returns (path': seq<(string, nat)>, color: map<string, nat>, ghost s': Search)
    requires IsRunning(next, colors, s) && s.path == path && path != []
             && path[|path| - 1].1 < |next[path[|path| - 1].0]|
    requires next[path[|path| - 1].0][path[|path| - 1].1] in s.white
    ensures IsRunning(next, color, s') && s'.path == path' && IsLower(next, s', s)
  {
    hide IsOnPath, AreColors;
    var n := |path| - 1;
    var child := next[path[n].0][path[n].1];
    Push(next, s);
    Pushed(next, colors, s, child);
    color, path' := colors[child := 1], path[..n] + [(path[n].0, path[n].1 + 1), (child, 0)];
    s' := Search(s.done, path', s.white - {child});
  }

  method Pass(next: Adjacency, color: map<string, nat>, ghost s: Search, path: seq<(string, nat)>)
    returns (path': seq<(string, nat)>, ghost s': Search)
    requires IsRunning(next, color, s) && s.path == path && path != []
             && path[|path| - 1].1 < |next[path[|path| - 1].0]|
    requires next[path[|path| - 1].0][path[|path| - 1].1] in s.done
    ensures IsRunning(next, color, s') && s'.path == path' && IsLower(next, s', s)
  {
    hide IsOnPath, IsLookedAt;
    var n := |path| - 1;
    path' := path[..n] + [(path[n].0, path[n].1 + 1)];
    Skip(next, s);
    SkipLeavesLess(next, path, path');
    SameNodes(path, path');
    s' := s.(path := path');
  }

  lemma BeginRunning(next: Adjacency, colors: map<string, nat>, s: Search, start: string)
    requires IsRunning(next, colors, s) && s.path == [] && start in s.white
    ensures IsRunning(next, colors[start := 1], Search(s.done, [(start, 0)], s.white - {start}))
  {
    var path := [(start, 0)];
    Begin(next, s, start);
    assert path[0].0 == start && IsOnPath(path, start);
    forall node
      ensures IsOnPath(path, node) <==> node == start
    {
      assert IsOnPath(path, node) ==> node == path[0].0;
    }
  }

  /** What the search knows about the end of its path and the child it looks at next. */
  lemma Top(edges: Edges, next: Adjacency, color: map<string, nat>, s: Search)
    requires IsAdjacency(edges, |edges|, next) && IsRunning(next, color, s) && s.path != []
    ensures Remaining(next, s.path) >= 0
    ensures var (node, position) := s.path[|s.path| - 1];
            && node in next && position <= |next[node]|
            && (position < |next[node]| ==>
                  var child := next[node][position];
                  && child in color && (color[child] == 0 ==> child in s.white)
                  && (color[child] == 1 ==> IsOnPath(s.path, child))
                  && (color[child] != 0 && color[child] != 1 ==> child in s.done))
  {
    hide IsFinished, IsOnPath;
    var (node, position) := s.path[|s.path| - 1];
    RemainingIsNat(next, s.path);
    if position < |next[node]| {
      assert next[node][position] in next[node];
    }
  }

  /** Search from a node until its path is empty or closes a cycle. */
  method Visit(edges: Edges, next: Adjacency, start: string, colors: map<string, nat>, ghost search: Search)
    returns (cycle: Option<seq<string>>, color: map<string, nat>, ghost s: Search)
    requires IsAdjacency(edges, |edges|, next) && IsRunning(next, colors, search) && search.path == []
             && start in search.white
    ensures cycle.Some? ==> IsCycle(edges, cycle.value)
    ensures cycle.None? ==> IsRunning(next, color, s) && s.path == [] && s.white < search.white && start !in s.white
  {
    hide Remaining, IsWalk, IsSearch, AreColors, IsAdjacency, IsOnPath, IsCycle;
    BeginRunning(next, colors, search, start);
    var path := [(start, 0)];
    color, s := colors[start := 1], Search(search.done, path, search.white - {start});
    while path != []
      invariant IsRunning(next, color, s) && s.path == path && s.white <= search.white - {start}
      decreases s.white, Remaining(next, path), |path|
    {
      Top(edges, next, color, s);
      var (node, position) := path[|path| - 1];
      if position == |next[node]| {
        path, color, s := Leave(next, color, s, path);
      } else if color[next[node][position]] == 0 {
        path, color, s := Enter(next, color, s, path);
      } else if color[next[node][position]] == 1 {
        var at := PositionOf(path, next[node][position]);
        Close(edges, next, s, at);
        return Some(Nodes(path[at..]) + [path[at].0]), color, s;
      } else {
        path, s := Pass(next, color, s, path);
      }
    }
    cycle := None;
  }

  lemma PoppedNodes(path: seq<(string, nat)>, n: nat, node: string)
    requires |path| == n + 1 && path[n].0 == node && forall i :: 0 <= i < n ==> path[i].0 != node
    ensures IsOnPath(path, node) && forall m :: IsOnPath(path[..n], m) <==> IsOnPath(path, m) && m != node
  {
    forall m
      ensures IsOnPath(path[..n], m) <==> IsOnPath(path, m) && m != node
    {
      PrefixOnPath(path, n, m);
      if IsOnPath(path, m) && m != node {
        var i :| 0 <= i < |path| && path[i].0 == m;
        assert path[..n][i].0 == m;
      }
    }
  }

  lemma PoppedColors(next: Adjacency, color: map<string, nat>, s: Search, node: string, path: seq<(string, nat)>)
    requires AreColors(next, color, s) && node in next && IsOnPath(s.path, node)
    requires forall m :: IsOnPath(path, m) <==> IsOnPath(s.path, m) && m != node
    ensures AreColors(next, color[node := 2], Search(s.done + [node], path, s.white))
  {
    hide IsOnPath;
  }

  lemma RemainingPopped(next: Adjacency, path: seq<(string, nat)>)
    requires path != [] && path[|path| - 1].0 in next
    ensures Remaining(next, path[..|path| - 1]) + (|next[path[|path| - 1].0]| - path[|path| - 1].1)
            == Remaining(next, path)
  {
  }

  lemma Popped(next: Adjacency, color: map<string, nat>, s: Search, node: string)
    requires IsSearch(next, s) && AreColors(next, color, s) && s.path != [] && s.path[|s.path| - 1].0 == node
    ensures AreColors(next, color[node := 2], Search(s.done + [node], s.path[..|s.path| - 1], s.white))
    ensures Remaining(next, s.path[..|s.path| - 1]) + (|next[node]| - s.path[|s.path| - 1].1) == Remaining(next, s.path)
  {
    hide Remaining, AreColors, IsOnPath, IsFinished, IsLookedAt;
    PoppedNodes(s.path, |s.path| - 1, node);
    PoppedColors(next, color, s, node, s.path[..|s.path| - 1]);
    RemainingPopped(next, s.path);
  }

  lemma Pushed(next: Adjacency, color: map<string, nat>, s: Search, child: string)
    requires IsSearch(next, s) && AreColors(next, color, s) && s.path != [] && child in s.white
    ensures var n := |s.path| - 1;
            AreColors(next, color[child := 1],
                      Search(s.done, s.path[..n] + [(s.path[n].0, s.path[n].1 + 1), (child, 0)], s.white - {child}))
  {
    hide IsPath;
    var n := |s.path| - 1;
    var path := s.path[..n] + [(s.path[n].0, s.path[n].1 + 1), (child, 0)];
    forall m
      ensures IsOnPath(path, m) <==> IsOnPath(s.path, m) || m == child
    {
      PushedOnPath(s.path, path, child, m);
    }
  }

  /** A closed walk of edges, or None exactly when there is none. */
  method FindCycle(edges: Edges) returns (cycle: Option<seq<string>>)
    ensures cycle.Some? ==> IsCycle(edges, cycle.value)
    ensures cycle.None? <==> IsAcyclic(edges)
  {
    var next := BuildAdjacency(edges);
    var color := map node | node in next :: 0;
    ghost var s := Search([], [], next.Keys);
    var starts := next.Keys;
    while starts != {}
      invariant IsRunning(next, color, s) && s.path == []
      invariant s.white <= starts <= next.Keys
      decreases starts
    {
      var start :| start in starts;
      starts := starts - {start};
      if color[start] == 0 {
        cycle, color, s := Visit(edges, next, start, color, s);
        if cycle.Some? { return; }
      }
    }
    FinishedIsAcyclic(edges, next, s.done);
    cycle := None;
  }
}
