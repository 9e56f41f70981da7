// src/governance/graph.rs: the builder that keeps its graph acyclic, and nesting by smallest enclosing
// span.
module Graph {
  import opened Cycles

  datatype Edge = Edge(from: string, target: string, kind: string, flow: Option<string>)

  /** The edges as pairs. */
  function Pairs(edges: seq<Edge>): (pairs: Edges)
    ensures |pairs| == |edges| && forall i :: 0 <= i < |edges| ==> pairs[i] == (edges[i].from, edges[i].target)
  {
    if edges == [] then [] else Pairs(edges[..|edges| - 1]) + [(edges[|edges| - 1].from, edges[|edges| - 1].target)]
  }

  // ---------------------------------------------------------------- reachability

  ghost predicate Reaches(edges: Edges, from: string, target: string) {
    exists walk :: IsWalk(edges, walk) && walk[0] == from && walk[|walk| - 1] == target
  }

  lemma ReachesItself(edges: Edges, node: string)
    ensures Reaches(edges, node, node)
  {
    assert IsWalk(edges, [node]);
  }

  lemma ReachesOn(edges: Edges, from: string, node: string, target: string)
    requires Reaches(edges, from, node) && (node, target) in edges
    ensures Reaches(edges, from, target)
  {
    var walk :| IsWalk(edges, walk) && walk[0] == from && walk[|walk| - 1] == node;
    assert IsWalk(edges, walk + [target]);
  }

  lemma ReachesMore(edges: Edges, more: Edges, from: string, target: string)
    requires Reaches(edges, from, target) && forall e :: e in edges ==> e in more
    ensures Reaches(more, from, target)
  {
    var walk :| IsWalk(edges, walk) && walk[0] == from && walk[|walk| - 1] == target;
    assert IsWalk(more, walk);
  }

  /** A set of nodes that edges do not leave holds every walk that begins in it. */
  lemma {:induction false} ClosedSet(edges: Edges, nodes: set<string>, walk: seq<string>)
    requires IsWalk(edges, walk) && walk[0] in nodes && forall a, b :: (a, b) in edges && a in nodes ==> b in nodes
    ensures forall i :: 0 <= i < |walk| ==> walk[i] in nodes
  {
    if |walk| > 1 {
      assert IsWalk(edges, walk[..|walk| - 1]);
      ClosedSet(edges, nodes, walk[..|walk| - 1]);
      assert walk[..|walk| - 1][|walk| - 2] == walk[|walk| - 2];
      assert (walk[|walk| - 2], walk[|walk| - 1]) in edges;
      assert forall i :: 0 <= i < |walk| - 1 ==> walk[i] == walk[..|walk| - 1][i];
    }
  }

  // ---------------------------------------------------------------- the next edge

  /** One more edge between nodes that do not reach each other the other way keeps the graph acyclic. */
  lemma EdgeKeepsAcyclic(edges: Edges, from: string, target: string)
    requires IsAcyclic(edges) && from != target && !Reaches(edges, target, from)
    ensures IsAcyclic(edges + [(from, target)])
  {
    var more := edges + [(from, target)];
    forall walk
      ensures !IsCycle(more, walk)
    {
      if IsCycle(more, walk) {
        assert !IsCycle(edges, walk);
        var i :| 0 <= i < |walk| - 1 && (walk[i], walk[i + 1]) !in edges;
        assert (walk[i], walk[i + 1]) in more;
        assert walk[i] == from && walk[i + 1] == target;
        CycleThrough(edges, from, target, walk, i);
      }
    }
  }

  /** A cycle through the new edge leads from its target back to its source over old edges. */
  lemma CycleThrough(edges: Edges, from: string, target: string, walk: seq<string>, i: nat)
    requires IsCycle(edges + [(from, target)], walk) && i < |walk| - 1 && walk[i] == from && walk[i + 1] == target
    ensures Reaches(edges, target, from)
  {
    Follow(edges, from, target, walk, i + 1, |walk| - 1);
    if !Reaches(edges, target, from) {
      FollowOn(edges, from, target, walk, 0, i);
    }
  }

  /** From a node the target reaches, a walk over old and new edges stays with what the target reaches,
      unless it comes to the source. */
  lemma {:induction false} FollowOn(edges: Edges, from: string, target: string, walk: seq<string>, start: nat, end: nat)
    requires IsWalk(edges + [(from, target)], walk) && start <= end < |walk|
    requires Reaches(edges, target, walk[start])
    ensures Reaches(edges, target, from) || Reaches(edges, target, walk[end])
    decreases end
  {
    if start < end {
      FollowOn(edges, from, target, walk, start, end - 1);
      assert (walk[end - 1], walk[end]) in edges + [(from, target)];
      if (walk[end - 1], walk[end]) in edges {
        if Reaches(edges, target, walk[end - 1]) { ReachesOn(edges, target, walk[end - 1], walk[end]); }
      } else {
        ReachesItself(edges, target);
      }
    }
  }

  lemma Follow(edges: Edges, from: string, target: string, walk: seq<string>, start: nat, end: nat)
    requires IsWalk(edges + [(from, target)], walk) && start <= end < |walk| && walk[start] == target
    ensures Reaches(edges, target, from) || Reaches(edges, target, walk[end])
  {
    ReachesItself(edges, target);
    FollowOn(edges, from, target, walk, start, end);
  }

  // ---------------------------------------------------------------- the builder

  ghost predicate HasNode(index: map<string, nat>, nodes: seq<string>) {
    && (forall id :: id in index ==> index[id] < |nodes| && nodes[index[id]] == id)
    && (forall i :: 0 <= i < |nodes| ==> nodes[i] in index && index[nodes[i]] == i)
  }

  /** The adjacency and the list of edges hold the same relation, each edge once. */
  ghost predicate IsSameRelation(next: map<string, set<string>>, edges: seq<Edge>) {
    && (forall i :: 0 <= i < |edges| ==> edges[i].from in next && edges[i].target in next[edges[i].from])
    && (forall a, b :: a in next && b in next[a] ==> (a, b) in Pairs(edges))
    && (forall i, j :: 0 <= i < j < |edges| ==> (edges[i].from, edges[i].target) != (edges[j].from, edges[j].target))
  }

  /** An edge that would close a cycle. */
  ghost predicate Closes(edges: Edges, edge: Edge) {
    edge.from == edge.target || Reaches(edges, edge.target, edge.from)
  }

  class Builder {
    var nodes: seq<string>
    var index: map<string, nat>
    var next: map<string, set<string>>
    var edges: seq<Edge>
    var rejected: seq<Edge>

    ghost predicate Valid()
      reads this
    {
      && HasNode(index, nodes) && IsSameRelation(next, edges) && IsAcyclic(Pairs(edges))
      && (forall i :: 0 <= i < |edges| ==> edges[i].from in index && edges[i].target in index)
      && (forall i :: 0 <= i < |rejected| ==> Closes(Pairs(edges), rejected[i]))
    }

    constructor ()
      ensures Valid() && nodes == [] && edges == [] && rejected == []
    {
      nodes, index, next, edges, rejected := [], map[], map[], [], [];
      new;
      assert forall walk :: IsCycle(Pairs(edges), walk) ==> (walk[0], walk[1]) in Pairs(edges);
    }

    /** Add a node unless its identifier is taken. */
    method Node(id: string) returns (added: bool)
      requires Valid()
      modifies this`nodes, this`index
      ensures Valid() && added == (id !in old(index))
      ensures nodes == old(nodes) + if added then [id] else []
    {
      if id in index { return false; }
      index := index[id := |nodes|];
      nodes := nodes + [id];
      added := true;
    }

    /** Add an edge between existing nodes unless it is there already; one that would close a cycle is
        rejected. */
    method AddEdge(edge: Edge)
      requires Valid()
      modifies this`next, this`edges, this`rejected
      ensures Valid()
      ensures var known := edge.from in index && edge.target in index && (edge.from, edge.target) !in Pairs(old(edges));
              && edges == old(edges) + (if known && !Closes(Pairs(old(edges)), edge) then [edge] else [])
              && rejected == old(rejected) + (if known && Closes(Pairs(old(edges)), edge) then [edge] else [])
    {
      hide Pairs, IsAcyclic, Reaches;
      if edge.from !in index || edge.target !in index { return; }
      NextHolds(next, edges, edge.from, edge.target);
      if edge.from in next && edge.target in next[edge.from] { return; }
      var closes := edge.from == edge.target;
      if !closes {
        NextIsPairs(next, edges);
        closes := FindPath(next, edge.target, edge.from, Pairs(edges));
      }
      if closes { Reject(edge); } else { Accept(edge); }
    }

    /** The accepted edges never hold a cycle. */
    method Check() returns (cycle: Option<seq<string>>)
      requires Valid()
      ensures cycle.None?
    {
      cycle := FindCycle(Pairs(edges));
    }

    method Reject(edge: Edge)
      requires Valid() && Closes(Pairs(edges), edge)
      modifies this`rejected
      ensures Valid() && rejected == old(rejected) + [edge]
    {
      rejected := rejected + [edge];
    }

    method Accept(edge: Edge)
      requires Valid() && edge.from in index && edge.target in index && (edge.from, edge.target) !in Pairs(edges)
      requires edge.from != edge.target && !Reaches(Pairs(edges), edge.target, edge.from)
      modifies this`next, this`edges
      ensures Valid() && edges == old(edges) + [edge]
    {
      hide IsSameRelation, IsAcyclic, Closes, Pairs;
      AcceptedKeeps(next, edges, rejected, edge);
      next := next[edge.from := (if edge.from in next then next[edge.from] else {}) + {edge.target}];
      edges := edges + [edge];
    }
  }

  lemma NextHolds(next: map<string, set<string>>, edges: seq<Edge>, from: string, target: string)
    requires IsSameRelation(next, edges)
    ensures from in next && target in next[from] <==> (from, target) in Pairs(edges)
  {
    if (from, target) in Pairs(edges) {
      var i :| 0 <= i < |edges| && Pairs(edges)[i] == (from, target);
    }
  }

  ghost predicate HoldsEdges(next: map<string, set<string>>, pairs: Edges) {
    forall a, b :: (a in next && b in next[a]) <==> (a, b) in pairs
  }

  lemma NextIsPairs(next: map<string, set<string>>, edges: seq<Edge>)
    requires IsSameRelation(next, edges)
    ensures HoldsEdges(next, Pairs(edges))
  {
    forall a, b
      ensures (a in next && b in next[a]) <==> (a, b) in Pairs(edges)
    {
      NextHolds(next, edges, a, b);
    }
  }

  /** What accepting an edge keeps. */
  lemma AcceptedKeeps(next: map<string, set<string>>, edges: seq<Edge>, rejected: seq<Edge>, edge: Edge)
    requires IsSameRelation(next, edges) && IsAcyclic(Pairs(edges)) && (edge.from, edge.target) !in Pairs(edges)
    requires edge.from != edge.target && !Reaches(Pairs(edges), edge.target, edge.from)
    requires forall i :: 0 <= i < |rejected| ==> Closes(Pairs(edges), rejected[i])
    ensures IsSameRelation(next[edge.from := (if edge.from in next then next[edge.from] else {}) + {edge.target}],
                           edges + [edge])
    ensures IsAcyclic(Pairs(edges + [edge]))
    ensures forall i :: 0 <= i < |rejected| ==> Closes(Pairs(edges + [edge]), rejected[i])
  {
    hide IsSameRelation, Pairs;
    RelationWith(next, edges, edge);
    PairsWith(edges, edge);
    EdgeKeepsAcyclic(Pairs(edges), edge.from, edge.target);
    forall i | 0 <= i < |rejected|
      ensures Closes(Pairs(edges + [edge]), rejected[i])
    {
      StillCloses(Pairs(edges), Pairs(edges + [edge]), rejected[i]);
    }
  }

  lemma StillCloses(pairs: Edges, more: Edges, edge: Edge)
    requires Closes(pairs, edge) && forall e :: e in pairs ==> e in more
    ensures Closes(more, edge)
  {
    if edge.from != edge.target { ReachesMore(pairs, more, edge.target, edge.from); }
  }

  /** Whether accepted edges lead from one node to another: breadth first. */
  method FindPath(next: map<string, set<string>>, from: string, target: string, ghost pairs: Edges)
    returns (found: bool)
    requires HoldsEdges(next, pairs)
    ensures found <==> Reaches(pairs, from, target)
  {
    var seen := {from};
    var queue := [from];
    ghost var universe := {from} + set a, b | a in next && b in next[a] :: b;
    ReachesItself(pairs, from);
    while queue != []
      invariant IsExplored(pairs, from, target, seen, queue) && seen <= universe
      decreases universe - seen, |queue|
    {
      var node := queue[0];
      if node == target { return true; }
      var children := if node in next then next[node] else {};
      ghost var seen0, queue0 := seen, queue;
      seen, queue := Expand(node, children, seen, queue[1..], from, universe);
      StillExplored(next, pairs, from, target, seen0, queue0, children, seen, queue);
    }
    if Reaches(pairs, from, target) {
      var walk :| IsWalk(pairs, walk) && walk[0] == from && walk[|walk| - 1] == target;
      ClosedSet(pairs, seen, walk);
    }
    found := false;
  }

  /** Seen nodes are reached; those no longer in the queue are not the target and have no unseen child. */
  ghost predicate IsExplored(pairs: Edges, from: string, target: string, seen: set<string>, queue: seq<string>) {
    && from in seen && (forall node :: node in seen ==> Reaches(pairs, from, node))
    && (forall node :: node in queue ==> node in seen)
    && (forall node :: node in seen && node !in queue ==> node != target)
    && (forall a, b :: (a, b) in pairs && a in seen && a !in queue ==> b in seen)
  }

  lemma StillExplored(next: map<string, set<string>>, pairs: Edges, from: string, target: string, seen: set<string>,
                      queue: seq<string>, children: set<string>, seen': set<string>, queue': seq<string>)
    requires HoldsEdges(next, pairs) && IsExplored(pairs, from, target, seen, queue) && queue != []
             && queue[0] != target
    requires children == if queue[0] in next then next[queue[0]] else {}
    requires seen' == seen + children && forall m :: m in queue' <==> m in queue[1..] || (m in children && m !in seen)
    ensures IsExplored(pairs, from, target, seen', queue')
  {
    var node := queue[0];
    assert queue == [node] + queue[1..];
    forall child | child in children
      ensures Reaches(pairs, from, child)
    {
      assert (node, child) in pairs;
      ReachesOn(pairs, from, node, child);
    }
    forall a, b | (a, b) in pairs && a in seen' && a !in queue'
      ensures b in seen'
    {
      if a == node { assert b in next[node]; }
    }
  }

  /** Put the children that were not seen into the queue. */
  method Expand(node: string, children: set<string>, seen: set<string>, queue: seq<string>, ghost from: string,
                ghost universe: set<string>)
    returns (seen': set<string>, queue': seq<string>)
    requires children <= universe && seen <= universe
    ensures seen' == seen + children && (seen' > seen || (seen' == seen && queue' == queue))
    ensures forall m :: m in queue' <==> m in queue || (m in children && m !in seen)
    ensures seen' <= universe
  {
    seen', queue' := seen, queue;
    var todo := children;
    while todo != {}
      invariant todo <= children && seen' == seen + (children - todo)
      invariant seen' > seen || (seen' == seen && queue' == queue)
      invariant forall m :: m in queue' <==> m in queue || (m in children && m !in todo && m !in seen)
      decreases todo
    {
      var child :| child in todo;
      todo := todo - {child};
      if child !in seen' {
        seen' := seen' + {child};
        queue' := queue' + [child];
      }
    }
  }

  lemma RelationWith(next: map<string, set<string>>, edges: seq<Edge>, edge: Edge)
    requires IsSameRelation(next, edges) && (edge.from, edge.target) !in Pairs(edges)
    ensures IsSameRelation(next[edge.from := (if edge.from in next then next[edge.from] else {}) + {edge.target}],
                           edges + [edge])
  {
    hide Pairs;
    PairsWith(edges, edge);
    forall i | 0 <= i < |edges|
      ensures (edges[i].from, edges[i].target) != (edge.from, edge.target)
    {
      assert Pairs(edges)[i] in Pairs(edges);
    }
  }

  lemma PairsWith(edges: seq<Edge>, edge: Edge)
    ensures Pairs(edges + [edge]) == Pairs(edges) + [(edge.from, edge.target)]
  {
    assert (edges + [edge])[..|edges|] == edges;
  }

  // ---------------------------------------------------------------- nesting by smallest enclosing span

  datatype Span = Span(id: string, path: string, start: nat, end: nat)

  /** Lexicographic order of identifiers. */
  predicate Precedes(a: string, b: string) {
    b != "" && (a == "" || a[0] < b[0] || (a[0] == b[0] && Precedes(a[1..], b[1..])))
  }

  /** Order by start, then longest first, then identifier. */
  predicate IsBefore(a: Span, b: Span) {
    a.start < b.start || (a.start == b.start && (a.end > b.end || (a.end == b.end && Precedes(a.id, b.id))))
  }

  /** A span that may be the parent of another. */
  predicate IsCandidate(outer: Span, span: Span) {
    outer.id != span.id && outer.path == span.path && outer.start <= span.start && span.end <= outer.end
        && IsBefore(outer, span)
  }

  function Length(span: Span): int { span.end - span.start }

  /** The better parent: the shorter one, and of equally long ones the later. */
  predicate IsBetter(a: Span, b: Span) { Length(a) < Length(b) || (Length(a) == Length(b) && IsBefore(b, a)) }

  /** The smallest enclosing span, if any. */
  function Parent(span: Span, resolved: seq<Span>): Option<Span> {
    if resolved == [] then None
    else
      var outer := resolved[|resolved| - 1];
      var best := Parent(span, resolved[..|resolved| - 1]);
      if IsCandidate(outer, span) && (best.None? || IsBetter(outer, best.value)) then Some(outer) else best
  }

  lemma {:induction false} PrecedesOrders(a: string, b: string, c: string)
    ensures !Precedes(a, a)
    ensures Precedes(a, b) && Precedes(b, c) ==> Precedes(a, c)
    ensures a != b ==> Precedes(a, b) || Precedes(b, a)
    decreases |a| + |b| + |c|
  {
    if a != "" && b != "" && c != "" {
      PrecedesOrders(a[1..], b[1..], c[1..]);
      if a[0] == b[0] && a[1..] == b[1..] { assert a == [a[0]] + a[1..] && b == [b[0]] + b[1..]; }
    } else if a != "" {
      PrecedesOrders(a[1..], if b != "" then b[1..] else "", if c != "" then c[1..] else "");
      if b != "" && a[0] == b[0] && a[1..] == b[1..] { assert a == [a[0]] + a[1..] && b == [b[0]] + b[1..]; }
    }
  }

  lemma BeforeOrders(a: Span, b: Span, c: Span)
    ensures !IsBefore(a, a)
    ensures IsBefore(a, b) && IsBefore(b, c) ==> IsBefore(a, c)
    ensures a.id != b.id ==> IsBefore(a, b) || IsBefore(b, a)
  {
    PrecedesOrders(a.id, b.id, c.id);
  }

  /** The parent is an enclosing span in the same file, and none is smaller; there is one whenever some
      span may be one. */
  lemma {:induction false} ParentIsSmallest(span: Span, resolved: seq<Span>)
    ensures Parent(span, resolved).None? <==> forall outer :: outer in resolved ==> !IsCandidate(outer, span)
    ensures Parent(span, resolved).Some? ==>
              && Parent(span, resolved).value in resolved && IsCandidate(Parent(span, resolved).value, span)
              && forall outer :: outer in resolved && IsCandidate(outer, span) ==>
                   !IsBetter(outer, Parent(span, resolved).value)
  {
    if resolved != [] {
      var rest, last := resolved[..|resolved| - 1], resolved[|resolved| - 1];
      ParentIsSmallest(span, rest);
      assert resolved == rest + [last];
      var best, now := Parent(span, rest), Parent(span, resolved);
      if now.Some? {
        forall outer | outer in resolved && IsCandidate(outer, span)
          ensures !IsBetter(outer, now.value)
        {
          if best.Some? { BeforeOrders(outer, best.value, last); BeforeOrders(best.value, last, outer);
                         BeforeOrders(last, outer, best.value); }
          BeforeOrders(last, last, last);
        }
      }
    }
  }

  /** A chain of parents. */
  ghost predicate IsChain(resolved: seq<Span>, chain: seq<Span>) {
    chain != [] && forall i :: 0 <= i < |chain| - 1 ==> Parent(chain[i], resolved) == Some(chain[i + 1])
  }

  /** Parents come before their children, so following parents never returns: nesting is a forest. */
  lemma {:induction false} ParentsAreForest(resolved: seq<Span>, chain: seq<Span>)
    requires IsChain(resolved, chain) && |chain| > 1
    ensures IsBefore(chain[|chain| - 1], chain[0]) && chain[|chain| - 1] != chain[0]
  {
    var n := |chain| - 1;
    assert Parent(chain[n - 1], resolved) == Some(chain[n]);
    ParentIsSmallest(chain[n - 1], resolved);
    if n > 1 {
      assert IsChain(resolved, chain[..n]);
      ParentsAreForest(resolved, chain[..n]);
    }
    BeforeOrders(chain[n], chain[n - 1], chain[0]);
  }
}
