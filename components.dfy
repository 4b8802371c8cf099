/** Connected components (Algorithms/ConnectedComponents.cs): nodes are scanned in
    ascending id order; each node not yet seen starts a breadth-first expansion whose
    members, sorted, form the next component. */
module Components {
  import opened Graphs
  import opened Reach
  import Ids
  import Traversals

  /** Nothing reachable from outside a neighbour-closed set lies inside it. */
  lemma ReachableAvoidsClosed(adj: Adjacency, S: set<int>, s: int, x: int)
    requires WellFormed(adj) && Closed(adj, S) && s !in S && Reachable(adj, s, x)
    ensures x !in S
  {
    if x in S {
      ReachableSymmetric(adj, s, x);
      ClosedContainsReachable(adj, S, x, s);
    }
  }

  /** One breadth-first expansion from `start`, which lies outside the closed set of
      nodes already assigned to components: the new component is exactly what
      `start` reaches, none of it was seen before, and all of it is now seen. */
  method ExpandComponent(adj: Adjacency, start: int, visited: set<int>)
    returns (comp: seq<int>, visited': set<int>)
    requires WellFormed(adj) && start in adj && start !in visited
    requires visited <= adj.Keys && Closed(adj, visited)
    ensures comp != [] && comp[0] == start && Ids.NoDuplicates(comp)
    ensures forall x :: x in comp <==> Reachable(adj, start, x)
    ensures forall x :: x in visited' <==> x in visited || x in comp
    ensures forall x | x in comp :: x !in visited
  {
    comp := [];
    visited' := visited + {start};
    var q: seq<int> := [start];
    ghost var all: seq<int> := [start];
    ReachableRefl(adj, start);
    while q != []
      invariant all == comp + q && all != [] && all[0] == start
      invariant forall x :: x in visited' <==> x in visited || x in all
      invariant forall x | x in all :: x !in visited
      invariant Ids.NoDuplicates(all)
      invariant visited' <= adj.Keys
      invariant forall x | x in all :: Reachable(adj, start, x)
      invariant forall u | u in comp :: adj[u] <= visited'
      decreases adj.Keys - Ids.Elements(comp)
    {
      var v := q[0];
      assert all[|comp|] == v;
      forall k | 0 <= k < |comp| ensures comp[k] != v {
        assert all[k] == comp[k];
      }
      assert v in all && v in adj;
      ghost var unseen := adj.Keys - Ids.Elements(comp);
      q := q[1..];
      comp := comp + [v];
      assert all == comp + q;
      assert adj.Keys - Ids.Elements(comp) == unseen - {v};
      var added;
      visited', q, added := Traversals.EnqueueUnseen(adj, v, visited', q);
      forall x | x in added ensures Reachable(adj, start, x) && x !in visited {
        ReachableStep(adj, start, v, x);
      }
      forall k | 0 <= k < |added| ensures added[k] !in all {
        var x := added[k];
        assert x in added;
      }
      Traversals.NoDuplicatesConcat(all, added);
      all := all + added;
    }
    assert all == comp;
    forall u | u in comp && u in adj ensures adj[u] <= Ids.Elements(comp) {
      forall x | x in adj[u] ensures x in comp {
        ReachableStep(adj, start, u, x);
        ReachableAvoidsClosed(adj, visited, start, x);
      }
    }
    ReachableSetCharacterised(adj, Ids.Elements(comp), start);
  }

  /** The components as the search returns them: each non-empty and ascending, each
      exactly the set of nodes its first (smallest) node reaches, listed in ascending
      order of their first nodes. */
  ghost predicate IsComponentList(adj: Adjacency, comps: seq<seq<int>>) {
    && (forall c | 0 <= c < |comps| :: comps[c] != [] && Ids.StrictlyIncreasing(comps[c]))
    && (forall c | 0 <= c < |comps| :: forall x :: x in comps[c] <==> Reachable(adj, comps[c][0], x))
    && (forall c, d | 0 <= c < d < |comps| :: comps[c][0] < comps[d][0])
  }

  /** No node belongs to two components. */
  ghost predicate Disjoint(comps: seq<seq<int>>) {
    forall c, d, x | 0 <= c < d < |comps| && x in comps[c] :: x !in comps[d]
  }

  /** The nodes of all components. */
  ghost function Union(comps: seq<seq<int>>): set<int> {
    if comps == [] then {} else Union(comps[..|comps| - 1]) + Ids.Elements(comps[|comps| - 1])
  }

  lemma {:induction false} UnionMember(comps: seq<seq<int>>, x: int)
    ensures x in Union(comps) <==> exists c | 0 <= c < |comps| :: x in comps[c]
  {
    if comps != [] {
      var init := comps[..|comps| - 1];
      UnionMember(init, x);
      if x in Union(init) {
        var c :| 0 <= c < |init| && x in init[c];
        assert comps[c] == init[c];
      }
      if exists c | 0 <= c < |comps| :: x in comps[c] {
        var c :| 0 <= c < |comps| && x in comps[c];
        if c < |init| {
          assert init[c] == comps[c];
        }
      }
    }
  }

  /** The invariant of the ascending scan after the first `idx` nodes: the nodes seen
      so far form a neighbour-closed set, are the nodes of the components found so
      far, and include every scanned node; every component found so far starts below
      every node still to be scanned. */
  ghost predicate ScanState(adj: Adjacency, nodes: seq<int>, idx: int, visited: set<int>,
                            comps: seq<seq<int>>)
    requires 0 <= idx <= |nodes|
  {
    && visited <= adj.Keys && Closed(adj, visited)
    && visited == Union(comps)
    && (forall p | 0 <= p < idx :: nodes[p] in visited)
    && IsComponentList(adj, comps)
    && (forall c, p | 0 <= c < |comps| && idx <= p < |nodes| :: comps[c][0] < nodes[p])
    && Disjoint(comps)
  }

  /** The sorted new component starts at the node the scan stopped at. */
  lemma NewComponentStart(adj: Adjacency, nodes: seq<int>, idx: int, visited: set<int>,
                          comp: seq<int>)
    requires WellFormed(adj) && nodes == Ids.Sorted(adj.Keys) && 0 <= idx < |nodes|
    requires Closed(adj, visited) && nodes[idx] !in visited
    requires forall p | 0 <= p < idx :: nodes[p] in visited
    requires comp != [] && comp[0] == nodes[idx]
    requires forall x :: x in comp <==> Reachable(adj, nodes[idx], x)
    ensures var sorted := Ids.Sorted(Ids.Elements(comp));
            sorted != [] && sorted[0] == nodes[idx]
  {
    var start := nodes[idx];
    var sorted := Ids.Sorted(Ids.Elements(comp));
    var z := comp[0];
    assert z in comp;
    assert start in sorted;
    var m := sorted[0];
    assert m in sorted;
    assert Reachable(adj, start, m);
    ReachableAvoidsClosed(adj, visited, start, m);
    SmallestUnseen(nodes, idx, visited, m);
    var k :| 0 <= k < |sorted| && sorted[k] == start;
    assert m <= start;
  }

  lemma ComponentListAppend(adj: Adjacency, comps: seq<seq<int>>, sorted: seq<int>)
    requires IsComponentList(adj, comps)
    requires sorted != [] && Ids.StrictlyIncreasing(sorted)
    requires forall x :: x in sorted <==> Reachable(adj, sorted[0], x)
    requires forall c | 0 <= c < |comps| :: comps[c][0] < sorted[0]
    ensures IsComponentList(adj, comps + [sorted])
  {
    var comps' := comps + [sorted];
    forall c | 0 <= c < |comps'| ensures forall x :: x in comps'[c] <==> Reachable(adj, comps'[c][0], x) {
      if c < |comps| { assert comps'[c] == comps[c]; }
    }
    forall c, d | 0 <= c < d < |comps'| ensures comps'[c][0] < comps'[d][0] {
      if d < |comps| { assert comps'[c] == comps[c] && comps'[d] == comps[d]; }
      else { assert comps'[c] == comps[c]; }
    }
  }

  lemma DisjointAppend(comps: seq<seq<int>>, sorted: seq<int>)
    requires Disjoint(comps)
    requires forall x | x in sorted :: x !in Union(comps)
    ensures Disjoint(comps + [sorted])
  {
    var comps' := comps + [sorted];
    forall c, d, x | 0 <= c < d < |comps'| && x in comps'[c] ensures x !in comps'[d] {
      assert comps'[c] == comps[c];
      if d == |comps| {
        UnionMember(comps, x);
      } else {
        assert comps'[d] == comps[d];
      }
    }
  }

  /** Appending the component expanded from the first unseen node keeps the scan invariant. */
  lemma NextComponentKeeps(adj: Adjacency, nodes: seq<int>, idx: int, visited: set<int>,
                           comps: seq<seq<int>>, comp: seq<int>, visited': set<int>)
    requires WellFormed(adj) && nodes == Ids.Sorted(adj.Keys) && 0 <= idx < |nodes|
    requires ScanState(adj, nodes, idx, visited, comps)
    requires nodes[idx] !in visited
    requires comp != [] && comp[0] == nodes[idx]
    requires forall x :: x in comp <==> Reachable(adj, nodes[idx], x)
    requires forall x :: x in visited' <==> x in visited || x in comp
    requires forall x | x in comp :: x !in visited
    ensures ScanState(adj, nodes, idx + 1, visited', comps + [Ids.Sorted(Ids.Elements(comp))])
  {
    var start := nodes[idx];
    var sorted := Ids.Sorted(Ids.Elements(comp));
    var comps' := comps + [sorted];
    NewComponentStart(adj, nodes, idx, visited, comp);
    forall c | 0 <= c < |comps| ensures comps[c][0] < sorted[0] {
      assert comps[c][0] < nodes[idx];
    }
    ComponentListAppend(adj, comps, sorted);
    DisjointAppend(comps, sorted);
    UnionAppend(comps, sorted);
    assert visited' == Union(comps') by {
      forall x ensures x in visited' <==> x in Union(comps) + Ids.Elements(sorted) {
      }
    }
    MinimaBelowRest(nodes, idx, comps, sorted);
    ClosedExtend(adj, visited, comp, visited', start);
  }

  lemma UnionAppend(comps: seq<seq<int>>, last: seq<int>)
    ensures Union(comps + [last]) == Union(comps) + Ids.Elements(last)
  {
    assert (comps + [last])[..|comps|] == comps;
  }

  lemma MinimaBelowRest(nodes: seq<int>, idx: int, comps: seq<seq<int>>, sorted: seq<int>)
    requires Ids.StrictlyIncreasing(nodes) && 0 <= idx < |nodes|
    requires forall c | 0 <= c < |comps| :: comps[c] != []
    requires forall c, p | 0 <= c < |comps| && idx <= p < |nodes| :: comps[c][0] < nodes[p]
    requires sorted != [] && sorted[0] == nodes[idx]
    ensures var comps' := comps + [sorted];
            forall c, p | 0 <= c < |comps'| && idx + 1 <= p < |nodes| :: comps'[c][0] < nodes[p]
  {
    var comps' := comps + [sorted];
    forall c, p | 0 <= c < |comps'| && idx + 1 <= p < |nodes| ensures comps'[c][0] < nodes[p] {
      if c < |comps| { assert comps'[c] == comps[c]; }
    }
  }

  /** Adding everything a node reaches to a neighbour-closed set keeps it closed. */
  lemma ClosedExtend(adj: Adjacency, visited: set<int>, comp: seq<int>, visited': set<int>, start: int)
    requires WellFormed(adj) && Closed(adj, visited)
    requires forall x :: x in comp <==> Reachable(adj, start, x)
    requires forall x :: x in visited' <==> x in visited || x in comp
    ensures Closed(adj, visited')
  {
    forall u | u in visited' && u in adj ensures adj[u] <= visited' {
      if u in comp {
        assert Reachable(adj, start, u);
        forall x | x in adj[u] ensures x in visited' {
          ReachableStep(adj, start, u, x);
          assert x in comp;
        }
      } else {
        assert u in visited && adj[u] <= visited;
        forall x | x in adj[u] ensures x in visited' {
          assert x in visited;
        }
      }
    }
  }

  /** `Find(graph)`: the connected components, each sorted ascending, listed in
      ascending order of their smallest node; together they hold every node exactly once. */
  method Find(g: Graph) returns (comps: seq<seq<int>>)
    requires g.Valid()
    ensures IsComponentList(g.adj, comps)
    ensures forall x :: x in g.nodes <==> exists c | 0 <= c < |comps| :: x in comps[c]
    ensures Disjoint(comps)
  {
    var adj := g.adj;
    var visited: set<int> := {};
    comps := [];
    var nodes := Ids.Sorted(adj.Keys);
    for idx := 0 to |nodes|
      invariant ScanState(adj, nodes, idx, visited, comps)
    {
      var start := nodes[idx];
      if start !in visited {
        assert start in adj;
        var comp, visited' := ExpandComponent(adj, start, visited);
        NextComponentKeeps(adj, nodes, idx, visited, comps, comp, visited');
        comps := comps + [Ids.Sorted(Ids.Elements(comp))];
        visited := visited';
      } else {
        SeenKeeps(adj, nodes, idx, visited, comps);
      }
    }
    ScanDone(adj, nodes, visited, comps);
  }

  /** A node already seen leaves the scan as it was. */
  lemma SeenKeeps(adj: Adjacency, nodes: seq<int>, idx: int, visited: set<int>, comps: seq<seq<int>>)
    requires 0 <= idx < |nodes| && Ids.StrictlyIncreasing(nodes)
    requires ScanState(adj, nodes, idx, visited, comps) && nodes[idx] in visited
    ensures ScanState(adj, nodes, idx + 1, visited, comps)
  {
    forall c, p | 0 <= c < |comps| && idx + 1 <= p < |nodes| ensures comps[c][0] < nodes[p] {
      assert comps[c][0] < nodes[idx];
    }
  }

  /** When the scan is over, the components hold exactly the nodes. */
  lemma ScanDone(adj: Adjacency, nodes: seq<int>, visited: set<int>, comps: seq<seq<int>>)
    requires nodes == Ids.Sorted(adj.Keys)
    requires ScanState(adj, nodes, |nodes|, visited, comps)
    ensures forall x :: x in adj <==> exists c | 0 <= c < |comps| :: x in comps[c]
  {
    forall x ensures x in adj <==> exists c | 0 <= c < |comps| :: x in comps[c] {
      UnionMember(comps, x);
      if x in adj {
        assert x in nodes;
        var p :| 0 <= p < |nodes| && nodes[p] == x;
      }
    }
  }

  /** In the ascending scan, a node not yet seen is no smaller than the current one. */
  lemma SmallestUnseen(nodes: seq<int>, idx: int, visited: set<int>, m: int)
    requires Ids.StrictlyIncreasing(nodes) && 0 <= idx < |nodes|
    requires forall p | 0 <= p < idx :: nodes[p] in visited
    requires m in nodes && m !in visited
    ensures nodes[idx] <= m
  {
    var p :| 0 <= p < |nodes| && nodes[p] == m;
    if p < idx {
      assert false;
    }
  }

  /** Two nodes share a component exactly when one reaches the other. */
  lemma SameComponentIffReachable(adj: Adjacency, comps: seq<seq<int>>, c: int, x: int, y: int)
    requires WellFormed(adj) && IsComponentList(adj, comps)
    requires 0 <= c < |comps| && x in comps[c]
    ensures y in comps[c] <==> Reachable(adj, x, y)
  {
    var s := comps[c][0];
    assert Reachable(adj, s, x);
    ReachableSymmetric(adj, s, x);
    if y in comps[c] {
      ReachableTransitive(adj, x, s, y);
    }
    if Reachable(adj, x, y) {
      ReachableTransitive(adj, s, x, y);
    }
  }
}
