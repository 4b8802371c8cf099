/** `ShortestPaths.Dijkstra`: a priority queue of (node, distance) entries with stale
    entries left in place, a distance map in which a missing node stands for the infinite
    distance, and a predecessor map from which the path is read back. */
module Dijkstra {
  import opened Wrappers
  import opened Graphs
  import opened Reach
  import opened Paths
  import Ids

  // ---- one relaxation round ----

  /** The neighbours of `v` whose distance the step from `v` lowers. */
  ghost function Improved(adj: Adjacency, w: Weight, dist: map<int, real>, v: int): set<int>
    requires v in adj && v in dist
  {
    set u | u in adj[v] && (u !in dist || dist[v] + w(v, u) < dist[u])
  }

  /** The queue `pq'` is `pq` followed by one entry `(u, dv + w(v, u))` for each `u` of `imp`. */
  ghost predicate Appended(w: Weight, v: int, dv: real, imp: set<int>,
                           pq: seq<(int, real)>, pq': seq<(int, real)>) {
    && |pq'| == |pq| + |imp| && pq'[..|pq|] == pq
    && forall e :: e in pq'[|pq|..] <==> e.0 in imp && e.1 == dv + w(v, e.0)
  }

  /** The inner loop over the neighbours of `v`: every neighbour reached more cheaply
      through `v` gets the new distance, `v` as predecessor, and a queue entry. */
  method RelaxNeighbors(adj: Adjacency, w: Weight, v: int, dist: map<int, real>,
                        prev: map<int, int>, pq: seq<(int, real)>)
    returns (dist': map<int, real>, prev': map<int, int>, pq': seq<(int, real)>)
    requires v in adj && v in dist && v !in adj[v]
    ensures Override(w, v, dist[v], Improved(adj, w, dist, v), dist, prev, dist', prev')
    ensures Appended(w, v, dist[v], Improved(adj, w, dist, v), pq, pq')
  {
    var dv := dist[v];
    dist', prev', pq' := dist, prev, pq;
    var rest := adj[v];
    ghost var handled: set<int> := {};
    while rest != {}
      invariant rest <= adj[v] && handled == Improved(adj, w, dist, v) - rest
      invariant Override(w, v, dv, handled, dist, prev, dist', prev')
      invariant Appended(w, v, dv, handled, pq, pq')
      decreases rest
    {
      ghost var pick := Ids.Pick(rest);
      var nb :| nb in rest;
      rest := rest - {nb};
      assert nb in Improved(adj, w, dist, v) <==> nb !in dist' || dv + w(v, nb) < dist'[nb] by {
        UnhandledScore(w, v, dv, handled, dist, prev, dist', prev', nb);
        ImprovedAt(adj, w, dist, v, nb);
      }
      var alt := dv + w(v, nb);
      if nb !in dist' || alt < dist'[nb] {
        RelaxOne(w, v, dv, handled, nb, dist, prev, pq, dist', prev', pq');
        handled := handled + {nb};
        dist' := dist'[nb := alt];
        prev' := prev'[nb := v];
        pq' := pq' + [(nb, alt)];
      }
    }
  }

  /** Whether a neighbour of `v` is improved depends only on its own distance. */
  lemma ImprovedAt(adj: Adjacency, w: Weight, dist: map<int, real>, v: int, nb: int)
    requires v in adj && v in dist && nb in adj[v]
    ensures nb in Improved(adj, w, dist, v) <==> nb !in dist || dist[v] + w(v, nb) < dist[nb]
  {
  }

  /** One improved neighbour extends the override and the queue. */
  lemma RelaxOne(w: Weight, v: int, dv: real, handled: set<int>, nb: int,
                 dist: map<int, real>, prev: map<int, int>, pq: seq<(int, real)>,
                 dist': map<int, real>, prev': map<int, int>, pq': seq<(int, real)>)
    requires nb !in handled
    requires Override(w, v, dv, handled, dist, prev, dist', prev')
    requires Appended(w, v, dv, handled, pq, pq')
    ensures Override(w, v, dv, handled + {nb}, dist, prev, dist'[nb := dv + w(v, nb)], prev'[nb := v])
    ensures Appended(w, v, dv, handled + {nb}, pq, pq' + [(nb, dv + w(v, nb))])
  {
    var e := (nb, dv + w(v, nb));
    assert (pq' + [e])[|pq|..] == pq'[|pq|..] + [e];
  }

  // ---- the loop state ----

  /** Every unsettled node with a distance has an entry carrying that distance, and no
      entry is below its node's distance. */
  ghost predicate Queued(dist: map<int, real>, done: set<int>, pq: seq<(int, real)>) {
    && (forall u | u in dist && u !in done :: (u, dist[u]) in pq)
    && (forall j | 0 <= j < |pq| :: pq[j].0 in dist && pq[j].1 >= dist[pq[j].0])
  }

  /** Every neighbour of a settled node has been relaxed through it. */
  ghost predicate Relaxed(adj: Adjacency, w: Weight, dist: map<int, real>, done: set<int>) {
    forall u | u in done && u in adj ::
      u in dist && forall x | x in adj[u] :: x in dist && dist[x] <= dist[u] + w(u, x)
  }

  /** No settled node is farther than an unsettled one. */
  ghost predicate Frontier(dist: map<int, real>, done: set<int>) {
    forall u, x | u in done && u in dist && x in dist && x !in done :: dist[u] <= dist[x]
  }

  /** The distance of a settled node is no more than the cost of any walk to it. */
  ghost predicate Settled(adj: Adjacency, w: Weight, start: int, dist: map<int, real>, done: set<int>) {
    forall u | u in done && u in dist :: LowerBound(adj, w, start, u, dist[u])
  }

  ghost predicate DijkstraState(adj: Adjacency, w: Weight, start: int, target: int,
                                dist: map<int, real>, prev: map<int, int>,
                                pq: seq<(int, real)>, done: set<int>) {
    && Scored(adj, start, dist)
    && SettledChain(adj, w, start, dist, prev, done)
    && done <= dist.Keys && target !in done
    && Queued(dist, done, pq)
    && Relaxed(adj, w, dist, done)
    && Frontier(dist, done)
    && Settled(adj, w, start, dist, done)
  }

  // ---- why the state is kept ----

  /** The first position of `p` outside `S`. */
  lemma FirstOutside(p: seq<int>, S: set<int>) returns (i: nat)
    requires |p| >= 1 && p[|p| - 1] !in S
    ensures i < |p| && p[i] !in S && forall k | 0 <= k < i :: p[k] in S
  {
    i := 0;
    while p[i] in S
      invariant i < |p| && forall k | 0 <= k < i :: p[k] in S
      decreases |p| - i
    {
      i := i + 1;
    }
  }

  /** The entry taken out of the queue for an unsettled node carries its distance, and
      that distance is the smallest among the unsettled nodes. */
  lemma PopMinimal(dist: map<int, real>, done: set<int>, pq: seq<(int, real)>, i: nat)
    requires Queued(dist, done, pq)
    requires i < |pq| && forall j | 0 <= j < |pq| :: pq[i].1 <= pq[j].1
    requires pq[i].0 !in done
    ensures pq[i].0 in dist
    ensures forall x | x in dist && x !in done :: dist[pq[i].0] <= dist[x]
  {
    var v := pq[i].0;
    forall x | x in dist && x !in done ensures dist[v] <= dist[x] {
      var j :| 0 <= j < |pq| && pq[j] == (x, dist[x]);
    }
  }

  /** The nearest unsettled node's distance is optimal: a walk to it leaves the settled
      nodes somewhere, and the node it enters there is at least as far. */
  lemma NewlyDoneOptimal(adj: Adjacency, w: Weight, start: int, dist: map<int, real>,
                         done: set<int>, v: int)
    requires Positive(w) && Scored(adj, start, dist) && done <= dist.Keys
    requires Relaxed(adj, w, dist, done) && Settled(adj, w, start, dist, done)
    requires v in dist && v !in done
    requires forall x | x in dist && x !in done :: dist[v] <= dist[x]
    ensures LowerBound(adj, w, start, v, dist[v])
  {
    forall p | IsWalk(adj, p) && p[0] == start && p[|p| - 1] == v
      ensures dist[v] <= PathCost(w, p)
    {
      var i := FirstOutside(p, done);
      PathCostNonNegative(w, p);
      if i > 0 {
        var u, x := p[i - 1], p[i];
        assert IsWalk(adj, p[..i]);
        assert LowerBound(adj, w, start, u, dist[u]);
        assert dist[u] <= PathCost(w, p[..i]);
        PathCostAppend(w, p[..i], x);
        assert p[..i] + [x] == p[..i + 1];
        PathCostPrefix(w, p, i + 1);
        assert x in adj[u];
      }
    }
  }

  /** A stale entry (its node already settled) improves nothing. */
  lemma StaleImprovesNothing(adj: Adjacency, w: Weight, dist: map<int, real>, done: set<int>, v: int)
    requires Relaxed(adj, w, dist, done) && v in done && v in adj && v in dist
    ensures Improved(adj, w, dist, v) == {}
  {
    forall u | u in adj[v] ensures u !in Improved(adj, w, dist, v) {
      assert u in dist && dist[u] <= dist[v] + w(v, u);
    }
  }

  /** Which nodes a settling step can lower: never a settled node, never the start, never
      `v` itself, and only to a distance beyond `v`'s. */
  lemma ImprovedFacts(adj: Adjacency, w: Weight, start: int, dist: map<int, real>,
                      done: set<int>, v: int)
    requires WellFormed(adj) && Positive(w) && Scored(adj, start, dist)
    requires Frontier(dist, done) && done <= dist.Keys
    requires v in dist && v !in done
    ensures var imp := Improved(adj, w, dist, v);
      && v !in imp && start !in imp
      && (forall u | u in imp :: u !in done && dist[v] < dist[v] + w(v, u))
  {
    var imp := Improved(adj, w, dist, v);
    forall u | u in imp ensures u !in done && u != start && dist[v] < dist[v] + w(v, u) {
      StepPositive(w, v, u);
    }
  }

  /** Settling the nearest unsettled node and relaxing its neighbours keeps the state. */
  lemma SettleStep(adj: Adjacency, w: Weight, start: int, target: int,
                   dist: map<int, real>, prev: map<int, int>, pq: seq<(int, real)>, done: set<int>,
                   v: int, pq0: seq<(int, real)>,
                   dist': map<int, real>, prev': map<int, int>, pq': seq<(int, real)>)
    requires WellFormed(adj) && Positive(w)
    requires DijkstraState(adj, w, start, target, dist, prev, pq, done)
    requires v in dist && v !in done && v != target
    requires forall x | x in dist && x !in done :: dist[v] <= dist[x]
    requires forall e | e in pq && e.0 != v :: e in pq0
    requires forall e | e in pq0 :: e in pq
    requires Override(w, v, dist[v], Improved(adj, w, dist, v), dist, prev, dist', prev')
    requires Appended(w, v, dist[v], Improved(adj, w, dist, v), pq0, pq')
    ensures DijkstraState(adj, w, start, target, dist', prev', pq', done + {v})
  {
    ImprovedFacts(adj, w, start, dist, done, v);
    forall x | x in done + {v} ensures x in dist' {
      assert x in dist;
    }
    ScoredOverride(adj, w, start, dist, prev, v, Improved(adj, w, dist, v), dist', prev');
    ChainOverride(adj, w, start, dist, prev, done, v, Improved(adj, w, dist, v), dist', prev');
    SettleQueued(adj, w, dist, prev, done, pq, v, pq0, dist', prev', pq');
    SettleRelaxed(adj, w, dist, prev, done, v, dist', prev');
    SettleFrontier(adj, w, dist, prev, done, v, dist', prev');
    NewlyDoneOptimal(adj, w, start, dist, done, v);
    SettleSettled(adj, w, start, dist, prev, done, v, dist', prev');
  }

  lemma SettleQueued(adj: Adjacency, w: Weight, dist: map<int, real>, prev: map<int, int>,
                     done: set<int>, pq: seq<(int, real)>, v: int, pq0: seq<(int, real)>,
                     dist': map<int, real>, prev': map<int, int>, pq': seq<(int, real)>)
    requires Queued(dist, done, pq) && v in dist && v in adj
    requires forall e | e in pq && e.0 != v :: e in pq0
    requires forall e | e in pq0 :: e in pq
    requires forall u | u in Improved(adj, w, dist, v) :: u !in done
    requires Override(w, v, dist[v], Improved(adj, w, dist, v), dist, prev, dist', prev')
    requires Appended(w, v, dist[v], Improved(adj, w, dist, v), pq0, pq')
    ensures Queued(dist', done + {v}, pq')
  {
    var imp := Improved(adj, w, dist, v);
    assert pq' == pq0 + pq'[|pq0|..];
    forall u | u in dist' && u !in done + {v} ensures (u, dist'[u]) in pq' {
      if u in imp {
        assert (u, dist'[u]) in pq'[|pq0|..];
      } else {
        assert (u, dist[u]) in pq;
      }
    }
    forall j | 0 <= j < |pq'| ensures pq'[j].0 in dist' && pq'[j].1 >= dist'[pq'[j].0] {
      var e := pq'[j];
      if j < |pq0| {
        assert e == pq0[j] && e in pq;
        var k :| 0 <= k < |pq| && pq[k] == e;
        var u := e.0;
        assert u in dist && e.1 >= dist[u];
        if u in imp {
          assert dist[v] + w(v, u) < dist[u];
        }
      } else {
        assert e == pq'[|pq0|..][j - |pq0|];
        var u, k := e.0, e.1;
        assert e in pq'[|pq0|..];
        assert u in imp && k == dist[v] + w(v, u);
        assert dist'[u] == dist[v] + w(v, u);
      }
    }
  }

  lemma SettleRelaxed(adj: Adjacency, w: Weight, dist: map<int, real>, prev: map<int, int>,
                      done: set<int>, v: int, dist': map<int, real>, prev': map<int, int>)
    requires Relaxed(adj, w, dist, done) && v in dist && v in adj
    requires var imp := Improved(adj, w, dist, v);
      v !in imp && (forall u | u in imp :: u !in done)
    requires Override(w, v, dist[v], Improved(adj, w, dist, v), dist, prev, dist', prev')
    ensures Relaxed(adj, w, dist', done + {v})
  {
    var imp := Improved(adj, w, dist, v);
    forall u, x | u in done + {v} && u in adj && x in adj[u]
      ensures u in dist' && x in dist' && dist'[x] <= dist'[u] + w(u, x)
    {
      assert u !in imp;
      if u != v {
        assert u in dist && x in dist && dist[x] <= dist[u] + w(u, x);
        if x in imp {
          assert dist[v] + w(v, x) < dist[x];
        }
      } else if x !in imp {
        assert x in dist && dist[x] <= dist[v] + w(v, x);
      }
    }
  }

  lemma SettleFrontier(adj: Adjacency, w: Weight, dist: map<int, real>, prev: map<int, int>,
                       done: set<int>, v: int, dist': map<int, real>, prev': map<int, int>)
    requires Frontier(dist, done) && v in dist && v in adj && v !in done && done <= dist.Keys
    requires forall x | x in dist && x !in done :: dist[v] <= dist[x]
    requires var imp := Improved(adj, w, dist, v);
      v !in imp && (forall u | u in imp :: u !in done && dist[v] < dist[v] + w(v, u))
    requires Override(w, v, dist[v], Improved(adj, w, dist, v), dist, prev, dist', prev')
    ensures Frontier(dist', done + {v})
  {
    var imp := Improved(adj, w, dist, v);
    forall u, x | u in done + {v} && u in dist' && x in dist' && x !in done + {v}
      ensures dist'[u] <= dist'[x]
    {
      assert u !in imp && dist'[u] == dist[u];
      assert dist[u] <= dist[v];
      if x !in imp {
        assert x in dist && dist'[x] == dist[x];
      }
    }
  }

  lemma SettleSettled(adj: Adjacency, w: Weight, start: int, dist: map<int, real>,
                      prev: map<int, int>, done: set<int>, v: int,
                      dist': map<int, real>, prev': map<int, int>)
    requires Settled(adj, w, start, dist, done) && v in dist && v in adj
    requires LowerBound(adj, w, start, v, dist[v])
    requires var imp := Improved(adj, w, dist, v);
      v !in imp && (forall u | u in imp :: u !in done)
    requires Override(w, v, dist[v], Improved(adj, w, dist, v), dist, prev, dist', prev')
    ensures Settled(adj, w, start, dist', done + {v})
  {
    forall u | u in done + {v} && u in dist' ensures LowerBound(adj, w, start, u, dist'[u]) {
      assert dist'[u] == dist[u];
    }
  }

  /** Taking out a stale entry changes nothing but the queue. */
  lemma StaleStep(adj: Adjacency, w: Weight, start: int, target: int,
                  dist: map<int, real>, prev: map<int, int>, pq: seq<(int, real)>, done: set<int>,
                  v: int, pq0: seq<(int, real)>,
                  dist': map<int, real>, prev': map<int, int>, pq': seq<(int, real)>)
    requires DijkstraState(adj, w, start, target, dist, prev, pq, done)
    requires v in done && v in adj && v in dist
    requires forall e | e in pq && e.0 != v :: e in pq0
    requires forall e | e in pq0 :: e in pq
    requires Override(w, v, dist[v], Improved(adj, w, dist, v), dist, prev, dist', prev')
    requires Appended(w, v, dist[v], Improved(adj, w, dist, v), pq0, pq')
    ensures dist' == dist && prev' == prev && pq' == pq0
    ensures DijkstraState(adj, w, start, target, dist', prev', pq', done)
  {
    StaleImprovesNothing(adj, w, dist, done, v);
    forall u ensures (u in dist' <==> u in dist) && (u in prev' <==> u in prev) {
    }
    forall u | u in dist' ensures dist'[u] == dist[u] {
    }
    forall u | u in prev' ensures prev'[u] == prev[u] {
    }
    assert dist' == dist;
    assert prev' == prev;
    assert pq' == pq0;
    forall j | 0 <= j < |pq0| ensures pq0[j].0 in dist && pq0[j].1 >= dist[pq0[j].0] {
      var e := pq0[j];
      assert e in pq;
      var k :| 0 <= k < |pq| && pq[k] == e;
    }
  }

  /** The state before the first round: only the start has a distance, and one entry. */
  lemma InitialState(adj: Adjacency, w: Weight, start: int, target: int)
    requires start in adj
    ensures DijkstraState(adj, w, start, target, map[start := 0.0], map[], [(start, 0.0)], {})
  {
    ReachableRefl(adj, start);
  }

  /** With the queue empty, the distances cover everything reachable and the target was
      never settled, so it is unreachable. */
  lemma Exhausted(adj: Adjacency, w: Weight, start: int, target: int,
                  dist: map<int, real>, prev: map<int, int>, done: set<int>)
    requires DijkstraState(adj, w, start, target, dist, prev, [], done)
    ensures !Reachable(adj, start, target) && target !in dist
  {
    forall u | u in dist ensures u in done {
      var none: seq<(int, real)> := [];
      assert (u, dist[u]) !in none;
    }
    assert Closed(adj, done) by {
      forall u | u in done && u in adj ensures adj[u] <= done {
        forall x | x in adj[u] ensures x in done {
          assert x in dist;
        }
      }
    }
    if Reachable(adj, start, target) {
      ClosedContainsReachable(adj, done, start, target);
      assert false;
    }
  }

  // ---- the search ----

  /** `Dijkstra(graph, start, target, weights)`: fails on a missing start, then on a
      missing target; otherwise returns no path and no (infinite) cost exactly when the
      target is unreachable, and else a simple path from start to target whose weight is
      the reported cost and is no more than that of any walk between them. */
  method Dijkstra(g: Graph, start: int, target: int, w: Weight) returns (r: Result<Route>)
    requires g.Valid() && Positive(w)
    ensures r.Err? <==> start !in g.nodes || target !in g.nodes
    ensures r.Err? ==> r.error == NodeNotFound(if start !in g.nodes then start else target)
    ensures r.Ok? ==> (r.value.Cost.None? <==> !Reachable(g.adj, start, target))
    ensures r.Ok? && r.value.Cost.None? ==> r.value.Path == []
    ensures r.Ok? && r.value.Cost.Some? ==>
              && IsRoute(g.adj, w, start, target, r.value.Path, r.value.Cost.value)
              && LowerBound(g.adj, w, start, target, r.value.Cost.value)
    ensures r.Ok? && start == target ==> r.value == Route([start], Some(0.0))
  {
    if start !in g.nodes {
      return Err(NodeNotFound(start));
    }
    if target !in g.nodes {
      return Err(NodeNotFound(target));
    }
    var adj := g.adj;
    var dist: map<int, real> := map[start := 0.0];
    var prev: map<int, int> := map[];
    var pq: seq<(int, real)> := [(start, 0.0)];
    ghost var done: set<int> := {};
    ghost var found := false;
    InitialState(adj, w, start, target);
    while pq != []
      invariant DijkstraState(adj, w, start, target, dist, prev, pq, done)
      invariant done <= adj.Keys && !found
      decreases |adj.Keys - done|, |pq|
    {
      var i := ExtractMin(pq);
      var v := pq[i].0;
      ghost var dist0, prev0, pq1 := dist, prev, pq;
      pq := Without(pq, i);
      if v == target {
        PopMinimal(dist, done, pq1, i);
        NewlyDoneOptimal(adj, w, start, dist, done, v);
        found := true;
        break;
      }
      if v !in dist {
        break;
      }
      ghost var stale := v in done;
      if !stale {
        PopMinimal(dist, done, pq1, i);
      }
      dist, prev, pq := RelaxNeighbors(adj, w, v, dist, prev, pq);
      if stale {
        StaleStep(adj, w, start, target, dist0, prev0, pq1, done, v, Without(pq1, i), dist, prev, pq);
      } else {
        SettleStep(adj, w, start, target, dist0, prev0, pq1, done, v, Without(pq1, i), dist, prev, pq);
        Ids.RemoveOneShrinks(adj.Keys, done, v);
        done := done + {v};
      }
    }
    if !found && pq == [] {
      Exhausted(adj, w, start, target, dist, prev, done);
    }
    if target !in dist {
      return Ok(Route([], None));
    }
    var path := Reconstruct(adj, w, dist, prev, start, target);
    if start == target {
      RouteToSelf(adj, w, start, path, dist[target]);
    }
    return Ok(Route(path, Some(dist[target])));
  }
}
