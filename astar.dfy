/** `ShortestPaths.AStar`: the open queue holds (node, g + h) entries, a closed set keeps
    expanded nodes, stale entries of closed nodes are skipped, and the path is read back
    from the came-from map when the target comes out of the queue. The heuristic is a
    parameter. */
module AStar {
  import opened Wrappers
  import opened Graphs
  import opened Reach
  import opened Paths
  import Ids

  /** The estimate of the remaining cost from a node. */
  type Heuristic = int -> real

  // ---- one expansion ----

  /** The neighbours of `v` outside the closed set whose score the step from `v` lowers. */
  ghost function Improved(adj: Adjacency, w: Weight, g: map<int, real>, closed: set<int>, v: int): set<int>
    requires v in adj && v in g
  {
    set u | u in adj[v] && u !in closed && (u !in g || g[v] + w(v, u) < g[u])
  }

  /** `f'` is `f` with every node of `imp` estimated at `gv + w(v, u) + h(u)`. */
  ghost predicate Estimates(w: Weight, h: Heuristic, v: int, gv: real, imp: set<int>,
                            f: map<int, real>, f': map<int, real>) {
    && (forall u :: u in f' <==> u in f || u in imp)
    && (forall u | u in f' :: f'[u] == if u in imp then gv + w(v, u) + h(u) else f[u])
  }

  /** The queue `open'` is `open` followed by one entry `(u, gv + w(v, u) + h(u))` for each
      `u` of `imp`. */
  ghost predicate Enqueued(w: Weight, h: Heuristic, v: int, gv: real, imp: set<int>,
                           open: seq<(int, real)>, open': seq<(int, real)>) {
    && |open'| == |open| + |imp| && open'[..|open|] == open
    && forall e :: e in open'[|open|..] <==> e.0 in imp && e.1 == gv + w(v, e.0) + h(e.0)
  }

  /** The loop over the neighbours of the expanded node `v`, already closed: a closed
      neighbour is skipped, and every other neighbour reached more cheaply gets the new
      score, estimate, predecessor and a queue entry. */
  method ExpandNeighbors(adj: Adjacency, w: Weight, h: Heuristic, v: int, closed: set<int>,
                         g: map<int, real>, f: map<int, real>, came: map<int, int>,
                         open: seq<(int, real)>)
    returns (g': map<int, real>, f': map<int, real>, came': map<int, int>, open': seq<(int, real)>)
    requires v in adj && v in g && v in closed
    ensures Override(w, v, g[v], Improved(adj, w, g, closed, v), g, came, g', came')
    ensures Estimates(w, h, v, g[v], Improved(adj, w, g, closed, v), f, f')
    ensures Enqueued(w, h, v, g[v], Improved(adj, w, g, closed, v), open, open')
  {
    var gv := g[v];
    g', f', came', open' := g, f, came, open;
    var rest := adj[v];
    ghost var handled: set<int> := {};
    while rest != {}
      invariant rest <= adj[v] && handled == Improved(adj, w, g, closed, v) - rest
      invariant Override(w, v, gv, handled, g, came, g', came')
      invariant Estimates(w, h, v, gv, handled, f, f')
      invariant Enqueued(w, h, v, gv, handled, open, open')
      decreases rest
    {
      ghost var pick := Ids.Pick(rest);
      var nb :| nb in rest;
      Remaining(Improved(adj, w, g, closed, v), rest, handled, nb);
      rest := rest - {nb};
      g', f', came', open', handled := Visit(adj, w, h, v, closed, g, f, came, open, nb, g', f', came', open', handled);
    }
  }

  /** The body of the neighbour loop for the neighbour `nb`; `handled` collects the
      neighbours improved so far. */
  method Visit(adj: Adjacency, w: Weight, h: Heuristic, v: int, closed: set<int>,
               g: map<int, real>, f: map<int, real>, came: map<int, int>, open: seq<(int, real)>,
               nb: int, g': map<int, real>, f': map<int, real>, came': map<int, int>,
               open': seq<(int, real)>, ghost handled: set<int>)
    returns (g'': map<int, real>, f'': map<int, real>, came'': map<int, int>,
             open'': seq<(int, real)>, ghost handled': set<int>)
    requires v in adj && v in g && nb in adj[v] && nb !in handled
    requires Override(w, v, g[v], handled, g, came, g', came')
    requires Estimates(w, h, v, g[v], handled, f, f')
    requires Enqueued(w, h, v, g[v], handled, open, open')
    ensures handled' == if nb in Improved(adj, w, g, closed, v) then handled + {nb} else handled
    ensures Override(w, v, g[v], handled', g, came, g'', came'')
    ensures Estimates(w, h, v, g[v], handled', f, f'')
    ensures Enqueued(w, h, v, g[v], handled', open, open'')
  {
    g'', f'', came'', open'', handled' := g', f', came', open', handled;
    assert nb in Improved(adj, w, g, closed, v)
           <==> nb !in closed && (nb !in g' || g[v] + w(v, nb) < g'[nb]) by {
      UnhandledScore(w, v, g[v], handled, g, came, g', came', nb);
      ImprovedAt(adj, w, g, closed, v, nb);
    }
    if nb !in closed {
      var tentative := g[v] + w(v, nb);
      if nb !in g' || tentative < g'[nb] {
        handled' := handled + {nb};
        came'' := came'[nb := v];
        g'' := g'[nb := tentative];
        var estimate := tentative + h(nb);
        f'' := f'[nb := estimate];
        open'' := open' + [(nb, estimate)];
        EnqueueOne(w, h, v, g[v], handled, nb, g, f, came, open, g', f', came', open',
                   g'', f'', came'', open'');
      }
    }
  }

  /** Whether a neighbour of `v` is improved depends only on its own closedness and score. */
  lemma ImprovedAt(adj: Adjacency, w: Weight, g: map<int, real>, closed: set<int>, v: int, nb: int)
    requires v in adj && v in g && nb in adj[v]
    ensures nb in Improved(adj, w, g, closed, v) <==> nb !in closed && (nb !in g || g[v] + w(v, nb) < g[nb])
  {
  }

  /** Taking `x` out of the nodes still to visit moves it to the handled ones exactly when
      it belongs to `s`. */
  lemma Remaining<T>(s: set<T>, rest: set<T>, handled: set<T>, x: T)
    requires handled == s - rest && x in rest
    ensures x in s ==> handled + {x} == s - (rest - {x})
    ensures x !in s ==> handled == s - (rest - {x})
  {
  }

  /** One improved neighbour extends the override, the estimates and the queue. */
  lemma EnqueueOne(w: Weight, h: Heuristic, v: int, gv: real, handled: set<int>, nb: int,
                   g: map<int, real>, f: map<int, real>, came: map<int, int>, open: seq<(int, real)>,
                   g': map<int, real>, f': map<int, real>, came': map<int, int>, open': seq<(int, real)>,
                   g'': map<int, real>, f'': map<int, real>, came'': map<int, int>, open'': seq<(int, real)>)
    requires nb !in handled
    requires Override(w, v, gv, handled, g, came, g', came')
    requires Estimates(w, h, v, gv, handled, f, f')
    requires Enqueued(w, h, v, gv, handled, open, open')
    requires g'' == g'[nb := gv + w(v, nb)] && came'' == came'[nb := v]
    requires f'' == f'[nb := gv + w(v, nb) + h(nb)] && open'' == open' + [(nb, gv + w(v, nb) + h(nb))]
    ensures Override(w, v, gv, handled + {nb}, g, came, g'', came'')
    ensures Estimates(w, h, v, gv, handled + {nb}, f, f'')
    ensures Enqueued(w, h, v, gv, handled + {nb}, open, open'')
  {
    var e := (nb, gv + w(v, nb) + h(nb));
    assert (open' + [e])[|open|..] == open'[|open|..] + [e];
  }

  // ---- the loop state ----

  /** Every scored node that is not closed has an entry carrying its estimate, and every
      entry is of a scored node. */
  ghost predicate Open(g: map<int, real>, f: map<int, real>, closed: set<int>, open: seq<(int, real)>)
    requires f.Keys == g.Keys
  {
    && (forall u | u in g && u !in closed :: (u, f[u]) in open)
    && (forall j | 0 <= j < |open| :: open[j].0 in g)
  }

  /** Every neighbour of an expanded node has a score. */
  ghost predicate Expanded(adj: Adjacency, g: map<int, real>, closed: set<int>) {
    forall u | u in closed && u in adj :: forall x | x in adj[u] :: x in g
  }

  ghost predicate AStarState(adj: Adjacency, w: Weight, h: Heuristic, start: int, target: int,
                             g: map<int, real>, f: map<int, real>, came: map<int, int>,
                             open: seq<(int, real)>, closed: set<int>) {
    && Scored(adj, start, g)
    && SettledChain(adj, w, start, g, came, closed)
    && closed <= g.Keys && target !in closed
    && f.Keys == g.Keys && (forall u | u in g :: f[u] == g[u] + h(u))
    && Open(g, f, closed, open)
    && Expanded(adj, g, closed)
  }

  // ---- why the state is kept ----

  lemma InitialState(adj: Adjacency, w: Weight, h: Heuristic, start: int, target: int)
    requires start in adj
    ensures AStarState(adj, w, h, start, target, map[start := 0.0], map[start := h(start)],
                       map[], [(start, h(start))], {})
  {
    ReachableRefl(adj, start);
  }

  /** Skipping the entry of a closed node keeps the state. */
  lemma SkipStep(adj: Adjacency, w: Weight, h: Heuristic, start: int, target: int,
                 g: map<int, real>, f: map<int, real>, came: map<int, int>,
                 open: seq<(int, real)>, closed: set<int>, i: nat)
    requires AStarState(adj, w, h, start, target, g, f, came, open, closed)
    requires i < |open| && open[i].0 in closed
    ensures AStarState(adj, w, h, start, target, g, f, came, Without(open, i), closed)
  {
    var rest := Without(open, i);
    forall u | u in g && u !in closed ensures (u, f[u]) in rest {
      assert (u, f[u]) in open;
    }
    forall j | 0 <= j < |rest| ensures rest[j].0 in g {
      var e := rest[j];
      assert e in open;
      var k :| 0 <= k < |open| && open[k] == e;
    }
  }

  /** Expanding a node that is neither closed nor the target keeps the state. */
  lemma ExpandStep(adj: Adjacency, w: Weight, h: Heuristic, start: int, target: int,
                   g: map<int, real>, f: map<int, real>, came: map<int, int>,
                   open: seq<(int, real)>, closed: set<int>, v: int, open0: seq<(int, real)>,
                   g': map<int, real>, f': map<int, real>, came': map<int, int>,
                   open': seq<(int, real)>)
    requires WellFormed(adj) && Positive(w)
    requires AStarState(adj, w, h, start, target, g, f, came, open, closed)
    requires v in g && v !in closed && v != target
    requires forall e | e in open && e.0 != v :: e in open0
    requires forall e | e in open0 :: e in open
    requires Override(w, v, g[v], Improved(adj, w, g, closed + {v}, v), g, came, g', came')
    requires Estimates(w, h, v, g[v], Improved(adj, w, g, closed + {v}, v), f, f')
    requires Enqueued(w, h, v, g[v], Improved(adj, w, g, closed + {v}, v), open0, open')
    ensures AStarState(adj, w, h, start, target, g', f', came', open', closed + {v})
  {
    var imp := Improved(adj, w, g, closed + {v}, v);
    assert v !in imp;
    assert start !in imp by {
      if start in imp {
        StepPositive(w, v, start);
      }
    }
    ScoredOverride(adj, w, start, g, came, v, imp, g', came');
    ChainOverride(adj, w, start, g, came, closed, v, imp, g', came');
    forall x | x in closed + {v} ensures x in g' {
      assert x in g;
    }
    ExpandEstimates(adj, w, h, g, f, came, closed, v, g', f', came');
    ExpandOpen(adj, w, h, g, f, came, closed, open, v, open0, g', f', came', open');
    ExpandExpanded(adj, w, g, came, closed, v, g', came');
  }

  lemma ExpandEstimates(adj: Adjacency, w: Weight, h: Heuristic, g: map<int, real>,
                        f: map<int, real>, came: map<int, int>, closed: set<int>, v: int,
                        g': map<int, real>, f': map<int, real>, came': map<int, int>)
    requires v in adj && v in g
    requires f.Keys == g.Keys && (forall u | u in g :: f[u] == g[u] + h(u))
    requires Override(w, v, g[v], Improved(adj, w, g, closed + {v}, v), g, came, g', came')
    requires Estimates(w, h, v, g[v], Improved(adj, w, g, closed + {v}, v), f, f')
    ensures f'.Keys == g'.Keys && (forall u | u in g' :: f'[u] == g'[u] + h(u))
  {
    var imp := Improved(adj, w, g, closed + {v}, v);
    forall u ensures u in f' <==> u in g' {
      assert u in f' <==> u in f || u in imp;
      assert u in g' <==> u in g || u in imp;
    }
    forall u | u in g' ensures f'[u] == g'[u] + h(u) {
      if u in imp {
        assert f'[u] == g[v] + w(v, u) + h(u);
      } else {
        assert f'[u] == f[u];
      }
    }
  }

  lemma ExpandOpen(adj: Adjacency, w: Weight, h: Heuristic, g: map<int, real>,
                   f: map<int, real>, came: map<int, int>, closed: set<int>,
                   open: seq<(int, real)>, v: int, open0: seq<(int, real)>,
                   g': map<int, real>, f': map<int, real>, came': map<int, int>,
                   open': seq<(int, real)>)
    requires v in adj && v in g
    requires f.Keys == g.Keys && Open(g, f, closed, open)
    requires forall e | e in open && e.0 != v :: e in open0
    requires forall e | e in open0 :: e in open
    requires Override(w, v, g[v], Improved(adj, w, g, closed + {v}, v), g, came, g', came')
    requires Estimates(w, h, v, g[v], Improved(adj, w, g, closed + {v}, v), f, f')
    requires Enqueued(w, h, v, g[v], Improved(adj, w, g, closed + {v}, v), open0, open')
    requires f'.Keys == g'.Keys
    ensures Open(g', f', closed + {v}, open')
  {
    var imp := Improved(adj, w, g, closed + {v}, v);
    assert open' == open0 + open'[|open0|..];
    forall e | e in open'[|open0|..] ensures e.0 in imp {
    }
    forall u | u in g' && u !in closed + {v} ensures (u, f'[u]) in open' {
      if u in imp {
        assert (u, f'[u]) in open'[|open0|..];
      } else {
        assert (u, f[u]) in open;
      }
    }
    forall j | 0 <= j < |open'| ensures open'[j].0 in g' {
      var e := open'[j];
      if j < |open0| {
        assert e == open0[j] && e in open;
        var k :| 0 <= k < |open| && open[k] == e;
        var u := e.0;
        assert u in g by { assert open[k].0 in g; }
        assert u in g';
      } else {
        assert e == open'[|open0|..][j - |open0|];
        assert e in open'[|open0|..];
        var u := e.0;
        assert u in imp;
        assert u in g';
      }
    }
  }

  lemma ExpandExpanded(adj: Adjacency, w: Weight, g: map<int, real>, came: map<int, int>,
                       closed: set<int>, v: int, g': map<int, real>, came': map<int, int>)
    requires v in adj && v in g && closed <= g.Keys && Expanded(adj, g, closed)
    requires Override(w, v, g[v], Improved(adj, w, g, closed + {v}, v), g, came, g', came')
    ensures Expanded(adj, g', closed + {v})
  {
    forall u | u in closed + {v} && u in adj ensures forall x | x in adj[u] :: x in g' {
      forall x | x in adj[u] ensures x in g' {
        if u == v && x !in Improved(adj, w, g, closed + {v}, v) && x !in closed + {v} {
          assert x in g;
        }
      }
    }
  }

  /** With the open queue empty, the scored nodes are all closed and closed under
      neighbours, so the target, never closed, is unreachable. */
  lemma Exhausted(adj: Adjacency, w: Weight, h: Heuristic, start: int, target: int,
                  g: map<int, real>, f: map<int, real>, came: map<int, int>, closed: set<int>)
    requires AStarState(adj, w, h, start, target, g, f, came, [], closed)
    ensures !Reachable(adj, start, target)
  {
    forall u | u in g ensures u in closed {
      var none: seq<(int, real)> := [];
      assert (u, f[u]) !in none;
    }
    assert Closed(adj, closed) by {
      forall u | u in closed && u in adj ensures adj[u] <= closed {
        forall x | x in adj[u] ensures x in closed {
          assert x in g;
        }
      }
    }
    if Reachable(adj, start, target) {
      ClosedContainsReachable(adj, closed, start, target);
      assert false;
    }
  }

  // ---- the search ----

  /** `AStar(graph, start, target, weights)`: fails on a missing start, then on a missing
      target; otherwise returns no path and no (infinite) cost exactly when the target is
      unreachable, and else a simple path from start to target whose weight is the
      reported cost. */
  method Search(g: Graph, start: int, target: int, w: Weight, h: Heuristic) returns (r: Result<Route>)
    requires g.Valid() && Positive(w)
    ensures r.Err? <==> start !in g.nodes || target !in g.nodes
    ensures r.Err? ==> r.error == NodeNotFound(if start !in g.nodes then start else target)
    ensures r.Ok? ==> (r.value.Cost.None? <==> !Reachable(g.adj, start, target))
    ensures r.Ok? && r.value.Cost.None? ==> r.value.Path == []
    ensures r.Ok? && r.value.Cost.Some? ==>
              IsRoute(g.adj, w, start, target, r.value.Path, r.value.Cost.value)
    ensures r.Ok? && start == target ==> r.value == Route([start], Some(0.0))
  {
    if start !in g.nodes {
      return Err(NodeNotFound(start));
    }
    if target !in g.nodes {
      return Err(NodeNotFound(target));
    }
    var adj := g.adj;
    var came: map<int, int> := map[];
    var gScore: map<int, real> := map[start := 0.0];
    var fScore: map<int, real> := map[start := h(start)];
    var open: seq<(int, real)> := [(start, fScore[start])];
    var closed: set<int> := {};
    InitialState(adj, w, h, start, target);
    while open != []
      invariant AStarState(adj, w, h, start, target, gScore, fScore, came, open, closed)
      invariant closed <= adj.Keys
      decreases |adj.Keys - closed|, |open|
    {
      var i := ExtractMin(open);
      var current := open[i].0;
      ghost var g0, f0, came0, open1 := gScore, fScore, came, open;
      open := Without(open, i);
      if current in closed {
        SkipStep(adj, w, h, start, target, g0, f0, came0, open1, closed, i);
        continue;
      }
      if current == target {
        var path := Reconstruct(adj, w, gScore, came, start, target);
        if start == target {
          RouteToSelf(adj, w, start, path, gScore[target]);
        }
        return Ok(Route(path, Some(gScore[target])));
      }
      ghost var closed0 := closed;
      closed := closed + {current};
      gScore, fScore, came, open := ExpandNeighbors(adj, w, h, current, closed, gScore, fScore, came, open);
      ExpandStep(adj, w, h, start, target, g0, f0, came0, open1, closed0, current,
                 Without(open1, i), gScore, fScore, came, open);
      Ids.RemoveOneShrinks(adj.Keys, closed0, current);
    }
    Exhausted(adj, w, h, start, target, gScore, fScore, came, closed);
    return Ok(Route([], None));
  }
}
