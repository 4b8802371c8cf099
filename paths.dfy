/** Weighted walks and the pieces the two path finders share: the cost of a walk, the
    predecessor chain a search leaves behind, reading a path back from it, and taking the
    smallest entry out of a priority queue kept as a sequence. */
module Paths {
  import opened Wrappers
  import opened Graphs
  import opened Reach
  import Ids

  /** The weight of the step from the first node to the second. */
  type Weight = (int, int) -> real

  /** Every step costs something. */
  ghost predicate Positive(w: Weight) {
    forall a, b :: w(a, b) > 0.0
  }

  lemma StepPositive(w: Weight, a: int, b: int)
    requires Positive(w)
    ensures w(a, b) > 0.0
  {
  }

  /** The sum of the step weights along `p`. */
  function PathCost(w: Weight, p: seq<int>): real
    decreases |p|
  {
    if |p| <= 1 then 0.0 else w(p[0], p[1]) + PathCost(w, p[1..])
  }

  /** Appending a step adds its weight. */
  lemma {:induction false} PathCostAppend(w: Weight, p: seq<int>, x: int)
    requires |p| >= 1
    ensures PathCost(w, p + [x]) == PathCost(w, p) + w(p[|p| - 1], x)
    decreases |p|
  {
    if |p| > 1 {
      assert (p + [x])[1..] == p[1..] + [x];
      PathCostAppend(w, p[1..], x);
    }
  }

  /** With positive weights no walk costs less than nothing. */
  lemma {:induction false} PathCostNonNegative(w: Weight, p: seq<int>)
    requires Positive(w)
    ensures PathCost(w, p) >= 0.0
    decreases |p|
  {
    if |p| > 1 {
      PathCostNonNegative(w, p[1..]);
      StepPositive(w, p[0], p[1]);
    }
  }

  /** With positive weights a prefix of a walk costs no more than the walk. */
  lemma {:induction false} PathCostPrefix(w: Weight, p: seq<int>, i: int)
    requires Positive(w) && 1 <= i <= |p|
    ensures PathCost(w, p[..i]) <= PathCost(w, p)
    decreases |p|
  {
    if i < |p| {
      var init := p[..|p| - 1];
      assert p == init + [p[|p| - 1]];
      PathCostAppend(w, init, p[|p| - 1]);
      StepPositive(w, init[|init| - 1], p[|p| - 1]);
      assert init[..i] == p[..i];
      PathCostPrefix(w, init, i);
    } else {
      assert p[..i] == p;
    }
  }

  /** Every walk from `s` to `t` costs at least `d`. */
  ghost predicate LowerBound(adj: Adjacency, w: Weight, s: int, t: int, d: real) {
    forall p | IsWalk(adj, p) && p[0] == s && p[|p| - 1] == t :: d <= PathCost(w, p)
  }

  /** `path` is a walk from `s` to `t` visiting no node twice, of total weight `cost`. */
  ghost predicate IsRoute(adj: Adjacency, w: Weight, s: int, t: int, path: seq<int>, cost: real) {
    && IsWalk(adj, path) && path[0] == s && path[|path| - 1] == t
    && Ids.NoDuplicates(path)
    && PathCost(w, path) == cost
  }

  /** A route from a node to itself is that node alone. */
  lemma RouteToSelf(adj: Adjacency, w: Weight, s: int, path: seq<int>, cost: real)
    requires IsRoute(adj, w, s, s, path, cost)
    ensures path == [s] && cost == 0.0
  {
  }

  /** `s` read from its end. */
  function Reversed(s: seq<int>): (r: seq<int>)
    ensures |r| == |s|
    ensures forall i | 0 <= i < |s| :: r[i] == s[|s| - 1 - i]
  {
    if s == [] then [] else Reversed(s[1..]) + [s[0]]
  }

  lemma ReversedAppend(s: seq<int>, x: int)
    ensures Reversed(s + [x]) == [x] + Reversed(s)
  {
  }

  /** What a search leaves in its score and predecessor maps: every scored node but the
      start was reached by a step from a scored predecessor, and its score is that
      predecessor's score plus the step's weight. */
  ghost predicate Chain(adj: Adjacency, w: Weight, score: map<int, real>, pred: map<int, int>, start: int) {
    && start in score && score[start] == 0.0
    && (forall u | u in score :: u in adj)
    && (forall u | u in score && u != start ::
          && u in pred && pred[u] in score && pred[u] in adj && u in adj[pred[u]]
          && score[u] == score[pred[u]] + w(pred[u], u))
  }

  // ---- the state both searches keep ----

  /** A path and its cost; no cost stands for the infinite distance of an unreachable target. */
  datatype Route = Route(Path: seq<int>, Cost: Option<real>)

  /** Every node with a distance is a node reachable from the start, at a non-negative
      distance; the start's distance is 0. */
  ghost predicate Scored(adj: Adjacency, start: int, dist: map<int, real>) {
    && start in dist && dist[start] == 0.0
    && forall u | u in dist :: u in adj && dist[u] >= 0.0 && Reachable(adj, start, u)
  }

  /** The predecessor of every node but the start is settled. */
  ghost predicate SettledChain(adj: Adjacency, w: Weight, start: int, dist: map<int, real>,
                               prev: map<int, int>, done: set<int>) {
    && Chain(adj, w, dist, prev, start)
    && forall u | u in dist && u != start :: u in prev && prev[u] in done
  }

  /** `dist'` and `prev'` are `dist` and `prev` with every node of `imp` given the distance
      `dv + w(v, u)` and the predecessor `v`; no other entry changes. */
  ghost predicate Override(w: Weight, v: int, dv: real, imp: set<int>,
                           dist: map<int, real>, prev: map<int, int>,
                           dist': map<int, real>, prev': map<int, int>) {
    && (forall u :: u in dist' <==> u in dist || u in imp)
    && (forall u | u in dist' :: dist'[u] == if u in imp then dv + w(v, u) else dist[u])
    && (forall u :: u in prev' <==> u in prev || u in imp)
    && (forall u | u in prev' :: prev'[u] == if u in imp then v else prev[u])
  }

  /** A node the override has not handled keeps its distance. */
  lemma UnhandledScore(w: Weight, v: int, gv: real, handled: set<int>, dist: map<int, real>,
                       prev: map<int, int>, dist': map<int, real>, prev': map<int, int>, nb: int)
    requires Override(w, v, gv, handled, dist, prev, dist', prev') && nb !in handled
    ensures nb in dist' <==> nb in dist
    ensures nb in dist ==> dist'[nb] == dist[nb]
  {
  }

  /** Lowering the distances of some neighbours of a scored node keeps the scores. */
  lemma ScoredOverride(adj: Adjacency, w: Weight, start: int, dist: map<int, real>,
                       prev: map<int, int>, v: int, imp: set<int>,
                       dist': map<int, real>, prev': map<int, int>)
    requires WellFormed(adj) && Positive(w) && Scored(adj, start, dist) && v in dist && v in adj
    requires imp <= adj[v] && start !in imp
    requires Override(w, v, dist[v], imp, dist, prev, dist', prev')
    ensures Scored(adj, start, dist')
  {
    forall u | u in imp ensures dist'[u] >= 0.0 && Reachable(adj, start, u) {
      StepPositive(w, v, u);
      ReachableStep(adj, start, v, u);
    }
  }

  /** Giving some unsettled neighbours of `v` the predecessor `v` keeps the chain, with
      `v` settled. */
  lemma ChainOverride(adj: Adjacency, w: Weight, start: int, dist: map<int, real>,
                      prev: map<int, int>, done: set<int>, v: int, imp: set<int>,
                      dist': map<int, real>, prev': map<int, int>)
    requires WellFormed(adj) && Scored(adj, start, dist) && SettledChain(adj, w, start, dist, prev, done)
    requires v in dist && v in adj
    requires imp <= adj[v] && v !in imp && start !in imp && (forall u | u in imp :: u !in done)
    requires Override(w, v, dist[v], imp, dist, prev, dist', prev')
    ensures SettledChain(adj, w, start, dist', prev', done + {v})
  {
    assert dist'[start] == dist[start];
    forall u | u in dist' ensures u in adj {
      if u in imp {
        assert u in adj[v];
      }
    }
    forall u | u in dist' && u != start
      ensures && u in prev' && prev'[u] in dist' && prev'[u] in adj && u in adj[prev'[u]]
              && dist'[u] == dist'[prev'[u]] + w(prev'[u], u)
              && prev'[u] in done + {v}
    {
      if u in imp {
        assert prev'[u] == v && dist'[v] == dist[v];
      } else {
        var p := prev[u];
        assert prev'[u] == p && p in done && p !in imp;
        assert dist'[p] == dist[p];
      }
    }
  }

  /** The state of the read-back: `suffix` is the part already read (a walk ending at the
      target, with no repetition), `cur` the node about to be added before it. */
  ghost predicate ReadBack(adj: Adjacency, w: Weight, score: map<int, real>, target: int,
                           cur: int, suffix: seq<int>) {
    && cur in score
    && (suffix == [] ==> cur == target)
    && (suffix != [] ==> IsWalk(adj, [cur] + suffix) && suffix[|suffix| - 1] == target)
    && Ids.NoDuplicates(suffix) && cur !in suffix
    && (forall x | x in suffix :: x in score && score[cur] < score[x])
    && score[target] == score[cur] + PathCost(w, [cur] + suffix)
  }

  /** One step back along the predecessor map keeps the read-back state. */
  lemma ReadBackStep(adj: Adjacency, w: Weight, score: map<int, real>, pred: map<int, int>,
                     start: int, target: int, cur: int, suffix: seq<int>)
    requires Positive(w) && Chain(adj, w, score, pred, start)
    requires ReadBack(adj, w, score, target, cur, suffix) && cur != start
    ensures cur in pred && ReadBack(adj, w, score, target, pred[cur], [cur] + suffix)
  {
    var p := pred[cur];
    var s := [cur] + suffix;
    assert w(p, cur) > 0.0;
    assert [p] + s == [p, cur] + suffix;
    assert IsWalk(adj, [p] + s) by {
      if |s| > 1 {
        assert ([p] + s)[1..] == s;
      }
    }
    assert PathCost(w, [p] + s) == w(p, cur) + PathCost(w, s);
    assert Ids.NoDuplicates(s);
  }

  /** Arriving at the start, the read-back is a route of the target's score. */
  lemma ReadBackFinished(adj: Adjacency, w: Weight, score: map<int, real>, pred: map<int, int>,
                         start: int, target: int, suffix: seq<int>)
    requires Chain(adj, w, score, pred, start) && ReadBack(adj, w, score, target, start, suffix)
    ensures IsRoute(adj, w, start, target, [start] + suffix, score[target])
  {
    var p := [start] + suffix;
    if suffix == [] {
      assert IsWalk(adj, p);
    }
    assert Ids.NoDuplicates(p) by {
      forall i, j | 0 <= i < j < |p| ensures p[i] != p[j] {
        if i > 0 {
          assert p[i] == suffix[i - 1] && p[j] == suffix[j - 1];
        } else {
          assert p[j] == suffix[j - 1];
          assert p[j] in suffix;
        }
      }
    }
  }

  /** A node outside the reversal is outside the listing, and the listing grows by one. */
  lemma ReversedElements(rev: seq<int>, x: int)
    requires x !in Reversed(rev)
    ensures x !in Ids.Elements(rev)
    ensures Ids.Elements(rev + [x]) == Ids.Elements(rev) + {x}
  {
    forall i | 0 <= i < |rev| ensures rev[i] != x {
      assert rev[i] == Reversed(rev)[|rev| - 1 - i];
    }
  }

  /** The path read back from the predecessor map, target first, then reversed
      (path reconstruction in both path finders). With positive weights every
      predecessor has a smaller score, so the read-back ends at the start, repeats no
      node, and costs exactly the target's score. */
  method Reconstruct(adj: Adjacency, w: Weight, score: map<int, real>, pred: map<int, int>,
                     start: int, target: int)
    returns (path: seq<int>)
    requires Positive(w) && Chain(adj, w, score, pred, start) && target in score
    ensures IsRoute(adj, w, start, target, path, score[target])
  {
    var rev: seq<int> := [];
    var cur := target;
    ghost var suffix: seq<int> := [];
    while true
      invariant suffix == Reversed(rev)
      invariant ReadBack(adj, w, score, target, cur, suffix)
      decreases |score.Keys - Ids.Elements(rev)|
    {
      ReversedElements(rev, cur);
      ReversedAppend(rev, cur);
      Ids.RemoveOneShrinks(score.Keys, Ids.Elements(rev), cur);
      if cur == start {
        ReadBackFinished(adj, w, score, pred, start, target, suffix);
        rev := rev + [cur];
        suffix := [cur] + suffix;
        break;
      }
      ReadBackStep(adj, w, score, pred, start, target, cur, suffix);
      rev := rev + [cur];
      suffix := [cur] + suffix;
      if cur !in pred {
        break;
      }
      cur := pred[cur];
    }
    path := Reversed(rev);
  }

  /** An entry of the queue with the smallest priority (.NET PriorityQueue.Dequeue; which
      of several equal minima comes out is not fixed). */
  method ExtractMin(pq: seq<(int, real)>) returns (i: nat)
    requires pq != []
    ensures i < |pq| && forall j | 0 <= j < |pq| :: pq[i].1 <= pq[j].1
  {
    i := 0;
    for k := 1 to |pq|
      invariant i < |pq| && forall j | 0 <= j < k :: pq[i].1 <= pq[j].1
    {
      if pq[k].1 < pq[i].1 {
        i := k;
      }
    }
  }

  /** The queue without its entry at `i`; every other entry stays. */
  function Without(pq: seq<(int, real)>, i: nat): (r: seq<(int, real)>)
    requires i < |pq|
    ensures |r| == |pq| - 1
    ensures forall e | e in pq && e != pq[i] :: e in r
    ensures forall e | e in r :: e in pq
  {
    pq[..i] + pq[i + 1..]
  }
}
