/** Walks and reachability in an adjacency map: the reference notions against which
    the traversals, the component search and the path finders are specified. */
module Reach {
  import opened Graphs

  /** `p` is a non-empty walk: every vertex is a node, consecutive vertices are neighbours. */
  ghost predicate IsWalk(adj: Adjacency, p: seq<int>) {
    && |p| >= 1
    && (forall i | 0 <= i < |p| :: p[i] in adj)
    && (forall i | 1 <= i < |p| :: p[i] in adj[p[i - 1]])
  }

  /** Some walk leads from `s` to `t`. */
  ghost predicate Reachable(adj: Adjacency, s: int, t: int) {
    exists p :: IsWalk(adj, p) && p[0] == s && p[|p| - 1] == t
  }

  /** Some walk of exactly `n` steps leads from `s` to `t`. */
  ghost predicate WalkOfLength(adj: Adjacency, s: int, t: int, n: nat) {
    exists p :: IsWalk(adj, p) && |p| == n + 1 && p[0] == s && p[n] == t
  }

  /** `n` is the hop distance from `s` to `t`: some walk takes `n` steps and none fewer. */
  ghost predicate HopDistance(adj: Adjacency, s: int, t: int, n: nat) {
    && WalkOfLength(adj, s, t, n)
    && forall m: nat | m < n :: !WalkOfLength(adj, s, t, m)
  }

  /** `S` is closed under taking neighbours. */
  ghost predicate Closed(adj: Adjacency, S: set<int>) {
    forall u | u in S && u in adj :: adj[u] <= S
  }

  lemma ReachableRefl(adj: Adjacency, s: int)
    requires s in adj
    ensures Reachable(adj, s, s)
  {
    assert IsWalk(adj, [s]);
  }

  /** A walk to `u` extends by one step to any neighbour of `u`. */
  lemma ReachableStep(adj: Adjacency, s: int, u: int, v: int)
    requires Reachable(adj, s, u) && u in adj && v in adj[u]
    requires WellFormed(adj)
    ensures Reachable(adj, s, v)
  {
    var p :| IsWalk(adj, p) && p[0] == s && p[|p| - 1] == u;
    var q := p + [v];
    assert q[|q| - 2] == u;
    assert IsWalk(adj, q);
  }

  lemma WalkOfLengthZero(adj: Adjacency, s: int)
    requires s in adj
    ensures WalkOfLength(adj, s, s, 0)
  {
    assert IsWalk(adj, [s]);
  }

  /** A walk of `n` steps to `u` extends to a walk of `n + 1` steps to a neighbour of `u`. */
  lemma WalkOfLengthStep(adj: Adjacency, s: int, u: int, v: int, n: nat)
    requires WalkOfLength(adj, s, u, n) && u in adj && v in adj[u] && v in adj
    ensures WalkOfLength(adj, s, v, n + 1)
  {
    var p :| IsWalk(adj, p) && |p| == n + 1 && p[0] == s && p[n] == u;
    var q := p + [v];
    assert q[n] == u;
    assert IsWalk(adj, q);
  }

  /** Reachability is symmetric in an undirected graph: a walk read backwards is a walk. */
  lemma ReachableSymmetric(adj: Adjacency, s: int, t: int)
    requires WellFormed(adj) && Reachable(adj, s, t)
    ensures Reachable(adj, t, s)
  {
    var p :| IsWalk(adj, p) && p[0] == s && p[|p| - 1] == t;
    var q := seq(|p|, i requires 0 <= i < |p| => p[|p| - 1 - i]);
    forall i | 1 <= i < |q| ensures q[i] in adj[q[i - 1]] {
      var u, v := p[|p| - i - 1], p[|p| - i];
      assert q[i - 1] == v && q[i] == u;
      assert u in adj && v in adj[u];
    }
    assert IsWalk(adj, q);
  }

  /** Two walks that meet join into one. */
  lemma ReachableTransitive(adj: Adjacency, s: int, u: int, t: int)
    requires Reachable(adj, s, u) && Reachable(adj, u, t)
    ensures Reachable(adj, s, t)
  {
    var p :| IsWalk(adj, p) && p[0] == s && p[|p| - 1] == u;
    var q :| IsWalk(adj, q) && q[0] == u && q[|q| - 1] == t;
    var r := p + q[1..];
    forall i | 1 <= i < |r| ensures r[i] in adj[r[i - 1]] {
      if i >= |p| {
        assert r[i] == q[i - |p| + 1];
        assert r[i - 1] == q[i - |p|];
      }
    }
    assert IsWalk(adj, r);
  }

  /** A neighbour-closed set that holds `s` holds every vertex along every walk from `s`. */
  lemma {:induction false} ClosedWalk(adj: Adjacency, S: set<int>, p: seq<int>)
    requires Closed(adj, S) && IsWalk(adj, p) && p[0] in S
    ensures forall i | 0 <= i < |p| :: p[i] in S
  {
    if |p| > 1 {
      var init := p[..|p| - 1];
      assert IsWalk(adj, init);
      ClosedWalk(adj, S, init);
      assert init[|p| - 2] == p[|p| - 2];
      assert p[|p| - 1] in adj[p[|p| - 2]];
      forall i | 0 <= i < |p| ensures p[i] in S {
        if i < |p| - 1 {
          assert p[i] == init[i];
        } else {
          var u := p[|p| - 2];
          assert u == init[|p| - 2] && u in S && u in adj;
          assert p[i] in adj[u] && adj[u] <= S;
        }
      }
    }
  }

  /** A neighbour-closed set that holds `s` holds everything reachable from `s`. */
  lemma ClosedContainsReachable(adj: Adjacency, S: set<int>, s: int, t: int)
    requires Closed(adj, S) && s in S && Reachable(adj, s, t)
    ensures t in S
  {
    var p :| IsWalk(adj, p) && p[0] == s && p[|p| - 1] == t;
    ClosedWalk(adj, S, p);
  }

  /** A set that holds only vertices reachable from `s`, holds `s` and is neighbour-closed
      is exactly the set of vertices reachable from `s`. */
  lemma ReachableSetCharacterised(adj: Adjacency, S: set<int>, s: int)
    requires s in S && Closed(adj, S)
    requires forall x | x in S :: Reachable(adj, s, x)
    ensures forall x :: x in S <==> Reachable(adj, s, x)
  {
    forall x | Reachable(adj, s, x) ensures x in S {
      ClosedContainsReachable(adj, S, s, x);
    }
  }
}
