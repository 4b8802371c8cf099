/** Breadth-first and depth-first traversal from a start node (Algorithms/Traversals.cs).
    The neighbour set of a node is enumerated in an unspecified order (a hash set in
    the analyzer); the breadth-first search takes whichever neighbour comes next. */
module Traversals {
  import opened Wrappers
  import opened Graphs
  import opened Reach
  import Ids

  /** The vertex at position `i` is a neighbour of a vertex listed before it. */
  ghost predicate FoundFromEarlier(adj: Adjacency, s: seq<int>, i: int)
    requires 0 <= i < |s|
  {
    exists j | 0 <= j < i :: s[j] in adj && s[i] in adj[s[j]]
  }

  /** Every vertex after the first is a neighbour of some vertex listed before it. */
  ghost predicate DiscoveredInOrder(adj: Adjacency, s: seq<int>) {
    forall i | 0 < i < |s| :: FoundFromEarlier(adj, s, i)
  }

  /** Appending neighbours of an already listed vertex keeps the discovery property. */
  lemma DiscoveredAppend(adj: Adjacency, s: seq<int>, added: seq<int>, j: int)
    requires DiscoveredInOrder(adj, s) && 0 <= j < |s| && s[j] in adj
    requires forall k | 0 <= k < |added| :: added[k] in adj[s[j]]
    ensures DiscoveredInOrder(adj, s + added)
  {
    var t := s + added;
    forall i | 0 < i < |t| ensures FoundFromEarlier(adj, t, i) {
      if i < |s| {
        assert FoundFromEarlier(adj, s, i);
        var k :| 0 <= k < i && s[k] in adj && s[i] in adj[s[k]];
        assert t[k] == s[k] && t[i] == s[i];
      } else {
        assert t[j] == s[j] && t[i] == added[i - |s|];
      }
    }
  }

  lemma NoDuplicatesConcat(s: seq<int>, added: seq<int>)
    requires Ids.NoDuplicates(s) && Ids.NoDuplicates(added)
    requires forall k | 0 <= k < |added| :: added[k] !in s
    ensures Ids.NoDuplicates(s + added)
  {
    var t := s + added;
    forall i, j | 0 <= i < j < |t| ensures t[i] != t[j] {
      if i < |s| && j >= |s| {
        assert t[i] in s;
        assert t[j] == added[j - |s|];
      }
    }
  }

  /** The inner loop of the breadth-first search: each neighbour of `v` not yet seen
      is marked seen and queued, in whatever order the neighbour set yields. */
  method EnqueueUnseen(adj: Adjacency, v: int, visited: set<int>, q: seq<int>)
    returns (visited': set<int>, q': seq<int>, added: seq<int>)
    requires v in adj
    ensures visited' == visited + adj[v]
    ensures q' == q + added
    ensures Ids.NoDuplicates(added)
    ensures forall x :: x in added <==> x in adj[v] && x !in visited
  {
    visited', q', added := visited, q, [];
    var rest := adj[v];
    while rest != {}
      invariant rest <= adj[v]
      invariant visited' == visited + (adj[v] - rest)
      invariant q' == q + added
      invariant Ids.NoDuplicates(added)
      invariant forall x :: x in added <==> x in adj[v] - rest && x !in visited
      decreases rest
    {
      ghost var w := Ids.Pick(rest);
      var nb :| nb in rest;
      rest := rest - {nb};
      if nb !in visited' {
        visited' := visited' + {nb};
        q' := q' + [nb];
        added := added + [nb];
      } else {
        visited' := visited' + {nb};
      }
    }
  }

  // ---- breadth-first levels ----

  /** The vertices with a level are exactly those of `all`. */
  ghost predicate LevelKeys(all: seq<int>, level: map<int, nat>) {
    forall x :: x in level <==> x in all
  }

  /** Levels never decrease along `s`. */
  ghost predicate LevelsSorted(s: seq<int>, level: map<int, nat>) {
    forall i, j | 0 <= i < j < |s| :: s[i] in level && s[j] in level && level[s[i]] <= level[s[j]]
  }

  /** The queue `q`, which ends `all`, spans at most two adjacent levels: the last vertex
      is at most one level below the head of the queue. */
  ghost predicate QueueSpan(all: seq<int>, q: seq<int>, level: map<int, nat>) {
    q != [] ==> all != [] && all[|all| - 1] in level && q[0] in level && level[all[|all| - 1]] <= level[q[0]] + 1
  }

  /** Every neighbour of a vertex of `done` has a level at most one deeper than it. */
  ghost predicate NeighboursBounded(adj: Adjacency, done: seq<int>, level: map<int, nat>) {
    forall u | u in done :: u in adj && u in level && forall x | x in adj[u] :: x in level && level[x] <= level[u] + 1
  }

  /** Every level is the length of some walk from the start. */
  ghost predicate LevelWalks(adj: Adjacency, start: int, level: map<int, nat>) {
    forall x | x in level :: WalkOfLength(adj, start, x, level[x])
  }

  /** The ghost bookkeeping of a breadth-first search that has listed `order` and holds
      `q` in its queue: the vertices with a level are exactly those listed or queued, the
      start is at level 0 and every level is the length of some walk from the start;
      levels never decrease along listing and queue, the queue spans at most two adjacent
      levels, and every neighbour of a listed vertex is at most one level deeper. */
  ghost predicate Levelled(adj: Adjacency, start: int, order: seq<int>, q: seq<int>, level: map<int, nat>) {
    && LevelKeys(order + q, level)
    && start in level && level[start] == 0
    && LevelsSorted(order + q, level)
    && QueueSpan(order + q, q, level)
    && NeighboursBounded(adj, order, level)
    && LevelWalks(adj, start, level)
  }

  /** `level` with every vertex of `added` put at level `lv`. */
  ghost function Deepen(level: map<int, nat>, added: seq<int>, lv: nat): (level': map<int, nat>)
    ensures forall x :: x in level' <==> x in level || x in added
    ensures forall x | x in added :: level'[x] == lv
    ensures forall x | x in level && x !in added :: level'[x] == level[x]
  {
    level + map x | x in added :: lv
  }

  /** No vertex listed or queued is more than one level below the head of the queue. */
  lemma LevelsBelow(order: seq<int>, q: seq<int>, level: map<int, nat>)
    requires q != [] && LevelsSorted(order + q, level) && QueueSpan(order + q, q, level)
    ensures forall x | x in order + q :: x in level && level[x] <= level[q[0]] + 1
  {
    var all := order + q;
    forall x | x in all ensures x in level && level[x] <= level[q[0]] + 1 {
      var i :| 0 <= i < |all| && all[i] == x;
      if i < |all| - 1 {
        assert level[all[i]] <= level[all[|all| - 1]];
      }
    }
  }

  /** Appending vertices without a level at a level no lower than any present keeps
      levels sorted. */
  lemma LevelsSortedAppend(s: seq<int>, added: seq<int>, level: map<int, nat>, lv: nat)
    requires LevelsSorted(s, level)
    requires forall x | x in s :: x in level && level[x] <= lv
    requires forall x | x in added :: x !in level
    ensures LevelsSorted(s + added, Deepen(level, added, lv))
  {
    var level' := Deepen(level, added, lv);
    var t := s + added;
    forall x | x in s ensures x in level' && level'[x] == level[x] <= lv {
      assert x !in added;
    }
    forall i, j | 0 <= i < j < |t| ensures t[i] in level' && t[j] in level' && level'[t[i]] <= level'[t[j]] {
      if j < |s| {
        assert t[i] == s[i] && s[i] in s && t[j] == s[j] && s[j] in s;
      } else if i < |s| {
        assert t[i] == s[i] && s[i] in s && t[j] in added;
      } else {
        assert t[i] in added && t[j] in added;
      }
    }
  }

  /** Taking the head off the queue and appending vertices one level below it keeps the
      queue within two adjacent levels. */
  lemma QueueSpanStep(order: seq<int>, q: seq<int>, level: map<int, nat>, added: seq<int>)
    requires q != [] && LevelsSorted(order + q, level) && QueueSpan(order + q, q, level)
    requires forall x | x in added :: x !in level
    ensures q[0] in level
    ensures QueueSpan((order + [q[0]]) + (q[1..] + added), q[1..] + added, Deepen(level, added, level[q[0]] + 1))
  {
    var all := order + q;
    var lv := level[q[0]] + 1;
    var level' := Deepen(level, added, lv);
    var all', q' := (order + [q[0]]) + (q[1..] + added), q[1..] + added;
    assert all' == all + added;
    if q' != [] {
      LevelsBelow(order, q, level);
      assert all'[|all'| - 1] in level' && level'[all'[|all'| - 1]] <= lv by {
        if added != [] {
          assert all'[|all'| - 1] in added;
        } else {
          assert all'[|all'| - 1] == all[|all| - 1];
        }
      }
      if |q| > 1 {
        assert q'[0] == q[1] && all[|order|] == q[0] && all[|order| + 1] == q[1];
      } else {
        assert q'[0] in added;
      }
    }
  }

  /** Listing `v`, whose neighbours are all listed, queued or just added one level below
      it, keeps every neighbour of a listed vertex at most one level deeper. */
  lemma NeighboursBoundedStep(adj: Adjacency, order: seq<int>, v: int, level: map<int, nat>, added: seq<int>)
    requires NeighboursBounded(adj, order, level) && v in adj && v in level
    requires forall x | x in adj[v] && x !in added :: x in level && level[x] <= level[v] + 1
    requires forall x | x in added :: x !in level
    ensures NeighboursBounded(adj, order + [v], Deepen(level, added, level[v] + 1))
  {
    var level' := Deepen(level, added, level[v] + 1);
    forall u | u in order + [v]
      ensures u in adj && u in level' && forall x | x in adj[u] :: x in level' && level'[x] <= level'[u] + 1
    {
      if u in order {
        forall x | x in adj[u] ensures x in level' && level'[x] <= level'[u] + 1 {
          assert x in level;
        }
      }
    }
  }

  /** Vertices put one level below a neighbour `v` of theirs keep every level a walk length. */
  lemma LevelWalksStep(adj: Adjacency, start: int, v: int, level: map<int, nat>, added: seq<int>)
    requires WellFormed(adj) && LevelWalks(adj, start, level) && v in level && v in adj
    requires forall x | x in added :: x in adj[v]
    ensures LevelWalks(adj, start, Deepen(level, added, level[v] + 1))
  {
    var level' := Deepen(level, added, level[v] + 1);
    forall x | x in level' ensures WalkOfLength(adj, start, x, level'[x]) {
      if x in added {
        WalkOfLengthStep(adj, start, v, x, level[v]);
      }
    }
  }

  /** Listing the head `v` of the queue and queueing its unseen neighbours at one level
      below `v` keeps the bookkeeping. */
  lemma LevelledStep(adj: Adjacency, start: int, order: seq<int>, q: seq<int>, level: map<int, nat>, added: seq<int>)
    requires WellFormed(adj) && q != [] && q[0] in adj
    requires Levelled(adj, start, order, q, level)
    requires forall x :: x in added <==> x in adj[q[0]] && x !in order + q
    ensures q[0] in level
    ensures Levelled(adj, start, order + [q[0]], q[1..] + added, Deepen(level, added, level[q[0]] + 1))
  {
    var v := q[0];
    assert v in order + q;
    var lv := level[v] + 1;
    assert forall x | x in added :: x !in level;
    LevelsBelow(order, q, level);
    assert (order + [v]) + (q[1..] + added) == (order + q) + added;
    LevelsSortedAppend(order + q, added, level, lv);
    QueueSpanStep(order, q, level, added);
    NeighboursBoundedStep(adj, order, v, level, added);
    LevelWalksStep(adj, start, v, level, added);
  }

  /** Along a walk from the start, levels grow by at most one per step. */
  lemma {:induction false} LevelBound(adj: Adjacency, start: int, level: map<int, nat>, p: seq<int>)
    requires start in level && level[start] == 0
    requires forall u | u in level :: u in adj && forall x | x in adj[u] :: x in level && level[x] <= level[u] + 1
    requires IsWalk(adj, p) && p[0] == start
    ensures p[|p| - 1] in level && level[p[|p| - 1]] <= |p| - 1
  {
    if |p| > 1 {
      var p' := p[..|p| - 1];
      assert IsWalk(adj, p');
      LevelBound(adj, start, level, p');
      assert p[|p| - 1] in adj[p'[|p'| - 1]];
    }
  }

  /** When the queue is empty, every listed vertex's level is its hop distance. */
  lemma LevelledDone(adj: Adjacency, start: int, order: seq<int>, level: map<int, nat>)
    requires Levelled(adj, start, order, [], level)
    ensures forall x | x in order :: x in level && HopDistance(adj, start, x, level[x])
  {
    assert order + [] == order;
    forall x | x in order ensures x in level && HopDistance(adj, start, x, level[x]) {
      forall m: nat | WalkOfLength(adj, start, x, m) ensures level[x] <= m {
        var p :| IsWalk(adj, p) && |p| == m + 1 && p[0] == start && p[m] == x;
        LevelBound(adj, start, level, p);
      }
    }
  }

  /** The state of a breadth-first search from `start` that has listed `order`, holds
      `q` in its queue and has marked `visited`: listing and queue hold the start first,
      no vertex twice and exactly the visited vertices, all of them reachable; every
      neighbour of a listed vertex is visited; every vertex after the start is found from
      an earlier one. */
  ghost predicate BfsState(adj: Adjacency, start: int, order: seq<int>, q: seq<int>, visited: set<int>) {
    && order + q != [] && (order + q)[0] == start
    && (forall x :: x in visited <==> x in order + q)
    && Ids.NoDuplicates(order + q)
    && visited <= adj.Keys
    && (forall x | x in visited :: Reachable(adj, start, x))
    && (forall u | u in order :: u in adj && adj[u] <= visited)
    && DiscoveredInOrder(adj, order + q)
  }

  /** One round of the breadth-first search: list the head `v` of the queue and queue
      `added`, its unseen neighbours. */
  method BfsStep(adj: Adjacency, ghost start: int, order: seq<int>, q: seq<int>, visited: set<int>)
    returns (order': seq<int>, q': seq<int>, visited': set<int>, added: seq<int>)
    requires WellFormed(adj) && q != [] && BfsState(adj, start, order, q, visited)
    ensures q[0] in adj && q[0] !in order
    ensures order' == order + [q[0]] && q' == q[1..] + added
    ensures forall x :: x in added <==> x in adj[q[0]] && x !in order + q
    ensures BfsState(adj, start, order', q', visited')
  {
    ghost var all := order + q;
    var v := q[0];
    assert all[|order|] == v;
    forall k | 0 <= k < |order| ensures order[k] != v {
      assert all[k] == order[k];
    }
    assert v in visited && v in adj;
    order' := order + [v];
    visited', q', added := EnqueueUnseen(adj, v, visited, q[1..]);
    assert order' + q' == all + added;
    forall k | 0 <= k < |added| ensures added[k] in adj[all[|order|]] && added[k] !in all {
      var x := added[k];
      assert x in added;
      assert x in adj[v] && x !in visited && x !in all;
    }
    DiscoveredAppend(adj, all, added, |order|);
    NoDuplicatesConcat(all, added);
    forall x | x in added ensures Reachable(adj, start, x) {
      ReachableStep(adj, start, v, x);
    }
  }

  /** The order in which a breadth-first search from `start` visits the nodes:
      the start first, each reachable node exactly once, nothing else, every node
      after the first found as the neighbour of an earlier one, and the nodes in
      order of their hop distance from the start (`levels`). */
  method BFS(g: Graph, start: int) returns (r: Result<seq<int>>, ghost levels: map<int, nat>)
    requires g.Valid()
    ensures r.Err? <==> start !in g.nodes
    ensures r.Err? ==> r.error == NodeNotFound(start)
    ensures r.Ok? ==>
      && r.value != [] && r.value[0] == start
      && Ids.NoDuplicates(r.value)
      && (forall v :: v in r.value <==> Reachable(g.adj, start, v))
      && DiscoveredInOrder(g.adj, r.value)
    ensures r.Ok? ==> forall v | v in r.value :: v in levels && HopDistance(g.adj, start, v, levels[v])
    ensures r.Ok? ==> LevelsSorted(r.value, levels)
  {
    levels := map[];
    if start !in g.nodes {
      return Err(NodeNotFound(start)), levels;
    }
    var adj := g.adj;
    var order: seq<int> := [];
    var visited: set<int> := {start};
    var q: seq<int> := [start];
    ghost var level: map<int, nat> := map[start := 0];
    ReachableRefl(adj, start);
    WalkOfLengthZero(adj, start);
    assert order + q == [start];
    while q != []
      invariant BfsState(adj, start, order, q, visited)
      invariant Levelled(adj, start, order, q, level)
      decreases adj.Keys - Ids.Elements(order)
    {
      ghost var unvisited := adj.Keys - Ids.Elements(order);
      ghost var order0, q0 := order, q;
      var added;
      order, q, visited, added := BfsStep(adj, start, order, q, visited);
      LevelledStep(adj, start, order0, q0, level, added);
      level := Deepen(level, added, level[q0[0]] + 1);
      assert adj.Keys - Ids.Elements(order) == unvisited - {q0[0]};
    }
    assert order + q == order;
    ReachableSetCharacterised(adj, visited, start);
    LevelledDone(adj, start, order, level);
    return Ok(order), level;
  }

  // ---- depth-first search ----

  /** Position `i` of a depth-first listing `s`: `s[i]` is new, and it is the smallest
      unlisted neighbour of `s[j]`, where `s[j]` is the most recently listed vertex that
      still has an unlisted neighbour. */
  ghost predicate DfsNext(adj: Adjacency, s: seq<int>, i: int)
    requires 0 <= i < |s|
  {
    exists j | 0 <= j < i :: DfsNextFrom(adj, s, i, j)
  }

  ghost predicate DfsNextFrom(adj: Adjacency, s: seq<int>, i: int, j: int)
    requires 0 <= j < i < |s|
  {
    && s[j] in adj && s[i] in adj[s[j]] && s[i] !in s[..i]
    && (forall x | x in adj[s[j]] && x !in s[..i] :: s[i] <= x)
    && (forall k, x | j < k < i && s[k] in adj && x in adj[s[k]] :: x in s[..i])
  }

  /** The whole listing is a depth-first listing from its first vertex. */
  ghost predicate IsDfsOrder(adj: Adjacency, s: seq<int>) {
    forall i | 0 < i < |s| :: DfsNext(adj, s, i)
  }

  /** The depth-first conditions fix the next vertex once the listing so far is fixed. */
  lemma DfsNextUnique(adj: Adjacency, s: seq<int>, t: seq<int>, i: int)
    requires 0 < i < |s| && i < |t| && s[..i] == t[..i]
    requires DfsNext(adj, s, i) && DfsNext(adj, t, i)
    ensures s[i] == t[i]
  {
    var j :| 0 <= j < i && DfsNextFrom(adj, s, i, j);
    var j' :| 0 <= j' < i && DfsNextFrom(adj, t, i, j');
    assert s[j'] == t[j'] && s[j] == t[j];
    if j != j' {
      assert false;
    }
    assert s[i] <= t[i] && t[i] <= s[i];
  }

  lemma {:induction false} DfsPrefixAgree(adj: Adjacency, s: seq<int>, t: seq<int>, i: nat)
    requires IsDfsOrder(adj, s) && IsDfsOrder(adj, t)
    requires s != [] && t != [] && s[0] == t[0]
    requires i <= |s| && i <= |t|
    ensures s[..i] == t[..i]
  {
    if i > 1 {
      DfsPrefixAgree(adj, s, t, i - 1);
      DfsNextUnique(adj, s, t, i - 1);
      assert s[..i] == s[..i - 1] + [s[i - 1]];
      assert t[..i] == t[..i - 1] + [t[i - 1]];
    } else if i == 1 {
      assert s[..1] == [s[0]] && t[..1] == [t[0]];
    }
  }

  /** A depth-first listing is determined by the graph and the start: two listings
      of the same vertices from the same start are equal, so the result does not
      depend on the order in which neighbour sets are enumerated. */
  lemma DfsOrderUnique(adj: Adjacency, s: seq<int>, t: seq<int>)
    requires IsDfsOrder(adj, s) && IsDfsOrder(adj, t)
    requires s != [] && t != [] && s[0] == t[0]
    requires Ids.NoDuplicates(s) && Ids.NoDuplicates(t)
    requires forall x :: x in s <==> x in t
    ensures s == t
  {
    if |s| < |t| {
      var x := t[|s|];
      assert x in t;
      DfsPrefixAgree(adj, s, t, |s|);
      assert false;
    } else if |t| < |s| {
      var x := s[|t|];
      assert x in s;
      DfsPrefixAgree(adj, s, t, |t|);
      assert false;
    } else {
      DfsPrefixAgree(adj, s, t, |s|);
      assert s == s[..|s|] && t == t[..|t|];
    }
  }

  /** The shape of the explicit stack: every entry was pushed by a listed vertex
      (its owner, -1 for the initial start entry) and is a neighbour of it; owners never
      decrease towards the top; the entries of one owner decrease towards the top. */
  ghost predicate StackShape(adj: Adjacency, start: int, order: seq<int>, stack: seq<int>, owner: seq<int>) {
    && |owner| == |stack|
    && (forall k | 0 <= k < |owner| :: -1 <= owner[k] < |order|)
    && (forall k, l | 0 <= k < l < |owner| :: owner[k] <= owner[l])
    && (forall k, l | 0 <= k < l < |owner| && owner[k] == owner[l] :: stack[k] > stack[l])
    && (forall k | 0 <= k < |owner| && owner[k] < 0 :: stack[k] == start)
    && (forall k | 0 <= k < |owner| && 0 <= owner[k] :: order[owner[k]] in adj && stack[k] in adj[order[owner[k]]])
  }

  /** Every unlisted neighbour of a listed vertex waits on the stack under that vertex. */
  ghost predicate StackComplete(adj: Adjacency, order: seq<int>, stack: seq<int>, owner: seq<int>)
    requires |owner| == |stack|
  {
    forall j, x | 0 <= j < |order| && order[j] in adj && x in adj[order[j]] && x !in order ::
      exists k | 0 <= k < |stack| :: owner[k] == j && stack[k] == x
  }

  /** Popping an entry whose vertex is already listed keeps the stack invariants. */
  lemma PopListedKeeps(adj: Adjacency, start: int, order: seq<int>, stack: seq<int>, owner: seq<int>)
    requires StackShape(adj, start, order, stack, owner) && StackComplete(adj, order, stack, owner)
    requires stack != [] && stack[|stack| - 1] in order
    ensures var n := |stack| - 1;
            StackShape(adj, start, order, stack[..n], owner[..n])
            && StackComplete(adj, order, stack[..n], owner[..n])
  {
    var n := |stack| - 1;
    forall j, x | 0 <= j < |order| && order[j] in adj && x in adj[order[j]] && x !in order
      ensures exists k | 0 <= k < n :: owner[..n][k] == j && stack[..n][k] == x
    {
      var k :| 0 <= k < |stack| && owner[k] == j && stack[k] == x;
      assert k != n;
      assert owner[..n][k] == j && stack[..n][k] == x;
    }
  }

  /** The unlisted top of the stack is the vertex a depth-first listing takes next. */
  lemma TopIsDfsNext(adj: Adjacency, start: int, order: seq<int>, stack: seq<int>, owner: seq<int>)
    requires StackShape(adj, start, order, stack, owner) && StackComplete(adj, order, stack, owner)
    requires stack != [] && stack[|stack| - 1] !in order && 0 <= owner[|stack| - 1]
    ensures DfsNext(adj, order + [stack[|stack| - 1]], |order|)
  {
    var n := |stack| - 1;
    var t, o := stack[n], owner[n];
    var s := order + [t];
    assert s[..|order|] == order;
    assert s[o] == order[o] && s[|order|] == t;
    forall x | x in adj[s[o]] && x !in s[..|order|] ensures t <= x {
      var k :| 0 <= k < |stack| && owner[k] == o && stack[k] == x;
      if k != n {
        assert stack[k] > stack[n];
      }
    }
    forall k, x | o < k < |order| && s[k] in adj && x in adj[s[k]] ensures x in s[..|order|] {
      assert s[k] == order[k];
      if x !in order {
        assert false;
      }
    }
    assert DfsNextFrom(adj, s, |order|, o);
  }

  /** Listing the unlisted top and pushing its unlisted neighbours, largest first,
      keeps the stack invariants. */
  lemma VisitKeeps(adj: Adjacency, start: int, order: seq<int>, stack: seq<int>, owner: seq<int>,
                   pushed: seq<int>)
    requires WellFormed(adj)
    requires StackShape(adj, start, order, stack, owner) && StackComplete(adj, order, stack, owner)
    requires stack != [] && stack[|stack| - 1] !in order && stack[|stack| - 1] in adj
    requires forall x :: x in pushed <==> x in adj[stack[|stack| - 1]] && x !in order + [stack[|stack| - 1]]
    requires forall a, b | 0 <= a < b < |pushed| :: pushed[a] > pushed[b]
    ensures var n := |stack| - 1;
            var order' := order + [stack[n]];
            var owner' := owner[..n] + seq(|pushed|, _ => |order|);
            StackShape(adj, start, order', stack[..n] + pushed, owner')
            && StackComplete(adj, order', stack[..n] + pushed, owner')
  {
    var n := |stack| - 1;
    var v := stack[n];
    var order' := order + [v];
    var stack' := stack[..n] + pushed;
    var owner' := owner[..n] + seq(|pushed|, _ => |order|);
    forall k | 0 <= k < |owner'| && 0 <= owner'[k]
      ensures order'[owner'[k]] in adj && stack'[k] in adj[order'[owner'[k]]]
    {
      if k < n {
        assert owner'[k] == owner[k] && stack'[k] == stack[k];
        assert order'[owner[k]] == order[owner[k]];
      } else {
        assert owner'[k] == |order| && order'[|order|] == v;
        assert stack'[k] == pushed[k - n] && pushed[k - n] in pushed;
      }
    }
    forall k, l | 0 <= k < l < |owner'| ensures owner'[k] <= owner'[l] {
      if l < n { assert owner'[k] == owner[k] && owner'[l] == owner[l]; }
      else if k < n { assert owner'[k] == owner[k]; }
    }
    forall k, l | 0 <= k < l < |owner'| && owner'[k] == owner'[l] ensures stack'[k] > stack'[l] {
      if l < n {
        assert owner'[k] == owner[k] && owner'[l] == owner[l];
      } else if n <= k {
        assert stack'[k] == pushed[k - n] && stack'[l] == pushed[l - n];
      }
    }
    forall k | 0 <= k < |owner'| && owner'[k] < 0 ensures stack'[k] == start {
      assert k < n && owner'[k] == owner[k];
    }
    assert StackShape(adj, start, order', stack', owner');
    forall j, x | 0 <= j < |order'| && order'[j] in adj && x in adj[order'[j]] && x !in order'
      ensures exists k | 0 <= k < |stack'| :: owner'[k] == j && stack'[k] == x
    {
      if j < |order| {
        assert order'[j] == order[j];
        var k :| 0 <= k < |stack| && owner[k] == j && stack[k] == x;
        assert k != n;
        assert owner'[k] == j && stack'[k] == x;
      } else {
        assert order'[j] == v && x in pushed;
        var p :| 0 <= p < |pushed| && pushed[p] == x;
        assert owner'[n + p] == j && stack'[n + p] == x;
      }
    }
  }

  /** Appending a vertex keeps the depth-first conditions of the earlier positions. */
  lemma DfsOrderAppend(adj: Adjacency, s: seq<int>, v: int)
    requires IsDfsOrder(adj, s)
    requires s != [] ==> DfsNext(adj, s + [v], |s|)
    ensures IsDfsOrder(adj, s + [v])
  {
    var t := s + [v];
    forall i | 0 < i < |t| ensures DfsNext(adj, t, i) {
      if i < |s| {
        assert DfsNext(adj, s, i);
        var j :| 0 <= j < i && DfsNextFrom(adj, s, i, j);
        assert t[..i] == s[..i];
        forall k | 0 <= k <= i ensures t[k] == s[k] { }
        assert DfsNextFrom(adj, t, i, j);
      }
    }
  }

  /** The unlisted neighbours of a vertex, pushed largest first so that the smallest
      comes off the stack first. */
  method PushUnlisted(nbs: seq<int>, visited: set<int>, stack: seq<int>)
    returns (stack': seq<int>, pushed: seq<int>)
    requires Ids.StrictlyIncreasing(nbs)
    ensures stack' == stack + pushed
    ensures forall x :: x in pushed <==> x in nbs && x !in visited
    ensures forall a, b | 0 <= a < b < |pushed| :: pushed[a] > pushed[b]
  {
    stack', pushed := stack, [];
    var i := |nbs|;
    while i > 0
      invariant 0 <= i <= |nbs|
      invariant stack' == stack + pushed
      invariant forall x :: x in pushed <==> x in nbs[i..] && x !in visited
      invariant forall a, b | 0 <= a < b < |pushed| :: pushed[a] > pushed[b]
      invariant forall a, c | 0 <= a < |pushed| && 0 <= c < i :: pushed[a] > nbs[c]
    {
      i := i - 1;
      assert nbs[i..] == [nbs[i]] + nbs[i + 1..];
      if nbs[i] !in visited {
        stack' := stack' + [nbs[i]];
        pushed := pushed + [nbs[i]];
      }
    }
  }

  /** The loop invariant of the depth-first search. */
  ghost predicate DfsState(adj: Adjacency, start: int, order: seq<int>, visited: set<int>,
                           stack: seq<int>, owner: seq<int>)
  {
    && WellFormed(adj) && start in adj
    && StackShape(adj, start, order, stack, owner)
    && StackComplete(adj, order, stack, owner)
    && (forall x :: x in visited <==> x in order)
    && Ids.NoDuplicates(order)
    && (order == [] ==> stack == [start])
    && (order != [] ==> order[0] == start)
    && visited <= adj.Keys
    && (forall x | x in visited :: Reachable(adj, start, x))
    && IsDfsOrder(adj, order)
  }

  /** Every stack entry is a node. */
  lemma DfsStackInGraph(adj: Adjacency, start: int, order: seq<int>, visited: set<int>,
                        stack: seq<int>, owner: seq<int>, k: int)
    requires DfsState(adj, start, order, visited, stack, owner) && 0 <= k < |stack|
    ensures stack[k] in adj
  {
    if owner[k] >= 0 {
      var u := order[owner[k]];
      assert u in adj && stack[k] in adj[u];
      assert adj[u] <= adj.Keys;
    }
  }

  lemma DfsPopListed(adj: Adjacency, start: int, order: seq<int>, visited: set<int>,
                     stack: seq<int>, owner: seq<int>)
    requires DfsState(adj, start, order, visited, stack, owner)
    requires stack != [] && stack[|stack| - 1] in visited
    ensures var n := |stack| - 1;
            DfsState(adj, start, order, visited, stack[..n], owner[..n])
  {
    PopListedKeeps(adj, start, order, stack, owner);
  }

  lemma DfsVisit(adj: Adjacency, start: int, order: seq<int>, visited: set<int>,
                 stack: seq<int>, owner: seq<int>, pushed: seq<int>)
    requires DfsState(adj, start, order, visited, stack, owner)
    requires stack != [] && stack[|stack| - 1] !in visited && stack[|stack| - 1] in adj
    requires forall x :: x in pushed <==> x in adj[stack[|stack| - 1]] && x !in visited + {stack[|stack| - 1]}
    requires forall a, b | 0 <= a < b < |pushed| :: pushed[a] > pushed[b]
    ensures var n := |stack| - 1;
            var v := stack[n];
            && v in adj
            && DfsState(adj, start, order + [v], visited + {v}, stack[..n] + pushed,
                        owner[..n] + seq(|pushed|, _ => |order|))
            && adj.Keys - Ids.Elements(order + [v]) < adj.Keys - Ids.Elements(order)
  {
    var n := |stack| - 1;
    var v := stack[n];
    var o := owner[n];
    if order == [] {
      assert v == start;
      ReachableRefl(adj, start);
    } else {
      if o < 0 {
        assert false;
      }
      var u := order[o];
      assert u in order && u in visited;
      ReachableStep(adj, start, u, v);
      TopIsDfsNext(adj, start, order, stack, owner);
    }
    assert v in adj;
    DfsOrderAppend(adj, order, v);
    forall x ensures x in pushed <==> x in adj[v] && x !in order + [v] {
    }
    VisitKeeps(adj, start, order, stack, owner, pushed);
    assert Ids.Elements(order + [v]) == Ids.Elements(order) + {v};
  }

  lemma DfsDone(adj: Adjacency, start: int, order: seq<int>, visited: set<int>, owner: seq<int>)
    requires DfsState(adj, start, order, visited, [], owner)
    ensures order != [] && order[0] == start
    ensures forall v :: v in order <==> Reachable(adj, start, v)
  {
    assert Closed(adj, visited) by {
      forall u | u in visited && u in adj ensures adj[u] <= visited {
        var j :| 0 <= j < |order| && order[j] == u;
        forall x | x in adj[u] ensures x in visited {
          if x !in order {
            assert false;
          }
        }
      }
    }
    assert start in visited by { assert order[0] == start; }
    ReachableSetCharacterised(adj, visited, start);
  }

  /** The order in which a depth-first search from `start` visits the nodes: the start
      first, each reachable node exactly once, nothing else, and at every step the
      smallest unvisited neighbour of the latest visited node that still has one. */
  method DFS(g: Graph, start: int) returns (r: Result<seq<int>>)
    requires g.Valid()
    ensures r.Err? <==> start !in g.nodes
    ensures r.Err? ==> r.error == NodeNotFound(start)
    ensures r.Ok? ==>
      && r.value != [] && r.value[0] == start
      && Ids.NoDuplicates(r.value)
      && (forall v :: v in r.value <==> Reachable(g.adj, start, v))
      && IsDfsOrder(g.adj, r.value)
  {
    if start !in g.nodes {
      return Err(NodeNotFound(start));
    }
    var adj := g.adj;
    var order: seq<int> := [];
    var visited: set<int> := {};
    var stack: seq<int> := [start];
    ghost var owner: seq<int> := [-1];
    while stack != []
      invariant DfsState(adj, start, order, visited, stack, owner)
      decreases adj.Keys - Ids.Elements(order), |stack|
    {
      var n := |stack| - 1;
      var v := stack[n];
      if v in visited {
        DfsPopListed(adj, start, order, visited, stack, owner);
        stack, owner := stack[..n], owner[..n];
      } else {
        DfsStackInGraph(adj, start, order, visited, stack, owner, n);
        var nbs := Ids.Sorted(adj[v]);
        var stack', pushed := PushUnlisted(nbs, visited + {v}, stack[..n]);
        DfsVisit(adj, start, order, visited, stack, owner, pushed);
        owner := owner[..n] + seq(|pushed|, _ => |order|);
        stack := stack';
        visited := visited + {v};
        order := order + [v];
      }
    }
    DfsDone(adj, start, order, visited, owner);
    return Ok(order);
  }
}
