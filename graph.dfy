/** The mutable graph store (Models/Graph.cs): a node dictionary, a symmetric
    adjacency map and a set of canonical edges, kept consistent by every mutator. */
module Graphs {
  import opened Wrappers
  import opened Edges
  import opened Nodes
  import Ids

  /** Node id to the set of its neighbour ids. */
  type Adjacency = map<int, set<int>>

  /** The structural invariant of the adjacency: every neighbour is a node, no node
      is its own neighbour, and `v ∈ adj[u]` exactly when `u ∈ adj[v]`. */
  ghost predicate WellFormed(adj: Adjacency) {
    && (forall v | v in adj :: v !in adj[v] && adj[v] <= adj.Keys)
    && (forall u, v | u in adj && v in adj[u] :: u in adj[v])
  }

  /** The canonical edges the adjacency describes. */
  ghost function EdgesOf(adj: Adjacency): set<Edge> {
    set u, v | u in adj && v in adj[u] && u < v :: Edge(u, v)
  }

  /** The number of neighbours of `id`, 0 for an id that is not a node. */
  function DegreeOf(adj: Adjacency, id: int): nat {
    if id in adj then |adj[id]| else 0
  }

  /** In a loop-free graph a node has at most one neighbour per other node. */
  lemma DegreeBound(adj: Adjacency, id: int)
    requires WellFormed(adj) && id in adj
    ensures DegreeOf(adj, id) <= |adj| - 1
  {
    Ids.SubsetCardinality(adj[id], adj.Keys - {id});
    assert |adj.Keys - {id}| == |adj.Keys| - 1;
  }

  lemma EdgesOfMember(adj: Adjacency, u: int, v: int)
    ensures Edge(u, v) in EdgesOf(adj) <==> u in adj && v in adj[u] && u < v
  {
  }

  lemma EdgesOfCanonical(adj: Adjacency, e: Edge)
    requires e in EdgesOf(adj)
    ensures e.Canonical() && e.A in adj && e.B in adj[e.A]
  {
  }

  /** Adding `a`–`b` to both neighbour sets adds exactly one canonical edge. */
  lemma {:induction false} EdgesOfAdd(adj: Adjacency, a: int, b: int)
    requires a in adj && b in adj && a != b
    ensures var adj' := adj[a := adj[a] + {b}][b := adj[b] + {a}];
            EdgesOf(adj') == EdgesOf(adj) + {NewEdge(a, b).value}
  {
    var adj' := adj[a := adj[a] + {b}][b := adj[b] + {a}];
    var e := NewEdge(a, b).value;
    forall f | f in EdgesOf(adj') ensures f in EdgesOf(adj) + {e} {
      EdgesOfCanonical(adj', f);
      EdgesOfMember(adj, f.A, f.B);
    }
    forall f | f in EdgesOf(adj) + {e} ensures f in EdgesOf(adj') {
      if f in EdgesOf(adj) {
        EdgesOfCanonical(adj, f);
        EdgesOfMember(adj', f.A, f.B);
      } else {
        EdgesOfMember(adj', e.A, e.B);
      }
    }
  }

  lemma WellFormedAdd(adj: Adjacency, a: int, b: int)
    requires WellFormed(adj) && a in adj && b in adj && a != b
    ensures var adj' := adj[a := adj[a] + {b}][b := adj[b] + {a}];
            WellFormed(adj') && adj'.Keys == adj.Keys
  {
  }

  lemma WellFormedRemove(adj: Adjacency, a: int, b: int)
    requires WellFormed(adj) && a in adj && b in adj && a != b
    ensures var adj' := adj[a := adj[a] - {b}][b := adj[b] - {a}];
            WellFormed(adj') && adj'.Keys == adj.Keys
  {
  }

  /** Removing `a`–`b` from both neighbour sets removes exactly that canonical edge. */
  lemma {:induction false} EdgesOfRemove(adj: Adjacency, a: int, b: int)
    requires a in adj && b in adj && a != b
    ensures var adj' := adj[a := adj[a] - {b}][b := adj[b] - {a}];
            EdgesOf(adj') == EdgesOf(adj) - {NewEdge(a, b).value}
  {
    var adj' := adj[a := adj[a] - {b}][b := adj[b] - {a}];
    var e := NewEdge(a, b).value;
    forall f | f in EdgesOf(adj') ensures f in EdgesOf(adj) - {e} {
      EdgesOfCanonical(adj', f);
      EdgesOfMember(adj, f.A, f.B);
    }
    forall f | f in EdgesOf(adj) - {e} ensures f in EdgesOf(adj') {
      EdgesOfCanonical(adj, f);
      EdgesOfMember(adj', f.A, f.B);
    }
  }

  /** A node with no neighbours that no node lists can be dropped without losing an edge. */
  lemma EdgesOfDropIsolated(adj: Adjacency, id: int)
    requires id in adj && adj[id] == {}
    requires forall u | u in adj :: id !in adj[u]
    ensures EdgesOf(adj - {id}) == EdgesOf(adj)
  {
    forall f | f in EdgesOf(adj) ensures f in EdgesOf(adj - {id}) {
      EdgesOfCanonical(adj, f);
      EdgesOfMember(adj - {id}, f.A, f.B);
    }
  }

  class Graph {
    var nodes: map<int, Node>
    var adj: Adjacency
    var edges: set<Edge>

    /** The store invariant: adjacency keys are the node keys, each node is filed
        under its own id, the adjacency is well formed, and the edge set is exactly
        the canonical pairs of the adjacency. */
    ghost predicate Valid()
      reads this
    {
      && adj.Keys == nodes.Keys
      && (forall id | id in nodes :: nodes[id].Id == id)
      && WellFormed(adj)
      && edges == EdgesOf(adj)
    }

    constructor ()
      ensures Valid()
      ensures nodes == map[] && adj == map[] && edges == {}
    {
      nodes := map[];
      adj := map[];
      edges := {};
    }

    /** `GetNode(id)`: the node filed under `id`, or NodeNotFound. */
    function GetNode(id: int): (r: Result<Node>)
      reads this
      requires Valid()
      ensures r.Ok? <==> id in nodes
      ensures r.Ok? ==> r.value.Id == id && r.value == nodes[id]
      ensures r.Err? ==> r.error == NodeNotFound(id)
    {
      if id in nodes then Ok(nodes[id]) else Err(NodeNotFound(id))
    }

    /** `Degree(id)`: the number of neighbours, 0 for an unknown id; never more than
        the number of other nodes. */
    function Degree(id: int): (d: nat)
      reads this
      requires Valid()
      ensures id !in nodes ==> d == 0
      ensures id in nodes ==> d == |adj[id]| && d <= |nodes| - 1
    {
      if id in adj then
        DegreeBound(adj, id);
        assert |adj.Keys| == |nodes.Keys| == |nodes|;
        DegreeOf(adj, id)
      else 0
    }

    /** `GetNeighbors(id)`: a copy of the neighbour set, or NodeNotFound. */
    function GetNeighbors(id: int): (r: Result<set<int>>)
      reads this
      requires Valid()
      ensures r.Ok? <==> id in nodes
      ensures r.Err? ==> r.error == NodeNotFound(id)
      ensures r.Ok? ==> r.value == adj[id] && id !in r.value && r.value <= nodes.Keys
      ensures r.Ok? ==> forall v | v in r.value :: id in adj[v]
    {
      if id in nodes then Ok(adj[id]) else Err(NodeNotFound(id))
    }

    /** `EdgeExists(a, b)`: whether `a` and `b` are neighbours; the edge constructor
        rejects `a == b`. */
    function EdgeExists(a: int, b: int): (r: Result<bool>)
      reads this
      requires Valid()
      ensures r.Err? <==> a == b
      ensures r.Err? ==> r.error == SelfLoopArgument(a)
      ensures r.Ok? ==> (r.value <==> a in adj && b in adj[a])
      ensures r.Ok? ==> (r.value <==> b in adj && a in adj[b])
    {
      match NewEdge(a, b)
      case Err(e) => Err(e)
      case Ok(e) =>
        EdgesOfMember(adj, e.A, e.B);
        Ok(e in edges)
    }

    method AddNode(node: Node) returns (r: Outcome)
      requires Valid()
      modifies this
      ensures Valid()
      ensures r.Fail? <==> node.Id in old(nodes)
      ensures r.Fail? ==> r.error == DuplicateNode(node.Id) && unchanged(this)
      ensures r.Pass? ==>
        && nodes == old(nodes)[node.Id := node]
        && adj == old(adj)[node.Id := {}] && edges == old(edges)
    {
      if node.Id in nodes {
        return Fail(DuplicateNode(node.Id));
      }
      nodes := nodes[node.Id := node];
      assert EdgesOf(adj[node.Id := {}]) == EdgesOf(adj) by {
        forall f | f in EdgesOf(adj) ensures f in EdgesOf(adj[node.Id := {}]) {
          EdgesOfCanonical(adj, f);
          EdgesOfMember(adj[node.Id := {}], f.A, f.B);
        }
      }
      adj := adj[node.Id := {}];
      r := Pass;
    }

    /** `UpdateNode(id, label, activity, interaction)`: NodeNotFound, or the node's
        partial update; the store's own maps and sets do not change. */
    method UpdateNode(id: int, newLabel: Option<string>, newActivity: Option<real>,
                      newInteraction: Option<real>) returns (r: Outcome)
      requires Valid()
      modifies if id in nodes then {nodes[id]} else {}
      ensures Valid()
      ensures r.Pass? <==> id in nodes
      ensures r.Fail? ==> r.error == NodeNotFound(id)
      ensures id in nodes ==>
        && nodes[id].Attrs() == ApplyUpdate(old(nodes[id].Attrs()), newLabel, newActivity, newInteraction)
        && nodes[id].X == old(nodes[id].X) && nodes[id].Y == old(nodes[id].Y)
    {
      var n := GetNode(id);
      if n.Err? {
        return Fail(n.error);
      }
      n.value.Update(newLabel, newActivity, newInteraction);
      r := Pass;
    }

    method AddEdge(a: int, b: int) returns (r: Outcome)
      requires Valid()
      modifies this
      ensures Valid()
      ensures r.Pass? <==> a in old(nodes) && b in old(nodes) && a != b && b !in old(adj)[a]
      ensures (a !in old(nodes) || b !in old(nodes)) ==> r == Fail(MissingEndpoint(a, b))
      ensures a in old(nodes) && b in old(nodes) && a == b ==> r == Fail(SelfLoop(a))
      ensures a in old(nodes) && b in old(nodes) && a != b && b in old(adj)[a] ==>
                r == Fail(DuplicateEdge(Min(a, b), Max(a, b)))
      ensures r.Fail? ==> unchanged(this)
      ensures r.Pass? ==>
        && nodes == old(nodes)
        && edges == old(edges) + {Edge(Min(a, b), Max(a, b))}
        && adj == old(adj)[a := old(adj)[a] + {b}][b := old(adj)[b] + {a}]
        && Degree(a) == old(Degree(a)) + 1 && Degree(b) == old(Degree(b)) + 1
    {
      if a !in nodes || b !in nodes {
        return Fail(MissingEndpoint(a, b));
      }
      if a == b {
        return Fail(SelfLoop(a));
      }
      var e := NewEdge(a, b).value;
      EdgesOfMember(adj, e.A, e.B);
      if e in edges {
        return Fail(DuplicateEdge(e.A, e.B));
      }
      EdgesOfAdd(adj, a, b);
      WellFormedAdd(adj, a, b);
      edges := edges + {e};
      adj := adj[a := adj[a] + {b}][b := adj[b] + {a}];
      r := Pass;
    }

    method RemoveEdge(a: int, b: int) returns (r: Outcome)
      requires Valid()
      modifies this
      ensures Valid()
      ensures r.Fail? <==> a == b
      ensures r.Fail? ==> r.error == SelfLoopArgument(a)
      ensures nodes == old(nodes)
      ensures a == b || a !in old(adj) || b !in old(adj)[a] ==> unchanged(this)
      ensures a != b && a in old(adj) && b in old(adj)[a] ==>
        && edges == old(edges) - {Edge(Min(a, b), Max(a, b))}
        && adj == old(adj)[a := old(adj)[a] - {b}][b := old(adj)[b] - {a}]
    {
      var en := NewEdge(a, b);
      if en.Err? {
        return Fail(en.error);
      }
      var e := en.value;
      EdgesOfMember(adj, e.A, e.B);
      if e !in edges {
        return Pass;
      }
      EdgesOfRemove(adj, a, b);
      WellFormedRemove(adj, a, b);
      edges := edges - {e};
      if a in adj { adj := adj[a := adj[a] - {b}]; }
      if b in adj { adj := adj[b := adj[b] - {a}]; }
      r := Pass;
    }

    method RemoveNode(id: int) returns (r: Outcome)
      requires Valid()
      modifies this
      ensures Valid()
      ensures r.Fail? <==> id !in old(nodes)
      ensures r.Fail? ==> r.error == NodeNotFound(id) && unchanged(this)
      ensures r.Pass? ==>
        && nodes == old(nodes) - {id}
        && adj == (map u | u in old(adj) && u != id :: old(adj)[u] - {id})
        && edges == (set e | e in old(edges) && e.A != id && e.B != id)
    {
      if id !in nodes {
        return Fail(NodeNotFound(id));
      }
      var remaining := adj[id];
      while remaining != {}
        invariant Valid()
        invariant nodes == old(nodes) && adj.Keys == old(adj).Keys
        invariant remaining <= old(adj)[id] && adj[id] == remaining
        invariant forall u | u in adj && u != id && u !in remaining :: adj[u] == old(adj)[u] - {id}
        invariant forall u | u in remaining :: adj[u] == old(adj)[u]
        decreases remaining
      {
        ghost var w := Ids.Pick(remaining);
        var nb :| nb in remaining;
        var res := RemoveEdge(id, nb);
        remaining := remaining - {nb};
      }
      ghost var beforeDrop := adj;
      EdgesOfDropIsolated(adj, id);
      adj := adj - {id};
      nodes := nodes - {id};
      assert adj == (map u | u in old(adj) && u != id :: old(adj)[u] - {id});
      forall e | e in old(edges) && e.A != id && e.B != id ensures e in edges {
        EdgesOfCanonical(old(adj), e);
        EdgesOfMember(adj, e.A, e.B);
      }
      forall e | e in edges ensures e in old(edges) && e.A != id && e.B != id {
        EdgesOfCanonical(adj, e);
        EdgesOfMember(old(adj), e.A, e.B);
      }
      r := Pass;
    }
  }

  /** A node filed in the store is never the store itself, so a method that may change
      only the store leaves every node's fields as they were. */
  lemma NodesApart(g: Graph)
    ensures forall id | id in g.nodes :: g.nodes[id] as object != g
  {
  }
}
