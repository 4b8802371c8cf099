/** The writing side of `GraphIO`: `SaveCsv`, which lists the nodes by ascending id with
    their numbers, degree and neighbours, and the 0/1 matrix `ExportAdjacencyMatrixCsv`
    fills from the edge set. The file itself is a sequence of lines (for `SaveCsv`) or the
    id listing and the matrix (for the export); writing them out is not modelled. */
module GraphSave {
  import opened Text
  import opened Nodes
  import opened Graphs
  import opened Edges
  import opened GraphIO
  import Ids

  /** The numbers the store's nodes carry, by id; they live in the node objects the
      store holds. */
  ghost function NumbersOf(g: Graph): (nums: Numbers)
    reads g, g.nodes.Values
    ensures nums.activity.Keys == g.nodes.Keys && nums.interaction.Keys == g.nodes.Keys
    ensures forall id | id in g.nodes ::
              nums.activity[id] == g.nodes[id].Activity && nums.interaction[id] == g.nodes[id].Interaction
  {
    Numbers(map id | id in g.nodes :: g.nodes[id].Activity,
            map id | id in g.nodes :: g.nodes[id].Interaction)
  }

  /** Appending the next element to a header and a prefix of `rows` extends the prefix. */
  lemma AppendNext<T>(header: T, rows: seq<T>, lines: seq<T>, i: int)
    requires 0 <= i < |rows| && lines == [header] + rows[..i]
    ensures lines + [rows[i]] == [header] + rows[..i + 1]
  {
    assert rows[..i + 1] == rows[..i] + [rows[i]];
  }

  /** The loop of `SaveCsv`: the header, then the row of each of `ids` in turn. */
  method SaveLines(g: Graph, format: RealFormatter, ids: seq<int>) returns (lines: seq<string>)
    requires g.adj.Keys <= g.nodes.Keys && forall k | 0 <= k < |ids| :: ids[k] in g.adj
    ensures lines == [Header] + SavedRowsAt(g.adj, NumbersOf(g), format, ids)
  {
    ghost var rows := SavedRowsAt(g.adj, NumbersOf(g), format, ids);
    lines := [Header];
    for i := 0 to |ids|
      invariant lines == [Header] + rows[..i]
    {
      var n := g.nodes[ids[i]];
      var row := RowText(ids[i], format(n.Activity), format(n.Interaction), Ids.Sorted(g.adj[ids[i]]));
      assert row == rows[i];
      AppendNext(Header, rows, lines, i);
      lines := lines + [row];
    }
    assert rows[..|ids|] == rows;
  }

  /** `SaveCsv(path, graph)`: the header, then for each node by ascending id its id, its
      two numbers as `format` writes them, its neighbour count and its neighbours in
      ascending order, comma-joined, all blank-separated. */
  method SaveCsv(g: Graph, format: RealFormatter) returns (lines: seq<string>)
    requires g.Valid()
    ensures lines == SavedLines(Header, g.adj, NumbersOf(g), format)
  {
    var ids := Ids.Sorted(g.nodes.Keys);
    assert ids == Ids.Sorted(g.adj.Keys);
    lines := SaveLines(g, format, ids);
  }

  /** The dictionary from each listed id to its position in the listing. */
  function Positions(ids: seq<int>): (index: map<int, nat>)
    requires Ids.NoDuplicates(ids)
    ensures forall x :: x in index <==> x in ids
    ensures forall k | 0 <= k < |ids| :: ids[k] in index && index[ids[k]] == k
  {
    map k | 0 <= k < |ids| :: ids[k] := k
  }

  /** A cell of the matrix, by the edges marked so far: set when the two ids, in either
      order, form one of them. */
  ghost predicate Marked(done: set<Edge>, a: int, b: int) {
    Edge(a, b) in done || Edge(b, a) in done
  }

  /** Marking one more edge sets the two cells of its ends and no other. */
  lemma MarkedStep(done: set<Edge>, e: Edge, ids: seq<int>, p: int, q: int, i: int, j: int)
    requires Ids.StrictlyIncreasing(ids)
    requires 0 <= p < |ids| && 0 <= q < |ids| && 0 <= i < |ids| && 0 <= j < |ids|
    requires ids[i] == e.A && ids[j] == e.B
    ensures Marked(done + {e}, ids[p], ids[q])
            <==> Marked(done, ids[p], ids[q]) || (p == i && q == j) || (p == j && q == i)
  {
    assert ids[p] == ids[i] <==> p == i;
    assert ids[q] == ids[j] <==> q == j;
    assert ids[p] == ids[j] <==> p == j;
    assert ids[q] == ids[i] <==> q == i;
  }

  /** `adj[i, j] = true; adj[j, i] = true;` */
  method Mark(m: array2<bool>, i: int, j: int)
    requires 0 <= i < m.Length0 && 0 <= j < m.Length1 && j < m.Length0 && i < m.Length1
    modifies m
    ensures forall p, q | 0 <= p < m.Length0 && 0 <= q < m.Length1 ::
              m[p, q] == (old(m[p, q]) || (p == i && q == j) || (p == j && q == i))
  {
    m[i, j] := true;
    m[j, i] := true;
  }

  /** Once every edge is marked, a cell is set exactly when its column's id is a
      neighbour of its row's id. */
  lemma MarkedAll(adj: Adjacency, a: int, b: int)
    requires WellFormed(adj) && a in adj && b in adj
    ensures Marked(EdgesOf(adj), a, b) <==> b in adj[a]
  {
    EdgesOfMember(adj, a, b);
    EdgesOfMember(adj, b, a);
  }

  /** Every edge joins two listed ids. */
  lemma EdgeEndsListed(adj: Adjacency, ids: seq<int>)
    requires WellFormed(adj) && forall x :: x in ids <==> x in adj
    ensures forall e | e in EdgesOf(adj) :: e.A in ids && e.B in ids
  {
    forall e | e in EdgesOf(adj) ensures e.A in ids && e.B in ids {
      EdgesOfCanonical(adj, e);
    }
  }

  /** The matrix of `ExportAdjacencyMatrixCsv` built over the listed ids: cleared, then set
      at both cells of each edge's ends. */
  method EdgeMatrix(ids: seq<int>, edges: set<Edge>) returns (m: array2<bool>)
    requires Ids.StrictlyIncreasing(ids)
    requires forall e | e in edges :: e.A in ids && e.B in ids
    ensures fresh(m) && m.Length0 == |ids| && m.Length1 == |ids|
    ensures forall i, j | 0 <= i < |ids| && 0 <= j < |ids| :: m[i, j] <==> Marked(edges, ids[i], ids[j])
  {
    Ids.StrictlyIncreasingNoDuplicates(ids);
    var index := Positions(ids);
    m := new bool[|ids|, |ids|]((i, j) => false);
    MarkEdges(m, ids, index, edges);
  }

  /** The matrix holds exactly the cells marked by the edges `done`. */
  ghost predicate Holds(m: array2<bool>, ids: seq<int>, done: set<Edge>)
    reads m
    requires m.Length0 == |ids| && m.Length1 == |ids|
  {
    forall i, j | 0 <= i < |ids| && 0 <= j < |ids| :: m[i, j] <==> Marked(done, ids[i], ids[j])
  }

  /** One turn of the edge loop: the cells of `e`'s two ends are set. */
  method MarkEdge(m: array2<bool>, ids: seq<int>, index: map<int, nat>, ghost done: set<Edge>, e: Edge)
    requires Ids.StrictlyIncreasing(ids) && Ids.NoDuplicates(ids) && index == Positions(ids)
    requires m.Length0 == |ids| && m.Length1 == |ids|
    requires e.A in index && e.B in index
    requires Holds(m, ids, done)
    modifies m
    ensures Holds(m, ids, done + {e})
  {
    var i := index[e.A];
    var j := index[e.B];
    Mark(m, i, j);
    forall p, q | 0 <= p < |ids| && 0 <= q < |ids|
      ensures m[p, q] <==> Marked(done + {e}, ids[p], ids[q])
    {
      MarkedStep(done, e, ids, p, q, i, j);
    }
  }

  /** The edge loop of `ExportAdjacencyMatrixCsv`: starting from a clear matrix over the
      listed ids, every edge sets the cells of its two ends, and nothing else is set. */
  method MarkEdges(m: array2<bool>, ids: seq<int>, index: map<int, nat>, edges: set<Edge>)
    requires Ids.StrictlyIncreasing(ids) && Ids.NoDuplicates(ids) && index == Positions(ids)
    requires m.Length0 == |ids| && m.Length1 == |ids|
    requires forall e | e in edges :: e.A in index && e.B in index
    requires forall i, j | 0 <= i < |ids| && 0 <= j < |ids| :: !m[i, j]
    modifies m
    ensures forall i, j | 0 <= i < |ids| && 0 <= j < |ids| :: m[i, j] <==> Marked(edges, ids[i], ids[j])
  {
    var rest := edges;
    ghost var done: set<Edge> := {};
    assert Holds(m, ids, done);
    while rest != {}
      invariant rest <= edges && done == edges - rest
      invariant Holds(m, ids, done)
      decreases rest
    {
      var e :| e in rest;
      MarkEdge(m, ids, index, done, e);
      rest := rest - {e};
      done := done + {e};
    }
    assert done == edges;
  }

  /** Marked by all the edges of a graph, the matrix over its ascending ids holds its
      neighbour relation: symmetric, with a clear diagonal. */
  lemma MatrixOfEdges(adj: Adjacency, ids: seq<int>, m: array2<bool>)
    requires WellFormed(adj) && forall x :: x in ids <==> x in adj
    requires m.Length0 == |ids| && m.Length1 == |ids|
    requires forall i, j | 0 <= i < |ids| && 0 <= j < |ids| :: m[i, j] <==> Marked(EdgesOf(adj), ids[i], ids[j])
    ensures forall i, j | 0 <= i < |ids| && 0 <= j < |ids| :: m[i, j] <==> ids[j] in adj[ids[i]]
    ensures forall i, j | 0 <= i < |ids| && 0 <= j < |ids| :: m[i, j] == m[j, i]
    ensures forall i | 0 <= i < |ids| :: !m[i, i]
  {
    forall i, j | 0 <= i < |ids| && 0 <= j < |ids| ensures m[i, j] <==> ids[j] in adj[ids[i]] {
      MarkedAll(adj, ids[i], ids[j]);
    }
  }

  /** `ExportAdjacencyMatrixCsv(path, graph)`: the ids in ascending order and an n-by-n
      matrix, cleared and then set at (i, j) and (j, i) for each edge between the `i`th
      and the `j`th id; a cell is set exactly when the two nodes are neighbours, so the
      matrix is symmetric with a clear diagonal. */
  method AdjacencyMatrix(g: Graph) returns (ids: seq<int>, m: array2<bool>)
    requires g.Valid()
    ensures ids == Ids.Sorted(g.nodes.Keys)
    ensures fresh(m) && m.Length0 == |ids| && m.Length1 == |ids|
    ensures forall i, j | 0 <= i < |ids| && 0 <= j < |ids| :: m[i, j] <==> ids[j] in g.adj[ids[i]]
    ensures forall i, j | 0 <= i < |ids| && 0 <= j < |ids| :: m[i, j] == m[j, i]
    ensures forall i | 0 <= i < |ids| :: !m[i, i]
  {
    ids := Ids.Sorted(g.nodes.Keys);
    EdgeEndsListed(g.adj, ids);
    m := EdgeMatrix(ids, g.edges);
    MatrixOfEdges(g.adj, ids, m);
  }
}
