/** The edge loop of `LoadCsv` (IO/GraphIO.cs) on a `Graph` object: every row's listed
    neighbours above the row's id are joined to it by `AddEdge`, and the first neighbour
    that is not a node ends the load. */
module GraphLinking {
  import opened Wrappers
  import opened Text
  import opened Edges
  import opened Nodes
  import opened Graphs
  import opened GraphIO
  import Ids

  // ---- the edge loop of LoadCsv ----

  /** With the pair `(a, b)` added, `y` is linked to `x` when it was before or when
      `x`–`y` is that pair. */
  lemma LinkedAddMember(ids: set<int>, pairs: set<(int, int)>, a: int, b: int, x: int, y: int)
    requires x in ids
    ensures y in Linked(ids, pairs + {(a, b)})[x] <==>
            y in Linked(ids, pairs)[x] || (x == a && y == b) || (x == b && y == a)
  {
    LinkedMember(ids, pairs, x, y);
    LinkedMember(ids, pairs + {(a, b)}, x, y);
  }

  /** Adding the pair `(a, b)` links `a` and `b` and changes no other neighbour set. */
  lemma LinkedAdd(ids: set<int>, pairs: set<(int, int)>, a: int, b: int)
    requires a in ids && b in ids && a != b
    ensures var adj := Linked(ids, pairs);
            Linked(ids, pairs + {(a, b)}) == adj[a := adj[a] + {b}][b := adj[b] + {a}]
  {
    var adj := Linked(ids, pairs);
    var adj' := Linked(ids, pairs + {(a, b)});
    var upd := adj[a := adj[a] + {b}][b := adj[b] + {a}];
    forall x | x in ids ensures adj'[x] == upd[x] {
      forall y ensures y in adj'[x] <==> y in upd[x] {
        LinkedAddMember(ids, pairs, a, b, x, y);
      }
    }
  }

  /** An adjacency without neighbours is the one no pair links. */
  lemma LinkedNone(adj: Adjacency)
    requires forall id | id in adj :: adj[id] == {}
    ensures adj == Linked(adj.Keys, {})
  {
    forall x | x in adj ensures adj[x] == Linked(adj.Keys, {})[x] {
      forall y ensures y !in Linked(adj.Keys, {})[x] {
        LinkedMember(adj.Keys, {}, x, y);
      }
    }
  }

  /** The pairs the edge loop has added for the first `j` neighbours of the row `id`. */
  function PairsUpTo(id: int, nbs: seq<int>, j: int): set<(int, int)>
    requires 0 <= j <= |nbs|
  {
    if j == 0 then {}
    else PairsUpTo(id, nbs, j - 1) + (if id < nbs[j - 1] then {(id, nbs[j - 1])} else {})
  }

  lemma {:induction false} PairsUpToMember(id: int, nbs: seq<int>, j: int, p: (int, int))
    requires 0 <= j <= |nbs|
    ensures p in PairsUpTo(id, nbs, j) <==> p.0 == id && id < p.1 && p.1 in nbs[..j]
  {
    if j > 0 {
      PairsUpToMember(id, nbs, j - 1, p);
      assert nbs[..j] == nbs[..j - 1] + [nbs[j - 1]];
    }
  }

  /** All the neighbours of a row give its `RowPairs`. */
  lemma PairsUpToAll(id: int, nbs: seq<int>)
    ensures PairsUpTo(id, nbs, |nbs|) == RowPairs(id, nbs)
  {
    assert nbs[..|nbs|] == nbs;
    forall p ensures p in PairsUpTo(id, nbs, |nbs|) <==> p in RowPairs(id, nbs) {
      PairsUpToMember(id, nbs, |nbs|, p);
    }
  }

  /** The pairs of the rows up to and including the next one. */
  lemma PairsSnoc(rows: seq<Row>, k: int)
    requires 0 <= k < |rows|
    ensures Pairs(rows[..k + 1]) == Pairs(rows[..k]) + RowPairs(rows[k].Id, rows[k].Neighbors)
  {
    assert rows[..k + 1][..k] == rows[..k];
  }

  /** A missing neighbour at position `j`, after `j` present ones, is the first missing one. */
  lemma {:induction false} MissingInAt(id: int, nbs: seq<int>, nodes: set<int>, j: int)
    requires 0 <= j < |nbs| && nbs[j] !in nodes
    requires forall i | 0 <= i < j :: nbs[i] in nodes
    ensures MissingIn(id, nbs, nodes) == Some((id, nbs[j]))
  {
    if j > 0 {
      assert nbs[0] in nodes;
      assert forall i | 0 <= i < j - 1 :: nbs[1..][i] == nbs[i + 1];
      MissingInAt(id, nbs[1..], nodes, j - 1);
    }
  }

  /** A row whose neighbours are all nodes until row `k`, where one is missing: the first
      missing one of row `k` is the first missing one overall. */
  lemma {:induction false} FirstMissingAt(rows: seq<Row>, nodes: set<int>, k: int)
    requires 0 <= k < |rows| && MissingIn(rows[k].Id, rows[k].Neighbors, nodes).Some?
    requires forall k', i | 0 <= k' < k && 0 <= i < |rows[k'].Neighbors| :: rows[k'].Neighbors[i] in nodes
    ensures FirstMissing(rows, nodes) == MissingIn(rows[k].Id, rows[k].Neighbors, nodes)
  {
    if k > 0 {
      assert MissingIn(rows[0].Id, rows[0].Neighbors, nodes).None?;
      assert forall k' | 0 <= k' < |rows| - 1 :: rows[1..][k'] == rows[k' + 1];
      FirstMissingAt(rows[1..], nodes, k - 1);
    }
  }

  /** Ids pairwise distinct, and neighbour lists without repeats: what the row loop
      guarantees the edge loop. */
  predicate Distinctive(rows: seq<Row>) {
    && (forall i, j | 0 <= i < j < |rows| :: rows[i].Id != rows[j].Id)
    && (forall k | 0 <= k < |rows| :: Ids.NoDuplicates(rows[k].Neighbors))
  }

  /** The pairs of the rows before row `k` are ascending and none starts at row `k`'s id. */
  lemma PairsBefore(rows: seq<Row>, k: int)
    requires Distinctive(rows) && 0 <= k < |rows|
    ensures forall p | p in Pairs(rows[..k]) :: p.0 < p.1 && p.0 != rows[k].Id
  {
    forall p | p in Pairs(rows[..k]) ensures p.0 < p.1 && p.0 != rows[k].Id {
      PairsMember(rows[..k], p);
    }
  }

  /** What the inner loop does with one neighbour `nb` of the row `id`: when `nb` is above
      `id`, the two are linked. */
  function LinkStep(adj: Adjacency, id: int, nb: int): (r: Adjacency)
  {
    if id < nb && id in adj && nb in adj then adj[id := adj[id] + {nb}][nb := adj[nb] + {id}] else adj
  }

  /** The adjacency after the inner loop has handled the first `j` neighbours of the row
      `id`. */
  function Linking(adj: Adjacency, id: int, nbs: seq<int>, j: int): (r: Adjacency)
    requires 0 <= j <= |nbs|
  {
    if j == 0 then adj else LinkStep(Linking(adj, id, nbs, j - 1), id, nbs[j - 1])
  }

  /** One step on a linked adjacency links one more pair, if any. */
  lemma LinkStepLinked(ids: set<int>, done: set<(int, int)>, id: int, nb: int)
    requires id in ids && nb in ids
    ensures LinkStep(Linked(ids, done), id, nb) == Linked(ids, if id < nb then done + {(id, nb)} else done)
  {
    if id < nb {
      LinkedAdd(ids, done, id, nb);
    }
  }

  /** Linking the neighbours one by one links the row's pairs. */
  lemma {:induction false} LinkingLinked(ids: set<int>, before: set<(int, int)>, id: int, nbs: seq<int>, j: int)
    requires 0 <= j <= |nbs| && id in ids && forall i | 0 <= i < j :: nbs[i] in ids
    ensures Linking(Linked(ids, before), id, nbs, j) == Linked(ids, before + PairsUpTo(id, nbs, j))
  {
    if j == 0 {
      assert before + PairsUpTo(id, nbs, 0) == before;
    } else {
      LinkingLinked(ids, before, id, nbs, j - 1);
      LinkingLinkedStep(ids, before, id, nbs, j);
    }
  }

  lemma LinkingLinkedStep(ids: set<int>, before: set<(int, int)>, id: int, nbs: seq<int>, j: int)
    requires 0 < j <= |nbs| && id in ids && nbs[j - 1] in ids
    requires Linking(Linked(ids, before), id, nbs, j - 1) == Linked(ids, before + PairsUpTo(id, nbs, j - 1))
    ensures Linking(Linked(ids, before), id, nbs, j) == Linked(ids, before + PairsUpTo(id, nbs, j))
  {
    var done := before + PairsUpTo(id, nbs, j - 1);
    var nb := nbs[j - 1];
    LinkStepLinked(ids, done, id, nb);
    assert (if id < nb then done + {(id, nb)} else done) == before + PairsUpTo(id, nbs, j);
  }

  /** Linking never adds to `id`'s own neighbours a value that is not among the
      neighbours handled. */
  lemma {:induction false} LinkingAt(start: Adjacency, id: int, nbs: seq<int>, j: int, x: int)
    requires 0 <= j <= |nbs| && id in start && x != id && forall i | 0 <= i < j :: nbs[i] != x
    ensures id in Linking(start, id, nbs, j)
    ensures x in Linking(start, id, nbs, j)[id] <==> x in start[id]
  {
    if j > 0 {
      LinkingAt(start, id, nbs, j - 1, x);
    }
  }

  /** The inner loop of the edge reconstruction, over the neighbours `nbs` of the row
      `id`; none of the neighbours above `id` is linked to it yet. */
  method LinkRow(g: Graph, ghost ids: set<int>, id: int, nbs: seq<int>) returns (r: Outcome)
    requires g.Valid() && g.nodes.Keys == ids && id in ids && Ids.NoDuplicates(nbs)
    requires forall i | 0 <= i < |nbs| && id < nbs[i] :: nbs[i] !in g.adj[id]
    modifies g
    ensures g.Valid() && g.nodes == old(g.nodes)
    ensures r.Fail? <==> MissingIn(id, nbs, ids).Some?
    ensures r.Fail? ==> r.error == MissingEndpoint(id, MissingIn(id, nbs, ids).value.1)
    ensures r.Pass? ==> g.adj == Linking(old(g.adj), id, nbs, |nbs|)
  {
    ghost var start := g.adj;
    var j := 0;
    while j < |nbs|
      invariant 0 <= j <= |nbs|
      invariant g.Valid() && g.nodes == old(g.nodes) && g.nodes.Keys == ids
      invariant g.adj == Linking(start, id, nbs, j)
      invariant forall i | 0 <= i < j :: nbs[i] in ids
    {
      var nb := nbs[j];
      if nb !in g.nodes {
        MissingInAt(id, nbs, ids, j);
        return Fail(MissingEndpoint(id, nb));
      }
      assert forall i | 0 <= i <= j :: nbs[i] in ids;
      ghost var linked := LinkStep(g.adj, id, nb);
      assert linked == Linking(start, id, nbs, j + 1);
      if id < nb {
        assert nb !in g.adj[id] by {
          LinkingAt(start, id, nbs, j, nb);
        }
        var added := g.AddEdge(id, nb);
        assert added.Pass?;
      }
      assert g.adj == linked;
      j := j + 1;
    }
    r := Pass;
  }

  /** The row `k` is not linked yet to any of its neighbours above it. */
  lemma RowNotLinked(ids: set<int>, rows: seq<Row>, k: int)
    requires Distinctive(rows) && 0 <= k < |rows| && rows[k].Id in ids
    ensures var id, nbs := rows[k].Id, rows[k].Neighbors;
            forall i | 0 <= i < |nbs| && id < nbs[i] :: nbs[i] !in Linked(ids, Pairs(rows[..k]))[id]
  {
    var id, nbs := rows[k].Id, rows[k].Neighbors;
    PairsBefore(rows, k);
    forall i | 0 <= i < |nbs| && id < nbs[i] ensures nbs[i] !in Linked(ids, Pairs(rows[..k]))[id] {
      LinkedMember(ids, Pairs(rows[..k]), id, nbs[i]);
    }
  }

  /** Running the inner loop over row `k` links the row's pairs. */
  lemma RowLinked(ids: set<int>, rows: seq<Row>, k: int)
    requires 0 <= k < |rows| && rows[k].Id in ids
    requires forall i | 0 <= i < |rows[k].Neighbors| :: rows[k].Neighbors[i] in ids
    ensures Linking(Linked(ids, Pairs(rows[..k])), rows[k].Id, rows[k].Neighbors, |rows[k].Neighbors|)
            == Linked(ids, Pairs(rows[..k + 1]))
  {
    var id, nbs := rows[k].Id, rows[k].Neighbors;
    LinkingLinked(ids, Pairs(rows[..k]), id, nbs, |nbs|);
    PairsUpToAll(id, nbs);
    PairsSnoc(rows, k);
  }

  /** The edge loop of `LoadCsv` over the rows read: a listed neighbour that is not a
      node fails with MissingEndpoint, and `AddEdge(id, nb)` runs for each neighbour
      above its row's id, so a link listed on both rows is added once and a row listing
      itself adds nothing. Every `AddEdge` succeeds. */
  method LinkRows(g: Graph, rows: seq<Row>, ghost ids: set<int>) returns (r: Outcome)
    requires g.Valid() && Distinctive(rows) && (forall k | 0 <= k < |rows| :: rows[k].Id in ids)
    requires g.nodes.Keys == ids && forall id | id in g.adj :: g.adj[id] == {}
    modifies g
    ensures g.Valid() && g.nodes == old(g.nodes)
    ensures r.Fail? <==> FirstMissing(rows, ids).Some?
    ensures r.Fail? ==> r.error == MissingEndpoint(FirstMissing(rows, ids).value.0,
                                                   FirstMissing(rows, ids).value.1)
    ensures r.Pass? ==> g.adj == Linked(ids, Pairs(rows))
  {
    assert g.adj == Linked(ids, Pairs(rows[..0])) by {
      LinkedNone(g.adj);
      assert rows[..0] == [];
    }
    var k := 0;
    while k < |rows|
      invariant 0 <= k <= |rows|
      invariant g.Valid() && g.nodes == old(g.nodes) && g.nodes.Keys == ids
      invariant g.adj == Linked(ids, Pairs(rows[..k]))
      invariant forall k', i | 0 <= k' < k && 0 <= i < |rows[k'].Neighbors| :: rows[k'].Neighbors[i] in ids
    {
      RowNotLinked(ids, rows, k);
      var linked := LinkRow(g, ids, rows[k].Id, rows[k].Neighbors);
      if linked.Fail? {
        FirstMissingAt(rows, ids, k);
        return linked;
      }
      RowLinked(ids, rows, k);
      k := k + 1;
    }
    assert rows[..|rows|] == rows;
    r := Pass;
  }
}
