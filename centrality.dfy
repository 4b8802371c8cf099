/** `Centrality.DegreeCentrality`: one row per node, in the enumeration order of the node
    keys (ascending id here, as in the components module), with the node's degree and the
    degree normalised by n - 1, where n is the node count; with at most one node the
    degree is divided by 1. */
module Centrality {
  import opened Graphs
  import Ids

  datatype Row = Row(NodeId: int, Degree: nat, Score: real)

  /** The normaliser: n - 1, or 1 when there is at most one node. */
  function Denominator(n: nat): (d: real)
    ensures d >= 1.0
    ensures n >= 2 ==> d == (n - 1) as real
  {
    if n <= 1 then 1.0 else (n - 1) as real
  }

  /** The rows of the nodes `ids`, in that order. */
  function Rows(adj: Adjacency, ids: seq<int>, denom: real): (r: seq<Row>)
    requires denom >= 1.0
    ensures |r| == |ids|
    ensures forall i | 0 <= i < |ids| ::
              r[i].NodeId == ids[i] && r[i].Degree == DegreeOf(adj, ids[i])
              && r[i].Score == r[i].Degree as real / denom
  {
    if ids == [] then []
    else
      var d := DegreeOf(adj, ids[0]);
      [Row(ids[0], d, d as real / denom)] + Rows(adj, ids[1..], denom)
  }

  function DegreeCentrality(adj: Adjacency): (r: seq<Row>)
    ensures |r| == |adj|
    ensures forall i | 0 <= i < |r| :: r[i].NodeId in adj && r[i].Degree == DegreeOf(adj, r[i].NodeId)
    ensures forall i, j | 0 <= i < j < |r| :: r[i].NodeId < r[j].NodeId
    ensures forall id | id in adj :: exists i | 0 <= i < |r| :: r[i].NodeId == id
    ensures forall i | 0 <= i < |r| :: r[i].Score == r[i].Degree as real / Denominator(|adj|)
  {
    var ids := Ids.Sorted(adj.Keys);
    Rows(adj, ids, Denominator(|adj|))
  }

  /** Dividing by a positive normaliser keeps the order of the numerators. */
  lemma DivideMonotone(a: real, b: real, d: real)
    requires d > 0.0
    ensures a / d <= b / d <==> a <= b
  {
    assert a == (a / d) * d && b == (b / d) * d;
    if a / d <= b / d {
      assert (b / d - a / d) * d >= 0.0;
    }
  }

  lemma DivideSelf(d: real)
    requires d > 0.0
    ensures d / d == 1.0 && 0.0 / d == 0.0
  {
  }

  /** In a well-formed graph every score lies between 0 and 1. */
  lemma ScoreInUnitInterval(adj: Adjacency, i: int)
    requires WellFormed(adj) && 0 <= i < |DegreeCentrality(adj)|
    ensures 0.0 <= DegreeCentrality(adj)[i].Score <= 1.0
  {
    var r := DegreeCentrality(adj)[i];
    DegreeBound(adj, r.NodeId);
    var denom := Denominator(|adj|);
    var x := r.Degree as real;
    assert r.Score == x / denom;
    DivideMonotone(x, denom, denom);
    DivideMonotone(0.0, x, denom);
    DivideSelf(denom);
  }

  /** A node linked to every other node scores exactly 1 once there are two nodes. */
  lemma HubScoresOne(adj: Adjacency, i: int)
    requires 0 <= i < |DegreeCentrality(adj)| && |adj| >= 2
    requires DegreeOf(adj, DegreeCentrality(adj)[i].NodeId) == |adj| - 1
    ensures DegreeCentrality(adj)[i].Score == 1.0
  {
    var denom := Denominator(|adj|);
    assert DegreeCentrality(adj)[i].Score == denom / denom;
    DivideSelf(denom);
  }

  /** Scores rank the nodes as their degrees do. */
  lemma ScoreOrdersByDegree(adj: Adjacency, i: int, j: int)
    requires 0 <= i < |DegreeCentrality(adj)| && 0 <= j < |DegreeCentrality(adj)|
    ensures DegreeCentrality(adj)[i].Score <= DegreeCentrality(adj)[j].Score
            <==> DegreeCentrality(adj)[i].Degree <= DegreeCentrality(adj)[j].Degree
  {
    var r, s := DegreeCentrality(adj)[i], DegreeCentrality(adj)[j];
    DivideMonotone(r.Degree as real, s.Degree as real, Denominator(|adj|));
  }
}
