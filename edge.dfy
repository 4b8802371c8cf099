/** The undirected edge value (Models/Edge.cs): an unordered pair of distinct
    node ids stored with the smaller id first. */
module Edges {
  import opened Wrappers
  import Text

  /** The two ids of an edge; every edge the constructor builds has `A < B`. */
  datatype Edge = Edge(A: int, B: int) {
    predicate Canonical() { A < B }

    /** `ToString()`: "A-B", smaller id first. */
    function ToString(): string
      requires Canonical()
    {
      Text.IntToString(A) + "-" + Text.IntToString(B)
    }
  }

  function Min(a: int, b: int): int { if a < b then a else b }
  function Max(a: int, b: int): int { if a < b then b else a }

  /** `new Edge(a, b)`: rejects a self-loop, otherwise orders the two ids. */
  function NewEdge(a: int, b: int): (r: Result<Edge>)
    ensures r.Ok? <==> a != b
    ensures r.Err? ==> r.error == SelfLoopArgument(a)
    ensures r.Ok? ==> r.value.Canonical()
    ensures r.Ok? ==> {r.value.A, r.value.B} == {a, b}
  {
    if a == b then Err(SelfLoopArgument(a))
    else if a < b then Ok(Edge(a, b))
    else Ok(Edge(b, a))
  }

  /** The constructor is insensitive to the order of its arguments, and the
      canonical pair determines the edge: `Edge(a, b) == Edge(b, a)`. */
  lemma NewEdgeSymmetric(a: int, b: int)
    requires a != b
    ensures NewEdge(a, b) == NewEdge(b, a)
    ensures NewEdge(a, b).value == Edge(Min(a, b), Max(a, b))
  {
  }

  /** Two constructed edges are equal exactly when they join the same two ids. */
  lemma NewEdgeEquality(a: int, b: int, c: int, d: int)
    requires a != b && c != d
    ensures NewEdge(a, b) == NewEdge(c, d) <==> {a, b} == {c, d}
  {
    if {a, b} == {c, d} {
      assert a == c || a == d;
      assert b in {c, d};
    }
  }

  /** The rendering of `Edge(a, b)` puts the smaller id first whatever the argument order. */
  lemma ToStringSmallerFirst(a: int, b: int)
    requires a != b
    ensures NewEdge(a, b).value.ToString()
         == Text.IntToString(Min(a, b)) + "-" + Text.IntToString(Max(a, b))
    ensures NewEdge(a, b).value.ToString() == NewEdge(b, a).value.ToString()
  {
  }
}
