/** Welsh–Powell greedy colouring (Algorithms/GraphColoring.cs): the nodes of a subset
    are taken by decreasing degree, ties by increasing id, and each gets the smallest
    colour not already given to one of its neighbours in the subset. */
module Coloring {
  import opened Wrappers
  import opened Graphs
  import opened Reach
  import Ids
  import Components

  // ---- the priority order ----

  /** Welsh–Powell priority: larger degree first, then smaller id. */
  predicate Precedes(adj: Adjacency, a: int, b: int) {
    DegreeOf(adj, a) > DegreeOf(adj, b) || (DegreeOf(adj, a) == DegreeOf(adj, b) && a < b)
  }

  lemma {:induction false} FirstExists(adj: Adjacency, s: set<int>)
    requires s != {}
    ensures exists f :: f in s && forall y | y in s && y != f :: Precedes(adj, f, y)
  {
    var x := Ids.Pick(s);
    var rest := s - {x};
    if rest != {} {
      FirstExists(adj, rest);
      var f :| f in rest && forall y | y in rest && y != f :: Precedes(adj, f, y);
      var first := if Precedes(adj, x, f) then x else f;
      forall y | y in s && y != first ensures Precedes(adj, first, y) {
        if y != x && y != f { assert y in rest; }
      }
      assert first in s;
    } else {
      assert s == {x};
    }
  }

  /** The node of `s` that comes first in priority. */
  function FirstOf(adj: Adjacency, s: set<int>): (f: int)
    requires s != {}
    ensures f in s && forall y | y in s && y != f :: Precedes(adj, f, y)
  {
    FirstExists(adj, s);
    var f :| f in s && (forall y | y in s && y != f :: Precedes(adj, f, y)); f
  }

  /** `subset.OrderByDescending(Degree).ThenBy(id)`: the subset listed in priority order. */
  function PriorityOrder(adj: Adjacency, s: set<int>): (r: seq<int>)
    ensures forall i, j | 0 <= i < j < |r| :: Precedes(adj, r[i], r[j])
    ensures forall x :: x in r <==> x in s
    ensures |r| == |s|
    decreases |s|
  {
    if s == {} then []
    else
      var f := FirstOf(adj, s);
      [f] + PriorityOrder(adj, s - {f})
  }

  /** In the priority listing, one node precedes another exactly when it is listed earlier. */
  lemma PrecedesIffEarlier(adj: Adjacency, s: set<int>, a: int, b: int)
    requires var order := PriorityOrder(adj, s); 0 <= a < |order| && 0 <= b < |order|
    ensures var order := PriorityOrder(adj, s); Precedes(adj, order[a], order[b]) <==> a < b
  {
    var order := PriorityOrder(adj, s);
    if a > b {
      assert Precedes(adj, order[b], order[a]);
    }
  }

  lemma PriorityNoDuplicates(adj: Adjacency, s: set<int>)
    ensures Ids.NoDuplicates(PriorityOrder(adj, s))
  {
    var order := PriorityOrder(adj, s);
    forall i, j | 0 <= i < j < |order| ensures order[i] != order[j] {
      assert Precedes(adj, order[i], order[j]);
    }
  }

  // ---- the least free colour ----

  /** `int color = 0; while (used.Contains(color)) color++;` */
  function LeastFree(used: set<int>): (c: nat)
    ensures c !in used
    ensures forall k | 0 <= k < c :: k in used
  {
    LeastFreeFrom(used, 0)
  }

  function LeastFreeFrom(used: set<int>, c: nat): (r: nat)
    requires forall k | 0 <= k < c :: k in used
    ensures c <= r && r !in used
    ensures forall k | 0 <= k < r :: k in used
    decreases |used| - c
  {
    if c in used then
      Ids.RangeIncluded(used, c + 1);
      LeastFreeFrom(used, c + 1)
    else c
  }

  /** The least free colour is the only colour that is free while all below it are taken. */
  lemma LeastFreeUnique(used: set<int>, c: nat)
    requires c !in used && forall k | 0 <= k < c :: k in used
    ensures c == LeastFree(used)
  {
  }

  /** The least free colour never exceeds the number of colours in use. */
  lemma LeastFreeBound(used: set<int>)
    ensures LeastFree(used) <= |used|
  {
    Ids.RangeIncluded(used, LeastFree(used));
  }

  // ---- the colouring as a function of the order ----

  /** The colours already given to the neighbours of `v` that lie in the subset. */
  function UsedColors(adj: Adjacency, subset: set<int>, m: map<int, nat>, v: int): set<int> {
    if v in adj then set nb | nb in adj[v] && nb in subset && nb in m :: m[nb] as int else {}
  }

  /** The colours of the neighbours of `v` that come before it in priority. */
  ghost function PrecedingColors(adj: Adjacency, m: map<int, nat>, v: int): set<int> {
    if v in adj then set u | u in m && u in adj[v] && Precedes(adj, u, v) :: m[u] as int else {}
  }

  /** Greedy colouring of the nodes of `order`, one after the other. */
  function Greedy(adj: Adjacency, subset: set<int>, order: seq<int>): map<int, nat> {
    if order == [] then map[]
    else
      var prev := Greedy(adj, subset, order[..|order| - 1]);
      var v := order[|order| - 1];
      prev[v := LeastFree(UsedColors(adj, subset, prev, v))]
  }

  lemma {:induction false} GreedyKeys(adj: Adjacency, subset: set<int>, order: seq<int>)
    ensures forall x :: x in Greedy(adj, subset, order) <==> x in order
  {
    if order != [] {
      var init := order[..|order| - 1];
      GreedyKeys(adj, subset, init);
      assert order == init + [order[|order| - 1]];
    }
  }

  /** A node's colour is fixed when it is coloured and never changes afterwards. */
  lemma {:induction false} GreedyStable(adj: Adjacency, subset: set<int>, order: seq<int>, k: int)
    requires Ids.NoDuplicates(order) && 0 <= k < |order|
    ensures order[k] in Greedy(adj, subset, order[..k + 1])
    ensures order[k] in Greedy(adj, subset, order)
    ensures Greedy(adj, subset, order)[order[k]] == Greedy(adj, subset, order[..k + 1])[order[k]]
  {
    if k < |order| - 1 {
      var init := order[..|order| - 1];
      GreedyStable(adj, subset, init, k);
      assert init[..k + 1] == order[..k + 1];
      assert init[k] == order[k];
      assert order[|order| - 1] != order[k];
    } else {
      assert order[..k + 1] == order;
    }
    assert (order[..k + 1])[..k] == order[..k];
  }

  /** The colour of the node at position `k` as the loop assigns it. */
  lemma GreedyColorAt(adj: Adjacency, subset: set<int>, order: seq<int>, k: int)
    requires Ids.NoDuplicates(order) && 0 <= k < |order|
    ensures order[k] in Greedy(adj, subset, order)
    ensures Greedy(adj, subset, order)[order[k]]
         == LeastFree(UsedColors(adj, subset, Greedy(adj, subset, order[..k]), order[k]))
  {
    GreedyStable(adj, subset, order, k);
    assert (order[..k + 1])[..k] == order[..k];
  }

  /** Before position `b`, the earlier nodes already carry their final colours. */
  lemma GreedyPrefixAgrees(adj: Adjacency, subset: set<int>, order: seq<int>, b: int, a: int)
    requires Ids.NoDuplicates(order) && 0 <= a < b <= |order|
    ensures order[a] in Greedy(adj, subset, order[..b]) && order[a] in Greedy(adj, subset, order)
    ensures Greedy(adj, subset, order[..b])[order[a]] == Greedy(adj, subset, order)[order[a]]
  {
    var pre := order[..b];
    assert Ids.NoDuplicates(pre);
    GreedyStable(adj, subset, pre, a);
    assert pre[..a + 1] == order[..a + 1] && pre[a] == order[a];
    GreedyStable(adj, subset, order, a);
  }

  /** For the priority listing of the subset, the colours the loop finds on the
      neighbours of the next node are the colours of its higher-priority neighbours. */
  lemma UsedIsPreceding(adj: Adjacency, subset: set<int>, b: int)
    requires var order := PriorityOrder(adj, subset); 0 <= b < |order|
    ensures var order := PriorityOrder(adj, subset);
            UsedColors(adj, subset, Greedy(adj, subset, order[..b]), order[b])
              == PrecedingColors(adj, Greedy(adj, subset, order), order[b])
  {
    UsedArePreceding(adj, subset, b);
    PrecedingAreUsed(adj, subset, b);
  }

  /** One half of `UsedIsPreceding`: a colour the loop finds is a higher-priority one. */
  lemma UsedArePreceding(adj: Adjacency, subset: set<int>, b: int)
    requires var order := PriorityOrder(adj, subset); 0 <= b < |order|
    ensures var order := PriorityOrder(adj, subset);
            UsedColors(adj, subset, Greedy(adj, subset, order[..b]), order[b])
              <= PrecedingColors(adj, Greedy(adj, subset, order), order[b])
  {
    var order := PriorityOrder(adj, subset);
    var v := order[b];
    var pre := Greedy(adj, subset, order[..b]);
    var m := Greedy(adj, subset, order);
    if v in adj {
      forall c | c in UsedColors(adj, subset, pre, v) ensures c in PrecedingColors(adj, m, v) {
        var nb :| nb in adj[v] && nb in subset && nb in pre && pre[nb] as int == c;
        ColoredEarlier(adj, subset, b, nb);
      }
    }
  }

  /** A node the loop has coloured before position `b` precedes the node there in priority
      and keeps its colour to the end. */
  lemma ColoredEarlier(adj: Adjacency, subset: set<int>, b: int, nb: int)
    requires var order := PriorityOrder(adj, subset);
             0 <= b < |order| && nb in Greedy(adj, subset, order[..b])
    ensures var order := PriorityOrder(adj, subset);
            && nb in Greedy(adj, subset, order) && Precedes(adj, nb, order[b])
            && Greedy(adj, subset, order)[nb] == Greedy(adj, subset, order[..b])[nb]
  {
    var order := PriorityOrder(adj, subset);
    PriorityNoDuplicates(adj, subset);
    GreedyKeys(adj, subset, order[..b]);
    assert nb in order[..b];
    var a :| 0 <= a < b && order[..b][a] == nb;
    assert order[a] == nb;
    GreedyPrefixAgrees(adj, subset, order, b, a);
    PrecedesIffEarlier(adj, subset, a, b);
  }

  /** The other half of `UsedIsPreceding`: a higher-priority colour is one the loop finds. */
  lemma PrecedingAreUsed(adj: Adjacency, subset: set<int>, b: int)
    requires var order := PriorityOrder(adj, subset); 0 <= b < |order|
    ensures var order := PriorityOrder(adj, subset);
            PrecedingColors(adj, Greedy(adj, subset, order), order[b])
              <= UsedColors(adj, subset, Greedy(adj, subset, order[..b]), order[b])
  {
    var order := PriorityOrder(adj, subset);
    var v := order[b];
    var pre := Greedy(adj, subset, order[..b]);
    var m := Greedy(adj, subset, order);
    PriorityNoDuplicates(adj, subset);
    GreedyKeys(adj, subset, order);
    if v in adj {
      forall c | c in PrecedingColors(adj, m, v) ensures c in UsedColors(adj, subset, pre, v) {
        var u :| u in m && u in adj[v] && Precedes(adj, u, v) && m[u] as int == c;
        assert u in order;
        var a :| 0 <= a < |order| && order[a] == u;
        PrecedesIffEarlier(adj, subset, a, b);
        GreedyPrefixAgrees(adj, subset, order, b, a);
        assert u in subset && u in pre;
      }
    }
  }

  /** The Welsh–Powell colouring of a subset given as its own set. */
  function SubsetColoring(adj: Adjacency, subset: set<int>): map<int, nat> {
    Greedy(adj, subset, PriorityOrder(adj, subset))
  }

  /** The Welsh–Powell characterisation: every node of the subset gets the least colour
      not taken by its higher-priority neighbours in the subset. */
  lemma GreedyIsLeastFreeOverPredecessors(adj: Adjacency, subset: set<int>)
    ensures forall v | v in SubsetColoring(adj, subset) ::
              SubsetColoring(adj, subset)[v] == LeastFree(PrecedingColors(adj, SubsetColoring(adj, subset), v))
  {
    var order := PriorityOrder(adj, subset);
    var m := Greedy(adj, subset, order);
    PriorityNoDuplicates(adj, subset);
    GreedyKeys(adj, subset, order);
    forall v | v in m ensures m[v] == LeastFree(PrecedingColors(adj, m, v)) {
      var b :| 0 <= b < |order| && order[b] == v;
      GreedyColorAt(adj, subset, order, b);
      UsedIsPreceding(adj, subset, b);
    }
  }

  /** No two neighbours share a colour. */
  ghost predicate Proper(adj: Adjacency, m: map<int, nat>) {
    forall u, v | u in m && v in m && u in adj && v in adj[u] :: m[u] != m[v]
  }

  /** The least-free rule over higher-priority neighbours gives a proper colouring. */
  lemma LeastFreeRuleIsProper(adj: Adjacency, m: map<int, nat>)
    requires WellFormed(adj)
    requires forall v | v in m :: m[v] == LeastFree(PrecedingColors(adj, m, v))
    ensures Proper(adj, m)
  {
    forall u, v | u in m && v in m && u in adj && v in adj[u] ensures m[u] != m[v] {
      assert u != v;
      if Precedes(adj, u, v) {
        assert m[u] as int in PrecedingColors(adj, m, v);
      } else {
        assert Precedes(adj, v, u);
        assert m[v] as int in PrecedingColors(adj, m, u);
      }
    }
  }

  /** A node's colour is at most its number of neighbours. */
  lemma LeastFreeRuleBound(adj: Adjacency, m: map<int, nat>, v: int)
    requires v in m && m[v] == LeastFree(PrecedingColors(adj, m, v))
    ensures m[v] <= DegreeOf(adj, v)
  {
    LeastFreeBound(PrecedingColors(adj, m, v));
    if v in adj {
      var nbs := set u | u in m && u in adj[v] && Precedes(adj, u, v);
      assert PrecedingColors(adj, m, v) == set u | u in nbs :: m[u] as int;
      ImageCardinality(nbs, m);
      Ids.SubsetCardinality(nbs, adj[v]);
    }
  }

  /** Looking up the keys of a set in a map yields no more values than keys. */
  lemma {:induction false} ImageCardinality(keys: set<int>, m: map<int, nat>)
    requires keys <= m.Keys
    ensures |set u | u in keys :: m[u] as int| <= |keys|
    decreases |keys|
  {
    if keys != {} {
      var x := Ids.Pick(keys);
      var rest := keys - {x};
      ImageCardinality(rest, m);
      assert (set u | u in keys :: m[u] as int) == (set u | u in rest :: m[u] as int) + {m[x] as int};
    }
  }

  // ---- the operations ----

  /** The colours taken by the neighbours of `v` inside the subset, gathered one neighbour
      at a time. */
  method CollectUsed(adj: Adjacency, subset: set<int>, colorOf: map<int, nat>, v: int)
    returns (used: set<int>)
    requires v in adj
    ensures used == UsedColors(adj, subset, colorOf, v)
  {
    used := {};
    var rest := adj[v];
    while rest != {}
      invariant rest <= adj[v]
      invariant used == set nb | nb in adj[v] - rest && nb in subset && nb in colorOf :: colorOf[nb] as int
      decreases rest
    {
      ghost var w := Ids.Pick(rest);
      var nb :| nb in rest;
      rest := rest - {nb};
      if nb in subset && nb in colorOf {
        used := used + {colorOf[nb] as int};
      }
    }
  }

  /** Counting up from colour 0 until a colour is free. */
  method SmallestFree(used: set<int>) returns (color: nat)
    ensures color == LeastFree(used)
  {
    color := 0;
    while color in used
      invariant forall k | 0 <= k < color :: k in used
      decreases |used| - color
    {
      Ids.RangeIncluded(used, color + 1);
      color := color + 1;
    }
    LeastFreeUnique(used, color);
  }

  /** The colouring of a subset colours exactly the subset, and properly. */
  lemma SubsetColoringProper(adj: Adjacency, subset: set<int>)
    requires WellFormed(adj)
    ensures SubsetColoring(adj, subset).Keys == subset
    ensures Proper(adj, SubsetColoring(adj, subset))
  {
    GreedyKeys(adj, subset, PriorityOrder(adj, subset));
    GreedyIsLeastFreeOverPredecessors(adj, subset);
    LeastFreeRuleIsProper(adj, SubsetColoring(adj, subset));
    forall x ensures x in SubsetColoring(adj, subset) <==> x in subset {
      assert x in PriorityOrder(adj, subset) <==> x in subset;
    }
  }

  /** No node of the subset gets a colour above its degree. */
  lemma SubsetColoringBound(adj: Adjacency, subset: set<int>)
    ensures forall v | v in SubsetColoring(adj, subset) :: SubsetColoring(adj, subset)[v] <= DegreeOf(adj, v)
  {
    var m := SubsetColoring(adj, subset);
    GreedyIsLeastFreeOverPredecessors(adj, subset);
    forall v | v in m ensures m[v] <= DegreeOf(adj, v) {
      LeastFreeRuleBound(adj, m, v);
    }
  }

  /** The first node of the priority listing that is not in the graph is the smallest
      such id: missing ids have degree 0 and so sort by id after every present node of
      larger degree. */
  lemma FirstMissingIsSmallest(adj: Adjacency, subset: set<int>, i: int)
    requires var order := PriorityOrder(adj, subset); 0 <= i < |order|
    requires var order := PriorityOrder(adj, subset);
             order[i] !in adj && forall k | 0 <= k < i :: order[k] in adj
    ensures var order := PriorityOrder(adj, subset);
            forall w | w in subset && w !in adj :: order[i] <= w
  {
    var order := PriorityOrder(adj, subset);
    forall w | w in subset && w !in adj ensures order[i] <= w {
      var j :| 0 <= j < |order| && order[j] == w;
      if i < j {
        assert Precedes(adj, order[i], order[j]);
      }
    }
  }

  /** One more node of the listing coloured: the greedy colouring grows by that node with
      the least colour its coloured neighbours in the subset leave free. */
  lemma GreedyStep(adj: Adjacency, subset: set<int>, order: seq<int>, i: int)
    requires 0 <= i < |order|
    ensures var prev := Greedy(adj, subset, order[..i]);
            Greedy(adj, subset, order[..i + 1])
              == prev[order[i] := LeastFree(UsedColors(adj, subset, prev, order[i]))]
  {
    assert order[..i + 1][..i] == order[..i];
  }

  /** What a finished run promises: once every listed node is in the graph, so is every
      node of the subset, and its colouring covers exactly the subset, follows the
      least-free rule, is proper and stays within the degrees. */
  lemma SubsetColoringFacts(adj: Adjacency, nodesSubset: seq<int>)
    requires WellFormed(adj)
    requires forall x | x in PriorityOrder(adj, Ids.Elements(nodesSubset)) :: x in adj
    ensures forall v | v in nodesSubset :: v in adj
    ensures var m := SubsetColoring(adj, Ids.Elements(nodesSubset));
            && (forall x :: x in m <==> x in nodesSubset)
            && (forall v | v in m :: m[v] == LeastFree(PrecedingColors(adj, m, v)))
            && Proper(adj, m)
            && (forall v | v in m :: m[v] <= DegreeOf(adj, v))
  {
    var subset := Ids.Elements(nodesSubset);
    var order := PriorityOrder(adj, subset);
    forall v | v in nodesSubset ensures v in adj {
      assert v in subset && v in order;
    }
    SubsetColoringProper(adj, subset);
    SubsetColoringBound(adj, subset);
    GreedyIsLeastFreeOverPredecessors(adj, subset);
  }

  /** One pass of the colouring loop: the node at position `i` gets the least colour its
      already-coloured neighbours in the subset leave free. */
  method ColorNext(adj: Adjacency, subset: set<int>, order: seq<int>, i: int, colorOf: map<int, nat>)
    returns (colorOf': map<int, nat>)
    requires 0 <= i < |order| && order[i] in adj
    requires colorOf == Greedy(adj, subset, order[..i])
    ensures colorOf' == Greedy(adj, subset, order[..i + 1])
  {
    var v := order[i];
    var used := CollectUsed(adj, subset, colorOf, v);
    var color := SmallestFree(used);
    GreedyStep(adj, subset, order, i);
    colorOf' := colorOf[v := color];
  }

  /** `WelshPowell(graph, subset)`: fails with NodeNotFound on the smallest id of the
      subset that is not a node; otherwise colours exactly the subset, each node with the
      least colour not taken by its higher-priority neighbours in the subset, which is
      a proper colouring using no colour above a node's degree. */
  method WelshPowell(g: Graph, nodesSubset: seq<int>) returns (r: Result<map<int, nat>>)
    requires g.Valid()
    ensures r.Err? <==> exists v | v in nodesSubset :: v !in g.nodes
    ensures r.Err? ==>
      && r.error.NodeNotFound? && r.error.id in nodesSubset && r.error.id !in g.nodes
      && forall v | v in nodesSubset && v !in g.nodes :: r.error.id <= v
    ensures r.Ok? ==> r.value == SubsetColoring(g.adj, Ids.Elements(nodesSubset))
    ensures r.Ok? ==> forall x :: x in r.value <==> x in nodesSubset
    ensures r.Ok? ==> forall v | v in r.value :: r.value[v] == LeastFree(PrecedingColors(g.adj, r.value, v))
    ensures r.Ok? ==> Proper(g.adj, r.value)
    ensures r.Ok? ==> forall v | v in r.value :: r.value[v] <= DegreeOf(g.adj, v)
  {
    var adj := g.adj;
    var subset := Ids.Elements(nodesSubset);
    var order := PriorityOrder(adj, subset);
    var colorOf: map<int, nat> := map[];
    for i := 0 to |order|
      invariant colorOf == Greedy(adj, subset, order[..i])
      invariant forall k | 0 <= k < i :: order[k] in adj
    {
      var v := order[i];
      if v !in g.nodes {
        assert v in nodesSubset && forall w | w in nodesSubset && w !in g.nodes :: v <= w by {
          FirstMissingIsSmallest(adj, subset, i);
        }
        return Err(NodeNotFound(v));
      }
      colorOf := ColorNext(adj, subset, order, i, colorOf);
    }
    assert forall x | x in order :: x in adj by {
      assert order[..|order|] == order;
    }
    assert colorOf == SubsetColoring(adj, subset) by {
      assert order[..|order|] == order;
    }
    SubsetColoringFacts(adj, nodesSubset);
    return Ok(colorOf);
  }

  /** The colourings of the components merged in order, a later component's colour
      replacing an earlier one for a node listed twice. */
  function MergeAll(adj: Adjacency, components: seq<seq<int>>): map<int, nat> {
    if components == [] then map[]
    else
      MergeAll(adj, components[..|components| - 1])
        + SubsetColoring(adj, Ids.Elements(components[|components| - 1]))
  }

  /** The colouring of a subset colours exactly the subset. */
  lemma SubsetColoringKeys(adj: Adjacency, subset: set<int>)
    ensures forall x :: x in SubsetColoring(adj, subset) <==> x in subset
  {
    GreedyKeys(adj, subset, PriorityOrder(adj, subset));
    forall x ensures x in SubsetColoring(adj, subset) <==> x in subset {
      assert x in PriorityOrder(adj, subset) <==> x in subset;
    }
  }

  /** Merging one more component adds exactly its ids. */
  lemma MergeAllLast(adj: Adjacency, components: seq<seq<int>>)
    requires components != []
    ensures forall x :: x in MergeAll(adj, components) <==>
      x in MergeAll(adj, components[..|components| - 1]) || x in components[|components| - 1]
  {
    SubsetColoringKeys(adj, Ids.Elements(components[|components| - 1]));
  }

  /** Every id the merged colouring colours is listed in some component. */
  lemma {:induction false} MergeAllListed(adj: Adjacency, components: seq<seq<int>>)
    ensures forall x | x in MergeAll(adj, components) :: exists c | 0 <= c < |components| :: x in components[c]
  {
    if components != [] {
      var init := components[..|components| - 1];
      MergeAllListed(adj, init);
      MergeAllLast(adj, components);
      forall x | x in MergeAll(adj, components) ensures exists c | 0 <= c < |components| :: x in components[c] {
        if x !in components[|components| - 1] {
          var c :| 0 <= c < |init| && x in init[c];
          assert components[c] == init[c];
        }
      }
    }
  }

  /** Every id listed in some component is coloured by the merged colouring. */
  lemma {:induction false} MergeAllCovers(adj: Adjacency, components: seq<seq<int>>)
    ensures forall x, c | 0 <= c < |components| && x in components[c] :: x in MergeAll(adj, components)
  {
    if components != [] {
      var init := components[..|components| - 1];
      MergeAllCovers(adj, init);
      MergeAllLast(adj, components);
      forall x, c | 0 <= c < |components| - 1 && x in components[c] ensures x in MergeAll(adj, components) {
        assert init[c] == components[c];
      }
    }
  }

  lemma MergeAllKeys(adj: Adjacency, components: seq<seq<int>>)
    ensures forall x :: x in MergeAll(adj, components) <==> exists c | 0 <= c < |components| :: x in components[c]
  {
    MergeAllListed(adj, components);
    MergeAllCovers(adj, components);
  }

  /** When no edge leaves any component, colouring the components one by one and
      merging the results gives a proper colouring of all their nodes. */
  lemma {:induction false} MergeAllProper(adj: Adjacency, components: seq<seq<int>>)
    requires WellFormed(adj)
    requires forall c | 0 <= c < |components| :: Closed(adj, Ids.Elements(components[c]))
    ensures Proper(adj, MergeAll(adj, components))
  {
    if components != [] {
      var init := components[..|components| - 1];
      var last := Ids.Elements(components[|components| - 1]);
      assert forall c | 0 <= c < |init| :: init[c] == components[c];
      MergeAllProper(adj, init);
      SubsetColoringProper(adj, last);
      MergeProperStep(adj, MergeAll(adj, init), SubsetColoring(adj, last), last);
    }
  }

  /** Overwriting a proper colouring with a proper colouring of a neighbour-closed set
      keeps it proper. */
  lemma MergeProperStep(adj: Adjacency, prev: map<int, nat>, local: map<int, nat>, last: set<int>)
    requires WellFormed(adj) && Closed(adj, last)
    requires Proper(adj, prev) && Proper(adj, local) && local.Keys == last
    ensures Proper(adj, prev + local)
  {
    var m := prev + local;
    forall u, v | u in m && v in m && u in adj && v in adj[u] ensures m[u] != m[v] {
      if u in local {
        assert adj[u] <= last;
      } else if v in local {
        assert false;
      }
    }
  }

  /** The position of the first component that lists an id outside `nodes`. */
  function FirstBad(components: seq<seq<int>>, nodes: set<int>): (c: nat)
    requires exists c, v | 0 <= c < |components| && v in components[c] :: v !in nodes
    ensures c < |components| && exists v | v in components[c] :: v !in nodes
    ensures forall d, v | 0 <= d < c && v in components[d] :: v in nodes
  {
    if exists v | v in components[0] :: v !in nodes then 0
    else
      assert forall d | 1 <= d < |components| :: components[d] == components[1..][d - 1];
      1 + FirstBad(components[1..], nodes)
  }

  /** A component listing an id outside `nodes`, after components that list none, is the
      first such component. */
  lemma {:induction false} FirstBadAt(components: seq<seq<int>>, nodes: set<int>, i: nat, v: int)
    requires i < |components| && v in components[i] && v !in nodes
    requires forall d, u | 0 <= d < i && u in components[d] :: u in nodes
    ensures FirstBad(components, nodes) == i
  {
    if i > 0 {
      var tail := components[1..];
      assert tail[i - 1] == components[i];
      forall d, u | 0 <= d < i - 1 && u in tail[d] ensures u in nodes {
        assert tail[d] == components[d + 1];
      }
      FirstBadAt(tail, nodes, i - 1, v);
    }
  }

  /** The ids of `component` that are not in `nodes`. */
  function Missing(component: seq<int>, nodes: set<int>): set<int> {
    set v | v in component && v !in nodes
  }

  /** `WelshPowellPerComponent(graph, components)`: colours every component on its own and
      merges the colourings; the first component that lists an id that is not a node
      makes it fail, with that component's NodeNotFound error. */
  method WelshPowellPerComponent(g: Graph, components: seq<seq<int>>) returns (r: Result<map<int, nat>>)
    requires g.Valid()
    ensures r.Err? <==> exists c, v | 0 <= c < |components| && v in components[c] :: v !in g.nodes
    ensures r.Err? ==>
      var c := FirstBad(components, g.nodes.Keys);
      Missing(components[c], g.nodes.Keys) != {}
      && r.error == NodeNotFound(Ids.MinOf(Missing(components[c], g.nodes.Keys)))
    ensures r.Ok? ==> r.value == MergeAll(g.adj, components)
    ensures r.Ok? ==> forall x :: x in r.value <==> exists c | 0 <= c < |components| :: x in components[c]
    ensures r.Ok? && (forall c | 0 <= c < |components| :: Closed(g.adj, Ids.Elements(components[c]))) ==>
              Proper(g.adj, r.value)
  {
    var result: map<int, nat> := map[];
    for i := 0 to |components|
      invariant result == MergeAll(g.adj, components[..i])
      invariant forall c, v | 0 <= c < i && v in components[c] :: v in g.nodes
    {
      var local := WelshPowell(g, components[i]);
      if local.Err? {
        var id := local.error.id;
        FirstBadAt(components, g.nodes.Keys, i, id);
        var missing := Missing(components[i], g.nodes.Keys);
        assert id in missing;
        assert id == Ids.MinOf(missing);
        return Err(local.error);
      }
      assert components[..i + 1][..i] == components[..i];
      result := result + local.value;
    }
    assert components[..|components|] == components;
    MergeAllKeys(g.adj, components);
    if forall c | 0 <= c < |components| :: Closed(g.adj, Ids.Elements(components[c])) {
      MergeAllProper(g.adj, components);
    }
    return Ok(result);
  }

  /** The components found by the component search are closed under neighbours, so
      colouring them one by one is proper on the whole graph. */
  lemma ComponentsAreClosed(adj: Adjacency, comps: seq<seq<int>>)
    requires WellFormed(adj) && Components.IsComponentList(adj, comps)
    ensures forall c | 0 <= c < |comps| :: Closed(adj, Ids.Elements(comps[c]))
  {
    forall c | 0 <= c < |comps| ensures Closed(adj, Ids.Elements(comps[c])) {
      forall u | u in Ids.Elements(comps[c]) && u in adj ensures adj[u] <= Ids.Elements(comps[c]) {
        forall x | x in adj[u] ensures x in comps[c] {
          ReachableStep(adj, comps[c][0], u, x);
        }
      }
    }
  }

  /** `CountColors(colorOf)`: 0 for no colouring, otherwise one more than the largest colour. */
  function CountColors(colorOf: map<int, nat>): (n: nat)
    ensures colorOf == map[] ==> n == 0
    ensures forall v | v in colorOf :: colorOf[v] < n
    ensures colorOf != map[] ==> exists v | v in colorOf :: colorOf[v] == n - 1
  {
    if colorOf == map[] then 0
    else
      var values := set v | v in colorOf :: colorOf[v] as int;
      assert values != {} by {
        var w := Ids.Pick(colorOf.Keys);
        assert colorOf[w] as int in values;
      }
      var top := Ids.MaxOf(values);
      assert exists v | v in colorOf :: colorOf[v] as int == top by {
        assert top in values;
      }
      assert forall v | v in colorOf :: colorOf[v] <= top by {
        forall v | v in colorOf ensures colorOf[v] <= top {
          assert colorOf[v] as int in values;
        }
      }
      top + 1
  }

  /** Welsh–Powell never needs more than one colour beyond the largest degree in the subset. */
  lemma WelshPowellColorBound(adj: Adjacency, subset: set<int>, d: nat)
    requires forall v | v in subset :: DegreeOf(adj, v) <= d
    ensures CountColors(SubsetColoring(adj, subset)) <= d + 1
  {
    var m := SubsetColoring(adj, subset);
    GreedyKeys(adj, subset, PriorityOrder(adj, subset));
    GreedyIsLeastFreeOverPredecessors(adj, subset);
    if m != map[] {
      var n := CountColors(m);
      var v :| v in m && m[v] == n - 1;
      assert m[v] == LeastFree(PrecedingColors(adj, m, v));
      LeastFreeRuleBound(adj, m, v);
    }
  }
}
