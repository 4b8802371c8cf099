# Social network analyzer — a Dafny model of its core

The Social Network Analyzer keeps an undirected social graph. Nodes carry an id, a label, two
numeric features (activity and interaction) and a drawing position. Edges join two distinct
nodes. On this graph it runs several analyses:

- breadth-first and depth-first traversal;
- connected components;
- Welsh–Powell colouring;
- degree centrality;
- Dijkstra and A* shortest paths.

It also stores graphs as text: a blank-separated CSV file, and a 0/1 adjacency matrix.

This project models that core in Dafny:

- **Graph store**: the `Graph` class of `Models/Graph.cs` becomes a Dafny `class` (module
  `Graphs`). Its fields are a node map, an adjacency map and an edge set. `Valid()` ties them
  together: the adjacency is symmetric and loop-free, its keys are the nodes, and the edge set
  is exactly the adjacency's pairs with the smaller id first. Every mutator keeps `Valid()` and
  states its whole new state. A failure is an `Outcome`/`Result` value carrying the error kind
  (node not found, duplicate node, duplicate edge, self-loop, missing endpoint).
- **Node**: `Node` is a class whose id is constant and whose label and numbers `Update`
  changes. **Edge**: `Edge` is a datatype, built by `NewEdge`, which fails on a self-loop and
  puts the smaller id first.
- **Algorithms with loops**: BFS, DFS, component search, greedy colouring, Dijkstra and A* are
  methods over the store, with the source's loops and their invariants. Each is proved against
  an independent specification:
  - reachability (walks in the adjacency);
  - a depth-first order predicate that fixes the listing uniquely;
  - components as reachability classes;
  - the least-free-colour rule, which gives a proper colouring;
  - path cost with a lower bound over every walk.
- **CSV files**: the CSV side of `IO/GraphIO.cs` is split in two.
  - Pure text functions: field splitting, neighbour-list parsing, line filtering, and the row
    layout of a saved file.
  - Methods on the store: `LoadCsv`'s row loop and edge loop, `SaveCsv`, and the matrix of
    `ExportAdjacencyMatrixCsv`.
  - A file is a sequence of lines. The round-trip lemma `GraphIO.SaveThenLoad` shows what
    reading a saved file gives back.

Parameters stand in for several things the source computes:

- **Edge weight.** The source's `DynamicWeightCalculator` returns `1 / (1 + distance)`. The
  model takes the weight as a positive function `w`.
- **A\* heuristic.** The model takes it as a function `h`.
- **Number text.** The text form of the floating-point columns is a formatter and a parser.
- **Drawing positions.** New nodes' positions are a function of the row index.

Source paths in the table are relative to the repository root.

## Model

| member | source | states |
|---|---|---|
| Graphs.Graph.constructor | SocialNetworkAnalyzer.App/SocialNetworkAnalyzer.Core/Models/Graph.cs:9-11 | a new store is empty and valid |
| Graphs.Graph.GetNode | SocialNetworkAnalyzer.App/SocialNetworkAnalyzer.Core/Models/Graph.cs:16-21 | succeeds exactly for a stored id and returns that node; otherwise NodeNotFound |
| Graphs.Graph.Degree | SocialNetworkAnalyzer.App/SocialNetworkAnalyzer.Core/Models/Graph.cs:23 | 0 for an unknown id, else the neighbour count, at most n-1 |
| Graphs.Graph.GetNeighbors | SocialNetworkAnalyzer.App/SocialNetworkAnalyzer.Core/Models/Graph.cs:25-31 | NodeNotFound exactly for an unknown id; otherwise the neighbour set, which excludes the node, holds only nodes and is symmetric |
| Graphs.Graph.AddNode | SocialNetworkAnalyzer.App/SocialNetworkAnalyzer.Core/Models/Graph.cs:33-40 | fails with DuplicateNode exactly when the id is stored, changing nothing; else adds the node with no neighbours and keeps the store valid |
| Graphs.Graph.UpdateNode | SocialNetworkAnalyzer.App/SocialNetworkAnalyzer.Core/Models/Graph.cs:42-46 | NodeNotFound exactly for an unknown id; else the node's label and numbers become `ApplyUpdate` of the old ones and its position is kept |
| Graphs.Graph.EdgeExists | SocialNetworkAnalyzer.App/SocialNetworkAnalyzer.Core/Models/Graph.cs:61 | fails exactly on a == b (the edge constructor's self-loop); else true exactly when the two are adjacent, in either order |
| Graphs.Graph.AddEdge | SocialNetworkAnalyzer.App/SocialNetworkAnalyzer.Core/Models/Graph.cs:63-78 | MissingEndpoint, then SelfLoop, then DuplicateEdge in the source's order, changing nothing; else the canonical edge is added, both adjacency sets gain the other end and both degrees grow by one |
| Graphs.Graph.RemoveEdge | SocialNetworkAnalyzer.App/SocialNetworkAnalyzer.Core/Models/Graph.cs:80-88 | fails exactly on a == b; an absent edge is a no-op; else the edge and both adjacency entries go and the nodes stay |
| Graphs.Graph.RemoveNode | SocialNetworkAnalyzer.App/SocialNetworkAnalyzer.Core/Models/Graph.cs:48-59 | NodeNotFound exactly for an unknown id; else the node, its adjacency entry, every reference to it and every edge touching it are gone, and the store stays valid |
| Graphs.DegreeBound | SocialNetworkAnalyzer.App/SocialNetworkAnalyzer.Core/Models/Graph.cs:23 | in a well-formed adjacency a degree is at most n-1 |
| Graphs.EdgesOfAdd | SocialNetworkAnalyzer.App/SocialNetworkAnalyzer.Core/Models/Graph.cs:75-77 | adding b to a's set and a to b's adds exactly the edge (a,b) to the edge set |
| Graphs.EdgesOfRemove | SocialNetworkAnalyzer.App/SocialNetworkAnalyzer.Core/Models/Graph.cs:83-87 | removing both adjacency entries removes exactly the edge (a,b) |
| Graphs.WellFormedAdd | SocialNetworkAnalyzer.App/SocialNetworkAnalyzer.Core/Models/Graph.cs:75-77 | adding an edge between two distinct nodes keeps the adjacency symmetric and loop-free |
| Graphs.WellFormedRemove | SocialNetworkAnalyzer.App/SocialNetworkAnalyzer.Core/Models/Graph.cs:86-87 | removing an edge keeps the adjacency symmetric and loop-free |
| Graphs.EdgesOfDropIsolated | SocialNetworkAnalyzer.App/SocialNetworkAnalyzer.Core/Models/Graph.cs:57-58 | dropping a node with no neighbours leaves the edge set unchanged |
| Edges.NewEdge | SocialNetworkAnalyzer.App/SocialNetworkAnalyzer.Core/Models/Edge.cs:10-16 | fails exactly on a self-loop; else the smaller id first, holding exactly the two ends |
| Edges.NewEdgeSymmetric | SocialNetworkAnalyzer.App/SocialNetworkAnalyzer.Core/Models/Edge.cs:10-16 | the edge does not depend on argument order and is (min, max) |
| Edges.NewEdgeEquality | SocialNetworkAnalyzer.App/SocialNetworkAnalyzer.Core/Models/Edge.cs:18 | two edges are equal exactly when they join the same pair of nodes |
| Edges.ToStringSmallerFirst | SocialNetworkAnalyzer.App/SocialNetworkAnalyzer.Core/Models/Edge.cs:21 | the text is "min-max", the same for both argument orders |
| Nodes.Node.constructor | SocialNetworkAnalyzer.App/SocialNetworkAnalyzer.Core/Models/Node.cs:13-21 | every field takes its argument; the position defaults to (0, 0) |
| Nodes.Node.Update | SocialNetworkAnalyzer.App/SocialNetworkAnalyzer.Core/Models/Node.cs:23-28 | each given value replaces its field, each absent one keeps it; id and position stay |
| Nodes.ApplyUpdate | SocialNetworkAnalyzer.App/SocialNetworkAnalyzer.Core/Models/Node.cs:23-28 | field by field: the new value when given, the old one otherwise |
| Nodes.UpdateNothing | SocialNetworkAnalyzer.App/SocialNetworkAnalyzer.Core/Models/Node.cs:23-28 | an update with no values changes nothing |
| Nodes.UpdateIdempotent | SocialNetworkAnalyzer.App/SocialNetworkAnalyzer.Core/Models/Node.cs:23-28 | applying the same update twice equals applying it once |
| Reach.ReachableSymmetric | SocialNetworkAnalyzer.App/SocialNetworkAnalyzer.Core/Models/Graph.cs:76-77 | in the symmetric adjacency, reachability is symmetric |
| Reach.ReachableTransitive | SocialNetworkAnalyzer.App/SocialNetworkAnalyzer.Core/Algorithms/ConnectedComponents.cs:20-35 | reachability is transitive |
| Reach.ClosedContainsReachable | SocialNetworkAnalyzer.App/SocialNetworkAnalyzer.Core/Algorithms/ConnectedComponents.cs:20-35 | a neighbour-closed set holding s holds everything reachable from s |
| Reach.ReachableSetCharacterised | SocialNetworkAnalyzer.App/SocialNetworkAnalyzer.Core/Algorithms/Traversals.cs:21-31 | a neighbour-closed set of nodes reachable from s is exactly the set reachable from s |
| Traversals.EnqueueUnseen | SocialNetworkAnalyzer.App/SocialNetworkAnalyzer.Core/Algorithms/Traversals.cs:25-30 | enqueues, without repeats, exactly the neighbours not yet visited, and marks all neighbours visited |
| Traversals.BFS | SocialNetworkAnalyzer.App/SocialNetworkAnalyzer.Core/Algorithms/Traversals.cs:9-34 | NodeNotFound exactly for an unknown start; else a repeat-free listing starting at start, holding exactly the reachable nodes, each found from an earlier one, in order of hop distance: every listed node carries its hop distance (the fewest steps of any walk from start), and these never decrease along the listing |
| Traversals.BfsStep | SocialNetworkAnalyzer.App/SocialNetworkAnalyzer.Core/Algorithms/Traversals.cs:21-31 | one dequeue round: the head is listed, its unseen neighbours (exactly those) are queued, and listing and queue stay repeat-free, reachable, matched to the visited set and closed under neighbours of listed nodes |
| Traversals.LevelledStep | SocialNetworkAnalyzer.App/SocialNetworkAnalyzer.Core/Algorithms/Traversals.cs:21-31 | queueing the unseen neighbours one level below the dequeued node keeps levels sorted along listing and queue, the queue within two adjacent levels, and every level a walk length |
| Traversals.LevelledDone | SocialNetworkAnalyzer.App/SocialNetworkAnalyzer.Core/Algorithms/Traversals.cs:21-33 | once the queue is empty every listed node's level is its hop distance from the start |
| Traversals.DfsOrderUnique | SocialNetworkAnalyzer.App/SocialNetworkAnalyzer.Core/Algorithms/Traversals.cs:47-60 | two depth-first listings (smallest unvisited neighbour of the deepest open node next) from the same start over the same nodes are equal |
| Traversals.PushUnlisted | SocialNetworkAnalyzer.App/SocialNetworkAnalyzer.Core/Algorithms/Traversals.cs:55-59 | pushes exactly the unvisited neighbours, largest first, so the smallest is on top |
| Traversals.DfsVisit | SocialNetworkAnalyzer.App/SocialNetworkAnalyzer.Core/Algorithms/Traversals.cs:47-60 | visiting the top of the stack keeps the depth-first invariant and shrinks the unlisted nodes |
| Traversals.DfsDone | SocialNetworkAnalyzer.App/SocialNetworkAnalyzer.Core/Algorithms/Traversals.cs:47-60 | with the stack empty the listing holds exactly the reachable nodes |
| Traversals.DFS | SocialNetworkAnalyzer.App/SocialNetworkAnalyzer.Core/Algorithms/Traversals.cs:36-63 | NodeNotFound exactly for an unknown start; else a repeat-free depth-first listing from start holding exactly the reachable nodes |
| Components.ExpandComponent | SocialNetworkAnalyzer.App/SocialNetworkAnalyzer.Core/Algorithms/ConnectedComponents.cs:20-35 | the BFS from an unvisited node lists, without repeats, exactly the nodes reachable from it, none of them visited before |
| Components.NewComponentStart | SocialNetworkAnalyzer.App/SocialNetworkAnalyzer.Core/Algorithms/ConnectedComponents.cs:14-37 | the sorted component starts at the node that opened it |
| Components.ComponentListAppend | SocialNetworkAnalyzer.App/SocialNetworkAnalyzer.Core/Algorithms/ConnectedComponents.cs:37-38 | appending a sorted reachability class with a larger least id keeps a component list |
| Components.Find | SocialNetworkAnalyzer.App/SocialNetworkAnalyzer.Core/Algorithms/ConnectedComponents.cs:9-42 | ascending-sorted reachability classes, ordered by least id, disjoint, covering every node |
| Components.SameComponentIffReachable | SocialNetworkAnalyzer.App/SocialNetworkAnalyzer.Core/Algorithms/ConnectedComponents.cs:9-42 | two nodes share a component exactly when one reaches the other |
| Coloring.PriorityOrder | SocialNetworkAnalyzer.App/SocialNetworkAnalyzer.Core/Algorithms/GraphColoring.cs:14 | the subset, each once, by degree descending and then id ascending |
| Coloring.PrecedesIffEarlier | SocialNetworkAnalyzer.App/SocialNetworkAnalyzer.Core/Algorithms/GraphColoring.cs:14 | a node comes earlier in the order exactly when it has priority |
| Coloring.LeastFree | SocialNetworkAnalyzer.App/SocialNetworkAnalyzer.Core/Algorithms/GraphColoring.cs:29-31 | the smallest colour not in use |
| Coloring.LeastFreeBound | SocialNetworkAnalyzer.App/SocialNetworkAnalyzer.Core/Algorithms/GraphColoring.cs:29-31 | the least free colour is at most the number of colours in use |
| Coloring.CollectUsed | SocialNetworkAnalyzer.App/SocialNetworkAnalyzer.Core/Algorithms/GraphColoring.cs:20-27 | collects the colours of the node's already-coloured neighbours in the subset |
| Coloring.SmallestFree | SocialNetworkAnalyzer.App/SocialNetworkAnalyzer.Core/Algorithms/GraphColoring.cs:29-31 | the counting loop ends at the least free colour |
| Coloring.ColorNext | SocialNetworkAnalyzer.App/SocialNetworkAnalyzer.Core/Algorithms/GraphColoring.cs:20-31 | one pass of the node loop extends the greedy colouring of the earlier nodes by the next node in priority order, with the least colour its coloured subset neighbours leave free |
| Coloring.GreedyColorAt | SocialNetworkAnalyzer.App/SocialNetworkAnalyzer.Core/Algorithms/GraphColoring.cs:18-32 | the k-th node's colour is the least one free among those of the nodes coloured before it |
| Coloring.GreedyIsLeastFreeOverPredecessors | SocialNetworkAnalyzer.App/SocialNetworkAnalyzer.Core/Algorithms/GraphColoring.cs:18-32 | each colour is the least free among the colours of the node's neighbours with priority over it |
| Coloring.LeastFreeRuleIsProper | SocialNetworkAnalyzer.App/SocialNetworkAnalyzer.Core/Algorithms/GraphColoring.cs:18-32 | a colouring that follows the least-free rule gives adjacent nodes different colours |
| Coloring.LeastFreeRuleBound | SocialNetworkAnalyzer.App/SocialNetworkAnalyzer.Core/Algorithms/GraphColoring.cs:29-31 | a colour chosen by that rule is at most the node's degree |
| Coloring.SubsetColoringProper | SocialNetworkAnalyzer.App/SocialNetworkAnalyzer.Core/Algorithms/GraphColoring.cs:10-35 | the colouring covers exactly the subset and is proper |
| Coloring.WelshPowell | SocialNetworkAnalyzer.App/SocialNetworkAnalyzer.Core/Algorithms/GraphColoring.cs:10-35 | NodeNotFound (the least missing id) exactly when the subset names an unknown node; else colours exactly the subset, by the least-free rule, properly, each colour at most the degree |
| Coloring.WelshPowellColorBound | SocialNetworkAnalyzer.App/SocialNetworkAnalyzer.Core/Algorithms/GraphColoring.cs:10-35 | with maximum degree d at most d+1 colours are used |
| Coloring.MergeAllProper | SocialNetworkAnalyzer.App/SocialNetworkAnalyzer.Core/Algorithms/GraphColoring.cs:37-49 | merging proper colourings of neighbour-closed parts is proper |
| Coloring.WelshPowellPerComponent | SocialNetworkAnalyzer.App/SocialNetworkAnalyzer.Core/Algorithms/GraphColoring.cs:37-49 | fails exactly when a component names an unknown node, with NodeNotFound for the least unknown id of the first such component in list order; else colours exactly the listed nodes, properly when each part is closed |
| Coloring.ComponentsAreClosed | SocialNetworkAnalyzer.App/SocialNetworkAnalyzer.Core/Algorithms/ConnectedComponents.cs:9-42 | every component found is neighbour-closed, so the per-component colouring is proper |
| Coloring.CountColors | SocialNetworkAnalyzer.App/SocialNetworkAnalyzer.Core/Algorithms/GraphColoring.cs:51 | 0 for no colouring; else one more than the largest colour, which occurs |
| Centrality.Denominator | SocialNetworkAnalyzer.App/SocialNetworkAnalyzer.Core/Algorithms/Centrality.cs:12-13 | n-1 for two or more nodes, else 1 |
| Centrality.DegreeCentrality | SocialNetworkAnalyzer.App/SocialNetworkAnalyzer.Core/Algorithms/Centrality.cs:10-23 | one row per node, ascending ids, its degree and degree/denominator |
| Centrality.ScoreInUnitInterval | SocialNetworkAnalyzer.App/SocialNetworkAnalyzer.Core/Algorithms/Centrality.cs:15-22 | in a well-formed graph every score is between 0 and 1 |
| Centrality.HubScoresOne | SocialNetworkAnalyzer.App/SocialNetworkAnalyzer.Core/Algorithms/Centrality.cs:15-22 | a node adjacent to all others scores exactly 1 |
| Centrality.ScoreOrdersByDegree | SocialNetworkAnalyzer.App/SocialNetworkAnalyzer.Core/Algorithms/Centrality.cs:15-22 | scores compare exactly as degrees do |
| Paths.PathCostPrefix | SocialNetworkAnalyzer.App/SocialNetworkAnalyzer.Core/Algorithms/ShortestPaths.cs:38-59 | with positive weights a prefix of a walk costs no more than the walk |
| Paths.RouteToSelf | SocialNetworkAnalyzer.App/SocialNetworkAnalyzer.Core/Algorithms/ShortestPaths.cs:64-78 | a route from a node to itself is the one-node path of cost 0 |
| Paths.ChainOverride | SocialNetworkAnalyzer.App/SocialNetworkAnalyzer.Core/Algorithms/ShortestPaths.cs:48-57 | relaxing the neighbours of a node keeps every predecessor chain a chain of walk edges matching the distances |
| Paths.ReadBackFinished | SocialNetworkAnalyzer.App/SocialNetworkAnalyzer.Core/Algorithms/ShortestPaths.cs:64-78 | following predecessors back to the start yields a route whose cost is the target's distance |
| Paths.Reconstruct | SocialNetworkAnalyzer.App/SocialNetworkAnalyzer.Core/Algorithms/ShortestPaths.cs:64-78 | the predecessor walk, reversed, is a route from start to target costing the target's distance |
| Paths.ExtractMin | SocialNetworkAnalyzer.App/SocialNetworkAnalyzer.Core/Algorithms/ShortestPaths.cs:40 | picks a queue entry of least priority |
| Dijkstra.RelaxNeighbors | SocialNetworkAnalyzer.App/SocialNetworkAnalyzer.Core/Algorithms/ShortestPaths.cs:48-57 | every neighbour whose distance improves gets the new distance, v as predecessor and a queue entry; nothing else changes |
| Dijkstra.PopMinimal | SocialNetworkAnalyzer.App/SocialNetworkAnalyzer.Core/Algorithms/ShortestPaths.cs:40-46 | the popped unsettled node has the least tentative distance |
| Dijkstra.NewlyDoneOptimal | SocialNetworkAnalyzer.App/SocialNetworkAnalyzer.Core/Algorithms/ShortestPaths.cs:40-46 | that node's distance is a lower bound on every walk to it |
| Dijkstra.SettleStep | SocialNetworkAnalyzer.App/SocialNetworkAnalyzer.Core/Algorithms/ShortestPaths.cs:38-59 | settling a node and relaxing its neighbours keeps the loop invariant |
| Dijkstra.StaleStep | SocialNetworkAnalyzer.App/SocialNetworkAnalyzer.Core/Algorithms/ShortestPaths.cs:38-59 | a stale queue entry changes no distance and keeps the invariant |
| Dijkstra.Exhausted | SocialNetworkAnalyzer.App/SocialNetworkAnalyzer.Core/Algorithms/ShortestPaths.cs:61-62 | an empty queue without the target means the target is unreachable |
| Dijkstra.Dijkstra | SocialNetworkAnalyzer.App/SocialNetworkAnalyzer.Core/Algorithms/ShortestPaths.cs:12-79 | NodeNotFound for an unknown start, then target; no cost and an empty path exactly when unreachable; else a route whose cost is at most that of every walk; start = target gives ([start], 0) |
| AStar.ExpandNeighbors | SocialNetworkAnalyzer.App/SocialNetworkAnalyzer.Core/Algorithms/ShortestPaths.cs:170-182 | every open neighbour whose g improves gets g, f = g + h, v as predecessor and a queue entry; nothing else changes |
| AStar.SkipStep | SocialNetworkAnalyzer.App/SocialNetworkAnalyzer.Core/Algorithms/ShortestPaths.cs:148-149 | dropping a closed entry keeps the search invariant |
| AStar.ExpandStep | SocialNetworkAnalyzer.App/SocialNetworkAnalyzer.Core/Algorithms/ShortestPaths.cs:168-182 | closing a node and relaxing its neighbours keeps the search invariant |
| AStar.Exhausted | SocialNetworkAnalyzer.App/SocialNetworkAnalyzer.Core/Algorithms/ShortestPaths.cs:184 | an exhausted open set means the target is unreachable |
| AStar.Search | SocialNetworkAnalyzer.App/SocialNetworkAnalyzer.Core/Algorithms/ShortestPaths.cs:81-185 | NodeNotFound for an unknown start, then target; no cost and an empty path exactly when unreachable; else a route from start to target whose cost is its g value; start = target gives ([start], 0) |
| Text.Trim | SocialNetworkAnalyzer.App/SocialNetworkAnalyzer.Core/IO/GraphIO.cs:101 | no white space (the characters `Char.IsWhiteSpace` accepts, Unicode separators included) at either end and no longer than the input |
| Text.TrimEmptyIffBlank | SocialNetworkAnalyzer.App/SocialNetworkAnalyzer.Core/IO/GraphIO.cs:100-101 | trimming gives the empty text exactly for a blank line |
| Text.SplitJoin | SocialNetworkAnalyzer.App/SocialNetworkAnalyzer.Core/IO/GraphIO.cs:90 | splitting fields joined by a separator none of them holds gives the fields back |
| Text.ParseInt | SocialNetworkAnalyzer.App/SocialNetworkAnalyzer.Core/IO/GraphIO.cs:119 | `int.Parse`: a result is a 32-bit integer and the text starts with a digit or a sign |
| Text.ParseIntToString | SocialNetworkAnalyzer.App/SocialNetworkAnalyzer.Core/IO/GraphIO.cs:86 | the decimal form of a 32-bit integer parses back to it |
| GraphIO.SplitFields | SocialNetworkAnalyzer.App/SocialNetworkAnalyzer.Core/IO/GraphIO.cs:215-234 | exactly five fields, or the white-space tokens, which are fewer than five |
| GraphIO.SplitFieldsSpaced | SocialNetworkAnalyzer.App/SocialNetworkAnalyzer.Core/IO/GraphIO.cs:218-219 | a line of at least five blank-separated tokens yields its first five |
| GraphIO.SplitFieldsCommas | SocialNetworkAnalyzer.App/SocialNetworkAnalyzer.Core/IO/GraphIO.cs:222-227 | a comma line of at least five fields yields four and then the rest joined by commas |
| GraphIO.Distinct | SocialNetworkAnalyzer.App/SocialNetworkAnalyzer.Core/IO/GraphIO.cs:210 | `.Distinct()`: no repeats, the same values |
| GraphIO.DistinctKeepsFirstOccurrenceOrder | SocialNetworkAnalyzer.App/SocialNetworkAnalyzer.Core/IO/GraphIO.cs:210 | the values keep the order of their first occurrences |
| GraphIO.ParseEachFails | SocialNetworkAnalyzer.App/SocialNetworkAnalyzer.Core/IO/GraphIO.cs:209 | a failed list parse names a field that does not parse |
| GraphIO.ParseNeighbors | SocialNetworkAnalyzer.App/SocialNetworkAnalyzer.Core/IO/GraphIO.cs:203-212 | a blank column gives no neighbours; a result has no repeats; a failure is InvalidData |
| GraphIO.ParseNeighborColumn | SocialNetworkAnalyzer.App/SocialNetworkAnalyzer.Core/IO/GraphIO.cs:90 | a written neighbour column of distinct 32-bit ids parses back to the list |
| GraphIO.NonBlankLinesEmpty | SocialNetworkAnalyzer.App/SocialNetworkAnalyzer.Core/IO/GraphIO.cs:99-102 | no line is kept exactly when all are blank |
| GraphIO.DataLines | SocialNetworkAnalyzer.App/SocialNetworkAnalyzer.Core/IO/GraphIO.cs:99-107 | InvalidData exactly when every line is blank; else the kept lines, without a first line that does not start with a digit |
| GraphIO.ParseHead | SocialNetworkAnalyzer.App/SocialNetworkAnalyzer.Core/IO/GraphIO.cs:116-123 | fewer than five fields is InvalidData; a result holds the parsed id, the two numbers and the neighbour column |
| GraphIO.DegreeColumnIgnored | SocialNetworkAnalyzer.App/SocialNetworkAnalyzer.Core/IO/GraphIO.cs:122 | rows differing only in the degree column read the same |
| GraphIO.ReadRowsFacts | SocialNetworkAnalyzer.App/SocialNetworkAnalyzer.Core/IO/GraphIO.cs:114-130 | rows read have fresh, pairwise distinct ids and repeat-free neighbour lists |
| GraphIO.ReadRowsFailsOnBadHead | SocialNetworkAnalyzer.App/SocialNetworkAnalyzer.Core/IO/GraphIO.cs:116-121 | one unreadable line fails the whole load |
| GraphIO.RowPairs | SocialNetworkAnalyzer.App/SocialNetworkAnalyzer.Core/IO/GraphIO.cs:135-141 | a row adds exactly the pairs (id, nb) for listed nb above id |
| GraphIO.PairsMember | SocialNetworkAnalyzer.App/SocialNetworkAnalyzer.Core/IO/GraphIO.cs:133-143 | a pair is added exactly when some row lists its larger end under its smaller |
| GraphIO.FirstMissing | SocialNetworkAnalyzer.App/SocialNetworkAnalyzer.Core/IO/GraphIO.cs:133-138 | none exactly when every listed neighbour is a node; else a listed neighbour of some row that is not a node |
| GraphIO.LoadRows | SocialNetworkAnalyzer.App/SocialNetworkAnalyzer.Core/IO/GraphIO.cs:97-146 | a successful load lists no neighbour that is not a node |
| GraphIO.SavedRows | SocialNetworkAnalyzer.App/SocialNetworkAnalyzer.Core/IO/GraphIO.cs:80-91 | one row per node by ascending id: id, the two numbers, degree, sorted neighbours |
| GraphIO.SavedRowReadsBack | SocialNetworkAnalyzer.App/SocialNetworkAnalyzer.Core/IO/GraphIO.cs:80-91 | a saved row of a node with neighbours reads back as that node's id, numbers and sorted neighbours |
| GraphIO.IsolatedRowRejected | SocialNetworkAnalyzer.App/SocialNetworkAnalyzer.Core/IO/GraphIO.cs:90 | the row of an isolated node trims to four fields, which the reader rejects |
| GraphIO.HeaderIsHeaderLine | SocialNetworkAnalyzer.App/SocialNetworkAnalyzer.Core/IO/GraphIO.cs:78 | the saved header is dropped by the reader as a header |
| GraphIO.LinkedExpected | SocialNetworkAnalyzer.App/SocialNetworkAnalyzer.Core/IO/GraphIO.cs:133-143 | linking the pairs of the saved rows gives back the adjacency |
| GraphIO.SaveThenLoad | SocialNetworkAnalyzer.App/SocialNetworkAnalyzer.Core/IO/GraphIO.cs:75-146 | a saved file loads exactly when no node is isolated, and then gives back the ids, numbers and adjacency |
| GraphLinking.LinkRow | SocialNetworkAnalyzer.App/SocialNetworkAnalyzer.Core/IO/GraphIO.cs:135-142 | MissingEndpoint at the first listed neighbour that is not a node; else the row's edges to larger ids are added |
| GraphLinking.RowLinked | SocialNetworkAnalyzer.App/SocialNetworkAnalyzer.Core/IO/GraphIO.cs:133-143 | after row k the adjacency links exactly the pairs of the first k+1 rows |
| GraphLinking.LinkRows | SocialNetworkAnalyzer.App/SocialNetworkAnalyzer.Core/IO/GraphIO.cs:133-143 | fails exactly at the first missing neighbour in row and list order; else the adjacency links exactly the rows' pairs |
| GraphLoad.ReadStep | SocialNetworkAnalyzer.App/SocialNetworkAnalyzer.Core/IO/GraphIO.cs:116-129 | a row exactly when the head reads, the id is new and the neighbour column parses |
| GraphLoad.ReadNode | SocialNetworkAnalyzer.App/SocialNetworkAnalyzer.Core/IO/GraphIO.cs:116-129 | fails as ReadStep does; else adds a node labelled with its id's decimal form, holding the row's numbers at the given position |
| GraphLoad.ReadNodes | SocialNetworkAnalyzer.App/SocialNetworkAnalyzer.Core/IO/GraphIO.cs:114-130 | the row loop yields the rows read, or the first failure, and adds one node per row |
| GraphLoad.LinkAll | SocialNetworkAnalyzer.App/SocialNetworkAnalyzer.Core/IO/GraphIO.cs:133-143 | fails with the first missing neighbour; else the store holds what the rows describe |
| GraphLoad.LoadCsv | SocialNetworkAnalyzer.App/SocialNetworkAnalyzer.Core/IO/GraphIO.cs:97-146 | fails exactly when LoadRows does, with its error; else a fresh valid store holding exactly the rows' nodes and edges |
| GraphSave.NumbersOf | SocialNetworkAnalyzer.App/SocialNetworkAnalyzer.Core/IO/GraphIO.cs:82-88 | per node id, its activity and interaction |
| GraphSave.SaveLines | SocialNetworkAnalyzer.App/SocialNetworkAnalyzer.Core/IO/GraphIO.cs:78-91 | the header, then the saved row of each listed id in order |
| GraphSave.SaveCsv | SocialNetworkAnalyzer.App/SocialNetworkAnalyzer.Core/IO/GraphIO.cs:75-95 | the file's lines are the header and one saved row per node by ascending id |
| GraphSave.Positions | SocialNetworkAnalyzer.App/SocialNetworkAnalyzer.Core/IO/GraphIO.cs:173 | maps each listed id to its index and nothing else |
| GraphSave.MarkedAll | SocialNetworkAnalyzer.App/SocialNetworkAnalyzer.Core/IO/GraphIO.cs:176-182 | a cell is marked by the edge set exactly when the two are adjacent |
| GraphSave.MarkEdges | SocialNetworkAnalyzer.App/SocialNetworkAnalyzer.Core/IO/GraphIO.cs:176-182 | a cell is set exactly when an edge joins the row's and the column's ids |
| GraphSave.EdgeMatrix | SocialNetworkAnalyzer.App/SocialNetworkAnalyzer.Core/IO/GraphIO.cs:173-182 | a fresh n×n matrix whose cells are marked exactly by the edges |
| GraphSave.AdjacencyMatrix | SocialNetworkAnalyzer.App/SocialNetworkAnalyzer.Core/IO/GraphIO.cs:160-191 | ids ascending; cell (i,j) set exactly when ids i and j are adjacent; symmetric with a clear diagonal |

## Left out

- The desktop user interface (MainWindow) and its drawing are not part of this model.
- Edge weights are a parameter `w`, assumed positive. The source's `DynamicWeightCalculator` (`1 / (1 + distance)` over the feature differences) is not modelled. Its square root and floating-point arithmetic are out of scope.
- The A* heuristic is a parameter `h`. The source's Euclidean distance between drawing positions is not modelled.
- AStar.Search: states a valid route and its cost, but not that the route is shortest. The source's heuristic is not shown to be admissible, so no optimality follows.
- Dijkstra.Dijkstra and AStar.Search: ties in the priority queue may be broken in any way. `PriorityQueue`'s own tie order is not modelled. Infinity is represented by absence from the distance map.
- Floating-point numbers are `real`, with no rounding or overflow. `ParseDoubleAnyCulture` and the invariant-culture formatting are the parameters `parseReal` and `format`.
- GraphIO.SaveThenLoad: needs every number to be written so that it reads back. It states nothing when the format does not round-trip.
- `HashSet` iteration order (neighbours in BFS, edges in the matrix loop) is any order. Dictionary key order (centrality rows, component scan) is ascending id. The component scan sorts the ids into that order itself. The callers re-sort the centrality rows, so the key order cannot be observed there.
- Exceptions become error values. The whole operation stops with the first error. The partly filled graph of a failed load is discarded rather than returned. `FormatException` from `int.Parse` and `InvalidDataException` both become InvalidData.
- GraphSave.SaveCsv, GraphIO.SaveThenLoad, GraphLoad.ReadNode and Edges.Edge.ToString: integer formatting (`ToString()`, `Append` of an int, the label and the edge text) assumes the current culture writes '-' as the negative sign. In a culture with another negative sign, the source writes negative ids in a form its own invariant-culture parser rejects, so its save/load round trip fails for negative ids, and labels and edge texts differ.
- `char.IsDigit` and `int.Parse` are modelled for ASCII digits and an optional sign only. Other Unicode digits and culture-specific forms are not modelled.
- `positionFactory` is a function of the row index, `positions(k)`.
- SaveCsv is modelled as the sequence of lines it writes. The file writes themselves, the UTF-8 encoding and the line terminators are not modelled.
- ExportAdjacencyMatrixCsv: the matrix text lines ("Id" header, `,0`/`,1` cells) are not modelled. The model builds the 0/1 matrix.
- ExportAdjacencyList (IO/GraphIO.cs:149-158) is not modelled. It only writes text.
- SaveJson and LoadJson (IO/GraphIO.cs:38-71) are not modelled. They rely on a JSON serializer.
- Ids are unbounded integers. 32-bit ranges matter only for parsing and are modelled there (`IsInt32`).
