/** `LoadCsv` of the CSV store (IO/GraphIO.cs) on a `Graph` object: the row loop that adds
    one node per line, then the edge loop of the edge-loop module, on a fresh store. */
module GraphLoad {
  import opened Wrappers
  import opened Text
  import opened Nodes
  import opened Graphs
  import opened GraphIO
  import opened GraphLinking

  /** The label a loaded node gets: its id in decimal. */
  ghost predicate LabelledBy(text: string, id: int) {
    text == IntToString(id)
  }

  /** The node `LoadCsv` creates for `row`: labelled with the id's decimal form, holding
      the row's numbers and placed at `at`. */
  ghost predicate Created(n: Node, row: Row, at: (real, real))
    reads n
  {
    && n.Id == row.Id && LabelledBy(n.Label, row.Id)
    && n.Activity == row.Activity && n.Interaction == row.Interaction
    && n.X == at.0 && n.Y == at.1
  }

  /** What the row loop makes of one line, `seen` holding the ids added before: the row,
      or the failure that ends the load. */
  function ReadStep(l: LineRead, seen: set<int>): (r: Result<Row>)
    ensures r.Ok? <==> l.HeadRead? && l.head.Id !in seen && l.neighbors.Ok?
    ensures r.Ok? ==> r.value == Row(l.head.Id, l.head.Activity, l.head.Interaction, l.neighbors.value)
  {
    match l
    case HeadFailed(e) => Err(e)
    case HeadRead(h, nbs) =>
      if h.Id in seen then Err(DuplicateNode(h.Id))
      else if nbs.Err? then Err(nbs.error)
      else Ok(Row(h.Id, h.Activity, h.Interaction, nbs.value))
  }

  /** The row loop's function, one line further on: a failing line ends it with its
      failure, a row read is placed before the rows of the lines after it. */
  lemma ReadRowsAt(scanned: seq<LineRead>, i: nat, seen: set<int>)
    requires i < |scanned|
    ensures ReadStep(scanned[i], seen).Err? ==>
              ReadRows(scanned[i..], seen) == Err(ReadStep(scanned[i], seen).error)
    ensures ReadStep(scanned[i], seen).Ok? ==>
              var row := ReadStep(scanned[i], seen).value;
              ReadRows(scanned[i..], seen) == Prefixed([row], ReadRows(scanned[i + 1..], seen + {row.Id}))
  {
    assert scanned[i..][0] == scanned[i];
    assert scanned[i..][1..] == scanned[i + 1..];
  }

  lemma PrefixedAppend(rows: seq<Row>, row: Row, r: Result<seq<Row>>)
    ensures Prefixed(rows, Prefixed([row], r)) == Prefixed(rows + [row], r)
  {
    if r.Ok? {
      assert rows + ([row] + r.value) == (rows + [row]) + r.value;
    }
  }

  lemma PrefixedEmpty(r: Result<seq<Row>>)
    ensures Prefixed([], r) == r
  {
    if r.Ok? {
      assert [] + r.value == r.value;
    }
  }

  lemma RowIdsAppend(rows: seq<Row>, row: Row)
    ensures RowIds(rows + [row]) == RowIds(rows) + {row.Id}
  {
    assert forall x | x in rows + [row] :: x in rows || x == row;
    assert row in rows + [row];
    assert forall x | x in rows :: x in rows + [row];
  }

  /** One pass of the row loop of `LoadCsv` on a line read as `read`: a node labelled with
      its id, holding its numbers and placed at `at` is added, then its neighbour column
      is consulted; the result is what `ReadStep` makes of the line. */
  method ReadNode(g: Graph, read: LineRead, at: (real, real)) returns (r: Result<Row>)
    requires g.Valid()
    modifies g
    ensures g.Valid()
    ensures r == ReadStep(read, old(g.nodes).Keys)
    ensures r.Ok? ==>
      && r.value.Id in g.nodes
      && g.nodes == old(g.nodes)[r.value.Id := g.nodes[r.value.Id]]
      && g.adj == old(g.adj)[r.value.Id := {}]
      && Created(g.nodes[r.value.Id], r.value, at)
  {
    if read.HeadFailed? {
      return Err(read.error);
    }
    var h := read.head;
    var (x, y) := at;
    var node := new Node(h.Id, IntToString(h.Id), h.Activity, h.Interaction, x, y);
    var added := g.AddNode(node);
    if added.Fail? {
      return Err(added.error);
    }
    if read.neighbors.Err? {
      return Err(read.neighbors.error);
    }
    r := Ok(Row(h.Id, h.Activity, h.Interaction, read.neighbors.value));
  }

  /** The rows read so far have their nodes in the store, created from them and placed at
      their positions, and no edge yet. It reads the store and the nodes it holds. */
  ghost predicate RowsAdded(g: Graph, rows: seq<Row>, positions: nat -> (real, real))
    reads g, g.nodes.Values
  {
    && g.Valid() && g.nodes.Keys == RowIds(rows)
    && (forall id | id in g.adj :: g.adj[id] == {})
    && forall k | 0 <= k < |rows| :: rows[k].Id in g.nodes && Created(g.nodes[rows[k].Id], rows[k], positions(k))
  }

  /** One pass of the row loop after `rows`: `ReadNode` on the next line, placed at the
      next position; a row read joins the rows added. */
  method AddRow(g: Graph, read: LineRead, rows: seq<Row>, positions: nat -> (real, real))
    returns (r: Result<Row>)
    requires RowsAdded(g, rows, positions)
    modifies g
    ensures g.Valid()
    ensures r == ReadStep(read, RowIds(rows))
    ensures r.Ok? ==> RowsAdded(g, rows + [r.value], positions)
  {
    NodesApart(g);
    r := ReadNode(g, read, positions(|rows|));
    if r.Ok? {
      var rows' := rows + [r.value];
      assert g.nodes.Keys == RowIds(rows') by {
        RowIdsAppend(rows, r.value);
      }
      assert forall k | 0 <= k < |rows'| ::
        rows'[k].Id in g.nodes && Created(g.nodes[rows'[k].Id], rows'[k], positions(k))
      by {
        forall k | 0 <= k < |rows'|
          ensures rows'[k].Id in g.nodes && Created(g.nodes[rows'[k].Id], rows'[k], positions(k))
        {
          if k < |rows| {
            assert rows'[k] == rows[k];
            assert old(Created(g.nodes[rows[k].Id], rows[k], positions(k)));
          }
        }
      }
    }
  }

  /** The row loop of `LoadCsv` over the lines read: the `i`th line adds its node, placed
      at `positions(i)`, the `i`th position the factory hands out; the loop stops at the
      first line that fails, as `ReadRows` says. No edge is added yet. */
  method ReadNodes(g: Graph, lines: seq<LineRead>, positions: nat -> (real, real))
    returns (r: Result<seq<Row>>)
    requires g.Valid() && g.nodes == map[]
    modifies g
    ensures g.Valid()
    ensures r == ReadRows(lines, {})
    ensures r.Ok? ==> RowsAdded(g, r.value, positions)
  {
    var rows: seq<Row> := [];
    assert ReadRows(lines, {}) == Prefixed(rows, ReadRows(lines[0..], RowIds(rows))) by {
      assert lines[0..] == lines;
      assert RowIds(rows) == {};
      PrefixedEmpty(ReadRows(lines, {}));
    }
    var i := 0;
    while i < |lines|
      invariant 0 <= i <= |lines| && |rows| == i
      invariant RowsAdded(g, rows, positions)
      invariant ReadRows(lines, {}) == Prefixed(rows, ReadRows(lines[i..], RowIds(rows)))
    {
      ghost var seen := RowIds(rows);
      var row := AddRow(g, lines[i], rows, positions);
      ReadRowsAt(lines, i, seen);
      if row.Err? {
        return Err(row.error);
      }
      PrefixedAppend(rows, row.value, ReadRows(lines[i + 1..], seen + {row.value.Id}));
      RowIdsAppend(rows, row.value);
      rows := rows + [row.value];
      i := i + 1;
    }
    assert lines[i..] == [];
    assert rows + [] == rows;
    r := Ok(rows);
  }

  /** What a load leaves in the store: one node per row, created from it and placed at the
      row's position, and the edges the rows list. */
  ghost predicate Loaded(g: Graph, rows: seq<Row>, positions: nat -> (real, real))
    reads g, g.nodes.Values
  {
    && g.nodes.Keys == RowIds(rows)
    && g.adj == Linked(RowIds(rows), Pairs(rows))
    && forall k | 0 <= k < |rows| ::
         rows[k].Id in g.nodes && Created(g.nodes[rows[k].Id], rows[k], positions(k))
  }

  /** The rows read from lines whose neighbour lists are duplicate-free can be linked: their
      ids are distinct and no row lists a neighbour twice. */
  lemma ReadRowsDistinctive(scanned: seq<LineRead>)
    requires NeighborsUnique(scanned) && ReadRows(scanned, {}).Ok?
    ensures Distinctive(ReadRows(scanned, {}).value)
  {
    ReadRowsFacts(scanned, {});
  }

  lemma RowIdsHold(rows: seq<Row>)
    ensures forall k | 0 <= k < |rows| :: rows[k].Id in RowIds(rows)
  {
    forall k | 0 <= k < |rows| ensures rows[k].Id in RowIds(rows) {
      assert rows[k] in rows;
    }
  }

  /** The rows read, failed with MissingEndpoint at the first listed neighbour that is not
      one of their ids. */
  function Checked(read: Result<seq<Row>>): (r: Result<seq<Row>>)
    ensures r.Ok? <==> read.Ok? && FirstMissing(read.value, RowIds(read.value)).None?
    ensures r.Ok? ==> r == read
  {
    if read.Err? then read
    else
      match FirstMissing(read.value, RowIds(read.value))
      case Some(p) => Err(MissingEndpoint(p.0, p.1))
      case None => read
  }

  /** `LoadRows` on lines that hold rows: the row loop's rows, checked. */
  lemma LoadRowsChecked(lines: seq<string>, parseReal: RealParser)
    requires DataLines(lines).Ok?
    ensures LoadRows(lines, parseReal) == Checked(ReadRows(ReadLines(DataLines(lines).value, parseReal), {}))
  {
  }

  /** The edge loop after the row loop: it fails as `LinkRows` does, and otherwise leaves
      the store loaded from the rows. */
  method LinkAll(g: Graph, rows: seq<Row>, positions: nat -> (real, real)) returns (r: Outcome)
    requires RowsAdded(g, rows, positions) && Distinctive(rows)
    modifies g
    ensures r.Fail? <==> FirstMissing(rows, RowIds(rows)).Some?
    ensures r.Fail? ==> r.error == MissingEndpoint(FirstMissing(rows, RowIds(rows)).value.0,
                                                   FirstMissing(rows, RowIds(rows)).value.1)
    ensures r.Pass? ==> g.Valid() && Loaded(g, rows, positions)
  {
    RowIdsHold(rows);
    NodesApart(g);
    r := LinkRows(g, rows, RowIds(rows));
  }

  /** The row loop and then the edge loop on a new store, over the lines read. */
  method Build(scanned: seq<LineRead>, positions: nat -> (real, real)) returns (r: Result<Graph>)
    requires NeighborsUnique(scanned)
    ensures r.Err? <==> Checked(ReadRows(scanned, {})).Err?
    ensures r.Err? ==> r.error == Checked(ReadRows(scanned, {})).error
    ensures r.Ok? ==> fresh(r.value) && r.value.Valid() && Loaded(r.value, Checked(ReadRows(scanned, {})).value, positions)
  {
    var g := new Graph();
    var read := ReadNodes(g, scanned, positions);
    if read.Err? {
      return Err(read.error);
    }
    var rows := read.value;
    ReadRowsDistinctive(scanned);
    var linked := LinkAll(g, rows, positions);
    if linked.Fail? {
      return Err(linked.error);
    }
    assert Checked(read) == read;
    r := Ok(g);
  }

  /** `LoadCsv`: the lines that hold rows, then the row loop, then the edge loop, on a new
      store; it fails exactly when `LoadRows` does, with the same error, and otherwise
      holds what the rows describe. */
  method LoadCsv(lines: seq<string>, parseReal: RealParser, positions: nat -> (real, real))
    returns (r: Result<Graph>)
    ensures r.Err? <==> LoadRows(lines, parseReal).Err?
    ensures r.Err? ==> r.error == LoadRows(lines, parseReal).error
    ensures r.Ok? ==> fresh(r.value) && r.value.Valid() && Loaded(r.value, LoadRows(lines, parseReal).value, positions)
  {
    var data := DataLines(lines);
    if data.Err? {
      return Err(data.error);
    }
    var scanned := ReadLines(data.value, parseReal);
    LoadRowsChecked(lines, parseReal);
    r := Build(scanned, positions);
  }
}
