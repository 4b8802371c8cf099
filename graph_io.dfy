/** The CSV side of `GraphIO`: the three-way field splitter, the neighbour-list parser,
    the line filtering and edge reconstruction of `LoadCsv`, and the row layout of
    `SaveCsv` with the proof that a saved file loads back. A file is a sequence of lines; reading
    and writing it, and the text form of the two numeric columns, are parameters. */
module GraphIO {
  import opened Wrappers
  import opened Text
  import opened Graphs
  import opened Nodes
  import Ids

  // ---- splitting a row ----

  /** The non-empty fields of `line` between separators. */
  function Tokens(line: string, sep: Separator): seq<string> {
    RemoveEmpty(Split(line, sep))
  }

  /** `SplitCsvLineSmart`: five white-space tokens if the line has at least five; else the
      trimmed comma fields, the fifth onwards joined back with commas; else five trimmed
      semicolon fields; else the white-space tokens, fewer than five. */
  function SplitFields(line: string): (r: seq<string>)
    ensures |r| == 5 || r == Tokens(line, WhiteSpaceSep)
    ensures |r| != 5 ==> |r| < 5
  {
    var ws := Tokens(line, WhiteSpaceSep);
    if |ws| >= 5 then ws[..5]
    else
      var c := TrimEach(Tokens(line, CharSep(',')));
      if |c| >= 5 then c[..4] + [Join(c[4..], ",")]
      else
        var sc := TrimEach(Tokens(line, CharSep(';')));
        if |sc| >= 5 then sc[..5] else ws
  }

  /** Non-empty fields without white space, joined by single blanks, tokenise back. */
  lemma SpacedTokens(parts: seq<string>)
    requires parts != []
    requires forall k | 0 <= k < |parts| :: parts[k] != [] && NoWhiteSpace(parts[k])
    ensures Tokens(Join(parts, " "), WhiteSpaceSep) == parts
  {
    forall k | 0 <= k < |parts| ensures FreeOf(parts[k], WhiteSpaceSep) {
      assert NoWhiteSpace(parts[k]);
    }
    SplitJoin(parts, ' ', WhiteSpaceSep);
    RemoveEmptyKeepsNonEmpty(parts);
  }

  /** A line of at least five blank-separated tokens yields its first five. */
  lemma SplitFieldsSpaced(parts: seq<string>)
    requires |parts| >= 5
    requires forall k | 0 <= k < |parts| :: parts[k] != [] && NoWhiteSpace(parts[k])
    ensures SplitFields(Join(parts, " ")) == parts[..5]
    ensures |parts| == 5 ==> SplitFields(Join(parts, " ")) == parts
  {
    SpacedTokens(parts);
    assert |parts| == 5 ==> parts[..5] == parts;
  }

  /** A line with fewer than five fields in every reading yields its white-space tokens. */
  lemma SplitFieldsShort(line: string)
    requires |Tokens(line, WhiteSpaceSep)| < 5
    requires |Tokens(line, CharSep(','))| < 5 && |Tokens(line, CharSep(';'))| < 5
    ensures SplitFields(line) == Tokens(line, WhiteSpaceSep)
  {
  }

  /** A single token without white space or separator tokenises to itself. */
  lemma SingleToken(s: string, sep: Separator)
    requires s != [] && FreeOf(s, sep)
    ensures Tokens(s, sep) == [s]
  {
    SplitFree(s, sep);
    RemoveEmptyKeepsNonEmpty([s]);
  }

  /** A comma-joined line of fields without white space is one white-space token. */
  lemma CommaLineOneToken(parts: seq<string>)
    requires parts != []
    requires forall k | 0 <= k < |parts| :: parts[k] != [] && NoWhiteSpace(parts[k])
    ensures Tokens(Join(parts, ","), WhiteSpaceSep) == [Join(parts, ",")]
  {
    var line := Join(parts, ",");
    forall k | 0 <= k < |parts| ensures FreeOf(parts[k], WhiteSpaceSep) {
      assert NoWhiteSpace(parts[k]);
    }
    JoinFree(parts, ',', WhiteSpaceSep);
    JoinStartsWithFirst(parts, ",");
    assert line[0] == parts[0][0];
    SingleToken(line, WhiteSpaceSep);
  }

  /** The trimmed comma fields of such a line are the fields. */
  lemma CommaFields(parts: seq<string>)
    requires parts != []
    requires forall k | 0 <= k < |parts| :: parts[k] != [] && NoWhiteSpace(parts[k])
    requires forall k | 0 <= k < |parts| :: FreeOf(parts[k], CharSep(','))
    ensures TrimEach(Tokens(Join(parts, ","), CharSep(','))) == parts
  {
    var tokens := Tokens(Join(parts, ","), CharSep(','));
    assert tokens == parts by {
      SplitJoin(parts, ',', CharSep(','));
      RemoveEmptyKeepsNonEmpty(parts);
    }
    TrimEachNoWhiteSpace(parts);
  }

  /** A comma-separated line without white space: the first four fields, then the rest
      joined back with commas. */
  lemma SplitFieldsCommas(parts: seq<string>)
    requires |parts| >= 5
    requires forall k | 0 <= k < |parts| :: parts[k] != [] && NoWhiteSpace(parts[k])
    requires forall k | 0 <= k < |parts| :: FreeOf(parts[k], CharSep(','))
    ensures SplitFields(Join(parts, ",")) == parts[..4] + [Join(parts[4..], ",")]
  {
    CommaLineOneToken(parts);
    CommaFields(parts);
  }

  // ---- the neighbour column ----

  /** The position of the first occurrence of `x` in `s`. */
  function FirstIndex(s: seq<int>, x: int): (i: nat)
    requires x in s
    ensures i < |s| && s[i] == x && x !in s[..i]
  {
    if s[0] == x then 0 else 1 + FirstIndex(s[1..], x)
  }

  lemma {:induction false} FirstIndexAppend(s: seq<int>, y: int, x: int)
    requires x in s
    ensures FirstIndex(s + [y], x) == FirstIndex(s, x)
  {
    if s[0] != x {
      assert (s + [y])[1..] == s[1..] + [y];
      FirstIndexAppend(s[1..], y, x);
    }
  }

  /** `.Distinct()`: every value once, at the place of its first occurrence. */
  function Distinct(s: seq<int>): (r: seq<int>)
    ensures Ids.NoDuplicates(r)
    ensures forall x :: x in r <==> x in s
  {
    if s == [] then []
    else
      var init := s[..|s| - 1];
      var last := s[|s| - 1];
      var d := Distinct(init);
      assert s == init + [last];
      if last in d then d else d + [last]
  }

  /** `.Distinct()` keeps the values in the order of their first occurrences. */
  lemma {:induction false} DistinctKeepsFirstOccurrenceOrder(s: seq<int>)
    ensures forall i, j | 0 <= i < j < |Distinct(s)| ::
              FirstIndex(s, Distinct(s)[i]) < FirstIndex(s, Distinct(s)[j])
  {
    if s != [] {
      var init := s[..|s| - 1];
      var last := s[|s| - 1];
      var d := Distinct(init);
      DistinctKeepsFirstOccurrenceOrder(init);
      assert s == init + [last];
      forall x | x in init ensures FirstIndex(s, x) == FirstIndex(init, x) && FirstIndex(s, x) < |init| {
        FirstIndexAppend(init, last, x);
      }
      var r := Distinct(s);
      assert r == if last in d then d else d + [last];
      forall i, j | 0 <= i < j < |r| ensures FirstIndex(s, r[i]) < FirstIndex(s, r[j]) {
        assert r[i] == d[i] && r[i] in init;
        if j < |d| {
          assert r[j] == d[j] && r[j] in init;
          assert FirstIndex(init, d[i]) < FirstIndex(init, d[j]);
        } else {
          assert FirstIndex(s, last) == |init|;
        }
      }
    }
  }

  /** A list without repeats is its own distinct list. */
  lemma {:induction false} DistinctUnique(s: seq<int>)
    requires Ids.NoDuplicates(s)
    ensures Distinct(s) == s
  {
    if s != [] {
      var init := s[..|s| - 1];
      assert Ids.NoDuplicates(init);
      DistinctUnique(init);
      assert s == init + [s[|s| - 1]];
    }
  }

  /** `int.Parse(x.Trim())`. */
  function ParseField(s: string): Option<int> {
    ParseInt(Trim(s))
  }

  /** `parse` applied to every field: None as soon as one field fails. */
  function ParseEach(fields: seq<string>, parse: string -> Option<int>): (r: Option<seq<int>>)
    ensures r.Some? ==> |r.value| == |fields|
  {
    if fields == [] then Some([])
    else
      var head := parse(fields[0]);
      var rest := ParseEach(fields[1..], parse);
      if head.None? || rest.None? then None
      else Some([head.value] + rest.value)
  }

  /** The parsed list holds each field's value, in order. */
  lemma {:induction false} ParseEachValues(fields: seq<string>, parse: string -> Option<int>)
    requires ParseEach(fields, parse).Some?
    ensures forall k | 0 <= k < |fields| :: parse(fields[k]) == Some(ParseEach(fields, parse).value[k])
  {
    if fields != [] {
      var tail := fields[1..];
      ParseEachValues(tail, parse);
      var r := ParseEach(fields, parse).value;
      assert r == [parse(fields[0]).value] + ParseEach(tail, parse).value;
      forall k | 1 <= k < |fields| ensures parse(fields[k]) == Some(r[k]) {
        assert fields[k] == tail[k - 1];
      }
    }
  }

  /** A failure names a field that does not parse. */
  lemma {:induction false} ParseEachFails(fields: seq<string>, parse: string -> Option<int>)
    requires ParseEach(fields, parse).None?
    ensures exists k | 0 <= k < |fields| :: parse(fields[k]).None?
  {
    if parse(fields[0]).Some? {
      var tail := fields[1..];
      ParseEachFails(tail, parse);
      var k :| 0 <= k < |tail| && parse(tail[k]).None?;
      assert fields[k + 1] == tail[k];
    }
  }

  /** Fields that each parse to the matching value parse, together, to the list of values. */
  lemma {:induction false} ParseEachAll(fields: seq<string>, parse: string -> Option<int>, values: seq<int>)
    requires |fields| == |values|
    requires forall k | 0 <= k < |fields| :: parse(fields[k]) == Some(values[k])
    ensures ParseEach(fields, parse) == Some(values)
  {
    if fields != [] {
      ParseEachAll(fields[1..], parse, values[1..]);
      assert values == [values[0]] + values[1..];
    }
  }

  /** `int.Parse(x.Trim())` on every field. */
  function ParseAll(fields: seq<string>): (r: Option<seq<int>>)
    ensures r.Some? ==> |r.value| == |fields|
  {
    ParseEach(fields, ParseField)
  }

  /** `ParseNeighbors`: nothing for a blank column; otherwise the comma-separated
      integers, empty pieces dropped and repeats removed; a piece that is not an integer
      is InvalidData. */
  function ParseNeighbors(raw: string): (r: Result<seq<int>>)
    ensures IsBlank(raw) ==> r == Ok([])
    ensures r.Ok? ==> Ids.NoDuplicates(r.value)
    ensures r.Err? ==> r.error == InvalidData
  {
    var t := Trim(raw);
    if IsBlank(t) then
      Ok([])
    else
      match ParseAll(Tokens(t, CharSep(',')))
      case None => Err(InvalidData)
      case Some(ids) => Ok(Distinct(ids))
  }

  /** The decimal forms of the ids. */
  function Show(ids: seq<int>): (r: seq<string>)
    ensures |r| == |ids| && forall k | 0 <= k < |ids| :: r[k] == IntToString(ids[k])
  {
    seq(|ids|, k requires 0 <= k < |ids| => IntToString(ids[k]))
  }

  /** The neighbour column as `SaveCsv` writes it. */
  function NeighborColumn(ids: seq<int>): string {
    Join(Show(ids), ",")
  }

  lemma NeighborColumnFree(ids: seq<int>)
    ensures NoWhiteSpace(NeighborColumn(ids))
    ensures ids != [] ==> NeighborColumn(ids) != [] && IsDigitOrSign(NeighborColumn(ids)[0])
  {
    var parts := Show(ids);
    forall k | 0 <= k < |parts| ensures FreeOf(parts[k], WhiteSpaceSep) {
      IntToStringFree(ids[k]);
    }
    JoinFree(parts, ',', WhiteSpaceSep);
    if ids != [] {
      JoinStartsWithFirst(parts, ",");
      IntToStringShape(ids[0]);
      assert NeighborColumn(ids)[0] == parts[0][0];
    }
  }

  predicate IsDigitOrSign(c: char) {
    IsDigit(c) || c == '-'
  }

  /** Parsing the written neighbour column gives back the listed ids. */
  lemma ParseNeighborColumn(ids: seq<int>)
    requires Ids.NoDuplicates(ids)
    requires forall k | 0 <= k < |ids| :: IsInt32(ids[k])
    ensures ParseNeighbors(NeighborColumn(ids)) == Ok(ids)
  {
    var raw := NeighborColumn(ids);
    assert Trim(raw) == raw by {
      NeighborColumnFree(ids);
      TrimNoWhiteSpace(raw);
    }
    if ids == [] {
      assert raw == [];
    } else {
      assert !IsBlank(raw) by {
        NeighborColumnFree(ids);
        assert !IsWhiteSpace(raw[0]);
      }
      var parts := Show(ids);
      assert Tokens(raw, CharSep(',')) == parts by {
        forall k | 0 <= k < |parts| ensures FreeOf(parts[k], CharSep(',')) && parts[k] != [] {
          IntToStringFree(ids[k]);
        }
        SplitJoin(parts, ',', CharSep(','));
        RemoveEmptyKeepsNonEmpty(parts);
      }
      assert ParseAll(parts) == Some(ids) by {
        ParseAllShown(ids);
      }
      assert Distinct(ids) == ids by {
        DistinctUnique(ids);
      }
    }
  }

  /** The decimal forms of 32-bit ids parse back to the ids. */
  lemma ParseAllShown(ids: seq<int>)
    requires forall k | 0 <= k < |ids| :: IsInt32(ids[k])
    ensures ParseAll(Show(ids)) == Some(ids)
  {
    var shown := Show(ids);
    forall k | 0 <= k < |ids| ensures ParseField(shown[k]) == Some(ids[k]) {
      IntToStringShape(ids[k]);
      TrimNoWhiteSpace(IntToString(ids[k]));
      ParseIntToString(ids[k]);
    }
    ParseEachAll(shown, ParseField, ids);
  }

  // ---- lines and rows of LoadCsv ----

  /** `.Where(l => !IsNullOrWhiteSpace(l)).Select(l => l.Trim())`. */
  function NonBlankLines(lines: seq<string>): (r: seq<string>)
    ensures |r| <= |lines|
    ensures forall k | 0 <= k < |r| :: r[k] != []
  {
    if lines == [] then []
    else if IsBlank(lines[0]) then NonBlankLines(lines[1..])
    else
      TrimEmptyIffBlank(lines[0]);
      [Trim(lines[0])] + NonBlankLines(lines[1..])
  }

  /** No line is kept exactly when every line is blank. */
  lemma {:induction false} NonBlankLinesEmpty(lines: seq<string>)
    ensures NonBlankLines(lines) == [] <==> forall k | 0 <= k < |lines| :: IsBlank(lines[k])
  {
    if lines != [] && IsBlank(lines[0]) {
      var tail := lines[1..];
      NonBlankLinesEmpty(tail);
      if NonBlankLines(lines) == [] {
        forall k | 0 <= k < |lines| ensures IsBlank(lines[k]) {
          if k > 0 { assert lines[k] == tail[k - 1]; }
        }
      } else {
        var k :| 0 <= k < |tail| && !IsBlank(tail[k]);
        assert lines[k + 1] == tail[k];
      }
    }
  }

  /** The lines that hold rows: the kept lines without the first one when it does not
      start with a digit (a header); InvalidData when no line is kept. */
  function DataLines(lines: seq<string>): (r: Result<seq<string>>)
    ensures r.Err? <==> forall k | 0 <= k < |lines| :: IsBlank(lines[k])
    ensures r.Err? ==> r.error == InvalidData
    ensures r.Ok? ==> |r.value| <= |lines|
  {
    var kept := NonBlankLines(lines);
    NonBlankLinesEmpty(lines);
    if kept == [] then Err(InvalidData)
    else if !IsDigit(kept[0][0]) then Ok(kept[1..])
    else Ok(kept)
  }

  /** Reads the text form of a floating-point column; None is a parse failure. */
  type RealParser = string -> Option<real>

  /** The columns of a row read before its node is added. */
  datatype Head = Head(Id: int, Activity: real, Interaction: real, NeighborText: string)

  /** Fewer than five fields, an id that is not a 32-bit integer, or a number the parser
      rejects is InvalidData; the fourth (degree) column is never read. */
  function ParseHead(line: string, parseReal: RealParser): (r: Result<Head>)
    ensures |SplitFields(line)| < 5 ==> r == Err(InvalidData)
    ensures r.Err? ==> r.error == InvalidData
    ensures r.Ok? ==>
      var parts := SplitFields(line);
      && |parts| == 5 && ParseInt(parts[0]) == Some(r.value.Id)
      && parseReal(parts[1]) == Some(r.value.Activity)
      && parseReal(parts[2]) == Some(r.value.Interaction)
      && r.value.NeighborText == parts[4]
  {
    var parts := SplitFields(line);
    if |parts| < 5 then Err(InvalidData)
    else
      var id := ParseInt(parts[0]);
      var activity := parseReal(parts[1]);
      var interaction := parseReal(parts[2]);
      if id.None? || activity.None? || interaction.None? then Err(InvalidData)
      else Ok(Head(id.value, activity.value, interaction.value, parts[4]))
  }

  /** Two rows that differ only in the degree column read the same. */
  lemma DegreeColumnIgnored(a: string, b: string, parseReal: RealParser)
    requires |SplitFields(a)| == 5 && |SplitFields(b)| == 5
    requires forall k | 0 <= k < 5 && k != 3 :: SplitFields(a)[k] == SplitFields(b)[k]
    ensures ParseHead(a, parseReal) == ParseHead(b, parseReal)
  {
    var pa, pb := SplitFields(a), SplitFields(b);
    assert pa[0] == pb[0] && pa[1] == pb[1] && pa[2] == pb[2] && pa[4] == pb[4];
  }

  /** A row as the loader keeps it: the node's id and numbers and its neighbour list. */
  datatype Row = Row(Id: int, Activity: real, Interaction: real, Neighbors: seq<int>)

  function RowIds(rows: seq<Row>): set<int> {
    set r | r in rows :: r.Id
  }

  /** `rows` placed before the rows of a successful result. */
  function Prefixed(rows: seq<Row>, r: Result<seq<Row>>): Result<seq<Row>> {
    match r
    case Ok(rest) => Ok(rows + rest)
    case Err(e) => Err(e)
  }

  /** What one line yields for the row loop: its head, or the failure to read it, and
      then its parsed neighbour column. */
  datatype LineRead = HeadFailed(error: Error) | HeadRead(head: Head, neighbors: Result<seq<int>>)

  function ReadLine(line: string, parseReal: RealParser): (r: LineRead)
    ensures r.HeadRead? && r.neighbors.Ok? ==> Ids.NoDuplicates(r.neighbors.value)
    ensures r.HeadFailed? <==> ParseHead(line, parseReal).Err?
  {
    var head := ParseHead(line, parseReal);
    if head.Err? then HeadFailed(head.error)
    else HeadRead(head.value, ParseNeighbors(head.value.NeighborText))
  }

  function ReadLines(data: seq<string>, parseReal: RealParser): (r: seq<LineRead>)
    ensures |r| == |data| && forall k | 0 <= k < |data| :: r[k] == ReadLine(data[k], parseReal)
  {
    seq(|data|, k requires 0 <= k < |data| => ReadLine(data[k], parseReal))
  }

  /** Every parsed neighbour column is free of repeats. */
  predicate NeighborsUnique(scanned: seq<LineRead>) {
    forall k | 0 <= k < |scanned| :: scanned[k].HeadRead? && scanned[k].neighbors.Ok? ==>
      Ids.NoDuplicates(scanned[k].neighbors.value)
  }

  /** The row loop of `LoadCsv`, `seen` holding the ids added before: a line whose head
      cannot be read, an id added before (DuplicateNode) or a bad neighbour column ends
      the load with that failure. */
  function ReadRows(scanned: seq<LineRead>, seen: set<int>): (r: Result<seq<Row>>)
    ensures r.Ok? ==> |r.value| == |scanned|
    decreases |scanned|
  {
    if scanned == [] then Ok([])
    else
      match scanned[0]
      case HeadFailed(e) => Err(e)
      case HeadRead(h, nbs) =>
        if h.Id in seen then Err(DuplicateNode(h.Id))
        else if nbs.Err? then Err(nbs.error)
        else
          var rest := ReadRows(scanned[1..], seen + {h.Id});
          if rest.Err? then rest
          else Ok([Row(h.Id, h.Activity, h.Interaction, nbs.value)] + rest.value)
  }

  /** The rows read carry ids never added before and pairwise distinct, and neighbour
      lists without repeats. */
  lemma {:induction false} ReadRowsFacts(scanned: seq<LineRead>, seen: set<int>)
    requires NeighborsUnique(scanned) && ReadRows(scanned, seen).Ok?
    ensures var rows := ReadRows(scanned, seen).value;
            && (forall k | 0 <= k < |rows| :: rows[k].Id !in seen && Ids.NoDuplicates(rows[k].Neighbors))
            && (forall i, j | 0 <= i < j < |rows| :: rows[i].Id != rows[j].Id)
  {
    if scanned != [] {
      var h := scanned[0].head;
      var seen' := seen + {h.Id};
      assert NeighborsUnique(scanned[1..]) by {
        forall k | 0 <= k < |scanned[1..]| ensures scanned[1..][k] == scanned[k + 1] { }
      }
      ReadRowsFacts(scanned[1..], seen');
      var rest := ReadRows(scanned[1..], seen').value;
      var rows := ReadRows(scanned, seen).value;
      assert rows == [Row(h.Id, h.Activity, h.Interaction, scanned[0].neighbors.value)] + rest;
      forall k | 1 <= k < |rows| ensures rows[k] == rest[k - 1] && rows[k].Id !in seen' { }
      forall i, j | 0 <= i < j < |rows| ensures rows[i].Id != rows[j].Id {
        if i > 0 {
          assert rows[i].Id == rest[i - 1].Id;
        }
      }
    }
  }

  /** A line whose head cannot be read makes the whole load fail. */
  lemma {:induction false} ReadRowsFailsOnBadHead(scanned: seq<LineRead>, seen: set<int>, k: nat)
    requires k < |scanned| && scanned[k].HeadFailed?
    ensures ReadRows(scanned, seen).Err?
  {
    if k > 0 && scanned[0].HeadRead? {
      var h := scanned[0].head;
      if h.Id !in seen && scanned[0].neighbors.Ok? {
        assert scanned[1..][k - 1] == scanned[k];
        ReadRowsFailsOnBadHead(scanned[1..], seen + {h.Id}, k - 1);
      }
    }
  }

  // ---- edges of LoadCsv ----

  /** The pairs the edge loop adds for one row: `(id, nb)` for each listed `nb` above `id`. */
  function RowPairs(id: int, nbs: seq<int>): (r: set<(int, int)>)
    ensures forall p :: p in r <==> p.0 == id && p.1 in nbs && id < p.1
  {
    set nb | nb in nbs && id < nb :: (id, nb)
  }

  /** The pairs the edge loop adds over all rows. */
  function Pairs(rows: seq<Row>): set<(int, int)> {
    if rows == [] then {}
    else
      var last := rows[|rows| - 1];
      Pairs(rows[..|rows| - 1]) + RowPairs(last.Id, last.Neighbors)
  }

  lemma {:induction false} PairsMember(rows: seq<Row>, p: (int, int))
    ensures p in Pairs(rows) <==>
            exists k | 0 <= k < |rows| :: p.0 == rows[k].Id && p.1 in rows[k].Neighbors && p.0 < p.1
  {
    if rows != [] {
      var init := rows[..|rows| - 1];
      PairsMember(init, p);
      if p in Pairs(rows) && p !in Pairs(init) {
        assert p.0 == rows[|rows| - 1].Id;
      }
      forall k | 0 <= k < |init| ensures rows[k] == init[k] { }
    }
  }

  /** The adjacency of the nodes `ids` in which the pairs are the edges. */
  function Linked(ids: set<int>, pairs: set<(int, int)>): Adjacency {
    map x | x in ids :: (set p | p in pairs && p.0 == x :: p.1) + (set p | p in pairs && p.1 == x :: p.0)
  }

  /** `y` is linked to the node `x` when one of the pairs joins them. */
  lemma LinkedMember(ids: set<int>, pairs: set<(int, int)>, x: int, y: int)
    requires x in ids
    ensures x in Linked(ids, pairs)
    ensures y in Linked(ids, pairs)[x] <==> (x, y) in pairs || (y, x) in pairs
  {
    if (x, y) in pairs {
      var p := (x, y);
      assert p in pairs && p.0 == x;
    }
    if (y, x) in pairs {
      var p := (y, x);
      assert p in pairs && p.1 == x;
    }
  }

  /** The first listed neighbour of the row `id` that is not a node. */
  function MissingIn(id: int, nbs: seq<int>, nodes: set<int>): (r: Option<(int, int)>)
    ensures r.None? <==> forall k | 0 <= k < |nbs| :: nbs[k] in nodes
    ensures r.Some? ==> r.value.0 == id && r.value.1 in nbs && r.value.1 !in nodes
  {
    if nbs == [] then None
    else if nbs[0] !in nodes then Some((id, nbs[0]))
    else
      assert forall k | 1 <= k < |nbs| :: nbs[k] == nbs[1..][k - 1];
      MissingIn(id, nbs[1..], nodes)
  }

  /** The first (row, neighbour) pair, in row order and list order, whose neighbour is not
      a node. */
  function FirstMissing(rows: seq<Row>, nodes: set<int>): (r: Option<(int, int)>)
    ensures r.None? <==> forall k, j | 0 <= k < |rows| && 0 <= j < |rows[k].Neighbors| :: rows[k].Neighbors[j] in nodes
    ensures r.Some? ==> r.value.1 !in nodes && exists k | 0 <= k < |rows| :: rows[k].Id == r.value.0 && r.value.1 in rows[k].Neighbors
  {
    if rows == [] then None
    else
      var here := MissingIn(rows[0].Id, rows[0].Neighbors, nodes);
      if here.Some? then here
      else
        assert forall k | 1 <= k < |rows| :: rows[k] == rows[1..][k - 1];
        FirstMissing(rows[1..], nodes)
  }

  // ---- SaveCsv and reading its output back ----

  /** The header row: the column names, blank-separated. */
  const Header: string := "DugumId" + " " + "Ozellik_I" + " " + "Ozellik_II" + " " + "Ozellik_III" + " " + "Komsular"

  /** Writes a floating-point column. */
  type RealFormatter = real -> string

  /** A column the reader splits cleanly: not empty, no white space, comma or semicolon. */
  predicate CleanToken(s: string) {
    s != [] && NoWhiteSpace(s) && FreeOf(s, CharSep(',')) && FreeOf(s, CharSep(';'))
  }

  /** One row of `SaveCsv`: id, activity, interaction, neighbour count and the
      comma-joined neighbours, separated by single blanks. */
  function RowText(id: int, activity: string, interaction: string, nbs: seq<int>): string {
    Join([IntToString(id), activity, interaction, IntToString(|nbs|), NeighborColumn(nbs)], " ")
  }

  /** The per-node numbers a saved file carries. */
  datatype Numbers = Numbers(activity: map<int, real>, interaction: map<int, real>)

  predicate Covers(adj: Adjacency, nums: Numbers) {
    adj.Keys <= nums.activity.Keys && adj.Keys <= nums.interaction.Keys
  }

  /** The row `SaveCsv` writes for the node `id`, neighbours ascending. */
  function SavedRow(adj: Adjacency, nums: Numbers, format: RealFormatter, id: int): string
    requires Covers(adj, nums) && id in adj
  {
    RowText(id, format(nums.activity[id]), format(nums.interaction[id]), Ids.Sorted(adj[id]))
  }

  /** The rows `SaveCsv` writes for the nodes `ids`, in that order. */
  function SavedRowsAt(adj: Adjacency, nums: Numbers, format: RealFormatter, ids: seq<int>): (r: seq<string>)
    requires Covers(adj, nums) && forall i | 0 <= i < |ids| :: ids[i] in adj
    ensures |r| == |ids|
    ensures forall i | 0 <= i < |ids| :: r[i] == SavedRow(adj, nums, format, ids[i])
  {
    seq(|ids|, i requires 0 <= i < |ids| => SavedRow(adj, nums, format, ids[i]))
  }

  /** The rows `SaveCsv` writes, one per node by ascending id. */
  function SavedRows(adj: Adjacency, nums: Numbers, format: RealFormatter): (r: seq<string>)
    requires Covers(adj, nums)
    ensures |r| == |adj|
    ensures forall i | 0 <= i < |adj| :: r[i] == SavedRow(adj, nums, format, Ids.Sorted(adj.Keys)[i])
  {
    SavedRowsAt(adj, nums, format, Ids.Sorted(adj.Keys))
  }

  /** The lines `SaveCsv` writes: the header, then the rows. */
  function SavedLines(header: string, adj: Adjacency, nums: Numbers, format: RealFormatter): (r: seq<string>)
    requires Covers(adj, nums)
  {
    [header] + SavedRows(adj, nums, format)
  }

  /** The row the loader keeps for a saved node. */
  function ExpectedRow(adj: Adjacency, nums: Numbers, id: int): Row
    requires Covers(adj, nums) && id in adj
  {
    Row(id, nums.activity[id], nums.interaction[id], Ids.Sorted(adj[id]))
  }

  /** The rows the loader keeps for the nodes `ids`, in that order. */
  function RowsAt(adj: Adjacency, nums: Numbers, ids: seq<int>): (r: seq<Row>)
    requires Covers(adj, nums) && forall i | 0 <= i < |ids| :: ids[i] in adj
    ensures |r| == |ids|
    ensures forall i | 0 <= i < |ids| :: r[i] == ExpectedRow(adj, nums, ids[i])
  {
    seq(|ids|, i requires 0 <= i < |ids| => ExpectedRow(adj, nums, ids[i]))
  }

  function ExpectedRows(adj: Adjacency, nums: Numbers): (r: seq<Row>)
    requires Covers(adj, nums)
    ensures |r| == |adj|
    ensures forall i | 0 <= i < |adj| :: r[i] == ExpectedRow(adj, nums, Ids.Sorted(adj.Keys)[i])
  {
    RowsAt(adj, nums, Ids.Sorted(adj.Keys))
  }

  /** The numbers of the node `id` are written as clean tokens the parser reads back to
      the same values. */
  ghost predicate RowReloads(nums: Numbers, format: RealFormatter, parseReal: RealParser, id: int) {
    && id in nums.activity && id in nums.interaction
    && CleanToken(format(nums.activity[id])) && parseReal(format(nums.activity[id])) == Some(nums.activity[id])
    && CleanToken(format(nums.interaction[id])) && parseReal(format(nums.interaction[id])) == Some(nums.interaction[id])
  }

  /** What a saved file needs for reading back: 32-bit ids, and every row's numbers
      written so that they read back. */
  ghost predicate Reloadable(adj: Adjacency, nums: Numbers, format: RealFormatter, parseReal: RealParser) {
    && Covers(adj, nums)
    && (forall id | id in adj :: IsInt32(id))
    && (forall id {:trigger RowReloads(nums, format, parseReal, id)} | id in adj :: RowReloads(nums, format, parseReal, id))
  }

  /** A well-formed graph whose saved file can be read back. */
  ghost predicate Reloads(adj: Adjacency, nums: Numbers, format: RealFormatter, parseReal: RealParser) {
    WellFormed(adj) && Reloadable(adj, nums, format, parseReal)
  }

  /** Every neighbour is a 32-bit id. */
  ghost predicate NeighborsInt32(adj: Adjacency) {
    forall id, x | id in adj && x in adj[id] :: IsInt32(x)
  }

  lemma ReloadsNeighborsInt32(adj: Adjacency, nums: Numbers, format: RealFormatter, parseReal: RealParser)
    requires Reloads(adj, nums, format, parseReal)
    ensures NeighborsInt32(adj)
  {
  }

  /** What one row needs for reading back: a 32-bit id with neighbours, all of them
      32-bit ids, and numbers written so that they read back. */
  ghost predicate RowSaves(adj: Adjacency, nums: Numbers, format: RealFormatter, parseReal: RealParser, id: int) {
    && id in adj && adj[id] != {} && IsInt32(id) && (forall x | x in adj[id] :: IsInt32(x))
    && RowReloads(nums, format, parseReal, id)
  }

  /** The five columns of a saved row. */
  function RowParts(adj: Adjacency, nums: Numbers, format: RealFormatter, id: int): seq<string>
    requires Covers(adj, nums) && id in adj
  {
    var nbs := Ids.Sorted(adj[id]);
    [IntToString(id), format(nums.activity[id]), format(nums.interaction[id]), IntToString(|nbs|), NeighborColumn(nbs)]
  }

  /** The decimal form of an int is a clean token. */
  lemma IntTokenClean(n: int)
    ensures CleanToken(IntToString(n))
  {
    IntToStringFree(n);
  }

  /** A saved row of a node with neighbours splits into its five columns. */
  lemma SavedRowSplits(adj: Adjacency, nums: Numbers, format: RealFormatter, parseReal: RealParser,
                       id: int)
    requires Covers(adj, nums) && id in adj && RowReloads(nums, format, parseReal, id)
    requires id in adj && adj[id] != {}
    ensures Trim(SavedRow(adj, nums, format, id)) == SavedRow(adj, nums, format, id)
    ensures SplitFields(SavedRow(adj, nums, format, id)) == RowParts(adj, nums, format, id)
  {
    var nbs := Ids.Sorted(adj[id]);
    var parts := RowParts(adj, nums, format, id);
    var line := SavedRow(adj, nums, format, id);
    assert line == Join(parts, " ");
    assert forall k | 0 <= k < 5 :: parts[k] != [] && NoWhiteSpace(parts[k]) by {
      forall k | 0 <= k < 5 ensures parts[k] != [] && NoWhiteSpace(parts[k]) {
        if k == 0 {
          IntTokenClean(id);
        } else if k == 3 {
          IntTokenClean(|nbs|);
        } else if k == 4 {
          NeighborColumnFree(nbs);
          assert nbs != [] by { var x := Ids.Pick(adj[id]); assert x in nbs; }
        }
      }
    }
    SplitFieldsSpaced(parts);
    JoinStartsWithFirst(parts, " ");
    assert line[0] == parts[0][0];
    JoinEndsWithLast(parts, " ");
    assert line[|line| - 1] == parts[4][|parts[4]| - 1];
    TrimEnds(line);
  }

  /** A saved row of a node with neighbours is read back as that node's row. */
  lemma SavedRowReadsBack(adj: Adjacency, nums: Numbers, format: RealFormatter, parseReal: RealParser,
                          id: int)
    requires Covers(adj, nums) && id in adj && RowSaves(adj, nums, format, parseReal, id)
    ensures Trim(SavedRow(adj, nums, format, id)) == SavedRow(adj, nums, format, id)
    ensures ReadLine(SavedRow(adj, nums, format, id), parseReal) == Echo(ExpectedRow(adj, nums, id))
  {
    var nbs := Ids.Sorted(adj[id]);
    var parts := RowParts(adj, nums, format, id);
    var line := SavedRow(adj, nums, format, id);
    SavedRowSplits(adj, nums, format, parseReal, id);
    ParseIntToString(id);
    assert ParseHead(line, parseReal) ==
           Ok(Head(id, nums.activity[id], nums.interaction[id], NeighborColumn(nbs)));
    Ids.StrictlyIncreasingNoDuplicates(nbs);
    ParseNeighborColumn(nbs);
  }

  /** Four clean columns joined by blanks, with a trailing blank: the line trims to
      something that splits into fewer than five fields. */
  lemma FourColumnsShort(four: seq<string>)
    requires |four| == 4 && forall k | 0 <= k < 4 :: CleanToken(four[k])
    ensures Trim(Join(four, " ") + " ") != []
    ensures |SplitFields(Trim(Join(four, " ") + " "))| < 5
  {
    var line4 := Join(four, " ");
    JoinStartsWithFirst(four, " ");
    assert line4[0] == four[0][0];
    JoinEndsWithLast(four, " ");
    assert line4[|line4| - 1] == four[3][|four[3]| - 1];
    TrimTrailingBlank(line4);
    SpacedTokens(four);
    JoinFree(four, ' ', CharSep(','));
    JoinFree(four, ' ', CharSep(';'));
    SingleToken(line4, CharSep(','));
    SingleToken(line4, CharSep(';'));
    SplitFieldsShort(line4);
  }

  /** The saved row of an isolated node trims to four fields, which the reader rejects. */
  lemma IsolatedRowRejected(adj: Adjacency, nums: Numbers, format: RealFormatter, parseReal: RealParser,
                            id: int)
    requires Covers(adj, nums) && id in adj && RowReloads(nums, format, parseReal, id)
    requires adj[id] == {}
    ensures Trim(SavedRow(adj, nums, format, id)) != []
    ensures ParseHead(Trim(SavedRow(adj, nums, format, id)), parseReal).Err?
  {
    var parts := RowParts(adj, nums, format, id);
    var four := parts[..4];
    assert Ids.Sorted(adj[id]) == [];
    assert parts[4] == [];
    JoinSnoc(four, parts[4], " ");
    assert four + [parts[4]] == parts;
    assert SavedRow(adj, nums, format, id) == Join(four, " ") + " ";
    forall k | 0 <= k < 4 ensures CleanToken(four[k]) {
      if k == 0 {
        IntTokenClean(id);
      } else if k == 3 {
        IntTokenClean(0);
      }
    }
    FourColumnsShort(four);
  }

  // ---- the whole load ----

  /** What `LoadCsv` reads from a file: its data lines, the row loop, then the first
      listed neighbour that is not a node (MissingEndpoint), in row and list order. */
  function LoadRows(lines: seq<string>, parseReal: RealParser): (r: Result<seq<Row>>)
    ensures r.Ok? ==> FirstMissing(r.value, RowIds(r.value)).None?
  {
    var data := DataLines(lines);
    if data.Err? then Err(data.error)
    else
      var rows := ReadRows(ReadLines(data.value, parseReal), {});
      if rows.Err? then rows
      else
        match FirstMissing(rows.value, RowIds(rows.value))
        case Some(p) => Err(MissingEndpoint(p.0, p.1))
        case None => rows
  }

  lemma NonBlankLinesKeeps(lines: seq<string>)
    requires lines != [] && !IsBlank(lines[0])
    ensures NonBlankLines(lines) == [Trim(lines[0])] + NonBlankLines(lines[1..])
  {
  }

  /** A load with data lines, rows read and every neighbour a node yields those rows. */
  lemma LoadRowsOk(lines: seq<string>, parseReal: RealParser, data: seq<string>, rows: seq<Row>)
    requires DataLines(lines) == Ok(data)
    requires ReadRows(ReadLines(data, parseReal), {}) == Ok(rows)
    requires FirstMissing(rows, RowIds(rows)).None?
    ensures LoadRows(lines, parseReal) == Ok(rows)
  {
  }

  lemma {:induction false} NonBlankLinesAllKept(lines: seq<string>)
    requires forall k | 0 <= k < |lines| :: !IsBlank(lines[k])
    ensures NonBlankLines(lines) == TrimEach(lines)
  {
    if lines != [] {
      var tail := lines[1..];
      assert NonBlankLines(tail) == TrimEach(tail) by {
        forall k | 0 <= k < |tail| ensures !IsBlank(tail[k]) {
          assert tail[k] == lines[k + 1];
        }
        NonBlankLinesAllKept(tail);
      }
      NonBlankLinesKeeps(lines);
    }
  }

  /** A first line the reader drops as a header: no white space at either end, and a
      first character that is not a digit. */
  predicate HeaderLine(h: string) {
    h != [] && !IsWhiteSpace(h[0]) && !IsWhiteSpace(h[|h| - 1]) && !IsDigit(h[0])
  }

  lemma HeaderIsHeaderLine()
    ensures HeaderLine(Header)
  {
    assert Header[0] == 'D' && Header[|Header| - 1] == 'r';
  }

  /** Every line was read as the head and the neighbour list of the matching row. */
  predicate ReadsAs(scanned: seq<LineRead>, rows: seq<Row>) {
    |scanned| == |rows| && forall k | 0 <= k < |rows| :: ReadAs(scanned[k], rows[k])
  }

  predicate ReadAs(line: LineRead, row: Row) {
    && line.HeadRead? && line.neighbors == Ok(row.Neighbors)
    && line.head.Id == row.Id && line.head.Activity == row.Activity && line.head.Interaction == row.Interaction
  }

  /** What the row's own text reads as: its head, with the neighbour column written
      out, and its neighbours. */
  function Echo(row: Row): LineRead {
    HeadRead(Head(row.Id, row.Activity, row.Interaction, NeighborColumn(row.Neighbors)), Ok(row.Neighbors))
  }

  lemma EchoReadsAs(scanned: seq<LineRead>, rows: seq<Row>)
    requires |scanned| == |rows|
    requires forall k | 0 <= k < |rows| :: scanned[k] == Echo(rows[k])
    ensures ReadsAs(scanned, rows)
  {
  }

  /** Heads read back with their neighbour lists give exactly the rows. */
  lemma {:induction false} ReadRowsOfHeads(scanned: seq<LineRead>, rows: seq<Row>, seen: set<int>)
    requires ReadsAs(scanned, rows)
    requires forall k | 0 <= k < |rows| :: rows[k].Id !in seen
    requires forall i, j | 0 <= i < j < |rows| :: rows[i].Id != rows[j].Id
    ensures ReadRows(scanned, seen) == Ok(rows)
  {
    if rows != [] {
      ReadRowsOfHeads(scanned[1..], rows[1..], seen + {rows[0].Id});
      assert rows == [rows[0]] + rows[1..];
    }
  }

  /** A saved row starts with its id, so it is never blank. */
  lemma SavedRowNotBlank(adj: Adjacency, nums: Numbers, format: RealFormatter, id: int)
    requires Covers(adj, nums) && id in adj
    ensures !IsBlank(SavedRow(adj, nums, format, id))
  {
    var parts := RowParts(adj, nums, format, id);
    var line := SavedRow(adj, nums, format, id);
    assert line == Join(parts, " ");
    IntToStringFree(id);
    JoinStartsWithFirst(parts, " ");
    assert line[0] == parts[0][0];
  }

  /** A header line followed by non-blank rows: the data lines are the trimmed rows. */
  lemma DataLinesAfterHeader(header: string, rows: seq<string>)
    requires HeaderLine(header)
    requires forall k | 0 <= k < |rows| :: !IsBlank(rows[k])
    ensures DataLines([header] + rows) == Ok(TrimEach(rows))
  {
    var lines := [header] + rows;
    assert !IsBlank(header) by {
      assert !IsWhiteSpace(header[0]);
    }
    assert lines[1..] == rows;
    TrimEnds(header);
    NonBlankLinesKeeps(lines);
    NonBlankLinesAllKept(rows);
  }

  /** The data lines of a saved file are its rows, trimmed, in ascending id order. */
  lemma SavedDataLines(header: string, adj: Adjacency, nums: Numbers, format: RealFormatter)
    requires HeaderLine(header)
    requires Covers(adj, nums)
    ensures DataLines(SavedLines(header, adj, nums, format)) == Ok(TrimEach(SavedRows(adj, nums, format)))
  {
    var rows := SavedRows(adj, nums, format);
    forall k | 0 <= k < |rows| ensures !IsBlank(rows[k]) {
      SavedRowNotBlank(adj, nums, format, Ids.Sorted(adj.Keys)[k]);
    }
    DataLinesAfterHeader(header, rows);
  }

  lemma ExpectedIdsDistinct(adj: Adjacency, nums: Numbers)
    requires Covers(adj, nums)
    ensures forall i, j | 0 <= i < j < |ExpectedRows(adj, nums)| ::
              ExpectedRows(adj, nums)[i].Id != ExpectedRows(adj, nums)[j].Id
  {
    var ids := Ids.Sorted(adj.Keys);
    var rows := ExpectedRows(adj, nums);
    forall i, j | 0 <= i < j < |rows| ensures rows[i].Id != rows[j].Id {
      assert rows[i].Id == ids[i] && rows[j].Id == ids[j];
    }
  }

  /** The `k`-th trimmed row of a saved file reads as the `k`-th expected row. */
  lemma SavedLineReadAs(adj: Adjacency, nums: Numbers, format: RealFormatter, parseReal: RealParser, k: int)
    requires Covers(adj, nums) && 0 <= k < |adj|
    requires RowSaves(adj, nums, format, parseReal, Ids.Sorted(adj.Keys)[k])
    ensures ReadLine(TrimEach(SavedRows(adj, nums, format))[k], parseReal) == Echo(ExpectedRow(adj, nums, Ids.Sorted(adj.Keys)[k]))
  {
    var id := Ids.Sorted(adj.Keys)[k];
    var line := TrimEach(SavedRows(adj, nums, format))[k];
    assert line == Trim(SavedRow(adj, nums, format, id));
    SavedRowReadsBack(adj, nums, format, parseReal, id);
  }

  /** The rows of a saved file read back as the expected rows when no node is isolated. */
  lemma SavedRowsReadBack(adj: Adjacency, nums: Numbers, format: RealFormatter, parseReal: RealParser)
    requires Reloadable(adj, nums, format, parseReal) && NeighborsInt32(adj)
    requires forall id | id in adj :: adj[id] != {}
    ensures ReadRows(ReadLines(TrimEach(SavedRows(adj, nums, format)), parseReal), {}) == Ok(ExpectedRows(adj, nums))
  {
    var scanned := ReadLines(TrimEach(SavedRows(adj, nums, format)), parseReal);
    var rows := ExpectedRows(adj, nums);
    forall k | 0 <= k < |rows| ensures scanned[k] == Echo(rows[k]) {
      var id := Ids.Sorted(adj.Keys)[k];
      assert RowSaves(adj, nums, format, parseReal, id) by {
        assert RowReloads(nums, format, parseReal, id);
      }
      SavedLineReadAs(adj, nums, format, parseReal, k);
      assert rows[k] == ExpectedRow(adj, nums, Ids.Sorted(adj.Keys)[k]);
    }
    EchoReadsAs(scanned, rows);
    ExpectedIdsDistinct(adj, nums);
    ReadRowsOfHeads(scanned, rows, {});
  }

  /** A saved file with an isolated node fails to load. */
  lemma SavedIsolatedRejected(adj: Adjacency, nums: Numbers, format: RealFormatter, parseReal: RealParser, id: int)
    requires Reloadable(adj, nums, format, parseReal)
    requires id in adj && adj[id] == {}
    ensures ReadRows(ReadLines(TrimEach(SavedRows(adj, nums, format)), parseReal), {}).Err?
  {
    var ids := Ids.Sorted(adj.Keys);
    var k :| 0 <= k < |ids| && ids[k] == id;
    var data := TrimEach(SavedRows(adj, nums, format));
    var scanned := ReadLines(data, parseReal);
    assert RowReloads(nums, format, parseReal, id);
    IsolatedRowRejected(adj, nums, format, parseReal, id);
    var line := data[k];
    assert line == Trim(SavedRow(adj, nums, format, id));
    assert scanned[k] == ReadLine(line, parseReal);
    ReadRowsFailsOnBadHead(scanned, {}, k);
  }

  /** The expected rows carry exactly the node ids. */
  lemma ExpectedRowIds(adj: Adjacency, nums: Numbers)
    requires Covers(adj, nums)
    ensures RowIds(ExpectedRows(adj, nums)) == adj.Keys
  {
    var rows := ExpectedRows(adj, nums);
    var ids := Ids.Sorted(adj.Keys);
    forall x ensures x in RowIds(rows) <==> x in adj {
      if x in adj {
        var k :| 0 <= k < |ids| && ids[k] == x;
        assert rows[k].Id == x;
      }
    }
  }

  /** Every neighbour listed in the expected rows is a node. */
  lemma ExpectedNoneMissing(adj: Adjacency, nums: Numbers)
    requires (forall id | id in adj :: adj[id] <= adj.Keys) && Covers(adj, nums)
    ensures FirstMissing(ExpectedRows(adj, nums), adj.Keys).None?
  {
    var rows := ExpectedRows(adj, nums);
    var ids := Ids.Sorted(adj.Keys);
    forall k, j | 0 <= k < |rows| && 0 <= j < |rows[k].Neighbors| ensures rows[k].Neighbors[j] in adj.Keys {
      var id := ids[k];
      var nbs := Ids.Sorted(adj[id]);
      assert rows[k].Neighbors == nbs;
      assert nbs[j] in nbs;
      assert nbs[j] in adj[id];
    }
  }

  /** The pairs of the expected rows are the edges, smaller id first. */
  lemma ExpectedPairs(adj: Adjacency, nums: Numbers, p: (int, int))
    requires Covers(adj, nums)
    ensures p in Pairs(ExpectedRows(adj, nums)) <==> p.0 in adj && p.1 in adj[p.0] && p.0 < p.1
  {
    var rows := ExpectedRows(adj, nums);
    var ids := Ids.Sorted(adj.Keys);
    PairsMember(rows, p);
    if p.0 in adj && p.1 in adj[p.0] && p.0 < p.1 {
      var k :| 0 <= k < |ids| && ids[k] == p.0;
      assert p.1 in rows[k].Neighbors;
    }
  }

  /** The pairs of a well-formed adjacency, smaller id first, link back to it. */
  lemma LinkedEdgePairs(adj: Adjacency, pairs: set<(int, int)>)
    requires WellFormed(adj)
    requires forall p :: p in pairs <==> p.0 in adj && p.1 in adj[p.0] && p.0 < p.1
    ensures Linked(adj.Keys, pairs) == adj
  {
    var linked := Linked(adj.Keys, pairs);
    forall x | x in adj ensures linked[x] == adj[x] {
      forall y ensures y in linked[x] <==> y in adj[x] {
        LinkedMember(adj.Keys, pairs, x, y);
        if y in adj[x] {
          assert x != y;
          assert y in adj && x in adj[y];
        }
      }
    }
  }

  /** Reading back the pairs of a well-formed adjacency saved row by row gives it back. */
  lemma LinkedExpected(adj: Adjacency, nums: Numbers)
    requires WellFormed(adj) && Covers(adj, nums)
    ensures Linked(adj.Keys, Pairs(ExpectedRows(adj, nums))) == adj
  {
    var pairs := Pairs(ExpectedRows(adj, nums));
    forall p ensures p in pairs <==> p.0 in adj && p.1 in adj[p.0] && p.0 < p.1 {
      ExpectedPairs(adj, nums, p);
    }
    LinkedEdgePairs(adj, pairs);
  }

  /** Saving a graph none of whose nodes is isolated and loading the text back gives the
      expected rows. */
  lemma SaveThenLoadConnected(header: string, adj: Adjacency, nums: Numbers, format: RealFormatter, parseReal: RealParser)
    requires HeaderLine(header)
    requires Reloads(adj, nums, format, parseReal)
    requires forall id | id in adj :: adj[id] != {}
    ensures LoadRows(SavedLines(header, adj, nums, format), parseReal) == Ok(ExpectedRows(adj, nums))
  {
    var lines := SavedLines(header, adj, nums, format);
    var rows := ExpectedRows(adj, nums);
    SavedDataLines(header, adj, nums, format);
    ReloadsNeighborsInt32(adj, nums, format, parseReal);
    SavedRowsReadBack(adj, nums, format, parseReal);
    ExpectedRowIds(adj, nums);
    ExpectedNoneMissing(adj, nums);
    LoadRowsOk(lines, parseReal, TrimEach(SavedRows(adj, nums, format)), rows);
  }

  /** Saving a graph with an isolated node gives text that does not load back. */
  lemma SaveThenLoadIsolated(header: string, adj: Adjacency, nums: Numbers, format: RealFormatter, parseReal: RealParser, id: int)
    requires HeaderLine(header)
    requires Reloadable(adj, nums, format, parseReal)
    requires id in adj && adj[id] == {}
    ensures LoadRows(SavedLines(header, adj, nums, format), parseReal).Err?
  {
    var lines := SavedLines(header, adj, nums, format);
    assert DataLines(lines) == Ok(TrimEach(SavedRows(adj, nums, format))) by {
      SavedDataLines(header, adj, nums, format);
    }
    var scanned := ReadLines(DataLines(lines).value, parseReal);
    assert ReadRows(scanned, {}).Err? by {
      SavedIsolatedRejected(adj, nums, format, parseReal, id);
    }
  }

  /** Saving a graph and loading the file gives back its nodes, numbers and adjacency
      exactly when no node is isolated; a row of an isolated node fails the load. */
  lemma SaveThenLoad(header: string, adj: Adjacency, nums: Numbers, format: RealFormatter, parseReal: RealParser)
    requires HeaderLine(header)
    requires Reloads(adj, nums, format, parseReal)
    ensures LoadRows(SavedLines(header, adj, nums, format), parseReal).Ok? <==> forall id | id in adj :: adj[id] != {}
    ensures (forall id | id in adj :: adj[id] != {}) ==>
              && LoadRows(SavedLines(header, adj, nums, format), parseReal) == Ok(ExpectedRows(adj, nums))
              && RowIds(ExpectedRows(adj, nums)) == adj.Keys
              && Linked(adj.Keys, Pairs(ExpectedRows(adj, nums))) == adj
  {
    var load := LoadRows(SavedLines(header, adj, nums, format), parseReal);
    if forall id | id in adj :: adj[id] != {} {
      assert load == Ok(ExpectedRows(adj, nums)) by {
        SaveThenLoadConnected(header, adj, nums, format, parseReal);
      }
      assert RowIds(ExpectedRows(adj, nums)) == adj.Keys by {
        ExpectedRowIds(adj, nums);
      }
      assert Linked(adj.Keys, Pairs(ExpectedRows(adj, nums))) == adj by {
        LinkedExpected(adj, nums);
      }
    } else {
      var id :| id in adj && adj[id] == {};
      assert load.Err? by {
        SaveThenLoadIsolated(header, adj, nums, format, parseReal, id);
      }
    }
  }
}
