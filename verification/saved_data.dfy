/** The saved-friendships file (`friendships.txt`), written the same way by
    `Friendships` and by `Philios`: one line `column <-> row` per cell of the
    table, lines joined by '\n'. Loading reads the lines back in order and
    puts the cell (first field, second field) for each; a line that does not
    split into exactly two fields aborts the load with an
    IllegalStateException, keeping the cells of the lines before it. */
module SavedData {
  import opened JavaLang
  import opened Uuids
  import opened JavaStrings
  import opened FriendTable

  /** The separator between the two identifiers of a line. */
  const Delimiter: string := " <-> "

  /** The line saved for a cell: its column key, the delimiter, its row key. */
  function FormatLine(c: Cell): (line: string)
    ensures |line| == 77
    ensures Lacks(line, '\n')
  {
    ToStr(c.1) + Delimiter + ToStr(c.0)
  }

  /** The cell a loaded line puts: (first field, second field). A line that
      does not split into exactly two fields is an IllegalStateException; two
      fields that are not UUIDs are the IllegalArgumentException of
      `UUID.fromString`. */
  function ParseLine(line: string): (r: Result<Cell>)
    ensures r.Ok? <==> (|Split(line, Delimiter)| == 2
                        && FromStr(Split(line, Delimiter)[0]).Some? && FromStr(Split(line, Delimiter)[1]).Some?)
    ensures r.Ok? ==> r.value == (FromStr(Split(line, Delimiter)[0]).value, FromStr(Split(line, Delimiter)[1]).value)
    ensures |Split(line, Delimiter)| != 2 ==> r == Throw(IllegalStateException)
    ensures |Split(line, Delimiter)| == 2 && r.Throw? ==> r == Throw(IllegalArgumentException)
  {
    var fields := Split(line, Delimiter);
    if |fields| == 2 then
      match (FromStr(fields[0]), FromStr(fields[1]))
      case (Some(row), Some(col)) => Ok((row, col))
      case _ => Throw(IllegalArgumentException)
    else
      Throw(IllegalStateException)
  }

  lemma NoDelimiterInUuid(u: Uuid)
    ensures Lacks(ToStr(u), Delimiter[0])
  {
  }

  /** A saved line loads back as the transposed cell: (column, row). */
  lemma ParseFormatLine(c: Cell)
    ensures ParseLine(FormatLine(c)) == Ok((c.1, c.0))
  {
    NoDelimiterInUuid(c.1);
    NoDelimiterInUuid(c.0);
    SplitTwo(ToStr(c.1), Delimiter, ToStr(c.0));
    FromStrToStr(c.1);
    FromStrToStr(c.0);
  }

  /** The field count is taken after trailing empty fields are dropped, so a
      line ending in an extra delimiter still loads, while the empty line, a
      line that is only the delimiter and a line of three identifiers abort
      the load. */
  lemma {:induction false} ParseEdgeCases(a: Uuid, b: Uuid, c: Uuid)
    ensures ParseLine(ToStr(a) + Delimiter + ToStr(b) + Delimiter) == Ok((a, b))
    ensures ParseLine("") == Throw(IllegalStateException)
    ensures ParseLine(Delimiter) == Throw(IllegalStateException)
    ensures ParseLine(ToStr(a) + Delimiter + ToStr(b) + Delimiter + ToStr(c)) == Throw(IllegalStateException)
  {
    NoDelimiterInUuid(a);
    NoDelimiterInUuid(b);
    NoDelimiterInUuid(c);
    SplitTrailingDelimiter(ToStr(a), Delimiter, ToStr(b));
    FromStrToStr(a);
    FromStrToStr(b);
    SplitDegenerate(Delimiter);
    SplitThree(ToStr(a), Delimiter, ToStr(b), ToStr(c));
  }

  /** What a load leaves: the table as it stands when the load stops, and the
      exception that stopped it, if any. */
  datatype LoadOutcome = LoadOutcome(table: Table, failure: Option<Exception>)

  /** The result of parsing each line, in order. */
  function ParseLines(lines: seq<string>): (rs: seq<Result<Cell>>)
    ensures |rs| == |lines|
    ensures forall i :: 0 <= i < |lines| ==> rs[i] == ParseLine(lines[i])
  {
    seq(|lines|, i requires 0 <= i < |lines| => ParseLine(lines[i]))
  }

  /** Puts the parsed cells in order, until the end or the first line whose
      parse threw. */
  function LoadParsed(t: Table, rs: seq<Result<Cell>>): (r: LoadOutcome)
    ensures t <= r.table
    ensures r.failure.Some? ==> exists i :: 0 <= i < |rs| && rs[i] == Throw(r.failure.value)
    decreases |rs|
  {
    if rs == [] then LoadOutcome(t, None)
    else
      match rs[0]
      case Ok(c) =>
        var r := LoadParsed(t + {c}, rs[1..]);
        assert r.failure.Some? ==> exists i :: 1 <= i < |rs| && rs[i] == Throw(r.failure.value) by {
          if r.failure.Some? {
            var i :| 0 <= i < |rs[1..]| && rs[1..][i] == Throw(r.failure.value);
            assert rs[1..][i] == rs[i + 1];
          }
        }
        r
      case Throw(e) => LoadOutcome(t, Some(e))
  }

  /** Processes the lines in order, putting one cell per line, until the end
      or the first line that throws. Parsing a line does not depend on the
      table, so this is loading the lines' parses in order. */
  function Load(t: Table, lines: seq<string>): (r: LoadOutcome)
    ensures t <= r.table
    ensures r.failure.Some? ==> exists i :: 0 <= i < |lines| && ParseLine(lines[i]) == Throw(r.failure.value)
  {
    LoadParsed(t, ParseLines(lines))
  }

  /** The cells of the successful parses among `rs`. */
  function CellsOf(rs: seq<Result<Cell>>): set<Cell>
  {
    set i | 0 <= i < |rs| && rs[i].Ok? :: rs[i].value
  }

  /** The cells the well-formed lines among `lines` put. */
  function ParsedCells(lines: seq<string>): (cells: set<Cell>)
    ensures cells == CellsOf(ParseLines(lines))
  {
    set i | 0 <= i < |lines| && ParseLine(lines[i]).Ok? :: ParseLine(lines[i]).value
  }

  lemma CellsOfCons(rs: seq<Result<Cell>>)
    requires |rs| > 0 && rs[0].Ok?
    ensures CellsOf(rs) == {rs[0].value} + CellsOf(rs[1..])
  {
    var tail := rs[1..];
    forall c | c in CellsOf(rs)
      ensures c in {rs[0].value} + CellsOf(tail)
    {
      var i :| 0 <= i < |rs| && rs[i].Ok? && rs[i].value == c;
      if i > 0 {
        assert tail[i - 1] == rs[i];
      }
    }
    forall c | c in CellsOf(tail)
      ensures c in CellsOf(rs)
    {
      var i :| 0 <= i < |tail| && tail[i].Ok? && tail[i].value == c;
      assert rs[i + 1] == tail[i];
    }
  }

  /** When every parse succeeded, loading puts exactly their cells. */
  lemma {:induction false} LoadParsedAllOk(t: Table, rs: seq<Result<Cell>>)
    requires forall i :: 0 <= i < |rs| ==> rs[i].Ok?
    ensures LoadParsed(t, rs) == LoadOutcome(t + CellsOf(rs), None)
    decreases |rs|
  {
    if rs != [] {
      var c := rs[0].value;
      LoadParsedAllOk(t + {c}, rs[1..]);
      CellsOfCons(rs);
      assert t + ({c} + CellsOf(rs[1..])) == t + {c} + CellsOf(rs[1..]);
    } else {
      assert CellsOf(rs) == {};
    }
  }

  /** A failed parse stops the load with its exception, and the cells of
      the parses before it stay in the table. */
  lemma {:induction false} LoadParsedStops(t: Table, rs: seq<Result<Cell>>, k: nat)
    requires k < |rs| && rs[k].Throw?
    requires forall i :: 0 <= i < k ==> rs[i].Ok?
    ensures LoadParsed(t, rs) == LoadOutcome(t + CellsOf(rs[..k]), Some(rs[k].exception))
    decreases k
  {
    if k == 0 {
      assert CellsOf(rs[..0]) == {};
    } else {
      var c := rs[0].value;
      var tail := rs[1..];
      assert tail[k - 1] == rs[k];
      assert tail[..k - 1] == rs[..k][1..];
      LoadParsedStops(t + {c}, tail, k - 1);
      CellsOfCons(rs[..k]);
      assert t + ({c} + CellsOf(tail[..k - 1])) == t + {c} + CellsOf(tail[..k - 1]);
    }
  }

  /** When every line is well formed, loading puts exactly their cells. */
  lemma {:induction false} LoadWellFormed(t: Table, lines: seq<string>)
    requires forall i :: 0 <= i < |lines| ==> ParseLine(lines[i]).Ok?
    ensures Load(t, lines) == LoadOutcome(t + ParsedCells(lines), None)
  {
    LoadParsedAllOk(t, ParseLines(lines));
  }

  /** A malformed line stops the load with its exception, and the cells of
      the lines before it stay in the table. */
  lemma LoadStopsAtMalformed(t: Table, lines: seq<string>, k: nat)
    requires k < |lines| && ParseLine(lines[k]).Throw?
    requires forall i :: 0 <= i < k ==> ParseLine(lines[i]).Ok?
    ensures Load(t, lines) == LoadOutcome(t + ParsedCells(lines[..k]), Some(ParseLine(lines[k]).exception))
  {
    var rs := ParseLines(lines);
    LoadParsedStops(t, rs, k);
    assert ParseLines(lines[..k]) == rs[..k];
  }

  /** Loading the saved file on enable: a missing file leaves the fresh table
      empty; otherwise the file's lines are loaded into it. */
  function LoadSavedData(file: Option<string>): (r: LoadOutcome)
    ensures file.None? ==> r == LoadOutcome({}, None)
  {
    match file
    case None => LoadOutcome({}, None)
    case Some(content) => Load({}, ReadLines(content))
  }

  /** Enabling the store: the table is created and the saved file loaded
      into it. Only an IOException is caught around the load, so the
      exception of a malformed line escapes and enabling fails with it. The
      table was installed before the load, so after such a failure it still
      holds the cells of the lines before the malformed one: that is
      `LoadSavedData(file).table`, which the failed result does not carry. */
  function Enable(file: Option<string>): (r: Result<Table>)
    ensures file.None? ==> r == Ok({})
    ensures r.Ok? <==> LoadSavedData(file).failure.None?
    ensures r.Ok? ==> r.value == LoadSavedData(file).table
    ensures r.Throw? ==> r.exception == LoadSavedData(file).failure.value
  {
    var loaded := LoadSavedData(file);
    match loaded.failure
    case None => Ok(loaded.table)
    case Some(e) => Throw(e)
  }

  /** `order` lists every cell of `t` exactly once: an iteration order of the
      table's cell set. */
  predicate Enumerates(order: seq<Cell>, t: Table)
  {
    && (forall c :: c in t ==> c in order)
    && (forall i :: 0 <= i < |order| ==> order[i] in t)
    && (forall i, j :: 0 <= i < j < |order| ==> order[i] != order[j])
  }

  /** The saved lines, one per cell in iteration order. */
  function SaveLines(order: seq<Cell>): (lines: seq<string>)
    ensures |lines| == |order|
  {
    seq(|order|, i requires 0 <= i < |order| => FormatLine(order[i]))
  }

  /** Writes the table: walks its cells in some order (the cell set's
      iteration order, which nothing fixes) and joins their lines with '\n'. */
  method SaveData(t: Table) returns (order: seq<Cell>, content: string)
    ensures Enumerates(order, t)
    ensures content == Join(SaveLines(order), "\n")
  {
    order := [];
    var rest := t;
    while rest != {}
      invariant rest <= t
      invariant forall c :: c in t <==> c in rest || c in order
      invariant forall c :: c in order ==> c !in rest
      invariant forall i, j :: 0 <= i < j < |order| ==> order[i] != order[j]
      decreases rest
    {
      var c :| c in rest;
      order := order + [c];
      rest := rest - {c};
    }
    content := Join(SaveLines(order), "\n");
  }

  lemma SavedLinesParse(order: seq<Cell>)
    ensures forall i :: 0 <= i < |order| ==> ParseLine(SaveLines(order)[i]) == Ok((order[i].1, order[i].0))
  {
    forall i | 0 <= i < |order|
      ensures ParseLine(SaveLines(order)[i]) == Ok((order[i].1, order[i].0))
    {
      assert SaveLines(order)[i] == FormatLine(order[i]);
      ParseFormatLine(order[i]);
    }
  }

  lemma SavedLinesReadBack(order: seq<Cell>)
    ensures ReadLines(Join(SaveLines(order), "\n")) == SaveLines(order)
  {
    var lines := SaveLines(order);
    assert forall i :: 0 <= i < |lines| ==> lines[i] == FormatLine(order[i]);
    ReadJoinedLines(lines);
  }

  lemma {:induction false} SavedCellsTransposed(t: Table, order: seq<Cell>)
    requires Enumerates(order, t)
    ensures ParsedCells(SaveLines(order)) == Transpose(t)
  {
    var lines := SaveLines(order);
    SavedLinesParse(order);
    forall c | c in ParsedCells(lines)
      ensures c in Transpose(t)
    {
      var i :| 0 <= i < |lines| && ParseLine(lines[i]).Ok? && ParseLine(lines[i]).value == c;
      assert order[i] in t;
    }
    forall c | c in Transpose(t)
      ensures c in ParsedCells(lines)
    {
      assert (c.1, c.0) in t;
      var i :| 0 <= i < |order| && order[i] == (c.1, c.0);
      assert ParseLine(lines[i]).value == c;
    }
  }

  /** Loading what was saved gives the transpose of the saved table, in
      whatever order its cells were written. */
  lemma SaveThenLoad(t: Table, order: seq<Cell>)
    requires Enumerates(order, t)
    ensures LoadSavedData(Some(Join(SaveLines(order), "\n"))) == LoadOutcome(Transpose(t), None)
  {
    var lines := SaveLines(order);
    SavedLinesReadBack(order);
    SavedLinesParse(order);
    LoadWellFormed({}, lines);
    SavedCellsTransposed(t, order);
  }

  /** A table survives a save and a load unchanged exactly when it is
      symmetric; in particular the empty table comes back empty. */
  lemma SaveThenLoadSymmetric(t: Table, order: seq<Cell>)
    requires Enumerates(order, t)
    ensures LoadSavedData(Some(Join(SaveLines(order), "\n"))).table == t <==> Symmetric(t)
  {
    SaveThenLoad(t, order);
    SymmetricIffTransposeFixed(t);
  }

  /** Disabling the service: the table is saved, then cleared. */
  method Shutdown(t: Table) returns (content: string, cleared: Table)
    ensures cleared == {}
    ensures LoadSavedData(Some(content)) == LoadOutcome(Transpose(t), None)
    ensures Enable(Some(content)) == Ok(Transpose(t))
  {
    var order;
    order, content := SaveData(t);
    SaveThenLoad(t, order);
    cleared := {};
  }
}
