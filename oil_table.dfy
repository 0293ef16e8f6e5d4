/** `fetch_oil_prices`: from the price-history table to typed price records.
    The table arrives already located (its `tr` rows as the text of their
    `td` cells, and the text of every `th`); the date and number parsers are
    parameters. */
module OilTable {
  import opened Wrappers
  import opened Seqs
  import opened Text
  import opened OilData

  /** The table element: for each `tr`, the text of its `td` cells (a header
      row has none); and the text of every `th` in the table. */
  datatype Table = Table(rows: seq<seq<string>>, headings: seq<string>)

  /** What `fetch_oil_prices` raises. `TableNotFound`: no element with the
      table's id, so `find_all` is called on `None`. `MissingColumn`: a column
      label absent from the header (`list.index`). `RowTooShort`: a data row
      with fewer cells than a label's position (`row[i]`). */
  datatype FetchError = TableNotFound | MissingColumn(column: string) | RowTooShort

  /** The five columns kept, in this order: adjustment date, unleaded 92, 95,
      98 and premium diesel. */
  const TargetColumns: seq<string> :=
    ["調價日期", "無鉛汽油92", "無鉛汽油95", "無鉛汽油98", "超級/高級柴油"]

  predicate HasCells(row: seq<string>)
  {
    |row| > 0
  }

  function TrimCells(row: seq<string>): seq<string>
  {
    Map(Strip, row)
  }

  /** The data rows: those with at least one cell, each cell stripped. */
  function Extracted(rows: seq<seq<string>>): seq<seq<string>>
  {
    Map(TrimCells, Filter(rows, HasCells))
  }

  /** The loop that builds `data` by appending each row's stripped cells
      when it has any. */
  method ExtractRows(rows: seq<seq<string>>) returns (data: seq<seq<string>>)
    ensures data == Extracted(rows)
  {
    data := [];
    for i := 0 to |rows|
      invariant data == Extracted(rows[..i])
    {
      var cols := TrimCells(rows[i]);
      if |cols| > 0 {
        data := data + [cols];
      }
      assert rows[..i + 1] == rows[..i] + [rows[i]];
      FilterSnoc(rows[..i], rows[i], HasCells);
      if HasCells(rows[i]) {
        MapSnoc(TrimCells, Filter(rows[..i], HasCells), rows[i]);
      }
    }
    assert rows[..|rows|] == rows;
  }

  /** Extraction keeps exactly the rows that have cells, in their original
      order, each cell stripped: row `k` of the result is input row
      `Kept(rows, HasCells)[k]`. */
  lemma ExtractedRows(rows: seq<seq<string>>)
    ensures |Extracted(rows)| == |Kept(rows, HasCells)|
    ensures forall k :: 0 <= k < |Kept(rows, HasCells)| ==>
      var i := Kept(rows, HasCells)[k];
      i < |rows| && |rows[i]| > 0 && Extracted(rows)[k] == TrimCells(rows[i])
    ensures forall k1, k2 :: 0 <= k1 < k2 < |Kept(rows, HasCells)| ==>
      Kept(rows, HasCells)[k1] < Kept(rows, HasCells)[k2]
    ensures forall i :: 0 <= i < |rows| ==> (|rows[i]| > 0 <==> i in Kept(rows, HasCells))
  {
    FilterSelects(rows, HasCells);
  }

  /** `header.index(name)`: the first position holding `name`. */
  function IndexOf(header: seq<string>, name: string): (r: Option<nat>)
    ensures r.None? <==> name !in header
    ensures r.Some? ==> r.value < |header| && header[r.value] == name && name !in header[..r.value]
  {
    if header == [] then None
    else if header[0] == name then Some(0)
    else match IndexOf(header[1..], name)
      case None => None
      case Some(i) =>
        assert header[..i + 1] == [header[0]] + header[1..][..i];
        Some(i + 1)
  }

  /** `[header.index(col) for col in labels]`: the first position of each
      label, in label order; the first label absent from the header raises. */
  function Lookup(header: seq<string>, labels: seq<string>): (r: Result<seq<nat>, FetchError>)
    ensures r.Ok? <==> forall t :: 0 <= t < |labels| ==> labels[t] in header
    ensures r.Ok? ==> |r.value| == |labels| && forall t :: 0 <= t < |labels| ==>
      r.value[t] < |header| && header[r.value[t]] == labels[t] && labels[t] !in header[..r.value[t]]
    ensures r.Err? ==> exists t ::
              && 0 <= t < |labels| && r.error == MissingColumn(labels[t]) && labels[t] !in header
              && forall u :: 0 <= u < t ==> labels[u] in header
  {
    if labels == [] then Ok([])
    else match IndexOf(header, labels[0])
      case None => Err(MissingColumn(labels[0]))
      case Some(i) =>
        match Lookup(header, labels[1..])
        case Err(e) =>
          assert forall u :: 1 <= u < |labels| ==> labels[u] == labels[1..][u - 1];
          Err(e)
        case Ok(rest) =>
          assert forall u :: 1 <= u < |labels| ==> labels[u] == labels[1..][u - 1];
          Ok([i] + rest)
  }

  /** `row[i] for i in indices` for one row, when every index is in range. */
  function ProjectRow(row: seq<string>, indices: seq<nat>): Option<seq<string>>
  {
    if forall t :: 0 <= t < |indices| ==> indices[t] < |row| then
      Some(seq(|indices|, t requires 0 <= t < |indices| => row[indices[t]]))
    else None
  }

  /** `[[row[i] for i in indices] for row in data]`: every row projected onto
      the positions, in position order; a row too short for a position
      raises. */
  function Project(data: seq<seq<string>>, indices: seq<nat>): (r: Result<seq<seq<string>>, FetchError>)
    ensures r.Err? <==> exists i, t :: 0 <= i < |data| && 0 <= t < |indices| && indices[t] >= |data[i]|
    ensures r.Err? ==> r.error == RowTooShort
    ensures r.Ok? ==> |r.value| == |data| && forall i :: 0 <= i < |data| ==>
      |r.value[i]| == |indices| && forall t :: 0 <= t < |indices| ==> r.value[i][t] == data[i][indices[t]]
  {
    if data == [] then Ok([])
    else match ProjectRow(data[0], indices)
      case None => Err(RowTooShort)
      case Some(cells) =>
        match Project(data[1..], indices)
        case Err(e) =>
          assert forall i :: 1 <= i < |data| ==> data[i] == data[1..][i - 1];
          Err(e)
        case Ok(rest) =>
          assert forall i :: 1 <= i < |data| ==> data[i] == data[1..][i - 1];
          Ok([cells] + rest)
  }

  /** `df.replace("", None)` then coercion with `errors='coerce'`: an empty
      cell is missing, any other cell is what the parser makes of it. */
  function Cell<T>(text: string, parse: string -> Option<T>): Option<T>
  {
    if text == "" then None else parse(text)
  }

  /** One projected row as a typed record. */
  function ToRecord(cells: seq<string>, parseDate: string -> Option<Date>, parseNumber: string -> Option<real>): PriceRecord
    requires |cells| == 5
  {
    PriceRecord(
      Cell(cells[0], parseDate),
      FuelPrices(Cell(cells[1], parseNumber), Cell(cells[2], parseNumber),
                 Cell(cells[3], parseNumber), Cell(cells[4], parseNumber)))
  }

  function Normalize(rows: seq<seq<string>>, parseDate: string -> Option<Date>, parseNumber: string -> Option<real>): (r: seq<PriceRecord>)
    requires forall i :: 0 <= i < |rows| ==> |rows[i]| == 5
    ensures |r| == |rows|
  {
    seq(|rows|, i requires 0 <= i < |rows| => ToRecord(rows[i], parseDate, parseNumber))
  }

  /** After `df.replace("", None)` and the coercing casts, an empty cell is
      missing and any other cell is what its column's parser makes of it:
      column 0 gives the date, column `Rank(f) + 1` the price of fuel `f`. */
  lemma NormalizeCoerces(rows: seq<seq<string>>, parseDate: string -> Option<Date>, parseNumber: string -> Option<real>)
    requires forall i :: 0 <= i < |rows| ==> |rows[i]| == 5
    ensures var recs := Normalize(rows, parseDate, parseNumber);
      forall i :: 0 <= i < |rows| ==>
        && (rows[i][0] == "" ==> recs[i].date.None?)
        && (rows[i][0] != "" ==> recs[i].date == parseDate(rows[i][0]))
        && forall f :: && (rows[i][Rank(f) + 1] == "" ==> recs[i].prices.Get(f).None?)
                       && (rows[i][Rank(f) + 1] != "" ==> recs[i].prices.Get(f) == parseNumber(rows[i][Rank(f) + 1]))
  {
    var recs := Normalize(rows, parseDate, parseNumber);
    forall i | 0 <= i < |rows|
      ensures forall f :: recs[i].prices.Get(f) == Cell(rows[i][Rank(f) + 1], parseNumber)
    {
      assert recs[i] == ToRecord(rows[i], parseDate, parseNumber);
    }
  }

  /** The filter condition: a valid date whose `%Y/%m` text is a target. */
  predicate InPeriods(rec: PriceRecord, targets: seq<string>)
  {
    rec.date.Some? && PeriodText(MonthOf(rec.date.value), '/') in targets
  }

  function PeriodTest(targets: seq<string>): PriceRecord -> bool
  {
    rec => InPeriods(rec, targets)
  }

  /** `if target_months: df = df[... .isin(target_months)]`. */
  function SelectPeriods(recs: seq<PriceRecord>, targets: seq<string>): seq<PriceRecord>
  {
    if targets == [] then recs else Filter(recs, PeriodTest(targets))
  }

  /** An empty target list keeps every record. Otherwise the records kept
      are exactly those with a valid date whose `YYYY/MM` text is a target,
      in their original order; a record whose date did not parse never
      survives. */
  lemma SelectPeriodsKeeps(recs: seq<PriceRecord>, targets: seq<string>)
    ensures targets == [] ==> SelectPeriods(recs, targets) == recs
    ensures targets != [] ==>
      var idx := Kept(recs, PeriodTest(targets));
      && |SelectPeriods(recs, targets)| == |idx|
      && (forall k :: 0 <= k < |idx| ==> idx[k] < |recs| && SelectPeriods(recs, targets)[k] == recs[idx[k]])
      && (forall k1, k2 :: 0 <= k1 < k2 < |idx| ==> idx[k1] < idx[k2])
      && (forall i :: 0 <= i < |recs| ==> (InPeriods(recs[i], targets) <==> i in idx))
    ensures targets != [] ==> forall rec :: rec in SelectPeriods(recs, targets) ==>
      rec.date.Some? && PeriodText(MonthOf(rec.date.value), '/') in targets
  {
    if targets != [] {
      FilterSelects(recs, PeriodTest(targets));
    }
  }

  /** The whole of `fetch_oil_prices` once the page is parsed. */
  function Fetched(table: Option<Table>, targets: seq<string>,
                   parseDate: string -> Option<Date>, parseNumber: string -> Option<real>): Result<seq<PriceRecord>, FetchError>
  {
    match table
    case None => Err(TableNotFound)
    case Some(t) =>
      match Lookup(Header(t), TargetColumns)
      case Err(e) => Err(e)
      case Ok(indices) =>
        match Project(Extracted(t.rows), indices)
        case Err(e) => Err(e)
        case Ok(cells) => Ok(SelectPeriods(Normalize(cells, parseDate, parseNumber), targets))
  }

  method FetchOilPrices(table: Option<Table>, targets: seq<string>,
                        parseDate: string -> Option<Date>, parseNumber: string -> Option<real>)
    returns (r: Result<seq<PriceRecord>, FetchError>)
    ensures r == Fetched(table, targets, parseDate, parseNumber)
  {
    if table.None? {
      return Err(TableNotFound);
    }
    var data := ExtractRows(table.value.rows);
    var header := Header(table.value);
    var indices := Lookup(header, TargetColumns);
    if indices.Err? {
      return Err(indices.error);
    }
    var cells := Project(data, indices.value);
    if cells.Err? {
      return Err(cells.error);
    }
    var records := Normalize(cells.value, parseDate, parseNumber);
    return Ok(SelectPeriods(records, targets));
  }

  /** The fetch fails with a missing column exactly when one of the five
      labels is not among the stripped `th` texts, and then it names the
      first absent label in `TargetColumns` order. */
  lemma FetchMissingColumn(t: Table, targets: seq<string>,
                           parseDate: string -> Option<Date>, parseNumber: string -> Option<real>)
    ensures var r := Fetched(Some(t), targets, parseDate, parseNumber);
      (r.Err? && r.error.MissingColumn?) <==> exists l :: l in TargetColumns && l !in Header(t)
    ensures var r := Fetched(Some(t), targets, parseDate, parseNumber);
      r.Err? && r.error.MissingColumn? ==> exists c ::
        && 0 <= c < |TargetColumns| && r.error.column == TargetColumns[c] && TargetColumns[c] !in Header(t)
        && forall u :: 0 <= u < c ==> TargetColumns[u] in Header(t)
  {
    var lk := Lookup(Header(t), TargetColumns);
    if lk.Ok? {
      assert forall l :: l in TargetColumns ==> l in Header(t);
    }
  }

  /** With all five labels present, the fetch fails on a short row exactly
      when some data row has no cell at the first header position of some
      label. */
  lemma FetchRowTooShort(t: Table, targets: seq<string>,
                         parseDate: string -> Option<Date>, parseNumber: string -> Option<real>)
    requires HasLabels(t)
    ensures Fetched(Some(t), targets, parseDate, parseNumber) == Err(RowTooShort) <==>
      exists i, c :: 0 <= i < |Extracted(t.rows)| && 0 <= c < |TargetColumns|
        && Position(t, c) >= |Extracted(t.rows)[i]|
  {
    var indices := LookupFirstPositions(t);
    var data := Extracted(t.rows);
    FetchAfterLookup(t, indices, targets, parseDate, parseNumber);
    if exists i, c :: 0 <= i < |data| && 0 <= c < |indices| && indices[c] >= |data[i]| {
      var i, c :| 0 <= i < |data| && 0 <= c < |indices| && indices[c] >= |data[i]|;
      assert Position(t, c) >= |data[i]|;
    }
    if exists i, c :: 0 <= i < |data| && 0 <= c < |TargetColumns| && Position(t, c) >= |data[i]| {
      var i, c :| 0 <= i < |data| && 0 <= c < |TargetColumns| && Position(t, c) >= |data[i]|;
      assert indices[c] >= |data[i]|;
    }
  }

  /** Once the labels are found, the fetch fails exactly when the projection
      does, and otherwise returns the selected normalised records. */
  lemma FetchAfterLookup(t: Table, indices: seq<nat>, targets: seq<string>,
                         parseDate: string -> Option<Date>, parseNumber: string -> Option<real>)
    requires Lookup(Header(t), TargetColumns) == Ok(indices)
    ensures var pr := Project(Extracted(t.rows), indices);
      Fetched(Some(t), targets, parseDate, parseNumber) ==
        if pr.Err? then Err(pr.error) else Ok(SelectPeriods(Normalize(pr.value, parseDate, parseNumber), targets))
  {
  }

  /** A fetch for target months is the unfiltered fetch followed by the
      period selection: it fails with the same error, or keeps of the
      unfiltered records those that `SelectPeriodsKeeps` describes. */
  lemma FetchThenSelect(table: Option<Table>, targets: seq<string>,
                        parseDate: string -> Option<Date>, parseNumber: string -> Option<real>)
    ensures var all := Fetched(table, [], parseDate, parseNumber);
      Fetched(table, targets, parseDate, parseNumber) ==
        if all.Err? then Err(all.error) else Ok(SelectPeriods(all.value, targets))
  {
    if table.Some? {
      var t := table.value;
      var lk := Lookup(Header(t), TargetColumns);
      if lk.Ok? {
        FetchAfterLookup(t, lk.value, targets, parseDate, parseNumber);
        FetchAfterLookup(t, lk.value, [], parseDate, parseNumber);
      }
    }
  }

  /** The first header position of target label `c`. */
  function Position(t: Table, c: nat): (i: nat)
    requires c < |TargetColumns| && HasLabels(t)
    ensures i < |Header(t)| && Header(t)[i] == TargetColumns[c]
  {
    assert TargetColumns[c] in TargetColumns;
    IndexOf(Header(t), TargetColumns[c]).value
  }

  /** Every one of the five labels is among the stripped `th` texts. */
  predicate HasLabels(t: Table)
  {
    forall l :: l in TargetColumns ==> l in Header(t)
  }

  /** With all five labels present and every data row long enough, record
      `i` of an unfiltered fetch comes from data row `i`: its date from the
      cell at the first position of the date label, the price of fuel `f`
      from the cell at the first position of that fuel's label. */
  lemma FetchProjects(t: Table, parseDate: string -> Option<Date>, parseNumber: string -> Option<real>)
    requires HasLabels(t)
    requires forall i, c :: 0 <= i < |Extracted(t.rows)| && 0 <= c < |TargetColumns| ==>
      Position(t, c) < |Extracted(t.rows)[i]|
    ensures var r, data := Fetched(Some(t), [], parseDate, parseNumber), Extracted(t.rows);
      && r.Ok? && |r.value| == |data|
      && (forall i :: 0 <= i < |data| ==> r.value[i].date == Cell(data[i][Position(t, 0)], parseDate))
      && (forall i, f :: 0 <= i < |data| ==> r.value[i].prices.Get(f) == Cell(data[i][Position(t, Rank(f) + 1)], parseNumber))
  {
    var indices := ProjectionFits(t);
    var data := Extracted(t.rows);
    FetchAfterLookup(t, indices, [], parseDate, parseNumber);
    NormalizeProjected(data, indices, parseDate, parseNumber);
    var recs := Normalize(Project(data, indices).value, parseDate, parseNumber);
    forall i, f | 0 <= i < |recs|
      ensures recs[i].prices.Get(f) == Cell(data[i][Position(t, Rank(f) + 1)], parseNumber)
    {
      assert indices[Rank(f) + 1] == Position(t, Rank(f) + 1);
    }
  }

  /** With all labels present and every row long enough, the lookup gives
      the first positions and the projection succeeds. */
  lemma ProjectionFits(t: Table) returns (indices: seq<nat>)
    requires HasLabels(t)
    requires forall i, c :: 0 <= i < |Extracted(t.rows)| && 0 <= c < |TargetColumns| ==>
      Position(t, c) < |Extracted(t.rows)[i]|
    ensures Lookup(Header(t), TargetColumns) == Ok(indices)
    ensures |indices| == |TargetColumns| && forall c :: 0 <= c < |TargetColumns| ==> indices[c] == Position(t, c)
    ensures Project(Extracted(t.rows), indices).Ok?
  {
    indices := LookupFirstPositions(t);
    var data := Extracted(t.rows);
    forall i, c | 0 <= i < |data| && 0 <= c < |indices| ensures indices[c] < |data[i]| {
      assert indices[c] == Position(t, c);
    }
    ProjectFits(data, indices);
  }

  lemma ProjectFits(data: seq<seq<string>>, indices: seq<nat>)
    requires forall i, c :: 0 <= i < |data| && 0 <= c < |indices| ==> indices[c] < |data[i]|
    ensures Project(data, indices).Ok?
  {
  }

  /** Record `i` of the normalised projection reads its date from cell
      `indices[0]` of row `i` and the price of fuel `f` from cell
      `indices[Rank(f) + 1]`. */
  lemma NormalizeProjected(data: seq<seq<string>>, indices: seq<nat>,
                           parseDate: string -> Option<Date>, parseNumber: string -> Option<real>)
    requires |indices| == 5 && Project(data, indices).Ok?
    ensures var recs := Normalize(Project(data, indices).value, parseDate, parseNumber);
      && |recs| == |data|
      && (forall i :: 0 <= i < |data| ==> recs[i].date == Cell(data[i][indices[0]], parseDate))
      && (forall i, f :: 0 <= i < |data| ==> recs[i].prices.Get(f) == Cell(data[i][indices[Rank(f) + 1]], parseNumber))
  {
    var cells := Project(data, indices).value;
    var recs := Normalize(cells, parseDate, parseNumber);
    forall i | 0 <= i < |data|
      ensures recs[i].date == Cell(data[i][indices[0]], parseDate)
      ensures forall f :: recs[i].prices.Get(f) == Cell(data[i][indices[Rank(f) + 1]], parseNumber)
    {
      assert recs[i] == ToRecord(cells[i], parseDate, parseNumber);
    }
  }

  /** The stripped `th` texts. */
  function Header(t: Table): seq<string>
  {
    Map(Strip, t.headings)
  }

  /** When every label is present, the positions looked up are `IndexOf`'s. */
  lemma LookupFirstPositions(t: Table) returns (indices: seq<nat>)
    requires HasLabels(t)
    ensures Lookup(Header(t), TargetColumns) == Ok(indices)
    ensures |indices| == |TargetColumns| && forall c :: 0 <= c < |TargetColumns| ==> indices[c] == Position(t, c)
  {
    var header := Header(t);
    indices := Lookup(header, TargetColumns).value;
    forall c | 0 <= c < |TargetColumns| ensures indices[c] == Position(t, c) {
      FirstUnique(header, TargetColumns[c], indices[c], Position(t, c));
    }
  }

  /** A label has one first position. */
  lemma FirstUnique(header: seq<string>, name: string, i: nat, j: nat)
    requires i < |header| && header[i] == name && name !in header[..i]
    requires j < |header| && header[j] == name && name !in header[..j]
    ensures i == j
  {
    assert forall k :: 0 <= k < i ==> header[..i][k] == header[k];
    assert forall k :: 0 <= k < j ==> header[..j][k] == header[k];
  }
}
