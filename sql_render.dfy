/** `generate_sql_from_dataframe`: one INSERT statement per (month, fuel)
    pair whose mean is present. A statement is modelled as the record of the
    thirteen column values it inserts. The clock reading and the identifier
    generator are parameters: `newId(k)` is the identifier that the `k`-th
    call of `uuid.uuid4()` returns. */
module SqlRender {
  import opened Wrappers
  import opened Seqs
  import opened Text
  import opened OilData
  import opened MonthlyAverage

  /** The `oil_type` written for each price column. */
  function FuelLabel(f: Fuel): string
  {
    match f
    case Unleaded92 => "92無鉛汽油"
    case Unleaded95 => "95無鉛汽油"
    case Unleaded98 => "98無鉛汽油"
    case Diesel => "超級柴油"
  }

  /** Litre, the `oil_unit` of every statement. */
  const Litre: string := "公升"

  /** The `created_by` and `updated_by` of every statement. */
  const Admin: string := "admin"

  /** The values of one `INSERT INTO otdb064_oil_prices` statement, by column. */
  datatype Statement = Statement(
    id: string, year: string, month: nat, oilType: string, unit: string, price: real,
    deleteFlag: int, optionsSystem: string, optionsUser: string,
    createdAt: string, updatedAt: string, createdBy: string, updatedBy: string)

  /** What the rendering raises. `MalformedPeriod`: the period does not
      split into exactly two parts, so `year, month = ...` cannot unpack it.
      `BadMonth`: `int(month)` rejects the month text; it is evaluated only
      while a statement is built, so only for a fuel with a value. */
  datatype RenderError = MalformedPeriod(period: string) | BadMonth(month: string)

  /** `year, month = period.split('-')`: both parts stay text. */
  function SplitPeriod(period: string): (r: Result<(string, string), RenderError>)
    ensures r.Ok? <==> |Split(period, '-')| == 2
    ensures r.Ok? ==> Join([r.value.0, r.value.1], "-") == period && '-' !in r.value.0 && '-' !in r.value.1
  {
    var parts := Split(period, '-');
    JoinSplit(period, '-');
    if |parts| != 2 then Err(MalformedPeriod(period))
    else
      assert parts == [parts[0], parts[1]];
      Ok((parts[0], parts[1]))
  }

  /** The year text and the month number a statement of this period
      carries, when the period splits and its month is an integer. */
  function PeriodFields(period: string): Option<(string, nat)>
  {
    match SplitPeriod(period)
    case Err(_) => None
    case Ok(ym) =>
      match ParseNat(ym.1)
      case None => None
      case Some(m) => Some((ym.0, m))
  }

  function MakeStatement(id: string, year: string, month: nat, f: Fuel, price: real, now: string): Statement
  {
    Statement(id, year, month, FuelLabel(f), Litre, price, 0, "", "", now, now, Admin, Admin)
  }

  /** The statements for one row, over the fuels of `fuels` in order; the
      first gets identifier `newId(base)`. */
  function FuelStatements(avgs: FuelPrices, fuels: seq<Fuel>, year: string, month: nat,
                          now: string, newId: nat -> string, base: nat): seq<Statement>
  {
    if fuels == [] then []
    else
      var prev := FuelStatements(avgs, fuels[..|fuels| - 1], year, month, now, newId, base);
      var f := fuels[|fuels| - 1];
      prev + (if avgs.Get(f).Some? then [MakeStatement(newId(base + |prev|), year, month, f, avgs.Get(f).value, now)] else [])
  }

  /** The inner loop over `fuels`, with the month still as text: each fuel
      with a value converts the month with `int()` and adds a statement,
      numbered on from `base`; the first failing conversion raises. */
  function RowStatements(avgs: FuelPrices, fuels: seq<Fuel>, year: string, month: string,
                         now: string, newId: nat -> string, base: nat): Result<seq<Statement>, RenderError>
  {
    if fuels == [] then Ok([])
    else
      var f := fuels[|fuels| - 1];
      match RowStatements(avgs, fuels[..|fuels| - 1], year, month, now, newId, base)
      case Err(e) => Err(e)
      case Ok(prev) =>
        if avgs.Get(f).None? then Ok(prev)
        else match ParseNat(month)
          case None => Err(BadMonth(month))
          case Some(m) => Ok(prev + [MakeStatement(newId(base + |prev|), year, m, f, avgs.Get(f).value, now)])
  }

  /** The month text matters only when some fuel has a value: with an
      integer month the row gives the statements of `FuelStatements`, with
      no value at all it gives none, and otherwise `int()` raises. */
  lemma RowStatementsLazy(avgs: FuelPrices, fuels: seq<Fuel>, year: string, month: string,
                          now: string, newId: nat -> string, base: nat)
    ensures RowStatements(avgs, fuels, year, month, now, newId, base) ==
      if ParseNat(month).Some? then Ok(FuelStatements(avgs, fuels, year, ParseNat(month).value, now, newId, base))
      else if forall f :: f in fuels ==> avgs.Get(f).None? then Ok([])
      else Err(BadMonth(month))
  {
    if ParseNat(month).Some? {
      RowStatementsParsed(avgs, fuels, year, month, ParseNat(month).value, now, newId, base);
    } else {
      RowStatementsUnparsed(avgs, fuels, year, month, now, newId, base);
    }
  }

  lemma {:induction false} RowStatementsParsed(avgs: FuelPrices, fuels: seq<Fuel>, year: string, month: string, m: nat,
                                               now: string, newId: nat -> string, base: nat)
    requires ParseNat(month) == Some(m)
    ensures RowStatements(avgs, fuels, year, month, now, newId, base) == Ok(FuelStatements(avgs, fuels, year, m, now, newId, base))
  {
    if fuels != [] {
      var init, f := fuels[..|fuels| - 1], fuels[|fuels| - 1];
      RowStatementsParsed(avgs, init, year, month, m, now, newId, base);
      var prev := FuelStatements(avgs, init, year, m, now, newId, base);
      assert prev + [] == prev;
    }
  }

  lemma {:induction false} RowStatementsUnparsed(avgs: FuelPrices, fuels: seq<Fuel>, year: string, month: string,
                                                 now: string, newId: nat -> string, base: nat)
    requires ParseNat(month).None?
    ensures RowStatements(avgs, fuels, year, month, now, newId, base) ==
      if forall f :: f in fuels ==> avgs.Get(f).None? then Ok([]) else Err(BadMonth(month))
  {
    if fuels != [] {
      var init, f := fuels[..|fuels| - 1], fuels[|fuels| - 1];
      RowStatementsUnparsed(avgs, init, year, month, now, newId, base);
      assert fuels == init + [f];
      assert forall g :: g in fuels <==> g in init || g == f;
    }
  }

  /** Once the loop over a prefix of the fuels fails, the whole row fails
      with the same error. */
  lemma {:induction false} RowStatementsErrExtends(avgs: FuelPrices, fuels: seq<Fuel>, n: nat, year: string, month: string,
                                                   now: string, newId: nat -> string, base: nat)
    requires n <= |fuels| && RowStatements(avgs, fuels[..n], year, month, now, newId, base).Err?
    ensures RowStatements(avgs, fuels, year, month, now, newId, base) == RowStatements(avgs, fuels[..n], year, month, now, newId, base)
    decreases |fuels| - n
  {
    if n < |fuels| {
      assert fuels[..n + 1][..n] == fuels[..n];
      RowStatementsErrExtends(avgs, fuels, n + 1, year, month, now, newId, base);
    } else {
      assert fuels[..n] == fuels;
    }
  }

  /** The statements for all rows, row by row, or the error raised by the
      first row that fails. */
  function Rendered(rows: seq<MonthlyRow>, now: string, newId: nat -> string): Result<seq<Statement>, RenderError>
  {
    if rows == [] then Ok([])
    else RenderRow(Rendered(rows[..|rows| - 1], now, newId), rows[|rows| - 1], now, newId)
  }

  /** One step of the outer loop: the statements so far, extended by those
      of `row`. */
  function RenderRow(sofar: Result<seq<Statement>, RenderError>, row: MonthlyRow,
                     now: string, newId: nat -> string): Result<seq<Statement>, RenderError>
  {
    match sofar
    case Err(e) => Err(e)
    case Ok(prev) =>
      match SplitPeriod(row.period)
      case Err(e) => Err(e)
      case Ok(ym) =>
        match RowStatements(row.averages, FuelOrder, ym.0, ym.1, now, newId, |prev|)
        case Err(e) => Err(e)
        case Ok(s) => Ok(prev + s)
  }

  /** Once a prefix fails, the whole run fails with the same error. */
  lemma {:induction false} RenderedErrExtends(rows: seq<MonthlyRow>, n: nat, now: string, newId: nat -> string)
    requires n <= |rows| && Rendered(rows[..n], now, newId).Err?
    ensures Rendered(rows, now, newId) == Rendered(rows[..n], now, newId)
    decreases |rows| - n
  {
    if n < |rows| {
      assert rows[..n + 1][..n] == rows[..n];
      RenderedErrExtends(rows, n + 1, now, newId);
    } else {
      assert rows[..n] == rows;
    }
  }

  lemma FuelStatementsSnoc(avgs: FuelPrices, fuels: seq<Fuel>, f: Fuel, year: string, month: nat,
                           now: string, newId: nat -> string, base: nat)
    ensures var prev := FuelStatements(avgs, fuels, year, month, now, newId, base);
      FuelStatements(avgs, fuels + [f], year, month, now, newId, base) ==
        prev + (if avgs.Get(f).Some? then [MakeStatement(newId(base + |prev|), year, month, f, avgs.Get(f).value, now)] else [])
  {
    assert (fuels + [f])[..|fuels|] == fuels;
  }

  lemma RenderedSnoc(rows: seq<MonthlyRow>, row: MonthlyRow, now: string, newId: nat -> string)
    ensures Rendered(rows + [row], now, newId) == RenderRow(Rendered(rows, now, newId), row, now, newId)
  {
    assert (rows + [row])[..|rows|] == rows;
  }

  /** The outer loop of `generate_sql_from_dataframe`, over the month rows. */
  method RenderStatements(rows: seq<MonthlyRow>, now: string, newId: nat -> string)
    returns (r: Result<seq<Statement>, RenderError>)
    ensures r == Rendered(rows, now, newId)
  {
    var stmts: seq<Statement> := [];
    var i := 0;
    while i < |rows|
      invariant 0 <= i <= |rows|
      invariant Rendered(rows[..i], now, newId) == Ok(stmts)
    {
      var row := rows[i];
      assert rows[..i + 1] == rows[..i] + [row];
      RenderedSnoc(rows[..i], row, now, newId);
      var ym := SplitPeriod(row.period);
      if ym.Err? {
        RenderedErrExtends(rows, i + 1, now, newId);
        return Err(ym.error);
      }
      var next := AppendRowStatements(stmts, row.averages, ym.value.0, ym.value.1, now, newId);
      if next.Err? {
        RenderedErrExtends(rows, i + 1, now, newId);
        return next;
      }
      stmts := next.value;
      i := i + 1;
    }
    assert rows[..|rows|] == rows;
    return Ok(stmts);
  }

  /** The inner loop: for each fuel in column order that the row has a
      value for, convert the month with `int()` and append a statement with
      the next identifier; a failing conversion raises. */
  method AppendRowStatements(stmts: seq<Statement>, avgs: FuelPrices, year: string, month: string,
                             now: string, newId: nat -> string)
    returns (r: Result<seq<Statement>, RenderError>)
    ensures r == match RowStatements(avgs, FuelOrder, year, month, now, newId, |stmts|)
                 case Err(e) => Err(e)
                 case Ok(s) => Ok(stmts + s)
  {
    var out := stmts;
    var j := 0;
    while j < |FuelOrder|
      invariant 0 <= j <= |FuelOrder|
      invariant RowStatements(avgs, FuelOrder[..j], year, month, now, newId, |stmts|).Ok?
      invariant out == stmts + RowStatements(avgs, FuelOrder[..j], year, month, now, newId, |stmts|).value
    {
      var f := FuelOrder[j];
      assert FuelOrder[..j + 1][..j] == FuelOrder[..j];
      var price := avgs.Get(f);
      if price.Some? {
        var m := ParseNat(month);
        if m.None? {
          RowStatementsErrExtends(avgs, FuelOrder, j + 1, year, month, now, newId, |stmts|);
          return Err(BadMonth(month));
        }
        out := out + [MakeStatement(newId(|out|), year, m.value, f, price.value, now)];
      }
      j := j + 1;
    }
    assert FuelOrder[..|FuelOrder|] == FuelOrder;
    return Ok(out);
  }

  function Present(avgs: FuelPrices): Fuel -> bool
  {
    f => avgs.Get(f).Some?
  }

  /** Statement `n` of one row's statements is for the `n`-th fuel, in the
      order of `fuels`, that has a value; it carries that value and
      identifier `newId(base + n)`. */
  lemma {:induction false} FuelStatementsSelect(avgs: FuelPrices, fuels: seq<Fuel>, year: string, month: nat,
                                                now: string, newId: nat -> string, base: nat)
    ensures var s, sel := FuelStatements(avgs, fuels, year, month, now, newId, base), Filter(fuels, Present(avgs));
      && |s| == |sel|
      && forall n :: 0 <= n < |s| ==>
           avgs.Get(sel[n]).Some? && s[n] == MakeStatement(newId(base + n), year, month, sel[n], avgs.Get(sel[n]).value, now)
  {
    if fuels != [] {
      var init := fuels[..|fuels| - 1];
      FuelStatementsSelect(avgs, init, year, month, now, newId, base);
      assert fuels == init + [fuels[|fuels| - 1]];
      FilterSnoc(init, fuels[|fuels| - 1], Present(avgs));
    }
  }

  function AtRow(i: nat): Fuel -> (nat, Fuel)
  {
    f => (i, f)
  }

  /** The (row, fuel) pairs with a value, row by row and, within a row, in
      column order: the reference against which the rendering is stated. */
  function Selection(rows: seq<MonthlyRow>): seq<(nat, Fuel)>
  {
    if rows == [] then []
    else Selection(rows[..|rows| - 1]) + Map(AtRow(|rows| - 1), Filter(FuelOrder, Present(rows[|rows| - 1].averages)))
  }

  /** The statement expected for fuel `f` of row `i` with identifier `id`. */
  function Expected(rows: seq<MonthlyRow>, i: nat, f: Fuel, id: string, now: string): Statement
    requires i < |rows| && PeriodFields(rows[i].period).Some? && rows[i].averages.Get(f).Some?
  {
    var ym := PeriodFields(rows[i].period).value;
    MakeStatement(id, ym.0, ym.1, f, rows[i].averages.Get(f).value, now)
  }

  /** Statement `k` of `s` is the one for pair `k` of `Selection(rows)`, with
      identifier `newId(k)`. */
  ghost predicate Follows(rows: seq<MonthlyRow>, s: seq<Statement>, now: string, newId: nat -> string)
  {
    var sel := Selection(rows);
    && |s| == |sel|
    && forall k :: 0 <= k < |s| ==>
         && sel[k].0 < |rows| && PeriodFields(rows[sel[k].0].period).Some? && rows[sel[k].0].averages.Get(sel[k].1).Some?
         && s[k] == Expected(rows, sel[k].0, sel[k].1, newId(k), now)
  }

  /** A successful rendering has one statement per pair of `Selection(rows)`,
      in that order: statement `k` is the one for row `i` and fuel `f`, where
      `(i, f)` is pair `k`, and it carries identifier `newId(k)`. */
  lemma {:induction false} RenderedFollowsSelection(rows: seq<MonthlyRow>, now: string, newId: nat -> string)
    ensures Rendered(rows, now, newId).Ok? ==>
      var s, sel := Rendered(rows, now, newId).value, Selection(rows);
      && |s| == |sel|
      && forall k :: 0 <= k < |s| ==>
           && sel[k].0 < |rows| && PeriodFields(rows[sel[k].0].period).Some? && rows[sel[k].0].averages.Get(sel[k].1).Some?
           && s[k] == Expected(rows, sel[k].0, sel[k].1, newId(k), now)
  {
    if rows != [] && Rendered(rows, now, newId).Ok? {
      RenderedFollowsSelection(rows[..|rows| - 1], now, newId);
      FollowsStep(rows, now, newId);
      assert Follows(rows, Rendered(rows, now, newId).value, now, newId);
    }
  }

  lemma FollowsStep(rows: seq<MonthlyRow>, now: string, newId: nat -> string)
    requires rows != [] && Rendered(rows, now, newId).Ok?
    requires Rendered(rows[..|rows| - 1], now, newId).Ok?
    requires Follows(rows[..|rows| - 1], Rendered(rows[..|rows| - 1], now, newId).value, now, newId)
    ensures Follows(rows, Rendered(rows, now, newId).value, now, newId)
  {
    var prev := Rendered(rows[..|rows| - 1], now, newId).value;
    var tail := RenderedLast(rows, now, newId);
    TailFollows(rows, |prev|, tail, now, newId);
    FollowsConcat(rows, prev, tail, now, newId);
  }

  /** A successful rendering is that of all rows but the last, followed by
      the statements of the last row. */
  lemma RenderedLast(rows: seq<MonthlyRow>, now: string, newId: nat -> string) returns (tail: seq<Statement>)
    requires rows != [] && Rendered(rows, now, newId).Ok?
    ensures Rendered(rows[..|rows| - 1], now, newId).Ok? && SplitPeriod(rows[|rows| - 1].period).Ok?
    ensures var prev, ym := Rendered(rows[..|rows| - 1], now, newId).value, SplitPeriod(rows[|rows| - 1].period).value;
      && RowStatements(rows[|rows| - 1].averages, FuelOrder, ym.0, ym.1, now, newId, |prev|) == Ok(tail)
      && Rendered(rows, now, newId).value == prev + tail
  {
    var prev, ym := Rendered(rows[..|rows| - 1], now, newId).value, SplitPeriod(rows[|rows| - 1].period).value;
    tail := RowStatements(rows[|rows| - 1].averages, FuelOrder, ym.0, ym.1, now, newId, |prev|).value;
  }

  /** Joins the two halves: the statements of the earlier rows, then those
      of the last row. */
  lemma FollowsConcat(rows: seq<MonthlyRow>, prev: seq<Statement>, tail: seq<Statement>, now: string, newId: nat -> string)
    requires rows != [] && Follows(rows[..|rows| - 1], prev, now, newId)
    requires var n := |rows| - 1;
      var mp := Map(AtRow(n), Filter(FuelOrder, Present(rows[n].averages)));
      && |tail| == |mp|
      && forall j :: 0 <= j < |tail| ==>
           && mp[j].0 < |rows| && PeriodFields(rows[mp[j].0].period).Some? && rows[mp[j].0].averages.Get(mp[j].1).Some?
           && tail[j] == Expected(rows, mp[j].0, mp[j].1, newId(|prev| + j), now)
    ensures Follows(rows, prev + tail, now, newId)
  {
    PrefixFollows(rows, prev, now, newId);
    var n := |rows| - 1;
    var sel0 := Selection(rows[..n]);
    var mp := Map(AtRow(n), Filter(FuelOrder, Present(rows[n].averages)));
    var sel := Selection(rows);
    var s := prev + tail;
    assert sel == sel0 + mp;
    forall k | 0 <= k < |s|
      ensures sel[k].0 < |rows| && PeriodFields(rows[sel[k].0].period).Some? && rows[sel[k].0].averages.Get(sel[k].1).Some?
      ensures s[k] == Expected(rows, sel[k].0, sel[k].1, newId(k), now)
    {
      if k < |prev| {
        assert sel[k] == sel0[k] && s[k] == prev[k];
      } else {
        assert sel[k] == mp[k - |prev|] && s[k] == tail[k - |prev|];
        assert |prev| + (k - |prev|) == k;
      }
    }
  }

  /** The statements of all rows but the last, read against all the rows. */
  lemma PrefixFollows(rows: seq<MonthlyRow>, prev: seq<Statement>, now: string, newId: nat -> string)
    requires rows != [] && Follows(rows[..|rows| - 1], prev, now, newId)
    ensures var sel0 := Selection(rows[..|rows| - 1]);
      && |prev| == |sel0|
      && forall k :: 0 <= k < |prev| ==>
           && sel0[k].0 < |rows| && PeriodFields(rows[sel0[k].0].period).Some? && rows[sel0[k].0].averages.Get(sel0[k].1).Some?
           && prev[k] == Expected(rows, sel0[k].0, sel0[k].1, newId(k), now)
  {
    var init := rows[..|rows| - 1];
    var sel0 := Selection(init);
    forall k | 0 <= k < |prev|
      ensures sel0[k].0 < |rows| && PeriodFields(rows[sel0[k].0].period).Some? && rows[sel0[k].0].averages.Get(sel0[k].1).Some?
      ensures prev[k] == Expected(rows, sel0[k].0, sel0[k].1, newId(k), now)
    {
      assert init[sel0[k].0] == rows[sel0[k].0];
    }
  }

  /** The statements of the last row, numbered from `base`. */
  lemma TailFollows(rows: seq<MonthlyRow>, base: nat, tail: seq<Statement>, now: string, newId: nat -> string)
    requires rows != [] && SplitPeriod(rows[|rows| - 1].period).Ok?
    requires var ym := SplitPeriod(rows[|rows| - 1].period).value;
      RowStatements(rows[|rows| - 1].averages, FuelOrder, ym.0, ym.1, now, newId, base) == Ok(tail)
    ensures var n := |rows| - 1;
      var mp := Map(AtRow(n), Filter(FuelOrder, Present(rows[n].averages)));
      && |tail| == |mp|
      && forall j :: 0 <= j < |tail| ==>
           && mp[j].0 < |rows| && PeriodFields(rows[mp[j].0].period).Some? && rows[mp[j].0].averages.Get(mp[j].1).Some?
           && tail[j] == Expected(rows, mp[j].0, mp[j].1, newId(base + j), now)
  {
    var n := |rows| - 1;
    var avgs := rows[n].averages;
    var ym := SplitPeriod(rows[n].period).value;
    var fs := Filter(FuelOrder, Present(avgs));
    var mp := Map(AtRow(n), fs);
    RowStatementsLazy(avgs, FuelOrder, ym.0, ym.1, now, newId, base);
    if ParseNat(ym.1).Some? {
      FuelStatementsSelect(avgs, FuelOrder, ym.0, ParseNat(ym.1).value, now, newId, base);
      forall j | 0 <= j < |mp|
        ensures mp[j] == (n, fs[j])
      {
      }
    } else {
      FilterNone(FuelOrder, Present(avgs));
    }
  }

  /** The period text the monthly averages carry splits back into the
      four-digit year and the month number. */
  lemma SplitPeriodText(k: YearMonth)
    ensures SplitPeriod(PeriodText(k, '-')) == Ok((Pad4(k.year), Pad2(k.month)))
    ensures PeriodFields(PeriodText(k, '-')) == Some((Pad4(k.year), k.month as nat))
  {
    var y, m := Pad4(k.year), Pad2(k.month);
    assert '-' !in y by {
      forall i | 0 <= i < |y| ensures y[i] != '-' { assert IsDigit(y[i]); }
    }
    assert '-' !in m by {
      forall i | 0 <= i < |m| ensures m[i] != '-' { assert IsDigit(m[i]); }
    }
    SplitPair(y, m, '-');
    Pad2RoundTrip(k.month);
  }

  /** A row renders when its period splits in two and its month text is an
      integer, or when it has no mean at all, so that `int()` never runs. */
  predicate RowRenders(row: MonthlyRow)
  {
    && SplitPeriod(row.period).Ok?
    && (ParseNat(SplitPeriod(row.period).value.1).Some? || forall f :: row.averages.Get(f).None?)
  }

  /** The error a row that does not render raises. */
  function RowError(row: MonthlyRow): RenderError
  {
    match SplitPeriod(row.period)
    case Err(e) => e
    case Ok(ym) => BadMonth(ym.1)
  }

  /** One step of the outer loop succeeds exactly when its row renders,
      and otherwise fails with that row's error. */
  lemma RenderRowOutcome(prev: seq<Statement>, row: MonthlyRow, now: string, newId: nat -> string)
    ensures RenderRow(Ok(prev), row, now, newId).Ok? <==> RowRenders(row)
    ensures RenderRow(Ok(prev), row, now, newId).Err? ==> RenderRow(Ok(prev), row, now, newId).error == RowError(row)
  {
    if SplitPeriod(row.period).Ok? {
      var ym := SplitPeriod(row.period).value;
      RowStatementsLazy(row.averages, FuelOrder, ym.0, ym.1, now, newId, |prev|);
      forall f ensures f in FuelOrder {
        assert FuelOrder[Rank(f)] == f;
      }
    }
  }

  /** The rendering fails exactly when some row does not render, and then
      with the error of the first such row: `MalformedPeriod` for a period
      that does not split in two, `BadMonth` for a row with a mean whose
      month text `int()` rejects. */
  lemma RenderedFails(rows: seq<MonthlyRow>, now: string, newId: nat -> string)
    ensures Rendered(rows, now, newId).Ok? <==> forall i :: 0 <= i < |rows| ==> RowRenders(rows[i])
    ensures Rendered(rows, now, newId).Err? ==>
      exists i :: && 0 <= i < |rows|
                  && !RowRenders(rows[i])
                  && Rendered(rows, now, newId).error ==
                       (if SplitPeriod(rows[i].period).Err? then MalformedPeriod(rows[i].period)
                        else BadMonth(SplitPeriod(rows[i].period).value.1))
                  && forall j :: 0 <= j < i ==> RowRenders(rows[j])
  {
    var i := FirstFailure(rows, now, newId);
    if i < |rows| {
      assert Rendered(rows, now, newId).error ==
        (if SplitPeriod(rows[i].period).Err? then MalformedPeriod(rows[i].period)
         else BadMonth(SplitPeriod(rows[i].period).value.1));
    }
  }

  /** The index of the first row that does not render, or `|rows|` when
      every row renders and so does the whole sequence. */
  lemma {:induction false} FirstFailure(rows: seq<MonthlyRow>, now: string, newId: nat -> string) returns (i: nat)
    ensures i <= |rows| && forall j :: 0 <= j < i ==> RowRenders(rows[j])
    ensures i == |rows| <==> Rendered(rows, now, newId).Ok?
    ensures i < |rows| ==> !RowRenders(rows[i]) && Rendered(rows, now, newId).error == RowError(rows[i])
  {
    if rows == [] {
      i := 0;
    } else {
      var n := |rows| - 1;
      var init := rows[..n];
      i := FirstFailure(init, now, newId);
      assert forall j :: 0 <= j < n ==> init[j] == rows[j];
      assert Rendered(rows, now, newId) == RenderRow(Rendered(init, now, newId), rows[n], now, newId);
      if i == n {
        RenderRowOutcome(Rendered(init, now, newId).value, rows[n], now, newId);
        if RowRenders(rows[n]) {
          i := |rows|;
        }
      }
    }
  }

  /** `(i, f)` comes before `(j, g)`: an earlier row, or the same row and a
      column further left. */
  predicate Precedes(a: (nat, Fuel), b: (nat, Fuel))
  {
    a.0 < b.0 || (a.0 == b.0 && Rank(a.1) < Rank(b.1))
  }

  lemma RankOfOrder(i: nat)
    requires i < |FuelOrder|
    ensures Rank(FuelOrder[i]) == i
  {
  }

  /** The pairs contributed by row `n`: its fuels with a mean, in column
      order. */
  lemma RowPairs(rows: seq<MonthlyRow>, n: nat)
    requires n < |rows|
    ensures var mp := Map(AtRow(n), Filter(FuelOrder, Present(rows[n].averages)));
      && (forall i: nat, f :: (i, f) in mp <==> i == n && rows[n].averages.Get(f).Some?)
      && (forall a :: 0 <= a < |mp| ==> mp[a].0 == n)
      && (forall a, b :: 0 <= a < b < |mp| ==> Rank(mp[a].1) < Rank(mp[b].1))
  {
    var p := Present(rows[n].averages);
    var fs := Filter(FuelOrder, p);
    var mp := Map(AtRow(n), fs);
    var idx := Kept(FuelOrder, p);
    FilterSelects(FuelOrder, p);
    forall i: nat, f ensures (i, f) in mp <==> i == n && rows[n].averages.Get(f).Some? {
      FilterMember(FuelOrder, p, f);
      assert f in FuelOrder by { assert FuelOrder[Rank(f)] == f; }
      if (i, f) in mp {
        var t :| 0 <= t < |mp| && mp[t] == (i, f);
      }
      if i == n && f in fs {
        var t :| 0 <= t < |fs| && fs[t] == f;
        assert mp[t] == (i, f);
      }
    }
    forall a, b | 0 <= a < b < |mp| ensures Rank(mp[a].1) < Rank(mp[b].1) {
      RankOfOrder(idx[a]);
      RankOfOrder(idx[b]);
    }
  }

  /** The selection holds each (row, fuel) pair with a mean, and no other. */
  lemma {:induction false} SelectionMembers(rows: seq<MonthlyRow>)
    ensures forall i: nat, f :: (i, f) in Selection(rows) <==> i < |rows| && rows[i].averages.Get(f).Some?
  {
    if rows != [] {
      var n := |rows| - 1;
      var init := rows[..n];
      SelectionMembers(init);
      RowPairs(rows, n);
      var mp := Map(AtRow(n), Filter(FuelOrder, Present(rows[n].averages)));
      assert Selection(rows) == Selection(init) + mp;
      forall i: nat, f ensures (i, f) in Selection(rows) <==> i < |rows| && rows[i].averages.Get(f).Some? {
        if i < n {
          assert init[i] == rows[i];
        }
      }
    }
  }

  /** The selection is ordered by row and, within a row, by column; so each
      pair occurs once. */
  lemma {:induction false} SelectionOrdered(rows: seq<MonthlyRow>)
    ensures forall a, b :: 0 <= a < b < |Selection(rows)| ==> Precedes(Selection(rows)[a], Selection(rows)[b])
  {
    if rows != [] {
      var n := |rows| - 1;
      var init := rows[..n];
      SelectionOrdered(init);
      SelectionMembers(init);
      RowPairs(rows, n);
      var sel0 := Selection(init);
      var mp := Map(AtRow(n), Filter(FuelOrder, Present(rows[n].averages)));
      var sel := Selection(rows);
      assert sel == sel0 + mp;
      forall a, b | 0 <= a < b < |sel| ensures Precedes(sel[a], sel[b]) {
        if b < |sel0| {
          assert sel[a] == sel0[a] && sel[b] == sel0[b];
        } else if a < |sel0| {
          assert sel[a] == sel0[a] && sel0[a] in sel0;
          assert sel[b] == mp[b - |sel0|];
        } else {
          assert sel[a] == mp[a - |sel0|] && sel[b] == mp[b - |sel0|];
        }
      }
    }
  }

  /** Re-rendering with another clock reading and other identifiers
      changes only the identifier and the two timestamps of each
      statement: the business columns are the same. */
  lemma RenderedStable(rows: seq<MonthlyRow>, now1: string, newId1: nat -> string, now2: string, newId2: nat -> string)
    ensures Rendered(rows, now1, newId1).Ok? <==> Rendered(rows, now2, newId2).Ok?
    ensures Rendered(rows, now1, newId1).Ok? ==>
      var s1, s2 := Rendered(rows, now1, newId1).value, Rendered(rows, now2, newId2).value;
      && |s1| == |s2|
      && forall k :: 0 <= k < |s1| ==> s2[k] == s1[k].(id := newId2(k), createdAt := now2, updatedAt := now2)
  {
    RenderedFails(rows, now1, newId1);
    RenderedFails(rows, now2, newId2);
    RenderedFollowsSelection(rows, now1, newId1);
    RenderedFollowsSelection(rows, now2, newId2);
  }

  /** Distinct identifiers from the generator give distinct statement ids. */
  lemma RenderedIdsDistinct(rows: seq<MonthlyRow>, now: string, newId: nat -> string)
    requires forall a: nat, b: nat :: a != b ==> newId(a) != newId(b)
    ensures Rendered(rows, now, newId).Ok? ==>
      var s := Rendered(rows, now, newId).value;
      forall a, b :: 0 <= a < b < |s| ==> s[a].id != s[b].id
  {
    RenderedFollowsSelection(rows, now, newId);
  }

  /** Rendering the monthly averages never fails, and statement `k` is for
      month `ks[i]` and fuel `f`, where `(i, f)` is pair `k` of the selection:
      it carries the four-digit year, the month number, the fuel's label and
      the mean of that fuel's prices in that month. */
  lemma AggregateRenders(recs: seq<PriceRecord>, now: string, newId: nat -> string)
    ensures Rendered(Aggregate(recs), now, newId).Ok?
    ensures var ks, s, sel := GroupKeys(recs), Rendered(Aggregate(recs), now, newId).value, Selection(Aggregate(recs));
      && |s| == |sel|
      && forall k :: 0 <= k < |s| ==>
           && sel[k].0 < |ks|
           && s[k].year == Pad4(ks[sel[k].0].year)
           && s[k].month == ks[sel[k].0].month
           && s[k].oilType == FuelLabel(sel[k].1)
           && Mean(GroupValues(recs, ks[sel[k].0], sel[k].1)) == Some(s[k].price)
  {
    var rows, ks := Aggregate(recs), GroupKeys(recs);
    forall i | 0 <= i < |rows|
      ensures RowRenders(rows[i]) && PeriodFields(rows[i].period) == Some((Pad4(ks[i].year), ks[i].month as nat))
    {
      SplitPeriodText(ks[i]);
      Pad2RoundTrip(ks[i].month);
    }
    RenderedFails(rows, now, newId);
    RenderedFollowsSelection(rows, now, newId);
    var s, sel := Rendered(rows, now, newId).value, Selection(rows);
    forall k | 0 <= k < |s|
      ensures Mean(GroupValues(recs, ks[sel[k].0], sel[k].1)) == Some(s[k].price)
    {
      AveragesGet(recs, ks[sel[k].0], sel[k].1);
    }
  }

  /** A month with 92 at 30.12, no 95, 98 at 31.40 and diesel at 28.00
      gives three statements, in column order, numbered from zero. */
  lemma RenderExample(now: string, newId: nat -> string)
    ensures Rendered([MonthlyRow("2024-11", FuelPrices(Some(30.12), None, Some(31.40), Some(28.00)))], now, newId) ==
      Ok([MakeStatement(newId(0), "2024", 11, Unleaded92, 30.12, now),
          MakeStatement(newId(1), "2024", 11, Unleaded98, 31.40, now),
          MakeStatement(newId(2), "2024", 11, Diesel, 28.00, now)])
  {
    var row := MonthlyRow("2024-11", FuelPrices(Some(30.12), None, Some(31.40), Some(28.00)));
    ExamplePeriod();
    RenderedSnoc([], row, now, newId);
    assert [] + [row] == [row];
    assert Rendered([], now, newId) == Ok([]);
    RowStatementsLazy(row.averages, FuelOrder, "2024", "11", now, newId, 0);
    ExampleStatements(now, newId);
    var fsx := FuelStatements(row.averages, FuelOrder, "2024", 11, now, newId, 0);
    assert RowStatements(row.averages, FuelOrder, "2024", "11", now, newId, 0) == Ok(fsx);
    assert RenderRow(Ok([]), row, now, newId) == Ok([] + fsx);
    assert [] + fsx == fsx;
  }

  /** A row without any mean whose period splits in two adds no statement,
      whatever its month text: `int()` is never reached. A period that does
      not split still fails the unpacking (see `RenderedFails`). */
  lemma RowWithoutMeansAddsNothing(rows: seq<MonthlyRow>, row: MonthlyRow, now: string, newId: nat -> string)
    requires SplitPeriod(row.period).Ok? && forall f :: row.averages.Get(f).None?
    ensures Rendered(rows + [row], now, newId) == Rendered(rows, now, newId)
  {
    RenderedSnoc(rows, row, now, newId);
    var ym := SplitPeriod(row.period).value;
    var r := Rendered(rows, now, newId);
    if r.Ok? {
      RowStatementsLazy(row.averages, FuelOrder, ym.0, ym.1, now, newId, |r.value|);
      if ParseNat(ym.1).Some? {
        FuelStatementsSelect(row.averages, FuelOrder, ym.0, ParseNat(ym.1).value, now, newId, |r.value|);
        FilterNone(FuelOrder, Present(row.averages));
      }
      assert r.value + [] == r.value;
    }
  }

  /** After rows that render, a row that splits in two and has a mean whose
      month text `int()` rejects makes the rendering fail with `BadMonth`; an
      earlier failing row's error would come first (`RenderedErrExtends`). */
  lemma RowWithMeanNeedsMonth(rows: seq<MonthlyRow>, row: MonthlyRow, f: Fuel, now: string, newId: nat -> string)
    requires Rendered(rows, now, newId).Ok?
    requires SplitPeriod(row.period).Ok? && ParseNat(SplitPeriod(row.period).value.1).None?
    requires row.averages.Get(f).Some?
    ensures Rendered(rows + [row], now, newId) == Err(BadMonth(SplitPeriod(row.period).value.1))
  {
    RenderedSnoc(rows, row, now, newId);
    var ym := SplitPeriod(row.period).value;
    RowStatementsUnparsed(row.averages, FuelOrder, ym.0, ym.1, now, newId, |Rendered(rows, now, newId).value|);
    assert f in FuelOrder by { assert FuelOrder[Rank(f)] == f; }
  }

  /** A `2024-xx` row without means renders to nothing. */
  lemma MonthTextUnusedExample(now: string, newId: nat -> string)
    ensures Rendered([MonthlyRow("2024-xx", FuelPrices(None, None, None, None))], now, newId) == Ok([])
  {
    var row := MonthlyRow("2024-xx", FuelPrices(None, None, None, None));
    assert "2024" + ['-'] + "xx" == "2024-xx";
    SplitPair("2024", "xx", '-');
    RowWithoutMeansAddsNothing([], row, now, newId);
    assert [] + [row] == [row];
  }

  lemma ExamplePeriod()
    ensures SplitPeriod("2024-11") == Ok(("2024", "11"))
    ensures ParseNat("11") == Some(11)
  {
    var k := YearMonth(2024, 11);
    assert Pad2(20) == "20" && Pad2(24) == "24" && Pad2(11) == "11";
    assert Pad4(2024) == "2024";
    assert PeriodText(k, '-') == "2024-11";
    SplitPeriodText(k);
    Pad2RoundTrip(11);
  }

  lemma ExampleStatements(now: string, newId: nat -> string)
    ensures FuelStatements(FuelPrices(Some(30.12), None, Some(31.40), Some(28.00)), FuelOrder, "2024", 11, now, newId, 0) ==
      [MakeStatement(newId(0), "2024", 11, Unleaded92, 30.12, now),
       MakeStatement(newId(1), "2024", 11, Unleaded98, 31.40, now),
       MakeStatement(newId(2), "2024", 11, Diesel, 28.00, now)]
  {
    var avgs := FuelPrices(Some(30.12), None, Some(31.40), Some(28.00));
    var st0 := MakeStatement(newId(0), "2024", 11, Unleaded92, 30.12, now);
    var st1 := MakeStatement(newId(1), "2024", 11, Unleaded98, 31.40, now);
    var st2 := MakeStatement(newId(2), "2024", 11, Diesel, 28.00, now);
    FuelStatementsSnoc(avgs, [], Unleaded92, "2024", 11, now, newId, 0);
    assert [] + [Unleaded92] == [Unleaded92];
    assert FuelStatements(avgs, [Unleaded92], "2024", 11, now, newId, 0) == [st0];
    FuelStatementsSnoc(avgs, [Unleaded92], Unleaded95, "2024", 11, now, newId, 0);
    assert [Unleaded92] + [Unleaded95] == [Unleaded92, Unleaded95];
    assert FuelStatements(avgs, [Unleaded92, Unleaded95], "2024", 11, now, newId, 0) == [st0];
    FuelStatementsSnoc(avgs, [Unleaded92, Unleaded95], Unleaded98, "2024", 11, now, newId, 0);
    assert [Unleaded92, Unleaded95] + [Unleaded98] == [Unleaded92, Unleaded95, Unleaded98];
    assert FuelStatements(avgs, [Unleaded92, Unleaded95, Unleaded98], "2024", 11, now, newId, 0) == [st0, st1];
    FuelStatementsSnoc(avgs, [Unleaded92, Unleaded95, Unleaded98], Diesel, "2024", 11, now, newId, 0);
    assert [Unleaded92, Unleaded95, Unleaded98] + [Diesel] == FuelOrder;
  }
}
