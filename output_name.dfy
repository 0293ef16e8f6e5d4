/** The name of the file `main` writes: `oil_prices_<today>_<months>.sql`,
    where the months are the command-line argument's periods joined by `_`
    with every `/` turned into `-`. */
module OutputName {
  import opened Wrappers
  import opened Text
  import opened OilData
  import opened Seqs
  import opened OilTable

  /** `sys.argv[1].split(',')`: the requested periods. */
  function TargetMonths(arg: string): (months: seq<string>)
    ensures |months| >= 1 && forall i :: 0 <= i < |months| ==> ',' !in months[i]
  {
    Split(arg, ',')
  }

  /** `strftime('%Y-%m-%d')`. */
  function DayText(d: Date): (r: string)
    ensures |r| == 10 && r[4] == '-' && r[7] == '-'
  {
    Pad4(d.year) + "-" + Pad2(d.month) + "-" + Pad2(d.day)
  }

  /** `"_".join(months).replace("/", "-")`. */
  function MonthsText(months: seq<string>): string
  {
    Replace(Join(months, "_"), '/', '-')
  }

  function FileName(today: Date, months: seq<string>): string
  {
    "oil_prices_" + DayText(today) + "_" + MonthsText(months) + ".sql"
  }

  /** The date in a name can be read back: the three fields of `DayText`
      parse to the year, month and day. */
  lemma DayTextRoundTrip(d: Date)
    ensures var r := DayText(d);
      && ParseNat(r[..4]) == Some(d.year as nat)
      && ParseNat(r[5..7]) == Some(d.month as nat)
      && ParseNat(r[8..]) == Some(d.day as nat)
  {
    var r := DayText(d);
    assert r[..4] == Pad4(d.year) && r[5..7] == Pad2(d.month) && r[8..] == Pad2(d.day);
    Pad4RoundTrip(d.year);
    Pad2RoundTrip(d.month);
    Pad2RoundTrip(d.day);
  }

  /** The name holds no `/`, so the file lands in the working directory;
      it starts with the fixed prefix and today's date and ends in `.sql`. */
  lemma FileNameShape(today: Date, months: seq<string>)
    ensures var r := FileName(today, months);
      && '/' !in r
      && |r| >= 26
      && r[..11] == "oil_prices_"
      && r[11..21] == DayText(today)
      && r[21] == '_'
      && r[22..|r| - 4] == MonthsText(months)
      && r[|r| - 4..] == ".sql"
  {
    var r := FileName(today, months);
    var m := MonthsText(months);
    ReplaceRemoves(Join(months, "_"), '/', '-');
    var day := DayText(today);
    assert '/' !in day by {
      assert day == Pad4(today.year) + "-" + Pad2(today.month) + "-" + Pad2(today.day);
      forall k | 0 <= k < |day| ensures day[k] != '/' {
        if k < 4 { assert day[k] == Pad4(today.year)[k]; }
        else if 5 <= k < 7 { assert day[k] == Pad2(today.month)[k - 5]; }
        else if 8 <= k { assert day[k] == Pad2(today.day)[k - 8]; }
      }
    }
    assert r == "oil_prices_" + day + "_" + m + ".sql";
    assert r[..11] == "oil_prices_";
    assert r[11..21] == day;
    assert r[22..|r| - 4] == m;
  }

  /** From the command line: the months part is the argument with each `,`
      turned into `_` and each `/` into `-`. */
  lemma FileNameOfArgument(arg: string)
    ensures MonthsText(TargetMonths(arg)) == Replace(Replace(arg, ',', '_'), '/', '-')
  {
    JoinSplitReplace(arg, ',', '_');
  }

  /** Periods written `YYYY/MM` appear in the name as `YYYY-MM`, joined by `_`. */
  lemma MonthsTextOfPeriods(ks: seq<YearMonth>)
    ensures MonthsText(seq(|ks|, i requires 0 <= i < |ks| => PeriodText(ks[i], '/'))) ==
            Join(seq(|ks|, i requires 0 <= i < |ks| => PeriodText(ks[i], '-')), "_")
  {
    var slashed := seq(|ks|, i requires 0 <= i < |ks| => PeriodText(ks[i], '/'));
    var dashed := seq(|ks|, i requires 0 <= i < |ks| => PeriodText(ks[i], '-'));
    ReplaceJoin(slashed, "_", '/', '-');
    forall i | 0 <= i < |ks| ensures Replace(slashed[i], '/', '-') == dashed[i] {
      var y, m := Pad4(ks[i].year), Pad2(ks[i].month);
      assert '/' !in y by { forall k | 0 <= k < |y| ensures y[k] != '/' { assert IsDigit(y[k]); } }
      assert '/' !in m by { forall k | 0 <= k < |m| ensures m[k] != '/' { assert IsDigit(m[k]); } }
      ReplaceConcat(y + ['/'], m, '/', '-');
      ReplaceConcat(y, ['/'], '/', '-');
      ReplaceUntouched(y, '/', '-');
      ReplaceUntouched(m, '/', '-');
    }
    assert seq(|slashed|, i requires 0 <= i < |slashed| => Replace(slashed[i], '/', '-')) == dashed;
  }

  /** The split argument is never an empty list, so the period filter
      always applies; an empty argument asks for the one period `""`, which
      no record's `YYYY/MM` text equals, and selects nothing. */
  lemma EmptyArgumentSelectsNothing(recs: seq<PriceRecord>)
    ensures SelectPeriods(recs, TargetMonths("")) == []
  {
    var targets := TargetMonths("");
    assert targets == [""];
    forall x | x in recs ensures !PeriodTest(targets)(x) {
      if x.date.Some? {
        assert |PeriodText(MonthOf(x.date.value), '/')| == 7;
      }
    }
    FilterNone(recs, PeriodTest(targets));
  }

  /** Run on 2024-12-01 for October and November 2024. */
  lemma FileNameExample()
    ensures FileName(Date(2024, 12, 1), ["2024/10", "2024/11"]) == "oil_prices_2024-12-01_2024-10_2024-11.sql"
  {
    ExampleDay();
    ExampleMonths();
    var a := "oil_prices_" + "2024-12-01";
    assert a == "oil_prices_2024-12-01";
    var b := a + "_";
    assert b == "oil_prices_2024-12-01_";
    var c := b + "2024-10_2024-11";
    assert c == "oil_prices_2024-12-01_2024-10_2024-11";
    assert c + ".sql" == "oil_prices_2024-12-01_2024-10_2024-11.sql";
  }

  lemma ExampleDay()
    ensures DayText(Date(2024, 12, 1)) == "2024-12-01"
  {
    assert Pad2(20) == "20" && Pad2(24) == "24" && Pad2(12) == "12" && Pad2(1) == "01";
  }

  lemma ExampleMonths()
    ensures MonthsText(["2024/10", "2024/11"]) == "2024-10_2024-11"
  {
    assert Join(["2024/11"], "_") == "2024/11";
    assert ["2024/10", "2024/11"][1..] == ["2024/11"];
    assert Join(["2024/10", "2024/11"], "_") == "2024/10_2024/11";
  }
}
