/** `calculate_monthly_average`: group the records by calendar month and take
    the mean of each price column, skipping missing values. Means are exact
    rationals. */
module MonthlyAverage {
  import opened Wrappers
  import opened Seqs
  import opened OilData

  /** One row of the result: the `月份` period text (`YYYY-MM`, which is what
      `astype(str)` makes of a monthly period) and the four means. */
  datatype MonthlyRow = MonthlyRow(period: string, averages: FuelPrices)

  /** The record belongs to month `k`'s group. Records without a date belong
      to no group (`groupby` drops missing keys). */
  predicate InGroup(r: PriceRecord, k: YearMonth)
  {
    r.date.Some? && MonthOf(r.date.value) == k
  }

  /** The months of the dated records, in input order, with repeats. */
  function DatedMonths(recs: seq<PriceRecord>): (ks: seq<YearMonth>)
    ensures forall k :: k in ks <==> exists i :: 0 <= i < |recs| && InGroup(recs[i], k)
  {
    if recs == [] then []
    else
      var init := recs[..|recs| - 1];
      var r := recs[|recs| - 1];
      assert forall i :: 0 <= i < |init| ==> init[i] == recs[i];
      DatedMonths(init) + (if r.date.Some? then [MonthOf(r.date.value)] else [])
  }

  /** A month no other month of `ks` comes before. */
  function Earliest(ks: seq<YearMonth>): (m: YearMonth)
    requires ks != []
    ensures m in ks && forall k :: k in ks ==> !Before(k, m)
  {
    if |ks| == 1 then ks[0]
    else
      var m := Earliest(ks[..|ks| - 1]);
      assert ks == ks[..|ks| - 1] + [ks[|ks| - 1]];
      if Before(ks[|ks| - 1], m) then ks[|ks| - 1] else m
  }

  function After(m: YearMonth): YearMonth -> bool
  {
    k => Before(m, k)
  }

  /** The distinct months of `ks` in ascending order: the group keys, which
      `groupby` sorts. */
  function Months(ks: seq<YearMonth>): (r: seq<YearMonth>)
    ensures forall i, j :: 0 <= i < j < |r| ==> Before(r[i], r[j])
    ensures forall k :: k in r <==> k in ks
    decreases |ks|
  {
    if ks == [] then []
    else
      var m := Earliest(ks);
      FilterDrops(ks, After(m), m);
      var rest := Filter(ks, After(m));
      assert forall k :: k in rest <==> k in ks && Before(m, k) by {
        forall k ensures k in rest <==> k in ks && Before(m, k) {
          FilterMember(ks, After(m), k);
        }
      }
      [m] + Months(rest)
  }

  /** A strictly ascending sequence is determined by its elements. */
  lemma {:induction false} AscendingUnique(a: seq<YearMonth>, b: seq<YearMonth>)
    requires forall i, j :: 0 <= i < j < |a| ==> Before(a[i], a[j])
    requires forall i, j :: 0 <= i < j < |b| ==> Before(b[i], b[j])
    requires forall k :: k in a <==> k in b
    ensures a == b
  {
    assert a == [] <==> b == [] by {
      if a != [] { assert a[0] in b; }
      if b != [] { assert b[0] in a; }
    }
    if a != [] {
      assert forall k :: k in a ==> k == a[0] || Before(a[0], k);
      assert forall k :: k in b ==> k == b[0] || Before(b[0], k);
      assert a[0] in b && b[0] in a;
      forall k ensures k in a[1..] <==> k in b[1..] {
        if k in a[1..] { assert k != a[0] && k in b; }
        if k in b[1..] { assert k != b[0] && k in a; }
      }
      AscendingUnique(a[1..], b[1..]);
      assert a == [a[0]] + a[1..] && b == [b[0]] + b[1..];
    }
  }

  /** The group keys of `calculate_monthly_average`. */
  function GroupKeys(recs: seq<PriceRecord>): seq<YearMonth>
  {
    Months(DatedMonths(recs))
  }

  /** The record is in month `k`'s group and has a value for fuel `f`. */
  function Contributes(k: YearMonth, f: Fuel): PriceRecord -> bool
  {
    (r: PriceRecord) => InGroup(r, k) && r.prices.Get(f).Some?
  }

  /** The price of fuel `f` (used only where it is present). */
  function PriceOf(f: Fuel): PriceRecord -> real
  {
    (r: PriceRecord) => match r.prices.Get(f) case Some(v) => v case None => 0.0
  }

  /** The non-missing values of fuel `f` in month `k`'s group, in input order. */
  function GroupValues(recs: seq<PriceRecord>, k: YearMonth, f: Fuel): seq<real>
  {
    Map(PriceOf(f), Filter(recs, Contributes(k, f)))
  }

  function Sum(xs: seq<real>): real
  {
    if xs == [] then 0.0 else Sum(xs[..|xs| - 1]) + xs[|xs| - 1]
  }

  /** `mean(skipna=True)` of the values that are present: missing when none is. */
  function Mean(xs: seq<real>): (m: Option<real>)
    ensures m.None? <==> xs == []
  {
    if xs == [] then None else Some(Sum(xs) / (|xs| as real))
  }

  function Averages(recs: seq<PriceRecord>, k: YearMonth): FuelPrices
  {
    FuelPrices(Mean(GroupValues(recs, k, Unleaded92)), Mean(GroupValues(recs, k, Unleaded95)),
               Mean(GroupValues(recs, k, Unleaded98)), Mean(GroupValues(recs, k, Diesel)))
  }

  /** The result of `calculate_monthly_average`: one row per group key. */
  function Aggregate(recs: seq<PriceRecord>): (rows: seq<MonthlyRow>)
    ensures |rows| == |GroupKeys(recs)|
  {
    var ks := GroupKeys(recs);
    seq(|ks|, i requires 0 <= i < |ks| => MonthlyRow(PeriodText(ks[i], '-'), Averages(recs, ks[i])))
  }

  lemma AveragesGet(recs: seq<PriceRecord>, k: YearMonth, f: Fuel)
    ensures Averages(recs, k).Get(f) == Mean(GroupValues(recs, k, f))
  {
  }

  /** One output row per month that some dated record falls in, strictly
      ascending by month, each labelled with its `YYYY-MM` text; no two rows
      share a period. */
  lemma AggregateOneRowPerMonth(recs: seq<PriceRecord>)
    ensures var rows, ks := Aggregate(recs), GroupKeys(recs);
      && (forall i :: 0 <= i < |rows| ==> rows[i].period == PeriodText(ks[i], '-'))
      && (forall i, j :: 0 <= i < j < |ks| ==> Before(ks[i], ks[j]))
      && (forall k :: k in ks <==> exists j :: 0 <= j < |recs| && InGroup(recs[j], k))
      && (forall i, j :: 0 <= i < j < |rows| ==> rows[i].period != rows[j].period)
  {
    var rows, ks := Aggregate(recs), GroupKeys(recs);
    forall i, j | 0 <= i < j < |rows| ensures rows[i].period != rows[j].period {
      if rows[i].period == rows[j].period {
        PeriodTextInjective(ks[i], ks[j], '-');
      }
    }
  }

  lemma {:induction false} SumBounds(xs: seq<real>, lo: real, hi: real)
    requires forall i :: 0 <= i < |xs| ==> lo <= xs[i] <= hi
    ensures (|xs| as real) * lo <= Sum(xs) <= (|xs| as real) * hi
  {
    if xs != [] {
      SumBounds(xs[..|xs| - 1], lo, hi);
    }
  }

  /** A mean lies between the least and the greatest value averaged. */
  lemma MeanBounds(xs: seq<real>, lo: real, hi: real)
    requires forall i :: 0 <= i < |xs| ==> lo <= xs[i] <= hi
    ensures Mean(xs).Some? ==> lo <= Mean(xs).value <= hi
  {
    if xs != [] {
      SumBounds(xs, lo, hi);
      var n := |xs| as real;
      var m := Sum(xs) / n;
      assert m * n == Sum(xs);
      assert n * lo <= n * m <= n * hi;
    }
  }

  /** The values averaged for fuel `f` in month `k` are exactly the present
      values of `f` in the records of that month, each once, in input order:
      value `n` is the price in record `Kept(recs, Contributes(k, f))[n]`. */
  lemma GroupValuesSelect(recs: seq<PriceRecord>, k: YearMonth, f: Fuel)
    ensures var xs, idx := GroupValues(recs, k, f), Kept(recs, Contributes(k, f));
      && |xs| == |idx|
      && (forall n :: 0 <= n < |xs| ==> idx[n] < |recs| && InGroup(recs[idx[n]], k) && recs[idx[n]].prices.Get(f) == Some(xs[n]))
      && (forall n1, n2 :: 0 <= n1 < n2 < |idx| ==> idx[n1] < idx[n2])
      && (forall j :: 0 <= j < |recs| ==> (InGroup(recs[j], k) && recs[j].prices.Get(f).Some? <==> j in idx))
  {
    var p := Contributes(k, f);
    var xs := GroupValues(recs, k, f);
    FilterSelects(recs, p);
    var idx := Kept(recs, p);
    forall n | 0 <= n < |xs| ensures recs[idx[n]].prices.Get(f) == Some(xs[n]) {
      assert xs[n] == PriceOf(f)(recs[idx[n]]);
    }
  }

  /** For each month row and fuel: the value is missing exactly when no
      record of that month has a value for the fuel; otherwise it is the sum
      of the group's values (see `GroupValuesSelect`) divided by their
      number. */
  lemma AggregateMeans(recs: seq<PriceRecord>, i: nat, f: Fuel)
    requires i < |GroupKeys(recs)|
    ensures var k, avg := GroupKeys(recs)[i], Aggregate(recs)[i].averages.Get(f);
      && (avg.None? <==> forall j :: 0 <= j < |recs| ==> !(InGroup(recs[j], k) && recs[j].prices.Get(f).Some?))
      && (avg.Some? ==> var xs := GroupValues(recs, k, f); avg.value == Sum(xs) / (|xs| as real))
  {
    var k := GroupKeys(recs)[i];
    var xs := GroupValues(recs, k, f);
    GroupValuesSelect(recs, k, f);
    var idx := Kept(recs, Contributes(k, f));
    AveragesGet(recs, k, f);
    if xs != [] {
      assert recs[idx[0]].prices.Get(f).Some?;
    }
  }

  /** A month row's mean for a fuel lies between any bounds that the
      month's prices of that fuel respect. */
  lemma AggregateMeanBounds(recs: seq<PriceRecord>, i: nat, f: Fuel, lo: real, hi: real)
    requires i < |GroupKeys(recs)|
    requires forall j :: 0 <= j < |recs| && InGroup(recs[j], GroupKeys(recs)[i]) && recs[j].prices.Get(f).Some? ==>
      lo <= recs[j].prices.Get(f).value <= hi
    ensures var avg := Aggregate(recs)[i].averages.Get(f); avg.Some? ==> lo <= avg.value <= hi
  {
    var k := GroupKeys(recs)[i];
    var xs := GroupValues(recs, k, f);
    GroupValuesSelect(recs, k, f);
    MeanBounds(xs, lo, hi);
    AveragesGet(recs, k, f);
  }

  lemma {:induction false} SumConcat(a: seq<real>, b: seq<real>)
    ensures Sum(a + b) == Sum(a) + Sum(b)
  {
    if b == [] {
      assert a + b == a;
    } else {
      var init := b[..|b| - 1];
      assert (a + b)[..|a + b| - 1] == a + init;
      SumConcat(a, init);
    }
  }

  /** The sum does not depend on the order of the values. */
  lemma {:induction false} SumPermutation(xs: seq<real>, ys: seq<real>)
    requires multiset(xs) == multiset(ys)
    ensures Sum(xs) == Sum(ys)
    decreases |xs|
  {
    if xs != [] {
      var x := xs[|xs| - 1];
      var init := xs[..|xs| - 1];
      assert xs == init + [x];
      assert x in multiset(ys);
      var i :| 0 <= i < |ys| && ys[i] == x;
      var rest := ys[..i] + ys[i + 1..];
      assert ys == ys[..i] + [x] + ys[i + 1..];
      assert multiset(ys) == multiset(ys[..i]) + multiset{x} + multiset(ys[i + 1..]);
      assert multiset(rest) == multiset(ys[..i]) + multiset(ys[i + 1..]);
      assert multiset(init) == multiset(xs) - multiset{x};
      assert multiset(rest) == multiset(ys) - multiset{x};
      SumPermutation(init, rest);
      SumConcat(ys[..i] + [x], ys[i + 1..]);
      SumConcat(ys[..i], [x]);
      SumConcat(ys[..i], ys[i + 1..]);
    }
  }

  /** Grouping is commutative: rearranging the input records does not change
      the monthly rows, their order or their means. */
  lemma AggregateOrderIndependent(a: seq<PriceRecord>, b: seq<PriceRecord>)
    requires multiset(a) == multiset(b)
    ensures Aggregate(a) == Aggregate(b)
  {
    forall r ensures r in a <==> r in b {
      assert r in a <==> r in multiset(a);
      assert r in b <==> r in multiset(b);
    }
    forall k ensures k in DatedMonths(a) <==> k in DatedMonths(b) {
      if k in DatedMonths(a) {
        var i :| 0 <= i < |a| && InGroup(a[i], k);
        assert a[i] in b;
        var j :| 0 <= j < |b| && b[j] == a[i];
      }
      if k in DatedMonths(b) {
        var j :| 0 <= j < |b| && InGroup(b[j], k);
        assert b[j] in a;
        var i :| 0 <= i < |a| && a[i] == b[j];
      }
    }
    AscendingUnique(GroupKeys(a), GroupKeys(b));
    forall k, f ensures Mean(GroupValues(a, k, f)) == Mean(GroupValues(b, k, f)) {
      var p := Contributes(k, f);
      FilterPermutation(a, b, p);
      MapPermutation(PriceOf(f), Filter(a, p), Filter(b, p));
      var xs, ys := GroupValues(a, k, f), GroupValues(b, k, f);
      SumPermutation(xs, ys);
      assert |xs| == |multiset(xs)| == |multiset(ys)| == |ys|;
    }
    SameGroupsSameRows(a, b);
  }

  /** Two inputs with the same group keys and the same means per group give
      the same rows. */
  lemma SameGroupsSameRows(a: seq<PriceRecord>, b: seq<PriceRecord>)
    requires GroupKeys(a) == GroupKeys(b)
    requires forall k, f :: Mean(GroupValues(a, k, f)) == Mean(GroupValues(b, k, f))
    ensures Aggregate(a) == Aggregate(b)
  {
    var ks := GroupKeys(a);
    forall i | 0 <= i < |ks| ensures Aggregate(a)[i] == Aggregate(b)[i] {
      assert Averages(a, ks[i]) == Averages(b, ks[i]);
    }
  }

  predicate IsDated(r: PriceRecord)
  {
    r.date.Some?
  }

  /** Records whose date did not parse contribute to no month: dropping them
      first changes nothing. */
  lemma AggregateIgnoresUndated(recs: seq<PriceRecord>)
    ensures Aggregate(Filter(recs, IsDated)) == Aggregate(recs)
  {
    var dated := Filter(recs, IsDated);
    DatedKeysAgree(recs);
    forall k, f ensures Mean(GroupValues(dated, k, f)) == Mean(GroupValues(recs, k, f)) {
      assert forall r :: Contributes(k, f)(r) ==> IsDated(r);
      FilterImplied(recs, IsDated, Contributes(k, f));
    }
    SameGroupsSameRows(dated, recs);
  }

  lemma DatedKeysAgree(recs: seq<PriceRecord>)
    ensures GroupKeys(Filter(recs, IsDated)) == GroupKeys(recs)
  {
    var dated := Filter(recs, IsDated);
    forall k ensures k in DatedMonths(dated) <==> k in DatedMonths(recs) {
      if k in DatedMonths(recs) {
        var j :| 0 <= j < |recs| && InGroup(recs[j], k);
        FilterMember(recs, IsDated, recs[j]);
        var i :| 0 <= i < |dated| && dated[i] == recs[j];
      }
    }
    AscendingUnique(GroupKeys(dated), GroupKeys(recs));
  }
}
