/** The series merge engine: _remap_date_counts, _merge_results and merge_results.
    Several labelled, sparse lists of {year, month, count} rows become one record per
    first-of-month date, newest first, holding each label's count for that month. */
module SeriesMerge {
  import opened Wrappers
  import opened Calendar

  /** The name of a keyword argument of merge_results. */
  type Label = string

  /** The keyword merge_results itself gives the date of a record. */
  const DateLabel: Label := "date"

  /** One row of a grouped-count query: {'year': .., 'month': .., 'count': ..}. */
  datatype Row = Row(year: int, month: int, count: int)

  /** One keyword argument of merge_results: its name and its rows. */
  datatype Series = Series(name: Label, rows: seq<Row>)

  /** One merged record: the date and the count of every label that had a row that month. */
  datatype MergedRecord = MergedRecord(date: Date, counts: map<Label, int>)

  /** date -> {label: count}, the dictionaries the merge folds. */
  type Buckets = map<Date, map<Label, int>>

  /** date(year, month, 1) */
  function MonthStart(r: Row): Date {
    Date(r.year, r.month, 1)
  }

  predicate ValidRow(r: Row) {
    ValidDate(MonthStart(r))
  }

  predicate ValidRows(rows: seq<Row>) {
    forall i :: 0 <= i < |rows| ==> ValidRow(rows[i])
  }

  predicate AllValid(series: seq<Series>) {
    forall k :: 0 <= k < |series| ==> ValidRows(series[k].rows)
  }

  /** An IntegerField(label, default=0) read from a record: absent labels read as 0. */
  function Field(rec: MergedRecord, name: Label): int {
    if name in rec.counts then rec.counts[name] else 0
  }

  function OrZero(v: Option<int>): int {
    if v.Some? then v.value else 0
  }

  // ---------------------------------------------------------------------------
  // Reference definitions: what the merge should compute, stated without folds.

  /** The dates the rows of one series fall on. */
  function RowDates(rows: seq<Row>): seq<Date> {
    seq(|rows|, i requires 0 <= i < |rows| => MonthStart(rows[i]))
  }

  /** The dates of every row of every series. */
  function AllDates(series: seq<Series>): seq<Date> {
    if series == [] then [] else AllDates(series[..|series| - 1]) + RowDates(series[|series| - 1].rows)
  }

  /** The count of the last row of `rows` falling on d, if any. */
  function LastCount(rows: seq<Row>, d: Date): Option<int> {
    if rows == [] then None
    else
      var later := LastCount(rows[1..], d);
      if later.Some? then later
      else if MonthStart(rows[0]) == d then Some(rows[0].count)
      else None
  }

  /** The count a label carries at d: that of the last series with this name that has a row on d. */
  function SeriesValue(series: seq<Series>, name: Label, d: Date): Option<int> {
    if series == [] then None
    else
      var s := series[|series| - 1];
      if s.name == name && LastCount(s.rows, d).Some? then LastCount(s.rows, d)
      else SeriesValue(series[..|series| - 1], name, d)
  }

  // ---------------------------------------------------------------------------
  // The fold, as the source computes it.

  /** dict((date(x['year'], x['month'], 1), {label: x['count']}) for x in rows), continuing from acc.
      date() raises ValueError on a month outside 1..12 or a year outside 1..9999. */
  function Remap(name: Label, acc: Buckets, rows: seq<Row>): Result<Buckets>
    decreases |rows|
  {
    if rows == [] then Ok(acc)
    else if !ValidRow(rows[0]) then Err(ValueError)
    else Remap(name, acc[MonthStart(rows[0]) := map[name := rows[0].count]], rows[1..])
  }

  /** The dictionary _remap_date_counts yields for one label. */
  function RemapSeries(s: Series): Result<Buckets> {
    Remap(s.name, map[], s.rows)
  }

  /** The labels and counts one dictionary holds at d: x.get(d, {}). */
  function At(m: Buckets, d: Date): map<Label, int> {
    if d in m then m[d] else map[]
  }

  /** _merge_results(x, y): every date of either side; on a label present on both
      sides the right-hand count wins, as dict(x_items + y_items) keeps the later pair. */
  function MergeBuckets(x: Buckets, y: Buckets): (r: Buckets)
    ensures r.Keys == x.Keys + y.Keys
    ensures forall d, l :: d in r ==> (l in r[d] <==> l in At(x, d) || l in At(y, d))
    ensures forall d, l :: d in r && l in At(y, d) ==> r[d][l] == At(y, d)[l]
    ensures forall d, l :: d in r && l !in At(y, d) && l in At(x, d) ==> r[d][l] == At(x, d)[l]
  {
    map d | d in x.Keys + y.Keys :: At(x, d) + At(y, d)
  }

  /** reduce(_merge_results, _remap_date_counts(**kwargs)) for a non-empty keyword set:
      the dictionaries are produced and folded from left to right. */
  function Reduced(series: seq<Series>): Result<Buckets>
    requires |series| >= 1
    decreases |series|
  {
    var last := RemapSeries(series[|series| - 1]);
    if |series| == 1 then last
    else
      match Reduced(series[..|series| - 1])
      case Err(e) => Err(e)
      case Ok(acc) =>
        match last
        case Err(e) => Err(e)
        case Ok(m) => Ok(MergeBuckets(acc, m))
  }

  /** Dates strictly decreasing: newest first, no date twice. */
  predicate Descending(ds: seq<Date>) {
    forall i, j :: 0 <= i < j < |ds| ==> Before(ds[j], ds[i])
  }

  /** Insert d into a newest-first sequence of distinct dates. */
  function InsertDescending(xs: seq<Date>, d: Date): (r: seq<Date>)
    requires Descending(xs)
    ensures Descending(r)
    ensures forall e :: e in r <==> e in xs || e == d
  {
    if xs == [] then [d]
    else if xs[0] == d then xs
    else if Before(xs[0], d) then [d] + xs
    else
      var rest := InsertDescending(xs[1..], d);
      assert forall e :: e in xs <==> e == xs[0] || e in xs[1..];
      assert Before(d, xs[0]);
      forall i | 0 <= i < |rest| ensures Before(rest[i], xs[0]) {
        assert rest[i] in rest;
        if rest[i] != d {
          var k :| 0 <= k < |xs[1..]| && xs[1..][k] == rest[i];
          assert xs[k + 1] == rest[i];
        }
      }
      [xs[0]] + rest
  }

  /** The distinct dates of ds, newest first: sorted(..., key=itemgetter('date'), reverse=True)
      over the distinct keys of the merged dictionary. */
  function SortDescending(ds: seq<Date>): (r: seq<Date>)
    ensures Descending(r)
    ensures forall e :: e in r <==> e in ds
  {
    if ds == [] then []
    else
      var r := InsertDescending(SortDescending(ds[..|ds| - 1]), ds[|ds| - 1]);
      assert forall e :: e in ds <==> e in ds[..|ds| - 1] || e == ds[|ds| - 1] by {
        assert ds == ds[..|ds| - 1] + [ds[|ds| - 1]];
      }
      r
  }

  /** Some row of some series falls on d. */
  predicate Occurs(series: seq<Series>, d: Date) {
    exists k :: 0 <= k < |series| && d in RowDates(series[k].rows)
  }

  /** Some record is dated d. */
  predicate HasRecordOn(recs: seq<MergedRecord>, d: Date) {
    exists i :: 0 <= i < |recs| && recs[i].date == d
  }

  /** Some series labelled "date" has a row, so dict(date=k, **v) gets the keyword twice. */
  predicate HasDateLabel(series: seq<Series>) {
    exists k :: 0 <= k < |series| && series[k].name == DateLabel && series[k].rows != []
  }

  /** merge_results(**kwargs): TypeError for no keywords at all (reduce without an initial
      value), ValueError for a row outside the calendar, TypeError for a name "date" that
      has rows; otherwise one record per date, newest first. */
  function MergeResults(series: seq<Series>): Result<seq<MergedRecord>> {
    if series == [] then Err(TypeError)
    else
      match Reduced(series)
      case Err(e) => Err(e)
      case Ok(m) =>
        if exists d :: d in m && DateLabel in m[d] then Err(TypeError)
        else
          ReducedSpec(series);
          var ds := SortDescending(AllDates(series));
          Ok(seq(|ds|, i requires 0 <= i < |ds| => MergedRecord(ds[i], m[ds[i]])))
  }

  // ---------------------------------------------------------------------------
  // Properties.

  lemma RowDatesMember(rows: seq<Row>, d: Date)
    ensures d in RowDates(rows) <==> exists i :: 0 <= i < |rows| && MonthStart(rows[i]) == d
  {
    if d in RowDates(rows) {
      var i :| 0 <= i < |RowDates(rows)| && RowDates(rows)[i] == d;
      assert MonthStart(rows[i]) == d;
    } else {
      forall i | 0 <= i < |rows| ensures MonthStart(rows[i]) != d {
        assert RowDates(rows)[i] == MonthStart(rows[i]);
      }
    }
  }

  /** A date occurs among all the dates exactly when some row of some series falls on it. */
  lemma {:induction false} AllDatesMember(series: seq<Series>, d: Date)
    ensures d in AllDates(series) <==> exists k :: 0 <= k < |series| && d in RowDates(series[k].rows)
    decreases |series|
  {
    if series != [] {
      var prefix := series[..|series| - 1];
      AllDatesMember(prefix, d);
      assert forall k :: 0 <= k < |prefix| ==> prefix[k] == series[k];
      if d in AllDates(series) && d !in RowDates(series[|series| - 1].rows) {
        var k :| 0 <= k < |prefix| && d in RowDates(prefix[k].rows);
        assert d in RowDates(series[k].rows);
      }
    }
  }

  /** A row falls on d exactly when the series has a count for d. */
  lemma {:induction false} LastCountFound(rows: seq<Row>, d: Date)
    ensures LastCount(rows, d).Some? <==> d in RowDates(rows)
  {
    RowDatesMember(rows, d);
    if rows != [] {
      LastCountFound(rows[1..], d);
      RowDatesMember(rows[1..], d);
      if d in RowDates(rows) && MonthStart(rows[0]) != d {
        var i :| 0 <= i < |rows| && MonthStart(rows[i]) == d;
        assert MonthStart(rows[1..][i - 1]) == d;
      }
      if d in RowDates(rows[1..]) {
        var i :| 0 <= i < |rows[1..]| && MonthStart(rows[1..][i]) == d;
        assert MonthStart(rows[i + 1]) == d;
      }
    }
  }

  /** A repeated month in one series keeps the count of its last row. */
  lemma {:induction false} LastCountIsLast(rows: seq<Row>, d: Date)
    requires LastCount(rows, d).Some?
    ensures exists j :: (0 <= j < |rows| && MonthStart(rows[j]) == d && rows[j].count == LastCount(rows, d).value &&
                         forall k :: j < k < |rows| ==> MonthStart(rows[k]) != d)
  {
    var later := LastCount(rows[1..], d);
    if later.Some? {
      LastCountIsLast(rows[1..], d);
      var j :| 0 <= j < |rows[1..]| && MonthStart(rows[1..][j]) == d && rows[1..][j].count == later.value &&
        forall k :: j < k < |rows[1..]| ==> MonthStart(rows[1..][k]) != d;
      assert MonthStart(rows[j + 1]) == d && rows[j + 1].count == later.value;
      assert forall k :: j + 1 < k < |rows| ==> MonthStart(rows[k]) != d by {
        forall k | j + 1 < k < |rows| ensures MonthStart(rows[k]) != d {
          assert rows[k] == rows[1..][k - 1];
        }
      }
    } else {
      LastCountFound(rows[1..], d);
      RowDatesMember(rows[1..], d);
      forall k | 0 < k < |rows| ensures MonthStart(rows[k]) != d {
        assert rows[k] == rows[1..][k - 1];
      }
    }
  }

  /** One series' dictionary: the dates of its rows, each holding the name and the count
      of the last row on that date; a row outside the calendar raises ValueError. */
  lemma {:induction false} RemapSpec(name: Label, acc: Buckets, rows: seq<Row>)
    ensures Remap(name, acc, rows).Ok? <==> ValidRows(rows)
    ensures Remap(name, acc, rows).Err? ==> Remap(name, acc, rows).error == ValueError
    ensures Remap(name, acc, rows).Ok? ==>
      var m := Remap(name, acc, rows).value;
      (forall d :: d in m <==> d in acc || d in RowDates(rows)) &&
      (forall d :: d in m && LastCount(rows, d).Some? ==> m[d] == map[name := LastCount(rows, d).value]) &&
      (forall d :: d in m && LastCount(rows, d).None? ==> d in acc && m[d] == acc[d])
    decreases |rows|
  {
    if rows != [] && ValidRow(rows[0]) {
      var acc' := acc[MonthStart(rows[0]) := map[name := rows[0].count]];
      RemapSpec(name, acc', rows[1..]);
      assert ValidRows(rows) <==> ValidRows(rows[1..]) by {
        assert forall i :: 0 < i < |rows| ==> rows[i] == rows[1..][i - 1];
      }
      forall d ensures d in RowDates(rows) <==> d == MonthStart(rows[0]) || d in RowDates(rows[1..]) {
        RowDatesMember(rows, d);
        RowDatesMember(rows[1..], d);
        if d in RowDates(rows) && d != MonthStart(rows[0]) {
          var i :| 0 <= i < |rows| && MonthStart(rows[i]) == d;
          assert MonthStart(rows[1..][i - 1]) == d;
        }
        if d in RowDates(rows[1..]) {
          var i :| 0 <= i < |rows[1..]| && MonthStart(rows[1..][i]) == d;
          assert MonthStart(rows[i + 1]) == d;
        }
      }
    } else if rows != [] {
      assert !ValidRows(rows);
    }
  }

  /** The folded dictionary: ValueError exactly when some row lies outside the calendar;
      otherwise its dates are those of all rows, and at each date each name holds
      SeriesValue, the count of the last series with that name that has the date. */
  lemma {:induction false} ReducedSpec(series: seq<Series>)
    requires |series| >= 1
    ensures Reduced(series).Ok? <==> AllValid(series)
    ensures Reduced(series).Err? ==> Reduced(series).error == ValueError
    ensures Reduced(series).Ok? ==> Matches(Reduced(series).value, series)
    decreases |series|
  {
    var s := series[|series| - 1];
    var prefix := series[..|series| - 1];
    assert series == prefix + [s];
    RemapSpec(s.name, map[], s.rows);
    forall d ensures LastCount(s.rows, d).Some? <==> d in RowDates(s.rows) {
      LastCountFound(s.rows, d);
    }
    assert AllValid(series) <==> AllValid(prefix) && ValidRows(s.rows) by {
      assert forall k :: 0 <= k < |prefix| ==> prefix[k] == series[k];
    }
    if |series| == 1 {
      if Reduced(series).Ok? {
        var m := RemapSeries(s).value;
        var r := MergeBuckets(map[], m);
        forall d | d in m ensures r[d] == m[d] {
          assert At(map[], d) == map[];
          assert map[] + m[d] == m[d];
        }
        assert r == m;
        MergeStep(prefix, s, map[], m);
      }
    } else {
      ReducedSpec(prefix);
      if Reduced(series).Ok? {
        MergeStep(prefix, s, Reduced(prefix).value, RemapSeries(s).value);
      }
    }
  }

  /** m is the dictionary the reference definitions describe for these series: the dates
      of all their rows, and at each date exactly the labels SeriesValue gives, with its counts. */
  ghost predicate Matches(m: Buckets, series: seq<Series>) {
    (forall d :: d in m <==> d in AllDates(series)) &&
    (forall d, l :: d in m ==>
      (l in m[d] <==> SeriesValue(series, l, d).Some?) &&
      (l in m[d] ==> m[d][l] == SeriesValue(series, l, d).value))
  }

  /** One step of the fold: merging the next series' dictionary into the fold so far. */
  lemma MergeStep(prefix: seq<Series>, s: Series, acc: Buckets, m: Buckets)
    requires Matches(acc, prefix)
    requires forall d :: d in m <==> d in RowDates(s.rows)
    requires forall d :: d in m ==> LastCount(s.rows, d).Some? && m[d] == map[s.name := LastCount(s.rows, d).value]
    ensures Matches(MergeBuckets(acc, m), prefix + [s])
  {
    var r := MergeBuckets(acc, m);
    assert (prefix + [s])[..|prefix|] == prefix && (prefix + [s])[|prefix|] == s;
    assert AllDates(prefix + [s]) == AllDates(prefix) + RowDates(s.rows);
    forall d, l | d in r
      ensures l in r[d] <==> SeriesValue(prefix + [s], l, d).Some?
      ensures l in r[d] ==> r[d][l] == SeriesValue(prefix + [s], l, d).value
    {
      assert r[d] == At(acc, d) + At(m, d);
      MergeStepAt(prefix, s, acc, m, d, l);
    }
  }

  lemma MergeStepAt(prefix: seq<Series>, s: Series, acc: Buckets, m: Buckets, d: Date, l: Label)
    requires d in acc <==> d in AllDates(prefix)
    requires d in acc ==> (l in acc[d] <==> SeriesValue(prefix, l, d).Some?)
    requires d in acc && l in acc[d] ==> acc[d][l] == SeriesValue(prefix, l, d).value
    requires d in m <==> d in RowDates(s.rows)
    requires d in m ==> LastCount(s.rows, d).Some? && m[d] == map[s.name := LastCount(s.rows, d).value]
    requires d in acc || d in m
    ensures var v := At(acc, d) + At(m, d);
      (l in v <==> SeriesValue(prefix + [s], l, d).Some?) &&
      (l in v ==> v[l] == SeriesValue(prefix + [s], l, d).value)
  {
    var series := prefix + [s];
    assert series[..|series| - 1] == prefix && series[|series| - 1] == s;
    SeriesValueFound(prefix, l, d);
    AllDatesMember(prefix, d);
    LastCountFound(s.rows, d);
  }

  /** A label has a count at d exactly when some series with that name has a row on d. */
  lemma {:induction false} SeriesValueFound(series: seq<Series>, name: Label, d: Date)
    ensures SeriesValue(series, name, d).Some? <==>
      exists k :: 0 <= k < |series| && series[k].name == name && d in RowDates(series[k].rows)
    decreases |series|
  {
    if series != [] {
      var s := series[|series| - 1];
      var prefix := series[..|series| - 1];
      SeriesValueFound(prefix, name, d);
      LastCountFound(s.rows, d);
      if SeriesValue(series, name, d).None? {
        forall k | 0 <= k < |series| && series[k].name == name
          ensures d !in RowDates(series[k].rows)
        {
          if k < |prefix| {
            assert prefix[k] == series[k];
          }
        }
      } else if !(s.name == name && LastCount(s.rows, d).Some?) {
        var k :| 0 <= k < |prefix| && prefix[k].name == name && d in RowDates(prefix[k].rows);
        assert series[k] == prefix[k];
      }
    }
  }

  /** With one series per name (as keyword arguments guarantee), a name's count at d is
      the last count its own series gives for d. */
  lemma {:induction false} SeriesValueOfOwnSeries(series: seq<Series>, k: int, d: Date)
    requires 0 <= k < |series|
    requires forall j :: 0 <= j < |series| && j != k ==> series[j].name != series[k].name
    ensures SeriesValue(series, series[k].name, d) == LastCount(series[k].rows, d)
    decreases |series|
  {
    var prefix := series[..|series| - 1];
    if k < |series| - 1 {
      assert prefix[k] == series[k];
      forall j | 0 <= j < |prefix| && j != k ensures prefix[j].name != prefix[k].name {
        assert prefix[j] == series[j];
      }
      SeriesValueOfOwnSeries(prefix, k, d);
    } else {
      forall j | 0 <= j < |prefix| ensures prefix[j].name != series[k].name {
        assert prefix[j] == series[j];
      }
      SeriesValueFound(prefix, series[k].name, d);
    }
  }

  /** merge_results fails exactly as the source does: TypeError with no keywords,
      ValueError for a row outside the calendar, TypeError for a name "date" with rows. */
  lemma MergeResultsOutcome(series: seq<Series>)
    ensures series == [] ==> MergeResults(series) == Err(TypeError)
    ensures series != [] && !AllValid(series) ==> MergeResults(series) == Err(ValueError)
    ensures series != [] && AllValid(series) && HasDateLabel(series) ==> MergeResults(series) == Err(TypeError)
    ensures series != [] && AllValid(series) && !HasDateLabel(series) ==> MergeResults(series).Ok?
  {
    if series != [] {
      ReducedSpec(series);
      if AllValid(series) {
        var m := Reduced(series).value;
        if HasDateLabel(series) {
          var k :| 0 <= k < |series| && series[k].name == DateLabel && series[k].rows != [];
          var d := MonthStart(series[k].rows[0]);
          assert RowDates(series[k].rows)[0] == d;
          SeriesValueFound(series, DateLabel, d);
          AllDatesMember(series, d);
          assert d in m && DateLabel in m[d];
        } else {
          forall d | d in m ensures DateLabel !in m[d] {
            forall k | 0 <= k < |series| && series[k].name == DateLabel ensures d !in RowDates(series[k].rows) {
              assert series[k].rows == [];
            }
            SeriesValueFound(series, DateLabel, d);
          }
        }
      }
    }
  }

  /** The records are strictly newest first: sorted by date, none twice. */
  lemma MergeResultsDescending(series: seq<Series>)
    requires MergeResults(series).Ok?
    ensures forall i, j :: 0 <= i < j < |MergeResults(series).value| ==>
      Before(MergeResults(series).value[j].date, MergeResults(series).value[i].date)
  {
  }

  /** One record per first-of-month date that some row of some series falls on: none
      dropped, none invented; every record date is a valid first of a month. */
  lemma MergeResultsCoverage(series: seq<Series>)
    requires MergeResults(series).Ok?
    ensures forall d :: HasRecordOn(MergeResults(series).value, d) <==> Occurs(series, d)
    ensures forall i :: 0 <= i < |MergeResults(series).value| ==>
      ValidDate(MergeResults(series).value[i].date) && MergeResults(series).value[i].date.day == 1
  {
    var recs := MergeResults(series).value;
    ReducedSpec(series);
    var ds := SortDescending(AllDates(series));
    assert |recs| == |ds| && forall i :: 0 <= i < |ds| ==> recs[i].date == ds[i];
    forall d ensures HasRecordOn(recs, d) <==> d in AllDates(series) {
      if d in ds {
        var i :| 0 <= i < |ds| && ds[i] == d;
        assert recs[i].date == d;
      }
    }
    forall d ensures d in AllDates(series) <==> Occurs(series, d) {
      AllDatesMember(series, d);
    }
    forall i | 0 <= i < |recs| ensures ValidDate(recs[i].date) && recs[i].date.day == 1 {
      var d := recs[i].date;
      assert d in ds;
      var k :| 0 <= k < |series| && d in RowDates(series[k].rows);
      RowDatesMember(series[k].rows, d);
      var j :| 0 <= j < |series[k].rows| && MonthStart(series[k].rows[j]) == d;
      assert ValidRows(series[k].rows);
    }
  }

  /** Each name of a record holds the count its series gave for that month (the last
      series with that name wins); a name with no row that month is absent and reads as 0. */
  lemma MergeResultsValues(series: seq<Series>)
    requires MergeResults(series).Ok?
    ensures forall i, l :: 0 <= i < |MergeResults(series).value| ==>
      (l in MergeResults(series).value[i].counts <==> SeriesValue(series, l, MergeResults(series).value[i].date).Some?)
    ensures forall i, l :: 0 <= i < |MergeResults(series).value| ==>
      Field(MergeResults(series).value[i], l) == OrZero(SeriesValue(series, l, MergeResults(series).value[i].date))
  {
    ReducedSpec(series);
  }

  /** With one row per month in a series, that row's count is the series' count for the month. */
  lemma LastCountUnique(rows: seq<Row>, j: int)
    requires 0 <= j < |rows|
    requires forall i :: 0 <= i < |rows| && i != j ==> MonthStart(rows[i]) != MonthStart(rows[j])
    ensures LastCount(rows, MonthStart(rows[j])) == Some(rows[j].count)
  {
    var d := MonthStart(rows[j]);
    RowDatesMember(rows, d);
    LastCountFound(rows, d);
    LastCountIsLast(rows, d);
  }

  lemma ExampleDates(series: seq<Series>)
    requires series == [Series("votes", [Row(2021, 1, 3)]), Series("helpful", [Row(2021, 1, 2), Row(2021, 2, 5)])]
    ensures AllDates(series) == [Date(2021, 1, 1), Date(2021, 1, 1), Date(2021, 2, 1)]
  {
    assert series[..1] == [series[0]];
    assert series[..1][..0] == [];
    assert RowDates(series[0].rows) == [Date(2021, 1, 1)];
    assert RowDates(series[1].rows) == [Date(2021, 1, 1), Date(2021, 2, 1)];
    assert AllDates(series[..1]) == AllDates([]) + RowDates(series[0].rows);
    assert AllDates(series) == AllDates(series[..1]) + RowDates(series[1].rows);
  }

  lemma ExampleSort()
    ensures SortDescending([Date(2021, 1, 1), Date(2021, 1, 1), Date(2021, 2, 1)]) == [Date(2021, 2, 1), Date(2021, 1, 1)]
  {
    var jan, feb := Date(2021, 1, 1), Date(2021, 2, 1);
    assert [jan][..0] == [];
    assert SortDescending([jan]) == [jan];
    assert [jan, jan][..1] == [jan];
    assert SortDescending([jan, jan]) == InsertDescending([jan], jan) == [jan];
    assert [jan, jan, feb][..2] == [jan, jan];
    assert SortDescending([jan, jan, feb]) == InsertDescending([jan], feb);
  }

  lemma ExampleReduced(series: seq<Series>)
    requires series == [Series("votes", [Row(2021, 1, 3)]), Series("helpful", [Row(2021, 1, 2), Row(2021, 2, 5)])]
    ensures Reduced(series) == Ok(map[Date(2021, 1, 1) := map["votes" := 3, "helpful" := 2],
                                      Date(2021, 2, 1) := map["helpful" := 5]])
  {
    var jan, feb := Date(2021, 1, 1), Date(2021, 2, 1);
    var votes := map[jan := map["votes" := 3]];
    var helpful := map[jan := map["helpful" := 2], feb := map["helpful" := 5]];
    assert RemapSeries(series[0]) == Ok(votes);
    assert RemapSeries(series[1]) == Ok(helpful) by {
      assert series[1].rows[1..] == [Row(2021, 2, 5)];
      assert map[jan := map["helpful" := 2]][feb := map["helpful" := 5]] == helpful;
    }
    assert series[..1] == [series[0]];
    var r := MergeBuckets(votes, helpful);
    assert r.Keys == {jan, feb};
    assert r[jan] == map["votes" := 3] + map["helpful" := 2] == map["votes" := 3, "helpful" := 2];
    assert r[feb] == map[] + map["helpful" := 5] == map["helpful" := 5];
    assert r == map[jan := map["votes" := 3, "helpful" := 2], feb := map["helpful" := 5]];
    assert Reduced(series[..1]) == Ok(votes);
    assert Reduced(series) == Ok(r);
  }

  /** The worked example: votes only in January, helpful in January and February; the
      February record has no "votes" entry, which the field then reads as 0. */
  lemma MergeExample()
    ensures var series := [Series("votes", [Row(2021, 1, 3)]), Series("helpful", [Row(2021, 1, 2), Row(2021, 2, 5)])];
      MergeResults(series) == Ok([MergedRecord(Date(2021, 2, 1), map["helpful" := 5]),
                                  MergedRecord(Date(2021, 1, 1), map["votes" := 3, "helpful" := 2])])
  {
    var series := [Series("votes", [Row(2021, 1, 3)]), Series("helpful", [Row(2021, 1, 2), Row(2021, 2, 5)])];
    var jan, feb := Date(2021, 1, 1), Date(2021, 2, 1);
    ExampleReduced(series);
    ExampleDates(series);
    ExampleSort();
    var m := Reduced(series).value;
    assert m.Keys == {jan, feb};
    assert !exists d :: d in m && DateLabel in m[d] by {
      assert DateLabel !in m[jan] && DateLabel !in m[feb];
    }
    var ds := SortDescending(AllDates(series));
    assert ds == [feb, jan];
    var recs := MergeResults(series).value;
    assert |recs| == 2;
    assert recs[0] == MergedRecord(feb, map["helpful" := 5]);
    assert recs[1] == MergedRecord(jan, map["votes" := 3, "helpful" := 2]);
    assert recs == [MergedRecord(feb, map["helpful" := 5]), MergedRecord(jan, map["votes" := 3, "helpful" := 2])];
  }
}
