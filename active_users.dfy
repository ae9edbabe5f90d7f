/** Monthly distinct-user tallies: the dictionaries of (year, month) -> set of user ids
    that ActiveKbContributorsResource and ActiveAnswerersResource fill in place, the
    {year, month, count} rows read off them, and the merged records they become. */
module ActiveUsers {
  import opened Wrappers
  import opened Calendar
  import opened SeriesMerge

  /** (year, month), the key of a tally. */
  type Month = (int, int)

  /** monthly_dict: the ids seen in each month. */
  type Tally = map<Month, set<int>>

  /** One row handed to _add_user: r['year'], r['month'], r[column]; None for a NULL id. */
  datatype UserRow = UserRow(year: int, month: int, user: Option<int>)

  /** `if userid:` skips NULL and 0. */
  predicate Truthy(user: Option<int>) {
    user.Some? && user.value != 0
  }

  predicate CountsIn(r: UserRow, year: int, month: int) {
    Truthy(r.user) && r.year == year && r.month == month
  }

  /** The tally after _add_user(monthly_dict, r.year, r.month, r.user). */
  function Added(t: Tally, r: UserRow): Tally {
    if Truthy(r.user) then
      var ym := (r.year, r.month);
      t[ym := Users(t, r.year, r.month) + {r.user.value}]
    else t
  }

  /** The tally after _add_users over rows, in order. */
  function AddedAll(t: Tally, rows: seq<UserRow>): Tally {
    if rows == [] then t else Added(AddedAll(t, rows[..|rows| - 1]), rows[|rows| - 1])
  }

  /** monthly_dict.get((year, month), set()) */
  function Users(t: Tally, year: int, month: int): set<int> {
    if (year, month) in t then t[(year, month)] else {}
  }

  /** The number a month's row reports: len(v), or no row at all when the month is absent. */
  function Count(t: Tally, year: int, month: int): nat {
    |Users(t, year, month)|
  }

  /** The distinct truthy ids rows give for a month, stated without the fold. */
  function UsersIn(rows: seq<UserRow>, year: int, month: int): (s: set<int>)
    ensures 0 !in s
  {
    set i | 0 <= i < |rows| && CountsIn(rows[i], year, month) :: rows[i].user.value
  }

  /** Folding rows into a tally adds exactly their distinct truthy ids, month by month, and
      creates a month only when one of them falls in it. */
  lemma {:induction false} AddedAllSpec(t: Tally, rows: seq<UserRow>, year: int, month: int)
    ensures Users(AddedAll(t, rows), year, month) == Users(t, year, month) + UsersIn(rows, year, month)
    ensures (year, month) in AddedAll(t, rows) <==> (year, month) in t || UsersIn(rows, year, month) != {}
  {
    if rows != [] {
      var front, last := rows[..|rows| - 1], rows[|rows| - 1];
      AddedAllSpec(t, front, year, month);
      var now := UsersIn(rows, year, month);
      var before := UsersIn(front, year, month);
      assert now == before + (if CountsIn(last, year, month) then {last.user.value} else {}) by {
        forall u | u in now ensures u in before || (CountsIn(last, year, month) && u == last.user.value) {
          var i :| 0 <= i < |rows| && CountsIn(rows[i], year, month) && rows[i].user.value == u;
          if i < |rows| - 1 {
            assert front[i] == rows[i];
          }
        }
        forall u | u in before ensures u in now {
          var i :| 0 <= i < |front| && CountsIn(front[i], year, month) && front[i].user.value == u;
          assert rows[i] == front[i];
        }
        if CountsIn(last, year, month) {
          assert last == rows[|rows| - 1];
        }
      }
    }
  }

  /** A tally started empty holds each month's distinct truthy ids, and only the months that
      have one. */
  lemma TallyOf(rows: seq<UserRow>, year: int, month: int)
    ensures Users(AddedAll(map[], rows), year, month) == UsersIn(rows, year, month)
    ensures (year, month) in AddedAll(map[], rows) <==> UsersIn(rows, year, month) != {}
  {
    AddedAllSpec(map[], rows, year, month);
  }

  function Key(r: Row): Month {
    (r.year, r.month)
  }

  predicate Listed(rows: seq<Row>, ym: Month) {
    exists i :: 0 <= i < |rows| && Key(rows[i]) == ym
  }

  /** rows is [{'month': k[1], 'year': k[0], 'count': len(v)} for k, v in t.items()]: one row
      per month of t, in some order, with the size of that month's set. */
  predicate ListsTally(rows: seq<Row>, t: Tally) {
    (forall i :: 0 <= i < |rows| ==> Key(rows[i]) in t && rows[i].count == |t[Key(rows[i])]|) &&
    (forall ym :: ym in t ==> Listed(rows, ym)) &&
    (forall i, j :: 0 <= i < j < |rows| ==> Key(rows[i]) != Key(rows[j]))
  }

  /** monthly_dict, the dictionary the two resources fill in place. */
  class MonthlyUsers {
    var tally: Tally

    /** d = {} */
    constructor ()
      ensures tally == map[]
    {
      tally := map[];
    }

    /** _add_user(monthly_dict, year, month, userid) */
    method AddUser(year: int, month: int, user: Option<int>)
      modifies this
      ensures tally == Added(old(tally), UserRow(year, month, user))
    {
      if Truthy(user) {
        var ym := (year, month);
        if ym !in tally {
          tally := tally[ym := {}];
        }
        tally := tally[ym := tally[ym] + {user.value}];
      }
    }

    /** _add_users(monthly_dict, values, column), and the answerers' loop. */
    method AddUsers(rows: seq<UserRow>)
      modifies this
      ensures tally == AddedAll(old(tally), rows)
    {
      var i := 0;
      while i < |rows|
        invariant 0 <= i <= |rows|
        invariant tally == AddedAll(old(tally), rows[..i])
      {
        assert rows[..i + 1][..i] == rows[..i];
        AddUser(rows[i].year, rows[i].month, rows[i].user);
        i := i + 1;
      }
      assert rows[..i] == rows;
    }

    /** The list comprehension over d.items(); the dictionary's order is not modelled, so the
        rows come in whatever order the months are picked. */
    method Rows() returns (rows: seq<Row>)
      ensures ListsTally(rows, tally)
    {
      rows := [];
      var left := tally.Keys;
      while left != {}
        invariant left <= tally.Keys
        invariant forall i :: 0 <= i < |rows| ==> Key(rows[i]) in tally && Key(rows[i]) !in left && rows[i].count == |tally[Key(rows[i])]|
        invariant forall ym :: ym in tally && ym !in left ==> Listed(rows, ym)
        invariant forall i, j :: 0 <= i < j < |rows| ==> Key(rows[i]) != Key(rows[j])
        decreases |left|
      {
        var ym :| ym in left;
        var row := Row(ym.0, ym.1, |tally[ym]|);
        forall k | k in tally && k !in left - {ym} ensures Listed(rows + [row], k) {
          if k == ym {
            assert Key((rows + [row])[|rows|]) == k;
          } else {
            var i :| 0 <= i < |rows| && Key(rows[i]) == k;
            assert Key((rows + [row])[i]) == k;
          }
        }
        rows := rows + [row];
        left := left - {ym};
      }
    }
  }

  // ---------------------------------------------------------------------------
  // From tallies to merged records.

  /** Every month of t is a month date() accepts. */
  predicate InCalendar(t: Tally) {
    forall ym :: ym in t ==> ValidDate(Date(ym.0, ym.1, 1))
  }

  /** The keyword arguments handed to merge_results: one listed tally per name, no two names
      alike, none of them "date". */
  predicate Labelled(series: seq<Series>, tallies: seq<Tally>) {
    |series| == |tallies| &&
    (forall k :: 0 <= k < |series| ==> ListsTally(series[k].rows, tallies[k]) && series[k].name != DateLabel) &&
    (forall j, k :: 0 <= j < k < |series| ==> series[j].name != series[k].name)
  }

  lemma TallyRowsValid(rows: seq<Row>, t: Tally)
    requires ListsTally(rows, t)
    ensures ValidRows(rows) <==> InCalendar(t)
  {
    if ValidRows(rows) {
      forall ym | ym in t ensures ValidDate(Date(ym.0, ym.1, 1)) {
        var i :| 0 <= i < |rows| && Key(rows[i]) == ym;
        assert ValidRow(rows[i]);
      }
    }
    if InCalendar(t) {
      forall i | 0 <= i < |rows| ensures ValidRow(rows[i]) {
        assert Key(rows[i]) in t;
      }
    }
  }

  lemma TallyDates(rows: seq<Row>, t: Tally, year: int, month: int)
    requires ListsTally(rows, t)
    ensures Date(year, month, 1) in RowDates(rows) <==> (year, month) in t
  {
    RowDatesMember(rows, Date(year, month, 1));
    if (year, month) in t {
      var i :| 0 <= i < |rows| && Key(rows[i]) == (year, month);
      assert MonthStart(rows[i]) == Date(year, month, 1);
    }
  }

  /** Read back through merge_results, a listed tally gives each first of a month the size
      of that month's set, and 0 where the month is absent. */
  lemma TallyLastCount(rows: seq<Row>, t: Tally, d: Date)
    requires ListsTally(rows, t) && d.day == 1
    ensures OrZero(LastCount(rows, d)) == Count(t, d.year, d.month)
  {
    TallyDates(rows, t, d.year, d.month);
    LastCountFound(rows, d);
    RowDatesMember(rows, d);
    if (d.year, d.month) in t {
      var j :| 0 <= j < |rows| && Key(rows[j]) == (d.year, d.month);
      forall i | 0 <= i < |rows| && i != j ensures MonthStart(rows[i]) != MonthStart(rows[j]) {
        if i < j {
          assert Key(rows[i]) != Key(rows[j]);
        } else {
          assert Key(rows[j]) != Key(rows[i]);
        }
      }
      LastCountUnique(rows, j);
      assert MonthStart(rows[j]) == d;
    }
  }

  /** merge_results over listed tallies: it raises ValueError exactly when some month falls
      outside the calendar; otherwise there is one record per month some tally holds, newest
      first, each name reading the size of its own tally's set for that month. */
  lemma TalliesMerge(series: seq<Series>, tallies: seq<Tally>)
    requires |series| >= 1 && Labelled(series, tallies)
    ensures MergeResults(series).Ok? <==> forall k :: 0 <= k < |tallies| ==> InCalendar(tallies[k])
    ensures MergeResults(series).Err? ==> MergeResults(series).error == ValueError
    ensures MergeResults(series).Ok? ==> forall i, k :: 0 <= i < |MergeResults(series).value| && 0 <= k < |series| ==>
      Field(MergeResults(series).value[i], series[k].name) ==
        Count(tallies[k], MergeResults(series).value[i].date.year, MergeResults(series).value[i].date.month)
    ensures MergeResults(series).Ok? ==> forall year, month :: HasRecordOn(MergeResults(series).value, Date(year, month, 1)) <==>
      exists k :: 0 <= k < |tallies| && (year, month) in tallies[k]
    ensures MergeResults(series).Ok? ==> forall i :: 0 <= i < |MergeResults(series).value| ==>
      MergeResults(series).value[i].date.day == 1
    ensures MergeResults(series).Ok? ==> forall i, j :: 0 <= i < j < |MergeResults(series).value| ==>
      Before(MergeResults(series).value[j].date, MergeResults(series).value[i].date)
  {
    MergeResultsOutcome(series);
    assert !HasDateLabel(series);
    assert AllValid(series) <==> forall k :: 0 <= k < |tallies| ==> InCalendar(tallies[k]) by {
      forall k | 0 <= k < |series| ensures ValidRows(series[k].rows) <==> InCalendar(tallies[k]) {
        TallyRowsValid(series[k].rows, tallies[k]);
      }
    }
    if MergeResults(series).Ok? {
      var recs := MergeResults(series).value;
      MergeResultsDescending(series);
      MergeResultsCoverage(series);
      MergeResultsValues(series);
      forall i, k | 0 <= i < |recs| && 0 <= k < |series|
        ensures Field(recs[i], series[k].name) == Count(tallies[k], recs[i].date.year, recs[i].date.month)
      {
        SeriesValueOfOwnSeries(series, k, recs[i].date);
        TallyLastCount(series[k].rows, tallies[k], recs[i].date);
      }
      forall year, month ensures HasRecordOn(recs, Date(year, month, 1)) <==>
        exists k :: 0 <= k < |tallies| && (year, month) in tallies[k]
      {
        forall k | 0 <= k < |series| ensures Date(year, month, 1) in RowDates(series[k].rows) <==> (year, month) in tallies[k] {
          TallyDates(series[k].rows, tallies[k], year, month);
        }
      }
    }
  }

  // ---------------------------------------------------------------------------
  // ActiveKbContributorsResource.

  /** One revision: the month it was created in, its creator and reviewer (NULL when
      unreviewed) and the locale of its document. */
  datatype Revision = Revision(year: int, month: int, creator: Option<int>, reviewer: Option<int>, locale: string)

  const EnUs: string := "en-US"

  /** .filter(document__locale='en-US') when en, .exclude(document__locale='en-US') otherwise. */
  predicate InLocale(r: Revision, en: bool) {
    (r.locale == EnUs) == en
  }

  /** The row a revision gives to the creator query, or to the reviewer query. */
  function RevisionRow(r: Revision, reviewer: bool): UserRow {
    UserRow(r.year, r.month, if reviewer then r.reviewer else r.creator)
  }

  /** revisions.values('year', 'month', 'creator') under the locale filter, or
      revisions.values('year', 'month', 'reviewer') when reviewer. */
  function UserRows(revs: seq<Revision>, en: bool, reviewer: bool): seq<UserRow> {
    if revs == [] then []
    else
      var last := revs[|revs| - 1];
      UserRows(revs[..|revs| - 1], en, reviewer) + (if InLocale(last, en) then [RevisionRow(last, reviewer)] else [])
  }

  /** The active contributors of a month in one locale group: every truthy creator and every
      truthy reviewer of its revisions, each id once. */
  function Contributors(revs: seq<Revision>, en: bool, year: int, month: int): set<int> {
    (set i | 0 <= i < |revs| && InLocale(revs[i], en) && revs[i].year == year && revs[i].month == month && Truthy(revs[i].creator)
       :: revs[i].creator.value) +
    (set i | 0 <= i < |revs| && InLocale(revs[i], en) && revs[i].year == year && revs[i].month == month && Truthy(revs[i].reviewer)
       :: revs[i].reviewer.value)
  }

  /** The creator (or reviewer) rows of one locale group contribute exactly the truthy ids of
      that column, month by month. */
  lemma {:induction false} UserRowsSpec(revs: seq<Revision>, en: bool, reviewer: bool, year: int, month: int)
    ensures UsersIn(UserRows(revs, en, reviewer), year, month) ==
      set i | 0 <= i < |revs| && InLocale(revs[i], en) && revs[i].year == year && revs[i].month == month && Truthy(RevisionRow(revs[i], reviewer).user)
        :: RevisionRow(revs[i], reviewer).user.value
  {
    if revs != [] {
      var front, last := revs[..|revs| - 1], revs[|revs| - 1];
      UserRowsSpec(front, en, reviewer, year, month);
      var extra := if InLocale(last, en) then [RevisionRow(last, reviewer)] else [];
      var rows := UserRows(revs, en, reviewer);
      assert rows == UserRows(front, en, reviewer) + extra;
      UsersInAppend(UserRows(front, en, reviewer), extra, year, month);
      var want := set i | 0 <= i < |revs| && InLocale(revs[i], en) && revs[i].year == year && revs[i].month == month && Truthy(RevisionRow(revs[i], reviewer).user)
        :: RevisionRow(revs[i], reviewer).user.value;
      forall u | u in want ensures u in UsersIn(rows, year, month) {
        var i :| 0 <= i < |revs| && InLocale(revs[i], en) && revs[i].year == year && revs[i].month == month && Truthy(RevisionRow(revs[i], reviewer).user) && RevisionRow(revs[i], reviewer).user.value == u;
        if i < |revs| - 1 {
          assert front[i] == revs[i];
        } else {
          assert CountsIn(extra[0], year, month);
        }
      }
      forall u | u in UsersIn(rows, year, month) ensures u in want {
        if u !in UsersIn(UserRows(front, en, reviewer), year, month) {
          var i :| 0 <= i < |extra| && CountsIn(extra[i], year, month) && extra[i].user.value == u;
          assert revs[|revs| - 1] == last;
        } else {
          var i :| 0 <= i < |front| && InLocale(front[i], en) && front[i].year == year && front[i].month == month && Truthy(RevisionRow(front[i], reviewer).user) && RevisionRow(front[i], reviewer).user.value == u;
          assert revs[i] == front[i];
        }
      }
    }
  }

  /** The ids of one column, read through RevisionRow, are the creator ids or the reviewer ids. */
  lemma ColumnUsers(revs: seq<Revision>, en: bool, reviewer: bool, year: int, month: int)
    ensures (set i | 0 <= i < |revs| && InLocale(revs[i], en) && revs[i].year == year && revs[i].month == month && Truthy(RevisionRow(revs[i], reviewer).user)
        :: RevisionRow(revs[i], reviewer).user.value) ==
      if reviewer then
        set i | 0 <= i < |revs| && InLocale(revs[i], en) && revs[i].year == year && revs[i].month == month && Truthy(revs[i].reviewer)
          :: revs[i].reviewer.value
      else
        set i | 0 <= i < |revs| && InLocale(revs[i], en) && revs[i].year == year && revs[i].month == month && Truthy(revs[i].creator)
          :: revs[i].creator.value
  {
  }

  lemma UsersInAppend(a: seq<UserRow>, b: seq<UserRow>, year: int, month: int)
    ensures UsersIn(a + b, year, month) == UsersIn(a, year, month) + UsersIn(b, year, month)
  {
    var ab := a + b;
    forall u | u in UsersIn(ab, year, month) ensures u in UsersIn(a, year, month) + UsersIn(b, year, month) {
      var i :| 0 <= i < |ab| && CountsIn(ab[i], year, month) && ab[i].user.value == u;
      if i >= |a| {
        assert b[i - |a|] == ab[i];
      }
    }
    forall u | u in UsersIn(b, year, month) ensures u in UsersIn(ab, year, month) {
      var i :| 0 <= i < |b| && CountsIn(b[i], year, month) && b[i].user.value == u;
      assert ab[|a| + i] == b[i];
    }
    forall u | u in UsersIn(a, year, month) ensures u in UsersIn(ab, year, month) {
      var i :| 0 <= i < |a| && CountsIn(a[i], year, month) && a[i].user.value == u;
      assert ab[i] == a[i];
    }
  }

  /** One locale group's dictionary: creators first, then reviewers, into one tally. */
  method LocaleTally(revs: seq<Revision>, en: bool) returns (rows: seq<Row>, ghost t: Tally)
    ensures ListsTally(rows, t) && GroupTally(t, revs, en)
  {
    var d := new MonthlyUsers();
    d.AddUsers(UserRows(revs, en, false));
    d.AddUsers(UserRows(revs, en, true));
    t := d.tally;
    rows := d.Rows();
    assert t == AddedAll(AddedAll(map[], UserRows(revs, en, false)), UserRows(revs, en, true));
    forall year, month ensures Users(t, year, month) == Contributors(revs, en, year, month)
      && ((year, month) in t <==> Contributors(revs, en, year, month) != {})
    {
      AddedAllSpec(map[], UserRows(revs, en, false), year, month);
      AddedAllSpec(AddedAll(map[], UserRows(revs, en, false)), UserRows(revs, en, true), year, month);
      UserRowsSpec(revs, en, false, year, month);
      UserRowsSpec(revs, en, true, year, month);
      ColumnUsers(revs, en, false, year, month);
      ColumnUsers(revs, en, true, year, month);
    }
    forall ym ensures ym in t <==> Contributors(revs, en, ym.0, ym.1) != {} {
      assert (ym.0, ym.1) == ym;
    }
  }

  /** t is the tally of one locale group of revs. */
  ghost predicate GroupTally(t: Tally, revs: seq<Revision>, en: bool) {
    (forall year, month :: Users(t, year, month) == Contributors(revs, en, year, month)) &&
    (forall ym :: ym in t <==> Contributors(revs, en, ym.0, ym.1) != {})
  }

  /** Some revision of the month has a truthy creator or reviewer, in either group. */
  predicate Active(revs: seq<Revision>, year: int, month: int) {
    Contributors(revs, true, year, month) + Contributors(revs, false, year, month) != {}
  }

  /** The two series of ActiveKbContributorsResource, as merge_results receives them. */
  function KbSeries(enRows: seq<Row>, otherRows: seq<Row>): seq<Series> {
    [Series("en_us", enRows), Series("non_en_us", otherRows)]
  }

  /** Every active month of revs is a month date() accepts exactly when both tallies are. */
  lemma KbInCalendar(revs: seq<Revision>, en: Tally, other: Tally)
    requires GroupTally(en, revs, true) && GroupTally(other, revs, false)
    ensures InCalendar(en) && InCalendar(other) <==>
      forall year, month :: Active(revs, year, month) ==> ValidDate(Date(year, month, 1))
  {
    if InCalendar(en) && InCalendar(other) {
      forall year, month | Active(revs, year, month) ensures ValidDate(Date(year, month, 1)) {
        if Contributors(revs, true, year, month) != {} {
          assert (year, month) in en;
        } else {
          assert (year, month) in other;
        }
      }
    }
    if forall year, month :: Active(revs, year, month) ==> ValidDate(Date(year, month, 1)) {
      forall ym | ym in en ensures ValidDate(Date(ym.0, ym.1, 1)) {
        assert Active(revs, ym.0, ym.1);
      }
      forall ym | ym in other ensures ValidDate(Date(ym.0, ym.1, 1)) {
        assert Active(revs, ym.0, ym.1);
      }
    }
  }

  lemma KbLabelled(enRows: seq<Row>, otherRows: seq<Row>, en: Tally, other: Tally)
    requires ListsTally(enRows, en) && ListsTally(otherRows, other)
    ensures Labelled(KbSeries(enRows, otherRows), [en, other])
  {
    var series, tallies := KbSeries(enRows, otherRows), [en, other];
    assert series[0].name == "en_us" && series[1].name == "non_en_us";
    forall k | 0 <= k < 2 ensures ListsTally(series[k].rows, tallies[k]) && series[k].name != DateLabel {
      if k == 0 {
        assert series[k].rows == enRows && tallies[k] == en;
      } else {
        assert series[k].rows == otherRows && tallies[k] == other;
      }
    }
  }

  lemma KbOutcome(revs: seq<Revision>, enRows: seq<Row>, otherRows: seq<Row>, en: Tally, other: Tally)
    requires ListsTally(enRows, en) && ListsTally(otherRows, other)
    requires GroupTally(en, revs, true) && GroupTally(other, revs, false)
    ensures MergeResults(KbSeries(enRows, otherRows)).Ok? <==>
      forall year, month :: Active(revs, year, month) ==> ValidDate(Date(year, month, 1))
    ensures MergeResults(KbSeries(enRows, otherRows)).Err? ==> MergeResults(KbSeries(enRows, otherRows)).error == ValueError
  {
    var series, tallies := KbSeries(enRows, otherRows), [en, other];
    KbLabelled(enRows, otherRows, en, other);
    TalliesMerge(series, tallies);
    if InCalendar(en) && InCalendar(other) {
      forall k | 0 <= k < 2 ensures InCalendar(tallies[k]) {
        if k == 0 {
          assert tallies[k] == en;
        } else {
          assert tallies[k] == other;
        }
      }
    } else {
      assert !InCalendar(tallies[0]) || !InCalendar(tallies[1]);
    }
    KbInCalendar(revs, en, other);
  }

  lemma KbRecords(revs: seq<Revision>, enRows: seq<Row>, otherRows: seq<Row>, en: Tally, other: Tally)
    requires ListsTally(enRows, en) && ListsTally(otherRows, other)
    requires GroupTally(en, revs, true) && GroupTally(other, revs, false)
    requires MergeResults(KbSeries(enRows, otherRows)).Ok?
    ensures var recs := MergeResults(KbSeries(enRows, otherRows)).value;
      forall i :: 0 <= i < |recs| ==>
        recs[i].date.day == 1 &&
        Field(recs[i], "en_us") == |Contributors(revs, true, recs[i].date.year, recs[i].date.month)| &&
        Field(recs[i], "non_en_us") == |Contributors(revs, false, recs[i].date.year, recs[i].date.month)|
    ensures var recs := MergeResults(KbSeries(enRows, otherRows)).value;
      forall i, j :: 0 <= i < j < |recs| ==> Before(recs[j].date, recs[i].date)
  {
    var series := KbSeries(enRows, otherRows);
    KbLabelled(enRows, otherRows, en, other);
    TalliesMerge(series, [en, other]);
    var recs := MergeResults(series).value;
    forall i | 0 <= i < |recs|
      ensures Field(recs[i], "en_us") == |Contributors(revs, true, recs[i].date.year, recs[i].date.month)|
      ensures Field(recs[i], "non_en_us") == |Contributors(revs, false, recs[i].date.year, recs[i].date.month)|
    {
      assert series[0].name == "en_us" && series[1].name == "non_en_us";
      assert [en, other][0] == en && [en, other][1] == other;
    }
  }

  lemma KbCoverage(revs: seq<Revision>, enRows: seq<Row>, otherRows: seq<Row>, en: Tally, other: Tally)
    requires ListsTally(enRows, en) && ListsTally(otherRows, other)
    requires GroupTally(en, revs, true) && GroupTally(other, revs, false)
    requires MergeResults(KbSeries(enRows, otherRows)).Ok?
    ensures forall year, month :: HasRecordOn(MergeResults(KbSeries(enRows, otherRows)).value, Date(year, month, 1)) <==>
      Active(revs, year, month)
  {
    var series := KbSeries(enRows, otherRows);
    KbLabelled(enRows, otherRows, en, other);
    TalliesMerge(series, [en, other]);
    forall year, month ensures HasRecordOn(MergeResults(series).value, Date(year, month, 1)) <==> Active(revs, year, month) {
      assert (exists k :: 0 <= k < 2 && (year, month) in [en, other][k]) <==> (year, month) in en || (year, month) in other by {
        if (year, month) in en {
          assert (year, month) in [en, other][0];
        }
        if (year, month) in other {
          assert (year, month) in [en, other][1];
        }
      }
    }
  }

  /** ActiveKbContributorsResource.get_object_list: the en-US and non-en-US tallies merged
      under the names en_us and non_en_us. */
  method ActiveKbContributors(revs: seq<Revision>) returns (r: Result<seq<MergedRecord>>)
    ensures r.Ok? <==> forall year, month :: Active(revs, year, month) ==> ValidDate(Date(year, month, 1))
    ensures r.Err? ==> r.error == ValueError
    ensures r.Ok? ==> forall i :: 0 <= i < |r.value| ==>
      r.value[i].date.day == 1 &&
      Field(r.value[i], "en_us") == |Contributors(revs, true, r.value[i].date.year, r.value[i].date.month)| &&
      Field(r.value[i], "non_en_us") == |Contributors(revs, false, r.value[i].date.year, r.value[i].date.month)|
    ensures r.Ok? ==> forall year, month :: HasRecordOn(r.value, Date(year, month, 1)) <==> Active(revs, year, month)
    ensures r.Ok? ==> forall i, j :: 0 <= i < j < |r.value| ==> Before(r.value[j].date, r.value[i].date)
  {
    var enRows, en := LocaleTally(revs, true);
    var otherRows, other := LocaleTally(revs, false);
    r := MergeResults(KbSeries(enRows, otherRows));
    KbOutcome(revs, enRows, otherRows, en, other);
    if r.Ok? {
      KbRecords(revs, enRows, otherRows, en, other);
      KbCoverage(revs, enRows, otherRows, en, other);
    }
  }

  /** Each revision goes to exactly one of the two groups, so together they count every
      contributor of the month, whatever the locale. */
  lemma LocalePartition(revs: seq<Revision>, year: int, month: int)
    ensures Contributors(revs, true, year, month) + Contributors(revs, false, year, month) ==
      (set i | 0 <= i < |revs| && revs[i].year == year && revs[i].month == month && Truthy(revs[i].creator) :: revs[i].creator.value) +
      (set i | 0 <= i < |revs| && revs[i].year == year && revs[i].month == month && Truthy(revs[i].reviewer) :: revs[i].reviewer.value)
  {
    var all := (set i | 0 <= i < |revs| && revs[i].year == year && revs[i].month == month && Truthy(revs[i].creator) :: revs[i].creator.value) +
      (set i | 0 <= i < |revs| && revs[i].year == year && revs[i].month == month && Truthy(revs[i].reviewer) :: revs[i].reviewer.value);
    forall u | u in all ensures u in Contributors(revs, true, year, month) + Contributors(revs, false, year, month) {
      if i :| 0 <= i < |revs| && revs[i].year == year && revs[i].month == month && Truthy(revs[i].creator) && revs[i].creator.value == u {
        assert InLocale(revs[i], true) || InLocale(revs[i], false);
      } else {
        var i :| 0 <= i < |revs| && revs[i].year == year && revs[i].month == month && Truthy(revs[i].reviewer) && revs[i].reviewer.value == u;
        assert InLocale(revs[i], true) || InLocale(revs[i], false);
      }
    }
  }

  /** Revision r belongs to the locale group and gives the row x. */
  predicate Gives(r: Revision, en: bool, reviewer: bool, x: UserRow) {
    InLocale(r, en) && RevisionRow(r, reviewer) == x
  }

  /** The positions of the revisions of one locale group whose row is x. */
  ghost function RowPositions(revs: seq<Revision>, en: bool, reviewer: bool, x: UserRow): set<int> {
    set i | 0 <= i < |revs| && Gives(revs[i], en, reviewer, x)
  }

  /** Dropping the last revision drops its position, if it had one. */
  lemma RowPositionsStep(revs: seq<Revision>, en: bool, reviewer: bool, x: UserRow)
    requires revs != []
    ensures |RowPositions(revs, en, reviewer, x)| ==
      |RowPositions(revs[..|revs| - 1], en, reviewer, x)| + (if Gives(revs[|revs| - 1], en, reviewer, x) then 1 else 0)
  {
    var k := |revs| - 1;
    var before := RowPositions(revs[..k], en, reviewer, x);
    var last: set<int> := if Gives(revs[k], en, reviewer, x) then {k} else {};
    RowPositionsSplit(revs, en, reviewer, x);
    assert before * last == {};
  }

  lemma RowPositionsSplit(revs: seq<Revision>, en: bool, reviewer: bool, x: UserRow)
    requires revs != []
    ensures RowPositions(revs, en, reviewer, x) ==
      RowPositions(revs[..|revs| - 1], en, reviewer, x) + (if Gives(revs[|revs| - 1], en, reviewer, x) then {|revs| - 1} else {})
  {
    var k := |revs| - 1;
    var front := revs[..k];
    assert forall i :: 0 <= i < k ==> front[i] == revs[i];
  }

  /** Each revision's row lands in the row list of its own locale group, once: the number of
      times a row appears in a group's list is the number of that group's revisions giving it,
      for creators and reviewers alike, and no row is lost or added between the two groups. */
  lemma {:induction false} LocaleRowsSplit(revs: seq<Revision>, x: UserRow)
    ensures forall en, reviewer :: multiset(UserRows(revs, en, reviewer))[x] == |RowPositions(revs, en, reviewer, x)|
    ensures forall reviewer :: |UserRows(revs, true, reviewer)| + |UserRows(revs, false, reviewer)| == |revs|
  {
    forall en, reviewer ensures multiset(UserRows(revs, en, reviewer))[x] == |RowPositions(revs, en, reviewer, x)| {
      UserRowsCount(revs, en, reviewer, x);
    }
    forall reviewer ensures |UserRows(revs, true, reviewer)| + |UserRows(revs, false, reviewer)| == |revs| {
      LocaleRowsLength(revs, reviewer);
    }
  }

  lemma {:induction false} UserRowsCount(revs: seq<Revision>, en: bool, reviewer: bool, x: UserRow)
    ensures multiset(UserRows(revs, en, reviewer))[x] == |RowPositions(revs, en, reviewer, x)|
  {
    if revs == [] {
      assert RowPositions(revs, en, reviewer, x) == {};
    } else {
      UserRowsCount(revs[..|revs| - 1], en, reviewer, x);
      RowPositionsStep(revs, en, reviewer, x);
    }
  }

  lemma {:induction false} LocaleRowsLength(revs: seq<Revision>, reviewer: bool)
    ensures |UserRows(revs, true, reviewer)| + |UserRows(revs, false, reviewer)| == |revs|
  {
    if revs != [] {
      LocaleRowsLength(revs[..|revs| - 1], reviewer);
    }
  }

  /** A user who both wrote and reviewed in a month is one contributor, not two. */
  lemma CountedOnce()
    ensures |Contributors([Revision(2021, 1, Some(7), Some(7), EnUs)], true, 2021, 1)| == 1
  {
    var revs := [Revision(2021, 1, Some(7), Some(7), EnUs)];
    var creators := set i | 0 <= i < |revs| && InLocale(revs[i], true) && revs[i].year == 2021 && revs[i].month == 1 && Truthy(revs[i].creator) :: revs[i].creator.value;
    var reviewers := set i | 0 <= i < |revs| && InLocale(revs[i], true) && revs[i].year == 2021 && revs[i].month == 1 && Truthy(revs[i].reviewer) :: revs[i].reviewer.value;
    assert creators == {7} by {
      assert revs[0].creator.value == 7;
    }
    assert reviewers == {7} by {
      assert revs[0].reviewer.value == 7;
    }
  }

  // ---------------------------------------------------------------------------
  // ActiveAnswerersResource.

  /** One answer: the month it was created in and its creator. */
  datatype Answer = Answer(year: int, month: int, creator: Option<int>)

  /** Definition of contribution: wrote 10+ posts. */
  const MinAnswers: nat := 10

  /** annotate(count=Count('creator')) over the group of a: the answers with the same year,
      month and creator; COUNT skips NULL, so a group without a creator counts 0. */
  function GroupCount(answers: seq<Answer>, a: Answer): nat {
    if a.creator.None? then 0 else |set i | 0 <= i < |answers| && answers[i] == a|
  }

  /** The answers whose group passes filter(count__gte=threshold), as rows for _add_user. */
  function AnswererRows(answers: seq<Answer>, threshold: nat): seq<UserRow> {
    PassingRows(answers, answers, threshold)
  }

  function PassingRows(all: seq<Answer>, answers: seq<Answer>, threshold: nat): seq<UserRow> {
    if answers == [] then []
    else
      var last := answers[|answers| - 1];
      PassingRows(all, answers[..|answers| - 1], threshold) +
        (if GroupCount(all, last) >= threshold then [UserRow(last.year, last.month, last.creator)] else [])
  }

  /** The active answerers of a month: the truthy creators with at least threshold answers
      in it, stated without the grouping. */
  function Answerers(answers: seq<Answer>, year: int, month: int, threshold: nat): set<int> {
    set i | 0 <= i < |answers| && answers[i].year == year && answers[i].month == month && Truthy(answers[i].creator)
        && GroupCount(answers, answers[i]) >= threshold :: answers[i].creator.value
  }

  /** A user is an active answerer exactly when their id is not 0 and they wrote at least
      threshold answers that month. */
  lemma AnswererIff(answers: seq<Answer>, year: int, month: int, threshold: nat, u: int)
    requires threshold >= 1
    ensures u in Answerers(answers, year, month, threshold) <==>
      u != 0 && GroupCount(answers, Answer(year, month, Some(u))) >= threshold
  {
    var a := Answer(year, month, Some(u));
    if u != 0 && GroupCount(answers, a) >= threshold {
      var group := set i | 0 <= i < |answers| && answers[i] == a;
      assert group != {};
      var i :| i in group;
      assert answers[i] == a;
    }
  }

  /** Raising the threshold only drops answerers. */
  lemma ThresholdMonotone(answers: seq<Answer>, year: int, month: int, low: nat, high: nat)
    requires low <= high
    ensures Answerers(answers, year, month, high) <= Answerers(answers, year, month, low)
    ensures |Answerers(answers, year, month, high)| <= |Answerers(answers, year, month, low)|
  {
    SubsetSize(Answerers(answers, year, month, high), Answerers(answers, year, month, low));
  }

  lemma SubsetSize(a: set<int>, b: set<int>)
    requires a <= b
    ensures |a| <= |b|
  {
    assert b == a + (b - a);
  }

  lemma {:induction false} PassingRowsSpec(all: seq<Answer>, answers: seq<Answer>, threshold: nat, year: int, month: int)
    ensures UsersIn(PassingRows(all, answers, threshold), year, month) ==
      set i | 0 <= i < |answers| && answers[i].year == year && answers[i].month == month && Truthy(answers[i].creator)
        && GroupCount(all, answers[i]) >= threshold :: answers[i].creator.value
  {
    if answers != [] {
      var front, last := answers[..|answers| - 1], answers[|answers| - 1];
      PassingRowsSpec(all, front, threshold, year, month);
      var extra := if GroupCount(all, last) >= threshold then [UserRow(last.year, last.month, last.creator)] else [];
      var rows := PassingRows(all, answers, threshold);
      UsersInAppend(PassingRows(all, front, threshold), extra, year, month);
      var want := set i | 0 <= i < |answers| && answers[i].year == year && answers[i].month == month && Truthy(answers[i].creator)
        && GroupCount(all, answers[i]) >= threshold :: answers[i].creator.value;
      forall u | u in want ensures u in UsersIn(rows, year, month) {
        var i :| 0 <= i < |answers| && answers[i].year == year && answers[i].month == month && Truthy(answers[i].creator)
          && GroupCount(all, answers[i]) >= threshold && answers[i].creator.value == u;
        if i < |answers| - 1 {
          assert front[i] == answers[i];
        } else {
          assert CountsIn(extra[0], year, month);
        }
      }
      forall u | u in UsersIn(rows, year, month) ensures u in want {
        if u !in UsersIn(PassingRows(all, front, threshold), year, month) {
          var i :| 0 <= i < |extra| && CountsIn(extra[i], year, month) && extra[i].user.value == u;
          assert answers[|answers| - 1] == last;
        } else {
          var i :| 0 <= i < |front| && front[i].year == year && front[i].month == month && Truthy(front[i].creator)
            && GroupCount(all, front[i]) >= threshold && front[i].creator.value == u;
          assert answers[i] == front[i];
        }
      }
    }
  }

  /** t is the tally of the active answerers of answers. */
  ghost predicate AnswererTally(t: Tally, answers: seq<Answer>) {
    (forall year, month :: Users(t, year, month) == Answerers(answers, year, month, MinAnswers)) &&
    (forall ym :: ym in t <==> Answerers(answers, ym.0, ym.1, MinAnswers) != {})
  }

  /** d = {}; for a in answerers: _add_user(d, a['year'], a['month'], a['creator']); then the
      rows read off d. */
  method AnswererTallyRows(answers: seq<Answer>) returns (rows: seq<Row>, ghost t: Tally)
    ensures ListsTally(rows, t) && AnswererTally(t, answers)
  {
    var d := new MonthlyUsers();
    var passing := AnswererRows(answers, MinAnswers);
    d.AddUsers(passing);
    t := d.tally;
    rows := d.Rows();
    forall year, month ensures Users(t, year, month) == Answerers(answers, year, month, MinAnswers)
      && ((year, month) in t <==> Answerers(answers, year, month, MinAnswers) != {})
    {
      TallyOf(passing, year, month);
      PassingRowsSpec(answers, answers, MinAnswers, year, month);
    }
    forall ym ensures ym in t <==> Answerers(answers, ym.0, ym.1, MinAnswers) != {} {
      assert (ym.0, ym.1) == ym;
    }
  }

  lemma AnswerersOutcome(answers: seq<Answer>, rows: seq<Row>, t: Tally)
    requires ListsTally(rows, t) && AnswererTally(t, answers)
    ensures MergeResults([Series("contributors", rows)]).Ok? <==>
      forall year, month :: Answerers(answers, year, month, MinAnswers) != {} ==> ValidDate(Date(year, month, 1))
    ensures MergeResults([Series("contributors", rows)]).Err? ==> MergeResults([Series("contributors", rows)]).error == ValueError
  {
    TalliesMerge([Series("contributors", rows)], [t]);
    assert (forall k :: 0 <= k < 1 ==> InCalendar([t][k])) <==> InCalendar(t);
    if InCalendar(t) {
      forall year, month | Answerers(answers, year, month, MinAnswers) != {} ensures ValidDate(Date(year, month, 1)) {
        assert (year, month) in t;
      }
    }
    if forall year, month :: Answerers(answers, year, month, MinAnswers) != {} ==> ValidDate(Date(year, month, 1)) {
      forall ym | ym in t ensures ValidDate(Date(ym.0, ym.1, 1)) {
        assert Answerers(answers, ym.0, ym.1, MinAnswers) != {};
      }
    }
  }

  lemma AnswerersRecords(answers: seq<Answer>, rows: seq<Row>, t: Tally)
    requires ListsTally(rows, t) && AnswererTally(t, answers)
    requires MergeResults([Series("contributors", rows)]).Ok?
    ensures var recs := MergeResults([Series("contributors", rows)]).value;
      forall i :: 0 <= i < |recs| ==>
        recs[i].date.day == 1 &&
        Field(recs[i], "contributors") == |Answerers(answers, recs[i].date.year, recs[i].date.month, MinAnswers)|
    ensures var recs := MergeResults([Series("contributors", rows)]).value;
      forall i, j :: 0 <= i < j < |recs| ==> Before(recs[j].date, recs[i].date)
    ensures var recs := MergeResults([Series("contributors", rows)]).value;
      forall year, month :: HasRecordOn(recs, Date(year, month, 1)) <==> Answerers(answers, year, month, MinAnswers) != {}
  {
    var series := [Series("contributors", rows)];
    TalliesMerge(series, [t]);
    var recs := MergeResults(series).value;
    forall i | 0 <= i < |recs|
      ensures Field(recs[i], "contributors") == |Answerers(answers, recs[i].date.year, recs[i].date.month, MinAnswers)|
    {
      assert series[0].name == "contributors" && [t][0] == t;
    }
    forall year, month ensures HasRecordOn(recs, Date(year, month, 1)) <==> Answerers(answers, year, month, MinAnswers) != {} {
      assert (exists k :: 0 <= k < 1 && (year, month) in [t][k]) <==> (year, month) in t by {
        if (year, month) in t {
          assert (year, month) in [t][0];
        }
      }
    }
  }

  /** ActiveAnswerersResource.get_object_list: the tally of active answerers merged under the
      name contributors. */
  method ActiveAnswerers(answers: seq<Answer>) returns (r: Result<seq<MergedRecord>>)
    ensures r.Ok? <==> forall year, month ::
      Answerers(answers, year, month, MinAnswers) != {} ==> ValidDate(Date(year, month, 1))
    ensures r.Err? ==> r.error == ValueError
    ensures r.Ok? ==> forall i :: 0 <= i < |r.value| ==>
      r.value[i].date.day == 1 &&
      Field(r.value[i], "contributors") == |Answerers(answers, r.value[i].date.year, r.value[i].date.month, MinAnswers)|
    ensures r.Ok? ==> forall year, month :: HasRecordOn(r.value, Date(year, month, 1)) <==>
      Answerers(answers, year, month, MinAnswers) != {}
    ensures r.Ok? ==> forall i, j :: 0 <= i < j < |r.value| ==> Before(r.value[j].date, r.value[i].date)
  {
    var rows, t := AnswererTallyRows(answers);
    r := MergeResults([Series("contributors", rows)]);
    AnswerersOutcome(answers, rows, t);
    if r.Ok? {
      AnswerersRecords(answers, rows, t);
    }
  }
}
