/** Search clickthrough ratios: the kinds that name the two halves of a ratio, the
    self-join that reads ratios back, and the paired write that stores one. */
module Clickthrough {
  import opened Wrappers
  import opened Calendar
  import opened DateParse

  /** 'search clickthroughs:%s:searches' % engine */
  function SearchesKind(engine: string): string {
    "search clickthroughs:" + engine + ":searches"
  }

  /** 'search clickthroughs:%s:clicks' % engine */
  function ClicksKind(engine: string): string {
    "search clickthroughs:" + engine + ":clicks"
  }

  /** A clicks kind is never a searches kind, whatever the two engines are: the suffixes
      differ in their second-to-last character. */
  lemma KindsNeverCollide(e1: string, e2: string)
    ensures ClicksKind(e1) != SearchesKind(e2)
  {
    var c, s := ClicksKind(e1), SearchesKind(e2);
    assert c[|c| - 2] == 'k';
    assert s[|s| - 2] == 'e';
  }

  /** Each kind names exactly one engine. */
  lemma KindsDetermineEngine(e1: string, e2: string)
    ensures SearchesKind(e1) == SearchesKind(e2) ==> e1 == e2
    ensures ClicksKind(e1) == ClicksKind(e2) ==> e1 == e2
  {
    var p := "search clickthroughs:";
    if SearchesKind(e1) == SearchesKind(e2) {
      assert SearchesKind(e1)[|p|..|p| + |e1|] == e1;
      assert SearchesKind(e2)[|p|..|p| + |e2|] == e2;
    }
    if ClicksKind(e1) == ClicksKind(e2) {
      assert ClicksKind(e1)[|p|..|p| + |e1|] == e1;
      assert ClicksKind(e2)[|p|..|p| + |e2|] == e2;
    }
  }

  /** One row of kpi_metric, with its kind given by code. */
  datatype Metric = Metric(kind: string, start: Date, end: Date, value: int)

  /** One ratio as the read returns it: Struct(start=s, clicks=n, searches=d). */
  datatype Ratio = Ratio(start: Date, clicks: int, searches: int)

  /** n.start >= min_start, when a bound is given. */
  predicate InBound(start: Date, minStart: Option<Date>) {
    minStart.None? || !Before(start, minStart.value)
  }

  /** The rows the join produces for one numerator row n: one per denominator row with
      the denominator kind and the same start. */
  function Partners(n: Metric, ds: seq<Metric>, denKind: string): seq<Ratio> {
    if ds == [] then []
    else
      var rest := Partners(n, ds[1..], denKind);
      if ds[0].kind == denKind && ds[0].start == n.start then [Ratio(n.start, n.value, ds[0].value)] + rest
      else rest
  }

  /** SELECT n.start, n.value, d.value FROM kpi_metric n INNER JOIN kpi_metric d
      ON n.start = d.start WHERE n.kind = numKind AND d.kind = denKind [AND n.start >= minStart].
      The statement has no ORDER BY, so no order of the rows is promised. */
  function RatioRows(ns: seq<Metric>, facts: seq<Metric>, numKind: string, denKind: string, minStart: Option<Date>): seq<Ratio> {
    if ns == [] then []
    else
      var rest := RatioRows(ns[1..], facts, numKind, denKind, minStart);
      if ns[0].kind == numKind && InBound(ns[0].start, minStart) then Partners(ns[0], facts, denKind) + rest
      else rest
  }

  /** SearchClickthroughResource.obj_get_list: the clicks kind is the numerator, the
      searches kind the denominator. */
  function ObjGetList(facts: seq<Metric>, engine: string, minStart: Option<Date>): seq<Ratio> {
    RatioRows(facts, facts, ClicksKind(engine), SearchesKind(engine), minStart)
  }

  /** Numerator row i of ns and denominator row j of ds share a start within the bound and
      give r: the ON and WHERE conditions of the join for one pair of rows. */
  predicate JoinMatches(ns: seq<Metric>, ds: seq<Metric>, numKind: string, denKind: string, minStart: Option<Date>, r: Ratio, i: int, j: int) {
    0 <= i < |ns| && 0 <= j < |ds| &&
    ns[i].kind == numKind && ds[j].kind == denKind &&
    ns[i].start == ds[j].start && InBound(ns[i].start, minStart) &&
    r == Ratio(ns[i].start, ns[i].value, ds[j].value)
  }

  /** r comes from a numerator row i and a denominator row j of the same table of facts. */
  predicate Joined(facts: seq<Metric>, numKind: string, denKind: string, minStart: Option<Date>, r: Ratio, i: int, j: int) {
    JoinMatches(facts, facts, numKind, denKind, minStart, r, i, j)
  }

  /** The pairs of rows, the numerator's position at least lo, that the join turns into r;
      an inner join yields one row per such pair. */
  ghost function RowPairs(ns: seq<Metric>, ds: seq<Metric>, numKind: string, denKind: string, minStart: Option<Date>, r: Ratio, lo: int): set<(int, int)> {
    set i, j | lo <= i < |ns| && 0 <= j < |ds| && JoinMatches(ns, ds, numKind, denKind, minStart, r, i, j) :: (i, j)
  }

  /** The pairs of numerator row i with a denominator row at position lo or later that give r. */
  ghost function PartnerPairs(ns: seq<Metric>, ds: seq<Metric>, numKind: string, denKind: string, minStart: Option<Date>, r: Ratio, i: int, lo: int): set<(int, int)> {
    set j | lo <= j < |ds| && JoinMatches(ns, ds, numKind, denKind, minStart, r, i, j) :: (i, j)
  }

  /** Partners yields r once for every denominator row that pairs with the numerator row. */
  lemma {:induction false} PartnersCount(ns: seq<Metric>, ds: seq<Metric>, numKind: string, denKind: string, minStart: Option<Date>, r: Ratio, i: int, lo: int)
    requires 0 <= i < |ns| && ns[i].kind == numKind && InBound(ns[i].start, minStart)
    requires 0 <= lo <= |ds|
    ensures multiset(Partners(ns[i], ds[lo..], denKind))[r] == |PartnerPairs(ns, ds, numKind, denKind, minStart, r, i, lo)|
    decreases |ds| - lo
  {
    if lo == |ds| {
      assert ds[lo..] == [];
      PartnerPairsEmpty(ns, ds, numKind, denKind, minStart, r, i);
    } else {
      PartnersCount(ns, ds, numKind, denKind, minStart, r, i, lo + 1);
      PartnerPairsStep(ns, ds, numKind, denKind, minStart, r, i, lo);
      var n := ns[i];
      var rest := Partners(n, ds[lo + 1..], denKind);
      assert ds[lo..][0] == ds[lo] && ds[lo..][1..] == ds[lo + 1..];
      if ds[lo].kind == denKind && ds[lo].start == n.start {
        assert Partners(n, ds[lo..], denKind) == [Ratio(n.start, n.value, ds[lo].value)] + rest;
      } else {
        assert Partners(n, ds[lo..], denKind) == rest;
      }
    }
  }

  lemma PartnerPairsEmpty(ns: seq<Metric>, ds: seq<Metric>, numKind: string, denKind: string, minStart: Option<Date>, r: Ratio, i: int)
    ensures PartnerPairs(ns, ds, numKind, denKind, minStart, r, i, |ds|) == {}
  {
  }

  /** Peeling off the denominator row at lo adds at most that one pair. */
  lemma PartnerPairsStep(ns: seq<Metric>, ds: seq<Metric>, numKind: string, denKind: string, minStart: Option<Date>, r: Ratio, i: int, lo: int)
    requires 0 <= lo < |ds|
    ensures |PartnerPairs(ns, ds, numKind, denKind, minStart, r, i, lo)| ==
      |PartnerPairs(ns, ds, numKind, denKind, minStart, r, i, lo + 1)| + (if JoinMatches(ns, ds, numKind, denKind, minStart, r, i, lo) then 1 else 0)
  {
    var here := PartnerPairs(ns, ds, numKind, denKind, minStart, r, i, lo);
    var later := PartnerPairs(ns, ds, numKind, denKind, minStart, r, i, lo + 1);
    var first := if JoinMatches(ns, ds, numKind, denKind, minStart, r, i, lo) then {(i, lo)} else {};
    forall p | p in here ensures p in later + first {
      var j :| lo <= j < |ds| && JoinMatches(ns, ds, numKind, denKind, minStart, r, i, j) && p == (i, j);
    }
    forall p | p in later + first ensures p in here {
      if p in later {
        var j :| lo + 1 <= j < |ds| && JoinMatches(ns, ds, numKind, denKind, minStart, r, i, j) && p == (i, j);
      }
    }
    assert here == later + first;
    assert (i, lo) !in later;
  }

  /** RatioRows yields r once for every pair of rows that the join turns into r. */
  lemma {:induction false} RowsCount(ns: seq<Metric>, ds: seq<Metric>, numKind: string, denKind: string, minStart: Option<Date>, r: Ratio, lo: int)
    requires 0 <= lo <= |ns|
    ensures multiset(RatioRows(ns[lo..], ds, numKind, denKind, minStart))[r] == |RowPairs(ns, ds, numKind, denKind, minStart, r, lo)|
    decreases |ns| - lo
  {
    if lo == |ns| {
      assert ns[lo..] == [];
      assert RowPairs(ns, ds, numKind, denKind, minStart, r, lo) == {};
    } else {
      RowsCount(ns, ds, numKind, denKind, minStart, r, lo + 1);
      RowPairsStep(ns, ds, numKind, denKind, minStart, r, lo);
      var rest := RatioRows(ns[lo + 1..], ds, numKind, denKind, minStart);
      assert ns[lo..][0] == ns[lo] && ns[lo..][1..] == ns[lo + 1..];
      if ns[lo].kind == numKind && InBound(ns[lo].start, minStart) {
        PartnersCount(ns, ds, numKind, denKind, minStart, r, lo, 0);
        assert ds[0..] == ds;
        assert RatioRows(ns[lo..], ds, numKind, denKind, minStart) == Partners(ns[lo], ds, denKind) + rest;
      } else {
        assert RatioRows(ns[lo..], ds, numKind, denKind, minStart) == rest;
        assert forall j :: !JoinMatches(ns, ds, numKind, denKind, minStart, r, lo, j);
        assert PartnerPairs(ns, ds, numKind, denKind, minStart, r, lo, 0) == {};
      }
    }
  }

  /** Peeling off the numerator row at lo removes exactly that row's pairs. */
  lemma RowPairsStep(ns: seq<Metric>, ds: seq<Metric>, numKind: string, denKind: string, minStart: Option<Date>, r: Ratio, lo: int)
    requires 0 <= lo < |ns|
    ensures |RowPairs(ns, ds, numKind, denKind, minStart, r, lo)| ==
      |PartnerPairs(ns, ds, numKind, denKind, minStart, r, lo, 0)| + |RowPairs(ns, ds, numKind, denKind, minStart, r, lo + 1)|
  {
    var here := RowPairs(ns, ds, numKind, denKind, minStart, r, lo);
    var first := PartnerPairs(ns, ds, numKind, denKind, minStart, r, lo, 0);
    var later := RowPairs(ns, ds, numKind, denKind, minStart, r, lo + 1);
    forall p | p in here ensures p in first + later {
      var i, j :| lo <= i < |ns| && 0 <= j < |ds| && JoinMatches(ns, ds, numKind, denKind, minStart, r, i, j) && p == (i, j);
      if i > lo {
        assert p in later;
      }
    }
    forall p | p in first + later ensures p in here {
      if p in first {
        var j :| 0 <= j < |ds| && JoinMatches(ns, ds, numKind, denKind, minStart, r, lo, j) && p == (lo, j);
      } else {
        var i, j :| lo + 1 <= i < |ns| && 0 <= j < |ds| && JoinMatches(ns, ds, numKind, denKind, minStart, r, i, j) && p == (i, j);
      }
    }
    assert here == first + later;
    forall p | p in first ensures p !in later {
      var j :| 0 <= j < |ds| && JoinMatches(ns, ds, numKind, denKind, minStart, r, lo, j) && p == (lo, j);
    }
    assert first * later == {};
  }

  lemma {:induction false} PartnersSpec(n: Metric, ds: seq<Metric>, denKind: string, r: Ratio)
    ensures r in Partners(n, ds, denKind) <==>
      exists j :: 0 <= j < |ds| && ds[j].kind == denKind && ds[j].start == n.start && r == Ratio(n.start, n.value, ds[j].value)
  {
    if ds != [] {
      PartnersSpec(n, ds[1..], denKind, r);
      if r in Partners(n, ds[1..], denKind) {
        var j :| 0 <= j < |ds[1..]| && ds[1..][j].kind == denKind && ds[1..][j].start == n.start && r == Ratio(n.start, n.value, ds[1..][j].value);
        assert ds[j + 1] == ds[1..][j];
      }
      forall j | 1 <= j < |ds| ensures ds[j] == ds[1..][j - 1] {
      }
    }
  }

  lemma {:induction false} RatioRowsSpec(ns: seq<Metric>, facts: seq<Metric>, numKind: string, denKind: string, minStart: Option<Date>, r: Ratio)
    ensures r in RatioRows(ns, facts, numKind, denKind, minStart) <==>
      exists i, j :: 0 <= i < |ns| && 0 <= j < |facts| && ns[i].kind == numKind && facts[j].kind == denKind &&
        ns[i].start == facts[j].start && InBound(ns[i].start, minStart) && r == Ratio(ns[i].start, ns[i].value, facts[j].value)
    ensures multiset(RatioRows(ns, facts, numKind, denKind, minStart))[r] == |RowPairs(ns, facts, numKind, denKind, minStart, r, 0)|
  {
    RowsCount(ns, facts, numKind, denKind, minStart, r, 0);
    assert ns[0..] == ns;
    if ns != [] {
      var tail := ns[1..];
      RatioRowsSpec(tail, facts, numKind, denKind, minStart, r);
      PartnersSpec(ns[0], facts, denKind, r);
      if r in RatioRows(ns, facts, numKind, denKind, minStart) {
        if ns[0].kind == numKind && InBound(ns[0].start, minStart) && r in Partners(ns[0], facts, denKind) {
          var j :| 0 <= j < |facts| && facts[j].kind == denKind && facts[j].start == ns[0].start && r == Ratio(ns[0].start, ns[0].value, facts[j].value);
          assert 0 <= 0 < |ns| && ns[0].kind == numKind;
        } else {
          assert r in RatioRows(tail, facts, numKind, denKind, minStart);
          var i, j :| 0 <= i < |tail| && 0 <= j < |facts| && tail[i].kind == numKind && facts[j].kind == denKind &&
            tail[i].start == facts[j].start && InBound(tail[i].start, minStart) && r == Ratio(tail[i].start, tail[i].value, facts[j].value);
          assert ns[i + 1] == tail[i];
        }
      }
      if exists i, j :: (0 <= i < |ns| && 0 <= j < |facts| && ns[i].kind == numKind && facts[j].kind == denKind &&
        ns[i].start == facts[j].start && InBound(ns[i].start, minStart) && r == Ratio(ns[i].start, ns[i].value, facts[j].value))
      {
        var i, j :| 0 <= i < |ns| && 0 <= j < |facts| && ns[i].kind == numKind && facts[j].kind == denKind &&
          ns[i].start == facts[j].start && InBound(ns[i].start, minStart) && r == Ratio(ns[i].start, ns[i].value, facts[j].value);
        if i == 0 {
          assert r in Partners(ns[0], facts, denKind);
        } else {
          assert tail[i - 1] == ns[i];
          assert r in RatioRows(tail, facts, numKind, denKind, minStart);
        }
      }
    }
  }

  /** The join returns exactly the pairs of a numerator fact and a denominator fact with
      equal starts, the numerator's start within the bound, each pair as one row: duplicated
      facts give duplicated ratios. */
  lemma JoinSpec(facts: seq<Metric>, numKind: string, denKind: string, minStart: Option<Date>, r: Ratio)
    ensures r in RatioRows(facts, facts, numKind, denKind, minStart) <==>
      exists i, j :: Joined(facts, numKind, denKind, minStart, r, i, j)
    ensures multiset(RatioRows(facts, facts, numKind, denKind, minStart))[r] ==
      |set i, j | 0 <= i < |facts| && 0 <= j < |facts| && Joined(facts, numKind, denKind, minStart, r, i, j) :: (i, j)|
  {
    assert (set i, j | 0 <= i < |facts| && 0 <= j < |facts| && Joined(facts, numKind, denKind, minStart, r, i, j) :: (i, j)) ==
      RowPairs(facts, facts, numKind, denKind, minStart, r, 0);
    RatioRowsSpec(facts, facts, numKind, denKind, minStart, r);
    if r in RatioRows(facts, facts, numKind, denKind, minStart) {
      var i, j :| 0 <= i < |facts| && 0 <= j < |facts| && facts[i].kind == numKind && facts[j].kind == denKind &&
        facts[i].start == facts[j].start && InBound(facts[i].start, minStart) && r == Ratio(facts[i].start, facts[i].value, facts[j].value);
      assert Joined(facts, numKind, denKind, minStart, r, i, j);
    }
  }

  /** A start has a ratio exactly when both halves are present for it, so half a ratio is
      never returned; with a bound every returned start is at or after it. */
  lemma JoinExclusivity(facts: seq<Metric>, numKind: string, denKind: string, minStart: Option<Date>, s: Date)
    ensures (exists r :: r in RatioRows(facts, facts, numKind, denKind, minStart) && r.start == s) <==>
      InBound(s, minStart) &&
      (exists i :: 0 <= i < |facts| && facts[i].kind == numKind && facts[i].start == s) &&
      (exists j :: 0 <= j < |facts| && facts[j].kind == denKind && facts[j].start == s)
    ensures forall r :: r in RatioRows(facts, facts, numKind, denKind, minStart) ==> InBound(r.start, minStart)
  {
    forall r | r in RatioRows(facts, facts, numKind, denKind, minStart) ensures InBound(r.start, minStart) {
      JoinSpec(facts, numKind, denKind, minStart, r);
    }
    if InBound(s, minStart) &&
      (exists i :: 0 <= i < |facts| && facts[i].kind == numKind && facts[i].start == s) &&
      (exists j :: 0 <= j < |facts| && facts[j].kind == denKind && facts[j].start == s)
    {
      var i :| 0 <= i < |facts| && facts[i].kind == numKind && facts[i].start == s;
      var j :| 0 <= j < |facts| && facts[j].kind == denKind && facts[j].start == s;
      var r := Ratio(s, facts[i].value, facts[j].value);
      assert Joined(facts, numKind, denKind, minStart, r, i, j);
      JoinSpec(facts, numKind, denKind, minStart, r);
    }
    if r :| r in RatioRows(facts, facts, numKind, denKind, minStart) && r.start == s {
      JoinSpec(facts, numKind, denKind, minStart, r);
      var i, j :| Joined(facts, numKind, denKind, minStart, r, i, j);
    }
  }

  /** A bound only removes ratios: the bounded read is part of the unbounded one. */
  lemma BoundOnlyFilters(facts: seq<Metric>, numKind: string, denKind: string, m: Date, r: Ratio)
    requires r in RatioRows(facts, facts, numKind, denKind, Some(m))
    ensures r in RatioRows(facts, facts, numKind, denKind, None)
  {
    JoinSpec(facts, numKind, denKind, Some(m), r);
    JoinSpec(facts, numKind, denKind, None, r);
    var i, j :| Joined(facts, numKind, denKind, Some(m), r, i, j);
    assert Joined(facts, numKind, denKind, None, r, i, j);
  }

  /** What min_start holds once obj_get_list has read the query string. */
  datatype MinStart = NoBound | Raw(text: string) | Parsed(date: Date)

  /** The min_start handling as written: `_parse_date()` is called with no argument, which
      raises TypeError on every call; the except clause swallows it, so a non-empty
      min_start is never parsed and stays the raw query text. */
  function MinStartAsWritten(query: Option<string>): (m: MinStart)
    ensures !m.Parsed?
    ensures query.Some? && query.value != "" <==> m.Raw?
    ensures m.Raw? ==> m.text == query.value
  {
    if query.None? || query.value == "" then NoBound else Raw(query.value)
  }

  /** The min_start handling as evidently intended ("make min_start either a date or None"):
      a date when the text parses to one, no bound otherwise. */
  function MinStartIntended(query: Option<string>): (m: Option<Date>)
    ensures m.Some? <==> query.Some? && ParseDate(query.value).Ok? && DateFromFields(ParseDate(query.value).value).Ok?
    ensures m.Some? ==> ValidDate(m.value) && ParseDate(query.value) == Ok([m.value.year, m.value.month, m.value.day])
  {
    assert ParseDate("").Err? by {
      assert Split("", '-') == [[]];
    }
    if query.None? || query.value == "" then None
    else
      match ParseDate(query.value)
      case Err(_) => None
      case Ok(fields) =>
        match DateFromFields(fields)
        case Err(_) => None
        case Ok(d) => Some(d)
  }

  /** A min_start written as YYYY-MM-DD is the bound it names once parsed as intended, while
      the code as written keeps it as text. */
  lemma MinStartRoundTrip(d: Date)
    requires ValidDate(d)
    ensures MinStartIntended(Some(IsoFormat(d))) == Some(d)
    ensures MinStartAsWritten(Some(IsoFormat(d))) == Raw(IsoFormat(d))
  {
    ParseIsoFormat(d);
  }

  /** Any text that parses to the fields of a date is that date as a bound, zero-padded or not. */
  lemma MinStartOfFields(text: string, d: Date)
    requires ValidDate(d) && ParseDate(text) == Ok([d.year, d.month, d.day])
    ensures MinStartIntended(Some(text)) == Some(d)
  {
  }

  lemma MinStartOfNumerals(a: string, b: string, c: string, d: Date)
    requires IsNumeral(a) && IsNumeral(b) && IsNumeral(c) && ValidDate(d)
    requires DecimalValue(a) == d.year && DecimalValue(b) == d.month && DecimalValue(c) == d.day
    ensures MinStartIntended(Some(a + "-" + b + "-" + c)) == Some(d)
  {
    ParseThreePieces(a, b, c);
    MinStartOfFields(a + "-" + b + "-" + c, d);
  }

  /** "2001-7-30" is such a text: int() reads "7" as 7 just as it reads "07". */
  lemma MinStartUnpadded()
    ensures MinStartIntended(Some("2001-7-30")) == Some(Date(2001, 7, 30))
  {
    var y, m, d := "2001", "7", "30";
    assert IsNumeral(y) && IsNumeral(m) && IsNumeral(d);
    assert DecimalValue(y) == 2001 by {
      assert y[..3] == "200" && "200"[..2] == "20" && "20"[..1] == "2" && "2"[..0] == "";
    }
    assert DecimalValue(d) == 30 by {
      assert d[..1] == "3" && "3"[..0] == "";
    }
    assert DecimalValue(m) == 7 by {
      assert m[..0] == "";
    }
    MinStartOfNumerals(y, m, d, Date(2001, 7, 30));
    assert y + "-" + m + "-" + d == "2001-7-30";
  }

  /** The docstring's own example, "2001-07-30", never becomes a date as written. */
  lemma MinStartExample()
    ensures MinStartAsWritten(Some("2001-07-30")) == Raw("2001-07-30")
    ensures MinStartIntended(Some("2001-07-30")) == Some(Date(2001, 7, 30))
  {
    var d := Date(2001, 7, 30);
    MinStartRoundTrip(d);
    assert IsoFormat(d) == "2001-07-30";
  }

  /** The ratios a GET returns, with min_start read as intended. */
  function ReadRatios(facts: seq<Metric>, engine: string, query: Option<string>): (rs: seq<Ratio>)
    ensures forall r :: r in rs <==> r in ObjGetList(facts, engine, None) && InBound(r.start, MinStartIntended(query))
    ensures forall r :: (multiset(rs)[r] ==
      if InBound(r.start, MinStartIntended(query)) then multiset(ObjGetList(facts, engine, None))[r] else 0)
  {
    var bound := MinStartIntended(query);
    var rs := ObjGetList(facts, engine, bound);
    forall r ensures multiset(rs)[r] == if InBound(r.start, bound) then multiset(ObjGetList(facts, engine, None))[r] else 0 {
      BoundedCount(facts, ClicksKind(engine), SearchesKind(engine), bound, r);
    }
    rs
  }

  /** The bounded join is the unbounded one with the ratios before the bound taken out,
      each remaining ratio as many times as before. */
  lemma BoundedCount(facts: seq<Metric>, numKind: string, denKind: string, minStart: Option<Date>, r: Ratio)
    ensures multiset(RatioRows(facts, facts, numKind, denKind, minStart))[r] ==
      if InBound(r.start, minStart) then multiset(RatioRows(facts, facts, numKind, denKind, None))[r] else 0
  {
    RowsCount(facts, facts, numKind, denKind, minStart, r, 0);
    RowsCount(facts, facts, numKind, denKind, None, r, 0);
    assert facts[0..] == facts;
    var bounded := RowPairs(facts, facts, numKind, denKind, minStart, r, 0);
    if InBound(r.start, minStart) {
      assert bounded == RowPairs(facts, facts, numKind, denKind, None, r, 0);
    } else {
      assert forall i, j :: !JoinMatches(facts, facts, numKind, denKind, minStart, r, i, j);
      assert bounded == {};
    }
  }

  /** A min_start that does not parse is dropped: the read is the unbounded one. */
  lemma MalformedBoundIgnored(facts: seq<Metric>, engine: string, text: string)
    requires ParseDate(text).Err?
    ensures ReadRatios(facts, engine, Some(text)) == ReadRatios(facts, engine, None)
  {
  }

  /** "not-a-date" is such a min_start: its first piece is not a number. */
  lemma NotADate(facts: seq<Metric>, engine: string)
    ensures ReadRatios(facts, engine, Some("not-a-date")) == ReadRatios(facts, engine, None)
  {
    assert ParseInt("not").Err? by {
      assert !IsDigit("not"[0]);
    }
    MalformedBoundIgnored(facts, engine, "not-a-date");
  }

  /** Clicks on January and February, searches on February and March: one ratio, February's. */
  lemma JoinExample()
    ensures var jan, feb, mar := Date(2021, 1, 1), Date(2021, 2, 1), Date(2021, 3, 1);
      ObjGetList([Metric(ClicksKind("sphinx"), jan, Date(2021, 1, 8), 1),
                  Metric(ClicksKind("sphinx"), feb, Date(2021, 2, 8), 2),
                  Metric(SearchesKind("sphinx"), feb, Date(2021, 2, 8), 20),
                  Metric(SearchesKind("sphinx"), mar, Date(2021, 3, 8), 30)], "sphinx", None)
      == [Ratio(feb, 2, 20)]
  {
    var c, s := ClicksKind("sphinx"), SearchesKind("sphinx");
    KindsNeverCollide("sphinx", "sphinx");
    var jan, feb, mar := Date(2021, 1, 1), Date(2021, 2, 1), Date(2021, 3, 1);
    var f0, f1 := Metric(c, jan, Date(2021, 1, 8), 1), Metric(c, feb, Date(2021, 2, 8), 2);
    var f2, f3 := Metric(s, feb, Date(2021, 2, 8), 20), Metric(s, mar, Date(2021, 3, 8), 30);
    var facts := [f0, f1, f2, f3];
    assert facts[1..] == [f1, f2, f3] && facts[2..] == [f2, f3] && facts[3..] == [f3];
    assert [f1, f2, f3][1..] == [f2, f3] && [f2, f3][1..] == [f3] && [f3][1..] == [];
    assert Partners(f0, [f3], s) == [];
    assert Partners(f0, [f2, f3], s) == [];
    assert Partners(f0, [f1, f2, f3], s) == [];
    assert Partners(f0, facts, s) == [];
    assert Partners(f1, [f3], s) == [];
    assert Partners(f1, [f2, f3], s) == [Ratio(feb, 2, 20)];
    assert Partners(f1, [f1, f2, f3], s) == [Ratio(feb, 2, 20)];
    assert Partners(f1, facts, s) == [Ratio(feb, 2, 20)];
    assert RatioRows([f3], facts, c, s, None) == [];
    assert RatioRows([f2, f3], facts, c, s, None) == [];
    assert RatioRows([f1, f2, f3], facts, c, s, None) == [Ratio(feb, 2, 20)];
  }

  // ---------------------------------------------------------------------------
  // The write path.

  /** The kpi_metrickind and kpi_metric tables: the registered kind codes and the facts. */
  class MetricStore {
    var kinds: set<string>
    var facts: seq<Metric>

    constructor (kinds: set<string>)
      ensures this.kinds == kinds && facts == []
    {
      this.kinds := kinds;
      facts := [];
    }

    /** Metric.objects.create(...): one more row, nothing else changes. */
    method Insert(m: Metric)
      modifies this
      ensures facts == old(facts) + [m] && kinds == old(kinds)
    {
      facts := facts + [m];
    }
  }

  /** The POSTed fields of a ratio; None stands for a missing key. */
  datatype Posted = Posted(start: Option<string>, searches: Option<int>, clicks: Option<int>)

  /** date(*_parse_date(data['start'])) */
  function PostedStart(data: Posted): (r: Result<Date>)
    ensures data.start.None? ==> r == Err(KeyError)
    ensures data.start.Some? && ParseDate(data.start.value).Err? ==> r == Err(ValueError)
    ensures data.start.Some? && ParseDate(data.start.value).Ok? ==> r == DateFromFields(ParseDate(data.start.value).value)
    ensures r.Ok? ==> ValidDate(r.value) && ParseDate(data.start.value) == Ok([r.value.year, r.value.month, r.value.day])
  {
    match data.start
    case None => Err(KeyError)
    case Some(text) =>
      match ParseDate(text)
      case Err(e) => Err(e)
      case Ok(fields) => DateFromFields(fields)
  }

  /** A start posted in isoformat is read back as that very date. */
  lemma PostedIsoStart(d: Date, searches: Option<int>, clicks: Option<int>)
    requires ValidDate(d)
    ensures PostedStart(Posted(Some(IsoFormat(d)), searches, clicks)) == Ok(d)
  {
    ParseIsoFormat(d);
  }

  /** start + timedelta(days=7): the end of the week-long bucket that starts on start. */
  function WeekAfter(start: Date): (r: Result<Date>)
    requires ValidDate(start)
    ensures r.Ok? <==> Ordinal(start) + 7 <= MaxOrdinal
    ensures r.Ok? ==> ValidDate(r.value) && Ordinal(r.value) == Ordinal(start) + 7 && Before(start, r.value)
    ensures r.Err? ==> r.error == OverflowError
  {
    AddDays(start, 7)
  }

  /** The row create_metric(kind, value_field, data) writes, or what it raises, in the order
      the source evaluates: the start, the kind lookup, start + 7 days, then the value. */
  function NewMetric(kinds: set<string>, kind: string, value: Option<int>, data: Posted): Result<Metric> {
    match PostedStart(data)
    case Err(e) => Err(e)
    case Ok(start) =>
      if kind !in kinds then Err(DoesNotExist)
      else
        match WeekAfter(start)
        case Err(e) => Err(e)
        case Ok(end) =>
          match value
          case None => Err(KeyError)
          case Some(v) => Ok(Metric(kind, start, end, v))
  }

  /** The outcome of one create_metric call whose row, or error, is m. */
  function Verdict(m: Result<Metric>): Outcome {
    if m.Ok? then Pass else Fail(m.error)
  }

  /** The rows one create_metric call whose row, or error, is m appends. */
  function Appended(m: Result<Metric>): seq<Metric> {
    if m.Ok? then [m.value] else []
  }

  /** What obj_create leaves behind: the outcome and the rows it appended, searches first.
      A failure of the clicks half comes after the searches row is already written. */
  function ClickthroughWrites(kinds: set<string>, engine: string, data: Posted): (Outcome, seq<Metric>) {
    PairWrites(NewMetric(kinds, SearchesKind(engine), data.searches, data),
               NewMetric(kinds, ClicksKind(engine), data.clicks, data))
  }

  /** Two create_metric calls in a row, the second attempted only when the first wrote. */
  function PairWrites(searches: Result<Metric>, clicks: Result<Metric>): (Outcome, seq<Metric>) {
    if searches.Err? then (Verdict(searches), [])
    else (Verdict(clicks), [searches.value] + Appended(clicks))
  }

  /** create_metric: look up the kind, compute the week-long bucket and write one row. */
  method CreateMetric(store: MetricStore, kind: string, value: Option<int>, data: Posted) returns (out: Outcome)
    modifies store
    ensures store.kinds == old(store.kinds)
    ensures out == Verdict(NewMetric(old(store.kinds), kind, value, data))
    ensures store.facts == old(store.facts) + Appended(NewMetric(old(store.kinds), kind, value, data))
  {
    var start := PostedStart(data);
    if start.Err? {
      return Fail(start.error);
    }
    if kind !in store.kinds {
      return Fail(DoesNotExist);
    }
    var end := WeekAfter(start.value);
    if end.Err? {
      return Fail(end.error);
    }
    if value.None? {
      return Fail(KeyError);
    }
    store.Insert(Metric(kind, start.value, end.value, value.value));
    out := Pass;
  }

  /** obj_create: the searches row, then the clicks row. */
  method ObjCreate(store: MetricStore, engine: string, data: Posted) returns (out: Outcome)
    modifies store
    ensures store.kinds == old(store.kinds)
    ensures store.facts == old(store.facts) + ClickthroughWrites(old(store.kinds), engine, data).1
    ensures out == ClickthroughWrites(old(store.kinds), engine, data).0
  {
    ghost var kinds, before := store.kinds, store.facts;
    ghost var searches := NewMetric(kinds, SearchesKind(engine), data.searches, data);
    ghost var clicks := NewMetric(kinds, ClicksKind(engine), data.clicks, data);
    assert ClickthroughWrites(kinds, engine, data) == PairWrites(searches, clicks);
    out := CreateMetric(store, SearchesKind(engine), data.searches, data);
    if out.Pass? {
      assert searches.Ok? && store.facts == before + [searches.value];
      out := CreateMetric(store, ClicksKind(engine), data.clicks, data);
      assert store.facts == before + ([searches.value] + Appended(clicks));
    } else {
      assert searches.Err? && store.facts == before;
    }
  }

  /** Everything a POST with this start needs: both kinds registered, room in the calendar
      for the week, and both values present. */
  predicate Accepts(kinds: set<string>, engine: string, data: Posted, start: Date) {
    PostedStart(data) == Ok(start) &&
    SearchesKind(engine) in kinds && ClicksKind(engine) in kinds &&
    Ordinal(start) + 7 <= MaxOrdinal &&
    data.searches.Some? && data.clicks.Some?
  }

  /** The write succeeds exactly when the start parses to a date, both kinds are registered,
      the week still fits in the calendar and both values were posted. */
  lemma WriteSucceeds(kinds: set<string>, engine: string, data: Posted)
    ensures ClickthroughWrites(kinds, engine, data).0 == Pass <==>
      PostedStart(data).Ok? && Accepts(kinds, engine, data, PostedStart(data).value)
  {
  }

  /** A successful write adds exactly two rows, searches then clicks, sharing the posted
      start and an end exactly seven days later, holding the posted values. */
  lemma WritePair(kinds: set<string>, engine: string, data: Posted, start: Date)
    requires Accepts(kinds, engine, data, start)
    ensures ClickthroughWrites(kinds, engine, data).0 == Pass
    ensures var rows := ClickthroughWrites(kinds, engine, data).1;
      |rows| == 2 &&
      rows[0].kind == SearchesKind(engine) && rows[1].kind == ClicksKind(engine) &&
      rows[0].start == rows[1].start == start &&
      rows[0].end == rows[1].end && ValidDate(rows[0].end) &&
      Ordinal(rows[0].end) == Ordinal(start) + 7 && Before(start, rows[0].end) &&
      rows[0].value == data.searches.value && rows[1].value == data.clicks.value
  {
    NewMetricWrites(kinds, SearchesKind(engine), data.searches.value, data, start);
    NewMetricWrites(kinds, ClicksKind(engine), data.clicks.value, data, start);
  }

  /** A failed write leaves at most the searches row behind, and leaves it exactly when
      only the clicks half failed. */
  lemma PartialWrite(kinds: set<string>, engine: string, data: Posted)
    requires ClickthroughWrites(kinds, engine, data).0.Fail?
    ensures |ClickthroughWrites(kinds, engine, data).1| <= 1
    ensures |ClickthroughWrites(kinds, engine, data).1| == 1 <==>
      NewMetric(kinds, SearchesKind(engine), data.searches, data).Ok? &&
      NewMetric(kinds, ClicksKind(engine), data.clicks, data).Err?
  {
  }

  /** Helper for MissingClicks: the second create failing keeps the first row. */
  lemma SecondHalfFails(first: Metric, e: Error)
    ensures PairWrites(Ok(first), Err(e)) == (Fail(e), [first])
  {
    assert [first] + Appended(Err(e)) == [first];
  }

  /** create_metric writes the posted value into a week-long bucket once the start, the
      kind and the week are all in order. */
  lemma NewMetricWrites(kinds: set<string>, kind: string, value: int, data: Posted, start: Date)
    requires PostedStart(data) == Ok(start) && kind in kinds && Ordinal(start) + 7 <= MaxOrdinal
    ensures NewMetric(kinds, kind, Some(value), data) == Ok(Metric(kind, start, WeekAfter(start).value, value))
  {
  }

  /** create_metric raises KeyError on a missing value only after everything else passed. */
  lemma NewMetricMissingValue(kinds: set<string>, kind: string, data: Posted, start: Date)
    requires PostedStart(data) == Ok(start) && kind in kinds && Ordinal(start) + 7 <= MaxOrdinal
    ensures NewMetric(kinds, kind, None, data) == Err(KeyError)
  {
  }

  /** A POST that carries everything but 'clicks' raises KeyError after the searches row
      is written. */
  lemma MissingClicks(kinds: set<string>, engine: string, data: Posted, start: Date)
    requires PostedStart(data) == Ok(start)
    requires SearchesKind(engine) in kinds && ClicksKind(engine) in kinds
    requires Ordinal(start) + 7 <= MaxOrdinal
    requires data.searches.Some? && data.clicks.None?
    ensures ClickthroughWrites(kinds, engine, data) ==
      (Fail(KeyError), [Metric(SearchesKind(engine), start, WeekAfter(start).value, data.searches.value)])
  {
    NewMetricWrites(kinds, SearchesKind(engine), data.searches.value, data, start);
    NewMetricMissingValue(kinds, ClicksKind(engine), data, start);
    SecondHalfFails(Metric(SearchesKind(engine), start, WeekAfter(start).value, data.searches.value), KeyError);
  }

  /** After a successful write the read returns the posted ratio for its start, with or
      without a bound the start meets, whatever the store held before. */
  lemma WriteThenRead(kinds: set<string>, engine: string, data: Posted, start: Date, before: seq<Metric>, minStart: Option<Date>)
    requires Accepts(kinds, engine, data, start)
    requires InBound(start, minStart)
    ensures Ratio(start, data.clicks.value, data.searches.value)
      in ObjGetList(before + ClickthroughWrites(kinds, engine, data).1, engine, minStart)
  {
    var rows := ClickthroughWrites(kinds, engine, data).1;
    WritePair(kinds, engine, data, start);
    var facts := before + rows;
    var r := Ratio(start, data.clicks.value, data.searches.value);
    assert facts[|before|] == rows[0] && facts[|before| + 1] == rows[1];
    assert Joined(facts, ClicksKind(engine), SearchesKind(engine), minStart, r, |before| + 1, |before|);
    JoinSpec(facts, ClicksKind(engine), SearchesKind(engine), minStart, r);
  }

  /** The posted week of 2021-01-04 ends on 2021-01-11. */
  lemma WeekExample()
    ensures WeekAfter(Date(2021, 1, 4)) == Ok(Date(2021, 1, 11))
  {
    var start, end := Date(2021, 1, 4), Date(2021, 1, 11);
    assert Ordinal(end) == Ordinal(start) + 7;
    var r := WeekAfter(start);
    BeforeIsChronological(r.value, end);
    BeforeIsChronological(end, r.value);
  }
}
