/** Python's datetime.date: the proleptic Gregorian calendar on years 1..9999,
    its ordinal day count, its ordering and the addition of whole days. */
module Calendar {
  import opened Wrappers

  datatype Date = Date(year: int, month: int, day: int)

  const MinYear := 1
  const MaxYear := 9999

  predicate IsLeap(y: int) {
    y % 4 == 0 && (y % 100 != 0 || y % 400 == 0)
  }

  function DaysInMonth(y: int, m: int): int
    requires 1 <= m <= 12
  {
    if m == 2 then (if IsLeap(y) then 29 else 28)
    else if m == 4 || m == 6 || m == 9 || m == 11 then 30
    else 31
  }

  function DaysInYear(y: int): int {
    if IsLeap(y) then 366 else 365
  }

  /** The dates that date(year, month, day) accepts. */
  predicate ValidDate(d: Date) {
    MinYear <= d.year <= MaxYear && 1 <= d.month <= 12 && 1 <= d.day <= DaysInMonth(d.year, d.month)
  }

  /** The arguments date() accepts at all: each field is converted to a C int first. */
  predicate FitsCInt(n: int) {
    -0x8000_0000 <= n <= 0x7fff_ffff
  }

  /** date(y, m, d): OverflowError when a field does not fit a C int, ValueError when the
      fields fit but name no date of the calendar. */
  function MakeDate(y: int, m: int, d: int): (r: Result<Date>)
    ensures r.Ok? <==> ValidDate(Date(y, m, d))
    ensures r.Ok? ==> r.value == Date(y, m, d)
    ensures r.Err? ==> (r.error == OverflowError <==> !(FitsCInt(y) && FitsCInt(m) && FitsCInt(d)))
    ensures r.Err? ==> r.error in {ValueError, OverflowError}
  {
    if !(FitsCInt(y) && FitsCInt(m) && FitsCInt(d)) then Err(OverflowError)
    else if ValidDate(Date(y, m, d)) then Ok(Date(y, m, d))
    else Err(ValueError)
  }

  /** Every field present fits a C int. */
  predicate AllFitCInt(fields: seq<int>) {
    forall i :: 0 <= i < |fields| ==> FitsCInt(fields[i])
  }

  /** date(*fields): the constructor takes at most three positional arguments, year, month
      and day. More than three is a TypeError before anything is converted; the fields present
      are then converted to C ints in order, an OverflowError on the first that does not fit;
      only then is a missing field a TypeError. Three fields build the date they name. */
  function DateFromFields(fields: seq<int>): (r: Result<Date>)
    ensures |fields| > 3 ==> r == Err(TypeError)
    ensures |fields| <= 3 && !AllFitCInt(fields) ==> r == Err(OverflowError)
    ensures |fields| < 3 && AllFitCInt(fields) ==> r == Err(TypeError)
    ensures r.Ok? ==> ValidDate(r.value) && fields == [r.value.year, r.value.month, r.value.day]
    ensures |fields| == 3 && ValidDate(Date(fields[0], fields[1], fields[2])) ==>
      r == Ok(Date(fields[0], fields[1], fields[2]))
    ensures |fields| == 3 && !ValidDate(Date(fields[0], fields[1], fields[2])) ==>
      r == Err(if AllFitCInt(fields) then ValueError else OverflowError)
  {
    if |fields| > 3 then Err(TypeError)
    else if !AllFitCInt(fields) then Err(OverflowError)
    else if |fields| < 3 then Err(TypeError)
    else MakeDate(fields[0], fields[1], fields[2])
  }

  /** Two fields, one of them beyond a C int: the overflow is reported before the missing day. */
  lemma ShortOverflow()
    ensures DateFromFields([3000000000, 7]) == Err(OverflowError)
    ensures DateFromFields([2001, 7]) == Err(TypeError)
  {
    assert !FitsCInt([3000000000, 7][0]);
  }

  /** Date comparison: year, then month, then day. */
  predicate Before(a: Date, b: Date) {
    a.year < b.year || (a.year == b.year && (a.month < b.month || (a.month == b.month && a.day < b.day)))
  }

  function DaysBeforeYear(y: int): int {
    var p := y - 1;
    p * 365 + p / 4 - p / 100 + p / 400
  }

  function DaysBeforeMonth(y: int, m: int): int
    requires 1 <= m <= 12
  {
    [0, 31, 59, 90, 120, 151, 181, 212, 243, 273, 304, 334][m - 1] + (if m > 2 && IsLeap(y) then 1 else 0)
  }

  /** date.toordinal(): 0001-01-01 is day 1. */
  function Ordinal(d: Date): int
    requires 1 <= d.month <= 12
  {
    DaysBeforeYear(d.year) + DaysBeforeMonth(d.year, d.month) + d.day
  }

  /** The ordinal of 9999-12-31, the last date Python can represent. */
  const MaxOrdinal := 3652059

  lemma DivStep4(x: int)
    ensures (x + 1) / 4 - x / 4 == if (x + 1) % 4 == 0 then 1 else 0
  {
  }

  lemma DivStep100(x: int)
    ensures (x + 1) / 100 - x / 100 == if (x + 1) % 100 == 0 then 1 else 0
  {
  }

  lemma DivStep400(x: int)
    ensures (x + 1) / 400 - x / 400 == if (x + 1) % 400 == 0 then 1 else 0
  {
  }

  /** A year contributes exactly its own length to the day count. */
  lemma YearStep(y: int)
    ensures DaysBeforeYear(y + 1) == DaysBeforeYear(y) + DaysInYear(y)
  {
    DivStep4(y - 1);
    DivStep100(y - 1);
    DivStep400(y - 1);
    assert y * 365 == (y - 1) * 365 + 365;
  }

  /** A month contributes exactly its own length to the day count; December closes the year. */
  lemma MonthStep(y: int, m: int)
    requires 1 <= m <= 12
    ensures m < 12 ==> DaysBeforeMonth(y, m + 1) == DaysBeforeMonth(y, m) + DaysInMonth(y, m)
    ensures m == 12 ==> DaysBeforeMonth(y, m) + DaysInMonth(y, m) == DaysInYear(y)
  {
  }

  lemma MaxOrdinalIsLastDate()
    ensures Ordinal(Date(MaxYear, 12, 31)) == MaxOrdinal
  {
  }

  /** The day after d, which may lie past the year 9999. */
  function NextDay(d: Date): (e: Date)
    requires ValidDate(d)
    ensures Before(d, e)
    ensures 1 <= e.month <= 12 && Ordinal(e) == Ordinal(d) + 1
    ensures ValidDate(e) <==> e.year <= MaxYear
    ensures e.year > MaxYear <==> d == Date(MaxYear, 12, 31)
  {
    MonthStep(d.year, d.month);
    YearStep(d.year);
    if d.day < DaysInMonth(d.year, d.month) then Date(d.year, d.month, d.day + 1)
    else if d.month < 12 then Date(d.year, d.month + 1, 1)
    else Date(d.year + 1, 1, 1)
  }

  /** date + timedelta(days=n) for n >= 0: OverflowError once the sum leaves the calendar. */
  function AddDays(d: Date, n: nat): (r: Result<Date>)
    requires ValidDate(d)
    ensures r.Ok? <==> Ordinal(d) + n <= MaxOrdinal
    ensures r.Ok? ==> ValidDate(r.value) && Ordinal(r.value) == Ordinal(d) + n
    ensures r.Ok? && n > 0 ==> Before(d, r.value)
    ensures r.Err? ==> r.error == OverflowError
    decreases n
  {
    if n == 0 then
      MaxOrdinalBound(d);
      Ok(d)
    else
      var e := NextDay(d);
      if e.year > MaxYear then
        MaxOrdinalIsLastDate();
        Err(OverflowError)
      else
        var r := AddDays(e, n - 1);
        if r.Ok? && n > 1 then BeforeTransitive(d, e, r.value); r else r
  }

  lemma BeforeTransitive(a: Date, b: Date, c: Date)
    requires Before(a, b) && Before(b, c)
    ensures Before(a, c)
  {
  }

  /** No valid date lies past 9999-12-31. */
  lemma MaxOrdinalBound(d: Date)
    requires ValidDate(d)
    ensures Ordinal(d) <= MaxOrdinal
  {
    MaxOrdinalIsLastDate();
    MonthsBeforeBound(d.year, d.month);
    YearsBeforeMonotone(d.year, MaxYear);
    YearStep(d.year);
  }

  lemma MonthsBeforeBound(y: int, m: int)
    requires 1 <= m <= 12
    ensures DaysBeforeMonth(y, m) + DaysInMonth(y, m) <= DaysInYear(y)
  {
  }

  lemma {:induction false} YearsBeforeMonotone(y1: int, y2: int)
    requires y1 <= y2
    ensures DaysBeforeYear(y1) <= DaysBeforeYear(y2)
    decreases y2 - y1
  {
    if y1 < y2 {
      YearStep(y1);
      YearsBeforeMonotone(y1 + 1, y2);
    }
  }

  /** On valid dates, comparing year, month and day is comparing ordinals: the
      lexicographic order is the chronological one. */
  lemma {:induction false} BeforeIsChronological(a: Date, b: Date)
    requires ValidDate(a) && ValidDate(b)
    ensures Before(a, b) <==> Ordinal(a) < Ordinal(b)
  {
    if a.year < b.year {
      MonthsBeforeBound(a.year, a.month);
      YearStep(a.year);
      YearsBeforeMonotone(a.year + 1, b.year);
    } else if b.year < a.year {
      MonthsBeforeBound(b.year, b.month);
      YearStep(b.year);
      YearsBeforeMonotone(b.year + 1, a.year);
    } else if a.month < b.month {
      MonthsBeforeMonotone(a.year, a.month + 1, b.month);
      MonthStep(a.year, a.month);
    } else if b.month < a.month {
      MonthsBeforeMonotone(b.year, b.month + 1, a.month);
      MonthStep(b.year, b.month);
    }
  }

  lemma MonthsBeforeMonotone(y: int, m1: int, m2: int)
    requires 1 <= m1 <= m2 <= 12
    ensures DaysBeforeMonth(y, m1) <= DaysBeforeMonth(y, m2)
  {
  }
}
