# kitsune KPI API — a verified model of its data-shaping core

kitsune's `apps/kpi/api.py` serves the support site's key performance indicators
over a REST API. Around the Django and tastypie plumbing it does five small pieces of
real work. This project models each of them in Dafny and proves what they promise:

- **The series merge engine** (`_remap_date_counts`, `_merge_results`, `merge_results`).
  Several labelled, sparse lists of `{year, month, count}` rows become one record per
  first-of-month date, newest first. Each record holds each label's count for that
  month. A label with no row that month is absent, and the resource fields read it as 0.
- **The clickthrough read.** The self-join in `SearchClickthroughResource.obj_get_list`
  pairs a clicks fact with a searches fact of the same start into one ratio. It can
  take a lower bound on the start.
- **The clickthrough write** (`obj_create` / `create_metric`). It appends a searches
  fact and then a clicks fact to the metric store. Both cover the week from the posted
  start to seven days later.
- **The monthly distinct-user tallies** of `ActiveKbContributorsResource` and
  `ActiveAnswerersResource`.
  - `_add_user` and `_add_users` fill a `(year, month) -> set of ids` dictionary in place.
  - The `{year, month, count}` rows read off that dictionary are fed back into
    `merge_results`.
- **`_parse_date`**: split on `-` and convert each piece with `int()`.

Modules and files:

| file | module | what it holds |
|---|---|---|
| `wrappers.dfy` | `Wrappers` | `Option`, `Result`, `Outcome`, and the Python exceptions the core raises |
| `calendar.dfy` | `Calendar` | `datetime.date` with Python's ranges (years 1..9999), `toordinal`, and `date + timedelta(days=n)` with its `OverflowError` |
| `date_parse.dfy` | `DateParse` | `str.split`, `int()` on digit strings, `_parse_date`, and the round trip against zero-padded `YYYY-MM-DD` |
| `series_merge.dfy` | `SeriesMerge` | the merge engine as a fold over finite maps, specified against fold-free reference functions |
| `clickthrough.dfy` | `Clickthrough` | metric kinds, the join, the `MetricStore` class with `obj_create`, and the `min_start` handling |
| `active_users.dfy` | `ActiveUsers` | the `MonthlyUsers` class and both active-user resources from start to finish |

Python's `dict` iteration order is not modelled. Three places in the source depend on it:

- the keyword-argument order of `merge_results`;
- the order of `d.items()` when the tally rows are built;
- the order of `res_dict.items()`.

Each of these is treated as "some order". The order of `merge_results`'s keyword
arguments is the order of the `series` sequence. The rows read off a tally come in
whatever order `MonthlyUsers.Rows` picks the months. The proved properties hold for
every such order.

## Model

| member | source | states |
|---|---|---|
| Calendar.MakeDate | apps/kpi/api.py:145 | `date(y, m, d)` succeeds exactly on a date of the proleptic Gregorian calendar with year 1..9999, and builds that date. Otherwise it raises OverflowError when a field does not fit a C `int` and ValueError when the fields fit but name no date |
| Calendar.DateFromFields | apps/kpi/api.py:145 | `date(*fields)` raises TypeError for more than three fields. Otherwise a field beyond a C `int` raises OverflowError, even when fields are missing; then fewer than three fields raise TypeError. Three fields naming a valid date give exactly that date, and three that name none raise ValueError |
| Calendar.ShortOverflow | apps/kpi/api.py:145 | `date(3000000000, 7)` raises OverflowError before the missing day is noticed, while `date(2001, 7)` raises TypeError |
| Calendar.NextDay | apps/kpi/api.py:148 | the next day is strictly later and exactly one day number further; it leaves the calendar exactly after 9999-12-31 |
| Calendar.AddDays | apps/kpi/api.py:148 | `d + timedelta(days=n)` succeeds exactly when the day number stays within 9999-12-31; the result is valid, exactly n days later and (for n > 0) after d; otherwise OverflowError |
| Calendar.BeforeIsChronological | apps/kpi/api.py:392 | comparing valid dates field by field (year, month, day) is the same as comparing their day numbers, so sorting by date sorts chronologically |
| Calendar.MaxOrdinalBound | apps/kpi/api.py:148 | no valid date lies beyond day 3652059 (9999-12-31) |
| DateParse.Split | apps/kpi/api.py:421 | `text.split('-')` gives at least one piece, no piece contains the separator, and joining the pieces with it gives back the text |
| DateParse.SplitJoin | apps/kpi/api.py:421 | splitting the join of separator-free pieces gives back exactly those pieces |
| DateParse.ParseInt | apps/kpi/api.py:421 | `int(piece)` succeeds exactly on a non-empty string of digits, and then gives the piece's decimal value; otherwise it raises ValueError |
| DateParse.ParseAll | apps/kpi/api.py:421 | `tuple(int(i) for i in pieces)` succeeds exactly when every piece converts; it has one value per piece, each the piece's own value; otherwise ValueError |
| DateParse.ParseDate | apps/kpi/api.py:414-421 | `_parse_date` succeeds exactly when every `-`-separated piece is a non-empty string of digits. It then yields one number per piece, each that piece's decimal value; otherwise it raises ValueError |
| DateParse.DecimalRoundTrip | apps/kpi/api.py:421 | reading back the decimal digits of n gives n |
| DateParse.ZeroPadValue | apps/kpi/api.py:421 | leading zeros do not change a piece's value, so `int('08') == 8` |
| DateParse.ParseThreePieces | apps/kpi/api.py:414-421 | three digit strings joined by `-` parse to their three decimal values, padded or not |
| DateParse.ParseIsoFormat | apps/kpi/api.py:414-421 | for every valid date, parsing its zero-padded `YYYY-MM-DD` form gives (year, month, day), and `date(*...)` rebuilds the same date |
| DateParse.BadPieceRaises | apps/kpi/api.py:417-421 | an empty or non-numeric piece anywhere makes `_parse_date` raise ValueError |
| DateParse.ParseExample | apps/kpi/api.py:415 | `"2004-08-30"` parses to (2004, 8, 30) |
| SeriesMerge.RemapSpec | apps/kpi/api.py:383-385 | `_remap_date_counts`, modelled by `SeriesMerge.Remap`, succeeds exactly when every row names a valid month (ValueError otherwise). It maps each first of a month that some row names to `{label: count}` from the last such row, and keeps every other date it started with |
| SeriesMerge.MergeBuckets | apps/kpi/api.py:395-406 | `_merge_results(x, y)` covers the union of both dates; a label is present when either side has it, and on a collision the right-hand count wins |
| SeriesMerge.ReducedSpec | apps/kpi/api.py:388-389 | `SeriesMerge.Reduced`, the left fold of `_merge_results` over the remapped series, succeeds exactly when all rows are valid (ValueError otherwise). It then holds exactly the dates some row names, and under each label the count of the last series with that label that has a row that month |
| SeriesMerge.InsertDescending | apps/kpi/api.py:390-392 | inserting a date into a newest-first sequence keeps it strictly descending and adds exactly that date |
| SeriesMerge.SortDescending | apps/kpi/api.py:390-392 | `sorted(..., key=date, reverse=True)` over the merged keys is strictly descending and has exactly the input's dates |
| SeriesMerge.AllDatesMember | apps/kpi/api.py:384-389 | a date is among the rows' dates exactly when some row of some series falls on it |
| SeriesMerge.LastCountFound | apps/kpi/api.py:384-385 | a series has a count for a month exactly when one of its rows falls on it |
| SeriesMerge.LastCountIsLast | apps/kpi/api.py:384-385 | a series' count for a month comes from its last row for that month, as the dict comprehension keeps the last pair |
| SeriesMerge.SeriesValueOfOwnSeries | apps/kpi/api.py:405-406 | when no other series shares its label, a label's merged count is its own series' count |
| SeriesMerge.LastCountUnique | apps/kpi/api.py:384-385 | with one row per month, a row's count is the series' count for its month |
| SeriesMerge.MergeResultsOutcome | apps/kpi/api.py:388-392 | `merge_results`, modelled by `SeriesMerge.MergeResults`, raises TypeError with no series at all, ValueError on a row outside the calendar, and TypeError when a series named `date` has rows; it succeeds in every other case |
| SeriesMerge.MergeResultsDescending | apps/kpi/api.py:391-392 | the records are strictly descending by date: newest first, no date twice |
| SeriesMerge.MergeResultsCoverage | apps/kpi/api.py:388-392 | there is a record for a date exactly when some row of some series falls on it (none dropped, none invented), and every record date is a valid first of a month |
| SeriesMerge.MergeResultsValues | apps/kpi/api.py:388-392 | in each record a label is present exactly when its series has a count that month, and its field reads that count, or 0 (the `default=0` of the resource fields) |
| SeriesMerge.MergeExample | apps/kpi/api.py:397-404 | votes in January plus helpful in January and February merge to [February {helpful: 5}, January {votes: 3, helpful: 2}] |
| Clickthrough.KindsNeverCollide | apps/kpi/api.py:90-96 | no clicks kind equals any searches kind, so the two halves of a ratio never mix |
| Clickthrough.KindsDetermineEngine | apps/kpi/api.py:90-96 | each kind string names exactly one engine |
| Clickthrough.RatioRowsSpec | apps/kpi/api.py:126-134 | the join yields a ratio exactly for a numerator-kind fact and a denominator-kind fact with the same start, the numerator's start within the bound. It yields each ratio as many times as there are such pairs of facts, as an inner join does |
| Clickthrough.JoinSpec | apps/kpi/api.py:124-136 | `obj_get_list`'s self-join, which `Clickthrough.ObjGetList` computes with clicks over searches, returns exactly the (start, clicks, searches) triples of such a pair of facts in the store, one row per pair, so duplicated facts give duplicated ratios |
| Clickthrough.BoundedCount | apps/kpi/api.py:132-134 | with a bound, each ratio at or after it appears exactly as often as without the bound, and a ratio before it not at all |
| Clickthrough.JoinExclusivity | apps/kpi/api.py:113 | a start has a ratio exactly when both halves exist for it within the bound (half a ratio is never returned), and every returned start is at or after the bound |
| Clickthrough.BoundOnlyFilters | apps/kpi/api.py:132-134 | the `n.start >= min_start` condition only removes ratios |
| Clickthrough.JoinExample | apps/kpi/api.py:124-136 | clicks for January and February with searches for February and March give only February's ratio |
| Clickthrough.MinStartAsWritten | apps/kpi/api.py:117-122 | as written, a non-empty `min_start` is never parsed and stays the raw query text; an absent or empty one means no bound |
| Clickthrough.MinStartIntended | apps/kpi/api.py:116-122 | as intended, `min_start` becomes a bound exactly when it parses to the fields of a valid date, and the bound is the date those fields name |
| Clickthrough.MinStartOfFields | apps/kpi/api.py:116-122 | any text that parses to a valid date's year, month and day is that date as a bound |
| Clickthrough.MinStartUnpadded | apps/kpi/api.py:116-122 | an unpadded `2001-7-30` is the bound 2001-07-30 as intended |
| Clickthrough.MinStartRoundTrip | apps/kpi/api.py:109-122 | a `YYYY-MM-DD` `min_start` gives the date it names as intended, but stays text as written |
| Clickthrough.MinStartExample | apps/kpi/api.py:109-122 | the docstring's `2001-07-30` stays text as written and is 2001-07-30 as intended |
| Clickthrough.ReadRatios | apps/kpi/api.py:116-136 | a read with a `min_start` returns exactly the ratios of the unbounded read that start at or after the bound, each as many times as the unbounded read has it |
| Clickthrough.MalformedBoundIgnored | apps/kpi/api.py:116-122 | a `min_start` that does not parse is dropped: the read equals the unbounded read |
| Clickthrough.NotADate | apps/kpi/api.py:116-122 | `min_start=not-a-date` reads the same as no `min_start` |
| Clickthrough.PostedStart | apps/kpi/api.py:145 | a missing `start` raises KeyError and one that does not parse raises ValueError. A parsed start is `date(*fields)` of its numbers, so an accepted start is the valid date whose year, month and day are exactly the numbers the text holds |
| Clickthrough.PostedIsoStart | apps/kpi/api.py:145 | a start posted in `YYYY-MM-DD` form is read back as exactly that date |
| Clickthrough.WeekAfter | apps/kpi/api.py:148 | `start + timedelta(days=7)` is exactly seven days later, unless that passes 9999-12-31 (OverflowError) |
| Clickthrough.MetricStore.Insert | apps/kpi/api.py:146-149 | `Metric.objects.create` appends one row and changes nothing else |
| Clickthrough.CreateMetric | apps/kpi/api.py:139-149 | `create_metric` appends the one row `Clickthrough.NewMetric` builds, or raises in source order and writes nothing. The order is: the start (KeyError, then ValueError, TypeError or OverflowError), the kind (DoesNotExist), the week (OverflowError), the value (KeyError) |
| Clickthrough.ObjCreate | apps/kpi/api.py:138-152 | `obj_create` appends exactly what `Clickthrough.ClickthroughWrites`, the searches-then-clicks writes, gives, with their outcome; the registered kinds are unchanged |
| Clickthrough.WriteSucceeds | apps/kpi/api.py:138-152 | a POST succeeds exactly when the start parses to a date, both kinds are registered, the week fits in the calendar and both values are present |
| Clickthrough.WritePair | apps/kpi/api.py:138-152 | a POST with a parseable start, both kinds registered, room for the week and both values succeeds and adds exactly two facts: searches, then clicks. They share the posted start and an end exactly seven days later, and hold the posted values |
| Clickthrough.PartialWrite | apps/kpi/api.py:151-152 | a failed POST leaves at most one fact, the searches one, and leaves it exactly when only the clicks half failed |
| Clickthrough.NewMetricWrites | apps/kpi/api.py:145-149 | with a good start, a registered kind and room for the week, `create_metric` writes the posted value into that week |
| Clickthrough.NewMetricMissingValue | apps/kpi/api.py:149 | a missing value field raises KeyError, and only after the start, kind and week have all passed |
| Clickthrough.MissingClicks | apps/kpi/api.py:149-152 | a POST without `clicks` raises KeyError after the searches fact is already written |
| Clickthrough.WriteThenRead | apps/kpi/api.py:124-152 | after such a POST, whatever the store held before, the read returns the posted (start, clicks, searches) with no bound or any bound the start meets |
| Clickthrough.WeekExample | apps/kpi/api.py:148 | a week posted for 2021-01-04 ends on 2021-01-11 |
| ActiveUsers.UsersIn | apps/kpi/api.py:275 | the distinct ids a month collects never include the falsy id 0 |
| ActiveUsers.MonthlyUsers.AddUser | apps/kpi/api.py:274-279 | `_add_user` adds a truthy id to its month's set, creating the set if needed, and ignores NULL and 0 |
| ActiveUsers.MonthlyUsers.AddUsers | apps/kpi/api.py:281-283 | `_add_users` leaves the dictionary its rows fold into, in order |
| ActiveUsers.MonthlyUsers.Rows | apps/kpi/api.py:289-290 | the rows read off the dictionary name each month exactly once, with the size of its set |
| ActiveUsers.AddedAllSpec | apps/kpi/api.py:274-283 | folding rows in adds exactly their distinct truthy ids to each month, and creates a month only when one of them falls in it |
| ActiveUsers.TallyOf | apps/kpi/api.py:286-288 | a dictionary started empty holds exactly each month's distinct truthy ids, for exactly the months that have one |
| ActiveUsers.TallyLastCount | apps/kpi/api.py:289-300 | through `merge_results`, a tally's rows give each first of a month the size of its set, and 0 for an absent month |
| ActiveUsers.TalliesMerge | apps/kpi/api.py:289-300 | merging listed tallies raises ValueError exactly when some month is outside the calendar. Otherwise there is one record per month some tally holds, newest first, and each name reads its own tally's count |
| ActiveUsers.UserRowsSpec | apps/kpi/api.py:287-288 | the creator rows, and likewise the reviewer rows, of one locale group contribute exactly that column's truthy ids, month by month |
| ActiveUsers.LocaleTally | apps/kpi/api.py:286-297 | a locale group's dictionary holds, for each month, the distinct truthy creators and reviewers of its revisions, and nothing else |
| ActiveUsers.KbOutcome | apps/kpi/api.py:265-300 | the KB contributors list raises ValueError exactly when an active month is outside the calendar |
| ActiveUsers.KbRecords | apps/kpi/api.py:265-300 | each KB record is a first of a month whose `en_us` and `non_en_us` fields are the distinct contributor counts of the two groups; the records are newest first |
| ActiveUsers.KbCoverage | apps/kpi/api.py:265-300 | there is a KB record for a month exactly when someone contributed in it |
| ActiveUsers.ActiveKbContributors | apps/kpi/api.py:265-300 | the whole resource: the error case, per-group distinct counts, one record per active month, newest first |
| ActiveUsers.LocalePartition | apps/kpi/api.py:287-295 | the en-US and non-en-US groups together count every contributor of the month, whatever the locale |
| ActiveUsers.LocaleRowsSplit | apps/kpi/api.py:287-295 | each revision's creator and reviewer rows land in the row lists of its own locale group: a row appears in a group's list exactly as often as that group has revisions giving it, and the two groups' lists together hold one row per revision |
| ActiveUsers.CountedOnce | apps/kpi/api.py:286-290 | example of the KB contributors count: a contributor who both wrote and reviewed a revision in one month is counted once |
| ActiveUsers.AnswererIff | apps/kpi/api.py:318-320 | a user is an active answerer of a month exactly when their id is non-zero and they wrote at least the threshold of answers that month |
| ActiveUsers.ThresholdMonotone | apps/kpi/api.py:320 | raising the threshold only drops answerers and never raises a month's count |
| ActiveUsers.PassingRowsSpec | apps/kpi/api.py:318-333 | the rows that pass `count__gte` contribute exactly the active answerers' ids, month by month |
| ActiveUsers.AnswererTallyRows | apps/kpi/api.py:330-334 | the answerers' dictionary holds each month's active answerers, and its rows list it |
| ActiveUsers.AnswerersOutcome | apps/kpi/api.py:317-337 | the answerers list raises ValueError exactly when a month with an active answerer is outside the calendar |
| ActiveUsers.AnswerersRecords | apps/kpi/api.py:317-337 | each answerers record is a first of a month whose `contributors` field is that month's number of active answerers. There is a record exactly for the months that have one, newest first |
| ActiveUsers.ActiveAnswerers | apps/kpi/api.py:317-337 | the whole resource: the error case, counts, coverage and order |

## Left out

- The Django ORM and SQL execution are not modelled; their results are inputs.
  - This covers `_qs_for`, `_monthly_qs_for`, `_cursor`, `cursor.execute` and the `extract(month/year from created)` columns.
  - `MetricKind.objects.get` becomes a lookup in the store's set of kind codes.
  - Grouped counts come in as row lists, and revisions and answers as event lists.
- The resources built only from `_qs_for` querysets are not modelled: the solution, vote and fast-response resources, including the `created < question.created + 3 days` filter. What they add is database filtering; `merge_results` itself is modelled.
- `.distinct()` on the creator and reviewer querysets is not modelled: the model passes every revision. Duplicates only re-add an id to a set, so the tallies are the same.
- The answerers' GROUP BY is modelled per answer row rather than per group. Each row carries its group's count, so the sets are the same.
- `_start_date` is not modelled, because it reads the clock (`date.today()`).
- `CachedResource` and its three-hour cache are not modelled: they are tastypie plumbing.
- The authentication and authorization classes are not modelled: they delegate to Django and tastypie.
- tastypie field declarations, serialization, `Struct` and `get_resource_uri` are not modelled. `obj_get` is not modelled either; it only raises NotImplementedError.
- `int()`'s extras are not modelled: surrounding whitespace, a sign, non-ASCII digits and non-string arguments. Pieces are strings, and a piece converts only when it is all ASCII digits.
- Posted values are modelled as integers or missing. A non-integer `searches` or `clicks` would be rejected or coerced by the database, which is not modelled. A posted `start` is modelled as text or missing (`Posted.start: Option<string>`). A JSON number or null there would make `text.split('-')` raise AttributeError (apps/kpi/api.py:421), and the model cannot express that input.
- Clickthrough.ObjGetList: no order is promised. The join has no ORDER BY, so the code promises no order.
- Clickthrough.ReadRatios: a `min_start` that is present but does not parse is dropped, as intended. The code as written never parses it and hands the raw text to the database, whose string-to-date comparison is not modelled (see Findings).
- Calendar dates are Python's: years 1..9999, and no time zones.
- SeriesMerge.RemapSpec: a row whose year or month does not fit a C `int` would make `date()` raise OverflowError, not ValueError. The model raises ValueError for every row outside the calendar. Rows come from `extract()` on stored dates, which always fit.

## Findings

| source | as written | input that shows it | evidently intended | confidence | as-written member | corrected member |
|---|---|---|---|---|---|---|
| apps/kpi/api.py:117-122 | `_parse_date()` is called without its argument, so it raises TypeError on every call; the `except` swallows it and `min_start` stays the raw query text | `?min_start=2001-07-30` (the docstring's own example) stays the string `"2001-07-30"`, never a date | `min_start` parsed to a date when it is one, dropped otherwise ("Make min_start either a date or None") | high that the call is missing its argument; medium on the intended fallback; not executed | Clickthrough.MinStartAsWritten (shown by Clickthrough.MinStartExample) | Clickthrough.MinStartIntended (proved in Clickthrough.MinStartRoundTrip, used by Clickthrough.ReadRatios) |
