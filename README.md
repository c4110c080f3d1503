# Fuel-price survey: month assignment, normalisation and aggregation

This project models the core of a script that summarises a weekly
fuel-price survey of Brazilian municipalities. Each survey row covers one
week (DATA INICIAL to DATA FINAL) of one product in one city. It carries the
average, minimum and maximum resale price as text with a decimal comma.

The script does three things, and the model covers each:

- **Month assignment** (`calcula_regra_ano_mes`). Every week is filed under one
  `YYYYMM` label (ANO_MES). The label is the start's month when the days left
  in the start month exceed the end's day of the month minus the value read
  from `calendar.monthrange(end)[0]`. Otherwise the label is the end's month.
  That value is the weekday of the end month's first day (Monday = 0). It is
  not the constant 1, which the docstring's "the month with more days in that
  week" calls for. The model states the rule as written and proves how it
  relates to the intended rule and to an explicit day count.
- **Normalisation** (`clean_df`). Every row gets its label, and each of its
  three price texts gets its commas turned into dots. This is modelled as an
  in-place pass over an array of rows.
- **Aggregation** (`main`).
  - Group-by passes: the mean average price per (state, city, month, product),
    per (state, product) and per (region, product).
  - Ranges and variance groups per (state, city, month, product).
  - The spread per (state, city, product): the highest maximum price minus
    the lowest minimum price.
  - Per product, the five largest spreads.
  - Grouped tables are maps from key to result. Prices are exact reals.

Modules:

- `Calendar` (calendar.dfy): the proleptic Gregorian calendar, with weekdays
  counted from 0001-01-01, a Monday.
- `YearMonth` (year_month.dfy): labels and the month rule.
- `Survey` (survey.dfy): the row type.
- `Normalize` (normalize.dfy): the comma rewrite and the cleaning pass.
- `Aggregate` (aggregate.dfy): the group-by, range, spread and ranking passes.

## Model

| member | source | states |
|---|---|---|
| Calendar.DaysInMonth | main.py:48 | `monthrange(y, m)[1]`: 28 to 31 days, with February following the Gregorian leap rule |
| Calendar.MonthRange | main.py:48-49 | `monthrange(y, m)`: a weekday in 0..6 and the month's length; the last day is a valid date and the day after it is not |
| Calendar.DayNumber | main.py:49 | a date's day number lies within its year: at least the days before its year and below the days before the next year |
| Calendar.DayNumberOrder | main.py:49 | day numbers order dates as the calendar does (year, then month, then day), and two dates share a number only when they are equal |
| Calendar.Weekday | main.py:49 | the weekday of a valid date lies in 0..6 (Monday = 0) |
| Calendar.NextDayNumber | main.py:49 | consecutive calendar days have consecutive day numbers, across month and year ends |
| Calendar.AddDaysDayNumber | main.py:49 | k days later the day number has grown by exactly k |
| Calendar.WeekdayAfter | main.py:49 | k days later the weekday has advanced by k, modulo 7 |
| Calendar.AddDaysWithinMonth | main.py:48-51 | inside one month, adding k days adds k to the day of the month |
| Calendar.KnownMondays | main.py:49 | 0001-01-01 and 2019-07-01 are Mondays (weekday 0) |
| YearMonth.Decimal | main.py:48-53 | `%Y` prints a year as a non-empty string of decimal digits |
| YearMonth.DecimalRoundTrip | main.py:48-49 | `int(strftime('%Y'))` gives back the year |
| YearMonth.TwoDigits | main.py:48-49 | `%m` prints a month as exactly two decimal digits |
| YearMonth.MonthLabel | main.py:52-53 | `strftime('%Y%m')`: at least one year digit followed by two month digits |
| YearMonth.TwoDigitsRoundTrip | main.py:48-49 | `int(strftime('%m'))` gives back the month |
| YearMonth.MonthLabelParts | main.py:52-53 | a label is all digits; its last two digits read as the month and the rest as the year; for years 1000 to 9999 it has 6 characters |
| YearMonth.SameLabelIffSameMonth | main.py:52-53 | two dates get the same label if and only if they have the same year and month |
| YearMonth.AssignYearMonth | main.py:32-53 | the label is the start's or the end's `YYYYMM`; when both dates lie in one month it is that month |
| YearMonth.StartMonthExactlyWhen | main.py:48-53 | across a month boundary: the start month if and only if days-in-month(start) − day(start) > day(end) − weekday(1st of end month); the end month, ties included, otherwise |
| YearMonth.IntendedYearMonth | main.py:34-35 | the comparison the docstring calls for (constant 1 in place of the weekday); its label is one of the two dates' labels |
| YearMonth.MajorityYearMonth | main.py:34-35 | "the month with more days in that week": the label of the start's or of the last day's month |
| YearMonth.DaysInWindow | main.py:34-35 | of n consecutive days, at most n fall in a given month |
| YearMonth.WindowWithinMonth | main.py:34-35 | a window inside one month has all its days in that month and none elsewhere |
| YearMonth.WindowSplit | main.py:34-35 | a window's count in a month is the sum of the counts of its two halves |
| YearMonth.CrossingWindow | main.py:34-36 | a window leaving its month enters the next month on day 1 and ends on day span − t |
| YearMonth.CrossingCounts | main.py:34-36 | in a crossing window, t + 1 days lie in the start month and span − t in the end month |
| YearMonth.IntendedIsMajority | main.py:34-35 | for windows of up to 29 days, the intended rule picks the month holding more of the days (ties go to the end month) |
| YearMonth.SundayWeekFirstWeekday | main.py:49 | in a Sunday-to-Saturday week that crosses a month boundary, the end month starts on weekday t, where t is the number of days left in the start month |
| YearMonth.AsWrittenAgreesOnSundayWeeks | main.py:34-53 | on Sunday-to-Saturday weeks the rule as written equals both the intended rule and the day-count majority |
| YearMonth.AsWrittenMisfilesMondayWeek | main.py:49-53 | the Monday week 2019-07-29..2019-08-04 is filed as written under 201907, but 201908 by intent and by day count |
| YearMonth.EndOfJuneWeek | main.py:48-53 | the week 2019-06-28..2019-07-04 is filed under 201907 |
| Normalize.ReplaceCommas | main.py:25-27 | `replace(',', '.')` keeps the length, turns every comma into a dot and leaves every other character as it was |
| Normalize.ReplaceCommasLeavesNoComma | main.py:25-27 | no comma is left, and a second rewrite changes nothing |
| Normalize.DecimalCommaExamples | main.py:25-27 | "4,567" becomes "4.567" and "10,0" becomes "10.0" |
| Normalize.CleanRow | main.py:22-27 | one row: its label is its start's or its end's `YYYYMM`, and the start's exactly when both dates share a month or days-in-month(start) − day(start) > day(end) − weekday(1st of end month); each price text keeps its length, every comma becomes a dot and every other character stays; every other column is unchanged |
| Normalize.ApplyInPlace | main.py:24-27 | `apply` stored back into the table: every element becomes f of its old value |
| Normalize.CleanRows | main.py:12-29 | `clean_df`: every row of the array is replaced in place by its cleaned form |
| Aggregate.Select | main.py:79 | the group of key k holds exactly the rows with key k, each with its multiplicity in the table |
| Aggregate.SelectPresentKey | main.py:79 | the group of a key present in the table is not empty |
| Aggregate.UniqueKeys | main.py:131 | `unique()`: holds exactly the keys present in the rows, each once |
| Aggregate.GroupBy | main.py:79 | `groupby`: the keys are exactly those present in the rows, and each maps to its non-empty group |
| Aggregate.Min | main.py:105 | the group minimum is one of the values and no value is smaller |
| Aggregate.Max | main.py:105 | the group maximum is one of the values and no value is larger |
| Aggregate.SumBounds | main.py:79 | n values between lo and hi sum to between n·lo and n·hi |
| Aggregate.MeanBetween | main.py:79 | the mean of values between lo and hi lies between lo and hi |
| Aggregate.MeanAvgPrice | main.py:79 | the mean of a group's average prices lies between its smallest and largest average price |
| Aggregate.Mean | main.py:79 | the mean lies between the group's smallest and largest value |
| Aggregate.GroupAgg | main.py:79-108 | `groupby(key).agg(f)`: the keys are exactly those present in the rows, and each holds f of the non-empty group of rows with that key |
| Aggregate.MeanBy | main.py:79-91 | one mean per key present in the rows, each between the smallest and largest average price of its group |
| Aggregate.MonthlyCityMeans | main.py:79 | pass A: keys are exactly the (state, city, month, product) combinations present; every row's key has a mean |
| Aggregate.StateMeans | main.py:87 | pass B by state: keys are exactly the (state, product) combinations present |
| Aggregate.RegionMeans | main.py:91 | pass B by region: keys are exactly the (region, product) combinations present |
| Aggregate.ColumnFacts | main.py:105 | a column holds exactly the group's values of that price |
| Aggregate.RangesOf | main.py:105-108 | each range is the group maximum minus the group minimum, so it is ≥ 0; the lows and highs bound every row and are attained by rows of the group |
| Aggregate.AbsoluteRanges | main.py:105-108 | pass C: keys are exactly the (state, city, month, product) combinations present; each range is high − low ≥ 0 |
| Aggregate.AbsoluteRangesAttained | main.py:105-108 | each entry's lows and highs are prices of rows with that entry's key; with AbsoluteRangesBoundRows, they are the group's minimum and maximum |
| Aggregate.AbsoluteRangesBoundRows | main.py:105-108 | every row's minimum and maximum prices lie within its entry's lows and highs |
| Aggregate.VarianceGroups | main.py:101 | the variance pass groups by exactly the (state, city, month, product) combinations present, each group non-empty and holding exactly the rows with that key |
| Aggregate.SpreadOf | main.py:125-127 | spread = highest maximum − lowest minimum; both are bounds over the group and both are attained |
| Aggregate.SpreadTable | main.py:125-127 | one entry per (state, city, product) present, each exactly once; every entry is its group's spread |
| Aggregate.SpreadTableKeys | main.py:125 | entries have distinct keys, and a key has an entry if and only if it is present in the rows |
| Aggregate.SpreadTableBoundsRows | main.py:125-127 | an entry's lowest minimum and highest maximum bound every row of its group and are attained by such rows |
| Aggregate.InsertBySpread | main.py:129 | inserting adds exactly the new entry: one more element, the same multiset plus the entry |
| Aggregate.SortBySpread | main.py:129 | the sorted table has the same entries with the same multiplicities |
| Aggregate.SortedCons | main.py:129 | a descending sequence stays descending under a head no smaller than any of its entries |
| Aggregate.HeadIsLargest | main.py:129 | the head of a descending sequence has the largest spread |
| Aggregate.SortedTail | main.py:129 | the tail of a descending sequence is descending |
| Aggregate.BelowHead | main.py:129 | entries inserted behind the head stay below it |
| Aggregate.InsertBySpreadSorts | main.py:129 | inserting into a descending sequence keeps it descending and adds exactly the new entry |
| Aggregate.InsertBehindHead | main.py:129 | an entry smaller than the head is inserted behind it, keeping the sequence descending and adding exactly that entry |
| Aggregate.SortBySpreadSorts | main.py:129 | `sort_values(ascending=False)`: the result is descending by spread and a permutation of the table |
| Aggregate.OfProduct | main.py:132 | `df_sorted[df_sorted['PRODUTO'] == product]` keeps no more entries than the table has |
| Aggregate.OfProductSelects | main.py:132 | filtering keeps exactly the product's entries with their multiplicities, and keeps descending order |
| Aggregate.OfProductCounts | main.py:132 | each entry of the product keeps its multiplicity and no other entry is kept |
| Aggregate.OfProductKeepsOrder | main.py:132 | filtering a descending sequence leaves it descending |
| Aggregate.TopFive | main.py:129-133 | at most five entries |
| Aggregate.TopFiveIsTopRanking | main.py:129-133 | exactly min(5, the product's entry count) entries; only that product's; drawn from the table; descending by spread; no entry of the product left out has a larger spread than a listed one |
| Aggregate.RankedIsFilteredTable | main.py:129-132 | the product's entries of the sorted table are the product's entries of the table, now descending |
| Aggregate.PrefixOfSorted | main.py:133 | `[:5]` of a descending sequence is descending, and nothing after it has a larger spread than anything in it |
| Aggregate.TopFives | main.py:131-133 | the loop body: one top five per product, in order |
| Aggregate.RankByProduct | main.py:131-133 | for each product present, once, its top five of the spread table |

## Left out

- CSV loading and every `print`: these are input and output. The tables are values handed to and returned from the passes.
- The pandas display options: they only affect presentation.
- `datetime.strptime`: dates are taken as already valid (year, month, day) triples with year ≥ 1. The upper year bound of 9999 is not enforced.
- Years below 1000: `%Y` is taken to print them without padding. That is the C library's output on glibc and older Python versions; newer Python versions pad to four digits. The survey's years have four digits either way, and only years 1000 to 9999 are promised six-character labels.
- `float()` and floating-point rounding: the aggregation passes take the converted prices as exact reals, so means, ranges and spreads are exact.
- Normalize.CleanRow: does not state that the rewritten text parses as a number; number parsing is not modelled.
- Aggregate.VarianceGroups: models only the groups of the variance pass, not the sample variances or the NaN pandas gives for one-row groups.
- Aggregate.TopFive: its own contract states only the length bound. The ranking properties are in Aggregate.TopFiveIsTopRanking.
- The column-name flattening with `''.join`: an indexing artefact of pandas.
- Row order among equal spreads: the program's multi-column `sort_values` keeps the grouped table's (state, city) order among entries of equal product and spread. The model sorts by insertion and does not capture that order. Its ranking lemmas hold for any order of equal spreads.
- Sorting by (product, spread) descending and then filtering one product is modelled as sorting by spread and then filtering. The product's entries come out the same either way, up to the order of equal spreads.
- The order of rows and keys in the grouped output tables: they are maps.
- Missing keys: `groupby` drops rows whose state, city, month, region or product is missing (NaN). The model's keys are strings, which cannot be missing, so no row is dropped.
- YearMonth.MonthLabel: its own contract states only the length; the digits and their round trips are in YearMonth.MonthLabelParts.
- YearMonth.MajorityYearMonth: its own contract states only that the label is one of the two; that it names the majority month is YearMonth.IntendedIsMajority.
- Aggregate.OfProduct: its own contract states only the length bound; what it keeps is in Aggregate.OfProductSelects.
- Aggregate.SortBySpread: its own contract states the length and the multiset; the descending order is in Aggregate.SortBySpreadSorts.
- Aggregate.AbsoluteRanges: its own contract states the keys and range arithmetic; that lows and highs are the group's minima and maxima is in Aggregate.AbsoluteRangesBoundRows and Aggregate.AbsoluteRangesAttained.
- Aggregate.MeanBy: states where each mean lies, not that it equals the float mean pandas computes.

## Findings

| source | as written | input that shows it | evidently intended | confidence | as-written member | corrected member |
|---|---|---|---|---|---|---|
| main.py:49 | `calendar.monthrange(...)[0]` is the weekday of the end month's first day (Monday = 0), so the rule compares days left in the start month with day(end) − weekday | the Monday-to-Sunday week 2019-07-29..2019-08-04 gives 201907, though four of its seven days are in August (1 August 2019 is a Thursday, weekday 3) | compare with day(end) − 1, which picks the month holding more of the week's days (201908 here), as the docstring at main.py:34-35 and the comment at main.py:47 describe | not executed | YearMonth.AsWrittenMisfilesMondayWeek | YearMonth.IntendedYearMonth |

The intended rule is proved to pick the majority month for windows of up to
29 days (YearMonth.IntendedIsMajority). On Sunday-to-Saturday weeks, the
rule as written is proved to give the same label as the intended rule
(YearMonth.AsWrittenAgreesOnSundayWeeks). So among seven-day weeks, the two disagree
only on weeks that do not start on a Sunday. The normaliser (Normalize.CleanRow) keeps the
rule as written, because it models what the program computes.
