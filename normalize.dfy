/*
 * The normaliser: every row gets its `YYYYMM` label from its week, and its
 * three price texts get their decimal comma turned into a dot, ready for
 * conversion to a number.
 */
module Normalize {
  import opened Calendar
  import opened YearMonth
  import opened Survey

  /** `text.replace(',', '.')`. */
  function ReplaceCommas(text: string): (r: string)
    ensures |r| == |text|
    ensures forall i :: 0 <= i < |text| ==> r[i] == (if text[i] == ',' then '.' else text[i])
  {
    if text == [] then []
    else
      var c := text[|text| - 1];
      ReplaceCommas(text[..|text| - 1]) + [if c == ',' then '.' else c]
  }

  /** After the rewrite no comma is left, and a second rewrite changes nothing. */
  lemma ReplaceCommasLeavesNoComma(text: string)
    ensures ',' !in ReplaceCommas(text)
    ensures ReplaceCommas(ReplaceCommas(text)) == ReplaceCommas(text)
  {
  }

  lemma DecimalCommaExamples()
    ensures ReplaceCommas("4,567") == "4.567"
    ensures ReplaceCommas("10,0") == "10.0"
  {
  }

  /** The derived columns of one row: its ANO_MES label and its three rewritten price texts. */
  function CleanRow(row: Row<string>): (r: Row<string>)
    requires ValidDate(row.start) && ValidDate(row.end)
    ensures r.yearMonth == MonthLabel(row.start) || r.yearMonth == MonthLabel(row.end)
    ensures r.yearMonth == MonthLabel(row.start)
            <==> (row.start.year == row.end.year && row.start.month == row.end.month)
                 || DaysInMonth(row.start.year, row.start.month) - row.start.day
                    > row.end.day - Weekday(Date(row.end.year, row.end.month, 1))
    ensures ',' !in r.avgPrice && ',' !in r.minPrice && ',' !in r.maxPrice
    ensures |r.avgPrice| == |row.avgPrice| && |r.minPrice| == |row.minPrice| && |r.maxPrice| == |row.maxPrice|
    ensures forall i :: 0 <= i < |row.avgPrice| ==>
              r.avgPrice[i] == (if row.avgPrice[i] == ',' then '.' else row.avgPrice[i])
    ensures forall i :: 0 <= i < |row.minPrice| ==>
              r.minPrice[i] == (if row.minPrice[i] == ',' then '.' else row.minPrice[i])
    ensures forall i :: 0 <= i < |row.maxPrice| ==>
              r.maxPrice[i] == (if row.maxPrice[i] == ',' then '.' else row.maxPrice[i])
    ensures r.state == row.state && r.city == row.city && r.region == row.region && r.product == row.product
    ensures r.start == row.start && r.end == row.end && r.stations == row.stations
  {
    ReplaceCommasLeavesNoComma(row.avgPrice);
    ReplaceCommasLeavesNoComma(row.minPrice);
    ReplaceCommasLeavesNoComma(row.maxPrice);
    var r := row.(yearMonth := AssignYearMonth(row.start, row.end),
                  avgPrice := ReplaceCommas(row.avgPrice),
                  minPrice := ReplaceCommas(row.minPrice),
                  maxPrice := ReplaceCommas(row.maxPrice));
    if row.start.year == row.end.year && row.start.month == row.end.month then r
    else StartMonthExactlyWhen(row.start, row.end); r
  }

  /** Every row of the table must carry two real dates for its label to be computed. */
  predicate DatedRows(rows: seq<Row<string>>) {
    forall i :: 0 <= i < |rows| ==> ValidDate(rows[i].start) && ValidDate(rows[i].end)
  }

  /**
   * `apply` with its result stored back: every element of the table is
   * overwritten in place by f of its old value, and nothing else changes.
   */
  method ApplyInPlace<T>(rows: array<T>, f: T --> T)
    requires forall i :: 0 <= i < rows.Length ==> f.requires(rows[i])
    modifies rows
    ensures forall i :: 0 <= i < rows.Length ==> rows[i] == f(old(rows[i]))
  {
    var i := 0;
    while i < rows.Length
      invariant 0 <= i <= rows.Length
      invariant forall j :: 0 <= j < i ==> rows[j] == f(old(rows[j]))
      invariant forall j :: i <= j < rows.Length ==> rows[j] == old(rows[j])
    {
      rows[i] := f(rows[i]);
      i := i + 1;
    }
  }

  /**
   * `clean_df`: every row gets its ANO_MES label and its three price texts
   * rewritten, in place. Rows do not depend on one another.
   */
  method CleanRows(rows: array<Row<string>>)
    requires DatedRows(rows[..])
    modifies rows
    ensures forall i :: 0 <= i < rows.Length ==> rows[i] == CleanRow(old(rows[i]))
  {
    ApplyInPlace(rows, CleanRow);
  }
}
