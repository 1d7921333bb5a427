/** Reporting over the stored series rows: the three counts of
    `generate_summary`, and the SliceThickness values `visualize_data`
    keeps for its histogram. The floating-point statistics and the
    plotting are not modelled. */
module Report {
  import opened Wrappers
  import opened Store

  // ---------------------------------------------------------------------
  // Summary counts

  /** The distinct StudyInstanceUID values among the series rows. */
  function SeriesStudies(series: map<string, SeriesRow>): set<string> {
    set k | k in series :: series[k].studyUid
  }

  /** The series rows of one study: a group of `GROUP BY StudyInstanceUID`. */
  function Group(series: map<string, SeriesRow>, study: string): set<string> {
    set k | k in series && series[k].studyUid == study
  }

  /** The series rows whose study is one of `studies`. */
  function RowsOf(series: map<string, SeriesRow>, studies: set<string>): set<string> {
    set k | k in series && series[k].studyUid in studies
  }

  /** Some element of a non-empty set. */
  ghost function Pick(s: set<string>): string
    requires s != {}
  {
    var x :| x in s; x
  }

  /** The SUM of the group sizes `COUNT(*)` over the given studies. */
  ghost function SumOfGroupSizes(series: map<string, SeriesRow>, studies: set<string>): nat
    decreases studies
  {
    if studies == {} then 0
    else
      var u := Pick(studies);
      |Group(series, u)| + SumOfGroupSizes(series, studies - {u})
  }

  /** An exact rational number `num / den`. */
  datatype Ratio = Ratio(num: nat, den: nat)

  /** The figures `generate_summary` prints, before formatting. */
  datatype Summary = Summary(totalStudies: nat, totalSlices: nat, averageSlicesPerStudy: Ratio)

  /** `generate_summary` over the series table: COUNT(DISTINCT
      StudyInstanceUID), COUNT(*), and AVG of the per-study counts, which
      is SQL NULL, printed as 0, when there are no rows. */
  ghost function GenerateSummary(series: map<string, SeriesRow>): Summary {
    var studies := SeriesStudies(series);
    Summary(
      |studies|,
      |series|,
      if studies == {} then Ratio(0, 1) else Ratio(SumOfGroupSizes(series, studies), |studies|))
  }

  /** The group sizes over some studies add up to the rows of those studies. */
  lemma {:induction false} SumOfGroupSizesCountsRows(series: map<string, SeriesRow>, studies: set<string>)
    ensures SumOfGroupSizes(series, studies) == |RowsOf(series, studies)|
    ensures studies <= SeriesStudies(series) ==> SumOfGroupSizes(series, studies) >= |studies|
    decreases studies
  {
    if studies == {} {
      assert RowsOf(series, studies) == {};
    } else {
      var u := Pick(studies);
      var rest := studies - {u};
      SumOfGroupSizesCountsRows(series, rest);
      assert RowsOf(series, studies) == Group(series, u) + RowsOf(series, rest);
      assert Group(series, u) !! RowsOf(series, rest);
      if studies <= SeriesStudies(series) {
        var k :| k in series && series[k].studyUid == u;
        assert k in Group(series, u);
      }
    }
  }

  /** With rows present, the average is exactly the number of series rows
      over the number of distinct studies, and there is at least one
      study and no more studies than rows; with none, all three figures
      are 0. */
  lemma AverageIsSlicesOverStudies(series: map<string, SeriesRow>)
    ensures var s := GenerateSummary(series);
      if series == map[] then
        s.totalStudies == 0 && s.totalSlices == 0 && s.averageSlicesPerStudy.num == 0
      else
        && 1 <= s.totalStudies <= s.totalSlices
        && s.averageSlicesPerStudy == Ratio(s.totalSlices, s.totalStudies)
  {
    var studies := SeriesStudies(series);
    SumOfGroupSizesCountsRows(series, studies);
    assert RowsOf(series, studies) == series.Keys;
    if series != map[] {
      var k :| k in series;
      assert series[k].studyUid in studies;
    }
  }

  /** Under referential integrity every counted study is a row of the
      studies table, so the count is at most that table's size. */
  lemma StudyCountWithinStudiesTable(t: Tables)
    requires Integrity(t)
    ensures GenerateSummary(t.series).totalStudies <= |t.studies|
  {
    var studies := SeriesStudies(t.series);
    assert studies <= t.studies.Keys;
    assert t.studies.Keys == studies + (t.studies.Keys - studies);
  }

  // ---------------------------------------------------------------------
  // The numeric filter of the histogram

  predicate IsAsciiDigit(c: char) {
    '0' <= c <= '9'
  }

  /** Every character is a digit (true of the empty string). */
  predicate AllDigits(s: string) {
    forall i :: 0 <= i < |s| ==> IsAsciiDigit(s[i])
  }

  /** `str.isdigit()`, for ASCII digits: non-empty and all digits. */
  predicate IsDigitString(s: string) {
    |s| > 0 && AllDigits(s)
  }

  /** `s.replace('.', '', 1)`: the first `.` removed. */
  function RemoveFirstDot(s: string): (r: string)
    ensures '.' in s ==> |r| == |s| - 1
    ensures '.' !in s ==> r == s
  {
    if s == [] then []
    else if s[0] == '.' then s[1..]
    else [s[0]] + RemoveFirstDot(s[1..])
  }

  /** The test applied to each selected SliceThickness text. */
  predicate PassesNumericFilter(s: string) {
    IsDigitString(RemoveFirstDot(s))
  }

  /** Only digits and points. */
  predicate DigitsOrPoints(s: string) {
    forall i :: 0 <= i < |s| ==> IsAsciiDigit(s[i]) || s[i] == '.'
  }

  /** No two points. */
  predicate AtMostOnePoint(s: string) {
    forall i, j :: 0 <= i < j < |s| && s[i] == '.' ==> s[j] != '.'
  }

  /** An unsigned decimal numeral: digits with at most one point, and at
      least one digit ("2", "1.5", "1.", ".5"). */
  predicate IsPlainDecimal(s: string) {
    DigitsOrPoints(s) && AtMostOnePoint(s) && exists i :: 0 <= i < |s| && IsAsciiDigit(s[i])
  }

  /** Removing the first point leaves only digits exactly when the text is
      digits and points with at most one point. */
  lemma {:induction false} RemoveFirstDotAllDigits(s: string)
    ensures AllDigits(RemoveFirstDot(s)) <==> DigitsOrPoints(s) && AtMostOnePoint(s)
  {
    if s != [] {
      var t := s[1..];
      assert forall i :: 0 < i < |s| ==> s[i] == t[i - 1];
      if s[0] == '.' {
        assert AllDigits(t) <==> DigitsOrPoints(s) && AtMostOnePoint(s) by {
          if AllDigits(t) {
            assert forall i :: 0 < i < |s| ==> IsAsciiDigit(s[i]);
          }
          if DigitsOrPoints(s) && AtMostOnePoint(s) {
            forall i | 0 <= i < |t|
              ensures IsAsciiDigit(t[i])
            {
              assert s[i + 1] != '.';
            }
          }
        }
      } else {
        RemoveFirstDotAllDigits(t);
        var r := RemoveFirstDot(t);
        assert RemoveFirstDot(s) == [s[0]] + r;
        var x := [s[0]] + r;
        assert AllDigits(x) <==> IsAsciiDigit(s[0]) && AllDigits(r) by {
          assert x[0] == s[0];
          assert forall i :: 0 <= i < |r| ==> x[i + 1] == r[i];
          if IsAsciiDigit(s[0]) && AllDigits(r) {
            forall i | 0 <= i < |x|
              ensures IsAsciiDigit(x[i])
            {
              if i > 0 {
                assert x[i] == r[i - 1];
              }
            }
          }
        }
        assert DigitsOrPoints(s) <==> IsAsciiDigit(s[0]) && DigitsOrPoints(t);
        assert AtMostOnePoint(s) <==> AtMostOnePoint(t) by {
          if AtMostOnePoint(t) {
            forall i, j | 0 <= i < j < |s| && s[i] == '.'
              ensures s[j] != '.'
            {
              assert t[i - 1] == '.';
            }
          }
        }
      }
    }
  }

  /** The filter keeps a text exactly when it is an unsigned decimal
      numeral: "1.5" and "2" pass, "1.2.3", "-1" and "" do not. */
  lemma NumericFilterIsPlainDecimal(s: string)
    ensures PassesNumericFilter(s) <==> IsPlainDecimal(s)
  {
    RemoveFirstDotAllDigits(s);
    var r := RemoveFirstDot(s);
    if DigitsOrPoints(s) && AtMostOnePoint(s) {
      if '.' in s {
        var p :| 0 <= p < |s| && s[p] == '.';
        assert |r| > 0 <==> |s| > 1;
        if |s| > 1 {
          var q := if p == 0 then 1 else 0;
          assert s[q] != '.' by {
            if q < p { } else { }
          }
        }
      } else {
        if |s| > 0 {
          assert IsAsciiDigit(s[0]);
        }
      }
    }
  }

  /** The filter on the texts named in its comment. */
  lemma NumericFilterExamples()
    ensures PassesNumericFilter("1.5") && PassesNumericFilter("2")
    ensures !PassesNumericFilter("1.2.3") && !PassesNumericFilter("-1") && !PassesNumericFilter("")
  {
    assert RemoveFirstDot("1.5") == "15";
    assert RemoveFirstDot("1.2.3") == "12.3";
    assert !IsAsciiDigit("12.3"[2]);
    assert RemoveFirstDot("-1") == "-1";
    assert !IsAsciiDigit("-1"[0]);
  }

  /** The sentinel never passes the numeric filter, so the query's
      `!= 'Unknown'` condition removes nothing the filter would keep. */
  lemma UnknownFailsNumericFilter()
    ensures !PassesNumericFilter("Unknown")
  {
    assert RemoveFirstDot("Unknown") == "Unknown";
    assert !IsAsciiDigit("Unknown"[0]);
  }

  /** A SliceThickness cell the histogram keeps: selected by the query
      (not NULL, not "Unknown") and passing the numeric filter. */
  predicate Plotted(cell: Option<string>) {
    cell.Some? && cell.value != "Unknown" && PassesNumericFilter(cell.value)
  }

  /** The texts `visualize_data` converts to numbers and plots, from the
      SliceThickness column in the order the query returns it. */
  function PlottedThickness(column: seq<Option<string>>): seq<string> {
    if column == [] then []
    else
      var n := |column| - 1;
      PlottedThickness(column[..n]) + (if Plotted(column[n]) then [column[n].value] else [])
  }

  /** A cell holding a text is plotted exactly when the text is an unsigned
      decimal numeral ("Unknown" is not one). */
  lemma PlottedCell(s: string)
    ensures Plotted(Some(s)) <==> IsPlainDecimal(s)
  {
    NumericFilterIsPlainDecimal(s);
    UnknownFailsNumericFilter();
  }

  /** A text is plotted exactly when the column holds it and it is an
      unsigned decimal numeral. */
  lemma {:induction false} PlottedThicknessExact(column: seq<Option<string>>, s: string)
    ensures s in PlottedThickness(column) <==> Some(s) in column && IsPlainDecimal(s)
  {
    PlottedCell(s);
    if column != [] {
      var n := |column| - 1;
      PlottedThicknessExact(column[..n], s);
      assert column == column[..n] + [column[n]];
    }
  }

  /** A histogram counts repeats: each unsigned decimal text is plotted as
      many times as the column holds it, and any other text never. */
  lemma {:induction false} PlottedThicknessCount(column: seq<Option<string>>, s: string)
    ensures multiset(PlottedThickness(column))[s] == (if IsPlainDecimal(s) then multiset(column)[Some(s)] else 0)
  {
    PlottedCell(s);
    if column != [] {
      var n := |column| - 1;
      PlottedThicknessCount(column[..n], s);
      assert column == column[..n] + [column[n]];
      if Plotted(column[n]) {
        PlottedCell(column[n].value);
      }
    }
  }

  /** An order of the series rows: every row exactly once, as the query
      returns them (SQLite does not promise which order). */
  predicate IsRowOrder(series: map<string, SeriesRow>, order: seq<string>) {
    && (forall i, j :: 0 <= i < j < |order| ==> order[i] != order[j])
    && (forall k :: k in order ==> k in series)
    && (forall k :: k in series ==> k in order)
  }

  /** The SliceThickness cells of the series rows, in the given order. */
  function ThicknessColumn(series: map<string, SeriesRow>, order: seq<string>): (column: seq<Option<string>>)
    requires forall k :: k in order ==> k in series
    ensures |column| == |order|
    ensures forall i :: 0 <= i < |order| ==> column[i] == series[order[i]].sliceThickness
  {
    seq(|order|, i requires 0 <= i < |order| => series[order[i]].sliceThickness)
  }

  /** Over the stored series rows, in whatever order the query returns
      them, the histogram gets exactly the stored SliceThickness texts that
      are unsigned decimal numerals. */
  lemma PlottedFromStore(series: map<string, SeriesRow>, order: seq<string>, s: string)
    requires IsRowOrder(series, order)
    ensures s in PlottedThickness(ThicknessColumn(series, order)) <==>
      (exists k :: k in series && series[k].sliceThickness == Some(s)) && IsPlainDecimal(s)
  {
    var column := ThicknessColumn(series, order);
    PlottedThicknessExact(column, s);
    if Some(s) in column {
      var i :| 0 <= i < |column| && column[i] == Some(s);
      assert order[i] in series && series[order[i]].sliceThickness == Some(s);
    }
    if k :| k in series && series[k].sliceThickness == Some(s) {
      var i :| 0 <= i < |order| && order[i] == k;
      assert column[i] == Some(s);
    }
  }

  /** The rows of `keys` whose SliceThickness cell is `cell`. */
  function RowsHolding(series: map<string, SeriesRow>, keys: seq<string>, cell: Option<string>): set<string> {
    set k | k in keys && k in series && series[k].sliceThickness == cell
  }

  /** Extending the order by one key extends the column by that row's cell. */
  lemma ColumnSnoc(series: map<string, SeriesRow>, keys: seq<string>, k: string)
    requires forall x :: x in keys ==> x in series
    requires k in series
    ensures ThicknessColumn(series, keys + [k]) == ThicknessColumn(series, keys) + [series[k].sliceThickness]
  {
  }

  /** Extending the order by a new key adds that key to the rows holding
      its own cell, and to no other. */
  lemma RowsHoldingSnoc(series: map<string, SeriesRow>, keys: seq<string>, k: string, cell: Option<string>)
    requires k in series && k !in keys
    ensures |RowsHolding(series, keys + [k], cell)| ==
      |RowsHolding(series, keys, cell)| + (if series[k].sliceThickness == cell then 1 else 0)
  {
    if series[k].sliceThickness == cell {
      assert RowsHolding(series, keys + [k], cell) == RowsHolding(series, keys, cell) + {k};
    } else {
      assert RowsHolding(series, keys + [k], cell) == RowsHolding(series, keys, cell);
    }
  }

  /** Each cell occurs in the column as often as there are distinct rows
      among `keys` that hold it. */
  lemma {:induction false} ColumnCountsRows(series: map<string, SeriesRow>, keys: seq<string>, cell: Option<string>)
    requires forall k :: k in keys ==> k in series
    requires forall i, j :: 0 <= i < j < |keys| ==> keys[i] != keys[j]
    ensures multiset(ThicknessColumn(series, keys))[cell] == |RowsHolding(series, keys, cell)|
  {
    if keys != [] {
      var n := |keys| - 1;
      var prefix := keys[..n];
      assert keys == prefix + [keys[n]];
      ColumnCountsRows(series, prefix, cell);
      ColumnSnoc(series, prefix, keys[n]);
      RowsHoldingSnoc(series, prefix, keys[n], cell);
    }
  }

  /** Whatever order the query returns the rows in, the histogram plots
      each unsigned decimal text once per stored series row holding it. */
  lemma PlottedCountFromStore(series: map<string, SeriesRow>, order: seq<string>, s: string)
    requires IsRowOrder(series, order)
    ensures multiset(PlottedThickness(ThicknessColumn(series, order)))[s] ==
      (if IsPlainDecimal(s) then |set k | k in series && series[k].sliceThickness == Some(s)| else 0)
  {
    PlottedThicknessCount(ThicknessColumn(series, order), s);
    ColumnCountsRows(series, order, Some(s));
    assert RowsHolding(series, order, Some(s)) == set k | k in series && series[k].sliceThickness == Some(s);
  }

  /** The texts `generate_summary` converts with an unguarded `float()`:
      every non-NULL value but "Unknown". */
  function SummaryThickness(column: seq<Option<string>>): seq<string> {
    if column == [] then []
    else
      var n := |column| - 1;
      var cell := column[n];
      SummaryThickness(column[..n]) + (if cell.Some? && cell.value != "Unknown" then [cell.value] else [])
  }

  /** The summary's selection does not apply the numeric filter: a stored
      text such as "1.2.3" reaches its `float()`. */
  lemma SummarySelectsUnfilteredText()
    ensures var column := [Some("1.2.3")];
      "1.2.3" in SummaryThickness(column) && "1.2.3" !in PlottedThickness(column)
  {
    var column := [Some("1.2.3")];
    assert column[..0] == [];
    NumericFilterExamples();
  }
}
