/**
 The derived views of the quarterly comparison charts: the placeholder filter,
 year-over-year growth, the per-quarter pivot, the sorted legend of years and
 the key statistics with their no-data branch.
 */
module QuarterlyTrend {
  import opened Wrappers
  import opened Sequences
  import opened DecimalText
  import opened QuarterlySeries

  // ---------------------------------------------------------------------------
  // Placeholder filter
  // ---------------------------------------------------------------------------

  /** A point carries data; 0 (and anything below it) is a placeholder. */
  predicate HasData(d: DataPoint)
  {
    d.amount > 0.0
  }

  /** Every amount is positive, which is what makes a valid point a usable YoY baseline. */
  predicate AllPositive(valid: seq<DataPoint>)
  {
    forall i :: 0 <= i < |valid| ==> valid[i].amount > 0.0
  }

  /** `validData`: the points with data, in input order. */
  function ValidData(data: seq<DataPoint>): (valid: seq<DataPoint>)
    ensures AllPositive(valid)
    ensures forall i :: 0 <= i < |valid| ==> valid[i] in data
    ensures forall i :: 0 <= i < |data| && data[i].amount > 0.0 ==> data[i] in valid
    ensures valid == [] <==> forall i :: 0 <= i < |data| ==> data[i].amount <= 0.0
  {
    var valid := Filter(data, HasData);
    assert forall i :: 0 <= i < |data| && data[i].amount > 0.0 ==> data[i] in valid by {
      forall i | 0 <= i < |data| && data[i].amount > 0.0 ensures data[i] in valid {
        FilterMembership(data, HasData, data[i]);
      }
    }
    assert valid == [] <==> forall i :: 0 <= i < |data| ==> data[i].amount <= 0.0 by {
      if valid != [] {
        assert valid[0] in data;
      }
    }
    valid
  }

  /** `validData` keeps exactly the points with data, in their original relative order. */
  lemma ValidDataInOrder(data: seq<DataPoint>)
    ensures Selects(ValidData(data), data, HasData)
  {
    FilterSelects(data, HasData);
  }

  // ---------------------------------------------------------------------------
  // Year-over-year growth
  // ---------------------------------------------------------------------------

  /** `d` is the same quarter of the year before `current`. */
  predicate IsPriorYear(d: DataPoint, current: DataPoint)
  {
    d.year == current.year - 1 && d.quarter == current.quarter
  }

  function PriorYearOf(current: DataPoint): DataPoint -> bool
  {
    d => IsPriorYear(d, current)
  }

  /** `k` is the position of the first point of `valid` that is the prior-year quarter of `current`. */
  ghost predicate FirstPriorYear(valid: seq<DataPoint>, current: DataPoint, k: int)
  {
    && 0 <= k < |valid|
    && IsPriorYear(valid[k], current)
    && forall j :: 0 <= j < k ==> !IsPriorYear(valid[j], current)
  }

  /**
   The `yoyGrowth` of `current`: the percentage by which its amount differs from
   the first valid point of the same quarter one year earlier, or `None` (null)
   when there is no such point. Growing that baseline by the percentage gives
   back the current amount exactly.
   */
  function YoyGrowth(valid: seq<DataPoint>, current: DataPoint): (g: Option<real>)
    requires AllPositive(valid)
    ensures g.None? <==> forall i :: 0 <= i < |valid| ==> !IsPriorYear(valid[i], current)
    ensures g.Some? ==> exists k :: GrowthFrom(valid, current, k, g.value)
  {
    match FirstIndex(valid, PriorYearOf(current))
    case None => None
    case Some(k) =>
      var g := GrowthPercent(valid[k].amount, current.amount);
      assert GrowthFrom(valid, current, k, g);
      Some(g)
  }

  /** The change from `previous` to `current` as a percentage of `previous`: growing `previous` by it reaches `current`. */
  function GrowthPercent(previous: real, current: real): (g: real)
    requires previous > 0.0
    ensures previous * (100.0 + g) == 100.0 * current
  {
    var q := (current - previous) / previous;
    assert q * previous == current - previous;
    q * 100.0
  }

  /** `g` is the growth of `current` over the baseline at `k`: that baseline grown by `g` percent is `current`. */
  ghost predicate GrowthFrom(valid: seq<DataPoint>, current: DataPoint, k: int, g: real)
  {
    FirstPriorYear(valid, current, k) && valid[k].amount * (100.0 + g) == 100.0 * current.amount
  }

  /** A point of the series, unchanged, together with its year-over-year growth. */
  datatype AnnotatedPoint = AnnotatedPoint(point: DataPoint, yoyGrowth: Option<real>)

  /** `dataWithYoY`: every valid point, in order, annotated with its growth. */
  function AnnotateYoY(valid: seq<DataPoint>): (r: seq<AnnotatedPoint>)
    requires AllPositive(valid)
    ensures |r| == |valid|
    ensures forall i :: 0 <= i < |r| ==> r[i].point == valid[i]
    ensures forall i :: 0 <= i < |r| ==> r[i].yoyGrowth == YoyGrowth(valid, valid[i])
  {
    seq(|valid|, i requires 0 <= i < |valid| => AnnotatedPoint(valid[i], YoyGrowth(valid, valid[i])))
  }

  /** A non-null growth is non-negative exactly when the amount did not fall below the baseline. */
  lemma GrowthSign(valid: seq<DataPoint>, current: DataPoint)
    requires AllPositive(valid)
    requires YoyGrowth(valid, current).Some?
    ensures exists k ::
              FirstPriorYear(valid, current, k) && (YoyGrowth(valid, current).value >= 0.0 <==> current.amount >= valid[k].amount)
  {
    var g := YoyGrowth(valid, current).value;
    var k :| GrowthFrom(valid, current, k, g);
    GrowthSignOfAmounts(valid[k].amount, current.amount, g);
  }

  lemma GrowthSignOfAmounts(previous: real, current: real, g: real)
    requires previous > 0.0
    requires previous * (100.0 + g) == 100.0 * current
    ensures g >= 0.0 <==> current >= previous
  {
    if g >= 0.0 {
      assert previous * (100.0 + g) >= previous * 100.0;
    } else {
      assert previous * (100.0 + g) < previous * 100.0;
    }
  }

  // ---------------------------------------------------------------------------
  // Quarter pivot
  // ---------------------------------------------------------------------------

  /** Some point of `valid` is in quarter `q` of year `y`. */
  ghost predicate HasPoint(valid: seq<DataPoint>, y: int, q: int)
  {
    exists i :: 0 <= i < |valid| && valid[i].year == y && valid[i].quarter == q
  }

  /** No later point of `valid` has the same year and quarter as the one at `i`. */
  ghost predicate IsLastOfCell(valid: seq<DataPoint>, i: int)
    requires 0 <= i < |valid|
  {
    forall j :: i < j < |valid| ==> !(valid[j].year == valid[i].year && valid[j].quarter == valid[i].quarter)
  }

  /**
   The year-to-amount entries of the row for quarter `q`: the points of that
   quarter written one after the other into the row, so a later point of the
   same year overwrites an earlier one.
   */
  function QuarterAmounts(valid: seq<DataPoint>, q: int): (m: map<int, real>)
    ensures forall y :: y in m <==> HasPoint(valid, y, q)
    ensures forall i :: 0 <= i < |valid| && valid[i].quarter == q && IsLastOfCell(valid, i) ==>
      valid[i].year in m && m[valid[i].year] == valid[i].amount
    decreases |valid|
  {
    if valid == [] then map[]
    else
      var init := valid[..|valid| - 1];
      var d := valid[|valid| - 1];
      var before := QuarterAmounts(init, q);
      assert init + [d] == valid;
      WriteCell(init, d, q, before);
      if d.quarter == q then before[d.year := d.amount] else before
  }

  /** `m` holds, for quarter `q`, exactly the cells of `valid`, each with the amount of its last point. */
  ghost predicate Tabulates(valid: seq<DataPoint>, q: int, m: map<int, real>)
  {
    && (forall y :: y in m <==> HasPoint(valid, y, q))
    && (forall i :: 0 <= i < |valid| && valid[i].quarter == q && IsLastOfCell(valid, i) ==>
          valid[i].year in m && m[valid[i].year] == valid[i].amount)
  }

  /** Writing one more point into a tabulated row tabulates the longer series. */
  lemma WriteCell(init: seq<DataPoint>, d: DataPoint, q: int, before: map<int, real>)
    requires Tabulates(init, q, before)
    ensures Tabulates(init + [d], q, if d.quarter == q then before[d.year := d.amount] else before)
  {
    var valid := init + [d];
    var m := if d.quarter == q then before[d.year := d.amount] else before;
    HasPointAppend(init, d, q);
    LastOfCellInPrefix(init, d);
    forall y ensures y in m <==> HasPoint(valid, y, q) {
    }
    forall i | 0 <= i < |valid| && valid[i].quarter == q && IsLastOfCell(valid, i)
      ensures valid[i].year in m && m[valid[i].year] == valid[i].amount
    {
      if i == |init| {
        assert valid[i] == d;
      } else {
        assert valid[i] == init[i];
        assert IsLastOfCell(init, i);
        assert !(d.year == init[i].year && d.quarter == q) by {
          assert valid[|init|] == d;
        }
      }
    }
  }

  lemma HasPointAppend(init: seq<DataPoint>, d: DataPoint, q: int)
    ensures forall y :: HasPoint(init + [d], y, q) <==> HasPoint(init, y, q) || (d.year == y && d.quarter == q)
  {
    var valid := init + [d];
    forall y ensures HasPoint(valid, y, q) <==> HasPoint(init, y, q) || (d.year == y && d.quarter == q) {
      if HasPoint(init, y, q) {
        var i :| 0 <= i < |init| && init[i].year == y && init[i].quarter == q;
        assert valid[i] == init[i];
      }
      if d.year == y && d.quarter == q {
        assert valid[|init|] == d;
      }
      if HasPoint(valid, y, q) {
        var i :| 0 <= i < |valid| && valid[i].year == y && valid[i].quarter == q;
        if i < |init| {
          assert init[i] == valid[i];
        }
      }
    }
  }

  lemma LastOfCellInPrefix(init: seq<DataPoint>, d: DataPoint)
    ensures forall i :: 0 <= i < |init| && IsLastOfCell(init + [d], i) ==> IsLastOfCell(init, i)
  {
    var valid := init + [d];
    forall i | 0 <= i < |init| && IsLastOfCell(valid, i) ensures IsLastOfCell(init, i) {
      forall j | i < j < |init| ensures !(init[j].year == init[i].year && init[j].quarter == init[i].quarter) {
        assert init[j] == valid[j];
      }
    }
  }

  /** One bar group of the comparison chart: the label `Q<n>` and its amounts keyed by year. */
  datatype QuarterRow = QuarterRow(quarter: string, amounts: map<int, real>)

  /** The row for quarter `q`: its label and, for each year with a point in that quarter, an amount. */
  function Row(valid: seq<DataPoint>, q: int): (row: QuarterRow)
    ensures row.quarter == QuarterLabel(q)
    ensures forall y :: y in row.amounts <==> HasPoint(valid, y, q)
  {
    QuarterRow(QuarterLabel(q), QuarterAmounts(valid, q))
  }

  /** The label of quarter `q`: the letter Q followed by the quarter's number. */
  function QuarterLabel(q: int): (text: string)
    ensures |text| >= 2 && text[0] == 'Q'
    ensures 1 <= q <= 9 ==> |text| == 2
  {
    "Q" + IntText(q)
  }

  /** Different quarters get different labels, so no two rows of the pivot share one. */
  lemma QuarterLabelInjective(a: int, b: int)
    requires QuarterLabel(a) == QuarterLabel(b)
    ensures a == b
  {
    assert QuarterLabel(a)[1..] == IntText(a);
    assert QuarterLabel(b)[1..] == IntText(b);
    IntTextInjective(a, b);
  }

  /**
   `quarterComparisonData`: exactly four rows, Q1 to Q4, whatever the input.
   Row `k` holds a year exactly when some valid point is in quarter `k + 1` of
   that year, and the amount of the last such point. Years without a point
   have no entry, never a zero.
   */
  function Pivot(valid: seq<DataPoint>): (rows: seq<QuarterRow>)
    ensures |rows| == 4
    ensures rows[0].quarter == "Q1" && rows[1].quarter == "Q2"
    ensures rows[2].quarter == "Q3" && rows[3].quarter == "Q4"
    ensures forall k, y :: 0 <= k < 4 ==> (y in rows[k].amounts <==> HasPoint(valid, y, k + 1))
    ensures forall i :: 0 <= i < |valid| && 1 <= valid[i].quarter <= 4 && IsLastOfCell(valid, i) ==>
      var row := rows[valid[i].quarter - 1].amounts;
      valid[i].year in row && row[valid[i].year] == valid[i].amount
  {
    assert NatText(1) == "1" && NatText(2) == "2" && NatText(3) == "3" && NatText(4) == "4";
    [Row(valid, 1), Row(valid, 2), Row(valid, 3), Row(valid, 4)]
  }

  /** Appending a point writes its cell into its own quarter's entries only. */
  lemma QuarterAmountsAppend(valid: seq<DataPoint>, d: DataPoint, q: int)
    ensures QuarterAmounts(valid + [d], q)
         == if d.quarter == q then QuarterAmounts(valid, q)[d.year := d.amount] else QuarterAmounts(valid, q)
  {
    var s := valid + [d];
    assert s[..|s| - 1] == valid;
  }

  /** Appending a point whose quarter is outside 1..4 changes no row. */
  lemma OutOfRangeQuarterIgnored(valid: seq<DataPoint>, d: DataPoint)
    requires !(1 <= d.quarter <= 4)
    ensures Pivot(valid + [d]) == Pivot(valid)
  {
    QuarterAmountsAppend(valid, d, 1);
    QuarterAmountsAppend(valid, d, 2);
    QuarterAmountsAppend(valid, d, 3);
    QuarterAmountsAppend(valid, d, 4);
  }

  /** Appending a point overwrites the cell of its year in its quarter's row and changes nothing else. */
  lemma LaterPointOverwrites(valid: seq<DataPoint>, d: DataPoint)
    requires 1 <= d.quarter <= 4
    ensures forall k :: 0 <= k < 4 && k != d.quarter - 1 ==> Pivot(valid + [d])[k] == Pivot(valid)[k]
    ensures Pivot(valid + [d])[d.quarter - 1].amounts == Pivot(valid)[d.quarter - 1].amounts[d.year := d.amount]
  {
    var s := valid + [d];
    PivotRows(valid);
    PivotRows(s);
    QuarterAmountsAppend(valid, d, 1);
    QuarterAmountsAppend(valid, d, 2);
    QuarterAmountsAppend(valid, d, 3);
    QuarterAmountsAppend(valid, d, 4);
  }

  /** Row `k` of the pivot is the row of quarter `k + 1`. */
  lemma PivotRows(valid: seq<DataPoint>)
    ensures forall k :: 0 <= k < 4 ==> Pivot(valid)[k] == Row(valid, k + 1)
  {
  }

  /** At most one point per year and quarter: the series the chart is designed for. */
  ghost predicate UniqueCells(valid: seq<DataPoint>)
  {
    forall i, j :: 0 <= i < j < |valid| ==> !(valid[i].year == valid[j].year && valid[i].quarter == valid[j].quarter)
  }

  /** Every point is in one of the four quarters. */
  ghost predicate QuartersInRange(valid: seq<DataPoint>)
  {
    forall i :: 0 <= i < |valid| ==> 1 <= valid[i].quarter <= 4
  }

  /** The sum of the amounts of the points of year `y`. */
  function YearTotal(valid: seq<DataPoint>, y: int): real
  {
    if valid == [] then 0.0
    else YearTotal(valid[..|valid| - 1], y) + (if valid[|valid| - 1].year == y then valid[|valid| - 1].amount else 0.0)
  }

  /** The amount a row shows for year `y`, counting a missing key as 0. */
  function CellOf(amounts: map<int, real>, y: int): real
  {
    if y in amounts then amounts[y] else 0.0
  }

  /** The sum over `rows` of the amounts shown for year `y`. */
  function RowsTotal(rows: seq<QuarterRow>, y: int): real
  {
    if rows == [] then 0.0 else CellOf(rows[0].amounts, y) + RowsTotal(rows[1..], y)
  }

  /**
   When every year has at most one point per quarter and all quarters are in
   1..4, the four rows of the pivot together show, for each year, exactly the
   sum of that year's amounts. Without these conditions the pivot loses
   amounts: a later point of the same cell overwrites the earlier one
   (`LaterPointOverwrites`) and a point outside 1..4 is in no row
   (`OutOfRangeQuarterIgnored`).
   */
  lemma {:induction false} PivotYearTotal(valid: seq<DataPoint>, y: int)
    requires UniqueCells(valid) && QuartersInRange(valid)
    ensures RowsTotal(Pivot(valid), y) == YearTotal(valid, y)
    decreases |valid|
  {
    if valid == [] {
      EmptyPivotTotal(y);
    } else {
      PrefixKeepsCells(valid);
      PivotYearTotal(valid[..|valid| - 1], y);
      PivotYearTotalStep(valid, y);
    }
  }

  /** The pivot of no points shows 0 for every year. */
  lemma EmptyPivotTotal(y: int)
    ensures RowsTotal(Pivot([]), y) == YearTotal([], y)
  {
    EmptyPivot();
    EmptyRowsTotal(Pivot([]), y);
  }

  /** A last point in a new cell adds its amount to its own year's total of the pivot. */
  lemma PivotYearTotalStep(valid: seq<DataPoint>, y: int)
    requires valid != [] && 1 <= valid[|valid| - 1].quarter <= 4
    requires forall i :: 0 <= i < |valid| - 1 ==>
      !(valid[i].year == valid[|valid| - 1].year && valid[i].quarter == valid[|valid| - 1].quarter)
    requires RowsTotal(Pivot(valid[..|valid| - 1]), y) == YearTotal(valid[..|valid| - 1], y)
    ensures RowsTotal(Pivot(valid), y) == YearTotal(valid, y)
  {
    var init := valid[..|valid| - 1];
    var d := valid[|valid| - 1];
    assert forall i :: 0 <= i < |init| ==> init[i] == valid[i];
    assert valid == init + [d];
    NewCellAbsent(init, d);
    LaterPointOverwrites(init, d);
    RowsTotalWrite(Pivot(init), Pivot(init + [d]), d.quarter - 1, d.year, d.amount, y);
  }

  /** The pivot of no points has four empty rows. */
  lemma EmptyPivot()
    ensures forall k :: 0 <= k < |Pivot([])| ==> Pivot([])[k].amounts == map[]
  {
    var rows := Pivot([]);
    forall k | 0 <= k < |rows| ensures rows[k].amounts == map[] {
      assert forall y :: y !in rows[k].amounts;
    }
  }

  /** Dropping the last point keeps both conditions, and that point starts a cell of its own. */
  lemma PrefixKeepsCells(valid: seq<DataPoint>)
    requires valid != [] && UniqueCells(valid) && QuartersInRange(valid)
    ensures var init := valid[..|valid| - 1];
      && UniqueCells(init) && QuartersInRange(init) && 1 <= valid[|valid| - 1].quarter <= 4
      && forall i :: 0 <= i < |init| ==> !(init[i].year == valid[|valid| - 1].year && init[i].quarter == valid[|valid| - 1].quarter)
  {
    var init := valid[..|valid| - 1];
    assert forall i :: 0 <= i < |init| ==> init[i] == valid[i];
  }

  /** A point whose cell no earlier point has finds no key for its year in its quarter's row. */
  lemma NewCellAbsent(init: seq<DataPoint>, d: DataPoint)
    requires 1 <= d.quarter <= 4
    requires forall i :: 0 <= i < |init| ==> !(init[i].year == d.year && init[i].quarter == d.quarter)
    ensures d.year !in Pivot(init)[d.quarter - 1].amounts
  {
    assert !HasPoint(init, d.year, d.quarter);
  }

  /** Rows without any key show 0 for every year. */
  lemma {:induction false} EmptyRowsTotal(rows: seq<QuarterRow>, y: int)
    requires forall k :: 0 <= k < |rows| ==> rows[k].amounts == map[]
    ensures RowsTotal(rows, y) == 0.0
    decreases |rows|
  {
    if rows != [] {
      EmptyRowsTotal(rows[1..], y);
    }
  }

  /** Writing a new key `x` into row `k` adds its amount to the total of year `x` only. */
  lemma {:induction false} RowsTotalWrite(before: seq<QuarterRow>, after: seq<QuarterRow>, k: nat, x: int, a: real, y: int)
    requires |after| == |before| && k < |before|
    requires forall j :: 0 <= j < |before| && j != k ==> after[j] == before[j]
    requires x !in before[k].amounts && after[k].amounts == before[k].amounts[x := a]
    ensures RowsTotal(after, y) == RowsTotal(before, y) + (if x == y then a else 0.0)
    decreases |before|
  {
    if k == 0 {
      assert after[1..] == before[1..];
    } else {
      RowsTotalWrite(before[1..], after[1..], k - 1, x, a, y);
    }
  }

  // ---------------------------------------------------------------------------
  // Legend of years
  // ---------------------------------------------------------------------------

  /** `years`: the distinct years of the valid points, in the order JavaScript's default (textual) sort gives them. */
  function Years(valid: seq<DataPoint>): (years: seq<int>)
    ensures forall y :: y in years <==> exists i :: 0 <= i < |valid| && valid[i].year == y
    ensures NoDuplicates(years)
    ensures TextSorted(years)
  {
    var all := YearsOf(valid);
    var distinct := Distinct(all);
    var years := TextSort(distinct);
    DistinctYears(valid, distinct);
    LexSortedNoDuplicates(years);
    years
  }

  /** The year of every point, in input order. */
  function YearsOf(valid: seq<DataPoint>): (all: seq<int>)
    ensures |all| == |valid|
    ensures forall i :: 0 <= i < |valid| ==> all[i] == valid[i].year
  {
    seq(|valid|, i requires 0 <= i < |valid| => valid[i].year)
  }

  /** The distinct years are exactly the years some point has. */
  lemma DistinctYears(valid: seq<DataPoint>, distinct: seq<int>)
    requires distinct == Distinct(YearsOf(valid))
    ensures forall y :: y in distinct <==> exists i :: 0 <= i < |valid| && valid[i].year == y
  {
    var all := YearsOf(valid);
    forall y ensures y in distinct <==> exists i :: 0 <= i < |valid| && valid[i].year == y {
      if y in distinct {
        var j :| 0 <= j < |distinct| && distinct[j] == y;
        var i :| 0 <= i < |all| && all[i] == y;
        assert valid[i].year == y;
      }
      if exists i :: 0 <= i < |valid| && valid[i].year == y {
        var i :| 0 <= i < |valid| && valid[i].year == y;
        assert all[i] == y;
      }
    }
  }

  /** Strict text order leaves no room for a repeated year. */
  lemma LexSortedNoDuplicates(s: seq<int>)
    requires TextSorted(s)
    ensures NoDuplicates(s)
  {
    forall i, j | 0 <= i < j < |s| ensures s[i] != s[j] {
      if s[i] == s[j] {
        LexLessIrreflexive(IntText(s[i]));
      }
    }
  }

  /**
   For non-negative years written with the same number of digits the textual
   order is the numeric one: the legend is ascending.
   */
  lemma YearsAscending(valid: seq<DataPoint>)
    requires forall i :: 0 <= i < |valid| ==> valid[i].year >= 0
    requires forall i, j :: 0 <= i < |valid| && 0 <= j < |valid| ==> |NatText(valid[i].year)| == |NatText(valid[j].year)|
    ensures forall i, j :: 0 <= i < j < |Years(valid)| ==> Years(valid)[i] < Years(valid)[j]
  {
    var years := Years(valid);
    forall i | 0 <= i < |years| ensures years[i] >= 0 {
      assert years[i] in years;
    }
    forall i, j | 0 <= i < j < |years| ensures |NatText(years[i])| == |NatText(years[j])| {
      assert years[i] in years && years[j] in years;
      var a :| 0 <= a < |valid| && valid[a].year == years[i];
      var b :| 0 <= b < |valid| && valid[b].year == years[j];
    }
    TextSortedIsAscending(years);
  }

  /** Years of different digit counts need not be in numeric order: 1000 is placed before 999. */
  lemma YearsTextualOrder(a: DataPoint, b: DataPoint)
    requires a.year == 999 && b.year == 1000
    ensures Years([a, b]) == [1000, 999]
  {
    assert YearsOf([a, b]) == [999, 1000];
    NineHundredNinetyNineAndThousand();
    assert TextBefore(1000, 999) by {
      assert IntText(999) == "999" && IntText(1000) == "1000";
      assert LexLess("1000", "999");
    }
    YearsOfTwo(999, 1000);
  }

  /** Negative years need not be in numeric order either: -1 is placed before -2. */
  lemma NegativeYearsTextualOrder(a: DataPoint, b: DataPoint)
    requires a.year == -2 && b.year == -1
    ensures Years([a, b]) == [-1, -2]
  {
    assert YearsOf([a, b]) == [-2, -1];
    assert TextBefore(-1, -2) by {
      assert NatText(1) == "1" && NatText(2) == "2";
      assert IntText(-1) == "-1" && IntText(-2) == "-2";
      assert LexLess("-1", "-2");
    }
    YearsOfTwo(-2, -1);
  }

  /** Two distinct years of which the second comes first in text order come out swapped. */
  lemma YearsOfTwo(x: int, y: int)
    requires x != y && TextBefore(y, x)
    ensures TextSort(Distinct([x, y])) == [y, x]
  {
    DistinctOfTwo(x, y);
    SortOfTwo(x, y);
  }

  lemma DistinctOfTwo(x: int, y: int)
    requires x != y
    ensures Distinct([x, y]) == [x, y]
  {
    assert [x, y][..1] == [x] && [x][..0] == [];
  }

  lemma SortOfTwo(x: int, y: int)
    requires x != y && TextBefore(y, x)
    ensures TextSort([x, y]) == [y, x]
  {
    TextBeforeIsStrictTotalOrder();
    assert [x, y][1..] == [y];
    assert SortBy([y], TextBefore) == [y];
    assert InsertBy(x, [y], TextBefore) == [y] + InsertBy(x, [], TextBefore);
  }

  lemma NineHundredNinetyNineAndThousand()
    ensures NatText(999) == "999" && NatText(1000) == "1000"
  {
    assert NatText(9) == ['9'];
    assert NatText(99) == NatText(9) + ['9'];
    assert NatText(999) == NatText(99) + ['9'];
    assert NatText(1) == ['1'];
    assert NatText(10) == NatText(1) + ['0'];
    assert NatText(100) == NatText(10) + ['0'];
    assert NatText(1000) == NatText(100) + ['0'];
  }

  // ---------------------------------------------------------------------------
  // Key statistics
  // ---------------------------------------------------------------------------

  /** The sum of the amounts, added left to right starting from 0. */
  function Total(valid: seq<DataPoint>): (t: real)
    ensures AllPositive(valid) ==> (t > 0.0 <==> valid != [])
  {
    if valid == [] then 0.0 else Total(valid[..|valid| - 1]) + valid[|valid| - 1].amount
  }

  /** The largest amount of a non-empty series. */
  function MaxAmount(valid: seq<DataPoint>): (m: real)
    requires valid != []
    ensures forall i :: 0 <= i < |valid| ==> valid[i].amount <= m
    ensures exists i :: 0 <= i < |valid| && valid[i].amount == m
  {
    if |valid| == 1 then valid[0].amount
    else
      var rest := MaxAmount(valid[1..]);
      assert forall i :: 1 <= i < |valid| ==> valid[i] == valid[1..][i - 1];
      if valid[0].amount >= rest then valid[0].amount else rest
  }

  /** The smallest amount of a non-empty series. */
  function MinAmount(valid: seq<DataPoint>): (m: real)
    requires valid != []
    ensures forall i :: 0 <= i < |valid| ==> m <= valid[i].amount
    ensures exists i :: 0 <= i < |valid| && valid[i].amount == m
  {
    if |valid| == 1 then valid[0].amount
    else
      var rest := MinAmount(valid[1..]);
      assert forall i :: 1 <= i < |valid| ==> valid[i] == valid[1..][i - 1];
      if valid[0].amount <= rest then valid[0].amount else rest
  }

  function AmountIs(a: real): DataPoint -> bool
  {
    (d: DataPoint) => d.amount == a
  }

  /** An extreme quarter: its amount and the label of the first point with that amount. */
  datatype Extreme = Extreme(amount: real, quarterLabel: string)

  /** `k` is the first point of `valid` with the amount of `e`, and `e` carries its label. */
  ghost predicate FirstAttaining(valid: seq<DataPoint>, k: int, e: Extreme)
  {
    && 0 <= k < |valid|
    && valid[k].amount == e.amount
    && valid[k].quarterLabel == e.quarterLabel
    && forall j :: 0 <= j < k ==> valid[j].amount != e.amount
  }

  /** The label of the first point with amount `a`, which some point has. */
  function FirstLabel(valid: seq<DataPoint>, a: real): (e: Extreme)
    requires exists i :: 0 <= i < |valid| && valid[i].amount == a
    ensures e.amount == a
    ensures exists k :: FirstAttaining(valid, k, e)
  {
    match FirstIndex(valid, AmountIs(a))
    case Some(k) =>
      assert FirstAttaining(valid, k, Extreme(a, valid[k].quarterLabel));
      Extreme(a, valid[k].quarterLabel)
    case None =>
      assert false; Extreme(a, "")
  }

  /** `a` taken `count` times makes up `total`. */
  ghost predicate IsAverage(a: real, total: real, count: nat)
  {
    a * count as real == total
  }

  /** The total shared equally over `count` quarters. */
  function Average(total: real, count: nat): (a: real)
    requires count > 0
    ensures IsAverage(a, total, count)
  {
    total / count as real
  }

  /** The key statistics, or the "no data yet" state taken when no point has data. */
  datatype Statistics =
    | NoData
    | Statistics(total: real, count: nat, average: real, best: Extreme, worst: Extreme)

  function Summarize(valid: seq<DataPoint>): (r: Statistics)
    ensures r.NoData? <==> valid == []
    ensures r.Statistics? ==> r.count == |valid| && r.total == Total(valid)
    ensures r.Statistics? ==> r.count > 0 && IsAverage(r.average, r.total, r.count)
    ensures r.Statistics? ==> forall i :: 0 <= i < |valid| ==> r.worst.amount <= valid[i].amount <= r.best.amount
    ensures r.Statistics? ==> exists k :: FirstAttaining(valid, k, r.best)
    ensures r.Statistics? ==> exists k :: FirstAttaining(valid, k, r.worst)
  {
    if valid == [] then NoData
    else
      var total := Total(valid);
      Statistics(total, |valid|, Average(total, |valid|),
                 FirstLabel(valid, MaxAmount(valid)), FirstLabel(valid, MinAmount(valid)))
  }

  /** `total` lies between `count` times `lo` and `count` times `hi`. */
  ghost predicate TotalWithin(total: real, count: nat, lo: real, hi: real)
  {
    count as real * lo <= total <= count as real * hi
  }

  /** The total lies between count times the smallest and count times the largest amount. */
  lemma {:induction false} TotalBounds(valid: seq<DataPoint>, lo: real, hi: real)
    requires forall i :: 0 <= i < |valid| ==> lo <= valid[i].amount <= hi
    ensures TotalWithin(Total(valid), |valid|, lo, hi)
    decreases |valid|
  {
    if valid != [] {
      var init := valid[..|valid| - 1];
      var last := valid[|valid| - 1].amount;
      assert forall i :: 0 <= i < |init| ==> init[i] == valid[i];
      TotalBounds(init, lo, hi);
      assert Total(valid) == Total(init) + last;
      TotalWithinStep(Total(init), |init|, lo, hi, last);
    }
  }

  /** Adding one amount within the bounds keeps the running total within them. */
  lemma TotalWithinStep(total: real, count: nat, lo: real, hi: real, x: real)
    requires TotalWithin(total, count, lo, hi) && lo <= x <= hi
    ensures TotalWithin(total + x, count + 1, lo, hi)
  {
  }

  /** The average quarter lies between the worst and the best quarter. */
  lemma AverageBetweenExtremes(valid: seq<DataPoint>)
    requires valid != []
    ensures Summarize(valid).worst.amount <= Summarize(valid).average <= Summarize(valid).best.amount
  {
    var s := Summarize(valid);
    TotalBounds(valid, s.worst.amount, s.best.amount);
    AverageWithinBounds(s.average, s.total, s.count, s.worst.amount, s.best.amount);
  }

  lemma AverageWithinBounds(a: real, total: real, count: nat, lo: real, hi: real)
    requires count > 0 && IsAverage(a, total, count)
    requires TotalWithin(total, count, lo, hi)
    ensures lo <= a <= hi
  {
  }

  // ---------------------------------------------------------------------------
  // The whole transform
  // ---------------------------------------------------------------------------

  /** Everything the charts derive from one quarterly data set. */
  datatype Report = Report(
    valid: seq<DataPoint>,
    withYoY: seq<AnnotatedPoint>,
    comparison: seq<QuarterRow>,
    years: seq<int>,
    statistics: Statistics)

  function Analyze(quarterlyData: QuarterlyData): (r: Report)
    ensures r.valid == ValidData(quarterlyData.data)
    ensures |r.withYoY| == |r.valid| && |r.comparison| == 4
    ensures r.statistics.NoData? <==> forall i :: 0 <= i < |quarterlyData.data| ==> quarterlyData.data[i].amount <= 0.0
  {
    var valid := ValidData(quarterlyData.data);
    Report(valid, AnnotateYoY(valid), Pivot(valid), Years(valid), Summarize(valid))
  }
}
