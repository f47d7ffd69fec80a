# Quarterly comparison and report-page grouping, in Dafny

This project models two pieces of the Grünerløkka place-analysis web site:

- **The quarterly comparison component.** It takes a list of quarterly bank transaction totals (year, quarter, label, amount):
  - it drops placeholder points;
  - it annotates each remaining point with its growth over the same quarter of the previous year;
  - it pivots the points into four rows Q1..Q4 keyed by year;
  - it lists the distinct years for the legend;
  - it formats amounts and percentages, and colours each growth cell;
  - it shows total, average, best and worst quarter, or a "no data" notice when nothing is left.
- **The grouping on the 2024 annual-report page.** It splits an analysis's optional screenshot list into the galleries the page shows. These are the competitor map, the competition gallery without that map, and one gallery each for card trade, movement, visitors, international visitors and development.

Modules:

| file | module | contents |
|---|---|---|
| `wrappers.dfy` | `Wrappers` | `Option`, standing for JavaScript's `undefined` / `null` |
| `sequences.dfy` | `Sequences` | `Filter`, `Find`, `Distinct` and a comparator sort, with their characterisations |
| `decimal_text.dfy` | `DecimalText` | decimal text of integers, string order, and the textual sort used by `Array.prototype.sort()` |
| `quarterly_series.dfy` | `QuarterlySeries` | the data points and their container |
| `quarterly_trend.dfy` | `QuarterlyTrend` | valid data, year-over-year growth, pivot, years, summary statistics |
| `quarterly_display.dfy` | `QuarterlyDisplay` | currency tiers, percentage sign, growth colour |
| `place_analysis.dfy` | `PlaceAnalysis` | `ScreenshotData` and its eleven categories |
| `report_page.dfy` | `ReportPage` | the page's screenshot galleries |

Amounts are exact reals, so no rounding is modelled. Optional fields are `Option`, and string-literal unions are datatypes.

Three behaviours of the code are modelled as written, even where a reader might expect otherwise:

- **Filtering.** The filter keeps `amount > 0`, so negative amounts are dropped as well as the zero placeholders its comment mentions.
- **Sorting of years.** The years are sorted with JavaScript's default comparator, which compares decimal text, not numbers. `YearsTextualOrder` shows the consequence: 999 and 1000 come out as `[1000, 999]`. `YearsAscending` proves the order is numeric when the years are non-negative and all written with the same number of digits.
- **Pivot totals.** A pivot row keeps only the last point of each year. `PivotYearTotal` proves the rows add up to each year's total when every year has at most one point per quarter and every quarter is 1..4.

## Model

Source cells are paths within the repository, with line ranges.

| member | source | states |
|---|---|---|
| QuarterlyTrend.ValidData | natural-state-place-analysis-grunerlokka-2025/src/components/analyser/QuarterlyComparisonCharts.tsx:48-51 | every kept point has a positive amount and comes from the input; every input point with a positive amount is kept; nothing is kept exactly when every amount is ≤ 0 |
| QuarterlyTrend.ValidDataInOrder | natural-state-place-analysis-grunerlokka-2025/src/components/analyser/QuarterlyComparisonCharts.tsx:49 | the valid points are a subsequence of the input (original relative order) that holds every positive-amount point, as many as the input has |
| QuarterlyTrend.YoyGrowth | natural-state-place-analysis-grunerlokka-2025/src/components/analyser/QuarterlyComparisonCharts.tsx:56-62 | growth is null exactly when no valid point has the previous year and the same quarter; otherwise it is the relative change over the FIRST such point in input order (prev·(100+g) = 100·current, prev > 0 so the division is defined) |
| QuarterlyTrend.GrowthPercent | natural-state-place-analysis-grunerlokka-2025/src/components/analyser/QuarterlyComparisonCharts.tsx:61 | the percentage g satisfies previous·(100+g) = 100·current, so applying g to the previous amount gives back the current one |
| QuarterlyTrend.AnnotateYoY | natural-state-place-analysis-grunerlokka-2025/src/components/analyser/QuarterlyComparisonCharts.tsx:54-69 | same length and order as the valid points; element i is valid point i unchanged plus its year-over-year growth |
| QuarterlyTrend.GrowthSign | natural-state-place-analysis-grunerlokka-2025/src/components/analyser/QuarterlyComparisonCharts.tsx:60-62 | a non-null growth is ≥ 0 exactly when the current amount is ≥ the amount of the first previous-year point |
| QuarterlyTrend.GrowthSignOfAmounts | natural-state-place-analysis-grunerlokka-2025/src/components/analyser/QuarterlyComparisonCharts.tsx:61 | for a positive previous amount, the growth percentage is non-negative exactly when the amount did not fall |
| QuarterlyTrend.QuarterAmounts | natural-state-place-analysis-grunerlokka-2025/src/components/analyser/QuarterlyComparisonCharts.tsx:75-82 | a year is a key exactly when some valid point is in that year and quarter; its value is the amount of the last such point |
| QuarterlyTrend.WriteCell | natural-state-place-analysis-grunerlokka-2025/src/components/analyser/QuarterlyComparisonCharts.tsx:80-82 | writing one more point into a row that tabulates a series gives a row that tabulates the series with that point appended |
| QuarterlyTrend.Row | natural-state-place-analysis-grunerlokka-2025/src/components/analyser/QuarterlyComparisonCharts.tsx:74-85 | the row of quarter q carries the label of q and a key for year y exactly when some valid point is in year y, quarter q |
| QuarterlyTrend.QuarterLabel | natural-state-place-analysis-grunerlokka-2025/src/components/analyser/QuarterlyComparisonCharts.tsx:77 | `Q${q}`: starts with `Q` followed by at least one character, two characters for quarters 1 to 9 |
| QuarterlyTrend.QuarterLabelInjective | natural-state-place-analysis-grunerlokka-2025/src/components/analyser/QuarterlyComparisonCharts.tsx:77 | different quarters get different labels |
| QuarterlyTrend.Pivot | natural-state-place-analysis-grunerlokka-2025/src/components/analyser/QuarterlyComparisonCharts.tsx:72-86 | exactly four rows labelled Q1, Q2, Q3, Q4 in that order, for any input; row k has a key for year y exactly when a valid point is in year y, quarter k+1; the value is that of the last such point; years without a point have no key |
| QuarterlyTrend.PivotYearTotal | natural-state-place-analysis-grunerlokka-2025/src/components/analyser/QuarterlyComparisonCharts.tsx:72-86 | when each (year, quarter) cell has at most one valid point and every quarter is 1..4, the amounts the four rows show for a year (a missing key counting 0) add up to the sum of that year's valid amounts |
| QuarterlyTrend.QuarterAmountsAppend | natural-state-place-analysis-grunerlokka-2025/src/components/analyser/QuarterlyComparisonCharts.tsx:80-82 | appending a point updates its own quarter's row at its year and leaves every other quarter's row as it was |
| QuarterlyTrend.OutOfRangeQuarterIgnored | natural-state-place-analysis-grunerlokka-2025/src/components/analyser/QuarterlyComparisonCharts.tsx:73-75 | a point whose quarter is not 1..4 changes no row of the pivot |
| QuarterlyTrend.LaterPointOverwrites | natural-state-place-analysis-grunerlokka-2025/src/components/analyser/QuarterlyComparisonCharts.tsx:80-82 | a later point overwrites the cell of its year in its quarter's row and no other row changes |
| QuarterlyTrend.Years | natural-state-place-analysis-grunerlokka-2025/src/components/analyser/QuarterlyComparisonCharts.tsx:89-92 | holds exactly the years of the valid points, each once, in the order of their decimal text |
| QuarterlyTrend.YearsAscending | natural-state-place-analysis-grunerlokka-2025/src/components/analyser/QuarterlyComparisonCharts.tsx:90 | when the years are non-negative and all have the same number of digits, the legend years are strictly ascending |
| QuarterlyTrend.YearsTextualOrder | natural-state-place-analysis-grunerlokka-2025/src/components/analyser/QuarterlyComparisonCharts.tsx:90 | with years 999 and 1000 the legend is [1000, 999]: the default sort is textual, not numeric |
| QuarterlyTrend.NegativeYearsTextualOrder | natural-state-place-analysis-grunerlokka-2025/src/components/analyser/QuarterlyComparisonCharts.tsx:90 | with years -2 and -1 the legend is [-1, -2]: negative years need not be in numeric order either |
| QuarterlyTrend.LexSortedNoDuplicates | natural-state-place-analysis-grunerlokka-2025/src/components/analyser/QuarterlyComparisonCharts.tsx:90 | a strictly text-sorted year list repeats no year |
| QuarterlyTrend.Total | natural-state-place-analysis-grunerlokka-2025/src/components/analyser/QuarterlyComparisonCharts.tsx:296 | `reduce((sum, d) => sum + d.amount, 0)` over positive amounts is positive exactly when there is at least one point |
| QuarterlyTrend.MaxAmount | natural-state-place-analysis-grunerlokka-2025/src/components/analyser/QuarterlyComparisonCharts.tsx:324 | the best amount is ≥ every valid amount and is attained by some valid point |
| QuarterlyTrend.MinAmount | natural-state-place-analysis-grunerlokka-2025/src/components/analyser/QuarterlyComparisonCharts.tsx:341 | the lowest amount is ≤ every valid amount and is attained by some valid point |
| QuarterlyTrend.FirstLabel | natural-state-place-analysis-grunerlokka-2025/src/components/analyser/QuarterlyComparisonCharts.tsx:327-330 | the label shown is that of the first valid point whose amount equals the given extreme |
| QuarterlyTrend.Average | natural-state-place-analysis-grunerlokka-2025/src/components/analyser/QuarterlyComparisonCharts.tsx:310-313 | the average times the number of quarters is the total |
| QuarterlyTrend.Summarize | natural-state-place-analysis-grunerlokka-2025/src/components/analyser/QuarterlyComparisonCharts.tsx:123 | no statistics exactly when there are no valid points; otherwise the count and total of the valid points, their average, worst ≤ every amount ≤ best, and best and worst labelled by the first point attaining them |
| QuarterlyTrend.TotalBounds | natural-state-place-analysis-grunerlokka-2025/src/components/analyser/QuarterlyComparisonCharts.tsx:296 | if every amount lies in [lo, hi], the total of n points lies in [n·lo, n·hi] |
| QuarterlyTrend.AverageBetweenExtremes | natural-state-place-analysis-grunerlokka-2025/src/components/analyser/QuarterlyComparisonCharts.tsx:310-341 | the average shown lies between the lowest and the best quarter shown |
| QuarterlyTrend.AverageWithinBounds | natural-state-place-analysis-grunerlokka-2025/src/components/analyser/QuarterlyComparisonCharts.tsx:310-313 | an average of a total within [n·lo, n·hi] lies within [lo, hi] |
| QuarterlyTrend.Analyze | natural-state-place-analysis-grunerlokka-2025/src/components/analyser/QuarterlyComparisonCharts.tsx:44-123 | the component's derived data: the valid points, one annotated row per valid point, four pivot rows, and the no-data branch exactly when every input amount is ≤ 0 |
| QuarterlyDisplay.FormatCurrency | natural-state-place-analysis-grunerlokka-2025/src/components/analyser/QuarterlyComparisonCharts.tsx:95-103 | the chosen tier scaled back gives the value; billions show at least 1, millions between 1 and 1000, plain kroner only below a million |
| QuarterlyDisplay.CurrencyTiers | natural-state-place-analysis-grunerlokka-2025/src/components/analyser/QuarterlyComparisonCharts.tsx:96-102 | tier B exactly for values ≥ 1e9, tier M exactly for [1e6, 1e9), plain exactly below 1e6 |
| QuarterlyDisplay.CurrencyTierMonotone | natural-state-place-analysis-grunerlokka-2025/src/components/analyser/QuarterlyComparisonCharts.tsx:96-102 | a larger value never gets a lower tier |
| QuarterlyDisplay.FormatPercentage | natural-state-place-analysis-grunerlokka-2025/src/components/analyser/QuarterlyComparisonCharts.tsx:106-110 | "N/A" exactly for null; otherwise the value, with "+" exactly when it is ≥ 0 and no sign exactly when it is negative |
| QuarterlyDisplay.ColorOf | natural-state-place-analysis-grunerlokka-2025/src/components/analyser/QuarterlyComparisonCharts.tsx:266-271 | grey exactly for null growth, green exactly for growth ≥ 0 (red otherwise) |
| QuarterlyDisplay.ColorAgreesWithSign | natural-state-place-analysis-grunerlokka-2025/src/components/analyser/QuarterlyComparisonCharts.tsx:266-273 | a cell is green exactly when its text starts with "+", and grey exactly when it reads "N/A" |
| QuarterlyDisplay.RowColorMatchesTrend | natural-state-place-analysis-grunerlokka-2025/src/components/analyser/QuarterlyComparisonCharts.tsx:266-271 | a row is grey exactly when its quarter has no previous-year point; otherwise it is green exactly when its amount is ≥ that of the first previous-year point |
| ReportPage.OfCategory | natural-state-place-analysis-grunerlokka-2025/src/app/analyser/2024-arsrapport/page.tsx:47-65 | an absent screenshot list gives an empty gallery; every screenshot in the gallery has the gallery's category |
| ReportPage.CategoryInOrder | natural-state-place-analysis-grunerlokka-2025/src/app/analyser/2024-arsrapport/page.tsx:47-65 | a category gallery is the subsequence of all screenshots of that category, in original order, with all of them |
| ReportPage.CompetitorMap | natural-state-place-analysis-grunerlokka-2025/src/app/analyser/2024-arsrapport/page.tsx:40 | absent when the list is absent; otherwise the first screenshot that is in the competition category and has the map id, searching the whole list; if present it is such a screenshot |
| ReportPage.CompetitionGallery | natural-state-place-analysis-grunerlokka-2025/src/app/analyser/2024-arsrapport/page.tsx:35-45 | an absent list gives an empty gallery; every element is a competition screenshot without the map id |
| ReportPage.CompetitionInOrder | natural-state-place-analysis-grunerlokka-2025/src/app/analyser/2024-arsrapport/page.tsx:43-45 | the competition gallery is the subsequence of all competition screenshots without the map id, in original order, with all of them |
| ReportPage.Group | natural-state-place-analysis-grunerlokka-2025/src/app/analyser/2024-arsrapport/page.tsx:35-65 | an absent screenshot list gives no map and six empty galleries; a present map is a competition screenshot with the map id |
| ReportPage.GroupWellPlaced | natural-state-place-analysis-grunerlokka-2025/src/app/analyser/2024-arsrapport/page.tsx:35-65 | each of the six galleries holds only screenshots whose category (and id) send them to that gallery |
| ReportPage.CompetitionPlaced | natural-state-place-analysis-grunerlokka-2025/src/app/analyser/2024-arsrapport/page.tsx:43-45 | the competition gallery holds only screenshots whose place is the competition gallery |
| ReportPage.CategoryPlaced | natural-state-place-analysis-grunerlokka-2025/src/app/analyser/2024-arsrapport/page.tsx:47-65 | each other shown category's gallery holds only screenshots placed there |
| ReportPage.NotPlacedNotListed | natural-state-place-analysis-grunerlokka-2025/src/app/analyser/2024-arsrapport/page.tsx:35-65 | a screenshot is never listed in a gallery other than the one its category and id send it to |
| ReportPage.GalleriesDisjoint | natural-state-place-analysis-grunerlokka-2025/src/app/analyser/2024-arsrapport/page.tsx:35-65 | no screenshot is listed in two of the six galleries |
| ReportPage.MapListedNowhere | natural-state-place-analysis-grunerlokka-2025/src/app/analyser/2024-arsrapport/page.tsx:40-45 | the competitor map, when present, is in none of the six galleries |
| ReportPage.UnshownCategories | natural-state-place-analysis-grunerlokka-2025/src/types/place-analysis.ts:76 | screenshots of category oversikt, demografi, marked, sosiodemografi or annet are in no gallery and are not the map |
| ReportPage.ShownCategoriesListed | natural-state-place-analysis-grunerlokka-2025/src/app/analyser/2024-arsrapport/page.tsx:35-65 | every screenshot of a shown category is in some gallery unless it is a competition screenshot with the map id; the map is present exactly when some screenshot is a competition screenshot with the map id |
| Sequences.Filter | natural-state-place-analysis-grunerlokka-2025/src/components/analyser/QuarterlyComparisonCharts.tsx:49 | `Array.prototype.filter`: every element kept is an element of the list and satisfies the predicate |
| Sequences.FilterSelects | natural-state-place-analysis-grunerlokka-2025/src/components/analyser/QuarterlyComparisonCharts.tsx:49 | `Array.prototype.filter` keeps the elements satisfying the predicate, all of them, in order |
| Sequences.FilterMembership | natural-state-place-analysis-grunerlokka-2025/src/components/analyser/QuarterlyComparisonCharts.tsx:49 | an element is in the filtered list exactly when it is in the list and satisfies the predicate |
| Sequences.SelectionIsFilter | natural-state-place-analysis-grunerlokka-2025/src/components/analyser/QuarterlyComparisonCharts.tsx:49 | any order-preserving selection of all the satisfying elements is the filter's result (the characterisation is unique) |
| Sequences.FilterFilter | natural-state-place-analysis-grunerlokka-2025/src/app/analyser/2024-arsrapport/page.tsx:35-45 | filtering twice equals filtering once by the conjunction |
| Sequences.Find | natural-state-place-analysis-grunerlokka-2025/src/components/analyser/QuarterlyComparisonCharts.tsx:56-58 | `Array.prototype.find` returns the first element of the list satisfying the predicate (none before it does), and returns nothing exactly when no element does |
| Sequences.FirstIndex | natural-state-place-analysis-grunerlokka-2025/src/components/analyser/QuarterlyComparisonCharts.tsx:56-58 | the index found satisfies the predicate and no earlier index does; nothing is found exactly when no index satisfies it |
| Sequences.FindAfterFilter | natural-state-place-analysis-grunerlokka-2025/src/app/analyser/2024-arsrapport/page.tsx:35-40 | finding in a filtered list equals finding in the whole list by the conjunction |
| Sequences.Distinct | natural-state-place-analysis-grunerlokka-2025/src/components/analyser/QuarterlyComparisonCharts.tsx:90 | `[...new Set(s)]`: the same elements as s, each once, as a subsequence of s |
| Sequences.DistinctFirstOccurrence | natural-state-place-analysis-grunerlokka-2025/src/components/analyser/QuarterlyComparisonCharts.tsx:90 | of two elements of `[...new Set(s)]`, the earlier one first occurs in s before every occurrence of the later one (insertion order of a `Set`) |
| Sequences.SortBy | natural-state-place-analysis-grunerlokka-2025/src/components/analyser/QuarterlyComparisonCharts.tsx:90 | a sort by a strict total order returns the same elements, sorted |
| DecimalText.NatText | natural-state-place-analysis-grunerlokka-2025/src/components/analyser/QuarterlyComparisonCharts.tsx:90 | the decimal text of a number is non-empty, all digits, and one digit long exactly for numbers below 10 |
| DecimalText.IntText | natural-state-place-analysis-grunerlokka-2025/src/components/analyser/QuarterlyComparisonCharts.tsx:81 | the decimal text of an integer, used for the year keys and the sort, is non-empty and starts with `-` exactly for negative numbers |
| DecimalText.IntTextInjective | natural-state-place-analysis-grunerlokka-2025/src/components/analyser/QuarterlyComparisonCharts.tsx:81 | different integers have different text, so distinct years never share a key of a pivot row |
| DecimalText.NatTextInjective | natural-state-place-analysis-grunerlokka-2025/src/components/analyser/QuarterlyComparisonCharts.tsx:90 | different numbers have different decimal text, so the textual sort sees no ties |
| DecimalText.SameLengthTextOrder | natural-state-place-analysis-grunerlokka-2025/src/components/analyser/QuarterlyComparisonCharts.tsx:90 | for numbers with equally long text, string order is numeric order |
| DecimalText.TextBeforeIsStrictTotalOrder | natural-state-place-analysis-grunerlokka-2025/src/components/analyser/QuarterlyComparisonCharts.tsx:90 | the default sort's comparison of numbers is irreflexive, transitive and total on distinct numbers |
| DecimalText.TextSort | natural-state-place-analysis-grunerlokka-2025/src/components/analyser/QuarterlyComparisonCharts.tsx:90 | `sort()` on distinct numbers returns the same numbers ordered by their decimal text |
| DecimalText.TextSortedIsAscending | natural-state-place-analysis-grunerlokka-2025/src/components/analyser/QuarterlyComparisonCharts.tsx:90 | a text-sorted list of non-negative numbers of equal digit count is numerically ascending |

## Left out

- Rendering is left out: the JSX layout, the recharts bar and line charts, class names other than the growth colour, tooltips, the `yearColors` palette, and the memoisation (`useMemo` only caches values and changes no result).
- Digits of formatted numbers are left out: `toFixed(1)`, `toFixed(0)` and `toLocaleString('nb-NO')` are foreign calls. `FormatCurrency` and `FormatPercentage` model the tier or sign chosen and the exact value shown, not its rounding or its characters.
- Floating point is left out: amounts are exact reals, so rounding, `NaN`, `Infinity` and `-0` do not arise. JavaScript's number-to-string above 1e21 (exponent notation) is not modelled by `IntText`.
- `Math.max(...[])` and `Math.min(...[])` are left out: the component only reaches them after the empty check, so `MaxAmount` and `MinAmount` require a non-empty list.
- Page loading is left out: reading the analysis JSON, `loadAnalysis`, `notFound`, the actor-data fetch and its `console.error`, and the rest of the page's markup. The screenshot list arrives as a parameter.
- The rest of `place-analysis.ts` is left out: only `ScreenshotData` and its category union are used by the modelled code.
- QuarterlyTrend.PivotYearTotal: the four rows show each year's full total only when every (year, quarter) cell has at most one valid point and every quarter is in 1..4. The code does not keep that total otherwise: a later point of the same cell overwrites the earlier one (`LaterPointOverwrites`), and a point outside 1..4 lands in no row (`OutOfRangeQuarterIgnored`).
- QuarterlyTrend.YearsAscending: stated only for non-negative years of equal digit count, because the default sort is textual. With years of different digit counts, or with negative years, the legend need not be in numeric order: 999 and 1000 give [1000, 999] (`YearsTextualOrder`), and -2 and -1 give [-1, -2] (`NegativeYearsTextualOrder`).
- Years and quarters are whole numbers (`int`), while the source types them as JavaScript numbers. A fractional year would change the previous-year match and the year keys of the pivot rows; this is not modelled.
