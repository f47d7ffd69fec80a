/**
 Which presentation the charts choose for an amount or a growth percentage.
 The digits themselves (`toFixed`, `toLocaleString('nb-NO')`) are produced by
 the JavaScript runtime and are not modelled: a formatted value is the unit tier
 or sign chosen plus the exact number that is then rounded for display.
 */
module QuarterlyDisplay {
  import opened Wrappers
  import opened QuarterlySeries
  import opened QuarterlyTrend

  const Billion: real := 1000000000.0
  const Million: real := 1000000.0

  /** An amount in kroner as shown: `<x>B kr`, `<x>M kr` or `<amount> kr`. */
  datatype CurrencyText =
    | Billions(scaled: real)
    | Millions(scaled: real)
    | Kroner(amount: real)
  {
    /** The amount the text stands for, before rounding. */
    function Value(): real
    {
      match this
      case Billions(x) => x * Billion
      case Millions(x) => x * Million
      case Kroner(x) => x
    }
  }

  /** `formatCurrency`: billions from 1e9 up, millions from 1e6 up, plain kroner below. */
  function FormatCurrency(value: real): (t: CurrencyText)
    ensures t.Value() == value
    ensures t.Billions? ==> t.scaled >= 1.0
    ensures t.Millions? ==> 1.0 <= t.scaled < 1000.0
    ensures t.Kroner? ==> value < Million
  {
    if value >= Billion then Billions(value / Billion)
    else if value >= Million then Millions(value / Million)
    else Kroner(value)
  }

  /** The tier is decided by the magnitude alone: exactly one of the three ranges. */
  lemma CurrencyTiers(value: real)
    ensures FormatCurrency(value).Billions? <==> value >= Billion
    ensures FormatCurrency(value).Millions? <==> Million <= value < Billion
    ensures FormatCurrency(value).Kroner? <==> value < Million
  {
    var t := FormatCurrency(value);
    if t.Billions? {
      assert t.scaled * Billion >= Billion;
    }
    if t.Millions? {
      assert t.scaled * Million >= Million;
      assert t.scaled * Million < 1000.0 * Million;
    }
  }

  /** A larger amount never gets a smaller tier. */
  lemma CurrencyTierMonotone(a: real, b: real)
    requires a <= b
    ensures FormatCurrency(a).Billions? ==> FormatCurrency(b).Billions?
    ensures FormatCurrency(a).Millions? ==> !FormatCurrency(b).Kroner?
  {
    CurrencyTiers(a);
    CurrencyTiers(b);
  }

  /** A growth percentage as shown: `N/A`, or a one-decimal number preceded by `sign`. */
  datatype PercentText =
    | NotApplicable
    | Percent(sign: string, value: real)
  {
    /** The text for the null case; otherwise the sign, which precedes the runtime's digits. */
    function Prefix(): string
    {
      match this
      case NotApplicable => "N/A"
      case Percent(sign, _) => sign
    }
  }

  /** `formatPercentage`: `N/A` for null, and `+` exactly before a non-negative value. */
  function FormatPercentage(value: Option<real>): (t: PercentText)
    ensures t.NotApplicable? <==> value.None?
    ensures t.Percent? ==> t.value == value.value
    ensures t.Percent? ==> (t.sign == "+" <==> t.value >= 0.0)
    ensures t.Percent? ==> (t.sign == "" <==> t.value < 0.0)
  {
    match value
    case None => NotApplicable
    case Some(v) => Percent(if v >= 0.0 then "+" else "", v)
  }

  /** Colour of the growth cell in the YoY table. */
  datatype GrowthColor = Gray | Green | Red

  function ColorOf(yoyGrowth: Option<real>): (c: GrowthColor)
    ensures c == Gray <==> yoyGrowth.None?
    ensures c == Green <==> yoyGrowth.Some? && yoyGrowth.value >= 0.0
  {
    match yoyGrowth
    case None => Gray
    case Some(g) => if g >= 0.0 then Green else Red
  }

  /** A green cell is exactly a cell whose text carries a `+`. */
  lemma ColorAgreesWithSign(yoyGrowth: Option<real>)
    ensures ColorOf(yoyGrowth) == Green <==> FormatPercentage(yoyGrowth).Prefix() == "+"
    ensures ColorOf(yoyGrowth) == Gray <==> FormatPercentage(yoyGrowth).Prefix() == "N/A"
  {
  }

  /**
   In the YoY table a row is gray when its quarter has no valid point a year
   earlier, green when its amount reached the first such point's amount and
   red when it fell below it.
   */
  lemma RowColorMatchesTrend(valid: seq<DataPoint>, i: int)
    requires AllPositive(valid)
    requires 0 <= i < |valid|
    ensures var row := AnnotateYoY(valid)[i];
      && (ColorOf(row.yoyGrowth) == Gray <==> forall j :: 0 <= j < |valid| ==> !IsPriorYear(valid[j], valid[i]))
      && (ColorOf(row.yoyGrowth) != Gray ==> exists k ::
            FirstPriorYear(valid, valid[i], k) && (ColorOf(row.yoyGrowth) == Green <==> valid[i].amount >= valid[k].amount))
  {
    var g := YoyGrowth(valid, valid[i]);
    if g.Some? {
      GrowthSign(valid, valid[i]);
    }
  }
}
