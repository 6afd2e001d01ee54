/**
 * The tooltip text shown over a bar (`getDisplay` in `renderTooltip`):
 * "<year> Q<quarter><br /><gdp> billion". The year and the zero-based month
 * come from the bar's date and are inputs here; the GDP figure is opaque
 * text.
 */
module Tooltip {
  import opened Wrappers
  import opened JsText

  /** The quarter a month index opens: months 0, 3, 6 and 9 (January, April,
      July, October) open quarters 1 to 4; any other month gives 0. */
  function Quarter(month: int): (q: nat)
    ensures q <= 4
    ensures 0 <= month < 12 && month % 3 == 0 ==> q == month / 3 + 1
    ensures !(0 <= month < 12 && month % 3 == 0) ==> q == 0
  {
    match month
    case 0 => 1
    case 3 => 2
    case 6 => 3
    case 9 => 4
    case _ => 0
  }

  function TooltipText(year: int, month: int, gdp: string): (t: string) {
    IntText(year) + " Q" + DecimalText(Quarter(month)) + "<br />" + gdp + " billion"
  }

  /** `getDisplay`: the text built up piece by piece, the quarter digit chosen
      by a switch on the month. */
  method GetDisplay(year: int, month: int, gdp: string) returns (output: string)
    ensures output == TooltipText(year, month, gdp)
  {
    output := "";
    output := output + IntText(year);
    assert output == IntText(year);
    output := output + " Q";
    match month {
      case 0 => output := output + DecimalText(1);
      case 3 => output := output + DecimalText(2);
      case 6 => output := output + DecimalText(3);
      case 9 => output := output + DecimalText(4);
      case _ => output := output + DecimalText(0);
    }
    output := output + "<br />";
    output := output + gdp + " billion";
  }

  datatype TooltipFields = TooltipFields(year: int, quarter: nat, gdp: string)

  /** Reads a tooltip text back into its year, quarter and GDP text: the year
      ends at the first " Q". */
  function ParseTooltip(s: string): (r: Option<TooltipFields>) {
    var i := IndexOf(s, " Q");
    if i < 0 || |s| < i + 17 then None
    else ReadTooltipFields(s[..i], s[i + 2..i + 9], s[i + 9..])
  }

  /** The fields around the " Q" marker: the year text before it, then the
      quarter digit with "<br />", then the GDP text with " billion". */
  function ReadTooltipFields(yt: string, mid: string, tail: string): (r: Option<TooltipFields>)
    requires |mid| == 7 && |tail| >= 8
  {
    if !IsDigit(mid[0]) || mid[1..] != "<br />" || tail[|tail| - 8..] != " billion" then None
    else
      match ParseInt(yt)
      case None => None
      case Some(y) => Some(TooltipFields(y, DigitValue(mid[0]), tail[..|tail| - 8]))
  }

  /** The tooltip text determines the year, the quarter and the GDP text it
      was built from, whatever the GDP text holds. */
  lemma TooltipRoundTrip(year: int, month: int, gdp: string)
    ensures ParseTooltip(TooltipText(year, month, gdp)) == Some(TooltipFields(year, Quarter(month), gdp))
  {
    var q := Quarter(month);
    var qt := DecimalText(q);
    DigitsValueOfDecimalText(q);
    assert qt[..0] == [];
    ParseIntOfIntText(year);
    TooltipFieldsReadBack(IntText(year), year, qt, q, gdp);
  }

  lemma TooltipFieldsReadBack(yt: string, year: int, qt: string, q: nat, gdp: string)
    requires ParseInt(yt) == Some(year)
    requires forall i :: 0 <= i < |yt| ==> yt[i] != ' '
    requires |qt| == 1 && IsDigit(qt[0]) && DigitValue(qt[0]) == q
    ensures ParseTooltip(yt + " Q" + qt + "<br />" + gdp + " billion")
      == Some(TooltipFields(year, q, gdp))
  {
    var mid, tail := qt + "<br />", gdp + " billion";
    ConcatRegroup(yt, " Q", qt, "<br />", gdp, " billion");
    SplitAroundMarker(yt, " Q", mid, tail);
    IndexOfAfterPrefix(yt, " Q", " Q" + (mid + tail));
    assert mid[1..] == "<br />";
  }

  /** Concatenation regrouped so that the marker and the fields after it
      form one suffix. */
  lemma ConcatRegroup(a: string, b: string, c: string, d: string, e: string, f: string)
    ensures a + b + c + d + e + f == a + (b + ((c + d) + (e + f)))
  {
  }

  /** The three parts of `a + marker + b + c` around the marker. */
  lemma SplitAroundMarker(a: string, marker: string, b: string, c: string)
    ensures var s := a + (marker + (b + c));
      s[..|a|] == a &&
      s[|a| + |marker|..|a| + |marker| + |b|] == b &&
      s[|a| + |marker| + |b|..] == c
  {
  }
}
