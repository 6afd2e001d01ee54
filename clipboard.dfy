/**
 * The text copied to the clipboard when a bar is double-clicked
 * (`addDateToClipboard`): "Date: <date>, GDP: $<gdp> billion". The copy
 * itself is browser I/O and not part of this model.
 */
module Clipboard {
  import opened Wrappers
  import opened JsText

  function ClipboardText(date: string, gdp: string): (s: string)
    ensures |s| == |date| + |gdp| + 22
    ensures s[..6] == "Date: " && s[|s| - 8..] == " billion"
  {
    "Date: " + date + ", GDP: $" + gdp + " billion"
  }

  datatype ClipboardEntry = ClipboardEntry(date: string, gdp: string)

  /** Reads a clipboard text back into its date and GDP text, splitting at
      the first ", GDP: $". */
  function ParseClipboard(s: string): (r: Option<ClipboardEntry>) {
    if |s| < 14 || s[..6] != "Date: " || s[|s| - 8..] != " billion" then None
    else
      var i := IndexOf(s, ", GDP: $");
      if i < 6 || i + 8 > |s| - 8 then None
      else Some(ClipboardEntry(s[6..i], s[i + 8..|s| - 8]))
  }

  /** A date without a comma (every "YYYY-MM-DD" date) and any GDP text can
      be read back from the clipboard text. */
  lemma ClipboardRoundTrip(date: string, gdp: string)
    requires forall i :: 0 <= i < |date| ==> date[i] != ','
    ensures ParseClipboard(ClipboardText(date, gdp)) == Some(ClipboardEntry(date, gdp))
  {
    var s := ClipboardText(date, gdp);
    var n := 6 + |date|;
    assert s == ("Date: " + date) + (", GDP: $" + gdp + " billion");
    IndexOfAfterPrefix("Date: " + date, ", GDP: $", ", GDP: $" + gdp + " billion");
    assert s[6..n] == date;
    assert s[n + 8..|s| - 8] == gdp;
  }
}
