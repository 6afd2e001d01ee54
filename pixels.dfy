/**
 * The unitless width and height `renderData` reads from the SVG element's
 * CSS: `+w.substring(0, w.indexOf("px"))`.
 */
module Pixels {
  import opened Wrappers
  import opened JsText

  /** The dimension read from a CSS length string. When "px" is absent,
      `indexOf` gives -1, `substring(0, -1)` is "" and `+""` is 0; the same
      0 comes from a string that starts with "px". */
  function ParsePx(w: string): (r: Option<nat>)
    ensures IndexOf(w, "px") <= 0 ==> r == Some(0)
    ensures r.Some? && IndexOf(w, "px") > 0 ==> AllDigits(w[..IndexOf(w, "px")])
  {
    ParseDigits(JsSubstring(w, 0, IndexOf(w, "px")))
  }

  /** For "<digits>px" the dimension is the number the digits denote. */
  lemma PxOfDigits(ds: string)
    requires AllDigits(ds)
    ensures ParsePx(ds + "px") == Some(DigitsValue(ds))
  {
    var w := ds + "px";
    IndexOfAfterPrefix(ds, "px", "px");
    assert w[..|ds|] == ds;
  }

  /** A length written as `String(n) + "px"` reads back as n. */
  lemma PxRoundTrip(n: nat)
    ensures ParsePx(DecimalText(n) + "px") == Some(n)
  {
    PxOfDigits(DecimalText(n));
    DigitsValueOfDecimalText(n);
  }
}
