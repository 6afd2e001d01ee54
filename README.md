# Quarterly GDP bar chart: tick, tooltip and text logic

`js/app.js` is meant to draw a bar chart of quarterly GDP with D3. Most of it
is library and DOM glue. This project models the small, deterministic string
and list logic inside it and proves what that logic guarantees:

- **Tick values** (`getTickValues` with its helper `checkArray`). The x-domain
  is the ordered list of quarter dates `"YYYY-MM-DD"`. A date becomes a tick
  when two things hold. First, the number read from its first four characters
  is divisible by 5. Second, no tick kept so far contains that number's
  decimal text. `Ticks.TickFilter` states the result as a function of the
  domain. `Ticks.GetTickValues` and `Ticks.CheckArray` are the loops, proved
  against it. The lemmas show the following:
  - the ticks are a subsequence of the domain;
  - every tick lies on a year divisible by 5;
  - each tick was admitted by the ticks before it;
  - every skipped fifth-year date has its year's text in a tick kept before
    that date was reached;
  - filtering twice changes nothing.
  
  On well-formed dates (years 1000-9999), the ticks are exactly the first
  date of every year divisible by 5, in input order, with no year repeated.
- **Tooltip text** (`getDisplay`): `"<year> Q<quarter><br /><gdp> billion"`.
  The month-to-quarter switch maps January, April, July and October to
  quarters 1 to 4 and everything else to 0. A reader function shows that the
  text determines the year, quarter and GDP text it was built from.
- **Clipboard text** (`addDateToClipboard`):
  `"Date: <date>, GDP: $<gdp> billion"`, with the same kind of read-back.
- **Tick label** (`tickFormat`): the first four characters of the date, which
  for a well-formed date is the year's decimal text.
- **Pixel dimensions** (`renderData`): `+w.substring(0, w.indexOf("px"))`.
  For a string `<digits>px` this is the number the digits denote.
  JavaScript gives 0 when `"px"` is absent, and the model does too.

JavaScript behaviour the code depends on is modelled in `JsText`:
- `String(n)` of a non-negative integer;
- unary `+` on a string of digits, where the empty string gives 0;
- `indexOf` and `substring`, including their clamping of out-of-range indices.

`checkArray` builds a case-insensitive regular expression from the number.
A pattern made only of digits is a plain substring search, and that is how it
is modelled. The pattern is the number's own text, so `"0047"` is searched as
`"47"`.

Some comments of `js/app.js` (3-4, 9, 16-18, 34-35) describe a cyclist
scatterplot, and the file fetches `./cyclist-data.json` (js/app.js:6). The
rest of the code reads each record as a `[date, gdp]` pair (js/app.js:57-58,
257, 268) and is meant to draw bars. The model follows that code.

As written, `renderData` would not get that far. Line 42 calls `.padding(0.3)`
on `d3.scaleLinear()`, and D3's linear scale has no `padding` method. That
call throws before any bar, axis, tooltip or double-click handler exists. Only
the `"px"` reads at lines 25 and 30 run before it; the tick, tooltip and
clipboard code is never reached. The model describes each function on the
inputs the chart intends.

Modules: `Wrappers` (Option), `JsText`, `Ticks`, `Tooltip`, `Clipboard`,
`Pixels`, one file each.

## Model

| member | source | states |
|---|---|---|
| `JsText.IndexOf` | js/app.js:25 | the result is -1 exactly when the pattern occurs nowhere; otherwise it is an index where the pattern occurs and no earlier index holds it |
| `JsText.ContainsIff` | js/app.js:143-146 | the substring search behind the digit-only regular expression succeeds exactly when the pattern occurs at some index |
| `JsText.IndexOfAfterPrefix` | js/app.js:25 | when no character before a point can start the pattern and the pattern starts there, `indexOf` returns that point |
| `JsText.JsSubstring` | js/app.js:25 | with in-range indices it is the slice between them; with both indices at or below 0 it is empty, as `substring(0, -1)` is |
| `JsText.ParseDigits` | js/app.js:120 | the modelled unary plus is defined exactly on strings of decimal digits |
| `JsText.DecimalText` | js/app.js:143 | the number's text is non-empty, all digits, has no leading zero unless the number is 0, and is one character long exactly for numbers below 10 |
| `JsText.IntText` | js/app.js:227 | the year's text consists only of digits and a minus sign |
| `JsText.DigitsValueOfDecimalText` | js/app.js:120-143 | converting a number to text and back with unary plus gives the number |
| `JsText.DecimalTextOfDigits` | js/app.js:120-143 | a digit string without a leading zero is the text of the number it denotes |
| `JsText.ParseIntOfIntText` | js/app.js:227 | the signed year text reads back as the year |
| `Ticks.YearPrefix` | js/app.js:97 | the label is the first min(4, length) characters of the date |
| `Ticks.TickLabelIsYear` | js/app.js:97 | for a well-formed date the label is the four-digit decimal text of its year |
| `Ticks.TickFilter` | js/app.js:116-131 | there are never more ticks than dates, and every tick is an entry of the domain |
| `Ticks.TicksOnFifthYears` | js/app.js:120-126 | every tick's first four characters read as a number divisible by 5 |
| `Ticks.CheckArray` | js/app.js:142-151 | true exactly when some entry contains the decimal text of the value, so false on an empty array |
| `Ticks.GetTickValues` | js/app.js:116-131 | the loop returns exactly the ticks `TickFilter` defines |
| `Ticks.DateYear` | js/app.js:120 | for a well-formed date, unary plus on its first four characters gives its year |
| `Ticks.TickFilterIsSubsequence` | js/app.js:117-131 | the ticks are the domain with entries left out: order kept, nothing invented |
| `Ticks.TickFilterPrefix` | js/app.js:119-129 | the ticks of a prefix of the domain are a prefix of the ticks |
| `Ticks.TickFilterNoRepeat` | js/app.js:122-128 | each tick is on a fifth year and its year's text occurs in no earlier tick |
| `Ticks.TickFilterComplete` | js/app.js:119-129 | every fifth-year domain entry is a tick, or its year's text occurs in a tick kept before that entry was reached |
| `Ticks.TicksAllAdmitted` | js/app.js:122-128 | every tick passes the tick test against the ticks before it |
| `Ticks.TickFilterKeepsAdmitted` | js/app.js:125-128 | a list in which every entry passes the test against those before it is returned unchanged |
| `Ticks.TickFilterIdempotent` | js/app.js:116-131 | the ticks of the ticks are the ticks |
| `Ticks.SameYearIffMentioned` | js/app.js:137-150 | between well-formed dates, one date's year text occurs in the other exactly when their years are equal (the doc-comment's 1947 in "1947-01-01") |
| `Ticks.FirstDatesCoverYears` | js/app.js:122-128 | every fifth year present among well-formed dates has a date in the first-date-per-year list |
| `Ticks.MentionsIffYearSeen` | js/app.js:122-150 | for a well-formed date on a fifth year, `checkArray` on the first dates of the earlier dates succeeds exactly when an earlier date has the same year |
| `Ticks.TicksAreFirstDatesOfFifthYears` | js/app.js:122-128 | on well-formed dates the ticks are exactly the first date of every year divisible by 5, in input order |
| `Ticks.TickYearsDistinct` | js/app.js:122-124 | on well-formed dates no two ticks share a year |
| `Tooltip.Quarter` | js/app.js:232-254 | months 0, 3, 6 and 9 give quarters 1 to 4 (month / 3 + 1); every other month gives 0 |
| `Tooltip.GetDisplay` | js/app.js:222-260 | the text built piece by piece is year, " Q", quarter, "<br />", GDP text, " billion" |
| `Tooltip.TooltipRoundTrip` | js/app.js:227-257 | the tooltip text determines its year, quarter and GDP text |
| `Clipboard.ClipboardText` | js/app.js:268 | the text is 22 characters longer than date and GDP together, begins "Date: " and ends " billion" |
| `Clipboard.ClipboardRoundTrip` | js/app.js:268 | for a date without a comma, the date and GDP text read back from the clipboard text |
| `Pixels.ParsePx` | js/app.js:25-30 | without "px", or with "px" at the start, the dimension is 0; a successful read means the part before "px" is all digits |
| `Pixels.PxOfDigits` | js/app.js:25-30 | for `<digits>px` the dimension is the number the digits denote |
| `Pixels.PxRoundTrip` | js/app.js:25-30 | a length written as `String(n) + "px"` reads back as n |

## Left out

- D3 scale construction and axes (js/app.js:36-49, 93-109): these are calls into a charting library. The scale code calls band-scale methods (`padding`, `round`, `align`) on a linear scale. As written, line 42 throws, so the tick, tooltip and clipboard code is never reached. It also reads the domain from `d.Year` while the bars read `d[0]`.
- SVG rendering, transitions and axis labels (js/app.js:52-71, 164-182): presentation only.
- Tooltip positioning (js/app.js:207-209): it depends on the pointer position and the screen height, in floating point.
- Date parsing in `getDisplay` (js/app.js:224): `new Date` and `getMonth` depend on the time zone. `Tooltip.GetDisplay` takes the year and the zero-based month as inputs, so the invalid-date text ("NaN Q0...") is not modelled.
- Clipboard writing and the confirmation alert (js/app.js:276-294), and loading the JSON file (js/app.js:6-11): browser I/O.
- GDP values are JavaScript numbers. Here they are opaque text, as it appears in the tooltip and clipboard strings.
- `JsText.DecimalText`, `JsText.ParseDigits`: integers here are exact and unbounded. A JavaScript number is exact only below 2^53, so unary `+` rounds a longer digit string, and `String` switches to exponent form ("1e+21") from 10^21. Years, quarters and pixel widths stay far below both bounds.
- `Ticks.GetTickValues`: unary `+` is modelled only on digit strings. A first-four-character prefix with a sign, spaces, a decimal point, an exponent or a hex prefix is never a tick here. JavaScript reads some of these as numbers, for example `"-5"`, and could keep such a date.
- `Pixels.ParsePx`: a part before "px" that is not all digits gives None. JavaScript reads many such parts as numbers: `"960.5px"` gives 960.5, while `"960 px"`, `" 960px"`, `"+960px"` and `"1e3px"` all give whole numbers (960, 960, 960 and 1000).
