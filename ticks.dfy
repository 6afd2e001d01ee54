/**
 * The x-axis tick values of the GDP bar chart (`getTickValues` and its helper
 * `checkArray` in `renderAxis`). The x-domain is the ordered list of quarter
 * dates "YYYY-MM-DD"; a date becomes a tick when the number read from its
 * first four characters is divisible by 5 and no tick kept so far contains
 * the decimal text of that number. On well-formed dates this keeps the first
 * quarter of every fifth year.
 */
module Ticks {
  import opened Wrappers
  import opened JsText

  /** `d.substring(0, 4)`: the year part of a date, also the tick label. */
  function YearPrefix(d: string): (p: string)
    ensures |p| == if |d| < 4 then |d| else 4
    ensures p == d[..|p|]
  {
    JsSubstring(d, 0, 4)
  }

  /** `+d.substring(0, 4)`, on digit strings (None stands for every other
      outcome of the conversion). */
  function YearValue(d: string): (r: Option<nat>) {
    ParseDigits(YearPrefix(d))
  }

  /** The first test of `getTickValues`: `value % 5 === 0`. */
  predicate OnFifthYear(d: string) {
    YearValue(d).Some? && YearValue(d).value % 5 == 0
  }

  /** What `checkArray(arr, value)` answers: some entry contains the decimal
      text of `value`. */
  predicate Mentions(arr: seq<string>, value: nat) {
    exists i :: 0 <= i < |arr| && Contains(arr[i], DecimalText(value))
  }

  /** The condition under which `getTickValues` pushes `d` after `kept`. */
  predicate Admits(kept: seq<string>, d: string) {
    OnFifthYear(d) && !Mentions(kept, YearValue(d).value)
  }

  /** The ticks `getTickValues` returns for `domain`: the loop's state after
      the whole domain has been visited, in visiting order. */
  function TickFilter(domain: seq<string>): (ticks: seq<string>)
    ensures |ticks| <= |domain|
    ensures forall j :: 0 <= j < |ticks| ==> ticks[j] in domain
  {
    if domain == [] then []
    else
      var n := |domain| - 1;
      var kept := TickFilter(domain[..n]);
      if Admits(kept, domain[n]) then kept + [domain[n]] else kept
  }

  /** Every tick's first four characters read as a number divisible by 5. */
  lemma {:induction false} TicksOnFifthYears(domain: seq<string>)
    ensures forall j :: 0 <= j < |TickFilter(domain)| ==> OnFifthYear(TickFilter(domain)[j])
  {
    if domain != [] {
      var n := |domain| - 1;
      TicksOnFifthYears(domain[..n]);
    }
  }

  /** `checkArray`: a scan of `arr` that stops at the first entry the number's
      pattern matches. */
  method CheckArray(arr: seq<string>, value: nat) returns (found: bool)
    ensures found <==> Mentions(arr, value)
  {
    var pattern := DecimalText(value);
    for i := 0 to |arr|
      invariant forall k :: 0 <= k < i ==> !Contains(arr[k], pattern)
    {
      if Contains(arr[i], pattern) {
        return true;
      }
    }
    return false;
  }

  /** `getTickValues`: one pass over the domain, pushing each admitted date. */
  method GetTickValues(domain: seq<string>) returns (ticks: seq<string>)
    ensures ticks == TickFilter(domain)
  {
    ticks := [];
    var i := 0;
    while i < |domain|
      invariant 0 <= i <= |domain|
      invariant ticks == TickFilter(domain[..i])
    {
      var d := domain[i];
      var value := ParseDigits(YearPrefix(d));
      assert value == YearValue(d);
      assert domain[..i + 1][..i] == domain[..i] && domain[..i + 1][i] == d;
      if value.Some? && value.value % 5 == 0 {
        var seen := CheckArray(ticks, value.value);
        assert seen <==> !Admits(ticks, d);
        if !seen {
          ticks := ticks + [d];
        }
      } else {
        assert !Admits(ticks, d);
      }
      i := i + 1;
    }
    assert domain[..i] == domain;
  }

  // ---------------------------------------------------------------------
  // Properties on every input

  /** `idx` lists, in increasing order, positions of `s` holding `sub`. */
  ghost predicate Embeds(idx: seq<int>, sub: seq<string>, s: seq<string>) {
    |idx| == |sub| &&
    (forall j :: 0 <= j < |idx| ==> 0 <= idx[j] < |s| && s[idx[j]] == sub[j]) &&
    (forall i, j :: 0 <= i < j < |idx| ==> idx[i] < idx[j])
  }

  ghost predicate IsSubsequence(sub: seq<string>, s: seq<string>) {
    exists idx :: Embeds(idx, sub, s)
  }

  /** The ticks are the domain with entries dropped: nothing reordered,
      nothing invented. */
  lemma {:induction false} TickFilterIsSubsequence(domain: seq<string>)
    ensures IsSubsequence(TickFilter(domain), domain)
  {
    if domain == [] {
      assert Embeds([], [], domain);
    } else {
      var n := |domain| - 1;
      var kept := TickFilter(domain[..n]);
      TickFilterIsSubsequence(domain[..n]);
      var idx :| Embeds(idx, kept, domain[..n]);
      EmbedsExtend(idx, kept, domain);
    }
  }

  /** An embedding into all but the last entry is one into the whole list,
      and it extends by the last entry. */
  lemma EmbedsExtend(idx: seq<int>, sub: seq<string>, s: seq<string>)
    requires s != [] && Embeds(idx, sub, s[..|s| - 1])
    ensures Embeds(idx, sub, s)
    ensures Embeds(idx + [|s| - 1], sub + [s[|s| - 1]], s)
  {
  }

  /** Filtering a prefix of the domain gives a prefix of the ticks. */
  lemma {:induction false} TickFilterPrefix(domain: seq<string>, m: nat)
    requires m <= |domain|
    ensures TickFilter(domain[..m]) <= TickFilter(domain)
    decreases |domain|
  {
    if m < |domain| {
      var pre := domain[..|domain| - 1];
      TickFilterPrefix(pre, m);
      TickFilterGrows(domain);
      PrefixTransitive(TickFilter(pre[..m]), TickFilter(pre), TickFilter(domain));
      assert pre[..m] == domain[..m];
    } else {
      assert domain[..m] == domain;
    }
  }

  lemma PrefixTransitive(a: seq<string>, b: seq<string>, c: seq<string>)
    requires a <= b && b <= c
    ensures a <= c
  {
  }

  /** One more domain entry can only append to the ticks. */
  lemma TickFilterGrows(domain: seq<string>)
    requires domain != []
    ensures TickFilter(domain[..|domain| - 1]) <= TickFilter(domain)
  {
  }

  /** Every domain entry on a fifth year is either a tick or was skipped
      because its year's text occurs in a tick kept before it was reached. */
  lemma {:induction false} TickFilterComplete(domain: seq<string>)
    ensures forall k :: 0 <= k < |domain| && OnFifthYear(domain[k]) ==>
      domain[k] in TickFilter(domain) ||
      Mentions(TickFilter(domain[..k]), YearValue(domain[k]).value)
  {
    var ticks := TickFilter(domain);
    forall k | 0 <= k < |domain| && OnFifthYear(domain[k])
      ensures domain[k] in ticks || Mentions(TickFilter(domain[..k]), YearValue(domain[k]).value)
    {
      var kept := TickFilter(domain[..k]);
      if Admits(kept, domain[k]) {
        assert domain[..k + 1][..k] == domain[..k];
        TickFilterPrefix(domain, k + 1);
        var step := TickFilter(domain[..k + 1]);
        assert step[|step| - 1] == domain[k];
        assert ticks[|step| - 1] == domain[k];
      }
    }
  }

  /** Every entry of `s` is admitted by the entries before it. */
  predicate AllAdmitted(s: seq<string>)
    decreases |s|
  {
    s == [] || (AllAdmitted(s[..|s| - 1]) && Admits(s[..|s| - 1], s[|s| - 1]))
  }

  /** The ticks themselves are a list in which every entry is admitted. */
  lemma {:induction false} TicksAllAdmitted(domain: seq<string>)
    ensures AllAdmitted(TickFilter(domain))
  {
    if domain != [] {
      var n := |domain| - 1;
      var kept := TickFilter(domain[..n]);
      TicksAllAdmitted(domain[..n]);
      if Admits(kept, domain[n]) {
        var t := kept + [domain[n]];
        assert t[..|t| - 1] == kept;
      }
    }
  }

  /** Each tick was admitted by the ticks before it: its year is divisible
      by 5 and its year's text occurs in no earlier tick. */
  lemma {:induction false} TickFilterNoRepeat(domain: seq<string>)
    ensures forall j :: 0 <= j < |TickFilter(domain)| ==>
      Admits(TickFilter(domain)[..j], TickFilter(domain)[j])
  {
    TicksAllAdmitted(domain);
    AdmittedAt(TickFilter(domain));
  }

  /** `AllAdmitted` read position by position. */
  lemma {:induction false} AdmittedAt(s: seq<string>)
    requires AllAdmitted(s)
    ensures forall j :: 0 <= j < |s| ==> Admits(s[..j], s[j])
    decreases |s|
  {
    if s != [] {
      var n := |s| - 1;
      AdmittedAt(s[..n]);
      forall j | 0 <= j < |s| ensures Admits(s[..j], s[j]) {
        if j < n {
          assert s[..j] == s[..n][..j];
        }
      }
    }
  }

  /** A list in which every entry is admitted by those before it passes
      through unchanged. */
  lemma {:induction false} TickFilterKeepsAdmitted(s: seq<string>)
    requires AllAdmitted(s)
    ensures TickFilter(s) == s
    decreases |s|
  {
    if s != [] {
      var n := |s| - 1;
      var pre := s[..n];
      TickFilterKeepsAdmitted(pre);
      assert Admits(TickFilter(pre), s[n]);
      SplitLast(s);
    }
  }

  /** A non-empty list is its last entry appended to the rest. */
  lemma SplitLast(s: seq<string>)
    requires s != []
    ensures s == s[..|s| - 1] + [s[|s| - 1]]
  {
  }

  /** Computing the ticks of the ticks changes nothing. */
  lemma {:induction false} TickFilterIdempotent(domain: seq<string>)
    ensures TickFilter(TickFilter(domain)) == TickFilter(domain)
  {
    TicksAllAdmitted(domain);
    TickFilterKeepsAdmitted(TickFilter(domain));
  }

  // ---------------------------------------------------------------------
  // Properties on well-formed dates

  /** "YYYY-MM-DD" with a four-digit year 1000-9999. */
  predicate WellFormedDate(d: string) {
    |d| == 10 && d[4] == '-' && d[7] == '-' &&
    AllDigits(d[..4]) && AllDigits(d[5..7]) && AllDigits(d[8..]) && d[0] != '0'
  }

  predicate AllWellFormed(dates: seq<string>) {
    forall i :: 0 <= i < |dates| ==> WellFormedDate(dates[i])
  }

  lemma AllWellFormedPrefix(dates: seq<string>, n: nat)
    requires AllWellFormed(dates) && n <= |dates|
    ensures AllWellFormed(dates[..n])
  {
    forall i | 0 <= i < n ensures WellFormedDate(dates[..n][i]) {
      assert dates[..n][i] == dates[i];
    }
  }

  function DateYear(d: string): (y: nat)
    requires WellFormedDate(d)
    ensures YearValue(d) == Some(y)
  {
    DigitsValue(d[..4])
  }

  /** The tick label of a well-formed date is its year, as the year's decimal
      text. */
  lemma TickLabelIsYear(d: string)
    requires WellFormedDate(d)
    ensures YearPrefix(d) == DecimalText(DateYear(d))
    ensures |DecimalText(DateYear(d))| == 4
  {
    DecimalTextOfDigits(d[..4]);
  }

  /** Between well-formed dates, the year text of `e` occurs in `d` exactly
      when the two dates share a year. */
  lemma SameYearIffMentioned(d: string, e: string)
    requires WellFormedDate(d) && WellFormedDate(e)
    ensures Contains(d, DecimalText(DateYear(e))) <==> DateYear(d) == DateYear(e)
  {
    TickLabelIsYear(d);
    TickLabelIsYear(e);
    var p := DecimalText(DateYear(e));
    assert p == e[..4];
    forall k | 0 < k ensures !OccursAt(d, p, k) {
      if 0 < k <= 4 && k + 4 <= |d| {
        assert d[k..k + 4][4 - k] == d[4];
        assert IsDigit(p[4 - k]);
      } else if 4 < k && k + 4 <= |d| {
        assert d[k..k + 4][7 - k] == d[7];
        assert IsDigit(p[7 - k]);
      }
    }
    ContainsIff(d, p);
    if DateYear(d) == DateYear(e) {
      assert OccursAt(d, p, 0);
    }
    if Contains(d, p) {
      var k :| OccursAt(d, p, k);
      assert k == 0;
      assert d[..4] == e[..4];
    }
  }

  /** Some date before position `n` shares the year of `dates[n]`. */
  predicate YearSeenBefore(dates: seq<string>, n: nat)
    requires AllWellFormed(dates) && n < |dates|
  {
    exists k :: 0 <= k < n && DateYear(dates[k]) == DateYear(dates[n])
  }

  /** A reference definition: from well-formed dates, in input order, the
      first date of each year divisible by 5. */
  function FirstDatesOfFifthYears(dates: seq<string>): (firsts: seq<string>)
    requires AllWellFormed(dates)
    ensures forall j :: 0 <= j < |firsts| ==> firsts[j] in dates
  {
    if dates == [] then []
    else
      var n := |dates| - 1;
      FirstDatesOfFifthYears(dates[..n]) +
      if DateYear(dates[n]) % 5 == 0 && !YearSeenBefore(dates, n) then [dates[n]] else []
  }

  /** Every fifth year present among well-formed dates has a date in the
      first-date-per-year list. */
  lemma {:induction false} FirstDatesCoverYears(dates: seq<string>, k: nat)
    requires AllWellFormed(dates) && k < |dates| && DateYear(dates[k]) % 5 == 0
    ensures exists j :: (0 <= j < |FirstDatesOfFifthYears(dates)| &&
      DateYear(FirstDatesOfFifthYears(dates)[j]) == DateYear(dates[k]))
  {
    var n := |dates| - 1;
    var pre := dates[..n];
    var y := DateYear(dates[k]);
    AllWellFormedPrefix(dates, n);
    var r, r' := FirstDatesOfFifthYears(dates), FirstDatesOfFifthYears(pre);
    assert r' <= r;
    if k < n || YearSeenBefore(dates, n) {
      var k' :| 0 <= k' < n && DateYear(dates[k']) == y;
      assert pre[k'] == dates[k'];
      FirstDatesCoverYears(pre, k');
      var j :| 0 <= j < |r'| && DateYear(r'[j]) == y;
      assert r[j] == r'[j];
    } else {
      assert r[|r| - 1] == dates[n];
    }
  }

  /** On well-formed dates the ticks are exactly the first date of every year
      divisible by 5, in input order; later quarters of that year are
      dropped. */
  lemma {:induction false} TicksAreFirstDatesOfFifthYears(dates: seq<string>)
    requires AllWellFormed(dates)
    ensures TickFilter(dates) == FirstDatesOfFifthYears(dates)
  {
    if dates != [] {
      var n := |dates| - 1;
      AllWellFormedPrefix(dates, n);
      TicksAreFirstDatesOfFifthYears(dates[..n]);
      if DateYear(dates[n]) % 5 == 0 {
        MentionsIffYearSeen(dates, n);
      }
    }
  }

  /** Among the first dates of the well-formed dates before position `n`, the
      year text of `dates[n]` occurs exactly when one of those dates shares
      its year. */
  lemma MentionsIffYearSeen(dates: seq<string>, n: nat)
    requires AllWellFormed(dates) && n < |dates| && DateYear(dates[n]) % 5 == 0
    ensures AllWellFormed(dates[..n])
    ensures Mentions(FirstDatesOfFifthYears(dates[..n]), DateYear(dates[n])) <==>
      YearSeenBefore(dates, n)
  {
    AllWellFormedPrefix(dates, n);
    var pre, d := dates[..n], dates[n];
    var firsts := FirstDatesOfFifthYears(pre);
    var y := DateYear(d);
    if YearSeenBefore(dates, n) {
      var k :| 0 <= k < n && DateYear(dates[k]) == y;
      assert pre[k] == dates[k];
      FirstDatesCoverYears(pre, k);
      var j :| 0 <= j < |firsts| && DateYear(firsts[j]) == y;
      SameYearIffMentioned(firsts[j], d);
    } else {
      forall i | 0 <= i < |firsts| ensures !Contains(firsts[i], DecimalText(y)) {
        SameYearIffMentioned(firsts[i], d);
        var k :| 0 <= k < n && firsts[i] == pre[k];
        assert pre[k] == dates[k];
      }
    }
  }

  /** On well-formed dates no two ticks share a year. */
  lemma TickYearsDistinct(dates: seq<string>)
    requires AllWellFormed(dates)
    ensures forall i, j :: 0 <= i < j < |TickFilter(dates)| ==>
      DateYear(TickFilter(dates)[i]) != DateYear(TickFilter(dates)[j])
  {
    var t := TickFilter(dates);
    TickFilterNoRepeat(dates);
    forall i, j | 0 <= i < j < |t| ensures DateYear(t[i]) != DateYear(t[j]) {
      assert Admits(t[..j], t[j]);
      assert t[..j][i] == t[i];
      SameYearIffMentioned(t[i], t[j]);
    }
  }
}
