/**
 * The pieces of JavaScript string and number behaviour that the chart code
 * relies on: decimal digits, Number-to-String of a non-negative integer,
 * unary `+` on a string of digits, `String.prototype.indexOf` and
 * `String.prototype.substring`.
 */
module JsText {
  import opened Wrappers

  predicate IsDigit(c: char) {
    '0' <= c <= '9'
  }

  predicate AllDigits(s: string) {
    forall i :: 0 <= i < |s| ==> IsDigit(s[i])
  }

  function DigitValue(c: char): (d: nat)
    requires IsDigit(c)
    ensures d < 10
  {
    (c as int) - ('0' as int)
  }

  function DigitChar(d: nat): (c: char)
    requires d < 10
    ensures IsDigit(c) && DigitValue(c) == d
  {
    (('0' as int) + d) as char
  }

  /** The number a string of decimal digits denotes, most significant digit
      first; the empty string denotes 0, as `+""` does. */
  function DigitsValue(s: string): (v: nat)
    requires AllDigits(s)
  {
    if s == [] then 0 else DigitsValue(s[..|s| - 1]) * 10 + DigitValue(s[|s| - 1])
  }

  /** `String(n)` for a non-negative integer: its decimal digits, without
      leading zeros ("0" for zero). */
  function DecimalText(n: nat): (t: string)
    ensures |t| >= 1 && AllDigits(t)
    ensures t[0] == '0' ==> n == 0
    ensures |t| == 1 <==> n < 10
  {
    if n < 10 then [DigitChar(n)] else DecimalText(n / 10) + [DigitChar(n % 10)]
  }

  /** `String(y)` for any integer, with a leading minus sign when negative. */
  function IntText(y: int): (t: string)
    ensures forall i :: 0 <= i < |t| ==> IsDigit(t[i]) || t[i] == '-'
  {
    if y < 0 then "-" + DecimalText(-y) else DecimalText(y)
  }

  /** Unary `+` applied to a string, restricted to strings of decimal digits:
      those convert to the number they denote (the empty string to 0); any
      other string gives None. */
  function ParseDigits(s: string): (r: Option<nat>)
    ensures r.Some? <==> AllDigits(s)
  {
    if AllDigits(s) then Some(DigitsValue(s)) else None
  }

  /** Reads back the text `IntText` produces: an optional minus sign and at
      least one digit. */
  function ParseInt(t: string): (r: Option<int>) {
    if |t| >= 2 && t[0] == '-' && AllDigits(t[1..]) then Some(-(DigitsValue(t[1..]) as int))
    else if |t| >= 1 && AllDigits(t) then Some(DigitsValue(t))
    else None
  }

  /** `p` occurs in `s` starting at index `k`. */
  predicate OccursAt(s: string, p: string, k: int) {
    0 <= k && k + |p| <= |s| && s[k..k + |p|] == p
  }

  /** `s.indexOf(p)`: the first index at which `p` occurs, or -1. */
  function IndexOf(s: string, p: string): (r: int)
    ensures -1 <= r
    ensures r >= 0 ==> OccursAt(s, p, r)
    ensures forall k :: 0 <= k < r ==> !OccursAt(s, p, k)
    ensures r == -1 <==> forall k :: !OccursAt(s, p, k)
    decreases |s|
  {
    if |s| < |p| then -1
    else if s[..|p|] == p then assert OccursAt(s, p, 0); 0
    else
      assert !OccursAt(s, p, 0);
      var r' := IndexOf(s[1..], p);
      assert forall k :: 1 <= k ==> (OccursAt(s, p, k) <==> OccursAt(s[1..], p, k - 1)) by {
        forall k | 1 <= k ensures OccursAt(s, p, k) <==> OccursAt(s[1..], p, k - 1) {
          if k + |p| <= |s| {
            assert s[1..][k - 1..k - 1 + |p|] == s[k..k + |p|];
          }
        }
      }
      if r' < 0 then -1 else r' + 1
  }

  /** A regular expression built from a string of digits only, tested against
      `s`: a plain substring search (digits have no upper or lower case). */
  predicate Contains(s: string, p: string)
    decreases |s|
  {
    |p| <= |s| && (s[..|p|] == p || Contains(s[1..], p))
  }

  /** The search succeeds exactly when the pattern occurs at some index. */
  lemma {:induction false} ContainsIff(s: string, p: string)
    ensures Contains(s, p) <==> exists k :: OccursAt(s, p, k)
    decreases |s|
  {
    if |p| <= |s| {
      if s[..|p|] == p {
        assert OccursAt(s, p, 0);
      } else {
        ContainsIff(s[1..], p);
        if Contains(s[1..], p) {
          var k :| OccursAt(s[1..], p, k);
          assert s[1..][k..k + |p|] == s[k + 1..k + 1 + |p|];
          assert OccursAt(s, p, k + 1);
        }
        forall k | OccursAt(s, p, k) ensures Contains(s[1..], p) {
          assert k != 0;
          assert s[1..][k - 1..k - 1 + |p|] == s[k..k + |p|];
          assert OccursAt(s[1..], p, k - 1);
        }
      }
    }
  }

  function Clamp(i: int, len: nat): (c: nat)
    ensures c <= len
  {
    if i < 0 then 0 else if i > len then len else i
  }

  /** `s.substring(start, end)`: both indices are clamped into [0, |s|] and
      swapped when the first exceeds the second. */
  function JsSubstring(s: string, start: int, end: int): (r: string)
    ensures 0 <= start <= end <= |s| ==> r == s[start..end]
    ensures start <= 0 && end <= 0 ==> r == []
    ensures 0 <= start && |s| <= end ==> r == s[Clamp(start, |s|)..]
  {
    var a, b := Clamp(start, |s|), Clamp(end, |s|);
    if a <= b then s[a..b] else s[b..a]
  }

  /** When no character of `a` can start `p` and `b` starts with `p`, the
      first occurrence of `p` in `a + b` is right after `a`. */
  lemma IndexOfAfterPrefix(a: string, p: string, b: string)
    requires |p| >= 1 && |p| <= |b| && b[..|p|] == p
    requires forall i :: 0 <= i < |a| ==> a[i] != p[0]
    ensures IndexOf(a + b, p) == |a|
  {
    var s := a + b;
    forall k | 0 <= k < |a| ensures !OccursAt(s, p, k) {
      if k + |p| <= |s| {
        assert s[k..k + |p|][0] == s[k] == a[k];
      }
    }
    assert s[|a|..|a| + |p|] == b[..|p|];
    assert OccursAt(s, p, |a|);
  }

  /** Number-to-String then unary `+` gives the number back. */
  lemma {:induction false} DigitsValueOfDecimalText(n: nat)
    ensures DigitsValue(DecimalText(n)) == n
  {
    var t := DecimalText(n);
    if n < 10 {
      assert t[..0] == [];
    } else {
      assert t[..|t| - 1] == DecimalText(n / 10);
      DigitsValueOfDecimalText(n / 10);
    }
  }

  lemma {:induction false} DigitsValuePositive(s: string)
    requires AllDigits(s) && |s| >= 1 && s[0] != '0'
    ensures DigitsValue(s) > 0
  {
    if |s| > 1 {
      DigitsValuePositive(s[..|s| - 1]);
    }
  }

  /** A string of digits without a leading zero is the decimal text of the
      number it denotes. */
  lemma {:induction false} DecimalTextOfDigits(s: string)
    requires AllDigits(s) && |s| >= 1 && s[0] != '0'
    ensures DecimalText(DigitsValue(s)) == s
  {
    var n := |s| - 1;
    if n == 0 {
      assert s[..0] == [];
    } else {
      var pre := s[..n];
      DigitsValuePositive(pre);
      DecimalTextOfDigits(pre);
      var v := DigitsValue(s);
      assert v / 10 == DigitsValue(pre) && v % 10 == DigitValue(s[n]);
      assert DigitChar(v % 10) == s[n];
      assert s == pre + [s[n]];
    }
  }

  lemma ParseIntOfIntText(y: int)
    ensures ParseInt(IntText(y)) == Some(y)
  {
    if y < 0 {
      ParseIntOfNegative(-y);
    } else {
      ParseIntOfDecimal(y);
    }
  }

  lemma ParseIntOfDecimal(n: nat)
    ensures ParseInt(DecimalText(n)) == Some(n)
  {
    var t := DecimalText(n);
    assert IsDigit(t[0]);
    DigitsValueOfDecimalText(n);
  }

  lemma ParseIntOfNegative(n: nat)
    requires n > 0
    ensures ParseInt("-" + DecimalText(n)) == Some(-(n as int))
  {
    var digits := DecimalText(n);
    var t := "-" + digits;
    assert t[1..] == digits;
    DigitsValueOfDecimalText(n);
  }
}
