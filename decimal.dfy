/**
 * Amounts as integer cents. The source parses the captured amount text with
 * `float(...)` after removing thousands separators; every capture its amount
 * patterns can produce has the shape `digits` or `digits.dd` (the digits part
 * possibly empty), and this module gives that parse in cents, for ASCII
 * digits.
 */
module Decimal {
  import opened Wrappers
  import opened Text

  function DigitValue(c: char): nat
    requires IsDigit(c)
  {
    c as int - '0' as int
  }

  function DigitChar(d: nat): (c: char)
    requires d < 10
    ensures IsDigit(c) && DigitValue(c) == d
  {
    ('0' as int + d) as char
  }

  /** The value of a decimal digit string, most significant digit first. */
  function DigitsValue(s: string): nat
    requires AllDigits(s)
  {
    if s == [] then 0 else DigitsValue(s[..|s| - 1]) * 10 + DigitValue(s[|s| - 1])
  }

  /** The decimal digits of `n`, without leading zeros. */
  function DigitsOf(n: nat): (s: string)
    ensures AllDigits(s) && |s| > 0
  {
    if n < 10 then [DigitChar(n)] else DigitsOf(n / 10) + [DigitChar(n % 10)]
  }

  lemma {:induction false} DigitsRoundTrip(n: nat)
    ensures DigitsValue(DigitsOf(n)) == n
  {
    if n >= 10 {
      DigitsRoundTrip(n / 10);
      var s := DigitsOf(n);
      assert s[..|s| - 1] == DigitsOf(n / 10);
    }
  }

  /**
   * `float(s)` in cents, for the shapes an amount capture takes once its
   * commas are removed: `D+` or `D*.dd`. Anything else (in particular the
   * empty string left by a capture of commas only) fails, as `float` raises.
   */
  function ParseCents(s: string): (r: Option<nat>)
    ensures s == [] ==> r.None?
    ensures r.Some? ==> exists i :: 0 <= i < |s| && IsDigit(s[i])
    ensures r.Some? ==> forall i :: 0 <= i < |s| ==> IsDigit(s[i]) || s[i] == '.'
    ensures s != [] && AllDigits(s) ==> r == Some(DigitsValue(s) * 100)
  {
    if |s| >= 3 && s[|s| - 3] == '.' && AllDigits(s[..|s| - 3]) && AllDigits(s[|s| - 2..]) then
      Some(DigitsValue(s[..|s| - 3]) * 100 + DigitsValue(s[|s| - 2..]))
    else if |s| > 0 && AllDigits(s) then
      Some(DigitsValue(s) * 100)
    else
      None
  }

  /** The amount capture after `replace(',', '')`, parsed. */
  function CaptureCents(capture: string): (r: Option<nat>)
    ensures r.Some? ==> exists i :: 0 <= i < |capture| && IsDigit(capture[i])
    ensures r.Some? ==> forall i :: 0 <= i < |capture| ==> IsDigit(capture[i]) || capture[i] in ".,"
  {
    var t := StripCommas(capture);
    var r := ParseCents(t);
    if r.Some? then
      assert exists i :: 0 <= i < |capture| && IsDigit(capture[i]) by {
        var k :| 0 <= k < |t| && IsDigit(t[k]);
        assert t[k] in multiset(t);
        assert t[k] in multiset(capture);
      }
      assert forall i :: 0 <= i < |capture| ==> IsDigit(capture[i]) || capture[i] in ".," by {
        forall i | 0 <= i < |capture|
          ensures IsDigit(capture[i]) || capture[i] in ".,"
        {
          var c := capture[i];
          if c != ',' {
            assert c in multiset(capture);
            assert c in multiset(t);
            var k :| 0 <= k < |t| && t[k] == c;
          }
        }
      }
      r
    else r
  }

  /** An amount written the way notifications print it: `D.dd`. */
  function RenderCents(n: nat): string {
    DigitsOf(n / 100) + "." + [DigitChar(n % 100 / 10), DigitChar(n % 10)]
  }

  /** Every amount printed as `D.dd` is read back as the same number of cents. */
  lemma ParseRenderedCents(n: nat)
    ensures ParseCents(RenderCents(n)) == Some(n)
  {
    var s := RenderCents(n);
    var whole := DigitsOf(n / 100);
    assert s[..|s| - 3] == whole;
    var frac := s[|s| - 2..];
    assert frac == [DigitChar(n % 100 / 10), DigitChar(n % 10)];
    assert frac[..1] == [DigitChar(n % 100 / 10)] && frac[..1][..0] == [];
    assert DigitsValue(frac[..1]) == n % 100 / 10;
    assert DigitsValue(frac) == n % 100;
    DigitsRoundTrip(n / 100);
  }

  /** Thousands separators do not change the amount read from a capture. */
  lemma CommasIgnored(a: string, b: string)
    ensures CaptureCents(a + "," + b) == CaptureCents(a + b)
  {
    StripCommasAppend(a, "," + b);
    StripCommasAppend(a, b);
    var cb := "," + b;
    assert cb[0] == ',' && cb[1..] == b;
    assert StripCommas(cb) == StripCommas(b);
    assert a + "," + b == a + cb;
  }

  lemma {:induction false} StripCommasAppend(a: string, b: string)
    ensures StripCommas(a + b) == StripCommas(a) + StripCommas(b)
  {
    if a == [] {
      assert a + b == b;
    } else {
      assert (a + b)[0] == a[0] && (a + b)[1..] == a[1..] + b;
      StripCommasAppend(a[1..], b);
    }
  }

  /** A capture made only of commas has no digits, so `float` rejects it. */
  lemma CommasOnlyFail(capture: string)
    requires forall i :: 0 <= i < |capture| ==> capture[i] == ','
    ensures CaptureCents(capture) == None
  {
    StripAllCommas(capture);
  }

  lemma {:induction false} StripAllCommas(capture: string)
    requires forall i :: 0 <= i < |capture| ==> capture[i] == ','
    ensures StripCommas(capture) == []
  {
    if capture != [] {
      StripAllCommas(capture[1..]);
    }
  }
}
