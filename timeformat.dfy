/** The `minutes:seconds` clock text used for row end times and the time ruler. */
module TimeFormat {

  predicate IsDigit(c: char) {
    '0' <= c <= '9'
  }

  predicate AllDigits(s: string) {
    forall i :: 0 <= i < |s| ==> IsDigit(s[i])
  }

  function DigitChar(d: nat): (c: char)
    requires d < 10
    ensures IsDigit(c) && c as int - '0' as int == d
  {
    ('0' as int + d) as char
  }

  /** Decimal text of a natural number, without leading zeros (`n.toString()`). */
  function NatToString(n: nat): (s: string)
    ensures |s| >= 1 && AllDigits(s)
    ensures n < 10 ==> |s| == 1
    ensures 10 <= n < 100 ==> |s| == 2
  {
    if n < 10 then [DigitChar(n)] else NatToString(n / 10) + [DigitChar(n % 10)]
  }

  /** Value of a decimal digit string (the empty string reads as zero). */
  function ParseNat(s: string): nat
    requires AllDigits(s)
  {
    if s == [] then 0 else ParseNat(s[..|s| - 1]) * 10 + (s[|s| - 1] as int - '0' as int)
  }

  lemma {:induction false} ParseNatToString(n: nat)
    ensures ParseNat(NatToString(n)) == n
  {
    if n >= 10 {
      var s := NatToString(n);
      assert s[..|s| - 1] == NatToString(n / 10);
      ParseNatToString(n / 10);
    }
  }

  /** `str.padStart(2, '0')`. */
  function PadStart2(s: string): (r: string)
    ensures |r| == if |s| >= 2 then |s| else 2
    ensures r[|r| - |s|..] == s
    ensures forall i :: 0 <= i < |r| - |s| ==> r[i] == '0'
  {
    if |s| >= 2 then s else if |s| == 1 then ['0'] + s else "00"
  }

  /** `formatTime(seconds)` for a whole number of seconds: the minutes, a colon and
      the remaining seconds padded to two digits. */
  function FormatTime(seconds: nat): (t: string)
    ensures |t| >= 4 && t[|t| - 3] == ':'
    ensures AllDigits(t[..|t| - 3]) && AllDigits(t[|t| - 2..])
  {
    var m := NatToString(seconds / 60);
    var p := PadStart2(NatToString(seconds % 60));
    assert |p| == 2 && AllDigits(p) by {
      var s := NatToString(seconds % 60);
      forall i | 0 <= i < |p| ensures IsDigit(p[i]) {
        if i >= |p| - |s| {
          assert p[i] == p[|p| - |s|..][i - (|p| - |s|)];
        }
      }
    }
    var t := m + ":" + p;
    assert t[..|t| - 3] == m && t[|t| - 2..] == p;
    t
  }

  /** Reads a `minutes:ss` text back to seconds; the inverse of `FormatTime`. */
  function ParseTime(t: string): (r: nat)
    requires |t| >= 4 && t[|t| - 3] == ':'
    requires AllDigits(t[..|t| - 3]) && AllDigits(t[|t| - 2..])
  {
    ParseNat(t[..|t| - 3]) * 60 + ParseNat(t[|t| - 2..])
  }

  /** Formatting loses nothing: minutes and the two-digit seconds field read back to the
      original count, so the seconds field is always below 60. */
  lemma {:induction false} FormatTimeRoundTrip(seconds: nat)
    ensures ParseTime(FormatTime(seconds)) == seconds
    ensures ParseNat(FormatTime(seconds)[|FormatTime(seconds)| - 2..]) < 60
  {
    var m := NatToString(seconds / 60);
    var s := NatToString(seconds % 60);
    var t := FormatTime(seconds);
    assert t == m + ":" + PadStart2(s);
    assert t[..|t| - 3] == m;
    assert t[|t| - 2..] == PadStart2(s);
    ParseNatToString(seconds / 60);
    ParseNatToString(seconds % 60);
    if |s| == 1 {
      assert PadStart2(s) == ['0'] + s;
      assert (['0'] + s)[..1] == ['0'];
      assert ParseNat(['0']) == 0;
    }
  }
}
