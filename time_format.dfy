/**
 * The duration display of the stopwatch: a whole number of seconds shown as
 * `HH:MM:SS`, each field zero-padded to at least two digits. The hour field is
 * the raw quotient by 3600 and is never wrapped to a day, so it may grow to
 * three or more digits.
 */
module TimeFormat {
  import opened Optional

  /** A duration split into its three display fields. */
  datatype Clock = Clock(hours: nat, minutes: nat, seconds: nat)

  const SecondsPerHour: nat := 3600
  const SecondsPerMinute: nat := 60
  const MillisPerSecond: nat := 1000

  /** The number of seconds a clock value stands for. */
  function Join(c: Clock): nat {
    c.hours * SecondsPerHour + c.minutes * SecondsPerMinute + c.seconds
  }

  /** Field split of a duration, as `format_time` computes it. */
  function Split(secs: nat): (c: Clock)
    ensures c.minutes < 60 && c.seconds < 60
    ensures Join(c) == secs
  {
    var c := Clock(secs / SecondsPerHour, (secs % SecondsPerHour) / SecondsPerMinute, secs % SecondsPerMinute);
    ModOfMod(secs);
    c
  }

  lemma ModOfMod(secs: nat)
    ensures (secs % 3600) % 60 == secs % 60
    ensures secs == (secs / 3600) * 3600 + ((secs % 3600) / 60) * 60 + secs % 60
  {
    var q := secs / 3600;
    var r := secs % 3600;
    assert secs == q * 3600 + r;
    assert r == (r / 60) * 60 + r % 60;
    assert q * 3600 == (q * 60) * 60;
    assert secs == (q * 60 + r / 60) * 60 + r % 60;
  }

  /** The split is the only one with minutes and seconds below 60: splitting a joined clock gives it back. */
  lemma {:induction false} SplitJoin(c: Clock)
    requires c.minutes < 60 && c.seconds < 60
    ensures Split(Join(c)) == c
  {
    var n := Join(c);
    var r := c.minutes * 60 + c.seconds;
    assert r < 3600;
    assert n == c.hours * 3600 + r;
    DivModUnique(n, 3600, c.hours, r);
    DivModUnique(r, 60, c.minutes, c.seconds);
    ModOfMod(n);
  }

  lemma DivModUnique(n: nat, d: nat, q: nat, r: nat)
    requires 0 < d && r < d && n == q * d + r
    ensures n / d == q && n % d == r
  {
    var q' := n / d;
    if q' > q {
      MulStep(q, q', d);
      assert false;
    } else if q' < q {
      MulStep(q', q, d);
      assert false;
    }
  }

  lemma {:induction false} MulStep(a: nat, b: nat, d: nat)
    requires a < b
    ensures a * d + d <= b * d
    decreases b - a
  {
    assert b * d == (b - 1) * d + d;
    if b - 1 > a {
      MulStep(a, b - 1, d);
    }
  }

  /** The character of a decimal digit. */
  function DigitChar(d: nat): (ch: char)
    requires d < 10
    ensures '0' <= ch <= '9'
    ensures (ch as int) - ('0' as int) == d
  {
    (('0' as int) + d) as char
  }

  predicate IsDigit(ch: char) { '0' <= ch <= '9' }

  predicate AllDigits(s: string) { forall i :: 0 <= i < |s| ==> IsDigit(s[i]) }

  /** Decimal representation of `n` without leading zeros, as `{}` prints an unsigned integer. */
  function Decimal(n: nat): (s: string)
    ensures |s| >= 1 && AllDigits(s)
    ensures |s| == 1 <==> n < 10
    ensures n >= 10 ==> s[0] != '0'
    decreases n
  {
    if n < 10 then [DigitChar(n)] else Decimal(n / 10) + [DigitChar(n % 10)]
  }

  /** Value of a string of decimal digits, most significant first. */
  function ParseDecimal(s: string): nat
    requires AllDigits(s)
  {
    if s == [] then 0
    else ParseDecimal(s[..|s| - 1]) * 10 + ((s[|s| - 1] as int) - ('0' as int))
  }

  lemma {:induction false} ParseDecimalOfDecimal(n: nat)
    ensures ParseDecimal(Decimal(n)) == n
    decreases n
  {
    var s := Decimal(n);
    if n < 10 {
      assert s[..0] == [];
    } else {
      assert s[..|s| - 1] == Decimal(n / 10);
      ParseDecimalOfDecimal(n / 10);
    }
  }

  /** Leading zeros do not change the value of a digit string. */
  lemma {:induction false} ParseDecimalLeadingZero(s: string)
    requires AllDigits(s)
    ensures AllDigits("0" + s) && ParseDecimal("0" + s) == ParseDecimal(s)
    decreases |s|
  {
    if s != [] {
      var t := "0" + s;
      assert t[..|t| - 1] == "0" + s[..|s| - 1];
      ParseDecimalLeadingZero(s[..|s| - 1]);
    } else {
      assert ("0" + s)[..0] == [];
    }
  }

  /** Decimal numbers below 100 take at most two characters, and no others do. */
  lemma {:induction false} DecimalShort(n: nat)
    ensures |Decimal(n)| <= 2 <==> n < 100
    decreases n
  {
    if n >= 10 {
      DecimalShort(n / 10);
    }
  }

  /** `{:02}`: decimal, with a zero in front when it would be a single digit. */
  function Pad2(n: nat): (s: string)
    ensures AllDigits(s) && ParseDecimal(s) == n
    ensures |s| >= 2
    ensures |s| == 2 <==> n < 100
    // a leading zero only in front of a single digit
    ensures s[0] == '0' <==> n < 10
  {
    ParseDecimalOfDecimal(n);
    DecimalShort(n);
    if n < 10 then
      ParseDecimalLeadingZero(Decimal(n));
      "0" + Decimal(n)
    else Decimal(n)
  }

  /** `format_time` on a whole number of seconds. */
  function FormatSeconds(secs: nat): (s: string)
    ensures |s| >= 8
    ensures s[|s| - 6] == ':' && s[|s| - 3] == ':'
    ensures |s| == 8 <==> secs < 360000
    ensures s[0] == '0' <==> secs < 36000
  {
    var c := Split(secs);
    Pad2(c.hours) + ":" + Pad2(c.minutes) + ":" + Pad2(c.seconds)
  }

  /**
   * `format_time` on a duration held in milliseconds: `as_secs` drops the
   * fraction of a second before the split.
   */
  function FormatDuration(millis: nat): (s: string)
    // read back, the display gives the whole seconds of the duration
    ensures ParseTime(s) == Some(millis / MillisPerSecond)
  {
    FormatParse(millis / MillisPerSecond);
    FormatSeconds(millis / MillisPerSecond)
  }

  /** The three fields of a display, read back as numbers; `None` when it is not of the form `H…H:MM:SS`. */
  function ParseFields(s: string): (r: Option<Clock>)
    ensures r.Some? ==> r.value.minutes < 100 && r.value.seconds < 100
  {
    if |s| < 8 || s[|s| - 6] != ':' || s[|s| - 3] != ':' then None
    else
      var h, m, sec := s[..|s| - 6], s[|s| - 5..|s| - 3], s[|s| - 2..];
      if AllDigits(h) && AllDigits(m) && AllDigits(sec) then
        ParseTwoDigits(m);
        ParseTwoDigits(sec);
        Some(Clock(ParseDecimal(h), ParseDecimal(m), ParseDecimal(sec)))
      else None
  }

  lemma ParseTwoDigits(s: string)
    requires |s| == 2 && AllDigits(s)
    ensures ParseDecimal(s) < 100
  {
    var first := s[..1];
    assert first[..0] == [];
    assert ParseDecimal(first) < 10;
  }

  /** Reading a display back as a number of seconds. */
  function ParseTime(s: string): Option<nat> {
    match ParseFields(s)
    case None => None
    case Some(c) => if c.minutes < 60 && c.seconds < 60 then Some(Join(c)) else None
  }

  /**
   * The fields of the display are exactly the quotient-and-remainder split:
   * the hours are `secs / 3600`, with no wrap at 24.
   */
  lemma FormatFields(secs: nat)
    ensures ParseFields(FormatSeconds(secs)) == Some(Clock(secs / 3600, (secs % 3600) / 60, secs % 60))
  {
    var c := Split(secs);
    var h, m, sec := Pad2(c.hours), Pad2(c.minutes), Pad2(c.seconds);
    var s := FormatSeconds(secs);
    assert s == h + ":" + m + ":" + sec;
    assert s[..|s| - 6] == h;
    assert s[|s| - 5..|s| - 3] == m;
    assert s[|s| - 2..] == sec;
  }

  /** Round trip: the display determines the number of seconds it was made from. */
  lemma FormatParse(secs: nat)
    ensures ParseTime(FormatSeconds(secs)) == Some(secs)
  {
    FormatFields(secs);
  }

  /** Distinct numbers of seconds give distinct displays. */
  lemma FormatInjective(a: nat, b: nat)
    requires FormatSeconds(a) == FormatSeconds(b)
    ensures a == b
  {
    FormatParse(a);
    FormatParse(b);
  }

  /** Thirty hours are shown as `30:00:00`, not wrapped to a day. */
  lemma ThirtyHours()
    ensures FormatSeconds(30 * 3600) == "30:00:00"
  {
    var c := Split(30 * 3600);
    assert c == Clock(30, 0, 0);
    assert Decimal(30) == "30";
    assert Pad2(30) == "30";
    assert Pad2(0) == "00";
  }
}
