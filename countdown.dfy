/**
  The duration formatter (the source's `formatCountdown`): a millisecond
  count split into days, hours, minutes and seconds, the last three
  zero-padded to two digits.
*/
module Countdown {
  import opened Wrappers

  /** The formatted countdown; `days` is absent when the count is under one day. */
  datatype Countdown = Countdown(days: Option<string>, hours: string, minutes: string, seconds: string)

  predicate IsDigit(c: char)
  {
    '0' <= c <= '9'
  }

  predicate AllDigits(s: string)
  {
    forall i :: 0 <= i < |s| ==> IsDigit(s[i])
  }

  function DigitChar(d: int): (c: char)
    requires 0 <= d < 10
    ensures IsDigit(c) && c as int - '0' as int == d
  {
    ('0' as int + d) as char
  }

  /** The decimal text of a non-negative integer, as `toString()` writes it: no leading zeros. */
  function NatToString(n: nat): (s: string)
    ensures AllDigits(s)
    ensures 1 <= |s| && (n < 10 <==> |s| == 1) && (n < 100 ==> |s| <= 2)
    ensures s[0] == '0' <==> n == 0
    decreases n
  {
    if n < 10 then [DigitChar(n)]
    else NatToString(n / 10) + [DigitChar(n % 10)]
  }

  /** The value of a string of decimal digits, most significant first. */
  function ParseDecimal(s: string): nat
    requires AllDigits(s)
  {
    if s == [] then 0
    else ParseDecimal(s[..|s| - 1]) * 10 + (s[|s| - 1] as int - '0' as int)
  }

  /** `padStart(width, fill)` with a one-character fill: `fill` repeated in front up to `width` characters. */
  function PadStart(s: string, width: nat, fill: char): (r: string)
    ensures |r| == if |s| >= width then |s| else width
    ensures r[|r| - |s|..] == s
    ensures forall i :: 0 <= i < |r| - |s| ==> r[i] == fill
  {
    if |s| >= width then s else seq(width - |s|, _ => fill) + s
  }

  /** A field shown with two digits. */
  function TwoDigits(n: nat): (s: string)
    ensures n < 100 ==> |s| == 2
    ensures AllDigits(s)
  {
    PadStart(NatToString(n), 2, '0')
  }

  /**
    `formatCountdown`: the zero state for a non-positive count; otherwise
    whole seconds split into days, hours, minutes and seconds, with the
    days field present only when there is at least one whole day.
  */
  function FormatCountdown(ms: int): (r: Countdown)
    ensures ms <= 0 ==> r == Countdown(None, "00", "00", "00")
    ensures |r.hours| == 2 && |r.minutes| == 2 && |r.seconds| == 2
    ensures AllDigits(r.hours) && AllDigits(r.minutes) && AllDigits(r.seconds)
    ensures r.days.Some? <==> ms >= 86400 * 1000
    ensures r.days.Some? ==> AllDigits(r.days.value) && |r.days.value| >= 1 && r.days.value[0] != '0'
  {
    if ms <= 0 then Countdown(None, "00", "00", "00")
    else
      // Math.floor(ms / 1000): Dafny's division agrees with floor for a positive divisor.
      var totalSeconds := ms / 1000;
      var days := totalSeconds / 86400;
      var hours := (totalSeconds % 86400) / 3600;
      var minutes := (totalSeconds % 3600) / 60;
      var seconds := totalSeconds % 60;
      if days > 0 then
        Countdown(Some(NatToString(days)), TwoDigits(hours), TwoDigits(minutes), TwoDigits(seconds))
      else
        Countdown(None, TwoDigits(hours), TwoDigits(minutes), TwoDigits(seconds))
  }

  /** Reading a countdown back as a number of seconds. */
  function CountdownSeconds(c: Countdown): int
    requires AllDigits(c.hours) && AllDigits(c.minutes) && AllDigits(c.seconds)
    requires c.days.Some? ==> AllDigits(c.days.value)
  {
    (if c.days.Some? then ParseDecimal(c.days.value) else 0) * 86400 +
    ParseDecimal(c.hours) * 3600 + ParseDecimal(c.minutes) * 60 + ParseDecimal(c.seconds)
  }

  /** Reading back the decimal text of `n` gives `n`. */
  lemma {:induction false} ParseNatToString(n: nat)
    ensures ParseDecimal(NatToString(n)) == n
    decreases n
  {
    if n >= 10 {
      var prefix := NatToString(n / 10);
      var s := prefix + [DigitChar(n % 10)];
      assert s[..|s| - 1] == prefix;
      ParseNatToString(n / 10);
    }
  }

  /** Reading back a two-digit field gives its value. */
  lemma ParseTwoDigits(n: nat)
    requires n < 100
    ensures ParseDecimal(TwoDigits(n)) == n
  {
    if n < 10 {
      assert NatToString(n) == [DigitChar(n)];
      var s := TwoDigits(n);
      assert s == ['0', DigitChar(n)];
      assert s[..1] == ['0'] && ['0'][..0] == [];
      assert ParseDecimal(['0']) == 0;
    } else {
      ParseNatToString(n);
    }
  }

  /** The day, hour, minute and second split of a whole number of seconds puts each part in range and loses nothing. */
  lemma SplitSeconds(total: nat)
    ensures 0 <= (total % 86400) / 3600 < 24
    ensures 0 <= (total % 3600) / 60 < 60
    ensures total == (total / 86400) * 86400 + ((total % 86400) / 3600) * 3600 + ((total % 3600) / 60) * 60 + total % 60
  {
    var d, r := total / 86400, total % 86400;
    assert total == d * 86400 + r && 0 <= r < 86400;
    var h, r2 := r / 3600, r % 3600;
    assert r == h * 3600 + r2 && 0 <= r2 < 3600;
    assert 0 <= h < 24;
    var q := d * 24 + h;
    assert total == q * 3600 + r2;
    QuotientRemainder(total, 3600, q, r2);
    var m, s := r2 / 60, r2 % 60;
    assert r2 == m * 60 + s && 0 <= s < 60;
    assert total == (q * 60 + m) * 60 + s;
    QuotientRemainder(total, 60, q * 60 + m, s);
  }

  /** A positive multiple of a positive number is at least that number. */
  lemma AtLeastOnce(k: int, b: int)
    requires k >= 1 && b > 0
    ensures k * b >= b && -k * b <= -b
  {
    assert k * b == (k - 1) * b + b;
    assert (k - 1) * b >= 0;
    assert -k * b == -(k * b);
  }

  /** The only multiple of a positive number strictly between its negation and itself is zero. */
  lemma OnlyZeroMultipleIsSmall(k: int, b: int)
    requires b > 0 && -b < k * b < b
    ensures k == 0
  {
    if k >= 1 {
      AtLeastOnce(k, b);
    } else if k <= -1 {
      AtLeastOnce(-k, b);
    }
  }

  /** Division with remainder is unique: a quotient and an in-range remainder that rebuild `a` are `a / b` and `a % b`. */
  lemma QuotientRemainder(a: int, b: int, q: int, r: int)
    requires b > 0 && 0 <= r < b && a == q * b + r
    ensures a / b == q && a % b == r
  {
    var q', r' := a / b, a % b;
    assert a == q' * b + r' && 0 <= r' < b;
    assert (q - q') * b == q * b - q' * b;
    OnlyZeroMultipleIsSmall(q - q', b);
  }

  /** The fields of a positive count's countdown, named by the parts of its whole seconds. */
  lemma FormatCountdownFields(ms: int)
    requires ms > 0
    ensures var total := ms / 1000;
      var c := FormatCountdown(ms);
      c.hours == TwoDigits((total % 86400) / 3600) &&
      c.minutes == TwoDigits((total % 3600) / 60) &&
      c.seconds == TwoDigits(total % 60) &&
      c.days == (if total / 86400 > 0 then Some(NatToString(total / 86400)) else None)
  {
  }

  /**
    For a positive count, reading the formatted fields back gives the
    whole seconds of the count, with hours under 24 and minutes and
    seconds under 60.
  */
  lemma CountdownRoundTrip(ms: int)
    requires ms > 0
    ensures var c := FormatCountdown(ms);
      CountdownSeconds(c) == ms / 1000 &&
      ParseDecimal(c.hours) < 24 && ParseDecimal(c.minutes) < 60 && ParseDecimal(c.seconds) < 60 &&
      (c.days.Some? ==> ParseDecimal(c.days.value) == ms / 1000 / 86400)
  {
    var total := ms / 1000;
    var d, h, m, sec := total / 86400, (total % 86400) / 3600, (total % 3600) / 60, total % 60;
    SplitSeconds(total);
    FormatCountdownFields(ms);
    var c := FormatCountdown(ms);
    ParseTwoDigits(h);
    ParseTwoDigits(m);
    ParseTwoDigits(sec);
    var days := if c.days.Some? then ParseDecimal(c.days.value) else 0;
    if d > 0 {
      ParseNatToString(d);
    }
    assert days == d;
    assert CountdownSeconds(c) == d * 86400 + h * 3600 + m * 60 + sec;
  }

  /** The worked examples: zero, a negative count, and one day, one hour, one minute and one second. */
  lemma FormatCountdownExamples()
    ensures FormatCountdown(0) == Countdown(None, "00", "00", "00")
    ensures FormatCountdown(-5000) == Countdown(None, "00", "00", "00")
    ensures FormatCountdown(90061000) == Countdown(Some("1"), "01", "01", "01")
  {
    var total := 90061000 / 1000;
    assert total == 90061;
    assert total / 86400 == 1 && (total % 86400) / 3600 == 1 && (total % 3600) / 60 == 1 && total % 60 == 1;
    assert NatToString(1) == "1";
    assert TwoDigits(1) == "01";
    FormatCountdownFields(90061000);
  }
}
