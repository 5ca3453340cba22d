/** The SubRip timestamp `HH:MM:SS,mmm` written by `format_timestamp`
    (audio-to-text.py:28-34), and its reading back. Times are exact reals: the
    rounding of binary floating point is not modelled. The function is total,
    as in Python; its promises about the fields hold for times that are not
    negative. */
module Timestamp {

  import opened Wrappers
  import opened Decimal
  import opened Text

  /** The four fields of a formatted timestamp. Only the hours can be negative,
      and only for a negative time. */
  datatype Fields = Fields(hours: int, minutes: nat, seconds: nat, millis: nat)

  /** Minutes and seconds below 60, milliseconds below 1000; hours unbounded. */
  predicate InRange(f: Fields) {
    f.minutes < 60 && f.seconds < 60 && f.millis < 1000
  }

  /** Python's `int(x)`: truncation toward zero. */
  function PyInt(x: real): (i: int)
    ensures 0.0 <= x ==> i as real <= x < i as real + 1.0
    ensures x < 0.0 ==> i as real - 1.0 < x <= i as real
  {
    if x >= 0.0 then x.Floor else -((-x).Floor)
  }

  /** Python's `x % 1` on a real: the sign of the divisor, so never negative. */
  function PyFrac(x: real): (f: real)
    ensures 0.0 <= f < 1.0
    ensures (x - f).Floor as real == x - f
  {
    x - x.Floor as real
  }

  /** The arithmetic of `format_timestamp` before rendering: milliseconds from the
      fractional second by truncation, then two `divmod`s by 60 (Python's floored
      `divmod` and Dafny's `/` and `%` agree for the positive divisor 60). */
  function Split(t: real): (f: Fields)
    ensures InRange(f)
    ensures f.hours * 3600 + f.minutes * 60 + f.seconds == PyInt(t)
    ensures f.millis as real <= PyFrac(t) * 1000.0 < f.millis as real + 1.0
    ensures t >= 0.0 ==> f.hours == t.Floor / 3600
  {
    var millis := PyInt(PyFrac(t) * 1000.0);
    var whole := PyInt(t);
    var minutes, seconds := whole / 60, whole % 60;
    var hours, minutes' := minutes / 60, minutes % 60;
    Fields(hours, minutes', seconds, millis)
  }

  /** The number of whole milliseconds the fields stand for. */
  function TotalMillis(f: Fields): int {
    ((f.hours * 60 + f.minutes) * 60 + f.seconds) * 1000 + f.millis
  }

  /** The fields give back the input truncated (never rounded) to millisecond
      resolution. */
  lemma SplitTruncatesToMillis(t: real)
    requires t >= 0.0
    ensures Split(t).hours >= 0
    ensures TotalMillis(Split(t)) == (t * 1000.0).Floor
    ensures TotalMillis(Split(t)) as real <= t * 1000.0 < TotalMillis(Split(t)) as real + 1.0
  {
  }

  /** The f-string `{hours:02}:{minutes:02}:{seconds:02},{milliseconds:03}`. */
  function Render(f: Fields): string {
    Concat([FormatInt(f.hours, 2), ":", Pad(f.minutes, 2), ":", Pad(f.seconds, 2), ",", Pad(f.millis, 3)])
  }

  /** The rendered timestamp, piece by piece: the hours with a sign-aware width
      of two, then minutes and seconds padded to two digits and milliseconds to
      three, separated by `:`, `:` and `,`. */
  lemma RenderPieces(f: Fields, h: string, m: string, s: string, ms: string)
    requires h == FormatInt(f.hours, 2) && m == Pad(f.minutes, 2)
    requires s == Pad(f.seconds, 2) && ms == Pad(f.millis, 3)
    ensures Render(f) == h + ":" + m + ":" + s + "," + ms
  {
    ConcatSeven(h, ":", m, ":", s, ",", ms);
  }

  function FormatTimestamp(t: real): string {
    Render(Split(t))
  }

  /** The shape `\d{2,}:\d{2}:\d{2},\d{3}`, read from the end since the hours are unbounded. */
  predicate IsTimestamp(s: string) {
    var n := |s|;
    n >= 12 &&
    AllDigits(s[..n - 10]) && s[n - 10] == ':' &&
    AllDigits(s[n - 9..n - 7]) && s[n - 7] == ':' &&
    AllDigits(s[n - 6..n - 4]) && s[n - 4] == ',' &&
    AllDigits(s[n - 3..])
  }

  /** Reads a timestamp back into its four fields. */
  function ParseTimestamp(s: string): Option<Fields> {
    if IsTimestamp(s) then
      var n := |s|;
      Some(Fields(Value(s[..n - 10]), Value(s[n - 9..n - 7]), Value(s[n - 6..n - 4]), Value(s[n - 3..])))
    else
      None
  }

  /** Any four digit strings of the right widths, joined by `:`, `:` and `,`,
      have the timestamp shape and read back as their values. */
  lemma {:induction false} JoinedFieldsParse(h: string, m: string, s: string, ms: string)
    requires AllDigits(h) && AllDigits(m) && AllDigits(s) && AllDigits(ms)
    requires |h| >= 2 && |m| == 2 && |s| == 2 && |ms| == 3
    ensures IsTimestamp(h + ":" + m + ":" + s + "," + ms)
    ensures ParseTimestamp(h + ":" + m + ":" + s + "," + ms) ==
      Some(Fields(Value(h), Value(m), Value(s), Value(ms)))
  {
    var r := h + ":" + m + ":" + s + "," + ms;
    var n := |r|;
    assert n == |h| + 10;
    assert r[..n - 10] == h;
    assert r[n - 9..n - 7] == m;
    assert r[n - 6..n - 4] == s;
    assert r[n - 3..] == ms;
  }

  /** Rendering fields in range yields the timestamp shape and loses nothing:
      reading it back gives the same fields, whatever the number of hours. */
  lemma RenderRoundTrip(f: Fields)
    requires InRange(f) && f.hours >= 0
    ensures IsTimestamp(Render(f))
    ensures ParseTimestamp(Render(f)) == Some(f)
  {
    PadWidth(f.minutes, 2);
    PadWidth(f.seconds, 2);
    PadWidth(f.millis, 3);
    assert Pow10(2) == 100 && Pow10(3) == 1000 by {
      assert Pow10(1) == 10;
    }
    RenderPieces(f, FormatInt(f.hours, 2), Pad(f.minutes, 2), Pad(f.seconds, 2), Pad(f.millis, 3));
    JoinedFieldsParse(Pad(f.hours, 2), Pad(f.minutes, 2), Pad(f.seconds, 2), Pad(f.millis, 3));
  }

  /** A formatted timestamp has the SubRip shape and reads back as the fields
      of the input: hours `t div 3600`, minutes and seconds below 60, and the
      truncated milliseconds. */
  lemma FormatTimestampRoundTrip(t: real)
    requires t >= 0.0
    ensures IsTimestamp(FormatTimestamp(t))
    ensures ParseTimestamp(FormatTimestamp(t)) == Some(Split(t))
  {
    SplitTruncatesToMillis(t);
    RenderRoundTrip(Split(t));
  }

  /** The hours field is at least two digits wide, never wraps, and is wider
      than two digits exactly from 100 hours on. */
  lemma HoursNeverWrap(t: real)
    requires t >= 0.0
    ensures var r := FormatTimestamp(t);
      IsTimestamp(r) && Value(r[..|r| - 10]) == t.Floor / 3600 &&
      (|r| >= 13 <==> t.Floor / 3600 >= 100)
  {
    var f := Split(t);
    SplitTruncatesToMillis(t);
    RenderRoundTrip(f);
    var r := FormatTimestamp(t);
    RenderPieces(f, FormatInt(f.hours, 2), Pad(f.minutes, 2), Pad(f.seconds, 2), Pad(f.millis, 3));
    assert |r| == |Pad(f.hours, 2)| + 10;
    PadWidth(f.hours, 2);
    assert Pow10(2) == 100 by {
      assert Pow10(1) == 10;
    }
  }

  /** A formatted timestamp contains no space and no line break, so it can sit
      on a line of its own and be told apart from `-->`. */
  lemma TimestampHasNoSeparators(t: real)
    ensures ' ' !in FormatTimestamp(t) && '\n' !in FormatTimestamp(t)
  {
    var f := Split(t);
    var h, m, s, ms := FormatInt(f.hours, 2), Pad(f.minutes, 2), Pad(f.seconds, 2), Pad(f.millis, 3);
    FormatIntHasNoSeparators(f.hours, 2);
    RenderPieces(f, h, m, s, ms);
    assert ' ' !in m && ' ' !in s && ' ' !in ms;
    assert '\n' !in m && '\n' !in s && '\n' !in ms;
  }

  lemma FormatZero()
    ensures FormatTimestamp(0.0) == "00:00:00,000"
  {
    var f := Fields(0, 0, 0, 0);
    assert Split(0.0) == f;
    RenderPieces(f, "00", "00", "00", "000");
  }

  lemma FormatOneHourOneMinute()
    ensures FormatTimestamp(3661.5) == "01:01:01,500"
  {
    var f := Fields(1, 1, 1, 500);
    assert Split(3661.5) == f;
    RenderPieces(f, "01", "01", "01", "500");
  }

  /** Truncation, not rounding: 59.9996 s does not roll over to the next second. */
  lemma FormatTruncatesNotRounds()
    ensures FormatTimestamp(59.9996) == "00:00:59,999"
  {
    var f := Fields(0, 0, 59, 999);
    assert Split(59.9996) == f;
    RenderPieces(f, "00", "00", "59", "999");
  }

  lemma FormatHundredHours()
    ensures FormatTimestamp(360000.0) == "100:00:00,000"
  {
    var f := Fields(100, 0, 0, 0);
    assert Split(360000.0) == f;
    RenderPieces(f, "100", "00", "00", "000");
  }

  /** A negative time is not rejected: the fraction is taken upwards (`%` floors)
      while the whole seconds are truncated towards zero, so the hours go
      negative. */
  lemma SplitNegative()
    ensures Split(-61.25) == Fields(-1, 58, 59, 750)
  {
  }

  /** The sign shows exactly from one second below zero on: the hours then go
      negative and print with a leading `-`. */
  lemma NegativeTimeSign(t: real)
    ensures FormatTimestamp(t)[0] == '-' <==> t <= -1.0
  {
    var f := Split(t);
    var h := FormatInt(f.hours, 2);
    RenderPieces(f, h, Pad(f.minutes, 2), Pad(f.seconds, 2), Pad(f.millis, 3));
    assert FormatTimestamp(t)[0] == h[0];
    if f.hours >= 0 {
      assert IsDigit(Pad(f.hours, 2)[0]);
    }
    assert f.hours < 0 <==> PyInt(t) < 0;
  }

  /** Between -1 and 0 the sign disappears altogether. */
  lemma SplitNegativeFraction()
    ensures Split(-0.5) == Fields(0, 0, 0, 500)
  {
  }

  lemma FormatNegativeFraction()
    ensures FormatTimestamp(-0.5) == "00:00:00,500"
  {
    SplitNegativeFraction();
    RenderPieces(Fields(0, 0, 0, 500), "00", "00", "00", "500");
  }
}
