/** The `MM:SS.mmm` rendering of a duration (`TimeInterval.stringFromTimeInterval`).

    A duration is held in whole milliseconds. Swift's integer `/` and `%`
    truncate toward zero, so a negative duration yields negative fields; that
    is modelled here explicitly rather than with Dafny's Euclidean operators.
 */
module TimeFormat {
  import opened Sequences

  /** A duration in whole milliseconds. */
  type Millis = int

  datatype Option<T> = None | Some(value: T)

  const MillisPerSecond: int := 1000
  const MillisPerHour: int := 3_600_000

  // ---------------------------------------------------------------------------
  // Swift integer arithmetic

  /** Swift's `a / b`: the quotient rounded toward zero. */
  function Quot(a: int, b: int): int
    requires b > 0
  {
    if a >= 0 then a / b else -((-a) / b)
  }

  /** Swift's `a % b`: the remainder that takes the sign of `a`. */
  function Rem(a: int, b: int): int
    requires b > 0
  {
    if a >= 0 then a % b else -((-a) % b)
  }

  /** Truncating division and remainder fit together, and both are odd in `a`. */
  lemma QuotRem(a: int, b: int)
    requires b > 0
    ensures a == b * Quot(a, b) + Rem(a, b)
    ensures a >= 0 ==> 0 <= Rem(a, b) < b && Quot(a, b) == a / b
    ensures a <= 0 ==> -b < Rem(a, b) <= 0
    ensures Quot(-a, b) == -Quot(a, b) && Rem(-a, b) == -Rem(a, b)
  {
    if a < 0 {
      var q, r := (-a) / b, (-a) % b;
      assert -a == b * q + r;
      assert a == b * (-q) + (-r);
    }
  }

  // ---------------------------------------------------------------------------
  // The three fields

  /** `NSInteger(self)`: whole seconds, truncated toward zero. */
  function WholeSeconds(t: Millis): int
  {
    Quot(t, MillisPerSecond)
  }

  /** `Int(self.truncatingRemainder(dividingBy: 1) * 1000)`. */
  function MsField(t: Millis): int
  {
    Rem(t, MillisPerSecond)
  }

  /** `time % 60`. */
  function SecondsField(t: Millis): int
  {
    Rem(WholeSeconds(t), 60)
  }

  /** `(time / 60) % 60`: whole hours are dropped. */
  function MinutesField(t: Millis): int
  {
    Rem(Quot(WholeSeconds(t), 60), 60)
  }

  /** Minutes within the hour and seconds within the minute make up the
      seconds within the hour. */
  lemma SecondsOfHour(s: int)
    requires s >= 0
    ensures ((s / 60) % 60) * 60 + s % 60 == s % 3600
  {
    var m := s / 60;
    var h, x := m / 60, (m % 60) * 60 + s % 60;
    assert s == 60 * m + s % 60;
    assert m == 60 * h + m % 60;
    assert s == 3600 * h + x && 0 <= x < 3600;
    var q, r := s / 3600, s % 3600;
    assert s == 3600 * q + r && 0 <= r < 3600;
    assert 3600 * (q - h) == x - r;
    assert q == h;
  }

  /** Seconds within the hour and the millisecond remainder make up the
      milliseconds within the hour. */
  lemma MillisOfHour(t: int)
    requires t >= 0
    ensures ((t / 1000) % 3600) * 1000 + t % 1000 == t % 3_600_000
  {
    var s := t / 1000;
    var h, x := s / 3600, (s % 3600) * 1000 + t % 1000;
    assert t == 1000 * s + t % 1000;
    assert s == 3600 * h + s % 3600;
    assert t == 3_600_000 * h + x && 0 <= x < 3_600_000;
    var q, r := t / 3_600_000, t % 3_600_000;
    assert t == 3_600_000 * q + r && 0 <= r < 3_600_000;
    assert 3_600_000 * (q - h) == x - r;
    assert q == h;
  }

  /** For a non-negative duration each field is in range and together they
      give back the duration modulo one hour. */
  lemma FieldsOfNonNegative(t: Millis)
    requires t >= 0
    ensures 0 <= MinutesField(t) < 60 && 0 <= SecondsField(t) < 60 && 0 <= MsField(t) < 1000
    ensures MinutesField(t) * 60 + SecondsField(t) == (t / 1000) % 3600
    ensures MsField(t) == t % 1000
    ensures (MinutesField(t) * 60 + SecondsField(t)) * 1000 + MsField(t) == t % MillisPerHour
  {
    var s := t / 1000;
    assert WholeSeconds(t) == s && s >= 0;
    assert SecondsField(t) == s % 60;
    assert Quot(s, 60) == s / 60 && s / 60 >= 0;
    assert MinutesField(t) == (s / 60) % 60;
    SecondsOfHour(s);
    MillisOfHour(t);
  }

  /** Truncation toward zero makes every field of `-t` the negation of the
      same field of `t`, so a negative duration prints with a sign per field. */
  lemma FieldsOfNegated(t: Millis)
    ensures MsField(-t) == -MsField(t)
    ensures SecondsField(-t) == -SecondsField(t)
    ensures MinutesField(-t) == -MinutesField(t)
  {
    QuotRem(t, 1000);
    QuotRem(WholeSeconds(t), 60);
    QuotRem(Quot(WholeSeconds(t), 60), 60);
  }

  /** Adding an hour changes nothing that is printed. */
  lemma HoursDropped(t: Millis)
    requires t >= 0
    ensures StringFromTimeInterval(t + MillisPerHour) == StringFromTimeInterval(t)
  {
    var u := t + MillisPerHour;
    assert WholeSeconds(u) == WholeSeconds(t) + 3600;
    assert MsField(u) == MsField(t);
    var s := WholeSeconds(t);
    assert (s + 3600) % 60 == s % 60;
    assert (s + 3600) / 60 == s / 60 + 60;
    assert (s / 60 + 60) % 60 == (s / 60) % 60;
  }

  // ---------------------------------------------------------------------------
  // Decimal digits and `%0.Nd`

  predicate IsDigit(c: char)
  {
    '0' <= c <= '9'
  }

  predicate AllDigits(s: string)
  {
    forall i :: 0 <= i < |s| ==> IsDigit(s[i])
  }

  function DigitChar(d: nat): char
    requires d < 10
  {
    ('0' as int + d) as char
  }

  function DigitValue(c: char): nat
    requires IsDigit(c)
  {
    c as int - '0' as int
  }

  function Pow10(n: nat): nat
  {
    if n == 0 then 1 else 10 * Pow10(n - 1)
  }

  /** The number a string of decimal digits denotes, most significant first. */
  function DecimalValue(s: string): nat
    requires AllDigits(s)
  {
    if s == [] then 0 else DecimalValue(s[..|s| - 1]) * 10 + DigitValue(s[|s| - 1])
  }

  /** `n` printed with the conversion `%0.<width>d` (the precision gives the
      least number of digits; zero with precision zero prints nothing). */
  function ZeroPad(n: nat, width: nat): string
    decreases n + width
  {
    if n == 0 && width == 0 then ""
    else ZeroPad(n / 10, if width == 0 then 0 else width - 1) + [DigitChar(n % 10)]
  }

  /** The padded text is all digits, denotes `n`, has at least `width`
      digits, and exactly `width` when `n` fits in them. */
  lemma {:induction false} ZeroPadCorrect(n: nat, width: nat)
    ensures var r := ZeroPad(n, width);
      && AllDigits(r) && DecimalValue(r) == n && |r| >= width
      && (n < Pow10(width) ==> |r| == width)
    decreases n + width
  {
    if !(n == 0 && width == 0) {
      var w := if width == 0 then 0 else width - 1;
      var front := ZeroPad(n / 10, w);
      ZeroPadCorrect(n / 10, w);
      var r := front + [DigitChar(n % 10)];
      assert r == ZeroPad(n, width);
      assert r[..|r| - 1] == front;
      assert DecimalValue(r) == DecimalValue(front) * 10 + n % 10;
      if width > 0 && n < Pow10(width) {
        assert n / 10 < Pow10(w);
      }
    }
  }

  /** `%0.<width>d` of a signed value: a minus sign, then the digits of its magnitude. */
  function PadSigned(n: int, width: nat): string
  {
    if n >= 0 then ZeroPad(n, width) else "-" + ZeroPad(-n, width)
  }

  // ---------------------------------------------------------------------------
  // The formatter and its inverse

  /** `String(format: "%0.2d:%0.2d.%0.3d", minutes, seconds, ms)`. */
  function StringFromTimeInterval(t: Millis): string
  {
    PadSigned(MinutesField(t), 2) + ":" + PadSigned(SecondsField(t), 2) + "." + PadSigned(MsField(t), 3)
  }

  /** Reads a `MM:SS.mmm` string back as milliseconds; `None` for anything else. */
  function ParseDuration(s: string): Option<Millis>
  {
    if |s| == 9 && s[2] == ':' && s[5] == '.' && AllDigits(s[0..2]) && AllDigits(s[3..5]) && AllDigits(s[6..9])
    then Some((DecimalValue(s[0..2]) * 60 + DecimalValue(s[3..5])) * 1000 + DecimalValue(s[6..9]))
    else None
  }

  /** Two, two and three digits joined by ':' and '.'. */
  lemma ClockShape(mm: string, ss: string, ms: string)
    requires |mm| == 2 && |ss| == 2 && |ms| == 3
    ensures var r := mm + ":" + ss + "." + ms;
      && |r| == 9 && r[2] == ':' && r[5] == '.'
      && r[0..2] == mm && r[3..5] == ss && r[6..9] == ms
  {
    FivePieces(mm, ":", ss, ".", ms);
  }

  /** A non-negative duration prints as exactly nine characters `DD:DD.DDD`
      whose three digit groups are the minutes, seconds and milliseconds. */
  lemma FormatShape(t: Millis)
    requires t >= 0
    ensures var r := StringFromTimeInterval(t);
      && |r| == 9 && r[2] == ':' && r[5] == '.'
      && AllDigits(r[0..2]) && AllDigits(r[3..5]) && AllDigits(r[6..9])
      && DecimalValue(r[0..2]) == MinutesField(t)
      && DecimalValue(r[3..5]) == SecondsField(t)
      && DecimalValue(r[6..9]) == MsField(t)
  {
    var mi, se, mil := MinutesField(t), SecondsField(t), MsField(t);
    FieldsOfNonNegative(t);
    var mm, ss, ms := ZeroPad(mi, 2), ZeroPad(se, 2), ZeroPad(mil, 3);
    assert Pow10(2) == 100 && Pow10(3) == 1000;
    ZeroPadCorrect(mi, 2);
    ZeroPadCorrect(se, 2);
    ZeroPadCorrect(mil, 3);
    assert PadSigned(mi, 2) == mm && PadSigned(se, 2) == ss && PadSigned(mil, 3) == ms;
    var r := StringFromTimeInterval(t);
    assert r == mm + ":" + ss + "." + ms;
    ClockShape(mm, ss, ms);
    assert r[0..2] == mm && r[3..5] == ss && r[6..9] == ms;
  }

  /** Parsing the printed form gives back the duration modulo one hour, so
      every duration under an hour survives the round trip. */
  lemma FormatRoundTrip(t: Millis)
    requires t >= 0
    ensures ParseDuration(StringFromTimeInterval(t)) == Some(t % MillisPerHour)
    ensures t < MillisPerHour ==> ParseDuration(StringFromTimeInterval(t)) == Some(t)
  {
    FormatShape(t);
    FieldsOfNonNegative(t);
  }

  /** The padding of a value to one more digit than its front part. */
  lemma ZeroPadStep(n: nat, width: nat)
    requires width > 0
    ensures ZeroPad(n, width) == ZeroPad(n / 10, width - 1) + [DigitChar(n % 10)]
  {
  }

  /** A value below 10 padded to one digit is that digit. */
  lemma ZeroPadOne(n: nat)
    requires n < 10
    ensures ZeroPad(n, 1) == [DigitChar(n)]
  {
    ZeroPadStep(n, 1);
    assert n / 10 == 0 && n % 10 == n;
    assert ZeroPad(0, 0) == "";
  }

  /** The two-digit padding the formatter uses for minutes and seconds. */
  lemma ZeroPadTwo(n: nat)
    requires n < 100
    ensures ZeroPad(n, 2) == [DigitChar(n / 10), DigitChar(n % 10)]
  {
    ZeroPadStep(n, 2);
    ZeroPadOne(n / 10);
  }

  /** The three-digit padding the formatter uses for milliseconds. */
  lemma ZeroPadThree(n: nat)
    requires n < 1000
    ensures ZeroPad(n, 3) == [DigitChar(n / 100), DigitChar((n / 10) % 10), DigitChar(n % 10)]
  {
    ZeroPadStep(n, 3);
    var d := n / 10;
    assert d < 100 && d / 10 == n / 100;
    ZeroPadTwo(d);
  }

  /** 125.4 seconds prints as `02:05.400`. */
  lemma FormatExample()
    ensures StringFromTimeInterval(125_400) == "02:05.400"
  {
    assert WholeSeconds(125_400) == 125;
    assert MinutesField(125_400) == 2 && SecondsField(125_400) == 5 && MsField(125_400) == 400;
    ZeroPadTwo(2);
    ZeroPadTwo(5);
    ZeroPadThree(400);
  }
}
