/**
 * The elapsed-time display of the `Timer` component: a millisecond counter
 * shown as three two-digit fields, minutes, seconds and hundredths of a
 * second, each one `("0" + Math.floor((timer / unit) % modulus)).slice(-2)`.
 */
module Timer {
  import opened Wrappers
  import opened Digits
  import opened Arithmetic

  /** The counter's period: one hour, after which the display repeats. */
  const HourMillis: nat := 3600000

  /** JavaScript's `%` on numbers: the remainder of a division truncated toward zero. */
  function JsRemainder(x: real, m: real): real
    requires 0.0 < m
  {
    x - m * Truncate(x / m) as real
  }

  /** JavaScript's truncation toward zero of a number to an integer. */
  function Truncate(x: real): (i: int)
    ensures 0.0 <= x ==> i as real <= x < i as real + 1.0
  {
    if x >= 0.0 then x.Floor else -((-x).Floor)
  }

  /** One displayed field as JavaScript computes it: `Math.floor((t / unit) % modulus)`. */
  function JsField(t: nat, unit: nat, modulus: nat): int
    requires 0 < unit && 0 < modulus
  {
    JsRemainder(t as real / unit as real, modulus as real).Floor
  }

  /** `Math.floor` of a sum of an integer and a fraction in [0, 1) is that integer. */
  lemma FloorOfFraction(n: int, f: real)
    requires 0.0 <= f < 1.0
    ensures (n as real + f).Floor == n
  {
  }

  /** For a non-negative integer counter the JavaScript field is `(t div unit) mod modulus`. */
  lemma JsFieldIsIntegerField(t: nat, unit: nat, modulus: nat)
    requires 0 < unit && 0 < modulus
    ensures JsField(t, unit, modulus) == (t / unit) % modulus
  {
    var u, m := unit as real, modulus as real;
    var q, r := t / unit, t % unit;
    var f := r as real / u;
    FractionBelowOne(r as real, u);
    var x := t as real / u;
    assert x == q as real + f by {
      CastMul(unit, q);
      assert t as real == u * q as real + r as real;
      assert u * f == r as real;
      DivOfMul(t as real, u, q as real + f);
    }
    var a, b := q / modulus, q % modulus;
    var g := (b as real + f) / m;
    FractionBelowOne(b as real + f, m);
    assert x / m == a as real + g by {
      CastMul(modulus, a);
      assert x == m * a as real + b as real + f;
      assert m * g == b as real + f;
      DivOfMul(x, m, a as real + g);
    }
    FloorOfFraction(a, g);
    assert Truncate(x / m) == a;
    assert JsRemainder(x, m) == b as real + f by {
      CastMul(modulus, a);
    }
    FloorOfFraction(b, f);
  }

  /** What the component shows for a counter value: "mm", "ss" and "cc". */
  datatype Clock = Clock(minutes: string, seconds: string, centiseconds: string)

  function MinutesOf(t: nat): nat { (t / 60000) % 60 }
  function SecondsOf(t: nat): nat { (t / 1000) % 60 }
  function CentisecondsOf(t: nat): nat { (t / 10) % 100 }

  /** The three integer fields are exactly what the component's floating-point expressions compute. */
  lemma FieldsMatchJavaScript(t: nat)
    ensures MinutesOf(t) == JsField(t, 60000, 60) < 60
    ensures SecondsOf(t) == JsField(t, 1000, 60) < 60
    ensures CentisecondsOf(t) == JsField(t, 10, 100) < 100
  {
    JsFieldIsIntegerField(t, 60000, 60);
    JsFieldIsIntegerField(t, 1000, 60);
    JsFieldIsIntegerField(t, 10, 100);
  }

  predicate IsTwoDigits(s: string) {
    |s| == 2 && AllDigits(s)
  }

  /** The three fields of the `Timer` component for the counter value `t` milliseconds. */
  function FormatElapsed(t: nat): (c: Clock)
    ensures IsTwoDigits(c.minutes) && IsTwoDigits(c.seconds) && IsTwoDigits(c.centiseconds)
    ensures ParseDecimal(c.minutes) == MinutesOf(t) < 60
    ensures ParseDecimal(c.seconds) == SecondsOf(t) < 60
    ensures ParseDecimal(c.centiseconds) == CentisecondsOf(t) < 100
  {
    var minutes, seconds, centiseconds := MinutesOf(t), SecondsOf(t), CentisecondsOf(t);
    BelowHundred(minutes);
    BelowHundred(seconds);
    BelowHundred(centiseconds);
    Clock(PadTwo(minutes), PadTwo(seconds), PadTwo(centiseconds))
  }

  lemma BelowHundred(v: nat)
    requires v < 100
    ensures v % 100 == v
  {
  }

  /**
   * Reads a display back as the number of hundredths of a second within the
   * hour it shows; `None` when a field is not a two-digit value in range.
   */
  function ReadClock(c: Clock): (r: Option<nat>)
    ensures r.Some? ==> r.value < HourMillis / 10
  {
    if IsTwoDigits(c.minutes) && IsTwoDigits(c.seconds) && IsTwoDigits(c.centiseconds)
       && ParseDecimal(c.minutes) < 60 && ParseDecimal(c.seconds) < 60
    then
      TwoDigitsBelow100(c.centiseconds);
      Some(ParseDecimal(c.minutes) * 6000 + ParseDecimal(c.seconds) * 100 + ParseDecimal(c.centiseconds))
    else None
  }

  /** Hundredths of a second, seconds and minutes are the digits of `c mod 360000` in the radix (60, 60, 100). */
  lemma MixedRadix(c: nat)
    ensures (c / 6000) % 60 * 6000 + (c / 100) % 60 * 100 + c % 100 == c % 360000
  {
    var h, w := c / 360000, c % 360000;
    var mm, w1 := w / 6000, w % 6000;
    var ss, cc := w1 / 100, w1 % 100;
    assert w == 6000 * mm + 100 * ss + cc;
    DivUnique(c, 6000, 60 * h + mm, 100 * ss + cc);
    DivUnique(60 * h + mm, 60, h, mm);
    DivUnique(c, 100, 3600 * h + 60 * mm + ss, cc);
    DivUnique(3600 * h + 60 * mm + ss, 60, 60 * h + mm, ss);
  }

  lemma FieldsInHundredths(t: nat)
    ensures MinutesOf(t) == (t / 10 / 6000) % 60
    ensures SecondsOf(t) == (t / 10 / 100) % 60
  {
    var c := t / 10;
    DivUnique(t, 60000, c / 6000, c % 6000 * 10 + t % 10);
    DivUnique(t, 1000, c / 100, c % 100 * 10 + t % 10);
  }

  /** Reading the display back recovers the counter modulo one hour, to the hundredth of a second. */
  lemma {:induction false} ReadFormatElapsed(t: nat)
    ensures ReadClock(FormatElapsed(t)) == Some((t / 10) % (HourMillis / 10))
  {
    FieldsInHundredths(t);
    MixedRadix(t / 10);
  }

  /** Two counter values show the same display exactly when they agree modulo one hour, to the hundredth. */
  lemma FormatElapsedSameIff(t1: nat, t2: nat)
    ensures FormatElapsed(t1) == FormatElapsed(t2) <==> (t1 / 10) % 360000 == (t2 / 10) % 360000
  {
    if FormatElapsed(t1) == FormatElapsed(t2) {
      ReadFormatElapsed(t1);
      ReadFormatElapsed(t2);
    }
    if (t1 / 10) % 360000 == (t2 / 10) % 360000 {
      SameHourRemainderSameDisplay(t1, t2);
    }
  }

  lemma SameHourRemainderSameDisplay(t1: nat, t2: nat)
    requires (t1 / 10) % 360000 == (t2 / 10) % 360000
    ensures FormatElapsed(t1) == FormatElapsed(t2)
  {
    FieldsFromHourRemainder(t1);
    FieldsFromHourRemainder(t2);
  }

  /** Each field depends only on the counter's hundredths modulo one hour. */
  lemma FieldsFromHourRemainder(t: nat)
    ensures var w := (t / 10) % 360000;
            MinutesOf(t) == w / 6000 && SecondsOf(t) == (w % 6000) / 100 && CentisecondsOf(t) == w % 100
  {
    FieldsInHundredths(t);
    RadixDigits(t / 10);
  }

  lemma RadixDigits(c: nat)
    ensures var w := c % 360000;
            (c / 6000) % 60 == w / 6000 && (c / 100) % 60 == (w % 6000) / 100 && c % 100 == w % 100
  {
    var h, w := c / 360000, c % 360000;
    var mm, w1 := w / 6000, w % 6000;
    var ss, cc := w1 / 100, w1 % 100;
    assert c == 6000 * (60 * h + mm) + w1;
    DivUnique(c, 6000, 60 * h + mm, w1);
    DivUnique(60 * h + mm, 60, h, mm);
    assert c == 100 * (3600 * h + 60 * mm + ss) + cc;
    DivUnique(c, 100, 3600 * h + 60 * mm + ss, cc);
    DivUnique(3600 * h + 60 * mm + ss, 60, 60 * h + mm, ss);
  }

  /** The display repeats every hour. */
  lemma FormatElapsedPeriodic(t: nat)
    ensures FormatElapsed(t + HourMillis) == FormatElapsed(t)
  {
    DivUnique(t + HourMillis, 10, t / 10 + 360000, t % 10);
    DivUnique(t / 10 + 360000, 360000, t / 10 / 360000 + 1, (t / 10) % 360000);
    SameHourRemainderSameDisplay(t + HourMillis, t);
  }

  /** A zero counter shows "00", "00", "00". */
  lemma FormatElapsedZero()
    ensures FormatElapsed(0) == Clock("00", "00", "00")
  {
    PadTwoShape(0);
  }

  /** 65 seconds show as one minute, five seconds. */
  lemma FormatElapsedExample()
    ensures FormatElapsed(65000) == Clock("01", "05", "00")
  {
    assert MinutesOf(65000) == 1 && SecondsOf(65000) == 5 && CentisecondsOf(65000) == 0;
    PadTwoShape(1);
    PadTwoShape(5);
    PadTwoShape(0);
  }

  /** A large counter wraps its minutes modulo 60: 999999999 ms is 16666 min 39.99 s. */
  lemma FormatElapsedWraps()
    ensures FormatElapsed(999999999) == Clock("46", "39", "99")
  {
    assert MinutesOf(999999999) == 46 && SecondsOf(999999999) == 39 && CentisecondsOf(999999999) == 99;
    PadTwoShape(46);
    PadTwoShape(39);
    PadTwoShape(99);
  }
}
