/**
 * The JavaScript string operations the elapsed-time display relies on:
 * `String(n)` for a non-negative integer, concatenation and
 * `String.prototype.slice` with a negative start, plus the base-10 reading
 * that turns a digit string back into its number.
 */
module Digits {

  predicate IsDigit(c: char) {
    '0' <= c <= '9'
  }

  predicate AllDigits(s: string) {
    forall i :: 0 <= i < |s| ==> IsDigit(s[i])
  }

  function DigitChar(d: nat): (c: char)
    requires d < 10
    ensures IsDigit(c)
  {
    (d + '0' as int) as char
  }

  function DigitValue(c: char): (d: nat)
    requires IsDigit(c)
    ensures d < 10
    ensures DigitChar(d) == c
  {
    c as int - '0' as int
  }

  /**
   * The shortest decimal numeral of `n`, most significant digit first: JavaScript's
   * `String(n)` for integers below 10^21, where it uses no exponent and doubles are
   * exact up to 2^53; for larger `n` this is the idealised numeral.
   */
  function ToDecimal(n: nat): (s: string)
    ensures AllDigits(s)
    ensures |s| == 1 <==> n < 10
    ensures 1 <= |s|
    ensures s[0] == '0' <==> n == 0
  {
    if n < 10 then [DigitChar(n)] else ToDecimal(n / 10) + [DigitChar(n % 10)]
  }

  /** Reads a digit string as a base-10 number; the empty string reads as 0. */
  function ParseDecimal(s: string): nat
    requires AllDigits(s)
  {
    if s == [] then 0 else ParseDecimal(s[..|s| - 1]) * 10 + DigitValue(s[|s| - 1])
  }

  /** Reading back the numeral `String(n)` gives `n`. */
  lemma {:induction false} ParseToDecimal(n: nat)
    ensures ParseDecimal(ToDecimal(n)) == n
  {
    var s := ToDecimal(n);
    if n >= 10 {
      ParseToDecimal(n / 10);
      assert s[..|s| - 1] == ToDecimal(n / 10);
      assert DigitValue(s[|s| - 1]) == n % 10;
    } else {
      assert s[..0] == [];
    }
  }

  /** The last character of `String(n)` is the units digit of `n`. */
  lemma LastDigit(n: nat)
    ensures ToDecimal(n)[|ToDecimal(n)| - 1] == DigitChar(n % 10)
  {
  }

  /** `s.slice(start)` for a JavaScript string `s`: a negative start counts from the end. */
  function Slice(s: string, start: int): (r: string)
    ensures |r| == if start < 0 then (if -start < |s| then -start else |s|)
                   else (if start < |s| then |s| - start else 0)
    ensures r == s[|s| - |r|..]
  {
    if start < 0 then
      (if |s| + start < 0 then s else s[|s| + start..])
    else
      (if start < |s| then s[start..] else [])
  }

  /** The idiom `("0" + n).slice(-2)`: prefix a zero, keep the last two characters. */
  function PadTwo(n: nat): (s: string)
    ensures |s| == 2
    ensures AllDigits(s)
    ensures ParseDecimal(s) == n % 100
  {
    var s := Slice("0" + ToDecimal(n), -2);
    PadTwoValue(n);
    s
  }

  lemma PadTwoValue(n: nat)
    ensures var s := Slice("0" + ToDecimal(n), -2);
            |s| == 2 && AllDigits(s) && ParseDecimal(s) == n % 100
  {
    var z := "0" + ToDecimal(n);
    assert Slice(z, -2) == z[|z| - 2..];
    if n < 10 {
      PadTwoValueSmall(n, z);
    } else {
      PadTwoValueLarge(n, z);
    }
  }

  lemma PadTwoValueSmall(n: nat, z: string)
    requires n < 10 && z == "0" + ToDecimal(n)
    ensures |z| == 2 && AllDigits(z) && ParseDecimal(z) == n % 100
  {
    assert z == ['0', DigitChar(n)];
    ParseTwo(z);
  }

  lemma PadTwoValueLarge(n: nat, z: string)
    requires 10 <= n && z == "0" + ToDecimal(n)
    ensures |z| >= 2 && AllDigits(z[|z| - 2..]) && ParseDecimal(z[|z| - 2..]) == n % 100
  {
    var h := ToDecimal(n / 10);
    var u := DigitChar(n % 10);
    assert z == "0" + h + [u];
    var s := z[|z| - 2..];
    assert s == [h[|h| - 1], u];
    LastDigit(n / 10);
    ParseTwo(s);
    TensAndUnits(n);
  }

  lemma ParseTwo(s: string)
    requires |s| == 2 && AllDigits(s)
    ensures ParseDecimal(s) == DigitValue(s[0]) * 10 + DigitValue(s[1])
  {
    var t := s[..1];
    assert t[..0] == [];
    assert ParseDecimal(t) == DigitValue(s[0]);
    assert s[..|s| - 1] == t;
  }

  lemma TwoDigitsBelow100(s: string)
    requires |s| == 2 && AllDigits(s)
    ensures ParseDecimal(s) < 100
  {
    ParseTwo(s);
  }

  lemma TensAndUnits(n: nat)
    ensures n / 10 % 10 * 10 + n % 10 == n % 100
  {
    var q, r := n / 100, n % 100;
    assert n == 100 * q + r;
    assert n == 10 * (10 * q + r / 10) + r % 10;
    assert n / 10 == 10 * q + r / 10;
    assert n % 10 == r % 10;
  }

  /** Values below 10 get a leading "0"; values from 10 to 99 show as they are. */
  lemma PadTwoShape(n: nat)
    requires n < 100
    ensures n < 10 ==> PadTwo(n) == ['0', DigitChar(n)]
    ensures 10 <= n ==> PadTwo(n) == ToDecimal(n)
  {
    if 10 <= n {
      assert ToDecimal(n) == [DigitChar(n / 10), DigitChar(n % 10)];
    }
  }
}
