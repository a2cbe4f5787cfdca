/**
 * `Number.parseInt` with no radix, as the inventory editor applies it to the
 * text of its quantity field, and the decimal rendering of an integer that
 * the field displays.
 */
module JsNumber {
  import opened Common

  /** The value of `c` as a digit in base 16 or below. */
  function DigitOf(c: char): (r: Option<nat>)
    ensures r.Some? ==> r.value < 16
    ensures r.Some? && r.value < 10 <==> '0' <= c <= '9'
  {
    if '0' <= c <= '9' then Some(c as int - '0' as int)
    else if 'a' <= c <= 'f' then Some(c as int - 'a' as int + 10)
    else if 'A' <= c <= 'F' then Some(c as int - 'A' as int + 10)
    else None
  }

  predicate IsDigitIn(c: char, radix: nat) {
    DigitOf(c).Some? && DigitOf(c).value < radix
  }

  predicate AllDigits(ds: string, radix: nat) {
    forall i :: 0 <= i < |ds| ==> IsDigitIn(ds[i], radix)
  }

  /** Length of the longest prefix of `s` made of digits of `radix`. */
  function DigitRun(s: string, radix: nat): (n: nat)
    ensures n <= |s|
    ensures AllDigits(s[..n], radix)
    ensures n < |s| ==> !IsDigitIn(s[n], radix)
    decreases |s|
  {
    if s == [] || !IsDigitIn(s[0], radix) then 0
    else
      var n := 1 + DigitRun(s[1..], radix);
      assert forall i :: 1 <= i < n ==> s[..n][i] == s[1..][..n - 1][i - 1];
      n
  }

  /** The number the digit string `ds` denotes in `radix`, most significant digit first. */
  function ValueOf(ds: string, radix: nat): nat
    requires AllDigits(ds, radix)
    decreases |ds|
  {
    if ds == [] then 0
    else
      assert AllDigits(ds[..|ds| - 1], radix);
      ValueOf(ds[..|ds| - 1], radix) * radix + DigitOf(ds[|ds| - 1]).value
  }

  /**
   * The unsigned part of `parseInt`: base 16 after a `0x` or `0X` prefix,
   * base 10 otherwise, then the longest run of digits; none is `NaN`.
   */
  function ParseMagnitude(body: string): (r: Option<nat>)
    ensures body != [] && '1' <= body[0] <= '9' ==> r.Some?
  {
    var hex := |body| >= 2 && body[0] == '0' && (body[1] == 'x' || body[1] == 'X');
    var radix := if hex then 16 else 10;
    var ds := if hex then body[2..] else body;
    var n := DigitRun(ds, radix);
    if n == 0 then None else Some(ValueOf(ds[..n], radix))
  }

  /**
   * `Number.parseInt(text)`: skip leading white space, take an optional sign,
   * then read the magnitude. No digit at all is `NaN`, here `None`.
   */
  function ParseInt(text: string): (r: Option<int>)
    ensures TrimStart(text) == [] ==> r.None?
    ensures var t := TrimStart(text); t != [] && '1' <= t[0] <= '9' ==> r.Some?
  {
    var t := TrimStart(text);
    var negative := t != [] && t[0] == '-';
    var body := if t != [] && (t[0] == '-' || t[0] == '+') then t[1..] else t;
    match ParseMagnitude(body)
    case None => None
    case Some(v) =>
      var x: int := v;
      Some(if negative then -x else x)
  }

  /** `Number.parseInt(text) || 0`: `NaN` (and zero) read as 0. */
  function ParseQuantity(text: string): int {
    ParseInt(text).GetOr(0)
  }

  function DigitChar(d: nat): (c: char)
    requires d < 10
    ensures DigitOf(c) == Some(d)
  {
    ('0' as int + d) as char
  }

  /** The decimal numeral of `m`, without leading zeros. */
  function ShowNat(m: nat): (r: string)
    ensures r != []
    ensures '0' <= r[0] <= '9'
    decreases m
  {
    if m < 10 then [DigitChar(m)]
    else ShowNat(m / 10) + [DigitChar(m % 10)]
  }

  /** The decimal numeral of `n`, with a leading minus sign when negative. */
  function ShowInt(n: int): string {
    if n < 0 then "-" + ShowNat(-n) else ShowNat(n)
  }

  /** A numeral is made of decimal digits only. */
  lemma {:induction false} ShowNatDigits(m: nat)
    ensures AllDigits(ShowNat(m), 10)
    decreases m
  {
    if m >= 10 {
      var s := ShowNat(m);
      ShowNatDigits(m / 10);
      assert forall i :: 0 <= i < |s| - 1 ==> s[i] == ShowNat(m / 10)[i];
    }
  }

  /** Reading a numeral back gives the number it shows. */
  lemma {:induction false} ValueOfShowNat(m: nat)
    ensures AllDigits(ShowNat(m), 10) && ValueOf(ShowNat(m), 10) == m
    decreases m
  {
    ShowNatDigits(m);
    if m >= 10 {
      var s := ShowNat(m);
      assert s[..|s| - 1] == ShowNat(m / 10);
      ValueOfShowNat(m / 10);
    }
  }

  /** A digit run followed by a non-digit stops exactly at the end of the run. */
  lemma {:induction false} DigitRunStopsAtEnd(ds: string, tail: string, radix: nat)
    requires AllDigits(ds, radix)
    requires tail == [] || !IsDigitIn(tail[0], radix)
    ensures DigitRun(ds + tail, radix) == |ds|
    decreases |ds|
  {
    if ds != [] {
      assert (ds + tail)[1..] == ds[1..] + tail;
      DigitRunStopsAtEnd(ds[1..], tail, radix);
    } else {
      assert ds + tail == tail;
    }
  }

  /** A decimal numeral followed by nothing or by a fraction reads as its value. */
  lemma ParseMagnitudeOfNumeral(ds: string, tail: string)
    requires ds != [] && AllDigits(ds, 10)
    requires tail == [] || tail[0] == '.'
    ensures ParseMagnitude(ds + tail) == Some(ValueOf(ds, 10))
  {
    var body := ds + tail;
    if |body| >= 2 {
      assert body[1] == (if |ds| >= 2 then ds[1] else tail[0]);
    }
    DigitRunStopsAtEnd(ds, tail, 10);
    assert body[..|ds|] == ds;
  }

  /** The numeral of `m`, followed by nothing or by a fraction, has magnitude `m`. */
  lemma MagnitudeOfShowNat(m: nat, tail: string)
    requires tail == [] || tail[0] == '.'
    ensures ParseMagnitude(ShowNat(m) + tail) == Some(m)
  {
    ValueOfShowNat(m);
    ParseMagnitudeOfNumeral(ShowNat(m), tail);
  }

  /**
   * The field reads back what it shows: parsing the numeral of `n`, with or
   * without a decimal fraction after it, yields `n` (the fraction is dropped).
   */
  lemma ParseShowInt(n: int, tail: string)
    requires tail == [] || tail[0] == '.'
    ensures ParseInt(ShowInt(n) + tail) == Some(n)
  {
    if n < 0 {
      NegativeNumeral(n, tail);
      MagnitudeOfShowNat(-n, tail);
      ParseNegative(ShowNat(-n) + tail, -n);
    } else {
      MagnitudeOfShowNat(n, tail);
      ParseUnsigned(ShowNat(n) + tail, n);
    }
  }

  /** The numeral of a negative number is a minus sign before the numeral of its magnitude. */
  lemma NegativeNumeral(n: int, tail: string)
    requires n < 0
    ensures ShowInt(n) + tail == "-" + (ShowNat(-n) + tail)
  {
  }

  /** After a minus sign, `parseInt` negates the magnitude it reads. */
  lemma ParseNegative(body: string, v: nat)
    requires ParseMagnitude(body) == Some(v)
    ensures ParseInt("-" + body) == Some(0 - v)
  {
    var text := "-" + body;
    assert text[1..] == body;
    NoLeadingSpace(text);
  }

  /** Text that opens with a digit is read as its magnitude. */
  lemma ParseUnsigned(text: string, v: nat)
    requires text != [] && '0' <= text[0] <= '9'
    requires ParseMagnitude(text) == Some(v)
    ensures ParseInt(text) == Some(v)
  {
    NoLeadingSpace(text);
  }

  lemma NoLeadingSpace(s: string)
    requires s != [] && !IsSpace(s[0])
    ensures TrimStart(s) == s
  {
  }

  /** `parseInt(String(n)) || 0 == n` for every integer `n`. */
  lemma ParseQuantityRoundTrip(n: int)
    ensures ParseQuantity(ShowInt(n)) == n
  {
    ParseShowInt(n, "");
    assert ShowInt(n) + "" == ShowInt(n);
  }

  /** Without a digit in front there is no magnitude. */
  lemma MagnitudeNeedsDigit(body: string)
    requires body == [] || DigitOf(body[0]).None?
    ensures ParseMagnitude(body).None?
  {
  }

  /** An emptied field, or one holding no digits, reads as 0. */
  lemma NoDigitsReadsZero(text: string)
    requires forall i :: 0 <= i < |text| ==> DigitOf(text[i]).None?
    ensures ParseQuantity(text) == 0
  {
    var t := TrimStart(text);
    if t != [] {
      var body := if t[0] == '-' || t[0] == '+' then t[1..] else t;
      if body != [] {
        assert body[0] in text;
      }
      MagnitudeNeedsDigit(body);
    }
  }
}
