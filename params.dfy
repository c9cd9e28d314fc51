/** The parsed query string of a request, and what the handlers do with a
    parameter's text: test it for presence and read it as an integer. */
module Params {
  import opened Wrappers

  /** `urllib.parse.parse_qs` maps each key to the non-empty list of its values. */
  type Values = s: seq<string> | |s| > 0 witness [""]
  type Query = map<string, Values>

  /** `query.get(key, [None])[0]`: the first value given for `key`, if any. */
  function Param(query: Query, key: string): (p: Option<string>)
    ensures p.None? <==> key !in query
    ensures p.Some? ==> p.value == query[key][0]
  {
    if key in query then Some(query[key][0]) else None
  }

  /** Python truthiness of that value: neither `None` nor the empty string. */
  predicate Present(p: Option<string>)
    ensures Present(p) <==> p !in {None, Some("")}
  {
    p.Some? && p.value != ""
  }

  predicate IsDigit(c: char) {
    '0' <= c <= '9'
  }

  predicate AllDigits(s: string) {
    forall k :: 0 <= k < |s| ==> IsDigit(s[k])
  }

  /** The value of a string of decimal digits, read left to right. */
  function DigitsValue(s: string): nat
    requires AllDigits(s)
  {
    if s == [] then 0
    else DigitsValue(s[..|s| - 1]) * 10 + (s[|s| - 1] as int - '0' as int)
  }

  /** A decimal integer literal: an optional minus sign followed by at least one digit. */
  function ParseInt(s: string): (r: Option<int>)
    ensures r.Some? <==> (|s| > 0 && s[0] != '-' && AllDigits(s))
                         || (|s| > 1 && s[0] == '-' && AllDigits(s[1..]))
    ensures r.Some? && s[0] == '-' ==> r.value <= 0
    ensures r.Some? && s[0] != '-' ==> r.value >= 0
  {
    if |s| > 1 && s[0] == '-' && AllDigits(s[1..]) then Some(0 - DigitsValue(s[1..]) as int)
    else if |s| > 0 && s[0] != '-' && AllDigits(s) then Some(DigitsValue(s))
    else None
  }

  /** The canonical decimal text of a natural number. */
  function ShowNat(n: nat): (s: string)
    ensures |s| > 0 && AllDigits(s)
  {
    if n < 10 then ['0' + n as char]
    else ShowNat(n / 10) + ['0' + (n % 10) as char]
  }

  /** The canonical decimal text of an integer, as a browser would send it. */
  function ShowInt(i: int): string {
    if i < 0 then "-" + ShowNat(-i) else ShowNat(i)
  }

  lemma {:induction false} DigitsValueShowNat(n: nat)
    ensures DigitsValue(ShowNat(n)) == n
  {
    if n >= 10 {
      var s := ShowNat(n);
      assert s[..|s| - 1] == ShowNat(n / 10);
      DigitsValueShowNat(n / 10);
    }
  }

  /** Reading back the canonical text of any integer gives that integer. */
  lemma ParseShowInt(i: int)
    ensures ParseInt(ShowInt(i)) == Some(i)
  {
    if i < 0 {
      MinusZerosShowIsParsed(0, -i);
      assert ShowInt(i) == "-" + Zeros(0) + ShowNat(-i);
    } else {
      ZerosShowIsParsed(0, i);
      assert ShowInt(i) == Zeros(0) + ShowNat(i);
    }
  }

  /** `k` zero digits. */
  function Zeros(k: nat): (s: string)
    ensures |s| == k && AllDigits(s)
  {
    if k == 0 then "" else Zeros(k - 1) + "0"
  }

  /** `s` is the decimal text of `v`, allowing leading zeros and, for zero, a minus sign. */
  ghost predicate DecimalText(s: string, v: int) {
    exists k: nat :: (v >= 0 && s == Zeros(k) + ShowNat(v)) || (v <= 0 && s == "-" + Zeros(k) + ShowNat(-v))
  }

  lemma {:induction false} ZerosCons(k: nat)
    ensures "0" + Zeros(k) == Zeros(k + 1)
  {
    if k > 0 {
      ZerosCons(k - 1);
    }
  }

  /** Leading zeros do not change the value of a digit string. */
  lemma {:induction false} LeadingZerosValue(k: nat, d: string)
    requires AllDigits(d)
    ensures AllDigits(Zeros(k) + d)
    ensures DigitsValue(Zeros(k) + d) == DigitsValue(d)
  {
    var s := Zeros(k) + d;
    if d == [] {
      assert s == Zeros(k);
      ZerosValue(k);
    } else {
      var n := |d| - 1;
      assert s[..|s| - 1] == Zeros(k) + d[..n];
      assert s[|s| - 1] == d[n];
      LeadingZerosValue(k, d[..n]);
    }
  }

  lemma {:induction false} ZerosValue(k: nat)
    ensures DigitsValue(Zeros(k)) == 0
  {
    if k > 0 {
      assert Zeros(k)[..k - 1] == Zeros(k - 1);
      ZerosValue(k - 1);
    }
  }

  /** A digit string whose first digit is not zero has a positive value. */
  lemma {:induction false} LeadingDigitPositive(d: string)
    requires |d| > 0 && AllDigits(d) && d[0] != '0'
    ensures DigitsValue(d) > 0
  {
    if |d| > 1 {
      LeadingDigitPositive(d[..|d| - 1]);
    }
  }

  /** A digit string without a leading zero is the canonical text of its value. */
  lemma {:induction false} CanonicalDigits(d: string)
    requires |d| > 0 && AllDigits(d) && (|d| == 1 || d[0] != '0')
    ensures ShowNat(DigitsValue(d)) == d
  {
    var n := |d|;
    var c := d[n - 1] as int - '0' as int;
    if n == 1 {
      assert d[..0] == [];
      assert DigitsValue(d) == c;
    } else {
      var init := d[..n - 1];
      CanonicalDigits(init);
      LeadingDigitPositive(init);
      var a := DigitsValue(init);
      var v := DigitsValue(d);
      assert v == a * 10 + c;
      assert v / 10 == a && v % 10 == c;
      assert d == init + [d[n - 1]];
    }
  }

  /** Every digit string is the canonical text of its value after `k` leading zeros. */
  lemma {:induction false} DigitsDecompose(d: string) returns (k: nat)
    requires |d| > 0 && AllDigits(d)
    ensures d == Zeros(k) + ShowNat(DigitsValue(d))
  {
    if |d| == 1 || d[0] != '0' {
      CanonicalDigits(d);
      k := 0;
      assert Zeros(0) == "";
    } else {
      var tail := d[1..];
      var k' := DigitsDecompose(tail);
      assert d == "0" + tail;
      PrependZero(tail);
      assert DigitsValue(d) == DigitsValue(tail);
      ZerosThen(d, tail, k', ShowNat(DigitsValue(tail)));
      k := k' + 1;
    }
  }

  /** One more zero in front of `k` zeros and `shown`. */
  lemma ZerosThen(d: string, tail: string, k: nat, shown: string)
    requires d == "0" + tail && tail == Zeros(k) + shown
    ensures d == Zeros(k + 1) + shown
  {
    ZerosCons(k);
    assert "0" + (Zeros(k) + shown) == ("0" + Zeros(k)) + shown;
  }

  /** A leading zero can be dropped without changing the value. */
  lemma PrependZero(tail: string)
    requires AllDigits(tail)
    ensures AllDigits("0" + tail)
    ensures DigitsValue("0" + tail) == DigitsValue(tail)
  {
    assert "0" + tail == Zeros(1) + tail;
    LeadingZerosValue(1, tail);
  }

  /** Every text `ParseInt` accepts is the decimal text of the value it gives. */
  lemma ParsedIsDecimalText(s: string, v: int)
    requires ParseInt(s) == Some(v)
    ensures DecimalText(s, v)
  {
    if s[0] == '-' {
      var d := s[1..];
      var k := DigitsDecompose(d);
      assert v == 0 - DigitsValue(d);
      assert s == "-" + d;
      assert v <= 0 && s == "-" + Zeros(k) + ShowNat(-v);
    } else {
      var k := DigitsDecompose(s);
      assert v >= 0 && s == Zeros(k) + ShowNat(v);
    }
  }

  /** A natural number's decimal text after `k` leading zeros is read as that number. */
  lemma ZerosShowIsParsed(k: nat, n: nat)
    ensures ParseInt(Zeros(k) + ShowNat(n)) == Some(n)
  {
    var s := Zeros(k) + ShowNat(n);
    LeadingZerosValue(k, ShowNat(n));
    DigitsValueShowNat(n);
    assert IsDigit(s[0]);
  }

  /** A minus sign, `k` zeros and the decimal text of `n` are read as `-n`. */
  lemma MinusZerosShowIsParsed(k: nat, n: nat)
    ensures ParseInt("-" + Zeros(k) + ShowNat(n)) == Some(-(n as int))
  {
    var s := "-" + Zeros(k) + ShowNat(n);
    assert s[1..] == Zeros(k) + ShowNat(n);
    LeadingZerosValue(k, ShowNat(n));
    DigitsValueShowNat(n);
  }

  /** The decimal text of `v`, with any leading zeros, is read as `v`. */
  lemma DecimalTextIsParsed(s: string, v: int)
    requires DecimalText(s, v)
    ensures ParseInt(s) == Some(v)
  {
    var k: nat :| (v >= 0 && s == Zeros(k) + ShowNat(v)) || (v <= 0 && s == "-" + Zeros(k) + ShowNat(-v));
    if v >= 0 && s == Zeros(k) + ShowNat(v) {
      ZerosShowIsParsed(k, v);
    } else {
      MinusZerosShowIsParsed(k, -v);
    }
  }

  /** `ParseInt` reads exactly the decimal texts, and gives each its value. */
  lemma ParseIntExact(s: string, v: int)
    ensures ParseInt(s) == Some(v) <==> DecimalText(s, v)
  {
    if ParseInt(s) == Some(v) {
      ParsedIsDecimalText(s, v);
    }
    if DecimalText(s, v) {
      DecimalTextIsParsed(s, v);
    }
  }
}
