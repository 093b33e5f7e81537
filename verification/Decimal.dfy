/** 64-bit integers as decimal text: what "%PRId64" prints and `fjson_parse_int64` reads. */
module Decimal {
  import opened Json

  predicate IsSpace(c: char) {
    c == ' ' || c == '\t' || c == '\n' || c == '\r' || c == 11 as char || c == 12 as char
  }

  predicate IsDigit(c: char) {
    '0' <= c <= '9'
  }

  ghost predicate AllDigits(s: string) {
    forall i :: 0 <= i < |s| ==> IsDigit(s[i])
  }

  function DigitChar(d: nat): (c: char)
    requires d < 10
    ensures IsDigit(c) && DigitValue(c) == d
  {
    ('0' as int + d) as char
  }

  function DigitValue(c: char): nat
    requires IsDigit(c)
  {
    c as int - '0' as int
  }

  function Digits(n: nat): (s: string)
    ensures s != "" && AllDigits(s)
  {
    if n < 10 then [DigitChar(n)] else Digits(n / 10) + [DigitChar(n % 10)]
  }

  function PrintInt(n: int): (s: string)
    ensures s != "" && (IsDigit(s[0]) || (s[0] == '-' && |s| > 1))
    ensures AllDigits(s[1..])
  {
    if n < 0 then "-" + Digits(-n) else Digits(n)
  }

  /** The number denoted by `acc` followed by the leading digits of `s`. */
  function DigitsValue(s: string, acc: nat): nat {
    if s == "" || !IsDigit(s[0]) then acc
    else DigitsValue(s[1..], 10 * acc + DigitValue(s[0]))
  }

  function SkipSpace(s: string): string {
    if s != "" && IsSpace(s[0]) then SkipSpace(s[1..]) else s
  }

  function Clamp(n: int): int {
    if n < INT64_MIN then INT64_MIN else if n > INT64_MAX then INT64_MAX else n
  }

  /** sscanf with "%SCNd64": skip spaces, one optional sign, at least one digit,
      saturate when out of range; whatever follows the digits is ignored. */
  function ParseInt64(s: string): Option<int> {
    var t := SkipSpace(s);
    var negative := t != "" && t[0] == '-';
    var body := if t != "" && (t[0] == '-' || t[0] == '+') then t[1..] else t;
    if body == "" || !IsDigit(body[0]) then None
    else
      var n: int := DigitsValue(body, 0);
      Some(Clamp(if negative then -n else n))
  }

  lemma {:induction false} DigitsValueAppend(a: string, b: string, acc: nat)
    requires AllDigits(a)
    ensures DigitsValue(a + b, acc) == DigitsValue(b, DigitsValue(a, acc))
  {
    if a == "" {
      assert a + b == b;
    } else {
      assert (a + b)[1..] == a[1..] + b;
      DigitsValueAppend(a[1..], b, 10 * acc + DigitValue(a[0]));
    }
  }

  lemma {:induction false} DigitsValueOfDigits(n: nat)
    ensures DigitsValue(Digits(n), 0) == n
  {
    if n >= 10 {
      DigitsValueOfDigits(n / 10);
      DigitsValueAppend(Digits(n / 10), [DigitChar(n % 10)], 0);
    }
  }

  /** Every 64-bit integer survives printing and parsing. */
  lemma IntRoundTrip(n: int)
    requires INT64_MIN <= n <= INT64_MAX
    ensures ParseInt64(PrintInt(n)) == Some(n)
  {
    if n < 0 {
      DigitsValueOfDigits(-n);
      assert PrintInt(n)[1..] == Digits(-n);
    } else {
      DigitsValueOfDigits(n);
    }
  }
}
