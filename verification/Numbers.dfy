/**
 Numbers as text: a grammar, what its texts denote, and what the tokener makes of them.
 */
module Numbers {
  import opened Json
  import opened Decimal
  import opened TokenerSpec
  import opened TokenerSafety
  import opened Reading
  import opened RoundTrip

  datatype Exponent = Exponent(letter: char, sign: string, digits: string)

  datatype Numeral = Numeral(negative: bool, digits: string, frac: Option<string>, exp: Option<Exponent>)
  {
    ghost predicate Valid() {
      && digits != "" && AllDigits(digits)
      && (frac.Some? ==> AllDigits(frac.value))
      && (exp.Some? ==> exp.value.letter in "eE" && exp.value.sign in {"", "+", "-"} && AllDigits(exp.value.digits))
    }

    predicate IsInteger() {
      frac.None? && exp.None?
    }

    function Sign(): string {
      if negative then "-" else ""
    }

    function FracText(): string {
      if frac.Some? then "." + frac.value else ""
    }

    function ExpText(): string {
      if exp.Some? then [exp.value.letter] + exp.value.sign + exp.value.digits else ""
    }

    function Text(): string {
      Sign() + digits + FracText() + ExpText()
    }

    /** What the integer part denotes. */
    function Denotes(): int
      requires Valid()
    {
      var n: int := Denoted(digits);
      if negative then -n else n
    }
  }

  /** The number that digits denote. */
  function Denoted(ds: string): nat
    requires AllDigits(ds)
  {
    if ds == "" then 0 else 10 * Denoted(ds[..|ds| - 1]) + (ds[|ds| - 1] as int - '0' as int)
  }

  /** The value of a number: without fraction and exponent an integer, which is moved to the
      nearest end of the 64-bit range; otherwise its text, if the double parser accepts it.
      In strict mode an integer other than zero must not begin with the digit 0. */
  function NumberValue(cfg: Config, x: Numeral): Option<Value>
    requires x.Valid()
  {
    if !x.IsInteger() then
      if cfg.parseDouble(x.Text()) then Some(Double(x.Text())) else None
    else if cfg.strict && !x.negative && x.digits[0] == '0' && x.Denotes() != 0 then None
    else Some(Int(Clamp(x.Denotes())))
  }

  lemma {:induction false} DenotedIsValue(ds: string)
    requires AllDigits(ds)
    ensures DigitsValue(ds, 0) == Denoted(ds)
  {
    if ds != "" {
      var front, last := ds[..|ds| - 1], ds[|ds| - 1];
      DenotedIsValue(front);
      assert front + [last] == ds;
      DigitsValueAppend(front, [last], 0);
      assert [last][1..] == "";
    }
  }

  lemma DigitsScanned(ds: string)
    requires ds != "" && AllDigits(ds)
    ensures ParseInt64(ds) == Some(Clamp(DigitsValue(ds, 0)))
  {
    hide DigitsValue, Clamp;
    assert !IsSpace(ds[0]);
  }

  lemma MinusScanned(ds: string)
    requires ds != "" && AllDigits(ds)
    ensures ParseInt64("-" + ds) == Some(Clamp(-(DigitsValue(ds, 0) as int)))
  {
    hide DigitsValue, Clamp;
    assert ("-" + ds)[0] == '-' && ("-" + ds)[1..] == ds;
  }

  lemma IntegerScanned(x: Numeral)
    requires x.Valid() && x.IsInteger()
    ensures ParseInt64(x.Text()) == Some(Clamp(x.Denotes()))
  {
    hide ParseInt64, Clamp;
    DenotedIsValue(x.digits);
    if x.negative {
      MinusScanned(x.digits);
      assert x.Text() == "-" + x.digits;
    } else {
      DigitsScanned(x.digits);
      assert x.Text() == x.digits;
    }
  }

  lemma {:induction false} NumeralIsNulFree(x: Numeral)
    requires x.Valid()
    ensures forall i :: 0 <= i < |x.Text()| ==> IsNumberChar(x.Text()[i])
    ensures NulFree(x.Text())
  {
    forall c: char
      ensures IsDigit(c) || c in "-+.eE" ==> IsNumberChar(c) && c != '\0'
    {
    }
  }

  // ----- the automaton on the characters of a number -----

  /** In the middle of a number. */
  ghost predicate InNumber(m: Tok, n: Tok, text: string, isDouble: bool, isExp: bool) {
    && n == m.(pb := text, isDouble := isDouble, loc := n.loc).Go(Number)
    && n.loc.caseLen == |text| && n.loc.hi == 0 && n.loc.isExp == isExp && (!isExp ==> n.loc.negLoc == 1)
  }

  lemma TakeChar(cfg: Config, m: Tok, c: char, n: Tok, rest: string)
    requires Switch(cfg, m, c, rest) == Advance(n, 1) && c != '\0'
    ensures Run(cfg, m, [c] + rest) == Run(cfg, n, rest)
  {
    hide Switch, Run, Step;
    StepAdvance(cfg, m, c, rest, n);
    var s := [c] + rest;
    assert s[0] == c && s[1..] == rest;
    RunAdvance(cfg, m, s, n);
  }

  lemma {:induction false} TakeDigits(cfg: Config, m: Tok, ds: string, rest: string) returns (n: Tok)
    requires m.top.state == Number && AllDigits(ds)
    ensures Run(cfg, m, ds + rest) == Run(cfg, n, rest)
    ensures n == m.(pb := m.pb + ds, loc := m.loc.(caseLen := m.loc.caseLen + |ds|))
    decreases |ds|
  {
    hide Run, Step;
    if ds == "" {
      n := m;
      assert ds + rest == rest;
    } else {
      var c := ds[0];
      NumberChars(c);
      var m1 := m.(pb := m.pb + [c], loc := m.loc.(caseLen := m.loc.caseLen + 1));
      TakeChar(cfg, m, c, m1, ds[1..] + rest);
      n := TakeDigits(cfg, m1, ds[1..], rest);
      assert [c] + (ds[1..] + rest) == ds + rest;
      assert m.pb + [c] + ds[1..] == m.pb + ds;
    }
  }

  /** The sign and the integer part. */
  lemma TakeInteger(cfg: Config, m: Tok, x: Numeral, rest: string) returns (n: Tok)
    requires Ready(m) && x.Valid()
    ensures Run(cfg, m, x.Sign() + x.digits + rest) == Run(cfg, n, rest)
    ensures InNumber(m, n, x.Sign() + x.digits, false, false)
  {
    hide Run, Step;
    var text := x.Sign() + x.digits;
    var c, tail := text[0], text[1..];
    var m1 := NumberStarts(cfg, m, c, tail + rest);
    var s := [c] + (tail + rest);
    assert s[0] == c && s[1..] == tail + rest && s == text + rest;
    RunAdvance(cfg, m, s, m1);
    n := TakeDigits(cfg, m1, tail, rest);
    assert [c] + tail == text;
  }

  lemma TakeFraction(cfg: Config, m0: Tok, m: Tok, x: Numeral, text: string, rest: string) returns (n: Tok)
    requires x.Valid() && InNumber(m0, m, text, false, false)
    ensures Run(cfg, m, x.FracText() + rest) == Run(cfg, n, rest)
    ensures InNumber(m0, n, text + x.FracText(), x.frac.Some?, false)
  {
    hide Run, Step;
    if x.frac.None? {
      n := m;
      assert x.FracText() + rest == rest && text + x.FracText() == text;
    } else {
      var m1 := m.(pb := m.pb + ".", isDouble := true, loc := m.loc.(caseLen := m.loc.caseLen + 1));
      TakeChar(cfg, m, '.', m1, x.frac.value + rest);
      n := TakeDigits(cfg, m1, x.frac.value, rest);
      assert ['.'] + (x.frac.value + rest) == x.FracText() + rest;
      assert text + "." + x.frac.value == text + x.FracText();
    }
  }

  /** The sign that may stand behind the letter of the exponent. */
  lemma TakeSign(cfg: Config, m: Tok, sign: string, rest: string) returns (n: Tok)
    requires m.top.state == Number && sign in {"", "+", "-"} && m.loc.caseLen + 1 == m.loc.negLoc
    ensures Run(cfg, m, sign + rest) == Run(cfg, n, rest)
    ensures n == m.(pb := m.pb + sign, loc := m.loc.(caseLen := m.loc.caseLen + |sign|))
  {
    hide Run, Step;
    n := m.(pb := m.pb + sign, loc := m.loc.(caseLen := m.loc.caseLen + |sign|));
    if sign == "" {
      assert sign + rest == rest && m.pb + sign == m.pb;
    } else {
      assert sign == [sign[0]] && sign + rest == [sign[0]] + rest;
      TakeChar(cfg, m, sign[0], n, rest);
    }
  }

  lemma TakeExponent(cfg: Config, m0: Tok, m: Tok, x: Numeral, text: string, isDouble: bool, rest: string)
    returns (n: Tok)
    requires x.Valid() && InNumber(m0, m, text, isDouble, false)
    ensures Run(cfg, m, x.ExpText() + rest) == Run(cfg, n, rest)
    ensures InNumber(m0, n, text + x.ExpText(), isDouble || x.exp.Some?, x.exp.Some?)
  {
    hide Run, Step, Switch;
    if x.exp.None? {
      n := m;
      assert x.ExpText() + rest == rest && text + x.ExpText() == text;
    } else {
      hide Numeral.ExpText;
      var e, len := x.exp.value, m.loc.caseLen + 1;
      var m1 := m.(pb := m.pb + [e.letter], isDouble := true,
                   loc := m.loc.(caseLen := len, isExp := true, negLoc := len + 1));
      ExponentLetter(cfg, m, e.letter, e.sign + (e.digits + rest), m1);
      TakeChar(cfg, m, e.letter, m1, e.sign + (e.digits + rest));
      var m2 := TakeSign(cfg, m1, e.sign, e.digits + rest);
      n := TakeDigits(cfg, m2, e.digits, rest);
      ExpParts(x, text, rest);
    }
  }

  lemma ExpParts(x: Numeral, text: string, rest: string)
    requires x.exp.Some?
    ensures var e := x.exp.value;
      && [e.letter] + (e.sign + (e.digits + rest)) == x.ExpText() + rest
      && text + [e.letter] + e.sign + e.digits == text + x.ExpText()
      && |x.ExpText()| == 1 + |e.sign| + |e.digits|
  {
  }

  lemma ExponentLetter(cfg: Config, m: Tok, letter: char, rest: string, n: Tok)
    requires m.top.state == Number && !m.loc.isExp && letter in "eE"
    requires n == m.(pb := m.pb + [letter], isDouble := true,
                     loc := m.loc.(caseLen := m.loc.caseLen + 1, isExp := true, negLoc := m.loc.caseLen + 2))
    ensures Switch(cfg, m, letter, rest) == Advance(n, 1) && letter != '\0'
  {
    hide OnNumberEnd;
  }

  /** All characters of a number, up to the first one that does not belong to it. */
  lemma TakeNumber(cfg: Config, m: Tok, x: Numeral, rest: string) returns (n: Tok)
    requires Ready(m) && x.Valid()
    ensures Run(cfg, m, x.Text() + rest) == Run(cfg, n, rest)
    ensures InNumber(m, n, x.Text(), !x.IsInteger(), x.exp.Some?)
  {
    hide Run, Step, InNumber;
    var whole, frac, exp := x.Sign() + x.digits, x.FracText(), x.ExpText();
    var m1 := TakeInteger(cfg, m, x, frac + (exp + rest));
    var m2 := TakeFraction(cfg, m, m1, x, whole, exp + rest);
    n := TakeExponent(cfg, m, m2, x, whole + frac, x.frac.Some?, rest);
    assert whole + (frac + (exp + rest)) == x.Text() + rest;
  }

  lemma NumeralHead(x: Numeral)
    requires x.Valid()
    ensures x.Text() != ""
    ensures if x.negative then x.Text()[0] == '-' && |x.Text()| > 1 else x.Text()[0] == x.digits[0] != '-'
  {
    assert x.Text() == x.Sign() + x.digits + (x.FracText() + x.ExpText());
  }

  /** The first character behind a number decides it. */
  lemma EndNumber(cfg: Config, m: Tok, n: Tok, x: Numeral, c: char)
    requires Ready(m) && x.Valid() && InNumber(m, n, x.Text(), !x.IsInteger(), x.exp.Some?) && !IsNumberChar(c)
    ensures OnNumberEnd(cfg, n, c) == match NumberValue(cfg, x)
      case Some(v) => Redo(n.(loc := NO_LOCALS).Done(v))
      case None => Stop(n.(loc := NO_LOCALS), ErrNumber, 0)
  {
    hide ParseInt64, Clamp, Numeral.Text;
    NumeralIsNulFree(x);
    NumeralHead(x);
    if x.IsInteger() {
      IntegerScanned(x);
      ClampZero(x.Denotes());
    }
  }

  lemma ClampZero(n: int)
    ensures Clamp(n) == 0 <==> n == 0
  {
  }

  /** A number in any place, followed by a character that does not belong to numbers, is read
      as its value, or refused if it has none. */
  lemma ReadNumber(cfg: Config, m: Tok, x: Numeral, rest: string) returns (n: Tok)
    requires Ready(m) && x.Valid() && rest != "" && !IsNumberChar(rest[0])
    ensures NumberValue(cfg, x).Some? ==>
      Run(cfg, m, x.Text() + rest) == Run(cfg, n, rest) && Holds(n, m.below, NumberValue(cfg, x).value)
    ensures NumberValue(cfg, x).None? ==>
      && Run(cfg, m, x.Text() + rest) == End(n, ErrNumber, rest[0] == '\0', rest)
      && n.top == m.top.(state := Number)
  {
    hide Run, OnNumberEnd, NumberValue;
    var c, la := rest[0], rest[1..];
    var k := TakeNumber(cfg, m, x, rest);
    EndNumber(cfg, m, k, x, c);
    assert Switch(cfg, k, c, la) == OnNumberEnd(cfg, k, c);
    match NumberValue(cfg, x)
    case Some(v) =>
      n := k.(loc := NO_LOCALS).Done(v);
      StepRedo(cfg, k, n, c, la);
      SameRun(cfg, k, n, rest);
    case None =>
      n := k.(loc := NO_LOCALS);
      NumberStops(cfg, k, n, rest);
  }

  lemma SameRun(cfg: Config, m: Tok, n: Tok, rest: string)
    requires rest != "" && Step(cfg, m, rest[0], rest[1..]) == Step(cfg, n, rest[0], rest[1..])
    ensures Run(cfg, m, rest) == Run(cfg, n, rest)
  {
  }

  lemma NumberStops(cfg: Config, m: Tok, n: Tok, rest: string)
    requires rest != "" && Switch(cfg, m, rest[0], rest[1..]) == Stop(n, ErrNumber, 0) && n.loc == NO_LOCALS
    ensures Run(cfg, m, rest) == End(n, ErrNumber, rest[0] == '\0', rest)
  {
    hide Switch;
    assert rest[0..] == rest;
  }

  /** One call on a number: an integer exactly without fraction and exponent, a double with
      exactly this text, or an error, which is that of an early end in front of the NUL. */
  lemma ParseNumber(cfg: Config, m: Tok, x: Numeral, rest: string)
    requires IsFresh(m) && x.Valid() && rest != "" && !IsNumberChar(rest[0])
    ensures var r := ParseEx(cfg, m, x.Text() + rest);
      match NumberValue(cfg, x)
      case Some(v) => rest == "\0" ==> r.err == Success && r.value == v && r.offset == |x.Text()|
      case None => r.err == (if rest[0] == '\0' then ErrEof else ErrNumber) && r.offset == |x.Text()|
  {
    hide Run, NumberValue, Numeral.Text;
    var n := ReadNumber(cfg, Enter(m), x, rest);
    if rest == "\0" && NumberValue(cfg, x).Some? {
      StopAtNul(cfg, n, NumberValue(cfg, x).value);
    }
  }

  /** With a fraction and the number 1 in front of it: never the integer 1. */
  lemma DoubleExample(cfg: Config, m: Tok)
    requires IsFresh(m)
    ensures var r := ParseEx(cfg, m, "1.5\0");
      if cfg.parseDouble("1.5") then r.err == Success && r.value == Double("1.5") else r.err == ErrEof
  {
    hide ParseEx;
    var x := Numeral(false, "1", Some("5"), None);
    assert x.Text() == "1.5" && "1.5" + "\0" == "1.5\0";
    ParseNumber(cfg, m, x, "\0");
  }

  // ----- the text of integers -----

  /** The printer writes the shortest number that denotes the integer. */
  lemma {:induction false} IntegerText(n: int) returns (x: Numeral)
    ensures x.Valid() && x.IsInteger() && x.Text() == PrintInt(n) && x.Denotes() == n
    ensures x.negative == (n < 0) && (x.digits[0] == '0' ==> x.digits == "0")
  {
    var k := if n < 0 then -n else n;
    x := Numeral(n < 0, Digits(k), None, None);
    DigitsValueOfDigits(k);
    DenotedIsValue(x.digits);
    NoLeadingZero(k);
    hide Digits, DigitsValue, Denoted;
    assert x.Text() == x.Sign() + x.digits;
    assert "" + x.digits == x.digits;
  }

  lemma {:induction false} NoLeadingZero(k: nat)
    ensures Digits(k)[0] == '0' ==> Digits(k) == "0"
  {
    DigitsLeadingZero(k);
    if k == 0 { assert Digits(0) == "0"; }
  }

  // ----- a minus sign in front of Infinity -----

  lemma MinusInto(cfg: Config, m: Tok, c: char, rest: string) returns (n: Tok)
    requires Ready(m) && (c == 'i' || c == 'I')
    ensures Run(cfg, m, "-" + [c] + rest) == Run(cfg, n, [c] + rest)
    ensures n == m.(pb := "-", isDouble := false).Go(Inf)
  {
    hide Run, Step, SameStart;
    var la := [c] + rest;
    var m1 := NumberStarts(cfg, m, '-', la);
    var s := "-" + [c] + rest;
    assert s[0] == '-' && s[1..] == la;
    RunAdvance(cfg, m, s, m1);
    n := m1.(loc := NO_LOCALS).Go(Inf);
    assert !IsNumberChar(c);
    assert OnNumberEnd(cfg, m1, c) == Redo(n);
    assert Switch(cfg, m1, c, rest) == Redo(n);
    StepRedo(cfg, m1, n, c, rest);
    SameRun(cfg, m1, n, la);
  }

  /** A first letter behind a minus sign: the word begins with position 0 in the text only if
      that is where the last word or escape has left the counter; otherwise it is refused. */
  lemma MinusLetter(cfg: Config, m: Tok, c: char, rest: string) returns (n: Tok)
    requires Ready(m) && (c == 'i' || c == 'I')
    ensures m.stPos == 0 && SameStart("Infinity", [c], 1, cfg.strict) ==>
      Run(cfg, m, "-" + [c] + rest) == Run(cfg, n, rest) &&
      n == m.(pb := ['-', c], stPos := 1, isDouble := false).Go(Inf)
    ensures m.stPos != 0 || !SameStart("Infinity", [c], 1, cfg.strict) ==>
      Run(cfg, m, "-" + [c] + rest) == End(n, ErrUnexpected, false, [c] + rest)
  {
    hide Run, Step, SameStart;
    var m2 := MinusInto(cfg, m, c, rest);
    assert "-" + [c] == ['-', c] && ['-', c][1..] == [c];
    n := m2.(pb := ['-', c]);
    if m.stPos == 0 && SameStart("Infinity", [c], 1, cfg.strict) {
      n := n.(stPos := 1);
      TakeChar(cfg, m2, c, n, rest);
    } else {
      if m.stPos != 0 { TooShort(m.stPos, [c], cfg.strict); }
      InfRefused(cfg, m2, n, c, rest);
    }
  }

  lemma TooShort(stPos: nat, buf: string, strict: bool)
    requires |buf| == 1 && stPos != 0
    ensures !SameStart("Infinity", buf, Min(stPos + 1, 8), strict)
  {
  }

  lemma InfRefused(cfg: Config, m: Tok, n: Tok, c: char, rest: string)
    requires m.top.state == Inf && m.pb == "-" && n == m.(pb := ['-', c]) && m.loc == NO_LOCALS && c != '\0'
    requires !SameStart("Infinity", [c], Min(m.stPos + 1, 8), cfg.strict)
    ensures Run(cfg, m, [c] + rest) == End(n, ErrUnexpected, false, [c] + rest)
  {
    hide SameStart;
    assert "-" + [c] == ['-', c] && ['-', c][1..] == [c];
    assert OnInf(cfg, m, c) == Stop(n, ErrUnexpected, 0);
    assert Switch(cfg, m, c, rest) == Stop(n, ErrUnexpected, 0);
    var s := [c] + rest;
    assert s[0] == c && s[1..] == rest && s[0..] == s;
    assert Step(cfg, m, c, rest) == Stop(n, ErrUnexpected, 0);
  }
}
