/**
 How the tokener reads the tokens that the printers write.

 `Reads(cfg, m, text, n, rest)`: with `rest` still to come, reading `text` takes
 the automaton from `m` to `n`, and no split into chunks inside `text` would be
 noticed.
 */
module Reading {
  import opened Json
  import opened Decimal
  import opened PrintSpec
  import opened TokenerSpec

  /** A call that ends here loses nothing: no tight loop holds local state that
      the rest of the input would still need. */
  ghost predicate Settled(m: Tok, s: string) {
    && m.obj == Null
    && if m.top.state == Number
       then s == "" || IsDigit(s[0]) || (!IsNumberChar(s[0]) && s[0] != 'i' && s[0] != 'I')
       else m.loc == NO_LOCALS
  }

  /** The automaton reads all of `s` one character at a time, is settled at
      every point, and has no complete value before the end. */
  ghost predicate Clean(cfg: Config, m: Tok, s: string)
    decreases |s|
  {
    Settled(m, s) && (s == "" ||
      (!IsDone(m) && s[0] != '\0' &&
        match Step(cfg, m, s[0], s[1..])
        case Advance(n, k) => k == 1 && Clean(cfg, n, s[1..])
        case Stop(_, _, _) => false))
  }

  ghost predicate Reads(cfg: Config, m: Tok, text: string, n: Tok, rest: string) {
    && Run(cfg, m, text + rest) == Run(cfg, n, rest)
    && (Clean(cfg, n, rest) ==> Clean(cfg, m, text + rest))
  }

  lemma ReadsNothing(cfg: Config, m: Tok, rest: string)
    ensures Reads(cfg, m, "", m, rest)
  {
    assert "" + rest == rest;
  }

  lemma ReadsThen(cfg: Config, m: Tok, a: string, n: Tok, b: string, k: Tok, rest: string)
    requires Reads(cfg, m, a, n, b + rest) && Reads(cfg, n, b, k, rest)
    ensures Reads(cfg, m, a + b, k, rest)
  {
    assert a + (b + rest) == a + b + rest;
  }

  lemma ReadChar(cfg: Config, m: Tok, c: char, n: Tok, rest: string)
    requires Step(cfg, m, c, rest) == Advance(n, 1) && c != '\0'
    requires Settled(m, [c] + rest) && !IsDone(m)
    ensures Reads(cfg, m, [c], n, rest)
  {
  }

  /** As above, for a character that is consumed without a jump. */
  lemma ReadOne(cfg: Config, m: Tok, c: char, n: Tok, rest: string)
    requires Switch(cfg, m, c, rest) == Advance(n, 1) && c != '\0'
    requires Settled(m, [c] + rest) && !IsDone(m)
    ensures Reads(cfg, m, [c], n, rest)
  {
    hide Switch;
    ReadChar(cfg, m, c, n, rest);
  }

  /** `m` and `n` behave alike on the next character, without consuming it. */
  lemma SameStep(cfg: Config, m: Tok, n: Tok, rest: string)
    requires rest != "" && Step(cfg, m, rest[0], rest[1..]) == Step(cfg, n, rest[0], rest[1..])
    requires Settled(m, rest) && !IsDone(m)
    ensures Reads(cfg, m, "", n, rest)
  {
    assert "" + rest == rest;
  }

  lemma StepRedo(cfg: Config, m: Tok, n: Tok, c: char, la: string)
    requires Switch(cfg, m, c, la) == Redo(n)
    ensures Step(cfg, m, c, la) == Step(cfg, n, c, la)
  {
  }

  lemma StepAdvance(cfg: Config, m: Tok, c: char, la: string, n: Tok)
    requires Switch(cfg, m, c, la) == Advance(n, 1)
    ensures Step(cfg, m, c, la) == Advance(n, 1)
  {
  }

  // ----- white space -----

  ghost predicate AllSpace(s: string) {
    forall i :: 0 <= i < |s| ==> IsSpace(s[i])
  }

  lemma {:induction false} ReadSpaces(cfg: Config, m: Tok, ws: string, rest: string)
    requires AllSpace(ws) && m.top.state == EatWs && !IsDone(m)
    requires m.obj == Null && m.loc == NO_LOCALS
    ensures Reads(cfg, m, ws, m, rest)
    decreases |ws|
  {
    hide Run, Clean, Step, Reads;
    if ws == "" {
      ReadsNothing(cfg, m, rest);
    } else {
      ReadSpaces(cfg, m, ws[1..], rest);
      ReadOne(cfg, m, ws[0], m, ws[1..] + rest);
      ReadsThen(cfg, m, [ws[0]], m, ws[1..], m, rest);
      assert ws == [ws[0]] + ws[1..];
    }
  }

  lemma LayoutIsSpace(level: nat, f: Flags, empty: bool)
    ensures AllSpace(Indent(level, f)) && AllSpace(NewLine(f)) && AllSpace(Space(f))
    ensures AllSpace(Tail(empty, level, f))
    ensures AllSpace(NewLine(f) + Space(f) + Indent(level, f))
  {
  }

  // ----- literals and numbers -----

  /** The automaton is about to read a value. */
  ghost predicate Ready(m: Tok) {
    m.top == FRESH && m.loc == NO_LOCALS && m.obj == Null
  }

  /** The automaton has read the value `v`. */
  ghost predicate Holds(n: Tok, below: seq<Rec>, v: Value) {
    n.top == Rec(EatWs, Finish, v, None) && n.below == below && n.loc == NO_LOCALS && n.obj == Null
  }

  predicate EndsToken(c: char) {
    c == ',' || IsSpace(c) || c == ']' || c == '}' || c == '\0'
  }

  lemma StartStep(cfg: Config, m: Tok, c: char, la: string)
    requires Ready(m) && !IsSpace(c) && c != '/'
    ensures Step(cfg, m, c, la) == Step(cfg, m.Go(Start), c, la)
  {
    hide Run, Clean, Step;
    StepRedo(cfg, m, m.Go(Start), c, la);
  }

  ghost predicate IsWord(word: string, s: State, v: Value) {
    || (word == "null" && s == NullState && v == Null)
    || (word == "true" && s == BooleanState && v == Bool(true))
    || (word == "false" && s == BooleanState && v == Bool(false))
  }

  lemma SameStartPrefix(word: string, buf: string, n: nat, strict: bool)
    requires n <= |word| && n <= |buf| && word[..n] == buf[..n]
    ensures SameStart(word, buf, n, strict)
  {
    assert forall i :: 0 <= i < n ==> word[..n][i] == buf[..n][i];
  }

  lemma NotTrue(buf: string, n: nat, strict: bool)
    requires 0 < n <= 4 && buf != "" && buf[0] == 'f'
    ensures !SameStart("true", buf, n, strict)
  {
    assert Lower('t') == 't' && Lower('f') == 'f' && "true"[0] == 't';
  }

  /** In the middle of a literal: the next character of the word is taken. */
  lemma WordChar(cfg: Config, m: Tok, word: string, k: nat, v: Value, la: string)
    requires IsWord(word, m.top.state, v) && k < |word| && m.stPos == k && m.pb == word[..k]
    ensures Switch(cfg, m, word[k], la) == Advance(m.(pb := word[..k + 1], stPos := k + 1), 1)
  {
    var pb := word[..k + 1];
    assert m.pb + [word[k]] == pb;
    SameStartPrefix(word, pb, k + 1, cfg.strict);
    if word == "false" { NotTrue(pb, Min(k + 1, 4), cfg.strict); }
  }

  /** After the last character of the word: whatever follows completes it. */
  lemma WordEnd(cfg: Config, m: Tok, word: string, v: Value, c: char, la: string)
    requires IsWord(word, m.top.state, v) && m.stPos == |word| && m.pb == word
    ensures Switch(cfg, m, c, la) == Redo(m.(pb := word + [c]).Done(v))
  {
    SameStartPrefix(word, word + [c], |word|, cfg.strict);
    if word == "false" { NotTrue(word + [c], 4, cfg.strict); }
  }

  /** Reads `word[k..]` in one of the literal states. */
  lemma {:induction false} ReadWord(cfg: Config, m: Tok, word: string, k: nat, v: Value, rest: string) returns (n: Tok)
    requires IsWord(word, m.top.state, v) && k <= |word| && m.stPos == k && m.pb == word[..k]
    requires m.top.current == Null && m.top.field == None && m.loc == NO_LOCALS && m.obj == Null
    requires rest != "" && EndsToken(rest[0])
    ensures Reads(cfg, m, word[k..], n, rest)
    ensures Holds(n, m.below, v)
    decreases |word| - k
  {
    hide Run, Clean, Step, Reads;
    if k == |word| {
      assert m.pb == word && word[k..] == "";
      n := m.(pb := word + [rest[0]]).Done(v);
      WordEnd(cfg, m, word, v, rest[0], rest[1..]);
      StepRedo(cfg, m, n, rest[0], rest[1..]);
      SameStep(cfg, m, n, rest);
    } else {
      var la := word[k + 1..] + rest;
      var m1 := m.(pb := word[..k + 1], stPos := k + 1);
      WordChar(cfg, m, word, k, v, la);
      ReadOne(cfg, m, word[k], m1, la);
      n := ReadWord(cfg, m1, word, k + 1, v, rest);
      ReadsThen(cfg, m, [word[k]], m1, word[k + 1..], n, rest);
      assert word[k..] == [word[k]] + word[k + 1..];
    }
  }

  lemma ReadLiteral(cfg: Config, m: Tok, word: string, s: State, v: Value, rest: string) returns (n: Tok)
    requires Ready(m) && IsWord(word, s, v)
    requires rest != "" && EndsToken(rest[0])
    ensures Reads(cfg, m, word, n, rest)
    ensures Holds(n, m.below, v)
  {
    hide Run, Clean, Step, Reads;
    var c, la := word[0], word[1..] + rest;
    assert [c] + la == word + rest;
    var m0 := m.(pb := "", stPos := 0).Go(s);
    StartStep(cfg, m, c, la);
    StepRedo(cfg, m.Go(Start), m0, c, la);
    SameStep(cfg, m, m0, word + rest);
    n := ReadWord(cfg, m0, word, 0, v, rest);
    assert word[0..] == word;
    ReadsThen(cfg, m, "", m0, word, n, rest);
    assert "" + word == word;
  }

  lemma NumberChars(c: char)
    ensures IsDigit(c) || c == '-' ==> IsNumberChar(c)
    ensures EndsToken(c) ==> !IsNumberChar(c) && c != 'i' && c != 'I'
    ensures IsDigit(c) ==> c != '.' && c != 'e' && c != 'E' && c != '-'
  {
  }

  /** Reads digits up to the end of the number `all`. */
  lemma {:induction false} ReadDigits(cfg: Config, m: Tok, ds: string, all: string, v: int, rest: string)
    returns (n: Tok)
    requires AllDigits(ds) && m.top.state == Number && !m.isDouble && m.pb + ds == all && m.pb != ""
    requires NulFree(all) && ParseInt64(all) == Some(v) && (all[0] == '0' ==> v == 0)
    requires m.top.current == Null && m.top.field == None && m.obj == Null
    requires rest != "" && EndsToken(rest[0])
    ensures Reads(cfg, m, ds, n, rest)
    ensures Holds(n, m.below, Int(v))
    decreases |ds|
  {
    hide Run, Clean, Step, Reads;
    if ds == "" {
      var c, la := rest[0], rest[1..];
      NumberChars(c);
      assert m.pb == all;
      n := m.(loc := NO_LOCALS).Done(Int(v));
      assert OnNumberEnd(cfg, m, c) == Redo(n);
      StepRedo(cfg, m, n, c, la);
      SameStep(cfg, m, n, rest);
    } else {
      var c, la := ds[0], ds[1..] + rest;
      NumberChars(c);
      var m1 := m.(pb := m.pb + [c], loc := m.loc.(caseLen := m.loc.caseLen + 1));
      assert Switch(cfg, m, c, la) == Advance(m1, 1);
      ReadOne(cfg, m, c, m1, la);
      assert m1.pb + ds[1..] == all;
      n := ReadDigits(cfg, m1, ds[1..], all, v, rest);
      ReadsThen(cfg, m, [c], m1, ds[1..], n, rest);
      assert ds == [c] + ds[1..];
    }
  }

  lemma {:induction false} DigitsLeadingZero(n: nat)
    ensures Digits(n)[0] == '0' ==> n == 0
  {
    if n >= 10 {
      DigitsLeadingZero(n / 10);
    }
  }

  lemma IntLeadingZero(v: int)
    ensures PrintInt(v)[0] == '0' ==> v == 0
    ensures NulFree(PrintInt(v))
  {
    if v >= 0 { DigitsLeadingZero(v); }
    assert PrintInt(v) == [PrintInt(v)[0]] + PrintInt(v)[1..];
  }

  lemma ReadInt(cfg: Config, m: Tok, v: int, rest: string) returns (n: Tok)
    requires Ready(m) && INT64_MIN <= v <= INT64_MAX
    requires rest != "" && EndsToken(rest[0])
    ensures Reads(cfg, m, PrintInt(v), n, rest)
    ensures Holds(n, m.below, Int(v))
  {
    hide Run, Clean, Step, Reads, Switch, PrintInt, ParseInt64;
    var all := PrintInt(v);
    var c, la := all[0], all[1..] + rest;
    var m1 := NumberStarts(cfg, m, c, la);
    ReadChar(cfg, m, c, m1, la);
    IntRoundTrip(v);
    IntLeadingZero(v);
    assert m1.pb + all[1..] == all;
    n := ReadDigits(cfg, m1, all[1..], all, v, rest);
    ReadsThen(cfg, m, [c], m1, all[1..], n, rest);
    assert [c] + all[1..] == all;
  }

  lemma NumberStarts(cfg: Config, m: Tok, c: char, la: string) returns (n: Tok)
    requires Ready(m) && (IsDigit(c) || c == '-')
    ensures Step(cfg, m, c, la) == Advance(n, 1)
    ensures n == m.(pb := [c], isDouble := false, loc := NO_LOCALS.(caseLen := 1)).Go(Number)
  {
    hide Run, Clean, Step, OnNumber;
    var m0 := m.(pb := "", isDouble := false, loc := NO_LOCALS).Go(Number);
    StartStep(cfg, m, c, la);
    assert OnStart(cfg, m.Go(Start), c) == Redo(m0);
    StepRedo(cfg, m.Go(Start), m0, c, la);
    n := FirstNumberChar(cfg, m0, c);
    StepAdvance(cfg, m0, c, la, n);
  }

  lemma FirstNumberChar(cfg: Config, m: Tok, c: char) returns (n: Tok)
    requires (IsDigit(c) || c == '-') && m.pb == "" && m.loc == NO_LOCALS && !m.isDouble
    ensures OnNumber(cfg, m, c) == Advance(n, 1)
    ensures n == m.(pb := [c], loc := NO_LOCALS.(caseLen := 1))
  {
    hide OnNumberEnd;
    NumberChars(c);
    n := m.(pb := [c], loc := NO_LOCALS.(caseLen := 1));
    assert m.pb + [c] == [c];
  }

  // ----- strings -----

  /** Inside a quoted string or field name. */
  ghost predicate InQuotes(m: Tok) {
    && (m.top.state == StringState || m.top.state == Field)
    && m.quote == '"' && m.obj == Null && m.loc == NO_LOCALS
  }

  /** `n` is `m` with `s` appended; a used escape has overwritten `saved`. */
  ghost predicate Appended(m: Tok, s: string, n: Tok) {
    && InQuotes(n) && n.below == m.below && n.pb == m.pb + s && n.isDouble == m.isDouble
    && n.top.(saved := m.top.saved) == m.top
  }

  lemma ReadShortEscape(cfg: Config, m: Tok, e: char, c: char, rest: string) returns (n: Tok)
    requires InQuotes(m)
    requires (e == 'b' && c == BACKSPACE) || (e == 'n' && c == '\n') || (e == 'r' && c == '\r')
          || (e == 't' && c == '\t') || (e == 'f' && c == FORMFEED)
          || (e == c && (c == '"' || c == '\\' || c == '/'))
    ensures Reads(cfg, m, ['\\', e], n, rest) && Appended(m, [c], n)
  {
    hide Run, Clean, Step;
    var s: Saved := if m.top.state == StringState then StringState else Field;
    var m1 := m.(top := m.top.(state := StringEscape, saved := s));
    ReadOne(cfg, m, '\\', m1, [e] + rest);
    n := m1.Go(s).Append([c]);
    ReadOne(cfg, m1, e, n, rest);
    ReadsThen(cfg, m, ['\\'], m1, [e], n, rest);
    assert ['\\'] + [e] == ['\\', e];
  }

  lemma HexChar(i: nat)
    requires i < 16
    ensures HEX_CHARS[i] in HEX_CHARS && HEX_CHARS[i] != '\0' && HexDigit(HEX_CHARS[i]) == i
  {
    assert HEX_CHARS[i] == if i < 10 then ('0' as int + i) as char else ('a' as int + i - 10) as char;
  }

  lemma ReadHexDigit(cfg: Config, m: Tok, d: char, n: Tok, rest: string)
    requires m.top.state == EscapeUnicode && m.loc == NO_LOCALS && m.obj == Null && m.stPos < 3
    requires d in HEX_CHARS && d != '\0'
    requires n == AddedDigit(m, d)
    ensures Reads(cfg, m, [d], n, rest)
  {
    hide Run, Clean, Step;
    ReadOne(cfg, m, d, n, rest);
  }

  /** The escape written for the control characters that have no letter. */
  lemma ReadControlEscape(cfg: Config, m: Tok, c: char, rest: string) returns (n: Tok)
    requires InQuotes(m) && c < ' ' && c != '\0'
    ensures Reads(cfg, m, "\\u00" + [HEX_CHARS[c as int / 16], HEX_CHARS[c as int % 16]], n, rest)
    ensures Appended(m, [c], n)
  {
    hide Run, Clean, Step, Switch, Reads;
    var h, l := HEX_CHARS[c as int / 16], HEX_CHARS[c as int % 16];
    var m2 := ReadEscapeIntro(cfg, m, "00" + [h] + ([l] + rest));
    var m5 := m2.(stPos := 3, ucs := 16 * (c as int / 16));
    ReadThreeDigits(cfg, m2, c, m5, [l] + rest);
    n := ReadLastDigit(cfg, m5, c, rest);
    ReadsThen(cfg, m2, "00" + [h], m5, [l], n, rest);
    assert "00" + [h] + [l] + rest == "00" + [h] + ([l] + rest);
    ReadsThen(cfg, m, "\\u", m2, "00" + [h] + [l], n, rest);
    assert "\\u" + ("00" + [h] + [l]) == "\\u00" + [h, l];
  }

  lemma ReadEscapeIntro(cfg: Config, m: Tok, rest: string) returns (n: Tok)
    requires InQuotes(m)
    ensures Reads(cfg, m, "\\u", n, rest)
    ensures n == m.(top := m.top.(state := EscapeUnicode, saved := n.top.saved), ucs := 0, stPos := 0)
    ensures n.top.saved == m.top.state
  {
    hide Run, Clean, Step, Reads;
    var s: Saved := if m.top.state == StringState then StringState else Field;
    var m1 := m.(top := m.top.(state := StringEscape, saved := s));
    n := m1.(ucs := 0, stPos := 0, loc := NO_LOCALS).Go(EscapeUnicode);
    ReadOne(cfg, m, '\\', m1, "u" + rest);
    ReadOne(cfg, m1, 'u', n, rest);
    ReadsThen(cfg, m, "\\", m1, "u", n, rest);
    assert "\\" + "u" == "\\u";
  }

  lemma ReadLastDigit(cfg: Config, m: Tok, c: char, rest: string) returns (n: Tok)
    requires m.top.state == EscapeUnicode && m.loc == NO_LOCALS && m.obj == Null
    requires c < ' ' && m.stPos == 3 && m.ucs == 16 * (c as int / 16)
    ensures Reads(cfg, m, [HEX_CHARS[c as int % 16]], n, rest)
    ensures n == m.(top := m.top.(state := m.top.saved), stPos := 4, ucs := c as int, pb := m.pb + [c])
  {
    hide Run, Clean, Step, OnEscapeUnicode;
    HexChar(c as int % 16);
    n := LastDigit(m, c, rest);
    ReadOne(cfg, m, HEX_CHARS[c as int % 16], n, rest);
  }

  lemma LastDigit(m: Tok, c: char, rest: string) returns (n: Tok)
    requires m.loc == NO_LOCALS && c < ' ' && m.stPos == 3 && m.ucs == 16 * (c as int / 16)
    ensures OnEscapeUnicode(m, HEX_CHARS[c as int % 16], rest) == Advance(n, 1)
    ensures n == m.(top := m.top.(state := m.top.saved), stPos := 4, ucs := c as int, pb := m.pb + [c])
  {
    hide OnFourDigits, HexDigit, OnEscapeUnicode;
    var d := HEX_CHARS[c as int % 16];
    HexChar(c as int % 16);
    var m1 := m.(ucs := c as int, stPos := 4);
    LastDigitAdds(m, d, c as int % 16);
    CompleteDigits(m, d, rest);
    n := m1.Append([c]).Go(m.top.saved);
    PlainFourDigits(m1, d, c, rest);
  }

  lemma LastDigitAdds(m: Tok, d: char, i: nat)
    requires m.stPos == 3 && HexDigit(d) == i && m.ucs + i < 0x1_0000_0000
    ensures AddedDigit(m, d) == m.(ucs := m.ucs + i, stPos := 4)
  {
    assert Pow16(0) == 1;
  }

  lemma CompleteDigits(m: Tok, d: char, la: string)
    requires m.stPos == 3 && IsHexOrNul(d)
    ensures OnEscapeUnicode(m, d, la) == OnFourDigits(AddedDigit(m, d), d, la)
  {
  }

  lemma PlainFourDigits(m: Tok, d: char, c: char, rest: string)
    requires m.loc == NO_LOCALS && c < ' ' && m.ucs == c as int
    ensures OnFourDigits(m, d, rest) == Advance(m.Append([c]).Go(m.top.saved), 1)
  {
  }

  lemma ThreeDigitsAdd(m: Tok, h: char, i: nat)
    requires m.stPos == 0 && m.ucs == 0 && HexDigit(h) == i && i < 16
    ensures AddedDigit(m, '0') == m.(stPos := 1) && AddedDigit(m.(stPos := 1), '0') == m.(stPos := 2)
    ensures AddedDigit(m.(stPos := 2), h) == m.(stPos := 3, ucs := 16 * i)
  {
    assert HexDigit('0') == 0;
    hide HexDigit;
    assert Pow16(1) == 16;
  }

  lemma ReadThreeDigits(cfg: Config, m: Tok, c: char, n: Tok, rest: string)
    requires m.top.state == EscapeUnicode && m.loc == NO_LOCALS && m.obj == Null && m.stPos == 0 && m.ucs == 0
    requires c < ' ' && n == m.(stPos := 3, ucs := 16 * (c as int / 16))
    ensures Reads(cfg, m, "00" + [HEX_CHARS[c as int / 16]], n, rest)
  {
    hide Run, Clean, Step, Reads, AddedDigit;
    var h := HEX_CHARS[c as int / 16];
    HexChar(0);
    HexChar(c as int / 16);
    var m1, m2 := m.(stPos := 1), m.(stPos := 2);
    ThreeDigitsAdd(m, h, c as int / 16);
    ReadHexDigit(cfg, m, '0', m1, "0" + [h] + rest);
    ReadHexDigit(cfg, m1, '0', m2, [h] + rest);
    ReadHexDigit(cfg, m2, h, n, rest);
    ReadsThen(cfg, m1, "0", m2, [h], n, rest);
    assert "0" + [h] + rest == ("0" + [h]) + rest;
    ReadsThen(cfg, m, "0", m1, "0" + [h], n, rest);
    assert "0" + ("0" + [h]) == "00" + [h];
  }

  lemma ReadEscapedChar(cfg: Config, m: Tok, c: char, rest: string) returns (n: Tok)
    requires InQuotes(m) && c != '\0'
    ensures Reads(cfg, m, if NeedsEscape(c) then EscapeChar(c) else [c], n, rest)
    ensures Appended(m, [c], n)
  {
    hide Run, Clean, Step;
    if !NeedsEscape(c) {
      n := m.Append([c]);
      ReadOne(cfg, m, c, n, rest);
    } else if c == BACKSPACE { n := ReadShortEscape(cfg, m, 'b', c, rest); }
    else if c == '\n' { n := ReadShortEscape(cfg, m, 'n', c, rest); }
    else if c == '\r' { n := ReadShortEscape(cfg, m, 'r', c, rest); }
    else if c == '\t' { n := ReadShortEscape(cfg, m, 't', c, rest); }
    else if c == FORMFEED { n := ReadShortEscape(cfg, m, 'f', c, rest); }
    else if c == '"' || c == '\\' || c == '/' { n := ReadShortEscape(cfg, m, c, c, rest); }
    else { n := ReadControlEscape(cfg, m, c, rest); }
  }

  lemma {:induction false} ReadEscaped(cfg: Config, m: Tok, s: string, rest: string) returns (n: Tok)
    requires InQuotes(m) && NulFree(s)
    ensures Reads(cfg, m, Escape(s), n, rest)
    ensures Appended(m, s, n)
    decreases |s|
  {
    hide Run, Clean, Step, Reads, EscapeChar, NeedsEscape, Switch;
    if s == "" {
      n := m;
      ReadsNothing(cfg, m, rest);
    } else {
      var first := if NeedsEscape(s[0]) then EscapeChar(s[0]) else [s[0]];
      var m1 := ReadEscapedChar(cfg, m, s[0], Escape(s[1..]) + rest);
      n := ReadEscaped(cfg, m1, s[1..], rest);
      ReadsThen(cfg, m, first, m1, Escape(s[1..]), n, rest);
      assert m.pb + s == m.pb + [s[0]] + s[1..];
    }
  }

  lemma ReadString(cfg: Config, m: Tok, s: string, rest: string) returns (n: Tok)
    requires Ready(m) && NulFree(s)
    ensures Reads(cfg, m, "\"" + Escape(s) + "\"", n, rest)
    ensures Holds(n, m.below, Str(s))
  {
    hide Run, Clean, Step, Switch, Reads, Escape;
    var text := Escape(s);
    var m1 := ReadOpenQuote(cfg, m, text + "\"" + rest);
    var m2 := ReadEscaped(cfg, m1, s, "\"" + rest);
    assert m2.pb == s;
    n := ReadCloseQuote(cfg, m2, rest);
    ReadsThen(cfg, m1, text, m2, "\"", n, rest);
    assert text + "\"" + rest == text + ("\"" + rest);
    ReadsThen(cfg, m, "\"", m1, text + "\"", n, rest);
    assert "\"" + (text + "\"") == "\"" + text + "\"";
  }

  lemma ReadOpenQuote(cfg: Config, m: Tok, rest: string) returns (n: Tok)
    requires Ready(m)
    ensures Reads(cfg, m, "\"", n, rest)
    ensures n == m.(pb := "", quote := '"').Go(StringState)
  {
    hide Run, Clean, Step, Reads;
    n := m.(pb := "", quote := '"').Go(StringState);
    StartStep(cfg, m, '"', rest);
    StepAdvance(cfg, m.Go(Start), '"', rest, n);
    ReadChar(cfg, m, '"', n, rest);
  }

  lemma ReadCloseQuote(cfg: Config, m: Tok, rest: string) returns (n: Tok)
    requires InQuotes(m) && m.top.state == StringState
    ensures Reads(cfg, m, "\"", n, rest)
    ensures n == m.Done(Str(m.pb))
  {
    hide Run, Clean, Step, Reads;
    n := m.Done(Str(m.pb));
    ReadOne(cfg, m, '"', n, rest);
  }
}
