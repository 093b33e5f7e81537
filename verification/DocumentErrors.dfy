/** What the tokener refuses, where, and with which error. */
module DocumentErrors {
  import opened Json
  import opened Decimal
  import opened TokenerSpec
  import opened Reading
  import opened RoundTrip
  import opened Numbers
  import opened Documents
  import opened DocumentTokens
  import opened DocumentReader
  import Unicode

  // ----- refusals -----

  /** Where a character can be refused. */
  datatype Place = AtValue | AtElement | BehindElement | AtName | BehindName | BehindMember

  /** The automaton is at this place; `comma` tells that a comma is the last that was read. */
  ghost predicate IsAt(m: Tok, p: Place, comma: bool) {
    match p
    case AtValue => Ready(m)
    case AtElement =>
      AwaitsElem(m, m.below, m.top.current) && m.top.saved == if comma then ArrayAfterSep else ArrayState
    case AtName =>
      AwaitsKey(m, m.below, m.top.current) && m.top.saved == if comma then FieldStartAfterSep else FieldStart
    case BehindName => m.top.state == EatWs && m.top.saved == FieldEnd && m.loc == NO_LOCALS && m.obj == Null
    case BehindElement =>
      m.below != [] && var d := |m.below| - 1;
      m.below[d].current.Arr? && ChildRead(m, m.below[..d], m.below[d].current, None, m.top.current)
    case BehindMember =>
      m.below != [] && var d := |m.below| - 1;
      m.below[d].current.Obj? && m.below[d].field.Some? &&
      ChildRead(m, m.below[..d], m.below[d].current, m.below[d].field, m.top.current)
  }

  /** The error for a character that is neither white space nor the beginning of a comment. */
  function Complaint(p: Place, comma: bool, strict: bool, c: char): Option<Error> {
    match p
    case AtValue =>
      if c == '"' || c == '[' || c == '{' || c == '-' || IsDigit(c) || UpperCase(c) in "NTFI" then None
      else if c == '\'' && !strict then None else Some(ErrUnexpected)
    case AtElement => if c == ']' && comma && strict then Some(ErrUnexpected) else None
    case BehindElement => if c == ']' || c == ',' then None else Some(ErrArray)
    case AtName =>
      if c == '"' || c == '\'' then None
      else if c == '}' then (if comma && strict then Some(ErrUnexpected) else None)
      else Some(ErrKeyName)
    case BehindName => if c == ':' then None else Some(ErrKeySep)
    case BehindMember => if c == '}' || c == ',' then None else Some(ErrValueSep)
  }

  lemma StopHere(cfg: Config, m: Tok, k: Tok, err: Error, rest: string)
    requires rest != "" && Step(cfg, m, rest[0], rest[1..]) == Step(cfg, k, rest[0], rest[1..])
    requires Switch(cfg, k, rest[0], rest[1..]) == Stop(k, err, 0) && k.loc == NO_LOCALS
    ensures Run(cfg, m, rest) == End(k, err, rest[0] == '\0', rest)
  {
    hide Switch;
    assert rest[0..] == rest;
  }

  lemma IsNoKey(m: Tok)
    requires IsAt(m, BehindElement, false) || IsAt(m, BehindMember, false)
    ensures m.below != [] && m.obj == Null
  {
  }

  lemma PopAt(cfg: Config, m: Tok, p: Place, c: char, la: string) returns (n: Tok)
    requires (p == BehindElement || p == BehindMember) && IsAt(m, p, false) && !IsSpace(c) && (c == '/' ==> cfg.strict)
    ensures Step(cfg, m, c, la) == Step(cfg, n, c, la) && n.loc == NO_LOCALS
    ensures n.top.state == n.top.saved == if p == BehindElement then ArraySep else ObjSep
  {
    hide Step, AddElem, AddPair;
    var d := |m.below| - 1;
    var key := if p == BehindElement then None else m.below[d].field;
    n := PopIntoParent(cfg, m, m.below[..d], m.below[d].current, key, m.top.current, c, la);
  }

  /** A character that does not fit is refused where it stands. */
  lemma Refused(cfg: Config, m: Tok, p: Place, comma: bool, rest: string) returns (n: Tok)
    requires IsAt(m, p, comma) && rest != "" && !IsSpace(rest[0]) && (rest[0] == '/' ==> cfg.strict)
    requires Complaint(p, comma, cfg.strict, rest[0]).Some?
    ensures Run(cfg, m, rest) == End(n, Complaint(p, comma, cfg.strict, rest[0]).value, rest[0] == '\0', rest)
    ensures n.top.state != Finish && n.top.saved != Finish
  {
    hide Run, Step;
    var c, la := rest[0], rest[1..];
    if p == BehindElement || p == BehindMember {
      n := PopAt(cfg, m, p, c, la);
      assert Switch(cfg, n, c, la) == Stop(n, Complaint(p, comma, cfg.strict, c).value, 0);
    } else {
      n := m.Go(m.top.saved);
      EatenUp(cfg, m, c, la);
      StepRedo(cfg, m, n, c, la);
      WaitingRefused(cfg, n, m, p, comma, c, la);
    }
    StopHere(cfg, m, n, Complaint(p, comma, cfg.strict, c).value, rest);
  }

  lemma WaitingRefused(cfg: Config, n: Tok, m: Tok, p: Place, comma: bool, c: char, la: string)
    requires n == m.Go(m.top.saved) && IsAt(m, p, comma) && p != BehindElement && p != BehindMember
    requires Complaint(p, comma, cfg.strict, c).Some?
    ensures Switch(cfg, n, c, la) == Stop(n, Complaint(p, comma, cfg.strict, c).value, 0)
  {
    if p == AtValue { StartRefused(cfg, n, comma, c); }
  }

  lemma StartRefused(cfg: Config, n: Tok, comma: bool, c: char)
    requires Complaint(AtValue, comma, cfg.strict, c).Some?
    ensures OnStart(cfg, n, c) == Stop(n, ErrUnexpected, 0)
  {
    assert forall a: char :: a in "NnTtFfIi" ==> UpperCase(a) in "NTFI";
  }

  /** Text that leads to the place, and a character that is refused there: the call ends with
      this error in front of the character, or with that of an early end if it is the NUL. */
  lemma CallRefused(cfg: Config, m0: Tok, text: string, m: Tok, p: Place, comma: bool, rest: string)
    returns (err: Error)
    requires Run(cfg, Enter(m0), text + rest) == Run(cfg, m, rest) && IsAt(m, p, comma)
    requires rest != "" && !IsSpace(rest[0]) && (rest[0] == '/' ==> cfg.strict)
    requires Complaint(p, comma, cfg.strict, rest[0]).Some?
    ensures Complaint(p, comma, cfg.strict, rest[0]) == Some(err)
    ensures var r := ParseEx(cfg, m0, text + rest);
      r.err == (if rest[0] == '\0' then ErrEof else err) && r.value == Null && r.offset == |text|
  {
    hide Run, IsAt, ParseEx, Complaint;
    err := ComplaintIsError(p, comma, cfg.strict, rest[0]);
    var n := Refused(cfg, m, p, comma, rest);
    CallStops(cfg, m0, text, rest, n, err);
  }

  lemma ComplaintIsError(p: Place, comma: bool, strict: bool, c: char) returns (err: Error)
    requires Complaint(p, comma, strict, c).Some?
    ensures Complaint(p, comma, strict, c) == Some(err) && err != Success
  {
    err := Complaint(p, comma, strict, c).value;
  }

  /** A call that stops in front of `rest`, in the middle of a document. */
  lemma CallStops(cfg: Config, m0: Tok, text: string, rest: string, n: Tok, err: Error)
    requires rest != "" && Run(cfg, Enter(m0), text + rest) == End(n, err, rest[0] == '\0', rest)
    requires err != Success && n.top.state != Finish && n.top.saved != Finish
    ensures var r := ParseEx(cfg, m0, text + rest);
      r.err == (if rest[0] == '\0' then ErrEof else err) && r.value == Null && r.offset == |text|
  {
    hide Run;
  }

  // ----- refusals inside a token -----

  /** A slash that begins no comment. */
  lemma CommentRefused(cfg: Config, m: Tok, rest: string) returns (n: Tok)
    requires m.top.state == EatWs && m.loc == NO_LOCALS && !cfg.strict
    requires rest != "" && rest[0] != '*' && rest[0] != '/'
    ensures Run(cfg, m, "/" + rest) == End(n, ErrComment, rest[0] == '\0', rest)
  {
    hide Run, Step;
    n := m.(pb := "/").Go(CommentStart);
    TakeChar(cfg, m, '/', n, rest);
    assert Switch(cfg, n, rest[0], rest[1..]) == Stop(n, ErrComment, 0);
    StopHere(cfg, n, n, ErrComment, rest);
  }

  /** A backslash and a letter that is none of the nine escapes. */
  lemma EscapeRefused(cfg: Config, m: Tok, rest: string) returns (n: Tok)
    requires InText(m, m.quote) && rest != "" && rest[0] !in "\"\\/bfnrtu"
    ensures Run(cfg, m, "\\" + rest) == End(n, ErrString, rest[0] == '\0', rest)
  {
    hide Run, Step;
    var s: Saved := if m.top.state == StringState then StringState else Field;
    n := m.(top := m.top.(state := StringEscape, saved := s));
    TakeChar(cfg, m, '\\', n, rest);
    assert Switch(cfg, n, rest[0], rest[1..]) == Stop(n, ErrString, 0);
    StopHere(cfg, n, n, ErrString, rest);
  }

  predicate IsHexDigit(c: char) {
    c in "0123456789abcdefABCDEF"
  }

  lemma {:induction false} SomeDigits(cfg: Config, m: Tok, ds: string, rest: string) returns (n: Tok)
    requires m.top.state == EscapeUnicode && m.loc == NO_LOCALS && m.stPos + |ds| < 4
    requires forall i :: 0 <= i < |ds| ==> IsHexDigit(ds[i])
    ensures Run(cfg, m, ds + rest) == Run(cfg, n, rest)
    ensures n.top == m.top && n.loc == NO_LOCALS && n.stPos == m.stPos + |ds|
    decreases |ds|
  {
    hide Run, Step, AddedDigit, OnFourDigits, IsHexDigit;
    if ds == "" {
      n := m;
      assert ds + rest == rest;
    } else {
      var m1 := OneDigit(cfg, m, ds[0], ds[1..] + rest);
      n := SomeDigits(cfg, m1, ds[1..], rest);
      assert [ds[0]] + (ds[1..] + rest) == ds + rest;
    }
  }

  lemma OneDigit(cfg: Config, m: Tok, d: char, rest: string) returns (n: Tok)
    requires m.top.state == EscapeUnicode && m.loc == NO_LOCALS && m.stPos < 3 && IsHexDigit(d)
    ensures Run(cfg, m, [d] + rest) == Run(cfg, n, rest)
    ensures n.top == m.top && n.loc == NO_LOCALS && n.stPos == m.stPos + 1
  {
    hide Run, Step, OnFourDigits, HexDigit, Pow16;
    Unicode.HexDigitRange(d);
    n := AddedDigit(m, d);
    assert OnEscapeUnicode(m, d, rest) == Advance(n, 1);
    TakeChar(cfg, m, d, n, rest);
  }

  /** An escape with fewer than four hexadecimal digits. */
  lemma HexRefused(cfg: Config, m: Tok, ds: string, rest: string) returns (n: Tok)
    requires InText(m, m.quote) && |ds| < 4 && (forall i :: 0 <= i < |ds| ==> IsHexDigit(ds[i]))
    requires rest != "" && !IsHexDigit(rest[0]) && rest[0] != '\0'
    ensures Run(cfg, m, "\\u" + (ds + rest)) == End(n, ErrString, false, rest)
  {
    hide Run, Step;
    var m1 := Unicode.EscapeIntroRun(cfg, m, ds + rest);
    n := SomeDigits(cfg, m1, ds, rest);
    assert Switch(cfg, n, rest[0], rest[1..]) == Stop(n, ErrString, 0);
    StopHere(cfg, n, n, ErrString, rest);
  }

  /** The first letters of a word. */
  ghost predicate Begins(text: string, w: Word, strict: bool) {
    |text| <= |w.Letters()| && Spells(text, w.Letters()[..|text|], strict)
  }

  function WordError(w: Word): Error {
    match WordState(w)
    case NullState => ErrNull
    case BooleanState => ErrBoolean
    case _ => ErrUnexpected
  }

  lemma Completed(text: string, w: Word, strict: bool) returns (letters: string)
    requires Begins(text, w, strict)
    ensures Spells(letters, w.Letters(), strict) && text <= letters
  {
    letters := text + w.Letters()[|text|..];
    forall i | 0 <= i < |letters|
      ensures if strict then letters[i] == w.Letters()[i] else UpperCase(letters[i]) == UpperCase(w.Letters()[i])
    {
      if i < |text| { assert w.Letters()[..|text|][i] == w.Letters()[i]; }
    }
  }

  lemma {:induction false} FirstLetters(cfg: Config, m: Tok, w: Word, letters: string, k: nat, n: nat, rest: string)
    returns (m1: Tok)
    requires Spells(letters, w.Letters(), cfg.strict) && InWord(m, w, letters, "", k) && k <= n < |letters|
    ensures Run(cfg, m, letters[k..n] + rest) == Run(cfg, m1, rest)
    ensures InWord(m1, w, letters, "", n)
    decreases n - k
  {
    hide Run, Step, Spells, Word.Letters, InWord;
    if k == n {
      m1 := m;
      assert letters[k..n] + rest == rest;
    } else {
      var m2 := NextLetter(cfg, m, w, letters, "", k, letters[k + 1..n] + rest);
      m1 := FirstLetters(cfg, m2, w, letters, k + 1, n, rest);
      assert [letters[k]] + (letters[k + 1..n] + rest) == letters[k..n] + rest;
    }
  }

  lemma NotBegun(buf: string, w: Word, n: nat, strict: bool)
    requires n == Min(|buf|, |w.Letters()|) && !Begins(buf[..n], w, strict)
    ensures !SameStart(w.Letters(), buf, n, strict)
  {
    var word := w.Letters()[..n];
    var i :| 0 <= i < n &&
      !(if strict then buf[..n][i] == word[i] else UpperCase(buf[..n][i]) == UpperCase(word[i]));
    assert word[i] == w.Letters()[i] && buf[..n][i] == buf[i];
    if !strict { CasesDiffer(buf[i], word[i]); }
  }

  lemma CasesDiffer(a: char, b: char)
    requires UpperCase(a) != UpperCase(b)
    ensures Lower(a) != Lower(b)
  {
  }

  /** No word begins with this text, and it begins with no word. */
  ghost predicate NoWord(buf: string, strict: bool) {
    forall w: Word :: !Begins(buf[..Min(|buf|, |w.Letters()|)], w, strict)
  }

  lemma NoWordSpelled(buf: string, strict: bool)
    requires NoWord(buf, strict)
    ensures !SameStart("null", buf, Min(|buf|, 4), strict) && !SameStart("NaN", buf, Min(|buf|, 3), strict)
    ensures !SameStart("true", buf, Min(|buf|, 4), strict) && !SameStart("false", buf, Min(|buf|, 5), strict)
    ensures !SameStart("Infinity", buf, Min(|buf|, 8), strict)
  {
    hide SameStart, Begins;
    NotBegun(buf, NullWord, Min(|buf|, 4), strict);
    NotBegun(buf, NanWord, Min(|buf|, 3), strict);
    NotBegun(buf, TrueWord, Min(|buf|, 4), strict);
    NotBegun(buf, FalseWord, Min(|buf|, 5), strict);
    NotBegun(buf, InfinityWord, Min(|buf|, 8), strict);
  }

  /** A letter with which no word of the state goes on. */
  lemma WordStops(cfg: Config, m: Tok, w: Word, buf: string, c: char, la: string) returns (n: Tok)
    requires m.top.state == WordState(w) && m.pb + [c] == buf && |buf| == m.stPos + 1 && buf[0] != '-'
    requires NoWord(buf, cfg.strict)
    ensures Switch(cfg, m, c, la) == Stop(n, WordError(w), 0) && n == m.(pb := buf)
  {
    NoWordSpelled(buf, cfg.strict);
    SwitchWord(cfg, m, w, c, la);
    hide SameStart, Switch, NoWord;
    n := m.(pb := buf);
  }

  /** Some letters of a word, and a character with which no word goes on. */
  lemma WordRefused(cfg: Config, m: Tok, w: Word, text: string, rest: string) returns (n: Tok)
    requires Ready(m) && text != "" && |text| < |w.Letters()| && Begins(text, w, cfg.strict)
    requires rest != "" && NoWord(text + [rest[0]], cfg.strict)
    ensures Run(cfg, m, text + rest) == End(n, WordError(w), rest[0] == '\0', rest)
  {
    var letters := Completed(text, w, cfg.strict);
    var k := |text|;
    assert letters[..k] == text && |letters| == |w.Letters()|;
    LettersAreLetters(w, letters, cfg.strict);
    FirstLetter(letters, w, cfg.strict);
    hide Run, Step, Spells, Word.Letters, NoWord, Switch;
    var m0 := m.(pb := "", stPos := 0).Go(WordState(w));
    var s := text + rest;
    assert s[0] == letters[0];
    WordStarts(cfg, m, w, s[0], s[1..]);
    SameRun(cfg, m, m0, s);
    assert "" + letters[..0] == "" && letters[0..k] == text;
    var m1 := FirstLetters(cfg, m0, w, letters, 0, k, rest);
    assert m1.pb == "" + text == text;
    n := WordStops(cfg, m1, w, text + [rest[0]], rest[0], rest[1..]);
    StopsAfter(cfg, m1, n, WordError(w), rest);
  }

  lemma FirstLetter(letters: string, w: Word, strict: bool)
    requires Spells(letters, w.Letters(), strict)
    ensures UpperCase(letters[0]) == UpperCase(w.Letters()[0])
  {
  }

  lemma StopsAfter(cfg: Config, m: Tok, n: Tok, err: Error, rest: string)
    requires rest != "" && Switch(cfg, m, rest[0], rest[1..]) == Stop(n, err, 0) && n.loc == NO_LOCALS
    ensures Run(cfg, m, rest) == End(n, err, rest[0] == '\0', rest)
  {
    hide Switch;
    assert rest[0..] == rest;
  }

  // ----- minus infinity -----

  /** One call on minus infinity: it succeeds exactly if no word or escape was read before. */
  lemma ParseMinusInfinity(cfg: Config, m: Tok)
    requires IsFresh(m)
    ensures var r := ParseEx(cfg, m, "-Infinity\0");
      && (m.stPos == 0 ==> r.err == Success && r.value == Infinity(true))
      && (m.stPos != 0 ==> r.err == ErrUnexpected)
  {
    hide Run;
    assert Spells("Infinity", "Infinity", cfg.strict);
    assert "-" + "Infinity" + "\0" == "-Infinity\0" && "Infinity" + "\0" == "Infinity\0";
    var n := MinusInfinity(cfg, Enter(m), "Infinity", "\0");
    if m.stPos == 0 { StopAtNul(cfg, n, Infinity(true)); }
  }

  lemma WordLeavesCounter(cfg: Config, m: Tok)
    requires IsFresh(m)
    ensures var r := ParseEx(cfg, m, "null\0"); r.err == Success && IsFresh(r.m) && r.m.stPos == 4
  {
    hide Run;
    assert Spells("null", NullWord.Letters(), cfg.strict);
    assert "null" + "\0" == "null\0";
    var n := TakeWord(cfg, Enter(m), NullWord, "null", "\0");
    StopAtNul(cfg, n, Null);
  }

  /** The same text is accepted by a new tokener and refused after it has parsed the word null. */
  lemma MinusInfinityExample(cfg: Config)
    ensures ParseEx(cfg, INITIAL, "-Infinity\0").value == Infinity(true)
    ensures ParseEx(cfg, ParseEx(cfg, INITIAL, "null\0").m, "-Infinity\0").err == ErrUnexpected
  {
    hide ParseEx;
    ParseMinusInfinity(cfg, INITIAL);
    WordLeavesCounter(cfg, INITIAL);
    ParseMinusInfinity(cfg, ParseEx(cfg, INITIAL, "null\0").m);
  }
}
