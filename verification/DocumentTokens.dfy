/** How the tokener reads white space, comments, words and strings. */
module DocumentTokens {
  import opened Json
  import opened TokenerSpec
  import opened TokenerSafety
  import opened Reading
  import opened Numbers
  import opened Documents
  import Unicode

  /** Two automata that treat the next character alike. */
  lemma TakeAfter(cfg: Config, m: Tok, k: Tok, c: char, n: Tok, rest: string)
    requires Step(cfg, m, c, rest) == Step(cfg, k, c, rest) && Switch(cfg, k, c, rest) == Advance(n, 1) && c != '\0'
    ensures Run(cfg, m, [c] + rest) == Run(cfg, n, rest)
  {
    hide Switch, Run, Step;
    StepAdvance(cfg, k, c, rest, n);
    var s := [c] + rest;
    assert s[0] == c && s[1..] == rest;
    RunAdvance(cfg, m, s, n);
  }

  // ----- white space and comments -----

  lemma {:induction false} TakeBody(cfg: Config, m: Tok, body: string, rest: string) returns (n: Tok)
    requires m.top.state == Comment && NulFree(body) && StaysOpen(body)
    ensures Run(cfg, m, body + rest) == Run(cfg, n, rest) && n == m.(pb := n.pb)
    decreases |body|
  {
    hide Run, Step;
    if body == "" {
      n := m;
      assert body + rest == rest;
    } else if body[0] != '*' {
      var m1 := m.Append([body[0]]);
      TakeChar(cfg, m, body[0], m1, body[1..] + rest);
      n := TakeBody(cfg, m1, body[1..], rest);
      assert [body[0]] + (body[1..] + rest) == body + rest;
    } else {
      var m1 := m.Append(['*']).Go(CommentEnd);
      TakeChar(cfg, m, '*', m1, body[1..] + rest);
      assert [body[1]] + (body[2..] + rest) == body[1..] + rest;
      var m2 := m1.Append([body[1]]).Go(Comment);
      TakeChar(cfg, m1, body[1], m2, body[2..] + rest);
      n := TakeBody(cfg, m2, body[2..], rest);
      assert ['*'] + (body[1..] + rest) == body + rest;
    }
  }

  lemma {:induction false} TakeLine(cfg: Config, m: Tok, words: string, rest: string) returns (n: Tok)
    requires m.top.state == CommentEol && NulFree(words) && '\n' !in words
    ensures Run(cfg, m, words + rest) == Run(cfg, n, rest) && n == m.(pb := n.pb)
    decreases |words|
  {
    hide Run, Step;
    if words == "" {
      n := m;
      assert words + rest == rest;
    } else {
      var m1 := m.Append([words[0]]);
      TakeChar(cfg, m, words[0], m1, words[1..] + rest);
      n := TakeLine(cfg, m1, words[1..], rest);
      assert [words[0]] + (words[1..] + rest) == words + rest;
    }
  }

  lemma TakeBlock(cfg: Config, m: Tok, body: string, rest: string) returns (n: Tok)
    requires m.top.state == EatWs && !cfg.strict && NulFree(body) && StaysOpen(body)
    ensures Run(cfg, m, "/*" + body + "*/" + rest) == Run(cfg, n, rest) && n == m.(pb := n.pb)
  {
    hide Run, Step;
    var end := "*/" + rest;
    var m1 := m.(pb := "/").Go(CommentStart);
    TakeChar(cfg, m, '/', m1, "*" + (body + end));
    var m2 := m1.Append("*").Go(Comment);
    TakeChar(cfg, m1, '*', m2, body + end);
    var m3 := TakeBody(cfg, m2, body, end);
    var m4 := m3.Append("*").Go(CommentEnd);
    assert end == ['*'] + ("/" + rest);
    TakeChar(cfg, m3, '*', m4, "/" + rest);
    n := m4.Append("/").Go(EatWs);
    TakeChar(cfg, m4, '/', n, rest);
    assert "/*" + body + "*/" + rest == ['/'] + ("*" + (body + end));
  }

  lemma TakeLineComment(cfg: Config, m: Tok, words: string, rest: string) returns (n: Tok)
    requires m.top.state == EatWs && !cfg.strict && NulFree(words) && '\n' !in words
    ensures Run(cfg, m, "//" + words + "\n" + rest) == Run(cfg, n, rest) && n == m.(pb := n.pb)
  {
    hide Run, Step;
    var end := "\n" + rest;
    var m1 := m.(pb := "/").Go(CommentStart);
    TakeChar(cfg, m, '/', m1, "/" + (words + end));
    var m2 := m1.Append("/").Go(CommentEol);
    TakeChar(cfg, m1, '/', m2, words + end);
    var m3 := TakeLine(cfg, m2, words, end);
    n := m3.Go(EatWs);
    TakeChar(cfg, m3, '\n', n, rest);
    assert "//" + words + "\n" + rest == ['/'] + ("/" + (words + end));
  }

  lemma TakeBlank(cfg: Config, m: Tok, b: Blank, rest: string) returns (n: Tok)
    requires m.top.state == EatWs && b.Valid(cfg.strict)
    ensures Run(cfg, m, b.Text() + rest) == Run(cfg, n, rest) && n == m.(pb := n.pb)
  {
    hide Run, Step, StaysOpen;
    n := m;
    match b
    case Space(c) => TakeChar(cfg, m, c, m, rest);
    case Block(body) => n := TakeBlock(cfg, m, body, rest);
    case Line(words) => n := TakeLineComment(cfg, m, words, rest);
  }

  lemma {:induction false} TakeGap(cfg: Config, m: Tok, g: Gap, rest: string) returns (n: Tok)
    requires m.top.state == EatWs && GapValid(g, cfg.strict)
    ensures Run(cfg, m, GapText(g) + rest) == Run(cfg, n, rest) && n == m.(pb := n.pb)
    decreases |g|
  {
    hide Run, Step, Blank.Text, Blank.Valid;
    if g == [] {
      n := m;
      assert GapText(g) + rest == rest;
    } else {
      var tail := GapText(g[1..]) + rest;
      var m1 := TakeBlank(cfg, m, g[0], tail);
      n := TakeGap(cfg, m1, g[1..], rest);
      assert g[0].Text() + tail == GapText(g) + rest;
    }
  }

  // ----- words -----

  function WordState(w: Word): State {
    match w
    case NullWord => NullState
    case NanWord => NullState
    case TrueWord => BooleanState
    case FalseWord => BooleanState
    case InfinityWord => Inf
  }

  /** The value of a word behind an optional minus sign. */
  function WordValue(w: Word, minus: string): Value {
    if w == InfinityWord then Infinity(minus == "-") else w.Denotes()
  }

  lemma SpelledStart(text: string, word: string, buf: string, n: nat, strict: bool)
    requires Spells(text, word, strict) && n <= |text| && n <= |buf| && buf[..n] == text[..n]
    ensures SameStart(word, buf, n, strict)
  {
    forall i | 0 <= i < n
      ensures if strict then word[i] == buf[i] else Lower(word[i]) == Lower(buf[i])
    {
      assert buf[..n][i] == text[..n][i];
      CasesAgree(text[i], word[i]);
    }
  }

  lemma CasesAgree(a: char, b: char)
    requires UpperCase(a) == UpperCase(b)
    ensures Lower(a) == Lower(b)
  {
  }

  /** A letter that differs in both cases. */
  lemma OtherWord(word: string, buf: string, i: nat, n: nat, strict: bool)
    requires i < n <= |word| && i < |buf| && Lower(word[i]) != Lower(buf[i])
    ensures !SameStart(word, buf, n, strict)
  {
  }

  /** Inside a word, `k` of its letters have been read. */
  ghost predicate InWord(m: Tok, w: Word, letters: string, minus: string, k: nat) {
    && m.top.state == WordState(w) && m.stPos == k <= |letters| && m.pb == minus + letters[..k]
    && (minus == "" || (minus == "-" && w == InfinityWord)) && m.top.saved == Start
    && m.top.current == Null && m.top.field == None && m.loc == NO_LOCALS && m.obj == Null
  }

  /** What the comparisons say while a word is read, and with the character behind it. */
  lemma WordCompares(w: Word, letters: string, buf: string, n: nat, strict: bool)
    requires Spells(letters, w.Letters(), strict) && 0 < n <= |buf| && n <= |letters| + 1
    requires var k := Min(n, |letters|); buf[..k] == letters[..k]
    ensures SameStart(w.Letters(), buf, Min(n, |letters|), strict)
    ensures w == FalseWord ==> !SameStart("true", buf, Min(n, 4), strict)
    ensures w == NanWord && n > 1 ==> !SameStart("null", buf, Min(n, 4), strict)
  {
    var k := Min(n, |letters|);
    assert buf[0] == buf[..k][0] == letters[0];
    SpelledStart(letters, w.Letters(), buf, k, strict);
    CasesAgree(letters[0], w.Letters()[0]);
    if w == FalseWord { OtherWord("true", buf, 0, Min(n, 4), strict); }
    if w == NanWord && n > 1 {
      assert buf[1] == buf[..k][1] == letters[1];
      CasesAgree(letters[1], w.Letters()[1]);
      OtherWord("null", buf, 1, Min(n, 4), strict);
    }
  }

  /** What the case of the word does with one character more. */
  function Lettered(m: Tok, w: Word, minus: string, pb: string): Outcome {
    var m1 := m.(pb := pb);
    if m.stPos == |w.Letters()| then Redo(m1.Done(WordValue(w, minus))) else Advance(m1.(stPos := m.stPos + 1), 1)
  }

  lemma NullLettered(cfg: Config, m: Tok, w: Word, c: char)
    requires w == NullWord || w == NanWord
    requires SameStart(w.Letters(), m.pb + [c], Min(m.stPos + 1, |w.Letters()|), cfg.strict)
    requires w == NanWord && m.stPos > 0 ==> !SameStart("null", m.pb + [c], Min(m.stPos + 1, 4), cfg.strict)
    ensures OnNull(cfg, m, c) == Lettered(m, w, "", m.pb + [c])
  {
    hide SameStart;
  }

  lemma BooleanLettered(cfg: Config, m: Tok, w: Word, c: char)
    requires w == TrueWord || w == FalseWord
    requires SameStart(w.Letters(), m.pb + [c], Min(m.stPos + 1, |w.Letters()|), cfg.strict)
    requires w == FalseWord ==> !SameStart("true", m.pb + [c], Min(m.stPos + 1, 4), cfg.strict)
    ensures OnBoolean(cfg, m, c) == Lettered(m, w, "", m.pb + [c])
  {
    hide SameStart;
  }

  lemma InfLettered(cfg: Config, m: Tok, c: char, minus: string, buf: string)
    requires m.pb + [c] == minus + buf && (minus == "" || minus == "-") && buf != "" && buf[0] != '-'
    requires SameStart(InfinityWord.Letters(), buf, Min(m.stPos + 1, |InfinityWord.Letters()|), cfg.strict)
    ensures OnInf(cfg, m, c) == Lettered(m, InfinityWord, minus, m.pb + [c])
  {
    hide SameStart;
    if minus == "-" {
      assert (minus + buf)[0] == '-' && (minus + buf)[1..] == buf;
    } else {
      assert minus + buf == buf;
    }
  }

  lemma LettersAreLetters(w: Word, letters: string, strict: bool)
    requires Spells(letters, w.Letters(), strict)
    ensures |letters| == |w.Letters()| > 0
    ensures forall i :: 0 <= i < |letters| ==> letters[i] != '\0' && letters[i] != '-'
  {
    assert forall i :: 0 <= i < |w.Letters()| ==> UpperCase(w.Letters()[i]) != '\0' && UpperCase(w.Letters()[i]) != '-';
  }

  lemma SwitchWord(cfg: Config, m: Tok, w: Word, c: char, la: string)
    requires m.top.state == WordState(w)
    ensures Switch(cfg, m, c, la) ==
      if w == InfinityWord then OnInf(cfg, m, c)
      else if w == NullWord || w == NanWord then OnNull(cfg, m, c) else OnBoolean(cfg, m, c)
  {
  }

  lemma NextBuffer(letters: string, minus: string, k: nat, c: char) returns (buf: string)
    requires k <= |letters| && letters != "" && (k < |letters| ==> c == letters[k])
    ensures |buf| == k + 1 && buf[..Min(k + 1, |letters|)] == letters[..Min(k + 1, |letters|)] && buf[0] == letters[0]
    ensures minus + letters[..k] + [c] == minus + buf && "" + buf == buf
  {
    buf := letters[..k] + [c];
  }

  /** Inside a word its next letter is taken, and behind it any character ends it. */
  lemma WordLettered(cfg: Config, m: Tok, w: Word, letters: string, minus: string, c: char, la: string)
    requires Spells(letters, w.Letters(), cfg.strict) && InWord(m, w, letters, minus, m.stPos)
    requires m.stPos < |letters| ==> c == letters[m.stPos]
    ensures Switch(cfg, m, c, la) == Lettered(m, w, minus, m.pb + [c])
  {
    hide SameStart, Spells, Lettered, OnNull, OnBoolean, OnInf, Switch, Word.Letters;
    SwitchWord(cfg, m, w, c, la);
    LettersAreLetters(w, letters, cfg.strict);
    var buf := NextBuffer(letters, minus, m.stPos, c);
    WordCompares(w, letters, buf, m.stPos + 1, cfg.strict);
    if w == InfinityWord {
      InfLettered(cfg, m, c, minus, buf);
    } else if w == NullWord || w == NanWord {
      NullLettered(cfg, m, w, c);
    } else {
      BooleanLettered(cfg, m, w, c);
    }
  }

  lemma WordEnded(cfg: Config, m: Tok, w: Word, letters: string, minus: string, rest: string) returns (n: Tok)
    requires Spells(letters, w.Letters(), cfg.strict) && InWord(m, w, letters, minus, |letters|) && rest != ""
    ensures Run(cfg, m, rest) == Run(cfg, n, rest)
    ensures Holds(n, m.below, WordValue(w, minus)) && n.stPos == |letters|
  {
    hide Run, Step, Spells, Switch, Word.Letters;
    LettersAreLetters(w, letters, cfg.strict);
    n := m.(pb := m.pb + [rest[0]]).Done(WordValue(w, minus));
    WordLettered(cfg, m, w, letters, minus, rest[0], rest[1..]);
    StepRedo(cfg, m, n, rest[0], rest[1..]);
    SameRun(cfg, m, n, rest);
  }

  lemma NextLetter(cfg: Config, m: Tok, w: Word, letters: string, minus: string, k: nat, rest: string)
    returns (n: Tok)
    requires Spells(letters, w.Letters(), cfg.strict) && InWord(m, w, letters, minus, k) && k < |letters|
    ensures Run(cfg, m, [letters[k]] + rest) == Run(cfg, n, rest)
    ensures InWord(n, w, letters, minus, k + 1) && n.below == m.below
  {
    hide Run, Step, Spells, Switch, Word.Letters;
    LettersAreLetters(w, letters, cfg.strict);
    WordLettered(cfg, m, w, letters, minus, letters[k], rest);
    n := m.(pb := m.pb + [letters[k]], stPos := k + 1);
    TakeChar(cfg, m, letters[k], n, rest);
    OneMoreLetter(letters, minus, k);
  }

  lemma OneMoreLetter(letters: string, minus: string, k: nat)
    requires k < |letters|
    ensures minus + letters[..k] + [letters[k]] == minus + letters[..k + 1]
  {
  }

  lemma {:induction false} TakeLetters(cfg: Config, m: Tok, w: Word, letters: string, minus: string, k: nat,
      rest: string)
    returns (n: Tok)
    requires Spells(letters, w.Letters(), cfg.strict) && InWord(m, w, letters, minus, k) && rest != ""
    ensures Run(cfg, m, letters[k..] + rest) == Run(cfg, n, rest)
    ensures Holds(n, m.below, WordValue(w, minus)) && n.stPos == |letters|
    decreases |letters| - k
  {
    hide Run, Step, Spells, Switch, Word.Letters;
    assert k <= |letters|;
    hide InWord;
    if k == |letters| {
      n := WordEnded(cfg, m, w, letters, minus, rest);
      assert letters[k..] + rest == rest;
    } else {
      var m1 := NextLetter(cfg, m, w, letters, minus, k, letters[k + 1..] + rest);
      n := TakeLetters(cfg, m1, w, letters, minus, k + 1, rest);
      assert [letters[k]] + (letters[k + 1..] + rest) == letters[k..] + rest;
    }
  }

  /** The first letter tells which state reads the word. */
  lemma WordStarts(cfg: Config, m: Tok, w: Word, c: char, la: string)
    requires Ready(m) && UpperCase(c) == UpperCase(w.Letters()[0])
    ensures Step(cfg, m, c, la) == Step(cfg, m.(pb := "", stPos := 0).Go(WordState(w)), c, la)
  {
    hide Step;
    var m0 := m.(pb := "", stPos := 0).Go(WordState(w));
    CasesAgree(c, w.Letters()[0]);
    StartStep(cfg, m, c, la);
    assert Switch(cfg, m.Go(Start), c, la) == Redo(m0);
    StepRedo(cfg, m.Go(Start), m0, c, la);
  }

  lemma TakeWord(cfg: Config, m: Tok, w: Word, letters: string, rest: string) returns (n: Tok)
    requires Ready(m) && Spells(letters, w.Letters(), cfg.strict) && rest != ""
    ensures Run(cfg, m, letters + rest) == Run(cfg, n, rest)
    ensures Holds(n, m.below, w.Denotes()) && n.stPos == |letters|
  {
    hide Run, Step;
    var m0 := m.(pb := "", stPos := 0).Go(WordState(w));
    var s := letters + rest;
    assert s[0] == letters[0];
    WordStarts(cfg, m, w, s[0], s[1..]);
    SameRun(cfg, m, m0, s);
    assert "" + letters[..0] == "" && letters[0..] == letters;
    n := TakeLetters(cfg, m0, w, letters, "", 0, rest);
  }

  lemma MinusFirst(letters: string, strict: bool)
    requires Spells(letters, "Infinity", strict)
    ensures |letters| == 8 && letters[0] in "iI" && SameStart("Infinity", [letters[0]], 1, strict)
    ensures "-" + letters[..1] == ['-', letters[0]]
  {
    CasesAgree(letters[0], 'I');
  }

  lemma MinusGlue(letters: string, rest: string)
    requires letters != ""
    ensures "-" + [letters[0]] + (letters[1..] + rest) == "-" + letters + rest
    ensures [letters[0]] + (letters[1..] + rest) == letters + rest
  {
    assert [letters[0]] + letters[1..] == letters;
  }

  /** A minus sign and the word are read where the counter of the last word or escape is 0. */
  lemma MinusInfinity(cfg: Config, m: Tok, letters: string, rest: string) returns (n: Tok)
    requires Ready(m) && Spells(letters, "Infinity", cfg.strict) && rest != ""
    ensures m.stPos == 0 ==>
      Run(cfg, m, "-" + letters + rest) == Run(cfg, n, rest) && Holds(n, m.below, Infinity(true))
    ensures m.stPos != 0 ==> Run(cfg, m, "-" + letters + rest) == End(n, ErrUnexpected, false, letters + rest)
  {
    MinusFirst(letters, cfg.strict);
    MinusGlue(letters, rest);
    assert InfinityWord.Letters() == "Infinity";
    hide Run, Step, SameStart, Spells, Word.Letters;
    n := MinusLetter(cfg, m, letters[0], letters[1..] + rest);
    if m.stPos == 0 {
      n := TakeLetters(cfg, n, InfinityWord, letters, "-", 1, rest);
    }
  }

  // ----- strings -----

  /** Inside a string or the name of a member. */
  ghost predicate InText(m: Tok, quote: char) {
    && (m.top.state == StringState || m.top.state == Field) && m.quote == quote && Unicode.IsQuote(quote)
    && m.obj == Null && m.loc == NO_LOCALS
  }

  /** `n` is `m` with `s` appended; a used escape has overwritten `saved`. */
  ghost predicate Grown(m: Tok, s: string, n: Tok) {
    && InText(n, m.quote) && n.below == m.below && n.pb == m.pb + s && n.top.(saved := m.top.saved) == m.top
  }

  lemma TakeShort(cfg: Config, m: Tok, letter: char, rest: string) returns (n: Tok)
    requires InText(m, m.quote) && Short(letter).Valid(m.quote)
    ensures Run(cfg, m, Short(letter).Text() + rest) == Run(cfg, n, rest)
    ensures Grown(m, Short(letter).Denotes(), n)
  {
    hide Run, Step;
    var s: Saved := if m.top.state == StringState then StringState else Field;
    var m1 := m.(top := m.top.(state := StringEscape, saved := s));
    TakeChar(cfg, m, '\\', m1, [letter] + rest);
    n := m1.Go(s).Append(Short(letter).Denotes());
    TakeChar(cfg, m1, letter, n, rest);
    assert ['\\'] + ([letter] + rest) == Short(letter).Text() + rest;
  }

  lemma TakeHex(cfg: Config, m: Tok, ds: seq<string>, rest: string) returns (n: Tok)
    requires InText(m, m.quote) && ds != [] && Unicode.AllHex4(ds) && !Unicode.StartsEscape(rest)
    ensures Run(cfg, m, Unicode.Escapes(ds) + rest) == Run(cfg, n, rest)
    ensures Grown(m, Hex(ds).Denotes(), n)
  {
    hide Run, Unicode.Written, Unicode.Utf8All, Unicode.Escapes;
    var tail := ds[0] + (Unicode.Escapes(ds[1..]) + rest);
    var k := Unicode.EscapeIntroRun(cfg, m, tail);
    n := Unicode.EscapesRun(cfg, k, ds, rest);
    Unicode.EscapesCons(ds, rest);
  }

  lemma TakePiece(cfg: Config, m: Tok, p: Piece, rest: string) returns (n: Tok)
    requires InText(m, m.quote) && p.Valid(m.quote) && (p.Hex? ==> !Unicode.StartsEscape(rest))
    ensures Run(cfg, m, p.Text() + rest) == Run(cfg, n, rest)
    ensures Grown(m, p.Denotes(), n)
  {
    hide Run, Step;
    match p
    case Raw(c) =>
      n := m.Append([c]);
      TakeChar(cfg, m, c, n, rest);
    case Short(letter) => n := TakeShort(cfg, m, letter, rest);
    case Hex(ds) => n := TakeHex(cfg, m, ds, rest);
  }

  lemma NoEscapeHere(p: Piece, quote: char, rest: string)
    requires p.Valid(quote) && !p.Hex?
    ensures !Unicode.StartsEscape(p.Text() + rest)
  {
    if p.Short? { assert (p.Text() + rest)[1] == p.letter; }
  }

  lemma PiecesGlue(ps: seq<Piece>, rest: string)
    ensures ps == [] ==> PiecesText(ps) + rest == rest
    ensures ps != [] ==> PiecesText(ps) + rest == ps[0].Text() + (PiecesText(ps[1..]) + rest)
  {
    hide Piece.Text;
  }

  /** Behind a run of escapes no further one follows. */
  lemma AfterHex(ps: seq<Piece>, quote: char, rest: string)
    requires PiecesValid(ps, quote) && ps != [] && ps[0].Hex? && rest != "" && rest[0] == quote
    ensures !Unicode.StartsEscape(PiecesText(ps[1..]) + rest)
  {
    hide Piece.Text, Piece.Valid, PiecesText;
    var tail := ps[1..];
    PiecesGlue(tail, rest);
    if tail != [] {
      assert !ps[1].Hex? && ps[1].Valid(quote);
      NoEscapeHere(ps[1], quote, PiecesText(tail[1..]) + rest);
    }
  }

  lemma {:induction false} TakePieces(cfg: Config, m: Tok, ps: seq<Piece>, rest: string) returns (n: Tok)
    requires InText(m, m.quote) && PiecesValid(ps, m.quote) && rest != "" && rest[0] == m.quote
    ensures Run(cfg, m, PiecesText(ps) + rest) == Run(cfg, n, rest)
    ensures Grown(m, PiecesDenote(ps), n)
    decreases |ps|
  {
    hide Run, Step, Piece.Text, Piece.Denotes, PiecesText;
    PiecesGlue(ps, rest);
    if ps == [] {
      n := m;
      assert m.pb + "" == m.pb;
    } else {
      if ps[0].Hex? { AfterHex(ps, m.quote, rest); }
      var m1 := TakePiece(cfg, m, ps[0], PiecesText(ps[1..]) + rest);
      n := TakePieces(cfg, m1, ps[1..], rest);
      assert m.pb + ps[0].Denotes() + PiecesDenote(ps[1..]) == m.pb + PiecesDenote(ps);
    }
  }

  lemma OpenString(cfg: Config, m: Tok, quote: char, rest: string) returns (n: Tok)
    requires Ready(m) && Unicode.IsQuote(quote) && (cfg.strict ==> quote == '"')
    ensures Run(cfg, m, [quote] + rest) == Run(cfg, n, rest)
    ensures n == m.(pb := "", quote := quote).Go(StringState)
  {
    hide Run, Step;
    n := m.(pb := "", quote := quote).Go(StringState);
    StartStep(cfg, m, quote, rest);
    TakeAfter(cfg, m, m.Go(Start), quote, n, rest);
  }

  lemma TakeString(cfg: Config, m: Tok, quote: char, ps: seq<Piece>, rest: string) returns (n: Tok)
    requires Ready(m) && PiecesValid(ps, quote) && (cfg.strict ==> quote == '"')
    ensures Run(cfg, m, [quote] + PiecesText(ps) + [quote] + rest) == Run(cfg, n, rest)
    ensures Holds(n, m.below, Str(PiecesDenote(ps)))
  {
    hide Run, Step, PiecesText, PiecesDenote;
    var text, end := PiecesText(ps), [quote] + rest;
    var m1 := OpenString(cfg, m, quote, text + end);
    var m2 := TakePieces(cfg, m1, ps, end);
    n := m2.Done(Str(m2.pb));
    TakeChar(cfg, m2, quote, n, rest);
    assert [quote] + text + [quote] + rest == [quote] + (text + end);
    assert "" + PiecesDenote(ps) == PiecesDenote(ps);
  }
}
