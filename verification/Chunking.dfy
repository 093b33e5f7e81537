/** Feeding a document to the tokener in pieces. */
module Chunking {
  import opened Json
  import opened Decimal
  import opened PrintSpec
  import opened TokenerSpec
  import opened Reading
  import opened TokenerSafety
  import opened RoundTrip
  import opened Cuts

  function Concat(chunks: seq<string>): string {
    if chunks == [] then "" else chunks[0] + Concat(chunks[1..])
  }

  /** The calling loop that json_tokener.h documents: go on while the tokener
      answers "continue".  The offset is counted from the start of the first chunk. */
  function Feed(cfg: Config, m: Tok, chunks: seq<string>): Result
    decreases |chunks|
  {
    if chunks == [] then Result(m, Continue, Null, 0)
    else
      var r := ParseEx(cfg, m, chunks[0]);
      if r.err != Continue then r
      else
        var t := Feed(cfg, r.m, chunks[1..]);
        t.(offset := t.offset + |chunks[0]|)
  }

  // ----- printed documents, split anywhere -----

  /** In a settled tokener a new call starts exactly where the old one was. */
  lemma {:induction false} ReenterRun(cfg: Config, m: Tok, loc: Locals, s: string)
    requires Clean(cfg, m, s) && (m.top.state == Number || loc == m.loc)
    ensures Run(cfg, m.(loc := loc), s) == Run(cfg, m, s) && Clean(cfg, m.(loc := loc), s)
    decreases |s|
  {
    hide Step;
    if s != "" && m.top.state == Number {
      ReenterStep(cfg, m, loc, s[0], s[1..]);
      var o := Step(cfg, m, s[0], s[1..]);
      if o.m.top.state == Number {
        ReenterRun(cfg, o.m, Step(cfg, m.(loc := loc), s[0], s[1..]).m.loc, s[1..]);
      }
    } else if s != "" {
      assert m.(loc := loc) == m;
    }
  }

  lemma ReenterStep(cfg: Config, m: Tok, loc: Locals, c: char, la: string)
    requires m.top.state == Number && Settled(m, [c] + la)
    ensures var o, p := Step(cfg, m, c, la), Step(cfg, m.(loc := loc), c, la);
      if IsDigit(c) then o.Advance? && o.m.top.state == Number && p == Advance(o.m.(loc := p.m.loc), 1) else p == o
  {
    hide Step;
    NumberChars(c);
    var m2 := m.(loc := loc);
    var o, p := Switch(cfg, m, c, la), Switch(cfg, m2, c, la);
    assert ([c] + la)[0] == c;
    if IsDigit(c) {
      StepAdvance(cfg, m, c, la, o.m);
      StepAdvance(cfg, m2, c, la, p.m);
    } else {
      assert OnNumberEnd(cfg, m, c) == OnNumberEnd(cfg, m2, c) == o == p;
      if o.Redo? {
        StepRedo(cfg, m, o.m, c, la);
        StepRedo(cfg, m2, o.m, c, la);
      } else {
        NumberStops(cfg, m, c, la);
        NumberStops(cfg, m2, c, la);
      }
    }
  }

  lemma NumberStops(cfg: Config, m: Tok, c: char, la: string)
    requires m.top.state == Number && OnNumberEnd(cfg, m, c).Stop? && !IsNumberChar(c)
    ensures Step(cfg, m, c, la) == OnNumberEnd(cfg, m, c)
  {
  }

  /** The look-ahead makes no difference to a step that consumes one character. */
  lemma {:induction false} StepIgnoresRest(cfg: Config, m: Tok, c: char, la: string, cut: string)
    requires cut <= la && Step(cfg, m, c, la).Advance? && Step(cfg, m, c, la).skip == 1 && c != '\0'
    ensures Step(cfg, m, c, cut) == Step(cfg, m, c, la)
    decreases Level(m, c), Rank(m)
  {
    hide OnEscapeUnicode, OnNumber, OnStart;
    var o := Switch(cfg, m, c, la);
    if o.Redo? {
      RedoDecreases(cfg, m, c, la);
      assert Switch(cfg, m, c, cut) == o by { NoEscapeRedo(m, c, la); }
      StepIgnoresRest(cfg, o.m, c, la, cut);
    } else {
      EscapeIgnoresRest(m, c, la, cut);
    }
  }

  lemma NoEscapeRedo(m: Tok, c: char, la: string)
    ensures !OnEscapeUnicode(m, c, la).Redo?
  {
    EscapeShape(m, c, la);
  }

  lemma EscapeIgnoresRest(m: Tok, c: char, la: string, cut: string)
    requires cut <= la && c != '\0'
    ensures var o := OnEscapeUnicode(m, c, la); o.Advance? && o.skip == 1 ==> OnEscapeUnicode(m, c, cut) == o
  {
    hide Encode, HexDigit, Pow16, DecodeSurrogatePair;
  }

  /** Cutting a clean input anywhere before its end. */
  lemma {:induction false} CleanSplitRun(cfg: Config, m: Tok, a: string, b: string) returns (n: Tok)
    requires Clean(cfg, m, a + b) && b != ""
    ensures Run(cfg, m, a) == End(Enter(n), Continue, false, "")
    ensures Run(cfg, m, a + b) == Run(cfg, n, b) && Clean(cfg, n, b)
    decreases |a|
  {
    hide Step;
    if a == "" {
      assert a + b == b;
      n := m;
    } else {
      assert (a + b)[0] == a[0] && (a + b)[1..] == a[1..] + b;
      StepIgnoresRest(cfg, m, a[0], a[1..] + b, a[1..]);
      n := CleanSplitRun(cfg, Step(cfg, m, a[0], a[1..]).m, a[1..], b);
    }
  }

  /** The first call answers "continue", the second ends like a single call. */
  lemma CleanSplit(cfg: Config, m: Tok, a: string, b: string) returns (n: Tok)
    requires m == Enter(m) && Clean(cfg, m, a + b) && b != ""
    ensures ParseEx(cfg, m, a) == Result(n, Continue, Null, |a|) && n == Enter(n) && Clean(cfg, n, b)
    ensures var r := ParseEx(cfg, n, b); ParseEx(cfg, m, a + b) == r.(offset := |a| + r.offset)
  {
    hide Run;
    var k := CleanSplitRun(cfg, m, a, b);
    n := Enter(k);
    ReenterRun(cfg, k, NO_LOCALS, b);
    assert n == k.(loc := NO_LOCALS);
    CleanIsNotFinished(cfg, k, b);
  }

  lemma CleanIsNotFinished(cfg: Config, m: Tok, s: string)
    requires Clean(cfg, m, s) && s != ""
    ensures !(m.top.state == Finish && m.below == [])
  {
    FinishStops(cfg, m, s[0], s[1..]);
  }

  lemma FinishStops(cfg: Config, m: Tok, c: char, la: string)
    ensures m.top.state == Finish && m.below == [] ==> Step(cfg, m, c, la).Stop?
  {
  }

  /** Behind a first chunk that was answered with "continue". */
  lemma FeedPrefixes(cfg: Config, m: Tok, chunks: seq<string>)
    requires chunks != [] && ParseEx(cfg, m, chunks[0]).err == Continue
    requires forall k :: 0 <= k <= |chunks| - 1 && |Concat(chunks[1..][..k])| < |Concat(chunks[1..])| ==>
               Feed(cfg, ParseEx(cfg, m, chunks[0]).m, chunks[1..][..k]).err == Continue
    ensures forall k :: 0 <= k <= |chunks| && |Concat(chunks[..k])| < |Concat(chunks)| ==>
              Feed(cfg, m, chunks[..k]).err == Continue
  {
    hide ParseEx;
    forall k | 0 <= k <= |chunks| && |Concat(chunks[..k])| < |Concat(chunks)|
      ensures Feed(cfg, m, chunks[..k]).err == Continue
    {
      if k > 0 {
        assert chunks[..k][0] == chunks[0] && chunks[..k][1..] == chunks[1..][..k - 1];
      }
    }
  }

  /** A clean input fed in any chunks gives what a single call gives, and every
      proper prefix of the chunks is answered with "continue". */
  lemma {:induction false} FeedClean(cfg: Config, m: Tok, chunks: seq<string>)
    requires m == Enter(m) && Clean(cfg, m, Concat(chunks)) && Concat(chunks) != ""
    ensures Feed(cfg, m, chunks) == ParseEx(cfg, m, Concat(chunks)) || ParseEx(cfg, m, Concat(chunks)).err == Continue
    ensures forall k :: 0 <= k <= |chunks| && |Concat(chunks[..k])| < |Concat(chunks)| ==>
              Feed(cfg, m, chunks[..k]).err == Continue
    decreases |chunks|
  {
    hide Clean, ParseEx;
    var a, b := chunks[0], Concat(chunks[1..]);
    if b != "" {
      var n := CleanSplit(cfg, m, a, b);
      FeedClean(cfg, n, chunks[1..]);
      assert ParseEx(cfg, m, a).m == n && ParseEx(cfg, m, a).err == Continue;
      FeedPrefixes(cfg, m, chunks);
    } else {
      assert a + b == a;
      LastChunk(cfg, m, chunks);
    }
  }

  /** The remaining chunks are empty. */
  lemma LastChunk(cfg: Config, m: Tok, chunks: seq<string>)
    requires chunks != [] && Concat(chunks[1..]) == ""
    ensures Feed(cfg, m, chunks) == ParseEx(cfg, m, chunks[0]) || ParseEx(cfg, m, chunks[0]).err == Continue
    ensures forall k :: 0 <= k <= |chunks| && |Concat(chunks[..k])| < |Concat(chunks)| ==> k == 0
  {
  }

  /** The text of an array or object is read cleanly from a fresh tokener. */
  lemma TextIsClean(cfg: Config, m: Tok, v: Value, f: Flags) returns (n: Tok)
    requires IsFresh(m) && m == Enter(m) && Printable(v) && Height(v) < cfg.maxDepth && (v.Arr? || v.Obj?)
    ensures Clean(cfg, m, Text(v, 0, f)) && Holds(n, [], v)
    ensures Run(cfg, m, Text(v, 0, f)) == End(n, Success, false, "")
  {
    hide Step;
    n := ReadValue(cfg, m, v, 0, f, "");
    assert Text(v, 0, f) + "" == Text(v, 0, f);
    assert Clean(cfg, n, "");
  }

  /** Chunking invariance: the text of every array or object, in every style,
      cut into chunks in every way, gives back the value; every call before the
      one that brings the closing bracket answers "continue". */
  lemma ChunkingInvariance(cfg: Config, m: Tok, v: Value, f: Flags, chunks: seq<string>)
    requires IsFresh(m) && Printable(v) && Height(v) < cfg.maxDepth && (v.Arr? || v.Obj?)
    requires Concat(chunks) == Text(v, 0, f)
    ensures var r := Feed(cfg, m, chunks);
            r.err == Success && r.value == v && IsFresh(r.m) && r.offset == |Text(v, 0, f)|
    ensures Feed(cfg, m, chunks) == ParseEx(cfg, m, Text(v, 0, f))
    ensures forall k :: 0 <= k <= |chunks| && |Concat(chunks[..k])| < |Text(v, 0, f)| ==>
              Feed(cfg, m, chunks[..k]).err == Continue
  {
    hide Run, Step, Clean, Printable, Height, ParseEx;
    var n := TextIsClean(cfg, Enter(m), v, f);
    assert Enter(m) == Enter(Enter(m));
    TextIsParsed(cfg, m, v, f, n);
    FeedClean(cfg, Enter(m), chunks);
    FeedEnters(cfg, m, chunks);
  }

  lemma TextIsParsed(cfg: Config, m: Tok, v: Value, f: Flags, n: Tok)
    requires Run(cfg, Enter(m), Text(v, 0, f)) == End(n, Success, false, "") && Holds(n, [], v)
    ensures var r := ParseEx(cfg, m, Text(v, 0, f));
            r.err == Success && r.value == v && IsFresh(r.m) && r.offset == |Text(v, 0, f)|
    ensures ParseEx(cfg, Enter(m), Text(v, 0, f)) == ParseEx(cfg, m, Text(v, 0, f))
  {
    hide Run, Text;
  }

  lemma FeedEnters(cfg: Config, m: Tok, chunks: seq<string>)
    requires chunks != []
    ensures Feed(cfg, m, chunks) == Feed(cfg, Enter(m), chunks)
    ensures forall k :: 0 < k <= |chunks| ==> Feed(cfg, m, chunks[..k]) == Feed(cfg, Enter(m), chunks[..k])
  {
  }

  /** Inside a number a cut can be noticed: in one piece "1-5 " is an error, but
      cut behind the 1 it is read as the integer 1. */
  lemma CutNumberExample(cfg: Config)
    requires cfg.maxDepth >= 1
    ensures ParseEx(cfg, INITIAL, "1-5 ").err == ErrNumber
    ensures Feed(cfg, INITIAL, ["1", "-5 "]).err == Success && Feed(cfg, INITIAL, ["1", "-5 "]).value == Int(1)
  {
    hide Run, ParseEx;
    NumberInOnePiece(cfg);
    NumberInTwoPieces(cfg);
    assert ["1", "-5 "][1..] == ["-5 "];
  }

  lemma NumberInOnePiece(cfg: Config)
    requires cfg.maxDepth >= 1
    ensures ParseEx(cfg, INITIAL, "1-5 ").err == ErrNumber
  {
    hide Run, Step, OnNumberEnd;
    var m := NumberStarts(cfg, INITIAL, '1', "-5 ");
    assert "1-5 "[1..] == "-5 ";
    RunAdvance(cfg, INITIAL, "1-5 ", m);
    MinusRefused(cfg, m, "-5 ");
  }

  lemma NumberInTwoPieces(cfg: Config)
    requires cfg.maxDepth >= 1
    ensures ParseEx(cfg, INITIAL, "1").err == Continue
    ensures var r := ParseEx(cfg, ParseEx(cfg, INITIAL, "1").m, "-5 "); r.err == Success && r.value == Int(1)
  {
    hide Run, Step, OnNumberEnd;
    var m := NumberStarts(cfg, INITIAL, '1', "");
    assert "1"[1..] == "";
    RunAdvance(cfg, INITIAL, "1", m);
    RunEmpty(cfg, m);
    var n := MinusTaken(cfg, m.(loc := NO_LOCALS));
  }

  lemma MinusRefused(cfg: Config, m: Tok, s: string)
    requires m.top.state == Number && m.loc.caseLen == 1 && m.loc.negLoc == 1 && s != "" && s[0] == '-'
    ensures Run(cfg, m, s).err == ErrNumber && !Run(cfg, m, s).nul && Run(cfg, m, s).m.top == m.top
  {
  }

  lemma MinusTaken(cfg: Config, m: Tok) returns (n: Tok)
    requires m.top == FRESH.(state := Number) && m.below == [] && m.loc == NO_LOCALS && m.pb == "1" && !m.isDouble
    requires m.obj == Null
    ensures Run(cfg, m, "-5 ") == End(n, Success, false, "")
    ensures n.top == Rec(EatWs, Finish, Int(1), None) && n.below == []
  {
    hide Run, Step, OnNumberEnd;
    NumberChars('-');
    NumberChars('5');
    var m1 := m.(pb := "1-", loc := m.loc.(caseLen := 1));
    var m2 := m.(pb := "1-5", loc := m.loc.(caseLen := 2));
    assert m.pb + "-" == "1-" && m1.pb + "5" == "1-5";
    StepAdvance(cfg, m, '-', "5 ", m1);
    StepAdvance(cfg, m1, '5', " ", m2);
    assert "-5 "[1..] == "5 " && "5 "[1..] == " " && " "[1..] == "";
    RunAdvance(cfg, m, "-5 ", m1);
    RunAdvance(cfg, m1, "5 ", m2);
    n := m2.(loc := NO_LOCALS).Done(Int(1));
    SpaceEndsNumber(cfg, m2, n);
    RunAdvance(cfg, m2, " ", n);
    RunEmpty(cfg, n);
  }

  lemma SpaceEndsNumber(cfg: Config, m: Tok, n: Tok)
    requires m.top == FRESH.(state := Number) && m.pb == "1-5" && !m.isDouble
    requires n == m.(loc := NO_LOCALS).Done(Int(1))
    ensures Step(cfg, m, ' ', "") == Advance(n, 1)
  {
    hide Step;
    NumberChars(' ');
    assert ParseInt64("1-5") == Some(1) by {
      assert DigitsValue("-5", 1) == 1;
    }
    assert OnNumberEnd(cfg, m, ' ') == Redo(n);
    StepRedo(cfg, m, n, ' ', "");
    StepAdvance(cfg, n, ' ', "", n);
  }

  /** In front of the fourth digit of the escape D83D. */
  ghost predicate BeforeLastDigit(m: Tok) {
    && m == INITIAL.(top := m.top, ucs := 0xD830, stPos := 3, quote := '"')
    && m.top == FRESH.(state := EscapeUnicode, saved := StringState)
  }

  lemma ReadsOn(cfg: Config, m: Tok, c: char, n: Tok, t: string)
    requires c != '\0' && Step(cfg, m, c, t) == Advance(n, 1)
    ensures Run(cfg, m, [c] + t) == Run(cfg, n, t)
  {
    hide Run, Step;
    assert ([c] + t)[1..] == t;
    RunAdvance(cfg, m, [c] + t, n);
  }

  lemma CutPairIntro(cfg: Config, t: string) returns (n: Tok)
    ensures Run(cfg, INITIAL, "\"" + ("\\" + ("u" + t))) == Run(cfg, n, t)
    ensures n == INITIAL.(quote := '"', top := FRESH.(state := EscapeUnicode, saved := StringState))
  {
    hide Run, Step;
    var m1 := INITIAL.(quote := '"').Go(StringState);
    StartStep(cfg, INITIAL, '"', "\\" + ("u" + t));
    StepAdvance(cfg, INITIAL.Go(Start), '"', "\\" + ("u" + t), m1);
    ReadsOn(cfg, INITIAL, '"', m1, "\\" + ("u" + t));
    n := CutPairBackslash(cfg, m1, t);
  }

  lemma CutPairBackslash(cfg: Config, m: Tok, t: string) returns (n: Tok)
    requires m == INITIAL.(quote := '"').Go(StringState)
    ensures Run(cfg, m, "\\" + ("u" + t)) == Run(cfg, n, t)
    ensures n == m.(top := FRESH.(state := EscapeUnicode, saved := StringState))
  {
    hide Run, Step;
    var k := m.(top := m.top.(state := StringEscape, saved := StringState));
    StepAdvance(cfg, m, '\\', "u" + t, k);
    ReadsOn(cfg, m, '\\', k, "u" + t);
    n := k.Go(EscapeUnicode);
    StepAdvance(cfg, k, 'u', t, n);
    ReadsOn(cfg, k, 'u', n, t);
  }

  lemma CutPairDigit(cfg: Config, m: Tok, c: char, t: string)
    requires m.top.state == EscapeUnicode && m.stPos < 3 && IsHexOrNul(c) && c != '\0'
    ensures Run(cfg, m, [c] + t) == Run(cfg, AddedDigit(m, c), t)
  {
    hide Run, Step, HexDigit, Pow16, IsHexOrNul;
    StepAdvance(cfg, m, c, t, AddedDigit(m, c));
    ReadsOn(cfg, m, c, AddedDigit(m, c), t);
  }

  lemma CutPairDigits(cfg: Config, m: Tok, t: string) returns (n: Tok)
    requires m.top.state == EscapeUnicode && m.stPos == 0 && m.ucs == 0
    ensures Run(cfg, m, "D" + ("8" + ("3" + t))) == Run(cfg, n, t) && n == m.(ucs := 0xD830, stPos := 3)
  {
    hide Run, AddedDigit;
    var m1, m2 := m.(ucs := 0xD000, stPos := 1), m.(ucs := 0xD800, stPos := 2);
    n := m.(ucs := 0xD830, stPos := 3);
    CutPairUnits(m);
    CutPairDigit(cfg, m, 'D', "8" + ("3" + t));
    CutPairDigit(cfg, m1, '8', "3" + t);
    CutPairDigit(cfg, m2, '3', t);
  }

  lemma CutPairUnits(m: Tok)
    requires m.stPos == 0 && m.ucs == 0
    ensures AddedDigit(m, 'D') == m.(ucs := 0xD000, stPos := 1)
    ensures AddedDigit(m.(ucs := 0xD000, stPos := 1), '8') == m.(ucs := 0xD800, stPos := 2)
    ensures AddedDigit(m.(ucs := 0xD800, stPos := 2), '3') == m.(ucs := 0xD830, stPos := 3)
  {
    assert Pow16(1) == 16 && Pow16(2) == 256 && Pow16(3) == 4096;
  }

  lemma CutPairLast(cfg: Config, m: Tok)
    requires BeforeLastDigit(m)
    ensures Run(cfg, m, "D\\u") == End(m.(ucs := 0xD83D, stPos := 4, pb := REPLACEMENT), Continue, false, "")
  {
    hide Step;
    assert "D\\u"[1..] == "\\u" && "D\\u"[3..] == "";
    assert Pow16(0) == 1 && HexDigit('D') == 13;
    var n := m.(ucs := 0xD83D, stPos := 4);
    assert AddedDigit(m, 'D') == n;
    assert OnFourDigits(n, 'D', "\\u") == Stop(n.(pb := REPLACEMENT), Continue, 3);
    CompleteDigits(m, 'D', "\\u");
    EscapeStep(cfg, m, 'D', "\\u");
  }

  lemma CutPairFirst(cfg: Config)
    ensures var r := ParseEx(cfg, INITIAL, "\"\\uD83D\\u"); r.err == Continue && !NoCutPair(r.m)
  {
    hide Run;
    var la := "D\\u";
    var m := CutPairIntro(cfg, "D" + ("8" + ("3" + la)));
    var n := CutPairDigits(cfg, m, la);
    assert "\"" + ("\\" + ("u" + ("D" + ("8" + ("3" + la))))) == "\"\\uD83D\\u";
    CutPairLast(cfg, n);
    assert Enter(INITIAL) == INITIAL;
  }

  /** The surrogate pair D83D DE00 cut behind the second `u`: the first digit of the
      next chunk is shifted by minus four bits.  In one piece it is not. */
  lemma CutPairExample(cfg: Config)
    requires cfg.maxDepth >= 1
    ensures Feed(cfg, INITIAL, ["\"\\uD83D\\u", "DE00"]).err == Undefined
    ensures ParseEx(cfg, INITIAL, "\"\\uD83D\\uDE00").err != Undefined
  {
    hide Run, ParseEx;
    var a, b := "\"\\uD83D\\u", "DE00";
    CutPairFirst(cfg);
    CallKeepsContinue(cfg, INITIAL, a);
    CallDefined(cfg, ParseEx(cfg, INITIAL, a).m, b);
    assert [a, b][1..] == [b] && b[0] == HEX_CHARS[19];
    CallDefined(cfg, INITIAL, "\"\\uD83D\\uDE00");
  }

  /** The text `"\uD83` up to any rest. */
  lemma NulPairStart(cfg: Config, t: string) returns (n: Tok)
    ensures Run(cfg, INITIAL, "\"\\uD83" + t) == Run(cfg, n, t)
    ensures n.top.state == EscapeUnicode && n.stPos == 3 && n.ucs == 0xD830 && n.loc == NO_LOCALS
  {
    hide Run;
    var m := CutPairIntro(cfg, "D" + ("8" + ("3" + t)));
    n := CutPairDigits(cfg, m, t);
    assert "\"" + ("\\" + ("u" + ("D" + ("8" + ("3" + t))))) == "\"\\uD83" + t;
  }

  lemma NulIsDigit(m: Tok)
    requires m.top.state == EscapeUnicode && m.stPos == 3 && m.ucs == 0xD830 && m.loc == NO_LOCALS
    ensures CompletesHigh(m, '\0')
  {
    assert Pow16(0) == 1 && HexDigit('\0') == -48;
    assert AddedDigit(m, '\0') == m.(ucs := 0xD800, stPos := 4);
  }

  /** The NUL behind `"\uD83` is taken for the last digit of the high surrogate D800, and
      what follows it in memory decides where the call stops. */
  lemma BehindTheNulExample(cfg: Config)
    requires cfg.maxDepth >= 1
    ensures ParseEx(cfg, INITIAL, "\"\\uD83\0" + "\\u") != ParseEx(cfg, INITIAL, "\"\\uD83\0")
  {
    hide Run;
    var n := NulPairStart(cfg, "\0");
    var n' := NulPairStart(cfg, "\0\\u");
    assert "\"\\uD83" + "\0" == "\"\\uD83\0" && "\"\\uD83" + "\0\\u" == "\"\\uD83\0" + "\\u";
    NulIsDigit(n);
    NulIsDigit(n');
    NulBehindPair(cfg, n);
    NulBehindPair(cfg, n');
    assert Enter(INITIAL) == INITIAL;
  }
}
