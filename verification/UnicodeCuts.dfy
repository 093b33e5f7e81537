/** Chunks that end inside the second escape of a surrogate pair. */
module UnicodeCuts {
  import opened Json
  import opened TokenerSpec
  import opened Reading
  import opened Unicode

  /** The first `i` digits of an escape. */
  function PartValue(d: string, i: nat): (v: nat)
    requires IsHex4(d) && i <= 3
    ensures v <= 0xFFF0
  {
    (if i > 0 then HexValue(d[0]) * 0x1000 else 0) + (if i > 1 then HexValue(d[1]) * 0x100 else 0)
    + (if i > 2 then HexValue(d[2]) * 0x10 else 0)
  }

  lemma NextPart(d: string, i: nat)
    requires IsHex4(d) && i < 3
    ensures PartValue(d, i + 1) == PartValue(d, i) + HexValue(d[i]) * Pow16(3 - i)
  {
    hide HexValue;
    SmallPowers();
  }

  lemma {:induction false} MoreDigits(cfg: Config, m: Tok, d: string, i: nat, j: nat, rest: string) returns (n: Tok)
    requires IsHex4(d) && i <= j <= 3 && m.top.state == EscapeUnicode && m.stPos == i && m.ucs == PartValue(d, i)
    ensures Run(cfg, m, d[i..j] + rest) == Run(cfg, n, rest)
    ensures n == m.(stPos := j, ucs := PartValue(d, j))
    decreases j - i
  {
    hide Run, Step, Switch, HexValue, PartValue, Pow16;
    if i == j {
      n := m;
      assert d[i..j] + rest == rest;
    } else {
      NextPart(d, i);
      var m1 := m.(stPos := i + 1, ucs := PartValue(d, i + 1));
      DigitStep(cfg, m, d[i], m1, d[i + 1..j] + rest);
      n := MoreDigits(cfg, m1, d, i + 1, j, rest);
      assert [d[i]] + (d[i + 1..j] + rest) == d[i..j] + rest;
    }
  }

  lemma FirstEscape(cfg: Config, m: Tok, t: string) returns (n: Tok)
    requires m.top == FRESH && m.below == [] && m.loc == NO_LOCALS && m.obj == Null
    ensures Run(cfg, m, "\"" + ("\\u" + t)) == Run(cfg, n, t)
    ensures AtEscape(n) && n.top.saved == StringState && n.quote == '"' && n.below == [] && n.pb == "" && n.loc.hi == 0
  {
    hide Run, Reads;
    var m1 := ReadOpenQuote(cfg, m, "\\u" + t);
    ReadsIsRun(cfg, m, "\"", m1, "\\u" + t);
    n := EscapeIntroRun(cfg, m1, t);
  }

  /** The first call: up to the j-th digit of the escape behind a high surrogate. */
  lemma CutFirst(cfg: Config, m: Tok, h: string, d: string, j: nat) returns (n: Tok)
    requires m.top == FRESH && m.below == [] && IsHex4(h) && IsHigh(UnitOf(h)) && IsHex4(d) && 0 < j <= 3
    ensures var r := ParseEx(cfg, m, "\"\\u" + h + "\\u" + d[..j]); r.err == Continue && r.m == n
    ensures n.top.state == EscapeUnicode && n.top.saved == StringState && n.quote == '"' && n.below == []
    ensures n.loc == NO_LOCALS && n.stPos == j && n.ucs == PartValue(d, j) && n.pb == REPLACEMENT
  {
    hide Run, Reads, UnitOf, HexValue, PartValue, Step, IsHighSurrogate, DecodeSurrogatePair, IsLowSurrogate;
    var la := "\\u" + d[..j];
    assert "\"\\u" + h + "\\u" + d[..j] == "\"" + ("\\u" + (h + la));
    var m2 := FirstEscape(cfg, Enter(m), h + la);
    SurrogateTests(UnitOf(h));
    assert |la| > 2 && la[2..] == d[..j];
    var m3 := UnitRun(cfg, m2, h, la);
    FirstPart(d);
    assert d[0..j] == d[..j] && d[..j] + "" == d[..j];
    var m4 := MoreDigits(cfg, m3, d, 0, j, "");
    n := Pending(m4).(loc := NO_LOCALS);
    RunOut(cfg, m4);
    assert "" + REPLACEMENT == REPLACEMENT;
  }

  lemma FirstPart(d: string)
    requires IsHex4(d)
    ensures PartValue(d, 0) == 0 && PartValue(d, 3) == FirstThree(d)
  {
  }

  lemma RunOut(cfg: Config, m: Tok)
    requires m.top.state == EscapeUnicode
    ensures Run(cfg, m, "") == End(Pending(m).(loc := NO_LOCALS), Continue, false, "")
  {
  }

  /** The second call: the other digits and the end of the string. */
  lemma CutSecond(cfg: Config, m: Tok, d: string, j: nat)
    requires m.top.state == EscapeUnicode && m.top.saved == StringState && m.quote == '"' && m.below == []
    requires IsHex4(d) && 0 < j <= 3 && m.loc == NO_LOCALS && m.stPos == j && m.ucs == PartValue(d, j)
    ensures var r := ParseEx(cfg, m, d[j..] + "\"\0");
      r.err == Success &&
      r.value == Str(m.pb + if ActsHigh(UnitOf(d)) then REPLACEMENT else Encode(UnitOf(d)))
  {
    hide Run, Step, UnitOf, FirstThree, HexValue, PartValue, OnFourDigits, Encode, IsHighSurrogate;
    var u, end := UnitOf(d), "\"\0";
    var m0 := Enter(m);
    FirstPart(d);
    var m3 := MoreDigits(cfg, m0, d, j, 3, [d[3]] + end);
    assert d[j..3] + ([d[3]] + end) == d[j..] + end;
    FourthDigit(cfg, m3, d, end);
    HexDigitRange(d[3]);
    UnitDone(m3.(stPos := 4, ucs := u), d[3], end, "", u);
    var bytes := if ActsHigh(u) then REPLACEMENT else Encode(u);
    var n := m3.(pb := m3.pb + bytes, stPos := 4, ucs := u).Go(StringState);
    assert ([d[3]] + end)[1..] == end && m3.pb + "" == m3.pb;
    RunSkips(cfg, m3, [d[3]] + end, n, 1);
    QuoteThenNul(cfg, n);
  }

  /** When a chunk ends inside the escape behind a high surrogate, the surrogate is lost and the
      other escape is read for itself: of a pair two replacement characters are left. */
  lemma CutInsidePair(cfg: Config, m: Tok, h: string, d: string, j: nat)
    requires m.top == FRESH && m.below == [] && IsHex4(h) && IsHigh(UnitOf(h)) && IsHex4(d) && 0 < j <= 3
    ensures var u := UnitOf(d);
      var r := ParseEx(cfg, m, "\"\\u" + h + "\\u" + d[..j]);
      var r2 := ParseEx(cfg, r.m, d[j..] + "\"\0");
      && r.err == Continue && r2.err == Success
      && r2.value == Str(Utf8(FFFD) + Utf8(if IsHigh(u) || IsLow(u) then FFFD else u))
  {
    hide ParseEx, UnitOf, Utf8, Encode;
    var n := CutFirst(cfg, m, h, d, j);
    CutSecond(cfg, n, d, j);
    SurrogateTests(UnitOf(d));
    Utf8OfReplacement();
    if !ActsHigh(UnitOf(d)) { EncodeIsUtf8(UnitOf(d)); }
  }
}
