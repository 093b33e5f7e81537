/**
 The `\u` decoder of the tokener against UTF-8 as RFC 3629 defines it and the
 pairing of surrogates of section 7 of RFC 8259.
 */
module Unicode {
  import opened Json
  import opened PrintSpec
  import opened TokenerSpec
  import opened Reading
  import opened TokenerSafety

  // ----- UTF-8 -----

  predicate IsScalar(cp: nat) {
    cp < 0xD800 || 0xE000 <= cp < 0x11_0000
  }

  /** The table of section 3 of RFC 3629. */
  function Utf8(cp: nat): (s: string)
    requires IsScalar(cp)
    ensures 1 <= |s| <= 4
  {
    if cp < 0x80 then [cp as char]
    else if cp < 0x800 then [(0xC0 + cp / 0x40) as char, (0x80 + cp % 0x40) as char]
    else if cp < 0x1_0000 then
      [(0xE0 + cp / 0x1000) as char, (0x80 + cp / 0x40 % 0x40) as char, (0x80 + cp % 0x40) as char]
    else
      [(0xF0 + cp / 0x4_0000) as char, (0x80 + cp / 0x1000 % 0x40) as char,
       (0x80 + cp / 0x40 % 0x40) as char, (0x80 + cp % 0x40) as char]
  }

  ghost predicate AllScalar(cps: seq<nat>) {
    forall i :: 0 <= i < |cps| ==> IsScalar(cps[i])
  }

  function Utf8All(cps: seq<nat>): string
    requires AllScalar(cps)
  {
    if cps == [] then "" else Utf8(cps[0]) + Utf8All(cps[1..])
  }

  predicate IsTail(c: char) {
    0x80 <= c as int < 0xC0
  }

  /** The first code point of `s` with the number of bytes it takes, or `None`
      if `s` does not start with a well-formed sequence: no overlong forms, no
      surrogates, nothing above U+10FFFF (section 4 of RFC 3629). */
  function DecodeFirst(s: string): (r: Option<(nat, nat)>)
    ensures r.Some? ==> 0 < r.value.1 <= |s|
  {
    if s == "" then None
    else
      var b := s[0] as int;
      if b < 0x80 then Some((b, 1))
      else if 0xC0 <= b < 0xE0 && |s| >= 2 && IsTail(s[1]) then
        var cp := (b - 0xC0) * 0x40 + (s[1] as int - 0x80);
        if cp >= 0x80 then Some((cp, 2)) else None
      else if 0xE0 <= b < 0xF0 && |s| >= 3 && IsTail(s[1]) && IsTail(s[2]) then
        var cp := (b - 0xE0) * 0x1000 + (s[1] as int - 0x80) * 0x40 + (s[2] as int - 0x80);
        if cp >= 0x800 && IsScalar(cp) then Some((cp, 3)) else None
      else if 0xF0 <= b < 0xF8 && |s| >= 4 && IsTail(s[1]) && IsTail(s[2]) && IsTail(s[3]) then
        var cp := (b - 0xF0) * 0x4_0000 + (s[1] as int - 0x80) * 0x1000 + (s[2] as int - 0x80) * 0x40
                  + (s[3] as int - 0x80);
        if cp >= 0x1_0000 && IsScalar(cp) then Some((cp, 4)) else None
      else None
  }

  /** A strict UTF-8 decoder. */
  function DecodeUtf8(s: string): Option<seq<nat>>
    decreases |s|
  {
    if s == "" then Some([])
    else
      match DecodeFirst(s)
      case None => None
      case Some(p) =>
        match DecodeUtf8(s[p.1..])
        case None => None
        case Some(cps) => Some([p.0] + cps)
  }

  lemma TwoDigits(cp: nat)
    ensures cp == cp / 0x40 * 0x40 + cp % 0x40
    ensures cp / 0x40 == cp / 0x1000 * 0x40 + cp / 0x40 % 0x40
    ensures cp / 0x1000 == cp / 0x4_0000 * 0x40 + cp / 0x1000 % 0x40
  {
  }

  lemma DecodeFirstOfUtf8(cp: nat, rest: string)
    requires IsScalar(cp)
    ensures DecodeFirst(Utf8(cp) + rest) == Some((cp, |Utf8(cp)|))
  {
    if cp < 0x800 {
      DecodeShort(cp, Utf8(cp) + rest);
    } else if cp < 0x1_0000 {
      DecodeThree(cp, Utf8(cp) + rest);
    } else {
      DecodeFour(cp, Utf8(cp) + rest);
    }
  }

  lemma DecodeShort(cp: nat, s: string)
    requires cp < 0x800 && Utf8(cp) <= s
    ensures DecodeFirst(s) == Some((cp, |Utf8(cp)|))
  {
  }

  lemma DecodeThree(cp: nat, s: string)
    requires 0x800 <= cp < 0x1_0000 && IsScalar(cp) && Utf8(cp) <= s
    ensures DecodeFirst(s) == Some((cp, 3)) && |Utf8(cp)| == 3
  {
  }

  lemma DecodeFour(cp: nat, s: string)
    requires 0x1_0000 <= cp < 0x11_0000 && Utf8(cp) <= s
    ensures DecodeFirst(s) == Some((cp, 4)) && |Utf8(cp)| == 4
  {
    TwoDigits(cp);
    var t := Utf8(cp);
    assert s[0] == t[0] && s[1] == t[1] && s[2] == t[2] && s[3] == t[3];
    assert s[0] as int == 0xF0 + cp / 0x4_0000;
  }

  /** The decoder inverts the encoder on every sequence of scalar values. */
  lemma {:induction false} Utf8RoundTrip(cps: seq<nat>)
    requires AllScalar(cps)
    ensures DecodeUtf8(Utf8All(cps)) == Some(cps)
    decreases |cps|
  {
    if cps != [] {
      DecodeFirstOfUtf8(cps[0], Utf8All(cps[1..]));
      Utf8RoundTrip(cps[1..]);
      var s := Utf8All(cps);
      assert s[|Utf8(cps[0])|..] == Utf8All(cps[1..]);
      assert [cps[0]] + cps[1..] == cps;
    }
  }

  // ----- what escapes mean -----

  /** A UTF-16 code unit. */
  type Unit = u: nat | u < 0x1_0000

  const FFFD: nat := 0xFFFD

  predicate IsHigh(u: nat) {
    0xD800 <= u < 0xDC00
  }

  predicate IsLow(u: nat) {
    0xDC00 <= u < 0xE000
  }

  function PairPoint(h: nat, l: nat): (cp: nat)
    requires IsHigh(h) && IsLow(l)
    ensures 0x1_0000 <= cp < 0x11_0000
  {
    0x1_0000 + (h - 0xD800) * 0x400 + (l - 0xDC00)
  }

  /** The meaning of a run of escapes: pairs are combined, a surrogate that is
      not part of a pair becomes U+FFFD. */
  function Meaning(us: seq<Unit>): (cps: seq<nat>)
    ensures AllScalar(cps)
  {
    if us == [] then []
    else if IsHigh(us[0]) && |us| > 1 && IsLow(us[1]) then
      [PairPoint(us[0], us[1])] + Meaning(us[2..])
    else if IsHigh(us[0]) || IsLow(us[0]) then [FFFD] + Meaning(us[1..])
    else [us[0]] + Meaning(us[1..])
  }

  /** No pair denotes a code point whose low 16 bits look like a surrogate. */
  ghost predicate NoLookalikes(us: seq<Unit>) {
    if us == [] then true
    else if IsHigh(us[0]) && |us| > 1 && IsLow(us[1]) then
      !IsSurrogate16(PairPoint(us[0], us[1])) && NoLookalikes(us[2..])
    else NoLookalikes(us[1..])
  }

  predicate IsSurrogate16(cp: nat) {
    0xD800 <= cp % 0x1_0000 < 0xE000
  }

  // ----- what the tokener makes of them -----

  /** The code points the tokener writes for the units `us`, when `hi` is the
      high surrogate it remembers (0 for none). */
  function Written(us: seq<Unit>, hi: nat): (cps: seq<nat>)
    requires hi < 0x11_0000
    ensures AllScalar(cps)
    decreases |us|
  {
    if us == [] then []
    else
      var low := hi != 0 && IsLowSurrogate(us[0]);
      var u: nat := if low then DecodeSurrogatePair(hi, us[0]) else us[0];
      var lost := if hi != 0 && !low then [FFFD] else [];
      if u >= 0x800 && IsHighSurrogate(u) then
        lost + (if |us| > 1 then Written(us[1..], u) else [FFFD])
      else
        lost + [if IsLowSurrogate(u) then FFFD else u] + Written(us[1..], 0)
  }

  lemma EncodeIsUtf8(u: nat)
    requires u < 0x11_0000 && !(u >= 0x800 && IsHighSurrogate(u))
    ensures IsScalar(if IsLowSurrogate(u) then FFFD else u)
    ensures Encode(u) == Utf8(if IsLowSurrogate(u) then FFFD else u)
  {
    assert Utf8(FFFD) == REPLACEMENT;
  }

  function Bytes(cps: seq<nat>): nat
    requires AllScalar(cps)
  {
    |Utf8All(cps)|
  }

  lemma {:induction false} Utf8AllAppend(a: seq<nat>, b: seq<nat>)
    requires AllScalar(a) && AllScalar(b)
    ensures AllScalar(a + b) && Utf8All(a + b) == Utf8All(a) + Utf8All(b)
    decreases |a|
  {
    hide Utf8;
    if a == [] {
      assert a + b == b;
    } else {
      assert (a + b)[0] == a[0] && (a + b)[1..] == a[1..] + b;
      Utf8AllAppend(a[1..], b);
    }
  }

  lemma BytesCons(cp: nat, cps: seq<nat>)
    requires IsScalar(cp) && AllScalar(cps)
    ensures AllScalar([cp] + cps) && Bytes([cp] + cps) == |Utf8(cp)| + Bytes(cps)
  {
    assert ([cp] + cps)[1..] == cps;
  }

  lemma SurrogateTests(u: nat)
    ensures u < 0x1_0000 ==> (IsHighSurrogate(u) <==> IsHigh(u)) && (IsLowSurrogate(u) <==> IsLow(u))
    ensures IsSurrogate16(u) <==> IsHighSurrogate(u) || IsLowSurrogate(u)
  {
  }

  lemma PairIsDecoded(h: nat, l: nat)
    requires IsHigh(h) && IsLow(l)
    ensures DecodeSurrogatePair(h, l) == PairPoint(h, l)
  {
  }

  /** What is written equals the meaning if no pair has a look-alike, and is
      strictly shorter otherwise. */
  ghost predicate Agrees(written: seq<nat>, meaning: seq<nat>, exact: bool)
    requires AllScalar(written) && AllScalar(meaning)
  {
    if exact then written == meaning else Bytes(written) < Bytes(meaning)
  }

  lemma AgreesCons(cp: nat, written: seq<nat>, meaning: seq<nat>, exact: bool)
    requires IsScalar(cp) && AllScalar(written) && AllScalar(meaning) && Agrees(written, meaning, exact)
    ensures AllScalar([cp] + written) && AllScalar([cp] + meaning) && Agrees([cp] + written, [cp] + meaning, exact)
  {
  }

  /** The low half of a pair has been read. */
  lemma WrittenPair(us: seq<Unit>, hi: nat, cp: nat)
    requires 0 < hi < 0x11_0000 && us != [] && IsLowSurrogate(us[0]) && cp == DecodeSurrogatePair(hi, us[0])
    ensures 0x1_0000 <= cp < 0x11_0000
    ensures Written(us, hi) ==
      if !IsHighSurrogate(cp) then [if IsLowSurrogate(cp) then FFFD else cp] + Written(us[1..], 0)
      else if |us| > 1 then Written(us[1..], cp) else [FFFD]
  {
  }

  lemma Utf8Lengths(cp: nat)
    ensures |Utf8(FFFD)| == 3
    ensures 0x1_0000 <= cp < 0x11_0000 ==> |Utf8(cp)| == 4
  {
  }

  lemma {:induction false} Compare(us: seq<Unit>)
    ensures Agrees(Written(us, 0), Meaning(us), NoLookalikes(us))
    decreases |us|, 0
  {
    if us != [] {
      SurrogateTests(us[0]);
      if IsHigh(us[0]) && |us| > 1 {
        CompareAfterHigh(us[0], us[1..]);
        assert [us[0]] + us[1..] == us;
        assert [] + Written(us[1..], us[0]) == Written(us[1..], us[0]);
      } else {
        Compare(us[1..]);
        var cp := if IsHigh(us[0]) || IsLow(us[0]) then FFFD else us[0];
        AgreesCons(cp, Written(us[1..], 0), Meaning(us[1..]), NoLookalikes(us[1..]));
      }
    }
  }

  lemma {:induction false} CompareAfterHigh(h: Unit, us: seq<Unit>)
    requires IsHigh(h) && us != []
    ensures Agrees(Written(us, h), Meaning([h] + us), NoLookalikes([h] + us))
    decreases |us|, 1
  {
    hide Utf8, Utf8All, PairPoint, IsSurrogate16, DecodeSurrogatePair, IsHighSurrogate, IsLowSurrogate;
    var all := [h] + us;
    assert all[1..] == us && all[2..] == us[1..];
    SurrogateTests(us[0]);
    if IsLow(us[0]) {
      PairIsDecoded(h, us[0]);
      CompareAfterPair(h, us);
    } else {
      Compare(us);
      AgreesCons(FFFD, Written(us, 0), Meaning(us), NoLookalikes(us));
      WrittenNotLow(us, h);
    }
  }

  lemma {:induction false} CompareAfterPair(h: Unit, us: seq<Unit>)
    requires IsHigh(h) && us != [] && IsLow(us[0])
    ensures Agrees(Written(us, h), [PairPoint(h, us[0])] + Meaning(us[1..]),
                   !IsSurrogate16(PairPoint(h, us[0])) && NoLookalikes(us[1..]))
    decreases |us|, 0
  {
    hide Written, Utf8, Utf8All, Meaning, NoLookalikes, PairPoint, DecodeSurrogatePair, IsHighSurrogate,
      IsLowSurrogate, IsSurrogate16;
    var cp, rest := PairPoint(h, us[0]), us[1..];
    PairIsDecoded(h, us[0]);
    SurrogateTests(us[0]);
    SurrogateTests(cp);
    WrittenPair(us, h, cp);
    BytesCons(cp, Meaning(rest));
    Utf8Lengths(cp);
    if IsHighSurrogate(cp) {
      BytesOfReplacement();
      if rest != [] { CompareLookalike(cp, rest); }
    } else {
      Compare(rest);
      AgreesCons(cp, Written(rest, 0), Meaning(rest), NoLookalikes(rest));
      BytesCons(FFFD, Written(rest, 0));
    }
  }

  lemma MeaningLoneLow(us: seq<Unit>)
    requires us != [] && IsLow(us[0])
    ensures Meaning(us) == [FFFD] + Meaning(us[1..])
  {
  }

  lemma BytesOfReplacement()
    ensures Bytes([FFFD]) == 3
  {
    assert Utf8All([FFFD]) == Utf8(FFFD) + Utf8All([]);
  }

  lemma WrittenNotLow(us: seq<Unit>, hi: nat)
    requires 0 < hi < 0x11_0000 && us != [] && !IsLowSurrogate(us[0])
    ensures Written(us, hi) == [FFFD] + Written(us, 0)
  {
  }

  /** A combined code point mistaken for a high surrogate loses bytes. */
  lemma {:induction false} CompareLookalike(hi: nat, us: seq<Unit>)
    requires 0x1_0000 <= hi < 0x11_0000 && us != []
    ensures Bytes(Written(us, hi)) < 4 + Bytes(Meaning(us))
    decreases |us|, 2
  {
    hide Written, Meaning, Utf8, Utf8All, DecodeSurrogatePair, IsHighSurrogate, IsLowSurrogate, IsSurrogate16,
      NoLookalikes;
    var rest := us[1..];
    SurrogateTests(us[0]);
    Utf8Lengths(hi);
    if IsLow(us[0]) {
      var cp := DecodeSurrogatePair(hi, us[0]);
      WrittenPair(us, hi, cp);
      Utf8Lengths(cp);
      MeaningLoneLow(us);
      BytesCons(FFFD, Meaning(rest));
      if IsHighSurrogate(cp) {
        BytesOfReplacement();
        if rest != [] { CompareLookalike(cp, rest); }
      } else {
        Compare(rest);
        BytesCons(if IsLowSurrogate(cp) then FFFD else cp, Written(rest, 0));
      }
    } else {
      Compare(us);
      WrittenNotLow(us, hi);
      BytesCons(FFFD, Written(us, 0));
    }
  }

  /** The decoder is exact exactly when no pair has a look-alike. */
  lemma ExactIffNoLookalikes(us: seq<Unit>)
    ensures DecodeUtf8(Utf8All(Written(us, 0))) == Some(Meaning(us)) <==> NoLookalikes(us)
    ensures DecodeUtf8(Utf8All(Written(us, 0))).Some?
  {
    Utf8RoundTrip(Written(us, 0));
    Compare(us);
  }

  // ----- the escapes as text -----

  predicate IsHex4(d: string) {
    |d| == 4 && forall i :: 0 <= i < 4 ==> d[i] in HEX_CHARS
  }

  lemma HexDigitRange(c: char)
    requires c in HEX_CHARS
    ensures 0 <= HexDigit(c) < 16 && IsHexOrNul(c) && c != '\0'
  {
  }

  /** Digits and letters of either case. */
  lemma HexDigitsMean(i: nat)
    requires i < 16
    ensures HexDigit("0123456789abcdef"[i]) == i && HexDigit("0123456789ABCDEF"[i]) == i
  {
    assert "0123456789abcdef"[i] == if i < 10 then ('0' as int + i) as char else ('a' as int + i - 10) as char;
    assert "0123456789ABCDEF"[i] == if i < 10 then ('0' as int + i) as char else ('A' as int + i - 10) as char;
  }

  function HexValue(c: char): (v: nat)
    requires c in HEX_CHARS
    ensures v < 16 && v == HexDigit(c)
  {
    HexDigitRange(c);
    HexDigit(c)
  }

  function FirstThree(d: string): (v: nat)
    requires IsHex4(d)
    ensures v <= 0xFFF0
  {
    HexValue(d[0]) * 0x1000 + HexValue(d[1]) * 0x100 + HexValue(d[2]) * 0x10
  }

  function UnitOf(d: string): Unit
    requires IsHex4(d)
  {
    FirstThree(d) + HexValue(d[3])
  }

  ghost predicate AllHex4(ds: seq<string>) {
    forall i :: 0 <= i < |ds| ==> IsHex4(ds[i])
  }

  function Units(ds: seq<string>): (us: seq<Unit>)
    requires AllHex4(ds)
    ensures |us| == |ds|
  {
    if ds == [] then [] else [UnitOf(ds[0])] + Units(ds[1..])
  }

  function Escapes(ds: seq<string>): string {
    if ds == [] then "" else "\\u" + ds[0] + Escapes(ds[1..])
  }

  // ----- the automaton on a run of escapes -----

  lemma DigitStep(cfg: Config, m: Tok, d: char, n: Tok, rest: string)
    requires m.top.state == EscapeUnicode && m.stPos < 3 && d in HEX_CHARS
    requires m.ucs + HexValue(d) * Pow16(3 - m.stPos) < 0x1_0000
    requires n == m.(ucs := m.ucs + HexValue(d) * Pow16(3 - m.stPos), stPos := m.stPos + 1)
    ensures Run(cfg, m, [d] + rest) == Run(cfg, n, rest)
  {
    hide Run, Step, HexDigit, Pow16, OnFourDigits;
    HexDigitRange(d);
    assert OnEscapeUnicode(m, d, rest) == Advance(n, 1);
    StepAdvance(cfg, m, d, rest, n);
    assert ([d] + rest)[0] == d && ([d] + rest)[1..] == rest;
    RunAdvance(cfg, m, [d] + rest, n);
  }

  lemma SmallPowers()
    ensures Pow16(0) == 1 && Pow16(1) == 0x10 && Pow16(2) == 0x100 && Pow16(3) == 0x1000
  {
  }

  /** The first three digits of an escape. */
  lemma ThreeDigits(cfg: Config, m: Tok, d: string, rest: string) returns (n: Tok)
    requires m.top.state == EscapeUnicode && m.stPos == 0 && m.ucs == 0 && IsHex4(d)
    ensures Run(cfg, m, d + rest) == Run(cfg, n, [d[3]] + rest)
    ensures n == m.(stPos := 3, ucs := FirstThree(d))
  {
    hide Run, Step, Switch, HexValue, HexDigit, Pow16;
    SmallPowers();
    var m1 := m.(stPos := 1, ucs := HexValue(d[0]) * 0x1000);
    var m2 := m.(stPos := 2, ucs := HexValue(d[0]) * 0x1000 + HexValue(d[1]) * 0x100);
    n := m.(stPos := 3, ucs := FirstThree(d));
    var r3 := [d[3]] + rest;
    DigitStep(cfg, m, d[0], m1, [d[1]] + ([d[2]] + r3));
    DigitStep(cfg, m1, d[1], m2, [d[2]] + r3);
    DigitStep(cfg, m2, d[2], n, r3);
    FourChars(d, rest);
  }

  lemma FourChars(d: string, rest: string)
    requires |d| == 4
    ensures d + rest == [d[0]] + ([d[1]] + ([d[2]] + ([d[3]] + rest)))
  {
  }

  /** The fourth digit completes the unit. */
  lemma FourthDigit(cfg: Config, m: Tok, d: string, la: string)
    requires m.top.state == EscapeUnicode && m.stPos == 3 && IsHex4(d) && m.ucs == FirstThree(d)
    ensures Step(cfg, m, d[3], la) == OnFourDigits(m.(stPos := 4, ucs := UnitOf(d)), d[3], la)
  {
    hide OnFourDigits, HexDigit, FirstThree;
    HexDigitRange(d[3]);
    assert Pow16(0) == 1;
    var m1 := m.(stPos := 4, ucs := UnitOf(d));
    assert OnEscapeUnicode(m, d[3], la) == OnFourDigits(m1, d[3], la);
    FourDigitsNoRedo(m1, d[3], la);
  }

  /** What a completed unit does, in the three situations. */
  lemma UnitDone(m: Tok, c: char, la: string, lost: string, u: nat)
    requires m.stPos == 4 && c != '\0' && m.loc == NO_LOCALS.(hi := m.loc.hi)
    requires var low := m.loc.hi != 0 && IsLowSurrogate(m.ucs);
             u == (if low then DecodeSurrogatePair(m.loc.hi, m.ucs) else m.ucs) &&
             lost == (if m.loc.hi != 0 && !low then REPLACEMENT else "")
    ensures var follows := |la| >= 2 && la[0] == '\\' && la[1] == 'u';
      var high := u >= 0x800 && IsHighSurrogate(u);
      var k := m.(pb := m.pb + lost, loc := NO_LOCALS, ucs := u);
      && (high && follows && |la| > 2 ==>
            OnFourDigits(m, c, la) == Advance(k.(ucs := 0, stPos := 0, loc := NO_LOCALS.(hi := u)), 3))
      && (high && !follows ==> OnFourDigits(m, c, la) == Advance(k.Append(REPLACEMENT).Go(m.top.saved), 1))
      && (!high ==> OnFourDigits(m, c, la) == Advance(k.Append(Encode(u)).Go(m.top.saved), 1))
  {
    hide Encode, DecodeSurrogatePair;
  }

  predicate IsQuote(c: char) {
    c == '"' || c == '\''
  }

  lemma EscapeIntroRun(cfg: Config, m: Tok, rest: string) returns (n: Tok)
    requires (m.top.state == StringState || m.top.state == Field) && IsQuote(m.quote) && m.loc == NO_LOCALS
    ensures Run(cfg, m, "\\u" + rest) == Run(cfg, n, rest)
    ensures n == m.(top := m.top.(state := EscapeUnicode, saved := n.top.saved), ucs := 0, stPos := 0)
    ensures n.top.saved == m.top.state
  {
    hide Run, Step;
    var s: Saved := if m.top.state == StringState then StringState else Field;
    var m1 := m.(top := m.top.(state := StringEscape, saved := s));
    n := m1.(ucs := 0, stPos := 0, loc := NO_LOCALS).Go(EscapeUnicode);
    var t := "u" + rest;
    assert ("\\u" + rest)[0] == '\\' && ("\\u" + rest)[1..] == t && t[0] == 'u' && t[1..] == rest;
    StepAdvance(cfg, m, '\\', t, m1);
    RunAdvance(cfg, m, "\\u" + rest, m1);
    StepAdvance(cfg, m1, 'u', rest, n);
    RunAdvance(cfg, m1, t, n);
  }

  predicate StartsEscape(s: string) {
    |s| >= 2 && s[0] == '\\' && s[1] == 'u'
  }

  lemma RunSkips(cfg: Config, m: Tok, s: string, n: Tok, k: nat)
    requires s != "" && s[0] != '\0' && Step(cfg, m, s[0], s[1..]) == Advance(n, k) && k <= |s|
    ensures Run(cfg, m, s) == Run(cfg, n, s[k..])
  {
  }

  /** The unit that counts: a low surrogate completes the remembered high one. */
  function Combined(hi: nat, unit: Unit): (u: nat)
    requires hi < 0x11_0000
    ensures u < 0x11_0000
  {
    if hi != 0 && IsLowSurrogate(unit) then DecodeSurrogatePair(hi, unit) else unit
  }

  function Lost(hi: nat, unit: Unit): string {
    if hi != 0 && !IsLowSurrogate(unit) then REPLACEMENT else ""
  }

  predicate ActsHigh(u: nat) {
    u >= 0x800 && IsHighSurrogate(u)
  }

  ghost predicate AtEscape(m: Tok) {
    && m.top.state == EscapeUnicode && (m.top.saved == StringState || m.top.saved == Field) && IsQuote(m.quote)
    && m.stPos == 0 && m.ucs == 0 && m.loc == NO_LOCALS.(hi := m.loc.hi) && m.loc.hi < 0x11_0000
  }

  /** One escape: either its unit is remembered as a high surrogate and the next
      escape is entered, or its bytes are written and the string goes on. */
  lemma UnitRun(cfg: Config, m: Tok, d: string, la: string) returns (n: Tok)
    requires AtEscape(m) && IsHex4(d) && la != "\\u"
    ensures var u, lost := Combined(m.loc.hi, UnitOf(d)), Lost(m.loc.hi, UnitOf(d));
      if ActsHigh(u) && StartsEscape(la)
      then Run(cfg, m, d + la) == Run(cfg, n, la[2..]) && n == m.(pb := m.pb + lost, loc := NO_LOCALS.(hi := u))
      else Run(cfg, m, d + la) == Run(cfg, n, la) &&
           n == m.(top := m.top.(state := m.top.saved), loc := NO_LOCALS, stPos := 4, ucs := u,
                   pb := m.pb + lost + if ActsHigh(u) then REPLACEMENT else Encode(u))
  {
    hide Run, Step, Switch, OnFourDigits, Encode, IsHighSurrogate, IsLowSurrogate, DecodeSurrogatePair, FirstThree,
      HexValue;
    var unit, hi := UnitOf(d), m.loc.hi;
    var u, lost := Combined(hi, unit), Lost(hi, unit);
    var m3 := ThreeDigits(cfg, m, d, la);
    FourthDigit(cfg, m3, d, la);
    HexDigitRange(d[3]);
    var s := [d[3]] + la;
    assert s[0] == d[3] && s[1..] == la;
    assert StartsEscape(la) ==> |la| > 2;
    UnitDone(m3.(stPos := 4, ucs := unit), d[3], la, lost, u);
    if ActsHigh(u) && StartsEscape(la) {
      n := m.(pb := m.pb + lost, loc := NO_LOCALS.(hi := u));
      RunSkips(cfg, m3, s, n, 3);
      assert s[3..] == la[2..];
    } else {
      var bytes := if ActsHigh(u) then REPLACEMENT else Encode(u);
      n := m.(pb := m.pb + lost + bytes, loc := NO_LOCALS, stPos := 4, ucs := u).Go(m.top.saved);
      RunSkips(cfg, m3, s, n, 1);
    }
  }

  /** From the first digit of an escape to the end of the run. */
  lemma {:induction false} EscapesRun(cfg: Config, m: Tok, ds: seq<string>, rest: string) returns (n: Tok)
    requires ds != [] && AllHex4(ds) && !StartsEscape(rest) && AtEscape(m)
    ensures Run(cfg, m, ds[0] + (Escapes(ds[1..]) + rest)) == Run(cfg, n, rest)
    ensures n == m.(top := m.top.(state := m.top.saved, saved := n.top.saved), loc := NO_LOCALS, stPos := 4,
                    ucs := n.ucs, pb := m.pb + Utf8All(Written(Units(ds), m.loc.hi)))
    decreases |ds|
  {
    hide Run, Written, Utf8All, Encode, ActsHigh, Combined, Lost, UnitOf, Step, Switch, Escapes;
    var unit, hi, la := UnitOf(ds[0]), m.loc.hi, Escapes(ds[1..]) + rest;
    assert Units(ds)[0] == unit && Units(ds)[1..] == Units(ds[1..]);
    RestStarts(ds, rest);
    var k := UnitRun(cfg, m, ds[0], la);
    var u := Combined(hi, unit);
    WrittenStep(Units(ds), hi, unit, u, Lost(hi, unit));
    if |ds| == 1 {
      n := k;
      assert Units(ds)[1..] == [];
      WrittenNothing(0);
    } else {
      assert ds[1..][1..] == ds[2..];
      var k1 := NextEscape(cfg, k, ActsHigh(u), la);
      n := EscapesRun(cfg, k1, ds[1..], rest);
      var tail := Utf8All(Written(Units(ds[1..]), if ActsHigh(u) then u else 0));
      assert n.pb == k.pb + tail;
      Regroup(m.pb, Lost(hi, unit), Encode(u), tail);
    }
    assert n.pb == m.pb + Utf8All(Written(Units(ds), hi));
  }

  lemma Regroup(a: string, b: string, c: string, d: string)
    ensures a + b + c + d == a + (b + c + d) && a + b + d == a + (b + d)
  {
  }

  /** Into the next escape, if the look-ahead has not taken it there already. */
  lemma NextEscape(cfg: Config, m: Tok, entered: bool, la: string) returns (n: Tok)
    requires StartsEscape(la) && if entered then AtEscape(m)
             else (m.top.state == StringState || m.top.state == Field) && IsQuote(m.quote) && m.loc == NO_LOCALS
    ensures AtEscape(n) && n.loc.hi == m.loc.hi && n.below == m.below && n.pb == m.pb
    ensures n == m.(top := m.top.(state := EscapeUnicode, saved := n.top.saved), ucs := 0, stPos := 0)
    ensures n.top.saved == if entered then m.top.saved else m.top.state
    ensures Run(cfg, m, if entered then la[2..] else la) == Run(cfg, n, la[2..])
  {
    hide Run;
    if entered {
      n := m;
    } else {
      n := EscapeIntroRun(cfg, m, la[2..]);
      assert la == "\\u" + la[2..];
    }
  }

  lemma WrittenNothing(hi: nat)
    requires hi < 0x11_0000
    ensures Utf8All(Written([], hi)) == ""
  {
  }

  /** What follows an escape of the run. */
  lemma RestStarts(ds: seq<string>, rest: string)
    requires ds != [] && AllHex4(ds) && !StartsEscape(rest)
    ensures var la := Escapes(ds[1..]) + rest;
      if |ds| == 1 then la == rest
      else StartsEscape(la) && |la| > 2 && la[2..] == ds[1] + (Escapes(ds[2..]) + rest)
  {
  }

  /** One unit of the run, as bytes. */
  lemma WrittenStep(us: seq<Unit>, hi: nat, unit: Unit, u: nat, lost: string)
    requires us != [] && us[0] == unit && hi < 0x11_0000 && u == Combined(hi, unit) && lost == Lost(hi, unit)
    ensures Utf8All(Written(us, hi)) ==
      if ActsHigh(u) then lost + (if |us| > 1 then Utf8All(Written(us[1..], u)) else REPLACEMENT)
      else lost + Encode(u) + Utf8All(Written(us[1..], 0))
  {
    hide IsHighSurrogate, IsLowSurrogate, DecodeSurrogatePair, Utf8, Encode, Utf8All;
    Utf8OfReplacement();
    var l := if hi != 0 && !IsLowSurrogate(unit) then [FFFD] else [];
    assert Utf8All(l) == lost;
    if ActsHigh(u) {
      Utf8AllAppend(l, if |us| > 1 then Written(us[1..], u) else [FFFD]);
    } else {
      WrittenPlain(us[1..], l, u);
      assert Written(us, hi) == l + [if IsLowSurrogate(u) then FFFD else u] + Written(us[1..], 0);
    }
  }

  lemma WrittenPlain(us: seq<Unit>, l: seq<nat>, u: nat)
    requires AllScalar(l) && u < 0x11_0000 && !ActsHigh(u)
    ensures var cps := l + [if IsLowSurrogate(u) then FFFD else u] + Written(us, 0);
            AllScalar(cps) && Utf8All(cps) == Utf8All(l) + Encode(u) + Utf8All(Written(us, 0))
  {
    hide Written, Utf8, Encode, IsLowSurrogate, IsHighSurrogate, Utf8All;
    EncodeIsUtf8(u);
    var cp := if IsLowSurrogate(u) then FFFD else u;
    Utf8AllAppend(l, [cp]);
    Utf8AllAppend(l + [cp], Written(us, 0));
    Utf8One(cp);
  }

  lemma Utf8OfReplacement()
    ensures Utf8(FFFD) == REPLACEMENT && Utf8All([FFFD]) == REPLACEMENT && Utf8All([]) == ""
  {
    Utf8One(FFFD);
  }

  lemma Utf8One(cp: nat)
    requires IsScalar(cp)
    ensures Utf8All([cp]) == Utf8(cp)
  {
    assert Utf8All([cp]) == Utf8(cp) + Utf8All([]);
  }

  // ----- whole strings -----

  lemma EscapesCons(ds: seq<string>, rest: string)
    requires ds != []
    ensures Escapes(ds) + rest == "\\u" + (ds[0] + (Escapes(ds[1..]) + rest))
  {
  }

  lemma EscapesNil()
    ensures Escapes([]) == ""
  {
  }

  lemma EscapesInString(cfg: Config, m: Tok, ds: seq<string>, rest: string) returns (n: Tok)
    requires m.top.state == StringState && m.quote == '"' && m.loc == NO_LOCALS && m.pb == ""
    requires AllHex4(ds) && !StartsEscape(rest)
    ensures Run(cfg, m, Escapes(ds) + rest) == Run(cfg, n, rest)
    ensures n.top == m.top.(saved := n.top.saved) && n.below == m.below && n.quote == m.quote && n.loc == NO_LOCALS
    ensures n.pb == Utf8All(Written(Units(ds), 0))
  {
    hide Run, Written, Utf8All, Escapes;
    if ds != [] {
      var tail := ds[0] + (Escapes(ds[1..]) + rest);
      var k := EscapeIntroRun(cfg, m, tail);
      n := EscapesRun(cfg, k, ds, rest);
      EscapesCons(ds, rest);
    } else {
      EscapesNil();
      n := m;
      WrittenNothing(0);
      assert Escapes(ds) + rest == rest;
    }
  }

  /** The one-shot parse of a string made of escapes returns the bytes of `Written`. */
  lemma StringOfEscapes(cfg: Config, m: Tok, ds: seq<string>)
    requires m.top == FRESH && m.below == [] && AllHex4(ds)
    ensures var r := ParseEx(cfg, m, "\"" + Escapes(ds) + "\"\0");
            r.err == Success && r.value == Str(Utf8All(Written(Units(ds), 0)))
  {
    hide Run, Written, Utf8All, Reads, Escapes;
    var m0, end := Enter(m), "\"\0";
    var text := Escapes(ds) + end;
    var m1 := ReadOpenQuote(cfg, m0, text);
    var m2 := EscapesInString(cfg, m1, ds, end);
    QuoteThenNul(cfg, m2);
    ReadsIsRun(cfg, m0, "\"", m1, text);
    assert "\"" + Escapes(ds) + "\"\0" == "\"" + text;
  }

  lemma ReadsIsRun(cfg: Config, m: Tok, a: string, n: Tok, rest: string)
    requires Reads(cfg, m, a, n, rest)
    ensures Run(cfg, m, a + rest) == Run(cfg, n, rest)
  {
  }

  lemma QuoteThenNul(cfg: Config, m: Tok)
    requires m.top.state == StringState && m.quote == '"' && m.below == [] && m.loc == NO_LOCALS
    ensures Run(cfg, m, "\"\0") == End(m.Done(Str(m.pb)).Go(Finish), Success, true, "\0")
  {
    hide Step, Run;
    var n := m.Done(Str(m.pb));
    assert "\"\0"[1..] == "\0" && "\0"[1..] == "";
    StepAdvance(cfg, m, '"', "\0", n);
    RunAdvance(cfg, m, "\"\0", n);
    StepRedo(cfg, n, n.Go(Finish), '\0', "");
    RunStops(cfg, n, n.Go(Finish));
  }

  lemma RunStops(cfg: Config, m: Tok, n: Tok)
    requires n.top.state == Finish && n.below == [] && n.loc == NO_LOCALS
    requires Step(cfg, m, '\0', "") == Step(cfg, n, '\0', "")
    ensures Run(cfg, m, "\0") == End(n, Success, true, "\0")
  {
  }

  /** For every run of escapes the tokener returns well-formed UTF-8, and it is
      the encoding of what the escapes mean exactly when no surrogate pair
      denotes a code point whose low 16 bits lie in D800..DFFF. */
  lemma EscapesDecodeExactly(cfg: Config, m: Tok, ds: seq<string>)
    requires m.top == FRESH && m.below == [] && AllHex4(ds)
    ensures var r := ParseEx(cfg, m, "\"" + Escapes(ds) + "\"\0");
      && r.err == Success && r.value.Str? && DecodeUtf8(r.value.s).Some?
      && (DecodeUtf8(r.value.s) == Some(Meaning(Units(ds))) <==> NoLookalikes(Units(ds)))
  {
    hide ParseEx;
    StringOfEscapes(cfg, m, ds);
    ExactIffNoLookalikes(Units(ds));
  }

  lemma LookalikeUnits(ds: seq<string>)
    requires ds == ["D836", "DC00"]
    ensures AllHex4(ds) && Units(ds) == [0xD836, 0xDC00]
  {
    assert UnitOf("D836") == 0xD836 && UnitOf("DC00") == 0xDC00;
  }

  lemma LookalikeWritten(us: seq<Unit>)
    requires us == [0xD836, 0xDC00]
    ensures Meaning(us) == [0x1_D800] && !NoLookalikes(us) && Utf8All(Written(us, 0)) == REPLACEMENT
  {
    assert us[1..] == [0xDC00] && us[2..] == [];
    Utf8OfReplacement();
  }

  /** Such a code point exists: the pair D836 DC00 means U+1D800, a sign of Sutton
      SignWriting, and becomes the replacement character. */
  lemma LookalikeExample(cfg: Config, m: Tok)
    requires m.top == FRESH && m.below == []
    ensures var ds := ["D836", "DC00"];
      && AllHex4(ds) && Meaning(Units(ds)) == [0x1_D800] && !NoLookalikes(Units(ds))
      && ParseEx(cfg, m, "\"" + Escapes(ds) + "\"\0").value == Str(REPLACEMENT)
  {
    hide ParseEx, Escapes;
    var ds := ["D836", "DC00"];
    LookalikeUnits(ds);
    StringOfEscapes(cfg, m, ds);
    LookalikeWritten(Units(ds));
  }
}
