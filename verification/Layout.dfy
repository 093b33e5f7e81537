/**
 What the styles of the printer look like.  The compact text of a value is given by
 joining the texts of its children; every other style is the compact text with white
 space between its characters, and which white space that is depends only on the two
 characters and on the number of brackets that are open.
 */
module Layout {
  import opened Json
  import opened Decimal
  import opened PrintSpec

  // ----- escapes -----

  /** How a character of a string is written: five control characters have a letter, the
      others four hexadecimal digits in lower case. */
  function Written(c: char): string {
    match c as int
    case 8 => "\\b"
    case 9 => "\\t"
    case 10 => "\\n"
    case 12 => "\\f"
    case 13 => "\\r"
    case code =>
      if code < 16 then "\\u000" + ["0123456789abcdef"[code]]
      else if code < 32 then "\\u001" + ["0123456789abcdef"[code - 16]]
      else if c == '"' || c == '\\' || c == '/' then ['\\', c]
      else [c]
  }

  function Spelled(s: string): string {
    if s == "" then "" else Written(s[0]) + Spelled(s[1..])
  }

  lemma CharWritten(c: char)
    requires c != '\0'
    ensures (if NeedsEscape(c) then EscapeChar(c) else [c]) == Written(c)
  {
    if c as int < 32 {
      assert HEX_CHARS[c as int % 16] == "0123456789abcdef"[c as int % 16];
    }
  }

  /** Every character up to the first NUL is written as the table says. */
  lemma {:induction false} EscapeSpells(s: string)
    ensures Escape(s) == Spelled(CStr(s))
  {
    if s != "" && s[0] != '\0' {
      hide EscapeChar, NeedsEscape, Written;
      CharWritten(s[0]);
      EscapeSpells(s[1..]);
      assert CStr(s)[1..] == CStr(s[1..]);
    }
  }

  // ----- the compact text -----

  function Join(ts: seq<string>): string {
    if ts == [] then "" else if |ts| == 1 then ts[0] else ts[0] + "," + Join(ts[1..])
  }

  function Quoted(s: string): string {
    "\"" + Spelled(CStr(s)) + "\""
  }

  function Compact(v: Value): string {
    match v
    case Null => "null"
    case Bool(b) => if b then "true" else "false"
    case Int(n) => PrintInt(n)
    case Double(source) => CStr(source)
    case Infinity(negative) => (if negative then "-" else "") + "Infinity"
    case NaN => "NaN"
    case Str(s) => Quoted(s)
    case Arr(es) => "[" + Join(seq(|es|, i requires 0 <= i < |es| => Compact(es[i]))) + "]"
    case Obj(ms) =>
      "{" + Join(seq(|ms|, i requires 0 <= i < |ms| => Quoted(ms[i].key) + ":" + Compact(ms[i].val))) + "}"
  }

  // ----- white space between two characters -----

  datatype Mode = Outside | Inside | Escaped

  function Next(m: Mode, c: char): Mode {
    match m
    case Outside => if c == '"' then Inside else Outside
    case Inside => if c == '"' then Outside else if c == '\\' then Escaped else Inside
    case Escaped => Inside
  }

  predicate Opens(c: char) {
    c == '[' || c == '{'
  }

  predicate Closes(c: char) {
    c == ']' || c == '}'
  }

  /** Between two characters: inside or outside of quotes, how many brackets are open, and
      the character in front. */
  datatype Spot = Spot(mode: Mode, level: int, prev: char)

  const BEGIN := Spot(Outside, 0, ' ')

  function Past(p: Spot, c: char): Spot {
    var level := if p.mode != Outside then p.level
                 else if Opens(c) then p.level + 1 else if Closes(c) then p.level - 1 else p.level;
    Spot(Next(p.mode, c), level, c)
  }

  function Blanks(c: char, n: int): string {
    if n <= 0 then "" else seq(n, _ => c)
  }

  /** The beginning of a line at a level: a tab or two blanks for each level. */
  function Line(f: Flags, level: int): string {
    if !f.pretty then "" else if f.tab then Blanks('\t', level) else Blanks(' ', 2 * level)
  }

  /** In front of a closing bracket: its line, and one blank.  Behind an opening bracket or a
      comma: one blank, on the line of the child.  Behind a colon: one blank. */
  function Gap(f: Flags, p: Spot, c: char): string {
    var newLine := if f.pretty then "\n" else "";
    var blank := if f.spaced then " " else "";
    if p.mode != Outside then ""
    else if Closes(c) then newLine + Line(f, p.level - 1) + blank
    else if Opens(p.prev) || p.prev == ',' then newLine + blank + Line(f, p.level)
    else if p.prev == ':' then blank
    else ""
  }

  function Spread(f: Flags, p: Spot, s: string): string
    decreases |s|
  {
    if s == "" then "" else Gap(f, p, s[0]) + [s[0]] + Spread(f, Past(p, s[0]), s[1..])
  }

  function Behind(p: Spot, s: string): Spot
    decreases |s|
  {
    if s == "" then p else Behind(Past(p, s[0]), s[1..])
  }

  /** Delete white space outside of quotes. */
  function Squeeze(m: Mode, s: string): string
    decreases |s|
  {
    if s == "" then "" else
    (if m == Outside && IsSpace(s[0]) then "" else [s[0]]) + Squeeze(Next(m, s[0]), s[1..])
  }

  predicate Dense(m: Mode, s: string)
    decreases |s|
  {
    s == "" || (!(m == Outside && IsSpace(s[0])) && Dense(Next(m, s[0]), s[1..]))
  }

  /** No part of the layout. */
  predicate Neutral(c: char) {
    !IsSpace(c) && c != '"' && !Opens(c) && !Closes(c) && c != ',' && c != ':'
  }

  ghost predicate AllNeutral(s: string) {
    forall i :: 0 <= i < |s| ==> Neutral(s[i])
  }

  /** The source texts of doubles, which are copied to the output, look like numbers. */
  ghost predicate Tame(v: Value) {
    match v
    case Double(source) => CStr(source) != "" && AllNeutral(CStr(source))
    case Arr(es) => forall i :: 0 <= i < |es| ==> Tame(es[i])
    case Obj(ms) => forall i :: 0 <= i < |ms| ==> Tame(ms[i].val)
    case _ => true
  }

  /** Without white space of its own, `s` is spread to `t`, and ends at `q`. */
  ghost predicate Lays(f: Flags, p: Spot, s: string, t: string, q: Spot) {
    Dense(p.mode, s) && Spread(f, p, s) == t && Behind(p, s) == q
  }

  lemma {:induction false} LaysThen(f: Flags, p: Spot, a: string, t: string, q: Spot, b: string, u: string, r: Spot)
    requires Lays(f, p, a, t, q) && Lays(f, q, b, u, r)
    ensures Lays(f, p, a + b, t + u, r)
    decreases |a|
  {
    if a == "" {
      assert a + b == b && t + u == u;
    } else {
      var p1, t1 := Past(p, a[0]), Spread(f, Past(p, a[0]), a[1..]);
      LaysThen(f, p1, a[1..], t1, q, b, u, r);
      assert (a + b)[1..] == a[1..] + b;
      assert Gap(f, p, a[0]) + [a[0]] + (t1 + u) == t + u;
    }
  }

  lemma LaysChar(f: Flags, p: Spot, c: char)
    requires !(p.mode == Outside && IsSpace(c))
    ensures Lays(f, p, [c], Gap(f, p, c) + [c], Past(p, c))
  {
    assert [c][1..] == "";
    assert Spread(f, Past(p, c), "") == "" && Behind(Past(p, c), "") == Past(p, c);
    assert Gap(f, p, c) + [c] + "" == Gap(f, p, c) + [c];
  }

  /** Behind a token: no white space follows unless the next character asks for it. */
  ghost predicate Settled(q: Spot, level: int) {
    q.mode == Outside && q.level == level && !Opens(q.prev) && q.prev != ',' && q.prev != ':'
  }

  lemma {:induction false} LaysNeutral(f: Flags, p: Spot, s: string) returns (q: Spot)
    requires p.mode == Outside && s != "" && AllNeutral(s)
    ensures Lays(f, p, s, Gap(f, p, 'x') + s, q) && Settled(q, p.level)
    decreases |s|
  {
    hide Lays;
    LaysChar(f, p, s[0]);
    var p1 := Past(p, s[0]);
    assert Gap(f, p, s[0]) == Gap(f, p, 'x') && Settled(p1, p.level);
    q := p1;
    if |s| == 1 {
      assert s == [s[0]];
    } else {
      q := LaysNeutral(f, p1, s[1..]);
      assert Gap(f, p1, 'x') == "";
      hide Gap;
      LaysAfter(f, p, [s[0]], Gap(f, p, 'x') + [s[0]], p1, s[1..], q);
      assert [s[0]] + s[1..] == s;
      assert Gap(f, p, 'x') + [s[0]] + s[1..] == Gap(f, p, 'x') + s;
    }
  }

  /** As `LaysThen`, when nothing is put in front of the second part. */
  lemma LaysAfter(f: Flags, p: Spot, a: string, t: string, q: Spot, b: string, r: Spot)
    requires Lays(f, p, a, t, q) && Lays(f, q, b, "" + b, r)
    ensures Lays(f, p, a + b, t + b, r)
  {
    assert "" + b == b;
    LaysThen(f, p, a, t, q, b, b, r);
  }

  // ----- quoted strings -----

  ghost predicate InQuotes(p: Spot, level: int) {
    p.mode == Inside && p.level == level
  }

  lemma {:induction false} LaysPlain(f: Flags, p: Spot, s: string) returns (q: Spot)
    requires p.mode == Inside && forall i :: 0 <= i < |s| ==> s[i] != '"' && s[i] != '\\'
    ensures Lays(f, p, s, s, q) && InQuotes(q, p.level)
    decreases |s|
  {
    q := p;
    if s != "" {
      LaysChar(f, p, s[0]);
      var r := LaysPlain(f, Past(p, s[0]), s[1..]);
      assert "" + [s[0]] == [s[0]] && [s[0]] + s[1..] == s;
      LaysThen(f, p, [s[0]], [s[0]], Past(p, s[0]), s[1..], s[1..], r);
      q := r;
    }
  }

  lemma HexIsPlain(i: nat)
    requires i < 16
    ensures HEX_CHARS[i] != '"' && HEX_CHARS[i] != '\\'
  {
  }

  /** One escape: a backslash, whatever follows it, and characters that mean nothing. */
  lemma LaysEscape(f: Flags, p: Spot, c: char) returns (q: Spot)
    requires p.mode == Inside && NeedsEscape(c)
    ensures Lays(f, p, EscapeChar(c), EscapeChar(c), q) && InQuotes(q, p.level)
  {
    var e := EscapeChar(c);
    if c < ' ' { HexIsPlain(c as int / 16); HexIsPlain(c as int % 16); }
    LaysChar(f, p, e[0]);
    var p1 := Past(p, e[0]);
    LaysChar(f, p1, e[1]);
    var p2 := Past(p1, e[1]);
    q := LaysPlain(f, p2, e[2..]);
    assert "" + [e[0]] == [e[0]] && "" + [e[1]] == [e[1]];
    LaysThen(f, p1, [e[1]], [e[1]], p2, e[2..], e[2..], q);
    LaysThen(f, p, [e[0]], [e[0]], p1, [e[1]] + e[2..], [e[1]] + e[2..], q);
    assert [e[0]] + ([e[1]] + e[2..]) == e;
  }

  lemma {:induction false} LaysEscaped(f: Flags, p: Spot, s: string) returns (q: Spot)
    requires p.mode == Inside
    ensures Lays(f, p, Escape(s), Escape(s), q) && InQuotes(q, p.level)
    decreases |s|
  {
    q := p;
    if s != "" && s[0] != '\0' {
      var first := if NeedsEscape(s[0]) then EscapeChar(s[0]) else [s[0]];
      var p1;
      if NeedsEscape(s[0]) {
        p1 := LaysEscape(f, p, s[0]);
      } else {
        p1 := LaysPlain(f, p, first);
      }
      q := LaysEscaped(f, p1, s[1..]);
      LaysThen(f, p, first, first, p1, Escape(s[1..]), Escape(s[1..]), q);
    }
  }

  lemma LaysQuoted(f: Flags, p: Spot, s: string) returns (q: Spot)
    requires p.mode == Outside
    ensures Lays(f, p, Quoted(s), Gap(f, p, 'x') + Quoted(s), q) && Settled(q, p.level)
  {
    EscapeSpells(s);
    hide Escape, Spelled, Lays;
    LaysChar(f, p, '"');
    var p1 := Past(p, '"');
    assert p1.mode == Inside && Gap(f, p, '"') == Gap(f, p, 'x');
    var p2 := LaysEscaped(f, p1, s);
    LaysChar(f, p2, '"');
    q := Past(p2, '"');
    assert Gap(f, p2, '"') == "";
    hide Gap;
    LaysAfter(f, p1, Escape(s), Escape(s), p2, "\"", q);
    LaysThen(f, p, "\"", Gap(f, p, 'x') + "\"", p1, Escape(s) + "\"", Escape(s) + "\"", q);
    assert "\"" + (Escape(s) + "\"") == Quoted(s);
    assert Gap(f, p, 'x') + "\"" + (Escape(s) + "\"") == Gap(f, p, 'x') + Quoted(s);
  }

  // ----- brackets -----

  lemma LineIsIndent(f: Flags, level: nat)
    ensures Line(f, level) == Indent(level, f)
  {
    assert Blanks('\t', level) == Repeat('\t', level);
    assert Blanks(' ', 2 * level) == Repeat(' ', 2 * level);
  }

  /** Inside brackets: behind the opening one, or behind a child. */
  ghost predicate InBrackets(p: Spot, level: nat, first: bool) {
    p.mode == Outside && p.level == level + 1 && if first then Opens(p.prev) else Settled(p, level + 1)
  }

  function Comma(first: bool): string {
    if first then "" else ","
  }

  /** What the printer has written behind the opening bracket. */
  function Opened(first: bool, f: Flags): string {
    if first then NewLine(f) else ""
  }

  /** A child, with the comma in front of it. */
  lemma LaysChild(f: Flags, p: Spot, first: bool, s: string, u: string, q: Spot, level: nat)
    requires InBrackets(p, level, first)
    requires var p1 := if first then p else Past(p, ','); Lays(f, p1, s, Gap(f, p1, 'x') + u, q)
    ensures Lays(f, p, Comma(first) + s, Opened(first, f) + Lead(first, level, f) + u, q)
  {
    hide Lays;
    var p1 := if first then p else Past(p, ',');
    LeadIsGap(f, p, first, level);
    if first {
      assert Comma(first) + s == s;
      assert Opened(first, f) + Lead(first, level, f) == Gap(f, p, 'x');
    } else {
      LaysChar(f, p, ',');
      assert Gap(f, p, ',') + "," == ",";
      hide Gap, Lead;
      LaysThen(f, p, ",", ",", p1, s, Gap(f, p1, 'x') + u, q);
      assert Opened(first, f) + Lead(first, level, f) + u == "," + (Gap(f, p1, 'x') + u);
    }
  }

  lemma LeadIsGap(f: Flags, p: Spot, first: bool, level: nat)
    requires InBrackets(p, level, first)
    ensures first ==> Opened(first, f) + Lead(first, level, f) == Gap(f, p, 'x')
    ensures !first ==> Gap(f, p, ',') == "" && Lead(first, level, f) == "," + Gap(f, Past(p, ','), 'x')
  {
    LineIsIndent(f, level + 1);
  }

  lemma LaysClose(f: Flags, p: Spot, empty: bool, level: nat, close: char)
    requires InBrackets(p, level, empty) && Closes(close)
    ensures Lays(f, p, [close], Opened(empty, f) + Tail(empty, level, f) + [close], Past(p, close))
    ensures Settled(Past(p, close), level)
  {
    LineIsIndent(f, level);
    LaysChar(f, p, close);
    assert Opened(empty, f) + Tail(empty, level, f) == Gap(f, p, close);
  }

  lemma LaysOpen(f: Flags, p: Spot, open: char, level: nat)
    requires p.mode == Outside && p.level == level && Opens(open)
    ensures Lays(f, p, [open], Gap(f, p, 'x') + [open], Past(p, open)) && InBrackets(Past(p, open), level, true)
  {
    LaysChar(f, p, open);
  }

  /** The children from the i-th on, with the commas in front of them. */
  function Children(ts: seq<string>, i: nat): string
    requires i <= |ts|
  {
    if i == |ts| then "" else Comma(i == 0) + Join(ts[i..])
  }

  lemma NextChild(ts: seq<string>, i: nat)
    requires i < |ts|
    ensures Children(ts, i) == Comma(i == 0) + ts[i] + Children(ts, i + 1)
  {
    assert ts[i..][1..] == ts[i + 1..];
    if i + 1 < |ts| {
      assert Comma(i == 0) + (ts[i] + "," + Join(ts[i + 1..])) == Comma(i == 0) + ts[i] + ("," + Join(ts[i + 1..]));
    }
  }

  function ElemTexts(es: seq<Value>): (ts: seq<string>)
    ensures |ts| == |es|
  {
    seq(|es|, i requires 0 <= i < |es| => Compact(es[i]))
  }

  function MemberTexts(ms: seq<Member>): (ts: seq<string>)
    ensures |ts| == |ms|
  {
    seq(|ms|, i requires 0 <= i < |ms| => Quoted(ms[i].key) + ":" + Compact(ms[i].val))
  }

  /** The children from the i-th on, and the closing bracket. */
  lemma {:induction false} LaysElems(f: Flags, p: Spot, es: seq<Value>, i: nat, level: nat) returns (q: Spot)
    requires i <= |es| && InBrackets(p, level, i == 0)
    requires forall k :: 0 <= k < |es| ==> Tame(es[k])
    ensures Lays(f, p, Children(ElemTexts(es), i) + "]",
      Opened(i == 0, f) + ElemsText(es, i, level, f) + Tail(es == [], level, f) + "]", q)
    ensures Settled(q, level)
    decreases es, |es| - i
  {
    hide Lays, Tail, Lead, Compact, Text, Join;
    var ts, end := ElemTexts(es), Tail(es == [], level, f) + "]";
    if i == |es| {
      LaysClose(f, p, i == 0, level, ']');
      q := Past(p, ']');
      assert Children(ts, i) + "]" == "]";
      assert Opened(i == 0, f) + "" == Opened(i == 0, f);
    } else {
      NextChild(ts, i);
      var p1 := if i == 0 then p else Past(p, ',');
      var r := LaysValue(f, p1, es[i], level + 1);
      LaysChild(f, p, i == 0, ts[i], Text(es[i], level + 1, f), r, level);
      q := LaysElems(f, r, es, i + 1, level);
      AddChild(f, p, Comma(i == 0) + ts[i], Opened(i == 0, f), Lead(i == 0, level, f), Text(es[i], level + 1, f), r,
        Children(ts, i + 1), ElemsText(es, i + 1, level, f), Tail(es == [], level, f), "]", q);
    }
  }

  lemma AddChild(f: Flags, p: Spot, s: string, nl: string, lead: string, u: string, r: Spot, rest: string,
      t: string, tail: string, close: string, q: Spot)
    requires Lays(f, p, s, nl + lead + u, r) && Lays(f, r, rest + close, "" + t + tail + close, q)
    ensures Lays(f, p, s + rest + close, nl + (lead + u + t) + tail + close, q)
  {
    hide Lays;
    LaysThen(f, p, s, nl + lead + u, r, rest + close, "" + t + tail + close, q);
    assert s + (rest + close) == s + rest + close;
    assert nl + lead + u + ("" + t + tail + close) == nl + (lead + u + t) + tail + close;
  }

  lemma LaysMember(f: Flags, p: Spot, m: Member, level: nat) returns (q: Spot)
    requires p.mode == Outside && p.level == level + 1 && Tame(m.val)
    ensures Lays(f, p, Quoted(m.key) + ":" + Compact(m.val), Gap(f, p, 'x') + MemberText(m, level, f), q)
    ensures Settled(q, level + 1)
    decreases m, 1
  {
    EscapeSpells(m.key);
    hide Lays, Text, Compact, Escape, Spelled;
    var key := Quoted(m.key);
    var p1 := LaysQuoted(f, p, m.key);
    LaysChar(f, p1, ':');
    assert Gap(f, p1, ':') + ":" == ":";
    var p2 := Past(p1, ':');
    q := LaysValue(f, p2, m.val, level + 1);
    LaysThen(f, p, key, Gap(f, p, 'x') + key, p1, ":", ":", p2);
    LaysThen(f, p, key + ":", Gap(f, p, 'x') + key + ":", p2, Compact(m.val),
      Gap(f, p2, 'x') + Text(m.val, level + 1, f), q);
    assert "\":" + Gap(f, p2, 'x') == Colon(f);
    assert Gap(f, p, 'x') + key + ":" + (Gap(f, p2, 'x') + Text(m.val, level + 1, f))
      == Gap(f, p, 'x') + ("\"" + Escape(m.key) + ("\":" + Gap(f, p2, 'x')) + Text(m.val, level + 1, f));
  }

  lemma {:induction false} LaysMembers(f: Flags, p: Spot, ms: seq<Member>, i: nat, level: nat) returns (q: Spot)
    requires i <= |ms| && InBrackets(p, level, i == 0)
    requires forall k :: 0 <= k < |ms| ==> Tame(ms[k].val)
    ensures Lays(f, p, Children(MemberTexts(ms), i) + "}",
      Opened(i == 0, f) + MembersText(ms, i, level, f) + Tail(ms == [], level, f) + "}", q)
    ensures Settled(q, level)
    decreases ms, |ms| - i
  {
    hide Lays, Tail, Lead, Compact, MemberText, Join;
    var ts, end := MemberTexts(ms), Tail(ms == [], level, f) + "}";
    if i == |ms| {
      LaysClose(f, p, i == 0, level, '}');
      q := Past(p, '}');
      assert Children(ts, i) + "}" == "}";
      assert Opened(i == 0, f) + "" == Opened(i == 0, f);
    } else {
      NextChild(ts, i);
      var p1 := if i == 0 then p else Past(p, ',');
      var r := LaysMember(f, p1, ms[i], level);
      LaysChild(f, p, i == 0, ts[i], MemberText(ms[i], level, f), r, level);
      q := LaysMembers(f, r, ms, i + 1, level);
      AddChild(f, p, Comma(i == 0) + ts[i], Opened(i == 0, f), Lead(i == 0, level, f), MemberText(ms[i], level, f), r,
        Children(ts, i + 1), MembersText(ms, i + 1, level, f), Tail(ms == [], level, f), "}", q);
    }
  }

  lemma LaysBrackets(f: Flags, p: Spot, open: char, ts: seq<string>, t: string, close: char, q: Spot)
    requires Lays(f, p, [open], Gap(f, p, 'x') + [open], Past(p, open))
    requires Lays(f, Past(p, open), Children(ts, 0) + [close], t + [close], q)
    ensures Lays(f, p, [open] + Join(ts) + [close], Gap(f, p, 'x') + ([open] + t + [close]), q)
  {
    ChildrenAll(ts);
    hide Lays, Gap, Join, Children;
    LaysThen(f, p, [open], Gap(f, p, 'x') + [open], Past(p, open), Children(ts, 0) + [close], t + [close], q);
    assert [open] + (Join(ts) + [close]) == [open] + Join(ts) + [close];
    assert Gap(f, p, 'x') + [open] + (t + [close]) == Gap(f, p, 'x') + ([open] + t + [close]);
  }

  lemma NumberIsNeutral(n: int)
    ensures AllNeutral(PrintInt(n))
  {
    var t := PrintInt(n);
    assert t == [t[0]] + t[1..];
    assert forall c :: IsDigit(c) || c == '-' ==> Neutral(c);
  }

  /** A value of any style is its compact text, spread. */
  lemma {:induction false} LaysValue(f: Flags, p: Spot, v: Value, level: nat) returns (q: Spot)
    requires p.mode == Outside && p.level == level && Tame(v)
    ensures Lays(f, p, Compact(v), Gap(f, p, 'x') + Text(v, level, f), q)
    ensures Settled(q, level)
    decreases v, 0
  {
    hide Lays, Tail, Join, ElemsText, MembersText, PrintInt, Gap;
    match v
    case Str(s) =>
      EscapeSpells(s);
      q := LaysQuoted(f, p, s);
    case Arr(es) =>
      var t := NewLine(f) + ElemsText(es, 0, level, f) + Tail(es == [], level, f);
      LaysOpen(f, p, '[', level);
      q := LaysElems(f, Past(p, '['), es, 0, level);
      LaysBrackets(f, p, '[', ElemTexts(es), t, ']', q);
      assert Compact(v) == "[" + Join(ElemTexts(es)) + "]";
      assert "[" + t + "]" == Text(v, level, f);
    case Obj(ms) =>
      var t := NewLine(f) + MembersText(ms, 0, level, f) + Tail(ms == [], level, f);
      LaysOpen(f, p, '{', level);
      q := LaysMembers(f, Past(p, '{'), ms, 0, level);
      LaysBrackets(f, p, '{', MemberTexts(ms), t, '}', q);
      assert Compact(v) == "{" + Join(MemberTexts(ms)) + "}";
      assert "{" + t + "}" == Text(v, level, f);
    case _ =>
      WordIsNeutral(v, level, f);
      q := LaysNeutral(f, p, Compact(v));
  }

  lemma ChildrenAll(ts: seq<string>)
    ensures Children(ts, 0) == Join(ts)
  {
    assert ts[0..] == ts;
  }

  lemma WordIsNeutral(v: Value, level: nat, f: Flags)
    requires !v.Str? && !v.Arr? && !v.Obj? && Tame(v)
    ensures Compact(v) == Text(v, level, f) != "" && AllNeutral(Compact(v))
  {
    hide PrintInt, CStr, AllNeutral;
    LettersAreNeutral();
    if v.Int? { NumberIsNeutral(v.n); }
  }

  lemma LettersAreNeutral()
    ensures AllNeutral("null") && AllNeutral("true") && AllNeutral("false") && AllNeutral("NaN")
    ensures AllNeutral("Infinity") && AllNeutral("-Infinity") && "-" + "Infinity" == "-Infinity"
  {
    assert forall c: char :: 'A' <= c <= 'Z' || 'a' <= c <= 'z' || c == '-' ==> Neutral(c);
  }

  // ----- the layout theorem -----

  lemma {:induction false} SqueezeDense(m: Mode, s: string)
    requires Dense(m, s)
    ensures Squeeze(m, s) == s
    decreases |s|
  {
    if s != "" {
      SqueezeDense(Next(m, s[0]), s[1..]);
    }
  }

  ghost predicate AllSpace(s: string) {
    forall i :: 0 <= i < |s| ==> IsSpace(s[i])
  }

  lemma {:induction false} SqueezeSpaces(ws: string, s: string)
    requires AllSpace(ws)
    ensures Squeeze(Outside, ws + s) == Squeeze(Outside, s)
    decreases |ws|
  {
    if ws == "" {
      assert ws + s == s;
    } else {
      assert (ws + s)[1..] == ws[1..] + s && IsSpace((ws + s)[0]);
      assert Next(Outside, ws[0]) == Outside;
      SqueezeSpaces(ws[1..], s);
    }
  }

  lemma GapIsSpace(f: Flags, p: Spot, c: char)
    ensures AllSpace(Gap(f, p, c)) && (p.mode != Outside ==> Gap(f, p, c) == "")
  {
  }

  lemma {:induction false} SqueezeSpread(f: Flags, p: Spot, s: string)
    ensures Squeeze(p.mode, Spread(f, p, s)) == Squeeze(p.mode, s)
    decreases |s|
  {
    if s != "" {
      var t := [s[0]] + Spread(f, Past(p, s[0]), s[1..]);
      assert Spread(f, p, s) == Gap(f, p, s[0]) + t;
      assert t[1..] == Spread(f, Past(p, s[0]), s[1..]);
      GapIsSpace(f, p, s[0]);
      if p.mode == Outside {
        SqueezeSpaces(Gap(f, p, s[0]), t);
      } else {
        assert "" + t == t;
      }
      SqueezeSpread(f, Past(p, s[0]), s[1..]);
    }
  }

  /** In every style the text is the compact text with white space as the style asks for it,
      and without the white space outside of quotes it is the compact text, which has none. */
  lemma LaidOut(v: Value, f: Flags)
    requires Tame(v)
    ensures Text(v, 0, f) == Spread(f, BEGIN, Compact(v))
    ensures Squeeze(Outside, Text(v, 0, f)) == Compact(v) && Dense(Outside, Compact(v))
    ensures !f.spaced && !f.pretty ==> Text(v, 0, f) == Compact(v)
  {
    var q := LaysValue(f, BEGIN, v, 0);
    assert Gap(f, BEGIN, 'x') + Text(v, 0, f) == Text(v, 0, f);
    SqueezeSpread(f, BEGIN, Compact(v));
    SqueezeDense(Outside, Compact(v));
    if !f.spaced && !f.pretty {
      SpreadNothing(f, BEGIN, Compact(v));
    }
  }

  lemma {:induction false} SpreadNothing(f: Flags, p: Spot, s: string)
    requires !f.spaced && !f.pretty
    ensures Spread(f, p, s) == s
    decreases |s|
  {
    if s != "" {
      SpreadNothing(f, Past(p, s[0]), s[1..]);
    }
  }

  lemma ExampleText(f: Flags, nl: string, lead: string, colon: string, tail: string)
    requires nl == NewLine(f) && lead == Lead(true, 0, f) && colon == Colon(f) && tail == Tail(false, 0, f)
    ensures Text(Obj([Member("a", Null)]), 0, f) == "{" + nl + lead + "\"a" + colon + "null" + tail + "}"
  {
    hide NewLine, Lead, Colon, Tail;
    var m := Member("a", Null);
    assert Escape("") == "" && "a"[1..] == "" && Escape("a") == "a";
    assert MembersText([m], 1, 0, f) == "";
    assert MemberText(m, 0, f) == "\"a" + colon + "null";
  }

  /** A member in the default style. */
  lemma SpacedExample()
    ensures Text(Obj([Member("a", Null)]), 0, Flags(true, false, false)) == "{ \"a\": null }"
  {
    hide Text;
    ExampleText(Flags(true, false, false), "", " ", "\": ", " ");
  }

  /** The same over several lines, and blanks behind tabs. */
  lemma PrettyExample()
    ensures Text(Obj([Member("a", Null)]), 0, Flags(true, true, true)) == "{\n \t\"a\": null\n }"
  {
    hide Text;
    assert Repeat('\t', 1) == "\t";
    ExampleText(Flags(true, true, true), "\n", " \t", "\": ", "\n ");
  }
}
