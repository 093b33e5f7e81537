/** Printing a value and reading the text back. */
module RoundTrip {
  import opened Json
  import opened Decimal
  import opened PrintSpec
  import opened TokenerSpec
  import opened Reading

  predicate IsContainerOrString(v: Value) {
    v.Str? || v.Arr? || v.Obj?
  }

  // ----- first characters -----

  predicate StartsValue(c: char) {
    IsDigit(c) || c in "-ntfiNTFI\"'[{"
  }

  lemma StartsValueFacts(c: char)
    requires StartsValue(c)
    ensures !IsSpace(c) && c != '/' && c != ']' && c != '}' && c != '\0'
  {
  }

  lemma TextHead(v: Value, level: nat, f: Flags)
    requires Printable(v)
    ensures Text(v, level, f) != "" && StartsValue(Text(v, level, f)[0])
  {
  }

  /** What follows a child ends a number or a literal. */
  lemma AfterElem(es: seq<Value>, i: nat, level: nat, f: Flags, rest: string)
    requires 0 < i <= |es|
    ensures var s := ElemsText(es, i, level, f) + Tail(es == [], level, f) + "]" + rest;
            s != "" && EndsToken(s[0])
  {
  }

  lemma AfterMember(ms: seq<Member>, i: nat, level: nat, f: Flags, rest: string)
    requires 0 < i <= |ms|
    ensures var s := MembersText(ms, i, level, f) + Tail(ms == [], level, f) + "}" + rest;
            s != "" && EndsToken(s[0])
  {
  }

  // ----- states inside a container -----

  predicate IsArrayWait(s: State) {
    s == ArrayState || s == ArrayAfterSep
  }

  predicate IsFieldWait(s: State) {
    s == FieldStart || s == FieldStartAfterSep
  }

  /** The parser waits for the next element, `a` holding those already read. */
  ghost predicate AwaitsElem(m: Tok, below: seq<Rec>, a: Value) {
    && m.top.state == EatWs && IsArrayWait(m.top.saved) && m.top.current == a && m.top.field == None
    && m.below == below && m.loc == NO_LOCALS && m.obj == Null
  }

  ghost predicate AwaitsKey(m: Tok, below: seq<Rec>, o: Value) {
    && m.top.state == EatWs && IsFieldWait(m.top.saved) && m.top.current == o && m.top.field == None
    && m.below == below && m.loc == NO_LOCALS && m.obj == Null
  }

  /** One level down, the child `v` has been read completely. */
  ghost predicate ChildRead(m: Tok, below: seq<Rec>, parent: Value, key: Option<string>, v: Value) {
    && |m.below| == |below| + 1 && m.below[..|below|] == below
    && Holds(m, m.below, v)
    && var r := m.below[|below|];
       r.current == parent && r.field == key && r.state == (if key == None then ArrayAdd else ObjValueAdd)
  }

  /** After `i` elements of the array `es`. */
  ghost predicate InArray(m: Tok, below: seq<Rec>, es: seq<Value>, i: nat)
    requires i <= |es|
  {
    if i == 0 then AwaitsElem(m, below, Arr([])) && m.top.saved == ArrayState
    else ChildRead(m, below, Arr(es[..i - 1]), None, es[i - 1])
  }

  ghost predicate InObject(m: Tok, below: seq<Rec>, ms: seq<Member>, i: nat)
    requires i <= |ms|
  {
    if i == 0 then AwaitsKey(m, below, Obj([])) && m.top.saved == FieldStart
    else ChildRead(m, below, Obj(ms[..i - 1]), Some(ms[i - 1].key), ms[i - 1].val)
  }

  // ----- going down and up one level -----

  /** After a child, the next significant character is seen by the parent. */
  lemma PopIntoParent(cfg: Config, m: Tok, below: seq<Rec>, parent: Value, key: Option<string>, v: Value, c: char,
      la: string)
    returns (n: Tok)
    requires ChildRead(m, below, parent, key, v)
    requires if key == None then parent.Arr? else parent.Obj?
    requires !IsSpace(c) && (c == '/' ==> cfg.strict)
    ensures Step(cfg, m, c, la) == Step(cfg, n, c, la)
    ensures n.top.state == n.top.saved == (if key == None then ArraySep else ObjSep) && n.top.field == None
    ensures n.top.current == (if key == None then AddElem(parent, v) else AddPair(parent, key, v))
    ensures n.below == below && n.loc == NO_LOCALS && n.obj == Null
  {
    hide Step;
    var m1 := m.Go(Finish);
    StepRedo(cfg, m, m1, c, la);
    var m2 := m1.(obj := v, top := m.below[|below|], below := below);
    assert OnFinish(m1) == Redo(m2);
    StepRedo(cfg, m1, m2, c, la);
    var m3 := Switch(cfg, m2, c, la).m;
    StepRedo(cfg, m2, m3, c, la);
    n := m3.Go(m3.top.saved);
    StepRedo(cfg, m3, n, c, la);
  }

  /** From a waiting array to its next element. */
  lemma PushElem(cfg: Config, m: Tok, below: seq<Rec>, a: Value, rest: string) returns (n: Tok)
    requires AwaitsElem(m, below, a) && |below| + 1 < cfg.maxDepth
    requires rest != "" && StartsValue(rest[0])
    ensures Reads(cfg, m, "", n, rest)
    ensures Ready(n) && |n.below| == |below| + 1 && n.below[..|below|] == below
    ensures var r := n.below[|below|]; r.current == a && r.field == None && r.state == ArrayAdd
  {
    hide Step, Run, Clean;
    StartsValueFacts(rest[0]);
    var m1 := m.Go(m.top.saved);
    StepRedo(cfg, m, m1, rest[0], rest[1..]);
    n := m1.(below := below + [m1.top.(state := ArrayAdd)], top := FRESH);
    StepRedo(cfg, m1, n, rest[0], rest[1..]);
    SameStep(cfg, m, n, rest);
  }

  lemma PushMember(cfg: Config, m: Tok, below: seq<Rec>, o: Value, key: string, rest: string) returns (n: Tok)
    requires m.top.state == EatWs && m.top.saved == ObjValue && m.top.current == o && m.top.field == Some(key)
    requires m.below == below && m.loc == NO_LOCALS && m.obj == Null && |below| + 1 < cfg.maxDepth
    requires rest != "" && StartsValue(rest[0])
    ensures Reads(cfg, m, "", n, rest)
    ensures Ready(n) && |n.below| == |below| + 1 && n.below[..|below|] == below
    ensures var r := n.below[|below|]; r.current == o && r.field == Some(key) && r.state == ObjValueAdd
  {
    hide Step, Run, Clean;
    StartsValueFacts(rest[0]);
    var m1 := m.Go(ObjValue);
    StepRedo(cfg, m, m1, rest[0], rest[1..]);
    n := m1.(below := below + [m1.top.(state := ObjValueAdd)], top := FRESH);
    StepRedo(cfg, m1, n, rest[0], rest[1..]);
    SameStep(cfg, m, n, rest);
  }

  // ----- separators and brackets -----

  /** "[" or "{" with the line break that may follow. */
  lemma ReadOpen(cfg: Config, m: Tok, c: char, f: Flags, rest: string) returns (n: Tok)
    requires Ready(m) && (c == '[' || c == '{')
    ensures Reads(cfg, m, [c] + NewLine(f), n, rest)
    ensures c == '[' ==> AwaitsElem(n, m.below, Arr([])) && n.top.saved == ArrayState
    ensures c == '{' ==> AwaitsKey(n, m.below, Obj([])) && n.top.saved == FieldStart
  {
    hide Step, Run, Clean, Reads;
    n := if c == '[' then m.(top := m.top.(current := Arr([]))).Then(ArrayState)
         else m.(top := m.top.(current := Obj([]))).Then(FieldStart);
    StartStep(cfg, m, c, NewLine(f) + rest);
    StepAdvance(cfg, m.Go(Start), c, NewLine(f) + rest, n);
    ReadChar(cfg, m, c, n, NewLine(f) + rest);
    LayoutIsSpace(0, f, false);
    ReadSpaces(cfg, n, NewLine(f), rest);
    ReadsThen(cfg, m, [c], n, NewLine(f), n, rest);
  }

  /** The comma between two children of an array or an object. */
  lemma ReadComma(cfg: Config, m: Tok, below: seq<Rec>, parent: Value, key: Option<string>, v: Value, rest: string)
    returns (n: Tok)
    requires ChildRead(m, below, parent, key, v)
    requires if key == None then parent.Arr? else parent.Obj?
    ensures Reads(cfg, m, ",", n, rest)
    ensures key == None ==> AwaitsElem(n, below, AddElem(parent, v))
    ensures key != None ==> AwaitsKey(n, below, AddPair(parent, key, v))
  {
    hide Step, Run, Clean;
    var k := PopIntoParent(cfg, m, below, parent, key, v, ',', rest);
    n := k.Then(if key == None then ArrayAfterSep else FieldStartAfterSep);
    StepAdvance(cfg, k, ',', rest, n);
    ReadChar(cfg, m, ',', n, rest);
  }

  /** The closing bracket after at least one child. */
  lemma ReadClose(cfg: Config, m: Tok, below: seq<Rec>, parent: Value, key: Option<string>, v: Value, rest: string)
    returns (n: Tok)
    requires ChildRead(m, below, parent, key, v)
    requires if key == None then parent.Arr? else parent.Obj?
    ensures Reads(cfg, m, if key == None then "]" else "}", n, rest)
    ensures Holds(n, below, if key == None then AddElem(parent, v) else AddPair(parent, key, v))
  {
    hide Step, Run, Clean;
    var c := if key == None then ']' else '}';
    var k := PopIntoParent(cfg, m, below, parent, key, v, c, rest);
    n := k.Then(Finish);
    StepAdvance(cfg, k, c, rest, n);
    ReadChar(cfg, m, c, n, rest);
  }

  /** The closing bracket of an empty array or object. */
  lemma ReadCloseEmpty(cfg: Config, m: Tok, c: char, rest: string) returns (n: Tok)
    requires (c == ']' && AwaitsElem(m, m.below, Arr([])) && m.top.saved == ArrayState)
          || (c == '}' && AwaitsKey(m, m.below, Obj([])) && m.top.saved == FieldStart)
    ensures Reads(cfg, m, [c], n, rest)
    ensures Holds(n, m.below, m.top.current)
  {
    hide Step, Run, Clean;
    var k := m.Go(m.top.saved);
    StepRedo(cfg, m, k, c, rest);
    n := k.Then(Finish);
    StepAdvance(cfg, k, c, rest, n);
    ReadChar(cfg, m, c, n, rest);
  }

  /** Everything in front of the i-th element. */
  lemma ReadElemLead(cfg: Config, m: Tok, below: seq<Rec>, es: seq<Value>, i: nat, level: nat, f: Flags, rest: string)
    returns (n: Tok)
    requires i < |es| && InArray(m, below, es, i)
    ensures Reads(cfg, m, Lead(i == 0, level, f), n, rest)
    ensures AwaitsElem(n, below, Arr(es[..i]))
  {
    hide Step, Run, Clean, Switch, Reads, AddMember;
    var ws := Space(f) + Indent(level + 1, f);
    LayoutIsSpace(level + 1, f, false);
    if i == 0 {
      n := m;
      ReadSpaces(cfg, n, ws, rest);
      assert Lead(true, level, f) == ws;
    } else {
      n := ReadComma(cfg, m, below, Arr(es[..i - 1]), None, es[i - 1], NewLine(f) + ws + rest);
      assert es[..i - 1] + [es[i - 1]] == es[..i];
      ReadSpaces(cfg, n, NewLine(f) + ws, rest);
      ReadsThen(cfg, m, ",", n, NewLine(f) + ws, n, rest);
      assert Lead(false, level, f) == "," + (NewLine(f) + ws);
    }
  }

  lemma ReadMemberLead(cfg: Config, m: Tok, below: seq<Rec>, ms: seq<Member>, i: nat, level: nat, f: Flags,
      rest: string)
    returns (n: Tok)
    requires i < |ms| && InObject(m, below, ms, i) && DistinctKeys(ms)
    ensures Reads(cfg, m, Lead(i == 0, level, f), n, rest)
    ensures AwaitsKey(n, below, Obj(ms[..i]))
  {
    hide Step, Run, Clean, Switch, Reads, AddMember;
    var ws := Space(f) + Indent(level + 1, f);
    LayoutIsSpace(level + 1, f, false);
    if i == 0 {
      n := m;
      ReadSpaces(cfg, n, ws, rest);
      assert Lead(true, level, f) == ws;
    } else {
      n := ReadComma(cfg, m, below, Obj(ms[..i - 1]), Some(ms[i - 1].key), ms[i - 1].val, NewLine(f) + ws + rest);
      AddFreshKey(ms, i - 1);
      assert AwaitsKey(n, below, Obj(ms[..i]));
      ReadSpaces(cfg, n, NewLine(f) + ws, rest);
      ReadsThen(cfg, m, ",", n, NewLine(f) + ws, n, rest);
      assert Lead(false, level, f) == "," + (NewLine(f) + ws);
    }
  }

  lemma AddFreshKey(ms: seq<Member>, i: nat)
    requires i < |ms| && DistinctKeys(ms)
    ensures AddPair(Obj(ms[..i]), Some(ms[i].key), ms[i].val) == Obj(ms[..i + 1])
  {
  }

  /** The field name, the colon, and the way down to the value. */
  lemma ReadKey(cfg: Config, m: Tok, below: seq<Rec>, o: Value, key: string, f: Flags, rest: string) returns (n: Tok)
    requires AwaitsKey(m, below, o) && NulFree(key) && |below| + 1 < cfg.maxDepth
    requires rest != "" && StartsValue(rest[0])
    ensures Reads(cfg, m, "\"" + Escape(key) + Colon(f), n, rest)
    ensures Ready(n) && |n.below| == |below| + 1 && n.below[..|below|] == below
    ensures var r := n.below[|below|]; r.current == o && r.field == Some(key) && r.state == ObjValueAdd
  {
    hide Step, Run, Clean, Switch, Reads;
    var m1 := ReadKeyName(cfg, m, below, o, key, Colon(f) + rest);
    var m2 := ReadColon(cfg, m1, key, f, rest);
    n := PushMember(cfg, m2, below, o, key, rest);
    assert Colon(f) + "" == Colon(f) && "" + rest == rest;
    ReadsThen(cfg, m1, Colon(f), m2, "", n, rest);
    ReadsThen(cfg, m, "\"" + Escape(key), m1, Colon(f), n, rest);
  }

  lemma ReadKeyName(cfg: Config, m: Tok, below: seq<Rec>, o: Value, key: string, rest: string) returns (n: Tok)
    requires AwaitsKey(m, below, o) && NulFree(key)
    ensures Reads(cfg, m, "\"" + Escape(key), n, rest)
    ensures InQuotes(n) && n.top.state == Field && n.pb == key
    ensures n.top.current == o && n.top.field == None && n.below == below
  {
    hide Step, Run, Clean, Reads;
    var k := m.Go(m.top.saved);
    var m1 := k.(quote := '"', pb := "").Go(Field);
    StepRedo(cfg, m, k, '"', Escape(key) + rest);
    StepAdvance(cfg, k, '"', Escape(key) + rest, m1);
    ReadChar(cfg, m, '"', m1, Escape(key) + rest);
    n := ReadEscaped(cfg, m1, key, rest);
    assert n.pb == key;
    ReadsThen(cfg, m, "\"", m1, Escape(key), n, rest);
  }

  lemma ReadColon(cfg: Config, m: Tok, key: string, f: Flags, rest: string) returns (n: Tok)
    requires InQuotes(m) && m.top.state == Field && m.pb == key && NulFree(key)
    ensures Reads(cfg, m, Colon(f), n, rest)
    ensures n.top == Rec(EatWs, ObjValue, m.top.current, Some(key)) && n.below == m.below
    ensures n.loc == NO_LOCALS && n.obj == Null
  {
    hide Step, Run, Clean, Switch, Reads;
    var tail := Space(f) + rest;
    var m1 := ReadKeyEnd(cfg, m, key, ":" + tail);
    n := ReadColonChar(cfg, m1, tail);
    LayoutIsSpace(0, f, false);
    ReadSpaces(cfg, n, Space(f), rest);
    ReadsThen(cfg, m1, ":", n, Space(f), n, rest);
    assert ":" + tail == (":" + Space(f)) + rest;
    ReadsThen(cfg, m, "\"", m1, ":" + Space(f), n, rest);
    assert "\"" + (":" + Space(f)) == Colon(f);
  }

  lemma ReadKeyEnd(cfg: Config, m: Tok, key: string, rest: string) returns (n: Tok)
    requires InQuotes(m) && m.top.state == Field && m.pb == key && NulFree(key)
    ensures Reads(cfg, m, "\"", n, rest)
    ensures n == m.(top := Rec(EatWs, FieldEnd, m.top.current, Some(key)))
  {
    hide Step, Run, Clean, Reads;
    n := m.(top := m.top.(field := Some(key))).Then(FieldEnd);
    ReadOne(cfg, m, '"', n, rest);
  }

  lemma ReadColonChar(cfg: Config, m: Tok, rest: string) returns (n: Tok)
    requires m.top.state == EatWs && m.top.saved == FieldEnd && m.loc == NO_LOCALS && m.obj == Null
    ensures Reads(cfg, m, ":", n, rest)
    ensures n == m.Then(ObjValue)
  {
    hide Step, Run, Clean, Reads;
    var k := m.Go(FieldEnd);
    n := k.Then(ObjValue);
    StepRedo(cfg, m, k, ':', rest);
    StepAdvance(cfg, k, ':', rest, n);
    ReadChar(cfg, m, ':', n, rest);
  }

  // ----- the closing part -----

  lemma ReadArrayEnd(cfg: Config, m: Tok, below: seq<Rec>, es: seq<Value>, level: nat, f: Flags, rest: string)
    returns (n: Tok)
    requires InArray(m, below, es, |es|)
    ensures Reads(cfg, m, Tail(es == [], level, f) + "]", n, rest)
    ensures Holds(n, below, Arr(es))
  {
    hide Step, Run, Clean, Switch, Reads;
    var ws := Tail(es == [], level, f);
    LayoutIsSpace(level, f, es == []);
    ReadSpaces(cfg, m, ws, "]" + rest);
    if es == [] {
      n := ReadCloseEmpty(cfg, m, ']', rest);
    } else {
      n := ReadClose(cfg, m, below, Arr(es[..|es| - 1]), None, es[|es| - 1], rest);
      assert es[..|es| - 1] + [es[|es| - 1]] == es;
    }
    ReadsThen(cfg, m, ws, m, "]", n, rest);
  }

  lemma ReadObjectEnd(cfg: Config, m: Tok, below: seq<Rec>, ms: seq<Member>, level: nat, f: Flags, rest: string)
    returns (n: Tok)
    requires InObject(m, below, ms, |ms|) && DistinctKeys(ms)
    ensures Reads(cfg, m, Tail(ms == [], level, f) + "}", n, rest)
    ensures Holds(n, below, Obj(ms))
  {
    hide Step, Run, Clean, Switch, Reads;
    var ws := Tail(ms == [], level, f);
    LayoutIsSpace(level, f, ms == []);
    ReadSpaces(cfg, m, ws, "}" + rest);
    if ms == [] {
      n := ReadCloseEmpty(cfg, m, '}', rest);
    } else {
      var last := |ms| - 1;
      n := ReadClose(cfg, m, below, Obj(ms[..last]), Some(ms[last].key), ms[last].val, rest);
      AddFreshKey(ms, last);
      assert ms[..last + 1] == ms;
    }
    ReadsThen(cfg, m, ws, m, "}", n, rest);
  }

  // ----- values, by structural induction -----

  /** The automaton reads the text of `v` and holds `v`, at any depth with room
      for it, whatever follows. */
  lemma {:induction false} ReadValue(cfg: Config, m: Tok, v: Value, level: nat, f: Flags, rest: string) returns (n: Tok)
    requires Ready(m) && Printable(v) && |m.below| + Height(v) < cfg.maxDepth
    requires IsContainerOrString(v) || (rest != "" && EndsToken(rest[0]))
    ensures Reads(cfg, m, Text(v, level, f), n, rest)
    ensures Holds(n, m.below, v)
    decreases v
  {
    hide Step, Run, Clean;
    match v
    case Null => n := ReadLiteral(cfg, m, "null", NullState, v, rest);
    case Bool(b) => n := ReadLiteral(cfg, m, if b then "true" else "false", BooleanState, v, rest);
    case Int(i) => n := ReadInt(cfg, m, i, rest);
    case Str(s) => n := ReadString(cfg, m, s, rest);
    case Arr(es) => n := ReadArray(cfg, m, es, level, f, rest);
    case Obj(ms) => n := ReadObject(cfg, m, ms, level, f, rest);
    case _ =>
  }

  lemma {:induction false} ReadArray(cfg: Config, m: Tok, es: seq<Value>, level: nat, f: Flags, rest: string)
    returns (n: Tok)
    requires Ready(m)
    requires forall k :: 0 <= k < |es| ==> Printable(es[k]) && |m.below| + 1 + Height(es[k]) < cfg.maxDepth
    ensures Reads(cfg, m, Text(Arr(es), level, f), n, rest)
    ensures Holds(n, m.below, Arr(es))
    decreases es, |es| + 1
  {
    hide Step, Run, Clean, Printable, Height, Reads, Text, ElemsText, Tail, NewLine;
    var body := ElemsText(es, 0, level, f);
    var end := Tail(es == [], level, f) + "]";
    assert end + rest == Tail(es == [], level, f) + "]" + rest;
    var m1 := ReadOpen(cfg, m, '[', f, body + (end + rest));
    var m2 := ReadElems(cfg, m1, m.below, es, 0, level, f, rest);
    n := ReadArrayEnd(cfg, m2, m.below, es, level, f, rest);
    ReadsThen(cfg, m1, body, m2, end, n, rest);
    assert body + (end + rest) == body + end + rest;
    ReadsThen(cfg, m, "[" + NewLine(f), m1, body + end, n, rest);
    ArrayText(es, level, f);
  }

  lemma {:induction false} ReadObject(cfg: Config, m: Tok, ms: seq<Member>, level: nat, f: Flags, rest: string)
    returns (n: Tok)
    requires Ready(m) && DistinctKeys(ms)
    requires forall k :: 0 <= k < |ms| ==> NulFree(ms[k].key)
    requires forall k :: 0 <= k < |ms| ==> Printable(ms[k].val) && |m.below| + 1 + Height(ms[k].val) < cfg.maxDepth
    ensures Reads(cfg, m, Text(Obj(ms), level, f), n, rest)
    ensures Holds(n, m.below, Obj(ms))
    decreases ms, |ms| + 1
  {
    hide Step, Run, Clean, Printable, Height, Reads, Text, MembersText, Tail, NewLine;
    var body := MembersText(ms, 0, level, f);
    var end := Tail(ms == [], level, f) + "}";
    assert end + rest == Tail(ms == [], level, f) + "}" + rest;
    var m1 := ReadOpen(cfg, m, '{', f, body + (end + rest));
    var m2 := ReadMembers(cfg, m1, m.below, ms, 0, level, f, rest);
    n := ReadObjectEnd(cfg, m2, m.below, ms, level, f, rest);
    ReadsThen(cfg, m1, body, m2, end, n, rest);
    assert body + (end + rest) == body + end + rest;
    ReadsThen(cfg, m, "{" + NewLine(f), m1, body + end, n, rest);
    ObjectText(ms, level, f);
  }

  /** One element with what stands in front of it. */
  lemma {:induction false} ReadElem(cfg: Config, m: Tok, below: seq<Rec>, es: seq<Value>, i: nat, level: nat,
      f: Flags, rest: string)
    returns (n: Tok)
    requires i < |es| && InArray(m, below, es, i)
    requires Printable(es[i]) && |below| + 1 + Height(es[i]) < cfg.maxDepth
    requires rest != "" && EndsToken(rest[0])
    ensures Reads(cfg, m, Lead(i == 0, level, f) + Text(es[i], level + 1, f), n, rest)
    ensures InArray(n, below, es, i + 1)
    decreases es, |es| - i, 0
  {
    hide Step, Run, Clean, Printable, Height, Reads;
    var lead, text := Lead(i == 0, level, f), Text(es[i], level + 1, f);
    TextHead(es[i], level + 1, f);
    var m1 := ReadElemLead(cfg, m, below, es, i, level, f, text + rest);
    var m2 := PushElem(cfg, m1, below, Arr(es[..i]), text + rest);
    n := ReadValue(cfg, m2, es[i], level + 1, f, rest);
    ReadsThen(cfg, m1, "", m2, text, n, rest);
    assert "" + text == text;
    ReadsThen(cfg, m, lead, m1, text, n, rest);
  }

  lemma {:induction false} ReadElems(cfg: Config, m: Tok, below: seq<Rec>, es: seq<Value>, i: nat, level: nat,
      f: Flags, rest: string)
    returns (n: Tok)
    requires i <= |es| && InArray(m, below, es, i)
    requires forall k :: 0 <= k < |es| ==> Printable(es[k]) && |below| + 1 + Height(es[k]) < cfg.maxDepth
    ensures Reads(cfg, m, ElemsText(es, i, level, f), n, Tail(es == [], level, f) + "]" + rest)
    ensures InArray(n, below, es, |es|)
    decreases es, |es| - i, 1
  {
    hide Step, Run, Clean, Printable, Height, Reads, Tail, Lead, MemberText, Text;
    var end := Tail(es == [], level, f) + "]" + rest;
    if i == |es| {
      n := m;
      ReadsNothing(cfg, m, end);
    } else {
      var tail := ElemsText(es, i + 1, level, f);
      AfterElem(es, i + 1, level, f, rest);
      assert tail + Tail(es == [], level, f) + "]" + rest == tail + end;
      var m1 := ReadElem(cfg, m, below, es, i, level, f, tail + end);
      n := ReadElems(cfg, m1, below, es, i + 1, level, f, rest);
      ReadsThen(cfg, m, Lead(i == 0, level, f) + Text(es[i], level + 1, f), m1, tail, n, end);
    }
  }

  lemma {:induction false} ReadMember(cfg: Config, m: Tok, below: seq<Rec>, ms: seq<Member>, i: nat, level: nat,
      f: Flags, rest: string)
    returns (n: Tok)
    requires i < |ms| && InObject(m, below, ms, i) && DistinctKeys(ms) && NulFree(ms[i].key)
    requires Printable(ms[i].val) && |below| + 1 + Height(ms[i].val) < cfg.maxDepth
    requires rest != "" && EndsToken(rest[0])
    ensures Reads(cfg, m, Lead(i == 0, level, f) + MemberText(ms[i], level, f), n, rest)
    ensures InObject(n, below, ms, i + 1)
    decreases ms, |ms| - i, 0
  {
    hide Step, Run, Clean, Printable, Height, Reads;
    var lead, text := Lead(i == 0, level, f), Text(ms[i].val, level + 1, f);
    var key := "\"" + Escape(ms[i].key) + Colon(f);
    TextHead(ms[i].val, level + 1, f);
    var m1 := ReadMemberLead(cfg, m, below, ms, i, level, f, key + (text + rest));
    var m2 := ReadKey(cfg, m1, below, Obj(ms[..i]), ms[i].key, f, text + rest);
    n := ReadValue(cfg, m2, ms[i].val, level + 1, f, rest);
    ReadsThen(cfg, m1, key, m2, text, n, rest);
    assert key + (text + rest) == key + text + rest;
    ReadsThen(cfg, m, lead, m1, key + text, n, rest);
    assert MemberText(ms[i], level, f) == key + text;
  }

  lemma {:induction false} ReadMembers(cfg: Config, m: Tok, below: seq<Rec>, ms: seq<Member>, i: nat, level: nat,
      f: Flags, rest: string)
    returns (n: Tok)
    requires i <= |ms| && InObject(m, below, ms, i) && DistinctKeys(ms)
    requires forall k :: 0 <= k < |ms| ==> NulFree(ms[k].key)
    requires forall k :: 0 <= k < |ms| ==> Printable(ms[k].val) && |below| + 1 + Height(ms[k].val) < cfg.maxDepth
    ensures Reads(cfg, m, MembersText(ms, i, level, f), n, Tail(ms == [], level, f) + "}" + rest)
    ensures InObject(n, below, ms, |ms|)
    decreases ms, |ms| - i, 1
  {
    hide Step, Run, Clean, Printable, Height, Reads, Tail, Lead, MemberText, Text;
    var end := Tail(ms == [], level, f) + "}" + rest;
    if i == |ms| {
      n := m;
      ReadsNothing(cfg, m, end);
    } else {
      var tail := MembersText(ms, i + 1, level, f);
      AfterMember(ms, i + 1, level, f, rest);
      assert tail + Tail(ms == [], level, f) + "}" + rest == tail + end;
      var m1 := ReadMember(cfg, m, below, ms, i, level, f, tail + end);
      n := ReadMembers(cfg, m1, below, ms, i + 1, level, f, rest);
      ReadsThen(cfg, m, Lead(i == 0, level, f) + MemberText(ms[i], level, f), m1, tail, n, end);
    }
  }

  // ----- whole documents -----

  /** The tokener as `fjson_tokener_new_ex` and every successful parse leave it. */
  ghost predicate IsFresh(m: Tok) {
    m.top == FRESH && m.below == []
  }

  /** A complete value followed by the NUL of a C string. */
  lemma StopAtNul(cfg: Config, m: Tok, v: Value)
    requires Holds(m, [], v)
    ensures Run(cfg, m, "\0") == End(m.Go(Finish), Success, true, "\0")
  {
    StepRedo(cfg, m, m.Go(Finish), '\0', "");
    assert Switch(cfg, m.Go(Finish), '\0', "") == Stop(m.Go(Finish), Success, 0);
    assert "\0"[1..] == "";
  }

  /** Round trip: the one-shot parse of the text of `v`, in any style, returns
      `v`, stops at the terminating NUL and leaves the tokener ready for reuse. */
  lemma RoundTrip(cfg: Config, m: Tok, v: Value, f: Flags)
    requires IsFresh(m) && Printable(v) && Height(v) < cfg.maxDepth
    ensures var r := ParseEx(cfg, m, Text(v, 0, f) + "\0");
            r.err == Success && r.value == v && r.offset == |Text(v, 0, f)| && IsFresh(r.m)
  {
    hide Run, Step, Clean;
    var n := ReadValue(cfg, Enter(m), v, 0, f, "\0");
    StopAtNul(cfg, n, v);
  }

  // ----- too deep -----

  /** The parse stopped because the stack is full. */
  ghost predicate DepthStop(r: End) {
    r.err == ErrDepth && !r.nul && r.m.top.state != Finish
  }

  lemma PushFails(cfg: Config, m: Tok, rest: string)
    requires (m.top.state == EatWs && (IsArrayWait(m.top.saved) || m.top.saved == ObjValue))
    requires |m.below| + 1 >= cfg.maxDepth && rest != "" && StartsValue(rest[0])
    ensures DepthStop(Run(cfg, m, rest))
  {
    var c, la := rest[0], rest[1..];
    StartsValueFacts(c);
    var m1 := m.Go(m.top.saved);
    StepRedo(cfg, m, m1, c, la);
    assert Switch(cfg, m1, c, la) == Stop(m1, ErrDepth, 0);
  }

  lemma Regroup4(a: string, b: string, c: string, d: string)
    ensures a + b + c + d == a + b + (c + d) && a + (b + (c + d)) == a + b + c + d
  {
  }

  lemma ArrayText(es: seq<Value>, level: nat, f: Flags)
    ensures Text(Arr(es), level, f) ==
            "[" + NewLine(f) + (ElemsText(es, 0, level, f) + (Tail(es == [], level, f) + "]"))
  {
  }

  lemma ObjectText(ms: seq<Member>, level: nat, f: Flags)
    ensures Text(Obj(ms), level, f) ==
            "{" + NewLine(f) + (MembersText(ms, 0, level, f) + (Tail(ms == [], level, f) + "}"))
  {
    hide MembersText, Tail, NewLine;
    var a, b, c := "{" + NewLine(f), MembersText(ms, 0, level, f), Tail(ms == [], level, f);
    assert Text(Obj(ms), level, f) == a + b + c + "}";
    Regroup4(a, b, c, "}");
  }

  lemma ArraySplit(es: seq<Value>, level: nat, f: Flags, rest: string)
    ensures Text(Arr(es), level, f) + rest
         == "[" + NewLine(f) + (ElemsText(es, 0, level, f) + (Tail(es == [], level, f) + "]" + rest))
  {
  }

  lemma ObjectSplit(ms: seq<Member>, level: nat, f: Flags, rest: string)
    ensures Text(Obj(ms), level, f) + rest
         == "{" + NewLine(f) + (MembersText(ms, 0, level, f) + (Tail(ms == [], level, f) + "}" + rest))
  {
    hide MembersText, Tail, NewLine;
    var a, b, c := "{" + NewLine(f), MembersText(ms, 0, level, f), Tail(ms == [], level, f);
    assert Text(Obj(ms), level, f) == a + b + c + "}";
    Regroup4(a, b, c, "}");
    Regroup4(a, b, c + "}", rest);
  }

  /** The text from the i-th child on, cut after its lead and after its value. */
  lemma ElemSplit(es: seq<Value>, i: nat, level: nat, f: Flags, end: string)
    requires i < |es|
    ensures ElemsText(es, i, level, f) + end
         == Lead(i == 0, level, f) + (Text(es[i], level + 1, f) + (ElemsText(es, i + 1, level, f) + end))
    ensures ElemsText(es, i, level, f) + end
         == Lead(i == 0, level, f) + Text(es[i], level + 1, f) + (ElemsText(es, i + 1, level, f) + end)
  {
    hide Lead, Text;
    Regroup4(Lead(i == 0, level, f), Text(es[i], level + 1, f), ElemsText(es, i + 1, level, f), end);
  }

  lemma MemberSplit(ms: seq<Member>, i: nat, level: nat, f: Flags, end: string)
    requires i < |ms|
    ensures MembersText(ms, i, level, f) + end
         == Lead(i == 0, level, f) + ("\"" + Escape(ms[i].key) + Colon(f) +
            (Text(ms[i].val, level + 1, f) + (MembersText(ms, i + 1, level, f) + end)))
    ensures MembersText(ms, i, level, f) + end
         == Lead(i == 0, level, f) + MemberText(ms[i], level, f) + (MembersText(ms, i + 1, level, f) + end)
  {
  }

  /** A value nested too deeply for the room that is left is refused. */
  lemma {:induction false} TooDeep(cfg: Config, m: Tok, v: Value, level: nat, f: Flags, rest: string)
    requires Ready(m) && Printable(v) && |m.below| < cfg.maxDepth <= |m.below| + Height(v)
    ensures DepthStop(Run(cfg, m, Text(v, level, f) + rest))
    decreases v, 0
  {
    hide Run, Step, Clean;
    match v
    case Arr(es) => TooDeepArray(cfg, m, es, level, f, rest);
    case Obj(ms) => TooDeepObject(cfg, m, ms, level, f, rest);
    case _ =>
  }

  lemma TooDeepArray(cfg: Config, m: Tok, es: seq<Value>, level: nat, f: Flags, rest: string)
    requires Ready(m) && Printable(Arr(es)) && |m.below| < cfg.maxDepth <= |m.below| + Height(Arr(es))
    ensures DepthStop(Run(cfg, m, Text(Arr(es), level, f) + rest))
    decreases es, |es| + 1
  {
    hide Run, Step, Clean;
    var end := Tail(es == [], level, f) + "]" + rest;
    ArraySplit(es, level, f, rest);
    LayoutIsSpace(level, f, es == []);
    var m1 := ReadOpen(cfg, m, '[', f, ElemsText(es, 0, level, f) + end);
    TooDeepElems(cfg, m1, m.below, es, 0, level, f, end);
  }

  lemma TooDeepObject(cfg: Config, m: Tok, ms: seq<Member>, level: nat, f: Flags, rest: string)
    requires Ready(m) && Printable(Obj(ms)) && |m.below| < cfg.maxDepth <= |m.below| + Height(Obj(ms))
    ensures DepthStop(Run(cfg, m, Text(Obj(ms), level, f) + rest))
    decreases ms, |ms| + 1
  {
    hide Run, Step, Clean;
    var end := Tail(ms == [], level, f) + "}" + rest;
    ObjectSplit(ms, level, f, rest);
    LayoutIsSpace(level, f, ms == []);
    var m1 := ReadOpen(cfg, m, '{', f, MembersText(ms, 0, level, f) + end);
    TooDeepMembers(cfg, m1, m.below, ms, 0, level, f, end);
  }

  lemma {:induction false} TooDeepElems(cfg: Config, m: Tok, below: seq<Rec>, es: seq<Value>, i: nat, level: nat,
      f: Flags, end: string)
    requires i < |es| && InArray(m, below, es, i) && |below| < cfg.maxDepth
    requires forall k :: 0 <= k < |es| ==> Printable(es[k])
    requires exists k :: i <= k < |es| && |below| + 1 + Height(es[k]) >= cfg.maxDepth
    requires end != "" && EndsToken(end[0])
    ensures DepthStop(Run(cfg, m, ElemsText(es, i, level, f) + end))
    decreases es, |es| - i
  {
    hide Run, Step, Clean, Printable, Height;
    var text, tail := Text(es[i], level + 1, f), ElemsText(es, i + 1, level, f) + end;
    ElemSplit(es, i, level, f, end);
    if |below| + 1 + Height(es[i]) < cfg.maxDepth {
      var n := ReadElem(cfg, m, below, es, i, level, f, tail);
      TooDeepElems(cfg, n, below, es, i + 1, level, f, end);
    } else {
      var m1 := ReadElemLead(cfg, m, below, es, i, level, f, text + tail);
      TooDeepElem(cfg, m1, below, Arr(es[..i]), es[i], level, f, tail);
    }
  }

  lemma {:induction false} TooDeepElem(cfg: Config, m: Tok, below: seq<Rec>, a: Value, v: Value, level: nat, f: Flags,
      tail: string)
    requires AwaitsElem(m, below, a) && Printable(v)
    requires |below| < cfg.maxDepth <= |below| + 1 + Height(v)
    ensures DepthStop(Run(cfg, m, Text(v, level + 1, f) + tail))
    decreases v, 1
  {
    hide Run, Step, Clean, Printable, Height;
    var text := Text(v, level + 1, f);
    TextHead(v, level + 1, f);
    if |below| + 1 >= cfg.maxDepth {
      PushFails(cfg, m, text + tail);
    } else {
      var n := PushElem(cfg, m, below, a, text + tail);
      TooDeep(cfg, n, v, level + 1, f, tail);
      assert "" + (text + tail) == text + tail;
    }
  }

  lemma {:induction false} TooDeepMembers(cfg: Config, m: Tok, below: seq<Rec>, ms: seq<Member>, i: nat, level: nat,
      f: Flags, end: string)
    requires i < |ms| && InObject(m, below, ms, i) && |below| < cfg.maxDepth && DistinctKeys(ms)
    requires forall k :: 0 <= k < |ms| ==> NulFree(ms[k].key) && Printable(ms[k].val)
    requires exists k :: i <= k < |ms| && |below| + 1 + Height(ms[k].val) >= cfg.maxDepth
    requires end != "" && EndsToken(end[0])
    ensures DepthStop(Run(cfg, m, MembersText(ms, i, level, f) + end))
    decreases ms, |ms| - i
  {
    hide Run, Step, Clean, Printable, Height;
    var tail := MembersText(ms, i + 1, level, f) + end;
    MemberSplit(ms, i, level, f, end);
    if |below| + 1 + Height(ms[i].val) < cfg.maxDepth {
      var n := ReadMember(cfg, m, below, ms, i, level, f, tail);
      TooDeepMembers(cfg, n, below, ms, i + 1, level, f, end);
    } else {
      var key := "\"" + Escape(ms[i].key) + Colon(f);
      var m1 := ReadMemberLead(cfg, m, below, ms, i, level, f, key + (Text(ms[i].val, level + 1, f) + tail));
      TooDeepKey(cfg, m1, below, Obj(ms[..i]), ms[i], level, f, tail);
    }
  }

  lemma {:induction false} TooDeepKey(cfg: Config, m: Tok, below: seq<Rec>, o: Value, mem: Member, level: nat,
      f: Flags, tail: string)
    requires AwaitsKey(m, below, o) && NulFree(mem.key) && Printable(mem.val)
    requires |below| < cfg.maxDepth <= |below| + 1 + Height(mem.val)
    ensures DepthStop(Run(cfg, m, "\"" + Escape(mem.key) + Colon(f) + (Text(mem.val, level + 1, f) + tail)))
    decreases mem
  {
    hide Run, Step, Clean, Printable, Height, Text, Escape, Colon;
    var text := Text(mem.val, level + 1, f);
    TextHead(mem.val, level + 1, f);
    if |below| + 1 < cfg.maxDepth {
      var n := ReadKey(cfg, m, below, o, mem.key, f, text + tail);
      TooDeep(cfg, n, mem.val, level + 1, f, tail);
    } else {
      var m1 := ReadKeyName(cfg, m, below, o, mem.key, Colon(f) + (text + tail));
      var m2 := ReadColon(cfg, m1, mem.key, f, text + tail);
      PushFails(cfg, m2, text + tail);
      assert "\"" + Escape(mem.key) + Colon(f) + (text + tail) == "\"" + Escape(mem.key) + (Colon(f) + (text + tail));
    }
  }

  /** A printed value parses exactly when its deepest node is at a level below
      max_depth; otherwise the tokener reports "nesting too deep". */
  lemma ParsesIffShallow(cfg: Config, m: Tok, v: Value, f: Flags)
    requires IsFresh(m) && Printable(v) && cfg.maxDepth >= 1
    ensures var r := ParseEx(cfg, m, Text(v, 0, f) + "\0");
            (r.err == Success <==> Height(v) < cfg.maxDepth) && (r.err == ErrDepth <==> Height(v) >= cfg.maxDepth)
  {
    hide Run, Step, Clean;
    if Height(v) < cfg.maxDepth {
      RoundTrip(cfg, m, v, f);
    } else {
      TooDeep(cfg, Enter(m), v, 0, f, "\0");
    }
  }
}
