/** The tokener reads every document as what it means. */
module DocumentReader {
  import opened Json
  import opened Decimal
  import opened TokenerSpec
  import opened Reading
  import opened RoundTrip
  import opened Numbers
  import opened Documents
  import opened DocumentTokens
  import Unicode

  // ----- one level down and up again -----

  /** The first character of a document. */
  lemma DocHead(cfg: Config, d: Doc)
    requires Valid(cfg, d)
    ensures DocText(d) != "" && StartsValue(DocText(d)[0])
  {
    match d
    case WordDoc(w, letters) => CasesAgree(letters[0], w.Letters()[0]);
    case NumberDoc(x) => NumeralHead(x);
    case _ =>
  }

  /** Behind a document stands a character that ends numbers. */
  predicate Follows(c: char) {
    !IsNumberChar(c)
  }

  lemma GapHead(g: Gap, strict: bool, rest: string)
    requires GapValid(g, strict) && rest != "" && Follows(rest[0])
    ensures GapText(g) + rest != "" && Follows((GapText(g) + rest)[0])
  {
    if g != [] {
      assert g[0].Valid(strict);
      assert GapText(g) + rest == g[0].Text() + (GapText(g[1..]) + rest);
      assert g[0].Text() != "" && (IsSpace(g[0].Text()[0]) || g[0].Text()[0] == '/');
    } else {
      assert GapText(g) + rest == rest;
    }
  }

  /** The closing bracket where a child is awaited: of an empty container, or behind a comma. */
  lemma CloseWaiting(cfg: Config, m: Tok, bracket: char, rest: string) returns (n: Tok)
    requires (bracket == ']' && AwaitsElem(m, m.below, m.top.current))
          || (bracket == '}' && AwaitsKey(m, m.below, m.top.current))
    requires cfg.strict ==> m.top.saved != ArrayAfterSep && m.top.saved != FieldStartAfterSep
    ensures Run(cfg, m, [bracket] + rest) == Run(cfg, n, rest)
    ensures Holds(n, m.below, m.top.current)
  {
    hide Run, Step;
    var k := m.Go(m.top.saved);
    StepRedo(cfg, m, k, bracket, rest);
    n := k.Then(Finish);
    TakeAfter(cfg, m, k, bracket, n, rest);
  }

  /** The comma behind a child, or its closing bracket, without the jumps of the automaton. */
  lemma TakeComma(cfg: Config, m: Tok, below: seq<Rec>, parent: Value, key: Option<string>, v: Value, rest: string)
    returns (n: Tok)
    requires ChildRead(m, below, parent, key, v) && (if key == None then parent.Arr? else parent.Obj?)
    ensures Run(cfg, m, "," + rest) == Run(cfg, n, rest)
    ensures key == None ==> AwaitsElem(n, below, AddElem(parent, v))
    ensures key != None ==> AwaitsKey(n, below, AddPair(parent, key, v))
  {
    hide Reads, Run, AddPair, AddElem;
    n := ReadComma(cfg, m, below, parent, key, v, rest);
    Unicode.ReadsIsRun(cfg, m, ",", n, rest);
  }

  lemma TakeClose(cfg: Config, m: Tok, below: seq<Rec>, parent: Value, key: Option<string>, v: Value, rest: string)
    returns (n: Tok)
    requires ChildRead(m, below, parent, key, v) && (if key == None then parent.Arr? else parent.Obj?)
    ensures Run(cfg, m, (if key == None then "]" else "}") + rest) == Run(cfg, n, rest)
    ensures Holds(n, below, if key == None then AddElem(parent, v) else AddPair(parent, key, v))
  {
    hide Reads, Run, AddPair, AddElem;
    n := ReadClose(cfg, m, below, parent, key, v, rest);
    Unicode.ReadsIsRun(cfg, m, if key == None then "]" else "}", n, rest);
  }

  // ----- documents, by structural induction -----

  /** The values of the first `i` items. */
  ghost function Values(cfg: Config, items: seq<Item>, i: nat): (vs: seq<Value>)
    requires i <= |items|
    ensures |vs| == i && forall k :: 0 <= k < i ==> vs[k] == Meaning(cfg, items[k].doc)
  {
    seq(i, k requires 0 <= k < i => Meaning(cfg, items[k].doc))
  }

  ghost function MembersOf(cfg: Config, pairs: seq<Pair>, i: nat): (ms: seq<Member>)
    requires i <= |pairs|
    ensures |ms| == i
    ensures forall k :: 0 <= k < i ==> ms[k] == Member(CStr(PiecesDenote(pairs[k].key)), Meaning(cfg, pairs[k].doc))
  {
    seq(i, k requires 0 <= k < i => Member(CStr(PiecesDenote(pairs[k].key)), Meaning(cfg, pairs[k].doc)))
  }

  lemma OneMoreMember(cfg: Config, pairs: seq<Pair>, i: nat)
    requires i < |pairs|
    ensures var m := Member(CStr(PiecesDenote(pairs[i].key)), Meaning(cfg, pairs[i].doc));
      AddPair(Obj(Gather(MembersOf(cfg, pairs, i))), Some(m.key), m.val) == Obj(Gather(MembersOf(cfg, pairs, i + 1)))
  {
    var ms := MembersOf(cfg, pairs, i + 1);
    assert ms[..|ms| - 1] == MembersOf(cfg, pairs, i);
  }

  lemma NothingGathered(cfg: Config, pairs: seq<Pair>)
    ensures Gather(MembersOf(cfg, pairs, 0)) == []
  {
  }

  /** A document in any place, followed by a character that does not belong to numbers, is
      read as what it means. */
  lemma {:induction false} ReadDoc(cfg: Config, m: Tok, d: Doc, rest: string) returns (n: Tok)
    requires Ready(m) && Valid(cfg, d) && Fits(d, |m.below|, cfg.maxDepth) && rest != "" && Follows(rest[0])
    ensures Run(cfg, m, DocText(d) + rest) == Run(cfg, n, rest)
    ensures Holds(n, m.below, Meaning(cfg, d))
    decreases d, 1
  {
    hide Run, Spells, PiecesValid, PiecesText, PiecesDenote, Gather, ItemsText, PairsText, Closing;
    match d
    case WordDoc(w, letters) => n := TakeWord(cfg, m, w, letters, rest);
    case NumberDoc(x) => n := ReadNumber(cfg, m, x, rest);
    case StringDoc(quote, ps) => n := TakeString(cfg, m, quote, ps, rest);
    case ArrayDoc(items, comma, end) =>
      ArrayDocParts(cfg, items, comma, end, |m.below|);
      ArrayDocGlue(cfg, items, comma, end, rest);
      n := ReadArrayDoc(cfg, m, items, comma, end, rest);
    case ObjectDoc(pairs, comma, end) =>
      ObjectDocParts(cfg, pairs, comma, end, |m.below|);
      ObjectDocGlue(cfg, pairs, comma, end, rest);
      n := ReadObjectDoc(cfg, m, pairs, comma, end, rest);
  }

  lemma ArrayDocParts(cfg: Config, items: seq<Item>, comma: bool, end: Gap, level: nat)
    requires Valid(cfg, ArrayDoc(items, comma, end)) && Fits(ArrayDoc(items, comma, end), level, cfg.maxDepth)
    ensures GapValid(end, cfg.strict) && (comma ==> items != [] && !cfg.strict)
    ensures items != [] ==> level + 1 < cfg.maxDepth
    ensures forall k :: 0 <= k < |items| ==> ItemValid(cfg, items[k]) && Fits(items[k].doc, level + 1, cfg.maxDepth)
  {
  }

  lemma ObjectDocParts(cfg: Config, pairs: seq<Pair>, comma: bool, end: Gap, level: nat)
    requires Valid(cfg, ObjectDoc(pairs, comma, end)) && Fits(ObjectDoc(pairs, comma, end), level, cfg.maxDepth)
    ensures GapValid(end, cfg.strict) && (comma ==> pairs != [] && !cfg.strict)
    ensures pairs != [] ==> level + 1 < cfg.maxDepth
    ensures forall k :: 0 <= k < |pairs| ==> PairValid(cfg, pairs[k]) && Fits(pairs[k].doc, level + 1, cfg.maxDepth)
  {
  }

  lemma ArrayDocGlue(cfg: Config, items: seq<Item>, comma: bool, end: Gap, rest: string)
    ensures DocText(ArrayDoc(items, comma, end)) + rest
      == ['['] + (ItemsText(items, 0) + (Closing(comma, end, "]") + rest))
    ensures Meaning(cfg, ArrayDoc(items, comma, end)) == Arr(Values(cfg, items, |items|))
    ensures Values(cfg, items, 0) == []
  {
    hide ItemsText, Closing;
  }

  lemma ObjectDocGlue(cfg: Config, pairs: seq<Pair>, comma: bool, end: Gap, rest: string)
    ensures DocText(ObjectDoc(pairs, comma, end)) + rest
      == ['{'] + (PairsText(pairs, 0) + (Closing(comma, end, "}") + rest))
    ensures Meaning(cfg, ObjectDoc(pairs, comma, end)) == Obj(Gather(MembersOf(cfg, pairs, |pairs|)))
  {
    hide PairsText, Closing, Gather, PiecesDenote, CStr;
    assert MembersOf(cfg, pairs, |pairs|) ==
      seq(|pairs|, k requires 0 <= k < |pairs| => Member(CStr(PiecesDenote(pairs[k].key)), Meaning(cfg, pairs[k].doc)));
  }

  lemma {:induction false} ReadArrayDoc(cfg: Config, m: Tok, items: seq<Item>, comma: bool, end: Gap, rest: string)
    returns (n: Tok)
    requires Ready(m) && GapValid(end, cfg.strict)
    requires (comma ==> items != [] && !cfg.strict) && (items != [] ==> |m.below| + 1 < cfg.maxDepth)
    requires forall k :: 0 <= k < |items| ==>
      ItemValid(cfg, items[k]) && Fits(items[k].doc, |m.below| + 1, cfg.maxDepth)
    ensures Run(cfg, m, ['['] + (ItemsText(items, 0) + (Closing(comma, end, "]") + rest))) == Run(cfg, n, rest)
    ensures Holds(n, m.below, Arr(Values(cfg, items, |items|)))
    decreases items, |items| + 1
  {
    hide Run, ItemsText, Closing, ItemValid, Holds, Fits, GapValid;
    var m1 := OpenBracket(cfg, m, '[', ItemsText(items, 0) + (Closing(comma, end, "]") + rest));
    n := ReadItems(cfg, m1, m.below, items, 0, comma, end, rest);
  }

  lemma {:induction false} ReadObjectDoc(cfg: Config, m: Tok, pairs: seq<Pair>, comma: bool, end: Gap, rest: string)
    returns (n: Tok)
    requires Ready(m) && GapValid(end, cfg.strict)
    requires (comma ==> pairs != [] && !cfg.strict) && (pairs != [] ==> |m.below| + 1 < cfg.maxDepth)
    requires forall k :: 0 <= k < |pairs| ==>
      PairValid(cfg, pairs[k]) && Fits(pairs[k].doc, |m.below| + 1, cfg.maxDepth)
    ensures Run(cfg, m, ['{'] + (PairsText(pairs, 0) + (Closing(comma, end, "}") + rest))) == Run(cfg, n, rest)
    ensures Holds(n, m.below, Obj(Gather(MembersOf(cfg, pairs, |pairs|))))
    decreases pairs, |pairs| + 1
  {
    hide Run, PairsText, Closing, PairValid, Holds, PiecesDenote, Fits, Gather, GapValid, MembersOf;
    var m1 := OpenBracket(cfg, m, '{', PairsText(pairs, 0) + (Closing(comma, end, "}") + rest));
    NothingGathered(cfg, pairs);
    n := ReadPairs(cfg, m1, m.below, pairs, 0, comma, end, rest);
  }

  lemma OpenBracket(cfg: Config, m: Tok, c: char, rest: string) returns (n: Tok)
    requires Ready(m) && (c == '[' || c == '{')
    ensures Run(cfg, m, [c] + rest) == Run(cfg, n, rest)
    ensures c == '[' ==> AwaitsElem(n, m.below, Arr([])) && n.top.saved == ArrayState
    ensures c == '{' ==> AwaitsKey(n, m.below, Obj([])) && n.top.saved == FieldStart
  {
    hide Step, Run;
    n := if c == '[' then m.(top := m.top.(current := Arr([]))).Then(ArrayState)
         else m.(top := m.top.(current := Obj([]))).Then(FieldStart);
    StartStep(cfg, m, c, rest);
    TakeAfter(cfg, m, m.Go(Start), c, n, rest);
  }

  /** After `i` items: the next one is awaited, or stands behind a comma that is still to be read. */
  ghost predicate AfterItems(cfg: Config, m: Tok, below: seq<Rec>, items: seq<Item>, i: nat)
    requires i <= |items|
  {
    if i == 0 then AwaitsElem(m, below, Arr([])) && m.top.saved == ArrayState
    else ChildRead(m, below, Arr(Values(cfg, items, i - 1)), None, Meaning(cfg, items[i - 1].doc))
  }

  ghost predicate AfterPairs(cfg: Config, m: Tok, below: seq<Rec>, pairs: seq<Pair>, i: nat)
    requires i <= |pairs|
  {
    if i == 0 then AwaitsKey(m, below, Obj([])) && m.top.saved == FieldStart
    else ChildRead(m, below, Obj(Gather(MembersOf(cfg, pairs, i - 1))), Some(CStr(PiecesDenote(pairs[i - 1].key))),
                   Meaning(cfg, pairs[i - 1].doc))
  }

  function Comma(first: bool): string {
    if first then "" else ","
  }

  /** To the place where the next child is awaited. */
  lemma NextItem(cfg: Config, m: Tok, below: seq<Rec>, items: seq<Item>, i: nat, rest: string) returns (n: Tok)
    requires i <= |items| && AfterItems(cfg, m, below, items, i)
    ensures Run(cfg, m, Comma(i == 0) + rest) == Run(cfg, n, rest)
    ensures AwaitsElem(n, below, Arr(Values(cfg, items, i))) && (i == 0 ==> n.top.saved == ArrayState)
  {
    hide Run;
    if i == 0 {
      n := m;
      assert Comma(true) + rest == rest && Values(cfg, items, 0) == [];
    } else {
      n := TakeComma(cfg, m, below, Arr(Values(cfg, items, i - 1)), None, Meaning(cfg, items[i - 1].doc), rest);
      OneMoreValue(cfg, items, i - 1);
    }
  }

  lemma NextPair(cfg: Config, m: Tok, below: seq<Rec>, pairs: seq<Pair>, i: nat, rest: string) returns (n: Tok)
    requires i <= |pairs| && AfterPairs(cfg, m, below, pairs, i)
    ensures Run(cfg, m, Comma(i == 0) + rest) == Run(cfg, n, rest)
    ensures AwaitsKey(n, below, Obj(Gather(MembersOf(cfg, pairs, i)))) && (i == 0 ==> n.top.saved == FieldStart)
  {
    hide Run, AddPair, PiecesDenote, Gather, MembersOf, CStr, Meaning;
    if i == 0 {
      n := m;
      assert Comma(true) + rest == rest;
      NothingGathered(cfg, pairs);
    } else {
      OneMoreMember(cfg, pairs, i - 1);
      n := TakeComma(cfg, m, below, Obj(Gather(MembersOf(cfg, pairs, i - 1))),
        Some(CStr(PiecesDenote(pairs[i - 1].key))), Meaning(cfg, pairs[i - 1].doc), rest);
    }
  }

  /** From the last child, or none, to the closing bracket. */
  lemma CloseItems(cfg: Config, m: Tok, below: seq<Rec>, items: seq<Item>, comma: bool, end: Gap, rest: string)
    returns (n: Tok)
    requires AfterItems(cfg, m, below, items, |items|) && GapValid(end, cfg.strict)
    requires comma ==> items != [] && !cfg.strict
    ensures Run(cfg, m, Closing(comma, end, "]") + rest) == Run(cfg, n, rest)
    ensures Holds(n, below, Arr(Values(cfg, items, |items|)))
  {
    hide Run, GapText, GapValid, Meaning, Values, AddElem;
    var gap, i := GapText(end), |items|;
    if comma || items == [] {
      ClosingGlue(comma, end, "]", rest, items == []);
      var m1 := NextItem(cfg, m, below, items, i, gap + ("]" + rest));
      var m2 := TakeGap(cfg, m1, end, "]" + rest);
      n := CloseWaiting(cfg, m2, ']', rest);
    } else {
      ClosingGlue(comma, end, "]", rest, true);
      var m1 := TakeGap(cfg, m, end, "]" + rest);
      n := TakeClose(cfg, m1, below, Arr(Values(cfg, items, i - 1)), None, Meaning(cfg, items[i - 1].doc), rest);
      OneMoreValue(cfg, items, i - 1);
    }
  }

  lemma ClosingGlue(comma: bool, end: Gap, bracket: string, rest: string, first: bool)
    requires comma ==> !first
    requires !comma ==> first
    ensures Closing(comma, end, bracket) + rest == Comma(first) + (GapText(end) + (bracket + rest))
    ensures first ==> Closing(comma, end, bracket) + rest == GapText(end) + (bracket + rest)
  {
  }

  lemma OneMoreValue(cfg: Config, items: seq<Item>, i: nat)
    requires i < |items|
    ensures AddElem(Arr(Values(cfg, items, i)), Meaning(cfg, items[i].doc)) == Arr(Values(cfg, items, i + 1))
  {
    assert Values(cfg, items, i) + [Meaning(cfg, items[i].doc)] == Values(cfg, items, i + 1);
  }

  lemma ClosePairs(cfg: Config, m: Tok, below: seq<Rec>, pairs: seq<Pair>, comma: bool, end: Gap, rest: string)
    returns (n: Tok)
    requires AfterPairs(cfg, m, below, pairs, |pairs|) && GapValid(end, cfg.strict)
    requires comma ==> pairs != [] && !cfg.strict
    ensures Run(cfg, m, Closing(comma, end, "}") + rest) == Run(cfg, n, rest)
    ensures Holds(n, below, Obj(Gather(MembersOf(cfg, pairs, |pairs|))))
  {
    hide Run, GapText, GapValid, Meaning, Gather, PiecesDenote, AddPair, CStr, MembersOf;
    var gap, i := GapText(end), |pairs|;
    if comma || pairs == [] {
      ClosingGlue(comma, end, "}", rest, pairs == []);
      var m1 := NextPair(cfg, m, below, pairs, i, gap + ("}" + rest));
      var m2 := TakeGap(cfg, m1, end, "}" + rest);
      n := CloseWaiting(cfg, m2, '}', rest);
    } else {
      ClosingGlue(comma, end, "}", rest, true);
      var m1 := TakeGap(cfg, m, end, "}" + rest);
      n := TakeClose(cfg, m1, below, Obj(Gather(MembersOf(cfg, pairs, i - 1))),
        Some(CStr(PiecesDenote(pairs[i - 1].key))), Meaning(cfg, pairs[i - 1].doc), rest);
      OneMoreMember(cfg, pairs, i - 1);
    }
  }

  /** One item, from where it is awaited. */
  lemma {:induction false} ReadItem(cfg: Config, m: Tok, below: seq<Rec>, a: Value, it: Item, rest: string)
    returns (n: Tok)
    requires AwaitsElem(m, below, a) && ItemValid(cfg, it) && rest != "" && Follows(rest[0])
    requires |below| + 1 < cfg.maxDepth && Fits(it.doc, |below| + 1, cfg.maxDepth)
    ensures Run(cfg, m, ItemText(it) + rest) == Run(cfg, n, rest)
    ensures ChildRead(n, below, a, None, Meaning(cfg, it.doc))
    decreases it
  {
    hide Run, Step, GapText, DocText, Fits, Meaning, Reads, Valid, GapValid;
    var lead, text, tail := GapText(it.lead), DocText(it.doc), GapText(it.tail);
    DocHead(cfg, it.doc);
    GapHead(it.tail, cfg.strict, rest);
    var m1 := TakeGap(cfg, m, it.lead, text + (tail + rest));
    var m2 := PushElem(cfg, m1, below, a, text + (tail + rest));
    Unicode.ReadsIsRun(cfg, m1, "", m2, text + (tail + rest));
    assert "" + (text + (tail + rest)) == text + (tail + rest);
    var m3 := ReadDoc(cfg, m2, it.doc, tail + rest);
    n := TakeGap(cfg, m3, it.tail, rest);
    assert lead + (text + (tail + rest)) == ItemText(it) + rest;
  }

  /** What stands behind the i-th item does not belong to a number. */
  lemma AfterItem(items: seq<Item>, i: nat, comma: bool, end: Gap, strict: bool, rest: string)
    requires i < |items| && GapValid(end, strict)
    ensures var s := ItemsText(items, i + 1) + (Closing(comma, end, "]") + rest); s != "" && Follows(s[0])
  {
    hide GapText;
    GapHead(end, strict, "]" + rest);
    var close := Closing(comma, end, "]") + rest;
    assert close == (if comma then "," else "") + (GapText(end) + ("]" + rest));
    if i + 1 == |items| {
      assert ItemsText(items, i + 1) + close == close;
    } else {
      assert ItemsText(items, i + 1) == "," + ItemText(items[i + 1]) + ItemsText(items, i + 2);
    }
  }

  lemma ItemsGlue(items: seq<Item>, i: nat, close: string)
    requires i <= |items|
    ensures i == |items| ==> ItemsText(items, i) + close == close
    ensures i < |items| ==>
      ItemsText(items, i) + close == Comma(i == 0) + (ItemText(items[i]) + (ItemsText(items, i + 1) + close))
  {
    hide ItemText;
  }

  lemma {:induction false} ReadItems(cfg: Config, m: Tok, below: seq<Rec>, items: seq<Item>, i: nat, comma: bool,
      end: Gap, rest: string)
    returns (n: Tok)
    requires i <= |items| && AfterItems(cfg, m, below, items, i) && GapValid(end, cfg.strict)
    requires (comma ==> items != [] && !cfg.strict) && (items != [] ==> |below| + 1 < cfg.maxDepth)
    requires forall k :: 0 <= k < |items| ==> ItemValid(cfg, items[k]) && Fits(items[k].doc, |below| + 1, cfg.maxDepth)
    ensures Run(cfg, m, ItemsText(items, i) + (Closing(comma, end, "]") + rest)) == Run(cfg, n, rest)
    ensures Holds(n, below, Arr(Values(cfg, items, |items|)))
    decreases items, |items| - i
  {
    hide Run, Closing, ItemText, ItemsText, ItemValid, Fits, Meaning, ChildRead, AwaitsElem, Holds, GapValid;
    var close := Closing(comma, end, "]") + rest;
    if i == |items| {
      n := CloseItems(cfg, m, below, items, comma, end, rest);
      ItemsGlue(items, i, close);
    } else {
      var more := ItemsText(items, i + 1) + close;
      AfterItem(items, i, comma, end, cfg.strict, rest);
      var m1 := NextItem(cfg, m, below, items, i, ItemText(items[i]) + more);
      var m2 := ReadItem(cfg, m1, below, Arr(Values(cfg, items, i)), items[i], more);
      n := ReadItems(cfg, m2, below, items, i + 1, comma, end, rest);
      ItemsGlue(items, i, close);
    }
  }

  lemma OpenName(cfg: Config, m: Tok, below: seq<Rec>, o: Value, quote: char, rest: string) returns (n: Tok)
    requires AwaitsKey(m, below, o) && Unicode.IsQuote(quote)
    ensures Run(cfg, m, [quote] + rest) == Run(cfg, n, rest)
    ensures InText(n, quote) && n.top.state == Field && n.pb == ""
    ensures n.top.current == o && n.top.field == None && n.below == below
  {
    hide Run, Step;
    var k := m.Go(m.top.saved);
    n := k.(quote := quote, pb := "").Go(Field);
    StepRedo(cfg, m, k, quote, rest);
    TakeAfter(cfg, m, k, quote, n, rest);
  }

  lemma CloseName(cfg: Config, m: Tok, rest: string) returns (n: Tok)
    requires InText(m, m.quote) && m.top.state == Field
    ensures Run(cfg, m, [m.quote] + rest) == Run(cfg, n, rest)
    ensures n == m.(top := m.top.(field := Some(CStr(m.pb)))).Then(FieldEnd)
  {
    hide Run, Step, CStr;
    n := m.(top := m.top.(field := Some(CStr(m.pb)))).Then(FieldEnd);
    TakeChar(cfg, m, m.quote, n, rest);
  }

  /** The name of a member up to its closing quote. */
  lemma ReadName(cfg: Config, m: Tok, below: seq<Rec>, o: Value, quote: char, key: seq<Piece>, rest: string)
    returns (n: Tok)
    requires AwaitsKey(m, below, o) && PiecesValid(key, quote)
    ensures Run(cfg, m, [quote] + PiecesText(key) + [quote] + rest) == Run(cfg, n, rest)
    ensures n.top == Rec(EatWs, FieldEnd, o, Some(CStr(PiecesDenote(key)))) && n.below == below
    ensures n.loc == NO_LOCALS && n.obj == Null
  {
    hide Run, Step, PiecesText, PiecesDenote, CStr, AwaitsKey;
    var text, end := PiecesText(key), [quote] + rest;
    var m1 := OpenName(cfg, m, below, o, quote, text + end);
    var m2 := TakePieces(cfg, m1, key, end);
    assert "" + PiecesDenote(key) == PiecesDenote(key);
    n := CloseName(cfg, m2, rest);
    assert [quote] + (text + end) == [quote] + text + [quote] + rest;
  }

  lemma TakeColon(cfg: Config, m: Tok, rest: string) returns (n: Tok)
    requires m.top.state == EatWs && m.top.saved == FieldEnd && m.loc == NO_LOCALS && m.obj == Null
    ensures Run(cfg, m, ":" + rest) == Run(cfg, n, rest) && n == m.Then(ObjValue)
  {
    hide Run, Reads;
    n := ReadColonChar(cfg, m, rest);
    Unicode.ReadsIsRun(cfg, m, ":", n, rest);
  }

  /** A member from its name to the place where its value is read. */
  lemma ReadPairName(cfg: Config, m: Tok, below: seq<Rec>, o: Value, p: Pair, rest: string) returns (n: Tok)
    requires AwaitsKey(m, below, o) && PairValid(cfg, p) && |below| + 1 < cfg.maxDepth
    requires rest != "" && StartsValue(rest[0])
    ensures Run(cfg, m, GapText(p.lead) + ([p.quote] + PiecesText(p.key) + [p.quote] + (GapText(p.colon) + (":" +
      (GapText(p.value) + rest))))) == Run(cfg, n, rest)
    ensures Ready(n) && |n.below| == |below| + 1 && n.below[..|below|] == below
    ensures var r := n.below[|below|];
      r.current == o && r.field == Some(CStr(PiecesDenote(p.key))) && r.state == ObjValueAdd
  {
    hide Run, Step, GapText, Reads, Valid, GapValid, PiecesText, PiecesDenote, CStr, PiecesValid, StartsValue;
    var s3 := GapText(p.value) + rest;
    var s2 := GapText(p.colon) + (":" + s3);
    var m1 := TakeGap(cfg, m, p.lead, [p.quote] + PiecesText(p.key) + [p.quote] + s2);
    var m2 := ReadName(cfg, m1, below, o, p.quote, p.key, s2);
    var m3 := TakeGap(cfg, m2, p.colon, ":" + s3);
    var m4 := TakeColon(cfg, m3, s3);
    var m5 := TakeGap(cfg, m4, p.value, rest);
    n := PushMember(cfg, m5, below, o, CStr(PiecesDenote(p.key)), rest);
    Unicode.ReadsIsRun(cfg, m5, "", n, rest);
    assert "" + rest == rest;
  }

  lemma {:induction false} ReadPair(cfg: Config, m: Tok, below: seq<Rec>, o: Value, p: Pair, rest: string)
    returns (n: Tok)
    requires AwaitsKey(m, below, o) && PairValid(cfg, p) && rest != "" && Follows(rest[0])
    requires |below| + 1 < cfg.maxDepth && Fits(p.doc, |below| + 1, cfg.maxDepth)
    ensures Run(cfg, m, PairText(p) + rest) == Run(cfg, n, rest)
    ensures ChildRead(n, below, o, Some(CStr(PiecesDenote(p.key))), Meaning(cfg, p.doc))
    decreases p
  {
    hide Run, Step, GapText, DocText, Fits, Meaning, Valid, GapValid, PiecesText, PiecesDenote, CStr, PiecesValid,
      StartsValue, AwaitsKey, PairText;
    var text, tail := DocText(p.doc), GapText(p.tail);
    DocHead(cfg, p.doc);
    GapHead(p.tail, cfg.strict, rest);
    var m6 := ReadPairName(cfg, m, below, o, p, text + (tail + rest));
    var m7 := ReadDoc(cfg, m6, p.doc, tail + rest);
    n := TakeGap(cfg, m7, p.tail, rest);
    PairGlue(p, rest);
  }

  lemma PairGlue(p: Pair, rest: string)
    ensures GapText(p.lead) + ([p.quote] + PiecesText(p.key) + [p.quote] + (GapText(p.colon) + (":" +
      (GapText(p.value) + (DocText(p.doc) + (GapText(p.tail) + rest)))))) == PairText(p) + rest
  {
    hide GapText, PiecesText, DocText;
  }

  lemma AfterPair(pairs: seq<Pair>, i: nat, comma: bool, end: Gap, strict: bool, rest: string)
    requires i < |pairs| && GapValid(end, strict)
    ensures var s := PairsText(pairs, i + 1) + (Closing(comma, end, "}") + rest); s != "" && Follows(s[0])
  {
    hide GapText, PairText;
    GapHead(end, strict, "}" + rest);
    var close := Closing(comma, end, "}") + rest;
    assert close == (if comma then "," else "") + (GapText(end) + ("}" + rest));
    if i + 1 == |pairs| {
      assert PairsText(pairs, i + 1) + close == close;
    } else {
      assert PairsText(pairs, i + 1) == "," + PairText(pairs[i + 1]) + PairsText(pairs, i + 2);
    }
  }

  lemma PairsGlue(pairs: seq<Pair>, i: nat, close: string)
    requires i <= |pairs|
    ensures i == |pairs| ==> PairsText(pairs, i) + close == close
    ensures i < |pairs| ==>
      PairsText(pairs, i) + close == Comma(i == 0) + (PairText(pairs[i]) + (PairsText(pairs, i + 1) + close))
  {
    hide PairText;
  }

  lemma {:induction false} ReadPairs(cfg: Config, m: Tok, below: seq<Rec>, pairs: seq<Pair>, i: nat, comma: bool,
      end: Gap, rest: string)
    returns (n: Tok)
    requires i <= |pairs| && AfterPairs(cfg, m, below, pairs, i) && GapValid(end, cfg.strict)
    requires (comma ==> pairs != [] && !cfg.strict) && (pairs != [] ==> |below| + 1 < cfg.maxDepth)
    requires forall k :: 0 <= k < |pairs| ==> PairValid(cfg, pairs[k]) && Fits(pairs[k].doc, |below| + 1, cfg.maxDepth)
    ensures Run(cfg, m, PairsText(pairs, i) + (Closing(comma, end, "}") + rest)) == Run(cfg, n, rest)
    ensures Holds(n, below, Obj(Gather(MembersOf(cfg, pairs, |pairs|))))
    decreases pairs, |pairs| - i
  {
    hide Run, Closing, PairText, PairsText, PairValid, Fits, Meaning, ChildRead, AwaitsKey, Holds, GapValid,
      PiecesDenote, Gather, CStr;
    var close := Closing(comma, end, "}") + rest;
    if i == |pairs| {
      n := ClosePairs(cfg, m, below, pairs, comma, end, rest);
      PairsGlue(pairs, i, close);
    } else {
      var more := PairsText(pairs, i + 1) + close;
      AfterPair(pairs, i, comma, end, cfg.strict, rest);
      var m1 := NextPair(cfg, m, below, pairs, i, PairText(pairs[i]) + more);
      var m2 := ReadPair(cfg, m1, below, Obj(Gather(MembersOf(cfg, pairs, i))), pairs[i], more);
      n := ReadPairs(cfg, m2, below, pairs, i + 1, comma, end, rest);
      PairsGlue(pairs, i, close);
    }
  }

  // ----- one call -----

  /** A complete value stands in front of a character that belongs to nothing. */
  lemma StopBehind(cfg: Config, m: Tok, v: Value, rest: string)
    requires Holds(m, [], v) && rest != "" && !IsSpace(rest[0]) && (rest[0] == '/' ==> cfg.strict)
    ensures Run(cfg, m, rest) == End(m.Go(Finish), Success, rest[0] == '\0', rest)
  {
    hide Switch, Step;
    var k := m.Go(Finish);
    EatenUp(cfg, m, rest[0], rest[1..]);
    StepRedo(cfg, m, k, rest[0], rest[1..]);
    FinishEnds(cfg, k, rest[0], rest[1..]);
    assert rest[0..] == rest;
  }

  lemma EatenUp(cfg: Config, m: Tok, c: char, la: string)
    requires m.top.state == EatWs && !IsSpace(c) && (c == '/' ==> cfg.strict)
    ensures Switch(cfg, m, c, la) == Redo(m.Go(m.top.saved))
  {
  }

  lemma FinishEnds(cfg: Config, m: Tok, c: char, la: string)
    requires m.top.state == Finish && m.below == []
    ensures Step(cfg, m, c, la) == Stop(m, Success, 0)
  {
    assert Switch(cfg, m, c, la) == Stop(m, Success, 0);
  }

  lemma GapThenStop(cfg: Config, m: Tok, g: Gap, v: Value, rest: string) returns (n: Tok)
    requires Holds(m, [], v) && GapValid(g, cfg.strict)
    requires rest != "" && !IsSpace(rest[0]) && (rest[0] == '/' ==> cfg.strict)
    ensures Run(cfg, m, GapText(g) + rest) == End(n, Success, rest[0] == '\0', rest)
    ensures n == m.(pb := n.pb).Go(Finish)
  {
    hide Run;
    var k := TakeGap(cfg, m, g, rest);
    StopBehind(cfg, k, v, rest);
    n := k.Go(Finish);
  }

  /** Every document, with white space and comments around it, is parsed as what it means, up
      to the first character behind it.  Strict mode wants this to be the final NUL. */
  lemma ParseDocument(cfg: Config, m: Tok, before: Gap, d: Doc, after: Gap, rest: string)
    requires IsFresh(m) && GapValid(before, cfg.strict) && GapValid(after, cfg.strict)
    requires Valid(cfg, d) && Fits(d, 0, cfg.maxDepth)
    requires rest != "" && Follows(rest[0]) && !IsSpace(rest[0]) && (rest[0] == '/' ==> cfg.strict)
    ensures var text := GapText(before) + DocText(d) + GapText(after);
      var r := ParseEx(cfg, m, text + rest);
      && r.offset == |text|
      && (if cfg.strict && rest[0] != '\0' then r.err == ErrUnexpected
          else r.err == Success && r.value == Meaning(cfg, d) && IsFresh(r.m))
  {
    hide Run, Step, GapText, DocText, Meaning, GapValid, Valid, Fits;
    var end := GapText(after) + rest;
    assert GapText(before) + DocText(d) + GapText(after) + rest == GapText(before) + (DocText(d) + end);
    var m1 := TakeGap(cfg, Enter(m), before, DocText(d) + end);
    GapHead(after, cfg.strict, rest);
    var m2 := ReadDoc(cfg, m1, d, end);
    var n := GapThenStop(cfg, m2, after, Meaning(cfg, d), rest);
  }
}
