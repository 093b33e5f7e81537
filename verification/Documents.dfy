/**
 JSON documents as the tokener takes them: with comments, words in any case, two kinds of
 quotes and a comma behind the last child, all of which strict mode refuses; and what a
 document means.  Nothing here mentions the automaton.
 */
module Documents {
  import opened Json
  import opened Decimal
  import opened Numbers
  import TokenerSpec
  import Unicode

  // ----- white space and comments -----

  datatype Blank = Space(c: char) | Block(body: string) | Line(words: string)
  {
    function Text(): string {
      match this
      case Space(c) => [c]
      case Block(body) => "/*" + body + "*/"
      case Line(words) => "//" + words + "\n"
    }

    predicate Valid(strict: bool) {
      match this
      case Space(c) => IsSpace(c)
      case Block(body) => !strict && NulFree(body) && StaysOpen(body)
      case Line(words) => !strict && NulFree(words) && '\n' !in words
    }
  }

  /** The comment goes on: a star takes the next character with it, so that two stars and a
      slash do not end it. */
  predicate StaysOpen(body: string) {
    if body == "" then true
    else if body[0] != '*' then StaysOpen(body[1..])
    else |body| > 1 && body[1] != '/' && StaysOpen(body[2..])
  }

  type Gap = seq<Blank>

  function GapText(g: Gap): string {
    if g == [] then "" else g[0].Text() + GapText(g[1..])
  }

  predicate GapValid(g: Gap, strict: bool) {
    forall i :: 0 <= i < |g| ==> g[i].Valid(strict)
  }

  // ----- words -----

  datatype Word = NullWord | TrueWord | FalseWord | NanWord | InfinityWord
  {
    function Letters(): string {
      match this
      case NullWord => "null"
      case TrueWord => "true"
      case FalseWord => "false"
      case NanWord => "NaN"
      case InfinityWord => "Infinity"
    }

    function Denotes(): Value {
      match this
      case NullWord => Null
      case TrueWord => Bool(true)
      case FalseWord => Bool(false)
      case NanWord => NaN
      case InfinityWord => Infinity(false)
    }
  }

  function UpperCase(c: char): char {
    if 'a' <= c <= 'z' then (c as int - 32) as char else c
  }

  /** The letters of a word, in any case unless the mode is strict. */
  predicate Spells(text: string, word: string, strict: bool) {
    && |text| == |word|
    && forall i :: 0 <= i < |word| ==>
        if strict then text[i] == word[i] else UpperCase(text[i]) == UpperCase(word[i])
  }

  // ----- strings -----

  /** A character that stands for itself, an escape with one letter, or a run of escapes with
      four hexadecimal digits each. */
  datatype Piece = Raw(c: char) | Short(letter: char) | Hex(ds: seq<string>)
  {
    function Text(): string {
      match this
      case Raw(c) => [c]
      case Short(letter) => ['\\', letter]
      case Hex(ds) => Unicode.Escapes(ds)
    }

    ghost predicate Valid(quote: char) {
      match this
      case Raw(c) => c != quote && c != '\\' && c != '\0'
      case Short(letter) => letter in "\"\\/bfnrt"
      case Hex(ds) => ds != [] && Unicode.AllHex4(ds)
    }

    ghost function Denotes(): string {
      match this
      case Raw(c) => [c]
      case Short(letter) =>
        if letter == 'b' then [8 as char] else if letter == 'f' then [12 as char]
        else if letter == 'n' then [10 as char] else if letter == 'r' then [13 as char]
        else if letter == 't' then [9 as char] else [letter]
      case Hex(ds) => if Unicode.AllHex4(ds) then Unicode.Utf8All(Unicode.Written(Unicode.Units(ds), 0)) else ""
    }
  }

  function PiecesText(ps: seq<Piece>): string {
    if ps == [] then "" else ps[0].Text() + PiecesText(ps[1..])
  }

  ghost predicate PiecesValid(ps: seq<Piece>, quote: char) {
    && (quote == '"' || quote == '\'')
    && (forall i :: 0 <= i < |ps| ==> ps[i].Valid(quote))
    && (forall i :: 0 < i < |ps| ==> !(ps[i - 1].Hex? && ps[i].Hex?))
  }

  ghost function PiecesDenote(ps: seq<Piece>): string {
    if ps == [] then "" else ps[0].Denotes() + PiecesDenote(ps[1..])
  }

  // ----- documents -----

  datatype Doc =
    | WordDoc(word: Word, letters: string)
    | NumberDoc(x: Numeral)
    | StringDoc(quote: char, ps: seq<Piece>)
    | ArrayDoc(items: seq<Item>, comma: bool, end: Gap)
    | ObjectDoc(pairs: seq<Pair>, comma: bool, end: Gap)

  datatype Item = Item(lead: Gap, doc: Doc, tail: Gap)

  datatype Pair = Pair(lead: Gap, quote: char, key: seq<Piece>, colon: Gap, value: Gap, doc: Doc, tail: Gap)

  function Closing(comma: bool, end: Gap, bracket: string): string {
    (if comma then "," else "") + GapText(end) + bracket
  }

  function DocText(d: Doc): string {
    match d
    case WordDoc(_, letters) => letters
    case NumberDoc(x) => x.Text()
    case StringDoc(quote, ps) => [quote] + PiecesText(ps) + [quote]
    case ArrayDoc(items, comma, end) => "[" + ItemsText(items, 0) + Closing(comma, end, "]")
    case ObjectDoc(pairs, comma, end) => "{" + PairsText(pairs, 0) + Closing(comma, end, "}")
  }

  /** The children from the i-th on, with commas between them. */
  function ItemsText(items: seq<Item>, i: nat): string
    requires i <= |items|
    decreases items, |items| - i
  {
    if i == |items| then "" else
    (if i == 0 then "" else ",") + ItemText(items[i]) + ItemsText(items, i + 1)
  }

  function ItemText(it: Item): string {
    GapText(it.lead) + DocText(it.doc) + GapText(it.tail)
  }

  function PairsText(pairs: seq<Pair>, i: nat): string
    requires i <= |pairs|
    decreases pairs, |pairs| - i
  {
    if i == |pairs| then "" else
    (if i == 0 then "" else ",") + PairText(pairs[i]) + PairsText(pairs, i + 1)
  }

  function PairText(p: Pair): string {
    GapText(p.lead) + [p.quote] + PiecesText(p.key) + [p.quote] + GapText(p.colon) + ":" +
    GapText(p.value) + DocText(p.doc) + GapText(p.tail)
  }

  /** What the mode allows.  Numbers need a value, and strict mode wants double quotes around
      strings, but not around the names of members. */
  ghost predicate Valid(cfg: TokenerSpec.Config, d: Doc) {
    match d
    case WordDoc(word, letters) => Spells(letters, word.Letters(), cfg.strict)
    case NumberDoc(x) => x.Valid() && NumberValue(cfg, x).Some?
    case StringDoc(quote, ps) => PiecesValid(ps, quote) && (cfg.strict ==> quote == '"')
    case ArrayDoc(items, comma, end) =>
      && (comma ==> items != [] && !cfg.strict) && GapValid(end, cfg.strict)
      && forall i :: 0 <= i < |items| ==> ItemValid(cfg, items[i])
    case ObjectDoc(pairs, comma, end) =>
      && (comma ==> pairs != [] && !cfg.strict) && GapValid(end, cfg.strict)
      && forall i :: 0 <= i < |pairs| ==> PairValid(cfg, pairs[i])
  }

  ghost predicate ItemValid(cfg: TokenerSpec.Config, it: Item) {
    GapValid(it.lead, cfg.strict) && Valid(cfg, it.doc) && GapValid(it.tail, cfg.strict)
  }

  ghost predicate PairValid(cfg: TokenerSpec.Config, p: Pair) {
    && GapValid(p.lead, cfg.strict) && PiecesValid(p.key, p.quote) && GapValid(p.colon, cfg.strict)
    && GapValid(p.value, cfg.strict) && Valid(cfg, p.doc) && GapValid(p.tail, cfg.strict)
  }

  /** No child is deeper than the levels from `level` to `maxDepth` allow. */
  predicate Fits(d: Doc, level: nat, maxDepth: nat) {
    match d
    case ArrayDoc(items, _, _) =>
      items == [] || (level + 1 < maxDepth &&
        forall i :: 0 <= i < |items| ==> Fits(items[i].doc, level + 1, maxDepth))
    case ObjectDoc(pairs, _, _) =>
      pairs == [] || (level + 1 < maxDepth &&
        forall i :: 0 <= i < |pairs| ==> Fits(pairs[i].doc, level + 1, maxDepth))
    case _ => true
  }

  // ----- what a document means -----

  ghost function Meaning(cfg: TokenerSpec.Config, d: Doc): Value {
    match d
    case WordDoc(word, _) => word.Denotes()
    case NumberDoc(x) => if x.Valid() && NumberValue(cfg, x).Some? then NumberValue(cfg, x).value else Null
    case StringDoc(_, ps) => Str(PiecesDenote(ps))
    case ArrayDoc(items, _, _) => Arr(seq(|items|, i requires 0 <= i < |items| => Meaning(cfg, items[i].doc)))
    case ObjectDoc(pairs, _, _) =>
      // the name of a member is a C string
      Obj(Gather(seq(|pairs|, i requires 0 <= i < |pairs| =>
        Member(CStr(PiecesDenote(pairs[i].key)), Meaning(cfg, pairs[i].doc)))))
  }

  // ----- members with the same name -----

  /** The object that the members make up when they are added one after the other. */
  function Gather(ms: seq<Member>): seq<Member> {
    if ms == [] then [] else AddMember(Gather(ms[..|ms| - 1]), ms[|ms| - 1].key, ms[|ms| - 1].val)
  }

  predicate IsFirst(ms: seq<Member>, key: string, i: nat) {
    i < |ms| && ms[i].key == key && forall j :: 0 <= j < i ==> ms[j].key != key
  }

  predicate IsLast(ms: seq<Member>, key: string, i: nat) {
    i < |ms| && ms[i].key == key && forall j :: i < j < |ms| ==> ms[j].key != key
  }

  /** The k-th member of the object: its name was new at one place of the document, and its
      value comes from the last place with that name. */
  ghost predicate ComesFrom(ms: seq<Member>, r: Member, first: nat, last: nat) {
    IsFirst(ms, r.key, first) && IsLast(ms, r.key, last) && ms[last].val == r.val
  }

  /** Where each member of the object comes from. */
  ghost predicate Gathered(ms: seq<Member>, r: seq<Member>, firsts: seq<nat>, lasts: seq<nat>) {
    && |firsts| == |lasts| == |r|
    && (forall k :: 0 <= k < |r| ==> ComesFrom(ms, r[k], firsts[k], lasts[k]))
    && (forall k, l :: 0 <= k < l < |r| ==> firsts[k] < firsts[l])
    && (forall i :: 0 <= i < |ms| ==> HasKey(r, ms[i].key))
  }

  lemma {:induction false} AddAt(ms: seq<Member>, key: string, val: Value) returns (i: nat)
    requires HasKey(ms, key)
    ensures IsFirst(ms, key, i) && AddMember(ms, key, val) == ms[i := Member(key, val)]
  {
    i := 0;
    if ms[0].key != key {
      var j :| 0 <= j < |ms| && ms[j].key == key;
      assert ms[1..][j - 1].key == key;
      var k := AddAt(ms[1..], key, val);
      i := k + 1;
      assert ms == [ms[0]] + ms[1..];
      forall l | 0 <= l < i ensures ms[l].key != key {
        if l > 0 { assert ms[1..][l - 1] == ms[l]; }
      }
    }
  }

  /** The members of the object have the names of the document in the order in which they
      come first, each with the value that comes last. */
  lemma {:induction false} GatherMeans(ms: seq<Member>) returns (firsts: seq<nat>, lasts: seq<nat>)
    ensures Gathered(ms, Gather(ms), firsts, lasts)
  {
    firsts, lasts := [], [];
    if ms != [] {
      var n := |ms| - 1;
      var front, m := ms[..n], ms[n];
      firsts, lasts := GatherMeans(front);
      firsts, lasts := GatherOne(front, m, Gather(front), firsts, lasts);
      assert front + [m] == ms;
    }
  }

  lemma GatherOne(front: seq<Member>, m: Member, r: seq<Member>, firsts: seq<nat>, lasts: seq<nat>)
    returns (firsts1: seq<nat>, lasts1: seq<nat>)
    requires Gathered(front, r, firsts, lasts)
    ensures Gathered(front + [m], AddMember(r, m.key, m.val), firsts1, lasts1)
  {
    var n := |front|;
    var ms := front + [m];
    var r1 := AddMember(r, m.key, m.val);
    if HasKey(r, m.key) {
      var i := AddAt(r, m.key, m.val);
      firsts1, lasts1 := firsts, lasts[i := n];
      forall k | 0 <= k < |r1| ensures ComesFrom(ms, r1[k], firsts1[k], lasts1[k]) {
        assert ComesFrom(front, r[k], firsts[k], lasts[k]);
        if k != i {
          assert r[k].key != m.key by { OtherKey(front, r, firsts, lasts, i, k); }
        }
      }
      forall j | 0 <= j < |ms| ensures HasKey(r1, ms[j].key) {
        KeyStays(r, i, m, ms[j].key);
      }
    } else {
      firsts1, lasts1 := firsts + [n], lasts + [n];
      forall k | 0 <= k < |r1| ensures ComesFrom(ms, r1[k], firsts1[k], lasts1[k]) {
        if k < |r| {
          assert ComesFrom(front, r[k], firsts[k], lasts[k]);
          assert r[k].key != m.key;
        } else {
          forall j | 0 <= j < n ensures ms[j].key != m.key { assert HasKey(r, front[j].key); }
        }
      }
      forall j | 0 <= j < |ms| ensures HasKey(r1, ms[j].key) {
        if j < n {
          var k :| 0 <= k < |r| && r[k].key == front[j].key;
          assert r1[k].key == ms[j].key;
        } else {
          assert r1[|r|].key == m.key;
        }
      }
    }
  }

  lemma OtherKey(front: seq<Member>, r: seq<Member>, firsts: seq<nat>, lasts: seq<nat>, i: nat, k: nat)
    requires Gathered(front, r, firsts, lasts) && i < |r| && k < |r| && i != k
    ensures r[i].key != r[k].key
  {
    assert ComesFrom(front, r[i], firsts[i], lasts[i]) && ComesFrom(front, r[k], firsts[k], lasts[k]);
  }

  lemma KeyStays(r: seq<Member>, i: nat, m: Member, key: string)
    requires i < |r| && r[i].key == m.key && (HasKey(r, key) || key == m.key)
    ensures HasKey(r[i := m], key)
  {
    var r1 := r[i := m];
    if key == m.key {
      assert r1[i].key == key;
    } else {
      var k :| 0 <= k < |r| && r[k].key == key;
      assert r1[k].key == key;
    }
  }
}
