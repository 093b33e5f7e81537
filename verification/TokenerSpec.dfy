/**
 The push-down automaton of `fjson_tokener_parse_ex` as functions on a value.

 `Switch` is one pass through the `switch(state)` statement for one character,
 `Step` follows the `goto redo_char` jumps until the character is consumed or
 the parse stops, `Run` is the loop over one call's buffer and `ParseEx` the
 whole call.  The tight loops of the source are taken one character at a time;
 their local variables are fields here and are cleared whenever the source
 leaves the loop.
 */
module TokenerSpec {
  import opened Json
  import opened Decimal
  import opened PrintSpec

  datatype State =
    | EatWs | Start | Finish | NullState
    | CommentStart | Comment | CommentEol | CommentEnd
    | StringState | StringEscape | EscapeUnicode
    | BooleanState | Number
    | ArrayState | ArrayAdd | ArraySep
    | FieldStart | Field | FieldEnd
    | ObjValue | ObjValueAdd | ObjSep
    | ArrayAfterSep | FieldStartAfterSep | Inf

  /** `saved_state` is never "eatws". */
  type Saved = s: State | s != EatWs witness Start

  datatype Error =
    | Success | Continue | ErrDepth | ErrEof | ErrUnexpected | ErrNull | ErrBoolean
    | ErrNumber | ErrArray | ErrKeyName | ErrKeySep | ErrValueSep | ErrString | ErrComment
    | Undefined // a shift by a negative amount: the C standard gives it no meaning

  /** struct fjson_tokener_srec */
  datatype Rec = Rec(state: State, saved: Saved, current: Value, field: Option<string>)

  const FRESH := Rec(EatWs, Start, Null, None)

  /** `parseDouble` stands for the foreign sscanf("%lf"). */
  datatype Config = Config(maxDepth: nat, strict: bool, parseDouble: string -> bool)

  /** Local variables of the tight loops. */
  datatype Locals = Locals(hi: nat, caseLen: nat, isExp: bool, negLoc: nat)

  const NO_LOCALS := Locals(0, 0, false, 1)

  /** `top` is stack[depth], `below` is stack[0..depth]. */
  datatype Tok = Tok(
    top: Rec, below: seq<Rec>,
    pb: string, stPos: nat, ucs: nat, quote: char, isDouble: bool,
    obj: Value, loc: Locals)
  {
    function Go(s: State): Tok {
      this.(top := top.(state := s))
    }
    /** Skip white space, then continue in state `s`. */
    function Then(s: Saved): Tok {
      this.(top := top.(state := EatWs, saved := s))
    }
    function Done(v: Value): Tok {
      this.(top := top.(state := EatWs, saved := Finish, current := v))
    }
    function Append(s: string): Tok {
      this.(pb := pb + s)
    }
  }

  const INITIAL := Tok(FRESH, [], "", 0, 0, '\0', false, Null, NO_LOCALS)

  datatype Outcome =
    | Redo(m: Tok)
    | Advance(m: Tok, skip: nat)
    | Stop(m: Tok, err: Error, skip: nat)

  const NUMBER_CHARS := "0123456789.+-eE"
  const REPLACEMENT := [0xEF as char, 0xBF as char, 0xBD as char]

  predicate IsNumberChar(c: char) {
    c in NUMBER_CHARS
  }

  function Lower(c: char): char {
    if 'A' <= c <= 'Z' then (c as int + 32) as char else c
  }

  /** strncmp(lit, buf, n) == 0, or strncasecmp unless `strict`, for n <= |lit|. */
  predicate SameStart(lit: string, buf: string, n: nat, strict: bool)
    requires n <= |lit|
  {
    n <= |buf| && forall i :: 0 <= i < n ==>
      if strict then lit[i] == buf[i] else Lower(lit[i]) == Lower(buf[i])
  }

  function Min(a: nat, b: nat): nat {
    if a < b then a else b
  }

  // ----- the cases of the switch -----

  function OnEatWs(cfg: Config, m: Tok, c: char): Outcome {
    if IsSpace(c) then Advance(m, 1)
    else if c == '/' && !cfg.strict then Advance(m.(pb := [c]).Go(CommentStart), 1)
    else Redo(m.Go(m.top.saved))
  }

  function OnStart(cfg: Config, m: Tok, c: char): Outcome {
    if c == '{' then Advance(m.(top := m.top.(current := Obj([]))).Then(FieldStart), 1)
    else if c == '[' then Advance(m.(top := m.top.(current := Arr([]))).Then(ArrayState), 1)
    else if c == 'I' || c == 'i' then Redo(m.(pb := "", stPos := 0).Go(Inf))
    else if c == 'N' || c == 'n' then Redo(m.(pb := "", stPos := 0).Go(NullState))
    else if c == '\'' && cfg.strict then Stop(m, ErrUnexpected, 0)
    else if c == '\'' || c == '"' then Advance(m.(pb := "", quote := c).Go(StringState), 1)
    else if c == 'T' || c == 't' || c == 'F' || c == 'f' then Redo(m.(pb := "", stPos := 0).Go(BooleanState))
    else if IsDigit(c) || c == '-' then
      Redo(m.(pb := "", isDouble := false, loc := NO_LOCALS).Go(Number))
    else Stop(m, ErrUnexpected, 0)
  }

  /** With depth 0 the caller gets the value; otherwise the level is popped. */
  function OnFinish(m: Tok): Outcome {
    if m.below == [] then Stop(m, Success, 0)
    else
      var d := |m.below| - 1;
      Redo(m.(obj := m.top.current, top := m.below[d], below := m.below[..d]))
  }

  function OnInf(cfg: Config, m: Tok, c: char): Outcome {
    var m1 := m.Append([c]);
    var negative := m1.pb[0] == '-';
    var inf := if negative then m1.pb[1..] else m1.pb;
    if !SameStart("Infinity", inf, Min(m.stPos + 1, 8), cfg.strict) then Stop(m1, ErrUnexpected, 0)
    else if m.stPos == 8 then Redo(m1.Done(Infinity(negative)))
    else Advance(m1.(stPos := m.stPos + 1), 1)
  }

  function OnNull(cfg: Config, m: Tok, c: char): Outcome {
    var m1 := m.Append([c]);
    if SameStart("null", m1.pb, Min(m.stPos + 1, 4), cfg.strict) then
      if m.stPos == 4 then Redo(m1.Done(Null)) else Advance(m1.(stPos := m.stPos + 1), 1)
    else if SameStart("NaN", m1.pb, Min(m.stPos + 1, 3), cfg.strict) then
      if m.stPos == 3 then Redo(m1.Done(NaN)) else Advance(m1.(stPos := m.stPos + 1), 1)
    else Stop(m1, ErrNull, 0)
  }

  function OnBoolean(cfg: Config, m: Tok, c: char): Outcome {
    var m1 := m.Append([c]);
    if SameStart("true", m1.pb, Min(m.stPos + 1, 4), cfg.strict) then
      if m.stPos == 4 then Redo(m1.Done(Bool(true))) else Advance(m1.(stPos := m.stPos + 1), 1)
    else if SameStart("false", m1.pb, Min(m.stPos + 1, 5), cfg.strict) then
      if m.stPos == 5 then Redo(m1.Done(Bool(false))) else Advance(m1.(stPos := m.stPos + 1), 1)
    else Stop(m1, ErrBoolean, 0)
  }

  function OnComment(m: Tok, c: char): Outcome {
    match m.top.state
    case CommentStart =>
      if c == '*' then Advance(m.Append([c]).Go(Comment), 1)
      else if c == '/' then Advance(m.Append([c]).Go(CommentEol), 1)
      else Stop(m, ErrComment, 0)
    case Comment => Advance(m.Append([c]).Go(if c == '*' then CommentEnd else Comment), 1)
    case CommentEol =>
      if c == '\n' then Advance(m.Go(EatWs), 1) else Advance(m.Append([c]), 1)
    case _ => Advance(m.Append([c]).Go(if c == '/' then EatWs else Comment), 1)
  }

  /** Strings and field names: the closing quote and the backslash end the tight loop. */
  function OnQuoted(m: Tok, c: char): Outcome {
    if c == m.quote then
      if m.top.state == StringState then Advance(m.Done(Str(m.pb)), 1)
      else Advance(m.(top := m.top.(field := Some(CStr(m.pb)))).Then(FieldEnd), 1)
    else if c == '\\' then
      var s: Saved := if m.top.state == StringState then StringState else Field;
      Advance(m.(top := m.top.(state := StringEscape, saved := s)), 1)
    else Advance(m.Append([c]), 1)
  }

  function OnStringEscape(m: Tok, c: char): Outcome {
    var back := m.Go(m.top.saved);
    if c == '"' || c == '\\' || c == '/' then Advance(back.Append([c]), 1)
    else if c == 'b' then Advance(back.Append([BACKSPACE]), 1)
    else if c == 'n' then Advance(back.Append("\n"), 1)
    else if c == 'r' then Advance(back.Append("\r"), 1)
    else if c == 't' then Advance(back.Append("\t"), 1)
    else if c == 'f' then Advance(back.Append([FORMFEED]), 1)
    else if c == 'u' then Advance(m.(ucs := 0, stPos := 0, loc := NO_LOCALS).Go(EscapeUnicode), 1)
    else Stop(m, ErrString, 0)
  }

  /** strchr(fjson_hex_chars, c) also finds the terminating NUL. */
  predicate IsHexOrNul(c: char) {
    c in HEX_CHARS || c == '\0'
  }

  /** jt_hexdigit */
  function HexDigit(c: char): int {
    if c <= '9' then c as int - '0' as int else c as int % 8 + 9
  }

  function Pow16(n: nat): nat {
    if n == 0 then 1 else 16 * Pow16(n - 1)
  }

  predicate IsHighSurrogate(u: nat) {
    u % 0x1_0000 / 0x400 == 0x36
  }

  predicate IsLowSurrogate(u: nat) {
    u % 0x1_0000 / 0x400 == 0x37
  }

  function DecodeSurrogatePair(hi: nat, lo: nat): nat {
    hi % 0x400 * 0x400 + lo % 0x400 + 0x1_0000
  }

  /** The encoding used for everything that is not treated as a high surrogate. */
  function Encode(u: nat): string {
    if u < 0x80 then [u as char]
    else if u < 0x800 then [(0xC0 + u / 0x40) as char, (0x80 + u % 0x40) as char]
    else if IsLowSurrogate(u) then REPLACEMENT
    else if u < 0x1_0000 then
      [(0xE0 + u / 0x1000) as char, (0x80 + u / 0x40 % 0x40) as char, (0x80 + u % 0x40) as char]
    else if u < 0x11_0000 then
      [(0xF0 + u / 0x4_0000) as char, (0x80 + u / 0x1000 % 0x40) as char,
       (0x80 + u / 0x40 % 0x40) as char, (0x80 + u % 0x40) as char]
    else REPLACEMENT
  }

  function AddedDigit(m: Tok, c: char): Tok
    requires m.stPos < 4
  {
    m.(ucs := (m.ucs + HexDigit(c) * Pow16(3 - m.stPos)) % 0x1_0000_0000, stPos := m.stPos + 1)
  }

  /** `la` is what follows `c` in the buffer of this call. */
  function OnEscapeUnicode(m: Tok, c: char, la: string): Outcome {
    if !IsHexOrNul(c) then Stop(m.(loc := NO_LOCALS), ErrString, 0)
    else if m.stPos >= 4 then Stop(m, Undefined, 0)
    else
      var m1 := AddedDigit(m, c);
      if m1.stPos < 4 then Advance(m1, 1) else OnFourDigits(m1, c, la)
  }

  /** Four digits are complete: a pending high surrogate is joined with them or replaced. */
  function JoinPair(m: Tok): Tok {
    var hi := m.loc.hi;
    var low := hi != 0 && IsLowSurrogate(m.ucs);
    m.(ucs := if low then DecodeSurrogatePair(hi, m.ucs) else m.ucs, loc := NO_LOCALS,
       pb := m.pb + if hi != 0 && !low then REPLACEMENT else "")
  }

  /** Encode the code point, or look for a second escape after a high surrogate. */
  function OnCodePoint(m: Tok, c: char, la: string): Outcome {
    if m.ucs >= 0x800 && IsHighSurrogate(m.ucs) then
      if |la| >= 2 && la[0] == '\\' && la[1] == 'u' then
        if c == '\0' then Stop(m.(pb := m.pb + REPLACEMENT + REPLACEMENT), Success, 2)
        else if |la| == 2 then Stop(m.(pb := m.pb + REPLACEMENT), Continue, 3)
        else Advance(m.(ucs := 0, stPos := 0, loc := NO_LOCALS.(hi := m.ucs)), 3)
      else Advance(m.Append(REPLACEMENT).Go(m.top.saved), 1)
    else Advance(m.Append(Encode(m.ucs)).Go(m.top.saved), 1)
  }

  function OnFourDigits(m: Tok, c: char, la: string): Outcome {
    OnCodePoint(JoinPair(m), c, la)
  }

  lemma FourDigitsNoRedo(m: Tok, c: char, la: string)
    ensures !OnFourDigits(m, c, la).Redo?
  {
  }

  /** On an error the characters of the running tight loop are not yet in the buffer. */
  function DropPending(m: Tok): Tok {
    m.(pb := if m.loc.caseLen <= |m.pb| then m.pb[..|m.pb| - m.loc.caseLen] else "", loc := NO_LOCALS)
  }

  function OnNumber(cfg: Config, m: Tok, c: char): Outcome {
    if !IsNumberChar(c) then OnNumberEnd(cfg, m, c)
    else
      var len := m.loc.caseLen + 1;
      var e := c == 'e' || c == 'E';
      if (c == '.' && m.isDouble) || (e && m.loc.isExp) || (c == '-' && len != m.loc.negLoc)
      then Stop(DropPending(m), ErrNumber, 0)
      else
        Advance(m.(pb := m.pb + [c], isDouble := m.isDouble || c == '.' || e,
                   loc := m.loc.(caseLen := len, isExp := m.loc.isExp || e,
                                 negLoc := if e then len + 1 else m.loc.negLoc)), 1)
  }

  function OnNumberEnd(cfg: Config, m: Tok, c: char): Outcome {
    var m1 := m.(loc := NO_LOCALS);
    var first := if m.pb == "" then '\0' else m.pb[0];
    if first == '-' && m.loc.caseLen == 1 && (c == 'i' || c == 'I') then Redo(m1.Go(Inf))
    else
      var text := CStr(m.pb);
      var n := ParseInt64(text);
      if !m.isDouble && n.Some? then
        if n.value != 0 && first == '0' && cfg.strict then Stop(m1, ErrNumber, 0)
        else Redo(m1.Done(Int(n.value)))
      else if m.isDouble && cfg.parseDouble(text) then Redo(m1.Done(Double(text)))
      else Stop(m1, ErrNumber, 0)
  }

  /** One level down, if the stack has room. */
  function Push(cfg: Config, m: Tok, returnTo: State): Outcome {
    if |m.below| + 1 >= cfg.maxDepth then Stop(m, ErrDepth, 0)
    else Redo(m.(below := m.below + [m.top.(state := returnTo)], top := FRESH))
  }

  function OnArray(cfg: Config, m: Tok, c: char): Outcome {
    if c == ']' then
      if m.top.state == ArrayAfterSep && cfg.strict then Stop(m, ErrUnexpected, 0)
      else Advance(m.Then(Finish), 1)
    else Push(cfg, m, ArrayAdd)
  }

  function AddElem(a: Value, v: Value): Value {
    if a.Arr? then Arr(a.elems + [v]) else a
  }

  function AddPair(o: Value, key: Option<string>, v: Value): Value {
    if o.Obj? && key.Some? then Obj(AddMember(o.members, key.value, v)) else o
  }

  function OnArrayAdd(m: Tok): Outcome {
    Redo(m.(top := m.top.(current := AddElem(m.top.current, m.obj)), obj := Null).Then(ArraySep))
  }

  function OnArraySep(m: Tok, c: char): Outcome {
    if c == ']' then Advance(m.Then(Finish), 1)
    else if c == ',' then Advance(m.Then(ArrayAfterSep), 1)
    else Stop(m, ErrArray, 0)
  }

  function OnFieldStart(cfg: Config, m: Tok, c: char): Outcome {
    if c == '}' then
      if m.top.state == FieldStartAfterSep && cfg.strict then Stop(m, ErrUnexpected, 0)
      else Advance(m.Then(Finish), 1)
    else if c == '"' || c == '\'' then Advance(m.(quote := c, pb := "").Go(Field), 1)
    else Stop(m, ErrKeyName, 0)
  }

  function OnObjValueAdd(m: Tok): Outcome {
    var o := AddPair(m.top.current, m.top.field, m.obj);
    Redo(m.(top := m.top.(current := o, field := None), obj := Null).Then(ObjSep))
  }

  function OnObjSep(m: Tok, c: char): Outcome {
    if c == '}' then Advance(m.Then(Finish), 1)
    else if c == ',' then Advance(m.Then(FieldStartAfterSep), 1)
    else Stop(m, ErrValueSep, 0)
  }

  function Switch(cfg: Config, m: Tok, c: char, la: string): Outcome {
    match m.top.state
    case EatWs => OnEatWs(cfg, m, c)
    case Start => OnStart(cfg, m, c)
    case Finish => OnFinish(m)
    case Inf => OnInf(cfg, m, c)
    case NullState => OnNull(cfg, m, c)
    case CommentStart => OnComment(m, c)
    case Comment => OnComment(m, c)
    case CommentEol => OnComment(m, c)
    case CommentEnd => OnComment(m, c)
    case StringState => OnQuoted(m, c)
    case Field => OnQuoted(m, c)
    case StringEscape => OnStringEscape(m, c)
    case EscapeUnicode => OnEscapeUnicode(m, c, la)
    case BooleanState => OnBoolean(cfg, m, c)
    case Number => OnNumber(cfg, m, c)
    case ArrayState => OnArray(cfg, m, c)
    case ArrayAfterSep => OnArray(cfg, m, c)
    case ArrayAdd => OnArrayAdd(m)
    case ArraySep => OnArraySep(m, c)
    case FieldStart => OnFieldStart(cfg, m, c)
    case FieldStartAfterSep => OnFieldStart(cfg, m, c)
    case FieldEnd => if c == ':' then Advance(m.Then(ObjValue), 1) else Stop(m, ErrKeySep, 0)
    case ObjValue => Push(cfg, m, ObjValueAdd)
    case ObjValueAdd => OnObjValueAdd(m)
    case ObjSep => OnObjSep(m, c)
  }

  // ----- redo_char jumps -----

  /** The automaton is about to read the first character of a value. */
  predicate AtValueStart(m: Tok, c: char) {
    match m.top.state
    case Start => true
    case EatWs => m.top.saved == Start
    case Number => IsNumberChar(c)
    case Inf => m.stPos == 0
    case NullState => m.stPos == 0
    case BooleanState => m.stPos == 0
    case _ => false
  }

  function Level(m: Tok, c: char): nat {
    if AtValueStart(m, c) then 0 else |m.below| + 1
  }

  function StateRank(s: State): nat {
    match s
    case Start => 9
    case Number => 8
    case Inf => 7
    case NullState => 7
    case BooleanState => 7
    case Finish => 5
    case ArrayAdd => 3
    case ObjValueAdd => 3
    case ArrayState => 1
    case ArrayAfterSep => 1
    case ObjValue => 1
    case _ => 0
  }

  function Rank(m: Tok): nat {
    if m.top.state == EatWs then 1 + StateRank(m.top.saved) else StateRank(m.top.state)
  }

  /** Every jump to `redo_char`, from any state whatsoever, lowers a measure
      that does not involve the input. */
  lemma RedoDecreases(cfg: Config, m: Tok, c: char, la: string)
    requires Switch(cfg, m, c, la).Redo?
    ensures var n := Switch(cfg, m, c, la).m;
            Level(n, c) < Level(m, c) || (Level(n, c) == Level(m, c) && Rank(n) < Rank(m))
  {
    match m.top.state
    case EatWs => assert OnEatWs(cfg, m, c).Redo?;
    case Start => StartRedo(cfg, m, c);
    case Number => assert OnNumberEnd(cfg, m, c).Redo?;
    case _ =>
  }

  lemma StartRedo(cfg: Config, m: Tok, c: char)
    requires OnStart(cfg, m, c).Redo?
    ensures var n := OnStart(cfg, m, c).m; AtValueStart(n, c) && n.top.state in {Inf, NullState, BooleanState, Number}
  {
  }

  lemma SwitchSkips(cfg: Config, m: Tok, c: char, la: string)
    ensures var o := Switch(cfg, m, c, la);
            (o.Advance? ==> o.skip == 1 || (o.skip == 3 && |la| >= 3)) && (o.Stop? ==> o.skip <= |la| + 1)
  {
    hide ParseInt64, CStr, SameStart, AddMember, Encode, HexDigit, Pow16, DecodeSurrogatePair;
    match m.top.state
    case EscapeUnicode => assert !OnEscapeUnicode(m, c, la).Redo?;
    case Number => assert OnNumber(cfg, m, c).Advance? ==> OnNumber(cfg, m, c).skip == 1;
    case _ =>
  }

  function Step(cfg: Config, m: Tok, c: char, la: string): (o: Outcome)
    ensures !o.Redo?
    ensures o.Advance? ==> o.skip == 1 || (o.skip == 3 && |la| >= 3)
    ensures o.Stop? ==> o.skip <= |la| + 1
    decreases Level(m, c), Rank(m)
  {
    SwitchSkips(cfg, m, c, la);
    match Switch(cfg, m, c, la)
    case Redo(n) =>
      RedoDecreases(cfg, m, c, la);
      Step(cfg, n, c, la)
    case Advance(n, k) => Advance(n, k)
    case Stop(n, e, k) => Stop(n, e, k)
  }

  // ----- one call -----

  /** Where a call's loop ends: the machine, the error set so far, whether the
      last character read was a NUL, and the input that is left. */
  datatype End = End(m: Tok, err: Error, nul: bool, rest: string)

  predicate IsDone(m: Tok) {
    m.below == [] && m.top.state == EatWs && m.top.saved == Finish
  }

  /** A tight loop that runs out of input inside a surrogate pair. */
  function Pending(m: Tok): Tok {
    if m.top.state == EscapeUnicode && m.loc.hi != 0 then m.Append(REPLACEMENT) else m
  }

  function Run(cfg: Config, m: Tok, s: string): (r: End)
    ensures |r.rest| <= |s|
    decreases |s|
  {
    if s == "" then End(Pending(m).(loc := NO_LOCALS), if IsDone(m) then Success else Continue, false, "")
    else
      match Step(cfg, m, s[0], s[1..])
      case Advance(n, k) =>
        if s[0] == '\0' then End(Pending(n).(loc := NO_LOCALS), Success, true, s[k..])
        else Run(cfg, n, s[k..])
      case Stop(n, e, k) => End(n.(loc := NO_LOCALS), e, s[0] == '\0', s[k..])
  }

  /** The code behind the label `out`. */
  function FinalError(cfg: Config, r: End): Error {
    var e := if !r.nul && r.m.top.state == Finish && r.m.below == [] && cfg.strict
             then ErrUnexpected else r.err;
    if r.nul && r.m.top.state != Finish && r.m.top.saved != Finish then ErrEof else e
  }

  /** `offset` is `char_offset` on return. */
  datatype Result = Result(m: Tok, err: Error, value: Value, offset: nat)

  function Enter(m: Tok): Tok {
    m.(obj := Null, loc := NO_LOCALS)
  }

  /** After a success every level is reset, but `depth` keeps its value. */
  function ResetAll(m: Tok): Tok {
    m.(top := FRESH, below := seq(|m.below|, _ => FRESH))
  }

  function ParseEx(cfg: Config, m: Tok, s: string): Result {
    var r := Run(cfg, Enter(m), s);
    var e := FinalError(cfg, r);
    var used := |s| - |r.rest|;
    if e == Success then Result(ResetAll(r.m), e, r.m.top.current, used) else Result(r.m, e, Null, used)
  }
}
