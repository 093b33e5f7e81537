/**
 `fjson_tokener_parse_ex` as it is written: one loop over the buffer, tight inner
 loops for white space, comments, strings, numbers and unicode escapes, and an
 explicit stack that is updated in place.  Every part is proved against the
 automaton of TokenerSpec.
 */
module Tokener {
  import opened Json
  import opened Decimal
  import opened PrintSpec
  import opened TokenerSpec

  /** How a case of the switch ends: `goto redo_char`, `break`, or `goto out`. */
  datatype Act = REDO | BREAK | OUT

  /** What `break` leads to: the character is consumed; a NUL ends the call. */
  function AfterBreak(cfg: Config, m: Tok, s: string): End
    requires s != ""
  {
    if s[0] == '\0' then End(Pending(m).(loc := NO_LOCALS), Success, true, s[1..]) else Run(cfg, m, s[1..])
  }

  /** The call goes on from `m1` on the input `s1` like it would from `m0` on `s0`. */
  ghost predicate Obeys(cfg: Config, m0: Tok, s0: string, act: Act, m1: Tok, s1: string, err: Error, c: char) {
    match act
    case REDO =>
      && s1 != "" && c == s1[0] && |s1| <= |s0| && Run(cfg, m0, s0) == Run(cfg, m1, s1)
      && (|s1| < |s0| || Level(m1, c) < Level(m0, c) || (Level(m1, c) == Level(m0, c) && Rank(m1) < Rank(m0)))
    case BREAK =>
      s1 != "" && c == s1[0] && |s1| <= |s0| && Run(cfg, m0, s0) == AfterBreak(cfg, m1, s1)
    case OUT =>
      Run(cfg, m0, s0) == End(m1, err, c == '\0', s1)
  }

  /** One pass through the switch, seen from the loop. */
  lemma Unroll(cfg: Config, m: Tok, s: string)
    requires s != ""
    ensures var o := Switch(cfg, m, s[0], s[1..]);
      match o
      case Redo(n) => Run(cfg, m, s) == Run(cfg, n, s)
      case Advance(n, k) => (k == 1 || (k == 3 && |s| > 3)) &&
        Run(cfg, m, s) ==
          if s[0] == '\0' then End(Pending(n).(loc := NO_LOCALS), Success, true, s[k..]) else Run(cfg, n, s[k..])
      case Stop(n, e, k) => k <= |s| && Run(cfg, m, s) == End(n.(loc := NO_LOCALS), e, s[0] == '\0', s[k..])
  {
    hide Switch;
    SwitchSkips(cfg, m, s[0], s[1..]);
  }

  lemma RunOut(cfg: Config, m: Tok)
    ensures Run(cfg, m, "") == End(Pending(m).(loc := NO_LOCALS), if IsDone(m) then Success else Continue, false, "")
  {
  }

  /** A case that does what `Switch` says, for the character it was given. */
  ghost predicate Follows(o: Outcome, act: Act, m: Tok, err: Error) {
    match act
    case REDO => o == Redo(m)
    case BREAK => o == Advance(m, 1)
    case OUT => o.Stop? && o.m.(loc := NO_LOCALS) == m && o.err == err && o.skip == 0
  }

  lemma FollowsObeys(cfg: Config, m: Tok, s: string, act: Act, n: Tok, err: Error)
    requires s != "" && Follows(Switch(cfg, m, s[0], s[1..]), act, n, err)
    ensures Obeys(cfg, m, s, act, n, s, err, s[0])
  {
    hide Switch, Run;
    Unroll(cfg, m, s);
    if act == REDO {
      RedoDecreases(cfg, m, s[0], s[1..]);
    }
  }

  predicate InText(s: State) {
    s == Comment || s == CommentEol || s == StringState || s == Field
  }

  /** The character that ends a tight loop collecting text. */
  predicate EndsText(m: Tok, c: char) {
    match m.top.state
    case Comment => c == '*'
    case CommentEol => c == '\n'
    case _ => c == m.quote || c == '\\'
  }

  /** One character of a tight loop that collects text. */
  lemma TextStep(cfg: Config, m: Tok, str: string, start: nat, i: nat)
    requires start <= i < |str| && m.loc == NO_LOCALS && InText(m.top.state) && !EndsText(m, str[i])
    ensures Run(cfg, m.Append(str[start..i]), str[i..]) ==
      if str[i] == '\0' then End(m.Append(str[start..i + 1]), Success, true, str[i + 1..])
      else Run(cfg, m.Append(str[start..i + 1]), str[i + 1..])
  {
    hide Run;
    var k := m.Append(str[start..i]);
    assert str[i..][0] == str[i] && str[i..][1..] == str[i + 1..];
    assert k.pb + [str[i]] == m.pb + str[start..i + 1];
    assert Switch(cfg, k, str[i], str[i + 1..]) == Advance(k.Append([str[i]]), 1);
    hide Switch;
    Unroll(cfg, k, str[i..]);
  }

  /** The number state while its characters `text` are still in the input. */
  function Collecting(m: Tok, text: string, isDouble: bool, isExp: bool, negLoc: nat): Tok {
    m.(pb := m.pb + text, isDouble := isDouble, loc := Locals(0, |text|, isExp, negLoc))
  }

  lemma CollectingNothing(m: Tok, str: string, start: nat)
    requires start <= |str| && m.loc == NO_LOCALS
    ensures Collecting(m, str[start..start], m.isDouble, false, 1) == m
  {
    assert m.pb + str[start..start] == m.pb;
  }

  predicate BadNumberChar(c: char, len: nat, isDouble: bool, isExp: bool, negLoc: nat) {
    (c == '.' && isDouble) || ((c == 'e' || c == 'E') && isExp) || (c == '-' && len != negLoc)
  }

  lemma NumberStep(cfg: Config, m: Tok, str: string, start: nat, i: nat, isDouble: bool, isExp: bool, negLoc: nat)
    requires start <= i < |str| && m.top.state == Number && m.loc == NO_LOCALS && IsNumberChar(str[i])
    ensures var c, len, e := str[i], i - start + 1, str[i] == 'e' || str[i] == 'E';
      c != '\0' && Run(cfg, Collecting(m, str[start..i], isDouble, isExp, negLoc), str[i..]) ==
        if BadNumberChar(c, len, isDouble, isExp, negLoc) then End(m.(isDouble := isDouble), ErrNumber, false, str[i..])
        else Run(cfg, Collecting(m, str[start..i + 1], isDouble || c == '.' || e, isExp || e,
                                 if e then len + 1 else negLoc),
                 str[i + 1..])
  {
    hide Run, OnNumberEnd;
    var k := Collecting(m, str[start..i], isDouble, isExp, negLoc);
    var c := str[i];
    NumberCharNotNul(c);
    assert str[i..][0] == c && str[i..][1..] == str[i + 1..] && str[i..][0..] == str[i..];
    Unroll(cfg, k, str[i..]);
    assert k.pb[..|k.pb| - k.loc.caseLen] == m.pb;
    assert k.pb + [c] == m.pb + str[start..i + 1];
  }

  lemma AppendNothing(m: Tok)
    ensures m.Append("") == m
  {
  }

  predicate IsEscapeLetter(c: char) {
    c == '"' || c == '\\' || c == '/' || c == 'b' || c == 'n' || c == 'r' || c == 't' || c == 'f'
  }

  function Unescaped(c: char): char {
    if c == 'b' then BACKSPACE else if c == 'n' then '\n' else if c == 'r' then '\r'
    else if c == 't' then '\t' else if c == 'f' then FORMFEED else c
  }

  lemma EscapeOutcome(m: Tok, c: char)
    ensures OnStringEscape(m, c) ==
      if c == 'u' then Advance(m.(ucs := 0, stPos := 0, loc := NO_LOCALS).Go(EscapeUnicode), 1)
      else if IsEscapeLetter(c) then Advance(m.Append([Unescaped(c)]).Go(m.top.saved), 1)
      else Stop(m, ErrString, 0)
  {
  }

  /** Inside the loop for unicode escapes. */
  function AfterHigh(m: Tok, gotHi: nat): Tok {
    m.(loc := NO_LOCALS.(hi := gotHi))
  }

  function AfterOutcome(cfg: Config, o: Outcome, s: string): End
    requires s != "" && !o.Redo? && o.skip <= |s|
  {
    if o.Stop? then End(o.m.(loc := NO_LOCALS), o.err, s[0] == '\0', s[o.skip..])
    else if s[0] == '\0' then End(Pending(o.m).(loc := NO_LOCALS), Success, true, s[o.skip..])
    else Run(cfg, o.m, s[o.skip..])
  }

  lemma EscapeUnroll(cfg: Config, k: Tok, s: string)
    requires s != "" && k.top.state == EscapeUnicode
    ensures var o := OnEscapeUnicode(k, s[0], s[1..]);
      !o.Redo? && o.skip <= |s| && Run(cfg, k, s) == AfterOutcome(cfg, o, s)
  {
    hide Run, OnFourDigits, HexDigit, Pow16, IsHexOrNul;
    Unroll(cfg, k, s);
    assert Switch(cfg, k, s[0], s[1..]) == OnEscapeUnicode(k, s[0], s[1..]);
    if k.stPos < 4 {
      FourDigitsNoRedo(AddedDigit(k, s[0]), s[0], s[1..]);
    }
  }

  lemma BadEscape(cfg: Config, k: Tok, s: string)
    requires s != "" && k.top.state == EscapeUnicode && (!IsHexOrNul(s[0]) || k.stPos >= 4)
    ensures Run(cfg, k, s) ==
      End(k.(loc := NO_LOCALS), if !IsHexOrNul(s[0]) then ErrString else Undefined, s[0] == '\0', s)
  {
  }

  lemma EscapeDigit(cfg: Config, k: Tok, s: string)
    requires s != "" && k.top.state == EscapeUnicode && IsHexOrNul(s[0]) && k.stPos < 3
    ensures var n := AddedDigit(k, s[0]);
      && Run(cfg, k, s) == (if s[0] == '\0' then End(Pending(n).(loc := NO_LOCALS), Success, true, s[1..])
                            else Run(cfg, n, s[1..]))
      && Run(cfg, n, "") == End(Pending(n).(loc := NO_LOCALS), Continue, false, "")
  {
  }

  lemma EscapeLastDigit(cfg: Config, k: Tok, s: string)
    requires s != "" && k.top.state == EscapeUnicode && IsHexOrNul(s[0]) && k.stPos == 3
    ensures var o := OnFourDigits(AddedDigit(k, s[0]), s[0], s[1..]);
      !o.Redo? && o.skip <= |s| && Run(cfg, k, s) == AfterOutcome(cfg, o, s)
  {
    hide Run, OnFourDigits, HexDigit, Pow16, IsHexOrNul;
    EscapeUnroll(cfg, k, s);
  }

  /** States whose case reads further characters by itself. */
  predicate InTightState(s: State) {
    s == EatWs || s == Comment || s == CommentEol || s == StringState || s == Field || s == EscapeUnicode || s == Number
  }

  class Tokener {
    const cfg: Config
    const stack: array<Rec>
    var depth: nat
    var pb: string
    var stPos: nat
    var ucs: nat
    var quote: char
    var isDouble: bool
    var charOffset: nat
    var err: Error

    ghost predicate Valid()
      reads this`depth
    {
      stack.Length == cfg.maxDepth && depth < stack.Length
    }

    /** The state as a value; `obj` is the local variable of that name. */
    ghost function Machine(obj: Value): Tok
      requires Valid()
      reads this`depth, this`pb, this`stPos, this`ucs, this`quote, this`isDouble, stack
    {
      Tok(stack[depth], stack[..depth], pb, stPos, ucs, quote, isDouble, obj, NO_LOCALS)
    }

    lemma Shows(obj: Value)
      requires Valid()
      ensures var m := Machine(obj);
        && m.top == stack[depth] && m.pb == pb && m.stPos == stPos && m.ucs == ucs && m.quote == quote
        && m.isDouble == isDouble && m.loc == NO_LOCALS && (m.below == [] <==> depth == 0)
    {
    }

    /** printbuf_memappend_fast */
    method AppendText(t: string, ghost obj: Value)
      requires Valid()
      modifies this`pb
      ensures Valid() && Machine(obj) == old(Machine(obj)).Append(t)
    {
      pb := pb + t;
    }

    /** fjson_tokener_new_ex */
    constructor (config: Config)
      requires config.maxDepth >= 1
      ensures Valid() && cfg == config && fresh(stack) && Machine(Null) == INITIAL && err == Success
    {
      cfg := config;
      stack := new Rec[config.maxDepth](_ => FRESH);
      depth, pb, stPos, ucs, quote, isDouble := 0, "", 0, 0, '\0', false;
      charOffset, err := 0, Success;
    }

    method SetState(s: State, ghost obj: Value)
      requires Valid()
      modifies stack
      ensures Valid() && Machine(obj) == old(Machine(obj)).Go(s)
    {
      stack[depth] := stack[depth].(state := s);
    }

    /** state = eatws; saved_state = s */
    method SetThen(s: Saved, ghost obj: Value)
      requires Valid()
      modifies stack
      ensures Valid() && Machine(obj) == old(Machine(obj)).Then(s)
    {
      stack[depth] := stack[depth].(state := EatWs, saved := s);
    }

    method SetCurrent(v: Value, ghost obj: Value)
      requires Valid()
      modifies stack
      ensures Valid() && Machine(obj) == old(Machine(obj)).(top := old(Machine(obj)).top.(current := v))
    {
      stack[depth] := stack[depth].(current := v);
    }

    /** current = v; saved_state = finish; state = eatws */
    method SetDone(v: Value, ghost obj: Value)
      requires Valid()
      modifies stack
      ensures Valid() && Machine(obj) == old(Machine(obj)).Done(v)
    {
      SetCurrent(v, obj);
      SetThen(Finish, obj);
    }

    /** fjson_tokener_reset_level */
    method ResetLevel(d: nat)
      requires Valid() && d < stack.Length
      modifies stack
      ensures stack[..] == old(stack[..])[d := FRESH]
    {
      stack[d] := FRESH;
    }

    method BeginWord(s: State, ghost obj: Value) returns (act: Act)
      requires Valid()
      modifies this`pb, this`stPos, stack
      ensures Valid() && act == REDO && Machine(obj) == old(Machine(obj)).(pb := "", stPos := 0).Go(s)
    {
      pb, stPos := "", 0;
      SetState(s, obj);
      act := REDO;
    }

    method BeginString(c: char, ghost obj: Value)
      requires Valid()
      modifies this`pb, this`quote, stack
      ensures Valid() && Machine(obj) == old(Machine(obj)).(pb := "", quote := c).Go(StringState)
    {
      pb, quote := "", c;
      SetState(StringState, obj);
    }

    method BeginNumber(ghost obj: Value) returns (act: Act)
      requires Valid()
      modifies this`pb, this`isDouble, stack
      ensures Valid() && act == REDO && Machine(obj) == old(Machine(obj)).(pb := "", isDouble := false).Go(Number)
    {
      pb, isDouble := "", false;
      SetState(Number, obj);
      act := REDO;
    }

    method StartCase(c: char, ghost obj: Value) returns (act: Act)
      requires Valid() && stack[depth].state == Start && err == Success
      modifies this, stack
      ensures Valid() && charOffset == old(charOffset)
      ensures Follows(OnStart(cfg, old(Machine(obj)), c), act, Machine(obj), err) && (act != OUT ==> err == Success)
    {
      hide Machine;
      Shows(obj);
      act := BREAK;
      if c == '{' {
        SetThen(FieldStart, obj);
        SetCurrent(Obj([]), obj);
      } else if c == '[' {
        SetThen(ArrayState, obj);
        SetCurrent(Arr([]), obj);
      } else if c == 'I' || c == 'i' {
        act := BeginWord(Inf, obj);
      } else if c == 'N' || c == 'n' {
        act := BeginWord(NullState, obj);
      } else if c == '\'' && cfg.strict {
        err := ErrUnexpected;
        act := OUT;
      } else if c == '\'' || c == '"' {
        BeginString(c, obj);
      } else if c == 'T' || c == 't' || c == 'F' || c == 'f' {
        act := BeginWord(BooleanState, obj);
      } else if IsDigit(c) || c == '-' {
        act := BeginNumber(obj);
      } else {
        err := ErrUnexpected;
        act := OUT;
      }
    }

    /** finish: hand the value to the level below, or stop at level 0. */
    method FinishCase(obj: Value) returns (act: Act, newObj: Value)
      requires Valid() && stack[depth].state == Finish && err == Success
      modifies this, stack
      ensures Valid() && charOffset == old(charOffset) && err == Success
      ensures Follows(OnFinish(old(Machine(obj))), act, Machine(newObj), err)
    {
      newObj := obj;
      if depth == 0 { return OUT, newObj; }
      newObj := stack[depth].current;
      ResetLevel(depth);
      depth := depth - 1;
      act := REDO;
    }

    method InfCase(c: char, ghost obj: Value) returns (act: Act)
      requires Valid() && stack[depth].state == Inf && err == Success
      modifies this, stack
      ensures Valid() && charOffset == old(charOffset)
      ensures Follows(OnInf(cfg, old(Machine(obj)), c), act, Machine(obj), err) && (act != OUT ==> err == Success)
    {
      hide SameStart;
      pb := pb + [c];
      var size := Min(stPos + 1, 8);
      var negative := pb[0] == '-';
      var infbuf := if negative then pb[1..] else pb;
      if SameStart("Infinity", infbuf, size, cfg.strict) {
        if stPos == 8 {
          SetDone(Infinity(negative), obj);
          return REDO;
        }
      } else {
        err := ErrUnexpected;
        return OUT;
      }
      stPos := stPos + 1;
      act := BREAK;
    }

    method NullCase(c: char, ghost obj: Value) returns (act: Act)
      requires Valid() && stack[depth].state == NullState && err == Success
      modifies this, stack
      ensures Valid() && charOffset == old(charOffset)
      ensures Follows(OnNull(cfg, old(Machine(obj)), c), act, Machine(obj), err) && (act != OUT ==> err == Success)
    {
      hide SameStart;
      pb := pb + [c];
      var size, sizeNan := Min(stPos + 1, 4), Min(stPos + 1, 3);
      if SameStart("null", pb, size, cfg.strict) {
        if stPos == 4 {
          SetDone(Null, obj);
          return REDO;
        }
      } else if SameStart("NaN", pb, sizeNan, cfg.strict) {
        if stPos == 3 {
          SetDone(NaN, obj);
          return REDO;
        }
      } else {
        err := ErrNull;
        return OUT;
      }
      stPos := stPos + 1;
      act := BREAK;
    }

    method BooleanCase(c: char, ghost obj: Value) returns (act: Act)
      requires Valid() && stack[depth].state == BooleanState && err == Success
      modifies this, stack
      ensures Valid() && charOffset == old(charOffset)
      ensures Follows(OnBoolean(cfg, old(Machine(obj)), c), act, Machine(obj), err) && (act != OUT ==> err == Success)
    {
      hide SameStart;
      pb := pb + [c];
      var size1, size2 := Min(stPos + 1, 4), Min(stPos + 1, 5);
      if SameStart("true", pb, size1, cfg.strict) {
        if stPos == 4 {
          SetDone(Bool(true), obj);
          return REDO;
        }
      } else if SameStart("false", pb, size2, cfg.strict) {
        if stPos == 5 {
          SetDone(Bool(false), obj);
          return REDO;
        }
      } else {
        err := ErrBoolean;
        return OUT;
      }
      stPos := stPos + 1;
      act := BREAK;
    }

    method StringEscapeCase(c: char, ghost obj: Value) returns (act: Act)
      requires Valid() && stack[depth].state == StringEscape && err == Success
      modifies this, stack
      ensures Valid() && charOffset == old(charOffset)
      ensures Follows(OnStringEscape(old(Machine(obj)), c), act, Machine(obj), err) && (act != OUT ==> err == Success)
    {
      hide OnStringEscape;
      EscapeOutcome(Machine(obj), c);
      if c == 'u' {
        ucs, stPos := 0, 0;
        SetState(EscapeUnicode, obj);
        return BREAK;
      }
      if !IsEscapeLetter(c) {
        err := ErrString;
        return OUT;
      }
      pb := pb + [Unescaped(c)];
      SetState(stack[depth].saved, obj);
      act := BREAK;
    }

    /** depth++ with the level to return to, if there is room. */
    method PushLevel(returnTo: State, ghost obj: Value) returns (act: Act)
      requires Valid() && err == Success
      modifies this, stack
      ensures Valid() && charOffset == old(charOffset)
      ensures Follows(Push(cfg, old(Machine(obj)), returnTo), act, Machine(obj), err) && (act != OUT ==> err == Success)
    {
      if depth >= cfg.maxDepth - 1 {
        err := ErrDepth;
        return OUT;
      }
      SetState(returnTo, obj);
      depth := depth + 1;
      ResetLevel(depth);
      act := REDO;
    }

    method ArrayCase(c: char, ghost obj: Value) returns (act: Act)
      requires Valid() && (stack[depth].state == ArrayState || stack[depth].state == ArrayAfterSep) && err == Success
      modifies this, stack
      ensures Valid() && charOffset == old(charOffset)
      ensures Follows(OnArray(cfg, old(Machine(obj)), c), act, Machine(obj), err) && (act != OUT ==> err == Success)
    {
      if c == ']' {
        if stack[depth].state == ArrayAfterSep && cfg.strict {
          err := ErrUnexpected;
          return OUT;
        }
        SetThen(Finish, obj);
        act := BREAK;
      } else {
        act := PushLevel(ArrayAdd, obj);
      }
    }

    /** array_add and object_value_add: the finished child goes into `current`. */
    method AddCase(obj: Value) returns (newObj: Value)
      requires Valid() && (stack[depth].state == ArrayAdd || stack[depth].state == ObjValueAdd)
      modifies stack
      ensures Valid() && newObj == Null
      ensures old(stack[depth]).state == ArrayAdd ==> OnArrayAdd(old(Machine(obj))) == Redo(Machine(newObj))
      ensures old(stack[depth]).state == ObjValueAdd ==> OnObjValueAdd(old(Machine(obj))) == Redo(Machine(newObj))
    {
      var r := stack[depth];
      if r.state == ArrayAdd {
        SetCurrent(AddElem(r.current, obj), obj);
        SetThen(ArraySep, obj);
      } else {
        SetCurrent(AddPair(r.current, r.field, obj), obj);
        stack[depth] := stack[depth].(field := None);
        SetThen(ObjSep, obj);
      }
      newObj := Null; // the local variable is not read again before it is set
    }

    method ArraySepCase(c: char, ghost obj: Value) returns (act: Act)
      requires Valid() && stack[depth].state == ArraySep && err == Success
      modifies this, stack
      ensures Valid() && charOffset == old(charOffset)
      ensures Follows(OnArraySep(old(Machine(obj)), c), act, Machine(obj), err) && (act != OUT ==> err == Success)
    {
      act := BREAK;
      if c == ']' {
        SetThen(Finish, obj);
      } else if c == ',' {
        SetThen(ArrayAfterSep, obj);
      } else {
        err := ErrArray;
        act := OUT;
      }
    }

    method FieldStartCase(c: char, ghost obj: Value) returns (act: Act)
      requires Valid() && err == Success
      requires stack[depth].state == FieldStart || stack[depth].state == FieldStartAfterSep
      modifies this, stack
      ensures Valid() && charOffset == old(charOffset)
      ensures Follows(OnFieldStart(cfg, old(Machine(obj)), c), act, Machine(obj), err)
      ensures act != OUT ==> err == Success
    {
      act := BREAK;
      if c == '}' {
        if stack[depth].state == FieldStartAfterSep && cfg.strict {
          err := ErrUnexpected;
          return OUT;
        }
        SetThen(Finish, obj);
      } else if c == '"' || c == '\'' {
        quote, pb := c, "";
        SetState(Field, obj);
      } else {
        err := ErrKeyName;
        act := OUT;
      }
    }

    /** object_field_end and object_sep */
    method ObjPunctuationCase(c: char, ghost obj: Value) returns (act: Act)
      requires Valid() && (stack[depth].state == FieldEnd || stack[depth].state == ObjSep) && err == Success
      modifies this, stack
      ensures Valid() && charOffset == old(charOffset)
      ensures Follows(Switch(cfg, old(Machine(obj)), c, ""), act, Machine(obj), err) && (act != OUT ==> err == Success)
    {
      act := BREAK;
      if stack[depth].state == FieldEnd {
        if c == ':' {
          SetThen(ObjValue, obj);
        } else {
          err := ErrKeySep;
          act := OUT;
        }
      } else if c == '}' {
        SetThen(Finish, obj);
      } else if c == ',' {
        SetThen(FieldStartAfterSep, obj);
      } else {
        err := ErrValueSep;
        act := OUT;
      }
    }

    // ----- tight loops -----

    /** PEEK_CHAR at the end of the buffer. */
    method PeekFails(ghost obj: Value)
      requires Valid()
      modifies this`err
      ensures err == if IsDone(Machine(obj)) then Success else Continue
      ensures Machine(obj) == old(Machine(obj))
    {
      var r := stack[depth];
      err := if depth == 0 && r.state == EatWs && r.saved == Finish then Success else Continue;
    }

    method EatWsCase(str: string, c0: char, ghost obj: Value) returns (act: Act, c: char)
      requires Valid() && stack[depth].state == EatWs && err == Success
      requires charOffset < |str| && c0 == str[charOffset]
      modifies this, stack
      ensures Valid() && charOffset <= |str| && (act != OUT ==> err == Success)
      ensures Obeys(cfg, old(Machine(obj)), old(str[charOffset..]), act, Machine(obj), str[charOffset..], err, c)
    {
      hide Run, Step;
      ghost var m := Machine(obj);
      c := c0;
      while IsSpace(c)
        invariant Valid() && charOffset < |str| && c == str[charOffset] && err == Success
        invariant Machine(obj) == m && old(charOffset) <= charOffset
        invariant Run(cfg, m, old(str[charOffset..])) == Run(cfg, m, str[charOffset..])
        decreases |str| - charOffset
      {
        Unroll(cfg, m, str[charOffset..]);
        assert str[charOffset..][1..] == str[charOffset + 1..];
        charOffset := charOffset + 1;
        if charOffset == |str| {
          RunOut(cfg, m);
          PeekFails(obj);
          return OUT, c;
        }
        c := str[charOffset];
      }
      ghost var s := str[charOffset..];
      if c == '/' && !cfg.strict {
        pb := [c];
        SetState(CommentStart, obj);
        act := BREAK;
      } else {
        SetState(stack[depth].saved, obj);
        act := REDO;
      }
      assert Follows(OnEatWs(cfg, m, c), act, Machine(obj), err);
      FollowsObeys(cfg, m, s, act, Machine(obj), err);
    }

    /** The tight loop of comments, strings and field names; false when the call ends inside it. */
    method TextChars(str: string, c0: char, ghost obj: Value) returns (more: bool, c: char)
      requires Valid() && InText(stack[depth].state) && err == Success
      requires charOffset < |str| && c0 == str[charOffset]
      modifies this`pb, this`err, this`charOffset
      ensures Valid() && old(charOffset) <= charOffset <= |str|
      ensures !more ==>
        Run(cfg, old(Machine(obj)), str[old(charOffset)..]) == End(Machine(obj), err, c == '\0', str[charOffset..])
      ensures more ==> err == Success && charOffset < |str| && c == str[charOffset]
      ensures more ==> Machine(obj) == old(Machine(obj)) && EndsText(Machine(obj), c)
      ensures var k := old(Machine(obj)).Append(str[old(charOffset)..charOffset]);
        more ==> Run(cfg, old(Machine(obj)), str[old(charOffset)..]) == Run(cfg, k, str[charOffset..])
    {
      hide Run, Step, Switch, Machine, InText;
      Shows(obj);
      ghost var m := Machine(obj);
      var caseStart := charOffset;
      c := c0;
      assert str[caseStart..charOffset] == "";
      AppendNothing(m);
      while !(match stack[depth].state
              case Comment => c == '*'
              case CommentEol => c == '\n'
              case _ => c == quote || c == '\\')
        invariant Valid() && caseStart <= charOffset < |str| && c == str[charOffset] && err == Success
        invariant Machine(obj) == m
        invariant Run(cfg, m, str[caseStart..]) == Run(cfg, m.Append(str[caseStart..charOffset]), str[charOffset..])
        decreases |str| - charOffset
      {
        TextStep(cfg, m, str, caseStart, charOffset);
        charOffset := charOffset + 1;
        if c == '\0' || charOffset == |str| {
          TextCut(str, caseStart, c, obj);
          return false, c;
        }
        c := str[charOffset];
      }
      more := true;
    }

    /** What was read so far goes into the buffer when the call ends. */
    method TextCut(str: string, caseStart: nat, c: char, ghost obj: Value)
      requires Valid() && InText(stack[depth].state) && err == Success
      requires caseStart <= charOffset <= |str| && (c == '\0' || charOffset == |str|)
      modifies this`pb, this`err
      ensures Valid() && Machine(obj) == old(Machine(obj)).Append(str[caseStart..charOffset])
      ensures if c == '\0' then err == Success
              else Run(cfg, Machine(obj), str[charOffset..]) == End(Machine(obj), err, false, "")
    {
      AppendText(str[caseStart..charOffset], obj);
      if c != '\0' {
        RunOut(cfg, Machine(obj));
        PeekFails(obj);
      }
    }

    /** comment and comment_eol: skip to the `*` or to the end of the line. */
    method CommentCase(str: string, c0: char, ghost obj: Value) returns (act: Act, c: char)
      requires Valid() && (stack[depth].state == Comment || stack[depth].state == CommentEol) && err == Success
      requires charOffset < |str| && c0 == str[charOffset]
      modifies this, stack
      ensures Valid() && charOffset <= |str| && (act != OUT ==> err == Success)
      ensures Obeys(cfg, old(Machine(obj)), old(str[charOffset..]), act, Machine(obj), str[charOffset..], err, c)
    {
      hide Run, Step;
      ghost var m := Machine(obj);
      var eol := stack[depth].state == CommentEol;
      var caseStart := charOffset;
      var more;
      more, c := TextChars(str, c0, obj);
      if !more { return OUT, c; }
      ghost var k := m.Append(str[caseStart..charOffset]);
      Unroll(cfg, k, str[charOffset..]);
      pb := pb + str[caseStart..charOffset + if eol then 0 else 1];
      assert !eol ==> k.pb + [c] == pb;
      SetState(if eol then EatWs else CommentEnd, obj);
      act := BREAK;
    }

    /** comment_start and comment_end */
    method CommentEdgeCase(c: char, ghost obj: Value) returns (act: Act)
      requires Valid() && (stack[depth].state == CommentStart || stack[depth].state == CommentEnd) && err == Success
      modifies this, stack
      ensures Valid() && charOffset == old(charOffset)
      ensures Follows(OnComment(old(Machine(obj)), c), act, Machine(obj), err) && (act != OUT ==> err == Success)
    {
      act := BREAK;
      if stack[depth].state == CommentEnd {
        pb := pb + [c];
        SetState(if c == '/' then EatWs else Comment, obj);
      } else if c == '*' || c == '/' {
        SetState(if c == '*' then Comment else CommentEol, obj);
        pb := pb + [c];
      } else {
        err := ErrComment;
        act := OUT;
      }
    }

    /** string and object_field: everything up to the quote or a backslash is
        appended to the buffer in one piece. */
    method QuotedCase(str: string, c0: char, ghost obj: Value) returns (act: Act, c: char)
      requires Valid() && (stack[depth].state == StringState || stack[depth].state == Field) && err == Success
      requires charOffset < |str| && c0 == str[charOffset]
      modifies this, stack
      ensures Valid() && charOffset <= |str| && (act != OUT ==> err == Success)
      ensures Obeys(cfg, old(Machine(obj)), old(str[charOffset..]), act, Machine(obj), str[charOffset..], err, c)
    {
      hide Run, Step;
      var caseStart := charOffset;
      var more;
      more, c := TextChars(str, c0, obj);
      if !more { return OUT, c; }
      pb := pb + str[caseStart..charOffset];
      Unroll(cfg, Machine(obj), str[charOffset..]);
      QuotedEnd(c, obj);
      act := BREAK;
    }

    /** The quote that ends a string or field name, or the start of an escape. */
    method QuotedEnd(c: char, ghost obj: Value)
      requires Valid() && (stack[depth].state == StringState || stack[depth].state == Field)
      requires c == quote || c == '\\'
      modifies stack
      ensures Valid() && OnQuoted(old(Machine(obj)), c) == Advance(Machine(obj), 1)
    {
      var r := stack[depth];
      if c == quote {
        if r.state == StringState {
          SetDone(Str(pb), obj);
        } else {
          stack[depth] := r.(field := Some(CStr(pb)));
          SetThen(FieldEnd, obj);
        }
      } else {
        stack[depth] := r.(state := StringEscape, saved := if r.state == StringState then StringState else Field);
      }
    }

    /** number: collect the characters, then convert. */
    method NumberCase(str: string, c0: char, ghost obj: Value) returns (act: Act, c: char)
      requires Valid() && stack[depth].state == Number && err == Success
      requires charOffset < |str| && c0 == str[charOffset]
      modifies this, stack
      ensures Valid() && charOffset <= |str| && (act != OUT ==> err == Success)
      ensures Obeys(cfg, old(Machine(obj)), old(str[charOffset..]), act, Machine(obj), str[charOffset..], err, c)
    {
      hide Run, Step, OnNumberEnd, BadNumberChar, Collecting, Switch;
      ghost var m := Machine(obj);
      var caseStart := charOffset;
      var more, isExponent, negLoc;
      more, c, isExponent, negLoc := NumberChars(str, c0, obj);
      if !more { return OUT, c; }
      pb := pb + str[caseStart..charOffset];
      act := NumberFinish(str, c, caseStart, isExponent, negLoc, m, obj);
    }

    /** The tight loop of the number case; false when the call ends inside it. */
    method NumberChars(str: string, c0: char, ghost obj: Value)
      returns (more: bool, c: char, isExponent: bool, negLoc: nat)
      requires Valid() && stack[depth].state == Number && err == Success
      requires charOffset < |str| && c0 == str[charOffset]
      modifies this`pb, this`isDouble, this`err, this`charOffset
      ensures Valid() && old(charOffset) <= charOffset <= |str|
      ensures !more ==> c != '\0'
      ensures !more ==>
        Run(cfg, old(Machine(obj)), str[old(charOffset)..]) == End(Machine(obj), err, false, str[charOffset..])
      ensures more ==> err == Success && charOffset < |str| && c == str[charOffset] && !IsNumberChar(c)
      ensures more ==> Machine(obj) == old(Machine(obj)).(isDouble := isDouble)
      ensures more && charOffset == old(charOffset) ==> isDouble == old(isDouble)
      ensures
        var k := Collecting(old(Machine(obj)), str[old(charOffset)..charOffset], isDouble, isExponent, negLoc);
        more ==> Run(cfg, old(Machine(obj)), str[old(charOffset)..]) == Run(cfg, k, str[charOffset..])
    {
      hide Run, Collecting, Machine, IsNumberChar;
      Shows(obj);
      ghost var m := Machine(obj);
      var caseStart := charOffset;
      isExponent, negLoc, more := false, 1, true;
      c := c0;
      CollectingNothing(m, str, caseStart);
      while IsNumberChar(c)
        invariant Valid() && caseStart <= charOffset < |str| && c == str[charOffset] && err == Success
        invariant Machine(obj) == m.(isDouble := isDouble)
        invariant charOffset == caseStart ==> isDouble == m.isDouble
        invariant Run(cfg, m, str[caseStart..]) ==
          Run(cfg, Collecting(m, str[caseStart..charOffset], isDouble, isExponent, negLoc), str[charOffset..])
        decreases |str| - charOffset
      {
        more, isExponent, negLoc := NumberChar(str, caseStart, c, isExponent, negLoc, m, obj);
        if !more {
          NumberCharNotNul(c);
          return;
        }
        c := str[charOffset];
      }
    }

    /** One round of that loop: check, advance, peek. */
    method NumberChar(str: string, caseStart: nat, c: char, isExp: bool, negLoc: nat, ghost m: Tok, ghost obj: Value)
      returns (more: bool, newIsExp: bool, newNegLoc: nat)
      requires Valid() && caseStart <= charOffset < |str| && c == str[charOffset] && IsNumberChar(c) && err == Success
      requires m.top.state == Number && m.loc == NO_LOCALS && Machine(obj) == m.(isDouble := isDouble)
      modifies this`pb, this`isDouble, this`err, this`charOffset
      ensures Valid() && old(charOffset) <= charOffset <= |str|
      ensures more ==> old(charOffset) < charOffset < |str| && err == Success
      ensures more ==> Machine(obj) == m.(isDouble := isDouble)
      ensures
        var k := Collecting(m, str[caseStart..old(charOffset)], old(isDouble), isExp, negLoc);
        Run(cfg, k, str[old(charOffset)..]) ==
          if more
          then Run(cfg, Collecting(m, str[caseStart..charOffset], isDouble, newIsExp, newNegLoc), str[charOffset..])
          else End(Machine(obj), err, false, str[charOffset..])
    {
      hide Run, Collecting, BadNumberChar, IsNumberChar;
      NumberStep(cfg, m, str, caseStart, charOffset, isDouble, isExp, negLoc);
      more, newIsExp, newNegLoc := CheckNumberChar(c, charOffset - caseStart + 1, isExp, negLoc, obj);
      if !more {
        err := ErrNumber;
        return;
      }
      charOffset := charOffset + 1;
      if charOffset == |str| {
        NumberCut(str, caseStart, newIsExp, newNegLoc, m, obj);
        more := false;
      }
    }

    /** The buffer ends inside a number. */
    method NumberCut(str: string, caseStart: nat, ghost isExp: bool, ghost negLoc: nat, ghost m: Tok, ghost obj: Value)
      requires Valid() && caseStart <= charOffset == |str|
      requires m.top.state == Number && m.loc == NO_LOCALS && Machine(obj) == m.(isDouble := isDouble)
      modifies this`pb, this`err
      ensures Valid()
      ensures Run(cfg, Collecting(m, str[caseStart..charOffset], isDouble, isExp, negLoc), str[charOffset..]) ==
        End(Machine(obj), err, false, "")
    {
      pb := pb + str[caseStart..charOffset];
      RunOut(cfg, Collecting(m, str[caseStart..charOffset], isDouble, isExp, negLoc));
      PeekFails(obj);
    }

    /** At most one '.', one exponent, and signs only where a number may have them. */
    method CheckNumberChar(c: char, caseLen: nat, isExp: bool, negLoc: nat, ghost obj: Value)
      returns (ok: bool, newIsExp: bool, newNegLoc: nat)
      requires Valid()
      modifies this`isDouble
      ensures var e := c == 'e' || c == 'E';
        && ok == !BadNumberChar(c, caseLen, old(isDouble), isExp, negLoc)
        && (ok ==> isDouble == (old(isDouble) || c == '.' || e))
        && (ok ==> newIsExp == (isExp || e) && newNegLoc == if e then caseLen + 1 else negLoc)
        && (!ok ==> isDouble == old(isDouble))
      ensures Machine(obj) == old(Machine(obj)).(isDouble := isDouble)
    {
      ok, newIsExp, newNegLoc := false, isExp, negLoc;
      if c == '.' {
        if isDouble { return; }
        isDouble := true;
      }
      if c == 'e' || c == 'E' {
        if isExp { return; }
        newIsExp, isDouble := true, true;
        newNegLoc := caseLen + 1;
      }
      if c == '-' && caseLen != newNegLoc { return; }
      ok := true;
    }

    /** After the last character of the number. */
    method NumberFinish(str: string, c: char, caseStart: nat, ghost isExp: bool, ghost negLoc: nat, ghost m: Tok,
        ghost obj: Value)
      returns (act: Act)
      requires Valid() && err == Success && caseStart <= charOffset < |str| && c == str[charOffset] && !IsNumberChar(c)
      requires m.top.state == Number && m.loc == NO_LOCALS
      requires Machine(obj) == m.(isDouble := isDouble, pb := m.pb + str[caseStart..charOffset])
      requires caseStart == charOffset ==> isDouble == m.isDouble
      modifies this`err, stack
      ensures Valid() && (act != OUT ==> err == Success)
      ensures var k := Collecting(m, str[caseStart..charOffset], isDouble, isExp, negLoc);
        (Run(cfg, m, str[caseStart..]) == Run(cfg, k, str[charOffset..])) ==>
        Obeys(cfg, m, str[caseStart..], act, Machine(obj), str[charOffset..], err, c)
    {
      hide Run, Step, OnNumberEnd;
      var caseLen := charOffset - caseStart;
      ghost var k := Collecting(m, str[caseStart..charOffset], isDouble, isExp, negLoc);
      Unroll(cfg, k, str[charOffset..]);
      act := NumberEnd(c, caseLen, k.loc, obj);
      if act == REDO {
        RedoDecreases(cfg, k, c, str[charOffset..][1..]);
      }
    }

    method NumberEnd(c: char, caseLen: nat, ghost loc: Locals, ghost obj: Value) returns (act: Act)
      requires Valid() && stack[depth].state == Number && err == Success && loc.caseLen == caseLen
      modifies this`err, stack
      ensures Valid() && (act == REDO || act == OUT) && (act != OUT ==> err == Success)
      ensures Follows(OnNumberEnd(cfg, old(Machine(obj)).(loc := loc), c), act, Machine(obj), err)
    {
      if pb != "" && pb[0] == '-' && caseLen == 1 && (c == 'i' || c == 'I') {
        SetState(Inf, obj);
        return REDO;
      }
      var text := CStr(pb);
      var n := ParseInt64(text);
      if !isDouble && n.Some? {
        if n.value != 0 && pb != "" && pb[0] == '0' && cfg.strict {
          err := ErrNumber;
          return OUT;
        }
        SetDone(Int(n.value), obj);
      } else if isDouble && cfg.parseDouble(text) {
        SetDone(Double(text), obj);
      } else {
        err := ErrNumber;
        return OUT;
      }
      act := REDO;
    }

    // ----- unicode escapes -----

    /** escape_unicode: up to four digits, and a second escape after a high surrogate. */
    method EscapeUnicodeCase(str: string, c0: char, ghost obj: Value) returns (act: Act, c: char)
      requires Valid() && stack[depth].state == EscapeUnicode && err == Success
      requires charOffset < |str| && c0 == str[charOffset]
      modifies this, stack
      ensures Valid() && charOffset <= |str| && (act != OUT ==> err == Success)
      ensures Obeys(cfg, old(Machine(obj)), old(str[charOffset..]), act, Machine(obj), str[charOffset..], err, c)
    {
      hide Run, Machine, Level, Rank;
      Shows(obj);
      ghost var m, start := Machine(obj), charOffset;
      var gotHi, again := 0, true;
      act, c := REDO, c0;
      while again
        invariant Valid() && start <= charOffset <= |str|
        invariant again ==> stack[depth].state == EscapeUnicode && err == Success
        invariant again ==> charOffset < |str| && c == str[charOffset]
        invariant again ==> Run(cfg, m, str[start..]) == Run(cfg, AfterHigh(Machine(obj), gotHi), str[charOffset..])
        invariant !again ==> Obeys(cfg, m, str[start..], act, Machine(obj), str[charOffset..], err, c)
        invariant !again ==> (act == BREAK && err == Success) || act == OUT
        decreases again, |str| - charOffset
      {
        again, act, c, gotHi := EscapeChar(str, c, gotHi, obj);
      }
    }

    /** One round of that loop. */
    method EscapeChar(str: string, c0: char, gotHi0: nat, ghost obj: Value)
      returns (again: bool, act: Act, c: char, gotHi: nat)
      requires Valid() && stack[depth].state == EscapeUnicode && err == Success
      requires charOffset < |str| && c0 == str[charOffset]
      modifies this, stack
      ensures Valid() && old(charOffset) <= charOffset <= |str|
      ensures again ==> old(charOffset) < charOffset < |str| && c == str[charOffset]
      ensures again ==> stack[depth].state == EscapeUnicode && err == Success
      ensures !again ==> (act == BREAK && err == Success && charOffset < |str| && c == str[charOffset]) || act == OUT
      ensures
        Run(cfg, AfterHigh(old(Machine(obj)), gotHi0), str[old(charOffset)..]) ==
          if again then Run(cfg, AfterHigh(Machine(obj), gotHi), str[charOffset..])
          else if act == BREAK then AfterBreak(cfg, Machine(obj), str[charOffset..])
          else End(Machine(obj), err, c == '\0', str[charOffset..])
    {
      hide Run, Machine, OnFourDigits, AddedDigit, IsHexOrNul, Pending, HexDigit, Pow16;
      Shows(obj);
      again, act, c, gotHi := false, OUT, c0, gotHi0;
      ghost var k, s := AfterHigh(Machine(obj), gotHi), str[charOffset..];
      assert s[0] == c && s[1..] == str[charOffset + 1..];
      if !IsHexOrNul(c) || stPos >= 4 {
        BadEscape(cfg, k, s);
        err := if !IsHexOrNul(c) then ErrString else Undefined;
        return;
      }
      AddDigit(c, gotHi, obj);
      Shows(obj);
      if stPos == 4 {
        again, act, c, gotHi := LastDigit(str, c, gotHi, k, obj);
        return;
      }
      EscapeDigit(cfg, k, s);
      charOffset := charOffset + 1;
      if c == '\0' || charOffset == |str| {
        EscapeCut(c, gotHi, obj);
        return;
      }
      c := str[charOffset];
      again := true;
    }

    method AddDigit(c: char, ghost hi: nat, ghost obj: Value)
      requires Valid() && stPos < 4
      modifies this`ucs, this`stPos
      ensures Valid() && stPos == old(stPos) + 1
      ensures AddedDigit(AfterHigh(old(Machine(obj)), hi), c) == AfterHigh(Machine(obj), hi)
    {
      ucs, stPos := (ucs + HexDigit(c) * Pow16(3 - stPos)) % 0x1_0000_0000, stPos + 1;
    }

    /** The call ends inside an escape: a pending high surrogate is replaced. */
    method EscapeCut(c: char, gotHi: nat, ghost obj: Value)
      requires Valid() && stack[depth].state == EscapeUnicode && err == Success
      modifies this`pb, this`err
      ensures Valid()
      ensures Machine(obj) == Pending(AfterHigh(old(Machine(obj)), gotHi)).(loc := NO_LOCALS)
      ensures err == if c == '\0' then Success else Continue
    {
      if gotHi != 0 { pb := pb + REPLACEMENT; }
      if c != '\0' { PeekFails(obj); }
    }

    /** if (got_hi_surrogate) */
    method SecondHalf(gotHi: nat, ghost obj: Value)
      requires Valid()
      modifies this`ucs, this`pb
      ensures Valid() && Machine(obj) == JoinPair(AfterHigh(old(Machine(obj)), gotHi))
    {
      hide DecodeSurrogatePair;
      if gotHi != 0 {
        if IsLowSurrogate(ucs) {
          ucs := DecodeSurrogatePair(gotHi, ucs);
        } else {
          pb := pb + REPLACEMENT;
        }
      }
    }

    /** Skip the `\u` that follows a high surrogate; false when the call ends there. */
    method SecondEscape(str: string, c0: char, ghost obj: Value) returns (again: bool, c: char)
      requires Valid() && stack[depth].state == EscapeUnicode
      requires charOffset + 2 < |str| && c0 == str[charOffset]
      modifies this`pb, this`ucs, this`stPos, this`err, this`charOffset
      ensures Valid() && (!again ==> c == c0)
      ensures again ==> charOffset == old(charOffset) + 3 < |str| && c == str[charOffset]
      ensures again ==> err == old(err) && c0 != '\0'
      ensures again ==> Machine(obj) == old(Machine(obj)).(ucs := 0, stPos := 0)
      ensures !again && c0 == '\0' ==> charOffset == old(charOffset) + 2 && err == old(err)
      ensures !again && c0 == '\0' ==> Machine(obj) == old(Machine(obj)).Append(REPLACEMENT).Append(REPLACEMENT)
      ensures !again && c0 != '\0' ==> charOffset == old(charOffset) + 3 == |str| && err == Continue
      ensures !again && c0 != '\0' ==> Machine(obj) == old(Machine(obj)).Append(REPLACEMENT)
    {
      c := c0;
      if c == '\0' {
        pb := pb + REPLACEMENT + REPLACEMENT;
        charOffset := charOffset + 2;
        return false, c;
      }
      charOffset := charOffset + 3;
      if charOffset == |str| {
        PeekFails(obj);
        pb := pb + REPLACEMENT;
        return false, c;
      }
      c := str[charOffset];
      ucs, stPos := 0, 0;
      again := true;
    }

    /** The fourth digit, seen from the loop; `k` is the machine before that digit. */
    method LastDigit(str: string, c0: char, gotHi0: nat, ghost k: Tok, ghost obj: Value)
      returns (again: bool, act: Act, c: char, gotHi: nat)
      requires Valid() && stack[depth].state == EscapeUnicode && err == Success
      requires charOffset < |str| && c0 == str[charOffset] && IsHexOrNul(c0)
      requires k.stPos == 3 && k.top.state == EscapeUnicode && AddedDigit(k, c0) == AfterHigh(Machine(obj), gotHi0)
      modifies this, stack
      ensures Valid() && old(charOffset) <= charOffset <= |str|
      ensures again ==> old(charOffset) < charOffset < |str| && c == str[charOffset]
      ensures again ==> stack[depth].state == EscapeUnicode && err == Success
      ensures !again ==> (act == BREAK && err == Success && charOffset < |str| && c == str[charOffset]) || act == OUT
      ensures Run(cfg, k, str[old(charOffset)..]) ==
        if again then Run(cfg, AfterHigh(Machine(obj), gotHi), str[charOffset..])
        else if act == BREAK then AfterBreak(cfg, Machine(obj), str[charOffset..])
        else End(Machine(obj), err, c == '\0', str[charOffset..])
    {
      hide Run, Machine, OnFourDigits, AddedDigit, IsHexOrNul, Pending;
      ghost var s := str[charOffset..];
      assert s[0] == c0 && s[1..] == str[charOffset + 1..];
      EscapeLastDigit(cfg, k, s);
      again, act, c, gotHi := FourDigits(str, c0, gotHi0, obj);
      Shows(obj);
      assert s[charOffset - old(charOffset)..] == str[charOffset..];
    }

    /** What is done once `ucs` is complete. */
    method FourDigits(str: string, c0: char, gotHi0: nat, ghost obj: Value)
      returns (again: bool, act: Act, c: char, gotHi: nat)
      requires Valid() && stack[depth].state == EscapeUnicode && err == Success
      requires charOffset < |str| && c0 == str[charOffset]
      modifies this, stack
      ensures Valid() && old(charOffset) <= charOffset <= |str|
      ensures
        var o := OnFourDigits(AfterHigh(old(Machine(obj)), gotHi0), c0, str[old(charOffset) + 1..]);
        if again then
          && o == Advance(AfterHigh(Machine(obj), gotHi), 3) && err == Success && c0 != '\0'
          && charOffset == old(charOffset) + 3 < |str| && c == str[charOffset] && stack[depth].state == EscapeUnicode
        else
          && c == c0 && act != REDO
          && (act == BREAK ==> o == Advance(Machine(obj), 1) && err == Success && charOffset == old(charOffset))
          && (act == OUT ==> o.Stop? && o.m == Machine(obj) && o.err == err && charOffset == old(charOffset) + o.skip)
    {
      hide Encode, IsHighSurrogate, JoinPair, Machine;
      ghost var la := str[charOffset + 1..];
      assert |la| >= 2 ==> la[0] == str[charOffset + 1] && la[1] == str[charOffset + 2];
      again, act, c, gotHi := false, BREAK, c0, 0;
      SecondHalf(gotHi0, obj);
      Shows(obj);
      if ucs >= 0x800 && IsHighSurrogate(ucs) {
        if charOffset + 1 != |str| && charOffset + 2 != |str|
          && str[charOffset + 1] == '\\' && str[charOffset + 2] == 'u'
        {
          gotHi := ucs;
          again, c := SecondEscape(str, c, obj);
          act := OUT;
          return;
        }
        AppendText(REPLACEMENT, obj);
      } else {
        AppendText(Encode(ucs), obj);
      }
      Shows(obj);
      SetState(stack[depth].saved, obj);
    }

    // ----- the loop -----

    /** The cases that look at one character only. */
    method OneCharCase(c: char, ghost la: string, obj: Value) returns (act: Act, newObj: Value)
      requires Valid() && !InTightState(stack[depth].state) && err == Success
      modifies this, stack
      ensures Valid() && charOffset == old(charOffset) && (act != OUT ==> err == Success)
      ensures Follows(Switch(cfg, old(Machine(obj)), c, la), act, Machine(newObj), err)
    {
      hide OnStart, OnInf, OnNull, OnBoolean, OnStringEscape, OnArray, OnFieldStart, OnComment, Push, OnArrayAdd,
        OnObjValueAdd;
      newObj := obj;
      match stack[depth].state {
        case Start => act := StartCase(c, obj);
        case Finish => act, newObj := FinishCase(obj);
        case Inf => act := InfCase(c, obj);
        case NullState => act := NullCase(c, obj);
        case BooleanState => act := BooleanCase(c, obj);
        case CommentStart | CommentEnd => act := CommentEdgeCase(c, obj);
        case StringEscape => act := StringEscapeCase(c, obj);
        case ArrayState | ArrayAfterSep => act := ArrayCase(c, obj);
        case ArrayAdd | ObjValueAdd =>
          newObj := AddCase(obj);
          act := REDO;
        case ArraySep => act := ArraySepCase(c, obj);
        case FieldStart | FieldStartAfterSep => act := FieldStartCase(c, obj);
        case ObjValue => act := PushLevel(ObjValueAdd, obj);
        case FieldEnd | ObjSep => act := ObjPunctuationCase(c, obj);
      }
    }

    /** switch (state) */
    method SwitchCase(str: string, c0: char, obj: Value) returns (act: Act, c: char, newObj: Value)
      requires Valid() && err == Success && charOffset < |str| && c0 == str[charOffset]
      modifies this, stack
      ensures Valid() && charOffset <= |str| && (act != OUT ==> err == Success)
      ensures Obeys(cfg, old(Machine(obj)), old(str[charOffset..]), act, Machine(newObj), str[charOffset..], err, c)
    {
      hide Obeys, Switch, Run, Follows;
      newObj := obj;
      match stack[depth].state {
        case EatWs => act, c := EatWsCase(str, c0, obj);
        case Comment | CommentEol => act, c := CommentCase(str, c0, obj);
        case StringState | Field => act, c := QuotedCase(str, c0, obj);
        case EscapeUnicode => act, c := EscapeUnicodeCase(str, c0, obj);
        case Number => act, c := NumberCase(str, c0, obj);
        case _ =>
          ghost var m, s := Machine(obj), str[charOffset..];
          act, newObj := OneCharCase(c0, s[1..], obj);
          c := c0;
          FollowsObeys(cfg, m, s, act, Machine(newObj), err);
      }
    }

    /** for (ii = tok->depth; ii >= 0; ii--) reset_level */
    method ResetLevels(ghost obj: Value)
      requires Valid()
      modifies stack
      ensures Valid() && Machine(obj) == ResetAll(old(Machine(obj)))
    {
      var i := depth + 1;
      while i > 0
        invariant 0 <= i <= depth + 1 && Valid()
        invariant forall k :: i <= k <= depth ==> stack[k] == FRESH
      {
        i := i - 1;
        ResetLevel(i);
      }
    }

    method ParseEx(str: string) returns (ret: Value)
      requires Valid()
      modifies this, stack
      ensures Valid()
      ensures var r := TokenerSpec.ParseEx(cfg, old(Machine(Null)), str);
        err == r.err && ret == r.value && charOffset == r.offset && Machine(Null) == r.m.(obj := Null)
    {
      hide Run;
      ghost var m := Machine(Null);
      var obj, c;
      charOffset, err := 0, Success;
      assert Machine(Null) == m && str[0..] == str;
      c, obj := ParseLoop(str);
      ghost var r := Run(cfg, m, str);
      assert r == End(Machine(obj), err, c == '\0', str[charOffset..]);
      if c != '\0' && stack[depth].state == Finish && depth == 0 && cfg.strict {
        err := ErrUnexpected;
      }
      if c == '\0' && stack[depth].state != Finish && stack[depth].saved != Finish {
        err := ErrEof;
      }
      assert err == FinalError(cfg, r);
      ret := Null;
      if err == Success {
        ret := stack[depth].current;
        ResetLevels(obj);
      }
    }

    /** while (PEEK_CHAR(c, tok)) { redo_char: ... } */
    method ParseLoop(str: string) returns (c: char, obj: Value)
      requires Valid() && err == Success && charOffset == 0
      modifies this, stack
      ensures Valid() && charOffset <= |str|
      ensures Run(cfg, old(Machine(Null)), str) == End(Machine(obj), err, c == '\0', str[charOffset..])
    {
      hide Run, Switch;
      ghost var m := Machine(Null);
      obj, c := Null, 1 as char;
      assert str[0..] == str;
      while charOffset < |str|
        invariant Valid() && charOffset <= |str| && err == Success && c != '\0'
        invariant Run(cfg, m, str) == Run(cfg, Machine(obj), str[charOffset..])
        decreases |str| - charOffset
      {
        c := str[charOffset];
        var act;
        act, c, obj := RedoLoop(str, c, obj);
        if act == OUT { return; }
        assert str[charOffset..][1..] == str[charOffset + 1..];
        charOffset := charOffset + 1;
        if c == '\0' { return; }
      }
      RunOut(cfg, Machine(obj));
      PeekFails(obj);
    }

    /** The jumps back to `redo_char`. */
    method RedoLoop(str: string, c0: char, obj0: Value) returns (act: Act, c: char, obj: Value)
      requires Valid() && err == Success && charOffset < |str| && c0 == str[charOffset]
      modifies this, stack
      ensures Valid() && old(charOffset) <= charOffset <= |str| && act != REDO
      ensures act == BREAK ==> charOffset < |str| && c == str[charOffset] && err == Success
      ensures var r := Run(cfg, old(Machine(obj0)), old(str[charOffset..]));
        r == if act == BREAK then AfterBreak(cfg, Machine(obj), str[charOffset..])
             else End(Machine(obj), err, c == '\0', str[charOffset..])
    {
      hide Run, Switch, AfterBreak, Level, Rank;
      ghost var r := Run(cfg, Machine(obj0), str[charOffset..]);
      c, obj, act := c0, obj0, REDO;
      while act == REDO
        invariant Valid() && old(charOffset) <= charOffset <= |str|
        invariant act != OUT ==> charOffset < |str| && c == str[charOffset] && err == Success
        invariant act == REDO ==> r == Run(cfg, Machine(obj), str[charOffset..])
        invariant act == BREAK ==> r == AfterBreak(cfg, Machine(obj), str[charOffset..])
        invariant act == OUT ==> r == End(Machine(obj), err, c == '\0', str[charOffset..])
        decreases act == REDO, |str| - charOffset, Level(Machine(obj), c), Rank(Machine(obj))
      {
        act, c, obj := SwitchCase(str, c, obj);
      }
    }
  }

  lemma NumberCharNotNul(c: char)
    requires IsNumberChar(c)
    ensures c != '\0'
  {
  }
}
