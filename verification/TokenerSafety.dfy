/** What every call of the tokener keeps, for arbitrary input bytes. */
module TokenerSafety {
  import opened Json
  import opened Decimal
  import opened PrintSpec
  import opened TokenerSpec
  import opened Reading

  predicate IsComment(s: State) {
    s.CommentStart? || s.Comment? || s.CommentEol? || s.CommentEnd?
  }

  predicate IsEscape(s: State) {
    s.StringEscape? || s.EscapeUnicode?
  }

  predicate LooksThrough(s: State) {
    s.EatWs? || IsComment(s) || IsEscape(s)
  }

  /** The states that `eatws` may lead to. */
  predicate IsResumable(s: State) {
    || s.Start? || s.Finish? || s.ArrayState? || s.ArrayAfterSep? || s.ArraySep?
    || s.FieldStart? || s.FieldStartAfterSep? || s.FieldEnd? || s.ObjValue? || s.ObjSep?
  }

  /** What the level is really waiting for, looking through white space,
      comments and escapes. */
  function Goal(r: Rec): State {
    if LooksThrough(r.state) then r.saved else r.state
  }

  predicate NeedsArray(s: State) {
    s.ArrayState? || s.ArrayAfterSep? || s.ArraySep? || s.ArrayAdd?
  }

  predicate NeedsKey(s: State) {
    s.FieldEnd? || s.ObjValue? || s.ObjValueAdd?
  }

  predicate NeedsObject(s: State) {
    s.FieldStart? || s.FieldStartAfterSep? || s.Field? || s.ObjSep? || NeedsKey(s)
  }

  /** The record's object has the type, and its field name is there, when the
      state is going to use them. */
  ghost predicate Typed(r: Rec) {
    && (NeedsArray(Goal(r)) ==> r.current.Arr?)
    && (NeedsObject(Goal(r)) ==> r.current.Obj?)
    && (NeedsKey(Goal(r)) ==> r.field.Some?)
  }

  ghost predicate TopOk(r: Rec) {
    && Typed(r)
    && (r.state.EatWs? || IsComment(r.state) ==> IsResumable(r.saved))
    && (IsEscape(r.state) ==> r.saved.StringState? || r.saved.Field?)
    && (r.saved.Finish? ==> r.state.EatWs? || r.state.Finish? || IsComment(r.state))
  }

  ghost predicate BelowOk(r: Rec) {
    (r.state.ArrayAdd? || r.state.ObjValueAdd?) && Typed(r) && !r.saved.Finish?
  }

  ghost predicate AllBelowOk(rs: seq<Rec>) {
    forall i :: 0 <= i < |rs| ==> BelowOk(rs[i])
  }

  /** The invariant of the tokener. */
  ghost predicate WellFormed(cfg: Config, m: Tok) {
    && |m.below| < cfg.maxDepth
    && TopOk(m.top)
    && AllBelowOk(m.below)
    && (Goal(m.top).StringState? || Goal(m.top).Field? ==> m.quote != '\0')
    && (!m.top.state.ArrayAdd? && !m.top.state.ObjValueAdd? ==> m.obj == Null)
    && (!m.top.state.Number? && !m.top.state.EscapeUnicode? ==> m.loc == NO_LOCALS)
  }

  /** What the number state does to everything but its own buffer. */
  lemma NumberShape(cfg: Config, m: Tok, c: char)
    ensures var o := OnNumber(cfg, m, c);
      && o.m.below == m.below && o.m.obj == m.obj && o.m.quote == m.quote
      && (o.Stop? ==> o.err == ErrNumber && o.m.top == m.top && o.m.loc == NO_LOCALS)
      && (o.Advance? ==> o.m.top == m.top && c != '\0' && IsNumberChar(c) && o.skip == 1)
      && (o.Redo? ==> o.m.loc == NO_LOCALS && (o.m.top == m.Go(Inf).top || o.m.top == m.Done(o.m.top.current).top))
  {
  }

  /** The tokener is not in the middle of a surrogate pair that a chunk has cut. */
  predicate NoCutPair(m: Tok) {
    m.top.state.EscapeUnicode? ==> m.stPos < 4
  }

  /** The hexadecimal digit `c` completes the escape of a high surrogate. */
  predicate CompletesHigh(m: Tok, c: char) {
    m.top.state.EscapeUnicode? && m.stPos == 3 && IsHexOrNul(c) &&
    var u := JoinPair(AddedDigit(m, c)).ucs;
    u >= 0x800 && IsHighSurrogate(u)
  }

  lemma OnlyInEscapes(m: Tok, c: char)
    ensures CompletesHigh(m, c) ==> m.top.state == EscapeUnicode && m.stPos == 3 && IsHexOrNul(c)
  {
  }

  /** Behind the high surrogate the source takes the start of the next escape but
      not its first digit. */
  predicate LeavesCut(c: char, la: string) {
    if c == '\0' then "\\u" <= la else la == "\\u"
  }

  lemma FourDigitsShape(m: Tok, c: char, la: string)
    requires m.stPos == 4
    ensures var o := OnFourDigits(m, c, la);
      var u := JoinPair(m).ucs;
      && !o.Redo? && o.m.below == m.below && o.m.obj == m.obj && o.m.quote == m.quote
      && (o.m.top == m.top || (o.Advance? && o.m.top == m.Go(m.top.saved).top && o.m.loc == NO_LOCALS))
      && (o.Stop? ==> o.m.top == m.top && o.m.stPos == 4 && (o.err == Continue || (o.err == Success && c == '\0')))
      && (o.Stop? <==> u >= 0x800 && IsHighSurrogate(u) && LeavesCut(c, la))
      && (o.Stop? && o.err == Continue ==> la == "\\u" && c != '\0')
      && (o.Advance? && o.m.stPos >= 4 ==> o.m.top == m.Go(m.top.saved).top)
  {
    hide Encode, DecodeSurrogatePair;
    assert |la| >= 2 && la[0] == '\\' && la[1] == 'u' <==> "\\u" <= la;
    assert |la| == 2 && "\\u" <= la <==> la == "\\u";
  }

  /** What a hexadecimal digit does to everything but the buffer. */
  lemma EscapeShape(m: Tok, c: char, la: string)
    ensures var o := OnEscapeUnicode(m, c, la);
      && !o.Redo? && o.m.below == m.below && o.m.obj == m.obj && o.m.quote == m.quote
      && (o.m.top == m.top || (o.Advance? && o.m.top == m.Go(m.top.saved).top && o.m.loc == NO_LOCALS))
      && (o.Stop? ==> o.m.top == m.top)
      && (o.Advance? ==> IsHexOrNul(c) && m.stPos < 4)
      && (o.Advance? && o.m.stPos >= 4 ==> o.m.top == m.Go(m.top.saved).top)
      && (o.Stop? && o.err == Success ==> c == '\0')
      && (o.Stop? && o.err == Continue ==> la == "\\u" && c != '\0')
      && (o.Stop? && o.err == Continue && m.top.state.EscapeUnicode? ==> CompletesHigh(m, c))
      && (o.Stop? && o.err == Undefined ==> m.stPos >= 4)
      && (m.stPos >= 4 ==> o.Stop? && o.m.stPos == m.stPos && (o.err == Undefined <==> IsHexOrNul(c)))
      && (m.top.state.EscapeUnicode? && m.stPos < 4 && !m.top.saved.EscapeUnicode? ==>
            (!NoCutPair(o.m) <==> CompletesHigh(m, c) && LeavesCut(c, la)))
  {
    assert |la| >= 2 && la[0] == '\\' && la[1] == 'u' <==> "\\u" <= la;
    assert |la| == 2 && "\\u" <= la <==> la == "\\u";
    if IsHexOrNul(c) && m.stPos == 3 { FourDigitsShape(AddedDigit(m, c), c, la); }
  }

  /** There is nothing left to read for the top-level value. */
  ghost predicate Complete(m: Tok) {
    m.below == [] && (m.top.state.Finish? || IsDone(m))
  }

  /** What one pass through the switch, or a whole step, guarantees: the invariant;
      no undefined shift unless a surrogate pair was cut; and when it may stop. */
  ghost predicate Kept(cfg: Config, m: Tok, c: char, la: string, o: Outcome) {
    && WellFormed(cfg, o.m)
    && (NoCutPair(m) && o.Stop? ==> o.err != Undefined)
    && (NoCutPair(m) ==> (!NoCutPair(o.m) <==> CompletesHigh(m, c) && LeavesCut(c, la)))
    && (!NoCutPair(m) ==> o.Stop? && !NoCutPair(o.m) && (o.err == Undefined <==> IsHexOrNul(c)))
    && (!NoCutPair(o.m) ==> o.Stop? && m.top.state.EscapeUnicode?)
    && (o.Redo? ==> !m.top.state.EscapeUnicode? && !o.m.top.state.EscapeUnicode?)
    && (o.Stop? && o.err == Success ==>
          Complete(o.m) || (c == '\0' && !o.m.top.saved.Finish? && !o.m.top.state.Finish?))
    && (o.Stop? && o.err == Continue ==> !IsDone(o.m) && CompletesHigh(m, c) && la == "\\u" && c != '\0')
    && (o.Stop? && IsComment(o.m.top.state) ==> o.err == ErrComment && o.m.top.state.CommentStart?)
    && (o.Stop? && o.m.top.state.Finish? ==> o.err == Success && o.m.below == [])
    && (o.Advance? ==> !o.m.top.state.Finish?)
    && (o.Advance? && c == '\0' ==>
        !o.m.top.state.CommentStart? && (o.m.top.saved.Finish? ==> IsComment(o.m.top.state)))
    && ((cfg.strict || c != '/') && !IsComment(m.top.state) ==> !IsComment(o.m.top.state))
    && (o.Advance? ==> o.m.obj == Null)
    && (o.Advance? && (o.skip != 1 || o.m.top.state.Number? || o.m.top.state.EscapeUnicode?) ==> InTightLoop(c))
  }

  /** The characters that numbers and unicode escapes are made of. */
  predicate InTightLoop(c: char) {
    IsNumberChar(c) || IsHexOrNul(c) || c == 'u'
  }

  /** What the first character of a value does. */
  lemma StartShape(cfg: Config, m: Tok, c: char)
    ensures var o := OnStart(cfg, m, c);
      && o.m.below == m.below && o.m.obj == m.obj
      && o.m.loc == (if o.Redo? && o.m.top.state.Number? then NO_LOCALS else m.loc)
      && (o.Stop? ==> o.err == ErrUnexpected && o.m == m)
      && (o.Redo? ==> o.m.top == m.top.(state := o.m.top.state) && o.m.quote == m.quote)
      && (o.Redo? ==>
            o.m.top.state.Inf? || o.m.top.state.NullState? || o.m.top.state.BooleanState? || o.m.top.state.Number?)
      && (o.Advance? ==> c != '\0' && o.skip == 1)
      && (o.Advance? && c == '{' ==> o.m.top == m.top.(state := EatWs, saved := FieldStart, current := Obj([])))
      && (o.Advance? && c == '[' ==> o.m.top == m.top.(state := EatWs, saved := ArrayState, current := Arr([])))
      && (o.Advance? && c != '{' && c != '[' ==> o.m.top == m.top.(state := StringState) && o.m.quote == c)
  {
  }

  lemma KeptAtStart(cfg: Config, m: Tok, c: char, la: string)
    requires WellFormed(cfg, m)
    requires m.top.state.Start?
    ensures Kept(cfg, m, c, la, Switch(cfg, m, c, la))
  {
    hide OnNumber, OnEscapeUnicode, CStr, SameStart, AddMember, AllBelowOk, OnStart, CompletesHigh, LeavesCut;
    OnlyInEscapes(m, c);
    StartShape(cfg, m, c);
  }

  lemma KeptAtSpace(cfg: Config, m: Tok, c: char, la: string)
    requires WellFormed(cfg, m)
    requires m.top.state.EatWs?
    ensures Kept(cfg, m, c, la, Switch(cfg, m, c, la))
  {
    hide OnNumber, OnEscapeUnicode, CStr, SameStart, AddMember, AllBelowOk, CompletesHigh, LeavesCut;
    OnlyInEscapes(m, c);
  }

  lemma KeptInWord(cfg: Config, m: Tok, c: char, la: string)
    requires WellFormed(cfg, m)
    requires m.top.state.Inf? || m.top.state.NullState? || m.top.state.BooleanState?
    ensures Kept(cfg, m, c, la, Switch(cfg, m, c, la))
  {
    hide OnNumber, OnEscapeUnicode, CStr, SameStart, AddMember, AllBelowOk, CompletesHigh, LeavesCut;
    OnlyInEscapes(m, c);
  }

  lemma KeptInComment(cfg: Config, m: Tok, c: char, la: string)
    requires WellFormed(cfg, m)
    requires IsComment(m.top.state)
    ensures Kept(cfg, m, c, la, Switch(cfg, m, c, la))
  {
    hide OnNumber, OnEscapeUnicode, CStr, SameStart, AddMember, AllBelowOk, CompletesHigh, LeavesCut;
    OnlyInEscapes(m, c);
    assert Switch(cfg, m, c, la) == OnComment(m, c);
    hide Switch, IsNumberChar, IsHexOrNul;
  }

  lemma KeptInQuotes(cfg: Config, m: Tok, c: char, la: string)
    requires WellFormed(cfg, m)
    requires m.top.state.StringState? || m.top.state.Field?
    ensures Kept(cfg, m, c, la, Switch(cfg, m, c, la))
  {
    hide OnNumber, OnEscapeUnicode, CStr, SameStart, AddMember, AllBelowOk, CompletesHigh, LeavesCut;
    OnlyInEscapes(m, c);
  }

  lemma KeptAfterBackslash(cfg: Config, m: Tok, c: char, la: string)
    requires WellFormed(cfg, m)
    requires m.top.state.StringEscape?
    ensures Kept(cfg, m, c, la, Switch(cfg, m, c, la))
  {
    hide OnNumber, OnEscapeUnicode, CStr, SameStart, AddMember, AllBelowOk, CompletesHigh, LeavesCut;
    OnlyInEscapes(m, c);
  }

  lemma KeptAtElem(cfg: Config, m: Tok, c: char, la: string)
    requires WellFormed(cfg, m)
    requires m.top.state.ArrayState? || m.top.state.ArrayAfterSep?
    ensures Kept(cfg, m, c, la, Switch(cfg, m, c, la))
  {
    hide OnNumber, OnEscapeUnicode, CStr, SameStart, AddMember, AllBelowOk, Push, CompletesHigh, LeavesCut;
    OnlyInEscapes(m, c);
    PushShape(cfg, m, ArrayAdd);
  }

  lemma KeptAtValue(cfg: Config, m: Tok, c: char, la: string)
    requires WellFormed(cfg, m)
    requires m.top.state.ObjValue?
    ensures Kept(cfg, m, c, la, Switch(cfg, m, c, la))
  {
    hide OnNumber, OnEscapeUnicode, CStr, SameStart, AddMember, AllBelowOk, Push, CompletesHigh, LeavesCut;
    OnlyInEscapes(m, c);
    PushShape(cfg, m, ObjValueAdd);
  }

  lemma KeptAtAdd(cfg: Config, m: Tok, c: char, la: string)
    requires WellFormed(cfg, m)
    requires m.top.state.ArrayAdd? || m.top.state.ObjValueAdd?
    ensures Kept(cfg, m, c, la, Switch(cfg, m, c, la))
  {
    hide OnNumber, OnEscapeUnicode, CStr, SameStart, AddMember, AllBelowOk, CompletesHigh, LeavesCut;
    OnlyInEscapes(m, c);
  }

  lemma KeptAtSeparator(cfg: Config, m: Tok, c: char, la: string)
    requires WellFormed(cfg, m)
    requires m.top.state.ArraySep? || m.top.state.FieldEnd? || m.top.state.ObjSep?
    ensures Kept(cfg, m, c, la, Switch(cfg, m, c, la))
  {
    hide OnNumber, OnEscapeUnicode, CStr, SameStart, AddMember, AllBelowOk, CompletesHigh, LeavesCut;
    OnlyInEscapes(m, c);
  }

  lemma KeptAtField(cfg: Config, m: Tok, c: char, la: string)
    requires WellFormed(cfg, m)
    requires m.top.state.FieldStart? || m.top.state.FieldStartAfterSep?
    ensures Kept(cfg, m, c, la, Switch(cfg, m, c, la))
  {
    hide OnNumber, OnEscapeUnicode, CStr, SameStart, AddMember, AllBelowOk, OnFieldStart, CompletesHigh, LeavesCut;
    OnlyInEscapes(m, c);
    FieldStartShape(cfg, m, c);
  }

  lemma FieldStartShape(cfg: Config, m: Tok, c: char)
    ensures var o := OnFieldStart(cfg, m, c);
      && !o.Redo? && o.m.below == m.below && o.m.obj == m.obj && o.m.loc == m.loc
      && (o.Stop? ==> o.m == m && (o.err == ErrUnexpected || o.err == ErrKeyName))
      && (o.Advance? ==> c != '\0' && o.skip == 1)
      && (o.Advance? ==> o.m == m.Then(Finish) || (o.m.top == m.Go(Field).top && o.m.quote == c))
  {
  }

  lemma PushShape(cfg: Config, m: Tok, returnTo: State)
    requires WellFormed(cfg, m)
    requires if returnTo.ArrayAdd? then m.top.state.ArrayState? || m.top.state.ArrayAfterSep?
             else returnTo.ObjValueAdd? && m.top.state.ObjValue?
    ensures var o := Push(cfg, m, returnTo);
      && !o.Advance? && (o.Stop? ==> o.m == m && o.err == ErrDepth)
      && (o.Redo? ==> o.m.top == FRESH && |o.m.below| < cfg.maxDepth && AllBelowOk(o.m.below))
      && (o.Redo? ==> o.m.obj == m.obj && o.m.loc == m.loc)
  {
  }

  lemma KeptAtFinish(cfg: Config, m: Tok, c: char, la: string)
    requires WellFormed(cfg, m) && m.top.state.Finish?
    ensures Kept(cfg, m, c, la, Switch(cfg, m, c, la))
  {
  }

  lemma KeptInNumber(cfg: Config, m: Tok, c: char, la: string)
    requires WellFormed(cfg, m) && m.top.state == Number
    ensures Kept(cfg, m, c, la, OnNumber(cfg, m, c))
  {
    hide OnNumber;
    NumberShape(cfg, m, c);
  }

  lemma KeptInEscape(cfg: Config, m: Tok, c: char, la: string)
    requires WellFormed(cfg, m) && m.top.state == EscapeUnicode
    ensures Kept(cfg, m, c, la, OnEscapeUnicode(m, c, la))
  {
    hide OnEscapeUnicode;
    EscapeShape(m, c, la);
  }

  lemma SwitchKeeps(cfg: Config, m: Tok, c: char, la: string)
    requires WellFormed(cfg, m)
    ensures Kept(cfg, m, c, la, Switch(cfg, m, c, la))
  {
    hide Kept, WellFormed, OnNumber, OnEscapeUnicode, OnStart, OnNull, OnBoolean, OnInf, OnQuoted, OnStringEscape;
    match m.top.state
    case EatWs => KeptAtSpace(cfg, m, c, la);
    case Start => KeptAtStart(cfg, m, c, la);
    case Finish => KeptAtFinish(cfg, m, c, la);
    case Number => KeptInNumber(cfg, m, c, la);
    case EscapeUnicode => KeptInEscape(cfg, m, c, la);
    case StringEscape => KeptAfterBackslash(cfg, m, c, la);
    case ObjValue => KeptAtValue(cfg, m, c, la);
    case FieldStart => KeptAtField(cfg, m, c, la);
    case FieldStartAfterSep => KeptAtField(cfg, m, c, la);
    case StringState => KeptInQuotes(cfg, m, c, la);
    case Field => KeptInQuotes(cfg, m, c, la);
    case _ =>
      if IsComment(m.top.state) {
        KeptInComment(cfg, m, c, la);
      } else if m.top.state.ArrayState? || m.top.state.ArrayAfterSep? {
        KeptAtElem(cfg, m, c, la);
      } else if m.top.state.ArrayAdd? || m.top.state.ObjValueAdd? {
        KeptAtAdd(cfg, m, c, la);
      } else if m.top.state.ArraySep? || m.top.state.FieldEnd? || m.top.state.ObjSep? {
        KeptAtSeparator(cfg, m, c, la);
      } else {
        KeptInWord(cfg, m, c, la);
      }
  }

  lemma {:induction false} StepKeeps(cfg: Config, m: Tok, c: char, la: string)
    requires WellFormed(cfg, m)
    ensures Kept(cfg, m, c, la, Step(cfg, m, c, la))
    decreases Level(m, c), Rank(m)
  {
    hide Switch;
    SwitchKeeps(cfg, m, c, la);
    var o := Switch(cfg, m, c, la);
    if o.Redo? {
      RedoDecreases(cfg, m, c, la);
      StepKeeps(cfg, o.m, c, la);
    }
  }

  // ----- the loop at a byte of the chunk -----

  /** The machine with which the loop comes to byte `i` of the chunk, or to its
      end; none if the call stops before or the byte is taken in passing. */
  function MachineAt(cfg: Config, m: Tok, s: string, i: nat): Option<Tok>
    requires i <= |s|
    decreases |s|
  {
    if i == 0 then Some(m)
    else
      match Step(cfg, m, s[0], s[1..])
      case Advance(n, k) => if s[0] == '\0' || k > i then None else MachineAt(cfg, n, s[k..], i - k)
      case Stop(_, _, _) => None
  }

  /** A property of a machine, the byte in front of it and the rest of the chunk. */
  type Event = (Tok, char, string) -> bool

  predicate HappensAt(cfg: Config, m: Tok, s: string, ev: Event, i: nat) {
    i < |s| && MachineAt(cfg, m, s, i).Some? && ev(MachineAt(cfg, m, s, i).value, s[i], s[i + 1..])
  }

  /** The loop comes to a byte of the chunk at which the event happens. */
  ghost predicate Happens(cfg: Config, m: Tok, s: string, ev: Event) {
    exists i: nat :: HappensAt(cfg, m, s, ev, i)
  }

  lemma NextByte(cfg: Config, m: Tok, s: string, ev: Event, i: nat)
    requires 0 < i < |s|
    ensures var o := Step(cfg, m, s[0], s[1..]);
      HappensAt(cfg, m, s, ev, i) <==>
        o.Advance? && s[0] != '\0' && o.skip <= i && HappensAt(cfg, o.m, s[o.skip..], ev, i - o.skip)
  {
    hide Step;
    var o := Step(cfg, m, s[0], s[1..]);
    if o.skip <= i { assert s[i + 1..] == s[o.skip..][i - o.skip + 1..]; }
  }

  /** It happens at the first byte, or later. */
  lemma HappensNext(cfg: Config, m: Tok, s: string, ev: Event)
    ensures Happens(cfg, m, s, ev) <==>
      s != "" && (ev(m, s[0], s[1..]) ||
        (var o := Step(cfg, m, s[0], s[1..]); o.Advance? && s[0] != '\0' && Happens(cfg, o.m, s[o.skip..], ev)))
  {
    hide Step;
    if s != "" {
      var o := Step(cfg, m, s[0], s[1..]);
      assert HappensAt(cfg, m, s, ev, 0) <==> ev(m, s[0], s[1..]);
      forall i: nat | HappensAt(cfg, m, s, ev, i) && i > 0
        ensures o.Advance? && s[0] != '\0' && o.skip <= i && HappensAt(cfg, o.m, s[o.skip..], ev, i - o.skip)
      {
        NextByte(cfg, m, s, ev, i);
      }
      if o.Advance? && s[0] != '\0' {
        forall i: nat | HappensAt(cfg, o.m, s[o.skip..], ev, i) ensures HappensAt(cfg, m, s, ev, i + o.skip) {
          NextByte(cfg, m, s, ev, i + o.skip);
        }
      }
    }
  }

  /** The byte completes the escape of a high surrogate, and the chunk ends behind
      the backslash and `u` of the next escape; or the byte is a NUL that counts as
      the last digit, and a backslash and `u` follow. */
  predicate LosesPair(m: Tok, c: char, la: string) {
    CompletesHigh(m, c) && LeavesCut(c, la)
  }

  /** The byte is a NUL inside a comment that follows a complete child of an array
      or object. */
  predicate NulAfterChild(m: Tok, c: char, la: string) {
    c == '\0' && IsComment(m.top.state) && m.top.state != CommentStart && m.top.saved == Finish && m.below != []
  }

  /** The loop has stopped on a NUL inside a comment that follows a complete value. */
  ghost predicate NulInComment(r: End) {
    r.nul && IsComment(r.m.top.state) && r.m.top.state != CommentStart && r.m.top.saved == Finish
  }

  /** The same for the whole loop of a call. */
  lemma {:induction false} RunKeeps(cfg: Config, m: Tok, s: string)
    requires WellFormed(cfg, m)
    ensures var r := Run(cfg, m, s);
      && WellFormed(cfg, r.m)
      && (NoCutPair(m) ==> r.err != Undefined)
      && (FinalError(cfg, r) == Success <==>
          (r.err == Success && Complete(r.m) && (cfg.strict && r.m.top.state == Finish ==> r.nul)) || NulInComment(r))
      && (cfg.strict && !IsComment(m.top.state) ==> !IsComment(r.m.top.state))
    decreases |s|
  {
    hide Step, CompletesHigh, LeavesCut;
    if s != "" {
      StepKeeps(cfg, m, s[0], s[1..]);
      var o := Step(cfg, m, s[0], s[1..]);
      if o.Advance? && s[0] != '\0' {
        RunKeeps(cfg, o.m, s[o.skip..]);
      }
    }
  }

  /** A surrogate pair is cut exactly when a byte of the chunk cuts it. */
  lemma {:induction false} RunCutsPair(cfg: Config, m: Tok, s: string)
    requires WellFormed(cfg, m)
    ensures !NoCutPair(Run(cfg, m, s).m) <==> !NoCutPair(m) || Happens(cfg, m, s, LosesPair)
    decreases |s|
  {
    hide Step, CompletesHigh, LeavesCut, Happens, WellFormed;
    HappensNext(cfg, m, s, LosesPair);
    if s != "" {
      var o := Step(cfg, m, s[0], s[1..]);
      StepKeeps(cfg, m, s[0], s[1..]);
      if o.Advance? && s[0] != '\0' {
        RunCutsPair(cfg, o.m, s[o.skip..]);
      }
    }
  }

  lemma RunShifts(cfg: Config, m: Tok, s: string)
    requires WellFormed(cfg, m)
    ensures Run(cfg, m, s).err == Undefined <==> !NoCutPair(m) && s != "" && IsHexOrNul(s[0])
    ensures !NoCutPair(m) && s != "" ==> Run(cfg, m, s).nul == (s[0] == '\0')
  {
    hide Step, WellFormed, Run;
    RunKeeps(cfg, m, s);
    if s == "" {
      RunEmpty(cfg, m);
    } else if !NoCutPair(m) {
      StepKeeps(cfg, m, s[0], s[1..]);
      RunOneStep(cfg, m, s);
    }
  }

  lemma RunEmpty(cfg: Config, m: Tok)
    ensures Run(cfg, m, "") == End(Pending(m).(loc := NO_LOCALS), if IsDone(m) then Success else Continue, false, "")
  {
  }

  lemma RunOneStep(cfg: Config, m: Tok, s: string)
    requires s != "" && Step(cfg, m, s[0], s[1..]).Stop?
    ensures var o := Step(cfg, m, s[0], s[1..]);
            Run(cfg, m, s) == End(o.m.(loc := NO_LOCALS), o.err, s[0] == '\0', s[o.skip..])
  {
  }

  lemma NulInCommentStep(cfg: Config, m: Tok, la: string)
    requires WellFormed(cfg, m)
    ensures var o := Step(cfg, m, '\0', la);
      NulAfterChild(m, '\0', la) <==> o.Advance? && NulAfterChild(o.m, '\0', la)
  {
    hide Step;
    StepKeeps(cfg, m, '\0', la);
    if IsComment(m.top.state) { CommentStep(cfg, m, '\0', la); }
  }

  lemma CommentStep(cfg: Config, m: Tok, c: char, la: string)
    requires IsComment(m.top.state)
    ensures Step(cfg, m, c, la) == OnComment(m, c)
  {
  }

  lemma {:induction false} RunNulInComment(cfg: Config, m: Tok, s: string)
    requires WellFormed(cfg, m)
    ensures var r := Run(cfg, m, s); NulInComment(r) && r.m.below != [] <==> Happens(cfg, m, s, NulAfterChild)
    decreases |s|
  {
    hide Step, Happens, WellFormed;
    HappensNext(cfg, m, s, NulAfterChild);
    if s != "" {
      var o := Step(cfg, m, s[0], s[1..]);
      StepKeeps(cfg, m, s[0], s[1..]);
      if s[0] == '\0' {
        NulInCommentStep(cfg, m, s[1..]);
      } else if o.Advance? {
        RunNulInComment(cfg, o.m, s[o.skip..]);
      }
    }
  }

  // ----- redo_char -----

  /** How often a character is sent back to the switch. */
  function Redos(cfg: Config, m: Tok, c: char, la: string): nat
    decreases Level(m, c), Rank(m)
  {
    match Switch(cfg, m, c, la)
    case Redo(n) => RedoDecreases(cfg, m, c, la); 1 + Redos(cfg, n, c, la)
    case _ => 0
  }

  function Potential(m: Tok, c: char): nat {
    match m.top.state
    case EatWs =>
      if m.top.saved == Start then 2
      else if m.top.saved == Finish then 4
      else if m.top.saved == ArraySep || m.top.saved == ObjSep then 1
      else if m.top.saved == ArrayState || m.top.saved == ArrayAfterSep || m.top.saved == ObjValue then 4
      else 1
    case Start => 1
    case Finish => 3
    case ArrayAdd => 2
    case ObjValueAdd => 2
    case ArrayState => 3
    case ArrayAfterSep => 3
    case ObjValue => 3
    case Number => if IsNumberChar(c) then 0 else 6
    case Inf => if m.stPos == 0 then 0 else 5
    case NullState => if m.stPos == 0 then 0 else 5
    case BooleanState => if m.stPos == 0 then 0 else 5
    case _ => 0
  }

  /** In a well-formed tokener no character goes through the switch more than
      seven times, whatever the nesting depth. */
  lemma {:induction false} AtMostSixRedos(cfg: Config, m: Tok, c: char, la: string)
    requires WellFormed(cfg, m)
    ensures Redos(cfg, m, c, la) <= Potential(m, c) <= 6
    decreases Level(m, c), Rank(m)
  {
    hide Switch;
    SwitchKeeps(cfg, m, c, la);
    var o := Switch(cfg, m, c, la);
    if o.Redo? {
      RedoDecreases(cfg, m, c, la);
      PotentialDrops(cfg, m, c, la);
      AtMostSixRedos(cfg, o.m, c, la);
    }
  }

  lemma PotentialDrops(cfg: Config, m: Tok, c: char, la: string)
    requires WellFormed(cfg, m) && Switch(cfg, m, c, la).Redo?
    ensures Potential(Switch(cfg, m, c, la).m, c) < Potential(m, c)
  {
    match m.top.state
    case Start => StartRedo(cfg, m, c);
    case Finish => assert BelowOk(m.below[|m.below| - 1]);
    case Number => assert OnNumberEnd(cfg, m, c).Redo?;
    case _ =>
  }

  // ----- whole calls -----

  lemma EnterKeeps(cfg: Config, m: Tok)
    requires WellFormed(cfg, m)
    ensures WellFormed(cfg, Enter(m)) && (NoCutPair(m) ==> NoCutPair(Enter(m)))
  {
  }

  /** The call hands out a value although an enclosing array or object is open. */
  ghost predicate Premature(cfg: Config, m: Tok, s: string) {
    var r := Run(cfg, Enter(m), s);
    FinalError(cfg, r) == Success && r.m.below != []
  }

  /** After a success no level holds anything of the document, and the depth is where the value
      was taken: at level 0, or at the open level of a premature one. */
  lemma SuccessResets(cfg: Config, m: Tok, s: string)
    requires ParseEx(cfg, m, s).err == Success
    ensures var r := ParseEx(cfg, m, s);
      && |r.m.below| == |Run(cfg, Enter(m), s).m.below| && r.m.top == Rec(EatWs, Start, Null, None)
      && (forall i :: 0 <= i < |r.m.below| ==> r.m.below[i] == Rec(EatWs, Start, Null, None))
      && (r.m.below == [] <==> !Premature(cfg, m, s))
  {
    hide Run;
  }

  /** Every call, on any bytes, keeps the stack within its bounds and the
      invariant, unless it hands out a value prematurely. */
  lemma CallKeeps(cfg: Config, m: Tok, s: string)
    requires WellFormed(cfg, m)
    ensures var r := ParseEx(cfg, m, s);
            |r.m.below| < cfg.maxDepth && (!Premature(cfg, m, s) ==> WellFormed(cfg, r.m))
  {
    hide Run;
    EnterKeeps(cfg, m);
    RunKeeps(cfg, Enter(m), s);
  }

  /** A call shifts by a negative amount exactly when it starts inside a cut
      surrogate pair with a hexadecimal digit or a NUL; behind the NUL the error
      code hides it.  It leaves a pair cut exactly when it starts inside one, or
      comes to a byte that cuts one. */
  lemma CallDefined(cfg: Config, m: Tok, s: string)
    requires WellFormed(cfg, m)
    ensures Run(cfg, Enter(m), s).err == Undefined <==> !NoCutPair(m) && s != "" && IsHexOrNul(s[0])
    ensures ParseEx(cfg, m, s).err == Undefined <==> !NoCutPair(m) && s != "" && s[0] in HEX_CHARS
    ensures !NoCutPair(ParseEx(cfg, m, s).m) <==> !NoCutPair(m) || Happens(cfg, Enter(m), s, LosesPair)
  {
    hide Run, Happens;
    EnterKeeps(cfg, m);
    RunKeeps(cfg, Enter(m), s);
    RunShifts(cfg, Enter(m), s);
    RunCutsPair(cfg, Enter(m), s);
  }

  /** "Success" with an array or object still open happens exactly when the call
      comes to a NUL inside a comment that follows a complete child; so never
      without a NUL, and never in strict mode, which has no comments. */
  lemma PrematureIffNulInComment(cfg: Config, m: Tok, s: string)
    requires WellFormed(cfg, m)
    ensures Premature(cfg, m, s) <==> Happens(cfg, Enter(m), s, NulAfterChild)
    ensures '\0' !in s || (cfg.strict && !IsComment(m.top.state)) ==> !Premature(cfg, m, s)
  {
    hide Run;
    EnterKeeps(cfg, m);
    RunKeeps(cfg, Enter(m), s);
    RunNulInComment(cfg, Enter(m), s);
  }

  /** An open array, the element 1, an open comment and a NUL: the source reports
      success and returns 1. */
  lemma PrematureExample(cfg: Config)
    requires !cfg.strict && cfg.maxDepth >= 2
    ensures Premature(cfg, INITIAL, "[1/*\0") && ParseEx(cfg, INITIAL, "[1/*\0").value == Int(1)
  {
    hide Run, Step, Clean, OnNumberEnd;
    var m1 := ExampleBracket(cfg);
    var m2 := ExampleElem(cfg, m1);
    ExampleStar(cfg, m2);
  }

  lemma ExampleBracket(cfg: Config) returns (n: Tok)
    ensures Run(cfg, INITIAL, "[1/*\0") == Run(cfg, n, "1/*\0")
    ensures n == INITIAL.(top := FRESH.(current := Arr([]))).Then(ArrayState)
  {
    hide Run, Step, Clean;
    n := INITIAL.(top := FRESH.(current := Arr([]))).Then(ArrayState);
    var s0, s1 := "[1/*\0", "1/*\0";
    assert s0[1..] == s1;
    StartStep(cfg, INITIAL, '[', s1);
    StepAdvance(cfg, INITIAL.Go(Start), '[', s1, n);
    RunAdvance(cfg, INITIAL, s0, n);
  }

  lemma ExampleStar(cfg: Config, m: Tok)
    requires m.top.state == CommentStart && m.loc == NO_LOCALS
    ensures Run(cfg, m, "*\0") == End(m.Append("*").Go(Comment).Append("\0"), Success, true, "")
  {
    hide Run, Step, Clean;
    var n := m.Append("*").Go(Comment);
    assert "*\0"[1..] == "\0" && "\0"[1..] == "";
    StepAdvance(cfg, m, '*', "\0", n);
    RunAdvance(cfg, m, "*\0", n);
    StepAdvance(cfg, n, '\0', "", n.Append("\0"));
    RunNul(cfg, n, "\0", n.Append("\0"));
  }

  lemma RunAdvance(cfg: Config, m: Tok, s: string, n: Tok)
    requires s != "" && s[0] != '\0' && Step(cfg, m, s[0], s[1..]) == Advance(n, 1)
    ensures Run(cfg, m, s) == Run(cfg, n, s[1..])
  {
  }

  lemma RunNul(cfg: Config, m: Tok, s: string, n: Tok)
    requires s != "" && s[0] == '\0' && Step(cfg, m, s[0], s[1..]) == Advance(n, 1)
    ensures Run(cfg, m, s) == End(Pending(n).(loc := NO_LOCALS), Success, true, s[1..])
  {
  }

  /** Reads the element 1 and the slash that follows it. */
  lemma ExampleElem(cfg: Config, m: Tok) returns (n: Tok)
    requires !cfg.strict && cfg.maxDepth >= 2 && m == INITIAL.(top := FRESH.(current := Arr([]))).Then(ArrayState)
    ensures Run(cfg, m, "1/*\0") == Run(cfg, n, "*\0")
    ensures n.top == Rec(CommentStart, Finish, Int(1), None) && |n.below| == 1 && n.loc == NO_LOCALS
  {
    hide Run, Step, Clean;
    var la, lb := "/*\0", "*\0";
    var k1 := m.Go(ArrayState);
    StepRedo(cfg, m, k1, '1', la);
    var k2 := k1.(below := [] + [k1.top.(state := ArrayAdd)], top := FRESH);
    StepRedo(cfg, k1, k2, '1', la);
    var k3 := NumberStarts(cfg, k2, '1', la);
    assert "1/*\0"[1..] == la && la[1..] == lb;
    RunAdvance(cfg, m, "1/*\0", k3);
    n := ExampleSlash(cfg, k3, lb);
    RunAdvance(cfg, k3, la, n);
  }

  lemma ExampleSlash(cfg: Config, m: Tok, la: string) returns (n: Tok)
    requires !cfg.strict && m.top == FRESH.(state := Number) && m.pb == "1" && !m.isDouble && m.loc.caseLen == 1
    ensures Step(cfg, m, '/', la) == Advance(n, 1)
    ensures n == m.(loc := NO_LOCALS, top := Rec(CommentStart, Finish, Int(1), None), pb := "/")
  {
    hide Step;
    NumberChars('/');
    assert ParseInt64("1") == Some(1);
    var k := m.(loc := NO_LOCALS).Done(Int(1));
    assert OnNumberEnd(cfg, m, '/') == Redo(k);
    StepRedo(cfg, m, k, '/', la);
    n := k.(pb := "/").Go(CommentStart);
    StepAdvance(cfg, k, '/', la, n);
  }
}
