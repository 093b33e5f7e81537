/** Which cuts between two chunks of arbitrary bytes the tokener notices. */
module Cuts {
  import opened Json
  import opened Decimal
  import opened PrintSpec
  import opened TokenerSpec
  import opened TokenerSafety

  /** The byte completes the escape of a high surrogate, and of the next escape the
      chunk holds at most the backslash and the `u`. */
  predicate EndsInPair(m: Tok, c: char, la: string) {
    CompletesHigh(m, c) && la <= "\\u"
  }

  /** The local variables of a tight loop hold something that a new call lacks: a
      number of which this call has collected a character, or a pending high
      surrogate. */
  predicate LocalsMatter(m: Tok) {
    (m.top.state == Number && m.loc.caseLen > 0) || (m.top.state == EscapeUnicode && m.loc.hi != 0)
  }

  /** The chunk ends inside a number, inside the second escape of a surrogate pair,
      or directly behind the first. */
  ghost predicate CutShows(cfg: Config, m: Tok, a: string) {
    var k := MachineAt(cfg, Enter(m), a, |a|);
    Happens(cfg, Enter(m), a, EndsInPair) || (k.Some? && LocalsMatter(k.value))
  }

  /** Two calls, the second with the state that the first has left behind, end like
      one call: with the same state, error, value and position. */
  predicate SameAsWhole(cfg: Config, m: Tok, a: string, b: string) {
    var r := ParseEx(cfg, ParseEx(cfg, m, a).m, b);
    ParseEx(cfg, m, a + b) == r.(offset := |a| + r.offset)
  }

  // ----- the local variables -----

  /** Variables that have nothing to hold have their initial values. */
  ghost predicate LocalsOk(m: Tok) {
    && (m.top.state == Number ==>
          (m.loc.caseLen == 0 ==> m.loc == NO_LOCALS) && (m.loc.negLoc == 1 || m.loc.isExp))
    && (m.top.state == EscapeUnicode ==> m.loc == NO_LOCALS.(hi := m.loc.hi))
  }

  lemma SwitchKeepsLocals(cfg: Config, m: Tok, c: char, la: string)
    requires WellFormed(cfg, m) && LocalsOk(m)
    ensures var o := Switch(cfg, m, c, la); !o.Stop? ==> LocalsOk(o.m)
  {
    hide OnEscapeUnicode, OnNumber, OnStart, CStr, SameStart, AddMember;
    match m.top.state
    case Start => StartShape(cfg, m, c);
    case Number => NumberLocals(cfg, m, c);
    case EscapeUnicode => EscapeLocals(m, c, la);
    case Finish => if m.below != [] { assert BelowOk(m.below[|m.below| - 1]); }
    case _ =>
  }

  lemma NumberLocals(cfg: Config, m: Tok, c: char)
    requires m.top.state == Number && LocalsOk(m)
    ensures var o := OnNumber(cfg, m, c); !o.Stop? ==> LocalsOk(o.m)
  {
  }

  lemma EscapeLocals(m: Tok, c: char, la: string)
    requires m.top.state == EscapeUnicode && LocalsOk(m) && !m.top.saved.Number?
    ensures var o := OnEscapeUnicode(m, c, la); !o.Stop? ==> LocalsOk(o.m)
  {
    hide Encode, DecodeSurrogatePair, AddedDigit;
    if m.stPos < 4 { DigitLocals(m, c); }
  }

  lemma DigitLocals(m: Tok, c: char)
    requires m.stPos < 4
    ensures AddedDigit(m, c).loc == m.loc && AddedDigit(m, c).top == m.top
  {
  }

  lemma {:induction false} StepKeepsLocals(cfg: Config, m: Tok, c: char, la: string)
    requires WellFormed(cfg, m) && LocalsOk(m)
    ensures var o := Step(cfg, m, c, la); o.Advance? ==> LocalsOk(o.m)
    decreases Level(m, c), Rank(m)
  {
    hide Switch;
    SwitchKeeps(cfg, m, c, la);
    SwitchKeepsLocals(cfg, m, c, la);
    var o := Switch(cfg, m, c, la);
    if o.Redo? {
      RedoDecreases(cfg, m, c, la);
      StepKeepsLocals(cfg, o.m, c, la);
    }
  }

  // ----- more input behind the chunk -----

  lemma EscapeExtend(m: Tok, c: char, la: string, ext: string)
    requires m.top.state == EscapeUnicode && !EndsInPair(m, c, la)
    ensures OnEscapeUnicode(m, c, la + ext) == OnEscapeUnicode(m, c, la)
  {
    hide Encode, JoinPair, HexDigit, Pow16, IsHighSurrogate, IsHexOrNul;
    RestDecides(la, ext);
  }

  lemma RestDecides(la: string, ext: string)
    ensures la <= "\\u" <==> la == "" || la == "\\" || la == "\\u"
    ensures !(la <= "\\u") ==> |la + ext| >= 1 && (|la + ext| >= 2 && (la + ext)[0] == '\\' && (la + ext)[1] == 'u' <==>
                                 |la| > 2 && la[0] == '\\' && la[1] == 'u')
  {
    assert |la| == 1 && la[0] == '\\' ==> la == "\\";
    assert |la| == 2 && la[0] == '\\' && la[1] == 'u' ==> la == "\\u";
  }

  lemma {:induction false} StepExtend(cfg: Config, m: Tok, c: char, la: string, ext: string)
    requires WellFormed(cfg, m) && !EndsInPair(m, c, la)
    ensures Step(cfg, m, c, la + ext) == Step(cfg, m, c, la)
    decreases Level(m, c), Rank(m)
  {
    hide OnEscapeUnicode, OnNumber, OnStart, CompletesHigh, WellFormed;
    if m.top.state == EscapeUnicode { EscapeExtend(m, c, la, ext); }
    assert Switch(cfg, m, c, la + ext) == Switch(cfg, m, c, la);
    SwitchKeeps(cfg, m, c, la);
    var o := Switch(cfg, m, c, la);
    if o.Redo? {
      RedoDecreases(cfg, m, c, la);
      OnlyInEscapes(o.m, c);
      StepExtend(cfg, o.m, c, la, ext);
    }
  }

  /** Up to the first byte at which the rest of the chunk matters, the loop over `a`
      and the loop over `a + b` go through the same machines. */
  lemma {:induction false} Walk(cfg: Config, m: Tok, a: string, b: string, i: nat)
    requires WellFormed(cfg, m) && LocalsOk(m) && m.obj == Null
    requires i <= |a| && MachineAt(cfg, m, a, i).Some?
    requires forall j: nat :: j < i ==> !HappensAt(cfg, m, a, EndsInPair, j)
    ensures var k := MachineAt(cfg, m, a, i).value; WellFormed(cfg, k) && LocalsOk(k) && k.obj == Null
    ensures MachineAt(cfg, m, a + b, i) == MachineAt(cfg, m, a, i)
    ensures Run(cfg, m, a + b) == Run(cfg, MachineAt(cfg, m, a, i).value, a[i..] + b)
    decreases i
  {
    hide Step, WellFormed, Kept, EndsInPair, HappensAt, LocalsOk;
    if i == 0 {
      assert a[0..] == a;
    } else {
      var o := WalkStep(cfg, m, a, b);
      var t := a[o.skip..];
      forall j: nat | j < i - o.skip ensures !HappensAt(cfg, o.m, t, EndsInPair, j) {
        NextByte(cfg, m, a, EndsInPair, j + o.skip);
      }
      Walk(cfg, o.m, t, b, i - o.skip);
      assert t[i - o.skip..] == a[i..];
    }
  }

  lemma WalkStep(cfg: Config, m: Tok, a: string, b: string) returns (o: Outcome)
    requires WellFormed(cfg, m) && LocalsOk(m)
    requires a != "" && !HappensAt(cfg, m, a, EndsInPair, 0)
    ensures o == Step(cfg, m, a[0], a[1..]) == Step(cfg, m, (a + b)[0], (a + b)[1..])
    ensures o.Advance? ==> WellFormed(cfg, o.m) && LocalsOk(o.m) && o.m.obj == Null
    ensures o.skip <= |a| && (a + b)[o.skip..] == a[o.skip..] + b && (a + b)[0] == a[0]
  {
    hide Step, WellFormed, EndsInPair, LocalsOk;
    assert (a + b)[1..] == a[1..] + b;
    StepExtend(cfg, m, a[0], a[1..], b);
    StepKeeps(cfg, m, a[0], a[1..]);
    StepKeepsLocals(cfg, m, a[0], a[1..]);
    o := Step(cfg, m, a[0], a[1..]);
  }

  /** A call that answers "continue" has come to the end of its chunk, or ends in
      the middle of a surrogate pair. */
  lemma {:induction false} ContinueReachesEnd(cfg: Config, m: Tok, a: string)
    requires WellFormed(cfg, m) && Run(cfg, m, a).err == Continue
    ensures !Run(cfg, m, a).nul && (a != "" ==> a[0] != '\0' && NoCutPair(m))
    ensures MachineAt(cfg, m, a, |a|).Some? || Happens(cfg, m, a, EndsInPair)
    decreases |a|
  {
    hide Step, WellFormed, Happens, CompletesHigh;
    HappensNext(cfg, m, a, EndsInPair);
    if a != "" {
      var o := Step(cfg, m, a[0], a[1..]);
      StepKeeps(cfg, m, a[0], a[1..]);
      OnlyInEscapes(m, a[0]);
      if o.Advance? {
        ContinueReachesEnd(cfg, o.m, a[o.skip..]);
      }
    }
  }

  // ----- an invisible cut -----

  lemma NothingToLose(cfg: Config, k: Tok)
    requires WellFormed(cfg, k) && LocalsOk(k) && !LocalsMatter(k)
    ensures Pending(k).(loc := NO_LOCALS) == k
  {
  }

  lemma EnterLocals(cfg: Config, m: Tok)
    requires WellFormed(cfg, m)
    ensures var e := Enter(m); WellFormed(cfg, e) && LocalsOk(e) && e.obj == Null
  {
  }

  /** "Continue" is the answer of the loop, and the machine is left as it is. */
  lemma ContinueResult(cfg: Config, m: Tok, a: string)
    requires WellFormed(cfg, m)
    ensures var r := Run(cfg, Enter(m), a);
      && (ParseEx(cfg, m, a).err == Continue ==> r.err == Continue && ParseEx(cfg, m, a).m == r.m)
      && (r.err == Continue ==> !r.nul)
      && (r.err == Continue && r.m.top.state != Finish ==>
            ParseEx(cfg, m, a) == Result(r.m, Continue, Null, |a| - |r.rest|))
  {
    hide Run, WellFormed;
    EnterLocals(cfg, m);
    var r := Run(cfg, Enter(m), a);
    if r.err == Continue { ContinueReachesEnd(cfg, Enter(m), a); }
  }

  /** The loop over the chunk ends at the machine behind its last byte, from which
      the loop over both chunks goes on. */
  lemma WalkToEnd(cfg: Config, m: Tok, a: string, b: string) returns (k: Tok)
    requires WellFormed(cfg, m) && ParseEx(cfg, m, a).err == Continue && !Happens(cfg, Enter(m), a, EndsInPair)
    ensures MachineAt(cfg, Enter(m), a, |a|) == Some(k)
    ensures WellFormed(cfg, k) && LocalsOk(k) && k.obj == Null && !IsDone(k)
    ensures ParseEx(cfg, m, a).m == Pending(k).(loc := NO_LOCALS)
    ensures Run(cfg, Enter(m), a + b) == Run(cfg, k, b)
  {
    hide Run, WellFormed, MachineAt, LocalsOk;
    var e := Enter(m);
    EnterLocals(cfg, m);
    ContinueResult(cfg, m, a);
    ContinueReachesEnd(cfg, e, a);
    k := MachineAt(cfg, e, a, |a|).value;
    Walk(cfg, e, a, b, |a|);
    Walk(cfg, e, a, "", |a|);
    assert a[|a|..] == "" && "" + b == b && a + "" == a && "" + "" == "";
    RunEmpty(cfg, k);
  }

  lemma InvisibleCut(cfg: Config, m: Tok, a: string, b: string)
    requires WellFormed(cfg, m) && ParseEx(cfg, m, a).err == Continue && !CutShows(cfg, m, a)
    ensures SameAsWhole(cfg, m, a, b)
  {
    hide Run, WellFormed, MachineAt, Happens, LocalsOk;
    var k := WalkToEnd(cfg, m, a, b);
    NothingToLose(cfg, k);
    assert Enter(k) == k;
  }

  // ----- a cut that shows -----

  /** In one piece a second sign or exponent is an error, behind the cut it is
      collected as the first. */
  lemma NumberTellsCut(cfg: Config, k: Tok) returns (b: string)
    requires k.top.state == Number && LocalsOk(k) && k.loc.caseLen > 0
    ensures Run(cfg, k, b).err == ErrNumber && !Run(cfg, k, b).nul && Run(cfg, k, b).m.top == k.top
    ensures Run(cfg, k.(loc := NO_LOCALS), b).err == Continue
  {
    var c := if k.loc.caseLen + 1 != k.loc.negLoc then '-' else 'e';
    b := [c];
    assert b[1..] == "";
    CutNumberChar(cfg, k, c);
    var n := Switch(cfg, k.(loc := NO_LOCALS), c, "").m;
    RunAdvance(cfg, k.(loc := NO_LOCALS), b, n);
    RunOneStep(cfg, k, b);
  }

  lemma CutNumberChar(cfg: Config, k: Tok, c: char)
    requires k.top.state == Number && LocalsOk(k) && k.loc.caseLen > 0
    requires c == if k.loc.caseLen + 1 != k.loc.negLoc then '-' else 'e'
    ensures Step(cfg, k, c, "") == Stop(DropPending(k), ErrNumber, 0)
    ensures var n := Switch(cfg, k.(loc := NO_LOCALS), c, "").m;
            Step(cfg, k.(loc := NO_LOCALS), c, "") == Advance(n, 1) && n.top == k.top
  {
    hide CStr, ParseInt64;
    assert IsNumberChar('-') && IsNumberChar('e');
  }

  /** Behind the cut the replacement character has already been written. */
  lemma PairTellsCut(cfg: Config, k: Tok)
    requires k.top.state == EscapeUnicode
    ensures Run(cfg, k, "x") == End(k.(loc := NO_LOCALS), ErrString, false, "x")
  {
    assert !IsHexOrNul('x');
    assert "x"[0..] == "x";
  }

  lemma LocalsTellCut(cfg: Config, m: Tok, a: string) returns (b: string)
    requires WellFormed(cfg, m) && ParseEx(cfg, m, a).err == Continue && !Happens(cfg, Enter(m), a, EndsInPair)
    requires CutShows(cfg, m, a)
    ensures !SameAsWhole(cfg, m, a, b)
  {
    hide Run, WellFormed, MachineAt, Happens;
    var k := WalkToEnd(cfg, m, a, "");
    if k.top.state == Number {
      b := NumberTellsCut(cfg, k);
      var k' := WalkToEnd(cfg, m, a, b);
      assert Enter(k.(loc := NO_LOCALS)) == k.(loc := NO_LOCALS);
    } else {
      b := "x";
      var k' := WalkToEnd(cfg, m, a, b);
      PairTellsCut(cfg, k);
      PairTellsCut(cfg, Enter(Pending(k).(loc := NO_LOCALS)));
      assert |Pending(k).pb| != |k.pb|;
    }
  }

  /** Too little text to cut a pair. */
  lemma TooShortForPair(cfg: Config, m: Tok, s: string)
    requires |s| <= 2
    ensures !Happens(cfg, m, s, LosesPair)
  {
  }

  ghost predicate FirstAt(cfg: Config, m: Tok, a: string, ev: Event, i: nat) {
    HappensAt(cfg, m, a, ev, i) && forall j: nat :: j < i ==> !HappensAt(cfg, m, a, ev, j)
  }

  lemma {:induction false} FirstTime(cfg: Config, m: Tok, a: string, ev: Event, i: nat) returns (j: nat)
    requires HappensAt(cfg, m, a, ev, i)
    ensures FirstAt(cfg, m, a, ev, j)
    decreases i
  {
    hide HappensAt;
    if k: nat :| k < i && HappensAt(cfg, m, a, ev, k) {
      j := FirstTime(cfg, m, a, ev, k);
    } else {
      j := i;
    }
  }

  lemma WalkToPair(cfg: Config, m: Tok, a: string, b: string, i: nat) returns (k: Tok)
    requires WellFormed(cfg, m) && ParseEx(cfg, m, a).err == Continue && FirstAt(cfg, Enter(m), a, EndsInPair, i)
    ensures i < |a| && a[i] != '\0' && CompletesHigh(k, a[i]) && a[i + 1..] <= "\\u"
    ensures WellFormed(cfg, k) && NoCutPair(k)
    ensures MachineAt(cfg, Enter(m), a + b, i) == MachineAt(cfg, Enter(m), a, i) == Some(k)
    ensures Run(cfg, Enter(m), a) == Run(cfg, k, a[i..])
  {
    hide Run, WellFormed, MachineAt, LocalsOk, CompletesHigh;
    EnterLocals(cfg, m);
    ContinueResult(cfg, m, a);
    k := MachineAt(cfg, Enter(m), a, i).value;
    OnlyInEscapes(k, a[i]);
    Walk(cfg, Enter(m), a, b, i);
    Walk(cfg, Enter(m), a, "", i);
    assert a + "" == a && a[i..] + "" == a[i..];
    ContinueReachesEnd(cfg, k, a[i..]);
  }

  /** The first call leaves a cut pair, so the digit is an undefined shift. */
  lemma CutBehindU(cfg: Config, m: Tok, a: string, i: nat)
    requires WellFormed(cfg, m) && ParseEx(cfg, m, a).err == Continue && FirstAt(cfg, Enter(m), a, EndsInPair, i)
    requires i < |a| && a[i + 1..] == "\\u"
    ensures NoCutPair(m) && !NoCutPair(ParseEx(cfg, m, a).m)
  {
    hide Run, WellFormed, MachineAt, CompletesHigh;
    EnterLocals(cfg, m);
    ContinueResult(cfg, m, a);
    ContinueReachesEnd(cfg, Enter(m), a);
    var k := WalkToPair(cfg, m, a, "", i);
    CallDefined(cfg, m, a);
    assert HappensAt(cfg, Enter(m), a, LosesPair, i);
  }

  /** Only the call on the whole leaves a cut pair. */
  lemma CutBeforeU(cfg: Config, m: Tok, a: string, b: string, i: nat)
    requires WellFormed(cfg, m) && ParseEx(cfg, m, a).err == Continue && FirstAt(cfg, Enter(m), a, EndsInPair, i)
    requires i < |a| && b != "" && a[i + 1..] + b == "\\u"
    ensures NoCutPair(ParseEx(cfg, m, a).m) && Happens(cfg, Enter(m), a + b, LosesPair)
  {
    hide Run, WellFormed, MachineAt, CompletesHigh, Happens;
    ContinueResult(cfg, m, a);
    var k := WalkToPair(cfg, m, a, b, i);
    assert (a + b)[i + 1..] == a[i + 1..] + b;
    HappensHere(cfg, Enter(m), a + b, LosesPair, i);
    RunCutsPair(cfg, k, a[i..]);
    TooShortForPair(cfg, k, a[i..]);
  }

  lemma HappensHere(cfg: Config, m: Tok, s: string, ev: Event, i: nat)
    requires HappensAt(cfg, m, s, ev, i)
    ensures Happens(cfg, m, s, ev)
  {
  }

  /** Directly behind a high surrogate: the byte that completes the second escape's
      introduction, or its first digit, tells the cut from the whole. */
  lemma HighTellsCut(cfg: Config, m: Tok, a: string, i: nat) returns (b: string)
    requires WellFormed(cfg, m) && ParseEx(cfg, m, a).err == Continue && FirstAt(cfg, Enter(m), a, EndsInPair, i)
    ensures !SameAsWhole(cfg, m, a, b)
  {
    hide Run, WellFormed, MachineAt, Happens, LocalsOk, CompletesHigh;
    CallKeepsContinue(cfg, m, a);
    var n := ParseEx(cfg, m, a).m;
    var la := a[i + 1..];
    RestDecides(la, "");
    b := if la == "" then "\\u" else if la == "\\" then "u" else "0";
    CallDefined(cfg, m, a + b);
    CallDefined(cfg, n, b);
    if la == "\\u" {
      CutBehindU(cfg, m, a, i);
    } else {
      CutBeforeU(cfg, m, a, b, i);
      TooShortForPair(cfg, Enter(n), b);
    }
  }

  lemma CallKeepsContinue(cfg: Config, m: Tok, a: string)
    requires WellFormed(cfg, m) && ParseEx(cfg, m, a).err == Continue
    ensures WellFormed(cfg, ParseEx(cfg, m, a).m)
  {
    hide Run, WellFormed;
    CallKeeps(cfg, m, a);
  }

  /** On arbitrary bytes, and whatever comes next: a cut goes unnoticed exactly if
      the chunk does not end inside a number, inside the second escape of a
      surrogate pair, or directly behind the first. */
  lemma SplitIsInvisible(cfg: Config, m: Tok, a: string)
    requires WellFormed(cfg, m) && ParseEx(cfg, m, a).err == Continue
    ensures (forall b :: SameAsWhole(cfg, m, a, b)) <==> !CutShows(cfg, m, a)
  {
    hide SameAsWhole, WellFormed, ParseEx, HappensAt, CutShows;
    if !CutShows(cfg, m, a) {
      forall b ensures SameAsWhole(cfg, m, a, b) { InvisibleCut(cfg, m, a, b); }
    } else if Happens(cfg, Enter(m), a, EndsInPair) {
      var i: nat :| HappensAt(cfg, Enter(m), a, EndsInPair, i);
      i := FirstTime(cfg, Enter(m), a, EndsInPair, i);
      var b := HighTellsCut(cfg, m, a, i);
    } else {
      var b := LocalsTellCut(cfg, m, a);
    }
  }

  // ----- chunks that end in a harmless byte -----

  /** Not part of a number or of an escape. */
  predicate HarmlessSplit(c: char) {
    c !in HEX_CHARS && !IsNumberChar(c) && c != '\\' && c != 'u' && c != '\0'
  }

  predicate EndsHarmless(s: string) {
    s == "" || HarmlessSplit(s[|s| - 1])
  }

  lemma {:induction false} HarmlessSettles(cfg: Config, m: Tok, a: string)
    requires WellFormed(cfg, m) && EndsHarmless(a) && a != "" && MachineAt(cfg, m, a, |a|).Some?
    ensures !LocalsMatter(MachineAt(cfg, m, a, |a|).value)
    decreases |a|
  {
    hide Step, WellFormed;
    var o := Step(cfg, m, a[0], a[1..]);
    StepKeeps(cfg, m, a[0], a[1..]);
    if a[o.skip..] == "" {
      assert o.skip == 1 && |a| == 1;
    } else {
      HarmlessSettles(cfg, o.m, a[o.skip..]);
    }
  }

  lemma HarmlessByte(c: char)
    ensures HarmlessSplit(c) ==> !IsHexOrNul(c) && c != '\\' && c != 'u'
  {
  }

  lemma HarmlessIsNoPair(cfg: Config, m: Tok, a: string)
    requires EndsHarmless(a)
    ensures !Happens(cfg, m, a, EndsInPair)
  {
    hide MachineAt, CompletesHigh, HarmlessSplit, IsHexOrNul;
    forall i: nat | i < |a| ensures !HappensAt(cfg, m, a, EndsInPair, i) {
      var la, k := a[i + 1..], MachineAt(cfg, m, a, i);
      assert la != "" ==> la[|la| - 1] == a[|a| - 1];
      RestDecides(la, "");
      HarmlessByte(a[|a| - 1]);
      if k.Some? { OnlyInEscapes(k.value, a[i]); }
    }
  }

  /** The last byte alone often tells: behind one that belongs neither to a number
      nor to an escape every cut is invisible. */
  lemma HarmlessCut(cfg: Config, m: Tok, a: string, b: string)
    requires WellFormed(cfg, m) && EndsHarmless(a) && ParseEx(cfg, m, a).err == Continue
    ensures SameAsWhole(cfg, m, a, b)
  {
    hide Run, WellFormed, Happens, HarmlessSplit, SameAsWhole;
    EnterLocals(cfg, m);
    HarmlessIsNoPair(cfg, Enter(m), a);
    if a != "" && MachineAt(cfg, Enter(m), a, |a|).Some? { HarmlessSettles(cfg, Enter(m), a); }
    InvisibleCut(cfg, m, a, b);
  }

  // ----- behind the end of a C string -----

  /** The terminating NUL is taken for the last digit of a high surrogate. */
  predicate NulEndsPair(m: Tok, c: char, la: string) {
    c == '\0' && CompletesHigh(m, c)
  }

  lemma {:induction false} LongSkip(cfg: Config, m: Tok, c: char, la: string)
    requires Step(cfg, m, c, la).Advance? && Step(cfg, m, c, la).skip != 1
    ensures "\\u" <= la
    decreases Level(m, c), Rank(m)
  {
    hide OnNumber, OnStart, AddMember, SameStart, CStr, Encode, AddedDigit, JoinPair;
    var o := Switch(cfg, m, c, la);
    if o.Redo? {
      RedoDecreases(cfg, m, c, la);
      LongSkip(cfg, o.m, c, la);
    } else if m.top.state == Number {
      NumberShape(cfg, m, c);
    } else if m.top.state == Start {
      StartShape(cfg, m, c);
    }
  }

  lemma FirstNotYet(cfg: Config, m: Tok, a: string)
    requires a != "" && !Happens(cfg, m, a, EndsInPair)
    ensures !HappensAt(cfg, m, a, EndsInPair, 0)
  {
  }

  lemma StepSkipsNoNul(cfg: Config, m: Tok, a: string)
    requires '\0' in a && a[0] != '\0' && Step(cfg, m, a[0], a[1..]).Advance?
    ensures '\0' in a[Step(cfg, m, a[0], a[1..]).skip..]
  {
    hide Step;
    var o := Step(cfg, m, a[0], a[1..]);
    if o.skip != 1 { LongSkip(cfg, m, a[0], a[1..]); }
    var i :| 0 <= i < |a| && a[i] == '\0';
    assert o.skip == 3 ==> a[1..][0] == a[1] == '\\' && a[1..][1] == a[2] == 'u';
    assert a[o.skip..][i - o.skip] == '\0';
  }

  /** A loop that stops at a NUL leaves what follows unread. */
  lemma {:induction false} NulStops(cfg: Config, m: Tok, a: string, b: string)
    requires WellFormed(cfg, m) && LocalsOk(m) && '\0' in a && !Happens(cfg, m, a, EndsInPair)
    ensures var r := Run(cfg, m, a); Run(cfg, m, a + b) == r.(rest := r.rest + b)
    decreases |a|
  {
    hide Step, WellFormed, Happens, EndsInPair, LocalsOk;
    HappensNext(cfg, m, a, EndsInPair);
    FirstNotYet(cfg, m, a);
    var o := WalkStep(cfg, m, a, b);
    if o.Advance? && a[0] != '\0' {
      StepSkipsNoNul(cfg, m, a);
      NulStops(cfg, o.m, a[o.skip..], b);
    }
  }

  lemma NulBehindPair(cfg: Config, k: Tok)
    requires CompletesHigh(k, '\0')
    ensures Run(cfg, k, "\0").rest == "" && Run(cfg, k, "\0\\u").rest == "u"
  {
    hide Step, HexDigit, Pow16, DecodeSurrogatePair, Encode;
    EscapeStep(cfg, k, '\0', "");
    EscapeStep(cfg, k, '\0', "\\u");
    assert "\0"[1..] == "" && "\0\\u"[1..] == "\\u" && "\0\\u"[2..] == "u";
  }

  lemma EscapeStep(cfg: Config, m: Tok, c: char, la: string)
    requires m.top.state == EscapeUnicode
    ensures Step(cfg, m, c, la) == OnEscapeUnicode(m, c, la)
  {
    EscapeShape(m, c, la);
  }

  lemma NulIsLast(cfg: Config, m: Tok, s: string)
    requires NulFree(s)
    ensures Happens(cfg, m, s + "\0", EndsInPair) <==> HappensAt(cfg, m, s + "\0", NulEndsPair, |s|)
    ensures Happens(cfg, m, s + "\0", NulEndsPair) <==> HappensAt(cfg, m, s + "\0", NulEndsPair, |s|)
    ensures forall i: nat :: i < |s| ==> !HappensAt(cfg, m, s + "\0", EndsInPair, i)
  {
    hide MachineAt, CompletesHigh;
    var a := s + "\0";
    assert a[|s|] == '\0' && a[|s| + 1..] == "";
    forall i: nat | i < |s| ensures !HappensAt(cfg, m, a, EndsInPair, i) && !HappensAt(cfg, m, a, NulEndsPair, i) {
      assert a[i] != '\0' && a[i + 1..][|s| - i - 1] == '\0';
      RestDecides(a[i + 1..], "");
    }
    assert HappensAt(cfg, m, a, EndsInPair, |s|) <==> HappensAt(cfg, m, a, NulEndsPair, |s|);
  }

  /** With `len == -1` the source's tests for the end of the buffer never hold, so
      that its look-ahead goes on into the bytes `t` behind the terminating NUL.
      They make a difference exactly if the NUL is taken for the last digit of a
      high surrogate. */
  lemma BehindTheNul(cfg: Config, m: Tok, s: string)
    requires WellFormed(cfg, m) && NulFree(s)
    ensures (forall t :: ParseEx(cfg, m, s + "\0" + t) == ParseEx(cfg, m, s + "\0")) <==>
            !Happens(cfg, Enter(m), s + "\0", NulEndsPair)
  {
    hide Run, WellFormed, Happens, HappensAt, MachineAt;
    var a, e := s + "\0", Enter(m);
    EnterLocals(cfg, m);
    NulIsLast(cfg, e, s);
    if !Happens(cfg, e, a, NulEndsPair) {
      assert a[|s|] == '\0';
      forall t ensures ParseEx(cfg, m, a + t) == ParseEx(cfg, m, a) { NulStops(cfg, e, a, t); }
    } else {
      PairBehindNul(cfg, m, s);
      assert ParseEx(cfg, m, a + "\\u").offset != ParseEx(cfg, m, a).offset;
    }
  }

  lemma PairBehindNul(cfg: Config, m: Tok, s: string)
    requires WellFormed(cfg, m) && NulFree(s) && HappensAt(cfg, Enter(m), s + "\0", NulEndsPair, |s|)
    ensures Run(cfg, Enter(m), s + "\0").rest == "" && Run(cfg, Enter(m), s + "\0" + "\\u").rest == "u"
  {
    hide Run, WellFormed, Happens, MachineAt, CompletesHigh, LocalsOk;
    var a, e := s + "\0", Enter(m);
    EnterLocals(cfg, m);
    NulIsLast(cfg, e, s);
    Walk(cfg, e, a, "\\u", |s|);
    Walk(cfg, e, a, "", |s|);
    assert a + "" == a && a[|s|..] == "\0" && "\0" + "" == "\0" && "\0" + "\\u" == "\0\\u";
    NulBehindPair(cfg, MachineAt(cfg, e, a, |s|).value);
  }
}
