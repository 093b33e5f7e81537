/** What every value is like that the tokener returns, for arbitrary input bytes. */
module TokenerValues {
  import opened Json
  import opened Decimal
  import opened PrintSpec
  import opened TokenerSpec
  import opened TokenerSafety
  import opened RoundTrip
  import opened Chunking
  import opened Cuts

  /** Keys are distinct and free of NULs, and integers have 64 bits. */
  ghost predicate Sound(v: Value) {
    match v
    case Int(n) => INT64_MIN <= n <= INT64_MAX
    case Arr(es) => forall i :: 0 <= i < |es| ==> Sound(es[i])
    case Obj(ms) => DistinctKeys(ms) && forall i :: 0 <= i < |ms| ==> NulFree(ms[i].key) && Sound(ms[i].val)
    case _ => true
  }

  /** What the printers change: doubles, and strings with a NUL. */
  ghost predicate Lossless(v: Value) {
    match v
    case Double(_) => false
    case Infinity(_) => false
    case NaN => false
    case Str(s) => NulFree(s)
    case Arr(es) => forall i :: 0 <= i < |es| ==> Lossless(es[i])
    case Obj(ms) => forall i :: 0 <= i < |ms| ==> Lossless(ms[i].val)
    case _ => true
  }

  /** A record's value leaves room for the levels above it. */
  ghost predicate RecFits(r: Rec, level: nat, maxDepth: nat) {
    Sound(r.current) && level + Height(r.current) < maxDepth && (r.field.Some? ==> NulFree(r.field.value))
  }

  ghost predicate BelowFits(rs: seq<Rec>, maxDepth: nat) {
    forall i :: 0 <= i < |rs| ==> RecFits(rs[i], i, maxDepth)
  }

  predicate IsAdd(s: State) {
    s.ArrayAdd? || s.ObjValueAdd?
  }

  /** The values on the stack; `obj` is the child that is going to be added. */
  ghost predicate Fits(cfg: Config, m: Tok) {
    && RecFits(m.top, |m.below|, cfg.maxDepth) && BelowFits(m.below, cfg.maxDepth)
    && Sound(m.obj) && (IsAdd(m.top.state) ==> |m.below| + 1 + Height(m.obj) < cfg.maxDepth)
  }

  // ----- adding a child -----

  lemma HeightOfElems(es: seq<Value>, v: Value, h: nat)
    requires ElemsHeight(es) <= h && Height(v) < h
    ensures ElemsHeight(es + [v]) <= h
  {
    assert (es + [v])[..|es|] == es;
  }

  lemma ElemAdded(a: Value, v: Value, h: nat)
    requires Sound(a) && Sound(v) && Height(a) <= h && Height(v) < h
    ensures Sound(AddElem(a, v)) && Height(AddElem(a, v)) <= h
  {
    if a.Arr? { HeightOfElems(a.elems, v, h); }
  }

  /** Every pair is an old one or the new one. */
  lemma {:induction false} MembersAfterAdd(ms: seq<Member>, key: string, v: Value)
    ensures var r := AddMember(ms, key, v);
            forall i :: 0 <= i < |r| ==> r[i] == Member(key, v) || (i < |ms| && r[i] == ms[i])
    decreases |ms|
  {
    if ms != [] && ms[0].key != key { MembersAfterAdd(ms[1..], key, v); }
  }

  lemma {:induction false} AddKeepsDistinct(ms: seq<Member>, key: string, v: Value)
    requires DistinctKeys(ms)
    ensures DistinctKeys(AddMember(ms, key, v))
    decreases |ms|
  {
    if ms != [] && ms[0].key != key {
      AddKeepsDistinct(ms[1..], key, v);
      MembersAfterAdd(ms[1..], key, v);
    }
  }

  ghost predicate PairFits(p: Member, h: nat) {
    NulFree(p.key) && Sound(p.val) && Height(p.val) < h
  }

  lemma ObjFits(ms: seq<Member>, h: nat)
    ensures Sound(Obj(ms)) && Height(Obj(ms)) <= h <==>
            DistinctKeys(ms) && forall i :: 0 <= i < |ms| ==> PairFits(ms[i], h)
  {
    hide DistinctKeys;
    assert Height(Obj(ms)) == MembersHeight(ms);
  }

  lemma PairAdded(o: Value, key: Option<string>, v: Value, h: nat)
    requires Sound(o) && Sound(v) && Height(o) <= h && Height(v) < h && (key.Some? ==> NulFree(key.value))
    ensures Sound(AddPair(o, key, v)) && Height(AddPair(o, key, v)) <= h
  {
    if o.Obj? && key.Some? {
      var ms, r := o.members, AddMember(o.members, key.value, v);
      assert PairFits(Member(key.value, v), h);
      hide Sound, Height, DistinctKeys, PairFits, AddMember;
      ObjFits(ms, h);
      MembersAfterAdd(ms, key.value, v);
      AddKeepsDistinct(ms, key.value, v);
      ObjFits(r, h);
    }
  }

  // ----- one pass through the switch -----

  /** The values are the same. */
  ghost predicate SameValues(m: Tok, n: Tok) {
    && n.below == m.below && n.obj == m.obj && n.top.current == m.top.current && n.top.field == m.top.field
    && (IsAdd(n.top.state) ==> IsAdd(m.top.state))
  }

  /** A complete value without children replaces the level's value. */
  ghost predicate SetsScalar(m: Tok, n: Tok) {
    n.below == m.below && n.obj == m.obj && n.top.field == m.top.field && !IsAdd(n.top.state) &&
    Sound(n.top.current) && Height(n.top.current) == 0
  }

  lemma KeptValues(cfg: Config, m: Tok, n: Tok)
    requires WellFormed(cfg, m) && Fits(cfg, m) && (SameValues(m, n) || SetsScalar(m, n))
    ensures Fits(cfg, n)
  {
  }

  lemma ClampedIsSound(s: string)
    ensures ParseInt64(s).Some? ==> Sound(Int(ParseInt64(s).value))
  {
  }

  lemma NumberValues(cfg: Config, m: Tok, c: char)
    requires m.top.state.Number?
    ensures var n := OnNumber(cfg, m, c).m; SameValues(m, n) || SetsScalar(m, n)
  {
    hide CStr, ParseInt64;
    ClampedIsSound(CStr(m.pb));
  }

  lemma WordValues(cfg: Config, m: Tok, c: char, la: string)
    requires m.top.state.Inf? || m.top.state.NullState? || m.top.state.BooleanState?
    ensures var n := Switch(cfg, m, c, la).m; SameValues(m, n) || SetsScalar(m, n)
  {
    hide SameStart, OnNumber, OnEscapeUnicode;
  }

  lemma StartValues(cfg: Config, m: Tok, c: char)
    requires m.top.state.Start?
    ensures var n := OnStart(cfg, m, c).m; SameValues(m, n) || SetsScalar(m, n)
  {
  }

  lemma EscapeValues(m: Tok, c: char, la: string)
    requires m.top.state.EscapeUnicode? && !IsAdd(m.top.saved)
    ensures SameValues(m, OnEscapeUnicode(m, c, la).m)
  {
    hide Encode, HexDigit, Pow16, DecodeSurrogatePair;
  }

  lemma QuotedFits(cfg: Config, m: Tok, c: char)
    requires WellFormed(cfg, m) && Fits(cfg, m) && (m.top.state.StringState? || m.top.state.Field?)
    ensures Fits(cfg, OnQuoted(m, c).m)
  {
    var n := OnQuoted(m, c).m;
    if m.top.state.StringState? || c != m.quote { KeptValues(cfg, m, n); }
  }

  lemma FinishFits(cfg: Config, m: Tok)
    requires WellFormed(cfg, m) && Fits(cfg, m) && m.top.state.Finish?
    ensures Fits(cfg, OnFinish(m).m)
  {
    if m.below != [] {
      var d := |m.below| - 1;
      assert RecFits(m.below[d], d, cfg.maxDepth);
    }
  }

  lemma PushFits(cfg: Config, m: Tok, returnTo: State)
    requires WellFormed(cfg, m) && Fits(cfg, m) && !IsAdd(m.top.state)
    ensures Fits(cfg, Push(cfg, m, returnTo).m)
  {
  }

  lemma AddFits(cfg: Config, m: Tok)
    requires WellFormed(cfg, m) && Fits(cfg, m) && IsAdd(m.top.state)
    ensures Fits(cfg, OnArrayAdd(m).m) && Fits(cfg, OnObjValueAdd(m).m)
  {
    hide AddElem, AddPair, Height, Sound;
    var h: nat := cfg.maxDepth - |m.below| - 1;
    ElemAdded(m.top.current, m.obj, h);
    PairAdded(m.top.current, m.top.field, m.obj, h);
    NullFits();
  }

  lemma NullFits()
    ensures Sound(Null) && Height(Null) == 0
  {
  }

  lemma OtherValues(cfg: Config, m: Tok, c: char, la: string)
    requires WellFormed(cfg, m)
    requires m.top.state.EatWs? || IsComment(m.top.state) || m.top.state.StringEscape? || m.top.state.ArraySep?
          || m.top.state.FieldStart? || m.top.state.FieldStartAfterSep? || m.top.state.FieldEnd? || m.top.state.ObjSep?
    ensures SameValues(m, Switch(cfg, m, c, la).m)
  {
    hide OnNumber, OnEscapeUnicode, OnStart;
  }

  lemma SwitchFits(cfg: Config, m: Tok, c: char, la: string)
    requires WellFormed(cfg, m) && Fits(cfg, m)
    ensures Fits(cfg, Switch(cfg, m, c, la).m)
  {
    hide Fits, OnNumber, OnEscapeUnicode, OnStart, OnNull, OnBoolean, OnInf, OnQuoted, OnStringEscape, OnArrayAdd,
      OnObjValueAdd, Push, SetsScalar, SameValues;
    var n := Switch(cfg, m, c, la).m;
    match m.top.state
    case Start => StartValues(cfg, m, c); KeptValues(cfg, m, n);
    case Finish => FinishFits(cfg, m);
    case Number => NumberValues(cfg, m, c); KeptValues(cfg, m, n);
    case EscapeUnicode => EscapeValues(m, c, la); KeptValues(cfg, m, n);
    case StringState => QuotedFits(cfg, m, c);
    case Field => QuotedFits(cfg, m, c);
    case ObjValue => PushFits(cfg, m, ObjValueAdd);
    case ArrayState => ElementFits(cfg, m, c);
    case ArrayAfterSep => ElementFits(cfg, m, c);
    case ArrayAdd => AddFits(cfg, m);
    case ObjValueAdd => AddFits(cfg, m);
    case _ =>
      if m.top.state.Inf? || m.top.state.NullState? || m.top.state.BooleanState? {
        WordValues(cfg, m, c, la);
      } else {
        OtherValues(cfg, m, c, la);
      }
      KeptValues(cfg, m, n);
  }

  lemma ElementFits(cfg: Config, m: Tok, c: char)
    requires WellFormed(cfg, m) && Fits(cfg, m) && !IsAdd(m.top.state)
    ensures Fits(cfg, OnArray(cfg, m, c).m)
  {
    hide Fits, Push, WellFormed;
    if c == ']' {
      KeptValues(cfg, m, OnArray(cfg, m, c).m);
    } else {
      PushFits(cfg, m, ArrayAdd);
    }
  }

  // ----- runs and calls -----

  lemma {:induction false} StepFits(cfg: Config, m: Tok, c: char, la: string)
    requires WellFormed(cfg, m) && Fits(cfg, m)
    ensures Fits(cfg, Step(cfg, m, c, la).m)
    decreases Level(m, c), Rank(m)
  {
    hide Switch, Fits;
    SwitchKeeps(cfg, m, c, la);
    SwitchFits(cfg, m, c, la);
    var o := Switch(cfg, m, c, la);
    if o.Redo? {
      RedoDecreases(cfg, m, c, la);
      StepFits(cfg, o.m, c, la);
    }
  }

  lemma EndFits(cfg: Config, m: Tok)
    requires Fits(cfg, m)
    ensures Fits(cfg, Pending(m).(loc := NO_LOCALS)) && Fits(cfg, m.(loc := NO_LOCALS))
  {
  }

  lemma {:induction false} RunFits(cfg: Config, m: Tok, s: string)
    requires WellFormed(cfg, m) && Fits(cfg, m)
    ensures Fits(cfg, Run(cfg, m, s).m)
    decreases |s|
  {
    hide Step, Fits, WellFormed;
    EndFits(cfg, m);
    if s != "" {
      StepKeeps(cfg, m, s[0], s[1..]);
      StepFits(cfg, m, s[0], s[1..]);
      var o := Step(cfg, m, s[0], s[1..]);
      EndFits(cfg, o.m);
      if o.Advance? && s[0] != '\0' { RunFits(cfg, o.m, s[o.skip..]); }
    }
  }

  lemma ResetFits(cfg: Config, m: Tok)
    requires |m.below| < cfg.maxDepth && Sound(m.obj)
    ensures Fits(cfg, ResetAll(m))
  {
  }

  /** Every value that is returned, whatever the bytes, has distinct keys, 64-bit
      integers and a height below the maximum depth. */
  lemma ReturnedIsSound(cfg: Config, m: Tok, s: string)
    requires WellFormed(cfg, m) && Fits(cfg, m)
    ensures var r := ParseEx(cfg, m, s); Sound(r.value) && Height(r.value) < cfg.maxDepth && Fits(cfg, r.m)
  {
    hide Run;
    EnterKeeps(cfg, m);
    NullFits();
    var e := Enter(m);
    assert Fits(cfg, e);
    RunFits(cfg, e, s);
    RunKeeps(cfg, e, s);
    ResetFits(cfg, Run(cfg, e, s).m);
  }

  lemma {:induction false} PrintableIfLossless(v: Value)
    ensures Printable(v) <==> Sound(v) && Lossless(v)
    decreases v
  {
    match v
    case Arr(es) =>
      forall i | 0 <= i < |es| ensures Printable(es[i]) <==> Sound(es[i]) && Lossless(es[i]) {
        PrintableIfLossless(es[i]);
      }
    case Obj(ms) =>
      forall i | 0 <= i < |ms| ensures Printable(ms[i].val) <==> Sound(ms[i].val) && Lossless(ms[i].val) {
        PrintableIfLossless(ms[i].val);
      }
    case _ =>
  }

  /** The same for any chunks. */
  lemma {:induction false} FedIsSound(cfg: Config, m: Tok, chunks: seq<string>)
    requires WellFormed(cfg, m) && Fits(cfg, m)
    ensures var v := Feed(cfg, m, chunks).value; Sound(v) && Height(v) < cfg.maxDepth
    decreases |chunks|
  {
    assert cfg.maxDepth > |m.below|;
    hide ParseEx, Fits, WellFormed;
    NullFits();
    if chunks != [] {
      ReturnedIsSound(cfg, m, chunks[0]);
      var r := ParseEx(cfg, m, chunks[0]);
      if r.err == Continue {
        CallKeepsContinue(cfg, m, chunks[0]);
        FedIsSound(cfg, r.m, chunks[1..]);
      }
    }
  }

  lemma InitialFits(cfg: Config)
    requires cfg.maxDepth >= 1
    ensures WellFormed(cfg, INITIAL) && Fits(cfg, INITIAL)
  {
  }

  /** Whatever a new tokener has made of arbitrary bytes in arbitrary chunks: if it holds
      no double and no NUL inside a string, its text, in any style, is read back to it. */
  lemma PrintedAgain(cfg: Config, chunks: seq<string>, m: Tok, f: Flags)
    requires cfg.maxDepth >= 1 && IsFresh(m)
    requires Feed(cfg, INITIAL, chunks).err == Success && Lossless(Feed(cfg, INITIAL, chunks).value)
    ensures var v := Feed(cfg, INITIAL, chunks).value;
            var r := ParseEx(cfg, m, Text(v, 0, f) + "\0"); r.err == Success && r.value == v && IsFresh(r.m)
  {
    hide ParseEx, Feed, Text, Fits, WellFormed;
    InitialFits(cfg);
    FedIsSound(cfg, INITIAL, chunks);
    var v := Feed(cfg, INITIAL, chunks).value;
    PrintableIfLossless(v);
    RoundTrip.RoundTrip(cfg, m, v, f);
  }
}
