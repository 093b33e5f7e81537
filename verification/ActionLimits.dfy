/**
 Rate limiting of an rsyslog action: execute only every n-th time, and only once per
 interval.  The clock is given with each message; it is read at most once for it.
 */
module ActionLimits {
  /** The configuration; zero switches a limit off. */
  datatype Config = Config(everyNth: int, nthTimeout: int, onceInterval: int, writeAllMarks: bool, markInterval: nat)

  /** `now` is what time() returns while the message is handled; -1 is its error value. */
  datatype Msg = Msg(now: int, mark: bool, genTime: int)

  /** The fields of `action_t` that the limits use. */
  datatype Limits = Limits(iNbrNoExec: int, tLastOccur: int, tLastExec: int, fTime: int)

  const START := Limits(0, 0, 0, 0)

  /** getActNow resets the time of the last execution when the clock went back. */
  function SeenTime(s: Limits, now: int): Limits {
    if s.tLastExec > now then s.(tLastExec := 0) else s
  }

  /** One message: the new state, and whether the action is executed. */
  function Submit(c: Config, s: Limits, m: Msg): (Limits, bool) {
    var s0 := if !c.writeAllMarks && m.mark then SeenTime(s, m.now) else s;
    if !c.writeAllMarks && m.mark && m.now - s.fTime < c.markInterval / 2 then (s0, false) else
    var s1 := if c.everyNth > 1 && c.nthTimeout > 0 then SeenTime(s0, m.now) else s0;
    var s2 := if c.everyNth > 1 && c.nthTimeout > 0 && m.now - s1.tLastOccur > c.nthTimeout
              then s1.(iNbrNoExec := 0, tLastOccur := m.now) else s1;
    if c.everyNth > 1 && s2.iNbrNoExec < c.everyNth - 1 then (s2.(iNbrNoExec := s2.iNbrNoExec + 1), false) else
    var s3 := if c.everyNth > 1 then s2.(iNbrNoExec := 0) else s2;
    var s4 := if c.onceInterval > 0 then SeenTime(s3, m.now) else s3;
    if c.onceInterval > 0 && c.onceInterval + s3.tLastExec > m.now then (s4, false)
    else (SeenTime(s4, m.now).(tLastExec := m.now, fTime := m.genTime), true)
  }

  /** The state after a run. */
  function After(c: Config, msgs: seq<Msg>): Limits {
    if msgs == [] then START else Submit(c, After(c, msgs[..|msgs| - 1]), msgs[|msgs| - 1]).0
  }

  /** The times at which messages of the run were executed. */
  function Executions(c: Config, msgs: seq<Msg>): seq<int> {
    if msgs == [] then [] else
    var front, last := msgs[..|msgs| - 1], msgs[|msgs| - 1];
    Executions(c, front) + if Submit(c, After(c, front), last).1 then [last.now] else []
  }

  /** Every n-th message, with no other limit: of the first k messages exactly k / n are executed. */
  lemma {:induction false} EveryNth(c: Config, msgs: seq<Msg>)
    requires c.everyNth >= 1 && c.nthTimeout <= 0 && c.onceInterval <= 0
    requires c.writeAllMarks || forall i :: 0 <= i < |msgs| ==> !msgs[i].mark
    ensures |Executions(c, msgs)| == |msgs| / c.everyNth
    ensures c.everyNth > 1 ==> After(c, msgs).iNbrNoExec == |msgs| % c.everyNth
  {
    if msgs != [] {
      EveryNth(c, msgs[..|msgs| - 1]);
      DivNext(|msgs| - 1, c.everyNth);
    }
  }

  lemma {:induction false} DivNext(k: nat, n: int)
    requires n >= 1
    ensures if k % n == n - 1 then (k + 1) / n == k / n + 1 && (k + 1) % n == 0
            else (k + 1) / n == k / n && (k + 1) % n == k % n + 1
  {
    var q, r := k / n, k % n;
    assert k == q * n + r;
    if r == n - 1 {
      assert k + 1 == (q + 1) * n;
      DivUnique(k + 1, n, q + 1, 0);
    } else {
      DivUnique(k + 1, n, q, r + 1);
    }
  }

  lemma {:induction false} DivUnique(x: nat, n: int, q: int, r: int)
    requires n >= 1 && x == q * n + r && 0 <= r < n
    ensures x / n == q && x % n == r
  {
    var q1 := x / n;
    DivEuclid(x, n);
    if q1 < q {
      Product(n, q1 + 1, q);
    } else if q1 > q {
      Product(n, q + 1, q1);
    }
  }

  lemma {:induction false} DivEuclid(x: int, n: int)
    requires n >= 1
    ensures x == (x / n) * n + x % n && 0 <= x % n < n
  {
  }

  lemma {:induction false} Product(n: int, a: int, b: int)
    requires n >= 1 && a <= b
    ensures a * n <= b * n && (a - 1) * n == a * n - n
    decreases b - a
  {
  }

  // ----- which messages are executed -----

  /** A run: the messages, and for each of them whether it was executed. */
  datatype History = History(c: Config, msgs: seq<Msg>, ran: seq<bool>)
  {
    predicate Valid() {
      |ran| == |msgs|
    }

    /** The last of the first `k` messages that was executed, -1 if there is none. */
    function Last(k: nat): (i: int)
      requires Valid() && k <= |msgs|
      ensures -1 <= i < k && (i >= 0 ==> ran[i]) && forall j :: i < j < k ==> !ran[j]
    {
      if k == 0 then -1 else if ran[k - 1] then k - 1 else Last(k - 1)
    }

    function LastGenTime(k: nat): int
      requires Valid() && k <= |msgs|
    {
      if Last(k) < 0 then 0 else msgs[Last(k)].genTime
    }

    function LastTime(k: nat): int
      requires Valid() && k <= |msgs|
    {
      if Last(k) < 0 then 0 else msgs[Last(k)].now
    }

    /** A mark message does not count when the last executed message is younger than half
        the mark interval. */
    predicate Counts(i: nat)
      requires Valid() && i < |msgs|
    {
      c.writeAllMarks || !msgs[i].mark || msgs[i].now - LastGenTime(i) >= c.markInterval / 2
    }

    predicate TimesOut() {
      c.everyNth > 1 && c.nthTimeout > 0
    }

    /** The count starts again with this message. */
    predicate Restarts(i: nat)
      requires Valid() && i < |msgs|
      decreases i, 1
    {
      TimesOut() && Counts(i) && msgs[i].now - RestartTime(i) > c.nthTimeout
    }

    function RestartTime(k: nat): int
      requires Valid() && k <= |msgs|
      decreases k, 0
    {
      if k == 0 then 0 else if Restarts(k - 1) then msgs[k - 1].now else RestartTime(k - 1)
    }

    /** How many of the first `k` messages count, from the last restart on. */
    function CountSince(k: nat): nat
      requires Valid() && k <= |msgs|
    {
      if k == 0 then 0 else if Restarts(k - 1) then 1 else CountSince(k - 1) + if Counts(k - 1) then 1 else 0
    }

    predicate RoundFull(i: nat)
      requires Valid() && i < |msgs|
    {
      c.everyNth <= 1 || CountSince(i + 1) % c.everyNth == 0
    }

    /** The clock is read for this message before the interval is looked at. */
    predicate ReadsFirst(i: nat)
      requires Valid() && i < |msgs|
    {
      TimesOut() || (!c.writeAllMarks && msgs[i].mark)
    }

    /** The time of the last execution, or 0 if the clock was read behind it since. */
    function Memory(k: nat): int
      requires Valid() && k <= |msgs|
    {
      if k == 0 then 0
      else if ran[k - 1] then msgs[k - 1].now
      else if (ReadsFirst(k - 1) || RoundFull(k - 1)) && Memory(k - 1) > msgs[k - 1].now then 0
      else Memory(k - 1)
    }

    predicate IntervalOver(i: nat)
      requires Valid() && i < |msgs|
    {
      var forgotten := ReadsFirst(i) && Memory(i) > msgs[i].now;
      c.onceInterval <= 0 || (if forgotten then 0 else Memory(i)) + c.onceInterval <= msgs[i].now
    }

    /** The message is executed exactly if it counts, completes a round of n, and the interval
        since the last execution is over. */
    predicate Executes(i: nat)
      requires Valid() && i < |msgs|
    {
      ran[i] <==> Counts(i) && RoundFull(i) && IntervalOver(i)
    }

    /** The fields of the action behind the first `k` messages. */
    function State(k: nat): Limits
      requires Valid() && k <= |msgs|
    {
      Limits(if c.everyNth > 1 then CountSince(k) % c.everyNth else 0, RestartTime(k), Memory(k), LastGenTime(k))
    }
  }

  /** Which messages of a run are executed. */
  function Ran(c: Config, msgs: seq<Msg>): seq<bool> {
    seq(|msgs|, i requires 0 <= i < |msgs| => Submit(c, After(c, msgs[..i]), msgs[i]).1)
  }

  lemma {:induction false} SubmitNext(h: History, i: nat)
    requires h.Valid() && i < |h.msgs| && h.ran[i] == Submit(h.c, h.State(i), h.msgs[i]).1
    ensures Submit(h.c, h.State(i), h.msgs[i]).0 == h.State(i + 1)
    ensures h.Executes(i)
  {
    if h.c.everyNth > 1 {
      DivNext(h.CountSince(i), h.c.everyNth);
      DivUnique(0, h.c.everyNth, 0, 0);
      DivNext(0, h.c.everyNth);
    }
    assert h.Restarts(i) <==>
      h.TimesOut() && h.Counts(i) && h.msgs[i].now - h.State(i).tLastOccur > h.c.nthTimeout;
  }

  lemma {:induction false} StateAt(c: Config, msgs: seq<Msg>, k: nat)
    requires k <= |msgs|
    ensures After(c, msgs[..k]) == History(c, msgs, Ran(c, msgs)).State(k)
  {
    if k > 0 {
      StateAt(c, msgs, k - 1);
      assert msgs[..k][..k - 1] == msgs[..k - 1];
      SubmitNext(History(c, msgs, Ran(c, msgs)), k - 1);
    }
  }

  /** Over every run, whatever the clock does, exactly these messages are executed. */
  lemma {:induction false} ExecutedIff(c: Config, msgs: seq<Msg>, i: nat)
    requires i < |msgs|
    ensures History(c, msgs, Ran(c, msgs)).Executes(i)
  {
    StateAt(c, msgs, i);
    SubmitNext(History(c, msgs, Ran(c, msgs)), i);
  }

  /** Marks with no other limit: a message is executed exactly if it is no mark, or comes half
      the mark interval after the last executed message was generated. */
  lemma {:induction false} MarksExecuted(c: Config, msgs: seq<Msg>, i: nat)
    requires i < |msgs| && !c.writeAllMarks && c.everyNth <= 1 && c.onceInterval <= 0
    ensures var h := History(c, msgs, Ran(c, msgs));
      h.ran[i] <==> !msgs[i].mark || msgs[i].now - h.LastGenTime(i) >= c.markInterval / 2
  {
    ExecutedIff(c, msgs, i);
  }

  lemma {:induction false} MemoryIsLast(h: History, k: nat)
    requires h.Valid() && k <= |h.msgs| && Steady(h.msgs)
    ensures h.Memory(k) == h.LastTime(k)
  {
    if k > 0 {
      MemoryIsLast(h, k - 1);
    }
  }

  /** With a steady clock the interval counts from the last execution, or from the beginning
      of time. */
  lemma {:induction false} IntervalExecuted(c: Config, msgs: seq<Msg>, i: nat)
    requires i < |msgs| && Steady(msgs) && c.onceInterval > 0
    ensures var h := History(c, msgs, Ran(c, msgs));
      h.ran[i] <==> h.Counts(i) && h.RoundFull(i) && h.LastTime(i) + c.onceInterval <= msgs[i].now
  {
    ExecutedIff(c, msgs, i);
    MemoryIsLast(History(c, msgs, Ran(c, msgs)), i);
  }

  /** The clock does not go back, and time() does not fail. */
  predicate Steady(msgs: seq<Msg>) {
    && (forall i :: 0 <= i < |msgs| ==> msgs[i].now >= 0)
    && (forall i, j :: 0 <= i < j < |msgs| ==> msgs[i].now <= msgs[j].now)
  }

  /** Executions are in order and at least `gap` apart. */
  ghost predicate Spaced(times: seq<int>, gap: int) {
    forall i, j :: 0 <= i < j < |times| ==> times[i] + gap <= times[j]
  }

  /** Once per interval: whatever else is configured, two executions are at least the
      interval apart. */
  lemma {:induction false} OncePerInterval(c: Config, msgs: seq<Msg>)
    requires c.onceInterval > 0 && Steady(msgs)
    ensures Spaced(Executions(c, msgs), c.onceInterval)
    ensures var times := Executions(c, msgs);
      After(c, msgs).tLastExec == if times == [] then 0 else times[|times| - 1]
    ensures forall i :: 0 <= i < |Executions(c, msgs)| ==> Executions(c, msgs)[i] <= msgs[|msgs| - 1].now
  {
    if msgs != [] {
      var front, last := msgs[..|msgs| - 1], msgs[|msgs| - 1];
      OncePerInterval(c, front);
      var times := Executions(c, front);
      assert front != [] ==> front[|front| - 1] == msgs[|msgs| - 2];
      SubmitSpaced(c, After(c, front), last);
    }
  }

  lemma {:induction false} SubmitSpaced(c: Config, s: Limits, m: Msg)
    requires c.onceInterval > 0 && m.now >= s.tLastExec
    ensures var (r, executed) := Submit(c, s, m);
      if executed then s.tLastExec + c.onceInterval <= m.now && r.tLastExec == m.now else r.tLastExec == s.tLastExec
  {
  }

  /** Spaced times within a span: at most span / gap + 1 of them. */
  lemma {:induction false} SpacedCount(times: seq<int>, gap: int, lo: int, hi: int)
    requires gap > 0 && Spaced(times, gap) && times != []
    requires forall i :: 0 <= i < |times| ==> lo <= times[i] <= hi
    ensures |times| <= (hi - lo) / gap + 1
  {
    SpacedSpread(times, gap, |times| - 1);
    var n := |times| - 1;
    assert n * gap <= hi - lo;
    DivAtLeast(hi - lo, gap, n);
  }

  lemma {:induction false} SpacedSpread(times: seq<int>, gap: int, k: nat)
    requires gap > 0 && Spaced(times, gap) && k < |times|
    ensures times[0] + k * gap <= times[k]
    decreases k
  {
    if k > 0 {
      SpacedSpread(times, gap, k - 1);
      assert (k - 1) * gap + gap == k * gap;
    }
  }

  lemma {:induction false} DivAtLeast(x: int, n: int, q: nat)
    requires n > 0 && q * n <= x
    ensures q <= x / n
  {
    DivEuclid(x, n);
    if x / n < q {
      Product(n, x / n + 1, q);
    }
  }

  /** At most span / interval + 1 executions fall into any span of time. */
  lemma {:induction false} AtMostPerSpan(c: Config, msgs: seq<Msg>, lo: int, hi: int, i: nat, j: nat)
    requires c.onceInterval > 0 && Steady(msgs) && i < j <= |Executions(c, msgs)|
    requires forall k :: i <= k < j ==> lo <= Executions(c, msgs)[k] <= hi
    ensures j - i <= (hi - lo) / c.onceInterval + 1
  {
    OncePerInterval(c, msgs);
    SpacedCount(Executions(c, msgs)[i..j], c.onceInterval, lo, hi);
  }

  /** When the clock goes back the spacing is lost: the time of the last execution is forgotten. */
  lemma ClockBackExample()
    ensures var c := Config(0, 0, 60, true, 1200);
      var msgs := [Msg(1000, false, 0), Msg(990, false, 0), Msg(991, false, 0)];
      Executions(c, msgs) == [1000, 991]
  {
    var c := Config(0, 0, 60, true, 1200);
    var a, b, d := Msg(1000, false, 0), Msg(990, false, 0), Msg(991, false, 0);
    assert [a][..0] == [] && [a, b][..1] == [a] && [a, b, d][..2] == [a, b];
    assert Executions(c, [a]) == [1000];
    assert Executions(c, [a, b]) == [1000];
  }

  // ----- a clock that goes back -----

  function Last(times: seq<int>): int {
    if times == [] then 0 else times[|times| - 1]
  }

  /** The clock is read while the message is handled. */
  predicate Reads(c: Config, s: Limits, m: Msg) {
    || (!c.writeAllMarks && m.mark) || (c.everyNth > 1 && c.nthTimeout > 0)
    || !(c.everyNth > 1 && s.iNbrNoExec < c.everyNth - 1)
  }

  /** The guard in getActNow: the clock is read, and is behind the last execution. */
  predicate Forgets(c: Config, s: Limits, m: Msg) {
    Reads(c, s, m) && s.tLastExec > m.now
  }

  /** From now on the clock does not go back, nor behind the last execution that is remembered. */
  predicate SteadyFrom(s: Limits, msgs: seq<Msg>) {
    Steady(msgs) && forall i :: 0 <= i < |msgs| ==> s.tLastExec <= msgs[i].now
  }

  /** Whatever comes with a steady clock, executions stay the interval apart. */
  ghost predicate StaysSpaced(c: Config, msgs: seq<Msg>) {
    forall cont :: SteadyFrom(After(c, msgs), cont) ==> Spaced(Executions(c, msgs + cont), c.onceInterval)
  }

  /** The last execution is the one that is remembered. */
  predicate Remembers(c: Config, msgs: seq<Msg>) {
    After(c, msgs).tLastExec == Last(Executions(c, msgs))
  }

  ghost predicate Clocked(msgs: seq<Msg>) {
    forall i :: 0 <= i < |msgs| ==> msgs[i].now >= 0
  }

  lemma {:induction false} OneMore(c: Config, msgs: seq<Msg>, m: Msg)
    ensures var (r, executed) := Submit(c, After(c, msgs), m);
      After(c, msgs + [m]) == r && Executions(c, msgs + [m]) == Executions(c, msgs) + if executed then [m.now] else []
  {
    assert (msgs + [m])[..|msgs|] == msgs;
  }

  /** What a message does to the time of the last execution. */
  lemma {:induction false} LastExecChange(c: Config, s: Limits, m: Msg)
    requires c.onceInterval > 0 && m.now >= 0 && s.tLastExec >= 0
    ensures var (r, executed) := Submit(c, s, m);
      && (executed ==> r.tLastExec == m.now)
      && (!executed ==> r.tLastExec == if Forgets(c, s, m) then 0 else s.tLastExec)
      && (executed && !Forgets(c, s, m) ==> s.tLastExec + c.onceInterval <= m.now)
  {
  }

  /** The time that is remembered is that of the last execution, or it was forgotten. */
  lemma {:induction false} Remembered(c: Config, msgs: seq<Msg>)
    requires c.onceInterval > 0 && Clocked(msgs)
    ensures var t, times := After(c, msgs).tLastExec, Executions(c, msgs);
      t >= 0 && (t == 0 || t == Last(times)) && forall i :: 0 <= i < |times| ==> times[i] >= 0
    decreases |msgs|
  {
    if msgs != [] {
      var front, m := msgs[..|msgs| - 1], msgs[|msgs| - 1];
      Remembered(c, front);
      LastExecChange(c, After(c, front), m);
      assert m.now >= 0 && front + [m] == msgs;
      OneMore(c, front, m);
    }
  }

  lemma {:induction false} SpacedMore(times: seq<int>, gap: int, t: int)
    requires gap > 0 && forall i :: 0 <= i < |times| ==> times[i] >= 0
    ensures Spaced(times + [t], gap) <==> Spaced(times, gap) && (times == [] || Last(times) + gap <= t)
  {
    var all := times + [t];
    if Spaced(all, gap) {
      forall i, j | 0 <= i < j < |times| ensures times[i] + gap <= times[j] {
        assert all[i] + gap <= all[j];
      }
      if times != [] { assert all[|times| - 1] + gap <= all[|times|]; }
    }
  }

  /** A message during which nothing is forgotten keeps spacing and memory. */
  lemma {:induction false} KeepsSpacing(c: Config, msgs: seq<Msg>, m: Msg)
    requires c.onceInterval > 0 && Clocked(msgs + [m])
    requires Spaced(Executions(c, msgs), c.onceInterval) && Remembers(c, msgs)
    ensures Spaced(Executions(c, msgs + [m]), c.onceInterval) && Remembers(c, msgs + [m]) <==>
            !Forgets(c, After(c, msgs), m)
  {
    assert (msgs + [m])[|msgs|] == m && forall i :: 0 <= i < |msgs| ==> (msgs + [m])[i] == msgs[i];
    Remembered(c, msgs);
    OneMore(c, msgs, m);
    LastExecChange(c, After(c, msgs), m);
    SpacedMore(Executions(c, msgs), c.onceInterval, m.now);
  }

  lemma {:induction false} SteadyKeeps(c: Config, msgs: seq<Msg>, cont: seq<Msg>)
    requires c.onceInterval > 0 && Clocked(msgs) && SteadyFrom(After(c, msgs), cont)
    requires Spaced(Executions(c, msgs), c.onceInterval) && Remembers(c, msgs)
    ensures Spaced(Executions(c, msgs + cont), c.onceInterval)
    decreases |cont|
  {
    if cont == [] {
      assert msgs + cont == msgs;
    } else {
      var m := cont[0];
      Remembered(c, msgs);
      OneMore(c, msgs, m);
      LastExecChange(c, After(c, msgs), m);
      KeepsSpacing(c, msgs, m);
      assert msgs + cont == msgs + [m] + cont[1..];
      SteadyKeeps(c, msgs + [m], cont[1..]);
    }
  }

  lemma {:induction false} NotYet(c: Config, s: Limits, settled: bool)
    requires c.onceInterval > 0 && s.tLastExec == 0
    requires settled ==> c.onceInterval - s.tLastOccur <= c.nthTimeout || c.nthTimeout <= 0
    ensures var (r, executed) := Submit(c, s, Msg(c.onceInterval, false, 0));
      !executed ==>
        && r.tLastExec == 0 && (c.onceInterval - r.tLastOccur <= c.nthTimeout || c.nthTimeout <= 0)
        && r.iNbrNoExec < c.everyNth && (settled ==> r.iNbrNoExec == s.iNbrNoExec + 1)
  {
  }

  /** With the last execution forgotten, enough messages at the time of the interval lead to
      an execution at that time. */
  lemma {:induction false} Drive(c: Config, msgs: seq<Msg>, settled: bool) returns (cont: seq<Msg>)
    requires c.onceInterval > 0 && After(c, msgs).tLastExec == 0
    requires settled ==> c.onceInterval - After(c, msgs).tLastOccur <= c.nthTimeout || c.nthTimeout <= 0
    ensures forall i :: 0 <= i < |cont| ==> cont[i] == Msg(c.onceInterval, false, 0)
    ensures Executions(c, msgs + cont) == Executions(c, msgs) + [c.onceInterval]
    decreases !settled, if c.everyNth > After(c, msgs).iNbrNoExec then c.everyNth - After(c, msgs).iNbrNoExec else 0
  {
    var m := Msg(c.onceInterval, false, 0);
    OneMore(c, msgs, m);
    NotYet(c, After(c, msgs), settled);
    hide Submit, After, Executions;
    if Submit(c, After(c, msgs), m).1 {
      cont := [m];
    } else {
      var more := Drive(c, msgs + [m], true);
      cont := [m] + more;
      assert msgs + cont == msgs + [m] + more;
    }
  }

  /** The spacing is safe, whatever comes with a steady clock, exactly if it holds so far and
      the last execution is remembered. */
  lemma {:induction false} SafeIffRemembered(c: Config, msgs: seq<Msg>)
    requires c.onceInterval > 0 && Clocked(msgs)
    ensures StaysSpaced(c, msgs) <==> Spaced(Executions(c, msgs), c.onceInterval) && Remembers(c, msgs)
  {
    Remembered(c, msgs);
    if StaysSpaced(c, msgs) {
      assert SteadyFrom(After(c, msgs), []) && msgs + [] == msgs;
      if !Remembers(c, msgs) {
        var cont := Drive(c, msgs, false);
        assert SteadyFrom(After(c, msgs), cont);
        SpacedMore(Executions(c, msgs), c.onceInterval, c.onceInterval);
      }
    }
    if Spaced(Executions(c, msgs), c.onceInterval) && Remembers(c, msgs) {
      forall cont | SteadyFrom(After(c, msgs), cont)
        ensures Spaced(Executions(c, msgs + cont), c.onceInterval)
      {
        SteadyKeeps(c, msgs, cont);
      }
    }
  }

  /** While the spacing is safe, the next message keeps it safe exactly if the clock is not
      read behind the last execution. */
  lemma {:induction false} SafeIffNotBehind(c: Config, msgs: seq<Msg>, m: Msg)
    requires c.onceInterval > 0 && Clocked(msgs + [m]) && StaysSpaced(c, msgs)
    ensures StaysSpaced(c, msgs + [m]) <==> !Forgets(c, After(c, msgs), m)
  {
    assert forall i :: 0 <= i < |msgs| ==> (msgs + [m])[i] == msgs[i];
    hide StaysSpaced, Spaced, Remembers;
    SafeIffRemembered(c, msgs);
    SafeIffRemembered(c, msgs + [m]);
    KeepsSpacing(c, msgs, m);
  }

  /** The fields of an action that change, and the code that changes them. */
  class Action {
    const cfg: Config
    var iNbrNoExec: int
    var tLastOccur: int
    var tLastExec: int
    var fTime: int
    var tActNow: int

    ghost function State(): Limits
      reads this
    {
      Limits(iNbrNoExec, tLastOccur, tLastExec, fTime)
    }

    constructor (c: Config)
      ensures cfg == c && State() == START
    {
      cfg := c;
      iNbrNoExec, tLastOccur, tLastExec, fTime, tActNow := 0, 0, 0, 0, -1;
    }

    /** getActNow: the clock is read once and remembered. */
    method GetActNow(clock: int) returns (t: int)
      requires clock != -1 && (tActNow == -1 || (tActNow == clock && tLastExec <= clock))
      modifies this`tActNow, this`tLastExec
      ensures t == tActNow == clock && State() == SeenTime(old(State()), clock)
      ensures clock >= 0 ==> tLastExec <= clock
    {
      if tActNow == -1 {
        tActNow := clock;
        if tLastExec > tActNow {
          tLastExec := 0;
        }
      }
      t := tActNow;
    }

    /** actionWriteToAction up to the submission.  In the comparison with the interval the
        time of the last execution is read before the clock. */
    method WriteToAction(m: Msg) returns (executed: bool)
      requires m.now >= 0 && (tActNow == -1 || (tActNow == m.now && tLastExec <= m.now))
      modifies this
      ensures cfg.writeAllMarks || !m.mark ==> (State(), executed) == Submit(cfg, old(State()), m)
      ensures m.mark && !cfg.writeAllMarks && m.now - old(fTime) >= cfg.markInterval / 2 && old(tLastExec) <= m.now ==>
        (State(), executed) == Submit(cfg, old(State()), m)
    {
      var t;
      if cfg.everyNth > 1 {
        if cfg.nthTimeout > 0 {
          t := GetActNow(m.now);
          if t - tLastOccur > cfg.nthTimeout {
            iNbrNoExec := 0;
            tLastOccur := t;
          }
        }
        if iNbrNoExec < cfg.everyNth - 1 {
          iNbrNoExec := iNbrNoExec + 1;
          return false;
        }
        iNbrNoExec := 0;
      }
      if cfg.onceInterval > 0 {
        var next := cfg.onceInterval + tLastExec;
        t := GetActNow(m.now);
        if next > t {
          return false;
        }
      }
      t := GetActNow(m.now);
      tLastExec := t;
      fTime := m.genTime;
      executed := true;
    }

    /** doSubmitToActionQComplex */
    method SubmitComplex(m: Msg) returns (executed: bool)
      requires m.now >= 0
      modifies this
      ensures (State(), executed) == Submit(cfg, old(State()), m)
    {
      tActNow := -1;
      if !cfg.writeAllMarks && m.mark {
        var t := GetActNow(m.now);
        if t - fTime < cfg.markInterval / 2 {
          return false;
        }
      }
      executed := WriteToAction(m);
    }
  }

  /** A run of messages through one action. */
  method SubmitAll(c: Config, msgs: seq<Msg>) returns (times: seq<int>, ran: seq<bool>)
    requires forall i :: 0 <= i < |msgs| ==> msgs[i].now >= 0
    ensures times == Executions(c, msgs)
    ensures var h := History(c, msgs, ran); h.Valid() && forall i :: 0 <= i < |msgs| ==> h.Executes(i)
  {
    hide Submit, History.Executes;
    var a := new Action(c);
    times, ran := [], [];
    var i := 0;
    assert msgs[..0] == [];
    while i < |msgs|
      invariant i <= |msgs| && fresh(a) && a.cfg == c
      invariant a.State() == After(c, msgs[..i]) && times == Executions(c, msgs[..i]) && ran == Ran(c, msgs)[..i]
    {
      assert msgs[..i + 1][..i] == msgs[..i];
      var executed := a.SubmitComplex(msgs[i]);
      if executed {
        times := times + [msgs[i].now];
      }
      ran := ran + [executed];
      i := i + 1;
    }
    assert msgs[..i] == msgs && ran == Ran(c, msgs);
    forall k | 0 <= k < |msgs|
      ensures History(c, msgs, ran).Executes(k)
    {
      ExecutedIff(c, msgs, k);
    }
  }
}
