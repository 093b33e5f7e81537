/**
 Retry and suspension of an rsyslog action.  The output module and the shutdown flag
 are given as a tape: one entry for every call of tryResume, and the end of the tape
 is the moment when shutdown is requested.
 */
module ActionRetry {
  datatype State = RDY | ITX | RTRY | SUSP | DATAFAIL

  datatype Answer = OK | SUSPENDED | DISABLE_ACTION | OTHER_ERROR

  /** What tryResume returns, and whether shutdown is requested before the next check. */
  datatype Try = Try(answer: Answer, stop: bool)

  /** How a run of `actionDoRetry` ends. */
  datatype Outcome = Outcome(calls: nat, state: State, inRow: nat)

  /** After ten resumptions in a row that did not work, OK is not believed. */
  predicate Distrusted(inRow: nat) {
    inRow > 9 && inRow % 10 == 0
  }

  function Max0(n: int): nat {
    if n < 0 then 0 else n
  }

  /** actionDoRetry; `count` is iResumeRetryCount, `inRow` counts resumptions that did not work. */
  function Retry(count: int, inRow: nat, tape: seq<Try>, retries: nat): (o: Outcome)
    ensures o.calls <= |tape|
    decreases |tape|
  {
    if tape == [] then Outcome(0, RTRY, inRow) else
    var row := if Distrusted(inRow) then 0 else inRow;
    var answer := if Distrusted(inRow) then SUSPENDED else tape[0].answer;
    if answer == OK then Outcome(1, RDY, row)
    else if answer == SUSPENDED && count != -1 && retries >= count then Outcome(1, SUSP, row)
    else if tape[0].stop then Outcome(1, RTRY, row)
    else
      var o := Retry(count, row, tape[1..], if answer == SUSPENDED then retries + 1 else retries);
      o.(calls := o.calls + 1)
  }

  predicate NoStop(tape: seq<Try>) {
    forall i :: 0 <= i < |tape| ==> !tape[i].stop
  }

  predicate OnlyOkOrSuspended(tape: seq<Try>) {
    forall i :: 0 <= i < |tape| ==> tape[i].answer == OK || tape[i].answer == SUSPENDED
  }

  /** The module answers only OK or SUSPENDED and the number of retries is limited: then
      there are at most `count + 1` calls, and without shutdown the action ends up
      ready or suspended. */
  lemma {:induction false} RetryEnds(count: int, inRow: nat, tape: seq<Try>, retries: nat)
    requires count != -1 && OnlyOkOrSuspended(tape) && retries <= Max0(count)
    ensures Retry(count, inRow, tape, retries).calls <= Max0(count) - retries + 1
    ensures NoStop(tape) && |tape| > Max0(count) - retries ==> Retry(count, inRow, tape, retries).state in {RDY, SUSP}
    decreases |tape|
  {
    if tape != [] && retries < count {
      RetryEnds(count, if Distrusted(inRow) then 0 else inRow, tape[1..], retries + 1);
    }
  }

  /** The answer that counts at call `i`: at the first call after ten, twenty and so on
      resumptions in a row that did not work it is SUSPENDED, whatever the module says. */
  function Effective(inRow: nat, tape: seq<Try>, i: nat): Answer
    requires i < |tape|
  {
    if i == 0 && inRow != 0 && inRow % 10 == 0 then SUSPENDED else tape[i].answer
  }

  function Suspensions(inRow: nat, tape: seq<Try>): nat {
    if tape == [] then 0
    else Suspensions(inRow, tape[..|tape| - 1]) + if Effective(inRow, tape, |tape| - 1) == SUSPENDED then 1 else 0
  }

  lemma {:induction false} SuspensionsFirst(inRow: nat, tape: seq<Try>)
    requires tape != []
    ensures Suspensions(inRow, tape) ==
      (if Effective(inRow, tape, 0) == SUSPENDED then 1 else 0)
      + Suspensions(if Distrusted(inRow) then 0 else inRow, tape[1..])
    decreases |tape|
  {
    if |tape| > 1 {
      var front := tape[..|tape| - 1];
      SuspensionsFirst(inRow, front);
      assert front[1..] == tape[1..][..|tape| - 2];
      assert tape[1..][|tape| - 2] == tape[|tape| - 1];
    } else {
      assert tape[..0] == [] && tape[1..] == [];
    }
  }

  /** Without shutdown the loop is still running when the tape ends exactly if no OK was
      believed and the limit on SUSPENDED answers was not exceeded.  In particular a
      module that answers with DISABLE_ACTION or an error is called for ever. */
  lemma {:induction false} StillRetrying(count: int, inRow: nat, tape: seq<Try>, retries: nat)
    requires NoStop(tape) && (count != -1 ==> retries <= Max0(count))
    ensures Retry(count, inRow, tape, retries).state == RTRY <==>
      && (forall i :: 0 <= i < |tape| ==> Effective(inRow, tape, i) != OK)
      && (count == -1 || retries + Suspensions(inRow, tape) <= Max0(count))
    ensures Retry(count, inRow, tape, retries).state == RTRY ==> Retry(count, inRow, tape, retries).calls == |tape|
    decreases |tape|
  {
    if tape != [] {
      SuspensionsFirst(inRow, tape);
      var row := if Distrusted(inRow) then 0 else inRow;
      var rest := tape[1..];
      assert !Distrusted(row);
      assert forall i :: 0 <= i < |rest| ==> Effective(row, rest, i) == Effective(inRow, tape, i + 1);
      assert (forall i :: 0 <= i < |tape| ==> Effective(inRow, tape, i) != OK) <==>
        Effective(inRow, tape, 0) != OK && (forall i :: 0 <= i < |rest| ==> Effective(row, rest, i) != OK) by {
        assert forall i :: 1 <= i < |tape| ==> Effective(inRow, tape, i) == Effective(row, rest, i - 1);
      }
      var answer := Effective(inRow, tape, 0);
      if answer != OK && !(answer == SUSPENDED && count != -1 && retries >= count) {
        StillRetrying(count, row, rest, if answer == SUSPENDED then retries + 1 else retries);
      }
    }
  }

  // ----- how a call ends -----

  /** Which outcome a call has, said of the answers alone.  The calls go on until an OK that
      counts, the answer SUSPENDED once more than `count` allows, or shutdown. */
  ghost predicate Verdict(count: int, inRow: nat, tape: seq<Try>, retries: nat, o: Outcome) {
    && o.calls <= |tape| && o.state in {RDY, SUSP, RTRY}
    && (forall i :: 0 <= i < o.calls - 1 ==> Effective(inRow, tape, i) != OK && !tape[i].stop)
    && (count != -1 ==> forall k: nat :: k < o.calls ==> retries + Suspensions(inRow, tape[..k]) <= Max0(count))
    && (o.state == RDY <==> o.calls > 0 && Effective(inRow, tape, o.calls - 1) == OK)
    && (o.state == SUSP <==> count != -1 && retries + Suspensions(inRow, tape[..o.calls]) > Max0(count))
    && (o.state == RTRY ==> o.calls == |tape| || (o.calls > 0 && tape[o.calls - 1].stop))
    && o.inRow == (if o.calls > 0 && inRow % 10 == 0 then 0 else inRow)
  }

  /** The verdict behind the first call, seen from the first call. */
  lemma {:induction false} VerdictFirst(count: int, inRow: nat, tape: seq<Try>, retries: nat, o: Outcome)
    requires tape != [] && !tape[0].stop && (count != -1 ==> retries <= Max0(count))
    requires Effective(inRow, tape, 0) != OK
    requires count != -1 && Effective(inRow, tape, 0) == SUSPENDED ==> retries < count
    requires Verdict(count, if inRow % 10 == 0 then 0 else inRow, tape[1..],
      if Effective(inRow, tape, 0) == SUSPENDED then retries + 1 else retries, o)
    requires o.calls > 0 || o.state == RTRY
    ensures Verdict(count, inRow, tape, retries, o.(calls := o.calls + 1))
  {
    var row := if inRow % 10 == 0 then 0 else inRow;
    var rest := tape[1..];
    forall i | 0 < i < |tape|
      ensures Effective(inRow, tape, i) == Effective(row, rest, i - 1)
    {
    }
    forall k | 0 < k <= |tape|
      ensures Suspensions(inRow, tape[..k]) ==
        (if Effective(inRow, tape, 0) == SUSPENDED then 1 else 0) + Suspensions(row, rest[..k - 1])
    {
      SuspensionsFirst(inRow, tape[..k]);
      assert tape[..k][1..] == rest[..k - 1];
    }
    assert tape[..0] == [];
  }

  lemma LastCall(count: int, inRow: nat, tape: seq<Try>, retries: nat)
    requires tape != [] && (count != -1 ==> retries <= Max0(count))
    requires Effective(inRow, tape, 0) == OK || tape[0].stop ||
      (Effective(inRow, tape, 0) == SUSPENDED && count != -1 && retries >= count)
    ensures Verdict(count, inRow, tape, retries, Retry(count, inRow, tape, retries))
  {
    assert tape[..1] == [tape[0]] && tape[..0] == [] && [tape[0]][..0] == [];
  }

  lemma {:induction false} RetryHasVerdict(count: int, inRow: nat, tape: seq<Try>, retries: nat)
    requires count != -1 ==> retries <= Max0(count)
    ensures Verdict(count, inRow, tape, retries, Retry(count, inRow, tape, retries))
    decreases |tape|
  {
    if tape == [] {
      assert tape[..0] == [];
    } else {
      var answer := Effective(inRow, tape, 0);
      if answer == OK || tape[0].stop || (answer == SUSPENDED && count != -1 && retries >= count) {
        LastCall(count, inRow, tape, retries);
      } else {
        hide Verdict;
        var row := if Distrusted(inRow) then 0 else inRow;
        RetryHasVerdict(count, row, tape[1..], if answer == SUSPENDED then retries + 1 else retries);
        VerdictFirst(count, inRow, tape, retries,
          Retry(count, row, tape[1..], if answer == SUSPENDED then retries + 1 else retries));
      }
    }
  }

  lemma NotLonger(count: int, inRow: nat, tape: seq<Try>, retries: nat, o: Outcome, p: Outcome)
    requires Verdict(count, inRow, tape, retries, o) && Verdict(count, inRow, tape, retries, p)
    ensures o.calls >= p.calls
  {
  }

  lemma OneVerdict(count: int, inRow: nat, tape: seq<Try>, retries: nat, o: Outcome, p: Outcome)
    requires Verdict(count, inRow, tape, retries, o) && Verdict(count, inRow, tape, retries, p)
    ensures o == p
  {
    NotLonger(count, inRow, tape, retries, o, p);
    NotLonger(count, inRow, tape, retries, p, o);
  }

  /** The loop ends in the one way that the answers leave. */
  lemma RetryIffVerdict(count: int, inRow: nat, tape: seq<Try>, o: Outcome)
    ensures o == Retry(count, inRow, tape, 0) <==> Verdict(count, inRow, tape, 0, o)
  {
    RetryHasVerdict(count, inRow, tape, 0);
    if Verdict(count, inRow, tape, 0, o) {
      OneVerdict(count, inRow, tape, 0, o, Retry(count, inRow, tape, 0));
    }
  }

  /** An OK at the first call is believed while the resumptions in a row that did not work are
      0 to 9 or no multiple of ten; a later OK always is. */
  lemma OkBelieved(count: int, inRow: nat, tape: seq<Try>, o: Outcome)
    requires Verdict(count, inRow, tape, 0, o)
    ensures tape != [] && tape[0].answer == OK ==>
      (o.calls == 1 && o.state == RDY <==> inRow <= 9 || inRow % 10 != 0)
    ensures forall i :: 0 < i < o.calls && tape[i].answer == OK ==> o.calls == i + 1 && o.state == RDY
  {
    if tape != [] && tape[0].answer == OK && (inRow == 0 || inRow % 10 != 0) {
      assert Effective(inRow, tape, 0) == OK && tape[..0] == [];
      assert o.calls > 0;
    }
    forall i | 0 < i < o.calls && tape[i].answer == OK
      ensures o.calls == i + 1
    {
      assert Effective(inRow, tape, i) == OK;
    }
  }

  lemma {:induction false} SpinExample(n: nat)
    ensures var tape := seq(n, _ => Try(DISABLE_ACTION, false));
      Retry(0, 0, tape, 0) == Outcome(n, RTRY, 0)
  {
    if n > 0 {
      var tape := seq(n, _ => Try(DISABLE_ACTION, false));
      assert tape[1..] == seq(n - 1, _ => Try(DISABLE_ACTION, false));
      SpinExample(n - 1);
    }
  }

  // ----- back-off -----

  /** How long the k-th suspension in a row lasts, counting from 0. */
  function BackOff(interval: nat, k: nat): nat {
    interval * ((if k < 20 then k else 20) / 10 + 1)
  }

  lemma {:induction false} BackOffBounds(interval: nat, k: nat)
    ensures interval <= BackOff(interval, k) <= 3 * interval
    ensures BackOff(interval, k) <= BackOff(interval, k + 1)
    ensures BackOff(interval, k) == if k < 10 then interval else if k < 20 then 2 * interval else 3 * interval
  {
  }

  /** An action with one worker. */
  class Action {
    const iResumeInterval: nat
    const iResumeRetryCount: int
    var state: State
    var iNbrResRtry: nat
    var iResumeOKinRow: nat
    var ttResumeRtry: int
    var calls: nat
    /** The durations of the suspensions since the action was last ready again. */
    ghost var suspensions: seq<int>

    ghost predicate Valid()
      reads this
    {
      && iNbrResRtry == (if |suspensions| < 20 then |suspensions| else 20)
      && forall k :: 0 <= k < |suspensions| ==> suspensions[k] == BackOff(iResumeInterval, k)
    }

    constructor (interval: nat, count: int)
      ensures Valid() && iResumeInterval == interval && iResumeRetryCount == count
      ensures state == RDY && iNbrResRtry == iResumeOKinRow == 0 && suspensions == []
    {
      iResumeInterval, iResumeRetryCount := interval, count;
      state, iNbrResRtry, iResumeOKinRow, ttResumeRtry, calls := RDY, 0, 0, 0, 0;
      suspensions := [];
    }

    /** actionRetry */
    method ActionRetry()
      requires Valid()
      modifies this`state, this`iResumeOKinRow
      ensures Valid() && state == RTRY && iResumeOKinRow == old(iResumeOKinRow) + 1
    {
      state := RTRY;
      iResumeOKinRow := iResumeOKinRow + 1;
    }

    /** A message was processed: handleActionExecResult with RS_RET_OK. */
    method ActionWorked()
      requires Valid()
      modifies this`state, this`iResumeOKinRow
      ensures Valid() && state == RDY && iResumeOKinRow == 0
    {
      state := RDY;
      iResumeOKinRow := 0;
    }

    /** actionSuspend, and the retry counter that its caller advances afterwards. */
    method ActionSuspend(ttNow: int)
      requires Valid()
      modifies this`state, this`ttResumeRtry, this`iNbrResRtry, this`suspensions
      ensures Valid() && state == SUSP
      ensures suspensions == old(suspensions) + [BackOff(iResumeInterval, |old(suspensions)|)]
      ensures ttResumeRtry == ttNow + BackOff(iResumeInterval, |old(suspensions)|)
    {
      var suspendDuration := iResumeInterval * (iNbrResRtry / 10 + 1);
      ttResumeRtry := ttNow + suspendDuration;
      state := SUSP;
      suspensions := suspensions + [suspendDuration];
      if iNbrResRtry < 20 {
        iNbrResRtry := iNbrResRtry + 1;
      }
    }

    /** actionDoRetry; `ttNow` is the time at which it suspends, if it does. */
    method ActionDoRetry(tape: seq<Try>, ttNow: int)
      requires Valid() && state == RTRY
      modifies this
      ensures Valid()
      ensures Outcome(calls, state, iResumeOKinRow) == Retry(iResumeRetryCount, old(iResumeOKinRow), tape, 0)
      ensures Verdict(iResumeRetryCount, old(iResumeOKinRow), tape, 0, Outcome(calls, state, iResumeOKinRow))
      ensures tape != [] && tape[0].answer == OK ==>
        (calls == 1 && state == RDY <==> old(iResumeOKinRow) <= 9 || old(iResumeOKinRow) % 10 != 0)
      ensures forall i :: 0 < i < calls && tape[i].answer == OK ==> calls == i + 1 && state == RDY
      ensures suspensions ==
        if state == SUSP then old(suspensions) + [BackOff(iResumeInterval, |old(suspensions)|)]
        else if state == RDY then [] else old(suspensions)
      ensures ttResumeRtry ==
        if state == SUSP then ttNow + BackOff(iResumeInterval, |old(suspensions)|) else old(ttResumeRtry)
    {
      hide Verdict, BackOff;
      var iRetries := 0;
      var stop := false;
      ghost var row := iResumeOKinRow;
      calls := 0;
      while calls < |tape| && !stop && state == RTRY
        invariant Valid() && calls <= |tape| && (state == RTRY || state == RDY || state == SUSP)
        invariant state != SUSP ==> suspensions == old(suspensions) && ttResumeRtry == old(ttResumeRtry)
        invariant state == SUSP ==> suspensions == old(suspensions) + [BackOff(iResumeInterval, |old(suspensions)|)]
        invariant state == SUSP ==> ttResumeRtry == ttNow + BackOff(iResumeInterval, |old(suspensions)|)
        invariant Retry(iResumeRetryCount, row, tape, 0) ==
          if state == RTRY && !stop then
            var o := Retry(iResumeRetryCount, iResumeOKinRow, tape[calls..], iRetries); o.(calls := o.calls + calls)
          else Outcome(calls, state, iResumeOKinRow)
        decreases |tape| - calls
      {
        assert tape[calls..][1..] == tape[calls + 1..];
        var answer := tape[calls].answer;
        stop := tape[calls].stop;
        calls := calls + 1;
        if iResumeOKinRow > 9 && iResumeOKinRow % 10 == 0 {
          iResumeOKinRow := 0;
          answer := SUSPENDED;
        }
        if answer == OK {
          state := RDY;
        } else if answer == SUSPENDED {
          if iResumeRetryCount != -1 && iRetries >= iResumeRetryCount {
            ActionSuspend(ttNow);
          } else {
            iRetries := iRetries + 1;
          }
        }
      }
      if state == RDY {
        iNbrResRtry := 0;
        suspensions := [];
      }
      RetryIffVerdict(iResumeRetryCount, row, tape, Outcome(calls, state, iResumeOKinRow));
      OkBelieved(iResumeRetryCount, row, tape, Outcome(calls, state, iResumeOKinRow));
    }

    /** actionTryResume: a suspended action is retried when its time has come; an action
        that is neither suspended nor to be retried stays as it is. */
    method ActionTryResume(ttNow: int, tape: seq<Try>, ttSuspend: int)
      requires Valid()
      modifies this
      ensures Valid()
      ensures var retried := old(state) == RTRY || (old(state) == SUSP && ttNow >= old(ttResumeRtry));
        && (!retried ==> unchanged(this))
        && (retried ==> Verdict(iResumeRetryCount, old(iResumeOKinRow), tape, 0, Outcome(calls, state, iResumeOKinRow)))
        && (retried && state == RDY ==> suspensions == [] && iNbrResRtry == 0 && ttResumeRtry == old(ttResumeRtry))
        && (retried && state == RTRY ==> suspensions == old(suspensions) && ttResumeRtry == old(ttResumeRtry))
        && (retried && state == SUSP ==>
             var duration := BackOff(iResumeInterval, |old(suspensions)|);
             suspensions == old(suspensions) + [duration] && ttResumeRtry == ttSuspend + duration)
    {
      if state == SUSP {
        if ttNow >= ttResumeRtry {
          state := RTRY;
        }
      }
      if state == RTRY {
        ActionDoRetry(tape, ttSuspend);
      }
    }
  }

  lemma OkOrSuspended(count: int, inRow: nat, tape: seq<Try>)
    requires |tape| >= 2 && NoStop(tape) && forall i :: 0 <= i < |tape| ==> tape[i].answer == OK
    ensures forall o :: Verdict(count, inRow, tape, 0, o) ==>
      if inRow == 0 || inRow % 10 != 0 then o == Outcome(1, RDY, inRow)
      else o in {Outcome(2, RDY, 0), Outcome(1, SUSP, 0)}
  {
    forall o | Verdict(count, inRow, tape, 0, o)
      ensures if inRow == 0 || inRow % 10 != 0 then o == Outcome(1, RDY, inRow)
              else o in {Outcome(2, RDY, 0), Outcome(1, SUSP, 0)}
    {
      OkBelieved(count, inRow, tape, o);
      assert o.calls > 0 by { assert tape[..0] == []; }
      if o.calls > 1 {
        assert Effective(inRow, tape, 1) == OK && tape[1].answer == OK;
      }
    }
  }

  /** A module that answers every tryResume with OK and then fails again: exactly every tenth
      OK is not believed, and the count starts again. */
  method FailuresAnsweredOk(interval: nat, count: int, tapes: seq<seq<Try>>) returns (a: Action, believed: seq<bool>)
    requires forall j :: 0 <= j < |tapes| ==>
      |tapes[j]| >= 2 && NoStop(tapes[j]) && forall i :: 0 <= i < |tapes[j]| ==> tapes[j][i].answer == OK
    ensures fresh(a) && a.Valid() && a.state == RDY && a.iResumeOKinRow == |tapes| % 10
    ensures |believed| == |tapes| && forall j :: 0 <= j < |tapes| ==> (believed[j] <==> (j + 1) % 10 != 0)
  {
    a := new Action(interval, count);
    believed := [];
    var j := 0;
    while j < |tapes|
      invariant j <= |tapes| && fresh(a) && a.Valid() && a.state == RDY && a.iResumeOKinRow == j % 10
      invariant |believed| == j && forall i :: 0 <= i < j ==> (believed[i] <==> (i + 1) % 10 != 0)
    {
      var tape := tapes[j];
      a.ActionRetry();
      OkOrSuspended(count, a.iResumeOKinRow, tape);
      a.ActionTryResume(0, tape, 0);
      believed := believed + [a.state == RDY && a.calls == 1];
      if a.state == SUSP {
        OkOrSuspended(count, a.iResumeOKinRow, tape);
        a.ActionTryResume(a.ttResumeRtry, tape, 0);
      }
      j := j + 1;
    }
  }

  /** Everything that can happen to the action. */
  datatype Event =
    | Suspends // the module answers a message or a transaction with SUSPENDED
    | Works // it processes a message
    | Resume(ttNow: int, tape: seq<Try>, ttSuspend: int)

  /** Over every run the counter stays between 0 and 20, and the suspensions since the
      action was last ready follow the back-off, none longer than three intervals. */
  method RunEvents(interval: nat, count: int, events: seq<Event>) returns (a: Action)
    ensures fresh(a) && a.Valid() && a.iResumeInterval == interval && 0 <= a.iNbrResRtry <= 20
    ensures forall k :: 0 <= k < |a.suspensions| ==> a.suspensions[k] == BackOff(interval, k) <= 3 * interval
  {
    a := new Action(interval, count);
    var i := 0;
    while i < |events|
      invariant i <= |events| && fresh(a) && a.Valid() && a.iResumeInterval == interval
    {
      match events[i] {
        case Suspends => a.ActionRetry();
        case Works => a.ActionWorked();
        case Resume(ttNow, tape, ttSuspend) => a.ActionTryResume(ttNow, tape, ttSuspend);
      }
      i := i + 1;
    }
    forall k | 0 <= k < |a.suspensions|
      ensures a.suspensions[k] <= 3 * interval
    {
      BackOffBounds(interval, k);
    }
  }
}
