/** The error of a command whose output is being read: one goroutine sends it once over
    a channel with room for one value, and any number of callers of `Error()` ask for
    it. The callers and the producer take atomic steps in any interleaving. */
module MemoError {
  import opened Wrappers

  datatype Error = Nil | Failure(text: string)

  /** Where a caller of `Error()` is. `Start` reads the flag without the lock. */
  datatype Pc =
    | Start
    | FastPath           // the flag was set: read the stored error without the lock
    | WantLock
    | Recheck            // holds the lock from here on
    | Receiving
    | Storing(got: Error)
    | Flagging
    | Reading            // reads the stored error
    | Unlocking(result: Error)
    | Returned(result: Error)

  /** The producer first copies the output, then waits for the command. */
  datatype Producer = Copying | Waiting | Finished

  /** `sent` and `received` record what has gone through the channel. How copying and
      waiting end is decided outside; an error is taken as it is sent, with its prefix. */
  datatype State = State(
    producer: Producer,
    channel: Option<Error>,
    lock: Option<nat>,
    gotErrValue: bool,
    returnedErr: Error,
    callers: seq<Pc>,
    sent: seq<Error>,
    received: nat,
    copyError: Error,
    waitError: Error)

  /** How the command has ended: as copying did if that failed, else as waiting did. */
  function Ending(s: State): Error {
    if s.copyError != Nil then s.copyError else s.waitError
  }

  ghost predicate Init(s: State) {
    && s == State(Copying, None, None, false, Nil, s.callers, [], 0, s.copyError, s.waitError)
    && forall t :: 0 <= t < |s.callers| ==> s.callers[t] == Start
  }

  // ------------------------------------------------------------------ steps

  /** A failed copy sends its error; otherwise the command is waited for and its error,
      or nil, is sent. A send waits for room in the channel. */
  ghost predicate ProducerStep(s: State, s': State) {
    || (s.producer == Copying && s.copyError == Nil && s' == s.(producer := Waiting))
    || (s.producer == Copying && s.copyError != Nil && s.channel.None? && s' == Send(s, s.copyError))
    || (s.producer == Waiting && s.channel.None? && s' == Send(s, s.waitError))
  }

  function Send(s: State, e: Error): State {
    s.(producer := Finished, channel := Some(e), sent := s.sent + [e])
  }

  function Goto(s: State, t: nat, pc: Pc): State
    requires t < |s.callers|
  {
    s.(callers := s.callers[t := pc])
  }

  /** Whether caller `t` can take its next step. */
  predicate Enabled(s: State, t: nat)
    requires t < |s.callers|
  {
    match s.callers[t]
    case WantLock => s.lock.None?
    case Receiving => s.channel.Some?
    case Returned(_) => false
    case _ => true
  }

  function CallerStep(s: State, t: nat): State
    requires t < |s.callers| && Enabled(s, t)
  {
    match s.callers[t]
    case Start => Goto(s, t, if s.gotErrValue then FastPath else WantLock)
    case FastPath => Goto(s, t, Returned(s.returnedErr))
    case WantLock => Goto(s, t, Recheck).(lock := Some(t))
    case Recheck => Goto(s, t, if s.gotErrValue then Reading else Receiving)
    case Receiving => Goto(s, t, Storing(s.channel.value)).(channel := None, received := s.received + 1)
    case Storing(e) => Goto(s, t, Flagging).(returnedErr := e)
    case Flagging => Goto(s, t, Reading).(gotErrValue := true)
    case Reading => Goto(s, t, Unlocking(s.returnedErr))
    case Unlocking(e) => Goto(s, t, Returned(e)).(lock := None)
  }

  ghost predicate Next(s: State, s': State) {
    || ProducerStep(s, s')
    || exists t :: 0 <= t < |s.callers| && Enabled(s, t) && s' == CallerStep(s, t)
  }

  ghost predicate IsRun(run: seq<State>) {
    && run != [] && Init(run[0])
    && forall k :: 0 <= k < |run| - 1 ==> Next(run[k], run[k + 1])
  }

  // -------------------------------------------------------------- invariant

  predicate HoldsLock(pc: Pc) {
    pc.Recheck? || pc.Receiving? || pc.Storing? || pc.Flagging? || pc.Reading? || pc.Unlocking?
  }

  /** What a caller knows at its place in the code. */
  ghost predicate CallerOk(s: State, t: nat)
    requires t < |s.callers|
  {
    && (HoldsLock(s.callers[t]) <==> s.lock == Some(t))
    && match s.callers[t]
       case Receiving => !s.gotErrValue && s.received == 0
       case Storing(e) => !s.gotErrValue && s.received == 1 && s.sent == [e]
       case Flagging => !s.gotErrValue && s.received == 1 && s.sent == [s.returnedErr]
       case FastPath => s.gotErrValue
       case Reading => s.gotErrValue
       case Unlocking(e) => s.gotErrValue && s.sent == [e]
       case Returned(e) => s.gotErrValue && s.sent == [e]
       case _ => true
  }

  ghost predicate Inv(s: State) {
    && (s.producer != Finished ==> s.sent == [])
    && (s.producer == Waiting ==> s.copyError == Nil)
    && (s.producer == Finished ==> s.sent == [Ending(s)])
    && s.received <= |s.sent|
    && (s.channel.Some? <==> s.received < |s.sent|)
    && (s.channel.Some? ==> s.sent == [s.channel.value])
    && (s.gotErrValue ==> s.received == 1 && s.sent == [s.returnedErr])
    && (s.lock.Some? ==> s.lock.value < |s.callers| && HoldsLock(s.callers[s.lock.value]))
    && (s.received == 1 && !s.gotErrValue ==>
          s.lock.Some? && (s.callers[s.lock.value].Storing? || s.callers[s.lock.value].Flagging?))
    && forall t :: 0 <= t < |s.callers| ==> CallerOk(s, t)
  }

  lemma ProducerKeepsInv(s: State, s': State)
    requires Inv(s) && ProducerStep(s, s')
    ensures Inv(s')
  {
    forall t | 0 <= t < |s'.callers| ensures CallerOk(s', t) {
      assert CallerOk(s, t);
    }
  }

  lemma CallerKeepsInv(s: State, t: nat)
    requires Inv(s) && t < |s.callers| && Enabled(s, t)
    ensures Inv(CallerStep(s, t))
  {
    var s' := CallerStep(s, t);
    assert CallerOk(s, t);
    forall u | 0 <= u < |s'.callers| ensures CallerOk(s', u) {
      assert CallerOk(s, u);
    }
  }

  lemma FrontIsRun(run: seq<State>)
    requires IsRun(run) && |run| > 1
    ensures IsRun(run[..|run| - 1]) && Next(run[|run| - 2], run[|run| - 1])
  {
    hide Next, Init;
    var front := run[..|run| - 1];
    forall k | 0 <= k < |front| - 1 ensures Next(front[k], front[k + 1]) {
      assert Next(run[k], run[k + 1]);
    }
    assert Next(run[|run| - 2], run[|run| - 2 + 1]);
  }

  lemma {:induction false} RunsKeepInv(run: seq<State>)
    requires IsRun(run)
    ensures Inv(run[|run| - 1]) && Ending(run[|run| - 1]) == Ending(run[0])
    decreases |run|
  {
    if |run| > 1 {
      var front := run[..|run| - 1];
      FrontIsRun(run);
      RunsKeepInv(front);
      var s, s' := run[|run| - 2], run[|run| - 1];
      assert front[|front| - 1] == s && Next(s, s');
      if ProducerStep(s, s') {
        ProducerKeepsInv(s, s');
      } else {
        var t :| 0 <= t < |s.callers| && Enabled(s, t) && s' == CallerStep(s, t);
        CallerKeepsInv(s, t);
      }
    }
  }

  /** In every interleaving: at most one value is sent and at most one received, the
      producer's send always finds room, and every caller that has returned, by either
      path, has the value that was sent, which tells how the command has ended. */
  lemma OneValueForAllCallers(run: seq<State>)
    requires IsRun(run)
    ensures var s := run[|run| - 1];
      && |s.sent| <= 1 && s.received <= |s.sent|
      && (s.producer == Finished <==> |s.sent| == 1)
      && (s.producer != Finished ==> s.channel.None?)
      && forall t :: 0 <= t < |s.callers| && s.callers[t].Returned? ==>
           s.sent == [s.callers[t].result] && s.callers[t].result == Ending(run[0])
  {
    RunsKeepInv(run);
    var s := run[|run| - 1];
    forall t | 0 <= t < |s.callers| && s.callers[t].Returned?
      ensures s.sent == [s.callers[t].result] && s.callers[t].result == Ending(run[0])
    {
      assert CallerOk(s, t);
    }
  }

  // --------------------------------------------------------------- progress

  /** Somebody can always move until all callers have returned. */
  lemma NoDeadlock(run: seq<State>)
    requires IsRun(run)
    ensures var s := run[|run| - 1];
      || (exists s' :: Next(s, s'))
      || (s.producer == Finished && forall t :: 0 <= t < |s.callers| ==> s.callers[t].Returned?)
  {
    RunsKeepInv(run);
    var s := run[|run| - 1];
    if s.producer == Copying {
      assert Next(s, if s.copyError == Nil then s.(producer := Waiting) else Send(s, s.copyError));
    } else if s.producer == Waiting {
      assert Next(s, Send(s, s.waitError));
    } else if t :| 0 <= t < |s.callers| && !s.callers[t].Returned? {
      var u := if s.lock.Some? then s.lock.value else t;
      assert CallerOk(s, u) && CallerOk(s, t);
      assert Enabled(s, u);
      assert Next(s, CallerStep(s, u));
    }
  }

  function Rank(pc: Pc): nat {
    match pc
    case Start => 8
    case WantLock => 7
    case Recheck => 6
    case Receiving => 5
    case Storing(_) => 4
    case Flagging => 3
    case Reading => 2
    case Unlocking(_) => 1
    case FastPath => 1
    case Returned(_) => 0
  }

  function Ranks(pcs: seq<Pc>): nat {
    if pcs == [] then 0 else Rank(pcs[0]) + Ranks(pcs[1..])
  }

  function StepsLeft(s: State): nat {
    Ranks(s.callers) + match s.producer case Copying => 2 case Waiting => 1 case Finished => 0
  }

  lemma {:induction false} RanksAfterUpdate(pcs: seq<Pc>, t: nat, pc: Pc)
    requires t < |pcs|
    ensures Ranks(pcs[t := pc]) == Ranks(pcs) - Rank(pcs[t]) + Rank(pc)
  {
    if t > 0 {
      RanksAfterUpdate(pcs[1..], t - 1, pc);
      assert pcs[t := pc][1..] == pcs[1..][t - 1 := pc];
    } else {
      assert pcs[t := pc][1..] == pcs[1..];
    }
  }

  lemma CallerStepsLeftDecrease(s: State, t: nat)
    requires t < |s.callers| && Enabled(s, t)
    ensures StepsLeft(CallerStep(s, t)) < StepsLeft(s)
  {
    hide Ranks;
    var s' := CallerStep(s, t);
    assert s'.callers == s.callers[t := s'.callers[t]] && s'.producer == s.producer;
    RanksAfterUpdate(s.callers, t, s'.callers[t]);
  }

  lemma ProducerStepsLeftDecrease(s: State, s': State)
    requires ProducerStep(s, s')
    ensures StepsLeft(s') < StepsLeft(s)
  {
    hide Ranks;
  }

  lemma StepsLeftDecreases(s: State, s': State)
    requires Next(s, s')
    ensures StepsLeft(s') < StepsLeft(s)
  {
    hide StepsLeft, ProducerStep, CallerStep, Enabled;
    if ProducerStep(s, s') {
      ProducerStepsLeftDecrease(s, s');
    } else {
      var t :| 0 <= t < |s.callers| && Enabled(s, t) && s' == CallerStep(s, t);
      CallerStepsLeftDecrease(s, t);
    }
  }

  /** No run goes on for ever, so with `NoDeadlock` every caller returns in the end. */
  lemma {:induction false} RunsAreFinite(run: seq<State>)
    requires IsRun(run)
    ensures |run| - 1 + StepsLeft(run[|run| - 1]) <= StepsLeft(run[0])
    ensures StepsLeft(run[0]) == 8 * |run[0].callers| + 2
    decreases |run|
  {
    hide Next, Ranks;
    StartRanks(run[0].callers);
    if |run| > 1 {
      var front := run[..|run| - 1];
      FrontIsRun(run);
      RunsAreFinite(front);
      StepsLeftDecreases(run[|run| - 2], run[|run| - 1]);
    }
  }

  lemma {:induction false} StartRanks(pcs: seq<Pc>)
    requires forall t :: 0 <= t < |pcs| ==> pcs[t] == Start
    ensures Ranks(pcs) == 8 * |pcs|
  {
    if pcs != [] {
      StartRanks(pcs[1..]);
    }
  }
}
