/**
 The contactor interlock (stm32f407_controller/src/bin/tasks/mod.rs, `contactor_both_task`, and
 can_processors_solax.rs, `inverter_rx`): two tasks and a signal that keeps only its last value. A run is any
 interleaving of their steps; a step of a task is what it does between two awaits.
 */
module Contactors {
  import opened Base

  // ---------------------------------------------------------------- the inverter task

  /** What the inverter protocol makes of a frame. */
  datatype Parsed = Frames | InvalidFrameEncode | BadId | TimeStamp | UnwantedFrame | OtherError

  /** One turn of the loop of `inverter_rx`. */
  datatype RxEvent = ForeignFrame | BmsTimeout | BmsUnseen | Response(parsed: Parsed)

  datatype Fault = Unset | NoFault | InvFault

  /** Is this turn an evaluated response, and a positive one? The other turns end in `continue`. */
  function Evaluation(e: RxEvent): Option<bool> {
    match e
    case Response(Frames) => Some(true)
    case Response(OtherError) => Some(true)
    case Response(InvalidFrameEncode) => Some(false)
    case Response(BadId) => Some(false)
    case _ => None
  }

  // ---------------------------------------------------------------- the contactor task

  /** Where the contactor task is waiting: for the signal, for 500 ms of precharge, for 100 ms at full duty. */
  datatype Phase = Idle | Precharging | FullDuty

  datatype Duty = Off | Full | Hold

  datatype State = State(
    initalised: bool,
    fault: Fault,
    signal: Option<bool>,
    phase: Phase,
    active: bool,
    precharge: bool,
    main: Duty,
    evaluated: seq<bool>,
    consumed: Option<bool>)

  const START := State(false, Unset, None, Idle, false, false, Off, [], None)

  datatype Action = Rx(event: RxEvent) | Wake | PrechargeOver | FullDutyOver

  function RxStep(s: State, e: RxEvent): State {
    match Evaluation(e)
    case Some(valid) =>
      s.(fault := if s.initalised then s.fault else if valid then NoFault else InvFault,
         signal := Some(valid && s.initalised),
         initalised := valid,
         evaluated := s.evaluated + [valid])
    case None =>
      if e.BmsTimeout? || e.BmsUnseen? then s.(signal := Some(false)) else s
  }

  /** `wait` takes the value out of the signal. */
  function WakeStep(s: State): State {
    if s.phase.Idle? && s.signal.Some? then
      var v := s.signal.value;
      var t := s.(signal := None, consumed := Some(v));
      if !v && s.active then t.(main := Off, precharge := false, active := false)
      else if v && !s.active then t.(precharge := true, phase := Precharging)
      else t
    else s
  }

  /** Actions that are not possible in a state leave it as it is. */
  function Next(s: State, a: Action): State {
    match a
    case Rx(e) => RxStep(s, e)
    case Wake => WakeStep(s)
    case PrechargeOver => if s.phase.Precharging? then s.(main := Full, phase := FullDuty) else s
    case FullDutyOver => if s.phase.FullDuty?
        then s.(precharge := false, main := Hold, active := true, phase := Idle) else s
  }

  function Run(actions: seq<Action>): State {
    if actions == [] then START else Next(Run(actions[..|actions| - 1]), actions[|actions| - 1])
  }

  // ---------------------------------------------------------------- safety

  predicate Last(e: seq<bool>, v: bool) {
    |e| >= 1 && e[|e| - 1] == v
  }

  predicate LastTwo(e: seq<bool>, v: bool) {
    |e| >= 2 && e[|e| - 1] == v && e[|e| - 2] == v
  }

  ghost predicate TwoPositives(e: seq<bool>) {
    exists i :: 0 <= i < |e| - 1 && e[i] && e[i + 1]
  }

  ghost predicate Safe(s: State) {
    // the inverter task
    && (s.initalised <==> Last(s.evaluated, true))
    && (s.signal == Some(true) ==> LastTwo(s.evaluated, true))
    && (s.initalised ==> s.fault == NoFault)
    && (s.fault == InvFault <==> LastTwo(s.evaluated, false) || s.evaluated == [false])
    // the contactor task
    && (s.consumed == Some(true) ==> TwoPositives(s.evaluated))
    && match s.phase
       case Idle =>
         !s.precharge && (s.active <==> s.consumed == Some(true)) && s.main == (if s.active then Hold else Off)
       case Precharging => s.precharge && !s.active && s.main == Off && s.consumed == Some(true)
       case FullDuty => s.precharge && !s.active && s.main == Full && s.consumed == Some(true)
  }

  lemma RxKeepsSafe(s: State, e: RxEvent)
    requires Safe(s)
    ensures Safe(RxStep(s, e))
  {
    var t := RxStep(s, e);
    if s.consumed == Some(true) {
      var i :| 0 <= i < |s.evaluated| - 1 && s.evaluated[i] && s.evaluated[i + 1];
      assert t.evaluated[i] && t.evaluated[i + 1];
    }
  }

  lemma WakeKeepsSafe(s: State)
    requires Safe(s)
    ensures Safe(WakeStep(s))
  {
    if s.signal == Some(true) {
      assert s.evaluated[|s.evaluated| - 2] && s.evaluated[|s.evaluated| - 2 + 1];
    }
  }

  /**
   In every interleaving: an idle task holds the contactors closed exactly if the last value it took was
   true; precharge is off whenever it waits; and closed contactors mean that two successive evaluated
   responses of the inverter were positive.
   */
  lemma {:induction false} AlwaysSafe(actions: seq<Action>)
    ensures Safe(Run(actions))
  {
    if actions != [] {
      var s, a := Run(actions[..|actions| - 1]), actions[|actions| - 1];
      AlwaysSafe(actions[..|actions| - 1]);
      match a {
        case Rx(e) => RxKeepsSafe(s, e);
        case Wake => WakeKeepsSafe(s);
        case _ =>
      }
    }
  }

  /**
   A closing turn begins only when the last two evaluated responses are positive. Main is only ever switched on at
   the end of its precharge, which is still on, and only while it is on does main run at full duty.
   */
  lemma MainNeedsPrecharge(actions: seq<Action>, a: Action)
    ensures var s, t := Run(actions), Next(Run(actions), a);
            && (s.main.Off? && !t.main.Off? ==>
                  a == PrechargeOver && s.phase.Precharging? && s.precharge && t.precharge && t.main.Full?)
            && (s.phase.Idle? && !t.phase.Idle? ==> a == Wake && t.phase.Precharging? && LastTwo(s.evaluated, true))
            && (t.main.Full? ==> t.precharge)
            && (t.active ==> t.main.Hold? && !t.precharge)
  {
    AlwaysSafe(actions);
    AlwaysSafe(actions + [a]);
    assert (actions + [a])[..|actions|] == actions;
  }

  /** The contactor task alone, until it has dealt with the signal. */
  function Settled(s: State): State {
    Next(Next(Next(s, PrechargeOver), FullDutyOver), Wake)
  }

  /** A false that is still in the signal when the task comes to wait opens both contactors, wherever the task was. */
  lemma FalseOpens(actions: seq<Action>)
    requires Run(actions).signal == Some(false)
    ensures var t := Settled(Run(actions)); t.main.Off? && !t.precharge && !t.active && t.phase.Idle?
  {
    AlwaysSafe(actions);
  }

  // ---------------------------------------------------------------- the signal over a whole run

  /** The responses evaluated in the course of some actions. */
  function Heard(actions: seq<Action>): seq<bool> {
    if actions == [] then []
    else
      Heard(actions[..|actions| - 1])
      + match actions[|actions| - 1]
        case Rx(e) => (match Evaluation(e) case Some(v) => [v] case None => [])
        case _ => []
  }

  /**
   What the i-th action puts into the signal, if anything: it depends on the responses before it and on nothing else.
   */
  function Spoken(actions: seq<Action>, i: nat): Option<bool>
    requires i < |actions|
  {
    match actions[i]
    case Rx(e) =>
      (match Evaluation(e)
       case Some(valid) => Some(valid && Last(Heard(actions[..i]), true))
       case None => if e.BmsTimeout? || e.BmsUnseen? then Some(false) else None)
    case _ => None
  }

  /** The i-th action is the contactor task taking what is in the signal. */
  ghost predicate Takes(actions: seq<Action>, i: nat)
    requires i < |actions|
  {
    actions[i].Wake? && Run(actions[..i]).phase.Idle?
  }

  /** The i-th action said v, and since then nothing else was said and nothing taken. */
  ghost predicate InForce(actions: seq<Action>, i: nat, v: bool) {
    && i < |actions| && Spoken(actions, i) == Some(v)
    && forall j :: i < j < |actions| ==> Spoken(actions, j).None? && !Takes(actions, j)
  }

  lemma {:induction false} HeardByRun(actions: seq<Action>)
    ensures Run(actions).evaluated == Heard(actions)
  {
    if actions != [] {
      HeardByRun(actions[..|actions| - 1]);
    }
  }

  lemma InForcePrefix(actions: seq<Action>, i: nat, v: bool)
    requires i < |actions| - 1
    ensures InForce(actions, i, v) <==>
              && InForce(actions[..|actions| - 1], i, v)
              && Spoken(actions, |actions| - 1).None? && !Takes(actions, |actions| - 1)
  {
    hide Heard, Run;
    var before := actions[..|actions| - 1];
    forall j | 0 <= j < |before|
      ensures Spoken(before, j) == Spoken(actions, j) && (Takes(before, j) <==> Takes(actions, j))
    {
      assert before[..j] == actions[..j];
    }
    assert InForce(actions, i, v) ==> InForce(before, i, v);
  }

  /**
   Exactly what is in the signal after any run: the value that was said last, unless the contactor task has taken
   it since. Foreign frames, unevaluated responses and the pauses change nothing.
   */
  lemma {:induction false} SignalIsLatest(actions: seq<Action>, v: bool)
    ensures Run(actions).signal == Some(v) <==> exists i: nat :: InForce(actions, i, v)
  {
    if actions == [] {
      return;
    }
    var n := |actions| - 1;
    var before := actions[..n];
    SignalIsLatest(before, v);
    AlwaysSafe(before);
    HeardByRun(before);
    SignalStep(actions);
    if Run(actions).signal == Some(v) {
      if Spoken(actions, n).Some? {
        assert InForce(actions, n, v);
      } else {
        var i: nat :| InForce(before, i, v);
        InForcePrefix(actions, i, v);
        assert InForce(actions, i, v);
      }
    }
    if i: nat :| InForce(actions, i, v) {
      if i < n {
        InForcePrefix(actions, i, v);
        assert InForce(before, i, v);
      }
    }
  }

  lemma SignalStep(actions: seq<Action>)
    requires actions != []
    ensures var n := |actions| - 1;
            Run(actions).signal ==
              if Spoken(actions, n).Some? then Spoken(actions, n)
              else if Takes(actions, n) then None
              else Run(actions[..n]).signal
  {
    hide Heard, LastTwo, TwoPositives;
    AlwaysSafe(actions[..|actions| - 1]);
    HeardByRun(actions[..|actions| - 1]);
  }

  // ---------------------------------------------------------------- a whole closing turn

  lemma {:induction false} HeardAppend(a: seq<Action>, b: seq<Action>)
    ensures Heard(a + b) == Heard(a) + Heard(b)
  {
    if b == [] {
      assert a + b == a;
    } else {
      HeardAppend(a, b[..|b| - 1]);
      assert (a + b)[..|a + b| - 1] == a + b[..|b| - 1];
    }
  }

  /** While a phase that only `over` ends lasts, the pins and the task stay as they are. */
  lemma {:induction false} PhaseLasts(before: seq<Action>, d: seq<Action>, over: Action)
    requires over !in d && Run(before).phase == (if over.PrechargeOver? then Precharging else FullDuty)
    requires over.PrechargeOver? || over.FullDutyOver?
    ensures var s, t := Run(before), Run(before + d);
            t.phase == s.phase && t.main == s.main && t.precharge == s.precharge && t.active == s.active
  {
    if d == [] {
      assert before + d == before;
    } else {
      hide Run;
      var most, last := d[..|d| - 1], d[|d| - 1];
      PhaseLasts(before, most, over);
      RunNext(before + most, last);
      assert before + d == before + most + [last];
      assert last in d;
    }
  }

  /** The run in which, after `before`, a closing turn begins and its precharge lasts for `during`. */
  function SwitchOn(before: seq<Action>, during: seq<Action>): seq<Action> {
    before + [Wake] + during + [PrechargeOver]
  }

  ghost predicate Begins(before: seq<Action>) {
    Run(before).phase.Idle? && Run(before + [Wake]).phase.Precharging?
  }

  lemma RunNext(before: seq<Action>, a: Action)
    ensures Run(before + [a]) == Next(Run(before), a)
  {
    assert (before + [a])[..|before|] == before;
  }

  /**
   A closing turn does not look at the signal: main is switched on whatever is heard during the precharge. It is
   switched on after nothing but positive responses, from the two that began the turn on, if and only if no
   negative one was evaluated during the precharge; the last one is positive if and only if the last one of the
   precharge is, should there be any.
   */
  lemma SwitchesOnExactly(before: seq<Action>, during: seq<Action>)
    requires Begins(before) && PrechargeOver !in during
    ensures var t := Run(SwitchOn(before, during));
            var start := |Heard(before)| - 2;
            && t.phase.FullDuty? && t.main.Full? && t.precharge && start >= 0
            && ((forall i :: start <= i < |t.evaluated| ==> t.evaluated[i]) <==> false !in Heard(during))
            && (Last(t.evaluated, true) <==> Heard(during) == [] || Last(Heard(during), true))
  {
    hide Run, Heard;
    var whole := SwitchOn(before, during);
    RunNext(before, Wake);
    RunNext(before + [Wake] + during, PrechargeOver);
    PhaseLasts(before + [Wake], during, PrechargeOver);
    AlwaysSafe(before);
    AlwaysSafe(before + [Wake] + during);
    HeardByRun(before);
    HeardByRun(whole);
    var a, b := Heard(before), Heard(during);
    HeardAppend(before, [Wake]);
    HeardAppend(before + [Wake], during);
    HeardAppend(before + [Wake] + during, [PrechargeOver]);
    HeardNothing();
    assert Heard(whole) == a + b;
    assert LastTwo(a, true);
    AfterTwo(a, b);
  }

  lemma HeardNothing()
    ensures Heard([Wake]) == [] && Heard([PrechargeOver]) == []
  {
    assert [Wake][..0] == [] && [PrechargeOver][..0] == [];
  }

  lemma AfterTwo(a: seq<bool>, b: seq<bool>)
    requires LastTwo(a, true)
    ensures (forall i :: |a| - 2 <= i < |a + b| ==> (a + b)[i]) <==> false !in b
    ensures Last(a + b, true) <==> b == [] || Last(b, true)
  {
    assert forall i :: 0 <= i < |b| ==> b[i] == (a + b)[|a| + i];
    assert forall i :: |a| <= i < |a + b| ==> (a + b)[i] == b[i - |a|];
  }

  /**
   And once the turn is over, the contactors stay closed at the next wait if and only if a false is not what was
   said last since the turn began.
   */
  lemma StaysClosedExactly(before: seq<Action>, during: seq<Action>, full: seq<Action>)
    requires Begins(before) && PrechargeOver !in during && FullDutyOver !in full
    ensures var whole := SwitchOn(before, during) + full + [FullDutyOver];
            && Run(whole).active && Run(whole).phase.Idle?
            && (Run(whole + [Wake]).active <==> !exists i: nat :: i > |before| && InForce(whole, i, false))
  {
    var on := SwitchOn(before, during);
    var whole := on + full + [FullDutyOver];
    SwitchesOnExactly(before, during);
    PhaseLasts(on, full, FullDutyOver);
    RunNext(on + full, FullDutyOver);
    RunNext(whole, Wake);
    SignalIsLatest(whole, false);
    assert Takes(whole, |before|) by { assert whole[..|before|] == before; }
    assert Spoken(whole, |before|).None?;
  }

  // ---------------------------------------------------------------- which answers close the contactors

  /** The inverter understood its frame, or complained of something that does not disable the contactors. */
  predicate Positive(a: Action) {
    a == Rx(Response(Frames)) || a == Rx(Response(OtherError))
  }

  /** The two answers that disable them: an encoding that failed, and an identifier that does not belong there. */
  predicate Negative(a: Action) {
    a == Rx(Response(InvalidFrameEncode)) || a == Rx(Response(BadId))
  }

  /** A positive answer that no negative one followed. */
  ghost predicate Primed(actions: seq<Action>) {
    exists i :: 0 <= i < |actions| && Positive(actions[i]) && forall k :: i < k < |actions| ==> !Negative(actions[k])
  }

  /** Two positive answers with no negative one between them. */
  ghost predicate TwoAnswers(actions: seq<Action>, i: nat, j: nat) {
    && i < j < |actions| && Positive(actions[i]) && Positive(actions[j])
    && forall k :: i < k < j ==> !Negative(actions[k])
  }

  /** Every turn of the inverter task, answer by answer, after any run. */
  lemma TurnByAnswer(actions: seq<Action>, e: RxEvent)
    ensures var s, t := Run(actions), Run(actions + [Rx(e)]);
            && (e == Response(Frames) || e == Response(OtherError) ==>
                  t.initalised && t.signal == Some(s.initalised) && t.fault == NoFault)
            && (e == Response(InvalidFrameEncode) || e == Response(BadId) ==>
                  !t.initalised && t.signal == Some(false) && t.fault == if s.initalised then NoFault else InvFault)
            && (e == Response(TimeStamp) || e == Response(UnwantedFrame) || e == ForeignFrame ==> t == s)
            && (e == BmsTimeout || e == BmsUnseen ==> t == s.(signal := Some(false)))
            && t.phase == s.phase && t.active == s.active && t.precharge == s.precharge && t.main == s.main
  {
    RunNext(actions, Rx(e));
    AlwaysSafe(actions);
  }

  /** `initalised` holds exactly if a positive answer was not followed by a negative one. */
  lemma {:induction false} PrimedExactly(actions: seq<Action>)
    ensures Run(actions).initalised <==> Primed(actions)
  {
    hide Run, Primed, Positive, Negative;
    if actions == [] {
      PrimedNothing();
    } else {
      var before, a := actions[..|actions| - 1], actions[|actions| - 1];
      assert actions == before + [a];
      PrimedExactly(before);
      PrimedStep(before, a);
      InitalisedStep(before, a);
    }
  }

  lemma PrimedNothing()
    ensures !Run([]).initalised && !Primed([])
  {
  }

  lemma InitalisedStep(before: seq<Action>, a: Action)
    ensures Run(before + [a]).initalised <==> Positive(a) || (Run(before).initalised && !Negative(a))
  {
    hide Run;
    RunNext(before, a);
  }

  lemma PrimedStep(before: seq<Action>, a: Action)
    ensures Primed(before + [a]) <==> Positive(a) || (Primed(before) && !Negative(a))
  {
    hide Positive, Negative;
    var actions, n := before + [a], |before|;
    assert actions[n] == a && forall i :: 0 <= i < n ==> actions[i] == before[i];
    if i :| 0 <= i < |actions| && Positive(actions[i]) && forall k :: i < k < |actions| ==> !Negative(actions[k]) {
      if i < n {
        assert Positive(before[i]) && forall k :: i < k < n ==> !Negative(before[k]);
        assert !Negative(actions[n]);
      }
    }
    if Primed(before) && !Negative(a) {
      var i :| 0 <= i < n && Positive(before[i]) && forall k :: i < k < n ==> !Negative(before[k]);
      assert Positive(actions[i]);
    }
    if Positive(a) {
      assert Positive(actions[n]);
    }
  }

  /**
   Exactly when the inverter task asks for closed contactors: at a positive answer, if the one evaluated before it
   was positive too, however many battery timeouts came in between.
   */
  lemma AsksExactly(actions: seq<Action>, e: RxEvent)
    ensures (Run(actions + [Rx(e)]).signal == Some(true) && e != ForeignFrame
             && e != Response(TimeStamp) && e != Response(UnwantedFrame))
            <==> Positive(Rx(e)) && Primed(actions)
  {
    TurnByAnswer(actions, e);
    PrimedExactly(actions);
  }

  /** Something asks for closed contactors, is on the way to them, or holds them. */
  predicate Closing(s: State) {
    s.signal == Some(true) || s.consumed == Some(true) || s.active || s.precharge || !s.main.Off?
  }

  lemma ClosingStep(before: seq<Action>, a: Action)
    ensures Closing(Run(before + [a])) ==> Closing(Run(before)) || (Positive(a) && Run(before).initalised)
  {
    hide Run, LastTwo, TwoPositives;
    RunNext(before, a);
    AlwaysSafe(before);
  }

  /**
   And so the contactors are never closed, nor on the way to it, in any interleaving, that does not go back to two
   positive answers with no negative one between them.
   */
  lemma {:induction false} ClosedByTwoAnswers(actions: seq<Action>)
    ensures Closing(Run(actions)) ==> exists i: nat, j: nat :: TwoAnswers(actions, i, j)
  {
    hide Run, Closing, Positive, Negative;
    if actions == [] {
      NothingCloses();
    } else {
      var n := |actions| - 1;
      var before, a := actions[..n], actions[n];
      assert actions == before + [a] && forall i :: 0 <= i < n ==> actions[i] == before[i];
      ClosedByTwoAnswers(before);
      PrimedExactly(before);
      ClosingStep(before, a);
      if i: nat, j: nat :| TwoAnswers(before, i, j) {
        assert TwoAnswers(actions, i, j);
      }
      if Positive(a) && Primed(before) {
        var i :| 0 <= i < n && Positive(before[i]) && forall k :: i < k < n ==> !Negative(before[k]);
        assert TwoAnswers(actions, i, n);
      }
    }
  }

  lemma NothingCloses()
    ensures !Closing(Run([]))
  {
  }

  /**
   A battery timeout between two positive responses does not delay the contactors; the order it left behind is
   overwritten.
   */
  lemma TimeoutBetweenPositives()
    ensures var s := Run([Rx(Response(Frames)), Rx(BmsTimeout), Rx(Response(Frames)), Wake]);
            s.phase.Precharging? && s.evaluated == [true, true]
  {
    var a := [Rx(Response(Frames)), Rx(BmsTimeout), Rx(Response(Frames)), Wake];
    assert a[..3] == [Rx(Response(Frames)), Rx(BmsTimeout), Rx(Response(Frames))];
    assert a[..3][..2] == [Rx(Response(Frames)), Rx(BmsTimeout)];
    assert a[..3][..2][..1] == [Rx(Response(Frames))];
    assert Run(a[..3][..2][..1]) == RxStep(START, Response(Frames));
  }

  // ---------------------------------------------------------------- the code

  class Signal {
    var value: Option<bool>

    constructor ()
      ensures value == None
    {
      value := None;
    }

    method Set(v: bool)
      modifies this
      ensures value == Some(v)
    {
      value := Some(v);
    }
  }

  /** One turn of `inverter_rx`. */
  class InverterRx {
    var initalised: bool
    var fault: Fault
    const contactor: Signal

    constructor (contactor: Signal)
      ensures !initalised && fault == Unset && this.contactor == contactor
    {
      this.contactor := contactor;
      initalised, fault := false, Unset;
    }

    ghost function On(s: State): State
      reads this, contactor
    {
      s.(initalised := initalised, fault := fault, signal := contactor.value)
    }

    method Turn(e: RxEvent, ghost s: State)
      modifies this, contactor
      ensures var t := RxStep(old(On(s)), e);
              initalised == t.initalised && fault == t.fault && contactor.value == t.signal
      ensures e == Response(Frames) || e == Response(OtherError) ==>
                initalised && contactor.value == Some(old(initalised))
      ensures e == Response(InvalidFrameEncode) || e == Response(BadId) ==>
                !initalised && contactor.value == Some(false)
    {
      match e
      case ForeignFrame => return;
      case BmsTimeout => contactor.Set(false); return;
      case BmsUnseen => contactor.Set(false); return;
      case Response(parsed) =>
        var valid: bool;
        match parsed {
          case Frames => valid := true;
          case InvalidFrameEncode => valid := false;
          case BadId => valid := false;
          case TimeStamp => return;
          case UnwantedFrame => return;
          case OtherError => valid := true;
        }
        if !initalised {
          fault := if valid then NoFault else InvFault;
        }
        contactor.Set(valid && initalised);
        initalised := valid;
    }
  }

  /** What the contactor task does to its pins and its clock. */
  datatype Command = Precharge(on: bool) | Main(duty: Duty) | Pause(milliseconds: nat)

  /** The commands of one turn of the loop, for a value taken from the signal. */
  function Commands(active: bool, v: bool): seq<Command> {
    if !v && active then [Main(Off), Precharge(false)]
    else if v && !active then
      [Precharge(true), Pause(500), Main(Full), Pause(100), Precharge(false), Main(Hold)]
    else []
  }

  /** The pins after some commands. */
  function Pins(precharge: bool, main: Duty, commands: seq<Command>): (bool, Duty)
    decreases |commands|
  {
    if commands == [] then (precharge, main)
    else match commands[0]
      case Precharge(on) => Pins(on, main, commands[1..])
      case Main(duty) => Pins(precharge, duty, commands[1..])
      case Pause(_) => Pins(precharge, main, commands[1..])
  }

  /** Cut at its pauses, a closing turn is the three steps of the task, pin by pin. */
  lemma ClosingTurnIsThreeSteps(s: State)
    requires s.phase.Idle? && s.signal == Some(true) && !s.active
    ensures var c := Commands(s.active, true);
            var s1 := Next(s, Wake);
            var s2 := Next(s1, PrechargeOver);
            var s3 := Next(s2, FullDutyOver);
            && Pins(s.precharge, s.main, c[..1]) == (s1.precharge, s1.main) && c[1] == Pause(500)
            && Pins(s1.precharge, s1.main, c[2..3]) == (s2.precharge, s2.main) && c[3] == Pause(100)
            && Pins(s2.precharge, s2.main, c[4..]) == (s3.precharge, s3.main) && s3.active && s3.phase.Idle?
  {
    var c := Commands(s.active, true);
    assert c[..1] == [Precharge(true)] && c[2..3] == [Main(Full)] && c[4..] == [Precharge(false), Main(Hold)];
    assert c[4..][1..] == [Main(Hold)] && c[4..][1..][1..] == [];
    assert Pins(false, Full, c[4..][1..]) == (false, Hold);
  }

  /** One that opens, or holds, is a single step. */
  lemma OtherTurnIsOneStep(s: State)
    requires s.phase.Idle? && s.signal.Some? && !(s.signal.value && !s.active)
    ensures var c := Commands(s.active, s.signal.value);
            var t := Next(s, Wake);
            Pins(s.precharge, s.main, c) == (t.precharge, t.main) && t.phase.Idle? && t.active == s.signal.value
  {
    var c := Commands(s.active, s.signal.value);
    if !s.signal.value && s.active {
      assert c[1..] == [Precharge(false)] && c[1..][1..] == [];
      assert Pins(s.precharge, Off, c[1..]) == (false, Off);
    }
  }

  /** The loop of `contactor_both_task`: `log` is what it has done to pins and clock so far. */
  class BothContactors {
    var active: bool
    var log: seq<Command>

    constructor ()
      ensures !active && log == [Precharge(false)]
    {
      active, log := false, [Precharge(false)];
    }

    method Do(c: Command)
      modifies this`log
      ensures log == old(log) + [c]
    {
      log := log + [c];
    }

    method Turn(state: bool)
      modifies this
      ensures log == old(log) + Commands(old(active), state)
      ensures active == state
    {
      if !state && active {
        Do(Main(Off));
        Do(Precharge(false));
        active := false;
      } else if state && !active {
        Do(Precharge(true));
        Do(Pause(500));
        Do(Main(Full));
        Do(Pause(100));
        Do(Precharge(false));
        Do(Main(Hold));
        active := true;
      }
    }
  }
}
