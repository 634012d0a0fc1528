/** The timer's behaviour as a pure state machine over the four state cells
    of the `App` component.  Each button handler, the interval callback and
    the settling effect is a function from state to state; `Step` is one
    user-visible event followed by the effect that React runs after it. */
module TimerMachine {

  /** The count a fresh timer, a reset and a dismissed alarm start from:
      25 minutes. */
  const INITIAL_TIME: int := 1500

  datatype Option<T> = None | Some(value: T)

  /** The two arguments of `handleEditTime`. */
  datatype Unit = Hrs | Mins | Secs
  datatype Direction = Inc | Dec

  /** The component's four state cells. */
  datatype State = State(time: int, isActive: bool, isEditTime: bool, isAlarmPlaying: bool)

  /** What can happen to the component: a click on one of its buttons, or
      the interval firing. */
  datatype Event =
    | StartStopClick
    | ResetClick
    | StopAlarmClick
    | EditClick
    | AdjustClick(unit: Unit, dir: Direction)
    | TickFired

  /** The mode the four cells encode when at most one flag is set. */
  datatype Mode = Idle | Running | Editing | Alarming

  function Initial(): State {
    State(INITIAL_TIME, false, false, false)
  }

  // ---------------------------------------------------------------------
  // The updater expressions handed to `setTime`

  function UnitSeconds(unit: Unit): int {
    match unit
    case Hrs => 60 * 60
    case Mins => 60
    case Secs => 1
  }

  /** The signed change one adjust click asks for. */
  function Delta(unit: Unit, dir: Direction): int {
    if dir == Inc then UnitSeconds(unit) else -UnitSeconds(unit)
  }

  /** The updater of `handleEditTime`: one unit up or down, with no bound
      in either direction. */
  function AdjustedTime(t: int, unit: Unit, dir: Direction): (r: int)
    ensures unit == Hrs ==> r - t in {3600, -3600}
    ensures unit == Mins ==> r - t in {60, -60}
    ensures unit == Secs ==> r - t in {1, -1}
    ensures dir == Inc <==> r > t
  {
    t + Delta(unit, dir)
  }

  /** The updater of the interval callback. */
  function TickedTime(t: int): (r: int)
    ensures r >= 0
    ensures t > 0 ==> r == t - 1
    ensures t <= 0 ==> r == 0
  {
    if t > 0 then t - 1 else 0
  }

  // ---------------------------------------------------------------------
  // When each control can be used (`disabled` attributes, the buttons
  // rendered only while editing, the interval set only while active)

  predicate StartStopEnabled(s: State) {
    !(s.isEditTime || s.isAlarmPlaying)
  }

  predicate ResetEnabled(s: State) {
    !(s.isActive || s.isAlarmPlaying)
  }

  predicate StopAlarmEnabled(s: State) {
    s.isAlarmPlaying
  }

  predicate EditEnabled(s: State) {
    !(s.isActive || s.isAlarmPlaying)
  }

  predicate AdjustEnabled(s: State) {
    s.isEditTime
  }

  predicate TickEnabled(s: State) {
    s.isActive
  }

  predicate Enabled(s: State, e: Event) {
    match e
    case StartStopClick => StartStopEnabled(s)
    case ResetClick => ResetEnabled(s)
    case StopAlarmClick => StopAlarmEnabled(s)
    case EditClick => EditEnabled(s)
    case AdjustClick(_, _) => AdjustEnabled(s)
    case TickFired => TickEnabled(s)
  }

  // ---------------------------------------------------------------------
  // The handlers, each as the state it leaves before the effect runs

  function StartStop(s: State): State {
    s.(isActive := !s.isActive)
  }

  function Reset(s: State): State {
    s.(time := INITIAL_TIME)
  }

  function StopAlarm(s: State): State {
    s.(time := INITIAL_TIME, isAlarmPlaying := false)
  }

  function EditToggle(s: State): State {
    s.(isEditTime := !s.isEditTime)
  }

  /** `handleEditTime`: nothing at all happens on a zero count; otherwise
      only the count moves, by one unit. */
  function Adjust(s: State, unit: Unit, dir: Direction): (r: State)
    ensures s.time == 0 ==> r == s
    ensures s.time != 0 ==> r.time == s.time + Delta(unit, dir)
    ensures r.isActive == s.isActive && r.isEditTime == s.isEditTime
    ensures r.isAlarmPlaying == s.isAlarmPlaying
  {
    if s.time == 0 then s else s.(time := AdjustedTime(s.time, unit, dir))
  }

  function Tick(s: State): State {
    s.(time := TickedTime(s.time))
  }

  /** The effect on `[time, isEditTime, isActive]`.  Both of its tests read
      the cells as they were when it started. */
  function Settle(s: State): (r: State)
    ensures r.isEditTime == s.isEditTime
    ensures s.isEditTime ==> r.time > 0
    ensures s.isEditTime && s.time <= 0 ==> r.time == INITIAL_TIME
    ensures s.isActive && s.time <= 0 ==> r.isAlarmPlaying && !r.isActive
    ensures !(s.isEditTime && s.time <= 0) ==> r.time == s.time
    ensures !(s.isActive && s.time <= 0) ==>
              r.isActive == s.isActive && r.isAlarmPlaying == s.isAlarmPlaying
    ensures s.time > 0 || !(s.isEditTime || s.isActive) ==> r == s
  {
    var time := if s.isEditTime && s.time <= 0 then INITIAL_TIME else s.time;
    if s.isActive && s.time <= 0 then
      s.(time := time, isActive := false, isAlarmPlaying := true)
    else
      s.(time := time)
  }

  function Apply(s: State, e: Event): State {
    match e
    case StartStopClick => StartStop(s)
    case ResetClick => Reset(s)
    case StopAlarmClick => StopAlarm(s)
    case EditClick => EditToggle(s)
    case AdjustClick(unit, dir) => Adjust(s, unit, dir)
    case TickFired => Tick(s)
  }

  /** One event and then the effect it triggers. */
  function Step(s: State, e: Event): State {
    Settle(Apply(s, e))
  }

  /** A run of events from `s`; `None` as soon as one of them is not
      available in the state it meets. */
  function Run(s: State, events: seq<Event>): Option<State>
    decreases |events|
  {
    if events == [] then Some(s)
    else if !Enabled(s, events[0]) then None
    else Run(Step(s, events[0]), events[1..])
  }

  /** `n` firings of the interval. */
  function Ticks(n: nat): (r: seq<Event>)
    ensures |r| == n
    ensures forall i :: 0 <= i < n ==> r[i] == TickFired
  {
    if n == 0 then [] else [TickFired] + Ticks(n - 1)
  }

  // ---------------------------------------------------------------------
  // Invariants

  predicate ModesExclusive(s: State) {
    && !(s.isActive && s.isEditTime)
    && !(s.isActive && s.isAlarmPlaying)
    && !(s.isEditTime && s.isAlarmPlaying)
  }

  /** What holds of every state the component settles in: at most one
      mode flag, a count that is never negative, and a zero count exactly
      while the alarm rings. */
  predicate Inv(s: State) {
    && ModesExclusive(s)
    && s.time >= 0
    && (s.time == 0 <==> s.isAlarmPlaying)
  }

  function ModeOf(s: State): Mode
    requires ModesExclusive(s)
  {
    if s.isActive then Running
    else if s.isEditTime then Editing
    else if s.isAlarmPlaying then Alarming
    else Idle
  }

  // ---------------------------------------------------------------------
  // Lemmas

  /** Every handler keeps the mode flags exclusive, before the effect runs. */
  lemma ApplyKeepsModesExclusive(s: State, e: Event)
    requires ModesExclusive(s) && Enabled(s, e)
    ensures ModesExclusive(Apply(s, e))
  {
  }

  /** The effect raises the alarm only together with clearing `isActive`,
      so it keeps the flags exclusive too. */
  lemma SettleKeepsModesExclusive(s: State)
    requires ModesExclusive(s)
    ensures ModesExclusive(Settle(s))
  {
  }

  /** One run of the effect reaches the point where it changes nothing, so
      React re-running it on the cells it has just set is harmless. */
  lemma SettleIdempotent(s: State)
    ensures Settle(Settle(s)) == Settle(s)
  {
  }

  lemma InitialInv()
    ensures Inv(Initial()) && ModeOf(Initial()) == Idle
  {
  }

  /** Every available event, followed by the effect, keeps the invariant. */
  lemma StepKeepsInv(s: State, e: Event)
    requires Inv(s) && Enabled(s, e)
    ensures Inv(Step(s, e))
  {
    ApplyKeepsModesExclusive(s, e);
    SettleKeepsModesExclusive(Apply(s, e));
  }

  /** The invariant holds of every state a run of events reaches. */
  lemma {:induction false} RunKeepsInv(s: State, events: seq<Event>)
    requires Inv(s)
    ensures Run(s, events).Some? ==> Inv(Run(s, events).value)
    decreases |events|
  {
    if events != [] && Enabled(s, events[0]) {
      StepKeepsInv(s, events[0]);
      RunKeepsInv(Step(s, events[0]), events[1..]);
    }
  }

  /** Every state reachable from a fresh timer satisfies the invariant. */
  lemma ReachableInv(events: seq<Event>)
    ensures Run(Initial(), events).Some? ==> Inv(Run(Initial(), events).value)
  {
    InitialInv();
    RunKeepsInv(Initial(), events);
  }

  /** Running `a` and then `b` is running `a + b`. */
  lemma {:induction false} RunAppend(s: State, a: seq<Event>, b: seq<Event>)
    ensures Run(s, a + b) == match Run(s, a) { case None => None case Some(t) => Run(t, b) }
    decreases |a|
  {
    if a == [] {
      assert a + b == b;
    } else {
      assert (a + b)[0] == a[0];
      assert (a + b)[1..] == a[1..] + b;
      if Enabled(s, a[0]) {
        RunAppend(Step(s, a[0]), a[1..], b);
      }
    }
  }

  /** The mode table: how each available event moves between the modes. */
  lemma ModeTransitions(s: State, e: Event)
    requires Inv(s) && Enabled(s, e)
    ensures Inv(Step(s, e))
    ensures ModeOf(Step(s, e)) ==
      match e
      case StartStopClick => if ModeOf(s) == Running then Idle else Running
      case ResetClick => ModeOf(s)
      case StopAlarmClick => Idle
      case EditClick => if ModeOf(s) == Editing then Idle else Editing
      case AdjustClick(_, _) => Editing
      case TickFired => if s.time == 1 then Alarming else Running
  {
    StepKeepsInv(s, e);
  }

  /** A tick while running takes exactly one second off, never going below
      zero; from one second left it raises the alarm. */
  lemma TickStep(s: State)
    requires Inv(s) && s.isActive
    ensures s.time > 1 ==> Step(s, TickFired) == s.(time := s.time - 1)
    ensures s.time == 1 ==> Step(s, TickFired) == State(0, false, false, true)
  {
  }

  /** Fewer ticks than the count leave the timer running with the count
      lowered by exactly that many seconds. */
  lemma {:induction false} CountdownRunning(s: State, k: nat)
    requires Inv(s) && s.isActive && k < s.time
    ensures Run(s, Ticks(k)) == Some(s.(time := s.time - k))
    decreases k
  {
    if k > 0 {
      TickStep(s);
      var s' := Step(s, TickFired);
      assert Ticks(k)[1..] == Ticks(k - 1);
      CountdownRunning(s', k - 1);
    }
  }

  /** As many ticks as the count bring it to zero and raise the alarm. */
  lemma CountdownToAlarm(s: State)
    requires Inv(s) && s.isActive
    ensures Run(s, Ticks(s.time)) == Some(State(0, false, false, true))
  {
    var n := s.time;
    assert Ticks(n) == Ticks(n - 1) + [TickFired] by {
      TicksSplit(n - 1);
    }
    CountdownRunning(s, n - 1);
    RunAppend(s, Ticks(n - 1), [TickFired]);
    TickStep(s.(time := 1));
  }

  lemma {:induction false} TicksSplit(n: nat)
    ensures Ticks(n + 1) == Ticks(n) + [TickFired]
  {
    if n > 0 {
      TicksSplit(n - 1);
    }
  }

  /** The alarm stops the countdown: no further tick arrives. */
  lemma NoTickAfterAlarm(s: State)
    requires Inv(s) && s.isActive
    ensures Run(s, Ticks(s.time + 1)) == None
  {
    TicksSplit(s.time);
    CountdownToAlarm(s);
    RunAppend(s, Ticks(s.time), [TickFired]);
  }

  /** From a fresh timer, Start and 1500 ticks end with a zero count, the
      alarm ringing and the timer stopped. */
  lemma StartThenFullCountdown()
    ensures Run(Initial(), [StartStopClick] + Ticks(INITIAL_TIME))
            == Some(State(0, false, false, true))
  {
    var running := Step(Initial(), StartStopClick);
    assert running == State(INITIAL_TIME, true, false, false);
    RunAppend(Initial(), [StartStopClick], Ticks(INITIAL_TIME));
    CountdownToAlarm(running);
  }

  /** Start, five ticks and Stop keep the remaining 1495 seconds; Reset then
      restores 1500. */
  lemma PauseKeepsCountThenReset()
    ensures Run(Initial(), [StartStopClick] + Ticks(5) + [StartStopClick])
            == Some(State(1495, false, false, false))
    ensures Run(Initial(), [StartStopClick] + Ticks(5) + [StartStopClick, ResetClick])
            == Some(Initial())
  {
    var running := State(INITIAL_TIME, true, false, false);
    RunAppend(Initial(), [StartStopClick], Ticks(5));
    CountdownRunning(running, 5);
    var paused := State(1495, true, false, false);
    RunAppend(Initial(), [StartStopClick] + Ticks(5), [StartStopClick]);
    RunAppend(Initial(), [StartStopClick] + Ticks(5), [StartStopClick, ResetClick]);
    assert Run(paused, [StartStopClick, ResetClick]) == Some(Initial()) by {
      assert [StartStopClick, ResetClick][1..] == [ResetClick];
    }
  }

  /** Edit, one minute up and Set leave an idle timer at 1560 seconds. */
  lemma EditOneMinuteUp()
    ensures Run(Initial(), [EditClick, AdjustClick(Mins, Inc), EditClick])
            == Some(State(1560, false, false, false))
  {
    var events := [EditClick, AdjustClick(Mins, Inc), EditClick];
    assert events[1..] == [AdjustClick(Mins, Inc), EditClick];
    assert events[1..][1..] == [EditClick];
  }

  /** One unit up and then the same unit down restores a positive count,
      and the reverse holds whenever neither click meets a zero count. */
  lemma AdjustRoundTrip(s: State, unit: Unit)
    ensures s.time != 0 && s.time + Delta(unit, Inc) != 0 ==>
              Adjust(Adjust(s, unit, Inc), unit, Dec) == s
    ensures s.time != 0 && s.time + Delta(unit, Dec) != 0 ==>
              Adjust(Adjust(s, unit, Dec), unit, Inc) == s
  {
  }

  /** In a settled state the adjust buttons never meet a zero count: the
      effect has already replaced any count at or below zero while editing,
      so the zero guard of `handleEditTime` only matters between a click
      and the effect. */
  lemma ZeroGuardIdleWhenSettled(s: State, unit: Unit, dir: Direction)
    requires Inv(s) && AdjustEnabled(s)
    ensures s.time > 0
    ensures Adjust(s, unit, dir).time == s.time + Delta(unit, dir)
  {
  }

  /** Edit Time and Set Time only flip `isEditTime`: entering and leaving
      edit mode from a settled state keeps the count. */
  lemma EditToggleKeepsCount(s: State)
    requires Inv(s) && EditEnabled(s)
    ensures Step(s, EditClick) == s.(isEditTime := !s.isEditTime)
  {
  }

  /** Reset ends at 1500 whatever the count was; Stop Alarm also silences the
      alarm and touches neither of the other two flags. */
  lemma ResetAndStopAlarm(s: State)
    requires ModesExclusive(s)
    ensures ResetEnabled(s) ==> Step(s, ResetClick) == s.(time := INITIAL_TIME)
    ensures StopAlarmEnabled(s) ==>
              Step(s, StopAlarmClick) == s.(time := INITIAL_TIME, isAlarmPlaying := false)
  {
  }

  /** Start and Stop never change the count, so stopping keeps what is
      left. */
  lemma StartStopKeepsCount(s: State)
    requires Inv(s) && StartStopEnabled(s)
    ensures Step(s, StartStopClick) == s.(isActive := !s.isActive)
  {
  }
}
