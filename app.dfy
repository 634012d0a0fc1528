/** The `App` component as an object: its four state cells are fields,
    each click handler, the interval callback and the settling effect is a
    method that updates them in place.  Each method is specified by the
    matching function of `TimerMachine`, whose lemmas carry the properties. */
module App {
  import opened TimerMachine
  import Clock

  class Timer {
    var time: int
    var isActive: bool
    var isEditTime: bool
    var isAlarmPlaying: bool

    /** The four cells as a value. */
    function Cells(): State
      reads this
    {
      State(time, isActive, isEditTime, isAlarmPlaying)
    }

    ghost predicate Valid()
      reads this
    {
      Inv(Cells())
    }

    /** The three digits on the face, derived on every render; for a count
        that is not negative they are in range and show it modulo a day. */
    function Face(): (face: (int, int, int))
      reads this
      ensures time >= 0 ==> 0 <= face.0 < Clock.HoursPerDay
      ensures time >= 0 ==> 0 <= face.1 < Clock.SecondsPerMinute && 0 <= face.2 < Clock.SecondsPerMinute
      ensures time >= 0 ==>
                face.0 * Clock.SecondsPerHour + face.1 * Clock.SecondsPerMinute + face.2
                == time % Clock.SecondsPerDay
    {
      var digits := (Clock.Hours(time), Clock.Minutes(time), Clock.Seconds(time));
      if time >= 0 then Clock.DigitsWrapDaily(time); digits else digits
    }

    constructor ()
      ensures Cells() == Initial() && Valid()
    {
      time := INITIAL_TIME;
      isActive := false;
      isEditTime := false;
      isAlarmPlaying := false;
    }

    /** The Start/Stop button. */
    method ToggleStartStop()
      requires !(isEditTime || isAlarmPlaying)
      modifies this
      ensures Cells() == StartStop(old(Cells()))
    {
      isActive := !isActive;
    }

    /** The Reset button. */
    method Reset()
      requires !(isActive || isAlarmPlaying)
      modifies this
      ensures Cells() == TimerMachine.Reset(old(Cells()))
    {
      time := INITIAL_TIME;
    }

    /** The Stop Alarm button (the audio it pauses and rewinds is not part
        of the model). */
    method StopAlarm()
      requires isAlarmPlaying
      modifies this
      ensures Cells() == TimerMachine.StopAlarm(old(Cells()))
    {
      time := INITIAL_TIME;
      isAlarmPlaying := false;
    }

    /** The Edit Time / Set Time button. */
    method ToggleEdit()
      requires !(isActive || isAlarmPlaying)
      modifies this
      ensures Cells() == EditToggle(old(Cells()))
    {
      isEditTime := !isEditTime;
    }

    /** `handleEditTime`, behind the arrow buttons shown while editing. */
    method EditTime(unit: Unit, dir: Direction)
      requires isEditTime
      modifies this
      ensures Cells() == Adjust(old(Cells()), unit, dir)
    {
      if time == 0 {
        return;
      }
      time := AdjustedTime(time, unit, dir);
    }

    /** The body of the one-second interval, which runs only while active. */
    method Tick()
      requires isActive
      modifies this
      ensures Cells() == TimerMachine.Tick(old(Cells()))
    {
      time := TickedTime(time);
    }

    /** The effect on `[time, isEditTime, isActive]`; both tests see the
        cells as they were before either update. */
    method Settle()
      modifies this
      ensures Cells() == TimerMachine.Settle(old(Cells()))
    {
      var t, editing, active := time, isEditTime, isActive;
      if editing && t <= 0 {
        time := INITIAL_TIME;
      }
      if active && t <= 0 {
        isAlarmPlaying := true;
        isActive := false;
      }
    }

    /** One event followed by the effect, as React runs them; the invariant
        survives every event the interface offers. */
    method Handle(e: Event)
      requires Valid() && Enabled(Cells(), e)
      modifies this
      ensures Valid()
      ensures Cells() == Step(old(Cells()), e)
    {
      StepKeepsInv(Cells(), e);
      match e {
        case StartStopClick => ToggleStartStop();
        case ResetClick => Reset();
        case StopAlarmClick => StopAlarm();
        case EditClick => ToggleEdit();
        case AdjustClick(unit, dir) => EditTime(unit, dir);
        case TickFired => Tick();
      }
      Settle();
    }
  }

  /** A caller's view: edit, one minute up, set. */
  method EditScenario() returns (time: int, idle: bool)
    ensures time == 1560 && idle
  {
    var timer := new Timer();
    timer.Handle(EditClick);
    timer.Handle(AdjustClick(Mins, Inc));
    timer.Handle(EditClick);
    time := timer.time;
    idle := ModeOf(timer.Cells()) == Idle;
  }
}
