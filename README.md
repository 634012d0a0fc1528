# Pomodoro countdown timer: a Dafny model

The program is a single React component, `App` in `src/App.tsx`. It is a
countdown timer with an alarm. Its state is four cells:

- `time`: the remaining seconds, initially `INITIAL_TIME = 1500`
- `isActive`
- `isEditTime`
- `isAlarmPlaying`

Four buttons change the cells: Start/Stop, Reset, Stop Alarm and Edit Time/Set Time.
While editing, six arrow buttons call `handleEditTime` to move the count by one
hour, minute or second. A one-second interval counts down while active. An effect
runs after every change of `time`, `isEditTime` or `isActive`, and settles the state:

- while editing, it replaces a count at or below zero by 1500;
- while active, it turns a count at or below zero into the alarm.

The face shows hours, minutes and seconds derived from `time`.

The model has three modules:

- `Clock` (`clock.dfy`) derives the three digits. It follows the source's
  floating-point expressions exactly on real numbers: a division, JavaScript's
  `%` (the result has the sign of the dividend) and `Math.floor`. It proves their
  bounds and their integer form for non-negative counts. Below one day the digits
  recompose the count. From one day on, the hours wrap modulo 24.
- `TimerMachine` (`timer_machine.dfy`) is the component as a pure state machine.
  `State` holds the four cells. There is one function per handler, one for the
  interval body (`Tick`) and one for the effect (`Settle`). `Step` is an event
  followed by the effect. `Run` replays a sequence of events and stops with
  `None` at the first event whose control is disabled. The lemmas prove these:
  - the invariant of settled states;
  - the mode table;
  - the full countdown into the alarm;
  - three click-by-click scenarios (pause and reset, edit one minute up, full countdown).
- `App` (`app.dfy`) is the component as an object. Class `Timer` has the four
  cells as fields. Each handler, the interval body and the effect is a method
  that updates them in place, with the button's enablement as its `requires`.
  Each method's `ensures` ties the new cells to the matching `TimerMachine`
  function of the old ones. `Handle` runs one event and then `Settle`, as React
  does, and keeps the invariant.

The invariant of every settled state is `TimerMachine.Inv`:

- at most one of `isActive`, `isEditTime` and `isAlarmPlaying` is set;
- `time >= 0`;
- `time == 0` exactly while the alarm rings.

One consequence is that `handleEditTime`'s `time === 0` guard never fires from a
settled state. A settled editing state always has a positive count. While editing,
a count only goes to zero or below between an adjust click and the effect that
follows it. Outside editing, the count reaches zero only through a tick, and the
effect then turns that state into the alarm.

Two behaviours of the code are easy to misread:

- Reset is enabled whenever the timer is neither active nor alarming
  (`src/App.tsx:215`). That includes editing, so Reset keeps the current mode.
- "Set Time" does not itself reset a non-positive count. The effect does that
  whenever editing is on. A settled editing state never has such a count, so
  leaving edit mode keeps the edited value (`EditToggleKeepsCount`).

## Model

| member | source | states |
|---|---|---|
| `Clock.FloatRem` | src/App.tsx:13-15 | JavaScript's `%` for a positive divisor: the dividend less a whole multiple of the divisor, with the sign of the dividend and a magnitude below the divisor, which fixes the value |
| `Clock.Hours` | src/App.tsx:13 | the hours digit is in `[0, 24)` for a non-negative count and in `[-24, 0]` for a negative one |
| `Clock.Minutes` | src/App.tsx:14 | the minutes digit is in `[0, 60)` for a non-negative count and in `[-60, 0]` for a negative one |
| `Clock.Seconds` | src/App.tsx:15 | the seconds digit is in `[0, 60)` for a non-negative count and in `[-60, 0]` for a negative one |
| `Clock.DigitsOfNonNegative` | src/App.tsx:13-15 | for a non-negative count the float expressions equal `(t / 3600) % 24`, `(t / 60) % 60` and `t % 60` on integers |
| `Clock.DigitsRecompose` | src/App.tsx:13-15 | below 86400 s, `hours * 3600 + minutes * 60 + seconds` is the count |
| `Clock.DigitsWrapDaily` | src/App.tsx:13-15 | for any non-negative count the digits recompose the count modulo 86400, so the hours wrap modulo 24 |
| `TimerMachine.AdjustedTime` | src/App.tsx:21-30 | an adjust updater moves the count by exactly ±3600 for hours, ±60 for minutes and ±1 for seconds, upward exactly for `"inc"`, with no bound |
| `TimerMachine.TickedTime` | src/App.tsx:75 | the tick updater never yields a negative count; a positive count drops by exactly one; zero or less becomes zero |
| `TimerMachine.Adjust` | src/App.tsx:17-33 | `handleEditTime` changes nothing at all on a zero count; otherwise the count moves by the unit's signed size and the three flags are unchanged |
| `TimerMachine.Settle` | src/App.tsx:41-51 | the effect leaves a positive count while editing, with 1500 in place of a non-positive one, and otherwise keeps the count; it raises the alarm and clears `isActive` on a non-positive count while active, and otherwise keeps both flags; `isEditTime` never changes |
| `TimerMachine.ApplyKeepsModesExclusive` | src/App.tsx:201-237 | the four `disabled` guards and the editing-only arrows keep at most one mode flag set across every handler |
| `TimerMachine.SettleKeepsModesExclusive` | src/App.tsx:45-47 | the alarm is raised only together with clearing `isActive`, so the effect keeps the flags exclusive |
| `TimerMachine.SettleIdempotent` | src/App.tsx:41-51 | a second run of the effect on the cells it has just set changes nothing |
| `TimerMachine.InitialInv` | src/App.tsx:7-10 | the initial cells (1500, all flags clear) satisfy the invariant and are the Idle mode |
| `TimerMachine.StepKeepsInv` | src/App.tsx:41-51 | every enabled event followed by the effect preserves the invariant |
| `TimerMachine.RunKeepsInv` | src/App.tsx:201-237 | every state that any sequence of enabled events reaches from an invariant state satisfies the invariant |
| `TimerMachine.ReachableInv` | src/App.tsx:7-10 | every state reachable from a fresh timer satisfies the invariant |
| `TimerMachine.ModeTransitions` | src/App.tsx:201-237 | the mode table: Start/Stop flips Idle and Running; Reset keeps the mode; Stop Alarm ends Idle; Edit/Set flips Idle and Editing; an adjust stays Editing; a tick stays Running, or reaches Alarming from one second left |
| `TimerMachine.TickStep` | src/App.tsx:74-76 | a settled tick while running takes off exactly one second, and from one second left it yields count 0 with the alarm on and the timer stopped |
| `TimerMachine.CountdownRunning` | src/App.tsx:74-76 | fewer ticks than the count leave the timer running, lowered by exactly that many seconds |
| `TimerMachine.CountdownToAlarm` | src/App.tsx:45-47 | as many ticks as the count end at count 0, alarm ringing, not active, not editing |
| `TimerMachine.NoTickAfterAlarm` | src/App.tsx:73-79 | once the alarm is raised no further tick is available |
| `TimerMachine.StartThenFullCountdown` | src/App.tsx:4 | from a fresh timer, Start and 1500 ticks end at count 0 with the alarm on and the timer stopped |
| `TimerMachine.PauseKeepsCountThenReset` | src/App.tsx:201-218 | Start, five ticks and Stop leave an idle timer at 1495; a Reset then restores the initial state |
| `TimerMachine.EditOneMinuteUp` | src/App.tsx:231-237 | Edit, one minute up and Set leave an idle timer at 1560 |
| `TimerMachine.AdjustRoundTrip` | src/App.tsx:19-30 | one unit up and then down, or down and then up, restores the state when neither click meets a zero count |
| `TimerMachine.ZeroGuardIdleWhenSettled` | src/App.tsx:19 | in a settled editing state the count is positive, so an adjust always moves it by one unit |
| `TimerMachine.EditToggleKeepsCount` | src/App.tsx:231-237 | from a settled state, Edit Time and Set Time only flip `isEditTime`: the count and the other flags are kept |
| `TimerMachine.ResetAndStopAlarm` | src/App.tsx:210-227 | an enabled Reset yields count 1500 and changes no flag; an enabled Stop Alarm yields count 1500 and clears only the alarm flag |
| `TimerMachine.StartStopKeepsCount` | src/App.tsx:201-209 | Start/Stop only flips `isActive`: the count is kept, so stopping preserves what is left |
| `App.Timer.Face` | src/App.tsx:13-15 | on every render, for a non-negative count, the three digits are in range and recompose the count modulo a day |
| `App.Timer.constructor` | src/App.tsx:7-10 | a new timer holds the initial cells and satisfies the invariant |
| `App.Timer.ToggleStartStop` | src/App.tsx:201-209 | enabled unless editing or alarming; flips `isActive` only |
| `App.Timer.Reset` | src/App.tsx:210-218 | enabled unless active or alarming; sets the count to 1500 only |
| `App.Timer.StopAlarm` | src/App.tsx:219-230 | enabled only while alarming; sets the count to 1500 and clears the alarm flag only |
| `App.Timer.ToggleEdit` | src/App.tsx:231-237 | enabled unless active or alarming; flips `isEditTime` only |
| `App.Timer.EditTime` | src/App.tsx:17-33 | available while editing; the new cells are `Adjust` of the old ones |
| `App.Timer.Tick` | src/App.tsx:74-76 | available while active; the new count is `TickedTime` of the old one, flags unchanged |
| `App.Timer.Settle` | src/App.tsx:41-51 | the new cells are `Settle` of the old ones, both tests reading the cells as they were before |
| `App.Timer.Handle` | src/App.tsx:201-237 | one enabled event followed by the effect yields `Step` of the old cells and keeps the invariant |
| `App.EditScenario` | src/App.tsx:17-33 | a caller driving a `Timer` through Edit, one minute up and Set ends idle at 1560 |

## Left out

- Rendering (`src/App.tsx:86-240`): layout, labels and styling. This includes the
  arrow glyphs: the button showing ⬆ calls `"dec"`. Only the effect of each
  button is modelled, not which glyph it carries.
- The `Audio` object (`src/App.tsx:11`, `48`, `53-68`, `221-222`): `play`,
  `pause`, rewinding `currentTime` and the `"ended"` listener that restarts
  playback. These are browser calls. The alarm is reduced to the
  `isAlarmPlaying` flag.
- `handleAlarmLoop` (`src/App.tsx:35-39`): it is defined but never used, so it
  has no effect.
- `setInterval`/`clearInterval` scheduling and clean-up (`src/App.tsx:70-84`).
  The tick is an explicit event, available exactly while `isActive` holds.
  Nothing about real time or delays is modelled.
- React's hook machinery: `useState`, `useCallback` dependency lists, render
  scheduling and batching. The model runs the effect once after every event.
  `SettleIdempotent` shows that a further run would change nothing.
- Floating point: `time` is a JavaScript number. The model treats it as an
  unbounded integer and computes the digits on exact reals. Rounding near 2^53
  is not modelled.
- `Clock.Hours`, `Clock.Minutes`, `Clock.Seconds`: for a negative count only
  the sign and a bound are stated. Negative counts exist only between an adjust
  click and the effect, and the effect always replaces them.
