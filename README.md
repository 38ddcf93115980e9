# Pomodoro timer — a Dafny model of its countdown

`PomodoroTimer.java` is a single Swing window: two text fields for study and
break minutes, Start / Stop / Resume buttons, a `Timer: MM:SS` label and a
one-second `javax.swing.Timer` whose callback counts `remainingSeconds` down
and, once it has reached zero, flips between the study phase and the break
phase with a message dialog. This project models that countdown state machine
and proves what it does.

- `java_int.dfy`, module `JavaInt`: Java `int` range, the two's-complement
  wrap of `minutes * 60`, and the truncating `/ 60`, `% 60` split.
- `java_text.dfy`, module `JavaText`: a decimal parser standing in for
  `Integer.parseInt` (optional `-`/`+`, at least one digit, `int` range,
  otherwise `None` for `NumberFormatException`), decimal printing, and the
  `%02d` padding of the label, with round-trip lemmas.
- `timer_logic.dfy`, module `TimerLogic`: the countdown as a value
  (`Countdown`: remaining seconds, phase, and the minutes the callback
  captured), `Step` (one callback run), `Run` (k runs), the dialogs a run
  shows, the label text, and lemmas: the invariant ticks keep, how many ticks a
  phase lasts, that the cycle returns to the Start state, that the label reads
  back as the count.
- `pomodoro.dfy`, module `Pomodoro`: class `PomodoroTimer` with the fields the
  listeners and the callback update (`remainingSeconds`, `onBreak`, whether
  the timer exists and runs, the captured minutes, the two enabled flags, the
  label text, the dialogs shown). Start, Stop, Resume, `startTimer`, the tick
  callback and `updateTimerLabel` are methods. `Tick` is specified by
  `Step`. Start, Stop, Resume and Tick keep `Valid()`, which ties the enabled
  flags to the timer's state (Stop enabled exactly while running, Resume
  exactly while a stopped timer exists). `StartTimer` is the private helper
  that Start calls after resetting the count; it does not keep `Valid()` on
  its own.

What the code does, and the model follows, where a reader might expect a
Pomodoro timer to behave otherwise:

- Zero and negative minutes are accepted: only text that does not parse is
  rejected. A negative count flips the phase on the very next tick, so the
  count is not always non-negative. The invariant that does hold is
  `InPhase`: the count never exceeds the current phase's length, and is
  negative only while it still equals that (negative) length.
- `minutes * 60` is 32-bit arithmetic and wraps for large minute values.
- The phase flips on the tick after the count reaches 0: a phase of `n >= 0`
  seconds lasts `n + 1` ticks.
- A phase flip reloads the minutes captured at the last successful Start, not
  the current field text.
- The label is refreshed only on a decrement, never at Start or on a flip.

## Model

| member | source | states |
|---|---|---|
| JavaInt.Wrap | PomodoroTimer.java:100 | the result of an `int` operation is the unique `int` congruent to the exact value modulo 2^32, and equals it when it fits |
| JavaInt.Split | PomodoroTimer.java:171-173 | `r / 60` and `r % 60` recombine to `r`; the remainder lies in 0..59 for a non-negative `r` and in -59..0 for a negative one (truncation toward zero) |
| JavaInt.SplitUnique | PomodoroTimer.java:172-173 | those properties determine minutes and seconds uniquely |
| JavaText.ParseInt | PomodoroTimer.java:97-98 | a parsed value is a Java `int`; the empty text, a lone sign, and anything but an optional sign followed by at least one digit is the `NumberFormatException` case |
| JavaText.ParseSignedDigits | PomodoroTimer.java:97-98 | text made of an optional `+` or `-` and at least one digit (leading zeros allowed) parses to the value it denotes when that is an `int`, and is rejected when it is out of range |
| JavaText.ParseShowInt | PomodoroTimer.java:97-98 | every `int`, printed in decimal, parses back to itself |
| JavaText.Pad2 | PomodoroTimer.java:174 | `%02d` of a non-negative number is all digits, at least two of them, exactly two below 100, and begins with a padding `0` exactly below 10 |
| JavaText.ParsePad2 | PomodoroTimer.java:174 | the zero-padded field reads back as the number it shows |
| TimerLogic.Seconds | PomodoroTimer.java:155 | `minutes * 60` is an `int`, equal to the exact product whenever that fits and congruent to it modulo 2^32 otherwise |
| TimerLogic.Started | PomodoroTimer.java:100-101 | a successful Start leaves the study phase at its full length (study minutes times 60) with both minute values captured, which satisfies the countdown invariant `InPhase` |
| TimerLogic.Step | PomodoroTimer.java:149-161 | one callback run never changes the captured minutes, keeps `InPhase`, and flips the phase exactly when the count is not positive; its exact effect over many runs is stated by `CountsDown` and `FlipsAfterPhase` |
| TimerLogic.Emitted | PomodoroTimer.java:153-158 | a run shows at most one dialog, exactly when it flips the phase: "Time for a break!" when flipping to the break, "Break is over! Back to study." when flipping back |
| TimerLogic.RunKeepsInvariant | PomodoroTimer.java:146-161 | any number of ticks keeps `InPhase` and never changes the captured study and break minutes |
| TimerLogic.CountsDown | PomodoroTimer.java:149-151 | from a count `n`, each of the first `n` ticks subtracts exactly one and keeps the phase |
| TimerLogic.FlipsAfterPhase | PomodoroTimer.java:149-160 | a phase that begins at `n >= 0` seconds keeps its phase and shows no dialog for `n` ticks; tick `n + 1` shows the other phase's dialog, flips the phase and reloads the other phase's captured minutes times 60; a phase that begins negative does all this on its first tick (`PhaseTicks` is the definition of that tick count) |
| TimerLogic.FullCycle | PomodoroTimer.java:141-161 | after one study phase and one break phase the countdown is exactly the state Start left |
| TimerLogic.TwentyFiveFive | PomodoroTimer.java:100-103 | with 25 and 5 minutes, 1500 ticks reach 0 in the study phase and the 1501st shows "Time for a break!" and starts a 300-second break |
| TimerLogic.Label | PomodoroTimer.java:172-174 | the label starts with `Timer: ` and has `:` before the last two characters; `LabelReadsBack` states what the two fields show |
| TimerLogic.LabelReadsBack | PomodoroTimer.java:171-174 | the label of every non-negative `int` count satisfies `ReadsBackAs`: it is `Timer: ` then two fields separated by `:`, which parse back as whole minutes and 0..59 seconds recombining to the count |
| Pomodoro.PomodoroTimer.constructor | PomodoroTimer.java:71-83 | a new window has no timer, Stop and Resume disabled, count 0 in the study phase, label `Timer: 00:00` |
| Pomodoro.PomodoroTimer.Start | PomodoroTimer.java:93-108 | if both fields parse: study phase, count = study minutes times 60, a new running timer holding the parsed minutes, Stop on, Resume off; if either fails: only the error dialog is added, everything else unchanged |
| Pomodoro.PomodoroTimer.StartTimer | PomodoroTimer.java:141-169 | stops any old timer and installs a running one that captured the given minutes, Stop on, Resume off, count and phase untouched |
| Pomodoro.PomodoroTimer.Stop | PomodoroTimer.java:110-119 | with a timer: halted, Stop off, Resume on, count and phase kept; before any Start: nothing changes |
| Pomodoro.PomodoroTimer.Resume | PomodoroTimer.java:121-130 | with a timer: running again from the kept count, Stop on, Resume off; before any Start: nothing changes |
| Pomodoro.PomodoroTimer.Tick | PomodoroTimer.java:146-164 | the countdown advances by `Step`, the flip's dialog is appended, the label changes only on a decrement and then shows the new count, the invariant is kept |
| Pomodoro.PomodoroTimer.UpdateTimerLabel | PomodoroTimer.java:171-175 | the label shows the current count as `Timer: MM:SS` |

## Left out

- Window layout, fonts, colours, the tomato image and `styleButton`: presentation only.
- Message dialogs are not modal windows here: each one is appended to the `notices` list.
- The `javax.swing.Timer` clock, its initial delay and the event-dispatch thread: each firing is an explicit `Tick` call, and seconds that pass while the timer is stopped are simply no calls. A partial second lost by stopping and resuming is not modelled.
- Pomodoro.PomodoroTimer.Tick: requires a running timer, because the Swing timer only fires its callback while running.
- JavaText.ParseInt: accepts only the ASCII digits `0`-`9`, whereas `Integer.parseInt` also accepts the other Unicode decimal digits.
- JavaText.Pad2: uses the ASCII digits, whereas `String.format` uses the default locale's digits.
- TimerLogic.Label and Pomodoro.PomodoroTimer.UpdateTimerLabel: defined for a non-negative count only, the only case the label's one caller reaches.
- `main` and the window's creation on the event thread.
