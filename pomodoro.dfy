/** The `PomodoroTimer` window with its layout taken away: the fields its button
    listeners and its timer callback update, and those listeners and that callback
    as methods. The Swing timer is reduced to whether it exists and whether it is
    running; each of its one-second firings is a call of `Tick`. */
module Pomodoro {
  import opened JavaInt
  import opened JavaText
  import opened TimerLogic

  class PomodoroTimer {
    var remainingSeconds: int
    var onBreak: bool
    /** `timer != null` */
    var hasTimer: bool
    /** `timer.isRunning()` */
    var running: bool
    /** The minutes the current timer's callback captured when it was created. */
    var studyMinutes: int
    var breakMinutes: int
    var stopEnabled: bool
    var resumeEnabled: bool
    /** The text of `timerLabel`. */
    var labelText: string
    /** The message dialogs shown so far, oldest first. */
    var notices: seq<string>

    ghost function State(): Countdown
      reads this
    {
      Countdown(remainingSeconds, onBreak, studyMinutes, breakMinutes)
    }

    /** What every listener and every tick keeps: the countdown invariant, the
        captured minutes are Java `int`s, only an existing timer runs, Stop is
        enabled exactly while the timer runs and Resume exactly while a timer
        exists and is stopped. */
    ghost predicate Valid()
      reads this
    {
      InPhase(State()) && IsInt32(studyMinutes) && IsInt32(breakMinutes) &&
      (running ==> hasTimer) &&
      stopEnabled == running &&
      resumeEnabled == (hasTimer && !running)
    }

    /** The window as it opens: no timer, both Stop and Resume disabled, the
        label at `Timer: 00:00`, `remainingSeconds` at Java's default 0 and
        the study phase. */
    constructor ()
      ensures Valid()
      ensures remainingSeconds == 0 && !onBreak
      ensures !hasTimer && !running && !stopEnabled && !resumeEnabled
      ensures labelText == Label(0) && labelText == "Timer: 00:00"
      ensures notices == []
    {
      remainingSeconds, onBreak := 0, false;
      hasTimer, running := false, false;
      studyMinutes, breakMinutes := 0, 0;
      stopEnabled, resumeEnabled := false, false;
      labelText := "Timer: 00:00";
      notices := [];
    }

    /** The Start button: parse both fields; if either is not a number, show the
        error dialog and change nothing else. Otherwise reset to the start of a
        study phase and replace any old timer by a new running one that has
        captured the two parsed values. The label is not refreshed. */
    method Start(studyText: string, breakText: string)
      requires Valid()
      modifies this
      ensures Valid()
      ensures labelText == old(labelText)
      ensures
        var study, brk := ParseInt(studyText), ParseInt(breakText);
        if study.Some? && brk.Some? then
          State() == Started(study.value, brk.value) &&
          hasTimer && running && stopEnabled && !resumeEnabled &&
          notices == old(notices)
        else
          State() == old(State()) &&
          hasTimer == old(hasTimer) && running == old(running) &&
          stopEnabled == old(stopEnabled) && resumeEnabled == old(resumeEnabled) &&
          notices == old(notices) + [InvalidInputNotice]
    {
      var study := ParseInt(studyText);
      if study.None? {
        notices := notices + [InvalidInputNotice];
        return;
      }
      var brk := ParseInt(breakText);
      if brk.None? {
        notices := notices + [InvalidInputNotice];
        return;
      }
      remainingSeconds := Seconds(study.value);
      onBreak := false;
      StartTimer(study.value, brk.value);
    }

    /** `startTimer`: stop the old timer if there is one, create a new running
        one whose callback captures `study` and `brk`, enable Stop, disable
        Resume. */
    method StartTimer(study: int, brk: int)
      requires IsInt32(study) && IsInt32(brk)
      modifies this
      ensures hasTimer && running && stopEnabled && !resumeEnabled
      ensures studyMinutes == study && breakMinutes == brk
      ensures remainingSeconds == old(remainingSeconds) && onBreak == old(onBreak)
      ensures labelText == old(labelText) && notices == old(notices)
    {
      // Stopping the old timer cannot be observed here: the model keeps one
      // timer, and the new one replaces it running.
      hasTimer := true;
      studyMinutes, breakMinutes := study, brk;
      running := true;
      stopEnabled := true;
      resumeEnabled := false;
    }

    /** The Stop button: with a timer, halt it, disable Stop and enable Resume;
        before the first Start, nothing. The count and phase are kept. */
    method Stop()
      requires Valid()
      modifies this
      ensures Valid()
      ensures State() == old(State()) && hasTimer == old(hasTimer)
      ensures labelText == old(labelText) && notices == old(notices)
      ensures old(hasTimer) ==> !running && !stopEnabled && resumeEnabled
      ensures !old(hasTimer) ==>
        running == old(running) && stopEnabled == old(stopEnabled) &&
        resumeEnabled == old(resumeEnabled)
    {
      if hasTimer {
        running := false;
        stopEnabled := false;
        resumeEnabled := true;
      }
    }

    /** The Resume button: with a timer, restart it from the kept count, enable
        Stop and disable Resume; before the first Start, nothing. */
    method Resume()
      requires Valid()
      modifies this
      ensures Valid()
      ensures State() == old(State()) && hasTimer == old(hasTimer)
      ensures labelText == old(labelText) && notices == old(notices)
      ensures old(hasTimer) ==> running && stopEnabled && !resumeEnabled
      ensures !old(hasTimer) ==>
        running == old(running) && stopEnabled == old(stopEnabled) &&
        resumeEnabled == old(resumeEnabled)
    {
      if hasTimer {
        running := true;
        stopEnabled := true;
        resumeEnabled := false;
      }
    }

    /** One firing of the running timer: the countdown takes one `Step`, the
        flip shows its dialog, and only a plain decrement refreshes the label. */
    method Tick()
      requires Valid() && running
      modifies this
      ensures Valid()
      ensures State() == Step(old(State()))
      ensures notices == old(notices) + Emitted(old(State()))
      ensures labelText == if old(remainingSeconds) > 0 then Label(remainingSeconds) else old(labelText)
      ensures hasTimer && running && stopEnabled && !resumeEnabled
    {
      if remainingSeconds > 0 {
        remainingSeconds := remainingSeconds - 1;
        UpdateTimerLabel();
      } else if !onBreak {
        notices := notices + [BreakNotice];
        remainingSeconds := Seconds(breakMinutes);
        onBreak := true;
      } else {
        notices := notices + [StudyNotice];
        remainingSeconds := Seconds(studyMinutes);
        onBreak := false;
      }
    }

    /** `updateTimerLabel`: show the count as `Timer: MM:SS`. Its one caller
        runs it right after a decrement from a positive count. */
    method UpdateTimerLabel()
      requires remainingSeconds >= 0
      modifies this`labelText
      ensures labelText == Label(remainingSeconds)
    {
      labelText := Label(remainingSeconds);
    }
  }
}
