/** The countdown the timer's one-second callback runs, as a value: the remaining
    seconds, the phase, and the study and break minutes the callback captured
    when the last successful Start created it. The window class in module
    Pomodoro keeps this value in its fields; `Step` is what one callback does. */
module TimerLogic {
  import opened JavaInt
  import opened JavaText

  const BreakNotice: string := "Time for a break!"
  const StudyNotice: string := "Break is over! Back to study."
  const InvalidInputNotice: string := "Please enter valid numbers."

  datatype Countdown = Countdown(remaining: int, onBreak: bool, studyMinutes: int, breakMinutes: int)

  /** Java `minutes * 60` on `int`: exact while the product fits, wrapped otherwise. */
  function Seconds(minutes: int): (r: int)
    ensures IsInt32(r)
    ensures IsInt32(minutes * 60) ==> r == minutes * 60
    ensures (r - minutes * 60) % Modulus == 0
  {
    Wrap(minutes * 60)
  }

  /** The countdown right after a successful Start with `study` and `brk` minutes. */
  function Started(study: int, brk: int): (c: Countdown)
    ensures !c.onBreak && c.remaining == PhaseLength(c) && InPhase(c)
    ensures c.studyMinutes == study && c.breakMinutes == brk
  {
    Countdown(Seconds(study), false, study, brk)
  }

  /** How long the current phase was when it began: the captured minutes of that
      phase, in seconds. */
  function PhaseLength(c: Countdown): int {
    Seconds(if c.onBreak then c.breakMinutes else c.studyMinutes)
  }

  /** The invariant of every reachable countdown: it never exceeds its phase's
      length, and it is negative only when the phase itself began negative (the
      code accepts negative minutes) and no tick has happened since. */
  predicate InPhase(c: Countdown) {
    c.remaining <= PhaseLength(c) && (c.remaining < 0 ==> c.remaining == PhaseLength(c))
  }

  /** One run of the timer's callback: count down while positive; otherwise flip
      the phase and reload the other phase's captured minutes. */
  function Step(c: Countdown): (r: Countdown)
    ensures r.studyMinutes == c.studyMinutes && r.breakMinutes == c.breakMinutes
    ensures InPhase(c) ==> InPhase(r)
    ensures r.onBreak != c.onBreak <==> c.remaining <= 0
  {
    if c.remaining > 0 then c.(remaining := c.remaining - 1)
    else if !c.onBreak then c.(remaining := Seconds(c.breakMinutes), onBreak := true)
    else c.(remaining := Seconds(c.studyMinutes), onBreak := false)
  }

  /** The message dialogs one run of the callback shows: one exactly when that
      run flips the phase, announcing the phase it flips to. */
  function Emitted(c: Countdown): (r: seq<string>)
    ensures |r| <= 1
    ensures r != [] <==> Step(c).onBreak != c.onBreak
    ensures r != [] ==> r[0] == (if Step(c).onBreak then BreakNotice else StudyNotice)
  {
    if c.remaining > 0 then []
    else if !c.onBreak then [BreakNotice]
    else [StudyNotice]
  }

  /** `k` consecutive runs of the callback. */
  function Run(c: Countdown, k: nat): Countdown
    decreases k
  {
    if k == 0 then c else Run(Step(c), k - 1)
  }

  /** How many ticks a phase that starts at `r` seconds lasts: the flip comes on
      the tick after the count reaches 0, and at once when it starts negative. */
  function PhaseTicks(r: int): nat {
    if r >= 0 then r + 1 else 1
  }

  lemma {:induction false} RunAdditive(c: Countdown, a: nat, b: nat)
    ensures Run(c, a + b) == Run(Run(c, a), b)
    decreases a
  {
    if a > 0 {
      RunAdditive(Step(c), a - 1, b);
    }
  }

  /** Ticks never change the captured minutes, and they keep the invariant. */
  lemma {:induction false} RunKeepsInvariant(c: Countdown, k: nat)
    requires InPhase(c)
    ensures InPhase(Run(c, k))
    ensures Run(c, k).studyMinutes == c.studyMinutes
    ensures Run(c, k).breakMinutes == c.breakMinutes
    decreases k
  {
    if k > 0 {
      RunKeepsInvariant(Step(c), k - 1);
    }
  }

  /** While the count is still non-negative, each tick takes exactly one second
      off it and the phase stays. */
  lemma {:induction false} CountsDown(c: Countdown, k: nat)
    requires k <= c.remaining
    ensures Run(c, k) == c.(remaining := c.remaining - k)
    decreases k
  {
    if k > 0 {
      CountsDown(c, k - 1);
      RunAdditive(c, k - 1, 1);
    }
  }

  /** Before its last tick a phase neither flips nor shows a dialog. */
  lemma {:induction false} QuietWithinPhase(c: Countdown, k: nat)
    requires k < PhaseTicks(c.remaining) - 1
    ensures Run(c, k) == c.(remaining := c.remaining - k)
    ensures Emitted(Run(c, k)) == []
  {
    CountsDown(c, k);
  }

  /** A phase that begins at `n >= 0` seconds is at 0 after `n` ticks, and its
      next tick is the one that flips it. */
  lemma LastTickOfPhase(c: Countdown)
    requires c.remaining >= 0
    ensures Run(c, c.remaining) == c.(remaining := 0)
    ensures Run(c, c.remaining + 1) == Step(c.(remaining := 0))
  {
    CountsDown(c, c.remaining);
    RunAdditive(c, c.remaining, 1);
  }

  /** All ticks of a phase but its last keep the phase and show nothing. */
  lemma QuietPhase(c: Countdown)
    ensures forall k :: 0 <= k < PhaseTicks(c.remaining) - 1 ==>
      Run(c, k).onBreak == c.onBreak && Emitted(Run(c, k)) == []
  {
    forall k | 0 <= k < PhaseTicks(c.remaining) - 1
      ensures Run(c, k).onBreak == c.onBreak && Emitted(Run(c, k)) == []
    {
      QuietWithinPhase(c, k);
    }
  }

  /** The last tick of a phase still sees the phase, at a count that is not
      positive, and leaves the other phase at its full length. */
  lemma PhaseEnds(c: Countdown)
    ensures Run(c, PhaseTicks(c.remaining) - 1).onBreak == c.onBreak
    ensures Run(c, PhaseTicks(c.remaining) - 1).remaining <= 0
    ensures Run(c, PhaseTicks(c.remaining)) ==
      c.(onBreak := !c.onBreak,
         remaining := Seconds(if c.onBreak then c.studyMinutes else c.breakMinutes))
  {
    if c.remaining >= 0 {
      LastTickOfPhase(c);
    }
  }

  /** A phase of `n >= 0` seconds keeps its phase, silently, for `n` ticks and
      the next one flips it with the other phase's dialog, reloading that
      phase's captured minutes; a negative phase does so on its first tick. */
  lemma FlipsAfterPhase(c: Countdown)
    ensures forall k :: 0 <= k < PhaseTicks(c.remaining) - 1 ==>
      Run(c, k).onBreak == c.onBreak && Emitted(Run(c, k)) == []
    ensures Run(c, PhaseTicks(c.remaining) - 1).onBreak == c.onBreak
    ensures Emitted(Run(c, PhaseTicks(c.remaining) - 1)) ==
      (if c.onBreak then [StudyNotice] else [BreakNotice])
    ensures Run(c, PhaseTicks(c.remaining)) ==
      c.(onBreak := !c.onBreak,
         remaining := Seconds(if c.onBreak then c.studyMinutes else c.breakMinutes))
  {
    QuietPhase(c);
    PhaseEnds(c);
  }

  /** The two phases alternate for ever: after one study phase and one break
      phase the countdown is exactly where the Start left it. */
  lemma FullCycle(study: int, brk: int)
    ensures Run(Started(study, brk), PhaseTicks(Seconds(study)) + PhaseTicks(Seconds(brk)))
      == Started(study, brk)
  {
    var c := Started(study, brk);
    FlipsAfterPhase(c);
    var d := Run(c, PhaseTicks(Seconds(study)));
    FlipsAfterPhase(d);
    RunAdditive(c, PhaseTicks(Seconds(study)), PhaseTicks(Seconds(brk)));
  }

  /** A 25-minute study and 5-minute break: 1500 ticks bring the study phase to
      00:00, and the next one starts the 300-second break. */
  lemma TwentyFiveFive()
    ensures Run(Started(25, 5), 1500) == Countdown(0, false, 25, 5)
    ensures Run(Started(25, 5), 1501) == Countdown(300, true, 25, 5)
    ensures Emitted(Run(Started(25, 5), 1500)) == [BreakNotice]
  {
    assert Started(25, 5) == Countdown(1500, false, 25, 5);
    CountsDown(Started(25, 5), 1500);
    RunAdditive(Started(25, 5), 1500, 1);
  }

  /** The text of the label, `Timer: MM:SS`, for a non-negative count. */
  function Label(r: int): (t: string)
    requires r >= 0
    ensures |t| >= 12 && t[..7] == "Timer: " && t[|t| - 3] == ':'
  {
    "Timer: " + Pad2(Split(r).0) + ":" + Pad2(Split(r).1)
  }

  /** `t` is a label that shows `r`: `Timer: `, a minutes field, `:` and a
      two-character seconds field, where the fields parse back as whole minutes
      and 0..59 leftover seconds that recombine to `r`. */
  predicate ReadsBackAs(t: string, r: int) {
    |t| >= 12 && t[..7] == "Timer: " && t[|t| - 3] == ':' &&
    var minutes, seconds := ParseInt(t[7..|t| - 3]), ParseInt(t[|t| - 2..]);
    minutes.Some? && seconds.Some? &&
    0 <= seconds.value < 60 && minutes.value * 60 + seconds.value == r
  }

  /** The label shows the count faithfully: its two fields read back as the
      whole minutes and the leftover seconds of `r`. */
  lemma LabelReadsBack(r: int)
    requires 0 <= r <= MaxInt
    ensures ReadsBackAs(Label(r), r)
  {
    var m, s := Split(r).0, Split(r).1;
    ParsePad2(m);
    ParsePad2(s);
    FieldsReadBack(Pad2(m), Pad2(s), m, s, r);
  }

  /** A label built from two fields that parse as the minutes and seconds of
      `r` reads back as `r`. */
  lemma FieldsReadBack(mm: string, ss: string, m: int, s: int, r: int)
    requires |mm| >= 2 && |ss| == 2
    requires ParseInt(mm) == Some(m) && ParseInt(ss) == Some(s)
    requires 0 <= s < 60 && m * 60 + s == r
    ensures ReadsBackAs("Timer: " + mm + ":" + ss, r)
  {
    LabelFields(mm, ss);
  }

  /** Where the two fields sit in a label built from them. */
  lemma LabelFields(mm: string, ss: string)
    requires |mm| >= 2 && |ss| == 2
    ensures var t := "Timer: " + mm + ":" + ss;
      |t| >= 12 && t[..7] == "Timer: " && t[|t| - 3] == ':' &&
      t[7..|t| - 3] == mm && t[|t| - 2..] == ss
  {
  }
}
