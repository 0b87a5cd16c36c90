/** The page's session state as the script keeps it: module-level variables
    updated in place by the timer callback and the three button handlers.
    `Tick`, `ToggleTimer`, `UseClue` and `AddKill` keep `Valid()` and are
    proved to make exactly the transition `SessionModel.Step` describes, so
    the lemmas of `SessionModel` apply to every sequence of these calls.
    `StopTimer` makes the transition `SessionModel.Stop`; `StartTimer` is a
    helper of `ToggleTimer` that only marks the interval live. */
module Session {
  import SessionModel
  import TimeFormat

  /** The text of the play/pause button for a given running state. */
  function ButtonLabel(running: bool): string {
    if running then "Pause" else "Play"
  }

  class GameSession {
    var totalSeconds: int
    var killCount: int
    var isRunning: bool
    /** Whether `timerInterval` holds a repeating timer not yet cleared. */
    var intervalActive: bool
    /** The text of the play/pause button. */
    var buttonLabel: string

    /** The state as a value of the reference model. */
    function Snap(): SessionModel.Snapshot
      reads this
    {
      SessionModel.Snapshot(totalSeconds, killCount, isRunning, intervalActive)
    }

    ghost predicate Valid()
      reads this
    {
      SessionModel.Inv(Snap()) && buttonLabel == ButtonLabel(isRunning)
    }

    /** Page load: a full hour, one kill, the clock stopped and no interval. */
    constructor ()
      ensures Valid()
      ensures Snap() == SessionModel.Initial
    {
      totalSeconds := SessionModel.GameDurationSeconds;
      killCount := 1;
      isRunning := false;
      intervalActive := false;
      buttonLabel := "Play";
    }

    /** stopTimer: clears the interval, marks the clock stopped and labels the
        button "Play"; the time and the kills stay as they were. */
    method StopTimer()
      modifies this
      ensures Snap() == SessionModel.Stop(old(Snap()))
      ensures buttonLabel == "Play"
    {
      intervalActive := false;
      isRunning := false;
      buttonLabel := "Play";
    }

    /** startTimer: schedules the repeating callback.  It may only be called
        with no interval live, so that no interval is started while another
        one is live. */
    method StartTimer()
      requires !intervalActive
      modifies this
      ensures intervalActive
      ensures totalSeconds == old(totalSeconds) && killCount == old(killCount)
      ensures isRunning == old(isRunning) && buttonLabel == old(buttonLabel)
    {
      intervalActive := true;
    }

    /** One second of the clock: when an interval is live its callback runs
        once, counting down a second while time is left and stopping the
        clock once it finds zero. */
    method Tick()
      requires Valid()
      modifies this
      ensures Valid()
      ensures Snap() == SessionModel.Step(old(Snap()), SessionModel.Tick)
      ensures old(isRunning) && old(totalSeconds) > 0 ==>
                totalSeconds == old(totalSeconds) - 1 && isRunning && killCount == old(killCount)
      ensures old(totalSeconds) == 0 ==> totalSeconds == 0 && !isRunning && !intervalActive
    {
      if !intervalActive {
        return;
      }
      if totalSeconds > 0 {
        totalSeconds := totalSeconds - 1;
      } else {
        StopTimer();
      }
    }

    /** toggleTimer: stops a running clock, or starts an interval and marks a
        stopped one running; the time and the kills stay as they were. */
    method ToggleTimer()
      requires Valid()
      modifies this
      ensures Valid()
      ensures Snap() == SessionModel.Step(old(Snap()), SessionModel.Toggle)
      ensures isRunning == !old(isRunning) && intervalActive == isRunning
      ensures totalSeconds == old(totalSeconds) && killCount == old(killCount)
    {
      if isRunning {
        StopTimer();
      } else {
        StartTimer();
        buttonLabel := "Pause";
        isRunning := true;
      }
    }

    /** useClue: takes the penalty off the clock, never going below zero;
        nothing else changes, running or not. */
    method UseClue()
      requires Valid()
      modifies this
      ensures Valid()
      ensures Snap() == SessionModel.Step(old(Snap()), SessionModel.UseClue)
      ensures totalSeconds == SessionModel.Max(0, old(totalSeconds) - SessionModel.CluePenaltySeconds)
      ensures killCount == old(killCount) && isRunning == old(isRunning)
      ensures intervalActive == old(intervalActive) && buttonLabel == old(buttonLabel)
    {
      totalSeconds := SessionModel.Max(0, totalSeconds - SessionModel.CluePenaltySeconds);
    }

    /** addKill: one more kill; nothing else changes. */
    method AddKill()
      requires Valid()
      modifies this
      ensures Valid()
      ensures Snap() == SessionModel.Step(old(Snap()), SessionModel.AddKill)
      ensures killCount == old(killCount) + 1 && killCount > old(killCount)
      ensures totalSeconds == old(totalSeconds) && isRunning == old(isRunning)
      ensures intervalActive == old(intervalActive) && buttonLabel == old(buttonLabel)
    {
      killCount := killCount + 1;
    }

    /** The text updateTimerDisplay writes: always five characters `mm:ss`,
        reading back as the remaining seconds. */
    function TimerText(): (r: string)
      reads this
      requires Valid()
      ensures |r| == 5 && r[2] == ':'
      ensures TimeFormat.AllDigits(r[..2]) && TimeFormat.AllDigits(r[3..])
      ensures TimeFormat.ValueOf(r[..2]) == totalSeconds / 60
      ensures TimeFormat.ValueOf(r[3..]) == totalSeconds % 60
      ensures TimeFormat.ParseTime(r) == TimeFormat.Some(totalSeconds)
    {
      TimeFormat.FormatTimeShape(totalSeconds);
      TimeFormat.FormatTimeRoundTrip(totalSeconds);
      TimeFormat.FormatTime(totalSeconds)
    }

    /** The text updateKillCountDisplay writes: the fixed prefix, then the
        decimal kill count. */
    function KillCountText(): (r: string)
      reads this
      requires Valid()
      ensures |r| > |TimeFormat.KillCountPrefix|
      ensures r[..|TimeFormat.KillCountPrefix|] == TimeFormat.KillCountPrefix
      ensures TimeFormat.AllDigits(r[|TimeFormat.KillCountPrefix|..])
      ensures TimeFormat.ValueOf(r[|TimeFormat.KillCountPrefix|..]) == killCount
    {
      TimeFormat.KillCountTextParses(killCount);
      TimeFormat.KillCountText(killCount)
    }
  }

  /** A short session driven through the class: a clue while stopped, the
      clock started, two seconds, a kill, and the clock stopped again. */
  method PlaySession() returns (seconds: int, kills: int, text: string)
    ensures seconds == 3600 - 300 - 2 && kills == 2
    ensures |text| == 5 && TimeFormat.ParseTime(text) == TimeFormat.Some(seconds)
  {
    var g := new GameSession();
    g.UseClue();
    g.ToggleTimer();
    g.Tick();
    g.Tick();
    g.AddKill();
    g.ToggleTimer();
    seconds, kills := g.totalSeconds, g.killCount;
    text := g.TimerText();
  }
}
