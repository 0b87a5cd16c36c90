/** The game session of the countdown page as a value: the four module-level
    variables of script.js and the transition each user or clock event makes.
    This is the reference the `Session.GameSession` class is proved against,
    and the lemmas below state what whole sequences of events do. */
module SessionModel {

  /** Length of a game, in seconds (60 minutes). */
  const GameDurationSeconds: int := 60 * 60
  /** Time taken off the clock by one clue, in seconds (5 minutes). */
  const CluePenaltySeconds: int := 5 * 60

  /** `intervalActive` stands for `timerInterval` holding a live (not yet
      cleared) repeating timer. */
  datatype Snapshot = Snapshot(totalSeconds: int, killCount: int, isRunning: bool, intervalActive: bool)

  /** `Tick` is one second of the clock: the interval's callback fires once if an
      interval is live.  The other three are the button clicks. */
  datatype Event = Tick | Toggle | UseClue | AddKill

  /** The state at page load. */
  const Initial: Snapshot := Snapshot(GameDurationSeconds, 1, false, false)

  function Max(a: int, b: int): int {
    if a < b then b else a
  }

  /** What every reachable state satisfies: time within the game length, at
      least the starting kill, and a live interval exactly while running. */
  ghost predicate Inv(s: Snapshot) {
    && 0 <= s.totalSeconds <= GameDurationSeconds
    && s.killCount >= 1
    && s.isRunning == s.intervalActive
  }

  /** stopTimer: clear the interval and mark the timer stopped. */
  function Stop(s: Snapshot): Snapshot {
    s.(intervalActive := false, isRunning := false)
  }

  /** toggleTimer: stop when running, otherwise start an interval and mark running. */
  function ToggleStep(s: Snapshot): Snapshot {
    if s.isRunning then Stop(s) else s.(intervalActive := true, isRunning := true)
  }

  /** The interval callback: count down one second, or stop at zero. */
  function TickStep(s: Snapshot): Snapshot {
    if !s.intervalActive then s
    else if s.totalSeconds > 0 then s.(totalSeconds := s.totalSeconds - 1)
    else Stop(s)
  }

  function Step(s: Snapshot, e: Event): Snapshot {
    match e
    case Tick => TickStep(s)
    case Toggle => ToggleStep(s)
    case UseClue => s.(totalSeconds := Max(0, s.totalSeconds - CluePenaltySeconds))
    case AddKill => s.(killCount := s.killCount + 1)
  }

  /** The state after the events `es`, in order. */
  function Run(s: Snapshot, es: seq<Event>): Snapshot
    decreases |es|
  {
    if es == [] then s else Run(Step(s, es[0]), es[1..])
  }

  function Repeat(e: Event, n: nat): (es: seq<Event>)
    ensures |es| == n && forall i :: 0 <= i < n ==> es[i] == e
  {
    seq(n, _ => e)
  }

  /** How many kills the events register. */
  function KillsIn(es: seq<Event>): nat {
    if es == [] then 0 else (if es[0] == AddKill then 1 else 0) + KillsIn(es[1..])
  }

  // ---------------------------------------------------------------------
  // One step
  // ---------------------------------------------------------------------

  /** Every event keeps the invariant. */
  lemma StepPreservesInv(s: Snapshot, e: Event)
    requires Inv(s)
    ensures Inv(Step(s, e))
  {
  }

  /** A tick on a running clock with time left takes off exactly one second and
      leaves the kill count and the running state alone. */
  lemma TickCountsDown(s: Snapshot)
    requires Inv(s) && s.isRunning && s.totalSeconds > 0
    ensures Step(s, Tick).totalSeconds == s.totalSeconds - 1
    ensures Step(s, Tick).killCount == s.killCount
    ensures Step(s, Tick).isRunning && Step(s, Tick).intervalActive
  {
  }

  /** A tick at zero stops the clock, clears the interval and keeps the time at zero. */
  lemma TickAtZeroStops(s: Snapshot)
    requires s.intervalActive && s.totalSeconds == 0
    ensures Step(s, Tick) == s.(isRunning := false, intervalActive := false)
  {
  }

  /** Toggling never touches the time or the kills and flips the running
      state; toggling twice restores the state. */
  lemma ToggleFlips(s: Snapshot)
    requires Inv(s)
    ensures Step(s, Toggle).totalSeconds == s.totalSeconds
    ensures Step(s, Toggle).killCount == s.killCount
    ensures Step(s, Toggle).isRunning == !s.isRunning
    ensures Run(s, [Toggle, Toggle]) == s
  {
    assert [Toggle, Toggle][1..] == [Toggle];
  }

  // ---------------------------------------------------------------------
  // Sequences of events
  // ---------------------------------------------------------------------

  /** The invariant holds after any sequence of events. */
  lemma {:induction false} RunPreservesInv(s: Snapshot, es: seq<Event>)
    requires Inv(s)
    ensures Inv(Run(s, es))
    decreases |es|
  {
    if es != [] {
      StepPreservesInv(s, es[0]);
      RunPreservesInv(Step(s, es[0]), es[1..]);
    }
  }

  /** From page load, whatever the clicks and ticks: the time stays within
      [0, 3600], the kill count stays at least 1, and the interval flag is set
      exactly while the clock runs. */
  lemma ReachableInv(es: seq<Event>)
    ensures Inv(Run(Initial, es))
    ensures 0 <= Run(Initial, es).totalSeconds <= GameDurationSeconds
    ensures Run(Initial, es).isRunning == Run(Initial, es).intervalActive
  {
    RunPreservesInv(Initial, es);
  }

  /** `n` ticks on a running clock with `t` seconds left leave
      `max(0, t - n)` seconds, and the clock still runs exactly when `n <= t`
      (the tick that finds zero is the one that stops it). */
  lemma {:induction false} TicksWhileRunning(s: Snapshot, n: nat)
    requires Inv(s) && s.isRunning
    ensures Run(s, Repeat(Tick, n)).totalSeconds == Max(0, s.totalSeconds - n)
    ensures Run(s, Repeat(Tick, n)).isRunning == (n <= s.totalSeconds)
    ensures Run(s, Repeat(Tick, n)).intervalActive == (n <= s.totalSeconds)
    ensures Run(s, Repeat(Tick, n)).killCount == s.killCount
    decreases n
  {
    if n > 0 {
      assert Repeat(Tick, n)[1..] == Repeat(Tick, n - 1);
      var s' := Step(s, Tick);
      if s.totalSeconds > 0 {
        TicksWhileRunning(s', n - 1);
      } else {
        TicksWhenStopped(s', n - 1);
      }
    }
  }

  /** With no interval live, ticks change nothing: once the clock has stopped
      at zero, the time stays zero. */
  lemma {:induction false} TicksWhenStopped(s: Snapshot, n: nat)
    requires !s.intervalActive
    ensures Run(s, Repeat(Tick, n)) == s
    decreases n
  {
    if n > 0 {
      assert Repeat(Tick, n)[1..] == Repeat(Tick, n - 1);
      TicksWhenStopped(s, n - 1);
    }
  }

  /** `n` clues leave `max(0, t - 300 n)` seconds and change nothing else,
      whether or not the clock runs. */
  lemma {:induction false} CluesPenalize(s: Snapshot, n: nat)
    requires s.totalSeconds >= 0
    ensures Run(s, Repeat(UseClue, n)) == s.(totalSeconds := Max(0, s.totalSeconds - CluePenaltySeconds * n))
    decreases n
  {
    if n > 0 {
      assert Repeat(UseClue, n)[1..] == Repeat(UseClue, n - 1);
      CluesPenalize(Step(s, UseClue), n - 1);
    }
  }

  /** Eight clues from a fresh game leave 20 minutes; twelve empty the clock. */
  lemma CluesFromStart()
    ensures Run(Initial, Repeat(UseClue, 8)).totalSeconds == 1200
    ensures Run(Initial, Repeat(UseClue, 12)).totalSeconds == 0
  {
    CluesPenalize(Initial, 8);
    CluesPenalize(Initial, 12);
  }

  /** The kill count grows by exactly the number of kills registered, so it
      never decreases. */
  lemma {:induction false} KillTally(s: Snapshot, es: seq<Event>)
    ensures Run(s, es).killCount == s.killCount + KillsIn(es)
    ensures Run(s, es).killCount >= s.killCount
    decreases |es|
  {
    if es != [] {
      KillTally(Step(s, es[0]), es[1..]);
    }
  }

  /** No event adds time: from a non-negative time, the remaining time never
      increases. */
  lemma {:induction false} TimeNeverIncreases(s: Snapshot, es: seq<Event>)
    requires s.totalSeconds >= 0
    ensures Run(s, es).totalSeconds <= s.totalSeconds
    decreases |es|
  {
    if es != [] {
      TimeNeverIncreases(Step(s, es[0]), es[1..]);
    }
  }
}
