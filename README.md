# Party countdown timer: session state and `mm:ss` display

This project models the logic of `script.js`, the script behind a murder-mystery
party timer page, and proves properties about it. The page counts down one hour,
shows the remaining time as `mm:ss`, and has three buttons:
- play/pause starts or stops the countdown;
- "clue" takes five minutes off the clock, never going below zero;
- "kill" adds one to a kill counter that starts at 1.

The project has three modules:

- `TimeFormat` (`time_format.dfy`) holds the display. It has pure functions for
  `String(n)`, `padStart(2, "0")` and the `mm:ss` text built in
  `updateTimerDisplay`, plus the kill-count label. It also has `ParseTime`,
  which reads a displayed text back. `ParseTime` is a reference inverse used to
  state the round trip; the script has nothing like it.
- `SessionModel` (`session_model.dfy`) describes the four module-level
  variables as a `Snapshot` value. `Step` gives the transition for each event
  and `Run` applies a sequence of events. The event `Tick` is one second of the
  clock: if the interval is live, its callback runs once. The lemmas cover
  arbitrary sequences of events.
- `Session` (`session.dfy`) holds `GameSession`, a class whose fields the
  methods update in place, one method per function of the script. `Tick`,
  `ToggleTimer`, `UseClue` and `AddKill` keep `Valid()` and are proved to make
  exactly the transition `SessionModel.Step` gives, so every `SessionModel`
  lemma applies to sequences of these calls. `StopTimer` makes the transition
  `SessionModel.Stop`. `StartTimer` is a helper of `ToggleTimer` that only
  marks the interval live; on its own it leaves the interval live while the
  clock is still marked stopped, and `ToggleTimer` then marks it running.
  `StartTimer` may only be called when no interval is live. The verifier proves
  that `ToggleTimer`, its only caller, always meets this, so no interval is
  started while another is live: at most one interval is live at a time. A
  session can still start several intervals one after another, each after the
  previous one was cleared (play, pause, play).

JavaScript's `Math.floor(t / 60)` and `t % 60` equal Dafny's `/` and `%` here,
because the remaining time is never negative. `Valid()` includes that bound, and
the `ensures Valid()` clauses of the constructor and of `Tick`, `ToggleTimer`,
`UseClue` and `AddKill` prove that it always holds.

## Model

| member | source | states |
|---|---|---|
| `Session.GameSession.constructor` | script.js:4-10 | The page starts with 3600 seconds, a kill count of 1, the clock stopped and no interval, and satisfies the session invariant. |
| `Session.GameSession.Tick` | script.js:41-48 | When an interval is live and time is left, the callback takes off exactly one second and leaves the kill count and running state unchanged. At zero it stops the clock and clears the interval, and the time stays 0. The invariant is kept. |
| `Session.GameSession.StartTimer` | script.js:40-49 | Schedules the interval; nothing else changes. It can only be called with no interval live, and its only caller `ToggleTimer` is proved to call it only then, so no interval is started while one is live. |
| `Session.GameSession.StopTimer` | script.js:51-55 | Clears the interval, marks the clock stopped and sets the button to "Play". Time and kills are unchanged. |
| `Session.GameSession.ToggleTimer` | script.js:57-65 | Flips the running state, with a live interval exactly while running. Time and kill count are never changed, and the invariant is kept. |
| `Session.GameSession.UseClue` | script.js:70-73 | Sets the time to `max(0, old - 300)`, running or not, and changes nothing else. |
| `Session.GameSession.AddKill` | script.js:75-78 | Sets the kill count to `old + 1` and changes nothing else. |
| `Session.GameSession.TimerText` | script.js:25-31 | In every valid state the display text has five characters with a colon at index 2. Its digit groups are the minutes `t / 60` and seconds `t % 60`, and it reads back as the remaining seconds. |
| `Session.GameSession.KillCountText` | script.js:33-35 | The label is the fixed prefix followed by digits that spell the kill count. |
| `Session.PlaySession` | script.js:57-78 | A client sequence: clue, start, two ticks, kill, stop. It ends with 3298 seconds and 2 kills, and the five-character display reads back as 3298. |
| `TimeFormat.PadTwo` | script.js:30 | `padStart(2, "0")`: the result is two characters long, or as long as the original string if that is longer, and ends with the original string. The fill characters in front are zeros by `PadStart`'s contract, and `PadTwoValue` states that padding keeps the value of a numeral. |
| `TimeFormat.FormatTime` | script.js:26-30 | The `mm:ss` text of `updateTimerDisplay`. It has no contract of its own; `FormatTimeShape`, `FormatTimeWide`, `FormatTimeRoundTrip` and `FormatTimeInjective` state its properties. |
| `TimeFormat.KillCountText` | script.js:34 | The kill-count label. It has no contract of its own; `KillCountTextParses` states that it is the prefix followed by the decimal count. |
| `TimeFormat.NatToString` | script.js:30 | `String(n)` gives only digits and is never empty. It is one character exactly when `n < 10`, with no leading zero. |
| `TimeFormat.NatToStringRoundTrip` | script.js:30 | The digits of `String(n)` denote `n`. |
| `TimeFormat.NatToStringLength` | script.js:30 | Numbers below 100 print in at most two characters; larger ones in at least three. |
| `TimeFormat.PadStart` | script.js:30 | `padStart` reaches the requested width with fill characters in front and the original string as suffix. A string already that wide comes back unchanged, so nothing is truncated. |
| `TimeFormat.LeadingZeros` | script.js:30 | Zero padding in front does not change the number a digit string denotes. |
| `TimeFormat.PadTwoValue` | script.js:30 | A padded numeral is made of digits, is exactly 2 wide below 100, and still denotes the same number. |
| `TimeFormat.FormatTimeShape` | script.js:26-30 | For `t` under 100 minutes, which covers the whole 3600-second game, `mm:ss` has length 5 and ':' at index 2. Its groups denote `t / 60` and `t % 60 < 60`, so `60*mm + ss == t`. |
| `TimeFormat.FormatTimeWide` | script.js:26-30 | From 100 minutes on, the text is longer than five characters: the minutes are not truncated. |
| `TimeFormat.FormatTimeRoundTrip` | script.js:26-30 | Reading back the display of any `t` gives `t`. |
| `TimeFormat.FormatTimeInjective` | script.js:26-30 | Different remaining times are displayed differently. |
| `TimeFormat.KillCountTextParses` | script.js:34 | The kill-count label is the prefix followed by the decimal digits of the count. |
| `SessionModel.Stop` | script.js:51-53 | `stopTimer` on the state as a value. It has no contract of its own; `TickAtZeroStops` and `ToggleFlips` state its effect, and `GameSession.StopTimer` is proved to match it. |
| `SessionModel.ToggleStep` | script.js:57-65 | `toggleTimer` on the state as a value. It has no contract of its own; `ToggleFlips` states its properties, and `GameSession.ToggleTimer` is proved to match it. |
| `SessionModel.TickStep` | script.js:41-48 | The interval callback on the state as a value, doing nothing when no interval is live. It has no contract of its own; `TickCountsDown`, `TickAtZeroStops`, `TicksWhileRunning` and `TicksWhenStopped` state its properties. |
| `SessionModel.Step` | script.js:40-78 | The transition for each event: tick, toggle, clue, kill. It has no contract of its own; `StepPreservesInv`, `CluesPenalize` and `KillTally` state its properties, and the four `GameSession` event methods are proved to match it. |
| `SessionModel.StepPreservesInv` | script.js:40-78 | Every event keeps the time within [0, 3600] and the kill count at least 1, with an interval live exactly while running. |
| `SessionModel.TickCountsDown` | script.js:42-44 | A tick on a running clock with time left takes off exactly one second and changes nothing else. |
| `SessionModel.TickAtZeroStops` | script.js:45-46 | A tick at zero stops the clock and clears the interval, and the time stays 0. |
| `SessionModel.ToggleFlips` | script.js:57-65 | A toggle flips the running state and keeps time and kills; two toggles restore the state. |
| `SessionModel.RunPreservesInv` | script.js:40-78 | Every sequence of events keeps the invariant. |
| `SessionModel.ReachableInv` | script.js:4-10 | From page load, whatever happens, the time stays within [0, 3600], the kill count stays at least 1, and the interval flag is set exactly while running. That at most one interval is live at a time comes from `GameSession.StartTimer`'s precondition, which `ToggleTimer` is proved to meet. |
| `SessionModel.TicksWhileRunning` | script.js:41-48 | `n` ticks on a running clock with `t` seconds leave `max(0, t - n)`. The clock still runs exactly when `n <= t`, and the kill count is unchanged. |
| `SessionModel.TicksWhenStopped` | script.js:51-53 | With no interval live, ticks change nothing, so once the clock has stopped at zero the time never changes again. |
| `SessionModel.CluesPenalize` | script.js:70-72 | `n` clues leave `max(0, t - 300 n)` seconds and change nothing else. |
| `SessionModel.CluesFromStart` | script.js:4-5 | Eight clues from a fresh game leave 1200 seconds; twelve leave 0. |
| `SessionModel.KillTally` | script.js:75-77 | The kill count grows by exactly the number of kills registered, so it never decreases. |
| `SessionModel.TimeNeverIncreases` | script.js:42-43 | No event adds time, so the remaining time never increases. |

## Left out

- Writes to the page are left out: `getElementById`, the `textContent` assignments, the `addEventListener` wiring and the calls at page load (script.js:15-20, 83-91). Only the strings that would be written are modelled.
- Timer scheduling is left out: the real-time behaviour of `setInterval`/`clearInterval`, the 1000 ms cadence and the browser event loop. A timer is a "live" flag, and `Tick` stands for one second in which the callback fires once if the flag is set.
- The starting "Play" label of the button comes from the page markup, which is not part of this model. The model assumes it.
- JavaScript numbers are doubles, so `killCount++` is exact only up to 2^53. The model's kill count is an unbounded integer.
- `GameSession.StartTimer`: its precondition (no interval live) is not checked by the script's `startTimer`. It is stated so that the verifier proves `toggleTimer` never starts an interval while another is live.
- String lengths in the model count Unicode code points, not the UTF-16 code units JavaScript's `.length` counts. The knife emoji of the kill-count label is one character here and two units in JavaScript, so `|KillCountText(k)|` is not the label's `.length`.
