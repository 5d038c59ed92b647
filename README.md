# Pomodoro timer and event filter, modelled in Dafny

This project models the two pieces of client-side logic of the
www.unipercento.it site scripts:

- **The Pomodoro timer** of `js/pomodoro.js`. It keeps three records:
  `settings` (focus, short-break and long-break minutes), `stats`
  (completed pomodoros, focus minutes, break minutes) and `timerState`
  (mode, seconds left, total seconds, running flag). Start, pause, reset,
  mode selection, the one-second interval body, completion with its
  follow-up confirm() prompt, applying settings and loading the two
  localStorage records all change these records in place. `formatTime`
  renders the seconds left as "MM:SS".
- **The events filter** of `js/eventi.js`. `filterEvents` shows an event
  element only if it passes a category test, a date-window test (today,
  tomorrow, the rest of the week up to Sunday, the rest of the month) and a
  case-insensitive search on its title or description. It counts the
  visible elements. `handleNoResults` then keeps a single "no results"
  message exactly when that count is 0.

Files:

- `wrappers.dfy`: module `Wrappers`, the `Option` type. It stands for an
  absent element or attribute, a missing localStorage entry, or a parseInt
  that yields NaN.
- `clock.dfy`: module `Clock`, `formatTime`. JavaScript's `toString`,
  `padStart(2, '0')` and truncating `%` are written out, so negative values
  render as the browser renders them ("-2:-1" for -61 seconds).
  `ReadClock` reads the text back.
- `timer_engine.dfy`: module `TimerEngine`, the timer as a value (`Engine`)
  with one transition function per operation of the script, and the
  lemmas about them.
- `pomodoro_timer.dfy`: module `PomodoroTimer`, class `Timer`. It has the
  script's fields and one method per script function, each updating
  fields in place. Each method that has a `TimerEngine` counterpart is
  proved to move `View()` exactly as that function does, and to keep or
  establish `Valid()`. `SaveStats` (`updateStats`) has no counterpart of its
  own: it only writes the stats entry of the store, and its contract says
  that nothing else changes.
- `event_filter.dfy`: module `EventFilter`, the per-event test `Shown`.
  It also holds `DecideEvent`, written with the same running `showEvent`
  flag as the script, the counting loop `FilterEvents` and
  `HandleNoResults`.

External inputs are parameters or fields:

- The confirm() answer is the `accepted` argument of `Answer`.
- The pending 500 ms callback is the `prompt` field.
- The interval handle is implied by `isRunning`, and each interval run is
  one call of `Tick`.
- The localStorage entries are the `store` field.
- What parseInt made of the three inputs is a `SettingsInput`.
- For the events page, today's day number, its day of the week and the last
  day of the month are a `Calendar`.

In these places the model follows the code as written:

- `applySettings` stops a running timer, because it calls `setMode`,
  which pauses first (`js/pomodoro.js:262`, `:76-78`).
- Only a NaN or 0 parse falls back, and it falls back to the fixed default
  25/5/15. Negative minutes are accepted.
- Completion fires on `timeLeft <= 0`. A break whose prompt is declined
  stays at 0 seconds. Starting it again drives the countdown to -1 and
  credits the break a second time (`DeclinedBreakCountsTwice`). So the
  countdown is not kept within [0, total]. What is kept is
  `totalTime == configured seconds of mode` and `timeLeft <= totalTime`.
- Stored records are read with `JSON.parse`, which throws on malformed
  text; a record is used as stored.
- With negative settings the focus and break minute totals can go down.
  Only the pomodoro count is monotone (`PomodorosMonotone`).

## Model

| member | source | states |
|---|---|---|
| `Clock.JsRem60` | js/pomodoro.js:50 | `seconds % 60` with JavaScript's sign rule: the remainder is strictly between -60 and 60, differs from the input by a multiple of 60, and has the input's sign |
| `Clock.NatToString` | js/pomodoro.js:51 | `toString()` of a non-negative number is a non-empty digit string whose value is the number; one digit below 10, two from 10 to 99; no leading zero from 1 on |
| `Clock.IntToString` | js/pomodoro.js:51 | `toString()` of any integer: it starts with '-' iff the number is negative; the digits after the sign read back as the absolute value; at most two characters from 0 to 99; no leading zero after the optional sign |
| `Clock.PadStart2` | js/pomodoro.js:51 | `padStart(2, '0')`: the result has length max(2, input length), ends with the input, and every character before it is '0' |
| `Clock.PadKeepsValue` | js/pomodoro.js:51 | `padStart(2, '0')` keeps a digit string's digits and value |
| `Clock.FormatTime` | js/pomodoro.js:48-52 | for seconds >= 0 the text has at least 5 characters and ':' before a two-character seconds field; below 6000 seconds it is exactly 5 characters; from 600 seconds (10 minutes) on the minutes field has no leading zero, so 100 minutes render "100:00" |
| `Clock.FormatTimeRoundTrip` | js/pomodoro.js:48-52 | for every seconds >= 0, reading the text back gives the two fields (seconds / 60, seconds % 60); the seconds field is below 60 and minutes * 60 + seconds field == the input |
| `Clock.FormatTimeSessionSample` | js/pomodoro.js:48-52 | 1500 seconds render as "25:00" |
| `Clock.FormatTimeUnderMinuteSample` | js/pomodoro.js:48-52 | 59 seconds render as "00:59" |
| `Clock.FormatTimeWideSample` | js/pomodoro.js:48-52 | 6000 seconds render as "100:00" |
| `Clock.FormatTimeNegativeSamples` | js/pomodoro.js:48-52 | -60 seconds render as "-1:00" and -61 as "-2:-1" (floor for the minutes, a truncating remainder for the seconds) |
| `TimerEngine.Initial` | js/pomodoro.js:25-45 | the initial state (25/5/15, zero stats, focus, 1500 s, stopped) satisfies the invariant |
| `TimerEngine.Pause` | js/pomodoro.js:142-158 | afterwards the timer is stopped and nothing but the running flag changed; a stopped timer is left as it is |
| `TimerEngine.Start` | js/pomodoro.js:114-139 | afterwards the timer runs and nothing but the running flag changed; a running timer is left as it is |
| `TimerEngine.SetMode` | js/pomodoro.js:74-111 | mode becomes m, the timer is stopped, seconds left == total == configured minutes of m × 60, settings, stats, store and prompt unchanged, invariant established |
| `TimerEngine.Reset` | js/pomodoro.js:161-164 | mode kept, timer stopped, seconds left restored to the total; under the invariant the total is the old total |
| `TimerEngine.Credit` | js/pomodoro.js:174-191 | the pomodoro count goes up by 1 for a focus session and by 0 for a break; focus plus break minutes grow by exactly the configured minutes of the mode; a focus session leaves the break minutes alone and a break the focus minutes |
| `TimerEngine.Complete` | js/pomodoro.js:167-203 | timer stopped; focus adds 1 pomodoro and the focus minutes; a break adds that break's current minutes to break minutes only; the matching prompt is pending; the new stats are written to the store; mode, settings and countdown unchanged |
| `TimerEngine.Tick` | js/pomodoro.js:129-137 | seconds left drop by exactly 1; the timer keeps running, with nothing else changed, iff the result is > 0, and otherwise the result is a completion; the invariant is kept |
| `TimerEngine.Answer` | js/pomodoro.js:180-198 | after focus: short break if accepted, fresh focus otherwise; after a break: focus if accepted, and the state untouched (still at its seconds left) if declined; stats and settings unchanged |
| `TimerEngine.OrDefault` | js/pomodoro.js:254-256 | parseInt with a fallback d: NaN or 0 gives d, any other number (negative too) is kept; the result is never 0 when d is not |
| `TimerEngine.ParseSettings` | js/pomodoro.js:254-256 | per field: a NaN or 0 input gives that field's default (25, 5, 15) and any other number is used as is; so no field is ever 0 |
| `TimerEngine.ApplySettings` | js/pomodoro.js:253-266 | settings become the parsed-or-default values and are stored; the current mode is reselected, so the timer is stopped at the full new duration; stats unchanged |
| `TimerEngine.LoadSettings` | js/pomodoro.js:269-286 | a stored record replaces the settings, none keeps them; then focus mode at its full duration |
| `TimerEngine.LoadStats` | js/pomodoro.js:244-250 | a stored record replaces the stats, none keeps them; nothing else changes |
| `TimerEngine.Boot` | js/pomodoro.js:298-300 | after page load the settings and stats are the stored ones or the defaults, the mode is focus at its full duration, stopped |
| `TimerEngine.TicksCountDown` | js/pomodoro.js:129-136 | n ticks with n below the seconds left only count down by n |
| `TimerEngine.SessionCompletesOnce` | js/pomodoro.js:129-137 | a running countdown with k >= 1 seconds left, given n >= k seconds, completes exactly once at 0 whatever n is |
| `TimerEngine.FirstPomodoro` | js/pomodoro.js:25-45 | with nothing stored: focus, start, 1500 seconds give 1 pomodoro, 25 focus minutes, 0 break minutes, stopped at 0 with the break prompt pending |
| `TimerEngine.ExhaustedCompletesOnNextTick` | js/pomodoro.js:132 | a running timer at or below 1 second completes on the next tick with the stats credited by mode |
| `TimerEngine.DeclinedBreakCountsTwice` | js/pomodoro.js:187-198 | a completed, declined break stays at 0; start and one tick reach -1 and add the break minutes a second time |
| `TimerEngine.StartPauseRoundTrip` | js/pomodoro.js:114-158 | start then pause gives back a stopped state unchanged; start and pause are idempotent |
| `TimerEngine.ReloadRestores` | js/pomodoro.js:234-272 | a later page load gets back the settings just applied and the stats just written at completion |
| `TimerEngine.InvariantAlways` | js/pomodoro.js:74-262 | from any page load, after any sequence of user actions and seconds, the total equals the configured duration of the mode and the seconds left never exceed it |
| `TimerEngine.RunKeepsInv` | js/pomodoro.js:74-262 | every user action and every second preserves that invariant |
| `TimerEngine.PomodorosMonotone` | js/pomodoro.js:175 | within a session the pomodoro count never decreases and grows by at most one per action |
| `PomodoroTimer.Timer.constructor` | js/pomodoro.js:25-45 | the object starts in the initial state |
| `PomodoroTimer.Timer.Pause` | js/pomodoro.js:142-158 | in place: the state becomes `TimerEngine.Pause` of the old state, invariant kept |
| `PomodoroTimer.Timer.Start` | js/pomodoro.js:114-139 | in place: `TimerEngine.Start` of the old state, invariant kept |
| `PomodoroTimer.Timer.SetMode` | js/pomodoro.js:74-111 | in place: `TimerEngine.SetMode`, invariant established |
| `PomodoroTimer.Timer.Reset` | js/pomodoro.js:161-164 | in place: `TimerEngine.Reset`, invariant established |
| `PomodoroTimer.Timer.SaveStats` | js/pomodoro.js:234-241 | the store's stats entry becomes the current stats; nothing else changes |
| `PomodoroTimer.Timer.Complete` | js/pomodoro.js:167-203 | in place: `TimerEngine.Complete`, invariant kept |
| `PomodoroTimer.Timer.Tick` | js/pomodoro.js:129-137 | in place: `TimerEngine.Tick`, invariant kept |
| `PomodoroTimer.Timer.Answer` | js/pomodoro.js:180-198 | in place: `TimerEngine.Answer`, invariant kept |
| `PomodoroTimer.Timer.ApplySettings` | js/pomodoro.js:253-266 | in place: `TimerEngine.ApplySettings`, invariant established |
| `PomodoroTimer.Timer.LoadSettings` | js/pomodoro.js:269-286 | in place: `TimerEngine.LoadSettings`, invariant established |
| `PomodoroTimer.Timer.LoadStats` | js/pomodoro.js:244-250 | in place: `TimerEngine.LoadStats`, invariant kept |
| `PomodoroTimer.Boot` | js/pomodoro.js:298-300 | a fresh object in the state `TimerEngine.Boot` gives |
| `PomodoroTimer.FocusSessionOnFreshPage` | js/pomodoro.js:114-137 | the object, driven for 1500 interval runs after page load, records exactly one pomodoro of 25 minutes |
| `EventFilter.LowerChar` | js/eventi.js:107 | 'A'..'Z' map to the letter at the same position in 'a'..'z'; every other character is kept; the result is never upper-case |
| `EventFilter.Lower` | js/eventi.js:107 | `toLowerCase()` keeps the length, lower-cases each character by `LowerChar`, and leaves no upper-case letter |
| `EventFilter.LowerIdempotent` | js/eventi.js:107 | lower-casing twice equals lower-casing once |
| `EventFilter.Contains` | js/eventi.js:156 | `includes` is true iff the term occurs at some position |
| `EventFilter.Choice` | js/eventi.js:105-106 | a missing active item, a missing attribute or an empty value (`Some("")`) gives "all"; any other value is used as is; the result is never empty |
| `EventFilter.ReadControls` | js/eventi.js:105-107 | no active category or date item, or an empty data-value, gives "all", a non-empty value is used as is; no search box gives the empty term; otherwise the term has the box's length and each character is the box's character lower-cased; the term is already lower-case |
| `EventFilter.EndOfWeek` | js/eventi.js:114-115 | Seven minus the weekday (Sunday counted as 7) days ahead is the first Sunday on or after today, 0 to 6 days ahead: today itself on a Sunday, 6 days ahead (a 7-day window) on a Monday |
| `EventFilter.PassesCategory` | js/eventi.js:126-128 | "all" passes every event; any other selection passes exactly the events whose data-category equals it |
| `EventFilter.PassesDate` | js/eventi.js:131-149 | "all" passes every event; an undated event passes only "all"; a dated event that passes today, tomorrow, week or month is not before today |
| `EventFilter.PassesSearch` | js/eventi.js:152-159 | an empty term passes every event; an event that passes a term is at least as long in its title or description as the term |
| `EventFilter.Shown` | js/eventi.js:123-162 | the neutral query ("all", "all", no term) shows every event; a shown event has the selected category, and a data-date unless the date selection is "all" |
| `EventFilter.DateRules` | js/eventi.js:130-148 | an undated event is hidden by every selection but "all"; today, tomorrow, week and month pass exactly their windows; an unknown selection hides only undated events; an unparsable date passes week and month but not today or tomorrow |
| `EventFilter.SearchRule` | js/eventi.js:152-158 | an empty term passes everything; otherwise an event passes iff the term occurs in its lower-cased title or description |
| `EventFilter.CountShown` | js/eventi.js:120-163 | the visible count is at most the number of events, and equals it when every event is shown |
| `EventFilter.CountShownZero` | js/eventi.js:120-163 | the visible count is at most the number of events and is 0 iff no event passes |
| `EventFilter.HandleNoResults` | js/eventi.js:171-191 | the message is present iff the count is 0 and there is a message already or a container for one; an existing message is kept in place; a new one goes to the active grid, and to the list when the grid is not active and the list exists |
| `EventFilter.DecideEvent` | js/eventi.js:123-159 | the running `showEvent` flag, cleared by the category, date and search tests in turn, ends equal to `Shown` of the event |
| `EventFilter.FilterEvents` | js/eventi.js:104-168 | each element's display equals `Shown` of the query read from the controls, the count equals the number of shown events, and the message is updated from that count |
| `EventFilter.MessageIffNothingShown` | js/eventi.js:166-191 | with a grid or list to hold it, the message is present exactly when no event passes all three filters |

## Left out

- JavaScript numbers are IEEE doubles; the model uses unbounded integers.
  Above 2^53 `settings.focusTime * 60` and `timerState.timeLeft--` lose
  precision (`js/pomodoro.js:91`, `:130`), and `toString()` switches to
  exponent notation from 1e21 (`:51`). `NatToString` and `IntToString`
  never produce that form. Durations that large cannot come from minutes
  typed into the settings form in practice.

- DOM output is not modelled. This covers status texts, button visibility,
  mode-button highlighting, the stat counters' text and the timer text
  written by `updateTimer`; `formatTime` itself is modelled. The SVG
  progress ring, which uses `Math.PI` and floating point, is left out too.
- Real time is not modelled. `setInterval`, `clearInterval` and the 500 ms
  `setTimeout` become explicit `Tick` and `Answer` calls.
- `Answer` requires a pending prompt. The callback only exists after a
  completion, and it fires 500 ms later, before the next one-second tick.
- The model does not track two prompts pending at once. That would need two
  completions within 500 ms, which the one-second interval rules out.
- The `confirm` and `alert` dialogs are not modelled; the answer is a
  parameter.
- Audio playback and the browser Notification API are left out. They are
  fire-and-forget foreign calls that cannot affect the timer's state.
- JSON serialisation and parsing are not modelled. A stored record is
  modelled as whole integer settings or stats. Malformed text, which makes
  `JSON.parse` throw, is not modelled. Nor are records with missing or
  non-numeric fields.
- parseInt's reading of the input text is not modelled. Its result is the
  input, with NaN as `None`.
- `loadSettings` copies the loaded values into the input fields. That is a
  DOM write and is left out.
- The `Command` alphabet of `InvariantAlways` and `PomodorosMonotone` has no
  page load. `loadSettings` and `loadStats` run only at start-up, and
  `Boot` and `LoadSettings` establish the invariant on their own.
- JavaScript `Date` construction and parsing are not modelled. Neither are
  time zones nor month arithmetic. Event dates are day numbers, and a date
  string `new Date` cannot parse is `Unparsable`.
- `toLowerCase` is modelled for ASCII letters only. Unicode case mapping is
  left out.
- In `handleNoResults`, the message's HTML content is not modelled.
- When neither a grid nor a list exists, the created message is never
  attached. The model shows this as no message.
- Each event appears once as a grid card and once as a list row. Both are
  elements of the sequence, so the count includes both, as on the page.
- The events page's modal, dropdowns, view toggle, notification and
  pagination handlers are DOM glue and are left out.
- `js/drive.js` (a network client for a remote script endpoint) is not part
  of this model, nor is its one-line name filter.
- `js/main.js` (menu, scrolling, animations, a floating-point counter) is
  not part of this model.
