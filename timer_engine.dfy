/** The Pomodoro timer of js/pomodoro.js as a value: the `settings`, `stats`
    and `timerState` records, the pending confirm() callback that completion
    schedules, and the two localStorage entries. Each operation of the page
    is a function from one engine state to the next; the class in
    pomodoro_timer.dfy performs the same steps in place and is proved
    against these functions. */
module TimerEngine {
  import opened Wrappers

  datatype Mode = Focus | ShortBreak | LongBreak

  /** Durations in minutes. parseInt accepts negative numbers, so no sign is
      assumed. */
  datatype Settings = Settings(focusTime: int, shortBreak: int, longBreak: int)

  datatype Stats = Stats(pomodorosCompleted: int, focusMinutes: int, breakMinutes: int)

  /** The 500 ms callback that completion schedules: after a focus session it
      offers a short break, after a break it offers to return to focus. */
  datatype Prompt = NoPrompt | OfferShortBreak | OfferFocus

  /** The localStorage entries 'pomodoroSettings' and 'pomodoroStats'
      (None: the key is absent or holds the empty string). */
  datatype Store = Store(settings: Option<Settings>, stats: Option<Stats>)

  /** What parseInt made of the three settings inputs (None: NaN). */
  datatype SettingsInput = SettingsInput(focusTime: Option<int>, shortBreak: Option<int>, longBreak: Option<int>)

  /** The whole state of the page's timer. The interval handle is implied
      by `isRunning`. */
  datatype Engine = Engine(
    settings: Settings,
    stats: Stats,
    mode: Mode,
    timeLeft: int,
    totalTime: int,
    isRunning: bool,
    prompt: Prompt,
    store: Store)

  const DefaultSettings := Settings(25, 5, 15)
  const ZeroStats := Stats(0, 0, 0)

  /** The configured minutes of a mode. */
  function Minutes(s: Settings, m: Mode): int {
    match m
    case Focus => s.focusTime
    case ShortBreak => s.shortBreak
    case LongBreak => s.longBreak
  }

  /** The configured duration of a mode, in seconds. */
  function Seconds(s: Settings, m: Mode): int {
    Minutes(s, m) * 60
  }

  /** What every operation keeps: the total is the configured duration of the
      current mode, and the countdown never exceeds it. (The countdown can
      be negative: see DeclinedBreakCountsTwice.) */
  predicate Inv(e: Engine) {
    e.totalTime == Seconds(e.settings, e.mode) && e.timeLeft <= e.totalTime
  }

  /** The module-level initial values (pomodoro.js:25-45). */
  function Initial(store: Store): (e: Engine)
    ensures Inv(e) && !e.isRunning && e.prompt == NoPrompt
  {
    Engine(DefaultSettings, ZeroStats, Focus, 25 * 60, 25 * 60, false, NoPrompt, store)
  }

  /** pauseTimer: stops a running timer; a no-op otherwise. */
  function Pause(e: Engine): (r: Engine)
    ensures !r.isRunning
    ensures r.(isRunning := e.isRunning) == e
    ensures Inv(e) ==> Inv(r)
  {
    if e.isRunning then e.(isRunning := false) else e
  }

  /** startTimer: starts a stopped timer; a no-op otherwise. */
  function Start(e: Engine): (r: Engine)
    ensures r.isRunning
    ensures r.(isRunning := e.isRunning) == e
    ensures Inv(e) ==> Inv(r)
  {
    if !e.isRunning then e.(isRunning := true) else e
  }

  /** setMode(m): pause first, then load the full duration of m. */
  function SetMode(e: Engine, m: Mode): (r: Engine)
    ensures r.mode == m && !r.isRunning
    ensures r.timeLeft == r.totalTime == Seconds(e.settings, m)
    ensures r.settings == e.settings && r.stats == e.stats
    ensures r.prompt == e.prompt && r.store == e.store
    ensures Inv(r)
  {
    var p := Pause(e);
    p.(mode := m, timeLeft := Seconds(p.settings, m), totalTime := Seconds(p.settings, m))
  }

  /** resetTimer: pause, then select the current mode again. */
  function Reset(e: Engine): (r: Engine)
    ensures r.mode == e.mode && !r.isRunning && r.timeLeft == r.totalTime
    ensures Inv(e) ==> r.totalTime == e.totalTime
    ensures r.settings == e.settings && r.stats == e.stats
    ensures r.prompt == e.prompt && r.store == e.store
  {
    var p := Pause(e);
    SetMode(p, p.mode)
  }

  /** The statistics after a session of mode m ends, with the minutes
      configured at that moment. */
  function Credit(st: Stats, s: Settings, m: Mode): (r: Stats)
    ensures r.pomodorosCompleted == st.pomodorosCompleted + (if m == Focus then 1 else 0)
    ensures r.focusMinutes + r.breakMinutes == st.focusMinutes + st.breakMinutes + Minutes(s, m)
    ensures m == Focus ==> r.breakMinutes == st.breakMinutes
    ensures m != Focus ==> r.focusMinutes == st.focusMinutes
  {
    match m
    case Focus => st.(pomodorosCompleted := st.pomodorosCompleted + 1, focusMinutes := st.focusMinutes + s.focusTime)
    case ShortBreak => st.(breakMinutes := st.breakMinutes + s.shortBreak)
    case LongBreak => st.(breakMinutes := st.breakMinutes + s.longBreak)
  }

  /** completeTimer: pause, credit the statistics by mode, schedule the
      follow-up prompt and write the statistics to the store. */
  function Complete(e: Engine): (r: Engine)
    ensures !r.isRunning
    ensures e.mode == Focus ==>
      && r.stats.pomodorosCompleted == e.stats.pomodorosCompleted + 1
      && r.stats.focusMinutes == e.stats.focusMinutes + e.settings.focusTime
      && r.stats.breakMinutes == e.stats.breakMinutes
      && r.prompt == OfferShortBreak
    ensures e.mode != Focus ==>
      && r.stats.pomodorosCompleted == e.stats.pomodorosCompleted
      && r.stats.focusMinutes == e.stats.focusMinutes
      && r.stats.breakMinutes == e.stats.breakMinutes + Minutes(e.settings, e.mode)
      && r.prompt == OfferFocus
    ensures r.store == e.store.(stats := Some(r.stats))
    ensures r.mode == e.mode && r.settings == e.settings
    ensures r.timeLeft == e.timeLeft && r.totalTime == e.totalTime
  {
    var p := Pause(e);
    var st := Credit(p.stats, p.settings, p.mode);
    p.(stats := st,
       prompt := if p.mode == Focus then OfferShortBreak else OfferFocus,
       store := p.store.(stats := Some(st)))
  }

  /** One run of the one-second interval body: decrement, then complete when
      the countdown is at or below zero. */
  function Tick(e: Engine): (r: Engine)
    requires e.isRunning
    ensures r.timeLeft == e.timeLeft - 1
    ensures r.isRunning <==> e.timeLeft - 1 > 0
    ensures r.isRunning ==> r == e.(timeLeft := e.timeLeft - 1)
    ensures !r.isRunning ==> r == Complete(e.(timeLeft := e.timeLeft - 1))
    ensures Inv(e) ==> Inv(r)
  {
    var d := e.(timeLeft := e.timeLeft - 1);
    if d.timeLeft <= 0 then Complete(d) else d
  }

  /** The user's answer to the pending prompt. After a focus session: a
      short break if accepted, a fresh focus session otherwise. After a
      break: focus if accepted, and nothing at all if declined. */
  function Answer(e: Engine, accepted: bool): (r: Engine)
    requires e.prompt != NoPrompt
    ensures r.prompt == NoPrompt
    ensures r.settings == e.settings && r.stats == e.stats && r.store == e.store
    ensures e.prompt == OfferShortBreak ==>
      r.mode == (if accepted then ShortBreak else Focus) && !r.isRunning && r.timeLeft == r.totalTime
    ensures e.prompt == OfferFocus && accepted ==>
      r.mode == Focus && !r.isRunning && r.timeLeft == r.totalTime
    ensures e.prompt == OfferFocus && !accepted ==> r == e.(prompt := NoPrompt)
    ensures Inv(e) ==> Inv(r)
  {
    var d := e.(prompt := NoPrompt);
    match e.prompt
    case OfferShortBreak => if accepted then SetMode(d, ShortBreak) else SetMode(d, Focus)
    case OfferFocus => if accepted then SetMode(d, Focus) else d
  }

  /** `parseInt(...) || fallback`: NaN and 0 fall back, every other number,
      negative ones included, is kept. */
  function OrDefault(parsed: Option<int>, fallback: int): (r: int)
    ensures (parsed.Some? && parsed.value != 0) ==> r == parsed.value
    ensures (parsed.None? || parsed.value == 0) ==> r == fallback
    ensures fallback != 0 ==> r != 0
  {
    if parsed.Some? && parsed.value != 0 then parsed.value else fallback
  }

  /** The settings applySettings builds from the parsed inputs. */
  function ParseSettings(input: SettingsInput): (s: Settings)
    ensures (input.focusTime.None? || input.focusTime.value == 0) ==> s.focusTime == 25
    ensures (input.focusTime.Some? && input.focusTime.value != 0) ==> s.focusTime == input.focusTime.value
    ensures (input.shortBreak.None? || input.shortBreak.value == 0) ==> s.shortBreak == 5
    ensures (input.shortBreak.Some? && input.shortBreak.value != 0) ==> s.shortBreak == input.shortBreak.value
    ensures (input.longBreak.None? || input.longBreak.value == 0) ==> s.longBreak == 15
    ensures (input.longBreak.Some? && input.longBreak.value != 0) ==> s.longBreak == input.longBreak.value
    ensures s.focusTime != 0 && s.shortBreak != 0 && s.longBreak != 0
  {
    Settings(OrDefault(input.focusTime, 25), OrDefault(input.shortBreak, 5), OrDefault(input.longBreak, 15))
  }

  /** applySettings: replace the settings, save them, then select the current
      mode again, which pauses a running timer and reloads its duration. */
  function ApplySettings(e: Engine, input: SettingsInput): (r: Engine)
    ensures r.settings == ParseSettings(input)
    ensures r.store == e.store.(settings := Some(r.settings))
    ensures r.mode == e.mode && !r.isRunning
    ensures r.timeLeft == r.totalTime == Seconds(r.settings, e.mode)
    ensures r.stats == e.stats && r.prompt == e.prompt
    ensures Inv(r)
  {
    var s := ParseSettings(input);
    var d := e.(settings := s, store := e.store.(settings := Some(s)));
    SetMode(d, d.mode)
  }

  /** loadSettings: a stored record replaces the settings; then the timer is
      put in focus mode whether or not there was one. */
  function LoadSettings(e: Engine): (r: Engine)
    ensures r.settings == e.store.settings.GetOr(e.settings)
    ensures r.mode == Focus && !r.isRunning && r.timeLeft == r.totalTime
    ensures r.stats == e.stats && r.prompt == e.prompt && r.store == e.store
    ensures Inv(r)
  {
    var d := if e.store.settings.Some? then e.(settings := e.store.settings.value) else e;
    SetMode(d, Focus)
  }

  /** loadStats: a stored record replaces the statistics (and is written
      back unchanged); absent, the current statistics stay. */
  function LoadStats(e: Engine): (r: Engine)
    ensures r.stats == e.store.stats.GetOr(e.stats)
    ensures r.store == e.store
    ensures r.(stats := e.stats) == e
    ensures Inv(e) ==> Inv(r)
  {
    match e.store.stats
    case Some(st) => e.(stats := st, store := e.store.(stats := Some(st)))
    case None => e
  }

  /** Page load: the initial values, then loadSettings, then loadStats. */
  function Boot(store: Store): (e: Engine)
    ensures e.settings == store.settings.GetOr(DefaultSettings)
    ensures e.stats == store.stats.GetOr(ZeroStats)
    ensures e.mode == Focus && !e.isRunning && e.prompt == NoPrompt
    ensures e.timeLeft == e.totalTime == Seconds(e.settings, Focus)
    ensures e.store == store
  {
    LoadStats(LoadSettings(Initial(store)))
  }

  /** n runs of the interval body; once completion has paused the timer the
      interval is gone and further seconds change nothing. */
  function Ticks(e: Engine, n: nat): Engine
    decreases n
  {
    if n == 0 || !e.isRunning then e else Ticks(Tick(e), n - 1)
  }

  /** Fewer ticks than the seconds left only count down. */
  lemma {:induction false} TicksCountDown(e: Engine, n: nat)
    requires e.isRunning && n < e.timeLeft
    ensures Ticks(e, n) == e.(timeLeft := e.timeLeft - n)
    decreases n
  {
    if n > 0 {
      TicksCountDown(Tick(e), n - 1);
    }
  }

  /** A running countdown with k >= 1 seconds left completes exactly once
      during the next n >= k seconds: the result is one completion at zero,
      whatever the surplus of seconds. */
  lemma {:induction false} SessionCompletesOnce(e: Engine, n: nat)
    requires e.isRunning && 1 <= e.timeLeft <= n
    ensures Ticks(e, n) == Complete(e.(timeLeft := 0))
    decreases n
  {
    if e.timeLeft > 1 {
      SessionCompletesOnce(Tick(e), n - 1);
    }
  }

  /** With defaults and nothing stored: select focus, start, let 1500
      seconds pass; one pomodoro and 25 focus minutes are recorded and the
      timer is paused at zero. */
  lemma FirstPomodoro()
    ensures var e := Ticks(Start(SetMode(Boot(Store(None, None)), Focus)), 1500);
      && e.stats == Stats(1, 25, 0)
      && !e.isRunning && e.timeLeft == 0 && e.prompt == OfferShortBreak
  {
    var s := Start(SetMode(Boot(Store(None, None)), Focus));
    SessionCompletesOnce(s, 1500);
  }

  /** A running timer at or below one second completes on the next tick
      (the test is `timeLeft <= 0`, not `== 0`). */
  lemma ExhaustedCompletesOnNextTick(e: Engine)
    requires e.isRunning && e.timeLeft <= 1
    ensures !Tick(e).isRunning && Tick(e).timeLeft == e.timeLeft - 1
    ensures Tick(e).stats == Credit(e.stats, e.settings, e.mode)
  {
  }

  /** A break that completes and whose prompt is declined stays at zero;
      pressing start again drives the countdown to -1 and credits the same
      break a second time. */
  lemma DeclinedBreakCountsTwice(e: Engine)
    requires e.isRunning && e.mode != Focus && e.timeLeft == 1 && Inv(e)
    ensures var done := Tick(e);
      var declined := Answer(done, false);
      var again := Tick(Start(declined));
      && declined.timeLeft == 0 && declined.mode == e.mode && !declined.isRunning
      && again.timeLeft == -1 && !again.isRunning
      && again.stats.breakMinutes == e.stats.breakMinutes + 2 * Minutes(e.settings, e.mode)
      && again.stats.pomodorosCompleted == e.stats.pomodorosCompleted
  {
  }

  /** start followed by pause gives back the paused state unchanged, and both
      are idempotent. */
  lemma StartPauseRoundTrip(e: Engine)
    ensures !e.isRunning ==> Pause(Start(e)) == e
    ensures Start(Start(e)) == Start(e)
    ensures Pause(Pause(e)) == Pause(e)
  {
  }

  /** What a later page load sees: after applying settings the stored
      settings come back, and after a completion the stored statistics come
      back. */
  lemma ReloadRestores(e: Engine, input: SettingsInput)
    ensures Boot(ApplySettings(e, input).store).settings == ApplySettings(e, input).settings
    ensures e.isRunning ==> Boot(Complete(e).store).stats == Complete(e).stats
  {
  }

  /** The user's commands and the clock, as one alphabet. A tick without a
      running interval and an answer without a pending prompt cannot occur
      on the page and leave the state as it is. */
  datatype Command =
    | SelectMode(m: Mode)
    | PressStart
    | PressPause
    | PressReset
    | Second
    | Reply(accepted: bool)
    | Apply(input: SettingsInput)

  function Step(e: Engine, c: Command): Engine {
    match c
    case SelectMode(m) => SetMode(e, m)
    case PressStart => Start(e)
    case PressPause => Pause(e)
    case PressReset => Reset(e)
    case Second => if e.isRunning then Tick(e) else e
    case Reply(accepted) => if e.prompt != NoPrompt then Answer(e, accepted) else e
    case Apply(input) => ApplySettings(e, input)
  }

  function Run(e: Engine, cs: seq<Command>): Engine
    decreases |cs|
  {
    if cs == [] then e else Run(Step(e, cs[0]), cs[1..])
  }

  /** Every state reachable from a page load keeps the invariant: the total
      is the configured duration of the mode and the countdown is at most
      the total. */
  lemma {:induction false} InvariantAlways(store: Store, cs: seq<Command>)
    ensures Inv(Run(Boot(store), cs))
  {
    RunKeepsInv(Boot(store), cs);
  }

  lemma {:induction false} RunKeepsInv(e: Engine, cs: seq<Command>)
    requires Inv(e)
    ensures Inv(Run(e, cs))
    decreases |cs|
  {
    if cs != [] {
      RunKeepsInv(Step(e, cs[0]), cs[1..]);
    }
  }

  /** Within a page session the number of completed pomodoros never goes
      down, and it grows by at most one per command. */
  lemma {:induction false} PomodorosMonotone(e: Engine, cs: seq<Command>)
    ensures e.stats.pomodorosCompleted <= Run(e, cs).stats.pomodorosCompleted
    ensures Run(e, cs).stats.pomodorosCompleted <= e.stats.pomodorosCompleted + |cs|
    decreases |cs|
  {
    if cs != [] {
      PomodorosMonotone(Step(e, cs[0]), cs[1..]);
    }
  }
}
