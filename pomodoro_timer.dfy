/** The timer of js/pomodoro.js as the page runs it: one object whose
    fields are the `settings` and `stats` records, the fields of
    `timerState`, the pending confirm() callback and the two localStorage
    entries, updated in place by one method per function of the script.
    Every method is proved to take the object from View() to the state the
    corresponding TimerEngine function gives, so the lemmas about those
    functions hold of the object. */
module PomodoroTimer {
  import opened Wrappers
  import opened TimerEngine

  class Timer {
    var settings: Settings
    var stats: Stats
    var mode: Mode
    var timeLeft: int
    var totalTime: int
    var isRunning: bool
    var prompt: Prompt
    var store: Store

    /** The object's state as an engine value. */
    function View(): Engine
      reads this
    {
      Engine(settings, stats, mode, timeLeft, totalTime, isRunning, prompt, store)
    }

    predicate Valid()
      reads this
    {
      Inv(View())
    }

    /** The module-level initial values; `saved` is what localStorage holds
        when the page loads. */
    constructor (saved: Store)
      ensures Valid() && View() == Initial(saved)
    {
      settings := Settings(25, 5, 15);
      stats := Stats(0, 0, 0);
      mode := Focus;
      timeLeft := 25 * 60;
      totalTime := 25 * 60;
      isRunning := false;
      prompt := NoPrompt;
      store := saved;
    }

    method Pause()
      modifies this
      ensures View() == TimerEngine.Pause(old(View()))
      ensures old(Valid()) ==> Valid()
    {
      if isRunning {
        isRunning := false;
      }
    }

    method Start()
      modifies this
      ensures View() == TimerEngine.Start(old(View()))
      ensures old(Valid()) ==> Valid()
    {
      if !isRunning {
        isRunning := true;
      }
    }

    method SetMode(m: Mode)
      modifies this
      ensures View() == TimerEngine.SetMode(old(View()), m)
      ensures Valid()
    {
      if isRunning {
        Pause();
      }
      mode := m;
      match m
      case Focus =>
        timeLeft := settings.focusTime * 60;
        totalTime := settings.focusTime * 60;
      case ShortBreak =>
        timeLeft := settings.shortBreak * 60;
        totalTime := settings.shortBreak * 60;
      case LongBreak =>
        timeLeft := settings.longBreak * 60;
        totalTime := settings.longBreak * 60;
    }

    method Reset()
      modifies this
      ensures View() == TimerEngine.Reset(old(View()))
      ensures Valid()
    {
      Pause();
      SetMode(mode);
    }

    /** updateStats: write the statistics to localStorage. */
    method SaveStats()
      modifies this
      ensures View() == old(View()).(store := old(store).(stats := Some(old(stats))))
    {
      store := store.(stats := Some(stats));
    }

    method Complete()
      modifies this
      ensures View() == TimerEngine.Complete(old(View()))
      ensures old(Valid()) ==> Valid()
    {
      Pause();
      if mode == Focus {
        stats := stats.(pomodorosCompleted := stats.pomodorosCompleted + 1);
        stats := stats.(focusMinutes := stats.focusMinutes + settings.focusTime);
        prompt := OfferShortBreak;
      } else {
        var breakMinutes := if mode == ShortBreak then settings.shortBreak else settings.longBreak;
        stats := stats.(breakMinutes := stats.breakMinutes + breakMinutes);
        prompt := OfferFocus;
      }
      SaveStats();
    }

    /** The body of the one-second interval that Start installs. */
    method Tick()
      requires isRunning
      modifies this
      ensures View() == TimerEngine.Tick(old(View()))
      ensures old(Valid()) ==> Valid()
    {
      timeLeft := timeLeft - 1;
      if timeLeft <= 0 {
        Complete();
      }
    }

    /** The 500 ms callback after completion, with the confirm() answer. */
    method Answer(accepted: bool)
      requires prompt != NoPrompt
      modifies this
      ensures View() == TimerEngine.Answer(old(View()), accepted)
      ensures old(Valid()) ==> Valid()
    {
      var offered := prompt;
      prompt := NoPrompt;
      if offered == OfferShortBreak {
        if accepted {
          SetMode(ShortBreak);
        } else {
          SetMode(Focus);
        }
      } else if accepted {
        SetMode(Focus);
      }
    }

    method ApplySettings(input: SettingsInput)
      modifies this
      ensures View() == TimerEngine.ApplySettings(old(View()), input)
      ensures Valid()
    {
      settings := settings.(focusTime := OrDefault(input.focusTime, 25));
      settings := settings.(shortBreak := OrDefault(input.shortBreak, 5));
      settings := settings.(longBreak := OrDefault(input.longBreak, 15));
      store := store.(settings := Some(settings));
      SetMode(mode);
    }

    method LoadSettings()
      modifies this
      ensures View() == TimerEngine.LoadSettings(old(View()))
      ensures Valid()
    {
      if store.settings.Some? {
        settings := store.settings.value;
      }
      SetMode(Focus);
    }

    method LoadStats()
      modifies this
      ensures View() == TimerEngine.LoadStats(old(View()))
      ensures old(Valid()) ==> Valid()
    {
      if store.stats.Some? {
        stats := store.stats.value;
        SaveStats();
      }
    }
  }

  /** The page's start-up sequence: create the state, loadSettings(),
      loadStats(). */
  method Boot(saved: Store) returns (t: Timer)
    ensures fresh(t) && t.Valid() && t.View() == TimerEngine.Boot(saved)
  {
    t := new Timer(saved);
    t.LoadSettings();
    t.LoadStats();
  }

  /** A caller's view of the object: a full focus session on a fresh page
      with nothing stored ends with one pomodoro recorded. */
  method FocusSessionOnFreshPage() returns (t: Timer)
    ensures fresh(t) && t.stats == Stats(1, 25, 0) && !t.isRunning && t.prompt == OfferShortBreak
  {
    t := Boot(Store(None, None));
    t.SetMode(Focus);
    t.Start();
    ghost var started := t.View();
    var n := 0;
    while n < 1500
      invariant 0 <= n <= 1500
      invariant t.isRunning <==> n < 1500
      invariant n < 1500 ==> t.View() == started.(timeLeft := 1500 - n)
      invariant n == 1500 ==> t.View() == Complete(started.(timeLeft := 0))
    {
      t.Tick();
      n := n + 1;
    }
  }
}
