# Tap game session logic

A model of the session logic of the TurboClicker tap game (`Tap/ViewController.swift`):
the player clicks as often as possible during a five-second window, the controller
records the interval between consecutive taps, raises the persisted high score when
the tap count beats it, disables the button for a three-second cooldown and then
returns to the start screen.

The model has three parts.

- `tap_game.dfy`, module `TapGame`: the controller's fields as one value (`Game`) and
  one function per event handler (`Tapped`, `MouseDown`, `LaunchGame`, `TimedOut`,
  `Reset`, `Recover`, the high-score setter `SetHighscore` and `ViewDidLoad`), plus
  `Deliver`, which hands one event to the controller the way the application does: the
  button's action only while the button is enabled, a timer's callback only while that
  timer is valid, a one-shot timer spent once it has fired. The view appearing on screen
  is not one of these events (see "Left out").
- `view_controller.dfy`, module `TapController`: the class `ViewController` with the
  source's fields, updated in place by methods with `modifies this`. Each method that
  changes the fields is proved to leave `State()` equal to a `TapGame` function of the
  old state (`ViewDidAppear` to `TapGame.Reset`, the others to the function of the same
  name), and states its effect on the fields directly. `CalcStatistics` changes no
  modelled field; its contract is about the divisor it would use.
- `tap_game_proofs.dfy`, module `TapGameProofs`: properties of whole event sequences
  (`Run`). The high score never decreases and always equals the stored one. The
  delivered events lead only to the three phases Idle, Running and Recovering. While a game runs,
  each tap appends the gap since the previous tap. A full game records exactly one
  interval per tap after the starting one. Input during the cooldown is ignored.
  Intervals are non-negative when events arrive in time order. The refresh timer does
  not affect the outcome.

Modelling choices:

- `Date()` becomes an integer instant `now` carried by each event; an interval is
  `now - lastTap` in the same unit.
- The `UserDefaults` store is the field `defaults: map<string, int>`. Reading a key that
  is absent gives 0 (`StoredInteger`).
- The timers are three booleans that say whether each timer is scheduled and valid.
  Their firing is an explicit event (`TimeoutFires`, `RecoveryFires`, `RefreshFires`).
- The source's "timed out" and "recovering" states are one phase (`Recovering`): the
  timeout handler disables the button and arms the recovery timer in the same call.
- The tap that starts a game is not counted: it launches the game and records no
  interval. A game of one starting tap and k further taps has k intervals and scores k.
- The button starts enabled; that is the default for an interface-builder button.
- Intervals are not clamped at zero. `tapped` and `mouseDown` record `now - lastTap`
  as it is, so a clock that goes backwards yields a negative interval. Non-negativity is
  therefore proved only for events in time order (`IntervalsNonNegative`).

## Model

| member | source | states |
|---|---|---|
| TapGame.StoredInteger | Tap/ViewController.swift:129 | reading the store gives the stored integer, or 0 when the key is absent |
| TapGame.Initial | Tap/ViewController.swift:17-24 | a fresh controller is idle: not running, no intervals, high score 0, t0 and lastTap at the creation instant |
| TapGame.SetHighscore | Tap/ViewController.swift:40-44 | assigning the high score writes the same value under "highscore" in the store and changes nothing else |
| TapGame.ViewDidLoad | Tap/ViewController.swift:127-130 | loading takes the high score from the store (0 if absent) and writes exactly that value back under "highscore", leaving other keys; afterwards store and memory agree |
| TapGame.LaunchGame | Tap/ViewController.swift:102-114 | a launched game is running with an empty interval list, t0 == lastTap == now, both game timers armed; high score and store untouched |
| TapGame.Record | Tap/ViewController.swift:117-121 | an accepted tap appends exactly one element now - lastTap, keeps the earlier elements and sets lastTap to now; nothing else changes |
| TapGame.Tapped | Tap/ViewController.swift:116-125 | while running the button records a tap; otherwise it launches a fresh game exactly as LaunchGame (running, no intervals, t0 == lastTap == now, game timers armed); high score, store and button unaffected |
| TapGame.MouseDown | Tap/ViewController.swift:142-149 | a press on the view records a tap while running and otherwise leaves the whole state unchanged |
| TapGame.TimedOut | Tap/ViewController.swift:52-65 | the high score becomes max(highscore, count of intervals) and is persisted only when it rises; the game stops, the button is disabled, the recovery timer armed; intervals kept |
| TapGame.Reset | Tap/ViewController.swift:84-94 | reset stops the game and changes nothing else in the model |
| TapGame.Recover | Tap/ViewController.swift:96-100 | recovery re-enables the button and stops the game; intervals, high score and store are kept |
| TapGame.Deliver | Tap/ViewController.swift:53-63 | a button press runs tapped only while the button is enabled, a view press runs mouseDown, refresh ticks change nothing, and a timer callback runs timedOut or recover only while its timer is still valid and otherwise does nothing |
| TapController.ViewController.constructor | Tap/ViewController.swift:17-24 | the initialised controller equals TapGame.Initial and is idle |
| TapController.ViewController.SetHighscore | Tap/ViewController.swift:40-44 | the setter updates the field and the stored value to the same number |
| TapController.ViewController.ViewDidLoad | Tap/ViewController.swift:127-130 | the field holds the stored high score and the two agree |
| TapController.ViewController.LaunchGame | Tap/ViewController.swift:102-114 | the fields become those of TapGame.LaunchGame: running, empty intervals, t0 == lastTap == now |
| TapController.ViewController.Tapped | Tap/ViewController.swift:116-125 | appends now - lastTap while running, otherwise launches; equals TapGame.Tapped |
| TapController.ViewController.MouseDown | Tap/ViewController.swift:142-149 | appends now - lastTap while running, otherwise leaves every field unchanged |
| TapController.ViewController.CalcStatistics | Tap/ViewController.swift:67-79 | the statistics are computed exactly when there are more than two intervals, and then the divisor count - 1 is at least 2 |
| TapController.ViewController.TimedOut | Tap/ViewController.swift:52-65 | high score becomes max(highscore, count), store kept in step, game stopped, button disabled, recovery timer armed, intervals unchanged |
| TapController.ViewController.Reset | Tap/ViewController.swift:84-94 | the game is not running; equals TapGame.Reset |
| TapController.ViewController.ViewDidAppear | Tap/ViewController.swift:138-140 | appearing resets the controller |
| TapController.ViewController.Recover | Tap/ViewController.swift:96-100 | the button is enabled, the game not running and the intervals retained |
| TapController.ViewController.Deliver | Tap/ViewController.swift:59-63 | delivering any event keeps the phases consistent, keeps store and high score in step and never lowers the high score |
| TapGameProofs.RunKeepsPersisted | Tap/ViewController.swift:40-44 | after any sequence of events the stored high score still equals the one in memory |
| TapGameProofs.RunNeverLowersHighscore | Tap/ViewController.swift:55-57 | no sequence of events lowers the high score |
| TapGameProofs.LoadedSessionKeepsScore | Tap/ViewController.swift:127-130 | after loading, the controller is idle, and after any events the store agrees with memory and the score is at least the stored one |
| TapGameProofs.DeliverKeepsPhases | Tap/ViewController.swift:52-114 | every delivered event keeps the controller in Idle, Running or Recovering; Idle is left only for Running by a button tap, Running only for Recovering by the timeout, Recovering only for Idle by the end of the cooldown |
| TapGameProofs.RunKeepsPhases | Tap/ViewController.swift:52-114 | any sequence of delivered events keeps the controller in one of the three phases |
| TapGameProofs.IdleTapStartsGame | Tap/ViewController.swift:116-124 | on the idle screen a button tap starts a game with no intervals and t0 == lastTap == now; a press on the view is ignored |
| TapGameProofs.TimersFireOnce | Tap/ViewController.swift:53-54 | a timeout or recovery callback delivered twice has the effect of delivering it once |
| TapGameProofs.RecoveryEndsInIdle | Tap/ViewController.swift:96-100 | the end of the cooldown leads to Idle with intervals, lastTap, high score and store kept |
| TapGameProofs.RecoveringIgnoresInput | Tap/ViewController.swift:58-59 | during the cooldown no event except the recovery timer changes anything |
| TapGameProofs.TapsWhileRunning | Tap/ViewController.swift:117-121 | while a game runs, the interval list grows by exactly the gaps between successive tap instants, starting from lastTap, and nothing else changes |
| TapGameProofs.SessionCountsTaps | Tap/ViewController.swift:102-125 | a game from the starting tap to the timeout ends recovering with one interval per further tap and high score max(old, that count) |
| TapGameProofs.IntervalsNonNegative | Tap/ViewController.swift:118-119 | when events arrive in time order every recorded interval is non-negative |
| TapGameProofs.RefreshIsCosmetic | Tap/ViewController.swift:47-50 | removing all refresh-timer events from a sequence does not change the final state |

## Left out

- The user interface: outlets, label and button titles, the progress indicator and
  `refresh`'s redraw (lines 11-15, 47-50, 60-62, 86-93, 97). They only display state.
  `recover` writes the tap count to the taps label, and the `reset` it calls then
  overwrites that label with "0". Because labels are not modelled, the displayed count
  is not modelled either; only the retained intervals are.
- The floating-point body of `calcStatistics` (mean, variance, square root, minimum,
  maximum, debug output, lines 69-81), and the `meanDelta`, `variance` and `stddev`
  fields it writes. Only its guard is modelled.
- Timer scheduling and the run loop: timers are booleans and their firing is an explicit
  event, so the five-second window (line 17) and the three-second cooldown (line 63)
  bound nothing in the model.
- Deliver, DeliverKeepsPhases, RunKeepsPhases: `viewDidAppear` (lines 138-140) is taken
  to happen once, before the first tap, so it is not an event of `Deliver`. If it came
  again during a game, its `reset` would stop the game while the refresh and timeout
  timers stay valid, a state outside the three phases. The next tap would then schedule
  new timers without invalidating the old ones (lines 110-111). One boolean per timer
  cannot represent two scheduled timers, so re-arming a still-valid timer is not
  modelled, and the phase lemmas hold only for the events `Deliver` has.
- Wall-clock reads: `tapped` and `mouseDown` call `Date()` twice, once for the interval
  and once for the new `lastTap`. The model uses a single instant per event.
- Double-precision time intervals: intervals are integers.
- The unused `TapModel` class, the empty property observers and `representedObject`.
- The content of `UserDefaults` beyond an integer per key: it is a map from keys to
  integers.
