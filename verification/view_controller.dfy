/**
  The view controller of the tap game, with its fields updated in place.
  Every event handler is proved to leave the controller in the state the
  corresponding function of module TapGame computes from the old state, so
  the properties proved there about sequences of events hold of the
  controller.
*/
module TapController {
  import TapGame

  class ViewController {
    var running: bool
    var t0: int
    var lastTap: int
    var deltas: seq<int>
    var highscore: int
    /** The user defaults store the high score is persisted in. */
    var defaults: map<string, int>
    /** Whether the tap button is enabled. */
    var tapEnabled: bool
    /** Whether the progress, window and cooldown timers are scheduled and valid. */
    var refreshTimer: bool
    var timeoutTimer: bool
    var recoveryTimer: bool

    /** The controller's fields as one value. */
    function State(): TapGame.Game
      reads this
    {
      TapGame.Game(running, t0, lastTap, deltas, highscore, defaults,
                   tapEnabled, refreshTimer, timeoutTimer, recoveryTimer)
    }

    /** The property initialisers, run at instant `now` over the given defaults store. */
    constructor (store: map<string, int>, now: int)
      ensures State() == TapGame.Initial(store, now)
      ensures TapGame.Idle(State())
    {
      running := false;
      t0 := now;
      lastTap := now;
      deltas := [];
      highscore := 0;
      defaults := store;
      tapEnabled := true;
      refreshTimer := false;
      timeoutTimer := false;
      recoveryTimer := false;
    }

    /** Assigning the high score; the property observer persists the new value. */
    method SetHighscore(v: int)
      modifies this
      ensures highscore == v && defaults == old(defaults)[TapGame.HighscoreKey := v]
      ensures TapGame.Persisted(State())
      ensures State() == TapGame.SetHighscore(old(State()), v)
    {
      highscore := v;
      defaults := defaults[TapGame.HighscoreKey := v];
    }

    method ViewDidLoad()
      modifies this
      ensures highscore == TapGame.StoredInteger(old(defaults), TapGame.HighscoreKey)
      ensures TapGame.Persisted(State())
      ensures State() == TapGame.ViewDidLoad(old(State()))
    {
      SetHighscore(TapGame.StoredInteger(defaults, TapGame.HighscoreKey));
    }

    method LaunchGame(now: int)
      modifies this
      ensures running && deltas == [] && t0 == now && lastTap == now
      ensures highscore == old(highscore) && defaults == old(defaults)
      ensures State() == TapGame.LaunchGame(old(State()), now)
    {
      running := true;
      deltas := [];
      refreshTimer := true;
      timeoutTimer := true;
      t0 := now;
      lastTap := now;
    }

    method Tapped(now: int)
      modifies this
      ensures old(running) ==> deltas == old(deltas) + [now - old(lastTap)] && lastTap == now && running
      ensures !old(running) ==> running && deltas == [] && t0 == lastTap == now
      ensures highscore == old(highscore) && defaults == old(defaults) && tapEnabled == old(tapEnabled)
      ensures State() == TapGame.Tapped(old(State()), now)
    {
      if running {
        var dt := now - lastTap;
        deltas := deltas + [dt];
        lastTap := now;
      } else {
        LaunchGame(now);
      }
    }

    method MouseDown(now: int)
      modifies this
      ensures old(running) ==> deltas == old(deltas) + [now - old(lastTap)] && lastTap == now
      ensures !old(running) ==> State() == old(State())
      ensures State() == TapGame.MouseDown(old(State()), now)
    {
      if running {
        var dt := now - lastTap;
        deltas := deltas + [dt];
        lastTap := now;
      }
    }

    /**
      The guard of the statistics routine: it computes nothing for fewer than
      three intervals, and otherwise divides by one less than their number.
      The result is that divisor, or None when the routine returns early.
    */
    method CalcStatistics() returns (divisor: TapGame.Option<int>)
      ensures divisor.Some? <==> |deltas| > 2
      ensures divisor.Some? ==> divisor.value == |deltas| - 1 && divisor.value >= 2
    {
      if |deltas| <= 2 {
        return TapGame.None;
      }
      divisor := TapGame.Some(|deltas| - 1);
    }

    method TimedOut()
      modifies this
      ensures highscore == if |old(deltas)| > old(highscore) then |old(deltas)| else old(highscore)
      ensures !running && !tapEnabled && recoveryTimer && !timeoutTimer && !refreshTimer
      ensures deltas == old(deltas)
      ensures TapGame.Persisted(old(State())) ==> TapGame.Persisted(State())
      ensures State() == TapGame.TimedOut(old(State()))
    {
      refreshTimer := false;
      timeoutTimer := false;
      if |deltas| > highscore {
        SetHighscore(|deltas|);
      }
      running := false;
      tapEnabled := false;
      recoveryTimer := true;
      var divisor := CalcStatistics();
    }

    method Reset()
      modifies this
      ensures !running
      ensures State() == TapGame.Reset(old(State()))
    {
      running := false;
    }

    /** Appearing on screen shows the start screen. */
    method ViewDidAppear()
      modifies this
      ensures !running
      ensures State() == TapGame.Reset(old(State()))
    {
      Reset();
    }

    method Recover()
      modifies this
      ensures tapEnabled && !running && deltas == old(deltas)
      ensures State() == TapGame.Recover(old(State()))
    {
      tapEnabled := true;
      Reset();
    }

    /**
      One event as the application delivers it: the button's action only
      while the button is enabled, each timer's callback only while that
      timer is valid.
    */
    method Deliver(e: TapGame.Event)
      modifies this
      ensures TapGame.Consistent(old(State())) ==> TapGame.Consistent(State())
      ensures TapGame.Persisted(old(State())) ==> TapGame.Persisted(State())
      ensures highscore >= old(highscore)
      ensures State() == TapGame.Deliver(old(State()), e)
    {
      match e.signal
      case ButtonPress =>
        if tapEnabled {
          Tapped(e.at);
        }
      case ViewPress =>
        MouseDown(e.at);
      case RefreshFires =>
      case TimeoutFires =>
        if timeoutTimer {
          TimedOut();
        }
      case RecoveryFires =>
        if recoveryTimer {
          recoveryTimer := false;
          Recover();
        }
    }
  }
}
