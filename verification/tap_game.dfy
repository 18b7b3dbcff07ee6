/**
  The tap game's session logic as values: a snapshot of the controller's
  fields and one function per event handler.  These functions are the
  specification the imperative controller (module TapController) is proved
  against, and the lemmas of module TapGameProofs are stated over them.

  Time is an integer number of ticks supplied with every event; an interval
  is the difference of two such instants.
*/
module TapGame {

  datatype Option<T> = None | Some(value: T)

  /** Key of the persisted high score in the defaults store. */
  const HighscoreKey: string := "highscore"

  /**
    Everything the session logic reads or writes.  The three timer flags say
    whether the corresponding timer is scheduled and not yet invalidated.
  */
  datatype Game = Game(
    running: bool,
    t0: int,
    lastTap: int,
    deltas: seq<int>,
    highscore: int,
    defaults: map<string, int>,
    enabled: bool,
    refreshTimer: bool,
    timeoutTimer: bool,
    recoveryTimer: bool)

  /** The integer stored under `key`, or 0 when nothing is stored there. */
  function StoredInteger(defaults: map<string, int>, key: string): (r: int)
    ensures key in defaults ==> r == defaults[key]
    ensures key !in defaults ==> r == 0
  {
    if key in defaults then defaults[key] else 0
  }

  /** The persisted high score agrees with the one in memory. */
  predicate Persisted(g: Game)
  {
    StoredInteger(g.defaults, HighscoreKey) == g.highscore
  }

  // ---------------------------------------------------------------------
  // Phases of a session, as combinations of the fields

  /** Waiting for the first tap: the button is enabled, no timer is armed. */
  predicate Idle(g: Game)
  {
    !g.running && g.enabled && !g.refreshTimer && !g.timeoutTimer && !g.recoveryTimer
  }

  /** Counting taps until the timeout timer fires. */
  predicate Running(g: Game)
  {
    g.running && g.enabled && g.refreshTimer && g.timeoutTimer && !g.recoveryTimer
  }

  /** Window over: the button is disabled until the recovery timer fires. */
  predicate Recovering(g: Game)
  {
    !g.running && !g.enabled && !g.refreshTimer && !g.timeoutTimer && g.recoveryTimer
  }

  predicate Consistent(g: Game)
  {
    Idle(g) || Running(g) || Recovering(g)
  }

  // ---------------------------------------------------------------------
  // Event handlers

  /** The controller as its property initialisers leave it, at instant `now`. */
  function Initial(defaults: map<string, int>, now: int): (r: Game)
    ensures Idle(r) && r.deltas == [] && r.highscore == 0
    ensures r.t0 == r.lastTap == now && r.defaults == defaults
  {
    Game(false, now, now, [], 0, defaults, true, false, false, false)
  }

  /** Assignment to the high score: its observer writes the value through to the store. */
  function SetHighscore(g: Game, v: int): (r: Game)
    ensures r.highscore == v && Persisted(r)
    ensures r.defaults == g.defaults[HighscoreKey := v]
    ensures r.(highscore := g.highscore, defaults := g.defaults) == g
  {
    g.(highscore := v, defaults := g.defaults[HighscoreKey := v])
  }

  /** Loading the view reads the stored high score and assigns it. */
  function ViewDidLoad(g: Game): (r: Game)
    ensures Persisted(r)
    ensures r.highscore == StoredInteger(g.defaults, HighscoreKey)
    ensures r.defaults == g.defaults[HighscoreKey := r.highscore]
    ensures HighscoreKey in g.defaults ==> r.defaults == g.defaults
    ensures r.(highscore := g.highscore, defaults := g.defaults) == g
  {
    SetHighscore(g, StoredInteger(g.defaults, HighscoreKey))
  }

  /** Starting a game: an empty interval list and both timestamps at `now`. */
  function LaunchGame(g: Game, now: int): (r: Game)
    ensures r.running && r.deltas == [] && r.t0 == now && r.lastTap == now
    ensures r.refreshTimer && r.timeoutTimer
    ensures r.highscore == g.highscore && r.defaults == g.defaults
    ensures r.enabled == g.enabled && r.recoveryTimer == g.recoveryTimer
  {
    g.(running := true, deltas := [], refreshTimer := true, timeoutTimer := true, t0 := now, lastTap := now)
  }

  /** An accepted tap: the interval since the previous tap is appended. */
  function Record(g: Game, now: int): (r: Game)
    ensures |r.deltas| == |g.deltas| + 1
    ensures r.deltas[..|g.deltas|] == g.deltas && r.deltas[|g.deltas|] == now - g.lastTap
    ensures r.lastTap == now
    ensures r.(deltas := g.deltas, lastTap := g.lastTap) == g
  {
    g.(deltas := g.deltas + [now - g.lastTap], lastTap := now)
  }

  /** The tap button's action: counts a tap while running, otherwise starts a game. */
  function Tapped(g: Game, now: int): (r: Game)
    ensures g.running ==> r == Record(g, now)
    ensures !g.running ==> r == LaunchGame(g, now)
    ensures !g.running ==> r.running && r.deltas == [] && r.t0 == r.lastTap == now
    ensures r.highscore == g.highscore && r.defaults == g.defaults && r.enabled == g.enabled
  {
    if g.running then Record(g, now) else LaunchGame(g, now)
  }

  /** A mouse press on the view: counts a tap while running and is otherwise ignored. */
  function MouseDown(g: Game, now: int): (r: Game)
    ensures g.running ==> r == Record(g, now)
    ensures !g.running ==> r == g
  {
    if g.running then Record(g, now) else g
  }

  /**
    The end of the play window: both game timers are invalidated, the high
    score is raised to the tap count when that is larger, the game stops, the
    button is disabled and the recovery timer is armed.
  */
  function TimedOut(g: Game): (r: Game)
    ensures r.highscore == if |g.deltas| > g.highscore then |g.deltas| else g.highscore
    ensures r.highscore >= g.highscore && r.highscore >= |g.deltas|
    ensures r.defaults == if |g.deltas| > g.highscore then g.defaults[HighscoreKey := |g.deltas|] else g.defaults
    ensures Recovering(r)
    ensures r.deltas == g.deltas && r.t0 == g.t0 && r.lastTap == g.lastTap
  {
    var h := if |g.deltas| > g.highscore then SetHighscore(g, |g.deltas|) else g;
    h.(running := false, enabled := false, refreshTimer := false, timeoutTimer := false, recoveryTimer := true)
  }

  /** Back to the start screen: the game is no longer running. */
  function Reset(g: Game): (r: Game)
    ensures !r.running && r.(running := g.running) == g
  {
    g.(running := false)
  }

  /** End of the cooldown: the button is enabled again and the game reset; the intervals stay. */
  function Recover(g: Game): (r: Game)
    ensures r.enabled && !r.running
    ensures r.(enabled := g.enabled, running := g.running) == g
  {
    Reset(g.(enabled := true))
  }

  // ---------------------------------------------------------------------
  // Event delivery

  /** Where an event comes from. */
  datatype Signal =
    | ButtonPress    // the tap button is clicked
    | ViewPress      // the mouse is pressed on the view
    | RefreshFires   // the repeating progress timer fires
    | TimeoutFires   // the one-shot window timer fires
    | RecoveryFires  // the one-shot cooldown timer fires

  datatype Event = Event(signal: Signal, at: int)

  /**
    One event as the application delivers it: a disabled button sends no
    action, a timer calls back only while it is valid and a one-shot timer is
    spent once it has fired.  The progress refresh only redraws.  The view
    appearing is not among the events: it is taken to happen once, before the
    first tap.
  */
  function Deliver(g: Game, e: Event): (r: Game)
    ensures e.signal == ButtonPress ==> r == if g.enabled then Tapped(g, e.at) else g
    ensures e.signal == ViewPress ==> r == MouseDown(g, e.at)
    ensures e.signal == RefreshFires ==> r == g
    ensures e.signal == TimeoutFires && !g.timeoutTimer ==> r == g
    ensures e.signal == TimeoutFires && g.timeoutTimer ==> r == TimedOut(g)
    ensures e.signal == TimeoutFires && g.timeoutTimer ==> !r.timeoutTimer && r.recoveryTimer
    ensures e.signal == RecoveryFires && !g.recoveryTimer ==> r == g
    ensures e.signal == RecoveryFires && g.recoveryTimer ==> r == Recover(g.(recoveryTimer := false))
    ensures e.signal == RecoveryFires && g.recoveryTimer ==> !r.recoveryTimer && r.enabled && !r.running
  {
    match e.signal
    case ButtonPress => if g.enabled then Tapped(g, e.at) else g
    case ViewPress => MouseDown(g, e.at)
    case RefreshFires => g
    case TimeoutFires => if g.timeoutTimer then TimedOut(g) else g
    case RecoveryFires => if g.recoveryTimer then Recover(g.(recoveryTimer := false)) else g
  }

  /** The state after a sequence of events, delivered in order. */
  function Run(g: Game, trace: seq<Event>): Game
    decreases |trace|
  {
    if trace == [] then g else Run(Deliver(g, trace[0]), trace[1..])
  }
}
