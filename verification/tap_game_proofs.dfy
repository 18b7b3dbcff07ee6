/**
  What the session logic guarantees over whole sequences of events:
  the high score never falls and always matches the store, the phases
  follow one another in order, taps count only while a game runs, and
  every interval is non-negative when time does not run backwards.
*/
module TapGameProofs {
  import opened TapGame

  // ---------------------------------------------------------------------
  // Reference definitions over event traces

  predicate IsTap(e: Event)
  {
    e.signal == ButtonPress || e.signal == ViewPress
  }

  /** The instants of the tap events of a trace, in order. */
  function TapTimes(trace: seq<Event>): (r: seq<int>)
    ensures |r| <= |trace|
  {
    if trace == [] then []
    else if IsTap(trace[0]) then [trace[0].at] + TapTimes(trace[1..])
    else TapTimes(trace[1..])
  }

  /** The differences between consecutive instants, the first taken from `prev`. */
  function Gaps(prev: int, ts: seq<int>): (r: seq<int>)
    ensures |r| == |ts|
    decreases |ts|
  {
    if ts == [] then [] else [ts[0] - prev] + Gaps(ts[0], ts[1..])
  }

  /** The last instant of `ts`, or `prev` when there is none. */
  function LastOr(prev: int, ts: seq<int>): int
  {
    if ts == [] then prev else ts[|ts| - 1]
  }

  /** No event of the trace comes from `s`. */
  predicate Lacks(trace: seq<Event>, s: Signal)
  {
    forall i :: 0 <= i < |trace| ==> trace[i].signal != s
  }

  /** Every event is no earlier than `from` and no earlier than the one before it. */
  predicate Chronological(from: int, trace: seq<Event>)
    decreases |trace|
  {
    trace == [] || (from <= trace[0].at && Chronological(trace[0].at, trace[1..]))
  }

  /** The instant of the last event, or `from` for an empty trace. */
  function Latest(from: int, trace: seq<Event>): int
    decreases |trace|
  {
    if trace == [] then from else Latest(trace[0].at, trace[1..])
  }

  predicate NonNegative(s: seq<int>)
  {
    forall i :: 0 <= i < |s| ==> s[i] >= 0
  }

  function WithoutRefresh(trace: seq<Event>): (r: seq<Event>)
    ensures Lacks(r, RefreshFires)
    ensures |r| <= |trace|
  {
    if trace == [] then []
    else if trace[0].signal == RefreshFires then WithoutRefresh(trace[1..])
    else [trace[0]] + WithoutRefresh(trace[1..])
  }

  // ---------------------------------------------------------------------
  // Traces compose

  lemma {:induction false} RunAppend(g: Game, a: seq<Event>, b: seq<Event>)
    ensures Run(g, a + b) == Run(Run(g, a), b)
    decreases |a|
  {
    if a == [] {
      assert a + b == b;
    } else {
      assert (a + b)[0] == a[0];
      assert (a + b)[1..] == a[1..] + b;
      RunAppend(Deliver(g, a[0]), a[1..], b);
    }
  }

  // ---------------------------------------------------------------------
  // High score

  /** Delivering any event keeps the store in step with the high score. */
  lemma DeliverKeepsPersisted(g: Game, e: Event)
    requires Persisted(g)
    ensures Persisted(Deliver(g, e))
  {
  }

  lemma {:induction false} RunKeepsPersisted(g: Game, trace: seq<Event>)
    requires Persisted(g)
    ensures Persisted(Run(g, trace))
    decreases |trace|
  {
    if trace != [] {
      DeliverKeepsPersisted(g, trace[0]);
      RunKeepsPersisted(Deliver(g, trace[0]), trace[1..]);
    }
  }

  lemma {:induction false} RunNeverLowersHighscore(g: Game, trace: seq<Event>)
    ensures Run(g, trace).highscore >= g.highscore
    decreases |trace|
  {
    if trace != [] {
      RunNeverLowersHighscore(Deliver(g, trace[0]), trace[1..]);
    }
  }

  /** From the loaded view onward the store and the high score agree and the score never drops below the stored one. */
  lemma LoadedSessionKeepsScore(defaults: map<string, int>, now: int, trace: seq<Event>)
    ensures Idle(ViewDidLoad(Initial(defaults, now)))
    ensures Persisted(Run(ViewDidLoad(Initial(defaults, now)), trace))
    ensures Run(ViewDidLoad(Initial(defaults, now)), trace).highscore >= StoredInteger(defaults, HighscoreKey)
  {
    var g := ViewDidLoad(Initial(defaults, now));
    RunKeepsPersisted(g, trace);
    RunNeverLowersHighscore(g, trace);
  }

  // ---------------------------------------------------------------------
  // Phases

  /**
    Idle, Running and Recovering are the only phases the delivered events
    lead to; Idle is left only by a button tap, Running only by the timeout
    and Recovering only by the end of the cooldown.
  */
  lemma DeliverKeepsPhases(g: Game, e: Event)
    requires Consistent(g)
    ensures Consistent(Deliver(g, e))
    ensures Idle(g) ==> Idle(Deliver(g, e)) || (e.signal == ButtonPress && Running(Deliver(g, e)))
    ensures Running(g) ==> Running(Deliver(g, e)) || (e.signal == TimeoutFires && Recovering(Deliver(g, e)))
    ensures Recovering(g) ==> Recovering(Deliver(g, e)) || (e.signal == RecoveryFires && Idle(Deliver(g, e)))
  {
  }

  lemma {:induction false} RunKeepsPhases(g: Game, trace: seq<Event>)
    requires Consistent(g)
    ensures Consistent(Run(g, trace))
    decreases |trace|
  {
    if trace != [] {
      DeliverKeepsPhases(g, trace[0]);
      RunKeepsPhases(Deliver(g, trace[0]), trace[1..]);
    }
  }

  /** A tap on the idle button starts a game with an empty interval list. */
  lemma IdleTapStartsGame(g: Game, e: Event)
    requires Idle(g) && IsTap(e)
    ensures e.signal == ButtonPress ==>
      var r := Deliver(g, e);
      Running(r) && r.deltas == [] && r.t0 == r.lastTap == e.at && r.highscore == g.highscore
    ensures e.signal == ViewPress ==> Deliver(g, e) == g
  {
  }

  /** A timer callback that has fired once is a no-op when delivered again. */
  lemma TimersFireOnce(g: Game, e: Event)
    requires e.signal == TimeoutFires || e.signal == RecoveryFires
    ensures Deliver(Deliver(g, e), e) == Deliver(g, e)
  {
  }

  /** The cooldown ends in the idle phase with the finished game's intervals and score kept. */
  lemma RecoveryEndsInIdle(g: Game, e: Event)
    requires Recovering(g) && e.signal == RecoveryFires
    ensures Idle(Deliver(g, e))
    ensures Deliver(g, e).deltas == g.deltas && Deliver(g, e).lastTap == g.lastTap
    ensures Deliver(g, e).highscore == g.highscore && Deliver(g, e).defaults == g.defaults
  {
  }

  // ---------------------------------------------------------------------
  // Counting

  /** While the button is disabled nothing but the end of the cooldown changes the state. */
  lemma {:induction false} RecoveringIgnoresInput(g: Game, trace: seq<Event>)
    requires Recovering(g) && Lacks(trace, RecoveryFires)
    ensures Run(g, trace) == g
    decreases |trace|
  {
    if trace != [] {
      assert trace[0].signal != RecoveryFires;
      assert Deliver(g, trace[0]) == g;
      RecoveringIgnoresInput(g, trace[1..]);
    }
  }

  /**
    While a game runs, each tap appends the interval since the previous one
    and nothing else changes.
  */
  lemma {:induction false} TapsWhileRunning(g: Game, trace: seq<Event>)
    requires Running(g) && Lacks(trace, TimeoutFires)
    ensures Run(g, trace).deltas == g.deltas + Gaps(g.lastTap, TapTimes(trace))
    ensures Run(g, trace).lastTap == LastOr(g.lastTap, TapTimes(trace))
    ensures Run(g, trace).(deltas := g.deltas, lastTap := g.lastTap) == g
    decreases |trace|
  {
    if trace != [] {
      var e := trace[0];
      assert e.signal != TimeoutFires;
      var h := Deliver(g, e);
      if IsTap(e) {
        assert h == Record(g, e.at);
        TapsWhileRunning(h, trace[1..]);
        var ts := TapTimes(trace[1..]);
        assert TapTimes(trace) == [e.at] + ts;
        assert Gaps(g.lastTap, [e.at] + ts) == [e.at - g.lastTap] + Gaps(e.at, ts);
        assert g.deltas + [e.at - g.lastTap] + Gaps(e.at, ts) == g.deltas + ([e.at - g.lastTap] + Gaps(e.at, ts));
      } else {
        assert h == g;
        TapsWhileRunning(h, trace[1..]);
        assert TapTimes(trace) == TapTimes(trace[1..]);
      }
    }
  }

  /**
    A whole game: a tap on the idle button, any events but the deadline, then
    the deadline.  The game ends recovering with exactly one interval per tap
    after the first, and the high score is the larger of the old one and that
    count.
  */
  lemma SessionCountsTaps(g: Game, start: Event, taps: seq<Event>, deadline: Event)
    requires Idle(g) && start.signal == ButtonPress
    requires Lacks(taps, TimeoutFires) && deadline.signal == TimeoutFires
    ensures var r := Run(g, [start] + taps + [deadline]);
      && Recovering(r)
      && r.deltas == Gaps(start.at, TapTimes(taps))
      && |r.deltas| == |TapTimes(taps)|
      && r.highscore == (if |TapTimes(taps)| > g.highscore then |TapTimes(taps)| else g.highscore)
  {
    var launched := Deliver(g, start);
    assert Run(g, [start]) == launched;
    RunAppend(g, [start], taps);
    RunAppend(g, [start] + taps, [deadline]);
    TapsWhileRunning(launched, taps);
  }

  // ---------------------------------------------------------------------
  // Intervals

  /**
    When events arrive in time order, starting no earlier than the last tap
    of a running game, every recorded interval is non-negative.
  */
  lemma {:induction false} IntervalsNonNegative(g: Game, from: int, trace: seq<Event>)
    requires NonNegative(g.deltas) && (g.running ==> g.lastTap <= from)
    requires Chronological(from, trace)
    ensures NonNegative(Run(g, trace).deltas)
    ensures Run(g, trace).running ==> Run(g, trace).lastTap <= Latest(from, trace)
    decreases |trace|
  {
    if trace != [] {
      var h := Deliver(g, trace[0]);
      assert NonNegative(h.deltas) && (h.running ==> h.lastTap <= trace[0].at);
      IntervalsNonNegative(h, trace[0].at, trace[1..]);
    }
  }

  /** The refresh timer only redraws: dropping its events changes nothing. */
  lemma {:induction false} RefreshIsCosmetic(g: Game, trace: seq<Event>)
    ensures Run(g, WithoutRefresh(trace)) == Run(g, trace)
    decreases |trace|
  {
    if trace != [] {
      if trace[0].signal == RefreshFires {
        RefreshIsCosmetic(g, trace[1..]);
      } else {
        var rest := WithoutRefresh(trace[1..]);
        assert ([trace[0]] + rest)[0] == trace[0];
        assert ([trace[0]] + rest)[1..] == rest;
        RefreshIsCosmetic(Deliver(g, trace[0]), trace[1..]);
      }
    }
  }
}
