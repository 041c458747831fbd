/** The sliding-window circuit breaker of the provider registry. */
module Breaker {
  import opened Basics

  datatype CircuitState = Closed | Open | HalfOpen

  datatype Config = Config(threshold: int, window: real, openSeconds: real)

  /** A breaker's value: the failure deque, the stored state and when it was last tripped. */
  datatype Circuit = Circuit(fails: seq<real>, state: CircuitState, openedAt: Option<real>)

  /** What every breaker of the registry is built with. */
  const DEFAULT_CONFIG := Config(5, 60.0, 30.0)

  const FRESH := Circuit([], Closed, None)

  function DropBefore(s: seq<real>, cutoff: real): seq<real> {
    if s != [] && s[0] < cutoff then DropBefore(s[1..], cutoff) else s
  }

  /** Asking for the state stores HALF_OPEN once the open period is over. */
  function Query(cfg: Config, c: Circuit, now: real): Circuit {
    if c.state.Open? && c.openedAt.Some? && now - c.openedAt.value >= cfg.openSeconds
    then c.(state := HalfOpen) else c
  }

  function Failure(cfg: Config, c: Circuit, now: real): Circuit {
    var fails := DropBefore(c.fails + [now], now - cfg.window);
    if |fails| >= cfg.threshold then Circuit(fails, Open, Some(now)) else c.(fails := fails)
  }

  function Success(c: Circuit): Circuit {
    match c.state
    case HalfOpen => Circuit([], Closed, None)
    case Closed => c.(fails := [])
    case Open => c
  }

  class SlidingWindowCircuitBreaker {
    const cfg: Config
    var failTimes: seq<real>
    var state: CircuitState
    var openedAt: Option<real>

    function Value(): Circuit
      reads this
    {
      Circuit(failTimes, state, openedAt)
    }

    constructor (cfg: Config)
      ensures Value() == FRESH && this.cfg == cfg
    {
      this.cfg := cfg;
      failTimes, state, openedAt := [], Closed, None;
    }

    method State(now: real) returns (r: CircuitState)
      modifies this`state
      ensures Value() == Query(cfg, old(Value()), now) && r == state
      ensures r == if old(state).Open? && openedAt.Some? && now - openedAt.value >= cfg.openSeconds then HalfOpen
                   else old(state)
    {
      if state == Open && openedAt.Some? && now - openedAt.value >= cfg.openSeconds {
        state := HalfOpen;
      }
      r := state;
    }

    method RecordFailure(now: real)
      modifies this
      ensures Value() == Failure(cfg, old(Value()), now)
      ensures var all := old(failTimes) + [now];
        && |failTimes| <= |all| && failTimes == all[|all| - |failTimes|..]
        && (forall i :: 0 <= i < |all| - |failTimes| ==> all[i] < now - cfg.window)
        && (failTimes != [] ==> failTimes[0] >= now - cfg.window)
      ensures if |failTimes| >= cfg.threshold then state.Open? && openedAt == Some(now)
              else state == old(state) && openedAt == old(openedAt)
    {
      failTimes := failTimes + [now];
      var cutoff := now - cfg.window;
      ghost var all := failTimes;
      while failTimes != [] && failTimes[0] < cutoff
        invariant DropBefore(failTimes, cutoff) == DropBefore(all, cutoff)
        invariant |failTimes| <= |all| && failTimes == all[|all| - |failTimes|..]
        invariant forall i :: 0 <= i < |all| - |failTimes| ==> all[i] < cutoff
        invariant state == old(state) && openedAt == old(openedAt)
        decreases |failTimes|
      {
        failTimes := failTimes[1..];
      }
      if |failTimes| >= cfg.threshold {
        state := Open;
        openedAt := Some(now);
      }
    }

    method RecordSuccess(now: real)
      modifies this
      ensures Value() == Success(old(Value()))
      ensures old(state).HalfOpen? ==> state.Closed? && failTimes == [] && openedAt == None
      ensures old(state).Closed? ==> state.Closed? && failTimes == [] && openedAt == old(openedAt)
      ensures old(state).Open? ==> state.Open? && failTimes == old(failTimes) && openedAt == old(openedAt)
    {
      if state == HalfOpen {
        state := Closed;
        failTimes := [];
        openedAt := None;
      } else if state == Closed {
        failTimes := [];
      }
    }
  }

  /*** Runs: any sequence of calls under a nondecreasing clock ***/

  datatype Call = AskState(at: real) | Failed(at: real) | Succeeded(at: real)

  function Do(cfg: Config, c: Circuit, call: Call): Circuit {
    match call
    case AskState(t) => Query(cfg, c, t)
    case Failed(t) => Failure(cfg, c, t)
    case Succeeded(_) => Success(c)
  }

  function Run(cfg: Config, calls: seq<Call>): Circuit {
    if calls == [] then FRESH else Do(cfg, Run(cfg, calls[..|calls| - 1]), calls[|calls| - 1])
  }

  ghost predicate Chronological(calls: seq<Call>) {
    forall i, j :: 0 <= i <= j < |calls| ==> calls[i].at <= calls[j].at
  }

  /** The reference history: every failure since the last success that the breaker honoured. */
  function SinceClear(cfg: Config, calls: seq<Call>): seq<real> {
    if calls == [] then []
    else
      var before := calls[..|calls| - 1];
      match calls[|calls| - 1]
      case AskState(_) => SinceClear(cfg, before)
      case Failed(t) => SinceClear(cfg, before) + [t]
      case Succeeded(_) => if Run(cfg, before).state.Open? then SinceClear(cfg, before) else []
  }

  /** The instants of `s` from `cutoff` on, in order. */
  function Since(s: seq<real>, cutoff: real): seq<real> {
    if s == [] then []
    else if s[0] >= cutoff then [s[0]] + Since(s[1..], cutoff)
    else Since(s[1..], cutoff)
  }

  /** The failures of the history that lie in the window ending at its latest failure. */
  function InWindow(cfg: Config, history: seq<real>): seq<real> {
    if history == [] then [] else Since(history, history[|history| - 1] - cfg.window)
  }

  ghost predicate Ascending(s: seq<real>) {
    forall i, j :: 0 <= i <= j < |s| ==> s[i] <= s[j]
  }

  lemma {:induction false} DropIsSince(s: seq<real>, cutoff: real)
    requires Ascending(s)
    ensures DropBefore(s, cutoff) == Since(s, cutoff)
  {
    if s != [] {
      if s[0] < cutoff {
        assert Ascending(s[1..]);
        DropIsSince(s[1..], cutoff);
      } else {
        SinceKeepsAll(s, cutoff);
      }
    }
  }

  lemma {:induction false} SinceKeepsAll(s: seq<real>, cutoff: real)
    requires forall i :: 0 <= i < |s| ==> s[i] >= cutoff
    ensures Since(s, cutoff) == s
  {
    if s != [] {
      SinceKeepsAll(s[1..], cutoff);
    }
  }

  lemma {:induction false} SinceTwice(s: seq<real>, c1: real, c2: real)
    requires c1 <= c2
    ensures Since(Since(s, c1), c2) == Since(s, c2)
  {
    if s != [] {
      SinceTwice(s[1..], c1, c2);
      assert s[0] >= c1 ==> Since(s, c1)[1..] == Since(s[1..], c1);
    }
  }

  lemma {:induction false} SinceAppend(a: seq<real>, b: seq<real>, cutoff: real)
    ensures Since(a + b, cutoff) == Since(a, cutoff) + Since(b, cutoff)
  {
    if a == [] {
      assert a + b == b;
    } else {
      assert (a + b)[1..] == a[1..] + b;
      SinceAppend(a[1..], b, cutoff);
    }
  }

  lemma {:induction false} HistoryIsAscending(cfg: Config, calls: seq<Call>)
    requires Chronological(calls)
    ensures Ascending(SinceClear(cfg, calls))
    ensures calls != [] ==> forall i :: 0 <= i < |SinceClear(cfg, calls)| ==>
              SinceClear(cfg, calls)[i] <= calls[|calls| - 1].at
  {
    if calls != [] {
      var before := calls[..|calls| - 1];
      HistoryIsAscending(cfg, before);
      assert before != [] ==> before[|before| - 1].at <= calls[|calls| - 1].at;
    }
  }

  lemma {:induction false} SinceAscending(s: seq<real>, cutoff: real, top: real)
    requires Ascending(s) && forall i :: 0 <= i < |s| ==> s[i] <= top
    ensures Ascending(Since(s, cutoff))
    ensures forall i :: 0 <= i < |Since(s, cutoff)| ==> Since(s, cutoff)[i] <= top
    ensures forall i :: 0 <= i < |Since(s, cutoff)| && s != [] ==> s[0] <= Since(s, cutoff)[i]
  {
    if s != [] {
      assert Ascending(s[1..]);
      SinceAscending(s[1..], cutoff, top);
    }
  }

  lemma DropFromLonger(s: seq<real>, now: real, cutoff: real)
    requires Ascending(s) && forall i :: 0 <= i < |s| ==> s[i] <= now
    ensures DropBefore(s + [now], cutoff) == Since(s, cutoff) + Since([now], cutoff)
  {
    SinceAppend(s, [now], cutoff);
    DropIsSince(s + [now], cutoff);
  }

  lemma WindowAfterFailure(cfg: Config, history: seq<real>, now: real)
    ensures InWindow(cfg, history + [now]) == Since(history, now - cfg.window) + Since([now], now - cfg.window)
  {
    SinceAppend(history, [now], now - cfg.window);
  }

  lemma WindowIsPrunedFurther(cfg: Config, history: seq<real>, now: real)
    requires Ascending(history) && forall i :: 0 <= i < |history| ==> history[i] <= now
    ensures var kept := InWindow(cfg, history);
      && Ascending(kept) && (forall i :: 0 <= i < |kept| ==> kept[i] <= now)
      && Since(kept, now - cfg.window) == Since(history, now - cfg.window)
  {
    if history != [] {
      var earlier := history[|history| - 1] - cfg.window;
      SinceAscending(history, earlier, now);
      SinceTwice(history, earlier, now - cfg.window);
    }
  }

  /** One more failure prunes the deque to exactly the window of the longer history. */
  lemma FailurePrunesToWindow(cfg: Config, history: seq<real>, now: real)
    requires Ascending(history) && forall i :: 0 <= i < |history| ==> history[i] <= now
    ensures DropBefore(InWindow(cfg, history) + [now], now - cfg.window) == InWindow(cfg, history + [now])
  {
    WindowIsPrunedFurther(cfg, history, now);
    DropFromLonger(InWindow(cfg, history), now, now - cfg.window);
    WindowAfterFailure(cfg, history, now);
  }

  /** The deque is always the window of the reference history, and CLOSED means below threshold. */
  lemma {:induction false} DequeIsWindowOfHistory(cfg: Config, calls: seq<Call>)
    requires Chronological(calls)
    ensures Run(cfg, calls).fails == InWindow(cfg, SinceClear(cfg, calls))
    ensures cfg.threshold > 0 && Run(cfg, calls).state.Closed? ==>
              |InWindow(cfg, SinceClear(cfg, calls))| < cfg.threshold
  {
    if calls != [] {
      var before, last := calls[..|calls| - 1], calls[|calls| - 1];
      DequeIsWindowOfHistory(cfg, before);
      if last.Failed? {
        HistoryIsAscending(cfg, before);
        assert before != [] ==> before[|before| - 1].at <= last.at;
        FailurePrunesToWindow(cfg, SinceClear(cfg, before), last.at);
      }
    }
  }

  /** Call `i` is a failure that brings the history's window up to the threshold. */
  ghost predicate Trips(cfg: Config, calls: seq<Call>, i: int) {
    && 0 <= i < |calls| && calls[i].Failed?
    && |InWindow(cfg, SinceClear(cfg, calls[..i + 1]))| >= cfg.threshold
  }

  lemma {:induction false} StoredOpenComesFromTrip(cfg: Config, calls: seq<Call>)
    requires Chronological(calls)
    requires !Run(cfg, calls).state.Closed?
    ensures Run(cfg, calls).openedAt.Some?
    ensures exists i :: Trips(cfg, calls, i) && calls[i].at == Run(cfg, calls).openedAt.value
  {
    var n := |calls| - 1;
    var before, last := calls[..n], calls[n];
    assert calls[..n + 1] == calls;
    DequeIsWindowOfHistory(cfg, calls);
    DequeIsWindowOfHistory(cfg, before);
    if last.Failed? && |InWindow(cfg, SinceClear(cfg, calls))| >= cfg.threshold {
      assert Trips(cfg, calls, n);
    } else {
      StoredOpenComesFromTrip(cfg, before);
      var i :| Trips(cfg, before, i) && before[i].at == Run(cfg, before).openedAt.value;
      assert before[..i + 1] == calls[..i + 1];
      assert Trips(cfg, calls, i);
    }
  }

  /** After a trip no sequence of calls leaves OPEN before the open period is over. */
  lemma {:induction false} NothingLeavesOpenEarly(cfg: Config, calls: seq<Call>, i: nat)
    requires Chronological(calls) && Trips(cfg, calls, i)
    requires calls[|calls| - 1].at - calls[i].at < cfg.openSeconds
    ensures Run(cfg, calls).state.Open?
    ensures Run(cfg, calls).openedAt.Some? && Run(cfg, calls).openedAt.value >= calls[i].at
    decreases |calls|
  {
    var n := |calls| - 1;
    assert calls[..n + 1] == calls;
    DequeIsWindowOfHistory(cfg, calls);
    if i < n {
      var before := calls[..n];
      assert before[..i + 1] == calls[..i + 1];
      assert before[|before| - 1].at <= calls[n].at;
      NothingLeavesOpenEarly(cfg, before, i);
    }
  }

  /** A state query reports OPEN exactly when some trip lies less than `openSeconds` before it. */
  lemma OpenReportedIffRecentTrip(cfg: Config, calls: seq<Call>, t: real)
    requires Chronological(calls + [AskState(t)])
    ensures Run(cfg, calls + [AskState(t)]).state.Open? <==>
            exists i :: Trips(cfg, calls, i) && t - calls[i].at < cfg.openSeconds
  {
    var all := calls + [AskState(t)];
    assert all[..|all| - 1] == calls && all[|all| - 1] == AskState(t);
    assert Chronological(calls) by {
      assert forall i :: 0 <= i < |calls| ==> calls[i] == all[i];
    }
    if Run(cfg, all).state.Open? {
      StoredOpenComesFromTrip(cfg, calls);
    }
    if exists i :: Trips(cfg, calls, i) && t - calls[i].at < cfg.openSeconds {
      var i :| Trips(cfg, calls, i) && t - calls[i].at < cfg.openSeconds;
      assert all[..i + 1] == calls[..i + 1];
      assert Trips(cfg, all, i);
      NothingLeavesOpenEarly(cfg, all, i);
    }
  }

  /**
   Queries are not pure: a success honoured after a query is ignored without it. It makes the
   difference exactly when the open period of an OPEN circuit is over.
   */
  lemma QueryMattersIffOpenPeriodOver(cfg: Config, c: Circuit, t: real)
    ensures Success(Query(cfg, c, t)) != Success(c) <==>
            c.state.Open? && c.openedAt.Some? && t - c.openedAt.value >= cfg.openSeconds
  {}

  /**
   A success ends in CLOSED with no failures, unless it meets OPEN. So once the open period of a trip is
   over, asking for the state and then succeeding closes the circuit.
   */
  lemma SuccessClosesIffNotOpen(cfg: Config, calls: seq<Call>, t: real)
    ensures var before, after := Run(cfg, calls), Run(cfg, calls + [Succeeded(t)]);
      && (after.state.Closed? && after.fails == [] <==> !before.state.Open?)
      && (before.state.Open? ==> after == before)
    ensures var before, asked := Run(cfg, calls), Run(cfg, calls + [AskState(t)] + [Succeeded(t)]);
      (before.state.Open? && before.openedAt.Some? && t - before.openedAt.value >= cfg.openSeconds) ==>
        asked == Circuit([], Closed, None)
  {
    assert (calls + [Succeeded(t)])[..|calls|] == calls;
    assert (calls + [AskState(t)])[..|calls|] == calls;
    assert (calls + [AskState(t)] + [Succeeded(t)])[..|calls| + 1] == calls + [AskState(t)];
  }

  function Failures(n: nat, t: real): seq<Call> {
    seq(n, i => Failed(t))
  }

  lemma {:induction false} FailuresBelowThreshold(n: nat, t: real)
    requires n < 5
    ensures Run(DEFAULT_CONFIG, Failures(n, t)) == Circuit(seq(n, i => t), Closed, None)
  {
    if n > 0 {
      FailuresBelowThreshold(n - 1, t);
      assert Failures(n, t)[..n - 1] == Failures(n - 1, t);
      assert seq(n - 1, i => t) + [t] == seq(n, i => t);
    }
  }

  /** Five failures at one instant trip a fresh breaker of the registry. */
  lemma FiveFailuresTrip(t: real) returns (c: Circuit)
    ensures c == Run(DEFAULT_CONFIG, seq(5, i => Failed(t)))
    ensures c == Circuit(seq(5, i => t), Open, Some(t))
  {
    FailuresBelowThreshold(4, t);
    assert Failures(5, t)[..4] == Failures(4, t);
    assert seq(4, i => t) + [t] == seq(5, i => t);
    c := Run(DEFAULT_CONFIG, Failures(5, t));
  }
}
