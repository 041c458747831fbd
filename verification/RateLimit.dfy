/** The per-actor sliding-window rate limiter: two sorted sets of request instants with key expiry. */
module RateLimit {
  import opened Basics

  /** Instants are integers, in microseconds. */
  const SECOND := 1_000_000

  datatype Settings = Settings(window: int, maxRequests: int, burst: int)

  /**
   A sorted set whose members are the request instants themselves, so that two requests at one
   instant are one member. `goneAt` is the instant from which the key has expired.
   */
  datatype SortedSet = SortedSet(members: set<int>, goneAt: int)

  /** An absent key and an expired key both read as the empty set. */
  function Members(z: Option<SortedSet>, now: int): set<int> {
    if z.Some? && now < z.value.goneAt then z.value.members else {}
  }

  /** ZREMRANGEBYSCORE -inf..now-span, ZADD now, EXPIRE ttl. */
  function Record(z: Option<SortedSet>, now: int, span: int, ttl: int): SortedSet {
    SortedSet((set x | x in Members(z, now) && x > now - span) + {now}, now + ttl)
  }

  /** `Unmetered` requests pass because Redis did not answer; they are recorded nowhere. */
  datatype Verdict = Accepted(remaining: int) | Sustained(count: nat) | Burst(count: nat) | Unmetered

  datatype Actor = Actor(requests: Option<SortedSet>, bursts: Option<SortedSet>)

  const UNSEEN := Actor(None, None)

  function Serve(a: Actor, now: int, s: Settings): Actor {
    Actor(Some(Record(a.requests, now, s.window, s.window + SECOND)),
          Some(Record(a.bursts, now, SECOND, 2 * SECOND)))
  }

  function Judge(a: Actor, s: Settings): Verdict
    requires a.requests.Some? && a.bursts.Some?
  {
    var windowCount, burstCount := |a.requests.value.members|, |a.bursts.value.members|;
    if windowCount > s.maxRequests then Sustained(windowCount)
    else if burstCount > s.burst then Burst(burstCount)
    else Accepted(s.maxRequests - windowCount)
  }

  /** One Redis transaction per request, then the two comparisons; without Redis every request passes. */
  class RateLimiter {
    const settings: Settings
    var actors: map<string, Actor>

    constructor (settings: Settings)
      ensures this.settings == settings && actors == map[]
    {
      this.settings := settings;
      actors := map[];
    }

    method Dispatch(actor: string, now: int, redisUp: bool) returns (v: Verdict)
      modifies this
      ensures !redisUp ==> v == Unmetered && actors == old(actors)
      ensures redisUp ==>
        && actors == old(actors)[actor :=
             Serve(if actor in old(actors) then old(actors)[actor] else UNSEEN, now, settings)]
        && v == Judge(actors[actor], settings)
    {
      if !redisUp {
        return Unmetered;
      }
      var a := if actor in actors then actors[actor] else UNSEEN;
      var window := settings.window;
      var cutoff := now - window;
      var members := (set x | x in Members(a.requests, now) && x > cutoff) + {now};
      var burstCutoff := now - SECOND;
      var burstMembers := (set x | x in Members(a.bursts, now) && x > burstCutoff) + {now};
      actors := actors[actor := Actor(Some(SortedSet(members, now + (window + SECOND))),
                                      Some(SortedSet(burstMembers, now + 2 * SECOND)))];
      if |members| > settings.maxRequests {
        return Sustained(|members|);
      }
      if |burstMembers| > settings.burst {
        return Burst(|burstMembers|);
      }
      v := Accepted(settings.maxRequests - |members|);
    }
  }

  /*** Histories: every metered request instant of one actor, accepted or not ***/

  ghost predicate Nondecreasing(h: seq<int>) {
    forall i, j :: 0 <= i <= j < |h| ==> h[i] <= h[j]
  }

  function After(s: Settings, h: seq<int>): Actor {
    if h == [] then UNSEEN else Serve(After(s, h[..|h| - 1]), h[|h| - 1], s)
  }

  /** The reference: the instants of the history later than `cutoff`, read off the full history. */
  function LaterThan(h: seq<int>, cutoff: int): set<int> {
    set x | x in h && x > cutoff
  }

  ghost predicate AcceptedAt(s: Settings, h: seq<int>, i: int) {
    0 <= i < |h| && Judge(After(s, h[..i + 1]), s).Accepted?
  }

  lemma LaterThanAppend(h: seq<int>, x: int, cutoff: int)
    ensures LaterThan(h + [x], cutoff) == LaterThan(h, cutoff) + if x > cutoff then {x} else {}
  {}

  /** Pruning, and a key that expired in between, remove only instants outside the window. */
  lemma RecordMatchesHistory(z: Option<SortedSet>, h: seq<int>, now: int, span: int, ttl: int)
    requires 0 < span <= ttl && forall i :: 0 <= i < |h| ==> h[i] <= now
    requires Nondecreasing(h)
    requires z == Window(h, span, ttl)
    ensures h != [] ==> forall x :: x in z.value.members && !(now < z.value.goneAt) ==> x <= now - span
    ensures Some(Record(z, now, span, ttl)) == Window(h + [now], span, ttl)
  {
    LaterThanAppend(h, now, now - span);
    if h != [] {
      assert forall x :: x in h ==> x <= h[|h| - 1];
    }
    assert Record(z, now, span, ttl).members == LaterThan(h + [now], now - span);
  }

  /** The window of a history that ends at its last request, as the sorted set that stores it. */
  function Window(h: seq<int>, span: int, ttl: int): Option<SortedSet> {
    if h == [] then None
    else Some(SortedSet(LaterThan(h, h[|h| - 1] - span), h[|h| - 1] + ttl))
  }

  /** After any history both stored sets are windows of the full history. */
  lemma {:induction false} StoredSetsAreWindows(s: Settings, h: seq<int>)
    requires s.window > 0 && Nondecreasing(h)
    ensures After(s, h) == Actor(Window(h, s.window, s.window + SECOND), Window(h, SECOND, 2 * SECOND))
  {
    if h != [] {
      var before, now := h[..|h| - 1], h[|h| - 1];
      assert before + [now] == h;
      var a := After(s, before);
      StoredSetsAreWindows(s, before);
      RecordMatchesHistory(a.requests, before, now, s.window, s.window + SECOND);
      RecordMatchesHistory(a.bursts, before, now, SECOND, 2 * SECOND);
    }
  }

  lemma LaterInstants(h: seq<int>, i: nat, cutoff: int)
    requires i < |h|
    ensures LaterThan(h[..i + 1], cutoff) == set k | 0 <= k <= i && cutoff < h[k] :: h[k]
  {
    assert forall k :: 0 <= k <= i ==> h[..i + 1][k] == h[k];
  }

  /** What is stored once request `i` has been served. */
  lemma WindowsAt(s: Settings, h: seq<int>, i: nat)
    requires s.window > 0 && Nondecreasing(h) && i < |h|
    ensures After(s, h[..i + 1]).requests.Some? && After(s, h[..i + 1]).bursts.Some?
    ensures After(s, h[..i + 1]).requests.value.members == LaterThan(h[..i + 1], h[i] - s.window)
    ensures After(s, h[..i + 1]).bursts.value.members == LaterThan(h[..i + 1], h[i] - SECOND)
  {
    var seen := h[..i + 1];
    assert Nondecreasing(seen) && seen[|seen| - 1] == h[i];
    StoredSetsAreWindows(s, seen);
  }

  /**
   Which requests pass, from the history alone: the distinct instants of the window that ends with the
   request are at most the limit, and those of the second that ends with it at most the burst.
   */
  lemma VerdictIff(s: Settings, h: seq<int>, i: nat)
    requires s.window > 0 && Nondecreasing(h) && i < |h|
    ensures var v := Judge(After(s, h[..i + 1]), s);
      var inWindow := |set k | 0 <= k <= i && h[i] - s.window < h[k] :: h[k]|;
      var inSecond := |set k | 0 <= k <= i && h[i] - 1_000_000 < h[k] :: h[k]|;
      v == if inWindow > s.maxRequests then Sustained(inWindow)
        else if inSecond > s.burst then Burst(inSecond)
        else Accepted(s.maxRequests - inWindow)
  {
    WindowsAt(s, h, i);
    LaterInstants(h, i, h[i] - s.window);
    LaterInstants(h, i, h[i] - SECOND);
  }

  /** The distinct instants at which requests were accepted in the interval (from, from + span]. */
  ghost function AcceptedIn(s: Settings, h: seq<int>, from: int, span: int): set<int> {
    set i | 0 <= i < |h| && AcceptedAt(s, h, i) && from < h[i] <= from + span :: h[i]
  }

  /** The last accepted request of the interval saw every accepted one before it. */
  lemma AcceptedSeenByLast(s: Settings, h: seq<int>, from: int, span: int, last: nat)
    requires s.window > 0 && Nondecreasing(h) && last < |h|
    requires from < h[last] <= from + span
    requires forall i :: last < i < |h| && AcceptedAt(s, h, i) ==> !(from < h[i] <= from + span)
    ensures AcceptedIn(s, h, from, span) <= LaterThan(h[..last + 1], h[last] - span)
  {
    forall x | x in AcceptedIn(s, h, from, span) ensures x in LaterThan(h[..last + 1], h[last] - span) {
      var i :| 0 <= i < |h| && AcceptedAt(s, h, i) && from < h[i] <= from + span && x == h[i];
      assert i <= last;
      assert h[..last + 1][i] == x;
    }
  }

  lemma {:induction false} LastAcceptedBelow(s: Settings, h: seq<int>, from: int, span: int, n: nat)
    returns (last: int)
    requires n <= |h|
    ensures -1 <= last < n
    ensures last >= 0 ==> AcceptedAt(s, h, last) && from < h[last] <= from + span
    ensures forall i :: last < i < n && AcceptedAt(s, h, i) ==> !(from < h[i] <= from + span)
  {
    if n == 0 {
      last := -1;
    } else if AcceptedAt(s, h, n - 1) && from < h[n - 1] <= from + span {
      last := n - 1;
    } else {
      last := LastAcceptedBelow(s, h, from, span, n - 1);
    }
  }

  /** The last accepted request of an interval, whose own window holds every accepted instant of the interval. */
  lemma AcceptedFitLastWindow(s: Settings, h: seq<int>, from: int, span: int) returns (last: int)
    requires s.window > 0 && Nondecreasing(h)
    ensures last < |h| && (last < 0 ==> AcceptedIn(s, h, from, span) == {})
    ensures last >= 0 ==>
      AcceptedAt(s, h, last) && |AcceptedIn(s, h, from, span)| <= |LaterThan(h[..last + 1], h[last] - span)|
  {
    last := LastAcceptedBelow(s, h, from, span, |h|);
    if last >= 0 {
      AcceptedSeenByLast(s, h, from, span, last);
      SubsetIsSmaller(AcceptedIn(s, h, from, span), LaterThan(h[..last + 1], h[last] - span));
    }
  }

  lemma AcceptedWindowsAreSmall(s: Settings, h: seq<int>, i: nat)
    requires s.window > 0 && Nondecreasing(h) && i < |h| && AcceptedAt(s, h, i)
    ensures |LaterThan(h[..i + 1], h[i] - s.window)| <= s.maxRequests
    ensures |LaterThan(h[..i + 1], h[i] - SECOND)| <= s.burst
  {
    WindowsAt(s, h, i);
  }

  lemma SustainedRateIsBounded(s: Settings, h: seq<int>, from: int)
    requires s.window > 0 && Nondecreasing(h)
    ensures AcceptedIn(s, h, from, s.window) == {} || |AcceptedIn(s, h, from, s.window)| <= s.maxRequests
  {
    var last := AcceptedFitLastWindow(s, h, from, s.window);
    if last >= 0 {
      AcceptedWindowsAreSmall(s, h, last);
    }
  }

  lemma BurstRateIsBounded(s: Settings, h: seq<int>, from: int)
    requires s.window > 0 && Nondecreasing(h)
    ensures AcceptedIn(s, h, from, SECOND) == {} || |AcceptedIn(s, h, from, SECOND)| <= s.burst
  {
    var last := AcceptedFitLastWindow(s, h, from, SECOND);
    if last >= 0 {
      AcceptedWindowsAreSmall(s, h, last);
    }
  }

  /**
   In every interval of window length the accepted metered requests have at most `maxRequests` distinct
   instants, and in every second at most `burst`.
   */
  lemma AcceptedRateIsBounded(s: Settings, h: seq<int>, from: int)
    requires s.window > 0 && Nondecreasing(h)
    ensures AcceptedIn(s, h, from, s.window) == {} || |AcceptedIn(s, h, from, s.window)| <= s.maxRequests
    ensures AcceptedIn(s, h, from, SECOND) == {} || |AcceptedIn(s, h, from, SECOND)| <= s.burst
  {
    SustainedRateIsBounded(s, h, from);
    BurstRateIsBounded(s, h, from);
  }

  /*** Counting requests rather than instants ***/

  /** How many requests of the history are later than `cutoff`. */
  function CountLater(h: seq<int>, cutoff: int): nat {
    if h == [] then 0
    else CountLater(h[..|h| - 1], cutoff) + if h[|h| - 1] > cutoff then 1 else 0
  }

  ghost predicate DistinctLater(h: seq<int>, cutoff: int) {
    forall i, j :: 0 <= i < j < |h| && h[i] > cutoff && h[j] > cutoff ==> h[i] != h[j]
  }

  lemma DistinctLaterAppend(h: seq<int>, x: int, cutoff: int)
    ensures DistinctLater(h + [x], cutoff) <==> DistinctLater(h, cutoff) && !(x > cutoff && x in h)
  {
    var all := h + [x];
    assert forall i :: 0 <= i < |h| ==> all[i] == h[i];
    assert all[|h|] == x;
  }

  lemma {:induction false} InstantsVersusRequests(h: seq<int>, cutoff: int)
    ensures |LaterThan(h, cutoff)| <= CountLater(h, cutoff)
    ensures |LaterThan(h, cutoff)| == CountLater(h, cutoff) <==> DistinctLater(h, cutoff)
  {
    if h != [] {
      var before, last := h[..|h| - 1], h[|h| - 1];
      assert h == before + [last];
      InstantsVersusRequests(before, cutoff);
      LaterThanAppend(before, last, cutoff);
      DistinctLaterAppend(before, last, cutoff);
      var seen := LaterThan(before, cutoff);
      assert last in seen ==> seen + {last} == seen;
    }
  }

  /**
   The count compared with the limit is the number of requests in the window exactly when no two of
   them carry the same timestamp; otherwise it is smaller.
   */
  lemma WindowCountIsRequestCountIffDistinct(s: Settings, h: seq<int>)
    requires s.window > 0 && Nondecreasing(h) && h != []
    ensures var cutoff := h[|h| - 1] - s.window;
      var count := |After(s, h).requests.value.members|;
      && count <= CountLater(h, cutoff)
      && (count == CountLater(h, cutoff) <==> DistinctLater(h, cutoff))
  {
    StoredSetsAreWindows(s, h);
    InstantsVersusRequests(h, h[|h| - 1] - s.window);
  }

  /** Two requests at one instant pass a limit of one. */
  lemma SameInstantCountsOnce()
    ensures var s := Settings(60 * SECOND, 1, 1);
      AcceptedAt(s, [5, 5], 0) && AcceptedAt(s, [5, 5], 1)
  {
    var s, h := Settings(60 * SECOND, 1, 1), [5, 5];
    assert h[..1] == [5] && h[..2] == h;
    StoredSetsAreWindows(s, h[..1]);
    StoredSetsAreWindows(s, h[..2]);
    assert LaterThan(h[..1], 5 - 60 * SECOND) == {5} == LaterThan(h[..2], 5 - 60 * SECOND);
    assert LaterThan(h[..1], 5 - SECOND) == {5} == LaterThan(h[..2], 5 - SECOND);
  }
}
