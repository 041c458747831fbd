/** Chat execution over the routed chain: the fallback loop and its audit trail. */
module ChatExecution {
  /** How one adapter call ends. */
  datatype Reply =
    | Success(payload: string)
    | InferenceError(mentions404: bool, validation: bool)
    | OtherError

  /**
   What the loop meets at one chain position: whether the deadline has passed when it gets there,
   whether the provider is configured, enabled and not disabled at run time, whether the catalog
   still lists the model, whether an adapter exists for its protocol, and the adapter's reply.
   */
  datatype Position = Position(late: bool, usable: bool, listed: bool, hasAdapter: bool, reply: Reply)

  datatype AuditEvent = Started | Completed(position: nat) | FailedAt(phase: string)

  datatype Outcome =
    | Responded(position: nat, payload: string)
    | RouteFailed
    | DeadlineExceeded(position: nat)
    | ValidationFailed(position: nat)
    | NoAdapter(position: nat)
    | Exhausted
    | AuditRaised(started: bool)     // an audit write raised: the STARTED one, or the terminal one

  predicate Attempted(p: Position) {
    !p.late && p.usable && p.listed && p.hasAdapter
  }

  /** The adapter was called and its failure sends the loop to the next candidate. */
  predicate SoftFailure(r: Reply) {
    match r
    case Success(_) => false
    case InferenceError(mentions404, validation) => mentions404 || !validation
    case OtherError => true
  }

  /** The loop goes past this position. */
  predicate Passed(p: Position) {
    !p.late && (!p.usable || !p.listed || (p.hasAdapter && SoftFailure(p.reply)))
  }

  /** The outcome decided at a position the loop does not pass. */
  function Verdict(p: Position, i: nat): Outcome
    requires !Passed(p)
  {
    if p.late then DeadlineExceeded(i)
    else if !p.hasAdapter then NoAdapter(i)
    else if p.reply.Success? then Responded(i, p.reply.payload)
    else ValidationFailed(i)
  }

  predicate IsTerminal(e: AuditEvent) {
    !e.Started?
  }

  /** The audit trail an outcome must leave. */
  function Trail(o: Outcome): seq<AuditEvent> {
    match o
    case Responded(i, _) => [Started, Completed(i)]
    case RouteFailed => [Started, FailedAt("route")]
    case DeadlineExceeded(_) => [Started, FailedAt("deadline")]
    case ValidationFailed(_) => [Started, FailedAt("adapter")]
    case NoAdapter(_) => [Started]
    case Exhausted => [Started, FailedAt("exhausted")]
    case AuditRaised(started) => if started then [Started] else []
  }

  function CountTerminal(events: seq<AuditEvent>): nat {
    if events == [] then 0 else (if IsTerminal(events[0]) then 1 else 0) + CountTerminal(events[1..])
  }

  /** The first position that is not passed decides; a chain that is passed entirely is exhausted. */
  ghost predicate Decides(chain: seq<Position>, attempts: seq<nat>, o: Outcome) {
    if forall i :: 0 <= i < |chain| ==> Passed(chain[i]) then
      o == Exhausted && forall i :: i in attempts <==> 0 <= i < |chain| && Attempted(chain[i])
    else exists d: nat ::
      && d < |chain| && !Passed(chain[d]) && o == Verdict(chain[d], d)
      && (forall i :: 0 <= i < d ==> Passed(chain[i]))
      && (forall i :: i in attempts <==> 0 <= i <= d && Attempted(chain[i]))
  }

  /** The loop gets to position `i`: every earlier one is skipped or its adapter fails in a way that falls back. */
  ghost predicate GetsTo(chain: seq<Position>, i: nat)
    requires i <= |chain|
  {
    forall k :: 0 <= k < i ==>
      var p := chain[k];
      && !p.late
      && (p.usable && p.listed ==>
            && p.hasAdapter
            && (p.reply.OtherError? || (p.reply.InferenceError? && (p.reply.mentions404 || !p.reply.validation))))
  }

  /** The same decision read off the fields of the chain: what each position does once the loop gets to it. */
  ghost predicate DecidesByFields(chain: seq<Position>, attempts: seq<nat>, o: Outcome) {
    && (forall i: nat :: i < |chain| && GetsTo(chain, i) ==>
          var p := chain[i];
          if p.late then o == DeadlineExceeded(i) && i !in attempts
          else if !p.usable || !p.listed then i !in attempts
          else if !p.hasAdapter then o == NoAdapter(i) && i !in attempts
          else
            && i in attempts
            && (p.reply.Success? ==> o == Responded(i, p.reply.payload))
            && (p.reply == InferenceError(false, true) ==> o == ValidationFailed(i)))
    && (o.Exhausted? <==> GetsTo(chain, |chain|))
    && (forall i :: i in attempts ==> i < |chain| && GetsTo(chain, i))
    && (o.Responded? || o.ValidationFailed? || o.NoAdapter? || o.DeadlineExceeded? ==>
          o.position < |chain| && GetsTo(chain, o.position))
    && (o.ValidationFailed? ==> chain[o.position].reply == InferenceError(false, true))
  }

  lemma GetsToIffPassed(chain: seq<Position>, i: nat)
    requires i <= |chain|
    ensures GetsTo(chain, i) <==> forall k :: 0 <= k < i ==> Passed(chain[k])
  {}

  lemma DecidedByFields(chain: seq<Position>, attempts: seq<nat>, o: Outcome)
    requires Decides(chain, attempts, o)
    ensures DecidesByFields(chain, attempts, o)
  {
    forall i: nat | i <= |chain| ensures GetsTo(chain, i) <==> forall k :: 0 <= k < i ==> Passed(chain[k]) {
      GetsToIffPassed(chain, i);
    }
  }

  /** The outcome once its terminal event is written, or the exception of that write. */
  function Reported(o: Outcome, written: bool): Outcome {
    if o.NoAdapter? || written then o else AuditRaised(true)
  }

  /** Every trail opens with STARTED and closes with exactly one terminal event, save the exceptions named. */
  lemma ExactlyOneTerminalEvent(o: Outcome)
    ensures CountTerminal(Trail(o)) == 1 <==> !o.NoAdapter? && !o.AuditRaised?
    ensures Trail(o) != [] && Trail(o)[0] == Started <==> o != AuditRaised(false)
    ensures forall i :: 0 < i < |Trail(o)| ==> Trail(o)[i] != Started
    ensures (exists e :: e in Trail(o) && e.Completed?) <==> o.Responded?
  {
    assert forall e: AuditEvent :: CountTerminal([e]) == if IsTerminal(e) then 1 else 0;
    if o.Responded? {
      assert Completed(o.position) in Trail(o);
    }
    if |Trail(o)| == 2 {
      assert Trail(o)[1..] == [Trail(o)[1]];
    }
  }

  /**
   The fallback loop. The chain is tried in order, each position at most once. `startWritten` and
   `endWritten` say whether the writes of the STARTED and of the terminal event succeed; if one
   raises, the exception ends the call. The trail is one STARTED followed by exactly one terminal
   event, unless an adapter is missing or an audit write raised.
   */
  method Execute(startWritten: bool, endWritten: bool, routed: bool, chain: seq<Position>)
    returns (outcome: Outcome, attempts: seq<nat>, events: seq<AuditEvent>)
    ensures !startWritten ==> outcome == AuditRaised(false)
    ensures startWritten && !routed ==> outcome == if endWritten then RouteFailed else AuditRaised(true)
    ensures !startWritten || !routed ==> attempts == []
    ensures startWritten && routed ==>
      exists decided :: Decides(chain, attempts, decided) && DecidesByFields(chain, attempts, decided)
        && outcome == if decided.NoAdapter? || endWritten then decided else AuditRaised(true)
    ensures forall i, j :: 0 <= i < j < |attempts| ==> attempts[i] < attempts[j]
    ensures events == Trail(outcome)
    ensures match outcome
      case Responded(i, _) => events == [Started, Completed(i)]
      case RouteFailed => events == [Started, FailedAt("route")]
      case DeadlineExceeded(_) => events == [Started, FailedAt("deadline")]
      case ValidationFailed(_) => events == [Started, FailedAt("adapter")]
      case NoAdapter(_) => events == [Started]
      case Exhausted => events == [Started, FailedAt("exhausted")]
      case AuditRaised(started) => events == if started then [Started] else []
    ensures CountTerminal(events) == 1 <==> !outcome.NoAdapter? && !outcome.AuditRaised?
    ensures startWritten <==> events != [] && events[0] == Started
    ensures forall i :: 0 < i < |events| ==> events[i] != Started
    ensures outcome.Responded? <==> exists e :: e in events && e.Completed?
  {
    attempts := [];
    if !startWritten {
      return AuditRaised(false), [], [];
    }
    events := [Started];
    var decided, terminal := RouteFailed, FailedAt("route");
    if routed {
      decided, terminal := Exhausted, FailedAt("exhausted");
      var i := 0;
      while i < |chain|
        invariant 0 <= i <= |chain|
        invariant decided == Exhausted && terminal == FailedAt("exhausted")
        invariant forall k :: 0 <= k < i ==> Passed(chain[k])
        invariant forall k :: k in attempts <==> 0 <= k < i && Attempted(chain[k])
        invariant forall k, l :: 0 <= k < l < |attempts| ==> attempts[k] < attempts[l]
      {
        var p := chain[i];
        if p.late {
          decided, terminal := DeadlineExceeded(i), FailedAt("deadline");
          break;
        }
        if !p.usable || !p.listed {
          i := i + 1;
          continue;
        }
        if !p.hasAdapter {
          decided := NoAdapter(i);
          break;
        }
        assert forall k :: 0 <= k < |attempts| ==> attempts[k] in attempts;
        attempts := attempts + [i];
        if p.reply.Success? {
          decided, terminal := Responded(i, p.reply.payload), Completed(i);
          break;
        }
        if p.reply.InferenceError? && !p.reply.mentions404 && p.reply.validation {
          decided, terminal := ValidationFailed(i), FailedAt("adapter");
          break;
        }
        i := i + 1;
      }
      assert Decides(chain, attempts, decided);
      DecidedByFields(chain, attempts, decided);
    }
    outcome := Reported(decided, endWritten);
    if !decided.NoAdapter? && endWritten {
      events := events + [terminal];
    }
    ExactlyOneTerminalEvent(outcome);
  }

  /** A response is the reply of the last attempted position, and no earlier attempt succeeded. */
  lemma ResponseIsFirstSuccess(chain: seq<Position>, attempts: seq<nat>, o: Outcome)
    requires Decides(chain, attempts, o) && o.Responded?
    ensures o.position < |chain| && chain[o.position].reply == Success(o.payload) && o.position in attempts
    ensures forall i :: i in attempts ==> i <= o.position && (i < o.position ==> !chain[i].reply.Success?)
  {}
}
