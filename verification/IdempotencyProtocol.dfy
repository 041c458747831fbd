/**
 Any number of callers sharing one envelope table. Every database transaction is one atomic
 step, and a run is any finite interleaving of the callers' steps, clock changes and deaths.
 */
module IdempotencyProtocol {
  import opened Basics
  import opened Idempotency

  /*** What the service does with an acquired row ***/

  datatype ServiceError =
    | ConflictError
    | InProgressError
    | TerminalKeyError(reason: string)
    | ExecutionError(detail: string)

  datatype Verdict = Replay(payload: string) | Raise(error: ServiceError) | Proceed

  /**
   The branches of the begin path. A completed row with no or an empty document, and a timed-out
   row, fall through to `Proceed` even though the caller did not create the row.
   */
  function Judge(row: Envelope, isNew: bool): Verdict {
    if isNew then Proceed
    else if row.status.Completed? && row.result.FailureDocument? then Raise(ExecutionError(row.result.detail))
    else if row.status.Completed? && row.result.ResponseDocument? then Replay(row.result.payload)
    else if InProgress(row) then Raise(InProgressError)
    else if row.status.Failed? then
      if row.result.FailureDocument? then Raise(ExecutionError(row.result.detail))
      else Raise(TerminalKeyError(
        if row.failureReason.Some? && row.failureReason.value != "" then row.failureReason.value
        else "idempotency_key_terminal"))
    else Proceed
  }

  /** How the begin path ends: no tracking, an exception, a replayed response, or ownership. */
  datatype Begun =
    | Untracked(id: string)
    | Refused(error: ServiceError)
    | Replayed(payload: string)
    | Owner(id: string)

  /**
   The begin path of one caller between two transactions, shared by chat and embedding: an empty
   key bypasses the store, and only a `Proceed` verdict reaches `mark_executing`. The last clause says
   what a caller of a bound key gets, read off the row as it was before the call.
   */
  method BeginInference(store: IdempotencyStore, key: string, hash: string, candidate: string, t0: int, t1: int)
    returns (r: Begun)
    modifies store
    ensures key == "" ==> r == Untracked(candidate) && store.rows == old(store.rows)
    ensures key != "" ==>
      var seen := AcquireResult(old(store.rows), key, hash, candidate, t0, store.staleAfter);
      var acquired := AcquireTable(old(store.rows), key, hash, candidate, t0, store.staleAfter);
      if seen.HashConflict? then r == Refused(ConflictError) && store.rows == old(store.rows)
      else match Judge(seen.row, seen.isNew)
        case Replay(p) => r == Replayed(p) && store.rows == acquired
        case Raise(e) => r == Refused(e) && store.rows == acquired
        case Proceed =>
          && r == Owner(seen.row.inferenceId)
          && store.rows == UpdateById(acquired, seen.row.inferenceId, e => MarkRow(e, t1))
    ensures key != "" && key !in old(store.rows) ==> r == Owner(candidate)
    ensures key != "" && key in old(store.rows) ==>
      var row := old(store.rows)[key];
      var running := row.status.Pending? || row.status.Executing?;
      var stale := running && row.updatedAt < t0 - store.staleAfter;
      r == if row.requestHash != hash then Refused(ConflictError)
        else if running && !stale then Refused(InProgressError)
        else if (row.status.Completed? || row.status.Failed? || stale) && row.result.FailureDocument? then
          Refused(ExecutionError(row.result.detail))
        else if stale then Refused(TerminalKeyError("stale_in_progress"))
        else if row.status.Failed? then Refused(TerminalKeyError(
          if row.failureReason.None? || row.failureReason == Some("") then "idempotency_key_terminal"
          else row.failureReason.value))
        else if row.status.Completed? && row.result.ResponseDocument? then Replayed(row.result.payload)
        else Owner(row.inferenceId)
  {
    if key == "" {
      return Untracked(candidate);
    }
    var seen := store.Acquire(key, hash, candidate, t0);
    if seen.HashConflict? {
      return Refused(ConflictError);
    }
    var row := seen.row;
    if !seen.isNew {
      if row.status.Completed? && !row.result.NoDocument? && !row.result.EmptyDocument? {
        if row.result.FailureDocument? {
          return Refused(ExecutionError(row.result.detail));
        }
        return Replayed(row.result.payload);
      }
      if row.status.Pending? || row.status.Executing? {
        return Refused(InProgressError);
      }
      if row.status.Failed? {
        if row.result.FailureDocument? {
          return Refused(ExecutionError(row.result.detail));
        }
        var reason := if row.failureReason.Some? && row.failureReason.value != "" then row.failureReason.value
                      else "idempotency_key_terminal";
        return Refused(TerminalKeyError(reason));
      }
    }
    store.MarkExecuting(row.inferenceId, t1);
    r := Owner(row.inferenceId);
  }

  /*** The system ***/

  datatype Phase =
    | Marking(id: string)       // acquire said proceed; mark_executing not yet run
    | Running(id: string)       // mark_executing done; the inference is being executed
    | Returned(payload: string)
    | Raised
    | Dead
    | Bypassed                  // an empty key: the call executes without the store

  datatype Caller = Caller(key: string, hash: string, phase: Phase)

  /** What an outside observer could write down about a run. */
  datatype Event =
    | Touched(key: string, at: int)                             // same-hash acquire, or mark
    | Started(caller: nat, key: string)                         // the caller goes on to execute
    | Responded(caller: nat, key: string, payload: string)      // a response left the service

  datatype System = System(
    now: int,
    staleAfter: int,
    table: Table,
    callers: map<nat, Caller>,
    issued: set<string>,
    log: seq<Event>)

  datatype Step =
    | Tick(to: int)
    | Begin(caller: nat, key: string, hash: string, id: string)
    | Mark(caller: nat)
    | Complete(caller: nat, payload: string, delivered: bool)
    | Fail(caller: nat, detail: string)
    | Die(caller: nat)

  predicate Active(p: Phase) {
    p.Marking? || p.Running?
  }

  /** Each call is made once and draws an identifier nobody drew before. */
  predicate Enabled(s: System, step: Step) {
    match step
    case Tick(_) => true
    case Begin(c, _, _, id) => c !in s.callers && id !in s.issued
    case Mark(c) => c in s.callers && s.callers[c].phase.Marking?
    case Complete(c, _, _) => c in s.callers && s.callers[c].phase.Running?
    case Fail(c, _) => c in s.callers && s.callers[c].phase.Running?
    case Die(c) => c in s.callers && Active(s.callers[c].phase)
  }

  function SetPhase(s: System, c: nat, p: Phase): System
    requires c in s.callers
  {
    s.(callers := s.callers[c := s.callers[c].(phase := p)])
  }

  /** An empty key bypasses the store; the call's execution and response belong to no key. */
  function BeginStep(s: System, c: nat, key: string, hash: string, id: string): System {
    if key == "" then
      s.(issued := s.issued + {id}, callers := s.callers[c := Caller(key, hash, Bypassed)])
    else AcquireStep(s, c, key, hash, id)
  }

  function AcquireStep(s: System, c: nat, key: string, hash: string, id: string): System {
    var table := AcquireTable(s.table, key, hash, id, s.now, s.staleAfter);
    var s1 := s.(table := table, issued := s.issued + {id});
    match AcquireResult(s.table, key, hash, id, s.now, s.staleAfter)
    case HashConflict => s1.(callers := s.callers[c := Caller(key, hash, Raised)])
    case Acquired(row, isNew) =>
      var log := s.log + [Touched(key, s.now)];
      match Judge(row, isNew)
      case Replay(p) =>
        s1.(callers := s.callers[c := Caller(key, hash, Returned(p))], log := log + [Responded(c, key, p)])
      case Raise(_) => s1.(callers := s.callers[c := Caller(key, hash, Raised)], log := log)
      case Proceed => s1.(callers := s.callers[c := Caller(key, hash, Marking(row.inferenceId))], log := log)
  }

  function Apply(s: System, step: Step): System
    requires Enabled(s, step)
  {
    match step
    case Tick(t) => s.(now := t)
    case Begin(c, key, hash, id) => BeginStep(s, c, key, hash, id)
    case Mark(c) =>
      var id, key, now := s.callers[c].phase.id, s.callers[c].key, s.now;
      SetPhase(s, c, Running(id)).(
        table := UpdateById(s.table, id, e => MarkRow(e, now)),
        log := s.log + [Touched(key, now), Started(c, key)])
    case Complete(c, payload, delivered) =>
      var id, key, now := s.callers[c].phase.id, s.callers[c].key, s.now;
      var table := UpdateById(s.table, id, e => CompleteRow(e, ResponseDocument(payload), now));
      if delivered then
        SetPhase(s, c, Returned(payload)).(table := table, log := s.log + [Responded(c, key, payload)])
      else
        SetPhase(s, c, Dead).(table := table)
    case Fail(c, detail) =>
      var id, now := s.callers[c].phase.id, s.now;
      SetPhase(s, c, Raised).(
        table := UpdateById(s.table, id, e => FailRow(e, "inference_failed", FailureDocument(detail), now)))
    case Die(c) => SetPhase(s, c, Dead)
  }

  function Init(now: int, staleAfter: int): System {
    System(now, staleAfter, map[], map[], {}, [])
  }

  predicate Legal(s: System, steps: seq<Step>)
    decreases |steps|
  {
    steps == [] || (Enabled(s, steps[0]) && Legal(Apply(s, steps[0]), steps[1..]))
  }

  function Exec(s: System, steps: seq<Step>): System
    requires Legal(s, steps)
    decreases |steps|
  {
    if steps == [] then s else Exec(Apply(s, steps[0]), steps[1..])
  }

  ghost predicate Reachable(s: System) {
    exists now, staleAfter, steps :: Legal(Init(now, staleAfter), steps) && Exec(Init(now, staleAfter), steps) == s
  }

  /*** The invariant of every step ***/

  ghost predicate RowOk(e: Envelope) {
    && !e.status.TimedOut?
    && (e.status.Completed? <==> e.result.ResponseDocument?)
    && !e.result.EmptyDocument?
    && (InProgress(e) ==> e.result.NoDocument?)
  }

  ghost predicate RowsOk(s: System) {
    && (forall k :: k in s.table ==> RowOk(s.table[k]) && s.table[k].inferenceId in s.issued)
    && (forall k, l :: k in s.table && l in s.table && s.table[k].inferenceId == s.table[l].inferenceId ==> k == l)
  }

  ghost predicate Owns(s: System, c: nat) {
    c in s.callers && Active(s.callers[c].phase)
  }

  ghost predicate OwnersOk(s: System) {
    && (forall c :: Owns(s, c) ==>
          && s.callers[c].key in s.table
          && s.table[s.callers[c].key].inferenceId == s.callers[c].phase.id
          && !s.table[s.callers[c].key].status.Completed?)
    && (forall c, d :: Owns(s, c) && Owns(s, d) && s.callers[c].key == s.callers[d].key ==> c == d)
  }

  ghost predicate HasStarted(s: System, key: string) {
    exists i :: 0 <= i < |s.log| && s.log[i].Started? && s.log[i].key == key
  }

  ghost predicate StartsOk(s: System) {
    && (forall i :: 0 <= i < |s.log| && s.log[i].Started? ==> s.log[i].key in s.table)
    && (forall i, j | 0 <= i < j < |s.log| :: s.log[i].Started? && s.log[j].Started? ==> s.log[i].key != s.log[j].key)
    && (forall c :: c in s.callers && s.callers[c].phase.Marking? ==> !HasStarted(s, s.callers[c].key))
  }

  ghost predicate ResponsesOk(s: System) {
    forall i :: 0 <= i < |s.log| && s.log[i].Responded? ==>
      && s.log[i].key in s.table
      && s.table[s.log[i].key].status.Completed?
      && s.table[s.log[i].key].result == ResponseDocument(s.log[i].payload)
  }

  ghost predicate Inv(s: System) {
    RowsOk(s) && OwnersOk(s) && StartsOk(s) && ResponsesOk(s)
  }

  /** With unique inference ids an update by id reaches the one row of the owner's key. */
  lemma UpdateReachesOneRow(s: System, key: string, change: Envelope -> Envelope)
    requires RowsOk(s) && key in s.table
    ensures UpdateById(s.table, s.table[key].inferenceId, change) == s.table[key := change(s.table[key])]
  {}

  /**
   The common shape of the steps that change the table: caller `c` moves to `phase`, the row of its
   key becomes `row`, and `events` are appended to the log.
   */
  datatype Move = Move(caller: nat, who: Caller, row: Envelope, issued: set<string>, events: seq<Event>)

  function Perform(s: System, m: Move): System {
    s.(table := s.table[m.who.key := m.row],
       callers := s.callers[m.caller := m.who],
       issued := s.issued + m.issued,
       log := s.log + m.events)
  }

  ghost predicate OtherOwner(s: System, m: Move) {
    exists d :: d != m.caller && Owns(s, d) && s.callers[d].key == m.who.key
  }

  ghost predicate GoodRow(s: System, m: Move) {
    && RowOk(m.row)
    && (m.who.key in s.table ==> m.row.inferenceId == s.table[m.who.key].inferenceId)
    && (m.who.key !in s.table ==> m.row.inferenceId !in s.issued && m.row.inferenceId in m.issued)
    && (m.who.key in s.table && s.table[m.who.key].status.Completed? ==>
          m.row.status.Completed? && m.row.result == s.table[m.who.key].result)
  }

  ghost predicate GoodOwner(s: System, m: Move) {
    && (Owns(s, m.caller) ==> s.callers[m.caller].key == m.who.key)
    && (Active(m.who.phase) ==> m.who.phase.id == m.row.inferenceId && !m.row.status.Completed? && !OtherOwner(s, m))
    && (m.row.status.Completed? ==> !OtherOwner(s, m))
  }

  ghost predicate GoodEvents(s: System, m: Move) {
    && (m.who.phase.Marking? ==> !HasStarted(s, m.who.key))
    && (forall i :: 0 <= i < |m.events| ==> m.events[i].key == m.who.key)
    && (forall i :: 0 <= i < |m.events| && m.events[i].Started? ==>
          i == |m.events| - 1 && !HasStarted(s, m.who.key) && !m.who.phase.Marking? && Owns(s, m.caller))
    && (forall i :: 0 <= i < |m.events| && m.events[i].Responded? ==>
          m.row.status.Completed? && m.row.result == ResponseDocument(m.events[i].payload))
  }

  lemma MoveKeepsRows(s: System, m: Move)
    requires Inv(s) && GoodRow(s, m)
    ensures RowsOk(Perform(s, m))
  {}

  lemma MoveKeepsOwners(s: System, m: Move)
    requires Inv(s) && GoodRow(s, m) && GoodOwner(s, m)
    ensures OwnersOk(Perform(s, m))
  {
    var s' := Perform(s, m);
    assert forall d :: d != m.caller && Owns(s', d) ==> Owns(s, d) && s'.callers[d] == s.callers[d];
  }

  lemma MoveKeepsStarts(s: System, m: Move)
    requires Inv(s) && GoodOwner(s, m) && GoodEvents(s, m)
    ensures StartsOk(Perform(s, m))
  {
    var s' := Perform(s, m);
    forall d | d in s'.callers && s'.callers[d].phase.Marking? ensures !HasStarted(s', s'.callers[d].key) {
      if d != m.caller {
        assert Owns(s, d);
        assert Owns(s, m.caller) ==> s.callers[d].key != m.who.key;
        assert !HasStarted(s, s.callers[d].key);
      }
    }
  }

  lemma MoveKeepsResponses(s: System, m: Move)
    requires Inv(s) && GoodRow(s, m) && GoodEvents(s, m)
    ensures ResponsesOk(Perform(s, m))
  {}

  lemma MoveKeepsInv(s: System, m: Move)
    requires Inv(s) && GoodRow(s, m) && GoodOwner(s, m) && GoodEvents(s, m)
    ensures Inv(Perform(s, m))
  {
    MoveKeepsRows(s, m);
    MoveKeepsOwners(s, m);
    MoveKeepsStarts(s, m);
    MoveKeepsResponses(s, m);
  }

  /** The acquire is skipped for an empty key and rolled back on a conflict. */
  predicate LeavesNoTrace(s: System, key: string, hash: string) {
    key == "" || (key in s.table && s.table[key].requestHash != hash)
  }

  /** A bypassed or conflicting acquire changes nothing but the caller's own phase and the drawn identifiers. */
  lemma NoTraceKeepsInv(s: System, c: nat, key: string, hash: string, id: string)
    requires Inv(s) && c !in s.callers && LeavesNoTrace(s, key, hash)
    ensures Inv(BeginStep(s, c, key, hash, id))
  {
    var s' := BeginStep(s, c, key, hash, id);
    assert forall d :: Owns(s', d) ==> Owns(s, d) && s'.callers[d] == s.callers[d];
    assert forall k :: HasStarted(s', k) ==> HasStarted(s, k);
  }

  function BeginMove(s: System, c: nat, key: string, hash: string, id: string): Move
    requires key in s.table ==> s.table[key].requestHash == hash
  {
    var r := AcquireResult(s.table, key, hash, id, s.now, s.staleAfter);
    var touched := Touched(key, s.now);
    match Judge(r.row, r.isNew)
    case Replay(p) => Move(c, Caller(key, hash, Returned(p)), r.row, {id}, [touched, Responded(c, key, p)])
    case Raise(_) => Move(c, Caller(key, hash, Raised), r.row, {id}, [touched])
    case Proceed => Move(c, Caller(key, hash, Marking(r.row.inferenceId)), r.row, {id}, [touched])
  }

  lemma BeginIsMove(s: System, c: nat, key: string, hash: string, id: string)
    requires !LeavesNoTrace(s, key, hash)
    ensures BeginStep(s, c, key, hash, id) == Perform(s, BeginMove(s, c, key, hash, id))
  {
    var r := AcquireResult(s.table, key, hash, id, s.now, s.staleAfter);
    assert AcquireTable(s.table, key, hash, id, s.now, s.staleAfter) == s.table[key := r.row];
  }

  lemma BeginMoveIsGood(s: System, c: nat, key: string, hash: string, id: string)
    requires Inv(s) && Enabled(s, Begin(c, key, hash, id))
    requires key in s.table ==> s.table[key].requestHash == hash
    ensures var m := BeginMove(s, c, key, hash, id); GoodRow(s, m) && GoodOwner(s, m) && GoodEvents(s, m)
  {
    var m := BeginMove(s, c, key, hash, id);
    assert GoodRow(s, m);
    assert m.who.phase.Marking? <==> key !in s.table;
  }

  lemma BeginKeepsInv(s: System, c: nat, key: string, hash: string, id: string)
    requires Inv(s) && Enabled(s, Begin(c, key, hash, id))
    ensures Inv(BeginStep(s, c, key, hash, id))
  {
    if LeavesNoTrace(s, key, hash) {
      NoTraceKeepsInv(s, c, key, hash, id);
    } else {
      BeginIsMove(s, c, key, hash, id);
      BeginMoveIsGood(s, c, key, hash, id);
      MoveKeepsInv(s, BeginMove(s, c, key, hash, id));
    }
  }

  function OwnerMove(s: System, step: Step): Move
    requires Enabled(s, step) && (step.Mark? || step.Complete? || step.Fail?)
    requires s.callers[step.caller].key in s.table
  {
    var c := step.caller;
    var who := s.callers[c];
    var row := s.table[who.key];
    match step
    case Mark(_) =>
      Move(c, who.(phase := Running(who.phase.id)), MarkRow(row, s.now), {},
           [Touched(who.key, s.now), Started(c, who.key)])
    case Complete(_, p, delivered) =>
      Move(c, who.(phase := if delivered then Returned(p) else Dead), CompleteRow(row, ResponseDocument(p), s.now), {},
           if delivered then [Responded(c, who.key, p)] else [])
    case Fail(_, detail) =>
      Move(c, who.(phase := Raised), FailRow(row, "inference_failed", FailureDocument(detail), s.now), {}, [])
  }

  lemma OwnerStepIsMove(s: System, step: Step)
    requires RowsOk(s) && OwnersOk(s) && Enabled(s, step) && (step.Mark? || step.Complete? || step.Fail?)
    ensures Owns(s, step.caller) && s.callers[step.caller].key in s.table
    ensures Apply(s, step) == Perform(s, OwnerMove(s, step))
  {
    var key, now := s.callers[step.caller].key, s.now;
    assert Owns(s, step.caller);
    match step
    case Mark(_) => UpdateReachesOneRow(s, key, e => MarkRow(e, now));
    case Complete(_, p, _) => UpdateReachesOneRow(s, key, e => CompleteRow(e, ResponseDocument(p), now));
    case Fail(_, detail) =>
      UpdateReachesOneRow(s, key, e => FailRow(e, "inference_failed", FailureDocument(detail), now));
    assert s.issued + {} == s.issued;
    assert s.log + [] == s.log;
  }

  lemma OwnerMoveIsGood(s: System, step: Step)
    requires Inv(s) && Enabled(s, step) && (step.Mark? || step.Complete? || step.Fail?)
    requires s.callers[step.caller].key in s.table
    ensures var m := OwnerMove(s, step); GoodRow(s, m) && GoodOwner(s, m) && GoodEvents(s, m)
  {
    assert Owns(s, step.caller);
  }

  lemma OwnerStepKeepsInv(s: System, step: Step)
    requires Inv(s) && Enabled(s, step) && (step.Mark? || step.Complete? || step.Fail?)
    ensures Inv(Apply(s, step))
  {
    OwnerStepIsMove(s, step);
    OwnerMoveIsGood(s, step);
    MoveKeepsInv(s, OwnerMove(s, step));
  }

  /** Every step either leaves table and log alone or is a good move of its caller. */
  lemma StepIsMoveOrSilent(s: System, step: Step) returns (m: Option<Move>)
    requires Inv(s) && Enabled(s, step)
    ensures m.None? ==> Apply(s, step).table == s.table && Apply(s, step).log == s.log
    ensures m.None? ==> forall d :: Owns(Apply(s, step), d) ==> Owns(s, d) && Apply(s, step).callers[d] == s.callers[d]
    ensures m.Some? ==> GoodRow(s, m.value) && GoodOwner(s, m.value) && GoodEvents(s, m.value)
    ensures m.Some? ==> Apply(s, step) == Perform(s, m.value)
    ensures m.Some? ==>
      if step.Begin? then
        && (step.key in s.table ==> s.table[step.key].requestHash == step.hash)
        && m.value == BeginMove(s, step.caller, step.key, step.hash, step.id)
      else
        && (step.Mark? || step.Complete? || step.Fail?) && Owns(s, step.caller)
        && s.callers[step.caller].key in s.table && m.value == OwnerMove(s, step)
  {
    if step.Tick? || step.Die? || (step.Begin? && LeavesNoTrace(s, step.key, step.hash)) {
      m := None;
    } else if step.Begin? {
      BeginIsMove(s, step.caller, step.key, step.hash, step.id);
      BeginMoveIsGood(s, step.caller, step.key, step.hash, step.id);
      m := Some(BeginMove(s, step.caller, step.key, step.hash, step.id));
    } else {
      OwnerStepIsMove(s, step);
      OwnerMoveIsGood(s, step);
      m := Some(OwnerMove(s, step));
    }
  }

  lemma StepKeepsInv(s: System, step: Step)
    requires Inv(s) && Enabled(s, step)
    ensures Inv(Apply(s, step))
  {
    match step
    case Tick(t) =>
      assert forall d :: Owns(Apply(s, step), d) ==> Owns(s, d);
      assert forall k :: HasStarted(Apply(s, step), k) ==> HasStarted(s, k);
    case Begin(c, key, hash, id) => BeginKeepsInv(s, c, key, hash, id);
    case Mark(_) => OwnerStepKeepsInv(s, step);
    case Complete(_, _, _) => OwnerStepKeepsInv(s, step);
    case Fail(_, _) => OwnerStepKeepsInv(s, step);
    case Die(c) =>
      assert forall d :: Owns(Apply(s, step), d) ==> Owns(s, d);
      assert forall k :: HasStarted(Apply(s, step), k) ==> HasStarted(s, k);
  }

  lemma {:induction false} RunKeepsInv(s: System, steps: seq<Step>)
    requires Inv(s) && Legal(s, steps)
    ensures Inv(Exec(s, steps))
    decreases |steps|
  {
    if steps != [] {
      StepKeepsInv(s, steps[0]);
      RunKeepsInv(Apply(s, steps[0]), steps[1..]);
    }
  }

  lemma ReachableSatisfiesInv(s: System)
    requires Reachable(s)
    ensures Inv(s)
  {
    var now, staleAfter, steps :| Legal(Init(now, staleAfter), steps) && Exec(Init(now, staleAfter), steps) == s;
    RunKeepsInv(Init(now, staleAfter), steps);
  }

  /*** Theorems about whole runs ***/

  /** At most one caller ever goes on to execute a key, and it does so once. */
  lemma AtMostOneExecution(s: System, i: nat, j: nat)
    requires Reachable(s)
    requires i < |s.log| && j < |s.log| && s.log[i].Started? && s.log[j].Started?
    requires s.log[i].key == s.log[j].key
    ensures i == j
  {
    ReachableSatisfiesInv(s);
  }

  /** Every response that ever leaves the service for one key carries the same payload. */
  lemma AllResponsesEqual(s: System, i: nat, j: nat)
    requires Reachable(s)
    requires i < |s.log| && j < |s.log| && s.log[i].Responded? && s.log[j].Responded?
    requires s.log[i].key == s.log[j].key
    ensures s.log[i].payload == s.log[j].payload
  {
    ReachableSatisfiesInv(s);
  }

  /** A caller that did not create the row never falls through to execution. */
  lemma OnlyCreatorsProceed(s: System, key: string, hash: string, id: string)
    requires Reachable(s) && id !in s.issued
    ensures forall k :: k in s.table ==>
      !s.table[k].status.TimedOut? && (s.table[k].status.Completed? ==> s.table[k].result.ResponseDocument?)
    ensures var r := AcquireResult(s.table, key, hash, id, s.now, s.staleAfter);
      r.Acquired? ==> (Judge(r.row, r.isNew).Proceed? <==> r.isNew)
  {
    ReachableSatisfiesInv(s);
  }

  /** A key keeps its binding, and a completed one its result. */
  ghost predicate Keeps(before: Table, after: Table, key: string)
    requires key in before
  {
    && key in after
    && after[key].requestHash == before[key].requestHash
    && after[key].inferenceId == before[key].inferenceId
    && (before[key].status.Completed? ==> after[key].status.Completed? && after[key].result == before[key].result)
  }

  lemma StepKeepsBinding(s: System, step: Step, key: string)
    requires Inv(s) && Enabled(s, step) && key in s.table
    ensures Keeps(s.table, Apply(s, step).table, key)
  {
    var m := StepIsMoveOrSilent(s, step);
    if m.Some? && m.value.who.key == key {
      assert m.value.row.requestHash == s.table[key].requestHash;
    }
  }

  /**
   Once bound, a key keeps its request hash and inference id through every continuation, and once
   completed it keeps its status and result.
   */
  lemma {:induction false} BindingsAndCompletionsAreFinal(s: System, steps: seq<Step>, key: string)
    requires Inv(s) && Legal(s, steps) && key in s.table
    ensures Keeps(s.table, Exec(s, steps).table, key)
    decreases |steps|
  {
    if steps != [] {
      StepKeepsBinding(s, steps[0], key);
      StepKeepsInv(s, steps[0]);
      BindingsAndCompletionsAreFinal(Apply(s, steps[0]), steps[1..], key);
    }
  }

  /*** When a failure really is the end of a key ***/

  ghost predicate HasLiveOwner(s: System, key: string) {
    exists c :: Owns(s, c) && s.callers[c].key == key
  }

  lemma OrphanedFailureStepStays(s: System, step: Step, key: string)
    requires Inv(s) && Enabled(s, step) && key in s.table && s.table[key].status.Failed?
    requires !HasLiveOwner(s, key)
    ensures var s' := Apply(s, step);
      key in s'.table && s'.table[key].status.Failed? && !HasLiveOwner(s', key)
  {
    var s' := Apply(s, step);
    var m := StepIsMoveOrSilent(s, step);
    if m.Some? && m.value.who.key == key {
      assert step.Begin?;
      assert !m.value.row.status.Completed? && m.value.row.status.Failed? && !Active(m.value.who.phase);
    }
    forall c | Owns(s', c) ensures s'.callers[c].key != key {
      if m.None? || c != m.value.caller {
        assert Owns(s, c) && s'.callers[c].key == s.callers[c].key;
      }
    }
  }

  lemma {:induction false} OrphanedFailureStays(s: System, steps: seq<Step>, key: string)
    requires Inv(s) && Legal(s, steps) && key in s.table && s.table[key].status.Failed?
    requires !HasLiveOwner(s, key)
    ensures key in Exec(s, steps).table && Exec(s, steps).table[key].status.Failed?
    decreases |steps|
  {
    if steps != [] {
      OrphanedFailureStepStays(s, steps[0], key);
      StepKeepsInv(s, steps[0]);
      OrphanedFailureStays(Apply(s, steps[0]), steps[1..], key);
    }
  }

  /** The run by which a live owner turns a failed row into a completed one. */
  lemma LiveOwnerCanStillComplete(s: System, key: string) returns (steps: seq<Step>)
    requires Inv(s) && key in s.table && s.table[key].status.Failed? && HasLiveOwner(s, key)
    ensures Legal(s, steps) && key in Exec(s, steps).table && Exec(s, steps).table[key].status.Completed?
  {
    var c :| Owns(s, c) && s.callers[c].key == key;
    var done := Complete(c, "response", true);
    if s.callers[c].phase.Running? {
      OwnerStepIsMove(s, done);
      assert Legal(Apply(s, done), []);
      steps := [done];
      assert steps[1..] == [];
      assert Exec(s, steps) == Apply(s, done);
    } else {
      var m := Mark(c);
      var s1 := Apply(s, m);
      StepKeepsBinding(s, m, key);
      StepKeepsInv(s, m);
      OwnerStepIsMove(s1, done);
      assert Legal(Apply(s1, done), []);
      assert [done][1..] == [];
      assert Legal(s1, [done]);
      steps := [m, done];
      assert steps[1..] == [done];
      assert Exec(s, steps) == Exec(s1, [done]) == Apply(s1, done);
    }
  }

  /**
   The store's documentation calls a stale failure a terminal outcome for its key. A FAILED row
   stays FAILED in every continuation exactly when no caller still owns the key.
   */
  lemma FailureIsTerminalIffOrphaned(s: System, key: string)
    requires Reachable(s) && key in s.table && s.table[key].status.Failed?
    ensures (forall steps :: Legal(s, steps) ==>
               key in Exec(s, steps).table && Exec(s, steps).table[key].status.Failed?)
            <==> !HasLiveOwner(s, key)
  {
    ReachableSatisfiesInv(s);
    if HasLiveOwner(s, key) {
      var steps := LiveOwnerCanStillComplete(s, key);
      assert Legal(s, steps) && !Exec(s, steps).table[key].status.Failed?;
    } else {
      forall steps | Legal(s, steps)
        ensures key in Exec(s, steps).table && Exec(s, steps).table[key].status.Failed?
      {
        OrphanedFailureStays(s, steps, key);
      }
    }
  }

  lemma {:induction false} RunExtends(s: System, steps: seq<Step>, step: Step)
    requires Legal(s, steps) && Enabled(Exec(s, steps), step)
    ensures Legal(s, steps + [step]) && Exec(s, steps + [step]) == Apply(Exec(s, steps), step)
    decreases |steps|
  {
    var all := steps + [step];
    if steps == [] {
      assert Legal(Apply(s, step), all[1..]);
    } else {
      assert all[1..] == steps[1..] + [step];
      RunExtends(Apply(s, steps[0]), steps[1..], step);
    }
  }

  lemma OwnerRuns(key: string, hash: string, staleAfter: nat) returns (steps: seq<Step>)
    requires key != ""
    ensures Legal(Init(0, staleAfter), steps)
    ensures var s := Exec(Init(0, staleAfter), steps);
      && s.now == 0 && s.staleAfter == staleAfter && s.issued == {"a"}
      && s.table == map[key := MarkRow(FreshEnvelope(hash, "a", 0), 0)]
      && s.callers == map[0 := Caller(key, hash, Running("a"))]
  {
    var s0 := Init(0, staleAfter);
    RunExtends(s0, [], Begin(0, key, hash, "a"));
    var begun := [] + [Begin(0, key, hash, "a")];
    assert Exec(s0, begun).callers == map[0 := Caller(key, hash, Marking("a"))];
    RunExtends(s0, begun, Mark(0));
    steps := begun + [Mark(0)];
  }

  /** A second request of the key, late enough, fails the row of an owner that is still running. */
  lemma SweptWhileOwnerRuns(key: string, hash: string, staleAfter: nat) returns (s: System)
    requires key != ""
    ensures Reachable(s) && key in s.table && HasLiveOwner(s, key)
    ensures s.table[key].status.Failed? && s.table[key].failureReason == Some(STALE_FAILURE_REASON)
  {
    var s0 := Init(0, staleAfter);
    var running := OwnerRuns(key, hash, staleAfter);
    RunExtends(s0, running, Tick(staleAfter + 1));
    var late := running + [Tick(staleAfter + 1)];
    RunExtends(s0, late, Begin(1, key, hash, "b"));
    s := Exec(s0, late + [Begin(1, key, hash, "b")]);
    assert Owns(s, 0);
  }

  /*** Staleness, under a clock that does not run backwards ***/

  predicate Forward(s: System, step: Step) {
    step.Tick? ==> s.now <= step.to
  }

  predicate ForwardRun(s: System, steps: seq<Step>)
    requires Legal(s, steps)
    decreases |steps|
  {
    steps == [] || (Forward(s, steps[0]) && ForwardRun(Apply(s, steps[0]), steps[1..]))
  }

  /**
   While a row is in progress no touch of its key is newer than its `updatedAt` (a mark that finds
   the row already failed changes nothing), and no row is newer than the clock.
   */
  ghost predicate TouchesOk(s: System) {
    && (forall i :: 0 <= i < |s.log| && s.log[i].Touched? ==>
          && s.log[i].key in s.table
          && (InProgress(s.table[s.log[i].key]) ==> s.log[i].at <= s.table[s.log[i].key].updatedAt))
    && (forall k :: k in s.table ==> s.table[k].updatedAt <= s.now)
  }

  lemma MoveKeepsTouches(s: System, m: Move)
    requires TouchesOk(s)
    requires m.row.updatedAt <= s.now
    requires m.who.key in s.table && InProgress(m.row) ==> InProgress(s.table[m.who.key]) && m.row.updatedAt >= s.table[m.who.key].updatedAt
    requires forall i :: 0 <= i < |m.events| && m.events[i].Touched? ==>
      m.events[i].key == m.who.key && (InProgress(m.row) ==> m.events[i].at <= m.row.updatedAt)
    ensures TouchesOk(Perform(s, m))
  {}

  lemma StepKeepsTouches(s: System, step: Step)
    requires Inv(s) && TouchesOk(s) && Enabled(s, step) && Forward(s, step)
    ensures TouchesOk(Apply(s, step))
  {
    var m := StepIsMoveOrSilent(s, step);
    if m.Some? {
      MoveKeepsTouches(s, m.value);
    }
  }

  lemma {:induction false} RunKeepsTouches(s: System, steps: seq<Step>)
    requires Inv(s) && TouchesOk(s) && Legal(s, steps) && ForwardRun(s, steps)
    ensures TouchesOk(Exec(s, steps))
    decreases |steps|
  {
    if steps != [] {
      StepKeepsTouches(s, steps[0]);
      StepKeepsInv(s, steps[0]);
      RunKeepsTouches(Apply(s, steps[0]), steps[1..]);
    }
  }

  /** The step turned an in-progress row into a stale failure. */
  ghost predicate Sweeps(s: System, step: Step, key: string)
    requires Enabled(s, step)
  {
    && key in s.table && InProgress(s.table[key])
    && key in Apply(s, step).table && Apply(s, step).table[key].status.Failed?
    && Apply(s, step).table[key].failureReason == Some(STALE_FAILURE_REASON)
  }

  lemma SweepIsStaleAcquire(s: System, step: Step, key: string)
    requires Inv(s) && Enabled(s, step) && Sweeps(s, step, key)
    ensures step.Begin? && step.key == key && step.hash == s.table[key].requestHash
    ensures IsStale(s.table[key], s.now, s.staleAfter)
  {
    var m := StepIsMoveOrSilent(s, step);
    assert m.Some? && m.value.who.key == key;
  }

  /**
   A row is swept only by a same-hash acquire of its own key, and only if every earlier acquire and
   mark of the key lies more than `staleAfter` in the past.
   */
  lemma SweptOnlyWhenIdle(now: int, staleAfter: int, run: seq<Step>, s: System, step: Step, key: string)
    requires Legal(Init(now, staleAfter), run) && ForwardRun(Init(now, staleAfter), run)
    requires s == Exec(Init(now, staleAfter), run)
    requires Enabled(s, step) && Sweeps(s, step, key)
    ensures step.Begin? && step.key == key && step.hash == s.table[key].requestHash
    ensures forall i :: 0 <= i < |s.log| && s.log[i].Touched? && s.log[i].key == key ==>
              s.log[i].at + s.staleAfter < s.now
  {
    RunKeepsInv(Init(now, staleAfter), run);
    RunKeepsTouches(Init(now, staleAfter), run);
    SweepIsStaleAcquire(s, step, key);
  }

  /** An acquire that raises a hash conflict leaves the whole table as it was, sweep included. */
  lemma ConflictLeavesTableAlone(s: System, c: nat, key: string, hash: string, id: string)
    requires Enabled(s, Begin(c, key, hash, id))
    requires key != "" && key in s.table && s.table[key].requestHash != hash
    ensures var s' := Apply(s, Begin(c, key, hash, id));
      s'.table == s.table && s'.log == s.log && s'.callers[c].phase == Raised
  {}
}
