/** One chat inference from request to response: idempotency, execution and finalization together. */
module ChatInference {
  import opened Basics
  import opened Idempotency
  import IdempotencyProtocol
  import Chat = ChatExecution

  datatype ChatError =
    | Refused(error: IdempotencyProtocol.ServiceError)
    | ExecutionFailed(outcome: Chat.Outcome)
    | StoreFailed(outcome: Chat.Outcome)     // a finalizing write raised

  /** Whether the finalizing writes of the owner's row succeed. */
  datatype Writes = Writes(completed: bool, failed: bool)

  /** The detail stored with a failure; `text` stands for the text of exceptions raised elsewhere. */
  function DetailText(o: Chat.Outcome, text: string): (r: string)
    ensures o.DeadlineExceeded? ==> r == "global_latency_cap_exceeded"
    ensures o.Exhausted? ==> r == "all_candidates_failed"
    ensures !o.DeadlineExceeded? && !o.Exhausted? ==> r == text
  {
    match o
    case DeadlineExceeded(_) => "global_latency_cap_exceeded"
    case Exhausted => "all_candidates_failed"
    case _ => text
  }

  ghost predicate UniqueIds(t: Table) {
    forall k, l :: k in t && l in t && t[k].inferenceId == t[l].inferenceId ==> k == l
  }

  ghost predicate Unused(t: Table, id: string) {
    forall k :: k in t ==> t[k].inferenceId != id
  }

  lemma OneRowById(t: Table, key: string, change: Envelope -> Envelope)
    requires UniqueIds(t) && key in t
    ensures UpdateById(t, t[key].inferenceId, change) == t[key := change(t[key])]
  {}

  /** Acquiring with a fresh candidate keeps ids unique, and the row it returns is the key's row. */
  lemma AcquireKeepsUniqueIds(t: Table, key: string, hash: string, id: string, now: int, staleAfter: int)
    requires UniqueIds(t) && Unused(t, id)
    ensures UniqueIds(AcquireTable(t, key, hash, id, now, staleAfter))
    ensures var r := AcquireResult(t, key, hash, id, now, staleAfter);
      r.Acquired? ==>
        && key in AcquireTable(t, key, hash, id, now, staleAfter)
        && AcquireTable(t, key, hash, id, now, staleAfter)[key] == r.row
        && r.row.requestHash == hash
  {}

  /**
   The row after finalization. A response whose completion cannot be written is recorded as a failure,
   after its COMPLETED event; a failure that cannot be written leaves the row in progress.
   */
  function Finalized(row: Envelope, o: Chat.Outcome, text: string, w: Writes, now: int): Envelope {
    if o.Responded? && w.completed then CompleteRow(row, ResponseDocument(o.payload), now)
    else if w.failed then FailRow(row, "inference_failed", Failure(o, text), now)
    else row
  }

  /** The failure record; `text` also stands for the text of a failed completion. */
  function Failure(o: Chat.Outcome, text: string): Document {
    FailureDocument(DetailText(o, text))
  }

  /** What the caller gets. */
  function Answered(o: Chat.Outcome, w: Writes): Result<string, ChatError> {
    if o.Responded? then if w.completed then Ok(o.payload) else Err(StoreFailed(o))
    else if w.failed then Err(ExecutionFailed(o))
    else Err(StoreFailed(o))
  }

  /** The owner executes and finalizes the one row of its key. */
  method ExecuteAndFinalize(
      store: IdempotencyStore, ghost key: string, id: string, finishedAt: int,
      startWritten: bool, endWritten: bool, routed: bool, chain: seq<Chat.Position>, text: string, w: Writes)
    returns (r: Result<string, ChatError>, ghost outcome: Chat.Outcome, events: seq<Chat.AuditEvent>)
    requires UniqueIds(store.rows) && key in store.rows && store.rows[key].inferenceId == id
    modifies store
    ensures events == Chat.Trail(outcome) && r == Answered(outcome, w)
    ensures store.rows == old(store.rows)[key := Finalized(old(store.rows)[key], outcome, text, w, finishedAt)]
    ensures outcome.Responded? && w.completed ==>
      && r == Ok(outcome.payload)
      && store.rows == old(store.rows)[key := old(store.rows)[key].(
           status := Completed, result := ResponseDocument(outcome.payload), failureReason := None, updatedAt := finishedAt)]
    ensures !(outcome.Responded? && w.completed) ==>
      && r == Err(if !outcome.Responded? && w.failed then ExecutionFailed(outcome) else StoreFailed(outcome))
      && store.rows == if !w.failed then old(store.rows) else old(store.rows)[key := old(store.rows)[key].(
           status := Failed, result := FailureDocument(DetailText(outcome, text)),
           failureReason := Some("inference_failed"), updatedAt := finishedAt)]
  {
    var o, attempts;
    o, attempts, events := Chat.Execute(startWritten, endWritten, routed, chain);
    outcome := o;
    if o.Responded? && w.completed {
      OneRowById(store.rows, key, e => CompleteRow(e, ResponseDocument(o.payload), finishedAt));
      store.UpdateCompleted(id, ResponseDocument(o.payload), finishedAt);
      return Ok(o.payload), o, events;
    }
    if w.failed {
      OneRowById(store.rows, key, e => FailRow(e, "inference_failed", Failure(o, text), finishedAt));
      store.UpdateFailed(id, "inference_failed", Failure(o, text), finishedAt);
    }
    r := if !o.Responded? && w.failed then Err(ExecutionFailed(o)) else Err(StoreFailed(o));
  }

  /** The key is already completed with a response to the same request. */
  ghost predicate HasResponse(t: Table, key: string, hash: string) {
    key in t && t[key].requestHash == hash && t[key].status == Completed && t[key].result.ResponseDocument?
  }

  /** The key's row stores exactly this response. */
  ghost predicate Stores(t: Table, key: string, hash: string, payload: string) {
    HasResponse(t, key, hash) && t[key].result.payload == payload
  }

  /** What a first request leaves when it raises: its failure record, or a row that stays in progress. */
  ghost predicate LeavesFailure(t: Table, key: string, id: string, o: Chat.Outcome, text: string, w: Writes) {
    && key in t && t[key].inferenceId == id
    && (if w.failed then t[key].status == Failed && t[key].result == Failure(o, text)
        else t[key].status == Executing && t[key].result == NoDocument)
  }

  lemma RowChangeKeepsUniqueIds(t: Table, key: string, row: Envelope)
    requires UniqueIds(t) && key in t && row.inferenceId == t[key].inferenceId
    ensures UniqueIds(t[key := row])
  {}

  /** The owner's part of a request, from the table its acquire left. */
  method Own(
      store: IdempotencyStore, ghost acquired: Table, ghost key: string, id: string, ghost markedAt: int, finishedAt: int,
      startWritten: bool, endWritten: bool, routed: bool, chain: seq<Chat.Position>, text: string, w: Writes)
    returns (r: Result<string, ChatError>, ghost outcome: Chat.Outcome, events: seq<Chat.AuditEvent>)
    requires UniqueIds(acquired) && key in acquired && acquired[key].inferenceId == id
    requires store.rows == UpdateById(acquired, id, e => MarkRow(e, markedAt))
    modifies store
    ensures events == Chat.Trail(outcome) && r == Answered(outcome, w)
    ensures store.rows == acquired[key := Finalized(MarkRow(acquired[key], markedAt), outcome, text, w, finishedAt)]
    ensures UniqueIds(store.rows)
  {
    OneRowById(acquired, key, e => MarkRow(e, markedAt));
    ghost var marked := MarkRow(acquired[key], markedAt);
    RowChangeKeepsUniqueIds(acquired, key, marked);
    r, outcome, events := ExecuteAndFinalize(store, key, id, finishedAt, startWritten, endWritten, routed, chain, text, w);
    RowChangeKeepsUniqueIds(acquired, key, Finalized(marked, outcome, text, w, finishedAt));
    assert store.rows == acquired[key := Finalized(marked, outcome, text, w, finishedAt)];
  }

  /**
   A response under a key always equals what the key's row then stores; a row already completed by the
   same request is replayed without executing anything; a first request that raises leaves its failure
   record, or a row in progress if even that cannot be written; a conflicting request changes nothing.
   */
  method InferChat(
      store: IdempotencyStore, key: string, hash: string, candidate: string,
      acquiredAt: int, markedAt: int, finishedAt: int,
      startWritten: bool, endWritten: bool, routed: bool, chain: seq<Chat.Position>, text: string, w: Writes)
    returns (r: Result<string, ChatError>, events: seq<Chat.AuditEvent>)
    requires UniqueIds(store.rows) && Unused(store.rows, candidate)
    modifies store
    ensures UniqueIds(store.rows)
    ensures key == "" ==> store.rows == old(store.rows)
    ensures key == "" && r.Ok? ==> exists i: nat ::
      i < |chain| && chain[i].reply == Chat.Success(r.value) && events == [Chat.Started, Chat.Completed(i)]
    ensures key == "" && r.Err? ==>
      r.error.ExecutionFailed? && !r.error.outcome.Responded? && events == Chat.Trail(r.error.outcome)
    ensures key != "" && r.Ok? ==> Stores(store.rows, key, hash, r.value)
    ensures (key != "" && HasResponse(old(store.rows), key, hash)) ==>
      r == Ok(old(store.rows)[key].result.payload) && events == []
    ensures (key != "" && key in old(store.rows) && old(store.rows)[key].requestHash != hash) ==>
      r == Err(Refused(IdempotencyProtocol.ConflictError)) && events == [] && store.rows == old(store.rows)
    ensures key != "" && key !in old(store.rows) && r.Err? ==>
      && !r.error.Refused? && events == Chat.Trail(r.error.outcome)
      && LeavesFailure(store.rows, key, candidate, r.error.outcome, text, w)
  {
    AcquireKeepsUniqueIds(store.rows, key, hash, candidate, acquiredAt, store.staleAfter);
    ghost var acquired := AcquireTable(store.rows, key, hash, candidate, acquiredAt, store.staleAfter);
    var begun := IdempotencyProtocol.BeginInference(store, key, hash, candidate, acquiredAt, markedAt);
    match begun {
      case Refused(e) =>
        r, events := Err(Refused(e)), [];
      case Replayed(p) =>
        r, events := Ok(p), [];
      case Untracked(_) =>
        var outcome, _, trail := Chat.Execute(startWritten, endWritten, routed, chain);
        r, events := if outcome.Responded? then Ok(outcome.payload) else Err(ExecutionFailed(outcome)), trail;
      case Owner(id) =>
        ghost var outcome;
        r, outcome, events := Own(
          store, acquired, key, id, markedAt, finishedAt, startWritten, endWritten, routed, chain, text, w);
    }
  }
}
