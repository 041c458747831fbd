/** The idempotency store: one envelope row per idempotency key, changed by four transactions. */
module Idempotency {
  import opened Basics

  const STALE_FAILURE_REASON := "stale_in_progress"

  datatype Status = Pending | Executing | Completed | Failed | TimedOut

  /** The `result_json` column: SQL null, an empty object, a `_failed` record or a response. */
  datatype Document =
    | NoDocument
    | EmptyDocument
    | FailureDocument(detail: string)
    | ResponseDocument(payload: string)

  /** Instants are integers; `updatedAt` is also refreshed by every ORM flush of the row. */
  datatype Envelope = Envelope(
    requestHash: string,
    inferenceId: string,
    status: Status,
    failureReason: Option<string>,
    firstSeenAt: int,
    lastSeenAt: int,
    updatedAt: int,
    result: Document)

  type Table = map<string, Envelope>

  /** What `acquire` hands back: the raised conflict, or the row and whether this call made it. */
  datatype Acquisition = HashConflict | Acquired(row: Envelope, isNew: bool)

  predicate InProgress(e: Envelope) {
    e.status.Pending? || e.status.Executing?
  }

  predicate IsStale(e: Envelope, now: int, staleAfter: int) {
    InProgress(e) && e.updatedAt < now - staleAfter
  }

  function MarkStale(e: Envelope, now: int): Envelope {
    e.(status := Failed, failureReason := Some(STALE_FAILURE_REASON), updatedAt := now)
  }

  /** The stale sweep that opens every acquire; it is restricted to the acquired key. */
  function Sweep(t: Table, key: string, now: int, staleAfter: int): Table {
    if key in t && IsStale(t[key], now, staleAfter) then t[key := MarkStale(t[key], now)] else t
  }

  function FreshEnvelope(hash: string, id: string, now: int): Envelope {
    Envelope(hash, id, Pending, None, now, now, now, NoDocument)
  }

  function Touch(e: Envelope, now: int): Envelope {
    e.(lastSeenAt := now, updatedAt := now)
  }

  /** The table after an acquire that did not raise, and the table it started from if it raised. */
  function AcquireTable(t: Table, key: string, hash: string, id: string, now: int, staleAfter: int): Table {
    if key !in t then t[key := FreshEnvelope(hash, id, now)]
    else if t[key].requestHash != hash then t
    else
      var swept := Sweep(t, key, now, staleAfter);
      swept[key := Touch(swept[key], now)]
  }

  function AcquireResult(t: Table, key: string, hash: string, id: string, now: int, staleAfter: int): Acquisition {
    if key !in t then Acquired(FreshEnvelope(hash, id, now), true)
    else if t[key].requestHash != hash then HashConflict
    else Acquired(AcquireTable(t, key, hash, id, now, staleAfter)[key], false)
  }

  /** `UPDATE ... WHERE inference_id = :id`, which is not restricted to one key. */
  function UpdateById(t: Table, id: string, change: Envelope -> Envelope): Table {
    map k | k in t :: if t[k].inferenceId == id then change(t[k]) else t[k]
  }

  function MarkRow(e: Envelope, now: int): Envelope {
    if InProgress(e) then e.(status := Executing, updatedAt := now) else e
  }

  function CompleteRow(e: Envelope, payload: Document, now: int): Envelope {
    e.(status := Completed, result := payload, failureReason := None, updatedAt := now)
  }

  function FailRow(e: Envelope, reason: string, payload: Document, now: int): Envelope {
    e.(status := Failed, failureReason := Some(reason), updatedAt := now,
       result := if payload == NoDocument then e.result else payload)
  }

  /** The store itself: each method is one database transaction over the shared table. */
  class IdempotencyStore {
    var rows: Table
    const staleAfter: int

    constructor (staleAfter: int)
      ensures rows == map[] && this.staleAfter == staleAfter
    {
      this.rows := map[];
      this.staleAfter := staleAfter;
    }

    /** Sweep, insert-or-nothing, then read back; a conflict rolls the whole transaction back. */
    method Acquire(key: string, hash: string, id: string, now: int) returns (r: Acquisition)
      modifies this
      ensures rows == AcquireTable(old(rows), key, hash, id, now, staleAfter)
      ensures r == AcquireResult(old(rows), key, hash, id, now, staleAfter)
      ensures r.HashConflict? <==> key in old(rows) && old(rows)[key].requestHash != hash
      ensures r.HashConflict? ==> rows == old(rows)
      ensures key !in old(rows) ==>
        rows == old(rows)[key := Envelope(hash, id, Pending, None, now, now, now, NoDocument)]
      ensures key in old(rows) && !r.HashConflict? ==>
        var e := old(rows)[key];
        var stale := (e.status.Pending? || e.status.Executing?) && e.updatedAt < now - staleAfter;
        rows == old(rows)[key :=
          if stale then e.(status := Failed, failureReason := Some("stale_in_progress"), lastSeenAt := now, updatedAt := now)
          else e.(lastSeenAt := now, updatedAt := now)]
      ensures r.Acquired? ==> key in rows && rows[key] == r.row && r.isNew == (key !in old(rows))
      ensures forall k :: k != key ==> (k in rows <==> k in old(rows))
      ensures forall k :: k != key && k in rows ==> rows[k] == old(rows)[k]
    {
      var savepoint := rows;
      var cutoff := now - staleAfter;
      if key in rows && InProgress(rows[key]) && rows[key].updatedAt < cutoff {
        rows := rows[key := MarkStale(rows[key], now)];
      }
      if key !in rows {
        var row := FreshEnvelope(hash, id, now);
        rows := rows[key := row];
        return Acquired(row, true);
      }
      if rows[key].requestHash != hash {
        rows := savepoint;
        return HashConflict;
      }
      rows := rows[key := Touch(rows[key], now)];
      r := Acquired(rows[key], false);
    }

    method MarkExecuting(id: string, now: int)
      modifies this
      ensures rows == UpdateById(old(rows), id, e => MarkRow(e, now))
      ensures rows.Keys == old(rows).Keys
      ensures forall k :: k in rows ==>
        var e := old(rows)[k];
        rows[k] == if e.inferenceId == id && (e.status.Pending? || e.status.Executing?)
          then e.(status := Executing, updatedAt := now) else e
    {
      rows := map k | k in rows ::
        if rows[k].inferenceId == id && InProgress(rows[k])
        then rows[k].(status := Executing, updatedAt := now) else rows[k];
    }

    method UpdateCompleted(id: string, payload: Document, now: int)
      modifies this
      ensures rows == UpdateById(old(rows), id, e => CompleteRow(e, payload, now))
      ensures rows.Keys == old(rows).Keys
      ensures forall k :: k in rows ==>
        var e := old(rows)[k];
        rows[k] == if e.inferenceId == id
          then e.(status := Completed, result := payload, failureReason := None, updatedAt := now) else e
    {
      rows := map k | k in rows ::
        if rows[k].inferenceId == id
        then rows[k].(status := Completed, result := payload, failureReason := None, updatedAt := now)
        else rows[k];
    }

    method UpdateFailed(id: string, reason: string, payload: Document, now: int)
      modifies this
      ensures rows == UpdateById(old(rows), id, e => FailRow(e, reason, payload, now))
      ensures rows.Keys == old(rows).Keys
      ensures forall k :: k in rows ==>
        var e := old(rows)[k];
        var kept := if payload.NoDocument? then e.result else payload;
        rows[k] == if e.inferenceId == id
          then e.(status := Failed, failureReason := Some(reason), result := kept, updatedAt := now) else e
    {
      rows := map k | k in rows ::
        if rows[k].inferenceId == id then FailRow(rows[k], reason, payload, now) else rows[k];
    }
  }
}
