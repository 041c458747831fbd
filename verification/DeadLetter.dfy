/** Audit emission and its dead-letter queue. */
module DeadLetter {
  import opened Basics

  datatype Event = Event(id: string, body: string)

  datatype Category = Transient | Permanent

  datatype Resolver = RetryLoop | Operator(name: string)

  datatype Status = Pending | FailedPermanent | Resolved(resolver: Resolver)

  datatype Row = Row(event: Event, category: Category, status: Status, retryCount: nat, maxRetries: nat)

  /** `queued` says whether the audit service was built with a dead-letter queue. */
  datatype Store = Store(audit: seq<Event>, rows: map<nat, Row>, nextId: nat, queued: bool)

  /**
   What the environment does to one emission: an error of the audit write and its category, the
   category a duplicate-key error would get, and whether the dead-letter insert itself fails.
   */
  datatype Fault = Fault(write: Option<Category>, duplicate: Category, queueDown: bool)

  predicate HasId(audit: seq<Event>, id: string) {
    exists i :: 0 <= i < |audit| && audit[i].id == id
  }

  function NewRow(e: Event, c: Category): Row {
    Row(e, c, Pending, 0, if c.Transient? then 3 else 0)
  }

  function EnqueueTx(s: Store, e: Event, c: Category): Store {
    s.(rows := s.rows[s.nextId := NewRow(e, c)], nextId := s.nextId + 1)
  }

  predicate WriteSucceeds(s: Store, e: Event, f: Fault) {
    f.write.None? && !HasId(s.audit, e.id)
  }

  function ErrorCategory(f: Fault): Category {
    if f.write.Some? then f.write.value else f.duplicate
  }

  /** The emission returned normally. */
  predicate EmitReturns(s: Store, e: Event, f: Fault) {
    WriteSucceeds(s, e, f) || (s.queued && !f.queueDown)
  }

  function EmitTx(s: Store, e: Event, f: Fault): Store {
    if WriteSucceeds(s, e, f) then s.(audit := s.audit + [e])
    else if s.queued && !f.queueDown then EnqueueTx(s, e, ErrorCategory(f))
    else s
  }

  function SetStatus(s: Store, id: nat, status: Status): Store {
    if id in s.rows then s.(rows := s.rows[id := s.rows[id].(status := status)]) else s
  }

  function CountFailure(s: Store, id: nat): Store {
    if id in s.rows then s.(rows := s.rows[id := s.rows[id].(retryCount := s.rows[id].retryCount + 1)]) else s
  }

  /**
   What the environment does to one record of a sweep: to its emission; whether the write of RESOLVED
   raises, which the retry loop treats like a failed emission; and whether the write of
   FAILED_PERMANENT or of a counted failure raises, which ends the whole sweep.
   */
  datatype RecordFault = RecordFault(emit: Fault, resolveDown: bool, recordDown: bool)

  predicate Exhausted(r: Row) {
    r.retryCount >= r.maxRetries
  }

  /** The record's emission was attempted and returned normally. */
  predicate Retried(s: Store, seen: Row, f: RecordFault) {
    !Exhausted(seen) && EmitReturns(s, seen.event, f.emit)
  }

  /** One record of a sweep, judged by the row as it was read when the sweep began. */
  function RetryRecord(s: Store, id: nat, seen: Row, f: RecordFault): Store {
    if Exhausted(seen) then if f.recordDown then s else SetStatus(s, id, FailedPermanent)
    else
      var t := EmitTx(s, seen.event, f.emit);
      if Retried(s, seen, f) && !f.resolveDown then SetStatus(t, id, Resolved(RetryLoop))
      else if f.recordDown then t
      else CountFailure(t, id)
  }

  /** The record raises out of the sweep, and later records are not visited. */
  predicate Aborts(s: Store, seen: Row, f: RecordFault) {
    f.recordDown && !(Retried(s, seen, f) && !f.resolveDown)
  }

  predicate Eligible(r: Row) {
    r.status.Pending? && r.category.Transient?
  }

  /** The records `order` in turn, against the rows as first read. */
  function RetryRecords(s: Store, order: seq<nat>, seen: map<nat, Row>, faults: nat -> RecordFault): Store
    requires forall id :: id in order ==> id in seen
  {
    if order == [] then s
    else
      var before := RetryRecords(s, order[..|order| - 1], seen, faults);
      var id := order[|order| - 1];
      RetryRecord(before, id, seen[id], faults(id))
  }

  predicate AbortsAt(s: Store, order: seq<nat>, seen: map<nat, Row>, faults: nat -> RecordFault, k: nat)
    requires (forall id :: id in order ==> id in seen) && k < |order|
  {
    Aborts(RetryRecords(s, order[..k], seen, faults), seen[order[k]], faults(order[k]))
  }

  function CountRetried(s: Store, order: seq<nat>, seen: map<nat, Row>, faults: nat -> RecordFault): nat
    requires forall id :: id in order ==> id in seen
  {
    if order == [] then 0
    else
      var shorter, id := order[..|order| - 1], order[|order| - 1];
      CountRetried(s, shorter, seen, faults)
        + if Retried(RetryRecords(s, shorter, seen, faults), seen[id], faults(id)) then 1 else 0
  }

  lemma RetryRecordsSnoc(s: Store, order: seq<nat>, id: nat, seen: map<nat, Row>, faults: nat -> RecordFault)
    requires id in seen && forall x :: x in order ==> x in seen
    ensures var before, longer := RetryRecords(s, order, seen, faults), order + [id];
      && RetryRecords(s, longer, seen, faults) == RetryRecord(before, id, seen[id], faults(id))
      && CountRetried(s, longer, seen, faults) ==
           CountRetried(s, order, seen, faults) + (if Retried(before, seen[id], faults(id)) then 1 else 0)
      && (forall k: nat :: k < |order| ==> (AbortsAt(s, longer, seen, faults, k) <==> AbortsAt(s, order, seen, faults, k)))
      && (AbortsAt(s, longer, seen, faults, |order|) <==> Aborts(before, seen[id], faults(id)))
  {
    var longer := order + [id];
    assert longer[..|longer| - 1] == order;
    assert forall k :: 0 <= k <= |order| ==> longer[..k] == order[..k];
    assert order[..|order|] == order;
  }

  /** The selected ids, each once, in whatever order the database returns them. */
  ghost predicate IsSelection(rows: map<nat, Row>, order: seq<nat>) {
    && (forall i, j :: 0 <= i < j < |order| ==> order[i] != order[j])
    && (forall id :: id in order <==> id in rows && Eligible(rows[id]))
  }

  /** The ids of a sweep are distinct rows that were eligible when it began. */
  ghost predicate SweepsOf(s: Store, order: seq<nat>) {
    && (forall i, j :: 0 <= i < j < |order| ==> order[i] != order[j])
    && (forall id :: id in order ==> id in s.rows && Eligible(s.rows[id]))
  }

  /** The records a sweep visits, with what happens to each. */
  datatype Sweep = Sweep(order: seq<nat>, faults: nat -> RecordFault)

  ghost predicate Completes(s: Store, sweep: Sweep)
    requires SweepsOf(s, sweep.order)
  {
    forall k: nat :: k < |sweep.order| ==> !AbortsAt(s, sweep.order, s.rows, sweep.faults, k)
  }

  /** A sweep visits every eligible row, unless a record raises: then that record is its last. */
  ghost predicate IsSweep(s: Store, sweep: Sweep) {
    && SweepsOf(s, sweep.order)
    && (forall k: nat :: k < |sweep.order| - 1 ==> !AbortsAt(s, sweep.order, s.rows, sweep.faults, k))
    && (Completes(s, sweep) ==> IsSelection(s.rows, sweep.order))
  }

  /** A sweep that has not raised visits one more record, and ends with it if that one raises. */
  lemma SweepGrows(s: Store, order: seq<nat>, id: nat, faults: nat -> RecordFault)
    requires SweepsOf(s, order) && Completes(s, Sweep(order, faults))
    requires id in s.rows && Eligible(s.rows[id]) && id !in order
    ensures var before, longer := RetryRecords(s, order, s.rows, faults), order + [id];
      && SweepsOf(s, longer)
      && (Completes(s, Sweep(longer, faults)) <==> !Aborts(before, s.rows[id], faults(id)))
      && (Aborts(before, s.rows[id], faults(id)) ==> IsSweep(s, Sweep(longer, faults)))
  {
    RetryRecordsSnoc(s, order, id, s.rows, faults);
    if Aborts(RetryRecords(s, order, s.rows, faults), s.rows[id], faults(id)) {
      assert AbortsAt(s, order + [id], s.rows, faults, |order|);
    }
  }

  class AuditPipeline {
    var audit: seq<Event>
    var rows: map<nat, Row>
    var nextId: nat
    const queued: bool

    function State(): Store
      reads this
    {
      Store(audit, rows, nextId, queued)
    }

    /** Row ids are drawn in ascending order. */
    ghost predicate Valid()
      reads this
    {
      Numbered(State())
    }

    constructor (queued: bool)
      ensures Valid() && State() == Store([], map[], 0, queued)
    {
      audit, rows, nextId := [], map[], 0;
      this.queued := queued;
    }

    method Enqueue(e: Event, category: Category) returns (id: nat)
      requires Valid()
      modifies this
      ensures Valid()
      ensures State() == EnqueueTx(old(State()), e, category) && id == old(nextId)
      ensures id !in old(rows)
      ensures rows == old(rows)[id := Row(e, category, Pending, 0, if category == Transient then 3 else 0)]
    {
      id := nextId;
      rows := rows[id := Row(e, category, Pending, 0, if category == Transient then 3 else 0)];
      nextId := nextId + 1;
    }

    /** Append, or dead-letter the event, or raise. */
    method Emit(e: Event, f: Fault) returns (ok: bool)
      requires Valid()
      modifies this
      ensures Valid()
      ensures State() == EmitTx(old(State()), e, f)
      ensures ok == EmitReturns(old(State()), e, f)
      ensures var fails := f.write.Some? || exists i :: 0 <= i < |old(audit)| && old(audit)[i].id == e.id;
        var category := if f.write.Some? then f.write.value else f.duplicate;
        && (ok <==> !fails || (queued && !f.queueDown))
        && audit == (if fails then old(audit) else old(audit) + [e])
        && rows == if fails && ok
             then old(rows)[old(nextId) := Row(e, category, Pending, 0, if category == Transient then 3 else 0)]
             else old(rows)
    {
      if f.write.None? && !HasId(audit, e.id) {
        audit := audit + [e];
        return true;
      }
      if queued && !f.queueDown {
        var _ := Enqueue(e, if f.write.Some? then f.write.value else f.duplicate);
        return true;
      }
      ok := false;
    }

    method Resolve(id: nat, actor: string) returns (ok: bool)
      requires Valid()
      modifies this
      ensures Valid()
      ensures ok <==> id in old(rows)
      ensures rows == if ok then old(rows)[id := old(rows)[id].(status := Resolved(Operator(actor)))] else old(rows)
      ensures State() == SetStatus(old(State()), id, Resolved(Operator(actor)))
    {
      ok := id in rows;
      if ok {
        rows := rows[id := rows[id].(status := Resolved(Operator(actor)))];
      }
    }

    /** The loop body of a sweep for one record: whether its emission returned, and whether it raises. */
    method RetryOne(id: nat, rec: Row, f: RecordFault) returns (emitted: bool, aborted: bool)
      requires Valid()
      modifies this
      ensures Valid()
      ensures State() == RetryRecord(old(State()), id, rec, f)
      ensures emitted <==> Retried(old(State()), rec, f)
      ensures aborted <==> Aborts(old(State()), rec, f)
    {
      if rec.retryCount >= rec.maxRetries {
        if !f.recordDown && id in rows {
          rows := rows[id := rows[id].(status := FailedPermanent)];
        }
        return false, f.recordDown;
      }
      emitted := Emit(rec.event, f.emit);
      if emitted && !f.resolveDown {
        if id in rows {
          rows := rows[id := rows[id].(status := Resolved(RetryLoop))];
        }
        return emitted, false;
      }
      if !f.recordDown && id in rows {
        rows := rows[id := rows[id].(retryCount := rows[id].retryCount + 1)];
      }
      aborted := f.recordDown;
    }

    /** The loop of a sweep over the rows that were pending and transient when it began; it may raise. */
    method VisitRows(faults: nat -> RecordFault) returns (r: Option<nat>, ghost order: seq<nat>)
      requires Valid()
      modifies this
      ensures Valid()
      ensures IsSweep(old(State()), Sweep(order, faults))
      ensures State() == RetryRecords(old(State()), order, old(rows), faults)
      ensures r == if Completes(old(State()), Sweep(order, faults))
                   then Some(CountRetried(old(State()), order, old(rows), faults)) else None
    {
      var records := rows;
      var todo := set id | id in records && Eligible(records[id]);
      var retried := 0;
      order := [];
      while todo != {}
        invariant Valid()
        invariant forall id :: id in todo <==> id in records && Eligible(records[id]) && id !in order
        invariant SweepsOf(old(State()), order) && Completes(old(State()), Sweep(order, faults))
        invariant State() == RetryRecords(old(State()), order, records, faults)
        invariant retried == CountRetried(old(State()), order, records, faults)
        decreases |todo|
      {
        var id :| id in todo;
        RetryRecordsSnoc(old(State()), order, id, records, faults);
        SweepGrows(old(State()), order, id, faults);
        var emitted, aborted := RetryOne(id, records[id], faults(id));
        retried := if emitted then retried + 1 else retried;
        order := order + [id];
        todo := todo - {id};
        if aborted {
          return None, order;
        }
      }
      r := Some(retried);
    }

    /** One sweep, also in terms of the fields of the rows it met. */
    method RetryAll(faults: nat -> RecordFault) returns (r: Option<nat>, ghost order: seq<nat>)
      requires Valid()
      modifies this
      ensures Valid()
      ensures IsSweep(old(State()), Sweep(order, faults))
      ensures State() == RetryRecords(old(State()), order, old(rows), faults)
      ensures r == if Completes(old(State()), Sweep(order, faults))
                   then Some(CountRetried(old(State()), order, old(rows), faults)) else None
      ensures (forall id: nat :: !faults(id).recordDown) ==> r.Some?
      // Permanent rows, and rows no longer pending, are left alone.
      ensures forall id :: id in old(rows) && (old(rows)[id].category == Permanent || old(rows)[id].status != Pending) ==>
        id in rows && rows[id] == old(rows)[id]
      // A sweep that ends normally has resolved, given up or counted every pending transient row.
      ensures r.Some? ==> forall id :: id in old(rows) && old(rows)[id].category == Transient && old(rows)[id].status == Pending ==>
        var was := old(rows)[id];
        && id in rows
        && if was.retryCount >= was.maxRetries then rows[id] == was.(status := FailedPermanent)
           else rows[id] == was.(status := Resolved(RetryLoop)) || rows[id] == was.(retryCount := was.retryCount + 1)
    {
      ghost var before := State();
      r, order := VisitRows(faults);
      SweepByFields(before, Sweep(order, faults));
      assert State() == AfterSweep(before, Sweep(order, faults));
    }
  }

  /*** One sweep after another, with or without a queue behind the emitter ***/

  /** Row ids are drawn in ascending order. */
  ghost predicate Numbered(s: Store) {
    forall id :: id in s.rows ==> id < s.nextId
  }

  /** How an attempt to emit a dead-lettered event ends. */
  datatype Attempt = Written | Requeued(category: Category) | Raising

  function AttemptOf(s: Store, e: Event, f: Fault): Attempt {
    if WriteSucceeds(s, e, f) then Written
    else if s.queued && !f.queueDown then Requeued(ErrorCategory(f))
    else Raising
  }

  /**
   What a record does to the row that carries an event, or does when the event is followed into a fresh
   row that the queue made for it. `Failed` counts a failed attempt, or gives an exhausted row up.
   */
  datatype Fate = Closed | Fresh(category: Category) | Failed | Skipped

  function FateOf(s: Store, r: Row, f: RecordFault, follow: bool): Fate {
    var a := AttemptOf(s, r.event, f.emit);
    if !Exhausted(r) && a.Requeued? && follow then Fresh(a.category)
    else if !Exhausted(r) && !a.Raising? && !f.resolveDown then Closed
    else if f.recordDown then Skipped
    else Failed
  }

  function Lived(r: Row, fate: Fate): Row {
    if !Eligible(r) || fate.Skipped? then r
    else if Exhausted(r) then r.(status := FailedPermanent)
    else if fate.Closed? then r.(status := Resolved(RetryLoop))
    else if fate.Fresh? then NewRow(r.event, fate.category)
    else r.(retryCount := r.retryCount + 1)
  }

  function LivedAgain(r: Row, fates: seq<Fate>): Row {
    if fates == [] then r else Lived(LivedAgain(r, fates[..|fates| - 1]), fates[|fates| - 1])
  }

  lemma {:induction false} LivedAgainFromFront(r: Row, first: Fate, rest: seq<Fate>)
    ensures LivedAgain(r, [first] + rest) == LivedAgain(Lived(r, first), rest)
  {
    var all := [first] + rest;
    if rest == [] {
      assert all[..0] == [];
    } else {
      assert all[..|all| - 1] == [first] + rest[..|rest| - 1];
      LivedAgainFromFront(r, first, rest[..|rest| - 1]);
    }
  }

  /**
   One record whose row is as it was read. A row in budget counts a failed attempt exactly when the
   write failed and no queue took the event, or the write of RESOLVED raised, and the count itself can
   be written; a fresh row appears exactly when the write failed and the queue took the event.
   */
  lemma RetryOfOneRow(s: Store, id: nat, f: RecordFault)
    requires Numbered(s) && id in s.rows && Eligible(s.rows[id])
    ensures var r, t := s.rows[id], RetryRecord(s, id, s.rows[id], f);
      var writeFails := f.emit.write.Some? || HasId(s.audit, r.event.id);
      var queueTakes := s.queued && !f.emit.queueDown;
      && Numbered(t) && t.queued == s.queued && s.nextId <= t.nextId && s.audit <= t.audit
      && t.rows[id] == Lived(r, FateOf(s, r, f, false))
      && (forall x :: x in s.rows && x != id ==> x in t.rows && t.rows[x] == s.rows[x])
      && (forall x :: x in t.rows && x !in s.rows ==> x == s.nextId)
      && (!Exhausted(r) ==>
            && (t.rows[id].retryCount != r.retryCount <==>
                  ((writeFails && !queueTakes) || f.resolveDown) && !f.recordDown)
            && (writeFails && queueTakes ==> s.nextId in t.rows && t.rows[s.nextId] == NewRow(r.event, ErrorCategory(f.emit)))
            && (writeFails || r.event in t.audit))
      && (s.nextId in t.rows <==> !Exhausted(r) && writeFails && queueTakes)
  {
    assert forall i :: 0 <= i < |s.audit| ==> (s.audit + [s.rows[id].event])[i] == s.audit[i];
    assert s.rows[id].event in s.audit + [s.rows[id].event];
  }

  /** Every row of the table undergoes exactly its own part of the sweep. */
  lemma {:induction false} SweepActsRowByRow(s: Store, order: seq<nat>, faults: nat -> RecordFault)
    requires Numbered(s) && SweepsOf(s, order)
    ensures var t := RetryRecords(s, order, s.rows, faults);
      && Numbered(t) && t.queued == s.queued && s.nextId <= t.nextId && s.audit <= t.audit
      && s.rows.Keys <= t.rows.Keys
      && (forall id :: id in s.rows && id !in order ==> t.rows[id] == s.rows[id])
      && (forall id :: id in order ==>
            || t.rows[id] == Lived(s.rows[id], Closed)
            || t.rows[id] == Lived(s.rows[id], Failed)
            || t.rows[id] == s.rows[id])
  {
    if order != [] {
      var shorter, last := order[..|order| - 1], order[|order| - 1];
      assert order == shorter + [last];
      SweepActsRowByRow(s, shorter, faults);
      assert last !in shorter;
      RetryOfOneRow(RetryRecords(s, shorter, s.rows, faults), last, faults(last));
    }
  }

  ghost function AfterSweep(s: Store, sweep: Sweep): Store
    requires SweepsOf(s, sweep.order)
  {
    RetryRecords(s, sweep.order, s.rows, sweep.faults)
  }

  ghost predicate LegalSweeps(s: Store, sweeps: seq<Sweep>)
    decreases |sweeps|
  {
    sweeps == [] || (IsSweep(s, sweeps[0]) && LegalSweeps(AfterSweep(s, sweeps[0]), sweeps[1..]))
  }

  ghost function AfterSweeps(s: Store, sweeps: seq<Sweep>): Store
    requires LegalSweeps(s, sweeps)
    decreases |sweeps|
  {
    if sweeps == [] then s else AfterSweeps(AfterSweep(s, sweeps[0]), sweeps[1..])
  }

  /** How many sweeps of the series ended without raising. */
  ghost function Completed(s: Store, sweeps: seq<Sweep>): nat
    requires LegalSweeps(s, sweeps)
    decreases |sweeps|
  {
    if sweeps == [] then 0
    else (if Completes(s, sweeps[0]) then 1 else 0) + Completed(AfterSweep(s, sweeps[0]), sweeps[1..])
  }

  /*** The rows that carry one event on, sweep after sweep ***/

  ghost function PlaceIn(order: seq<nat>, id: nat): (k: nat)
    requires id in order
    ensures k < |order| && order[k] == id
  {
    var k :| 0 <= k < |order| && order[k] == id;
    k
  }

  /** The store when the sweep comes to the record. */
  ghost function Reached(s: Store, sweep: Sweep, id: nat): Store
    requires SweepsOf(s, sweep.order) && id in sweep.order
  {
    RetryRecords(s, sweep.order[..PlaceIn(sweep.order, id)], s.rows, sweep.faults)
  }

  predicate InBudget(r: Row) {
    Eligible(r) && !Exhausted(r)
  }

  ghost function FateIn(s: Store, sweep: Sweep, id: nat, follow: bool): Fate
    requires SweepsOf(s, sweep.order) && id in s.rows
  {
    if id in sweep.order then FateOf(Reached(s, sweep, id), s.rows[id], sweep.faults(id), follow) else Skipped
  }

  /** The row itself, or the fresh row that the queue made for its event, if that one is followed. */
  ghost function Heir(s: Store, sweep: Sweep, id: nat, follow: bool): nat
    requires SweepsOf(s, sweep.order) && id in s.rows
  {
    if FateIn(s, sweep, id, follow).Fresh? then Reached(s, sweep, id).nextId else id
  }

  /** The last record of a sweep leaves every other row alone. */
  lemma LastRecordElsewhere(s: Store, order: seq<nat>, faults: nat -> RecordFault, id: nat)
    requires Numbered(s) && SweepsOf(s, order) && order != []
    requires id != order[|order| - 1]
    ensures SweepsOf(s, order[..|order| - 1])
    ensures var before := RetryRecords(s, order[..|order| - 1], s.rows, faults);
      id in before.rows ==>
        id in RetryRecords(s, order, s.rows, faults).rows
        && RetryRecords(s, order, s.rows, faults).rows[id] == before.rows[id]
  {
    var shorter, last := order[..|order| - 1], order[|order| - 1];
    assert forall x :: x in shorter ==> x in order;
    SweepActsRowByRow(s, shorter, faults);
    assert last !in shorter;
    RetryOfOneRow(RetryRecords(s, shorter, s.rows, faults), last, faults(last));
  }

  /** The rest of a sweep leaves a row alone that is not among its records. */
  lemma {:induction false} RestOfSweep(s: Store, order: seq<nat>, k: nat, faults: nat -> RecordFault, id: nat)
    requires Numbered(s) && SweepsOf(s, order) && k <= |order|
    requires id in RetryRecords(s, order[..k], s.rows, faults).rows && id !in order[k..]
    ensures var mid, t := RetryRecords(s, order[..k], s.rows, faults), RetryRecords(s, order, s.rows, faults);
      id in t.rows && t.rows[id] == mid.rows[id]
  {
    if k == |order| {
      assert order[..k] == order;
    } else {
      var shorter := order[..|order| - 1];
      assert order[|order| - 1] in order[k..];
      LastRecordElsewhere(s, order, faults, id);
      assert shorter[..k] == order[..k];
      assert order[k..] == shorter[k..] + [order[|order| - 1]];
      RestOfSweep(s, shorter, k, faults, id);
    }
  }

  lemma SweepReaches(s: Store, sweep: Sweep, id: nat)
    requires Numbered(s) && SweepsOf(s, sweep.order) && id in sweep.order
    ensures var k, before := PlaceIn(sweep.order, id), Reached(s, sweep, id);
      && Numbered(before) && s.nextId <= before.nextId
      && before.queued == s.queued && s.audit <= before.audit
      && id in before.rows && before.rows[id] == s.rows[id]
      && RetryRecords(s, sweep.order[..k + 1], s.rows, sweep.faults) ==
           RetryRecord(before, id, s.rows[id], sweep.faults(id))
  {
    var order := sweep.order;
    var k := PlaceIn(order, id);
    assert order[..k + 1] == order[..k] + [id];
    assert forall x :: x in order[..k] ==> x in order;
    assert id !in order[..k];
    SweepActsRowByRow(s, order[..k], sweep.faults);
    RetryRecordsSnoc(s, order[..k], id, s.rows, sweep.faults);
  }

  lemma LaterRecordsAreOthers(s: Store, sweep: Sweep, id: nat, follow: bool)
    requires Numbered(s) && SweepsOf(s, sweep.order) && id in sweep.order
    ensures Heir(s, sweep, id, follow) !in sweep.order[PlaceIn(sweep.order, id) + 1..]
  {
    SweepReaches(s, sweep, id);
    forall j | PlaceIn(sweep.order, id) < j < |sweep.order| ensures sweep.order[j] != Heir(s, sweep, id, follow) {
      assert sweep.order[j] in sweep.order;
    }
  }

  lemma RecordMovesTheCarrier(s: Store, sweep: Sweep, id: nat, follow: bool)
    requires Numbered(s) && SweepsOf(s, sweep.order) && id in sweep.order
    ensures var heir := Heir(s, sweep, id, follow);
      var mid := RetryRecords(s, sweep.order[..PlaceIn(sweep.order, id) + 1], s.rows, sweep.faults);
      heir in mid.rows && mid.rows[heir] == Lived(s.rows[id], FateIn(s, sweep, id, follow))
  {
    SweepReaches(s, sweep, id);
    RetryOfOneRow(Reached(s, sweep, id), id, sweep.faults(id));
  }

  /** One sweep gives the row that carries the event on exactly its fate. */
  lemma SweepMovesTheCarrier(s: Store, sweep: Sweep, id: nat, follow: bool)
    requires Numbered(s) && SweepsOf(s, sweep.order) && id in s.rows
    ensures var t, heir := AfterSweep(s, sweep), Heir(s, sweep, id, follow);
      Numbered(t) && heir in t.rows && t.rows[heir] == Lived(s.rows[id], FateIn(s, sweep, id, follow))
  {
    SweepActsRowByRow(s, sweep.order, sweep.faults);
    if id in sweep.order {
      RecordMovesTheCarrier(s, sweep, id, follow);
      LaterRecordsAreOthers(s, sweep, id, follow);
      RestOfSweep(s, sweep.order, PlaceIn(sweep.order, id) + 1, sweep.faults, Heir(s, sweep, id, follow));
    }
  }

  /**
   One line of descent: `path` says for each sweep whether a fresh row is followed. If RESOLVED could
   not be written the old row lives on as well, so an event may be carried by several lines.
   */
  ghost function Fates(s: Store, sweeps: seq<Sweep>, id: nat, path: seq<bool>): (r: seq<Fate>)
    requires Numbered(s) && LegalSweeps(s, sweeps) && id in s.rows && |path| == |sweeps|
    ensures |r| == |sweeps|
    decreases |sweeps|
  {
    if sweeps == [] then []
    else
      SweepMovesTheCarrier(s, sweeps[0], id, path[0]);
      [FateIn(s, sweeps[0], id, path[0])]
        + Fates(AfterSweep(s, sweeps[0]), sweeps[1..], Heir(s, sweeps[0], id, path[0]), path[1..])
  }

  ghost function Carrier(s: Store, sweeps: seq<Sweep>, id: nat, path: seq<bool>): nat
    requires Numbered(s) && LegalSweeps(s, sweeps) && id in s.rows && |path| == |sweeps|
    decreases |sweeps|
  {
    if sweeps == [] then id
    else
      SweepMovesTheCarrier(s, sweeps[0], id, path[0]);
      Carrier(AfterSweep(s, sweeps[0]), sweeps[1..], Heir(s, sweeps[0], id, path[0]), path[1..])
  }

  /** Over any series of sweeps, the row at the end of a line is what the fates along it make of the first. */
  lemma {:induction false} CarrierFollowsFates(s: Store, sweeps: seq<Sweep>, id: nat, path: seq<bool>)
    requires Numbered(s) && LegalSweeps(s, sweeps) && id in s.rows && |path| == |sweeps|
    ensures Carrier(s, sweeps, id, path) in AfterSweeps(s, sweeps).rows
    ensures AfterSweeps(s, sweeps).rows[Carrier(s, sweeps, id, path)] == LivedAgain(s.rows[id], Fates(s, sweeps, id, path))
    decreases |sweeps|
  {
    if sweeps != [] {
      var t, heir := AfterSweep(s, sweeps[0]), Heir(s, sweeps[0], id, path[0]);
      SweepMovesTheCarrier(s, sweeps[0], id, path[0]);
      CarrierFollowsFates(t, sweeps[1..], heir, path[1..]);
      LivedAgainFromFront(s.rows[id], FateIn(s, sweeps[0], id, path[0]), Fates(t, sweeps[1..], heir, path[1..]));
    }
  }

  /*** The budget of a row ***/

  /** The fates that changed the row or replaced it. */
  function Acts(fates: seq<Fate>): seq<Fate> {
    if fates == [] then []
    else Acts(fates[..|fates| - 1]) + if fates[|fates| - 1].Skipped? then [] else [fates[|fates| - 1]]
  }

  ghost predicate Stays(fates: seq<Fate>) {
    forall i :: 0 <= i < |fates| ==> !fates[i].Fresh?
  }

  /**
   A fresh row that is not left for another: failed attempts never exceed the budget, a row still
   pending has failed in every sweep that acted on it, it leaves PENDING within `maxRetries + 1` such
   sweeps, and by exhaustion only after the whole budget was spent.
   */
  lemma {:induction false} RetriesAreBounded(r: Row, fates: seq<Fate>)
    requires Eligible(r) && r.retryCount == 0 && Stays(fates)
    ensures var t, acts := LivedAgain(r, fates), Acts(fates);
      && t.retryCount <= r.maxRetries && t.maxRetries == r.maxRetries && t.category == r.category
      && (t.status.Pending? ==> t.retryCount == |acts| && forall i :: 0 <= i < |acts| ==> acts[i].Failed?)
      && (t.status.FailedPermanent? ==> t.retryCount == t.maxRetries)
      && (|acts| > r.maxRetries ==> !t.status.Pending?)
  {
    if fates != [] {
      RetriesAreBounded(r, fates[..|fates| - 1]);
    }
  }

  /** When every attempt that acts on the row fails the outcome is exact. */
  lemma {:induction false} AlwaysRaisingEmitter(r: Row, fates: seq<Fate>)
    requires Eligible(r) && r.retryCount == 0
    requires forall i :: 0 <= i < |fates| ==> fates[i].Failed?
    ensures LivedAgain(r, fates) ==
      if |fates| <= r.maxRetries then r.(retryCount := |fates|)
      else r.(retryCount := r.maxRetries, status := FailedPermanent)
  {
    if fates != [] {
      AlwaysRaisingEmitter(r, fates[..|fates| - 1]);
    }
  }

  /** The path that never leaves the row. */
  function Staying(n: nat): seq<bool> {
    seq(n, i => false)
  }

  lemma {:induction false} StayingCarriesItself(s: Store, sweeps: seq<Sweep>, id: nat)
    requires Numbered(s) && LegalSweeps(s, sweeps) && id in s.rows
    ensures Carrier(s, sweeps, id, Staying(|sweeps|)) == id
    ensures Stays(Fates(s, sweeps, id, Staying(|sweeps|)))
    decreases |sweeps|
  {
    if sweeps != [] {
      SweepMovesTheCarrier(s, sweeps[0], id, false);
      StayingCarriesItself(AfterSweep(s, sweeps[0]), sweeps[1..], id);
      assert Staying(|sweeps|)[1..] == Staying(|sweeps| - 1);
    }
  }

  /** A series of sweeps of the whole table acts on each row as the fates of that row. */
  lemma SweepsActRowByRow(s: Store, sweeps: seq<Sweep>, id: nat)
    requires Numbered(s) && LegalSweeps(s, sweeps) && id in s.rows
    ensures id in AfterSweeps(s, sweeps).rows
    ensures AfterSweeps(s, sweeps).rows[id] == LivedAgain(s.rows[id], Fates(s, sweeps, id, Staying(|sweeps|)))
  {
    StayingCarriesItself(s, sweeps, id);
    CarrierFollowsFates(s, sweeps, id, Staying(|sweeps|));
  }

  /** A sweep that completes acts on every eligible row. */
  lemma CompletedSweepActs(s: Store, sweep: Sweep, id: nat, follow: bool)
    requires IsSweep(s, sweep) && Completes(s, sweep) && id in s.rows && Eligible(s.rows[id])
    ensures !FateIn(s, sweep, id, follow).Skipped?
  {
    assert !AbortsAt(s, sweep.order, s.rows, sweep.faults, PlaceIn(sweep.order, id));
  }

  lemma {:induction false} ActsFromFront(first: Fate, rest: seq<Fate>)
    ensures Acts([first] + rest) == (if first.Skipped? then [] else [first]) + Acts(rest)
  {
    var all := [first] + rest;
    if rest == [] {
      assert all[..0] == [];
    } else {
      assert all[..|all| - 1] == [first] + rest[..|rest| - 1];
      ActsFromFront(first, rest[..|rest| - 1]);
    }
  }

  lemma {:induction false} SettledRowStays(r: Row, fates: seq<Fate>)
    requires !Eligible(r)
    ensures LivedAgain(r, fates) == r
  {
    if fates != [] {
      SettledRowStays(r, fates[..|fates| - 1]);
    }
  }

  /** A row that is still eligible at the end was acted on by every sweep that completed. */
  lemma {:induction false} ActsCoverCompleted(s: Store, sweeps: seq<Sweep>, id: nat)
    requires Numbered(s) && LegalSweeps(s, sweeps) && id in s.rows
    requires Eligible(LivedAgain(s.rows[id], Fates(s, sweeps, id, Staying(|sweeps|))))
    ensures |Acts(Fates(s, sweeps, id, Staying(|sweeps|)))| >= Completed(s, sweeps)
    decreases |sweeps|
  {
    if sweeps != [] {
      var t, first := AfterSweep(s, sweeps[0]), FateIn(s, sweeps[0], id, false);
      SweepMovesTheCarrier(s, sweeps[0], id, false);
      var rest := Fates(t, sweeps[1..], id, Staying(|sweeps| - 1));
      assert Staying(|sweeps|)[1..] == Staying(|sweeps| - 1);
      assert Fates(s, sweeps, id, Staying(|sweeps|)) == [first] + rest;
      LivedAgainFromFront(s.rows[id], first, rest);
      ActsFromFront(first, rest);
      if !Eligible(s.rows[id]) {
        SettledRowStays(s.rows[id], [first] + rest);
      }
      if Completes(s, sweeps[0]) {
        CompletedSweepActs(s, sweeps[0], id, false);
      }
      ActsCoverCompleted(t, sweeps[1..], id);
    }
  }

  /** A sweep, read off the fields of the rows it met. */
  lemma SweepByFields(s: Store, sweep: Sweep)
    requires Numbered(s) && IsSweep(s, sweep)
    ensures forall id :: id in s.rows && (s.rows[id].category == Permanent || s.rows[id].status != Pending) ==>
      id in AfterSweep(s, sweep).rows && AfterSweep(s, sweep).rows[id] == s.rows[id]
    ensures Completes(s, sweep) ==> forall id :: id in s.rows && s.rows[id].category == Transient && s.rows[id].status == Pending ==>
      var was, t := s.rows[id], AfterSweep(s, sweep);
      && id in t.rows
      && if was.retryCount >= was.maxRetries then t.rows[id] == was.(status := FailedPermanent)
         else t.rows[id] == was.(status := Resolved(RetryLoop)) || t.rows[id] == was.(retryCount := was.retryCount + 1)
  {
    SweepActsRowByRow(s, sweep.order, sweep.faults);
    if Completes(s, sweep) {
      forall id | id in s.rows && s.rows[id].category == Transient && s.rows[id].status == Pending
        ensures var fate := FateIn(s, sweep, id, false);
          && (fate.Failed? || (fate.Closed? && s.rows[id].retryCount < s.rows[id].maxRetries))
          && id in AfterSweep(s, sweep).rows && AfterSweep(s, sweep).rows[id] == Lived(s.rows[id], fate)
      {
        CompletedSweepActs(s, sweep, id, false);
        SweepMovesTheCarrier(s, sweep, id, false);
      }
    }
  }

  /** The records of the sweep that it has resolved. */
  ghost function ResolvedBy(s: Store, order: seq<nat>, faults: nat -> RecordFault): set<nat>
    requires SweepsOf(s, order)
  {
    var t := RetryRecords(s, order, s.rows, faults);
    set id | id in order && id in t.rows && t.rows[id].status == Resolved(RetryLoop)
  }

  lemma LastRecordResolves(s: Store, shorter: seq<nat>, last: nat, faults: nat -> RecordFault)
    requires Numbered(s) && SweepsOf(s, shorter + [last]) && SweepsOf(s, shorter) && last !in shorter
    requires !faults(last).resolveDown
    ensures var before, after := RetryRecords(s, shorter, s.rows, faults), RetryRecords(s, shorter + [last], s.rows, faults);
      && last in after.rows
      && (after.rows[last].status == Resolved(RetryLoop) <==> Retried(before, s.rows[last], faults(last)))
      && (forall id :: id in before.rows && id != last ==> id in after.rows && after.rows[id] == before.rows[id])
  {
    SweepActsRowByRow(s, shorter, faults);
    RetryRecordsSnoc(s, shorter, last, s.rows, faults);
    RetryOfOneRow(RetryRecords(s, shorter, s.rows, faults), last, faults(last));
  }

  lemma ResolvedByOneMore(s: Store, shorter: seq<nat>, last: nat, faults: nat -> RecordFault)
    requires Numbered(s) && SweepsOf(s, shorter + [last]) && SweepsOf(s, shorter) && last !in shorter
    requires !faults(last).resolveDown
    ensures ResolvedBy(s, shorter + [last], faults) == ResolvedBy(s, shorter, faults)
      + (if Retried(RetryRecords(s, shorter, s.rows, faults), s.rows[last], faults(last)) then {last} else {})
  {
    LastRecordResolves(s, shorter, last, faults);
    assert s.rows.Keys <= RetryRecords(s, shorter, s.rows, faults).rows.Keys by {
      SweepActsRowByRow(s, shorter, faults);
    }
    assert forall id :: id in shorter + [last] <==> id in shorter || id == last;
  }

  /** If RESOLVED can always be written, the number a sweep reports is the number of rows it resolved. */
  lemma {:induction false} CountIsResolvedRows(s: Store, order: seq<nat>, faults: nat -> RecordFault)
    requires Numbered(s) && SweepsOf(s, order) && forall id :: id in order ==> !faults(id).resolveDown
    ensures CountRetried(s, order, s.rows, faults) == |ResolvedBy(s, order, faults)|
  {
    if order != [] {
      var shorter, last := order[..|order| - 1], order[|order| - 1];
      assert order == shorter + [last] && last !in shorter;
      assert forall id :: id in shorter ==> id in order;
      CountIsResolvedRows(s, shorter, faults);
      ResolvedByOneMore(s, shorter, last, faults);
      assert last !in ResolvedBy(s, shorter, faults);
    }
  }

  /**
   Over whole tables, whether or not a queue stands behind the emitter: any series of sweeps that do
   not overlap leaves a fresh transient row with at most `maxRetries` failed attempts, and no longer
   pending once more than `maxRetries` of them have completed.
   */
  lemma TransientRowsLeavePending(s: Store, sweeps: seq<Sweep>, id: nat)
    requires Numbered(s) && LegalSweeps(s, sweeps)
    requires id in s.rows && Eligible(s.rows[id]) && s.rows[id].retryCount == 0
    ensures var t := AfterSweeps(s, sweeps);
      && id in t.rows
      && t.rows[id].retryCount <= s.rows[id].maxRetries
      && (Completed(s, sweeps) > s.rows[id].maxRetries ==> !t.rows[id].status.Pending?)
      && (t.rows[id].status.FailedPermanent? ==> t.rows[id].retryCount == s.rows[id].maxRetries)
  {
    var fates := Fates(s, sweeps, id, Staying(|sweeps|));
    SweepsActRowByRow(s, sweeps, id);
    StayingCarriesItself(s, sweeps, id);
    RetriesAreBounded(s.rows[id], fates);
    if Eligible(LivedAgain(s.rows[id], fates)) {
      ActsCoverCompleted(s, sweeps, id);
    }
  }

  /*** The budget of an event, which moves from row to row when a queue takes the event back ***/

  /** Three failures in a row spend the budget of a transient row. */
  predicate ThreeFailures(acts: seq<Fate>, i: int) {
    0 <= i <= |acts| - 3 && acts[i].Failed? && acts[i + 1].Failed? && acts[i + 2].Failed?
  }

  ghost predicate Survives(acts: seq<Fate>) {
    && (forall i :: 0 <= i < |acts| ==> acts[i].Failed? || acts[i] == Fresh(Transient))
    && (forall i :: !ThreeFailures(acts, i))
  }

  function FailuresAtEnd(acts: seq<Fate>): nat {
    if acts == [] || !acts[|acts| - 1].Failed? then 0 else 1 + FailuresAtEnd(acts[..|acts| - 1])
  }

  lemma SurvivesSnoc(acts: seq<Fate>, last: Fate)
    ensures Survives(acts + [last]) <==>
      Survives(acts) && (last.Failed? || last == Fresh(Transient)) && !ThreeFailures(acts + [last], |acts| - 2)
  {
    var all := acts + [last];
    assert all[|acts|] == last;
    assert forall i :: 0 <= i < |acts| ==> all[i] == acts[i];
    assert forall i :: ThreeFailures(acts, i) ==> ThreeFailures(all, i);
    assert forall i :: ThreeFailures(all, i) ==> i == |acts| - 2 || ThreeFailures(acts, i);
  }

  lemma ThreeFailuresAtEnd(acts: seq<Fate>)
    ensures ThreeFailures(acts, |acts| - 3) <==> FailuresAtEnd(acts) >= 3
  {
    if acts != [] {
      var one := acts[..|acts| - 1];
      if one != [] {
        var two := one[..|one| - 1];
        assert two != [] ==> two[|two| - 1] == acts[|acts| - 3];
      }
    }
  }

  lemma {:induction false} ActsSuffice(r: Row, fates: seq<Fate>)
    ensures LivedAgain(r, fates) == LivedAgain(r, Acts(fates))
    ensures forall i :: 0 <= i < |Acts(fates)| ==> !Acts(fates)[i].Skipped?
  {
    if fates != [] {
      var before, last := fates[..|fates| - 1], fates[|fates| - 1];
      ActsSuffice(r, before);
      if last.Skipped? {
        assert Acts(fates) == Acts(before);
      } else {
        assert Acts(fates)[..|Acts(fates)| - 1] == Acts(before);
      }
    }
  }

  lemma {:induction false} ActsOnFreshRow(e: Event, acts: seq<Fate>)
    requires forall i :: 0 <= i < |acts| ==> !acts[i].Skipped?
    ensures var r := LivedAgain(NewRow(e, Transient), acts);
      && (Survives(acts) ==> r == NewRow(e, Transient).(retryCount := FailuresAtEnd(acts)))
      && (InBudget(r) <==> Survives(acts))
  {
    if acts != [] {
      var before, last := acts[..|acts| - 1], acts[|acts| - 1];
      assert acts == before + [last];
      ActsOnFreshRow(e, before);
      SurvivesSnoc(before, last);
      ThreeFailuresAtEnd(acts);
      ThreeFailuresAtEnd(before);
    }
  }

  /** The whole budget of a fresh row, restored by every requeueing and gone after three failures in a row. */
  lemma FreshRowLives(e: Event, fates: seq<Fate>)
    ensures var r, acts := LivedAgain(NewRow(e, Transient), fates), Acts(fates);
      && (Survives(acts) ==> r == NewRow(e, Transient).(retryCount := FailuresAtEnd(acts)))
      && (InBudget(r) <==> Survives(acts))
  {
    ActsSuffice(NewRow(e, Transient), fates);
    ActsOnFreshRow(e, Acts(fates));
  }

  /** Along the line, the event of row `id` again has a fresh transient row with its whole budget. */
  ghost predicate StartsOver(s: Store, sweeps: seq<Sweep>, id: nat, path: seq<bool>)
    requires Numbered(s) && LegalSweeps(s, sweeps) && id in s.rows && |path| == |sweeps|
  {
    var carrier := Carrier(s, sweeps, id, path);
    carrier in AfterSweeps(s, sweeps).rows && AfterSweeps(s, sweeps).rows[carrier] == NewRow(s.rows[id].event, Transient)
  }

  /** Every earlier act failed or started over, never three failures in a row, and the last one started over. */
  ghost predicate EndsAfresh(acts: seq<Fate>) {
    Survives(acts) && (acts == [] || acts[|acts| - 1] == Fresh(Transient))
  }

  /** A retry budget belongs to a row, not to an event: along each line of descent it starts over exactly so. */
  lemma LineStartsOverIff(s: Store, sweeps: seq<Sweep>, id: nat, path: seq<bool>)
    requires Numbered(s) && LegalSweeps(s, sweeps) && |path| == |sweeps|
    requires id in s.rows && s.rows[id] == NewRow(s.rows[id].event, Transient)
    ensures StartsOver(s, sweeps, id, path) <==> EndsAfresh(Acts(Fates(s, sweeps, id, path)))
  {
    CarrierFollowsFates(s, sweeps, id, path);
    FreshRowLives(s.rows[id].event, Fates(s, sweeps, id, path));
  }

  lemma {:induction false} FatesOfPrefix(s: Store, sweeps: seq<Sweep>, id: nat, path: seq<bool>, n: nat)
    requires Numbered(s) && LegalSweeps(s, sweeps) && id in s.rows && |path| == |sweeps| && n <= |sweeps|
    ensures LegalSweeps(s, sweeps[..n]) && Fates(s, sweeps[..n], id, path[..n]) == Fates(s, sweeps, id, path)[..n]
    decreases |sweeps|
  {
    if n > 0 {
      SweepMovesTheCarrier(s, sweeps[0], id, path[0]);
      FatesOfPrefix(AfterSweep(s, sweeps[0]), sweeps[1..], Heir(s, sweeps[0], id, path[0]), path[1..], n - 1);
      assert sweeps[..n][1..] == sweeps[1..][..n - 1] && path[..n][1..] == path[1..][..n - 1];
    }
  }

  /** Nothing but fresh transient rows. */
  ghost predicate OnlyAfresh(fates: seq<Fate>) {
    forall i :: 0 <= i < |fates| ==> fates[i].Skipped? || fates[i] == Fresh(Transient)
  }

  lemma {:induction false} PrefixesEndAfreshIff(fates: seq<Fate>)
    ensures (forall n :: 0 <= n <= |fates| ==> EndsAfresh(Acts(fates[..n]))) <==> OnlyAfresh(fates)
    ensures OnlyAfresh(fates) ==> forall i :: 0 <= i < |Acts(fates)| ==> Acts(fates)[i] == Fresh(Transient)
  {
    if fates != [] {
      var before, last := fates[..|fates| - 1], fates[|fates| - 1];
      PrefixesEndAfreshIff(before);
      assert forall n :: 0 <= n < |fates| ==> before[..n] == fates[..n];
      assert fates[..|fates|] == fates;
      assert forall i :: 0 <= i < |fates| - 1 ==> before[i] == fates[i];
      assert OnlyAfresh(fates) <==> OnlyAfresh(before) && (last.Skipped? || last == Fresh(Transient));
      assert OnlyAfresh(fates) ==> forall i :: !ThreeFailures(Acts(fates), i);
      if EndsAfresh(Acts(fates)) && !last.Skipped? {
        assert Acts(fates)[|Acts(fates)| - 1] == last;
      }
    }
  }

  /** Along a line the event starts over after every single sweep exactly when nothing else ever happens to it. */
  lemma StartsOverEverySweepIff(s: Store, sweeps: seq<Sweep>, id: nat, path: seq<bool>)
    requires Numbered(s) && LegalSweeps(s, sweeps) && |path| == |sweeps|
    requires id in s.rows && s.rows[id] == NewRow(s.rows[id].event, Transient)
    ensures (forall n :: 0 <= n <= |sweeps| ==> LegalSweeps(s, sweeps[..n]) && StartsOver(s, sweeps[..n], id, path[..n]))
      <==> OnlyAfresh(Fates(s, sweeps, id, path))
  {
    var fates := Fates(s, sweeps, id, path);
    forall n | 0 <= n <= |sweeps|
      ensures LegalSweeps(s, sweeps[..n]) && (StartsOver(s, sweeps[..n], id, path[..n]) <==> EndsAfresh(Acts(fates[..n])))
    {
      FatesOfPrefix(s, sweeps, id, path, n);
      LineStartsOverIff(s, sweeps[..n], id, path[..n]);
    }
    PrefixesEndAfreshIff(fates);
  }

  /*** Every row of the table is at the end of such a line ***/

  lemma LastRecordMakes(s: Store, order: seq<nat>, faults: nat -> RecordFault, x: nat)
    requires Numbered(s) && SweepsOf(s, order) && order != [] && SweepsOf(s, order[..|order| - 1])
    requires x in RetryRecords(s, order, s.rows, faults).rows
    requires x !in RetryRecords(s, order[..|order| - 1], s.rows, faults).rows
    ensures var before, last := RetryRecords(s, order[..|order| - 1], s.rows, faults), order[|order| - 1];
      x == before.nextId && FateOf(before, s.rows[last], faults(last), true).Fresh?
  {
    var shorter, last := order[..|order| - 1], order[|order| - 1];
    SweepActsRowByRow(s, shorter, faults);
    assert order == shorter + [last] && last !in shorter;
    RetryOfOneRow(RetryRecords(s, shorter, s.rows, faults), last, faults(last));
  }

  /** A row that a sweep made is the fresh row of one of its records. */
  lemma {:induction false} FreshRowsHaveRecords(s: Store, order: seq<nat>, faults: nat -> RecordFault, x: nat) returns (k: nat)
    requires Numbered(s) && SweepsOf(s, order)
    requires x in RetryRecords(s, order, s.rows, faults).rows && x !in s.rows
    ensures k < |order|
    ensures var before := RetryRecords(s, order[..k], s.rows, faults);
      x == before.nextId && FateOf(before, s.rows[order[k]], faults(order[k]), true).Fresh?
  {
    var shorter := order[..|order| - 1];
    assert forall y :: y in shorter ==> y in order;
    if x in RetryRecords(s, shorter, s.rows, faults).rows {
      k := FreshRowsHaveRecords(s, shorter, faults, x);
      assert order[..k] == shorter[..k];
    } else {
      LastRecordMakes(s, order, faults, x);
      k := |order| - 1;
    }
  }

  lemma SweepRowsDescend(s: Store, sweep: Sweep, x: nat) returns (id: nat, follow: bool)
    requires Numbered(s) && SweepsOf(s, sweep.order) && x in AfterSweep(s, sweep).rows
    ensures id in s.rows && Heir(s, sweep, id, follow) == x
  {
    if x in s.rows {
      id, follow := x, false;
    } else {
      var k := FreshRowsHaveRecords(s, sweep.order, sweep.faults, x);
      id, follow := sweep.order[k], true;
      assert PlaceIn(sweep.order, id) == k;
    }
  }

  /** After any series of sweeps every row of the table is the end of a line from some row at its start. */
  lemma {:induction false} RowsDescend(s: Store, sweeps: seq<Sweep>, x: nat) returns (id: nat, path: seq<bool>)
    requires Numbered(s) && LegalSweeps(s, sweeps) && x in AfterSweeps(s, sweeps).rows
    ensures id in s.rows && |path| == |sweeps| && Carrier(s, sweeps, id, path) == x
    decreases |sweeps|
  {
    if sweeps == [] {
      id, path := x, [];
    } else {
      SweepActsRowByRow(s, sweeps[0].order, sweeps[0].faults);
      var heir, rest := RowsDescend(AfterSweep(s, sweeps[0]), sweeps[1..], x);
      var follow;
      id, follow := SweepRowsDescend(s, sweeps[0], heir);
      path := [follow] + rest;
      assert path[1..] == rest;
    }
  }

  lemma {:induction false} FatesKeepTheEvent(r: Row, fates: seq<Fate>)
    ensures LivedAgain(r, fates).event == r.event
  {
    if fates != [] {
      FatesKeepTheEvent(r, fates[..|fates| - 1]);
    }
  }

  /**
   After any series of sweeps an event that started in one fresh transient row has a fresh transient
   row with its whole budget exactly when along some line of descent every act failed or went on in a
   fresh transient row, never three failures in a row, and the last one went on in a fresh row.
   */
  lemma BudgetStartsOverIff(s: Store, sweeps: seq<Sweep>, id: nat)
    requires Numbered(s) && LegalSweeps(s, sweeps)
    requires id in s.rows && s.rows[id] == NewRow(s.rows[id].event, Transient)
    requires forall x :: x in s.rows && x != id ==> s.rows[x].event != s.rows[id].event
    ensures var t, anew := AfterSweeps(s, sweeps), NewRow(s.rows[id].event, Transient);
      (exists x :: x in t.rows && t.rows[x] == anew) <==>
        exists path: seq<bool> :: |path| == |sweeps| && EndsAfresh(Acts(Fates(s, sweeps, id, path)))
  {
    var t, anew := AfterSweeps(s, sweeps), NewRow(s.rows[id].event, Transient);
    if x :| x in t.rows && t.rows[x] == anew {
      var root, path := RowsDescend(s, sweeps, x);
      CarrierFollowsFates(s, sweeps, root, path);
      FatesKeepTheEvent(s.rows[root], Fates(s, sweeps, root, path));
      LineStartsOverIff(s, sweeps, id, path);
    }
    if path: seq<bool> :| |path| == |sweeps| && EndsAfresh(Acts(Fates(s, sweeps, id, path))) {
      LineStartsOverIff(s, sweeps, id, path);
      assert Carrier(s, sweeps, id, path) in t.rows;
    }
  }

  /*** Events that are retried forever ***/

  /** Every attempt of the sweep on this event fails as transient and the queue takes the event back. */
  ghost predicate Bounces(s: Store, e: Event, faults: nat -> RecordFault) {
    s.queued && forall n: nat ::
      var f := faults(n).emit;
      !f.queueDown && ErrorCategory(f).Transient? && (f.write.Some? || HasId(s.audit, e.id))
  }

  ghost predicate AlwaysBounces(s: Store, sweeps: seq<Sweep>, e: Event)
    requires LegalSweeps(s, sweeps)
    decreases |sweeps|
  {
    sweeps == [] ||
    (Bounces(s, e, sweeps[0].faults) && AlwaysBounces(AfterSweep(s, sweeps[0]), sweeps[1..], e))
  }

  lemma IdStays(audit: seq<Event>, longer: seq<Event>, id: string)
    requires audit <= longer && HasId(audit, id)
    ensures HasId(longer, id)
  {
    var i :| 0 <= i < |audit| && audit[i].id == id;
    assert longer[i] == audit[i];
  }

  lemma BouncingFate(s: Store, sweep: Sweep, id: nat)
    requires Numbered(s) && SweepsOf(s, sweep.order)
    requires id in s.rows && InBudget(s.rows[id]) && Bounces(s, s.rows[id].event, sweep.faults)
    ensures FateIn(s, sweep, id, true) == if id in sweep.order then Fresh(Transient) else Skipped
  {
    if id in sweep.order {
      SweepReaches(s, sweep, id);
      if HasId(s.audit, s.rows[id].event.id) {
        IdStays(s.audit, Reached(s, sweep, id).audit, s.rows[id].event.id);
      }
    }
  }

  /**
   An event that bounces in every sweep, because writes keep failing or because it is in the audit
   table already and its write is a duplicate, is retried forever: after any number of sweeps it again
   has a fresh pending row with its whole budget.
   */
  lemma {:induction false} BouncingEventIsRetriedForever(s: Store, sweeps: seq<Sweep>, id: nat) returns (carrier: nat)
    requires Numbered(s) && LegalSweeps(s, sweeps)
    requires id in s.rows && s.rows[id] == NewRow(s.rows[id].event, Transient)
    requires AlwaysBounces(s, sweeps, s.rows[id].event)
    ensures carrier in AfterSweeps(s, sweeps).rows && AfterSweeps(s, sweeps).rows[carrier] == s.rows[id]
    decreases |sweeps|
  {
    if sweeps == [] {
      carrier := id;
    } else {
      BouncingFate(s, sweeps[0], id);
      SweepMovesTheCarrier(s, sweeps[0], id, true);
      carrier := BouncingEventIsRetriedForever(AfterSweep(s, sweeps[0]), sweeps[1..], Heir(s, sweeps[0], id, true));
    }
  }
}
