/**
 Any interleaving of emitters, sweeping workers, operators and crashes on the audit and dead-letter
 tables. A sweep reads its rows in one transaction and settles each record in others, without a lock.
 */
module DeadLetterRuns {
  import opened Basics
  import opened DeadLetter

  datatype Phase = Between | Emitted(id: nat) | Raised(id: nat)

  /** A sweep in progress: the rows it read and has still to visit, and its unfinished record. */
  datatype Worker = Worker(todo: seq<(nat, Row)>, phase: Phase)

  datatype System = System(store: Store, workers: map<nat, Worker>, emitted: set<Event>)

  datatype Step =
    | EmitEvent(event: Event, fault: Fault)
    | OperatorResolves(id: nat, actor: string)
    | BeginSweep(worker: nat, order: seq<nat>)
    | GiveUp(worker: nat)
    | Attempt(worker: nat, fault: Fault)
    | Settle(worker: nat)
    | ResolveFails(worker: nat)     // the write of RESOLVED raises; a failed attempt is still to be counted
    | Crash(worker: nat)            // also when the write of FAILED_PERMANENT or of a failed attempt raises

  ghost predicate Enabled(s: System, step: Step) {
    match step
    case EmitEvent(_, _) => true
    case OperatorResolves(_, _) => true
    case BeginSweep(w, order) => w !in s.workers && IsSelection(s.store.rows, order)
    case GiveUp(w) =>
      && w in s.workers && s.workers[w].phase.Between? && s.workers[w].todo != []
      && s.workers[w].todo[0].1.retryCount >= s.workers[w].todo[0].1.maxRetries
    case Attempt(w, _) =>
      && w in s.workers && s.workers[w].phase.Between? && s.workers[w].todo != []
      && s.workers[w].todo[0].1.retryCount < s.workers[w].todo[0].1.maxRetries
    case Settle(w) => w in s.workers && !s.workers[w].phase.Between?
    case ResolveFails(w) => w in s.workers && s.workers[w].phase.Emitted?
    case Crash(w) => w in s.workers
  }

  ghost function Apply(s: System, step: Step): System
    requires Enabled(s, step)
  {
    match step
    case EmitEvent(e, f) =>
      System(EmitTx(s.store, e, f), s.workers,
             if EmitReturns(s.store, e, f) then s.emitted + {e} else s.emitted)
    case OperatorResolves(id, actor) => s.(store := SetStatus(s.store, id, Resolved(Operator(actor))))
    case BeginSweep(w, order) =>
      var todo := seq(|order|, i requires 0 <= i < |order| => (order[i], s.store.rows[order[i]]));
      s.(workers := s.workers[w := Worker(todo, Between)])
    case GiveUp(w) =>
      var wk := s.workers[w];
      System(SetStatus(s.store, wk.todo[0].0, FailedPermanent), s.workers[w := Worker(wk.todo[1..], Between)], s.emitted)
    case Attempt(w, f) =>
      var wk := s.workers[w];
      var (id, seen) := wk.todo[0];
      var ok := EmitReturns(s.store, seen.event, f);
      System(EmitTx(s.store, seen.event, f),
             s.workers[w := Worker(wk.todo[1..], if ok then Emitted(id) else Raised(id))],
             if ok then s.emitted + {seen.event} else s.emitted)
    case Settle(w) =>
      var wk := s.workers[w];
      System(
        if wk.phase.Emitted? then SetStatus(s.store, wk.phase.id, Resolved(RetryLoop))
        else CountFailure(s.store, wk.phase.id),
        s.workers[w := wk.(phase := Between)], s.emitted)
    case ResolveFails(w) =>
      s.(workers := s.workers[w := s.workers[w].(phase := Raised(s.workers[w].phase.id))])
    case Crash(w) => s.(workers := s.workers - {w})
  }

  ghost predicate Legal(s: System, steps: seq<Step>)
    decreases |steps|
  {
    steps == [] || (Enabled(s, steps[0]) && Legal(Apply(s, steps[0]), steps[1..]))
  }

  ghost function Exec(s: System, steps: seq<Step>): System
    requires Legal(s, steps)
    decreases |steps|
  {
    if steps == [] then s else Exec(Apply(s, steps[0]), steps[1..])
  }

  const INITIAL := System(Store([], map[], 0, true), map[], {})

  /*** Well-formed tables and workers ***/

  ghost predicate AuditOnce(audit: seq<Event>) {
    forall i, j :: 0 <= i < j < |audit| ==> audit[i].id != audit[j].id
  }

  ghost predicate StoreOk(st: Store) {
    AuditOnce(st.audit) && Numbered(st)
  }

  /** A worker's records are distinct rows of the table, as they were read: event and budget never change. */
  ghost predicate WorkerOk(st: Store, wk: Worker) {
    && (forall i :: 0 <= i < |wk.todo| ==>
          && wk.todo[i].0 in st.rows
          && wk.todo[i].1.event == st.rows[wk.todo[i].0].event
          && wk.todo[i].1.maxRetries == st.rows[wk.todo[i].0].maxRetries)
    && (forall i, j :: 0 <= i < j < |wk.todo| ==> wk.todo[i].0 != wk.todo[j].0)
    && (!wk.phase.Between? ==>
          wk.phase.id in st.rows && forall i :: 0 <= i < |wk.todo| ==> wk.todo[i].0 != wk.phase.id)
  }

  ghost predicate TablesOk(s: System) {
    StoreOk(s.store) && forall w :: w in s.workers ==> WorkerOk(s.store, s.workers[w])
  }

  /** Rows stay, with their event and budget. */
  ghost predicate Extends(st: Store, later: Store) {
    && later.queued == st.queued
    && forall id :: id in st.rows ==>
         && id in later.rows
         && later.rows[id].event == st.rows[id].event && later.rows[id].maxRetries == st.rows[id].maxRetries
  }

  lemma EmitExtendsStore(st: Store, e: Event, f: Fault)
    requires StoreOk(st)
    ensures StoreOk(EmitTx(st, e, f)) && Extends(st, EmitTx(st, e, f))
  {}

  lemma StepExtendsStore(s: System, step: Step)
    requires TablesOk(s) && Enabled(s, step)
    ensures StoreOk(Apply(s, step).store) && Extends(s.store, Apply(s, step).store)
  {
    match step
    case EmitEvent(e, f) => EmitExtendsStore(s.store, e, f);
    case Attempt(w, f) => EmitExtendsStore(s.store, s.workers[w].todo[0].1.event, f);
    case _ =>
  }

  lemma WorkerStaysOk(st: Store, later: Store, wk: Worker)
    requires WorkerOk(st, wk) && Extends(st, later)
    ensures WorkerOk(later, wk)
  {}

  /** A worker that a step changes or creates is well-formed in the table the step leaves. */
  lemma MovedWorkerIsOk(s: System, step: Step, w: nat)
    requires TablesOk(s) && Enabled(s, step) && w in Apply(s, step).workers
    requires w in s.workers ==> Apply(s, step).workers[w] != s.workers[w]
    ensures WorkerOk(Apply(s, step).store, Apply(s, step).workers[w])
  {
    StepExtendsStore(s, step);
    if step.BeginSweep? {
      var wk := Apply(s, step).workers[w];
      assert forall i :: 0 <= i < |wk.todo| ==> wk.todo[i].0 == step.order[i] && step.order[i] in step.order;
    } else {
      WorkerStaysOk(s.store, Apply(s, step).store, s.workers[w]);
    }
  }

  lemma StepKeepsTables(s: System, step: Step)
    requires TablesOk(s) && Enabled(s, step)
    ensures TablesOk(Apply(s, step))
  {
    var s' := Apply(s, step);
    StepExtendsStore(s, step);
    forall w | w in s'.workers ensures WorkerOk(s'.store, s'.workers[w]) {
      if w in s.workers && s'.workers[w] == s.workers[w] {
        WorkerStaysOk(s.store, s'.store, s.workers[w]);
      } else {
        MovedWorkerIsOk(s, step, w);
      }
    }
  }

  lemma {:induction false} RunKeepsTables(s: System, steps: seq<Step>)
    requires TablesOk(s) && Legal(s, steps)
    ensures TablesOk(Exec(s, steps)) && Extends(s.store, Exec(s, steps).store)
    decreases |steps|
  {
    if steps != [] {
      StepKeepsTables(s, steps[0]);
      StepExtendsStore(s, steps[0]);
      RunKeepsTables(Apply(s, steps[0]), steps[1..]);
    }
  }

  /*** No event is lost ***/

  /** The row carries its event: the retry loop has neither resolved it nor is about to. */
  ghost predicate Carries(s: System, id: nat, e: Event) {
    && id in s.store.rows && s.store.rows[id].event == e
    && s.store.rows[id].status != Resolved(RetryLoop)
    && forall w :: w in s.workers ==> s.workers[w].phase != Emitted(id)
  }

  ghost predicate Covered(s: System, e: Event) {
    e in s.store.audit || exists id :: Carries(s, id, e)
  }

  ghost predicate Inv(s: System) {
    s.store.queued && TablesOk(s) && forall e :: e in s.emitted ==> Covered(s, e)
  }

  /** The event whose emission has just returned is in the audit table or in a fresh row. */
  lemma FreshlyEmittedIsCovered(s: System, step: Step, e: Event)
    requires s.store.queued && TablesOk(s) && Enabled(s, step)
    requires (step.EmitEvent? && step.event == e && EmitReturns(s.store, e, step.fault))
      || (step.Attempt? && s.workers[step.worker].todo[0].1.event == e && EmitReturns(s.store, e, step.fault))
    ensures Covered(Apply(s, step), e)
  {
    var s' := Apply(s, step);
    if WriteSucceeds(s.store, e, step.fault) {
      assert s'.store.audit[|s.store.audit|] == e;
    } else {
      assert Carries(s', s.store.nextId, e);
    }
  }

  lemma StepKeepsCovered(s: System, step: Step, e: Event)
    requires s.store.queued && TablesOk(s) && Enabled(s, step) && Covered(s, e)
    ensures Covered(Apply(s, step), e)
  {
    var s' := Apply(s, step);
    if e !in s.store.audit {
      var id :| Carries(s, id, e);
      if step.Attempt? && s.workers[step.worker].todo[0].0 == id && EmitReturns(s.store, e, step.fault) {
        FreshlyEmittedIsCovered(s, step, e);
      } else {
        assert Carries(s', id, e);
      }
    }
  }

  lemma StepKeepsInv(s: System, step: Step)
    requires Inv(s) && Enabled(s, step)
    ensures Inv(Apply(s, step))
  {
    StepKeepsTables(s, step);
    StepExtendsStore(s, step);
    var s' := Apply(s, step);
    forall e | e in s'.emitted ensures Covered(s', e) {
      if e in s.emitted {
        StepKeepsCovered(s, step, e);
      } else {
        FreshlyEmittedIsCovered(s, step, e);
      }
    }
  }

  lemma {:induction false} RunKeepsInv(s: System, steps: seq<Step>)
    requires Inv(s) && Legal(s, steps)
    ensures Inv(Exec(s, steps))
    decreases |steps|
  {
    if steps != [] {
      StepKeepsInv(s, steps[0]);
      RunKeepsInv(Apply(s, steps[0]), steps[1..]);
    }
  }

  /**
   No event is lost: in every reachable state each event whose emission returned normally is in the
   audit table, or carried by a dead-letter row the retry loop has not resolved; and the audit table
   holds each event id at most once.
   */
  lemma NoEventIsLost(steps: seq<Step>)
    requires Legal(INITIAL, steps)
    ensures var s := Exec(INITIAL, steps);
      && AuditOnce(s.store.audit)
      && forall e :: e in s.emitted ==>
           || e in s.store.audit
           || exists id :: id in s.store.rows && s.store.rows[id].event == e && s.store.rows[id].status != Resolved(RetryLoop)
  {
    RunKeepsInv(INITIAL, steps);
    var s := Exec(INITIAL, steps);
    forall e | e in s.emitted && e !in s.store.audit
      ensures exists id :: id in s.store.rows && s.store.rows[id].event == e && s.store.rows[id].status != Resolved(RetryLoop)
    {
      assert Covered(s, e);
      var id :| Carries(s, id, e);
    }
  }

  /*** The retry budget when sweeps overlap ***/

  /** The worker may still count a failed attempt of the row: it has read it in budget, or has an attempt to settle. */
  ghost predicate Holds(wk: Worker, id: nat) {
    || wk.phase == Raised(id)
    || wk.phase == Emitted(id)
    || exists i :: 0 <= i < |wk.todo| && wk.todo[i].0 == id && wk.todo[i].1.retryCount < wk.todo[i].1.maxRetries
  }

  ghost function Holders(s: System, id: nat): set<nat> {
    set w | w in s.workers && Holds(s.workers[w], id)
  }

  /** Nowhere in the run do more than `m` workers hold the row at once. */
  ghost predicate OverlapAtMost(s: System, steps: seq<Step>, id: nat, m: nat)
    requires Legal(s, steps)
    decreases |steps|
  {
    && |Holders(s, id)| <= m
    && (steps == [] || OverlapAtMost(Apply(s, steps[0]), steps[1..], id, m))
  }

  /** What has been counted and what may still be counted. */
  ghost predicate BudgetOk(s: System, id: nat, m: nat) {
    id in s.store.rows ==>
      s.store.rows[id].retryCount + |Holders(s, id)| <= s.store.rows[id].maxRetries + m - 1
  }

  /** Only a sweep that reads the row in budget adds a holder. */
  lemma HoldersShrink(s: System, step: Step, id: nat)
    requires TablesOk(s) && Enabled(s, step) && id in s.store.rows
    requires step.BeginSweep? ==> s.store.rows[id].retryCount >= s.store.rows[id].maxRetries
    ensures Holders(Apply(s, step), id) <= Holders(s, id)
  {
    var s' := Apply(s, step);
    forall w | w in Holders(s', id) ensures w in Holders(s, id) {
      if w in s.workers && s'.workers[w] != s.workers[w] {
        var wk, wk' := s.workers[w], s'.workers[w];
        if i :| 0 <= i < |wk'.todo| && wk'.todo[i].0 == id && wk'.todo[i].1.retryCount < wk'.todo[i].1.maxRetries {
          assert wk'.todo[i] in wk.todo;
        } else if step.Attempt? && (wk'.phase == Raised(id) || wk'.phase == Emitted(id)) {
          assert wk.todo[0].0 == id;
        }
      }
    }
  }

  /** Counting a failed attempt uses its holder up. */
  lemma SettlingUsesHolder(s: System, w: nat, id: nat)
    requires TablesOk(s) && Enabled(s, Settle(w)) && s.workers[w].phase == Raised(id)
    ensures Holders(Apply(s, Settle(w)), id) == Holders(s, id) - {w} && w in Holders(s, id)
  {
    var s' := Apply(s, Settle(w));
    forall v | v in s.workers && v != w ensures v in Holders(s', id) <==> v in Holders(s, id) {
      assert s'.workers[v] == s.workers[v];
    }
  }

  lemma CountMovesOnlyOnSettling(s: System, step: Step, id: nat)
    requires TablesOk(s) && Enabled(s, step) && id in s.store.rows
    requires !(step.Settle? && s.workers[step.worker].phase == Raised(id))
    ensures Apply(s, step).store.rows[id].retryCount == s.store.rows[id].retryCount
  {}

  lemma NobodyHoldsANewRow(s: System, step: Step, id: nat)
    requires TablesOk(s) && Enabled(s, step) && id !in s.store.rows && id in Apply(s, step).store.rows
    ensures Apply(s, step).store.rows[id].retryCount == 0 && Holders(Apply(s, step), id) == {}
  {
    var s' := Apply(s, step);
    forall w | w in s'.workers ensures !Holds(s'.workers[w], id) {
      if w in s.workers && s'.workers[w] != s.workers[w] {
        assert forall i :: 0 <= i < |s'.workers[w].todo| ==> s'.workers[w].todo[i] in s.workers[w].todo;
      }
    }
  }

  lemma StepKeepsBudget(s: System, step: Step, id: nat, m: nat)
    requires TablesOk(s) && Enabled(s, step) && m >= 1 && BudgetOk(s, id, m)
    requires |Holders(Apply(s, step), id)| <= m
    ensures BudgetOk(Apply(s, step), id, m)
  {
    StepExtendsStore(s, step);
    if id !in s.store.rows {
      if id in Apply(s, step).store.rows {
        NobodyHoldsANewRow(s, step, id);
      }
    } else if step.Settle? && s.workers[step.worker].phase == Raised(id) {
      SettlingUsesHolder(s, step.worker, id);
    } else {
      CountMovesOnlyOnSettling(s, step, id);
      if !step.BeginSweep? || s.store.rows[id].retryCount >= s.store.rows[id].maxRetries {
        HoldersShrink(s, step, id);
        SubsetIsSmaller(Holders(Apply(s, step), id), Holders(s, id));
      }
    }
  }

  lemma {:induction false} RunKeepsBudget(s: System, steps: seq<Step>, id: nat, m: nat)
    requires TablesOk(s) && Legal(s, steps) && m >= 1 && BudgetOk(s, id, m)
    requires OverlapAtMost(s, steps, id, m)
    ensures BudgetOk(Exec(s, steps), id, m)
    decreases |steps|
  {
    if steps != [] {
      StepKeepsBudget(s, steps[0], id, m);
      StepKeepsTables(s, steps[0]);
      RunKeepsBudget(Apply(s, steps[0]), steps[1..], id, m);
    }
  }

  /**
   From tables without workers, where the row is fresh or not yet there: whatever sweeps, emitters,
   operators and crashes interleave, the row counts at most `maxRetries + m - 1` failed attempts if no
   more than `m` workers ever hold it at once; so at most `maxRetries` when its sweeps never overlap.
   */
  lemma RetriesBoundedByOverlap(s: System, steps: seq<Step>, id: nat, m: nat)
    requires StoreOk(s.store) && s.workers == map[] && m >= 1
    requires id in s.store.rows ==> s.store.rows[id].retryCount == 0
    requires Legal(s, steps) && OverlapAtMost(s, steps, id, m)
    ensures var rows := Exec(s, steps).store.rows;
      id in rows ==> rows[id].retryCount <= rows[id].maxRetries + m - 1
  {
    assert Holders(s, id) == {};
    RunKeepsBudget(s, steps, id, m);
  }

  /*** Runs that reach the bound ***/

  const EVENT := Event("e", "")

  const OUTAGE := Fault(Some(Transient), Transient, true)

  function RowAfter(count: nat): Row {
    NewRow(EVENT, Transient).(retryCount := count)
  }

  function Range(from: nat, n: nat): (r: set<nat>)
    ensures |r| == n && forall w :: w in r <==> from <= w < from + n
  {
    if n == 0 then {} else Range(from, n - 1) + {from + n - 1}
  }

  function Reader(seen: nat): Worker {
    Worker([(0, RowAfter(seen))], Between)
  }

  const IDLE := Worker([], Between)

  ghost function Crew(seen: nat, gone: nat, held: nat): (r: map<nat, Worker>)
    ensures forall w :: w in r <==> 0 <= w < gone + held
    ensures forall w :: w in r ==> r[w] == if w < gone then IDLE else Reader(seen)
  {
    if held > 0 then Crew(seen, gone, held - 1)[gone + held - 1 := Reader(seen)]
    else if gone > 0 then Crew(seen, gone - 1, 0)[gone - 1 := IDLE]
    else map[]
  }

  /** One row with `count` failed attempts, `held` workers that read it at `seen`, after `gone` finished ones. */
  ghost function Scene(count: nat, seen: nat, gone: nat, held: nat): System {
    System(Store([], map[0 := RowAfter(count)], 1, true), Crew(seen, gone, held), {EVENT})
  }

  /** The run leads from `s` to `t` with at most `m` holders of row 0 throughout. */
  ghost predicate Leads(s: System, steps: seq<Step>, t: System, m: nat) {
    Legal(s, steps) && Exec(s, steps) == t && OverlapAtMost(s, steps, 0, m)
  }

  lemma {:induction false} LeadsCompose(s: System, steps: seq<Step>, t: System, more: seq<Step>, u: System, m: nat)
    requires Leads(s, steps, t, m) && Leads(t, more, u, m)
    ensures Leads(s, steps + more, u, m)
    decreases |steps|
  {
    if steps == [] {
      assert steps + more == more;
    } else {
      assert (steps + more)[1..] == steps[1..] + more;
      LeadsCompose(Apply(s, steps[0]), steps[1..], t, more, u, m);
    }
  }

  lemma OneStepLeads(s: System, step: Step, m: nat)
    requires Enabled(s, step) && |Holders(s, 0)| <= m && |Holders(Apply(s, step), 0)| <= m
    ensures Leads(s, [step], Apply(s, step), m)
  {
    assert [step][1..] == [];
    assert Legal(Apply(s, step), []);
  }

  lemma HeldInScene(s: System, gone: nat, held: nat)
    requires forall w :: w in s.workers && !(gone <= w < gone + held) ==> s.workers[w] == IDLE
    ensures |Holders(s, 0)| <= held
  {
    SubsetIsSmaller(Holders(s, 0), Range(gone, held));
  }

  lemma ReaderArrives(count: nat, gone: nat, held: nat)
    ensures var s, step := Scene(count, count, gone, held), BeginSweep(gone + held, [0]);
      Enabled(s, step) && Apply(s, step) == Scene(count, count, gone, held + 1)
  {
    var s, step := Scene(count, count, gone, held), BeginSweep(gone + held, [0]);
    assert Enabled(s, step);
    assert Apply(s, step).workers[gone + held].todo == [(0, RowAfter(count))];
  }

  lemma AnotherReader(count: nat, gone: nat, held: nat, m: nat)
    requires held < m
    ensures Leads(Scene(count, count, gone, held), [BeginSweep(gone + held, [0])], Scene(count, count, gone, held + 1), m)
  {
    ReaderArrives(count, gone, held);
    HeldInScene(Scene(count, count, gone, held), gone, held);
    HeldInScene(Scene(count, count, gone, held + 1), gone, held + 1);
    OneStepLeads(Scene(count, count, gone, held), BeginSweep(gone + held, [0]), m);
  }

  /** The scene in which the next worker's attempt has just raised. */
  ghost function RaisedScene(count: nat, seen: nat, gone: nat, held: nat): System {
    var s := Scene(count, seen, gone, held + 1);
    s.(workers := s.workers[gone := Worker([], Raised(0))])
  }

  lemma ReaderRaises(count: nat, seen: nat, gone: nat, held: nat)
    requires seen < 3
    ensures var s, step := Scene(count, seen, gone, held + 1), Attempt(gone, OUTAGE);
      Enabled(s, step) && Apply(s, step) == RaisedScene(count, seen, gone, held)
  {
    assert Scene(count, seen, gone, held + 1).workers[gone] == Reader(seen);
    assert Reader(seen).todo[1..] == [];
  }

  lemma ReaderSettles(count: nat, seen: nat, gone: nat, held: nat)
    ensures var s, step := RaisedScene(count, seen, gone, held), Settle(gone);
      Enabled(s, step) && Apply(s, step) == Scene(count + 1, seen, gone + 1, held)
  {
    var t := Apply(RaisedScene(count, seen, gone, held), Settle(gone));
    assert t.store.rows == Scene(count + 1, seen, gone + 1, held).store.rows;
    assert t.workers == Crew(seen, gone + 1, held);
  }

  lemma AnotherFailure(count: nat, seen: nat, gone: nat, held: nat, m: nat) returns (steps: seq<Step>)
    requires seen < 3 && held < m
    ensures Leads(Scene(count, seen, gone, held + 1), steps, Scene(count + 1, seen, gone + 1, held), m)
  {
    var s, t, u := Scene(count, seen, gone, held + 1), RaisedScene(count, seen, gone, held), Scene(count + 1, seen, gone + 1, held);
    ReaderRaises(count, seen, gone, held);
    ReaderSettles(count, seen, gone, held);
    HeldInScene(s, gone, held + 1);
    HeldInScene(t, gone, held + 1);
    HeldInScene(u, gone + 1, held);
    OneStepLeads(s, Attempt(gone, OUTAGE), m);
    OneStepLeads(t, Settle(gone), m);
    LeadsCompose(s, [Attempt(gone, OUTAGE)], t, [Settle(gone)], u, m);
    steps := [Attempt(gone, OUTAGE)] + [Settle(gone)];
  }

  lemma {:induction false} ReadersGather(count: nat, gone: nat, held: nat, m: nat) returns (steps: seq<Step>)
    requires held <= m
    ensures Leads(Scene(count, count, gone, 0), steps, Scene(count, count, gone, held), m)
  {
    if held == 0 {
      HeldInScene(Scene(count, count, gone, 0), gone, 0);
      steps := [];
    } else {
      var before := ReadersGather(count, gone, held - 1, m);
      AnotherReader(count, gone, held - 1, m);
      LeadsCompose(Scene(count, count, gone, 0), before, Scene(count, count, gone, held - 1),
                   [BeginSweep(gone + held - 1, [0])], Scene(count, count, gone, held), m);
      steps := before + [BeginSweep(gone + held - 1, [0])];
    }
  }

  lemma ReadersFailFrom(count: nat, seen: nat, gone: nat, held: nat, m: nat, rest: seq<Step>, u: System)
    returns (steps: seq<Step>)
    requires seen < 3 && held < m && Leads(Scene(count + 1, seen, gone + 1, held), rest, u, m)
    ensures Leads(Scene(count, seen, gone, held + 1), steps, u, m)
  {
    var first := AnotherFailure(count, seen, gone, held, m);
    LeadsCompose(Scene(count, seen, gone, held + 1), first, Scene(count + 1, seen, gone + 1, held), rest, u, m);
    steps := first + rest;
  }

  lemma {:induction false} ReadersFail(count: nat, seen: nat, gone: nat, held: nat, u: System, m: nat)
    returns (steps: seq<Step>)
    requires seen < 3 && held <= m && u == Scene(count + held, seen, gone + held, 0)
    ensures Leads(Scene(count, seen, gone, held), steps, u, m)
    decreases held
  {
    if held == 0 {
      HeldInScene(u, gone, 0);
      steps := [];
    } else {
      var rest := ReadersFail(count + 1, seen, gone + 1, held - 1, u, m);
      steps := ReadersFailFrom(count, seen, gone, held - 1, m, rest, u);
    }
  }

  /** `held` overlapping sweeps of a row still in budget count one failed attempt each. */
  lemma OverlappingSweeps(count: nat, gone: nat, held: nat, m: nat) returns (steps: seq<Step>)
    requires count < 3 && held <= m
    ensures Leads(Scene(count, count, gone, 0), steps, Scene(count + held, count + held, gone + held, 0), m)
  {
    var arrivals := ReadersGather(count, gone, held, m);
    var fails := ReadersFail(count, count, gone, held, Scene(count + held, count, gone + held, 0), m);
    assert Crew(count, gone + held, 0) == Crew(count + held, gone + held, 0);
    LeadsCompose(Scene(count, count, gone, 0), arrivals, Scene(count, count, gone, held),
                 fails, Scene(count + held, count + held, gone + held, 0), m);
    steps := arrivals + fails;
  }

  lemma FirstEmission(m: nat)
    ensures Leads(INITIAL, [EmitEvent(EVENT, OUTAGE.(queueDown := false))], Scene(0, 0, 0, 0), m)
  {
    var emit := EmitEvent(EVENT, OUTAGE.(queueDown := false));
    assert Apply(INITIAL, emit) == Scene(0, 0, 0, 0);
    HeldInScene(INITIAL, 0, 0);
    HeldInScene(Scene(0, 0, 0, 0), 0, 0);
    OneStepLeads(INITIAL, emit, m);
  }

  lemma SpentBudget(m: nat) returns (steps: seq<Step>)
    requires m >= 1
    ensures Leads(INITIAL, steps, Scene(2, 2, 2, 0), m)
  {
    var emit := [EmitEvent(EVENT, OUTAGE.(queueDown := false))];
    FirstEmission(m);
    var one := OverlappingSweeps(0, 0, 1, m);
    var two := OverlappingSweeps(1, 1, 1, m);
    LeadsCompose(INITIAL, emit, Scene(0, 0, 0, 0), one, Scene(1, 1, 1, 0), m);
    LeadsCompose(INITIAL, emit + one, Scene(1, 1, 1, 0), two, Scene(2, 2, 2, 0), m);
    steps := emit + one + two;
  }

  /**
   The bound is exact: for every `m` some run in which no more than `m` workers ever hold the row at
   once counts `maxRetries + m - 1` failed attempts. Two overlapping sweeps exceed the budget already.
   */
  lemma OverlapReachesTheBound(m: nat) returns (steps: seq<Step>)
    requires m >= 1
    ensures Legal(INITIAL, steps) && OverlapAtMost(INITIAL, steps, 0, m)
    ensures var rows := Exec(INITIAL, steps).store.rows;
      0 in rows && rows[0].maxRetries == 3 && rows[0].retryCount == 3 + m - 1
  {
    var before := SpentBudget(m);
    var last := OverlappingSweeps(2, 2, m, m);
    LeadsCompose(INITIAL, before, Scene(2, 2, 2, 0), last, Scene(2 + m, 2 + m, 2 + m, 0), m);
    steps := before + last;
  }
}
