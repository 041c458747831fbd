/**
 The shared assignment cache over time: any number of evaluations, by any principals, fetch from it,
 read the database and store what they read, in any interleaving with database changes and
 invalidations. Only the two Redis exchanges and the query of an evaluation are atomic.
 */
module RbacSessions {
  import opened Basics
  import opened Rbac

  /** A miss that read the database, at an instant and a place in the log, and has not yet stored the rows. */
  datatype Filling = Filling(principal: string, assignments: seq<Assignment>, readAt: int, place: nat)

  datatype Event =
    | Filled(principal: string, assignments: seq<Assignment>, readAt: int, place: nat, at: int)
    | Hit(principal: string, rows: seq<Candidate>, at: int)
    | Bumped(principal: string, version: string, at: int)

  datatype System = System(now: int, db: Database, cache: Cache, filling: map<nat, Filling>, log: seq<Event>)

  datatype Step =
    | Tick(to: int)
    | ChangeDatabase(db: Database)
    | Invalidate(principal: string, version: string)
    | FetchRows(evaluation: nat, principal: string, fault: RedisFault)
    | StoreRows(evaluation: nat, fault: RedisFault)

  predicate Enabled(s: System, step: Step) {
    match step
    case Tick(to) => s.now <= to
    case ChangeDatabase(_) => true
    case Invalidate(_, _) => true
    case FetchRows(e, _, _) => e !in s.filling
    case StoreRows(e, _) => e in s.filling
  }

  function Apply(s: System, step: Step): System
    requires Enabled(s, step)
  {
    match step
    case Tick(to) => s.(now := to)
    case ChangeDatabase(db) => s.(db := db)
    case Invalidate(p, version) =>
      s.(cache := s.cache.(versions := s.cache.versions[p := version]), log := s.log + [Bumped(p, version, s.now)])
    case FetchRows(e, p, f) =>
      var cached := Fetch(Some(s.cache), p, s.now, f);
      if cached.Some? then s.(log := s.log + [Hit(p, cached.value, s.now)])
      else s.(filling := s.filling[e := Filling(p, TablesOf(s.db, p).assignments, s.now, |s.log|)])
    case StoreRows(e, f) =>
      var fill := s.filling[e];
      var rows := JudgeAll(fill.assignments, fill.readAt);
      s.(cache := Keep(Some(s.cache), fill.principal, rows, s.now, f).value,
         filling := s.filling - {e},
         log := if f.versionFails || f.entryFails then s.log
                else s.log + [Filled(fill.principal, fill.assignments, fill.readAt, fill.place, s.now)])
  }

  predicate Legal(s: System, steps: seq<Step>)
    decreases |steps|
  {
    steps == [] || (Enabled(s, steps[0]) && Legal(Apply(s, steps[0]), steps[1..]))
  }

  function Exec(s: System, steps: seq<Step>): System
    requires Legal(s, steps)
    decreases |steps|
  {
    if steps == [] then s else Exec(Apply(s, steps[0]), steps[1..])
  }

  function Initial(now: int, db: Database): System {
    System(now, db, Cache(map[], map[]), map[], [])
  }

  /** Call `i` of the log stored exactly these rows for this principal, to fall out at `goneAt`. */
  ghost predicate StoredBy(log: seq<Event>, i: int, principal: string, rows: seq<Candidate>, goneAt: int) {
    && 0 <= i < |log| && log[i].Filled? && log[i].principal == principal
    && rows == StoreAll(JudgeAll(log[i].assignments, log[i].readAt))
    && goneAt == log[i].at + CACHE_TTL
  }

  /** The hit at `j` was filled at `i`, for the same principal, less than one TTL before. */
  ghost predicate Backed(log: seq<Event>, i: int, j: int)
    requires 0 <= j < |log| && log[j].Hit?
  {
    && 0 <= i < j && StoredBy(log, i, log[j].principal, log[j].rows, log[i].at + CACHE_TTL)
    && log[i].readAt <= log[i].at <= log[j].at < log[i].at + CACHE_TTL
  }

  ghost predicate EntryOk(log: seq<Event>, key: (string, string), entry: CacheEntry) {
    exists i :: StoredBy(log, i, key.0, entry.rows, entry.goneAt)
  }

  ghost predicate HitOk(log: seq<Event>, j: int)
    requires 0 <= j < |log| && log[j].Hit?
  {
    exists i :: Backed(log, i, j)
  }

  ghost predicate EntriesOk(log: seq<Event>, cache: Cache) {
    forall key :: key in cache.entries ==> EntryOk(log, key, cache.entries[key])
  }

  ghost predicate HitsOk(log: seq<Event>) {
    forall j :: 0 <= j < |log| && log[j].Hit? ==> HitOk(log, j)
  }

  ghost predicate TimesOk(s: System) {
    && (forall i :: 0 <= i < |s.log| ==> s.log[i].at <= s.now && (s.log[i].Filled? ==> s.log[i].readAt <= s.log[i].at))
    && (forall e :: e in s.filling ==> s.filling[e].readAt <= s.now)
  }

  /** A read lies before the store of its rows. */
  ghost predicate PlacesOk(s: System) {
    && (forall i :: 0 <= i < |s.log| && s.log[i].Filled? ==> s.log[i].place <= i)
    && (forall e :: e in s.filling ==> s.filling[e].place <= |s.log|)
  }

  ghost predicate Inv(s: System) {
    EntriesOk(s.log, s.cache) && HitsOk(s.log) && TimesOk(s) && PlacesOk(s)
  }

  lemma EntriesStay(log: seq<Event>, more: Event, cache: Cache)
    requires EntriesOk(log, cache)
    ensures EntriesOk(log + [more], cache)
  {
    forall key | key in cache.entries ensures EntryOk(log + [more], key, cache.entries[key]) {
      var i :| StoredBy(log, i, key.0, cache.entries[key].rows, cache.entries[key].goneAt);
      assert StoredBy(log + [more], i, key.0, cache.entries[key].rows, cache.entries[key].goneAt);
    }
  }

  lemma HitsStay(log: seq<Event>, more: Event)
    requires HitsOk(log) && (more.Hit? ==> HitOk(log + [more], |log|))
    ensures HitsOk(log + [more])
  {
    forall j | 0 <= j < |log| && log[j].Hit? ensures HitOk(log + [more], j) {
      assert HitOk(log, j);
      var i :| Backed(log, i, j);
      assert Backed(log + [more], i, j);
    }
  }

  lemma HitIsBacked(s: System, p: string, f: RedisFault)
    requires Inv(s) && Fetch(Some(s.cache), p, s.now, f).Some?
    ensures HitOk(s.log + [Hit(p, Fetch(Some(s.cache), p, s.now, f).value, s.now)], |s.log|)
  {
    var log := s.log + [Hit(p, Fetch(Some(s.cache), p, s.now, f).value, s.now)];
    var key := (p, s.cache.versions[p]);
    assert EntryOk(s.log, key, s.cache.entries[key]);
    var i :| StoredBy(s.log, i, p, s.cache.entries[key].rows, s.cache.entries[key].goneAt);
    assert log[i] == s.log[i];
    assert Backed(log, i, |s.log|);
  }

  lemma LoggedEventKeepsInv(s: System, more: Event)
    requires Inv(s) && !more.Filled? && more.at == s.now
    requires more.Hit? ==> HitOk(s.log + [more], |s.log|)
    ensures Inv(s.(log := s.log + [more]))
  {
    EntriesStay(s.log, more, s.cache);
    HitsStay(s.log, more);
  }

  lemma FetchKeepsInv(s: System, e: nat, p: string, f: RedisFault)
    requires Inv(s) && Enabled(s, FetchRows(e, p, f))
    ensures Inv(Apply(s, FetchRows(e, p, f)))
  {
    var cached := Fetch(Some(s.cache), p, s.now, f);
    if cached.Some? {
      HitIsBacked(s, p, f);
      LoggedEventKeepsInv(s, Hit(p, cached.value, s.now));
    }
  }

  lemma FillAddsEntry(log: seq<Event>, cache: Cache, filled: Event, version: string)
    requires EntriesOk(log, cache) && filled.Filled?
    ensures var rows := StoreAll(JudgeAll(filled.assignments, filled.readAt));
      EntriesOk(log + [filled],
                cache.(entries := cache.entries[(filled.principal, version) := CacheEntry(rows, filled.at + CACHE_TTL)]))
  {
    var rows := StoreAll(JudgeAll(filled.assignments, filled.readAt));
    var entry := CacheEntry(rows, filled.at + CACHE_TTL);
    EntriesStay(log, filled, cache);
    assert StoredBy(log + [filled], |log|, filled.principal, rows, filled.at + CACHE_TTL);
    assert EntryOk(log + [filled], (filled.principal, version), entry);
    var entries := cache.entries[(filled.principal, version) := entry];
    forall key | key in entries ensures EntryOk(log + [filled], key, entries[key]) {
      assert key == (filled.principal, version) || EntryOk(log + [filled], key, cache.entries[key]);
    }
  }

  lemma StoreKeepsInv(s: System, e: nat, f: RedisFault)
    requires Inv(s) && Enabled(s, StoreRows(e, f))
    ensures Inv(Apply(s, StoreRows(e, f)))
  {
    var fill := s.filling[e];
    if !f.versionFails && !f.entryFails {
      var filled := Filled(fill.principal, fill.assignments, fill.readAt, fill.place, s.now);
      var version := if fill.principal in s.cache.versions then s.cache.versions[fill.principal] else "1";
      FillAddsEntry(s.log, s.cache, filled, version);
      HitsStay(s.log, filled);
    }
  }

  lemma StepKeepsInv(s: System, step: Step)
    requires Inv(s) && Enabled(s, step)
    ensures Inv(Apply(s, step))
  {
    match step
    case FetchRows(e, p, f) => FetchKeepsInv(s, e, p, f);
    case StoreRows(e, f) => StoreKeepsInv(s, e, f);
    case Invalidate(p, version) =>
      LoggedEventKeepsInv(s.(cache := s.cache.(versions := s.cache.versions[p := version])), Bumped(p, version, s.now));
    case _ =>
  }

  lemma {:induction false} RunKeepsInv(s: System, steps: seq<Step>)
    requires Inv(s) && Legal(s, steps)
    ensures Inv(Exec(s, steps))
    decreases |steps|
  {
    if steps != [] {
      StepKeepsInv(s, steps[0]);
      RunKeepsInv(Apply(s, steps[0]), steps[1..]);
    }
  }

  /**
   In every run, whatever principals share the cache: each hit returns, without their `expired` flags,
   the assignments that an earlier miss of the same principal had read, and that were stored less than
   one TTL before.
   */
  lemma HitsAreRecentFills(now: int, db: Database, steps: seq<Step>, j: nat)
    requires Legal(Initial(now, db), steps)
    requires j < |Exec(Initial(now, db), steps).log| && Exec(Initial(now, db), steps).log[j].Hit?
    ensures var log := Exec(Initial(now, db), steps).log;
      exists i :: 0 <= i < j && log[i].Filled? && log[i].principal == log[j].principal
        && log[i].readAt <= log[i].at <= log[j].at < log[i].at + CACHE_TTL
        && log[j].rows == StoreAll(JudgeAll(log[i].assignments, log[i].readAt))
  {
    RunKeepsInv(Initial(now, db), steps);
    var log := Exec(Initial(now, db), steps).log;
    assert HitOk(log, j);
    var i :| Backed(log, i, j);
  }

  ghost predicate AgreesAt(t: Tables, permission: string, resource: Scope, now: int) {
    var denied := exists d :: d in t.denies && DenyApplies(d, permission, resource, now);
    var live := exists a :: a in t.assignments && LiveGrant(t.roles, a, permission, resource, now);
    denied || (!ExpiredCovering(t, permission, resource, now) && (live || !ExpiredInScope(t, resource, now)))
  }

  /**
   Whenever some fill behind a hit read the principal's present assignments, then for any roles and
   denies the verdict on the hit is the uncached one exactly when a deny matches, or no expired
   assignment covers the request and either some live one does or none in scope is expired.
   */
  lemma HitVerdictAgreesIff(
    now: int, db: Database, steps: seq<Step>, i: nat, j: nat, t: Tables, permission: string, resource: Scope)
    requires Legal(Initial(now, db), steps)
    requires j < |Exec(Initial(now, db), steps).log| && Exec(Initial(now, db), steps).log[j].Hit?
    requires Backed(Exec(Initial(now, db), steps).log, i, j)
    requires Exec(Initial(now, db), steps).log[i].assignments == t.assignments
    ensures var hit := Exec(Initial(now, db), steps).log[j];
      Evaluated(t.roles, t.denies, hit.rows, permission, resource, hit.at) == UncachedVerdict(t, permission, resource, hit.at)
      <==> AgreesAt(t, permission, resource, hit.at)
  {
    var log := Exec(Initial(now, db), steps).log;
    assert Evaluated(t.roles, t.denies, log[j].rows, permission, resource, log[j].at) ==
      CachedVerdict(t, permission, resource, log[i].readAt, log[j].at);
    CachedAgreesIffNoExpiredGrant(t, permission, resource, log[i].readAt, log[j].at);
  }

  /*** Whether a version bump takes effect at once ***/

  /** The hit at `j` has a fill behind it that read the database after place `n` of the log. */
  ghost predicate ReadAfter(log: seq<Event>, j: int, n: nat)
    requires 0 <= j < |log| && log[j].Hit?
  {
    exists i :: Backed(log, i, j) && log[i].place > n
  }

  /** After place `n`, the principal's hits return only rows read after it. */
  ghost predicate NoStaleHit(log: seq<Event>, principal: string, n: nat) {
    forall j :: n < j < |log| && log[j].Hit? && log[j].principal == principal ==> ReadAfter(log, j, n)
  }

  ghost predicate InFlight(s: System, principal: string) {
    exists e :: e in s.filling && s.filling[e].principal == principal
  }

  /** A version never used for the principal, as one that is counted up is. */
  predicate Unused(cache: Cache, principal: string, version: string) {
    (principal, version) !in cache.entries
  }

  /** Every further bump of the principal is to an unused version too. */
  predicate UnusedBumps(s: System, steps: seq<Step>, principal: string)
    requires Legal(s, steps)
    decreases |steps|
  {
    steps == [] ||
    (var step := steps[0];
     (step.Invalidate? && step.principal == principal ==> Unused(s.cache, principal, step.version))
     && UnusedBumps(Apply(s, step), steps[1..], principal))
  }

  /** The entry under the principal's version, if there is one, was read after place `n`. */
  ghost predicate CurrentReadAfter(s: System, principal: string, n: nat) {
    && principal in s.cache.versions
    && var key := (principal, s.cache.versions[principal]);
       key in s.cache.entries ==>
         exists i :: StoredBy(s.log, i, principal, s.cache.entries[key].rows, s.cache.entries[key].goneAt) && s.log[i].place > n
  }

  ghost predicate SinceBump(s: System, principal: string, n: nat) {
    && n < |s.log|
    && CurrentReadAfter(s, principal, n)
    && (forall e :: e in s.filling && s.filling[e].principal == principal ==> s.filling[e].place > n)
    && NoStaleHit(s.log, principal, n)
  }

  lemma NoStaleHitStays(log: seq<Event>, more: Event, principal: string, n: nat)
    requires NoStaleHit(log, principal, n)
    requires more.Hit? && more.principal == principal ==> ReadAfter(log + [more], |log|, n)
    ensures NoStaleHit(log + [more], principal, n)
  {
    forall j | n < j < |log| && log[j].Hit? && log[j].principal == principal ensures ReadAfter(log + [more], j, n) {
      assert ReadAfter(log, j, n);
      var i :| Backed(log, i, j) && log[i].place > n;
      assert Backed(log + [more], i, j);
    }
  }

  lemma CurrentStays(s: System, s': System, more: Event, principal: string, n: nat)
    requires CurrentReadAfter(s, principal, n) && s'.log == s.log + [more]
    requires principal in s'.cache.versions && s'.cache.versions[principal] == s.cache.versions[principal]
    requires var key := (principal, s.cache.versions[principal]);
      key in s'.cache.entries ==> key in s.cache.entries && s'.cache.entries[key] == s.cache.entries[key]
    ensures CurrentReadAfter(s', principal, n)
  {
    var key := (principal, s.cache.versions[principal]);
    if key in s'.cache.entries {
      var i :| StoredBy(s.log, i, principal, s.cache.entries[key].rows, s.cache.entries[key].goneAt) && s.log[i].place > n;
      assert StoredBy(s'.log, i, principal, s'.cache.entries[key].rows, s'.cache.entries[key].goneAt);
    }
  }

  lemma FetchSinceBump(s: System, e: nat, q: string, f: RedisFault, principal: string, n: nat)
    requires Inv(s) && SinceBump(s, principal, n) && Enabled(s, FetchRows(e, q, f))
    ensures SinceBump(Apply(s, FetchRows(e, q, f)), principal, n)
  {
    var cached, s' := Fetch(Some(s.cache), q, s.now, f), Apply(s, FetchRows(e, q, f));
    if cached.Some? {
      var hit := Hit(q, cached.value, s.now);
      CurrentStays(s, s', hit, principal, n);
      if q == principal {
        var entry := s.cache.entries[(q, s.cache.versions[q])];
        var i :| StoredBy(s.log, i, q, entry.rows, entry.goneAt) && s.log[i].place > n;
        assert s'.log[i] == s.log[i];
        assert Backed(s'.log, i, |s.log|);
      }
      NoStaleHitStays(s.log, hit, principal, n);
    }
  }

  lemma StoreSinceBump(s: System, e: nat, f: RedisFault, principal: string, n: nat)
    requires Inv(s) && SinceBump(s, principal, n) && Enabled(s, StoreRows(e, f))
    ensures SinceBump(Apply(s, StoreRows(e, f)), principal, n)
  {
    var fill, s' := s.filling[e], Apply(s, StoreRows(e, f));
    if !f.versionFails && !f.entryFails {
      var filled := Filled(fill.principal, fill.assignments, fill.readAt, fill.place, s.now);
      NoStaleHitStays(s.log, filled, principal, n);
      if fill.principal == principal {
        assert StoredBy(s'.log, |s.log|, principal, StoreAll(JudgeAll(fill.assignments, fill.readAt)), s.now + CACHE_TTL);
      } else {
        CurrentStays(s, s', filled, principal, n);
      }
    }
  }

  lemma BumpSinceBump(s: System, q: string, version: string, principal: string, n: nat)
    requires SinceBump(s, principal, n) && (q == principal ==> Unused(s.cache, q, version))
    ensures SinceBump(Apply(s, Invalidate(q, version)), principal, n)
  {
    NoStaleHitStays(s.log, Bumped(q, version, s.now), principal, n);
    if q != principal {
      CurrentStays(s, Apply(s, Invalidate(q, version)), Bumped(q, version, s.now), principal, n);
    }
  }

  lemma {:induction false} RunSinceBump(s: System, steps: seq<Step>, principal: string, n: nat)
    requires Inv(s) && SinceBump(s, principal, n) && Legal(s, steps) && UnusedBumps(s, steps, principal)
    ensures SinceBump(Exec(s, steps), principal, n)
    decreases |steps|
  {
    if steps != [] {
      StepKeepsInv(s, steps[0]);
      match steps[0] {
        case FetchRows(e, q, f) => FetchSinceBump(s, e, q, f, principal, n);
        case StoreRows(e, f) => StoreSinceBump(s, e, f, principal, n);
        case Invalidate(q, version) => BumpSinceBump(s, q, version, principal, n);
        case _ =>
      }
      RunSinceBump(Apply(s, steps[0]), steps[1..], principal, n);
    }
  }

  /** A fill in flight at the bump stores its rows under the new version, and the next fetch returns them. */
  lemma StaleFillIsServed(s: System, principal: string, version: string) returns (steps: seq<Step>)
    requires Inv(s) && InFlight(s, principal)
    ensures var bumped := Apply(s, Invalidate(principal, version));
      && Legal(bumped, steps) && UnusedBumps(bumped, steps, principal)
      && !NoStaleHit(Exec(bumped, steps).log, principal, |s.log|)
  {
    var e :| e in s.filling && s.filling[e].principal == principal;
    var ok := RedisFault(false, false, false);
    var s1 := Apply(s, Invalidate(principal, version));
    var s2 := Apply(s1, StoreRows(e, ok));
    var s3 := Apply(s2, FetchRows(e, principal, ok));
    steps := [StoreRows(e, ok), FetchRows(e, principal, ok)];
    assert steps[1..] == [FetchRows(e, principal, ok)] && [FetchRows(e, principal, ok)][1..] == [];
    assert Legal(s3, []) && Legal(s2, steps[1..]) && Exec(s2, steps[1..]) == s3;
    assert UnusedBumps(s3, [], principal) && UnusedBumps(s2, steps[1..], principal);
    var j := |s.log| + 2;
    assert s3.log[j].Hit? && s3.log[j].principal == principal;
    forall i | Backed(s3.log, i, j) ensures s3.log[i].place <= |s.log| {
      if i < |s.log| {
        assert s3.log[i] == s.log[i];
      }
    }
  }

  /**
   A bump is documented to take effect at once. After one to an unused version, the principal's hits
   return only rows read after the bump, in every continuation that keeps using unused versions,
   exactly when no fill of the principal was in flight at the bump.
   */
  lemma BumpTakesEffectIff(now: int, db: Database, run: seq<Step>, principal: string, version: string)
    requires Legal(Initial(now, db), run)
    requires Unused(Exec(Initial(now, db), run).cache, principal, version)
    ensures var s := Exec(Initial(now, db), run);
      var bumped := Apply(s, Invalidate(principal, version));
      (forall steps :: Legal(bumped, steps) && UnusedBumps(bumped, steps, principal) ==>
         NoStaleHit(Exec(bumped, steps).log, principal, |s.log|))
      <==> !InFlight(s, principal)
  {
    RunKeepsInv(Initial(now, db), run);
    var s := Exec(Initial(now, db), run);
    var bumped := Apply(s, Invalidate(principal, version));
    if InFlight(s, principal) {
      var steps := StaleFillIsServed(s, principal, version);
    } else {
      StepKeepsInv(s, Invalidate(principal, version));
      forall steps | Legal(bumped, steps) && UnusedBumps(bumped, steps, principal)
        ensures NoStaleHit(Exec(bumped, steps).log, principal, |s.log|)
      {
        RunSinceBump(bumped, steps, principal, |s.log|);
      }
    }
  }
}
