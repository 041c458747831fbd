/**
 The policy cache as the routing calls of one service share it. A call looks a question up and, on a
 miss, awaits the policy engine before it stores the answer; other calls run in between. Every lookup
 and every store uses the instant at which its own call began.
 */
module PolicySharing {
  import opened Basics
  import opened PolicyCache

  /** A routing call: when it began, and the question it is awaiting the policy for. */
  datatype Turn = Turn(start: real, asking: Option<PolicyKey>)

  datatype Event =
    | Given(key: PolicyKey, answer: Answer, start: real, at: real)   // the policy answers a call begun at `start`
    | Used(key: PolicyKey, answer: Answer, start: real, at: real)    // a call begun at `start` relies on the answer

  datatype System = System(ttl: real, max: nat, now: real, data: Data, calls: map<nat, Turn>, log: seq<Event>)

  datatype Step =
    | Tick(to: real)
    | StartCall(call: nat)
    | LookUp(call: nat, key: PolicyKey)
    | Reply(call: nat, answer: Answer)
    | Leave(call: nat)

  predicate Enabled(s: System, step: Step) {
    match step
    case Tick(to) => s.now <= to
    case StartCall(c) => c !in s.calls
    case LookUp(c, _) => c in s.calls && s.calls[c].asking.None?
    case Reply(c, _) => c in s.calls && s.calls[c].asking.Some?
    case Leave(c) => c in s.calls
  }

  function Apply(s: System, step: Step): System
    requires Enabled(s, step)
  {
    match step
    case Tick(to) => s.(now := to)
    case StartCall(c) => s.(calls := s.calls[c := Turn(s.now, None)])
    case LookUp(c, key) =>
      var start := s.calls[c].start;
      var cached := GetAnswer(s.data, key, start);
      var looked := s.(data := GetData(s.data, key, start));
      if cached.Some? then looked.(log := s.log + [Used(key, cached.value, start, s.now)])
      else looked.(calls := s.calls[c := Turn(start, Some(key))])
    case Reply(c, answer) =>
      var start, key := s.calls[c].start, s.calls[c].asking.value;
      s.(data := SetData(s.data, s.ttl, s.max, key, answer, start),
         calls := s.calls[c := Turn(start, None)],
         log := s.log + [Given(key, answer, start, s.now)] + [Used(key, answer, start, s.now)])
    case Leave(c) => s.(calls := s.calls - {c})
  }

  predicate Legal(s: System, steps: seq<Step>)
    decreases |steps|
  {
    steps == [] || (Enabled(s, steps[0]) && Legal(Apply(s, steps[0]), steps[1..]))
  }

  function Exec(s: System, steps: seq<Step>): System
    requires Legal(s, steps)
    decreases |steps|
  {
    if steps == [] then s else Exec(Apply(s, steps[0]), steps[1..])
  }

  function Initial(ttl: real, max: nat, now: real): System {
    System(ttl, max, now, [], map[], [])
  }

  /*** Freshness ***/

  ghost predicate GivenAt(log: seq<Event>, i: int, key: PolicyKey, answer: Answer) {
    0 <= i < |log| && log[i].Given? && log[i].key == key && log[i].answer == answer
  }

  /** The use at `j` rests on the answer given at `i`: to its own call, or to one begun less than one TTL earlier. */
  ghost predicate Backed(log: seq<Event>, i: int, j: int, ttl: real)
    requires 0 <= j < |log| && log[j].Used?
  {
    && 0 <= i < j && GivenAt(log, i, log[j].key, log[j].answer)
    && log[i].start <= log[i].at <= log[j].at
    && (log[i].start == log[j].start || log[j].start - log[i].start < ttl)
  }

  ghost predicate EntryOk(log: seq<Event>, e: Entry, ttl: real) {
    exists i :: GivenAt(log, i, e.key, e.answer) && log[i].start == e.expiresAt - ttl
  }

  ghost predicate UseOk(log: seq<Event>, j: int, ttl: real)
    requires 0 <= j < |log| && log[j].Used?
  {
    exists i :: Backed(log, i, j, ttl)
  }

  ghost predicate EntriesOk(log: seq<Event>, d: Data, ttl: real) {
    forall e :: e in d ==> EntryOk(log, e, ttl)
  }

  ghost predicate UsesOk(log: seq<Event>, ttl: real) {
    forall j :: 0 <= j < |log| && log[j].Used? ==> UseOk(log, j, ttl)
  }

  ghost predicate TimesOk(s: System) {
    && (forall i :: 0 <= i < |s.log| ==> s.log[i].start <= s.log[i].at <= s.now)
    && (forall c :: c in s.calls ==> s.calls[c].start <= s.now)
  }

  ghost predicate Inv(s: System) {
    |s.data| <= s.max && EntriesOk(s.log, s.data, s.ttl) && UsesOk(s.log, s.ttl) && TimesOk(s)
  }

  lemma EntriesStay(log: seq<Event>, more: Event, d: Data, ttl: real)
    requires EntriesOk(log, d, ttl)
    ensures EntriesOk(log + [more], d, ttl)
  {
    forall e | e in d ensures EntryOk(log + [more], e, ttl) {
      var i :| GivenAt(log, i, e.key, e.answer) && log[i].start == e.expiresAt - ttl;
      assert GivenAt(log + [more], i, e.key, e.answer);
    }
  }

  lemma UsesStay(log: seq<Event>, more: Event, ttl: real)
    requires UsesOk(log, ttl) && (more.Used? ==> UseOk(log + [more], |log|, ttl))
    ensures UsesOk(log + [more], ttl)
  {
    forall j | 0 <= j < |log| && log[j].Used? ensures UseOk(log + [more], j, ttl) {
      assert UseOk(log, j, ttl);
      var i :| Backed(log, i, j, ttl);
      assert Backed(log + [more], i, j, ttl);
    }
  }

  lemma LookUpKeepsInv(s: System, c: nat, key: PolicyKey)
    requires Inv(s) && Enabled(s, LookUp(c, key))
    ensures Inv(Apply(s, LookUp(c, key)))
  {
    var start := s.calls[c].start;
    var cached := GetAnswer(s.data, key, start);
    GetKeepsEntries(s.data, key, start);
    if cached.Some? {
      LookupFinds(s.data, key);
      var e := Lookup(s.data, key).value;
      var use := Used(key, cached.value, start, s.now);
      assert EntryOk(s.log, e, s.ttl);
      var i :| GivenAt(s.log, i, key, cached.value) && s.log[i].start == e.expiresAt - s.ttl;
      assert Backed(s.log + [use], i, |s.log|, s.ttl);
      EntriesStay(s.log, use, GetData(s.data, key, start), s.ttl);
      UsesStay(s.log, use, s.ttl);
    }
  }

  lemma ReplyKeepsEntries(log: seq<Event>, given: Event, d: Data, ttl: real, max: nat)
    requires EntriesOk(log, d, ttl) && given.Given?
    ensures EntriesOk(log + [given], SetData(d, ttl, max, given.key, given.answer, given.start), ttl)
  {
    var entry := Entry(given.key, given.start + ttl, given.answer);
    EntriesStay(log, given, d, ttl);
    assert GivenAt(log + [given], |log|, given.key, given.answer);
    assert EntryOk(log + [given], entry, ttl);
    forall e | e in SetData(d, ttl, max, given.key, given.answer, given.start) ensures EntryOk(log + [given], e, ttl) {
      assert e in Remove(d, given.key) + [entry];
      assert e in d || e == entry;
    }
  }

  lemma ReplyKeepsInv(s: System, c: nat, answer: Answer)
    requires Inv(s) && Enabled(s, Reply(c, answer))
    ensures Inv(Apply(s, Reply(c, answer)))
  {
    var start, key := s.calls[c].start, s.calls[c].asking.value;
    var given, use := Given(key, answer, start, s.now), Used(key, answer, start, s.now);
    var data := SetData(s.data, s.ttl, s.max, key, answer, start);
    ReplyKeepsEntries(s.log, given, s.data, s.ttl, s.max);
    EntriesStay(s.log + [given], use, data, s.ttl);
    UsesStay(s.log, given, s.ttl);
    assert Backed(s.log + [given] + [use], |s.log|, |s.log + [given]|, s.ttl);
    UsesStay(s.log + [given], use, s.ttl);
  }

  lemma {:induction false} RunKeepsInv(s: System, steps: seq<Step>)
    requires Inv(s) && Legal(s, steps)
    ensures Inv(Exec(s, steps)) && Exec(s, steps).ttl == s.ttl && Exec(s, steps).max == s.max
    decreases |steps|
  {
    if steps != [] {
      match steps[0] {
        case LookUp(c, key) => LookUpKeepsInv(s, c, key);
        case Reply(c, answer) => ReplyKeepsInv(s, c, answer);
        case _ =>
      }
      RunKeepsInv(Apply(s, steps[0]), steps[1..]);
    }
  }

  /**
   Over every interleaving of routing calls, with any policy: the cache never exceeds its bound, and
   each answer a call relied on had already been given by the policy to exactly that question, less
   than one TTL before the call began, or after it began.
   */
  lemma SharedAnswersAreFresh(ttl: real, max: nat, now: real, steps: seq<Step>, j: nat)
    requires ttl > 0.0 && Legal(Initial(ttl, max, now), steps)
    requires j < |Exec(Initial(ttl, max, now), steps).log| && Exec(Initial(ttl, max, now), steps).log[j].Used?
    ensures var s := Exec(Initial(ttl, max, now), steps);
      && |s.data| <= max
      && exists i :: 0 <= i < j && s.log[i].Given? && s.log[i].key == s.log[j].key && s.log[i].answer == s.log[j].answer
           && s.log[i].at <= s.log[j].at && s.log[j].start - s.log[i].at < ttl
  {
    RunKeepsInv(Initial(ttl, max, now), steps);
    var log := Exec(Initial(ttl, max, now), steps).log;
    assert UseOk(log, j, ttl);
    var i :| Backed(log, i, j, ttl);
  }

  /*** The age of an answer at its use ***/

  /** Every lookup of the run comes at most `d` after its own call began. */
  predicate Prompt(s: System, steps: seq<Step>, d: real)
    requires Legal(s, steps)
    decreases |steps|
  {
    steps == [] ||
    (var step := steps[0];
     (step.LookUp? ==> s.now - s.calls[step.call].start <= d) && Prompt(Apply(s, step), steps[1..], d))
  }

  /** The policy gave the answer that the use at `j` relies on less than `age` before that use. */
  ghost predicate YoungerThan(log: seq<Event>, j: int, age: real)
    requires 0 <= j < |log| && log[j].Used?
  {
    exists i :: 0 <= i < j && GivenAt(log, i, log[j].key, log[j].answer) && log[i].at <= log[j].at < log[i].at + age
  }

  /** A use comes at most `d` after its call began, or right after the policy's own answer to that call. */
  ghost predicate PromptUse(log: seq<Event>, j: int, d: real)
    requires 0 <= j < |log| && log[j].Used?
  {
    || log[j].at - log[j].start <= d
    || (j > 0 && GivenAt(log, j - 1, log[j].key, log[j].answer) && log[j - 1].at == log[j].at)
  }

  ghost predicate PromptUses(log: seq<Event>, d: real) {
    forall j :: 0 <= j < |log| && log[j].Used? ==> PromptUse(log, j, d)
  }

  lemma PromptUsesStay(log: seq<Event>, more: Event, d: real)
    requires PromptUses(log, d) && (more.Used? ==> PromptUse(log + [more], |log|, d))
    ensures PromptUses(log + [more], d)
  {
    forall j | 0 <= j < |log| && log[j].Used? ensures PromptUse(log + [more], j, d) {
      assert PromptUse(log, j, d);
    }
  }

  lemma {:induction false} PromptRunsUsePromptly(s: System, steps: seq<Step>, d: real)
    requires Legal(s, steps) && Prompt(s, steps, d) && PromptUses(s.log, d)
    ensures PromptUses(Exec(s, steps).log, d)
    decreases |steps|
  {
    if steps != [] {
      match steps[0] {
        case LookUp(c, key) =>
          var cached := GetAnswer(s.data, key, s.calls[c].start);
          if cached.Some? {
            PromptUsesStay(s.log, Used(key, cached.value, s.calls[c].start, s.now), d);
          }
        case Reply(c, answer) =>
          var start, key := s.calls[c].start, s.calls[c].asking.value;
          PromptUsesStay(s.log, Given(key, answer, start, s.now), d);
          PromptUsesStay(s.log + [Given(key, answer, start, s.now)], Used(key, answer, start, s.now), d);
        case _ =>
      }
      PromptRunsUsePromptly(Apply(s, steps[0]), steps[1..], d);
    }
  }

  /** In a run whose lookups come at most `d` after their calls began, every age at use is below `ttl + d`. */
  lemma AgesAreBounded(ttl: real, max: nat, now: real, steps: seq<Step>, d: real, j: nat)
    requires ttl > 0.0 && d >= 0.0 && Legal(Initial(ttl, max, now), steps) && Prompt(Initial(ttl, max, now), steps, d)
    requires j < |Exec(Initial(ttl, max, now), steps).log| && Exec(Initial(ttl, max, now), steps).log[j].Used?
    ensures YoungerThan(Exec(Initial(ttl, max, now), steps).log, j, ttl + d)
  {
    var log := Exec(Initial(ttl, max, now), steps).log;
    PromptRunsUsePromptly(Initial(ttl, max, now), steps, d);
    assert PromptUse(log, j, d);
    if log[j].at - log[j].start <= d {
      SharedAnswersAreFresh(ttl, max, now, steps, j);
      var i :| 0 <= i < j && log[i].Given? && log[i].key == log[j].key && log[i].answer == log[j].answer
        && log[i].at <= log[j].at && log[j].start - log[i].at < ttl;
      assert GivenAt(log, i, log[j].key, log[j].answer);
    }
  }

  lemma {:induction false} PromptExtends(s: System, steps: seq<Step>, step: Step, d: real)
    requires Legal(s, steps) && Prompt(s, steps, d) && Enabled(Exec(s, steps), step)
    requires step.LookUp? ==> Exec(s, steps).now - Exec(s, steps).calls[step.call].start <= d
    ensures Legal(s, steps + [step]) && Exec(s, steps + [step]) == Apply(Exec(s, steps), step)
    ensures Prompt(s, steps + [step], d)
    decreases |steps|
  {
    var all := steps + [step];
    if steps == [] {
      assert Legal(Apply(s, step), all[1..]);
    } else {
      assert all[1..] == steps[1..] + [step];
      PromptExtends(Apply(s, steps[0]), steps[1..], step, d);
    }
  }

  /** One call asks the policy and is answered at instant 0. */
  lemma OneAnswer(ttl: real, max: nat, key: PolicyKey, d: real) returns (steps: seq<Step>)
    requires ttl > 0.0 && max >= 1 && d >= 0.0
    ensures Legal(Initial(ttl, max, 0.0), steps) && Prompt(Initial(ttl, max, 0.0), steps, d)
    ensures Exec(Initial(ttl, max, 0.0), steps) ==
      System(ttl, max, 0.0, [Entry(key, ttl, Allow)], map[0 := Turn(0.0, None)],
             [Given(key, Allow, 0.0, 0.0), Used(key, Allow, 0.0, 0.0)])
  {
    var s := Initial(ttl, max, 0.0);
    PromptExtends(s, [], StartCall(0), d);
    steps := [] + [StartCall(0)];
    PromptExtends(s, steps, LookUp(0, key), d);
    steps := steps + [LookUp(0, key)];
    assert Exec(s, steps) == s.(calls := map[0 := Turn(0.0, Some(key))]);
    PromptExtends(s, steps, Reply(0, Allow), d);
    steps := steps + [Reply(0, Allow)];
  }

  /** The bound is exact: a call begun `gap` after the only answer uses it `delay` later. */
  lemma AgesReachTheBound(ttl: real, max: nat, key: PolicyKey, gap: real, delay: real) returns (steps: seq<Step>)
    requires max >= 1 && 0.0 <= gap < ttl && delay >= 0.0
    ensures Legal(Initial(ttl, max, 0.0), steps) && Prompt(Initial(ttl, max, 0.0), steps, delay)
    ensures var log := Exec(Initial(ttl, max, 0.0), steps).log;
      && |log| == 3 && log[2] == Used(key, log[2].answer, gap, gap + delay)
      && forall i :: 0 <= i < 2 && log[i].Given? ==> log[2].at - log[i].at == gap + delay
  {
    var s := Initial(ttl, max, 0.0);
    steps := OneAnswer(ttl, max, key, delay);
    PromptExtends(s, steps, Tick(gap), delay);
    steps := steps + [Tick(gap)];
    PromptExtends(s, steps, StartCall(1), delay);
    steps := steps + [StartCall(1)];
    PromptExtends(s, steps, Tick(gap + delay), delay);
    steps := steps + [Tick(gap + delay)];
    PromptExtends(s, steps, LookUp(1, key), delay);
    steps := steps + [LookUp(1, key)];
  }

  /** Every use in every run with such lookups relies on an answer younger than one TTL. */
  ghost predicate AlwaysFreshAtUse(ttl: real, max: nat, d: real) {
    forall now, steps, j ::
      Legal(Initial(ttl, max, now), steps) && Prompt(Initial(ttl, max, now), steps, d)
      && 0 <= j < |Exec(Initial(ttl, max, now), steps).log| && Exec(Initial(ttl, max, now), steps).log[j].Used? ==>
        YoungerThan(Exec(Initial(ttl, max, now), steps).log, j, ttl)
  }

  /** Answers are fresh at their use in all such runs exactly when every lookup comes as its call begins. */
  lemma FreshAtUseIffNoDelay(ttl: real, max: nat, d: real, key: PolicyKey)
    requires ttl > 0.0 && max >= 1 && d >= 0.0
    ensures AlwaysFreshAtUse(ttl, max, d) <==> d == 0.0
  {
    if d == 0.0 {
      forall now, steps, j | Legal(Initial(ttl, max, now), steps) && Prompt(Initial(ttl, max, now), steps, d)
        && 0 <= j < |Exec(Initial(ttl, max, now), steps).log| && Exec(Initial(ttl, max, now), steps).log[j].Used?
        ensures YoungerThan(Exec(Initial(ttl, max, now), steps).log, j, ttl)
      {
        AgesAreBounded(ttl, max, now, steps, d, j);
      }
    } else {
      var steps := AgesReachTheBound(ttl, max, key, if d <= ttl then ttl - d else 0.0, d);
      assert !YoungerThan(Exec(Initial(ttl, max, 0.0), steps).log, 2, ttl);
    }
  }

  /*** Transparency ***/

  /** Every reply of the run is the one fixed answer to its question. */
  predicate Honest(s: System, steps: seq<Step>, base: PolicyKey -> Answer)
    requires Legal(s, steps)
    decreases |steps|
  {
    steps == [] ||
    (var step := steps[0];
     (step.Reply? ==> step.answer == base(s.calls[step.call].asking.value))
     && Honest(Apply(s, step), steps[1..], base))
  }

  ghost predicate Agree(s: System, base: PolicyKey -> Answer) {
    && (forall e :: e in s.data ==> e.answer == base(e.key))
    && (forall j :: 0 <= j < |s.log| ==> s.log[j].answer == base(s.log[j].key))
  }

  /** Under a constant policy no interleaving, expiry or eviction makes a call rely on another answer. */
  lemma {:induction false} SharingIsTransparent(s: System, steps: seq<Step>, base: PolicyKey -> Answer)
    requires Legal(s, steps) && Honest(s, steps, base) && Agree(s, base)
    ensures Agree(Exec(s, steps), base)
    decreases |steps|
  {
    if steps != [] {
      var step := steps[0];
      if step.LookUp? {
        GetKeepsEntries(s.data, step.key, s.calls[step.call].start);
        LookupFinds(s.data, step.key);
      } else if step.Reply? {
        var start, key := s.calls[step.call].start, s.calls[step.call].asking.value;
        var stored := Remove(s.data, key) + [Entry(key, start + s.ttl, step.answer)];
        assert forall e :: e in Evict(stored, s.max) ==> e in stored;
      }
      SharingIsTransparent(Apply(s, step), steps[1..], base);
    }
  }
}
