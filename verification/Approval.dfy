/** Approval requests: who may approve, and the life of a persisted request under atomic calls. */
module Approval {
  import opened Basics

  /*** Authority resolution ***/

  datatype RiskLevel = Low | Medium | High | Critical

  /** One policy condition: a field name and, when the value is a list, that list. */
  datatype Condition = Condition(field: string, value: Option<seq<string>>)

  /** A tool rule: whether reading it raises, and whether its pattern matches the tool at hand. */
  datatype Rule = Rule(raises: bool, matches: bool, conditions: seq<Condition>)

  /** The enabled tool rules, or nothing without a database or when the query raises. */
  type Lookup = Option<seq<Rule>>

  type Authorities = map<RiskLevel, seq<string>>

  const DEFAULT_AUTHORITIES: Authorities :=
    map[Low := ["admin:ops"],
        Medium := ["admin:ops", "admin:security"],
        High := ["admin:security", "admin:lead"],
        Critical := ["admin:security", "admin:ciso"]]

  predicate Names(c: Condition) {
    c.field == "approval_authorities" && c.value.Some? && c.value.value != []
  }

  /** The first non-empty authority list of a matching rule, in rule and condition order. */
  function FirstNamed(conditions: seq<Condition>): seq<string> {
    if conditions == [] then []
    else if Names(conditions[0]) then conditions[0].value.value
    else FirstNamed(conditions[1..])
  }

  /** A rule that raises ends the search, with nobody named. */
  function NamedByRules(rules: seq<Rule>): seq<string> {
    if rules == [] || rules[0].raises then []
    else if rules[0].matches && FirstNamed(rules[0].conditions) != [] then FirstNamed(rules[0].conditions)
    else NamedByRules(rules[1..])
  }

  function PolicyApprovers(lookup: Lookup): seq<string> {
    if lookup.None? then [] else NamedByRules(lookup.value)
  }

  /** Condition `j` of rule `i` gives this list of approval authorities. */
  ghost predicate Gives(rules: seq<Rule>, i: int, j: int, named: seq<string>) {
    && 0 <= i < |rules| && 0 <= j < |rules[i].conditions|
    && rules[i].matches
    && rules[i].conditions[j] == Condition("approval_authorities", Some(named)) && named != []
  }

  /** It is the first condition, in rule and condition order, to give one, and no rule up to `i` raises. */
  ghost predicate DecidesRule(rules: seq<Rule>, i: int, j: int, named: seq<string>) {
    && Gives(rules, i, j, named)
    && (forall k :: 0 <= k <= i ==> !rules[k].raises)
    && (forall k, l, other :: Gives(rules, k, l, other) ==> i < k || (i == k && j <= l))
  }

  lemma {:induction false} FirstNamedAt(conditions: seq<Condition>)
    ensures FirstNamed(conditions) == [] ==> forall j :: 0 <= j < |conditions| ==> !Names(conditions[j])
    ensures FirstNamed(conditions) != [] ==>
      exists j :: 0 <= j < |conditions| && Names(conditions[j]) && conditions[j].value.value == FirstNamed(conditions)
        && forall l :: 0 <= l < j ==> !Names(conditions[l])
  {
    if conditions != [] && !Names(conditions[0]) {
      FirstNamedAt(conditions[1..]);
      assert forall j :: 0 < j < |conditions| ==> conditions[j] == conditions[1..][j - 1];
      if FirstNamed(conditions) != [] {
        var j :| 0 <= j < |conditions[1..]| && Names(conditions[1..][j])
          && conditions[1..][j].value.value == FirstNamed(conditions[1..])
          && forall l :: 0 <= l < j ==> !Names(conditions[1..][l]);
        assert conditions[j + 1] == conditions[1..][j];
      }
    }
  }

  lemma GivesShifts(rules: seq<Rule>, i: int, j: int, named: seq<string>)
    requires rules != []
    ensures i >= 0 ==> (Gives(rules, i + 1, j, named) <==> Gives(rules[1..], i, j, named))
  {}

  lemma DecidesShifts(rules: seq<Rule>, i: int, j: int, named: seq<string>)
    requires rules != [] && !rules[0].raises && forall l, other :: !Gives(rules, 0, l, other)
    ensures i >= 0 ==> (DecidesRule(rules, i + 1, j, named) <==> DecidesRule(rules[1..], i, j, named))
  {
    if i >= 0 {
      forall k, l, other | k >= 0 ensures Gives(rules, k + 1, l, other) <==> Gives(rules[1..], k, l, other) {
        GivesShifts(rules, k, l, other);
      }
      assert forall k, l, other :: Gives(rules, k, l, other) ==> k > 0 && Gives(rules[1..], k - 1, l, other);
      assert forall k :: 0 <= k < |rules| - 1 ==> rules[1..][k] == rules[k + 1];
    }
  }

  /** The search finds what the deciding condition gives, and nothing if there is none. */
  lemma {:induction false} FirstRuleDecides(rules: seq<Rule>)
    ensures NamedByRules(rules) != [] ==> exists i, j :: DecidesRule(rules, i, j, NamedByRules(rules))
    ensures NamedByRules(rules) == [] ==> forall i, j, named :: !DecidesRule(rules, i, j, named)
  {
    if rules != [] && !rules[0].raises {
      FirstNamedAt(rules[0].conditions);
      if rules[0].matches && FirstNamed(rules[0].conditions) != [] {
        var conditions := rules[0].conditions;
        var j :| 0 <= j < |conditions| && Names(conditions[j]) && conditions[j].value.value == FirstNamed(conditions)
          && forall l :: 0 <= l < j ==> !Names(conditions[l]);
        assert Gives(rules, 0, j, FirstNamed(conditions));
        assert DecidesRule(rules, 0, j, FirstNamed(conditions));
      } else {
        assert forall l, other :: !Gives(rules, 0, l, other);
        FirstRuleDecides(rules[1..]);
        if NamedByRules(rules) != [] {
          var i, j :| DecidesRule(rules[1..], i, j, NamedByRules(rules));
          DecidesShifts(rules, i, j, NamedByRules(rules));
        } else {
          forall i, j, named ensures !DecidesRule(rules, i, j, named) {
            DecidesShifts(rules, i - 1, j, named);
          }
        }
      }
    }
  }

  method ResolveFromPolicy(lookup: Lookup) returns (r: seq<string>)
    ensures r == PolicyApprovers(lookup)
    ensures r != [] ==> lookup.Some? && exists i, j :: DecidesRule(lookup.value, i, j, r)
    ensures r == [] && lookup.Some? ==> forall i, j, named :: !DecidesRule(lookup.value, i, j, named)
  {
    if lookup.None? {
      return [];
    }
    FirstRuleDecides(lookup.value);
    var rules := lookup.value;
    var i := 0;
    while i < |rules|
      invariant 0 <= i <= |rules|
      invariant NamedByRules(rules[i..]) == NamedByRules(rules)
    {
      assert rules[i..][1..] == rules[i + 1..];
      if rules[i].raises {
        return [];
      }
      if rules[i].matches {
        var conditions := rules[i].conditions;
        var j := 0;
        while j < |conditions|
          invariant 0 <= j <= |conditions|
          invariant FirstNamed(conditions[j..]) == FirstNamed(conditions)
        {
          assert conditions[j..][1..] == conditions[j + 1..];
          if conditions[j].field == "approval_authorities" && conditions[j].value.Some? && conditions[j].value.value != [] {
            return conditions[j].value.value;
          }
          j := j + 1;
        }
      }
      i := i + 1;
    }
    r := [];
  }

  function Effective(overrides: Authorities): Authorities {
    if overrides == map[] then DEFAULT_AUTHORITIES else overrides
  }

  /** The list before the requester is removed: policy, then risk defaults, then the administrators. */
  function Unfiltered(lookup: Lookup, overrides: Authorities, risk: RiskLevel): (r: seq<string>)
    ensures r != []
  {
    var fromPolicy, authorities := PolicyApprovers(lookup), Effective(overrides);
    if fromPolicy != [] then fromPolicy
    else if risk in authorities && authorities[risk] != [] then authorities[risk]
    else ["admin:ops", "admin:security"]
  }

  function Without(s: seq<string>, who: string): (r: seq<string>)
    ensures forall x :: x in r <==> x in s && x != who
  {
    if s == [] then []
    else if s[0] == who then Without(s[1..], who)
    else [s[0]] + Without(s[1..], who)
  }

  /** Everybody on the list but this one. */
  ghost function Others(list: seq<string>, who: string): set<string> {
    set x | x in list && x != who
  }

  function Resolved(lookup: Lookup, overrides: Authorities, risk: RiskLevel, requester: string): seq<string> {
    var others := Without(Unfiltered(lookup, overrides, risk), requester);
    if others == [] then ["admin:security"] else others
  }

  /** The requester is `admin:security`, and nobody else would be asked. */
  predicate OnlySecurityAsks(lookup: Lookup, overrides: Authorities, risk: RiskLevel, requester: string) {
    requester == "admin:security" && forall x :: x in Unfiltered(lookup, overrides, risk) ==> x == requester
  }

  /**
   The resolver never returns an empty list. Its documentation says the requester is always
   excluded; the requester is in fact included exactly when it is `admin:security` and the
   unfiltered list names nobody else, and then it is the only approver.
   */
  method Resolve(lookup: Lookup, overrides: Authorities, risk: RiskLevel, requester: string)
    returns (approvers: seq<string>)
    ensures approvers == Resolved(lookup, overrides, risk, requester) && approvers != []
    ensures requester in approvers <==> OnlySecurityAsks(lookup, overrides, risk, requester)
    ensures requester in approvers ==> approvers == [requester]
    // Policy first, then the table for the risk level, then the administrators; always without the requester.
    ensures var table, named := if overrides == map[] then DEFAULT_AUTHORITIES else overrides, PolicyApprovers(lookup);
      && (Others(named, requester) != {} ==> Others(approvers, requester) == Others(named, requester))
      && (named == [] && risk in table && Others(table[risk], requester) != {} ==>
            Others(approvers, requester) == Others(table[risk], requester))
      && (named == [] && (risk in table ==> table[risk] == []) ==>
            Others(approvers, requester) == {"admin:ops", "admin:security"} - {requester})
      && ((named != [] && Others(named, requester) == {})
          || (named == [] && risk in table && table[risk] != [] && Others(table[risk], requester) == {}) ==>
            approvers == ["admin:security"])
  {
    var authorities := if overrides == map[] then DEFAULT_AUTHORITIES else overrides;
    approvers := ResolveFromPolicy(lookup);
    if approvers == [] {
      approvers := if risk in authorities then authorities[risk] else [];
    }
    if approvers == [] {
      approvers := ["admin:ops", "admin:security"];
    }
    ghost var full := approvers;
    assert full == Unfiltered(lookup, overrides, risk) && full[0] in full;
    approvers := Without(approvers, requester);
    if approvers == [] {
      assert forall x :: x in full ==> x == requester;
      approvers := ["admin:security"];
    } else {
      assert approvers[0] in Without(full, requester) && approvers[0] in Others(full, requester);
    }
  }

  /*** Persisted requests ***/

  datatype Status = Pending | Approved | Rejected | Expired

  datatype Request = Request(
    status: Status,
    requestedBy: string,
    assignedTo: seq<string>,
    expiresAt: Option<int>,
    decidedBy: Option<string>,
    decidedAt: Option<int>,
    reason: string)

  type Requests = map<string, Request>

  datatype DecideError = NotFound | NotPending | SelfApproval | NotAssigned | PastDeadline

  predicate Overdue(r: Request, now: int) {
    r.expiresAt.Some? && r.expiresAt.value <= now
  }

  function Decide(rows: Requests, id: string, approver: string, reason: string, verdict: Status, now: int)
    : Result<Request, DecideError>
  {
    if id !in rows then Err(NotFound)
    else if !rows[id].status.Pending? then Err(NotPending)
    else if approver == rows[id].requestedBy then Err(SelfApproval)
    else if approver !in rows[id].assignedTo then Err(NotAssigned)
    else if Overdue(rows[id], now) then Err(PastDeadline)
    else Ok(rows[id].(status := verdict, decidedBy := Some(approver), decidedAt := Some(now), reason := reason))
  }

  function ExpireAll(rows: Requests, now: int): Requests {
    map id | id in rows ::
      if rows[id].status.Pending? && Overdue(rows[id], now) then rows[id].(status := Expired) else rows[id]
  }

  class ApprovalService {
    var rows: Requests

    constructor ()
      ensures rows == map[]
    {
      rows := map[];
    }

    /** Creating a request fails without a description, without approvers, or on a taken id. */
    method RequestApproval(id: string, description: string, actor: string, assignedTo: seq<string>, expiresAt: Option<int>)
      returns (ok: bool)
      modifies this
      ensures ok <==> description != "" && assignedTo != [] && id !in old(rows)
      ensures rows == if ok
        then old(rows)[id := Request(Pending, actor, assignedTo, expiresAt, None, None, "")] else old(rows)
    {
      if description == "" || assignedTo == [] || id in rows {
        return false;
      }
      rows := rows[id := Request(Pending, actor, assignedTo, expiresAt, None, None, "")];
      ok := true;
    }

    /** A late decision writes EXPIRED and then raises, so the transaction leaves no trace. */
    method DecideRequest(id: string, approver: string, reason: string, verdict: Status, now: int)
      returns (r: Result<Request, DecideError>)
      modifies this
      ensures r == Decide(old(rows), id, approver, reason, verdict, now)
      ensures id !in old(rows) <==> r == Err(NotFound)
      ensures id in old(rows) ==>
        var row := old(rows)[id];
        r == if row.status != Pending then Err(NotPending)
          else if row.requestedBy == approver then Err(SelfApproval)
          else if approver !in row.assignedTo then Err(NotAssigned)
          else if row.expiresAt.Some? && now >= row.expiresAt.value then Err(PastDeadline)
          else Ok(Request(verdict, row.requestedBy, row.assignedTo, row.expiresAt, Some(approver), Some(now), reason))
      ensures rows == if r.Ok? then old(rows)[id := r.value] else old(rows)
    {
      var savepoint := rows;
      if id !in rows {
        return Err(NotFound);
      }
      var row := rows[id];
      if row.status != Pending {
        return Err(NotPending);
      }
      if approver == row.requestedBy {
        return Err(SelfApproval);
      }
      if approver !in row.assignedTo {
        return Err(NotAssigned);
      }
      if row.expiresAt.Some? && row.expiresAt.value <= now {
        rows := rows[id := row.(status := Expired)];
        rows := savepoint;
        return Err(PastDeadline);
      }
      row := row.(status := verdict, decidedBy := Some(approver), decidedAt := Some(now), reason := reason);
      rows := rows[id := row];
      r := Ok(row);
    }

    method ExpireStale(now: int) returns (count: nat)
      modifies this
      ensures rows == ExpireAll(old(rows), now)
      ensures rows.Keys == old(rows).Keys
      ensures forall id :: id in rows ==>
        var row := old(rows)[id];
        rows[id] == if row.status == Pending && row.expiresAt.Some? && now >= row.expiresAt.value
          then row.(status := Expired) else row
      ensures count == |set id | id in old(rows) && old(rows)[id].status.Pending? && Overdue(old(rows)[id], now)|
    {
      var stale := set id | id in rows && rows[id].status.Pending? && rows[id].expiresAt.Some? && rows[id].expiresAt.value <= now;
      ghost var all := stale;
      assert all == set id | id in rows && rows[id].status.Pending? && Overdue(rows[id], now);
      count := 0;
      while stale != {}
        invariant stale <= all && count == |all| - |stale|
        invariant rows.Keys == old(rows).Keys && all <= rows.Keys
        invariant forall id :: id in rows ==>
          rows[id] == if id in all && id !in stale then old(rows)[id].(status := Expired) else old(rows)[id]
        decreases |stale|
      {
        var id :| id in stale;
        rows := rows[id := rows[id].(status := Expired)];
        stale := stale - {id};
        count := count + 1;
      }
      forall id | id in rows ensures rows[id] == ExpireAll(old(rows), now)[id] {
        assert id in all <==> old(rows)[id].status.Pending? && Overdue(old(rows)[id], now);
      }
    }
  }

  /*** Runs of atomic calls ***/

  datatype Call =
    | Ask(id: string, actor: string, assignedTo: seq<string>, expiresAt: Option<int>)
    | Answer(id: string, approver: string, reason: string, approve: bool, now: int)
    | SweepExpired(now: int)

  function Do(rows: Requests, call: Call): Requests {
    match call
    case Ask(id, actor, assignedTo, expiresAt) =>
      if assignedTo == [] || id in rows then rows
      else rows[id := Request(Pending, actor, assignedTo, expiresAt, None, None, "")]
    case Answer(id, approver, reason, approve, now) =>
      var r := Decide(rows, id, approver, reason, if approve then Approved else Rejected, now);
      if r.Ok? then rows[id := r.value] else rows
    case SweepExpired(now) => ExpireAll(rows, now)
  }

  function Run(rows: Requests, calls: seq<Call>): Requests
    decreases |calls|
  {
    if calls == [] then rows else Run(Do(rows, calls[0]), calls[1..])
  }

  /** What a decided, expired or open row must look like. */
  ghost predicate RowOk(r: Request) {
    && (r.status.Approved? || r.status.Rejected? ==>
          && r.decidedBy.Some? && r.decidedAt.Some?
          && r.decidedBy.value in r.assignedTo
          && r.decidedBy.value != r.requestedBy
          && (r.expiresAt.Some? ==> r.decidedAt.value < r.expiresAt.value))
    && (r.status.Pending? || r.status.Expired? ==> r.decidedBy == None)
    && r.assignedTo != []
  }

  ghost predicate AllOk(rows: Requests) {
    forall id :: id in rows ==> RowOk(rows[id])
  }

  /** Every decision in every run was made by an assigned approver other than the requester, in time. */
  lemma {:induction false} DecisionsAreAuthorised(rows: Requests, calls: seq<Call>)
    requires AllOk(rows)
    ensures AllOk(Run(rows, calls))
    decreases |calls|
  {
    if calls != [] {
      DecisionsAreAuthorised(Do(rows, calls[0]), calls[1..]);
    }
  }

  /** A request leaves PENDING at most once: from then on no run changes its row at all. */
  lemma {:induction false} LeavesPendingAtMostOnce(rows: Requests, calls: seq<Call>, id: string)
    requires id in rows && !rows[id].status.Pending?
    ensures id in Run(rows, calls) && Run(rows, calls)[id] == rows[id]
    decreases |calls|
  {
    if calls != [] {
      LeavesPendingAtMostOnce(Do(rows, calls[0]), calls[1..], id);
    }
  }

  /** An answer that is accepted leaves APPROVED or REJECTED as asked, with its approver, instant and reason. */
  lemma AnswerIsRecorded(rows: Requests, id: string, approver: string, reason: string, approve: bool, now: int)
    ensures var after := Do(rows, Answer(id, approver, reason, approve, now));
      if id in rows && rows[id].status == Pending && approver != rows[id].requestedBy && approver in rows[id].assignedTo
         && (rows[id].expiresAt.Some? ==> now < rows[id].expiresAt.value) then
        && after.Keys == rows.Keys && (forall k :: k in rows && k != id ==> after[k] == rows[k])
        && after[id] == Request(if approve then Approved else Rejected, rows[id].requestedBy, rows[id].assignedTo,
                                rows[id].expiresAt, Some(approver), Some(now), reason)
      else after == rows
  {}

  /** A request can be decided at `now` by somebody. */
  ghost predicate Decidable(r: Request, now: int) {
    r.status.Pending? && (r.expiresAt.Some? ==> now < r.expiresAt.value) && exists a :: a in r.assignedTo && a != r.requestedBy
  }

  /** The call succeeds for some approver exactly when the request is decidable. */
  lemma DecidableIffSomeoneSucceeds(rows: Requests, id: string, reason: string, verdict: Status, now: int)
    requires id in rows
    ensures Decidable(rows[id], now) <==> exists a :: Decide(rows, id, a, reason, verdict, now).Ok?
  {
    if Decidable(rows[id], now) {
      var a :| a in rows[id].assignedTo && a != rows[id].requestedBy;
      assert Decide(rows, id, a, reason, verdict, now).Ok?;
    }
  }

  /** A request assigned to nobody but its own requester is never approved or rejected in any run. */
  lemma {:induction false} SelfAssignedIsUndecidable(rows: Requests, calls: seq<Call>, id: string)
    requires id in rows && (rows[id].status.Pending? || rows[id].status.Expired?)
    requires forall a :: a in rows[id].assignedTo ==> a == rows[id].requestedBy
    ensures id in Run(rows, calls)
    ensures Run(rows, calls)[id].status.Pending? || Run(rows, calls)[id].status.Expired?
    decreases |calls|
  {
    if calls != [] {
      SelfAssignedIsUndecidable(Do(rows, calls[0]), calls[1..], id);
    }
  }

  /*** Requests whose approvers the resolver chose ***/

  lemma RequesterResolvedIff(lookup: Lookup, overrides: Authorities, risk: RiskLevel, requester: string)
    ensures var r := Resolved(lookup, overrides, risk, requester);
      && r != []
      && (requester in r <==> OnlySecurityAsks(lookup, overrides, risk, requester))
      && (OnlySecurityAsks(lookup, overrides, risk, requester) ==> r == [requester])
  {
    var full, others := Unfiltered(lookup, overrides, risk), Without(Unfiltered(lookup, overrides, risk), requester);
    assert full[0] in full;
    if others != [] {
      assert others[0] in others;
    }
  }

  /**
   A new request assigned by the resolver: it is decidable, at any instant before its deadline, exactly
   when not both the requester is `admin:security` and the unfiltered list names nobody else; and in
   that case no run ever approves or rejects it.
   */
  lemma ResolvedRequestsAreDecidableIff(
    rows: Requests, id: string, lookup: Lookup, overrides: Authorities, risk: RiskLevel, requester: string,
    expiresAt: Option<int>, now: int, calls: seq<Call>)
    requires id !in rows
    ensures var asked := Do(rows, Ask(id, requester, Resolved(lookup, overrides, risk, requester), expiresAt));
      && id in asked
      && (Decidable(asked[id], now) <==>
            !(expiresAt.Some? && expiresAt.value <= now) && !OnlySecurityAsks(lookup, overrides, risk, requester))
      && (OnlySecurityAsks(lookup, overrides, risk, requester) ==>
            id in Run(asked, calls) && (Run(asked, calls)[id].status.Pending? || Run(asked, calls)[id].status.Expired?))
  {
    RequesterResolvedIff(lookup, overrides, risk, requester);
    var approvers := Resolved(lookup, overrides, risk, requester);
    var asked := Do(rows, Ask(id, requester, approvers, expiresAt));
    assert approvers[0] in asked[id].assignedTo;
    if OnlySecurityAsks(lookup, overrides, risk, requester) {
      SelfAssignedIsUndecidable(asked, calls, id);
    }
  }

  /** Without policy and overrides, a requester outside the table is answered by the defaults of the risk level. */
  lemma DefaultsByRisk(risk: RiskLevel, requester: string)
    requires requester !in {"admin:ops", "admin:security", "admin:lead", "admin:ciso"}
    ensures Resolved(None, map[], risk, requester) ==
      match risk
      case Low => ["admin:ops"]
      case Medium => ["admin:ops", "admin:security"]
      case High => ["admin:security", "admin:lead"]
      case Critical => ["admin:security", "admin:ciso"]
  {
    var full := Unfiltered(None, map[], risk);
    WithoutAbsent(full, requester);
  }

  lemma {:induction false} WithoutAbsent(s: seq<string>, who: string)
    requires who !in s
    ensures Without(s, who) == s
  {
    if s != [] {
      WithoutAbsent(s[1..], who);
    }
  }

  /** With an override that names `admin:security` alone, its own request is assigned to itself. */
  lemma SecurityIsAssignedItsOwnRequest()
    ensures var overrides: Authorities := map[Critical := ["admin:security"]];
      Resolved(None, overrides, Critical, "admin:security") == ["admin:security"]
  {
    var overrides: Authorities := map[Critical := ["admin:security"]];
    assert overrides != map[] by {
      assert Critical in overrides;
    }
    assert Unfiltered(None, overrides, Critical) == ["admin:security"];
    RequesterResolvedIff(None, overrides, Critical, "admin:security");
  }
}
