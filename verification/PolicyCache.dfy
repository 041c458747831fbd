/** The TTL- and LRU-bounded cache of policy answers. */
module PolicyCache {
  import opened Basics

  datatype Answer = Allow | Deny

  /** The hashed fields of a routing policy question; the hash is taken to be injective. */
  datatype PolicyKey = PolicyKey(
    provider: string, model: string, capability: string, actor: string, scopeType: string, scopeId: string)

  datatype Entry = Entry(key: PolicyKey, expiresAt: real, answer: Answer)

  /** An ordered dictionary, least recently used entry first. */
  type Data = seq<Entry>

  ghost predicate DistinctKeys(d: Data) {
    forall i, j :: 0 <= i < j < |d| ==> d[i].key != d[j].key
  }

  function Lookup(d: Data, key: PolicyKey): Option<Entry> {
    if d == [] then None else if d[0].key == key then Some(d[0]) else Lookup(d[1..], key)
  }

  function Remove(d: Data, key: PolicyKey): (r: Data)
    ensures |r| <= |d|
    ensures forall e :: e in r <==> e in d && e.key != key
  {
    if d == [] then []
    else if d[0].key == key then Remove(d[1..], key)
    else [d[0]] + Remove(d[1..], key)
  }

  function GetData(d: Data, key: PolicyKey, now: real): Data {
    match Lookup(d, key)
    case None => d
    case Some(e) => if e.expiresAt <= now then Remove(d, key) else Remove(d, key) + [e]
  }

  function GetAnswer(d: Data, key: PolicyKey, now: real): Option<Answer> {
    match Lookup(d, key)
    case None => None
    case Some(e) => if e.expiresAt <= now then None else Some(e.answer)
  }

  function Evict(d: Data, max: nat): Data {
    if |d| > max then d[|d| - max..] else d
  }

  function SetData(d: Data, ttl: real, max: nat, key: PolicyKey, answer: Answer, now: real): Data {
    Evict(Remove(d, key) + [Entry(key, now + ttl, answer)], max)
  }

  lemma {:induction false} LookupFinds(d: Data, key: PolicyKey)
    ensures Lookup(d, key).Some? ==> Lookup(d, key).value in d && Lookup(d, key).value.key == key
    ensures Lookup(d, key).None? ==> forall e :: e in d ==> e.key != key
  {
    if d != [] {
      LookupFinds(d[1..], key);
    }
  }

  lemma {:induction false} RemoveAbsent(d: Data, key: PolicyKey)
    requires forall e :: e in d ==> e.key != key
    ensures Remove(d, key) == d
  {
    if d != [] {
      RemoveAbsent(d[1..], key);
    }
  }

  lemma {:induction false} RemoveKeepsDistinct(d: Data, key: PolicyKey)
    requires DistinctKeys(d)
    ensures DistinctKeys(Remove(d, key))
    ensures Lookup(d, key).Some? ==> |Remove(d, key)| == |d| - 1
  {
    if d != [] {
      assert DistinctKeys(d[1..]);
      RemoveKeepsDistinct(d[1..], key);
      if d[0].key == key {
        assert forall e :: e in d[1..] ==> e.key != key;
        RemoveAbsent(d[1..], key);
      } else {
        var rest := Remove(d[1..], key);
        forall i | 0 <= i < |rest| ensures rest[i].key != d[0].key {
          assert rest[i] in d[1..];
        }
      }
    }
  }

  /** Looking a key up neither adds an entry nor lengthens the cache. */
  lemma GetKeepsEntries(d: Data, key: PolicyKey, now: real)
    ensures forall e :: e in GetData(d, key, now) ==> e in d
    ensures |GetData(d, key, now)| <= |d|
  {
    LookupFinds(d, key);
    if Lookup(d, key).Some? {
      RemoveShortens(d, key);
    }
  }

  lemma {:induction false} RemoveShortens(d: Data, key: PolicyKey)
    requires Lookup(d, key).Some?
    ensures |Remove(d, key)| < |d|
  {
    if d[0].key != key {
      RemoveShortens(d[1..], key);
    }
  }

  lemma {:induction false} LookupIsUnique(d: Data, e: Entry)
    requires DistinctKeys(d) && e in d
    ensures Lookup(d, e.key) == Some(e)
  {
    if d[0] != e {
      var i :| 0 < i < |d| && d[i] == e;
      assert d[1..][i - 1] == e && DistinctKeys(d[1..]);
      LookupIsUnique(d[1..], e);
    }
  }

  /** A lookup, read off the entries: an expired entry of the key goes, every other entry stays. */
  lemma GetByEntries(d: Data, key: PolicyKey, now: real)
    requires DistinctKeys(d)
    ensures forall e :: e in GetData(d, key, now) <==> e in d && (e.key != key || now < e.expiresAt)
    ensures forall e :: e in d && e.key == key ==> GetAnswer(d, key, now) == if now < e.expiresAt then Some(e.answer) else None
    ensures (forall e :: e in d ==> e.key != key) ==> GetAnswer(d, key, now) == None
  {
    LookupFinds(d, key);
    forall e | e in d && e.key == key ensures Lookup(d, key) == Some(e) {
      LookupIsUnique(d, e);
    }
  }

  /** A store, read off the entries: which of them are evicted. */
  lemma SetByEntries(d: Data, ttl: real, max: nat, key: PolicyKey, answer: Answer, now: real)
    requires DistinctKeys(d) && |d| <= max && max >= 1
    ensures var t := SetData(d, ttl, max, key, answer, now);
      && t != [] && t[|t| - 1] == Entry(key, now + ttl, answer)
      && (forall e :: e in t && e.key != key ==> e in d)
      && (forall e :: e in d && e.key != key ==>
            (e !in t <==> |d| == max && e == d[0] && forall x :: x in d ==> x.key != key))
  {
    var kept, last := Remove(d, key), Entry(key, now + ttl, answer);
    var stored := kept + [last];
    RemoveKeepsDistinct(d, key);
    LookupFinds(d, key);
    if Lookup(d, key).Some? || |d| < max {
      assert Evict(stored, max) == stored;
      assert forall e :: e in kept ==> e in stored;
    } else {
      RemoveAbsent(d, key);
      assert kept == d && Evict(stored, max) == d[1..] + [last];
      assert forall e :: e in d ==> e == d[0] || e in d[1..];
      assert forall e :: e in d[1..] ==> e != d[0];
    }
  }

  /** An answer that was set is found until its lifetime ends, if nothing else happens to the cache. */
  lemma SetThenGet(d: Data, ttl: real, max: nat, key: PolicyKey, answer: Answer, now: real, at: real)
    requires DistinctKeys(d) && |d| <= max && max >= 1
    ensures GetAnswer(SetData(d, ttl, max, key, answer, now), key, at) == if at < now + ttl then Some(answer) else None
  {
    var t := SetData(d, ttl, max, key, answer, now);
    SetByEntries(d, ttl, max, key, answer, now);
    SetKeepsDistinct(d, ttl, max, key, answer, now);
    GetByEntries(t, key, at);
    assert t[|t| - 1] in t;
  }

  lemma SetKeepsDistinct(d: Data, ttl: real, max: nat, key: PolicyKey, answer: Answer, now: real)
    requires DistinctKeys(d)
    ensures DistinctKeys(SetData(d, ttl, max, key, answer, now))
  {
    RemoveKeepsDistinct(d, key);
    var stored := Remove(d, key) + [Entry(key, now + ttl, answer)];
    forall i | 0 <= i < |Remove(d, key)| ensures stored[i].key != key {
      assert Remove(d, key)[i] in Remove(d, key);
    }
  }

  class BoundedPolicyCache {
    const ttl: real
    const max: nat
    var data: Data

    ghost predicate Valid()
      reads this
    {
      max >= 1 && |data| <= max && DistinctKeys(data)
    }

    constructor (ttl: real, maxEntries: int)
      ensures Valid() && data == [] && this.ttl == ttl && max == if maxEntries < 1 then 1 else maxEntries
    {
      this.ttl := ttl;
      max := if maxEntries < 1 then 1 else maxEntries;
      data := [];
    }

    method Get(key: PolicyKey, now: real) returns (r: Option<Answer>)
      requires Valid()
      modifies this
      ensures Valid()
      ensures data == GetData(old(data), key, now) && r == GetAnswer(old(data), key, now)
      ensures forall e :: e in data <==> e in old(data) && (e.key != key || now < e.expiresAt)
      ensures forall e :: e in old(data) && e.key == key ==> r == if now < e.expiresAt then Some(e.answer) else None
      ensures (forall e :: e in old(data) ==> e.key != key) ==> r == None
      ensures r.Some? ==> data[|data| - 1].key == key
    {
      GetByEntries(data, key, now);
      RemoveKeepsDistinct(data, key);
      LookupFinds(data, key);
      var item := Lookup(data, key);
      if item.None? {
        return None;
      }
      if item.value.expiresAt <= now {
        data := Remove(data, key);
        return None;
      }
      data := Remove(data, key) + [item.value];
      r := Some(item.value.answer);
    }

    method Set(key: PolicyKey, answer: Answer, now: real)
      requires Valid()
      modifies this
      ensures Valid()
      ensures data == SetData(old(data), ttl, max, key, answer, now)
      ensures data[|data| - 1] == Entry(key, now + ttl, answer)
      // Only a full cache without the key loses an entry, and then the one used longest ago.
      ensures forall e :: e in data && e.key != key ==> e in old(data)
      ensures forall e :: e in old(data) && e.key != key ==>
        (e !in data <==> |old(data)| == max && e == old(data)[0] && forall x :: x in old(data) ==> x.key != key)
    {
      SetByEntries(data, ttl, max, key, answer, now);
      RemoveKeepsDistinct(data, key);
      data := Remove(data, key) + [Entry(key, now + ttl, answer)];
      ghost var full := data;
      while |data| > max
        invariant |full| - |data| >= 0 && data == full[|full| - |data|..]
        invariant if |full| > max then |data| >= max else |data| == |full|
        invariant DistinctKeys(data)
        decreases |data|
      {
        data := data[1..];
      }
    }
  }

  /*** The order of eviction, over any sequence of calls ***/

  datatype Call = Getting(key: PolicyKey, at: real) | Setting(key: PolicyKey, at: real, answer: Answer)

  function Run(ttl: real, max: nat, calls: seq<Call>): Data {
    if calls == [] then []
    else
      var d, c := Run(ttl, max, calls[..|calls| - 1]), calls[|calls| - 1];
      match c
      case Getting(key, at) => GetData(d, key, at)
      case Setting(key, at, answer) => SetData(d, ttl, max, key, answer, at)
  }

  /** Call `i` used the key: it set it, or it was a hit on it. */
  predicate Uses(ttl: real, max: nat, calls: seq<Call>, i: int, key: PolicyKey)
    requires 0 <= i < |calls|
  {
    && calls[i].key == key
    && (calls[i].Setting? || GetAnswer(Run(ttl, max, calls[..i]), key, calls[i].at).Some?)
  }

  function LastUse(ttl: real, max: nat, calls: seq<Call>, key: PolicyKey): int {
    if calls == [] then -1
    else if Uses(ttl, max, calls, |calls| - 1, key) then |calls| - 1
    else LastUse(ttl, max, calls[..|calls| - 1], key)
  }

  ghost predicate InUseOrder(ttl: real, max: nat, calls: seq<Call>, d: Data) {
    forall i, j :: 0 <= i < j < |d| ==>
      LastUse(ttl, max, calls, d[i].key) < LastUse(ttl, max, calls, d[j].key)
  }

  lemma {:induction false} RemoveKeepsUseOrder(ttl: real, max: nat, calls: seq<Call>, d: Data, key: PolicyKey)
    requires InUseOrder(ttl, max, calls, d)
    ensures InUseOrder(ttl, max, calls, Remove(d, key))
  {
    if d != [] {
      assert InUseOrder(ttl, max, calls, d[1..]);
      RemoveKeepsUseOrder(ttl, max, calls, d[1..], key);
      var rest := Remove(d[1..], key);
      forall i | 0 <= i < |rest| ensures LastUse(ttl, max, calls, d[0].key) < LastUse(ttl, max, calls, rest[i].key) {
        assert rest[i] in d[1..];
      }
    }
  }

  lemma {:induction false} LastUseIsInRange(ttl: real, max: nat, calls: seq<Call>, key: PolicyKey)
    ensures -1 <= LastUse(ttl, max, calls, key) < |calls|
  {
    if calls != [] {
      LastUseIsInRange(ttl, max, calls[..|calls| - 1], key);
    }
  }

  /** What a call keeps of the dictionary: everything but the entry of its own key, in order. */
  lemma KeptEntriesStayInOrder(ttl: real, max: nat, calls: seq<Call>, d: Data)
    requires calls != [] && d == Run(ttl, max, calls[..|calls| - 1])
    requires InUseOrder(ttl, max, calls[..|calls| - 1], d)
    ensures var kept := Remove(d, calls[|calls| - 1].key);
      && InUseOrder(ttl, max, calls, kept)
      && forall e :: e in kept ==> LastUse(ttl, max, calls, e.key) < |calls| - 1
  {
    var before, key := calls[..|calls| - 1], calls[|calls| - 1].key;
    RemoveKeepsUseOrder(ttl, max, before, d, key);
    var kept := Remove(d, key);
    forall e | e in kept ensures LastUse(ttl, max, calls, e.key) == LastUse(ttl, max, before, e.key) < |calls| - 1 {
      LastUseIsInRange(ttl, max, before, e.key);
    }
    forall i, j | 0 <= i < j < |kept|
      ensures LastUse(ttl, max, calls, kept[i].key) < LastUse(ttl, max, calls, kept[j].key)
    {
      assert kept[i] in kept && kept[j] in kept;
    }
  }

  lemma AppendUsed(ttl: real, max: nat, calls: seq<Call>, kept: Data, last: Entry)
    requires InUseOrder(ttl, max, calls, kept)
    requires forall e :: e in kept ==> LastUse(ttl, max, calls, e.key) < LastUse(ttl, max, calls, last.key)
    ensures InUseOrder(ttl, max, calls, kept + [last])
  {}

  lemma SettingKeepsUseOrder(ttl: real, max: nat, calls: seq<Call>, d: Data)
    requires calls != [] && calls[|calls| - 1].Setting? && d == Run(ttl, max, calls[..|calls| - 1])
    requires InUseOrder(ttl, max, calls[..|calls| - 1], d)
    ensures InUseOrder(ttl, max, calls, Run(ttl, max, calls))
  {
    var c := calls[|calls| - 1];
    var last := Entry(c.key, c.at + ttl, c.answer);
    KeptEntriesStayInOrder(ttl, max, calls, d);
    assert LastUse(ttl, max, calls, c.key) == |calls| - 1;
    AppendUsed(ttl, max, calls, Remove(d, c.key), last);
    SuffixKeepsUseOrder(ttl, max, calls, Remove(d, c.key) + [last]);
  }

  lemma SuffixKeepsUseOrder(ttl: real, max: nat, calls: seq<Call>, d: Data)
    requires InUseOrder(ttl, max, calls, d)
    ensures InUseOrder(ttl, max, calls, Evict(d, max))
  {}

  lemma GettingKeepsUseOrder(ttl: real, max: nat, calls: seq<Call>, d: Data)
    requires calls != [] && calls[|calls| - 1].Getting? && d == Run(ttl, max, calls[..|calls| - 1])
    requires InUseOrder(ttl, max, calls[..|calls| - 1], d)
    ensures InUseOrder(ttl, max, calls, Run(ttl, max, calls))
  {
    var c := calls[|calls| - 1];
    KeptEntriesStayInOrder(ttl, max, calls, d);
    LookupFinds(d, c.key);
    if Lookup(d, c.key).None? {
      RemoveAbsent(d, c.key);
    } else if GetAnswer(d, c.key, c.at).Some? {
      assert LastUse(ttl, max, calls, c.key) == |calls| - 1;
      AppendUsed(ttl, max, calls, Remove(d, c.key), Lookup(d, c.key).value);
    }
  }

  /** The cache holds its entries in the order of their last use, so eviction is least-recently-used. */
  lemma {:induction false} EntriesAreInUseOrder(ttl: real, max: nat, calls: seq<Call>)
    ensures InUseOrder(ttl, max, calls, Run(ttl, max, calls))
  {
    if calls != [] {
      var before := calls[..|calls| - 1];
      EntriesAreInUseOrder(ttl, max, before);
      if calls[|calls| - 1].Setting? {
        SettingKeepsUseOrder(ttl, max, calls, Run(ttl, max, before));
      } else {
        GettingKeepsUseOrder(ttl, max, calls, Run(ttl, max, before));
      }
    }
  }

  /** The cache never outgrows its bound and never holds a key twice. */
  lemma {:induction false} CacheIsBounded(ttl: real, max: nat, calls: seq<Call>)
    requires max >= 1
    ensures |Run(ttl, max, calls)| <= max && DistinctKeys(Run(ttl, max, calls))
  {
    if calls != [] {
      var d := Run(ttl, max, calls[..|calls| - 1]);
      CacheIsBounded(ttl, max, calls[..|calls| - 1]);
      RemoveKeepsDistinct(d, calls[|calls| - 1].key);
      LookupFinds(d, calls[|calls| - 1].key);
    }
  }
}
