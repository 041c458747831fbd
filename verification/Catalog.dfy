/** The model catalog: merging its sources, swapping snapshots, and its two secondary indexes. */
module Catalog {
  import opened Basics
  import opened Ordering

  datatype Capability = Chat | Embedding

  datatype EntryStatus = Active | Quarantined | Rejected

  datatype Source = YamlStatic | ModelsDev

  /** The priced and limited part of a model descriptor; `rest` stands for its other fields. */
  datatype Descriptor = Descriptor(inputPerMillion: real, outputPerMillion: real, contextWindow: int, rest: string)

  datatype Row = Row(
    provider: string, model: string, descriptor: Descriptor,
    capabilities: set<Capability>, status: EntryStatus, source: Source)

  datatype StaticRow = StaticRow(provider: string, model: string, capability: Capability, descriptor: Descriptor)

  type Entries = map<Key, Row>

  function KeyOf(r: Row): Key { (r.provider, r.model) }

  function StaticKey(r: StaticRow): Key { (r.provider, r.model) }

  ghost predicate WellKeyed(entries: Entries) {
    forall k :: k in entries ==> KeyOf(entries[k]) == k
  }

  /*** Merging static rows ***/

  ghost predicate Disagree(rows: seq<StaticRow>) {
    exists i, j :: 0 <= i < |rows| && 0 <= j < |rows| && StaticKey(rows[i]) == StaticKey(rows[j])
      && rows[i].descriptor != rows[j].descriptor
  }

  function Keys(rows: seq<StaticRow>): set<Key> {
    set r | r in rows :: StaticKey(r)
  }

  function Group(rows: seq<StaticRow>, k: Key): (g: seq<StaticRow>)
    ensures forall r :: r in g <==> r in rows && StaticKey(r) == k
  {
    if rows == [] then []
    else
      var before := Group(rows[..|rows| - 1], k);
      if StaticKey(rows[|rows| - 1]) == k then before + [rows[|rows| - 1]] else before
  }

  function CapabilitiesOf(rows: seq<StaticRow>): set<Capability> {
    set r | r in rows :: r.capability
  }

  /** The reference result: one active row per key, with the union of the capabilities of its group. */
  ghost predicate IsStaticMerge(rows: seq<StaticRow>, m: Entries) {
    && m.Keys == Keys(rows)
    && forall k :: k in m ==>
         && m[k].provider == k.0 && m[k].model == k.1
         && m[k].status == Active && m[k].source == YamlStatic
         && (forall r :: r in rows && StaticKey(r) == k ==> m[k].descriptor == r.descriptor)
         && (forall c :: c in m[k].capabilities <==> exists r :: r in rows && StaticKey(r) == k && r.capability == c)
  }

  predicate CapabilityBefore(a: StaticRow, b: StaticRow) {
    a.capability.Chat? && b.capability.Embedding?
  }

  method GroupRows(rows: seq<StaticRow>) returns (grouped: map<Key, seq<StaticRow>>)
    ensures grouped.Keys == Keys(rows)
    ensures forall k :: k in grouped ==> grouped[k] == Group(rows, k) && grouped[k] != []
  {
    grouped := map[];
    for i := 0 to |rows|
      invariant grouped.Keys == Keys(rows[..i])
      invariant forall k :: k in grouped ==> grouped[k] == Group(rows[..i], k) && grouped[k] != []
    {
      var k := StaticKey(rows[i]);
      assert rows[..i + 1][..i] == rows[..i];
      NoGroupWithoutKey(rows[..i], k);
      grouped := grouped[k := (if k in grouped then grouped[k] else []) + [rows[i]]];
    }
    assert rows[..|rows|] == rows;
  }

  /** Sort one group by capability and insist on a single descriptor. */
  method MergeGroup(rows: seq<StaticRow>, k: Key, listed: seq<StaticRow>) returns (r: Option<Row>)
    requires k in Keys(rows) && listed == Group(rows, k)
    ensures r.Some? <==> Agreed(rows, k)
    ensures r.Some? ==> r.value == MergedRow(rows, k)
  {
    NoGroupWithoutKey(rows, k);
    var group := Sort(listed, CapabilityBefore);
    var desc := group[0].descriptor;
    assert group[0] in group && listed[0] in listed;
    for j := 1 to |group|
      invariant forall i :: 0 <= i < j ==> group[i].descriptor == desc
    {
      if group[j].descriptor != desc {
        assert group[j] in group;
        return None;
      }
    }
    assert forall x :: x in rows && StaticKey(x) == k ==> x in group;
    r := Some(Row(k.0, k.1, desc, CapabilitiesOf(group), Active, YamlStatic));
  }

  /** Merge the groups in any order; the first conflicting one raises. */
  method MergeGroups(rows: seq<StaticRow>, grouped: map<Key, seq<StaticRow>>) returns (r: Result<Entries, Key>)
    requires grouped.Keys == Keys(rows)
    requires forall k :: k in grouped ==> grouped[k] == Group(rows, k)
    ensures r.Err? ==> r.error in Keys(rows) && !Agreed(rows, r.error)
    ensures r.Ok? ==> r.value.Keys == Keys(rows)
    ensures r.Ok? ==> forall k :: k in r.value ==> Agreed(rows, k) && r.value[k] == MergedRow(rows, k)
  {
    var out: Entries := map[];
    var left := grouped.Keys;
    while left != {}
      invariant left <= grouped.Keys && out.Keys == grouped.Keys - left
      invariant forall k :: k in out ==> Agreed(rows, k) && out[k] == MergedRow(rows, k)
      decreases left
    {
      var k :| k in left;
      var row := MergeGroup(rows, k, grouped[k]);
      if row.None? {
        return Err(k);
      }
      out := out[k := row.value];
      left := left - {k};
    }
    r := Ok(out);
  }

  /** Group the rows by key and merge each group. */
  method MergeStatic(rows: seq<StaticRow>) returns (r: Result<Entries, Key>)
    ensures r.Err? <==> Disagree(rows)
    ensures r.Ok? ==> IsStaticMerge(rows, r.value)
    ensures r.Err? <==>
      exists i, j :: 0 <= i < |rows| && 0 <= j < |rows| && rows[i].provider == rows[j].provider
        && rows[i].model == rows[j].model && rows[i].descriptor != rows[j].descriptor
    ensures r.Ok? ==> forall x :: x in rows ==>
      && (x.provider, x.model) in r.value
      && r.value[(x.provider, x.model)].descriptor == x.descriptor
      && x.capability in r.value[(x.provider, x.model)].capabilities
  {
    var grouped := GroupRows(rows);
    r := MergeGroups(rows, grouped);
    if r.Err? {
      DisagreementHasConflict(rows, r.error);
    } else {
      AgreementEverywhere(rows);
      MergedRowsAreStaticMerge(rows, r.value);
    }
  }

  lemma DisagreementHasConflict(rows: seq<StaticRow>, k: Key)
    requires !Agreed(rows, k)
    ensures Disagree(rows)
  {
    var a, b :| a in rows && b in rows && StaticKey(a) == k && StaticKey(b) == k && a.descriptor != b.descriptor;
  }

  lemma MergedRowsAreStaticMerge(rows: seq<StaticRow>, m: Entries)
    requires m.Keys == Keys(rows)
    requires forall k :: k in m ==> Agreed(rows, k) && m[k] == MergedRow(rows, k)
    ensures IsStaticMerge(rows, m)
  {
    forall k | k in m ensures Group(rows, k) != [] && Group(rows, k)[0] in rows && StaticKey(Group(rows, k)[0]) == k {
      NoGroupWithoutKey(rows, k);
      assert Group(rows, k)[0] in Group(rows, k);
    }
  }

  lemma {:induction false} NoGroupWithoutKey(rows: seq<StaticRow>, k: Key)
    ensures Group(rows, k) != [] <==> k in Keys(rows)
  {
    assert Group(rows, k) != [] ==> Group(rows, k)[0] in Group(rows, k);
  }

  ghost predicate Agreed(rows: seq<StaticRow>, k: Key) {
    forall a, b :: a in rows && b in rows && StaticKey(a) == k && StaticKey(b) == k ==> a.descriptor == b.descriptor
  }

  lemma AgreementEverywhere(rows: seq<StaticRow>)
    requires forall k :: k in Keys(rows) ==> Agreed(rows, k)
    ensures !Disagree(rows)
  {
    forall i, j | 0 <= i < |rows| && 0 <= j < |rows| && StaticKey(rows[i]) == StaticKey(rows[j])
      ensures rows[i].descriptor == rows[j].descriptor
    {
      assert rows[i] in rows && rows[j] in rows;
      assert StaticKey(rows[i]) in Keys(rows);
    }
  }

  function MergedRow(rows: seq<StaticRow>, k: Key): Row
    requires k in Keys(rows)
  {
    NoGroupWithoutKey(rows, k);
    Row(k.0, k.1, Group(rows, k)[0].descriptor, CapabilitiesOf(Group(rows, k)), Active, YamlStatic)
  }

  lemma SameMergeOfKey(rows: seq<StaticRow>, shuffled: seq<StaticRow>, m: Entries, n: Entries, k: Key)
    requires forall r :: r in rows <==> r in shuffled
    requires IsStaticMerge(rows, m) && IsStaticMerge(shuffled, n) && k in m
    ensures k in n && m[k] == n[k]
  {
    assert k in Keys(rows) && Keys(rows) == Keys(shuffled);
    assert m[k].capabilities == n[k].capabilities;
  }

  /** Any two listings of the same static rows merge alike. */
  lemma StaticMergeIgnoresRowOrder(rows: seq<StaticRow>, shuffled: seq<StaticRow>, m: Entries, n: Entries)
    requires forall r :: r in rows <==> r in shuffled
    ensures Disagree(rows) <==> Disagree(shuffled)
    ensures IsStaticMerge(rows, m) && IsStaticMerge(shuffled, n) ==> m == n
  {
    DisagreementIsAboutMembers(rows, shuffled);
    DisagreementIsAboutMembers(shuffled, rows);
    if IsStaticMerge(rows, m) && IsStaticMerge(shuffled, n) {
      assert Keys(rows) == Keys(shuffled);
      forall k | k in m ensures m[k] == n[k] {
        SameMergeOfKey(rows, shuffled, m, n, k);
      }
    }
  }

  lemma DisagreementIsAboutMembers(rows: seq<StaticRow>, shuffled: seq<StaticRow>)
    requires forall r :: r in rows ==> r in shuffled
    ensures Disagree(rows) ==> Disagree(shuffled)
  {
    if Disagree(rows) {
      var i, j :| 0 <= i < |rows| && 0 <= j < |rows| && StaticKey(rows[i]) == StaticKey(rows[j])
        && rows[i].descriptor != rows[j].descriptor;
      assert rows[i] in shuffled && rows[j] in shuffled;
    }
  }

  /*** Overlaying models.dev rows ***/

  predicate RowBefore(a: Row, b: Row) {
    KeyLess(KeyOf(a), KeyOf(b))
  }

  function Overlay(base: Entries, rows: seq<Row>, yamlWins: bool): Entries
    decreases |rows|
  {
    if rows == [] then base
    else
      var k := KeyOf(rows[0]);
      Overlay(if k in base && yamlWins then base else base[k := rows[0]], rows[1..], yamlWins)
  }

  /** The rows of one key, in listing order. */
  function RowsOf(rows: seq<Row>, k: Key): seq<Row> {
    if rows == [] then []
    else if KeyOf(rows[0]) == k then [rows[0]] + RowsOf(rows[1..], k)
    else RowsOf(rows[1..], k)
  }

  lemma {:induction false} InsertKeepsTies(x: Row, s: seq<Row>, k: Key)
    ensures RowsOf(Insert(x, s, RowBefore), k) == RowsOf([x] + s, k)
  {
    assert ([x] + s)[1..] == s;
    if s != [] && RowBefore(s[0], x) {
      KeyLessIsStrictTotal();
      InsertKeepsTies(x, s[1..], k);
      assert ([x] + s[1..])[1..] == s[1..];
    }
  }

  /** The sort is stable: rows of one key keep their order. */
  lemma {:induction false} SortKeepsTies(s: seq<Row>, k: Key)
    ensures RowsOf(Sort(s, RowBefore), k) == RowsOf(s, k)
  {
    if s != [] {
      SortKeepsTies(s[1..], k);
      InsertKeepsTies(s[0], Sort(s[1..], RowBefore), k);
      assert ([s[0]] + Sort(s[1..], RowBefore))[1..] == Sort(s[1..], RowBefore);
    }
  }

  /** Which row a key ends up with: the first claim under `yamlWins`, the last one otherwise. */
  lemma {:induction false} OverlayPicks(base: Entries, rows: seq<Row>, yamlWins: bool, k: Key)
    ensures var t, claims := Overlay(base, rows, yamlWins), RowsOf(rows, k);
      && (k in t <==> k in base || claims != [])
      && (k in base && (yamlWins || claims == []) ==> t[k] == base[k])
      && (k !in base && yamlWins && claims != [] ==> t[k] == claims[0])
      && (!yamlWins && claims != [] ==> t[k] == claims[|claims| - 1])
    decreases |rows|
  {
    if rows != [] {
      var j := KeyOf(rows[0]);
      OverlayPicks(if j in base && yamlWins then base else base[j := rows[0]], rows[1..], yamlWins, k);
    }
  }

  lemma {:induction false} OverlayKeepsWellKeyed(base: Entries, rows: seq<Row>, yamlWins: bool)
    requires WellKeyed(base)
    ensures WellKeyed(Overlay(base, rows, yamlWins))
    decreases |rows|
  {
    if rows != [] {
      var j := KeyOf(rows[0]);
      OverlayKeepsWellKeyed(if j in base && yamlWins then base else base[j := rows[0]], rows[1..], yamlWins);
    }
  }

  lemma {:induction false} RowsOfIsEmptyIffAbsent(rows: seq<Row>, k: Key)
    ensures RowsOf(rows, k) != [] <==> exists r :: r in rows && KeyOf(r) == k
  {
    if rows != [] {
      RowsOfIsEmptyIffAbsent(rows[1..], k);
      assert rows[0] in rows;
    }
  }

  /**
   Overlaying the sorted models.dev rows on the YAML rows: the keys are the union; with YAML winning
   every YAML row is unchanged and the first listed claim takes a new key; otherwise the last listed
   claim takes every key it names.
   */
  lemma MergedCatalogIsUnion(yaml: Entries, dev: seq<Row>, yamlWins: bool, k: Key)
    ensures var t := Overlay(yaml, Sort(dev, RowBefore), yamlWins);
      && (k in t <==> k in yaml || exists r :: r in dev && r.provider == k.0 && r.model == k.1)
      && (k in yaml && (yamlWins || RowsOf(dev, k) == []) ==> t[k] == yaml[k])
      && (k in t && k !in yaml && yamlWins ==> RowsOf(dev, k) != [] && t[k] == RowsOf(dev, k)[0])
      && (!yamlWins && RowsOf(dev, k) != [] ==> k in t && t[k] == RowsOf(dev, k)[|RowsOf(dev, k)| - 1])
  {
    OverlayPicks(yaml, Sort(dev, RowBefore), yamlWins, k);
    SortKeepsTies(dev, k);
    RowsOfIsEmptyIffAbsent(dev, k);
  }

  /*** Snapshots and indexes ***/

  predicate IsActive(entries: Entries, k: Key) {
    k in entries && entries[k].status == Active
  }

  predicate Offers(entries: Entries, k: Key, c: Capability) {
    IsActive(entries, k) && c in entries[k].capabilities
  }

  function Listed<K, V>(m: map<K, seq<V>>, k: K): seq<V> {
    if k in m then m[k] else []
  }

  function AppendTo<K(!new), V(!new)>(m: map<K, seq<V>>, k: K, v: V): (r: map<K, seq<V>>)
    ensures forall j, w :: w in Listed(r, j) <==> w in Listed(m, j) || (j == k && w == v)
  {
    m[k := Listed(m, k) + [v]]
  }

  /** `set(list)`, in the order of first appearance. */
  function Dedupe<T(==, !new)>(s: seq<T>): (r: seq<T>)
    ensures forall x :: x in r <==> x in s
    ensures forall i, j :: 0 <= i < j < |r| ==> r[i] != r[j]
  {
    if s == [] then []
    else
      var before, last := Dedupe(s[..|s| - 1]), s[|s| - 1];
      assert s == s[..|s| - 1] + [last];
      if last in before then before else before + [last]
  }

  /** `sorted(set(list))`. */
  function SortedSet<T(==, !new)>(s: seq<T>, lt: (T, T) -> bool): (r: seq<T>)
    ensures forall x :: x in r <==> x in s
  {
    Sort(Dedupe(s), lt)
  }

  ghost predicate Total<T(!new)>(lt: (T, T) -> bool) {
    StrictOrder(lt) && forall x, y :: x == y || lt(x, y) || lt(y, x)
  }

  lemma SortedSetSorts<T(!new)>(s: seq<T>, lt: (T, T) -> bool)
    requires Total(lt)
    ensures Sorted(SortedSet(s, lt), lt)
  {
    SortSorts(Dedupe(s), lt);
  }

  lemma OrdersAreTotal()
    ensures Total(KeyLess) && Total(TextLess)
  {
    KeyLessIsStrictTotal();
    forall a: string ensures !TextLess(a, a) {
      TextLessIrreflexive(a);
    }
    forall a: string, b: string, c: string | TextLess(a, b) && TextLess(b, c) ensures TextLess(a, c) {
      TextLessTransitive(a, b, c);
    }
    forall a: string, b: string ensures a == b || TextLess(a, b) || TextLess(b, a) {
      TextLessTotal(a, b);
    }
  }

  type ByCapability = map<(Capability, string), seq<string>>
  type ByModel = map<string, seq<Key>>

  /** The capability index lists, for the active entries among `done`, what a direct scan finds. */
  ghost predicate CapabilityIndexed(entries: Entries, done: set<Key>, index: ByCapability) {
    forall c, p, m :: m in Listed(index, (c, p)) <==> (p, m) in done && Offers(entries, (p, m), c)
  }

  ghost predicate ModelIndexed(entries: Entries, done: set<Key>, index: ByModel) {
    forall m, k :: k in Listed(index, m) <==> k in done && k.1 == m && IsActive(entries, k)
  }

  ghost predicate AllSorted<K(!new), V(!new)>(index: map<K, seq<V>>, lt: (V, V) -> bool) {
    forall k :: k in index ==> Sorted(index[k], lt)
  }

  /** Append one model to the lists of each of its row's capabilities. */
  method IndexRow(entries: Entries, ghost done: set<Key>, k: Key, index: ByCapability) returns (r: ByCapability)
    requires IsActive(entries, k) && k !in done && CapabilityIndexed(entries, done, index)
    ensures CapabilityIndexed(entries, done + {k}, r)
  {
    r := index;
    var left := entries[k].capabilities;
    while left != {}
      invariant left <= entries[k].capabilities
      invariant forall c, p, m :: m in Listed(r, (c, p)) <==>
        || ((p, m) in done && Offers(entries, (p, m), c))
        || ((p, m) == k && c in entries[k].capabilities - left)
      decreases left
    {
      var c :| c in left;
      r := AppendTo(r, (c, k.0), k.1);
      left := left - {c};
    }
  }

  method SortLists<K(!new), V(!new, ==)>(index: map<K, seq<V>>, lt: (V, V) -> bool) returns (r: map<K, seq<V>>)
    requires Total(lt)
    ensures AllSorted(r, lt)
    ensures forall k, v :: v in Listed(r, k) <==> v in Listed(index, k)
  {
    r := index;
    var left := index.Keys;
    while left != {}
      invariant left <= index.Keys == r.Keys
      invariant forall k :: k in left ==> r[k] == index[k]
      invariant forall k :: k in index && k !in left ==> Sorted(r[k], lt)
      invariant forall k, v :: v in Listed(r, k) <==> v in Listed(index, k)
      decreases left
    {
      var k :| k in left;
      SortedSetSorts(r[k], lt);
      r := r[k := SortedSet(r[k], lt)];
      left := left - {k};
    }
  }

  method BuildIndexes(entries: Entries) returns (byCp: ByCapability, byMid: ByModel)
    ensures CapabilityIndexed(entries, entries.Keys, byCp)
    ensures ModelIndexed(entries, entries.Keys, byMid)
  {
    byCp, byMid := map[], map[];
    var left := entries.Keys;
    while left != {}
      invariant left <= entries.Keys
      invariant CapabilityIndexed(entries, entries.Keys - left, byCp)
      invariant ModelIndexed(entries, entries.Keys - left, byMid)
      decreases left
    {
      var k :| k in left;
      if entries[k].status == Active {
        byCp := IndexRow(entries, entries.Keys - left, k, byCp);
        byMid := AppendTo(byMid, k.1, k);
      }
      assert entries.Keys - (left - {k}) == entries.Keys - left + {k};
      left := left - {k};
    }
    assert entries.Keys - left == entries.Keys;
  }

  lemma SameListsSameIndex(entries: Entries, a: ByModel, b: ByModel)
    requires ModelIndexed(entries, entries.Keys, a)
    requires forall m, k :: k in Listed(b, m) <==> k in Listed(a, m)
    ensures ModelIndexed(entries, entries.Keys, b)
  {}

  class ModelCatalog {
    var version: string
    var entries: Entries
    var byCapabilityProvider: ByCapability
    var byModelId: ByModel

    /** Both secondary indexes equal a direct scan of the active entries, in sorted order. */
    ghost predicate Valid()
      reads this
    {
      && WellKeyed(entries)
      && CapabilityIndexed(entries, entries.Keys, byCapabilityProvider) && AllSorted(byCapabilityProvider, TextLess)
      && ModelIndexed(entries, entries.Keys, byModelId) && AllSorted(byModelId, KeyLess)
    }

    constructor ()
      ensures Valid() && entries == map[] && version == "0"
    {
      version, entries, byCapabilityProvider, byModelId := "0", map[], map[], map[];
    }

    /** Build both indexes aside, sort their lists, then swap the whole snapshot. */
    method ReplaceEntries(incoming: Entries, snapshot: string)
      requires WellKeyed(incoming)
      modifies this
      ensures Valid() && entries == incoming && version == snapshot
    {
      OrdersAreTotal();
      var byCp, byMid := BuildIndexes(incoming);
      var sortedCp := SortLists(byCp, TextLess);
      var sortedMid := SortLists(byMid, KeyLess);
      SameListsSameIndex(incoming, byMid, sortedMid);
      version, entries, byCapabilityProvider, byModelId := snapshot, incoming, sortedCp, sortedMid;
    }

    /** A conflict raises before the swap and leaves the catalog alone. */
    method ReplaceFromYamlStatic(rows: seq<StaticRow>, snapshot: string) returns (ok: bool)
      requires Valid()
      modifies this
      ensures Valid()
      ensures ok <==> !Disagree(rows)
      ensures if ok then IsStaticMerge(rows, entries) && version == snapshot
              else entries == old(entries) && version == old(version)
    {
      var merged := MergeStatic(rows);
      ok := merged.Ok?;
      if ok {
        ReplaceEntries(merged.value, snapshot);
      }
    }

    method MergeYamlAndModelsDev(yaml: seq<StaticRow>, dev: seq<Row>, snapshot: string, yamlWins: bool)
      returns (ok: bool, ghost base: Entries)
      requires Valid()
      modifies this
      ensures Valid()
      ensures ok <==> !Disagree(yaml)
      ensures if ok
        then IsStaticMerge(yaml, base) && entries == Overlay(base, Sort(dev, RowBefore), yamlWins) && version == snapshot
        else entries == old(entries) && version == old(version)
    {
      base := map[];
      var merged := MergeStatic(yaml);
      ok := merged.Ok?;
      if ok {
        base := merged.value;
        var combined := merged.value;
        var sorted := Sort(dev, RowBefore);
        for i := 0 to |sorted|
          invariant Overlay(combined, sorted[i..], yamlWins) == Overlay(base, sorted, yamlWins)
        {
          var k := KeyOf(sorted[i]);
          assert sorted[i..][1..] == sorted[i + 1..];
          if k in combined && yamlWins {
            continue;
          }
          combined := combined[k := sorted[i]];
        }
        OverlayKeepsWellKeyed(base, sorted, yamlWins);
        ReplaceEntries(combined, snapshot);
      }
    }

    function Get(k: Key): Option<Row>
      reads this
    {
      if k in entries then Some(entries[k]) else None
    }

    /** Every active row with the capability, each once, in no promised order. */
    method IterByCapability(c: Capability) returns (rows: seq<Row>)
      requires Valid()
      ensures forall r :: r in rows <==>
        var k := (r.provider, r.model);
        k in entries && entries[k] == r && r.status == Active && c in r.capabilities
      ensures forall i, j :: 0 <= i < j < |rows| ==>
        (rows[i].provider, rows[i].model) != (rows[j].provider, rows[j].model)
    {
      rows := [];
      var left := entries.Keys;
      while left != {}
        invariant left <= entries.Keys
        invariant forall r :: r in rows <==>
          KeyOf(r) in entries.Keys - left && entries[KeyOf(r)] == r && Offers(entries, KeyOf(r), c)
        invariant forall i, j :: 0 <= i < j < |rows| ==> KeyOf(rows[i]) != KeyOf(rows[j])
        decreases left
      {
        var k :| k in left;
        if c in entries[k].capabilities && entries[k].status == Active {
          assert forall i :: 0 <= i < |rows| ==> rows[i] in rows;
          rows := rows + [entries[k]];
        }
        left := left - {k};
      }
    }

    /** The index answer is the sorted direct scan. */
    method ModelsForCapabilityAndProvider(c: Capability, p: string) returns (models: seq<string>)
      requires Valid()
      ensures Sorted(models, TextLess)
      ensures forall m :: m in models <==>
        (p, m) in entries && entries[(p, m)].status == Active && c in entries[(p, m)].capabilities
    {
      OrdersAreTotal();
      models := Sort(Listed(byCapabilityProvider, (c, p)), TextLess);
      SortSorts(Listed(byCapabilityProvider, (c, p)), TextLess);
    }

    method ProvidersForModelId(m: string) returns (pairs: seq<Key>)
      requires Valid()
      ensures Sorted(pairs, KeyLess)
      ensures forall k :: k in pairs <==> k.1 == m && k in entries && entries[k].status == Active
    {
      OrdersAreTotal();
      pairs := Sort(Listed(byModelId, m), KeyLess);
      SortSorts(Listed(byModelId, m), KeyLess);
      forall k ensures k in pairs <==> k.1 == m && k in entries && entries[k].status == Active {
        assert k in Listed(byModelId, m) <==> k in entries.Keys && k.1 == m && IsActive(entries, k);
      }
    }
  }
}
