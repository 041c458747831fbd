/** The recursive provenance walk of the memory service over a possibly cyclic parent graph. */
module Lineage {

  datatype Record = Record(id: string, parentIds: seq<string>)

  /** The record table; parent ids may be missing from it and may form cycles. */
  type Repository = map<string, Record>

  ghost predicate WellKeyed(repo: Repository) {
    forall k :: k in repo ==> repo[k].id == k
  }

  /** A nonempty sequence of existing records, each a parent of the one before. */
  ghost predicate IsPath(repo: Repository, p: seq<string>) {
    && p != []
    && (forall i :: 0 <= i < |p| ==> p[i] in repo)
    && (forall i :: 0 < i < |p| ==> p[i] in repo[p[i - 1]].parentIds)
  }

  /** `b` is an existing record reached from `a` through existing records only. */
  ghost predicate Reaches(repo: Repository, a: string, b: string) {
    exists p :: IsPath(repo, p) && p[0] == a && p[|p| - 1] == b
  }

  lemma ReachesSelf(repo: Repository, a: string)
    requires a in repo
    ensures Reaches(repo, a, a)
  {
    assert IsPath(repo, [a]);
  }

  lemma ReachesViaParent(repo: Repository, a: string, parent: string, b: string)
    requires a in repo && parent in repo[a].parentIds && Reaches(repo, parent, b)
    ensures Reaches(repo, a, b)
  {
    var p :| IsPath(repo, p) && p[0] == parent && p[|p| - 1] == b;
    assert IsPath(repo, [a] + p);
  }

  ghost predicate ClosedUnderParents(repo: Repository, xs: set<string>, within: set<string>) {
    forall x, p :: x in xs && x in repo && p in repo[x].parentIds ==> p in within
  }

  lemma {:induction false} ClosedSetHoldsPath(repo: Repository, xs: set<string>, p: seq<string>)
    requires ClosedUnderParents(repo, xs, xs) && IsPath(repo, p) && p[0] in xs
    ensures p[|p| - 1] in xs
    decreases |p|
  {
    if |p| > 1 {
      var q := p[1..];
      assert forall i :: 0 < i < |q| ==> q[i] == p[i + 1] && q[i - 1] == p[i];
      assert IsPath(repo, q);
      ClosedSetHoldsPath(repo, xs, q);
    }
  }

  ghost predicate Distinct(chain: seq<Record>) {
    forall i, j :: 0 <= i < j < |chain| ==> chain[i].id != chain[j].id
  }

  /** From position `from` on, every record but the first is a parent of an earlier one. */
  ghost predicate Descends(chain: seq<Record>, from: nat) {
    forall j :: from < j < |chain| ==> HasChildBefore(chain, from, j)
  }

  ghost predicate HasChildBefore(chain: seq<Record>, from: nat, j: nat)
    requires j < |chain|
  {
    exists i :: from <= i < j && chain[j].id in chain[i].parentIds
  }

  /** The chain holds exactly the visited records that exist, each once. */
  ghost predicate Coherent(repo: Repository, chain: seq<Record>, visited: set<string>) {
    && Distinct(chain)
    && (forall i :: 0 <= i < |chain| ==> chain[i].id in repo && chain[i] == repo[chain[i].id] && chain[i].id in visited)
    && (forall x :: x in visited && x in repo ==> repo[x] in chain)
  }

  /**
   The ids added to `before` are, where they exist, reachable from `id`, and all their parents have
   been visited too, except perhaps for those in `open`.
   */
  ghost predicate Explored(repo: Repository, id: string, before: set<string>, after: set<string>, open: set<string>) {
    && before <= after
    && (forall x :: x in after - before && x in repo ==> Reaches(repo, id, x))
    && ClosedUnderParents(repo, after - before - open, after)
  }

  lemma ExploreNothing(repo: Repository, id: string, visited: set<string>)
    ensures Explored(repo, id, visited, visited, {})
  {}

  lemma ExploreStart(repo: Repository, id: string, visited: set<string>)
    requires id !in visited
    ensures Explored(repo, id, visited, visited + {id}, if id in repo then {id} else {})
  {
    if id in repo {
      ReachesSelf(repo, id);
    }
  }

  lemma ExploreFinish(repo: Repository, id: string, v0: set<string>, v1: set<string>)
    requires id in repo && Explored(repo, id, v0, v1, {id})
    requires forall p :: p in repo[id].parentIds ==> p in v1
    ensures Explored(repo, id, v0, v1, {})
  {}

  lemma ExploreParent(repo: Repository, id: string, parent: string, v0: set<string>, v1: set<string>, v2: set<string>)
    requires id in repo && parent in repo[id].parentIds
    requires Explored(repo, id, v0, v1, {id}) && Explored(repo, parent, v1, v2, {})
    ensures Explored(repo, id, v0, v2, {id})
  {
    forall x | x in v2 - v1 && x in repo ensures Reaches(repo, id, x) {
      ReachesViaParent(repo, id, parent, x);
    }
  }

  lemma FirstDescends(chain: seq<Record>, first: Record)
    ensures Descends(chain + [first], |chain|)
  {}

  lemma DescendThroughParent(c1: seq<Record>, c2: seq<Record>, base: nat)
    requires base < |c1| && c1 <= c2
    requires Descends(c1, base) && Descends(c2, |c1|)
    requires |c2| > |c1| ==> c2[|c1|].id in c1[base].parentIds
    ensures Descends(c2, base)
  {
    forall j | base < j < |c2| ensures HasChildBefore(c2, base, j) {
      if j < |c1| {
        assert HasChildBefore(c1, base, j);
        var i :| base <= i < j && c1[j].id in c1[i].parentIds;
        assert c2[j].id in c2[i].parentIds;
      } else if j == |c1| {
        assert c2[j].id in c2[base].parentIds;
      } else {
        assert HasChildBefore(c2, |c1|, j);
      }
    }
  }

  lemma CoherentAfterVisit(repo: Repository, chain: seq<Record>, visited: set<string>, id: string)
    requires WellKeyed(repo) && Coherent(repo, chain, visited) && id !in visited
    ensures id !in repo ==> Coherent(repo, chain, visited + {id})
    ensures id in repo ==> Coherent(repo, chain + [repo[id]], visited + {id})
  {}

  /** The id exists and is not among the first `n` records of the chain. */
  ghost predicate NotYet(repo: Repository, chain: seq<Record>, n: nat, id: string)
    requires n <= |chain|
  {
    id in repo && forall k :: 0 <= k < n ==> chain[k].id != id
  }

  /** Right after record `i` comes its first parent, in listed order, that exists and has not come before. */
  ghost predicate FirstParentFollows(repo: Repository, chain: seq<Record>, i: nat)
    requires i < |chain|
  {
    var parents := chain[i].parentIds;
    forall a ::
      (0 <= a < |parents| && NotYet(repo, chain, i + 1, parents[a])
       && (forall b :: 0 <= b < a ==> !NotYet(repo, chain, i + 1, parents[b]))) ==>
        i + 1 < |chain| && chain[i + 1].id == parents[a]
  }

  ghost predicate ParentsFollow(repo: Repository, chain: seq<Record>, from: nat) {
    forall i :: from <= i < |chain| ==> FirstParentFollows(repo, chain, i)
  }

  /** Among the first `n` parents of the last record none is still to come. */
  ghost predicate NoneToCome(repo: Repository, chain: seq<Record>, base: nat, n: nat)
    requires base < |chain| && n <= |chain[base].parentIds|
  {
    forall a :: 0 <= a < n ==> !NotYet(repo, chain, base + 1, chain[base].parentIds[a])
  }

  lemma FollowsInLonger(repo: Repository, chain: seq<Record>, longer: seq<Record>, i: nat)
    requires chain <= longer && i < |chain| && FirstParentFollows(repo, chain, i)
    ensures FirstParentFollows(repo, longer, i)
  {
    var n := i + 1;
    assert forall id :: NotYet(repo, longer, n, id) <==> NotYet(repo, chain, n, id);
  }

  /** The walk of parent `n` either adds nothing, or makes it the first parent to follow. */
  lemma FirstParentWalked(repo: Repository, was: seq<Record>, chain: seq<Record>, visited: set<string>, base: nat, n: nat)
    requires WellKeyed(repo) && Coherent(repo, chain, visited) && was <= chain && base + 1 == |was|
    requires n < |was[base].parentIds| && NoneToCome(repo, was, base, n) && was[base].parentIds[n] in visited
    requires |chain| > |was| ==> chain[|was|].id == was[base].parentIds[n]
    ensures |chain| > |was| ==> FirstParentFollows(repo, chain, base)
    ensures |chain| == |was| ==> NoneToCome(repo, chain, base, n + 1)
  {
    var count, parent := base + 1, was[base].parentIds[n];
    assert forall id :: NotYet(repo, chain, count, id) <==> NotYet(repo, was, count, id);
    if |chain| > |was| {
      assert NotYet(repo, chain, count, parent);
    } else if parent in repo {
      var k :| 0 <= k < |chain| && chain[k] == repo[parent];
      assert chain[k].id == parent;
    }
  }

  /** The first `n` parents of record `base` have been walked, and everything after it is in order. */
  ghost predicate WalkedTo(repo: Repository, chain: seq<Record>, base: nat, n: nat)
    requires base < |chain| && n <= |chain[base].parentIds|
  {
    && ParentsFollow(repo, chain, base + 1)
    && if |chain| == base + 1 then NoneToCome(repo, chain, base, n) else FirstParentFollows(repo, chain, base)
  }

  lemma ParentWalked(repo: Repository, was: seq<Record>, chain: seq<Record>, visited: set<string>, base: nat, n: nat)
    requires WellKeyed(repo) && Coherent(repo, chain, visited) && was <= chain && base < |was|
    requires n < |was[base].parentIds| && WalkedTo(repo, was, base, n) && was[base].parentIds[n] in visited
    requires ParentsFollow(repo, chain, |was|)
    requires |chain| > |was| ==> chain[|was|].id == was[base].parentIds[n]
    ensures WalkedTo(repo, chain, base, n + 1)
  {
    forall i | base < i < |was| ensures FirstParentFollows(repo, chain, i) {
      FollowsInLonger(repo, was, chain, i);
    }
    if |was| == base + 1 {
      FirstParentWalked(repo, was, chain, visited, base, n);
    } else {
      FollowsInLonger(repo, was, chain, base);
    }
  }

  /** The state of the loop over the parents of the record at `base`, `n` of which have been walked. */
  ghost predicate Walking(repo: Repository, id: string, before: set<string>, chain: seq<Record>, visited: set<string>, base: nat, n: nat) {
    && id in repo && base < |chain| && chain[base] == repo[id] && n <= |repo[id].parentIds|
    && Coherent(repo, chain, visited)
    && Explored(repo, id, before, visited, {id})
    && (forall i :: 0 <= i < n ==> repo[id].parentIds[i] in visited)
    && Descends(chain, base) && WalkedTo(repo, chain, base, n)
  }

  lemma WalkingOn(
    repo: Repository, id: string, before: set<string>, was: seq<Record>, seen: set<string>, chain: seq<Record>, visited: set<string>,
    base: nat, n: nat)
    requires WellKeyed(repo) && Walking(repo, id, before, was, seen, base, n) && n < |repo[id].parentIds|
    requires Coherent(repo, chain, visited) && seen <= visited && repo[id].parentIds[n] in visited
    requires Explored(repo, repo[id].parentIds[n], seen, visited, {})
    requires was <= chain && Descends(chain, |was|) && ParentsFollow(repo, chain, |was|)
    requires |chain| > |was| ==> chain[|was|].id == repo[id].parentIds[n]
    ensures Walking(repo, id, before, chain, visited, base, n + 1)
  {
    ExploreParent(repo, id, repo[id].parentIds[n], before, seen, visited);
    DescendThroughParent(was, chain, base);
    ParentWalked(repo, was, chain, visited, base, n);
  }

  lemma AllWalked(repo: Repository, chain: seq<Record>, base: nat)
    requires base < |chain| && WalkedTo(repo, chain, base, |chain[base].parentIds|)
    ensures ParentsFollow(repo, chain, base)
  {}

  class LineageWalk {
    const repo: Repository
    var chain: seq<Record>
    var visited: set<string>

    constructor (repo: Repository)
      ensures this.repo == repo && chain == [] && visited == {}
    {
      this.repo := repo;
      chain, visited := [], {};
    }

    method Walk(id: string)
      requires WellKeyed(repo) && Coherent(repo, chain, visited)
      modifies this
      ensures Coherent(repo, chain, visited)
      ensures old(visited) <= visited && id in visited && Explored(repo, id, old(visited), visited, {})
      ensures old(chain) <= chain && Descends(chain, |old(chain)|)
      ensures |chain| > |old(chain)| ==> chain[|old(chain)|].id == id
      ensures ParentsFollow(repo, chain, |old(chain)|)
      decreases repo.Keys - visited, 0
    {
      if id in visited {
        ExploreNothing(repo, id, visited);
        return;
      }
      CoherentAfterVisit(repo, chain, visited, id);
      ExploreStart(repo, id, visited);
      visited := visited + {id};
      if id !in repo {
        return;
      }
      FirstDescends(chain, repo[id]);
      chain := chain + [repo[id]];
      WalkParents(id, old(visited), |old(chain)|);
    }

    /** The loop over the parents of the record just appended at position `base`. */
    method WalkParents(id: string, ghost before: set<string>, ghost base: nat)
      requires WellKeyed(repo) && Coherent(repo, chain, visited)
      requires id in repo && id in visited && Explored(repo, id, before, visited, {id})
      requires base + 1 == |chain| && chain[base] == repo[id] && Descends(chain, base)
      modifies this
      ensures Coherent(repo, chain, visited)
      ensures old(visited) <= visited && Explored(repo, id, before, visited, {})
      ensures old(chain) <= chain && Descends(chain, base) && ParentsFollow(repo, chain, base)
      decreases repo.Keys - visited, 1
    {
      var record := repo[id];
      var n := 0;
      while n < |record.parentIds|
        invariant Walking(repo, id, before, chain, visited, base, n)
        invariant old(visited) <= visited && old(chain) <= chain
      {
        ghost var seen, was := visited, chain;
        Walk(record.parentIds[n]);
        WalkingOn(repo, id, before, was, seen, chain, visited, base, n);
        n := n + 1;
      }
      ExploreFinish(repo, id, before, visited);
      AllWalked(repo, chain, base);
    }
  }

  /**
   The lineage of a record: each existing record reachable through existing records, exactly once and
   nothing else, the start first, every other record after one of its children, and right after each
   record its first existing parent that has not come before.
   */
  method GetLineage(repo: Repository, id: string) returns (chain: seq<Record>)
    requires WellKeyed(repo)
    ensures Distinct(chain)
    ensures forall x :: Reaches(repo, id, x) <==> exists i :: 0 <= i < |chain| && chain[i].id == x
    ensures forall i :: 0 <= i < |chain| ==> chain[i].id in repo && chain[i] == repo[chain[i].id]
    ensures id in repo ==> chain != [] && chain[0] == repo[id]
    ensures Descends(chain, 0) && ParentsFollow(repo, chain, 0)
  {
    var walk := new LineageWalk(repo);
    walk.Walk(id);
    chain := walk.chain;
    forall x ensures Reaches(repo, id, x) <==> exists i :: 0 <= i < |chain| && chain[i].id == x {
      if Reaches(repo, id, x) {
        var p :| IsPath(repo, p) && p[0] == id && p[|p| - 1] == x;
        ClosedSetHoldsPath(repo, walk.visited, p);
        assert repo[x] in chain;
      }
    }
  }
}
