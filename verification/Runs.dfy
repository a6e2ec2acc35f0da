/** Reconciliation runs: the newest few of each name are kept, and a listing
    cannot tell. */
module Runs {
  import opened Prelude

  const RUNS_KEPT: nat := 50

  datatype Run = Run(id: nat, tenant: string, kind: string, name: string, finishedAt: int)

  /** Ordered by (finished_at, id). */
  predicate Newer(a: Run, b: Run) {
    a.finishedAt > b.finishedAt || (a.finishedAt == b.finishedAt && a.id > b.id)
  }

  ghost predicate OneId(runs: set<Run>) {
    forall a, b :: a in runs && b in runs && a.id == b.id ==> a == b
  }

  ghost function Ahead(r: Run, runs: set<Run>): set<Run> {
    set x | x in runs && Newer(x, r)
  }

  ghost function Rank(r: Run, runs: set<Run>): nat {
    |Ahead(r, runs)|
  }

  /** The reference: the runs with fewer than `n` newer ones. */
  ghost function Newest(runs: set<Run>, n: nat): set<Run> {
    set r | r in runs && Rank(r, runs) < n
  }

  // ── ranks ──

  lemma RankGrows(r: Run, some: set<Run>, all: set<Run>)
    requires some <= all
    ensures Rank(r, some) <= Rank(r, all)
  {
    SubsetCard(Ahead(r, some), Ahead(r, all));
  }

  lemma NewerRanksLower(a: Run, b: Run, runs: set<Run>)
    requires a in runs && Newer(a, b)
    ensures Rank(a, runs) < Rank(b, runs)
  {
    assert Ahead(a, runs) + {a} <= Ahead(b, runs);
    SubsetCard(Ahead(a, runs) + {a}, Ahead(b, runs));
  }

  lemma {:induction false} HasOldest(runs: set<Run>) returns (oldest: Run)
    requires runs != {} && OneId(runs)
    ensures oldest in runs && forall r :: r in runs && r != oldest ==> Newer(r, oldest)
    decreases |runs|
  {
    var x :| x in runs;
    oldest := x;
    if runs - {x} == {} {
      assert runs == {x};
    } else {
      var o := HasOldest(runs - {x});
      oldest := if Newer(x, o) then o else x;
      assert o.id != x.id;
      forall r | r in runs && r != oldest ensures Newer(r, oldest) {
        assert r == o || r == x || Newer(r, o);
      }
    }
  }

  /** There are as many newest runs as asked for, or all there are. */
  lemma {:induction false} NewestCount(runs: set<Run>, n: nat)
    requires OneId(runs)
    ensures |Newest(runs, n)| == if |runs| < n then |runs| else n
    decreases |runs|
  {
    if |runs| <= n {
      forall r | r in runs ensures Rank(r, runs) < n {
        assert Ahead(r, runs) <= runs - {r};
        SubsetCard(Ahead(r, runs), runs - {r});
      }
      assert Newest(runs, n) == runs;
    } else {
      var o := HasOldest(runs);
      var rest := runs - {o};
      assert Ahead(o, runs) == rest;
      forall r | r in rest ensures Rank(r, rest) == Rank(r, runs) {
        assert Ahead(r, rest) == Ahead(r, runs);
      }
      assert Newest(rest, n) == Newest(runs, n);
      NewestCount(rest, n);
    }
  }

  /** Dropping runs that are not among the newest changes nothing: any part of
      the history that holds the newest has the same newest. */
  lemma KeepingTheNewestSuffices(all: set<Run>, kept: set<Run>, n: nat)
    requires OneId(all) && Newest(all, n) <= kept <= all
    ensures Newest(kept, n) == Newest(all, n)
  {
    forall r | r in Newest(all, n) ensures r in Newest(kept, n) {
      RankGrows(r, kept, all);
    }
    forall r | r in Newest(kept, n) ensures r in Newest(all, n) {
      if Rank(r, all) >= n {
        forall x | x in Newest(all, n) ensures Newer(x, r) {
          if x != r && !Newer(x, r) {
            NewerRanksLower(r, x, all);
          }
        }
        NewestCount(all, n);
        SubsetCard(Ahead(r, all), all);
        SubsetCard(Newest(all, n), Ahead(r, kept));
      }
    }
  }

  // ── sorting ──

  ghost predicate Descending(s: seq<Run>) {
    forall i, j :: 0 <= i < j < |s| ==> Newer(s[i], s[j])
  }

  function Insert(r: Run, s: seq<Run>): seq<Run> {
    if s == [] || Newer(r, s[0]) then [r] + s else [s[0]] + Insert(r, s[1..])
  }

  lemma {:induction false} InsertElems(r: Run, s: seq<Run>)
    ensures forall x :: x in Insert(r, s) <==> x == r || x in s
  {
    if s != [] && !Newer(r, s[0]) {
      InsertElems(r, s[1..]);
      assert s == [s[0]] + s[1..];
    }
  }

  lemma {:induction false} InsertSorted(r: Run, s: seq<Run>)
    requires Descending(s) && forall x :: x in s ==> x.id != r.id
    ensures Descending(Insert(r, s))
  {
    if s != [] && !Newer(r, s[0]) {
      var t := Insert(r, s[1..]);
      assert s == [s[0]] + s[1..];
      InsertSorted(r, s[1..]);
      InsertElems(r, s[1..]);
      assert Newer(s[0], r);
      forall x | x in s[1..] ensures Newer(s[0], x) {
        var i :| 0 <= i < |s[1..]| && s[1..][i] == x;
        assert s[i + 1] == x;
      }
      forall i | 0 <= i < |t| ensures Newer(s[0], t[i]) {
        assert t[i] in t;
      }
    }
  }

  /** The runs in one list, newest first. */
  method SortNewestFirst(runs: set<Run>) returns (s: seq<Run>)
    requires OneId(runs)
    ensures Descending(s) && Elems(s) == runs
  {
    s := [];
    var rest := runs;
    while rest != {}
      invariant rest <= runs && Elems(s) == runs - rest && Descending(s)
      decreases |rest|
    {
      var r :| r in rest;
      forall x | x in s ensures x.id != r.id {
        assert x in Elems(s);
      }
      InsertSorted(r, s);
      InsertElems(r, s);
      assert Elems(Insert(r, s)) == Elems(s) + {r};
      s := Insert(r, s);
      rest := rest - {r};
    }
  }

  /** The first `n` of a sorted list are the newest `n`. */
  lemma PrefixIsNewest(s: seq<Run>, n: nat)
    requires Descending(s)
    ensures Elems(s[..if n < |s| then n else |s|]) == Newest(Elems(s), n)
  {
    var k := if n < |s| then n else |s|;
    forall i | 0 <= i < |s| ensures Rank(s[i], Elems(s)) == i {
      assert Ahead(s[i], Elems(s)) == Elems(s[..i]);
      NoDupsCard(s[..i]);
    }
    forall r ensures r in s[..k] <==> r in Newest(Elems(s), n) {
      if r in s {
        var i :| 0 <= i < |s| && s[i] == r;
        if i < k {
          assert s[..k][i] == r;
        }
      }
    }
  }

  /** A listing is determined by what it lists. */
  lemma {:induction false} ListingUnique(a: seq<Run>, b: seq<Run>)
    requires Descending(a) && Descending(b) && Elems(a) == Elems(b)
    ensures a == b
  {
    NoDupsCard(a);
    NoDupsCard(b);
    forall i | 0 <= i < |a| ensures a[i] == b[i] {
      assert a[i] in Elems(b);
      var j :| 0 <= j < |b| && b[j] == a[i];
      RankAt(a, i);
      RankAt(b, j);
    }
  }

  lemma RankAt(s: seq<Run>, i: nat)
    requires Descending(s) && i < |s|
    ensures Rank(s[i], Elems(s)) == i
  {
    assert Ahead(s[i], Elems(s)) == Elems(s[..i]);
    NoDupsCard(s[..i]);
  }

  // ── the store ──

  ghost function Group(runs: set<Run>, like: Run): set<Run> {
    set r | r in runs && r.tenant == like.tenant && r.kind == like.kind && r.name == like.name
  }

  predicate Matches(r: Run, tenant: string, name: Option<string>) {
    r.tenant == tenant && (name == None || r.name == name.value)
  }

  ghost function Matching(runs: set<Run>, tenant: string, name: Option<string>): set<Run> {
    set r | r in runs && Matches(r, tenant, name)
  }

  /** Of every (tenant, kind, name), exactly the newest `RUNS_KEPT` are held. */
  ghost predicate Pruned(all: set<Run>, held: set<Run>) {
    && held <= all
    && forall r :: r in all ==> (r in held <==> r in Newest(Group(all, r), RUNS_KEPT))
  }

  lemma GroupHolds(all: set<Run>, held: set<Run>, like: Run)
    requires Pruned(all, held)
    ensures Group(held, like) == Newest(Group(all, like), RUNS_KEPT)
  {
    forall r | r in all && r in Group(all, like) ensures r in held <==> r in Newest(Group(all, like), RUNS_KEPT) {
      assert Group(all, r) == Group(all, like);
    }
  }

  /** Adding a run and pruning its group keeps the store pruned. */
  lemma AddKeepsPruned(all: set<Run>, held: set<Run>, r: Run)
    requires OneId(all + {r}) && r !in all && Pruned(all, held)
    ensures Pruned(all + {r}, (held - Group(held, r)) + Newest(Group(held, r) + {r}, RUNS_KEPT))
  {
    var now := (held - Group(held, r)) + Newest(Group(held, r) + {r}, RUNS_KEPT);
    var group := Group(all, r) + {r};
    assert group == Group(all + {r}, r);
    GroupHolds(all, held, r);
    forall x | x in Newest(group, RUNS_KEPT) ensures x in Group(held, r) + {r} {
      RankGrows(x, Group(all, r), group);
    }
    KeepingTheNewestSuffices(group, Group(held, r) + {r}, RUNS_KEPT);
    forall x | x in all + {r} ensures x in now <==> x in Newest(Group(all + {r}, x), RUNS_KEPT) {
      if x in group {
        assert Group(all + {r}, x) == group;
      } else {
        assert Group(all + {r}, x) == Group(all, x);
      }
    }
  }

  /** A listing no longer than what is kept is the listing of the full
      history, with or without a name. */
  lemma ListingAgrees(all: set<Run>, held: set<Run>, tenant: string, name: Option<string>, limit: nat)
    requires OneId(all) && Pruned(all, held) && limit <= RUNS_KEPT
    ensures Newest(Matching(held, tenant, name), limit) == Newest(Matching(all, tenant, name), limit)
  {
    var full := Matching(all, tenant, name);
    forall r | r in Newest(full, limit) ensures r in Matching(held, tenant, name) {
      assert Group(all, r) <= full;
      RankGrows(r, Group(all, r), full);
      assert r in Newest(Group(all, r), RUNS_KEPT);
    }
    KeepingTheNewestSuffices(full, Matching(held, tenant, name), limit);
  }

  // ── whose runs a listing holds ──

  /** This run is the tenant's, under the name when one is given. */
  ghost predicate Asked(r: Run, tenant: string, name: Option<string>) {
    r.tenant == tenant && forall n :: name == Some(n) ==> r.name == n
  }

  /** Those of the asked-for runs that finished after this one; of two that finished
      together, the one with the higher id. */
  ghost function Later(all: set<Run>, tenant: string, name: Option<string>, r: Run): set<Run> {
    set x | x in all && Asked(x, tenant, name)
            && (x.finishedAt > r.finishedAt || (x.finishedAt == r.finishedAt && x.id > r.id))
  }

  /** A listing: the tenant's own runs, the latest first, and one is missing only
      when `limit` later ones are there. */
  ghost predicate IsListing(all: set<Run>, tenant: string, name: Option<string>, limit: nat, found: seq<Run>) {
    && |found| <= limit
    && (forall r :: r in found ==> r in all && Asked(r, tenant, name))
    && (forall i, j :: 0 <= i < j < |found| ==>
          found[i].finishedAt > found[j].finishedAt
          || (found[i].finishedAt == found[j].finishedAt && found[i].id > found[j].id))
    && forall r :: r in all && Asked(r, tenant, name) && r !in found ==> |Later(all, tenant, name, r)| >= limit
  }

  lemma NewestIsListing(all: set<Run>, tenant: string, name: Option<string>, limit: nat, found: seq<Run>)
    requires OneId(all) && Descending(found) && Elems(found) == Newest(Matching(all, tenant, name), limit)
    ensures IsListing(all, tenant, name, limit, found)
  {
    var matching := Matching(all, tenant, name);
    NewestCount(matching, limit);
    NoDupsCard(found);
    forall r ensures Matches(r, tenant, name) <==> Asked(r, tenant, name) {
    }
    forall r | r in found ensures r in Newest(matching, limit) {
      assert r in Elems(found);
    }
    forall r | r in all && Asked(r, tenant, name) && r !in found ensures |Later(all, tenant, name, r)| >= limit {
      assert r !in Elems(found);
      assert Ahead(r, matching) == Later(all, tenant, name, r);
    }
  }

  /** Of one tenant, kind and name. */
  predicate SameGroup(a: Run, b: Run) {
    a.tenant == b.tenant && a.kind == b.kind && a.name == b.name
  }

  /** What adding `r` does to the runs held: others of its group may go, but only
      when `RUNS_KEPT` newer ones of that group are held; everything else stays. */
  ghost predicate OnlyItsGroup(before: set<Run>, after: set<Run>, r: Run) {
    && (forall x :: x in after ==> x in before || x == r)
    && (forall x :: x in before && !SameGroup(x, r) ==> x in after)
    && forall x :: (x in before || x == r) && x !in after ==>
         RUNS_KEPT <= |set y | y in after && SameGroup(y, r) && Newer(y, x)|
  }

  lemma PrunedOnlyItsGroup(held: set<Run>, r: Run, after: set<Run>)
    requires OneId(held + {r}) && r !in held
    requires after == (held - Group(held, r)) + Newest(Group(held, r) + {r}, RUNS_KEPT)
    ensures OnlyItsGroup(held, after, r)
  {
    var group := Group(held, r) + {r};
    forall x | x in group && x !in after ensures RUNS_KEPT <= |set y | y in after && SameGroup(y, r) && Newer(y, x)| {
      DroppedForNewer(group, after, r, x);
    }
  }

  lemma DroppedForNewer(group: set<Run>, after: set<Run>, r: Run, x: Run)
    requires OneId(group) && x in group && x !in after && Newest(group, RUNS_KEPT) <= after
    requires forall y :: y in group ==> SameGroup(y, r)
    ensures RUNS_KEPT <= |set y | y in after && SameGroup(y, r) && Newer(y, x)|
  {
    AllNewer(group, RUNS_KEPT, x);
    SubsetCard(Newest(group, RUNS_KEPT), set y | y in after && SameGroup(y, r) && Newer(y, x));
  }

  /** What is not among the newest has them all ahead of it, and they are as many as
      asked for. */
  lemma AllNewer(group: set<Run>, n: nat, x: Run)
    requires OneId(group) && x in group && x !in Newest(group, n)
    ensures |Newest(group, n)| == n && forall y :: y in Newest(group, n) ==> Newer(y, x)
  {
    NewestCount(group, n);
    SubsetCard(Ahead(x, group), group);
    forall y | y in Newest(group, n) ensures Newer(y, x) {
      if y != x && !Newer(y, x) {
        NewerRanksLower(x, y, group);
      }
    }
  }

  lemma GroupGrows(held: set<Run>, r: Run)
    ensures Group(held + {r}, r) == Group(held, r) + {r}
  {
  }

  lemma Repruned(held: set<Run>, r: Run, newest: set<Run>)
    requires r !in held
    ensures ((held + {r}) - (Group(held, r) + {r})) + newest == (held - Group(held, r)) + newest
  {
  }

  class RunStore {
    var tenants: set<string>
    var runs: map<nat, Run>
    ghost var all: set<Run>

    ghost predicate Valid()
      reads this
    {
      && OneId(all)
      && Filed()
      && Pruned(all, Held())
    }

    ghost function Held(): set<Run>
      reads this
    {
      set id | id in runs :: runs[id]
    }

    constructor (tenants: set<string>)
      ensures Valid() && all == {} && this.tenants == tenants
    {
      this.tenants := tenants;
      runs, all := map[], {};
    }

    ghost predicate Filed()
      reads this
    {
      forall id :: id in runs ==> runs[id].id == id
    }

    lemma HeldMeans(r: Run)
      requires Filed()
      ensures r in Held() <==> r.id in runs && runs[r.id] == r
    {
    }

    /** The runs that match, out of the dict's values. */
    method Select(like: Run) returns (same: set<Run>)
      ensures same == Group(Held(), like)
    {
      same := set id | id in runs && runs[id].tenant == like.tenant && runs[id].kind == like.kind
          && runs[id].name == like.name :: runs[id];
    }

    /** `add_run`: insert, then prune the run's own group; an unknown tenant is
        refused, and nothing changes. */
    method AddRun(r: Run) returns (ok: bool)
      requires Valid() && forall x :: x in all ==> x.id != r.id
      modifies this`runs, this`all
      ensures Valid() && (ok <==> r.tenant in tenants)
      ensures ok ==> all == old(all) + {r} && OnlyItsGroup(old(Held()), Held(), r)
      ensures !ok ==> all == old(all) && runs == old(runs)
    {
      ok := r.tenant in tenants;
      if ok {
        InsertAndPrune(r);
      }
    }

    method InsertAndPrune(r: Run)
      requires Valid() && forall x :: x in all ==> x.id != r.id
      modifies this`runs, this`all
      ensures Valid() && all == old(all) + {r} && OnlyItsGroup(old(Held()), Held(), r)
    {
      ghost var held := Held();
      AddKeepsPruned(all, held, r);
      File(r);
      GroupGrows(held, r);
      Prune(r);
      Repruned(held, r, Newest(Group(held, r) + {r}, RUNS_KEPT));
      all := all + {r};
      PrunedOnlyItsGroup(held, r, Held());
    }

    method File(r: Run)
      requires Filed() && forall x :: x in Held() ==> x.id != r.id
      modifies this`runs
      ensures Filed() && Held() == old(Held()) + {r}
    {
      runs := runs[r.id := r];
      forall x ensures x in Held() <==> x in old(Held()) || x == r {
        HeldMeans(x);
      }
    }

    /** Drop all but the newest `RUNS_KEPT` of a group. */
    method Prune(like: Run)
      requires Filed() && OneId(Held())
      modifies this`runs
      ensures Filed()
      ensures Held() == (old(Held()) - Group(old(Held()), like)) + Newest(Group(old(Held()), like), RUNS_KEPT)
    {
      var same := Select(like);
      var sorted := SortNewestFirst(same);
      PrefixIsNewest(sorted, RUNS_KEPT);
      SuffixIsRest(sorted, RUNS_KEPT);
      DropAll(sorted[if RUNS_KEPT < |sorted| then RUNS_KEPT else |sorted|..]);
    }

    /** Take some runs out, one after another. */
    method DropAll(gone: seq<Run>)
      requires Filed() && Elems(gone) <= Held()
      modifies this`runs
      ensures Filed() && Held() == old(Held()) - Elems(gone)
    {
      ghost var held := Held();
      for i := 0 to |gone|
        invariant Filed() && Held() == held - Elems(gone[..i])
      {
        DropOne(gone[i], held, Elems(gone[..i]));
        assert Elems(gone[..i + 1]) == Elems(gone[..i]) + {gone[i]} by {
          assert gone[..i + 1] == gone[..i] + [gone[i]];
        }
      }
      assert gone[..|gone|] == gone;
    }

    method DropOne(r: Run, ghost held: set<Run>, ghost dropped: set<Run>)
      requires Filed() && r in held && Held() == held - dropped
      requires forall a, b :: a in held && b in held && a.id == b.id ==> a == b
      modifies this`runs
      ensures Filed() && Held() == held - (dropped + {r})
    {
      forall x ensures x in Held() <==> x.id in runs && runs[x.id] == x {
        HeldMeans(x);
      }
      runs := runs - {r.id};
      forall x ensures x in Held() <==> x.id in runs && runs[x.id] == x {
        HeldMeans(x);
      }
    }

    /** `list_runs`. */
    method ListRuns(tenant: string, name: Option<string>, limit: nat) returns (found: seq<Run>)
      requires Valid()
      ensures Descending(found) && Elems(found) == Newest(Matching(Held(), tenant, name), limit)
      ensures limit <= RUNS_KEPT ==> Elems(found) == Newest(Matching(all, tenant, name), limit)
      ensures IsListing(Held(), tenant, name, limit, found)
      ensures limit <= RUNS_KEPT ==> IsListing(all, tenant, name, limit, found)
    {
      var mine := set id | id in runs && Matches(runs[id], tenant, name) :: runs[id];
      assert mine == Matching(Held(), tenant, name);
      found := SortNewestFirst(mine);
      PrefixIsNewest(found, limit);
      found := if limit < |found| then found[..limit] else found[..|found|];
      if limit <= RUNS_KEPT {
        ListingAgrees(all, Held(), tenant, name, limit);
        NewestIsListing(all, tenant, name, limit, found);
      }
      NewestIsListing(Held(), tenant, name, limit, found);
    }
  }

  /** A run of one tenant changes no listing of another's. */
  method ListAroundAdd(store: RunStore, r: Run, tenant: string, name: Option<string>, limit: nat)
    returns (before: seq<Run>, after: seq<Run>)
    requires store.Valid() && tenant != r.tenant && forall x :: x in store.all ==> x.id != r.id
    modifies store
    ensures before == after
  {
    before := store.ListRuns(tenant, name, limit);
    ghost var held := store.Held();
    var ok := store.AddRun(r);
    assert Matching(store.Held(), tenant, name) == Matching(held, tenant, name);
    after := store.ListRuns(tenant, name, limit);
    ListingUnique(before, after);
  }

  lemma SuffixIsRest(s: seq<Run>, n: nat)
    requires Descending(s)
    ensures var k := if n < |s| then n else |s|;
            Elems(s[k..]) == Elems(s) - Elems(s[..k])
  {
    var k := if n < |s| then n else |s|;
    assert s == s[..k] + s[k..];
    forall x | x in s[..k] && x in s[k..] ensures false {
    }
  }

  /** Of any name, as many runs are held as there were, up to `RUNS_KEPT`. */
  lemma HeldCount(all: set<Run>, held: set<Run>, like: Run)
    requires OneId(all) && Pruned(all, held)
    ensures var n := |Group(all, like)|; |Group(held, like)| == if n < RUNS_KEPT then n else RUNS_KEPT
  {
    GroupHolds(all, held, like);
    NewestCount(Group(all, like), RUNS_KEPT);
  }
}
