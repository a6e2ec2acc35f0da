/** The tenant forest: who administers whom, and which account pays. */
module Tenants {
  import opened Prelude

  type Id = nat
  type Surface = string

  const MAX_DEPTH: nat := 8

  /** Tenant ids, each with its parent. */
  type Parents = map<Id, Option<Id>>

  function ParentOf(tenants: Parents, t: Id): Option<Id> {
    if t in tenants then tenants[t] else None
  }

  /** Parents exist, and every child is one deeper than its parent. */
  ghost predicate Forest(tenants: Parents, depth: map<Id, nat>) {
    && depth.Keys == tenants.Keys
    && forall t :: t in tenants ==>
         if tenants[t] == None then depth[t] == 0
         else tenants[t].value in tenants && depth[t] == depth[tenants[t].value] + 1
  }

  /** The reference: a tenant, its parent, and so on to its root. */
  ghost function Chain(tenants: Parents, depth: map<Id, nat>, t: Id): seq<Id>
    requires Forest(tenants, depth)
    decreases if t in depth then depth[t] + 1 else 0
  {
    var p := ParentOf(tenants, t);
    [t] + if p == None then [] else Chain(tenants, depth, p.value)
  }

  ghost function Root(tenants: Parents, depth: map<Id, nat>, t: Id): Id
    requires Forest(tenants, depth)
  {
    var c := Chain(tenants, depth, t);
    c[|c| - 1]
  }

  /** The chain is as long as the tenant is deep, plus itself; each element is
      the parent of the one before; the last has none; none comes twice. */
  lemma {:induction false} ChainShape(tenants: Parents, depth: map<Id, nat>, t: Id)
    requires Forest(tenants, depth)
    ensures var c := Chain(tenants, depth, t);
            && |c| == (if t in tenants then depth[t] else 0) + 1
            && c[0] == t
            && (forall i :: 0 <= i < |c| - 1 ==> c[i] in tenants && ParentOf(tenants, c[i]) == Some(c[i + 1]))
            && ParentOf(tenants, c[|c| - 1]) == None
    decreases if t in depth then depth[t] + 1 else 0
  {
    var p := ParentOf(tenants, t);
    if p.Some? {
      ChainShape(tenants, depth, p.value);
    }
  }

  /** One step up the chain: only the last element has no parent. */
  lemma ChainStep(tenants: Parents, depth: map<Id, nat>, t: Id, i: nat)
    requires Forest(tenants, depth) && i < |Chain(tenants, depth, t)|
    ensures var c := Chain(tenants, depth, t);
            ParentOf(tenants, c[i]) == if i == |c| - 1 then None else Some(c[i + 1])
  {
    ChainShape(tenants, depth, t);
  }

  lemma {:induction false} ChainDepths(tenants: Parents, depth: map<Id, nat>, t: Id, i: nat)
    requires Forest(tenants, depth) && i < |Chain(tenants, depth, t)|
    ensures var c := Chain(tenants, depth, t); (if c[i] in tenants then depth[c[i]] else 0) == |c| - 1 - i
    decreases i
  {
    ChainShape(tenants, depth, t);
    if i > 0 {
      ChainDepths(tenants, depth, t, i - 1);
    }
  }

  lemma ChainNoDups(tenants: Parents, depth: map<Id, nat>, t: Id)
    requires Forest(tenants, depth)
    ensures NoDups(Chain(tenants, depth, t))
  {
    var c := Chain(tenants, depth, t);
    forall i, j | 0 <= i < j < |c| ensures c[i] != c[j] {
      ChainDepths(tenants, depth, t, i);
      ChainDepths(tenants, depth, t, j);
    }
  }

  // ── the two walks, and where they agree ──

  /** What `_subtree` returns: everyone whose chain passes through `root`. */
  ghost function Subtree(tenants: Parents, depth: map<Id, nat>, root: Id): set<Id>
    requires Forest(tenants, depth)
  {
    {root} + set t | t in tenants && root in Chain(tenants, depth, t)
  }

  /** What `may_administer` answers: the actor is among the first
      `MAX_DEPTH + 1` of the target's chain. */
  ghost predicate MayAdminister(tenants: Parents, depth: map<Id, nat>, actor: Id, target: Id)
    requires Forest(tenants, depth)
  {
    actor in Upward(Chain(tenants, depth, target))
  }

  ghost function Upward(chain: seq<Id>): seq<Id> {
    if |chain| <= MAX_DEPTH + 1 then chain else chain[..MAX_DEPTH + 1]
  }

  lemma InSubtree(tenants: Parents, depth: map<Id, nat>, a: Id, t: Id)
    requires Forest(tenants, depth)
    ensures t in Subtree(tenants, depth, a) <==> a in Chain(tenants, depth, t)
  {
    ChainShape(tenants, depth, t);
    if t !in tenants {
      assert Chain(tenants, depth, t) == [t];
    }
  }

  predicate Shallow(depth: map<Id, nat>, t: Id) {
    t in depth ==> depth[t] <= MAX_DEPTH
  }

  /** The upward walk and the downward fixpoint agree on a target, for every
      actor, exactly when the target is at most `MAX_DEPTH` deep. */
  lemma UpMeetsDown(tenants: Parents, depth: map<Id, nat>, t: Id)
    requires Forest(tenants, depth)
    ensures (forall a :: MayAdminister(tenants, depth, a, t) <==> t in Subtree(tenants, depth, a))
       <==> Shallow(depth, t)
  {
    var c := Chain(tenants, depth, t);
    ChainShape(tenants, depth, t);
    if |c| <= MAX_DEPTH + 1 {
      forall a ensures MayAdminister(tenants, depth, a, t) <==> t in Subtree(tenants, depth, a) {
        InSubtree(tenants, depth, a, t);
      }
    } else {
      var far := c[MAX_DEPTH + 1];
      InSubtree(tenants, depth, far, t);
      ChainNoDups(tenants, depth, t);
      assert far in c && far !in c[..MAX_DEPTH + 1];
    }
  }

  /** What `billing_root` returns. */
  ghost function Payer(tenants: Parents, depth: map<Id, nat>, t: Id): Id
    requires Forest(tenants, depth)
  {
    var c := Upward(Chain(tenants, depth, t));
    c[|c| - 1]
  }

  /** The root of a tenant's chain is the one root whose subtree holds it. */
  lemma RootIsAbove(tenants: Parents, depth: map<Id, nat>, t: Id, r: Id)
    requires Forest(tenants, depth)
    ensures r == Root(tenants, depth, t) <==> ParentOf(tenants, r) == None && t in Subtree(tenants, depth, r)
  {
    var c := Chain(tenants, depth, t);
    ChainShape(tenants, depth, t);
    InSubtree(tenants, depth, r, t);
    if r in c && ParentOf(tenants, r) == None {
      var i :| 0 <= i < |c| && c[i] == r;
      ChainStep(tenants, depth, t, i);
    }
    if r == Root(tenants, depth, t) {
      assert r in c;
    }
  }

  /** At most `MAX_DEPTH` deep, the payer is that root. */
  lemma PayerIsTheRoot(tenants: Parents, depth: map<Id, nat>, t: Id, r: Id)
    requires Forest(tenants, depth) && Shallow(depth, t)
    ensures r == Payer(tenants, depth, t) <==> ParentOf(tenants, r) == None && t in Subtree(tenants, depth, r)
  {
    ChainShape(tenants, depth, t);
    RootIsAbove(tenants, depth, t, r);
  }

  /** Deeper than that, the walk stops below the root: the payer is an account
      with a parent. */
  lemma PayerIsARootIff(tenants: Parents, depth: map<Id, nat>, t: Id)
    requires Forest(tenants, depth)
    ensures ParentOf(tenants, Payer(tenants, depth, t)) == None <==> Shallow(depth, t)
    ensures Payer(tenants, depth, t) == Root(tenants, depth, t) <==> Shallow(depth, t)
  {
    var c := Chain(tenants, depth, t);
    ChainShape(tenants, depth, t);
    if |c| > MAX_DEPTH + 1 {
      ChainStep(tenants, depth, t, MAX_DEPTH);
    }
  }

  // ── usage ──

  type Bucket = (Id, int, Surface)

  /** Requests counted in a set of buckets. */
  ghost function Requests(usage: map<Bucket, nat>, buckets: set<Bucket>): nat
    requires buckets <= usage.Keys
  {
    if buckets == {} then 0
    else
      var b :| b in buckets;
      usage[b] + Requests(usage, buckets - {b})
  }

  lemma {:induction false} RequestsAdd(usage: map<Bucket, nat>, buckets: set<Bucket>, b: Bucket)
    requires buckets <= usage.Keys && b in usage && b !in buckets
    ensures Requests(usage, buckets + {b}) == Requests(usage, buckets) + usage[b]
    decreases |buckets|
  {
    var all := buckets + {b};
    var x :| x in all && Requests(usage, all) == usage[x] + Requests(usage, all - {x});
    if x == b {
      assert all - {x} == buckets;
    } else {
      assert all - {x} == (buckets - {x}) + {b};
      RequestsAdd(usage, buckets - {x}, b);
      RequestsAdd(usage, buckets - {x}, x);
      assert buckets == (buckets - {x}) + {x};
    }
  }

  lemma {:induction false} RequestsSame(usage: map<Bucket, nat>, other: map<Bucket, nat>, buckets: set<Bucket>)
    requires buckets <= usage.Keys && buckets <= other.Keys
    requires forall b :: b in buckets ==> usage[b] == other[b]
    ensures Requests(usage, buckets) == Requests(other, buckets)
    decreases |buckets|
  {
    if buckets != {} {
      var b :| b in buckets;
      RequestsSame(usage, other, buckets - {b});
      RequestsAdd(usage, buckets - {b}, b);
      RequestsAdd(other, buckets - {b}, b);
      assert buckets == (buckets - {b}) + {b};
    }
  }

  ghost function Counted(usage: map<Bucket, nat>, who: set<Id>, since: int): set<Bucket> {
    set b | b in usage && b.0 in who && b.1 >= since
  }

  /** What `usage_since` returns. */
  ghost function UsageSince(usage: map<Bucket, nat>, who: set<Id>, since: int): nat {
    Requests(usage, Counted(usage, who, since))
  }

  function Bump(usage: map<Bucket, nat>, b: Bucket): map<Bucket, nat> {
    usage[b := (if b in usage then usage[b] else 0) + 1]
  }

  /** One request raises a group's usage by one when it is in the group and the
      period, and leaves it alone otherwise. */
  lemma BumpRaises(usage: map<Bucket, nat>, b: Bucket, who: set<Id>, since: int)
    ensures UsageSince(Bump(usage, b), who, since)
         == UsageSince(usage, who, since) + if b.0 in who && b.1 >= since then 1 else 0
  {
    var after := Bump(usage, b);
    var others := Counted(usage, who, since) - {b};
    RequestsSame(usage, after, others);
    if b.0 in who && b.1 >= since {
      assert Counted(after, who, since) == others + {b};
      RequestsAdd(after, others, b);
      if b in usage {
        assert Counted(usage, who, since) == others + {b};
        RequestsAdd(usage, others, b);
      } else {
        assert Counted(usage, who, since) == others;
      }
    } else {
      assert Counted(after, who, since) == others == Counted(usage, who, since);
    }
  }

  /** Metering is conserved: a request by any tenant, however deep, raises the
      usage of the root above it by one, and of no other root, for any period
      that includes its hour. */
  lemma EachRequestBillsOneRoot(tenants: Parents, depth: map<Id, nat>, usage: map<Bucket, nat>, b: Bucket, r: Id,
                                since: int)
    requires Forest(tenants, depth) && ParentOf(tenants, r) == None && b.1 >= since
    ensures UsageSince(Bump(usage, b), Subtree(tenants, depth, r), since)
         == UsageSince(usage, Subtree(tenants, depth, r), since) + if r == Root(tenants, depth, b.0) then 1 else 0
  {
    BumpRaises(usage, b, Subtree(tenants, depth, r), since);
    RootIsAbove(tenants, depth, b.0, r);
  }

  // ── quota ──

  datatype Plan = Free | Pro | Team | Enterprise

  /** Requests a month; 0 means unmetered. */
  function Limit(p: Plan): nat {
    match p
    case Free => 5_000
    case Pro => 100_000
    case Team => 1_000_000
    case Enterprise => 0
  }

  datatype Quota = Quota(limit: nat, used: nat) {
    predicate Exceeded() {
      limit != 0 && used >= limit
    }
  }

  function PlanOf(plans: map<Id, Plan>, t: Id): Plan {
    if t in plans then plans[t] else Free
  }

  /** An account's usage since a time, its whole subtree's, against its plan. */
  ghost function QuotaAt(tenants: Parents, depth: map<Id, nat>, plans: map<Id, Plan>, usage: map<Bucket, nat>,
                         account: Id, since: int): Quota
    requires Forest(tenants, depth)
  {
    Quota(Limit(PlanOf(plans, account)), UsageSince(usage, Subtree(tenants, depth, account), since))
  }

  /** That of the account that pays for a tenant. */
  ghost function QuotaOf(tenants: Parents, depth: map<Id, nat>, plans: map<Id, Plan>, usage: map<Bucket, nat>, t: Id,
                         since: int): Quota
    requires Forest(tenants, depth)
  {
    QuotaAt(tenants, depth, plans, usage, Payer(tenants, depth, t), since)
  }

  /** A run of requests, each recorded unless its payer's quota is exceeded. */
  ghost function Served(tenants: Parents, depth: map<Id, nat>, plans: map<Id, Plan>, usage: map<Bucket, nat>,
                        requests: seq<Bucket>, since: int): map<Bucket, nat>
    requires Forest(tenants, depth)
  {
    if requests == [] then usage
    else
      var n := |requests| - 1;
      var before := Served(tenants, depth, plans, usage, requests[..n], since);
      if QuotaOf(tenants, depth, plans, before, requests[n].0, since).Exceeded() then before
      else Bump(before, requests[n])
  }

  /** How many of the requests come from under a root. */
  ghost function Asked(tenants: Parents, depth: map<Id, nat>, r: Id, requests: seq<Bucket>): nat
    requires Forest(tenants, depth)
  {
    if requests == [] then 0
    else
      var n := |requests| - 1;
      Asked(tenants, depth, r, requests[..n]) + if Root(tenants, depth, requests[n].0) == r then 1 else 0
  }

  /** How many of those come from as deep as the walk reaches, and how many from
      deeper. */
  ghost function AskedShallow(tenants: Parents, depth: map<Id, nat>, r: Id, requests: seq<Bucket>): nat
    requires Forest(tenants, depth)
  {
    if requests == [] then 0
    else
      var n := |requests| - 1;
      AskedShallow(tenants, depth, r, requests[..n])
      + if Root(tenants, depth, requests[n].0) == r && Shallow(depth, requests[n].0) then 1 else 0
  }

  ghost function AskedDeep(tenants: Parents, depth: map<Id, nat>, r: Id, requests: seq<Bucket>): nat
    requires Forest(tenants, depth)
  {
    if requests == [] then 0
    else
      var n := |requests| - 1;
      AskedDeep(tenants, depth, r, requests[..n])
      + if Root(tenants, depth, requests[n].0) == r && !Shallow(depth, requests[n].0) then 1 else 0
  }

  /** What an account has used once it has asked for `asked` more. */
  function Spent(limit: nat, used: nat, asked: nat): nat {
    if limit == 0 then used + asked
    else if used >= limit then used
    else if used + asked < limit then used + asked
    else limit
  }

  /** One gated request more: a root's recorded usage goes up by one exactly when
      the request comes from under it and the payer's quota allows it. */
  lemma ServedNext(tenants: Parents, depth: map<Id, nat>, plans: map<Id, Plan>, usage: map<Bucket, nat>,
                   requests: seq<Bucket>, since: int, r: Id)
    requires Forest(tenants, depth) && ParentOf(tenants, r) == None
    requires requests != [] && requests[|requests| - 1].1 >= since
    ensures var n, who := |requests| - 1, Subtree(tenants, depth, r);
            var t, before := requests[n].0, Served(tenants, depth, plans, usage, requests[..n], since);
            UsageSince(Served(tenants, depth, plans, usage, requests, since), who, since)
            == UsageSince(before, who, since)
               + if r != Root(tenants, depth, t) || QuotaOf(tenants, depth, plans, before, t, since).Exceeded() then 0
                 else 1
  {
    var n := |requests| - 1;
    EachRequestBillsOneRoot(tenants, depth, Served(tenants, depth, plans, usage, requests[..n], since), requests[n],
                            r, since);
  }

  /** From no deeper than the walk reaches, the quota that gates a request is its
      root's. */
  lemma ShallowGate(tenants: Parents, depth: map<Id, nat>, plans: map<Id, Plan>, usage: map<Bucket, nat>, t: Id,
                    since: int)
    requires Forest(tenants, depth) && Shallow(depth, t)
    ensures QuotaOf(tenants, depth, plans, usage, t, since)
         == QuotaAt(tenants, depth, plans, usage, Root(tenants, depth, t), since)
  {
    PayerIsARootIff(tenants, depth, t);
  }

  /** From deeper, it is that of an account that has a parent itself: the root's
      plan and usage are not read, and a request that account allows puts the
      root one further, past its own limit if need be. */
  lemma DeepRequest(tenants: Parents, depth: map<Id, nat>, plans: map<Id, Plan>, usage: map<Bucket, nat>,
                    requests: seq<Bucket>, since: int)
    requires Forest(tenants, depth) && requests != []
    requires requests[|requests| - 1].1 >= since && !Shallow(depth, requests[|requests| - 1].0)
    ensures var n := |requests| - 1;
            var b, before := requests[n], Served(tenants, depth, plans, usage, requests[..n], since);
            var payer, r := Payer(tenants, depth, b.0), Root(tenants, depth, b.0);
            && ParentOf(tenants, payer).Some? && payer != r
            && UsageSince(Served(tenants, depth, plans, usage, requests, since), Subtree(tenants, depth, r), since)
               == UsageSince(before, Subtree(tenants, depth, r), since)
                  + if QuotaAt(tenants, depth, plans, before, payer, since).Exceeded() then 0 else 1
  {
    var b := requests[|requests| - 1];
    PayerIsARootIff(tenants, depth, b.0);
    RootIsAbove(tenants, depth, b.0, Root(tenants, depth, b.0));
    ServedNext(tenants, depth, plans, usage, requests, since, Root(tenants, depth, b.0));
  }

  /** What a root has used, after a run of gated requests. */
  ghost function UsedBy(tenants: Parents, depth: map<Id, nat>, plans: map<Id, Plan>, usage: map<Bucket, nat>,
                        requests: seq<Bucket>, since: int, r: Id): nat
    requires Forest(tenants, depth)
  {
    UsageSince(Served(tenants, depth, plans, usage, requests, since), Subtree(tenants, depth, r), since)
  }

  /** Whether the last request of a run passed its payer's gate. */
  ghost predicate Passed(tenants: Parents, depth: map<Id, nat>, plans: map<Id, Plan>, usage: map<Bucket, nat>,
                         requests: seq<Bucket>, since: int)
    requires Forest(tenants, depth) && requests != []
  {
    var n := |requests| - 1;
    var before := Served(tenants, depth, plans, usage, requests[..n], since);
    !QuotaOf(tenants, depth, plans, before, requests[n].0, since).Exceeded()
  }

  /** How many of a root's deep requests passed the gate of the account that
      stands for it. */
  ghost function DeepPassed(tenants: Parents, depth: map<Id, nat>, plans: map<Id, Plan>, usage: map<Bucket, nat>,
                            requests: seq<Bucket>, since: int, r: Id): nat
    requires Forest(tenants, depth)
  {
    if requests == [] then 0
    else
      var n := |requests| - 1;
      DeepPassed(tenants, depth, plans, usage, requests[..n], since, r)
      + if Root(tenants, depth, requests[n].0) == r && !Shallow(depth, requests[n].0)
           && Passed(tenants, depth, plans, usage, requests, since) then 1 else 0
  }

  lemma UsedNext(tenants: Parents, depth: map<Id, nat>, plans: map<Id, Plan>, usage: map<Bucket, nat>,
                 requests: seq<Bucket>, since: int, r: Id)
    requires Forest(tenants, depth) && ParentOf(tenants, r) == None
    requires requests != [] && requests[|requests| - 1].1 >= since
    ensures var n := |requests| - 1;
            var t, was := requests[n].0, UsedBy(tenants, depth, plans, usage, requests[..n], since, r);
            var now, limit := UsedBy(tenants, depth, plans, usage, requests, since, r), Limit(PlanOf(plans, r));
            if Root(tenants, depth, t) != r then now == was
            else if Shallow(depth, t) then now == was + if limit != 0 && was >= limit then 0 else 1
            else now == was + if Passed(tenants, depth, plans, usage, requests, since) then 1 else 0
  {
    var n := |requests| - 1;
    ServedNext(tenants, depth, plans, usage, requests, since, r);
    if Shallow(depth, requests[n].0) {
      ShallowGate(tenants, depth, plans, Served(tenants, depth, plans, usage, requests[..n], since), requests[n].0,
                  since);
    }
  }

  /** What shallow requests alone would have used, and what the deep ones that
      passed can have added to it; without a limit they add themselves. */
  predicate Between(limit: nat, first: nat, shallow: nat, deep: nat, used: nat) {
    var spent := Spent(limit, first, shallow);
    spent <= used <= spent + deep && (limit == 0 ==> used == spent + deep)
  }

  /** What one request does to those three numbers: nothing, or a shallow request
      gated by the limit, or a deep one that passed. */
  predicate Steps(limit: nat, shallow: nat, deep: nat, was: nat, shallowNow: nat, deepNow: nat, now: nat) {
    || (shallowNow == shallow && deepNow == deep && now == was)
    || (shallowNow == shallow + 1 && deepNow == deep && now == was + if limit != 0 && was >= limit then 0 else 1)
    || (shallowNow == shallow && deepNow == deep + 1 && now == was + 1)
  }

  lemma StaysBetween(limit: nat, first: nat, shallow: nat, deep: nat, was: nat, shallowNow: nat, deepNow: nat, now: nat)
    requires Between(limit, first, shallow, deep, was) && Steps(limit, shallow, deep, was, shallowNow, deepNow, now)
    ensures Between(limit, first, shallowNow, deepNow, now)
  {
  }

  lemma UsedSteps(tenants: Parents, depth: map<Id, nat>, plans: map<Id, Plan>, usage: map<Bucket, nat>,
                  requests: seq<Bucket>, since: int, r: Id)
    requires Forest(tenants, depth) && ParentOf(tenants, r) == None
    requires requests != [] && requests[|requests| - 1].1 >= since
    ensures var some := requests[..|requests| - 1];
            Steps(Limit(PlanOf(plans, r)), AskedShallow(tenants, depth, r, some),
                  DeepPassed(tenants, depth, plans, usage, some, since, r),
                  UsedBy(tenants, depth, plans, usage, some, since, r),
                  AskedShallow(tenants, depth, r, requests),
                  DeepPassed(tenants, depth, plans, usage, requests, since, r),
                  UsedBy(tenants, depth, plans, usage, requests, since, r))
  {
    UsedNext(tenants, depth, plans, usage, requests, since, r);
  }

  /** A whole subtree shares one allowance: whoever the requests come from, and in
      whatever order, a root's recorded usage is what it had plus what its own
      subtree asked for from as deep as the walk reaches, up to its plan's limit,
      and no more on top of that than its deep requests that passed another
      account's gate. Without any such it is exactly the first; no other root's
      requests move it. */
  lemma {:induction false} AllowanceIsExact(tenants: Parents, depth: map<Id, nat>, plans: map<Id, Plan>,
                                            usage: map<Bucket, nat>, requests: seq<Bucket>, since: int, r: Id)
    requires Forest(tenants, depth) && ParentOf(tenants, r) == None
    requires forall b :: b in requests ==> b.1 >= since
    ensures Between(Limit(PlanOf(plans, r)), UsageSince(usage, Subtree(tenants, depth, r), since),
                    AskedShallow(tenants, depth, r, requests),
                    DeepPassed(tenants, depth, plans, usage, requests, since, r),
                    UsedBy(tenants, depth, plans, usage, requests, since, r))
  {
    if requests != [] {
      var n := |requests| - 1;
      AllowanceIsExact(tenants, depth, plans, usage, requests[..n], since, r);
      UsedSteps(tenants, depth, plans, usage, requests, since, r);
      StaysBetween(Limit(PlanOf(plans, r)), UsageSince(usage, Subtree(tenants, depth, r), since),
                   AskedShallow(tenants, depth, r, requests[..n]),
                   DeepPassed(tenants, depth, plans, usage, requests[..n], since, r),
                   UsedBy(tenants, depth, plans, usage, requests[..n], since, r),
                   AskedShallow(tenants, depth, r, requests),
                   DeepPassed(tenants, depth, plans, usage, requests, since, r),
                   UsedBy(tenants, depth, plans, usage, requests, since, r));
    }
  }

  /** Every request under a root is shallow or deep, and of the deep ones some
      pass. */
  lemma {:induction false} AskedSplits(tenants: Parents, depth: map<Id, nat>, plans: map<Id, Plan>,
                                       usage: map<Bucket, nat>, requests: seq<Bucket>, since: int, r: Id)
    requires Forest(tenants, depth)
    ensures Asked(tenants, depth, r, requests)
         == AskedShallow(tenants, depth, r, requests) + AskedDeep(tenants, depth, r, requests)
    ensures DeepPassed(tenants, depth, plans, usage, requests, since, r) <= AskedDeep(tenants, depth, r, requests)
  {
    if requests != [] {
      AskedSplits(tenants, depth, plans, usage, requests[..|requests| - 1], since, r);
    }
  }

  lemma SpentRises(limit: nat, first: nat, some: nat, all: nat)
    requires some <= all
    ensures Spent(limit, first, some) <= Spent(limit, first, all)
  {
  }

  /** So deep requests are all that can take a root past its allowance; and where
      none is asked for, the allowance is exact. */
  lemma AllowanceBound(tenants: Parents, depth: map<Id, nat>, plans: map<Id, Plan>, usage: map<Bucket, nat>,
                       requests: seq<Bucket>, since: int, r: Id)
    requires Forest(tenants, depth) && ParentOf(tenants, r) == None
    requires forall b :: b in requests ==> b.1 >= since
    ensures var spent := Spent(Limit(PlanOf(plans, r)), UsageSince(usage, Subtree(tenants, depth, r), since),
                               Asked(tenants, depth, r, requests));
            var used := UsedBy(tenants, depth, plans, usage, requests, since, r);
            var deep := AskedDeep(tenants, depth, r, requests);
            used <= spent + deep && (deep == 0 ==> used == spent)
  {
    AllowanceIsExact(tenants, depth, plans, usage, requests, since, r);
    AskedSplits(tenants, depth, plans, usage, requests, since, r);
    SpentRises(Limit(PlanOf(plans, r)), UsageSince(usage, Subtree(tenants, depth, r), since),
               AskedShallow(tenants, depth, r, requests), Asked(tenants, depth, r, requests));
  }

  // ── a tenant deeper than the walk reaches ──

  /** `n` tenants in a line: 0 a root, each next the child of the one before. */
  function Line(n: nat): Parents {
    if n == 0 then map[] else Line(n - 1)[n - 1 := LineParent(n - 1)]
  }

  function LineParent(t: Id): Option<Id> {
    if t == 0 then None else Some(t - 1)
  }

  lemma {:induction false} LineHas(n: nat, t: Id)
    ensures t in Line(n) <==> t < n
    ensures t < n ==> ParentOf(Line(n), t) == LineParent(t)
  {
    if n > 0 {
      LineHas(n - 1, t);
    }
  }

  lemma {:induction false} LineChain(n: nat, depth: map<Id, nat>, t: Id)
    requires Forest(Line(n), depth) && t < n
    ensures CountsDown(Chain(Line(n), depth, t), t)
    decreases t
  {
    LineHas(n, t);
    if t > 0 {
      LineChain(n, depth, t - 1);
      assert Chain(Line(n), depth, t) == [t] + Chain(Line(n), depth, t - 1);
    }
  }

  ghost predicate CountsDown(c: seq<Id>, t: nat) {
    |c| == t + 1 && forall j :: 0 <= j <= t ==> c[j] == t - j
  }

  /** A tenant under a root that the root may not administer, and that an account
      with a parent pays for. */
  ghost predicate OutOfReach(tenants: Parents, depth: map<Id, nat>, root: Id, t: Id)
    requires Forest(tenants, depth)
  {
    && t in Subtree(tenants, depth, root) && !MayAdminister(tenants, depth, root, t)
    && ParentOf(tenants, Payer(tenants, depth, t)).Some?
  }

  /** From `MAX_DEPTH + 1` levels below it on, a root has one. */
  lemma LineTooDeep(n: nat, depth: map<Id, nat>, t: Id)
    requires Forest(Line(n), depth) && MAX_DEPTH < t < n
    ensures OutOfReach(Line(n), depth, 0, t) && Payer(Line(n), depth, t) == t - MAX_DEPTH
  {
    LineHas(n, t - MAX_DEPTH);
    LineChain(n, depth, t);
    TooDeep(Line(n), depth, t);
  }

  lemma TooDeep(tenants: Parents, depth: map<Id, nat>, t: Id)
    requires Forest(tenants, depth) && t > MAX_DEPTH && CountsDown(Chain(tenants, depth, t), t)
    requires ParentOf(tenants, t - MAX_DEPTH).Some?
    ensures OutOfReach(tenants, depth, 0, t) && Payer(tenants, depth, t) == t - MAX_DEPTH
  {
    var c := Chain(tenants, depth, t);
    InSubtree(tenants, depth, 0, t);
    StopsShort(c, t);
    assert MayAdminister(tenants, depth, 0, t) == (0 in Upward(c));
    assert Payer(tenants, depth, t) == Upward(c)[|Upward(c)| - 1];
  }

  lemma StopsShort(c: seq<Id>, t: nat)
    requires CountsDown(c, t) && t > MAX_DEPTH
    ensures 0 in c && 0 !in Upward(c) && Upward(c)[|Upward(c)| - 1] == t - MAX_DEPTH
  {
    assert c[t] == 0;
    forall j | 0 <= j <= MAX_DEPTH ensures c[j] != 0 {
    }
  }

  /** `i` steps up a chain: what was passed on the way, and where it led. */
  ghost predicate Climbed(c: seq<Id>, out: seq<Id>, current: Id, i: nat) {
    i < |c| && c[i] == current && [c[0]] + out == c[..i + 1]
  }

  lemma ClimbOn(c: seq<Id>, out: seq<Id>, current: Id, i: nat)
    requires Climbed(c, out, current, i) && i + 1 < |c|
    ensures Climbed(c, out + [c[i + 1]], c[i + 1], i + 1)
  {
    assert c[..i + 2] == c[..i + 1] + [c[i + 1]];
  }

  lemma ClimbEnds(c: seq<Id>, out: seq<Id>, current: Id, i: nat)
    requires Climbed(c, out, current, i) && i <= MAX_DEPTH && (i == MAX_DEPTH || i == |c| - 1)
    ensures [c[0]] + out == Upward(c)
  {
  }

  /** The sum over the counted buckets that are not in `rest`. */
  ghost function SumSoFar(usage: map<Bucket, nat>, who: set<Id>, since: int, rest: set<Bucket>): nat {
    Requests(usage, Counted(usage, who, since) - rest)
  }

  lemma OneBucketMore(usage: map<Bucket, nat>, who: set<Id>, since: int, rest: set<Bucket>, b: Bucket)
    requires b in rest && b in usage
    ensures SumSoFar(usage, who, since, rest - {b})
         == SumSoFar(usage, who, since, rest) + if b.0 in who && b.1 >= since then usage[b] else 0
  {
    var seen := Counted(usage, who, since) - rest;
    if b.0 in who && b.1 >= since {
      RequestsAdd(usage, seen, b);
      assert Counted(usage, who, since) - (rest - {b}) == seen + {b};
    } else {
      assert Counted(usage, who, since) - (rest - {b}) == seen;
    }
  }

  lemma NoneAndAll(usage: map<Bucket, nat>, who: set<Id>, since: int)
    ensures SumSoFar(usage, who, since, usage.Keys) == 0
    ensures SumSoFar(usage, who, since, {}) == UsageSince(usage, who, since)
  {
    assert Counted(usage, who, since) - usage.Keys == {};
    assert Counted(usage, who, since) - {} == Counted(usage, who, since);
  }

  method AddUp(usage: map<Bucket, nat>, who: set<Id>, since: int) returns (total: nat)
    ensures total == UsageSince(usage, who, since)
  {
    total := 0;
    var rest := usage.Keys;
    NoneAndAll(usage, who, since);
    while rest != {}
      invariant rest <= usage.Keys && total == SumSoFar(usage, who, since, rest)
      decreases |rest|
    {
      var b :| b in rest;
      OneBucketMore(usage, who, since, rest, b);
      rest := rest - {b};
      if b.0 in who && b.1 >= since {
        total := total + usage[b];
      }
    }
  }

  // ── the store ──

  /** The tables whose entries belong to a tenant, each under a key of its own. */
  datatype Table =
    Keys | Credentials | Sessions | RunRecords | Conversations | Tickets | Replies | Billing | Imports | Layouts

  type Email = string

  function UsageOutside(usage: map<Bucket, nat>, gone: set<Id>): map<Bucket, nat> {
    map b | b in usage && b.0 !in gone :: usage[b]
  }

  function OwnedOutside<K>(owners: map<K, Id>, gone: set<Id>): map<K, Id> {
    map k | k in owners && owners[k] !in gone :: owners[k]
  }

  /** A pending sign-up goes with the account under its address. */
  function SignupsOutside(signups: map<string, Email>, accounts: map<Email, Id>, gone: set<Id>): map<string, Email> {
    var emails := set e | e in accounts && accounts[e] in gone;
    map k | k in signups && signups[k] !in emails :: signups[k]
  }

  lemma NothingOutside(usage: map<Bucket, nat>, records: map<(Table, string), Id>, accounts: map<Email, Id>,
                       signups: map<string, Email>)
    ensures UsageOutside(usage, {}) == usage
    ensures OwnedOutside(records, {}) == records && OwnedOutside(accounts, {}) == accounts
    ensures SignupsOutside(signups, accounts, {}) == signups
  {
  }

  /** So nothing in any table belongs to a tenant that is gone. */
  lemma NothingLeftBehind(usage: map<Bucket, nat>, records: map<(Table, string), Id>, accounts: map<Email, Id>,
                          signups: map<string, Email>, gone: set<Id>)
    ensures forall b :: b in UsageOutside(usage, gone) <==> b in usage && b.0 !in gone
    ensures OwnedOutside(records, gone).Values !! gone && OwnedOutside(accounts, gone).Values !! gone
    ensures forall k :: k in signups && k !in SignupsOutside(signups, accounts, gone) <==>
              k in signups && signups[k] in accounts && signups[k] !in OwnedOutside(accounts, gone)
  {
  }

  class MemoryStore {
    var tenants: Parents
    var records: map<(Table, string), Id>
    var accounts: map<Email, Id>
    var signups: map<string, Email>
    var usage: map<Bucket, nat>
    var plans: map<Id, Plan>
    ghost var depth: map<Id, nat>

    ghost predicate Valid()
      reads this
    {
      Forest(tenants, depth)
    }

    constructor ()
      ensures Valid() && tenants == map[] && usage == map[] && plans == map[]
      ensures records == map[] && accounts == map[] && signups == map[]
    {
      tenants, usage, plans, depth := map[], map[], map[], map[];
      records, accounts, signups := map[], map[], map[];
    }

    /** `create_tenant`; `id` is the fresh id drawn. */
    method CreateTenant(id: Id, parent: Option<Id>) returns (ok: bool)
      requires Valid() && id !in tenants
      modifies this`tenants, this`depth
      ensures Valid()
      ensures ok <==> parent == None || parent.value in old(tenants)
      ensures tenants == if ok then old(tenants)[id := parent] else old(tenants)
    {
      if parent.Some? && parent.value !in tenants {
        return false;
      }
      depth := depth[id := if parent == None then 0 else depth[parent.value] + 1];
      tenants := tenants[id := parent];
      ok := true;
    }

    method RecordRequest(t: Id, hour: int, surface: Surface)
      requires Valid()
      modifies this`usage
      ensures usage == Bump(old(usage), (t, hour, surface))
    {
      var b := (t, hour, surface);
      usage := usage[b := (if b in usage then usage[b] else 0) + 1];
    }

    /** `ancestors`: from the parent upwards, at most `MAX_DEPTH` of them. */
    method Ancestors(t: Id) returns (out: seq<Id>)
      requires Valid()
      ensures [t] + out == Upward(Chain(tenants, depth, t))
    {
      out := [];
      var current := t;
      ghost var c := Chain(tenants, depth, t);
      ChainShape(tenants, depth, t);
      for i := 0 to MAX_DEPTH
        invariant Climbed(c, out, current, i)
      {
        ChainStep(tenants, depth, t, i);
        var p := ParentOf(tenants, current);
        if p == None {
          ClimbEnds(c, out, current, i);
          return;
        }
        ClimbOn(c, out, current, i);
        out := out + [p.value];
        current := p.value;
      }
      ClimbEnds(c, out, current, MAX_DEPTH);
    }

    method MayAct(actor: Id, target: Id) returns (ok: bool)
      requires Valid()
      ensures ok <==> MayAdminister(tenants, depth, actor, target)
    {
      if actor == target {
        ChainShape(tenants, depth, target);
        assert Upward(Chain(tenants, depth, target))[0] == actor;
        return true;
      }
      var above := Ancestors(target);
      assert Upward(Chain(tenants, depth, target)) == [target] + above;
      ok := actor in above;
    }

    method BillingRoot(t: Id) returns (payer: Id)
      requires Valid()
      ensures payer == Payer(tenants, depth, t)
    {
      payer := t;
      ghost var c := Chain(tenants, depth, t);
      ChainShape(tenants, depth, t);
      for i := 0 to MAX_DEPTH
        invariant i < |c| && c[i] == payer
      {
        ChainStep(tenants, depth, t, i);
        var p := ParentOf(tenants, payer);
        if p == None {
          return;
        }
        payer := p.value;
      }
    }

    /** Of these tenants, every child of the set is in it. */
    ghost predicate Closed(some: set<Id>, subtree: set<Id>)
      reads this
    {
      forall t :: t in some && t in tenants && tenants[t].Some? && tenants[t].value in subtree ==> t in subtree
    }

    /** One pass over the tenants: whoever's parent is in joins. */
    method Widen(subtree: set<Id>, ghost root: Id) returns (wider: set<Id>, changed: bool)
      requires Valid() && root in subtree && subtree <= Subtree(tenants, depth, root)
      ensures subtree <= wider <= Subtree(tenants, depth, root)
      ensures changed ==> |Subtree(tenants, depth, root) - wider| < |Subtree(tenants, depth, root) - subtree|
      ensures !changed ==> wider == subtree && Closed(tenants.Keys, subtree)
    {
      wider, changed := subtree, false;
      ghost var full := Subtree(tenants, depth, root);
      var rest := tenants.Keys;
      while rest != {}
        invariant rest <= tenants.Keys && subtree <= wider <= full
        invariant changed ==> |full - wider| < |full - subtree|
        invariant !changed ==> wider == subtree && Closed(tenants.Keys - rest, subtree)
        decreases |rest|
      {
        var t :| t in rest;
        rest := rest - {t};
        if tenants[t].Some? && tenants[t].value in wider && t !in wider {
          InSubtree(tenants, depth, root, tenants[t].value);
          InSubtree(tenants, depth, root, t);
          assert full - (wider + {t}) == (full - wider) - {t};
          wider, changed := wider + {t}, true;
        }
      }
    }

    /** `_subtree`: pass after pass until nothing changes. */
    method FindSubtree(root: Id) returns (subtree: set<Id>)
      requires Valid()
      ensures subtree == Subtree(tenants, depth, root)
    {
      subtree := {root};
      var changed := true;
      while changed
        invariant root in subtree && subtree <= Subtree(tenants, depth, root)
        invariant !changed ==> Closed(tenants.Keys, subtree)
        decreases |Subtree(tenants, depth, root) - subtree|, changed
      {
        subtree, changed := Widen(subtree, root);
      }
      forall t | t in tenants && root in Chain(tenants, depth, t) ensures t in subtree {
        ClosedHolds(tenants, depth, root, subtree, t);
      }
    }

    method UsageOf(root: Id, since: int) returns (total: nat)
      requires Valid()
      ensures total == UsageSince(usage, Subtree(tenants, depth, root), since)
    {
      var subtree := FindSubtree(root);
      total := AddUp(usage, subtree, since);
    }

    /** `quota`. */
    method QuotaFor(t: Id, since: int) returns (q: Quota)
      requires Valid()
      ensures q == QuotaOf(tenants, depth, plans, usage, t, since)
    {
      var root := BillingRoot(t);
      var used := UsageOf(root, since);
      q := Quota(Limit(PlanOf(plans, root)), used);
    }

    /** `delete_tenant`: a whole subtree goes, and with it every entry of any table
        that belongs to one of its tenants. Unknown tenants change nothing. */
    method DeleteTenant(t: Id) returns (gone: set<Id>)
      requires Valid()
      modifies this
      ensures Valid()
      ensures gone == if t in old(tenants) then Subtree(old(tenants), old(depth), t) else {}
      ensures tenants == old(tenants) - gone && plans == old(plans) - gone
      ensures usage == UsageOutside(old(usage), gone)
      ensures records == OwnedOutside(old(records), gone) && accounts == OwnedOutside(old(accounts), gone)
      ensures signups == SignupsOutside(old(signups), old(accounts), gone)
    {
      gone := {};
      if t !in tenants {
        NothingOutside(usage, records, accounts, signups);
        return;
      }
      gone := FindSubtree(t);
      DropTenants(t, gone);
      plans, usage := plans - gone, UsageOutside(usage, gone);
      records, signups := OwnedOutside(records, gone), SignupsOutside(signups, accounts, gone);
      accounts := OwnedOutside(accounts, gone);
    }

    /** The forest without a whole subtree is a forest. */
    method DropTenants(t: Id, gone: set<Id>)
      requires Valid() && gone == Subtree(tenants, depth, t)
      modifies this`tenants, this`depth
      ensures Valid() && tenants == old(tenants) - gone
    {
      forall c | c in tenants && c !in gone && tenants[c].Some? ensures tenants[c].value !in gone {
        InSubtree(tenants, depth, t, c);
        InSubtree(tenants, depth, t, tenants[c].value);
      }
      tenants, depth := tenants - gone, depth - gone;
    }
  }

  /** A line of tenants, built by the store's own operation. */
  method BuildLine(n: nat) returns (store: MemoryStore)
    ensures fresh(store) && store.Valid() && store.tenants == Line(n)
  {
    store := new MemoryStore();
    for i := 0 to n
      invariant fresh(store) && store.Valid() && store.tenants == Line(i)
    {
      LineHas(i, i);
      if i > 0 {
        LineHas(i, i - 1);
      }
      var ok := store.CreateTenant(i, LineParent(i));
    }
  }

  /** Of such a line the root is refused the last tenant, which is under it, and
      does not pay for it. */
  method DeepLine(levels: nat) returns (store: MemoryStore, refused: bool, payer: Id)
    requires levels > MAX_DEPTH
    ensures fresh(store) && store.Valid() && OutOfReach(store.tenants, store.depth, 0, levels)
    ensures refused && payer == Payer(store.tenants, store.depth, levels) == levels - MAX_DEPTH
  {
    store := BuildLine(levels + 1);
    LineTooDeep(levels + 1, store.depth, levels);
    var allowed := store.MayAct(0, levels);
    refused := !allowed;
    payer := store.BillingRoot(levels);
  }

  /** A set closed under children that holds the root holds its subtree. */
  lemma {:induction false} ClosedHolds(tenants: Parents, depth: map<Id, nat>, root: Id, closed: set<Id>, t: Id)
    requires Forest(tenants, depth) && root in closed
    requires forall c :: c in tenants && tenants[c].Some? && tenants[c].value in closed ==> c in closed
    requires root in Chain(tenants, depth, t)
    ensures t in closed
    decreases if t in depth then depth[t] + 1 else 0
  {
    if t != root {
      ClosedHolds(tenants, depth, root, closed, ParentOf(tenants, t).value);
    }
  }
}
