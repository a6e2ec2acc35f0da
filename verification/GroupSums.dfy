/** A GroupSum match is forced. `Fitting` says what a group that answers a
    record is, with no search in sight; the decision claims a group exactly
    when it is the only one and no share group was too full to search. */
module GroupSums {
  import opened Prelude
  import opened Rows
  import opened Declaration
  import opened SubsetSearch
  import opened Matching

  ghost predicate Fitting(rule: Rule, identity: Option<Msisdn>, o: Row, s: set<Row>)
    requires rule.GroupSum?
  {
    && Fits(SumGoal(rule, o), s)
    && (forall m :: m in s ==> Admits(rule, identity, o, m))
    && (forall m, n :: m in s && n in s ==> ShareKey(m, rule.share) == ShareKey(n, rule.share))
  }

  ghost function AllFitting(rule: Rule, identity: Option<Msisdn>, o: Row, rows: seq<Row>): set<set<Row>>
    requires rule.GroupSum?
  {
    set s: set<Row> | s <= Elems(rows) && Fitting(rule, identity, o, s)
  }

  /** Some share group of the admissible records is over the search cap. */
  ghost predicate Crowded(rule: Rule, identity: Option<Msisdn>, o: Row, rows: seq<Row>)
    requires rule.GroupSum?
  {
    AnyCrowded(SharingOf(rule), Pool(rule, identity, o, rows))
  }

  ghost predicate AnyCrowded(h: Sharing, pool: seq<Row>) {
    exists key :: key in KeysOf(h.share, pool) && !Roomy(h, pool, key)
  }

  // ── one share group of a pool ──

  ghost predicate Roomy(h: Sharing, pool: seq<Row>, key: seq<string>) {
    |Keyed(h.share, pool, key)| <= h.cap
  }

  /** `s` is a fit of the share group under `key`. */
  ghost predicate FitUnder(h: Sharing, goal: Goal, pool: seq<Row>, key: seq<string>, s: set<Row>) {
    s in AllFits(goal, Elems(Keyed(h.share, pool, key)))
  }

  lemma FitUnderOneKey(h: Sharing, goal: Goal, pool: seq<Row>, a: seq<string>, b: seq<string>, s: set<Row>)
    requires FitUnder(h, goal, pool, a, s) && FitUnder(h, goal, pool, b, s)
    ensures a == b
  {
    var m :| m in s;
    KeyedElems(h.share, pool, a);
    KeyedElems(h.share, pool, b);
    assert m in Keyed(h.share, pool, a) && m in Keyed(h.share, pool, b);
  }

  // ── the loop over share groups ──

  ghost predicate Fresh(h: Sharing, goal: Goal, pool: seq<Row>, keys: seq<seq<string>>, fits: seq<set<Row>>) {
    forall s, k :: s in fits && k in keys ==> !FitUnder(h, goal, pool, k, s)
  }

  /** Every fit in hand was there before, or is a fit of a group gone through. */
  ghost predicate FromKeys(h: Sharing, goal: Goal, pool: seq<Row>, keys: seq<seq<string>>, was: seq<set<Row>>,
                           now: seq<set<Row>>) {
    forall s :: s in now ==> s in was || exists k :: k in keys && FitUnder(h, goal, pool, k, s)
  }

  /** Unless it stopped at two, the loop has all the fits of the groups it could
      search, and knows whether there was one it could not. */
  ghost predicate AllFound(h: Sharing, goal: Goal, pool: seq<Row>, keys: seq<seq<string>>, was: bool, now: Gathered) {
    |now.fits| <= 1 ==>
      && (now.crowded <==> was || exists k :: k in keys && !Roomy(h, pool, k))
      && (forall s, k :: k in keys && Roomy(h, pool, k) && FitUnder(h, goal, pool, k, s) ==> s in now.fits)
  }

  lemma FoundExact(h: Sharing, goal: Goal, pool: seq<Row>, key: seq<string>)
    requires Distinct(pool)
    ensures var found := Found(goal, Keyed(h.share, pool, key));
            && NoDups(found)
            && (forall s :: s in found ==> FitUnder(h, goal, pool, key, s))
            && (|found| < 2 ==> forall s :: FitUnder(h, goal, pool, key, s) ==> s in found)
  {
    KeyedElems(h.share, pool, key);
    var members := Keyed(h.share, pool, key);
    SearchIsExact(goal, members);
    var found := Found(goal, members);
    if |found| < 2 {
      forall s | FitUnder(h, goal, pool, key, s) ensures s in found {
        assert s in Elems(found);
      }
    }
  }

  /** What the loop adds to the fits in hand: only fits of the groups still to
      come, none twice, and, unless it stopped at two, all of them. */
  lemma {:induction false} GatherExact(h: Sharing, goal: Goal, pool: seq<Row>, keys: seq<seq<string>>, g: Gathered)
    requires Distinct(pool) && NoDups(keys) && NoDups(g.fits) && |g.fits| <= 1
    requires Fresh(h, goal, pool, keys, g.fits)
    ensures var r := Gather(h, goal, pool, keys, g);
            NoDups(r.fits) && (forall s :: s in g.fits ==> s in r.fits)
            && FromKeys(h, goal, pool, keys, g.fits, r.fits) && AllFound(h, goal, pool, keys, g.crowded, r)
  {
    if keys != [] {
      var key, rest := keys[0], keys[1..];
      assert keys == [key] + rest;
      if !Roomy(h, pool, key) {
        GatherExact(h, goal, pool, rest, g.(crowded := true));
      } else {
        var found := Found(goal, Keyed(h.share, pool, key));
        var fits := g.fits + found;
        FoundExact(h, goal, pool, key);
        NoDupsConcat(g.fits, found);
        if |fits| <= 1 {
          forall s, k | s in fits && k in rest ensures !FitUnder(h, goal, pool, k, s) {
            if FitUnder(h, goal, pool, k, s) && s in found {
              FitUnderOneKey(h, goal, pool, key, k, s);
            }
          }
          GatherExact(h, goal, pool, rest, g.(fits := fits));
        }
      }
    }
  }

  // ── against the reference ──

  /** The groups of a pool that fit and share. */
  ghost predicate PoolFit(h: Sharing, goal: Goal, pool: set<Row>, s: set<Row>) {
    s <= pool && Fits(goal, s) && forall m, n :: m in s && n in s ==> ShareKey(m, h.share) == ShareKey(n, h.share)
  }

  /** They are the fits of its share groups. */
  lemma PoolFitIsFitUnder(h: Sharing, goal: Goal, pool: seq<Row>, s: set<Row>)
    ensures PoolFit(h, goal, Elems(pool), s)
           <==> exists k :: k in KeysOf(h.share, pool) && FitUnder(h, goal, pool, k, s)
  {
    KeysOfPool(h.share, pool);
    if PoolFit(h, goal, Elems(pool), s) {
      var m :| m in s;
      var k := ShareKey(m, h.share);
      KeyedElems(h.share, pool, k);
      assert m in pool;
      assert FitUnder(h, goal, pool, k, s);
    }
    if k :| k in KeysOf(h.share, pool) && FitUnder(h, goal, pool, k, s) {
      KeyedElems(h.share, pool, k);
      forall m | m in s ensures m in Keyed(h.share, pool, k) {}
    }
  }

  lemma GatherAllExact(h: Sharing, goal: Goal, pool: seq<Row>)
    requires Distinct(pool)
    ensures var g := GatherAll(h, goal, pool);
            && NoDups(g.fits)
            && (forall s :: s in g.fits ==> PoolFit(h, goal, Elems(pool), s))
            && (|g.fits| <= 1 ==>
                  && (g.crowded <==> AnyCrowded(h, pool))
                  && (!g.crowded ==> forall s :: PoolFit(h, goal, Elems(pool), s) ==> s in g.fits))
  {
    var keys := KeysOf(h.share, pool);
    KeysOfPool(h.share, pool);
    GatherExact(h, goal, pool, keys, Gathered([], false));
    var g := GatherAll(h, goal, pool);
    forall s | s in g.fits ensures PoolFit(h, goal, Elems(pool), s) {
      PoolFitIsFitUnder(h, goal, pool, s);
    }
    if |g.fits| <= 1 && !g.crowded {
      forall s | PoolFit(h, goal, Elems(pool), s) ensures s in g.fits {
        PoolFitIsFitUnder(h, goal, pool, s);
        var k :| k in keys && FitUnder(h, goal, pool, k, s);
        assert Roomy(h, pool, k);
      }
    }
  }

  /** A fitting group of a rule is a fit of its pool. */
  lemma FittingIsPoolFit(rule: Rule, identity: Option<Msisdn>, o: Row, rows: seq<Row>, s: set<Row>)
    requires rule.GroupSum?
    ensures s in AllFitting(rule, identity, o, rows)
       <==> PoolFit(SharingOf(rule), SumGoal(rule, o), Elems(Pool(rule, identity, o, rows)), s)
  {
    PoolElems(rule, identity, o, rows);
    var pool := Pool(rule, identity, o, rows);
    if s in AllFitting(rule, identity, o, rows) {
      forall m | m in s ensures m in pool {
        assert m in Elems(rows);
      }
    }
    if PoolFit(SharingOf(rule), SumGoal(rule, o), Elems(pool), s) {
      forall m | m in s ensures m in rows && Admits(rule, identity, o, m) {
        assert m in Elems(pool);
      }
      assert s <= Elems(rows);
    }
  }

  /** The gathered fits are the fitting groups: all of them when fewer than two
      were met and nothing was skipped. */
  lemma GatheredIsFitting(rule: Rule, identity: Option<Msisdn>, o: Row, rows: seq<Row>)
    requires rule.GroupSum? && Distinct(rows)
    ensures var g := GatherAll(SharingOf(rule), SumGoal(rule, o), Pool(rule, identity, o, rows));
            var all := AllFitting(rule, identity, o, rows);
            && |Elems(g.fits)| == |g.fits|
            && Elems(g.fits) <= all
            && (|g.fits| <= 1 ==>
                  (g.crowded <==> Crowded(rule, identity, o, rows)) && (!g.crowded ==> Elems(g.fits) == all))
  {
    var pool := Pool(rule, identity, o, rows);
    var g, all := GatherAll(SharingOf(rule), SumGoal(rule, o), pool), AllFitting(rule, identity, o, rows);
    PoolElems(rule, identity, o, rows);
    GatherAllExact(SharingOf(rule), SumGoal(rule, o), pool);
    NoDupsCard(g.fits);
    forall s ensures s in all <==> PoolFit(SharingOf(rule), SumGoal(rule, o), Elems(pool), s) {
      FittingIsPoolFit(rule, identity, o, rows, s);
    }
  }

  lemma ListedGroup(pool: seq<Row>, s: set<Row>)
    requires s <= Elems(pool)
    ensures Elems(Listed(pool, s)) == s
  {
    ListedElems(pool, s);
    forall m | m in s ensures m in pool {
      assert m in Elems(pool);
    }
  }

  /** A record is paired with a group exactly when one fitting group exists
      among the unclaimed records and every share group could be searched; it
      is left for later exactly when none exists and all could be searched. */
  lemma GroupSumIsForced(rule: Rule, identity: Option<Msisdn>, o: Row, avail: seq<Row>)
    requires rule.GroupSum? && Distinct(avail)
    ensures var d, all := Decide(rule, identity, o, avail), AllFitting(rule, identity, o, avail);
            && (d.Claim? <==> !Crowded(rule, identity, o, avail) && |all| == 1)
            && (d.Claim? ==> all == {Elems(d.members)})
            && (d.Miss? <==> !Crowded(rule, identity, o, avail) && all == {})
  {
    var pool := Pool(rule, identity, o, avail);
    var g, all := GatherAll(SharingOf(rule), SumGoal(rule, o), pool), AllFitting(rule, identity, o, avail);
    GatheredIsFitting(rule, identity, o, avail);
    SubsetCard(Elems(g.fits), all);
    DecidedByFits(rule, identity, o, avail);
    if |g.fits| == 1 && !g.crowded {
      OnlyFit(rule, identity, o, avail, g.fits, all);
    }
  }

  /** The decision, read off the gathered fits. */
  lemma DecidedByFits(rule: Rule, identity: Option<Msisdn>, o: Row, avail: seq<Row>)
    requires rule.GroupSum?
    ensures var d, pool := Decide(rule, identity, o, avail), Pool(rule, identity, o, avail);
            var g := GatherAll(SharingOf(rule), SumGoal(rule, o), pool);
            && (d.Claim? <==> |g.fits| == 1 && !g.crowded)
            && (d.Claim? ==> d.members == Listed(pool, g.fits[0]))
            && (d.Miss? <==> g.fits == [] && !g.crowded)
  {
  }

  lemma OnlyFit(rule: Rule, identity: Option<Msisdn>, o: Row, avail: seq<Row>, fits: seq<set<Row>>, all: set<set<Row>>)
    requires rule.GroupSum? && |fits| == 1 && Elems(fits) == all == AllFitting(rule, identity, o, avail)
    ensures all == {Elems(Listed(Pool(rule, identity, o, avail), fits[0]))}
  {
    assert fits == [fits[0]];
    assert fits[0] in Elems(fits);
    assert all == {fits[0]};
    FittingIsPoolFit(rule, identity, o, avail, fits[0]);
    ListedGroup(Pool(rule, identity, o, avail), fits[0]);
  }
}
