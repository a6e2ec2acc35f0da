/** When a rule claims, asks or passes on, said of the unclaimed records alone:
    what each kind of rule looks for, and how many such records there are. */
module Decisions {
  import opened Prelude
  import opened Rows
  import opened Declaration
  import opened SubsetSearch
  import opened Matching
  import opened GroupSums

  // ── what each kind of rule looks for ──

  /** Both sides know phone numbers, and none is on both. */
  ghost predicate StrangerTo(identity: Option<Msisdn>, l: Row, r: Row) {
    exists m :: identity == Some(m)
                && (exists n :: n in Phones(l, m.left)) && (exists n :: n in Phones(r, m.right))
                && !exists n :: n in Phones(l, m.left) && n in Phones(r, m.right)
  }

  /** Two references are the same: to the letter, or but for case. */
  predicate SameRef(a: Ref, b: Ref, caseSensitive: bool) {
    if caseSensitive then a.exact == b.exact else a.folded == b.folded
  }

  /** Both carry the field, and not the same. */
  ghost predicate Denies(a: Agree, l: Row, r: Row) {
    a.left in l.refs && a.right in r.refs && !SameRef(l.refs[a.left], r.refs[a.right], a.caseSensitive)
  }

  /** The two days, first to last in the declared direction, and the business days
      between them. */
  ghost predicate LagBetween(lag: Lag, l: Row, lPath: Path, r: Row, rPath: Path) {
    exists a, b ::
      && Day(l, lPath, lag.timezone) == Some(a) && Day(r, rPath, lag.timezone) == Some(b)
      && if lag.direction == RightAfterLeft then LagSpan(lag, a, b) else LagSpan(lag, b, a)
  }

  /** Two known instants are no further apart than this. */
  ghost predicate NoFurther(l: Row, lPath: Path, r: Row, rPath: Path, seconds: int) {
    forall a, b :: Instant(l, lPath) == Some(a) && Instant(r, rPath) == Some(b) ==>
      a - b <= seconds * 1_000_000 && b - a <= seconds * 1_000_000
  }

  /** What a Fuzzy rule asks of two records: amounts that read and differ by no
      more than the tolerance, the same currency, no field that denies it, no two
      strangers, and time. Without a lag a record without a timestamp is in time,
      and a window of zero is one second. */
  lemma ViableIff(rule: Rule, identity: Option<Msisdn>, l: Row, r: Row)
    requires rule.Fuzzy?
    ensures Viable(rule, identity, l, r)
       <==> && (exists x, y :: Minor(l, rule.amount) == Some(x) && Minor(r, rule.amountRight) == Some(y)
                               && x - y <= rule.tolerance && y - x <= rule.tolerance)
            && Upper(Currency(l, rule.currency)) == Upper(Currency(r, rule.currencyRight))
            && !StrangerTo(identity, l, r)
            && (forall a :: a in rule.agree ==> !Denies(a, l, r))
            && (rule.lag.Some? ==> LagBetween(rule.lag.value, l, rule.timestampLeft, r, rule.timestampRight))
            && (rule.lag == None ==> NoFurther(l, rule.timestampLeft, r, rule.timestampRight,
                                               if rule.window == 0 then 1 else rule.window))
  {
    StrangerIff(identity, l, r);
    forall a ensures Contradicts(a, l, r) <==> Denies(a, l, r) {
    }
    FuzzyTimeIff(rule, l, r);
  }

  lemma StrangerIff(identity: Option<Msisdn>, l: Row, r: Row)
    ensures IdentityDisagrees(identity, l, r) <==> StrangerTo(identity, l, r)
  {
    if identity.Some? {
      var a, b := Phones(l, identity.value.left), Phones(r, identity.value.right);
      assert (a != {} <==> exists n :: n in a) && (b != {} <==> exists n :: n in b);
      assert a !! b <==> !exists n :: n in a && n in b;
    }
  }

  lemma FuzzyTimeIff(rule: Rule, l: Row, r: Row)
    requires rule.Fuzzy?
    ensures rule.lag.Some? ==>
              (FuzzyInTime(rule, l, r) <==> LagBetween(rule.lag.value, l, rule.timestampLeft, r, rule.timestampRight))
    ensures rule.lag == None ==>
              (FuzzyInTime(rule, l, r) <==> NoFurther(l, rule.timestampLeft, r, rule.timestampRight,
                                                      if rule.window == 0 then 1 else rule.window))
  {
    if rule.lag.Some? {
      LagBetweenIff(rule.lag.value, l, rule.timestampLeft, r, rule.timestampRight);
    }
  }

  lemma LagBetweenIff(lag: Lag, l: Row, lPath: Path, r: Row, rPath: Path)
    ensures LagAdmits(lag, Day(l, lPath, lag.timezone), Day(r, rPath, lag.timezone))
       <==> LagBetween(lag, l, lPath, r, rPath)
  {
    var a, b := Day(l, lPath, lag.timezone), Day(r, rPath, lag.timezone);
    LagAdmitsIff(lag, a, b);
  }

  /** A record that may be in a group: an amount that reads, the one record's
      currency, and in time, wherever the rule has its group. */
  ghost predicate MayJoin(rule: Rule, o: Row, m: Row)
    requires rule.GroupSum?
  {
    && (exists n :: Minor(m, rule.amount) == Some(n))
    && Upper(Currency(m, rule.currency)) == Upper(Currency(o, rule.currencyOne))
    && SumTime(rule, o, m)
  }

  /** All alike in the shared fields. */
  ghost predicate Alike(share: seq<Path>, s: set<Row>) {
    forall m, n, f :: m in s && n in s && f in share ==> Shown(m, f) == Shown(n, f)
  }

  /** What a GroupSum rule asks of a group: few enough records, each of which may
      join, alike in the shared fields, and summing to the one record's amount
      within the tolerance. */
  lemma FittingIff(rule: Rule, identity: Option<Msisdn>, o: Row, s: set<Row>)
    requires rule.GroupSum?
    ensures Fitting(rule, identity, o, s)
       <==> && 1 <= |s| <= rule.maxMembers
            && (exists one :: Minor(o, rule.amountOne) == Some(one)
                              && one - rule.tolerance <= Total(rule.amount, s) <= one + rule.tolerance)
            && (forall m :: m in s ==> MayJoin(rule, o, m))
            && Alike(rule.share, s)
  {
    forall m ensures Admits(rule, identity, o, m) <==> Minor(o, rule.amountOne).Some? && MayJoin(rule, o, m) {
      JoinIff(rule, identity, o, m);
    }
    AlikeIff(rule.share, s);
    FitsIff(SumGoal(rule, o), s);
    if m :| m in s {
      assert Admits(rule, identity, o, m) ==> Minor(o, rule.amountOne).Some?;
    }
  }

  lemma JoinIff(rule: Rule, identity: Option<Msisdn>, o: Row, m: Row)
    requires rule.GroupSum?
    ensures Admits(rule, identity, o, m) <==> Minor(o, rule.amountOne).Some? && MayJoin(rule, o, m)
  {
    SumTimeIff(rule, o, m);
    assert Minor(m, rule.amount).Some? <==> exists n :: Minor(m, rule.amount) == Some(n) by {
      if Minor(m, rule.amount).Some? {
        var n := Minor(m, rule.amount).value;
        assert Minor(m, rule.amount) == Some(n);
      }
    }
  }

  lemma FitsIff(g: Goal, s: set<Row>)
    ensures Fits(g, s)
       <==> 1 <= |s| <= g.maxMembers && g.target - g.tolerance <= Total(g.path, s) <= g.target + g.tolerance
  {
    if |s| == 0 {
      assert s == {};
    }
  }

  lemma AlikeIff(share: seq<Path>, s: set<Row>)
    ensures Alike(share, s) <==> forall m, n :: m in s && n in s ==> ShareKey(m, share) == ShareKey(n, share)
  {
    forall m, n | m in s && n in s
      ensures ShareKey(m, share) == ShareKey(n, share) <==> forall f :: f in share ==> Shown(m, f) == Shown(n, f)
    {
      ShareKeyIff(m, n, share);
    }
  }

  ghost predicate SumTime(rule: Rule, o: Row, m: Row)
    requires rule.GroupSum?
  {
    if rule.lag == None then NoFurther(m, rule.timestampMany, o, rule.timestampOne, rule.window)
    else if rule.many == LeftSide then LagBetween(rule.lag.value, m, rule.timestampMany, o, rule.timestampOne)
    else LagBetween(rule.lag.value, o, rule.timestampOne, m, rule.timestampMany)
  }

  lemma SumTimeIff(rule: Rule, o: Row, m: Row)
    requires rule.GroupSum?
    ensures SumInTime(rule, o, m) <==> SumTime(rule, o, m)
  {
    if rule.lag.Some? {
      if rule.many == LeftSide {
        LagBetweenIff(rule.lag.value, m, rule.timestampMany, o, rule.timestampOne);
      } else {
        LagBetweenIff(rule.lag.value, o, rule.timestampOne, m, rule.timestampMany);
      }
    }
  }

  /** A field as the code compares it: an absent one reads "None". */
  function Shown(m: Row, f: Path): string {
    if f in m.texts then m.texts[f] else "None"
  }

  lemma ShareKeyIff(m: Row, n: Row, share: seq<Path>)
    ensures ShareKey(m, share) == ShareKey(n, share) <==> forall f :: f in share ==> Shown(m, f) == Shown(n, f)
  {
    forall i | 0 <= i < |share| ensures ShareKey(m, share)[i] == Shown(m, share[i]) {
    }
    if ShareKey(m, share) == ShareKey(n, share) {
      forall f | f in share ensures Shown(m, f) == Shown(n, f) {
        var i :| 0 <= i < |share| && share[i] == f;
        assert ShareKey(m, share)[i] == ShareKey(n, share)[i];
      }
    }
  }

  // ── when a share group is too full ──

  /** The available records that may join a group with this one. */
  ghost function Mates(rule: Rule, o: Row, rows: seq<Row>, m: Row): set<Row>
    requires rule.GroupSum?
  {
    set n | n in rows && MayJoin(rule, o, n) && forall f :: f in rule.share ==> Shown(m, f) == Shown(n, f)
  }

  /** A share group is over the cap: some record that may join has more than
      `maxCandidates` of them to join with, itself among them. */
  lemma CrowdedIff(rule: Rule, identity: Option<Msisdn>, o: Row, rows: seq<Row>)
    requires rule.GroupSum? && Distinct(rows)
    ensures Crowded(rule, identity, o, rows)
       <==> Minor(o, rule.amountOne).Some?
            && exists m :: m in rows && MayJoin(rule, o, m) && |Mates(rule, o, rows, m)| > rule.maxCandidates
  {
    var pool, h := Pool(rule, identity, o, rows), SharingOf(rule);
    PoolElems(rule, identity, o, rows);
    KeysOfPool(rule.share, pool);
    forall m ensures m in pool <==> m in rows && Minor(o, rule.amountOne).Some? && MayJoin(rule, o, m) {
      JoinIff(rule, identity, o, m);
    }
    forall m | m in pool ensures |Keyed(rule.share, pool, ShareKey(m, rule.share))| == |Mates(rule, o, rows, m)| {
      MatesAreKeyed(rule, o, rows, pool, m);
    }
    if key :| key in KeysOf(rule.share, pool) && !Roomy(h, pool, key) {
      var m :| m in pool && ShareKey(m, rule.share) == key;
    }
    if m :| m in pool && |Mates(rule, o, rows, m)| > rule.maxCandidates {
      assert !Roomy(h, pool, ShareKey(m, rule.share));
    }
  }

  lemma MatesAreKeyed(rule: Rule, o: Row, rows: seq<Row>, pool: seq<Row>, m: Row)
    requires rule.GroupSum? && Distinct(pool)
    requires forall n :: n in pool <==> n in rows && MayJoin(rule, o, n)
    ensures |Keyed(rule.share, pool, ShareKey(m, rule.share))| == |Mates(rule, o, rows, m)|
  {
    var keyed := Keyed(rule.share, pool, ShareKey(m, rule.share));
    KeyedElems(rule.share, pool, ShareKey(m, rule.share));
    DistinctNoDups(keyed);
    forall n ensures n in keyed <==> n in Mates(rule, o, rows, m) {
      ShareKeyIff(m, n, rule.share);
    }
    assert Elems(keyed) == Mates(rule, o, rows, m);
  }

  // ── one reference ──

  /** Two records carry one reference: the left path read on the left record, the
      right path on the right one. */
  ghost predicate OneRef(left: Path, right: Path, caseSensitive: bool, l: Row, r: Row) {
    left in l.refs && right in r.refs && SameRef(l.refs[left], r.refs[right], caseSensitive)
  }

  /** What a GroupRef rule looks for, from whichever side it takes single records. */
  ghost predicate RefMember(rule: Rule, o: Row, m: Row)
    requires rule.GroupRef?
  {
    if rule.many == RightSide then OneRef(rule.left, rule.right, rule.caseSensitive, o, m)
    else OneRef(rule.left, rule.right, rule.caseSensitive, m, o)
  }

  // ── how many there are decides ──

  /** The available records some rule looks for, as a set. */
  ghost function Among(avail: seq<Row>, p: Row -> bool): set<Row> {
    set m | m in avail && p(m)
  }

  lemma DistinctNoDups(rows: seq<Row>)
    requires Distinct(rows)
    ensures NoDups(rows) && |Elems(rows)| == |rows|
  {
    NoDupsCard(rows);
  }

  lemma PoolIs(rule: Rule, identity: Option<Msisdn>, o: Row, avail: seq<Row>, p: Row -> bool)
    requires Distinct(avail) && forall m :: Admits(rule, identity, o, m) <==> p(m)
    ensures var pool := Pool(rule, identity, o, avail);
            Distinct(pool) && Elems(pool) == Among(avail, p) && |pool| == |Among(avail, p)|
  {
    PoolElems(rule, identity, o, avail);
    DistinctNoDups(Pool(rule, identity, o, avail));
  }

  /** A Fuzzy rule claims a record exactly when it is the only viable one; it asks
      exactly when there are several, about all of them; it passes on exactly when
      there is none. What else is unclaimed plays no part. */
  lemma FuzzyIsForced(rule: Rule, identity: Option<Msisdn>, o: Row, avail: seq<Row>)
    requires rule.Fuzzy? && Distinct(avail)
    ensures var d, viable := Decide(rule, identity, o, avail), Among(avail, m => Viable(rule, identity, o, m));
            && (d.Claim? <==> |viable| == 1)
            && (d.Claim? ==> |d.members| == 1 && Elems(d.members) == viable)
            && (d.Open? <==> |viable| >= 2)
            && (d.Open? ==> Distinct(d.candidates) && Elems(d.candidates) == viable && d.alternatives == [])
            && (d.Miss? <==> viable == {})
  {
    PoolIs(rule, identity, o, avail, m => Viable(rule, identity, o, m));
  }

  /** A GroupRef rule claims all the records that carry the reference, exactly when
      there are some and at most `maxMembers`; it asks about all of them exactly
      when there are more; it passes on exactly when there is none. */
  lemma GroupRefIsForced(rule: Rule, identity: Option<Msisdn>, o: Row, avail: seq<Row>)
    requires rule.GroupRef? && Distinct(avail)
    ensures var d, carrying := Decide(rule, identity, o, avail), Among(avail, m => RefMember(rule, o, m));
            && (d.Claim? <==> 1 <= |carrying| <= rule.maxMembers)
            && (d.Claim? ==> Distinct(d.members) && Elems(d.members) == carrying)
            && (d.Open? <==> |carrying| > rule.maxMembers && |carrying| > 0)
            && (d.Open? ==> Distinct(d.candidates) && Elems(d.candidates) == carrying && d.alternatives == [])
            && (d.Miss? <==> carrying == {})
  {
    forall m ensures Admits(rule, identity, o, m) <==> RefMember(rule, o, m) {
    }
    PoolIs(rule, identity, o, avail, m => RefMember(rule, o, m));
  }

  /** `m` is in the list and nothing the predicate holds of comes before it. */
  ghost predicate FirstOf(avail: seq<Row>, p: Row -> bool, m: Row) {
    exists i :: 0 <= i < |avail| && avail[i] == m && p(m) && forall j :: 0 <= j < i ==> !p(avail[j])
  }

  lemma {:induction false} FilterFirst(p: Row -> bool, rows: seq<Row>)
    requires Filter(p, rows) != []
    ensures FirstOf(rows, p, Filter(p, rows)[0])
  {
    var n := |rows| - 1;
    if Filter(p, rows[..n]) != [] {
      FilterFirst(p, rows[..n]);
      var i :| 0 <= i < n && rows[..n][i] == Filter(p, rows[..n])[0] && p(rows[i])
               && forall j :: 0 <= j < i ==> !p(rows[..n][j]);
      assert rows[i] == Filter(p, rows)[0];
      assert forall j :: 0 <= j < i ==> rows[..n][j] == rows[j];
    } else {
      FilterElems(p, rows[..n]);
      forall j | 0 <= j < n ensures !p(rows[j]) {
        assert rows[..n][j] in rows[..n];
      }
    }
  }

  /** An ExactRef rule claims exactly when some record carries the reference, and
      then the first of those unclaimed; it never asks. */
  lemma ExactTakesFirst(rule: Rule, identity: Option<Msisdn>, o: Row, avail: seq<Row>)
    requires rule.ExactRef?
    ensures var d := Decide(rule, identity, o, avail);
            var carries := m => OneRef(rule.left, rule.right, rule.caseSensitive, o, m);
            && !d.Open?
            && (d.Claim? <==> exists m :: m in avail && carries(m))
            && (d.Claim? ==> |d.members| == 1 && FirstOf(avail, carries, d.members[0]))
  {
    var carries := m => OneRef(rule.left, rule.right, rule.caseSensitive, o, m);
    var p := Admitter(rule, identity, o);
    forall m ensures p(m) == carries(m) {
    }
    FilterElems(p, avail);
    if Filter(p, avail) != [] {
      FilterFirst(p, avail);
      FirstOfSame(avail, p, carries, Filter(p, avail)[0]);
    }
  }

  lemma FirstOfSame(avail: seq<Row>, p: Row -> bool, q: Row -> bool, m: Row)
    requires FirstOf(avail, p, m) && forall x :: p(x) == q(x)
    ensures FirstOf(avail, q, m)
  {
  }

  // ── what a GroupSum rule asks ──

  lemma {:induction false} AppendMembers(seen: seq<Row>, rows: seq<Row>)
    requires Distinct(seen)
    ensures var all := Append(seen, rows);
            && Distinct(all) && Ids(all) == Ids(seen) + Ids(rows)
            && forall m :: m in all ==> m in seen || m in rows
  {
    if rows != [] {
      var n := |rows| - 1;
      TakeNext(rows, n);
      TakeAll(rows);
      AppendMembers(seen, rows[..n]);
      IdsSnoc(rows[..n], rows[n]);
      IdsSnoc(Append(seen, rows[..n]), rows[n]);
      DistinctSnoc(Append(seen, rows[..n]), rows[n]);
    } else {
      assert Ids(rows) == {};
    }
  }

  lemma IdsSnoc(rows: seq<Row>, r: Row)
    ensures Ids(rows + [r]) == Ids(rows) + {r.id}
  {
    assert (rows + [r])[|rows|] == r;
    forall id | id in Ids(rows) ensures id in Ids(rows + [r]) {
      var i :| 0 <= i < |rows| && rows[i].id == id;
      assert (rows + [r])[i].id == id;
    }
  }

  lemma DistinctSnoc(rows: seq<Row>, r: Row)
    requires Distinct(rows)
    ensures r.id !in Ids(rows) ==> Distinct(rows + [r])
  {
  }

  /** A row is in some of the lists. */
  ghost predicate InSome(lists: seq<seq<Row>>, m: Row) {
    exists list :: list in lists && m in list
  }

  /** Rows of several lists out of distinct ones: each that is in some list, once. */
  lemma {:induction false} MergedMembers(pool: seq<Row>, lists: seq<seq<Row>>)
    requires Distinct(pool) && forall list, m :: list in lists && m in list ==> m in pool
    ensures Distinct(Merged(lists))
    ensures forall m :: m in Merged(lists) <==> InSome(lists, m)
  {
    if lists != [] {
      var n := |lists| - 1;
      TakeNext(lists, n);
      TakeAll(lists);
      MergedMembers(pool, lists[..n]);
      var before, last := Merged(lists[..n]), lists[n];
      AppendMembers(before, last);
      forall m ensures m in Append(before, last) <==> m in before || m in last {
        if m in before || m in last {
          SomeId(before, last, m);
          SameRow(pool, before, last, m);
        }
      }
      forall m ensures InSome(lists, m) <==> InSome(lists[..n], m) || m in last {
        InSomeSnoc(lists[..n], last, m);
      }
    }
  }

  lemma SomeId(before: seq<Row>, last: seq<Row>, m: Row)
    requires m in before || m in last
    ensures m.id in Ids(before) + Ids(last)
  {
  }

  lemma SameRow(pool: seq<Row>, before: seq<Row>, last: seq<Row>, m: Row)
    requires Distinct(pool) && (forall x :: x in before || x in last ==> x in pool) && (m in before || m in last)
    requires var all := Append(before, last); m.id in Ids(all) && forall x :: x in all ==> x in before || x in last
    ensures m in Append(before, last)
  {
    var all := Append(before, last);
    var i :| 0 <= i < |all| && all[i].id == m.id;
    assert all[i] in all;
    SameIdentity(pool, all[i], m);
  }

  lemma InSomeSnoc(lists: seq<seq<Row>>, last: seq<Row>, m: Row)
    ensures InSome(lists + [last], m) <==> InSome(lists, m) || m in last
  {
    if m in last {
      assert last in lists + [last];
    }
    if InSome(lists, m) {
      var list :| list in lists && m in list;
      assert list in lists + [last];
    }
  }

  lemma {:induction false} ListAllAt(pool: seq<Row>, fits: seq<set<Row>>)
    ensures |ListAll(pool, fits)| == |fits|
    ensures forall i :: 0 <= i < |fits| ==> ListAll(pool, fits)[i] == Listed(pool, fits[i])
  {
    if fits != [] {
      ListAllAt(pool, fits[..|fits| - 1]);
    }
  }

  /** The groups are fitting ones, no two the same, each without repetition. */
  ghost predicate Options(rule: Rule, identity: Option<Msisdn>, o: Row, avail: seq<Row>, groups: seq<seq<Row>>)
    requires rule.GroupSum?
  {
    && (forall i :: 0 <= i < |groups| ==>
          Distinct(groups[i]) && Elems(groups[i]) in AllFitting(rule, identity, o, avail))
    && forall i, j :: 0 <= i < j < |groups| ==> Elems(groups[i]) != Elems(groups[j])
  }

  /** A GroupSum rule asks exactly when several groups fit or some share group was
      too full to search. The alternatives are different fitting groups, two at
      least when every share group could be searched, and the candidates are their
      members. */
  lemma GroupSumAsks(rule: Rule, identity: Option<Msisdn>, o: Row, avail: seq<Row>)
    requires rule.GroupSum? && Distinct(avail)
    ensures var d := Decide(rule, identity, o, avail);
            && (d.Open? <==> |AllFitting(rule, identity, o, avail)| >= 2 || Crowded(rule, identity, o, avail))
            && (d.Open? ==>
                  && Options(rule, identity, o, avail, d.alternatives)
                  && (!Crowded(rule, identity, o, avail) ==> |d.alternatives| >= 2)
                  && Distinct(d.candidates) && forall m :: m in d.candidates <==> InSome(d.alternatives, m))
  {
    var pool := Pool(rule, identity, o, avail);
    var g := GatherAll(SharingOf(rule), SumGoal(rule, o), pool);
    GroupSumIsForced(rule, identity, o, avail);
    GatheredIsFitting(rule, identity, o, avail);
    SubsetCard(Elems(g.fits), AllFitting(rule, identity, o, avail));
    OpenByFits(rule, identity, o, avail, pool, g);
    PoolElems(rule, identity, o, avail);
    GatherAllExact(SharingOf(rule), SumGoal(rule, o), pool);
    OptionsListed(rule, identity, o, avail, g.fits);
    MergedMembers(pool, ListAll(pool, g.fits));
  }

  lemma OpenByFits(rule: Rule, identity: Option<Msisdn>, o: Row, avail: seq<Row>, pool: seq<Row>, g: Gathered)
    requires rule.GroupSum? && pool == Pool(rule, identity, o, avail)
    requires g == GatherAll(SharingOf(rule), SumGoal(rule, o), pool)
    ensures var d := Decide(rule, identity, o, avail);
            && (d.Open? <==> g.crowded || |g.fits| > 1)
            && (d.Open? ==> d.alternatives == ListAll(pool, g.fits) && d.candidates == Merged(ListAll(pool, g.fits)))
  {
    DecidedByFits(rule, identity, o, avail);
    if g.crowded || |g.fits| > 1 {
      assert Decide(rule, identity, o, avail) == Decision.Open(Merged(ListAll(pool, g.fits)), ListAll(pool, g.fits));
    }
  }

  lemma OptionsListed(rule: Rule, identity: Option<Msisdn>, o: Row, avail: seq<Row>, fits: seq<set<Row>>)
    requires rule.GroupSum? && Distinct(avail) && NoDups(fits)
    requires Elems(fits) <= AllFitting(rule, identity, o, avail)
    ensures var lists := ListAll(Pool(rule, identity, o, avail), fits);
            && |lists| == |fits| && Options(rule, identity, o, avail, lists)
            && forall list, m :: list in lists && m in list ==> m in Pool(rule, identity, o, avail)
  {
    var pool := Pool(rule, identity, o, avail);
    var lists := ListAll(pool, fits);
    PoolElems(rule, identity, o, avail);
    ListAllAt(pool, fits);
    forall i | 0 <= i < |fits| ensures Distinct(lists[i]) && Elems(lists[i]) == fits[i]
      ensures forall m :: m in lists[i] ==> m in pool
    {
      assert fits[i] in Elems(fits);
      FittingIsPoolFit(rule, identity, o, avail, fits[i]);
      ListedElems(pool, fits[i]);
      ListedGroup(pool, fits[i]);
    }
    forall i | 0 <= i < |lists| ensures Elems(lists[i]) in AllFitting(rule, identity, o, avail) {
      assert fits[i] in Elems(fits);
    }
  }
}
