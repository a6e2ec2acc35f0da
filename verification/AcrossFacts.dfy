/** What a verdict across rails is evidence of. */
module AcrossFacts {
  import opened Prelude
  import opened Rows
  import opened Declaration
  import opened Matching
  import opened GroupSums
  import opened MatchFacts
  import opened Scoring
  import opened Coverages
  import opened Engine
  import opened Across
  import Fetch

  /** A member: its declaration, its rail's rows, and what was read of them. */
  datatype Member = Member(spec: Reconciliation, rail: Rail, rows: seq<Row>, coverage: Option<Coverage>)

  ghost function ResultOf(m: Member, ledger: seq<Row>, ledgerCoverage: Option<Coverage>): Outcome {
    Reconcile(m.spec, ledger, m.rows, ledgerCoverage, m.coverage)
  }

  ghost function ResultsOf(members: seq<Member>, ledger: seq<Row>, lc: Option<Coverage>): seq<(Rail, Outcome)> {
    seq(|members|, i requires 0 <= i < |members| => (members[i].rail, ResultOf(members[i], ledger, lc)))
  }

  /** All rows read are separate objects. */
  ghost predicate Separate(ledger: seq<Row>, m: Member) {
    Distinct(ledger) && Distinct(m.rows) && Ids(ledger) !! Ids(m.rows)
  }

  // ── where an order is, by what its rail's dict says ──

  lemma InUnmatched(m: Member, ledger: seq<Row>, lc: Option<Coverage>, order: Row)
    requires Separate(ledger, m) && order in ledger
    ensures order.id in Ids(ResultOf(m, ledger, lc).unmatchedLeft) <==> order in ResultOf(m, ledger, lc).unmatchedLeft
  {
    IdMeansRow(m, ledger, lc, order, ResultOf(m, ledger, lc).unmatchedLeft);
  }

  lemma IdMeansRow(m: Member, ledger: seq<Row>, lc: Option<Coverage>, order: Row, rows: seq<Row>)
    requires Separate(ledger, m) && order in ledger
    requires multiset(rows) <= LeftOver(ResultOf(m, ledger, lc), LeftSide)
    ensures order.id in Ids(rows) <==> order in rows
  {
    if order.id in Ids(rows) {
      var i :| 0 <= i < |rows| && rows[i].id == order.id;
      assert rows[i] in multiset(rows);
      Partition(m.spec, ledger, m.rows, lc, m.coverage, LeftSide, rows[i]);
      SameIdentity(ledger, rows[i], order);
    }
  }

  // ── "uncollected" is positive evidence ──

  /** What the `i`-th rail says of an order. */
  function Said(results: seq<(Rail, Outcome)>, id: nat, i: nat): Option<RailVerdict>
    requires i < |results|
  {
    VerdictOf(results[i].0, results[i].1, id)
  }

  /** The verdicts an order collects are those its rails gave: as many as there
      are rails exactly when each gave one. */
  lemma RailsAre(results: seq<(Rail, Outcome)>, id: nat)
    ensures |RailsFor(results, id)| <= |results|
    ensures |RailsFor(results, id)| == |results| <==> forall i :: 0 <= i < |results| ==> Said(results, id, i).Some?
    ensures forall r ::
              r in RailsFor(results, id) <==> exists i :: 0 <= i < |results| && Said(results, id, i) == Some(r)
  {
    RailsCount(results, id);
    forall r {
      RailsHave(results, id, r);
    }
  }

  lemma {:induction false} RailsCount(results: seq<(Rail, Outcome)>, id: nat)
    ensures |RailsFor(results, id)| <= |results|
    ensures |RailsFor(results, id)| == |results| <==> forall i :: 0 <= i < |results| ==> Said(results, id, i).Some?
  {
    if results != [] {
      var n := |results| - 1;
      RailsCount(results[..n], id);
      SaidBefore(results, id, n);
      RailsNext(results, id, n);
    }
  }

  lemma {:induction false} RailsHave(results: seq<(Rail, Outcome)>, id: nat, r: RailVerdict)
    ensures r in RailsFor(results, id) <==> exists i :: 0 <= i < |results| && Said(results, id, i) == Some(r)
  {
    if results != [] {
      var n := |results| - 1;
      RailsHave(results[..n], id, r);
      SaidBefore(results, id, n);
      RailsNext(results, id, n);
    }
  }

  lemma SaidBefore(results: seq<(Rail, Outcome)>, id: nat, n: nat)
    requires n < |results|
    ensures forall i :: 0 <= i < n ==> Said(results[..n], id, i) == Said(results, id, i)
  {
  }

  lemma RailsNext(results: seq<(Rail, Outcome)>, id: nat, n: nat)
    requires |results| == n + 1
    ensures var v, before := Said(results, id, n), RailsFor(results[..n], id);
            && |RailsFor(results, id)| == |before| + (if v.Some? then 1 else 0)
            && forall r :: r in RailsFor(results, id) <==> r in before || v == Some(r)
  {
  }

  lemma {:induction false} NoneMatched(rails: seq<RailVerdict>)
    ensures OnlyMatched(rails) == [] <==> forall r :: r in rails ==> r.status != OnRail
  {
    if rails != [] {
      var n := |rails| - 1;
      NoneMatched(rails[..n]);
      assert rails == rails[..n] + [rails[n]];
    }
  }

  lemma NotOnRailMeansUnmatched(rail: Rail, r: Outcome, id: nat)
    ensures VerdictOf(rail, r, id).Some? && VerdictOf(rail, r, id).value.status == NotOnRail
           <==> id in Ids(r.unmatchedLeft)
  {
  }

  /** An order is reported uncollected exactly when every rail's own match left
      it as a miss. */
  lemma UncollectedIff(spec: AcrossRails, ledger: seq<Row>, members: seq<Member>, lc: Option<Coverage>, order: Row)
    requires forall m :: m in members ==> Separate(ledger, m)
    requires order in ledger && |members| == spec.rails
    ensures DecideOrder(spec, order, RailsFor(ResultsOf(members, ledger, lc), order.id)).verdict == Uncollected
       <==> forall m :: m in members ==> order in ResultOf(m, ledger, lc).unmatchedLeft
  {
    var results := ResultsOf(members, ledger, lc);
    RailsAre(results, order.id);
    UncollectedByStatus(spec, order, RailsFor(results, order.id));
    AllSilent(results, order.id);
    SilentIff(members, ledger, lc, order);
  }

  lemma SilentIff(members: seq<Member>, ledger: seq<Row>, lc: Option<Coverage>, order: Row)
    requires (forall m :: m in members ==> Separate(ledger, m)) && order in ledger
    ensures (forall i :: 0 <= i < |members| ==> Silent(Said(ResultsOf(members, ledger, lc), order.id, i)))
       <==> forall m :: m in members ==> order in ResultOf(m, ledger, lc).unmatchedLeft
  {
    forall i | 0 <= i < |members|
      ensures Silent(Said(ResultsOf(members, ledger, lc), order.id, i))
             <==> order in ResultOf(members[i], ledger, lc).unmatchedLeft
    {
      SilentWhenUnmatched(members, ledger, lc, order, i);
    }
  }

  predicate Silent(v: Option<RailVerdict>) {
    v.Some? && v.value.status == NotOnRail
  }

  lemma SilentWhenUnmatched(members: seq<Member>, ledger: seq<Row>, lc: Option<Coverage>, order: Row, i: nat)
    requires i < |members| && Separate(ledger, members[i]) && order in ledger
    ensures Silent(Said(ResultsOf(members, ledger, lc), order.id, i))
           <==> order in ResultOf(members[i], ledger, lc).unmatchedLeft
  {
    InUnmatched(members[i], ledger, lc, order);
    NotOnRailMeansUnmatched(members[i].rail, ResultOf(members[i], ledger, lc), order.id);
  }

  lemma AllSilent(results: seq<(Rail, Outcome)>, id: nat)
    ensures |RailsFor(results, id)| == |results| && (forall r :: r in RailsFor(results, id) ==> r.status == NotOnRail)
       <==> forall i :: 0 <= i < |results| ==> Silent(Said(results, id, i))
  {
    RailsAre(results, id);
    forall i | 0 <= i < |results| && Said(results, id, i).Some? 
      ensures Said(results, id, i).value in RailsFor(results, id)
    {
    }
  }

  /** Uncollected: no rail missing and every one says "not here". */
  lemma UncollectedByStatus(spec: AcrossRails, order: Row, rails: seq<RailVerdict>)
    requires |rails| <= spec.rails
    ensures DecideOrder(spec, order, rails).verdict == Uncollected
       <==> |rails| == spec.rails && forall r :: r in rails ==> r.status == NotOnRail
  {
    NoneMatched(rails);
    if DecideOrder(spec, order, rails).verdict == Uncollected {
      forall r | r in rails ensures r.status == NotOnRail {
        assert r.status !in {Unread, SeveralOnRail};
      }
    }
  }

  /** Under this rule nothing the rail left unclaimed answers the order: no record
      of it is admitted by the order or, where the rule groups orders, admits it;
      and no group of leftovers that would hold either side of such an answer
      fits. */
  ghost predicate NoAnswer(m: Member, ledger: seq<Row>, lc: Option<Coverage>, rule: Rule, order: Row) {
    var res := ResultOf(m, ledger, lc);
    var orders, records := LeftOver(res, LeftSide), LeftOver(res, RightSide);
    if OneSide(rule) == LeftSide then
      if rule.GroupSum?
      then forall s: set<Row> :: (forall r :: r in s ==> r in records) ==> !Fitting(rule, m.spec.identity, order, s)
      else forall r :: r in records ==> !Admits(rule, m.spec.identity, order, r)
    else
      if rule.GroupSum?
      then forall r, s: set<Row> :: r in records && order in s && (forall o :: o in s ==> o in orders) ==>
             !Fitting(rule, m.spec.identity, r, s)
      else forall r :: r in records ==> !Admits(rule, m.spec.identity, r, order)
  }

  lemma LeftOverHasNoAnswer(m: Member, ledger: seq<Row>, lc: Option<Coverage>, rule: Rule, order: Row)
    requires Separate(ledger, m) && rule in m.spec.keys && order in LeftOver(ResultOf(m, ledger, lc), LeftSide)
    ensures NoAnswer(m, ledger, lc, rule, order)
  {
    CompleteMisses(m.spec, ledger, m.rows, lc, m.coverage, rule);
    assert OneSide(rule) == RightSide ==> OneSide(rule).Other() == LeftSide;
  }

  /** The rail was read to the end, over a span holding the order's date, which is
      the one its first rule with timestamps reads on the left. */
  ghost predicate WasRead(m: Member, order: Row) {
    ReadFor(m.spec.keys, LeftSide, order, m.coverage)
  }

  lemma UnmatchedWasRead(m: Member, ledger: seq<Row>, lc: Option<Coverage>, order: Row)
    requires order in ResultOf(m, ledger, lc).unmatchedLeft
    ensures WasRead(m, order)
  {
    MissingIff(m.spec, ledger, m.rows, lc, m.coverage, order);
  }

  /** The claim end to end: when an order is reported uncollected, every rail
      that states its coverage was read to the end over a span holding the
      order's date, and nothing that rail left unclaimed answers the order under
      any of its rules. */
  lemma UncollectedIsEvidence(spec: AcrossRails, ledger: seq<Row>, members: seq<Member>, lc: Option<Coverage>,
                              order: Row, m: Member)
    requires forall x :: x in members ==> Separate(ledger, x)
    requires order in ledger && |members| == spec.rails && m in members
    requires DecideOrder(spec, order, RailsFor(ResultsOf(members, ledger, lc), order.id)).verdict == Uncollected
    ensures WasRead(m, order)
    ensures forall rule :: rule in m.spec.keys ==> NoAnswer(m, ledger, lc, rule, order)
  {
    UncollectedIff(spec, ledger, members, lc, order);
    assert order in ResultOf(m, ledger, lc).unmatchedLeft;
    UnmatchedWasRead(m, ledger, lc, order);
    forall rule | rule in m.spec.keys ensures NoAnswer(m, ledger, lc, rule, order) {
      LeftOverHasNoAnswer(m, ledger, lc, rule, order);
    }
  }

  /** And the rows it was matched against are the whole of that rail's
      upstream, when they were read by `fetch_side`. */
  lemma UncollectedRailWasReadWhole(spec: AcrossRails, ledger: seq<Row>, members: seq<Member>, lc: Option<Coverage>,
                                    order: Row, m: Member, u: Fetch.Upstream, takesCursor: bool, cap: nat)
    requires forall x :: x in members ==> Separate(ledger, x)
    requires order in ledger && |members| == spec.rails && m in members && m.coverage.Some?
    requires Fetch.Halts(u, takesCursor, cap) && (u.Paged? ==> Fetch.Finite(u.pages))
    requires Fetch.Fetched(u, takesCursor, cap) == Fetch.Side(m.rows, m.coverage.value.truncated)
    requires DecideOrder(spec, order, RailsFor(ResultsOf(members, ledger, lc), order.id)).verdict == Uncollected
    ensures m.rows == Fetch.AllRows(u)
  {
    UncollectedIsEvidence(spec, ledger, members, lc, order, m);
    Fetch.FetchIsSound(u, takesCursor, cap);
  }

  // ── one verdict per rail ──

  /** The order is the left record of a pair. */
  ghost predicate Paired(matched: seq<Pairing>, order: Row) {
    exists p :: p in matched && p.left == Single(order)
  }

  /** The order is one of several that answer a rail's record together. */
  ghost predicate Grouped(matched: seq<Pairing>, order: Row) {
    exists p :: p in matched && p.left.Group? && order in p.left.members
  }

  /** Being matched is being paired or being grouped, never both; and a rail's
      dict finds the order only when it is paired. */
  lemma {:induction false} MatchedHow(matched: seq<Pairing>, order: Row)
    requires forall r :: r in MatchedRows(matched, LeftSide) && r.id == order.id ==> r == order
    ensures order in MatchedRows(matched, LeftSide) <==> Paired(matched, order) || Grouped(matched, order)
    ensures LastPair(matched, order.id).Some? <==> Paired(matched, order)
    ensures Paired(matched, order) && Grouped(matched, order) ==> MatchedRows(matched, LeftSide)[order] >= 2
  {
    if matched != [] {
      var n := |matched| - 1;
      var before, p := matched[..n], matched[n];
      assert MatchedRows(matched, LeftSide) == MatchedRows(before, LeftSide) + multiset(PartyRows(p.left));
      MatchedHow(before, order);
      PartyHas(p.left, order);
      PairedNext(matched, order);
      if p.left.Single? && p.left.row.id == order.id {
        assert p.left.row in MatchedRows(matched, LeftSide);
      }
    }
  }

  lemma PairedNext(matched: seq<Pairing>, order: Row)
    requires matched != []
    ensures var before, p := matched[..|matched| - 1], matched[|matched| - 1];
            && (Paired(matched, order) <==> Paired(before, order) || p.left == Single(order))
            && (Grouped(matched, order) <==> Grouped(before, order) || (p.left.Group? && order in p.left.members))
  {
    var before, p := matched[..|matched| - 1], matched[|matched| - 1];
    assert matched == before + [p];
  }

  lemma PartyHas(party: Party, order: Row)
    ensures multiset(PartyRows(party))[order] >= 1
           <==> party == Single(order) || (party.Group? && order in party.members)
    ensures party.Single? ==> party.row in multiset(PartyRows(party))
  {
    assert order in multiset(PartyRows(party)) <==> order in PartyRows(party);
  }

  lemma {:induction false} OpenIsAsked(ambiguous: seq<Ambiguity>, order: Row)
    requires order in OpenRows(ambiguous, LeftSide)
    ensures Asked(ambiguous, order.id)
  {
    var n := |ambiguous| - 1;
    if ambiguous[n].side == LeftSide && ambiguous[n].record == order {
      assert ambiguous[n] in ambiguous;
    } else {
      assert order in OpenRows(ambiguous[..n], LeftSide);
      OpenIsAsked(ambiguous[..n], order);
      var a :| a in ambiguous[..n] && a.record.id == order.id;
      assert a in ambiguous;
    }
  }

  lemma {:induction false} AskedIsOpen(ambiguous: seq<Ambiguity>, id: nat) returns (record: Row, side: Side)
    requires Asked(ambiguous, id)
    ensures record.id == id && record in OpenRows(ambiguous, side)
  {
    var n := |ambiguous| - 1;
    assert ambiguous == ambiguous[..n] + [ambiguous[n]];
    if ambiguous[n].record.id == id {
      record, side := ambiguous[n].record, ambiguous[n].side;
    } else {
      record, side := AskedIsOpen(ambiguous[..n], id);
    }
  }

  /** A question under an order's identity is about that order. */
  lemma AskedOnlyWhenOpen(m: Member, ledger: seq<Row>, lc: Option<Coverage>, order: Row)
    requires Separate(ledger, m) && order in ledger
    ensures Asked(ResultOf(m, ledger, lc).ambiguous, order.id)
           <==> order in OpenRows(ResultOf(m, ledger, lc).ambiguous, LeftSide)
  {
    var r := ResultOf(m, ledger, lc);
    if order in OpenRows(r.ambiguous, LeftSide) {
      OpenIsAsked(r.ambiguous, order);
    }
    if Asked(r.ambiguous, order.id) {
      var record, side := AskedIsOpen(r.ambiguous, order.id);
      Partition(m.spec, ledger, m.rows, lc, m.coverage, side, record);
      if side == LeftSide {
        SameIdentity(ledger, record, order);
      } else {
        InBoth(ledger, m.rows, order, record);
      }
    }
  }

  lemma InBoth(ledger: seq<Row>, rows: seq<Row>, a: Row, b: Row)
    requires Ids(ledger) !! Ids(rows) && a in ledger && b in rows
    ensures a.id != b.id
  {
    assert a.id in Ids(ledger) && b.id in Ids(rows);
  }

  /** Where an order is in a result, and what its rail says of it: nothing,
      exactly when it was matched in a group; else which place it is in. */
  ghost predicate SpeaksFor(r: Outcome, v: Option<RailVerdict>, order: Row) {
    && (v == None <==> Grouped(r.matched, order))
    && (v.Some? ==>
          && (v.value.status == OnRail <==> Paired(r.matched, order))
          && (v.value.status == NotOnRail <==> order in r.unmatchedLeft)
          && (v.value.status == SeveralOnRail <==> order in OpenRows(r.ambiguous, LeftSide))
          && (v.value.status == Unread <==> order in r.unverifiableLeft))
  }

  /** What `VerdictOf` reads, given where the order alone is. */
  lemma VerdictReads(rail: Rail, r: Outcome, order: Row)
    requires order.id in Ids(r.unmatchedLeft) <==> order in r.unmatchedLeft
    requires order.id in Ids(r.unverifiableLeft) <==> order in r.unverifiableLeft
    requires Asked(r.ambiguous, order.id) <==> order in OpenRows(r.ambiguous, LeftSide)
    requires LastPair(r.matched, order.id).Some? <==> Paired(r.matched, order)
    requires order in MatchedRows(r.matched, LeftSide) <==> Paired(r.matched, order) || Grouped(r.matched, order)
    requires Paired(r.matched, order) && Grouped(r.matched, order) ==> MatchedRows(r.matched, LeftSide)[order] >= 2
    requires MatchedRows(r.matched, LeftSide)[order] + OpenRows(r.ambiguous, LeftSide)[order]
             + multiset(r.unmatchedLeft)[order] + multiset(r.unverifiableLeft)[order] == 1
    ensures SpeaksFor(r, VerdictOf(rail, r, order.id), order)
  {
    assert order in r.unmatchedLeft <==> order in multiset(r.unmatchedLeft);
    assert order in r.unverifiableLeft <==> order in multiset(r.unverifiableLeft);
  }

  /** Whatever the rules: every order gets one verdict from each rail, which
      says where that rail's match left it, the dict's four loops never
      overwriting one another; except an order matched in a group of several,
      which the dict, keyed on the group, says nothing of. */
  lemma OneVerdictPerRail(m: Member, ledger: seq<Row>, lc: Option<Coverage>, order: Row)
    requires Separate(ledger, m) && order in ledger
    ensures SpeaksFor(ResultOf(m, ledger, lc), VerdictOf(m.rail, ResultOf(m, ledger, lc), order.id), order)
  {
    var r := ResultOf(m, ledger, lc);
    Partition(m.spec, ledger, m.rows, lc, m.coverage, LeftSide, order);
    IdMeansRow(m, ledger, lc, order, r.unmatchedLeft);
    IdMeansRow(m, ledger, lc, order, r.unverifiableLeft);
    AskedOnlyWhenOpen(m, ledger, lc, order);
    forall x | x in MatchedRows(r.matched, LeftSide) && x.id == order.id ensures x == order {
      Partition(m.spec, ledger, m.rows, lc, m.coverage, LeftSide, x);
      SameIdentity(ledger, x, order);
    }
    MatchedHow(r.matched, order);
    VerdictReads(m.rail, r, order);
  }

  /** The rail left the order open, unread, or matched in a group. */
  ghost predicate CannotTell(r: Outcome, order: Row) {
    order in OpenRows(r.ambiguous, LeftSide) || order in r.unverifiableLeft || Grouped(r.matched, order)
  }

  lemma UnverifiableByStatus(spec: AcrossRails, order: Row, rails: seq<RailVerdict>)
    requires |rails| <= spec.rails
    ensures DecideOrder(spec, order, rails).verdict == Unverifiable
       <==> (forall r :: r in rails ==> r.status != OnRail)
            && (|rails| < spec.rails || exists r :: r in rails && r.status in {Unread, SeveralOnRail})
  {
    NoneMatched(rails);
  }

  /** Whatever the rules: an order is unverifiable exactly when it is paired on
      no rail and some rail left it open, unread or matched in a group. So an
      order that was matched, but only together with others, is reported
      unverifiable. */
  lemma UnverifiableIff(spec: AcrossRails, ledger: seq<Row>, members: seq<Member>, lc: Option<Coverage>, order: Row)
    requires forall m :: m in members ==> Separate(ledger, m)
    requires order in ledger && |members| == spec.rails
    ensures DecideOrder(spec, order, RailsFor(ResultsOf(members, ledger, lc), order.id)).verdict == Unverifiable
       <==> (forall m :: m in members ==> !Paired(ResultOf(m, ledger, lc).matched, order))
            && exists m :: m in members && CannotTell(ResultOf(m, ledger, lc), order)
  {
    var results := ResultsOf(members, ledger, lc);
    RailsAre(results, order.id);
    UnverifiableByStatus(spec, order, RailsFor(results, order.id));
    UnsureIff(results, order.id);
    SaidByAll(members, ledger, lc, order);
  }

  lemma SaidByAll(members: seq<Member>, ledger: seq<Row>, lc: Option<Coverage>, order: Row)
    requires (forall m :: m in members ==> Separate(ledger, m)) && order in ledger
    ensures var results := ResultsOf(members, ledger, lc);
            && ((forall i :: 0 <= i < |members| ==> !On(Said(results, order.id, i)))
                <==> forall m :: m in members ==> !Paired(ResultOf(m, ledger, lc).matched, order))
            && ((exists i :: 0 <= i < |members| && NoWord(Said(results, order.id, i)))
                <==> exists m :: m in members && CannotTell(ResultOf(m, ledger, lc), order))
  {
    var results := ResultsOf(members, ledger, lc);
    forall i | 0 <= i < |members|
      ensures On(Said(results, order.id, i)) <==> PairedOn(members[i], ledger, lc, order)
      ensures NoWord(Said(results, order.id, i)) <==> UnsureOn(members[i], ledger, lc, order)
    {
      SaidBy(members, ledger, lc, order, i);
    }
    AnyOf(members, m => PairedOn(m, ledger, lc, order));
    AnyOf(members, m => UnsureOn(m, ledger, lc, order));
  }

  ghost predicate PairedOn(m: Member, ledger: seq<Row>, lc: Option<Coverage>, order: Row) {
    Paired(ResultOf(m, ledger, lc).matched, order)
  }

  ghost predicate UnsureOn(m: Member, ledger: seq<Row>, lc: Option<Coverage>, order: Row) {
    CannotTell(ResultOf(m, ledger, lc), order)
  }

  lemma AnyOf<T>(s: seq<T>, p: T -> bool)
    ensures (exists x :: x in s && p(x)) <==> exists i :: 0 <= i < |s| && p(s[i])
  {
  }

  predicate On(v: Option<RailVerdict>) {
    v.Some? && v.value.status == OnRail
  }

  /** Nothing said, or nothing certain. */
  predicate NoWord(v: Option<RailVerdict>) {
    v == None || v.value.status in {Unread, SeveralOnRail}
  }

  lemma SaidBy(members: seq<Member>, ledger: seq<Row>, lc: Option<Coverage>, order: Row, i: nat)
    requires i < |members| && Separate(ledger, members[i]) && order in ledger
    ensures var v, r := Said(ResultsOf(members, ledger, lc), order.id, i), ResultOf(members[i], ledger, lc);
            && (On(v) <==> Paired(r.matched, order))
            && (NoWord(v) <==> CannotTell(r, order))
  {
    OneVerdictPerRail(members[i], ledger, lc, order);
    PlacesApart(members[i], ledger, lc, order);
  }

  /** A paired order is in no other place, and a grouped one neither. */
  lemma PlacesApart(m: Member, ledger: seq<Row>, lc: Option<Coverage>, order: Row)
    requires Separate(ledger, m) && order in ledger
    ensures !(Paired(ResultOf(m, ledger, lc).matched, order) && Grouped(ResultOf(m, ledger, lc).matched, order))
  {
    var r := ResultOf(m, ledger, lc);
    Partition(m.spec, ledger, m.rows, lc, m.coverage, LeftSide, order);
    forall x | x in MatchedRows(r.matched, LeftSide) && x.id == order.id ensures x == order {
      Partition(m.spec, ledger, m.rows, lc, m.coverage, LeftSide, x);
      SameIdentity(ledger, x, order);
    }
    MatchedHow(r.matched, order);
  }

  lemma UnsureIff(results: seq<(Rail, Outcome)>, id: nat)
    ensures var rails := RailsFor(results, id);
            && ((forall r :: r in rails ==> r.status != OnRail)
                <==> forall i :: 0 <= i < |results| ==> !On(Said(results, id, i)))
            && (|rails| < |results| || (exists r :: r in rails && r.status in {Unread, SeveralOnRail})
                <==> exists i :: 0 <= i < |results| && NoWord(Said(results, id, i)))
  {
    RailsAre(results, id);
    var rails := RailsFor(results, id);
    forall i | 0 <= i < |results| && Said(results, id, i).Some? ensures Said(results, id, i).value in rails {
    }
    if r :| r in rails && r.status in {Unread, SeveralOnRail} {
      var i :| 0 <= i < |results| && Said(results, id, i) == Some(r);
      assert NoWord(Said(results, id, i));
    }
  }

  // ── the declaration alone ──

  /** A rule that takes orders one at a time never groups them. */
  lemma OrdersStayAlone(m: Member, ledger: seq<Row>, lc: Option<Coverage>, order: Row)
    requires Separate(ledger, m)
    requires forall rule :: rule in m.spec.keys ==> OneSide(rule) == LeftSide
    ensures !Grouped(ResultOf(m, ledger, lc).matched, order)
  {
    var matched := ResultOf(m, ledger, lc).matched;
    forall p | p in matched ensures p.left.Single? {
      var k :| 0 <= k < |matched| && matched[k] == p;
      var rule, o, avail, i, n, j := PairWasClaimed(m.spec, ledger, m.rows, lc, m.coverage, k);
      assert p == Pair(o, Decide(rule, m.spec.identity, o, avail).members, LeftSide, KindOf(rule));
    }
  }

  /** So with members whose rules all take orders one at a time, as ExactRef and
      Fuzzy rules do, every order gets exactly one verdict from every rail. */
  lemma EveryRailSpeaks(spec: AcrossRails, ledger: seq<Row>, members: seq<Member>, lc: Option<Coverage>, order: Row)
    requires forall m :: m in members ==> Separate(ledger, m)
    requires forall m, rule :: m in members && rule in m.spec.keys ==>
              rule.ExactRef? || rule.Fuzzy? || OneSide(rule) == LeftSide
    requires order in ledger && |members| == spec.rails
    ensures forall m :: m in members ==> VerdictOf(m.rail, ResultOf(m, ledger, lc), order.id).Some?
    ensures |RailsFor(ResultsOf(members, ledger, lc), order.id)| == spec.rails
  {
    forall m | m in members ensures VerdictOf(m.rail, ResultOf(m, ledger, lc), order.id).Some? {
      OrdersStayAlone(m, ledger, lc, order);
      OneVerdictPerRail(m, ledger, lc, order);
    }
    var results := ResultsOf(members, ledger, lc);
    RailsAre(results, order.id);
    forall i | 0 <= i < |results| ensures Said(results, order.id, i).Some? {
      assert members[i] in members;
    }
  }

  lemma BatchesSeparate(m: Member)
    requires m.rows == [DEPOSIT]
    ensures Separate(BATCHES, m)
  {
    BatchesFit();
    forall id | id in Ids(BATCHES) ensures id in {1, 2} {
    }
    forall id | id in Ids(m.rows) ensures id == 3 {
    }
  }

  lemma BatchesGrouped(m: Member, order: Row)
    requires m.spec == TEXT_SPEC && m.rows == [DEPOSIT] && m.coverage == None && order in BATCHES
    ensures Grouped(ResultOf(m, BATCHES, None).matched, order)
  {
    TextPairIsMade();
    var matched := ResultOf(m, BATCHES, None).matched;
    assert matched[0] in matched && matched[0].left == Group(BATCHES);
  }

  lemma OneRailGrouped(spec: AcrossRails, ledger: seq<Row>, m: Member, lc: Option<Coverage>, order: Row)
    requires Separate(ledger, m) && order in ledger && spec.rails == 1
    requires Grouped(ResultOf(m, ledger, lc).matched, order)
    ensures VerdictOf(m.rail, ResultOf(m, ledger, lc), order.id) == None
    ensures DecideOrder(spec, order, RailsFor(ResultsOf([m], ledger, lc), order.id)).verdict == Unverifiable
  {
    OneVerdictPerRail(m, ledger, lc, order);
    PlacesApart(m, ledger, lc, order);
    UnverifiableIff(spec, ledger, [m], lc, order);
    assert m in [m] && CannotTell(ResultOf(m, ledger, lc), order);
  }

  /** Two batches that one deposit pays together: both are matched, and both are
      reported unverifiable. */
  lemma BatchesAreUnverifiable(spec: AcrossRails, m: Member, order: Row)
    requires spec.rails == 1 && m.spec == TEXT_SPEC && m.rows == [DEPOSIT] && m.coverage == None && order in BATCHES
    ensures Separate(BATCHES, m) && Grouped(ResultOf(m, BATCHES, None).matched, order)
    ensures VerdictOf(m.rail, ResultOf(m, BATCHES, None), order.id) == None
    ensures DecideOrder(spec, order, RailsFor(ResultsOf([m], BATCHES, None), order.id)).verdict == Unverifiable
  {
    BatchesSeparate(m);
    BatchesGrouped(m, order);
    OneRailGrouped(spec, BATCHES, m, None, order);
  }

  // ── duplicate or split: the arithmetic ──

  /** Distances from the total add up: `slack` bounds each, scaled by 10,000. */
  lemma {:induction false} SumOfNear(xs: seq<int>, total: int, slack: int)
    requires forall i :: 0 <= i < |xs| ==> Abs(xs[i] - total) * 10_000 <= slack
    ensures Abs(SumInts(xs) - |xs| * total) * 10_000 <= |xs| * slack
  {
    if xs != [] {
      var n := |xs| - 1;
      var before := xs[..n];
      SumOfNear(before, total, slack);
      assert Abs(xs[n] - total) * 10_000 <= slack;
      OneMore(n, total);
      OneMore(n, slack);
      assert SumInts(xs) - |xs| * total == (SumInts(before) - n * total) + (xs[n] - total);
    }
  }

  lemma OneMore(n: int, x: int)
    ensures (n + 1) * x == n * x + x
  {
  }

  lemma Cancel(a: int, b: int, t: int)
    requires t > 0 && a * t <= b * t
    ensures a <= b
  {
    if a > b {
      OneMore(a - b - 1, t);
    }
  }

  /** Below a third of the total in tolerance, amounts taken on two or more
      rails are never both "each the full total" and "together the total". */
  lemma NeverBothTwiceAndSplit(xs: seq<int>, total: int, bps: nat)
    requires |xs| >= 2 && total != 0 && 3 * bps < 10_000
    ensures !(AllNear(xs, total, bps) && Near(SumInts(xs), total, bps))
  {
    if AllNear(xs, total, bps) && Near(SumInts(xs), total, bps) {
      var n, t, slack := |xs|, Abs(total), bps * Abs(total);
      forall i | 0 <= i < n ensures Abs(xs[i] - total) * 10_000 <= slack {
        assert Near(xs[i], total, bps);
      }
      SumOfNear(xs, total, slack);
      SpreadBound(SumInts(xs), n, total, slack);
      TooWide(n, t, bps);
    }
  }

  lemma TooWide(n: int, t: int, bps: int)
    requires n >= 2 && t > 0 && bps >= 0 && 3 * bps < 10_000
    ensures ((n - 1) * t) * 10_000 > n * (bps * t) + bps * t
  {
    Scale(n, t, bps);
    if ((n - 1) * t) * 10_000 <= n * (bps * t) + bps * t {
      Cancel((n - 1) * 10_000, (n + 1) * bps, t);
    }
  }

  /** The sum cannot be near both one total and `n` of them. */
  lemma SpreadBound(s: int, n: int, total: int, slack: int)
    requires n >= 1
    requires Abs(s - n * total) * 10_000 <= n * slack && Abs(s - total) * 10_000 <= slack
    ensures ((n - 1) * Abs(total)) * 10_000 <= n * slack + slack
  {
    assert n * total - total == (n - 1) * total;
    assert Abs((n - 1) * total) == (n - 1) * Abs(total);
  }

  lemma Scale(n: int, t: int, bps: int)
    ensures ((n - 1) * 10_000) * t == ((n - 1) * t) * 10_000
    ensures ((n + 1) * bps) * t == n * (bps * t) + bps * t
  {
  }

  /** The bound is sharp: from a third on, some total has amounts that are both. */
  lemma ThirdIsSharp(bps: nat)
    ensures 3 * bps >= 10_000 <==>
            exists xs: seq<int>, total :: |xs| >= 2 && total != 0 && AllNear(xs, total, bps)
                && Near(SumInts(xs), total, bps)
  {
    if 3 * bps >= 10_000 {
      var xs := [20_000, 20_000];
      assert xs[..1] == [20_000] && xs[..1][..0] == [];
      assert SumInts(xs[..1]) == 20_000;
      assert SumInts(xs) == 40_000;
      assert AllNear(xs, 30_000, bps) && Near(SumInts(xs), 30_000, bps);
    } else {
      forall xs: seq<int>, total | |xs| >= 2 && total != 0
        ensures !(AllNear(xs, total, bps) && Near(SumInts(xs), total, bps))
      {
        NeverBothTwiceAndSplit(xs, total, bps);
      }
    }
  }

  /** `collected_minor` of an order verdict. */
  function CollectedMinor(v: OrderVerdict): Option<int> {
    var matched := OnlyMatched(v.rails);
    if matched == [] || exists r :: r in matched && r.collected == None then None
    else Some(SumInts(Amounts(matched)))
  }

  /** An order collected twice on `n` rails was overcollected by almost
      `n - 1` totals: the tolerance is all that can be missing. */
  lemma OvercollectedBound(spec: AcrossRails, order: Row, rails: seq<RailVerdict>)
    requires DecideOrder(spec, order, rails).verdict == CollectedTwice
    requires Minor(order, spec.ledgerTotal).value > 0
    ensures var v, n, total := DecideOrder(spec, order, rails), |OnlyMatched(rails)|,
                              Minor(order, spec.ledgerTotal).value;
            && n >= 2 && CollectedMinor(v).Some?
            && (CollectedMinor(v).value - total) * 10_000 >= ((n - 1) * 10_000 - n * spec.toleranceBps) * total
  {
    var matched, total := OnlyMatched(rails), Minor(order, spec.ledgerTotal).value;
    var n, b := |matched|, spec.toleranceBps;
    var amounts := Amounts(matched);
    forall i | 0 <= i < n ensures Abs(amounts[i] - total) * 10_000 <= b * total {
      assert Near(amounts[i], total, b);
    }
    SumOfNear(amounts, total, b * total);
    Unscale(n, b, total);
  }

  lemma Unscale(n: int, b: int, total: int)
    ensures ((n - 1) * 10_000 - n * b) * total == (n * total) * 10_000 - total * 10_000 - n * (b * total)
  {
  }
}
