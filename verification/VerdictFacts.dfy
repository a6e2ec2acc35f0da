/** The verdict on an order, read off the pairs its rails made of it. */
module VerdictFacts {
  import opened Prelude
  import opened Rows
  import opened Declaration
  import opened Matching
  import opened MatchFacts
  import opened Scoring
  import opened Differences
  import opened Coverages
  import opened Engine
  import opened Across
  import opened AcrossFacts

  /** The pair that the `member`-th rail made of an order. */
  datatype Paid = Paid(member: nat, pair: Pairing)

  /** `pays` lists, in rail order, every pair some rail made of this order alone. */
  ghost predicate PaidOn(members: seq<Member>, ledger: seq<Row>, lc: Option<Coverage>, order: Row, pays: seq<Paid>) {
    && (forall i, j :: 0 <= i < j < |pays| ==> pays[i].member < pays[j].member)
    && forall x :: x in pays <==> IsPaid(members, ledger, lc, order, x)
  }

  ghost predicate IsPaid(members: seq<Member>, ledger: seq<Row>, lc: Option<Coverage>, order: Row, x: Paid) {
    && x.member < |members| && x.pair.left == Single(order)
    && x.pair in ResultOf(members[x.member], ledger, lc).matched
  }

  // ── a rail makes one such pair at most ──

  lemma {:induction false} PairHolds(matched: seq<Pairing>, p: Pairing, order: Row)
    requires p in matched && p.left == Single(order)
    ensures MatchedRows(matched, LeftSide)[order] >= 1
  {
    var n := |matched| - 1;
    TakeNext(matched, n);
    TakeAll(matched);
    if matched[n] == p {
      assert order in PartyRows(p.left);
    } else {
      PairHolds(matched[..n], p, order);
    }
  }

  /** Where an order is held once, its pair is the last one under its identity. */
  lemma {:induction false} LastPairIs(matched: seq<Pairing>, p: Pairing, order: Row)
    requires p in matched && p.left == Single(order)
    requires forall r :: r in MatchedRows(matched, LeftSide) && r.id == order.id ==> r == order
    requires MatchedRows(matched, LeftSide)[order] <= 1
    ensures LastPair(matched, order.id) == Some(p)
  {
    var n := |matched| - 1;
    var before, last := matched[..n], matched[n];
    TakeNext(matched, n);
    TakeAll(matched);
    assert MatchedRows(matched, LeftSide) == MatchedRows(before, LeftSide) + multiset(PartyRows(last.left));
    if last == p {
    } else {
      PairHolds(before, p, order);
      assert order !in multiset(PartyRows(last.left));
      if last.left.Single? {
        assert last.left.row in multiset(PartyRows(last.left));
      }
      LastPairIs(before, p, order);
    }
  }

  /** What a rail says of an order it paired is what that pair's right side reads. */
  lemma SaidOfPair(m: Member, ledger: seq<Row>, lc: Option<Coverage>, order: Row, p: Pairing)
    requires Separate(ledger, m) && order in ledger
    requires p in ResultOf(m, ledger, lc).matched && p.left == Single(order)
    ensures VerdictOf(m.rail, ResultOf(m, ledger, lc), order.id) == Some(Took(m.rail, p))
  {
    var r := ResultOf(m, ledger, lc);
    Partition(m.spec, ledger, m.rows, lc, m.coverage, LeftSide, order);
    forall x | x in MatchedRows(r.matched, LeftSide) && x.id == order.id ensures x == order {
      Partition(m.spec, ledger, m.rows, lc, m.coverage, LeftSide, x);
      SameIdentity(ledger, x, order);
    }
    LastPairIs(r.matched, p, order);
    OneVerdictPerRail(m, ledger, lc, order);
    assert Paired(r.matched, order);
    PlacesApart(m, ledger, lc, order);
    OnlyPaired(m.rail, r, order.id);
  }

  lemma OnlyPaired(rail: Rail, r: Outcome, id: nat)
    requires VerdictOf(rail, r, id).Some? && VerdictOf(rail, r, id).value.status == OnRail
    ensures VerdictOf(rail, r, id) == TookOf(rail, LastPair(r.matched, id))
  {
  }

  // ── the rails that took the order ──

  function Takings(members: seq<Member>, pays: seq<Paid>): seq<RailVerdict>
    requires forall x :: x in pays ==> x.member < |members|
  {
    seq(|pays|, j requires 0 <= j < |pays| => Took(members[pays[j].member].rail, pays[j].pair))
  }

  lemma OnlyMatchedSnoc(rails: seq<RailVerdict>, v: Option<RailVerdict>)
    ensures OnlyMatched(rails + if v.Some? then [v.value] else [])
         == OnlyMatched(rails) + if On(v) then [v.value] else []
  {
    if v.Some? {
      assert (rails + [v.value])[..|rails|] == rails;
    } else {
      assert rails + [] == rails;
    }
  }

  lemma HasFirst<T>(s: seq<T>)
    ensures s != [] ==> s[0] in s
  {
  }

  lemma PaidBefore(members: seq<Member>, ledger: seq<Row>, lc: Option<Coverage>, order: Row, x: Paid)
    requires members != []
    ensures var n := |members| - 1;
            IsPaid(members[..n], ledger, lc, order, x) <==> IsPaid(members, ledger, lc, order, x) && x.member < n
  {
  }

  /** All but the last of a climbing listing come before the last. */
  lemma ButLast(pays: seq<Paid>, x: Paid)
    requires pays != [] && forall i, j :: 0 <= i < j < |pays| ==> pays[i].member < pays[j].member
    ensures var k := |pays| - 1; x in pays[..k] <==> x in pays && x.member < pays[k].member
    ensures x in pays ==> x.member <= pays[|pays| - 1].member
  {
    TakeNext(pays, |pays| - 1);
    TakeAll(pays);
    if x in pays {
      var i :| 0 <= i < |pays| && pays[i] == x;
    }
  }

  /** A climbing listing up to a member: all of it, or all but the last. */
  lemma UpTo(pays: seq<Paid>, n: nat) returns (before: seq<Paid>)
    requires forall i, j :: 0 <= i < j < |pays| ==> pays[i].member < pays[j].member
    requires forall x :: x in pays ==> x.member <= n
    ensures forall i, j :: 0 <= i < j < |before| ==> before[i].member < before[j].member
    ensures forall x :: x in before <==> x in pays && x.member < n
    ensures if pays != [] && pays[|pays| - 1].member == n then pays == before + [pays[|pays| - 1]] else pays == before
  {
    var k := |pays| - 1;
    if pays == [] {
      before := pays;
    } else {
      forall x ensures x in pays[..k] <==> x in pays && x.member < pays[k].member
        ensures x in pays ==> x.member <= pays[k].member
      {
        ButLast(pays, x);
      }
      assert pays[k] in pays;
      before := if pays[k].member == n then pays[..k] else pays;
    }
  }

  lemma PaysBefore(members: seq<Member>, ledger: seq<Row>, lc: Option<Coverage>, order: Row, pays: seq<Paid>)
    returns (before: seq<Paid>)
    requires members != [] && PaidOn(members, ledger, lc, order, pays)
    ensures PaidOn(members[..|members| - 1], ledger, lc, order, before)
    ensures var n := |members| - 1;
            if pays != [] && pays[|pays| - 1].member == n then pays == before + [pays[|pays| - 1]]
            else pays == before && forall x :: IsPaid(members, ledger, lc, order, x) ==> x.member < n
  {
    var n := |members| - 1;
    forall x ensures IsPaid(members[..n], ledger, lc, order, x) <==> x in pays && x.member < n {
      PaidBefore(members, ledger, lc, order, x);
    }
    forall x | x in pays ensures x.member <= n {
      assert IsPaid(members, ledger, lc, order, x);
    }
    before := UpTo(pays, n);
  }

  /** The rails that took an order are those that paired it, in rail order. */
  lemma {:induction false} TakingsAre(members: seq<Member>, ledger: seq<Row>, lc: Option<Coverage>, order: Row,
                                      pays: seq<Paid>)
    requires forall m :: m in members ==> Separate(ledger, m)
    requires order in ledger && PaidOn(members, ledger, lc, order, pays)
    ensures forall x :: x in pays ==> x.member < |members|
    ensures OnlyMatched(RailsFor(ResultsOf(members, ledger, lc), order.id)) == Takings(members, pays)
    decreases |members|
  {
    forall x | x in pays ensures x.member < |members| {
      assert IsPaid(members, ledger, lc, order, x);
    }
    if members == [] {
      HasFirst(pays);
    } else {
      var n := |members| - 1;
      var before := PaysBefore(members, ledger, lc, order, pays);
      TakingsAre(members[..n], ledger, lc, order, before);
      LastTaking(members, ledger, lc, order, pays, before);
    }
  }

  lemma LastTaking(members: seq<Member>, ledger: seq<Row>, lc: Option<Coverage>, order: Row, pays: seq<Paid>,
                   before: seq<Paid>)
    requires members != [] && (forall m :: m in members ==> Separate(ledger, m)) && order in ledger
    requires forall x :: x in pays <==> IsPaid(members, ledger, lc, order, x)
    requires forall x :: x in before ==> x.member < |members| - 1
    requires var n := |members| - 1;
             if pays != [] && pays[|pays| - 1].member == n then pays == before + [pays[|pays| - 1]]
             else pays == before && forall x :: IsPaid(members, ledger, lc, order, x) ==> x.member < n
    requires var n := |members| - 1;
             OnlyMatched(RailsFor(ResultsOf(members[..n], ledger, lc), order.id)) == Takings(members[..n], before)
    ensures forall x :: x in pays ==> x.member < |members|
    ensures OnlyMatched(RailsFor(ResultsOf(members, ledger, lc), order.id)) == Takings(members, pays)
  {
    var n := |members| - 1;
    var v := VerdictOf(members[n].rail, ResultOf(members[n], ledger, lc), order.id);
    RailsLast(members, ledger, lc, order.id);
    assert members[n] in members;
    if pays != [] && pays[|pays| - 1].member == n {
      var x := pays[|pays| - 1];
      assert x in pays;
      SaidOfPair(members[n], ledger, lc, order, x.pair);
      TakingsSnoc(members, before, x);
    } else {
      NotTaken(members, ledger, lc, order, v);
      TakingsSame(members, before);
    }
  }

  lemma RailsLast(members: seq<Member>, ledger: seq<Row>, lc: Option<Coverage>, id: nat)
    requires members != []
    ensures var n := |members| - 1;
            var v := VerdictOf(members[n].rail, ResultOf(members[n], ledger, lc), id);
            OnlyMatched(RailsFor(ResultsOf(members, ledger, lc), id))
            == OnlyMatched(RailsFor(ResultsOf(members[..n], ledger, lc), id)) + if On(v) then [v.value] else []
  {
    var n, results := |members| - 1, ResultsOf(members, ledger, lc);
    assert results[..n] == ResultsOf(members[..n], ledger, lc);
    OnlyMatchedSnoc(RailsFor(results[..n], id), VerdictOf(members[n].rail, ResultOf(members[n], ledger, lc), id));
  }

  lemma TakingsSame(members: seq<Member>, pays: seq<Paid>)
    requires members != [] && forall x :: x in pays ==> x.member < |members| - 1
    ensures Takings(members[..|members| - 1], pays) == Takings(members, pays)
  {
  }

  lemma TakingsSnoc(members: seq<Member>, pays: seq<Paid>, x: Paid)
    requires members != [] && x.member == |members| - 1 && forall y :: y in pays ==> y.member < |members| - 1
    ensures forall y :: y in pays + [x] ==> y.member < |members|
    ensures Takings(members, pays + [x])
         == Takings(members[..|members| - 1], pays) + [Took(members[x.member].rail, x.pair)]
  {
    TakingsSame(members, pays);
    assert Takings(members, pays + [x]) == Takings(members, pays) + [Took(members[x.member].rail, x.pair)];
  }

  lemma NotTaken(members: seq<Member>, ledger: seq<Row>, lc: Option<Coverage>, order: Row, v: Option<RailVerdict>)
    requires members != [] && Separate(ledger, members[|members| - 1]) && order in ledger
    requires forall x :: IsPaid(members, ledger, lc, order, x) ==> x.member < |members| - 1
    requires v == VerdictOf(members[|members| - 1].rail, ResultOf(members[|members| - 1], ledger, lc), order.id)
    ensures !On(v)
  {
    var n := |members| - 1;
    OneVerdictPerRail(members[n], ledger, lc, order);
    if p :| p in ResultOf(members[n], ledger, lc).matched && p.left == Single(order) {
      assert IsPaid(members, ledger, lc, order, Paid(n, p));
    }
  }

  /** What one rail adds. */
  ghost function LastPaid(matched: seq<Pairing>, order: Row, n: nat): seq<Paid> {
    if exists p :: p in matched && p.left == Single(order) then
      var p :| p in matched && p.left == Single(order);
      [Paid(n, p)]
    else []
  }

  lemma LastPaidIs(matched: seq<Pairing>, order: Row, n: nat)
    requires forall p, q :: p in matched && p.left == Single(order) && q in matched && q.left == Single(order) ==>
               p == q
    ensures |LastPaid(matched, order, n)| <= 1
    ensures forall x :: x in LastPaid(matched, order, n) <==>
                        x.member == n && x.pair in matched && x.pair.left == Single(order)
  {
  }

  /** Such a listing exists. */
  lemma {:induction false} PaidOnExists(members: seq<Member>, ledger: seq<Row>, lc: Option<Coverage>, order: Row)
    returns (pays: seq<Paid>)
    requires forall m :: m in members ==> Separate(ledger, m)
    requires order in ledger
    ensures PaidOn(members, ledger, lc, order, pays)
    decreases |members|
  {
    pays := [];
    if members != [] {
      var n := |members| - 1;
      var matched := ResultOf(members[n], ledger, lc).matched;
      var before := PaidOnExists(members[..n], ledger, lc, order);
      forall p, q | p in matched && q in matched && p.left == Single(order) && q.left == Single(order) ensures p == q {
        SaidOfPairs(members[n], ledger, lc, order, p, q);
      }
      LastPaidIs(matched, order, n);
      var last := LastPaid(matched, order, n);
      pays := before + last;
      forall x ensures x in before <==> IsPaid(members, ledger, lc, order, x) && x.member < n {
        PaidBefore(members, ledger, lc, order, x);
      }
      assert forall x :: x in last <==> IsPaid(members, ledger, lc, order, x) && x.member == n;
      Appended(before, last, n);
    }
  }

  lemma Appended(before: seq<Paid>, last: seq<Paid>, n: nat)
    requires forall i, j :: 0 <= i < j < |before| ==> before[i].member < before[j].member
    requires |last| <= 1 && (forall x :: x in before ==> x.member < n) && forall x :: x in last ==> x.member == n
    ensures var pays := before + last; forall i, j :: 0 <= i < j < |pays| ==> pays[i].member < pays[j].member
  {
    HasFirst(last);
    forall i | 0 <= i < |before| ensures before[i].member < n {
      assert before[i] in before;
    }
  }

  lemma SaidOfPairs(m: Member, ledger: seq<Row>, lc: Option<Coverage>, order: Row, p: Pairing, q: Pairing)
    requires Separate(ledger, m) && order in ledger
    requires p in ResultOf(m, ledger, lc).matched && p.left == Single(order)
    requires q in ResultOf(m, ledger, lc).matched && q.left == Single(order)
    ensures p == q
  {
    var r := ResultOf(m, ledger, lc);
    Partition(m.spec, ledger, m.rows, lc, m.coverage, LeftSide, order);
    forall x | x in MatchedRows(r.matched, LeftSide) && x.id == order.id ensures x == order {
      Partition(m.spec, ledger, m.rows, lc, m.coverage, LeftSide, x);
      SameIdentity(ledger, x, order);
    }
    LastPairIs(r.matched, p, order);
    LastPairIs(r.matched, q, order);
  }

  // ── the verdict ──

  /** The records carry this currency; none, when it is empty. */
  ghost predicate InCurrency(rows: seq<Row>, path: Path, cur: string) {
    if cur == "" then forall c :: !Shows(rows, path, c) else Shows(rows, path, cur)
  }

  lemma PartyInCurrency(p: Party, path: Path, cur: string)
    ensures PartyCurrency(p, path) == cur <==> InCurrency(PartyRows(p), path, cur)
  {
    var shown := PartyCurrency(p, path);
    if shown != "" {
      PartyShows(p, path, shown);
    }
    if cur != "" {
      PartyShows(p, path, cur);
    }
    forall c | Shows(PartyRows(p), path, c) ensures shown == c {
      PartyShows(p, path, c);
    }
  }

  /** The order's total and what each paying pair's right side took, all read, and
      all in the order's currency. */
  ghost predicate Tally(spec: AcrossRails, members: seq<Member>, order: Row, pays: seq<Paid>, total: int,
                        took: seq<int>)
  {
    && Minor(order, spec.ledgerTotal) == Some(total) && |took| == |pays|
    && forall j :: 0 <= j < |pays| ==>
         TookFrom(members, pays[j], Upper(Currency(order, spec.ledgerCurrency)), took[j])
  }

  /** The right side of this pair took so much, in this currency. */
  ghost predicate TookFrom(members: seq<Member>, x: Paid, cur: string, n: int) {
    && TookAmount(members, x, n)
    && InCurrency(PartyRows(x.pair.right), members[x.member].rail.currency, cur)
  }

  /** Together. */
  function Together(took: seq<int>): int {
    if took == [] then 0 else took[0] + Together(took[1..])
  }

  lemma {:induction false} TogetherIsSum(took: seq<int>)
    ensures SumInts(took) == Together(took)
  {
    if took != [] {
      SumFirst(took);
      TogetherIsSum(took[1..]);
    }
  }

  lemma {:induction false} SumFirst(xs: seq<int>)
    requires xs != []
    ensures SumInts(xs) == xs[0] + SumInts(xs[1..])
  {
    var n := |xs| - 1;
    if n == 0 {
      assert xs[..0] == [] && xs[1..] == [];
    } else {
      SumFirst(xs[..n]);
      assert xs[..n][1..] == xs[1..][..n - 1];
    }
  }

  /** Each rail took about the whole total. */
  ghost predicate EachFull(spec: AcrossRails, total: int, took: seq<int>) {
    forall j :: 0 <= j < |took| ==> Abs(took[j] - total) * 10_000 <= spec.toleranceBps * Abs(total)
  }

  /** What they took adds up to about the total. */
  ghost predicate TogetherFull(spec: AcrossRails, total: int, took: seq<int>) {
    Abs(Together(took) - total) * 10_000 <= spec.toleranceBps * Abs(total)
  }

  /** Every rail took about the total. */
  ghost predicate Twice(spec: AcrossRails, members: seq<Member>, order: Row, pays: seq<Paid>) {
    exists total, took :: Tally(spec, members, order, pays, total, took) && EachFull(spec, total, took)
  }

  /** Not every one did, but together they did. */
  ghost predicate Shared(spec: AcrossRails, members: seq<Member>, order: Row, pays: seq<Paid>) {
    exists total, took ::
      Tally(spec, members, order, pays, total, took) && !EachFull(spec, total, took) && TogetherFull(spec, total, took)
  }

  /** What the rails say is what the pairs' records say. */
  lemma TakingsTally(spec: AcrossRails, members: seq<Member>, order: Row, pays: seq<Paid>, total: int, took: seq<int>)
    requires forall x :: x in pays ==> x.member < |members|
    ensures Tally(spec, members, order, pays, total, took) <==> Told(spec, order, Takings(members, pays), total, took)
  {
    var cur := Upper(Currency(order, spec.ledgerCurrency));
    if |took| == |pays| {
      forall j | 0 <= j < |pays|
        ensures TookFrom(members, pays[j], cur, took[j])
           <==> Takings(members, pays)[j].collected == Some(took[j]) && Takings(members, pays)[j].currency == cur
      {
        var rail, right := members[pays[j].member].rail, pays[j].pair.right;
        PartyReads(right, rail.collected, took[j]);
        PartyInCurrency(right, rail.currency, cur);
      }
    }
  }

  /** The total reads, and so does what each rail says it took, in the order's
      currency. */
  ghost predicate Told(spec: AcrossRails, order: Row, matched: seq<RailVerdict>, total: int, took: seq<int>) {
    && Minor(order, spec.ledgerTotal) == Some(total) && |took| == |matched|
    && forall j :: 0 <= j < |matched| ==>
         matched[j].collected == Some(took[j]) && matched[j].currency == Upper(Currency(order, spec.ledgerCurrency))
  }

  ghost predicate Classed(verdict: Verdict, spec: AcrossRails, total: int, took: seq<int>) {
    && (verdict == CollectedTwice <==> EachFull(spec, total, took))
    && (verdict == SplitTender <==> !EachFull(spec, total, took) && TogetherFull(spec, total, took))
    && (verdict == Inconsistent <==> !EachFull(spec, total, took) && !TogetherFull(spec, total, took))
  }

  lemma ClassifiedBy(spec: AcrossRails, order: Row, matched: seq<RailVerdict>, total: int, took: seq<int>)
    requires Told(spec, order, matched, total, took)
    ensures Classed(ClassifyMulti(spec, order, Minor(order, spec.ledgerTotal), matched), spec, total, took)
  {
    assert Amounts(matched) == took;
    TogetherIsSum(took);
    assert AllNear(took, total, spec.toleranceBps) <==> EachFull(spec, total, took);
  }

  /** Unless all that is told, several takings are inconsistent. */
  lemma Unclassified(spec: AcrossRails, order: Row, matched: seq<RailVerdict>) returns (total: int, took: seq<int>)
    ensures ClassifyMulti(spec, order, Minor(order, spec.ledgerTotal), matched) == Inconsistent
            || Told(spec, order, matched, total, took)
  {
    total, took := 0, [];
    if Minor(order, spec.ledgerTotal).Some? && forall r :: r in matched ==> r.collected.Some? {
      total, took := Minor(order, spec.ledgerTotal).value, Amounts(matched);
    }
  }

  /** An order is collected exactly when one rail paired it. When several did, it is
      collected twice exactly when every one of them took about the total, in the
      order's currency; split exactly when not every one did but together they took
      about that; and inconsistent exactly when neither holds, be it because the
      total, an amount or the currency does not read. */
  lemma VerdictIff(spec: AcrossRails, ledger: seq<Row>, members: seq<Member>, lc: Option<Coverage>, order: Row,
                   pays: seq<Paid>)
    requires forall m :: m in members ==> Separate(ledger, m)
    requires order in ledger && PaidOn(members, ledger, lc, order, pays)
    ensures var verdict := DecideOrder(spec, order, RailsFor(ResultsOf(members, ledger, lc), order.id)).verdict;
            var several := |pays| >= 2;
            && (verdict == Collected <==> |pays| == 1)
            && (verdict == CollectedTwice <==> several && Twice(spec, members, order, pays))
            && (verdict == SplitTender <==> several && Shared(spec, members, order, pays))
            && (verdict == Inconsistent <==>
                several && !Twice(spec, members, order, pays) && !Shared(spec, members, order, pays))
  {
    TakingsAre(members, ledger, lc, order, pays);
    if |pays| >= 2 {
      SeveralIff(spec, members, order, pays);
    }
  }

  lemma SeveralIff(spec: AcrossRails, members: seq<Member>, order: Row, pays: seq<Paid>)
    requires forall x :: x in pays ==> x.member < |members|
    ensures var verdict := ClassifyMulti(spec, order, Minor(order, spec.ledgerTotal), Takings(members, pays));
            && verdict in {CollectedTwice, SplitTender, Inconsistent}
            && (verdict == CollectedTwice <==> Twice(spec, members, order, pays))
            && (verdict == SplitTender <==> Shared(spec, members, order, pays))
            && (verdict == Inconsistent <==>
                !Twice(spec, members, order, pays) && !Shared(spec, members, order, pays))
  {
    var matched := Takings(members, pays);
    var verdict := ClassifyMulti(spec, order, Minor(order, spec.ledgerTotal), matched);
    forall total, took | Tally(spec, members, order, pays, total, took) ensures Classed(verdict, spec, total, took) {
      TakingsTally(spec, members, order, pays, total, took);
      ClassifiedBy(spec, order, matched, total, took);
    }
    var total, took := Unclassified(spec, order, matched);
    TakingsTally(spec, members, order, pays, total, took);
  }

  /** What an order is reported to have collected: what its pairs' right sides took,
      together; nothing when there is none or one does not read. */
  lemma CollectedIff(spec: AcrossRails, ledger: seq<Row>, members: seq<Member>, lc: Option<Coverage>, order: Row,
                     pays: seq<Paid>, n: int)
    requires forall m :: m in members ==> Separate(ledger, m)
    requires order in ledger && PaidOn(members, ledger, lc, order, pays)
    ensures CollectedMinor(DecideOrder(spec, order, RailsFor(ResultsOf(members, ledger, lc), order.id))) == Some(n)
       <==> pays != [] && exists took :: TookEach(members, pays, took) && Together(took) == n
  {
    var v := DecideOrder(spec, order, RailsFor(ResultsOf(members, ledger, lc), order.id));
    TakingsAre(members, ledger, lc, order, pays);
    forall took ensures TookEach(members, pays, took) <==> AmountsAre(Takings(members, pays), took) {
      EachTook(members, pays, took);
    }
    CollectedFrom(v, Takings(members, pays), n);
  }

  lemma CollectedFrom(v: OrderVerdict, matched: seq<RailVerdict>, n: int)
    requires OnlyMatched(v.rails) == matched
    ensures CollectedMinor(v) == Some(n)
       <==> matched != [] && exists took :: AmountsAre(matched, took) && Together(took) == n
  {
    if CollectedMinor(v).Some? {
      assert AmountsAre(matched, Amounts(matched));
      TogetherIsSum(Amounts(matched));
    }
    forall took | AmountsAre(matched, took)
      ensures CollectedMinor(v) == if matched == [] then None else Some(Together(took))
    {
      CollectedAs(v, matched, took);
    }
  }

  lemma CollectedAs(v: OrderVerdict, matched: seq<RailVerdict>, took: seq<int>)
    requires OnlyMatched(v.rails) == matched && AmountsAre(matched, took)
    ensures CollectedMinor(v) == if matched == [] then None else Some(Together(took))
  {
    assert Amounts(matched) == took;
    TogetherIsSum(took);
  }

  ghost predicate AmountsAre(matched: seq<RailVerdict>, took: seq<int>) {
    |took| == |matched| && forall j :: 0 <= j < |matched| ==> matched[j].collected == Some(took[j])
  }

  ghost predicate TookAmount(members: seq<Member>, x: Paid, n: int) {
    x.member < |members| && Reads(PartyRows(x.pair.right), members[x.member].rail.collected, n)
  }

  /** Each pair's right side took so much. */
  ghost predicate TookEach(members: seq<Member>, pays: seq<Paid>, took: seq<int>) {
    && |took| == |pays|
    && forall j :: 0 <= j < |pays| ==> TookAmount(members, pays[j], took[j])
  }

  lemma EachTook(members: seq<Member>, pays: seq<Paid>, took: seq<int>)
    requires forall x :: x in pays ==> x.member < |members|
    ensures TookEach(members, pays, took) <==> AmountsAre(Takings(members, pays), took)
  {
    if |took| == |pays| {
      forall j | 0 <= j < |pays|
        ensures Takings(members, pays)[j].collected == Some(took[j])
           <==> Reads(PartyRows(pays[j].pair.right), members[pays[j].member].rail.collected, took[j])
      {
        PartyReads(pays[j].pair.right, members[pays[j].member].rail.collected, took[j]);
      }
    }
  }
}
