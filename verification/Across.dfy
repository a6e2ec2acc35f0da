/** Several reconciliations share their left side, the orders; each has a rail of
    its own on the right. Their results are folded order by order. */
module Across {
  import opened Prelude
  import opened Rows
  import opened Matching
  import opened Appliers
  import opened Scoring
  import opened Engine

  datatype Verdict = Collected | CollectedTwice | SplitTender | Inconsistent | Unverifiable | Uncollected

  datatype Status = OnRail | NotOnRail | SeveralOnRail | Unread

  /** The paths of a rail's amount and currency. */
  datatype Rail = Rail(collected: Path, currency: Path)

  datatype AcrossRails = AcrossRails(rails: nat, ledgerTotal: Path, ledgerCurrency: Path, toleranceBps: nat)

  /** A rail's answer for an order; an empty currency is none. */
  datatype RailVerdict = RailVerdict(status: Status, collected: Option<int>, currency: string)

  datatype OrderVerdict = OrderVerdict(order: Row, verdict: Verdict, total: Option<int>, rails: seq<RailVerdict>)

  class AcrossResult {
    var orders: seq<OrderVerdict>

    constructor ()
      ensures orders == []
    {
      orders := [];
    }
  }

  // ── one rail's verdict on one order ──

  function Took(rail: Rail, p: Pairing): RailVerdict {
    RailVerdict(OnRail, AsInt(PartyAmount(p.right, rail.collected)), PartyCurrency(p.right, rail.currency))
  }

  function TookOf(rail: Rail, p: Option<Pairing>): Option<RailVerdict> {
    if p.Some? then Some(Took(rail, p.value)) else None
  }

  /** The last pair whose left record is this order. A group on the left is a
      new record of its own. */
  function LastPair(pairs: seq<Pairing>, id: nat): Option<Pairing> {
    if pairs == [] then None
    else
      var n := |pairs| - 1;
      if pairs[n].left.Single? && pairs[n].left.row.id == id then Some(pairs[n]) else LastPair(pairs[..n], id)
  }

  predicate Asked(ambiguous: seq<Ambiguity>, id: nat) {
    exists a :: a in ambiguous && a.record.id == id
  }

  /** The dict of `_verdicts`, read at one order: later loops overwrite. */
  function VerdictOf(rail: Rail, r: Outcome, id: nat): Option<RailVerdict> {
    if id in Ids(r.unmatchedLeft) then Some(RailVerdict(NotOnRail, None, ""))
    else if id in Ids(r.unverifiableLeft) then Some(RailVerdict(Unread, None, ""))
    else if Asked(r.ambiguous, id) then Some(RailVerdict(SeveralOnRail, None, ""))
    else
      TookOf(rail, LastPair(r.matched, id))
  }

  function At(m: map<nat, RailVerdict>, id: nat): Option<RailVerdict> {
    if id in m then Some(m[id]) else None
  }

  method Verdicts(rail: Rail, result: ReconResult) returns (m: map<nat, RailVerdict>)
    ensures forall id :: At(m, id) == VerdictOf(rail, ViewOf(result), id)
  {
    ghost var pairs := Pairings(result.matched);
    m := map[];
    for i := 0 to |result.matched|
      invariant forall id :: At(m, id) == TookOf(rail, LastPair(pairs[..i], id))
    {
      var p := result.matched[i].what;
      assert pairs[..i + 1][..i] == pairs[..i] && pairs[..i + 1][i] == p;
      if p.left.Single? {
        m := m[p.left.row.id := Took(rail, p)];
      }
    }
    assert pairs[..|pairs|] == pairs;
    m := MarkAmbiguous(result.ambiguous, m);
    m := Mark(result.unverifiableLeft, RailVerdict(Unread, None, ""), m);
    m := Mark(result.unmatchedLeft, RailVerdict(NotOnRail, None, ""), m);
  }

  function Asking(ambiguous: seq<Ambiguity>, m: map<nat, RailVerdict>, id: nat): Option<RailVerdict> {
    if Asked(ambiguous, id) then Some(RailVerdict(SeveralOnRail, None, "")) else At(m, id)
  }

  method MarkAmbiguous(ambiguous: seq<Ambiguity>, m: map<nat, RailVerdict>) returns (n: map<nat, RailVerdict>)
    ensures forall id :: At(n, id) == Asking(ambiguous, m, id)
  {
    n := m;
    for i := 0 to |ambiguous|
      invariant forall id :: At(n, id) == Asking(ambiguous[..i], m, id)
    {
      ghost var before := n;
      n := n[ambiguous[i].record.id := RailVerdict(SeveralOnRail, None, "")];
      forall id ensures At(n, id) == Asking(ambiguous[..i + 1], m, id) {
        AskedNext(ambiguous, i, id);
        assert At(before, id) == Asking(ambiguous[..i], m, id);
      }
    }
    assert ambiguous[..|ambiguous|] == ambiguous;
  }

  lemma AskedNext(ambiguous: seq<Ambiguity>, i: nat, id: nat)
    requires i < |ambiguous|
    ensures Asked(ambiguous[..i + 1], id) <==> Asked(ambiguous[..i], id) || ambiguous[i].record.id == id
  {
    assert ambiguous[..i + 1] == ambiguous[..i] + [ambiguous[i]];
    if ambiguous[i].record.id == id {
      assert ambiguous[i] in ambiguous[..i + 1];
    }
  }

  method Mark(rows: seq<Row>, v: RailVerdict, m: map<nat, RailVerdict>) returns (n: map<nat, RailVerdict>)
    ensures forall id :: At(n, id) == if id in Ids(rows) then Some(v) else At(m, id)
  {
    n := m;
    for i := 0 to |rows|
      invariant forall id :: At(n, id) == if id in Ids(rows[..i]) then Some(v) else At(m, id)
    {
      assert Ids(rows[..i + 1]) == Ids(rows[..i]) + {rows[i].id};
      n := n[rows[i].id := v];
    }
    assert rows[..|rows|] == rows;
  }

  // ── one order's verdict ──

  function OnlyMatched(rails: seq<RailVerdict>): seq<RailVerdict> {
    if rails == [] then []
    else
      var n := |rails| - 1;
      OnlyMatched(rails[..n]) + if rails[n].status == OnRail then [rails[n]] else []
  }

  function SumInts(xs: seq<int>): int {
    if xs == [] then 0 else SumInts(xs[..|xs| - 1]) + xs[|xs| - 1]
  }

  function Amounts(rails: seq<RailVerdict>): seq<int>
    requires forall r :: r in rails ==> r.collected.Some?
  {
    seq(|rails|, i requires 0 <= i < |rails| => rails[i].collected.value)
  }

  /** Within `bps` basis points of the total, in integers. */
  predicate Near(x: int, total: int, bps: nat) {
    Abs(x - total) * 10_000 <= bps * Abs(total)
  }

  predicate AllNear(xs: seq<int>, total: int, bps: nat) {
    forall i :: 0 <= i < |xs| ==> Near(xs[i], total, bps)
  }

  /** `_classify_multi`. */
  function ClassifyMulti(spec: AcrossRails, order: Row, total: Option<int>, matched: seq<RailVerdict>): Verdict {
    if total == None || exists r :: r in matched && r.collected == None then Inconsistent
    else if exists r :: r in matched && r.currency != Upper(Currency(order, spec.ledgerCurrency)) then Inconsistent
    else if AllNear(Amounts(matched), total.value, spec.toleranceBps) then CollectedTwice
    else if Near(SumInts(Amounts(matched)), total.value, spec.toleranceBps) then SplitTender
    else Inconsistent
  }

  /** `_decide`. */
  function DecideOrder(spec: AcrossRails, order: Row, rails: seq<RailVerdict>): OrderVerdict {
    var total := Minor(order, spec.ledgerTotal);
    var matched := OnlyMatched(rails);
    var verdict :=
      if |matched| == 1 then Collected
      else if |matched| > 1 then ClassifyMulti(spec, order, total, matched)
      else if (exists r :: r in rails && r.status in {Unread, SeveralOnRail}) || |rails| < spec.rails then Unverifiable
      else Uncollected;
    OrderVerdict(order, verdict, total, rails)
  }

  /** The rails that said anything about an order, in rail order. */
  function RailsFor(results: seq<(Rail, Outcome)>, id: nat): seq<RailVerdict> {
    if results == [] then []
    else
      var n := |results| - 1;
      var v := VerdictOf(results[n].0, results[n].1, id);
      RailsFor(results[..n], id) + if v.Some? then [v.value] else []
  }

  ghost predicate Viewed(results: seq<(Rail, ReconResult)>, views: seq<(Rail, Outcome)>)
    reads set i | 0 <= i < |results| :: results[i].1
  {
    |views| == |results| && forall i :: 0 <= i < |results| ==> views[i] == (results[i].0, ViewOf(results[i].1))
  }

  /** Each rail's dict answers as its result does. */
  ghost predicate Answers(perRail: seq<map<nat, RailVerdict>>, views: seq<(Rail, Outcome)>) {
    |perRail| == |views| &&
    forall k, id :: 0 <= k < |perRail| ==> At(perRail[k], id) == VerdictOf(views[k].0, views[k].1, id)
  }

  method PerRail(results: seq<(Rail, ReconResult)>, ghost views: seq<(Rail, Outcome)>)
    returns (perRail: seq<map<nat, RailVerdict>>)
    requires Viewed(results, views)
    ensures Answers(perRail, views)
  {
    perRail := [];
    for i := 0 to |results|
      invariant Answers(perRail, views[..i])
    {
      var m := Verdicts(results[i].0, results[i].1);
      perRail := perRail + [m];
    }
    assert views[..|results|] == views;
  }

  /** `fold`: one verdict per order, in ledger order. */
  method Fold(spec: AcrossRails, ledger: seq<Row>, results: seq<(Rail, ReconResult)>, ghost views: seq<(Rail, Outcome)>)
    returns (out: AcrossResult)
    requires Viewed(results, views)
    ensures fresh(out) && |out.orders| == |ledger|
    ensures forall i :: 0 <= i < |ledger| ==>
              out.orders[i] == DecideOrder(spec, ledger[i], RailsFor(views, ledger[i].id))
    ensures forall i :: 0 <= i < |ledger| ==>
              out.orders[i].order == ledger[i] && out.orders[i].total == Minor(ledger[i], spec.ledgerTotal)
  {
    var perRail := PerRail(results, views);
    out := new AcrossResult();
    for i := 0 to |ledger|
      invariant |out.orders| == i
      invariant forall k :: 0 <= k < i ==> out.orders[k] == DecideOrder(spec, ledger[k], RailsFor(views, ledger[k].id))
    {
      var rails := Collect(perRail, views, ledger[i].id);
      out.orders := out.orders + [DecideOrder(spec, ledger[i], rails)];
    }
  }

  method Collect(perRail: seq<map<nat, RailVerdict>>, ghost views: seq<(Rail, Outcome)>, id: nat)
    returns (rails: seq<RailVerdict>)
    requires Answers(perRail, views)
    ensures rails == RailsFor(views, id)
  {
    rails := [];
    for k := 0 to |perRail|
      invariant rails == RailsFor(views[..k], id)
    {
      assert views[..k + 1][..k] == views[..k];
      assert At(perRail[k], id) == VerdictOf(views[k].0, views[k].1, id);
      if id in perRail[k] {
        rails := rails + [perRail[k][id]];
      }
    }
    assert views[..|views|] == views;
  }
}
