/** `match`: the rules in order, the split of what is left into misses and
    unverifiable records, and the scored pairs; and what the whole promises. */
module Engine {
  import opened Prelude
  import opened Rows
  import opened Declaration
  import opened SubsetSearch
  import opened Matching
  import opened GroupSums
  import opened Decisions
  import opened MatchFacts
  import opened Appliers
  import opened Scoring
  import opened Differences
  import opened Explaining
  import opened Coverages

  /** A result, as a value: who was paired, and where everyone else went. */
  datatype Outcome = Outcome(
    matched: seq<Pairing>, ambiguous: seq<Ambiguity>,
    unmatchedLeft: seq<Row>, unmatchedRight: seq<Row>,
    unverifiableLeft: seq<Row>, unverifiableRight: seq<Row>)

  ghost function Reconcile(spec: Reconciliation, left: seq<Row>, right: seq<Row>,
                           leftCoverage: Option<Coverage>, rightCoverage: Option<Coverage>): Outcome
  {
    var c := Run(spec.keys, spec.identity, Opening(left, right));
    var (leftTs, rightTs) := TimestampPaths(spec.keys);
    Outcome(c.matched, c.ambiguous,
            Split(c.left, leftTs, rightCoverage, true), Split(c.right, rightTs, leftCoverage, true),
            Split(c.left, leftTs, rightCoverage, false), Split(c.right, rightTs, leftCoverage, false))
  }

  // ── the engine's own loops ──

  /** A pair carries its discrepancy and the explanation of it. */
  ghost predicate Judged(spec: Reconciliation, p: MatchedPair)
    reads p
  {
    && p.discrepancy == Score(ResolvedAmount(spec), p.what)
    && (p.discrepancy == None ==> p.explanation == [])
    && (p.discrepancy.Some? ==>
          IsExplanation(Stated(spec.explains, p.what, p.discrepancy.value), p.discrepancy.value, p.explanation))
  }

  /** So it carries the difference its records have at the amounts the declaration
      compares, if they have one; and only such a difference is explained, by the
      fewest causes whose own figures add up to it. */
  ghost predicate Accounted(spec: Reconciliation, p: MatchedPair)
    reads p
  {
    && (forall d :: p.discrepancy == Some(d) <==> ReportedBy(spec, p.what, d))
    && (p.explanation != [] ==> p.discrepancy.Some? && p.discrepancy.value != 0)
    && (p.discrepancy.Some? ==> Explained(spec.explains, p.what, p.discrepancy.value, p.explanation))
  }

  lemma JudgedIsAccounted(spec: Reconciliation, p: MatchedPair)
    requires Judged(spec, p)
    ensures Accounted(spec, p)
  {
    forall d ensures p.discrepancy == Some(d) <==> ReportedBy(spec, p.what, d) {
      ReportedIff(spec, p.what, d);
    }
    if p.discrepancy.Some? {
      ExplanationMeans(spec.explains, p.what, p.discrepancy.value, p.explanation);
    }
  }

  method StatedCauses(explains: seq<Explains>, p: Pairing, gap: int) returns (stated: seq<Part>)
    ensures stated == Stated(explains, p, gap)
  {
    stated := [];
    for i := 0 to |explains|
      invariant stated == Stated(explains[..i], p, gap)
    {
      assert explains[..i + 1][..i] == explains[..i];
      var e := explains[i];
      var figure := ComputeFigure(PartyOn(p, e.side), e.fields);
      if figure.Some? && Allows(e, figure.value, gap) {
        stated := stated + [Part(e.caption, e.side, figure.value)];
      }
    }
    assert explains[..|explains|] == explains;
  }

  /** One turn of `_score_discrepancies`. */
  method ScorePair(spec: Reconciliation, ref: AmountRef, pair: MatchedPair)
    requires ResolvedAmount(spec) == Some(ref)
    modifies pair
    ensures Judged(spec, pair)
  {
    pair.discrepancy := Score(Some(ref), pair.what);
    pair.explanation := [];
    if pair.discrepancy.Some? {
      var gap := pair.discrepancy.value;
      var stated := StatedCauses(spec.explains, pair.what, gap);
      var parts := Explain(stated, gap);
      pair.explanation := parts;
    }
  }

  /** `_score_discrepancies`. */
  method ScoreDiscrepancies(spec: Reconciliation, result: ReconResult)
    requires forall p :: p in result.matched ==> p.Unscored()
    modifies set p: MatchedPair | p in result.matched
    ensures forall p :: p in result.matched ==> Judged(spec, p)
  {
    var ref := ResolvedAmount(spec);
    if ref == None {
      return;
    }
    for i := 0 to |result.matched|
      invariant forall j :: 0 <= j < i ==> Judged(spec, result.matched[j])
    {
      ScorePair(spec, ref.value, result.matched[i]);
    }
  }

  /** The rule loop of `match`. */
  method ApplyRules(spec: Reconciliation, left: seq<Row>, right: seq<Row>, result: ReconResult)
    returns (leftOver: seq<Row>, rightOver: seq<Row>)
    requires Distinct(left) && Distinct(right) && result.matched == [] && result.ambiguous == []
    modifies result`matched, result`ambiguous
    ensures Run(spec.keys, spec.identity, Opening(left, right))
         == Board(leftOver, rightOver, Pairings(result.matched), result.ambiguous)
    ensures forall p :: p in result.matched ==> fresh(p) && p.Unscored()
  {
    leftOver, rightOver := left, right;
    ghost var end := Run(spec.keys, spec.identity, Opening(left, right));
    var i := 0;
    assert spec.keys[0..] == spec.keys && Pairings(result.matched) == [];
    while i < |spec.keys| && leftOver != [] && rightOver != []
      invariant 0 <= i <= |spec.keys|
      invariant Distinct(leftOver) && Distinct(rightOver)
      invariant Run(spec.keys[i..], spec.identity,
                    Board(leftOver, rightOver, Pairings(result.matched), result.ambiguous)) == end
      invariant forall p :: p in result.matched ==> fresh(p) && p.Unscored()
      decreases |spec.keys| - i
    {
      ghost var b := Board(leftOver, rightOver, Pairings(result.matched), result.ambiguous);
      var rule := spec.keys[i];
      assert spec.keys[i..][1..] == spec.keys[i + 1..];
      ApplyShrinks(rule, spec.identity, b);
      match rule {
      case ExactRef(_, _, _) =>
        leftOver, rightOver := ApplyExact(rule, spec.identity, leftOver, rightOver, result);
      case Fuzzy(_, _, _, _, _, _, _, _, _, _) =>
        leftOver, rightOver := ApplyFuzzy(rule, spec.identity, leftOver, rightOver, result);
      case GroupRef(_, _, _, _, _) =>
        leftOver, rightOver := ApplyGroupRef(rule, spec.identity, leftOver, rightOver, result);
      case GroupSum(_, _, _, _, _, _, _, _, _, _, _, _, _) =>
        leftOver, rightOver := ApplyGroupSum(rule, spec.identity, leftOver, rightOver, result);
      }
      assert Apply(rule, spec.identity, b) == Board(leftOver, rightOver, Pairings(result.matched), result.ambiguous);
      i := i + 1;
    }
  }

  /** What no rule claimed, split by what the other side read. */
  method ReportMisses(spec: Reconciliation, left: seq<Row>, right: seq<Row>,
                      leftCoverage: Option<Coverage>, rightCoverage: Option<Coverage>, result: ReconResult)
    modifies result`unmatchedLeft, result`unmatchedRight, result`unverifiableLeft, result`unverifiableRight
    ensures result.unmatchedLeft == Split(left, TimestampPaths(spec.keys).0, rightCoverage, true)
    ensures result.unverifiableLeft == Split(left, TimestampPaths(spec.keys).0, rightCoverage, false)
    ensures result.unmatchedRight == Split(right, TimestampPaths(spec.keys).1, leftCoverage, true)
    ensures result.unverifiableRight == Split(right, TimestampPaths(spec.keys).1, leftCoverage, false)
  {
    var (leftTs, rightTs) := TimestampPaths(spec.keys);
    var missed, unread := SplitUnread(left, leftTs, rightCoverage);
    result.unmatchedLeft, result.unverifiableLeft := missed, unread;
    missed, unread := SplitUnread(right, rightTs, leftCoverage);
    result.unmatchedRight, result.unverifiableRight := missed, unread;
  }

  ghost function ViewOf(r: ReconResult): Outcome
    reads r
  {
    Outcome(Pairings(r.matched), r.ambiguous, r.unmatchedLeft, r.unmatchedRight, r.unverifiableLeft,
            r.unverifiableRight)
  }

  method PairRecords(spec: Reconciliation, left: seq<Row>, right: seq<Row>,
                     leftCoverage: Option<Coverage>, rightCoverage: Option<Coverage>) returns (result: ReconResult)
    requires Distinct(left) && Distinct(right)
    ensures fresh(result)
    ensures ViewOf(result) == Reconcile(spec, left, right, leftCoverage, rightCoverage)
    ensures forall p :: p in result.matched ==> fresh(p) && p.Unscored()
  {
    result := new ReconResult();
    var l, r := ApplyRules(spec, left, right, result);
    ReportMisses(spec, l, r, leftCoverage, rightCoverage, result);
  }

  method Match(spec: Reconciliation, left: seq<Row>, right: seq<Row>,
               leftCoverage: Option<Coverage>, rightCoverage: Option<Coverage>) returns (result: ReconResult)
    requires Distinct(left) && Distinct(right)
    ensures fresh(result)
    ensures ViewOf(result) == Reconcile(spec, left, right, leftCoverage, rightCoverage)
    ensures forall p :: p in result.matched ==> Judged(spec, p) && Accounted(spec, p)
  {
    result := PairRecords(spec, left, right, leftCoverage, rightCoverage);
    ScoreDiscrepancies(spec, result);
    forall p | p in result.matched ensures Accounted(spec, p) {
      JudgedIsAccounted(spec, p);
    }
  }

  /** `net_discrepancy_minor` of the summary. */
  method NetDiscrepancy(spec: Reconciliation, result: ReconResult) returns (net: int)
    requires forall p :: p in result.matched ==> Judged(spec, p)
    ensures net == Net(ResolvedAmount(spec), Pairings(result.matched))
  {
    net := 0;
    for i := 0 to |result.matched|
      invariant net == Net(ResolvedAmount(spec), Pairings(result.matched)[..i])
    {
      assert Pairings(result.matched)[..i + 1][..i] == Pairings(result.matched)[..i];
      assert Judged(spec, result.matched[i]) && Pairings(result.matched)[i] == result.matched[i].what;
      var d := result.matched[i].discrepancy;
      if d.Some? && d.value != 0 {
        net := net + d.value;
      }
    }
    assert Pairings(result.matched)[..|result.matched|] == Pairings(result.matched);
  }

  // ── what the result promises ──

  ghost function LeftOver(r: Outcome, side: Side): multiset<Row> {
    if side == LeftSide then multiset(r.unmatchedLeft) + multiset(r.unverifiableLeft)
    else multiset(r.unmatchedRight) + multiset(r.unverifiableRight)
  }

  lemma LeftOverIsBoard(spec: Reconciliation, left: seq<Row>, right: seq<Row>, lc: Option<Coverage>,
                        rc: Option<Coverage>, side: Side)
    ensures LeftOver(Reconcile(spec, left, right, lc, rc), side)
         == multiset(SideRows(Run(spec.keys, spec.identity, Opening(left, right)), side))
  {
    var c := Run(spec.keys, spec.identity, Opening(left, right));
    var (leftTs, rightTs) := TimestampPaths(spec.keys);
    SplitParts(c.left, leftTs, rc);
    SplitParts(c.right, rightTs, lc);
  }

  // ── what is called missing ──

  /** A rule's own timestamps, by side. */
  ghost predicate TimedBy(rule: Rule, l: Path, r: Path) {
    || (rule.Fuzzy? && l == rule.timestampLeft && r == rule.timestampRight)
    || (rule.GroupSum? && rule.many == LeftSide && l == rule.timestampMany && r == rule.timestampOne)
    || (rule.GroupSum? && rule.many == RightSide && l == rule.timestampOne && r == rule.timestampMany)
  }

  /** A record's date, as the first rule that has timestamps reads it on that side;
      no date when no rule has any. */
  ghost predicate DatedAt(keys: seq<Rule>, side: Side, r: Row, at: Option<int>) {
    if exists i :: FirstWith(keys, i)
    then exists i, left, right :: FirstWith(keys, i) && TimedBy(keys[i], left, right)
                                  && at == Instant(r, if side == LeftSide then left else right)
    else at == None
  }

  lemma {:induction false} TimestampsAre(keys: seq<Rule>, l: Path, r: Path)
    ensures TimestampPaths(keys) == (Some(l), Some(r)) <==> exists i :: FirstWith(keys, i) && TimedBy(keys[i], l, r)
    ensures TimestampPaths(keys) == (None, None) <==> !exists i :: FirstWith(keys, i)
    ensures TimestampPaths(keys).0.Some? <==> TimestampPaths(keys).1.Some?
  {
    if keys == [] {
    } else if HasAmount(keys[0]) {
      assert FirstWith(keys, 0);
    } else {
      var rest := keys[1..];
      TimestampsAre(rest, l, r);
      forall i ensures FirstWith(keys, i) <==> FirstWith(rest, i - 1) {
        FirstLater(keys, i - 1);
      }
      forall i ensures FirstWith(rest, i) <==> FirstWith(keys, i + 1) {
        FirstLater(keys, i);
      }
    }
  }

  lemma DatedIff(keys: seq<Rule>, side: Side, r: Row, at: Option<int>)
    ensures var path := if side == LeftSide then TimestampPaths(keys).0 else TimestampPaths(keys).1;
            DatedAt(keys, side, r, at) <==> at == if path.Some? then Instant(r, path.value) else None
  {
    var (left, right) := TimestampPaths(keys);
    forall x, y ensures TimestampPaths(keys) == (Some(x), Some(y))
                   <==> exists i :: FirstWith(keys, i) && TimedBy(keys[i], x, y)
    {
      TimestampsAre(keys, x, y);
    }
    TimestampsAre(keys, "", "");
  }

  /** The counterpart's read would have found an answer to this record: nothing is
      said of that read, or it was not cut short and covers the record's date. */
  ghost predicate ReadFor(keys: seq<Rule>, side: Side, r: Row, counterpart: Option<Coverage>) {
    counterpart.Some? ==>
      !counterpart.value.truncated && exists at :: DatedAt(keys, side, r, at) && Covers(counterpart.value, at)
  }

  lemma VouchedIff(keys: seq<Rule>, side: Side, r: Row, counterpart: Option<Coverage>)
    ensures ReadFor(keys, side, r, counterpart)
       <==> Vouches(counterpart, if side == LeftSide then TimestampPaths(keys).0 else TimestampPaths(keys).1, r)
  {
    var path := if side == LeftSide then TimestampPaths(keys).0 else TimestampPaths(keys).1;
    var date := if path.Some? then Instant(r, path.value) else None;
    forall at ensures DatedAt(keys, side, r, at) <==> at == date {
      DatedIff(keys, side, r, at);
    }
    if counterpart.Some? {
      ReadsIsEvidence(counterpart.value, date);
    }
  }

  /** A record no rule claimed is a miss exactly when the other side's read would
      have found its answer; otherwise it is unverifiable. */
  lemma MissingIff(spec: Reconciliation, left: seq<Row>, right: seq<Row>, lc: Option<Coverage>,
                   rc: Option<Coverage>, r: Row)
    ensures var res := Reconcile(spec, left, right, lc, rc);
            var (overLeft, overRight) := (r in LeftOver(res, LeftSide), r in LeftOver(res, RightSide));
            && (r in res.unmatchedLeft <==> overLeft && ReadFor(spec.keys, LeftSide, r, rc))
            && (r in res.unverifiableLeft <==> overLeft && !ReadFor(spec.keys, LeftSide, r, rc))
            && (r in res.unmatchedRight <==> overRight && ReadFor(spec.keys, RightSide, r, lc))
            && (r in res.unverifiableRight <==> overRight && !ReadFor(spec.keys, RightSide, r, lc))
  {
    var c := Run(spec.keys, spec.identity, Opening(left, right));
    var (leftTs, rightTs) := TimestampPaths(spec.keys);
    LeftOverIsBoard(spec, left, right, lc, rc, LeftSide);
    LeftOverIsBoard(spec, left, right, lc, rc, RightSide);
    VouchedIff(spec.keys, LeftSide, r, rc);
    VouchedIff(spec.keys, RightSide, r, lc);
    SplitElems(c.left, leftTs, rc, true, r);
    SplitElems(c.left, leftTs, rc, false, r);
    SplitElems(c.right, rightTs, lc, true, r);
    SplitElems(c.right, rightTs, lc, false, r);
  }

  /** Partition: on either side each input row ends, once, in exactly one of
      matched, ambiguous, unmatched or unverifiable, and no other row does. */
  lemma Partition(spec: Reconciliation, left: seq<Row>, right: seq<Row>, lc: Option<Coverage>, rc: Option<Coverage>,
                  side: Side, r: Row)
    requires Distinct(left) && Distinct(right)
    ensures var res, input := Reconcile(spec, left, right, lc, rc), if side == LeftSide then left else right;
            MatchedRows(res.matched, side)[r] + OpenRows(res.ambiguous, side)[r] + LeftOver(res, side)[r]
            == if r in input then 1 else 0
  {
    EveryRecordOnce(spec.keys, spec.identity, left, right, side, r);
    LeftOverIsBoard(spec, left, right, lc, rc, side);
  }

  /** Completeness of misses: no two records reported as unclaimed, as misses
      or as unverifiable, could have been paired by any rule of the list. */
  lemma CompleteMisses(spec: Reconciliation, left: seq<Row>, right: seq<Row>, lc: Option<Coverage>,
                       rc: Option<Coverage>, rule: Rule)
    requires Distinct(left) && Distinct(right) && rule in spec.keys
    ensures var res := Reconcile(spec, left, right, lc, rc);
            var ones, many := LeftOver(res, OneSide(rule)), LeftOver(res, OneSide(rule).Other());
            && (!rule.GroupSum? ==> forall o, m :: o in ones && m in many ==> !Admits(rule, spec.identity, o, m))
            && (rule.GroupSum? ==> forall o, s: set<Row> ::
                  o in ones && (forall m :: m in s ==> m in many) ==> !Fitting(rule, spec.identity, o, s))
  {
    MissesAreComplete(spec.keys, spec.identity, left, right, rule);
    LeftOverIsBoard(spec, left, right, lc, rc, LeftSide);
    LeftOverIsBoard(spec, left, right, lc, rc, RightSide);
  }

  /** The balance identity of a result. */
  lemma BooksBalance(spec: Reconciliation, left: seq<Row>, right: seq<Row>, lc: Option<Coverage>,
                     rc: Option<Coverage>, ref: AmountRef, cur: string)
    requires Distinct(left) && Distinct(right)
    requires Plain(multiset(left), ref.left, ref.currency, cur)
    requires Plain(multiset(right), ref.right, ref.currencyRight, cur)
    ensures var res := Reconcile(spec, left, right, lc, rc);
            Sum(ref.left, multiset(left)) - Sum(ref.right, multiset(right))
            == Net(Some(ref), res.matched)
               + Sum(ref.left, multiset(res.unmatchedLeft)) + Sum(ref.left, multiset(res.unverifiableLeft))
               + Sum(ref.left, OpenRows(res.ambiguous, LeftSide))
               - Sum(ref.right, multiset(res.unmatchedRight)) - Sum(ref.right, multiset(res.unverifiableRight))
               - Sum(ref.right, OpenRows(res.ambiguous, RightSide))
  {
    var res := Reconcile(spec, left, right, lc, rc);
    Balance(spec.keys, spec.identity, left, right, ref, cur);
    LeftOverIsBoard(spec, left, right, lc, rc, LeftSide);
    LeftOverIsBoard(spec, left, right, lc, rc, RightSide);
    SumUnion(ref.left, LeftOver(res, LeftSide), OpenRows(res.ambiguous, LeftSide));
    SumUnion(ref.right, LeftOver(res, RightSide), OpenRows(res.ambiguous, RightSide));
    SumUnion(ref.left, multiset(res.unmatchedLeft), multiset(res.unverifiableLeft));
    SumUnion(ref.right, multiset(res.unmatchedRight), multiset(res.unverifiableRight));
  }

  /** The same over whole amounts in any currencies: a pair whose sides show two
      currencies has no difference, and its records are accounted for apart. */
  lemma BooksInCurrencies(spec: Reconciliation, left: seq<Row>, right: seq<Row>, lc: Option<Coverage>,
                          rc: Option<Coverage>, ref: AmountRef)
    requires Distinct(left) && Distinct(right)
    requires InWhole(multiset(left), ref.left) && InWhole(multiset(right), ref.right)
    ensures var res := Reconcile(spec, left, right, lc, rc);
            Sum(ref.left, multiset(left)) - Sum(ref.right, multiset(right))
            == Net(Some(ref), res.matched)
               + Sum(ref.left, Crossed(ref, res.matched, LeftSide))
               - Sum(ref.right, Crossed(ref, res.matched, RightSide))
               + Sum(ref.left, multiset(res.unmatchedLeft)) + Sum(ref.left, multiset(res.unverifiableLeft))
               + Sum(ref.left, OpenRows(res.ambiguous, LeftSide))
               - Sum(ref.right, multiset(res.unmatchedRight)) - Sum(ref.right, multiset(res.unverifiableRight))
               - Sum(ref.right, OpenRows(res.ambiguous, RightSide))
  {
    SideSum(spec, left, right, lc, rc, LeftSide, ref.left);
    SideSum(spec, left, right, lc, rc, RightSide, ref.right);
    NetInCurrencies(ref, Reconcile(spec, left, right, lc, rc).matched);
  }

  /** One side's money, by where its records ended. */
  lemma SideSum(spec: Reconciliation, left: seq<Row>, right: seq<Row>, lc: Option<Coverage>, rc: Option<Coverage>,
                side: Side, p: Path)
    requires Distinct(left) && Distinct(right)
    ensures var res, input := Reconcile(spec, left, right, lc, rc), if side == LeftSide then left else right;
            var (missed, unread) := if side == LeftSide then (res.unmatchedLeft, res.unverifiableLeft)
                                    else (res.unmatchedRight, res.unverifiableRight);
            && MatchedRows(res.matched, side) <= multiset(input)
            && Sum(p, multiset(input)) == Sum(p, MatchedRows(res.matched, side)) + Sum(p, multiset(missed))
                 + Sum(p, multiset(unread)) + Sum(p, OpenRows(res.ambiguous, side))
  {
    var b := Opening(left, right);
    var c, res := Run(spec.keys, spec.identity, b), Reconcile(spec, left, right, lc, rc);
    RunKeeps(spec.keys, spec.identity, b);
    HeldAtFirst(left, right, side);
    HeldSplits(c, if side == LeftSide then left else right, side, p);
    LeftOverIsBoard(spec, left, right, lc, rc, side);
    SumUnion(p, LeftOver(res, side), OpenRows(res.ambiguous, side));
    if side == LeftSide {
      SumUnion(p, multiset(res.unmatchedLeft), multiset(res.unverifiableLeft));
    } else {
      SumUnion(p, multiset(res.unmatchedRight), multiset(res.unverifiableRight));
    }
  }

  // ── why each pair was made ──

  /** What was unclaimed on a side at a moment: that side's input less what the
      first `k` pairs and the first `j` questions hold of it. */
  ghost predicate UnclaimedThen(res: Outcome, left: seq<Row>, right: seq<Row>, many: Side, avail: seq<Row>, k: nat,
                                j: nat)
    requires k <= |res.matched| && j <= |res.ambiguous|
  {
    && Distinct(avail)
    && multiset(avail) + MatchedRows(res.matched[..k], many) + OpenRows(res.ambiguous[..j], many)
       == multiset(if many == LeftSide then left else right)
  }

  /** Every pair has the moment it was made at: a rule of the list came to a
      record `o`, the records then unclaimed on the other side were `avail`
      (that side's input less what the pairs before this one and the questions
      asked until then hold), and the pair is what the rule decided on them. */
  lemma PairWasClaimed(spec: Reconciliation, left: seq<Row>, right: seq<Row>, lc: Option<Coverage>,
                       rc: Option<Coverage>, k: nat)
    returns (rule: Rule, o: Row, avail: seq<Row>, i: nat, n: nat, j: nat)
    requires Distinct(left) && Distinct(right) && k < |Reconcile(spec, left, right, lc, rc).matched|
    ensures MadeAt(spec.keys, spec.identity, Opening(left, right), k, i, n)
    ensures rule == spec.keys[i] && avail == Moment(spec.keys, spec.identity, Opening(left, right), i, n).avail
    ensures o == SideRows(Run(spec.keys[..i], spec.identity, Opening(left, right)), OneSide(rule))[n]
    ensures var res, many := Reconcile(spec, left, right, lc, rc), OneSide(rule).Other();
            && j <= |res.ambiguous| && UnclaimedThen(res, left, right, many, avail, k, j)
            && Claims(rule, spec.identity, o, avail, res.matched[k])
  {
    var b := Opening(left, right);
    i, n := RunMade(spec.keys, spec.identity, b, k);
    MomentHolds(spec.keys, spec.identity, b, i, n);
    rule := spec.keys[i];
    var p := Moment(spec.keys, spec.identity, b, i, n);
    o, avail, j := SideRows(Run(spec.keys[..i], spec.identity, b), OneSide(rule))[n], p.avail, |p.ambiguous|;
    assert p.ambiguous == Run(spec.keys, spec.identity, b).ambiguous[..j];
    HeldAtFirst(left, right, OneSide(rule).Other());
  }

  /** One side of a pair is always a single record; the other is a group exactly
      when several records answer it, all different. */
  lemma GroupsAreSeveral(spec: Reconciliation, left: seq<Row>, right: seq<Row>, lc: Option<Coverage>,
                         rc: Option<Coverage>, p: Pairing)
    requires Distinct(left) && Distinct(right) && p in Reconcile(spec, left, right, lc, rc).matched
    ensures p.left.Single? || p.right.Single?
    ensures p.left.Group? ==> |p.left.members| >= 2 && Distinct(p.left.members)
    ensures p.right.Group? ==> |p.right.members| >= 2 && Distinct(p.right.members)
    ensures p.rule in {ExactKind, FuzzyKind} ==> p.left.Single? && p.right.Single?
  {
    var matched := Reconcile(spec, left, right, lc, rc).matched;
    var k :| 0 <= k < |matched| && matched[k] == p;
    var rule, o, avail, i, n, j := PairWasClaimed(spec, left, right, lc, rc, k);
    SidesOfClaim(rule, spec.identity, o, avail, p);
  }

  lemma SidesOfClaim(rule: Rule, identity: Option<Msisdn>, o: Row, avail: seq<Row>, p: Pairing)
    requires Distinct(avail) && Claims(rule, identity, o, avail, p)
    ensures p.left.Single? || p.right.Single?
    ensures p.left.Group? ==> |p.left.members| >= 2 && Distinct(p.left.members)
    ensures p.right.Group? ==> |p.right.members| >= 2 && Distinct(p.right.members)
    ensures p.rule in {ExactKind, FuzzyKind} ==> p.left.Single? && p.right.Single?
  {
    ClaimIsSound(rule, identity, o, avail);
    if rule.Fuzzy? {
      FuzzyIsForced(rule, identity, o, avail);
    }
  }

  lemma HeldAtFirst(left: seq<Row>, right: seq<Row>, side: Side)
    ensures Held(Opening(left, right), side) == multiset(if side == LeftSide then left else right)
  {
  }

  /** A pair a GroupSum rule made was forced: of the records unclaimed at that
      moment its members are the only group that fitted, and none of the share
      groups was too full to search. */
  lemma GroupPairsWereForced(spec: Reconciliation, left: seq<Row>, right: seq<Row>, lc: Option<Coverage>,
                             rc: Option<Coverage>, k: nat)
    returns (rule: Rule, o: Row, avail: seq<Row>, i: nat, n: nat, j: nat)
    requires Distinct(left) && Distinct(right) && k < |Reconcile(spec, left, right, lc, rc).matched|
    requires Reconcile(spec, left, right, lc, rc).matched[k].rule == GroupSumKind
    ensures MadeAt(spec.keys, spec.identity, Opening(left, right), k, i, n)
    ensures rule == spec.keys[i] && avail == Moment(spec.keys, spec.identity, Opening(left, right), i, n).avail
    ensures var res, many := Reconcile(spec, left, right, lc, rc), OneSide(rule).Other();
            j <= |res.ambiguous| && UnclaimedThen(res, left, right, many, avail, k, j)
    ensures rule.GroupSum? && !Crowded(rule, spec.identity, o, avail)
    ensures var p := Reconcile(spec, left, right, lc, rc).matched[k];
            && PartyOn(p, OneSide(rule)) == Single(o)
            && AllFitting(rule, spec.identity, o, avail) == {Elems(PartyRows(PartyOn(p, OneSide(rule).Other())))}
  {
    rule, o, avail, i, n, j := PairWasClaimed(spec, left, right, lc, rc, k);
    ClaimOfSum(rule, spec.identity, o, avail, Reconcile(spec, left, right, lc, rc).matched[k]);
  }

  lemma ClaimOfSum(rule: Rule, identity: Option<Msisdn>, o: Row, avail: seq<Row>, p: Pairing)
    requires Distinct(avail) && Claims(rule, identity, o, avail, p) && p.rule == GroupSumKind
    ensures rule.GroupSum? && PartyOn(p, OneSide(rule)) == Single(o) && !Crowded(rule, identity, o, avail)
    ensures var members := PartyRows(PartyOn(p, OneSide(rule).Other()));
            && AllFitting(rule, identity, o, avail) == {Elems(members)}
            && members != [] && Distinct(members) && p == Pair(o, members, OneSide(rule), GroupSumKind)
  {
    GroupSumIsForced(rule, identity, o, avail);
    ClaimIsSound(rule, identity, o, avail);
    PairRows(o, Decide(rule, identity, o, avail).members, OneSide(rule), KindOf(rule));
  }

  /** A Fuzzy pair too: its right record is the only record unclaimed at that
      moment that was viable for the left one. */
  lemma FuzzyPairsWereForced(spec: Reconciliation, left: seq<Row>, right: seq<Row>, lc: Option<Coverage>,
                             rc: Option<Coverage>, k: nat)
    returns (rule: Rule, o: Row, avail: seq<Row>, i: nat, n: nat, j: nat)
    requires Distinct(left) && Distinct(right) && k < |Reconcile(spec, left, right, lc, rc).matched|
    requires Reconcile(spec, left, right, lc, rc).matched[k].rule == FuzzyKind
    ensures MadeAt(spec.keys, spec.identity, Opening(left, right), k, i, n)
    ensures rule == spec.keys[i] && avail == Moment(spec.keys, spec.identity, Opening(left, right), i, n).avail
    ensures var res := Reconcile(spec, left, right, lc, rc);
            j <= |res.ambiguous| && UnclaimedThen(res, left, right, RightSide, avail, k, j)
    ensures var p := Reconcile(spec, left, right, lc, rc).matched[k];
            && rule.Fuzzy? && p.left == Single(o) && p.right.Single?
            && forall m :: m in avail && Viable(rule, spec.identity, o, m) <==> m == p.right.row
  {
    rule, o, avail, i, n, j := PairWasClaimed(spec, left, right, lc, rc, k);
    OnlyViable(rule, spec.identity, o, avail, Reconcile(spec, left, right, lc, rc).matched[k]);
  }

  lemma OnlyViable(rule: Rule, identity: Option<Msisdn>, o: Row, avail: seq<Row>, p: Pairing)
    requires Claims(rule, identity, o, avail, p) && p.rule == FuzzyKind
    ensures rule.Fuzzy? && p.left == Single(o) && p.right.Single?
    ensures forall m :: m in avail && Viable(rule, identity, o, m) <==> m == p.right.row
  {
    var pool := Pool(rule, identity, o, avail);
    PoolElems(rule, identity, o, avail);
    assert pool == [pool[0]];
    forall m ensures m in avail && Viable(rule, identity, o, m) <==> m in pool {
      assert Admits(rule, identity, o, m) == Viable(rule, identity, o, m);
    }
  }

  /** And a GroupRef pair is complete: its members are all the records unclaimed
      at that moment that carry the one record's reference. */
  lemma RefGroupsAreWhole(spec: Reconciliation, left: seq<Row>, right: seq<Row>, lc: Option<Coverage>,
                          rc: Option<Coverage>, k: nat)
    returns (rule: Rule, o: Row, avail: seq<Row>, i: nat, n: nat, j: nat)
    requires Distinct(left) && Distinct(right) && k < |Reconcile(spec, left, right, lc, rc).matched|
    requires Reconcile(spec, left, right, lc, rc).matched[k].rule == GroupRefKind
    ensures MadeAt(spec.keys, spec.identity, Opening(left, right), k, i, n)
    ensures rule == spec.keys[i] && avail == Moment(spec.keys, spec.identity, Opening(left, right), i, n).avail
    ensures var res, many := Reconcile(spec, left, right, lc, rc), OneSide(rule).Other();
            j <= |res.ambiguous| && UnclaimedThen(res, left, right, many, avail, k, j)
    ensures var p := Reconcile(spec, left, right, lc, rc).matched[k];
            var members := PartyRows(PartyOn(p, OneSide(rule).Other()));
            && rule.GroupRef? && PartyOn(p, OneSide(rule)) == Single(o) && 1 <= |members| <= rule.maxMembers
            && Distinct(members) && forall m :: m in members <==> m in avail && RefMember(rule, o, m)
  {
    rule, o, avail, i, n, j := PairWasClaimed(spec, left, right, lc, rc, k);
    WholeBucket(rule, spec.identity, o, avail, Reconcile(spec, left, right, lc, rc).matched[k]);
  }

  lemma WholeBucket(rule: Rule, identity: Option<Msisdn>, o: Row, avail: seq<Row>, p: Pairing)
    requires Distinct(avail) && Claims(rule, identity, o, avail, p) && p.rule == GroupRefKind
    ensures var members := PartyRows(PartyOn(p, OneSide(rule).Other()));
            && rule.GroupRef? && PartyOn(p, OneSide(rule)) == Single(o) && 1 <= |members| <= rule.maxMembers
            && Distinct(members) && forall m :: m in members <==> m in avail && RefMember(rule, o, m)
  {
    var members := Decide(rule, identity, o, avail).members;
    GroupRefIsForced(rule, identity, o, avail);
    DistinctNoDups(members);
    PairRows(o, members, OneSide(rule), KindOf(rule));
    forall m ensures m in members <==> m in Elems(members) {
    }
  }

  // ── what a GroupSum pair of a result is reported at ──

  /** At the amounts its own rule matched on, a GroupSum pair of a result is
      outside the rule's tolerance exactly when its members share one non-summed
      value that misses by more; with whole numbers, or a single member, it is
      always compared, within it. Where those are the amounts the declaration
      compares, that is how it is reported. */
  lemma GroupPairsBalance(spec: Reconciliation, left: seq<Row>, right: seq<Row>, lc: Option<Coverage>,
                          rc: Option<Coverage>, k: nat)
    returns (rule: Rule, o: Row, members: seq<Row>)
    requires Distinct(left) && Distinct(right) && k < |Reconcile(spec, left, right, lc, rc).matched|
    requires Reconcile(spec, left, right, lc, rc).matched[k].rule == GroupSumKind
    ensures rule in spec.keys && rule.GroupSum? && members != []
    ensures var p := Reconcile(spec, left, right, lc, rc).matched[k];
            && p == Pair(o, members, OneSide(rule), GroupSumKind)
            && InBalance(rule, o, members, Score(Some(SumAmounts(rule)), p))
            && (ResolvedAmount(spec) == Some(SumAmounts(rule)) ==>
                  InBalance(rule, o, members, Score(ResolvedAmount(spec), p)))
  {
    var avail: seq<Row>, i: nat, n: nat, j: nat;
    rule, o, avail, i, n, j := PairWasClaimed(spec, left, right, lc, rc, k);
    members := ClaimInBalance(rule, spec.identity, o, avail, Reconcile(spec, left, right, lc, rc).matched[k]);
  }

  lemma ClaimInBalance(rule: Rule, identity: Option<Msisdn>, o: Row, avail: seq<Row>, p: Pairing)
    returns (members: seq<Row>)
    requires Distinct(avail) && Claims(rule, identity, o, avail, p) && p.rule == GroupSumKind
    ensures rule.GroupSum? && members != [] && p == Pair(o, members, OneSide(rule), GroupSumKind)
    ensures InBalance(rule, o, members, Score(Some(SumAmounts(rule)), p))
  {
    ClaimOfSum(rule, identity, o, avail, p);
    members := PartyRows(PartyOn(p, OneSide(rule).Other()));
    assert Elems(members) in AllFitting(rule, identity, o, avail);
    FittingInBalance(rule, identity, o, members);
  }

  /** A Fuzzy pair is always compared at the amounts its own rule matched on, and
      within the rule's tolerance. Where those are the amounts the declaration
      compares, that is how it is reported. */
  lemma FuzzyPairsBalance(spec: Reconciliation, left: seq<Row>, right: seq<Row>, lc: Option<Coverage>,
                          rc: Option<Coverage>, k: nat)
    returns (rule: Rule, d: int)
    requires Distinct(left) && Distinct(right) && k < |Reconcile(spec, left, right, lc, rc).matched|
    requires Reconcile(spec, left, right, lc, rc).matched[k].rule == FuzzyKind
    ensures rule in spec.keys && rule.Fuzzy? && -rule.tolerance <= d <= rule.tolerance
    ensures var p := Reconcile(spec, left, right, lc, rc).matched[k];
            forall ref :: MatchesOn(rule, ref) ==>
              DiffersBy(ref, p, d) && (Compares(spec, ref) ==> ReportedBy(spec, p, d))
  {
    var o: Row, avail: seq<Row>, i: nat, n: nat, j: nat;
    rule, o, avail, i, n, j := FuzzyPairsWereForced(spec, left, right, lc, rc, k);
    var p := Reconcile(spec, left, right, lc, rc).matched[k];
    d := ViableDiffers(rule, spec.identity, o, p);
  }

  lemma ViableDiffers(rule: Rule, identity: Option<Msisdn>, o: Row, p: Pairing) returns (d: int)
    requires rule.Fuzzy? && p.left == Single(o) && p.right.Single? && Viable(rule, identity, o, p.right.row)
    ensures -rule.tolerance <= d <= rule.tolerance
    ensures forall ref :: MatchesOn(rule, ref) ==> DiffersBy(ref, p, d)
  {
    var ref := AmountRef(rule.amount, rule.amountRight, rule.currency, rule.currencyRight);
    d := Minor(o, rule.amount).value - Minor(p.right.row, rule.amountRight).value;
    assert Score(Some(ref), p) == Some(d);
    ScoreIff(ref, p, d);
  }

  // ── two batches of "500" against a deposit of 1000 ──

  const TEXT_SPEC: Reconciliation := Reconciliation([TEXT_RULE], None, [], None)

  lemma {:induction false} KeyedIsFewer(share: seq<Path>, pool: seq<Row>, key: seq<string>)
    ensures |Keyed(share, pool, key)| <= |pool|
  {
    if pool != [] {
      KeyedIsFewer(share, pool[..|pool| - 1], key);
    }
  }

  lemma {:induction false} FilterAll(p: Row -> bool, rows: seq<Row>)
    requires forall r :: r in rows ==> p(r)
    ensures Filter(p, rows) == rows
  {
    if rows != [] {
      var n := |rows| - 1;
      TakeNext(rows, n);
      TakeAll(rows);
      FilterAll(p, rows[..n]);
    }
  }

  /** No single batch is the deposit, so the two together are the only fit. */
  lemma BatchesAreTheOnlyFit()
    ensures Pool(TEXT_RULE, None, DEPOSIT, BATCHES) == BATCHES
    ensures AllFitting(TEXT_RULE, None, DEPOSIT, BATCHES) == {Elems(BATCHES)}
    ensures !Crowded(TEXT_RULE, None, DEPOSIT, BATCHES)
  {
    var all := Elems(BATCHES);
    BatchesFit();
    BatchesAdmitted();
    FilterAll(Admitter(TEXT_RULE, None, DEPOSIT), BATCHES);
    forall key ensures |Keyed(TEXT_RULE.share, BATCHES, key)| <= 2 {
      KeyedIsFewer(TEXT_RULE.share, BATCHES, key);
    }
    forall s: set<Row> | s <= all && Fitting(TEXT_RULE, None, DEPOSIT, s) ensures s == all {
      NoSingleFits(s);
    }
    assert all in AllFitting(TEXT_RULE, None, DEPOSIT, BATCHES);
  }

  lemma BatchesAdmitted()
    ensures forall m :: m in BATCHES ==> Admits(TEXT_RULE, None, DEPOSIT, m)
  {
    BatchesFit();
    forall m | m in BATCHES ensures Admits(TEXT_RULE, None, DEPOSIT, m) {
      assert m in Elems(BATCHES);
    }
  }

  lemma SubsetOfTwo<T>(s: set<T>, a: T, b: T)
    requires s <= {a, b}
    ensures s == {} || s == {a} || s == {b} || s == {a, b}
  {
    if a in s {
      assert s == {a} || s == {a, b};
    } else {
      assert s == {} || s == {b};
    }
  }

  lemma NoSingleFits(s: set<Row>)
    requires s <= Elems(BATCHES) && Fits(SumGoal(TEXT_RULE, DEPOSIT), s)
    ensures s == Elems(BATCHES)
  {
    var a, b := BATCHES[0], BATCHES[1];
    assert Elems(BATCHES) == {a, b};
    TotalAdd("amount", {}, a);
    TotalAdd("amount", {}, b);
    assert {} + {a} == {a} && {} + {b} == {b};
    SubsetOfTwo(s, a, b);
  }

  lemma BatchesClaimed()
    ensures Decide(TEXT_RULE, None, DEPOSIT, BATCHES) == Claim(BATCHES)
  {
    BatchesFit();
    BatchesAreTheOnlyFit();
    GroupSumIsForced(TEXT_RULE, None, DEPOSIT, BATCHES);
    DecidedByFits(TEXT_RULE, None, DEPOSIT, BATCHES);
    var d := Decide(TEXT_RULE, None, DEPOSIT, BATCHES);
    var fit := GatherAll(SharingOf(TEXT_RULE), SumGoal(TEXT_RULE, DEPOSIT), BATCHES).fits[0];
    assert Elems(d.members) in AllFitting(TEXT_RULE, None, DEPOSIT, BATCHES);
    ListedElems(BATCHES, fit);
    forall r | r in BATCHES ensures r in fit {
      assert r in Elems(d.members);
    }
    ListedAll(BATCHES, fit);
  }

  lemma {:induction false} ListedAll(rows: seq<Row>, s: set<Row>)
    requires forall r :: r in rows ==> r in s
    ensures Listed(rows, s) == rows
  {
    if rows != [] {
      ListedAll(rows[1..], s);
    }
  }

  /** So the engine pairs them, and reports a pair whose tolerance is 0 as 500
      short. */
  lemma TextPairIsMade()
    ensures var res := Reconcile(TEXT_SPEC, BATCHES, [DEPOSIT], None, None);
            && res.matched == [Pairing(Group(BATCHES), Single(DEPOSIT), GroupSumKind)]
            && Score(ResolvedAmount(TEXT_SPEC), res.matched[0]) == Some(-500)
  {
    BatchesClaimed();
    TextAmountsAreNotSummed();
    var b := Opening(BATCHES, [DEPOSIT]);
    SweepOne(TEXT_RULE, None, DEPOSIT, BATCHES, StartPass(TEXT_RULE, b));
    assert Apply(TEXT_RULE, None, b).matched == [Pairing(Group(BATCHES), Single(DEPOSIT), GroupSumKind)];
    assert Run([TEXT_RULE], None, b) == Run([TEXT_RULE][1..], None, Apply(TEXT_RULE, None, b))
        == Apply(TEXT_RULE, None, b);
  }

  lemma SweepOne(rule: Rule, identity: Option<Msisdn>, o: Row, members: seq<Row>, p: Pass)
    requires Decide(rule, identity, o, p.avail) == Claim(members)
    ensures Sweep(rule, identity, [o], p).matched == p.matched + [Pair(o, members, OneSide(rule), KindOf(rule))]
  {
    assert [o][1..] == [];
  }
}
