/** The amounts of a pair compared, whichever rule made it, and what that
    comparison means for a group. */
module Scoring {
  import opened Prelude
  import opened Rows
  import opened Declaration
  import opened SubsetSearch
  import opened Matching
  import opened GroupSums
  import opened MatchFacts

  // ── `MatchedPair.value` ──

  function SumWhole(members: seq<Row>, path: Path): int
    requires forall m :: m in members ==> Amount(m, path).Whole?
  {
    if members == [] then 0
    else
      var n := |members| - 1;
      SumWhole(members[..n], path) + Amount(members[n], path).n
  }

  predicate AllWhole(members: seq<Row>, path: Path) {
    forall m :: m in members ==> Amount(m, path).Whole?
  }

  predicate AllSame(members: seq<Row>, path: Path) {
    forall i :: 0 <= i < |members| ==> SameValue(Amount(members[i], path), Amount(members[0], path))
  }

  /** On a group: the sum of whole numbers, the value all members share, or
      nothing. */
  function PartyAmount(p: Party, path: Path): Cell {
    match p
    case Single(row) => Amount(row, path)
    case Group(members) =>
      if AllWhole(members, path) then Whole(SumWhole(members, path))
      else if AllSame(members, path) then Amount(members[0], path)
      else Absent
  }

  function PartyCurrency(p: Party, path: Path): string {
    match p
    case Single(row) => Upper(Currency(row, path))
    case Group(members) =>
      if members != [] && forall m :: m in members ==> Currency(m, path) == Currency(members[0], path)
      then Upper(Currency(members[0], path)) else ""
  }

  /** Left minus right, when both amounts read and the currencies do not
      differ. */
  function Compare(left: Cell, right: Cell, leftCur: string, rightCur: string): Option<int> {
    var l, r := AsInt(left), AsInt(right);
    if leftCur != "" && rightCur != "" && leftCur != rightCur then None
    else if l == None || r == None then None
    else Some(l.value - r.value)
  }

  /** The discrepancy of a pair at the declaration's amount paths. */
  function Score(ref: Option<AmountRef>, p: Pairing): Option<int> {
    if ref == None then None
    else Compare(PartyAmount(p.left, ref.value.left), PartyAmount(p.right, ref.value.right),
                 PartyCurrency(p.left, ref.value.currency), PartyCurrency(p.right, ref.value.currencyRight))
  }

  /** `net_discrepancy_minor`: summed over the pairs that disagree. */
  function Net(ref: Option<AmountRef>, pairs: seq<Pairing>): int {
    if pairs == [] then 0
    else
      var n := |pairs| - 1;
      var d := Score(ref, pairs[n]);
      Net(ref, pairs[..n]) + if d.Some? then d.value else 0
  }

  // ── sums over what is held ──

  /** The summed minor units of a bag of rows. */
  ghost function Sum(p: Path, rows: multiset<Row>): int {
    if rows == multiset{} then 0
    else
      var r :| r in rows;
      Units(r, p) + Sum(p, rows - multiset{r})
  }

  lemma {:induction false} SumAdd(p: Path, rows: multiset<Row>, r: Row)
    ensures Sum(p, rows + multiset{r}) == Sum(p, rows) + Units(r, p)
    decreases |rows|
  {
    var all := rows + multiset{r};
    var x :| x in all && Sum(p, all) == Units(x, p) + Sum(p, all - multiset{x});
    WithoutOne(rows, r, x);
    if x != r {
      var rest := rows - multiset{x};
      SumAdd(p, rest, r);
      SumAdd(p, rest, x);
    }
  }

  lemma WithoutOne(rows: multiset<Row>, r: Row, x: Row)
    requires x in rows + multiset{r}
    ensures var all := rows + multiset{r};
            if x == r then all - multiset{x} == rows
            else all - multiset{x} == (rows - multiset{x}) + multiset{r} && rows == (rows - multiset{x}) + multiset{x}
                 && |rows - multiset{x}| < |rows|
  {
    if x != r {
      assert x in rows;
      assert rows == (rows - multiset{x}) + multiset{x};
    }
  }

  lemma {:induction false} SumUnion(p: Path, a: multiset<Row>, b: multiset<Row>)
    ensures Sum(p, a + b) == Sum(p, a) + Sum(p, b)
    decreases |b|
  {
    if b == multiset{} {
      assert a + b == a;
    } else {
      var r :| r in b;
      var rest := b - multiset{r};
      SumUnion(p, a, rest);
      SumAdd(p, a + rest, r);
      SumAdd(p, rest, r);
      assert a + b == a + rest + multiset{r};
      assert b == rest + multiset{r};
    }
  }

  lemma SumLast(p: Path, members: seq<Row>)
    requires members != []
    ensures var n := |members| - 1;
            Sum(p, multiset(members)) == Sum(p, multiset(members[..n])) + Units(members[n], p)
  {
    var n := |members| - 1;
    assert members == members[..n] + [members[n]];
    assert multiset(members) == multiset(members[..n]) + multiset{members[n]};
    SumAdd(p, multiset(members[..n]), members[n]);
  }

  lemma TotalLast(p: Path, members: seq<Row>)
    requires Distinct(members) && members != []
    ensures var n := |members| - 1;
            Total(p, Elems(members)) == Total(p, Elems(members[..n])) + Units(members[n], p)
  {
    var n := |members| - 1;
    assert members == members[..n] + [members[n]];
    assert Elems(members) == Elems(members[..n]) + {members[n]};
    TotalAdd(p, Elems(members[..n]), members[n]);
  }

  lemma {:induction false} SumWholeIsSum(members: seq<Row>, path: Path)
    requires AllWhole(members, path)
    ensures SumWhole(members, path) == Sum(path, multiset(members))
  {
    if members != [] {
      var n := |members| - 1;
      SumWholeIsSum(members[..n], path);
      SumLast(path, members);
      assert members[n] in members;
    }
  }

  lemma {:induction false} TotalIsSum(members: seq<Row>, path: Path)
    requires Distinct(members)
    ensures Total(path, Elems(members)) == Sum(path, multiset(members))
  {
    if members == [] {
      assert Elems(members) == {};
    } else {
      TotalIsSum(members[..|members| - 1], path);
      SumLast(path, members);
      TotalLast(path, members);
    }
  }

  // ── the balance identity ──

  predicate OneOf(currency: string, cur: string) {
    currency == "" || currency == cur
  }

  /** Every row of a bag has an integer amount here, and one currency. */
  ghost predicate Plain(rows: multiset<Row>, amount: Path, currency: Path, cur: string) {
    forall r :: r in rows ==> Amount(r, amount).Whole? && OneOf(Upper(Currency(r, currency)), cur)
  }

  lemma PartyPlain(p: Party, amount: Path, currency: Path, cur: string)
    requires Plain(multiset(PartyRows(p)), amount, currency, cur)
    ensures PartyAmount(p, amount) == Whole(Sum(amount, multiset(PartyRows(p))))
    ensures OneOf(PartyCurrency(p, currency), cur)
  {
    var rows := PartyRows(p);
    forall r | r in rows ensures Amount(r, amount).Whole? && OneOf(Upper(Currency(r, currency)), cur) {
      assert r in multiset(rows);
    }
    SumWholeIsSum(rows, amount);
    if p.Single? {
      assert rows[..0] == [];
      assert SumWhole(rows, amount) == Amount(p.row, amount).n;
    }
  }

  lemma PlainPairScore(ref: AmountRef, p: Pairing, l: int, r: int, cur: string)
    requires PartyAmount(p.left, ref.left) == Whole(l) && PartyAmount(p.right, ref.right) == Whole(r)
    requires OneOf(PartyCurrency(p.left, ref.currency), cur) && OneOf(PartyCurrency(p.right, ref.currencyRight), cur)
    ensures Score(Some(ref), p) == Some(l - r)
  {
  }

  lemma {:induction false} NetIsDifference(ref: AmountRef, pairs: seq<Pairing>, cur: string)
    requires Plain(MatchedRows(pairs, LeftSide), ref.left, ref.currency, cur)
    requires Plain(MatchedRows(pairs, RightSide), ref.right, ref.currencyRight, cur)
    ensures Net(Some(ref), pairs)
         == Sum(ref.left, MatchedRows(pairs, LeftSide)) - Sum(ref.right, MatchedRows(pairs, RightSide))
  {
    if pairs != [] {
      var last, before := pairs[|pairs| - 1], pairs[..|pairs| - 1];
      var l, r := multiset(PartyRows(last.left)), multiset(PartyRows(last.right));
      var ls, rs := MatchedRows(before, LeftSide), MatchedRows(before, RightSide);
      assert MatchedRows(pairs, LeftSide) == ls + l && MatchedRows(pairs, RightSide) == rs + r;
      PlainParts(ls, l, ref.left, ref.currency, cur);
      PlainParts(rs, r, ref.right, ref.currencyRight, cur);
      NetIsDifference(ref, before, cur);
      PartyPlain(last.left, ref.left, ref.currency, cur);
      PartyPlain(last.right, ref.right, ref.currencyRight, cur);
      PlainPairScore(ref, last, Sum(ref.left, l), Sum(ref.right, r), cur);
      SumUnion(ref.left, ls, l);
      SumUnion(ref.right, rs, r);
    }
  }

  lemma PlainParts(a: multiset<Row>, b: multiset<Row>, amount: Path, currency: Path, cur: string)
    requires Plain(a + b, amount, currency, cur)
    ensures Plain(a, amount, currency, cur) && Plain(b, amount, currency, cur)
  {
  }

  /** What is held but not matched, on one side. */
  ghost function NotMatched(b: Board, side: Side): multiset<Row> {
    multiset(SideRows(b, side)) + OpenRows(b.ambiguous, side)
  }

  /** The money adds up: over plain rows in one currency, the difference of the
      two sides is the net discrepancy plus what was not matched on the left
      less what was not matched on the right. */
  lemma Balance(keys: seq<Rule>, identity: Option<Msisdn>, left: seq<Row>, right: seq<Row>, ref: AmountRef, cur: string)
    requires Distinct(left) && Distinct(right)
    requires Plain(multiset(left), ref.left, ref.currency, cur)
    requires Plain(multiset(right), ref.right, ref.currencyRight, cur)
    ensures var c := Run(keys, identity, Opening(left, right));
            Sum(ref.left, multiset(left)) - Sum(ref.right, multiset(right))
            == Net(Some(ref), c.matched)
               + Sum(ref.left, NotMatched(c, LeftSide)) - Sum(ref.right, NotMatched(c, RightSide))
  {
    var b := Opening(left, right);
    RunKeeps(keys, identity, b);
    var c := Run(keys, identity, b);
    HeldSplits(c, left, LeftSide, ref.left);
    HeldSplits(c, right, RightSide, ref.right);
    assert Held(b, LeftSide) == multiset(left) && Held(b, RightSide) == multiset(right);
    NetIsDifference(ref, c.matched, cur);
  }

  lemma HeldSplits(c: Board, input: seq<Row>, side: Side, p: Path)
    requires Held(c, side) == multiset(input)
    ensures MatchedRows(c.matched, side) <= multiset(input)
    ensures Sum(p, multiset(input)) == Sum(p, MatchedRows(c.matched, side)) + Sum(p, NotMatched(c, side))
  {
    assert multiset(input) == MatchedRows(c.matched, side) + NotMatched(c, side);
    SumUnion(p, MatchedRows(c.matched, side), NotMatched(c, side));
  }

  // ── what a GroupSum pair is scored at ──

  function GroupScore(rule: Rule, o: Row, members: seq<Row>): Option<int>
    requires rule.GroupSum?
  {
    Score(Some(SumAmounts(rule)), Pair(o, members, OneSide(rule), GroupSumKind))
  }

  function ManyParty(members: seq<Row>): Party {
    if |members| == 1 then Single(members[0]) else Group(members)
  }

  /** The branch of `value` that does not sum: several members, not all whole
      numbers, all equal. */
  predicate SharedNotSummed(rule: Rule, members: seq<Row>)
    requires rule.GroupSum?
  {
    |members| > 1 && !AllWhole(members, rule.amount) && AllSame(members, rule.amount)
  }

  lemma GroupCurrencyAgrees(rule: Rule, identity: Option<Msisdn>, o: Row, members: seq<Row>)
    requires rule.GroupSum? && members != []
    requires forall m :: m in members ==> Admits(rule, identity, o, m)
    ensures OneOf(PartyCurrency(ManyParty(members), rule.currency), Upper(Currency(o, rule.currencyOne)))
  {
    assert members[0] in members;
  }

  /** The score of a GroupSum pair, whichever side holds the group. */
  lemma GroupScoreIs(rule: Rule, identity: Option<Msisdn>, o: Row, members: seq<Row>)
    requires rule.GroupSum? && members != []
    requires forall m :: m in members ==> Admits(rule, identity, o, m)
    ensures var many, d := AsInt(PartyAmount(ManyParty(members), rule.amount)), GroupScore(rule, o, members);
            && (d == None <==> many == None)
            && (d.Some? ==> Abs(d.value) == Abs(many.value - Units(o, rule.amountOne)))
  {
    GroupCurrencyAgrees(rule, identity, o, members);
    assert Admits(rule, identity, o, members[0]);
  }

  lemma FittingMembers(rule: Rule, identity: Option<Msisdn>, o: Row, members: seq<Row>)
    requires rule.GroupSum? && Distinct(members) && Fitting(rule, identity, o, Elems(members))
    ensures forall m :: m in members ==> Admits(rule, identity, o, m)
    ensures Abs(Sum(rule.amount, multiset(members)) - Units(o, rule.amountOne)) <= rule.tolerance
  {
    TotalIsSum(members, rule.amount);
    forall m | m in members ensures Admits(rule, identity, o, m) {
      assert m in Elems(members);
    }
  }

  /** What the many side's amount reads as, in the three branches of `value`. */
  lemma ManyAmount(members: seq<Row>, path: Path)
    requires members != [] && forall m :: m in members ==> Minor(m, path).Some?
    ensures var many := AsInt(PartyAmount(ManyParty(members), path));
            && (|members| == 1 || AllWhole(members, path) ==> many == Some(Sum(path, multiset(members))))
            && (|members| > 1 && !AllWhole(members, path) && AllSame(members, path) ==>
                many == Some(Units(members[0], path)))
            && (|members| > 1 && !AllWhole(members, path) && !AllSame(members, path) ==> many == None)
  {
    assert members[0] in members;
    if |members| == 1 {
      SumLast(path, members);
      assert members[..0] == [];
    } else if AllWhole(members, path) {
      SumWholeIsSum(members, path);
    }
  }

  /** What a group is reported at, against a record of amount `one` that it
      answers within the tolerance. Whole-number amounts, or a single record,
      are compared, within the tolerance. Members that merely share one other
      value are compared at that value, not at their sum; any other group is
      not compared. */
  ghost predicate ReportedAs(members: seq<Row>, path: Path, one: int, tolerance: int, d: Option<int>)
    requires members != []
  {
    if |members| == 1 || AllWhole(members, path) then d.Some? && Abs(d.value) <= tolerance
    else if AllSame(members, path) then d.Some? && Abs(d.value) == Abs(Units(members[0], path) - one)
    else d == None
  }

  /** With the amounts taken from the rule itself. */
  ghost predicate Reported(rule: Rule, o: Row, members: seq<Row>, d: Option<int>)
    requires rule.GroupSum? && members != []
  {
    ReportedAs(members, rule.amount, Units(o, rule.amountOne), rule.tolerance, d)
  }

  /** That is how every fitting group is reported. */
  lemma GroupSumDiscrepancy(rule: Rule, identity: Option<Msisdn>, o: Row, members: seq<Row>)
    requires rule.GroupSum? && Distinct(members) && members != []
    requires Fitting(rule, identity, o, Elems(members))
    ensures Reported(rule, o, members, GroupScore(rule, o, members))
  {
    FittingScored(rule, identity, o, members);
    ScoredIsReported(rule, o, members, GroupScore(rule, o, members));
  }

  /** A score of the group's amount, if it has one, against `one`. */
  ghost predicate ScoredAgainst(members: seq<Row>, path: Path, one: int, d: Option<int>) {
    var many := AsInt(PartyAmount(ManyParty(members), path));
    (d == None <==> many == None) && (d.Some? ==> Abs(d.value) == Abs(many.value - one))
  }

  /** What a fitting group has for its score to be read off. */
  ghost predicate Scored(rule: Rule, o: Row, members: seq<Row>, d: Option<int>)
    requires rule.GroupSum?
  {
    && (forall m :: m in members ==> Minor(m, rule.amount).Some?)
    && Abs(Sum(rule.amount, multiset(members)) - Units(o, rule.amountOne)) <= rule.tolerance
    && ScoredAgainst(members, rule.amount, Units(o, rule.amountOne), d)
  }

  lemma ScoredIsReported(rule: Rule, o: Row, members: seq<Row>, d: Option<int>)
    requires rule.GroupSum? && members != [] && Scored(rule, o, members, d)
    ensures Reported(rule, o, members, d)
  {
    ScoreCases(members, rule.amount, Units(o, rule.amountOne), rule.tolerance, d);
  }

  lemma ScoreCases(members: seq<Row>, path: Path, one: int, tolerance: int, d: Option<int>)
    requires members != [] && forall m :: m in members ==> Minor(m, path).Some?
    requires Abs(Sum(path, multiset(members)) - one) <= tolerance
    requires ScoredAgainst(members, path, one, d)
    ensures ReportedAs(members, path, one, tolerance, d)
  {
    ManyAmount(members, path);
  }

  lemma FittingScored(rule: Rule, identity: Option<Msisdn>, o: Row, members: seq<Row>)
    requires rule.GroupSum? && Distinct(members) && members != []
    requires Fitting(rule, identity, o, Elems(members))
    ensures Scored(rule, o, members, GroupScore(rule, o, members))
  {
    FittingMembers(rule, identity, o, members);
    GroupScoreIs(rule, identity, o, members);
    forall m | m in members ensures Minor(m, rule.amount).Some? {
      assert Admits(rule, identity, o, m);
    }
  }

  /** So a fitting group is reported outside its own tolerance exactly when its
      members share one non-summed value that misses the record by more. */
  lemma GroupSumToleranceIff(rule: Rule, identity: Option<Msisdn>, o: Row, members: seq<Row>)
    requires rule.GroupSum? && Distinct(members) && members != []
    requires Fitting(rule, identity, o, Elems(members))
    ensures (var d := GroupScore(rule, o, members); d.Some? ==> Abs(d.value) <= rule.tolerance)
       <==> !(SharedNotSummed(rule, members)
              && Abs(Units(members[0], rule.amount) - Units(o, rule.amountOne)) > rule.tolerance)
  {
    GroupSumDiscrepancy(rule, identity, o, members);
  }

  /** The members share a value that is not their sum, and that misses the record
      by more than the tolerance. */
  predicate MissesByMore(rule: Rule, o: Row, members: seq<Row>)
    requires rule.GroupSum? && members != []
  {
    && SharedNotSummed(rule, members)
    && Abs(Units(members[0], rule.amount) - Units(o, rule.amountOne)) > rule.tolerance
  }

  /** A score is within the tolerance unless they do; and with whole numbers, or a
      single member, there is one, and it is. */
  ghost predicate InBalance(rule: Rule, o: Row, members: seq<Row>, d: Option<int>)
    requires rule.GroupSum? && members != []
  {
    && ((d.Some? ==> Abs(d.value) <= rule.tolerance) <==> !MissesByMore(rule, o, members))
    && (|members| == 1 || AllWhole(members, rule.amount) ==> d.Some? && Abs(d.value) <= rule.tolerance)
  }

  lemma FittingInBalance(rule: Rule, identity: Option<Msisdn>, o: Row, members: seq<Row>)
    requires rule.GroupSum? && Distinct(members) && members != []
    requires Fitting(rule, identity, o, Elems(members))
    ensures InBalance(rule, o, members, GroupScore(rule, o, members))
  {
    GroupSumDiscrepancy(rule, identity, o, members);
    ReportedInBalance(rule, o, members, GroupScore(rule, o, members));
  }

  lemma ReportedInBalance(rule: Rule, o: Row, members: seq<Row>, d: Option<int>)
    requires rule.GroupSum? && members != [] && Reported(rule, o, members, d)
    ensures InBalance(rule, o, members, d)
  {
  }

  function TextRow(id: nat, amount: Cell): Row {
    Row(id, map["amount" := amount], map[], map[], map[], map[], map[], map[])
  }

  const TEXT_RULE: Rule := GroupSum(LeftSide, "amount", "amount", "currency", "currency", "at", "at", [], 60, None, 8,
                                    24, 0)
  const BATCHES: seq<Row> := [TextRow(1, Text("500", Some(500))), TextRow(2, Text("500", Some(500)))]
  const DEPOSIT: Row := TextRow(3, Whole(1000))

  lemma BatchesSum()
    ensures Total("amount", Elems(BATCHES)) == 1000 && |Elems(BATCHES)| == 2
  {
    var a, b := BATCHES[0], BATCHES[1];
    assert Elems(BATCHES) == {a, b};
    TotalAdd("amount", {}, a);
    TotalAdd("amount", {a}, b);
    assert {} + {a} == {a} && {a} + {b} == {a, b};
  }

  lemma BatchAdmitted(m: Row)
    requires m in Elems(BATCHES)
    ensures Admits(TEXT_RULE, None, DEPOSIT, m) && ShareKey(m, []) == []
  {
    assert m.amounts == map["amount" := Text("500", Some(500))] && m.currencies == map[] && m.instants == map[];
  }

  lemma BatchesAreGoal()
    ensures Fits(SumGoal(TEXT_RULE, DEPOSIT), Elems(BATCHES))
  {
    BatchesSum();
    assert SumGoal(TEXT_RULE, DEPOSIT) == Goal("amount", 1000, 0, 8);
  }

  lemma BatchesFit()
    ensures Distinct(BATCHES) && Fitting(TEXT_RULE, None, DEPOSIT, Elems(BATCHES))
  {
    BatchesAreGoal();
    forall m | m in Elems(BATCHES) ensures Admits(TEXT_RULE, None, DEPOSIT, m) && ShareKey(m, []) == [] {
      BatchAdmitted(m);
    }
  }

  lemma BatchesNotSummed()
    ensures PartyAmount(Group(BATCHES), "amount") == Text("500", Some(500))
    ensures PartyCurrency(Group(BATCHES), "currency") == ""
  {
    assert BATCHES[0] in BATCHES && !AllWhole(BATCHES, "amount");
    assert AllSame(BATCHES, "amount");
  }

  /** Two batches of "500" as text answer a deposit of 1000 exactly, and the
      pair is reported 500 short. */
  lemma TextAmountsAreNotSummed()
    ensures Distinct(BATCHES) && Fitting(TEXT_RULE, None, DEPOSIT, Elems(BATCHES)) && TEXT_RULE.tolerance == 0
    ensures GroupScore(TEXT_RULE, DEPOSIT, BATCHES) == Some(-500)
  {
    BatchesFit();
    BatchesNotSummed();
    assert Pair(DEPOSIT, BATCHES, RightSide, GroupSumKind) == Pairing(Group(BATCHES), Single(DEPOSIT), GroupSumKind);
    assert PartyAmount(Single(DEPOSIT), "amount") == Whole(1000);
  }
}
