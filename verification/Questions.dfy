/** What a result reports as ambiguous, and why; and the order in which records
    are taken. Every ambiguity has the moment it was asked at, as every pair has
    the moment it was made at, and on the records unclaimed then it is real. */
module Questions {
  import opened Prelude
  import opened Rows
  import opened Declaration
  import opened Matching
  import opened GroupSums
  import opened Decisions
  import opened MatchFacts
  import opened Coverages
  import opened Engine

  // ── the moment a question was asked ──

  /** `asked` is the rule's question about `o` on these records. */
  ghost predicate Asks(rule: Rule, identity: Option<Msisdn>, o: Row, avail: seq<Row>, asked: Ambiguity) {
    var d := Decide(rule, identity, o, avail);
    d.Open? && asked == Ambiguity(o, d.candidates, KindOf(rule), OneSide(rule), d.alternatives)
  }

  /** The `k`-th ambiguity is what rule `i` asked about the `n`-th record it came
      to, on the records unclaimed at that moment. */
  ghost predicate AskedAt(keys: seq<Rule>, identity: Option<Msisdn>, b: Board, k: nat, i: nat, n: nat) {
    && i < |keys|
    && var c, rule := Run(keys[..i], identity, b), keys[i];
    && n < |SideRows(c, OneSide(rule))|
    && k < |Run(keys, identity, b).ambiguous|
    && var p, o := Moment(keys, identity, b, i, n), SideRows(c, OneSide(rule))[n];
    && p.ambiguous == Run(keys, identity, b).ambiguous[..k]
    && p.matched <= Run(keys, identity, b).matched
    && Asks(rule, identity, o, p.avail, Run(keys, identity, b).ambiguous[k])
  }

  /** The same within one sweep. */
  ghost predicate SweptAsked(rule: Rule, identity: Option<Msisdn>, ones: seq<Row>, p: Pass, k: nat, n: nat) {
    && n < |ones| && k < |Sweep(rule, identity, ones, p).ambiguous|
    && var all, q := Sweep(rule, identity, ones, p), Sweep(rule, identity, ones[..n], p);
    && q.ambiguous == all.ambiguous[..k] && q.matched <= all.matched
    && Asks(rule, identity, ones[n], q.avail, all.ambiguous[k])
  }

  lemma SettleAsks(rule: Rule, o: Row, d: Decision, p: Pass)
    ensures var q := Settle(rule, o, d, p); p.matched <= q.matched && p.ambiguous <= q.ambiguous
    ensures var q := Settle(rule, o, d, p); |q.ambiguous| == |p.ambiguous| + if d.Open? then 1 else 0
  {
  }

  lemma {:induction false} SweepAsked(rule: Rule, identity: Option<Msisdn>, ones: seq<Row>, p: Pass, k: nat)
    returns (n: nat)
    requires |p.ambiguous| <= k < |Sweep(rule, identity, ones, p).ambiguous|
    ensures SweptAsked(rule, identity, ones, p, k, n)
  {
    var o := ones[0];
    var d, q := Decide(rule, identity, o, p.avail), Step(rule, identity, o, p);
    SettleAsks(rule, o, d, p);
    if k < |q.ambiguous| {
      n := 0;
      AskedFirst(rule, identity, ones, p);
    } else {
      var m := SweepAsked(rule, identity, ones[1..], q, k);
      n := m + 1;
      AskedLater(rule, identity, ones, p, k, m);
    }
  }

  lemma AskedFirst(rule: Rule, identity: Option<Msisdn>, ones: seq<Row>, p: Pass)
    requires ones != [] && Decide(rule, identity, ones[0], p.avail).Open?
    ensures SweptAsked(rule, identity, ones, p, |p.ambiguous|, 0)
  {
    SweepExtends(rule, identity, ones[1..], Step(rule, identity, ones[0], p));
    SettleAsks(rule, ones[0], Decide(rule, identity, ones[0], p.avail), p);
    assert ones[..0] == [];
  }

  lemma AskedLater(rule: Rule, identity: Option<Msisdn>, ones: seq<Row>, p: Pass, k: nat, m: nat)
    requires ones != [] && SweptAsked(rule, identity, ones[1..], Step(rule, identity, ones[0], p), k, m)
    ensures SweptAsked(rule, identity, ones, p, k, m + 1)
  {
    SweepFirst(rule, identity, ones, p, m + 1);
  }

  /** Every ambiguity of a run has the moment it was asked at. */
  lemma {:induction false} RunAsked(keys: seq<Rule>, identity: Option<Msisdn>, b: Board, k: nat)
    returns (i: nat, n: nat)
    requires |b.ambiguous| <= k < |Run(keys, identity, b).ambiguous|
    ensures AskedAt(keys, identity, b, k, i, n)
  {
    var rule, next := keys[0], Apply(keys[0], identity, b);
    if k < |next.ambiguous| {
      i := 0;
      n := SweepAsked(rule, identity, SideRows(b, OneSide(rule)), StartPass(rule, b), k);
      RunAskedFirst(keys, identity, b, k, n);
    } else {
      var j;
      j, n := RunAsked(keys[1..], identity, next, k);
      i := j + 1;
      RunAskedLater(keys, identity, b, k, j, n);
    }
  }

  lemma RunAskedFirst(keys: seq<Rule>, identity: Option<Msisdn>, b: Board, k: nat, n: nat)
    requires keys != [] && b.left != [] && b.right != []
    requires SweptAsked(keys[0], identity, SideRows(b, OneSide(keys[0])), StartPass(keys[0], b), k, n)
    ensures AskedAt(keys, identity, b, k, 0, n)
  {
    RunExtends(keys[1..], identity, Apply(keys[0], identity, b));
    assert keys[..0] == [];
  }

  lemma RunAskedLater(keys: seq<Rule>, identity: Option<Msisdn>, b: Board, k: nat, j: nat, n: nat)
    requires keys != [] && b.left != [] && b.right != []
    requires AskedAt(keys[1..], identity, Apply(keys[0], identity, b), k, j, n)
    ensures AskedAt(keys, identity, b, k, j + 1, n)
  {
    RunFirst(keys, identity, b, j + 1);
    assert keys[1..][j] == keys[j + 1];
  }

  // ── the ambiguities of a result ──

  /** Every ambiguity has the moment it was asked at: a rule of the list came to a
      record `o`, the records then unclaimed on the other side were `avail`, and
      the ambiguity is what the rule decided on them. */
  lemma AmbiguityWasAsked(spec: Reconciliation, left: seq<Row>, right: seq<Row>, lc: Option<Coverage>,
                          rc: Option<Coverage>, j: nat)
    returns (rule: Rule, o: Row, avail: seq<Row>, i: nat, n: nat, k: nat)
    requires Distinct(left) && Distinct(right) && j < |Reconcile(spec, left, right, lc, rc).ambiguous|
    ensures AskedAt(spec.keys, spec.identity, Opening(left, right), j, i, n)
    ensures rule == spec.keys[i] && avail == Moment(spec.keys, spec.identity, Opening(left, right), i, n).avail
    ensures o == SideRows(Run(spec.keys[..i], spec.identity, Opening(left, right)), OneSide(rule))[n]
    ensures var res := Reconcile(spec, left, right, lc, rc);
            && k <= |res.matched| && UnclaimedThen(res, left, right, OneSide(rule).Other(), avail, k, j)
            && Asks(rule, spec.identity, o, avail, res.ambiguous[j])
  {
    var b := Opening(left, right);
    i, n := RunAsked(spec.keys, spec.identity, b, j);
    MomentHolds(spec.keys, spec.identity, b, i, n);
    rule := spec.keys[i];
    var p := Moment(spec.keys, spec.identity, b, i, n);
    o, avail, k := SideRows(Run(spec.keys[..i], spec.identity, b), OneSide(rule))[n], p.avail, |p.matched|;
    assert p.matched == Run(spec.keys, spec.identity, b).matched[..k];
    HeldAtFirst(left, right, OneSide(rule).Other());
  }

  /** A Fuzzy ambiguity is real: its candidates are all the records unclaimed at
      that moment that were viable for the left one, and there are two or more. */
  lemma FuzzyQuestionsAreReal(spec: Reconciliation, left: seq<Row>, right: seq<Row>, lc: Option<Coverage>,
                              rc: Option<Coverage>, j: nat)
    returns (rule: Rule, o: Row, avail: seq<Row>, k: nat)
    requires Distinct(left) && Distinct(right) && j < |Reconcile(spec, left, right, lc, rc).ambiguous|
    requires Reconcile(spec, left, right, lc, rc).ambiguous[j].rule == FuzzyKind
    ensures rule in spec.keys && rule.Fuzzy?
    ensures var res := Reconcile(spec, left, right, lc, rc);
            k <= |res.matched| && UnclaimedThen(res, left, right, RightSide, avail, k, j)
    ensures var a := Reconcile(spec, left, right, lc, rc).ambiguous[j];
            && a.record == o && a.side == LeftSide && a.alternatives == []
            && Distinct(a.candidates) && |a.candidates| >= 2
            && forall m :: m in a.candidates <==> m in avail && Viable(rule, spec.identity, o, m)
  {
    var i: nat, n: nat;
    rule, o, avail, i, n, k := AmbiguityWasAsked(spec, left, right, lc, rc, j);
    SeveralViable(rule, spec.identity, o, avail, Reconcile(spec, left, right, lc, rc).ambiguous[j]);
  }

  lemma SeveralViable(rule: Rule, identity: Option<Msisdn>, o: Row, avail: seq<Row>, a: Ambiguity)
    requires Distinct(avail) && Asks(rule, identity, o, avail, a) && a.rule == FuzzyKind
    ensures rule.Fuzzy? && a.record == o && a.side == LeftSide && a.alternatives == []
    ensures Distinct(a.candidates) && |a.candidates| >= 2
    ensures forall m :: m in a.candidates <==> m in avail && Viable(rule, identity, o, m)
  {
    FuzzyIsForced(rule, identity, o, avail);
    DistinctNoDups(a.candidates);
    forall m ensures m in a.candidates <==> m in Elems(a.candidates) {
    }
  }

  /** A GroupRef ambiguity too: its candidates are all the records unclaimed at
      that moment that carry the one record's reference, more than `maxMembers`. */
  lemma RefQuestionsAreReal(spec: Reconciliation, left: seq<Row>, right: seq<Row>, lc: Option<Coverage>,
                            rc: Option<Coverage>, j: nat)
    returns (rule: Rule, o: Row, avail: seq<Row>, k: nat)
    requires Distinct(left) && Distinct(right) && j < |Reconcile(spec, left, right, lc, rc).ambiguous|
    requires Reconcile(spec, left, right, lc, rc).ambiguous[j].rule == GroupRefKind
    ensures rule in spec.keys && rule.GroupRef?
    ensures var res := Reconcile(spec, left, right, lc, rc);
            k <= |res.matched| && UnclaimedThen(res, left, right, rule.many, avail, k, j)
    ensures var a := Reconcile(spec, left, right, lc, rc).ambiguous[j];
            && a.record == o && a.side == rule.many.Other() && a.alternatives == []
            && Distinct(a.candidates) && |a.candidates| > rule.maxMembers
            && forall m :: m in a.candidates <==> m in avail && RefMember(rule, o, m)
  {
    var i: nat, n: nat;
    rule, o, avail, i, n, k := AmbiguityWasAsked(spec, left, right, lc, rc, j);
    TooManyCarry(rule, spec.identity, o, avail, Reconcile(spec, left, right, lc, rc).ambiguous[j]);
  }

  lemma TooManyCarry(rule: Rule, identity: Option<Msisdn>, o: Row, avail: seq<Row>, a: Ambiguity)
    requires Distinct(avail) && Asks(rule, identity, o, avail, a) && a.rule == GroupRefKind
    ensures rule.GroupRef? && a.record == o && a.side == rule.many.Other() && a.alternatives == []
    ensures Distinct(a.candidates) && |a.candidates| > rule.maxMembers
    ensures forall m :: m in a.candidates <==> m in avail && RefMember(rule, o, m)
  {
    GroupRefIsForced(rule, identity, o, avail);
    DistinctNoDups(a.candidates);
    forall m ensures m in a.candidates <==> m in Elems(a.candidates) {
    }
  }

  /** And a GroupSum ambiguity: of the records unclaimed at that moment at least
      two different groups fit, or some share group was too full to search. The
      alternatives are fitting groups, no two the same, and the candidates are
      their members. */
  lemma SumQuestionsAreReal(spec: Reconciliation, left: seq<Row>, right: seq<Row>, lc: Option<Coverage>,
                            rc: Option<Coverage>, j: nat)
    returns (rule: Rule, o: Row, avail: seq<Row>, k: nat)
    requires Distinct(left) && Distinct(right) && j < |Reconcile(spec, left, right, lc, rc).ambiguous|
    requires Reconcile(spec, left, right, lc, rc).ambiguous[j].rule == GroupSumKind
    ensures rule in spec.keys && rule.GroupSum?
    ensures var res := Reconcile(spec, left, right, lc, rc);
            k <= |res.matched| && UnclaimedThen(res, left, right, rule.many, avail, k, j)
    ensures |AllFitting(rule, spec.identity, o, avail)| >= 2 || Crowded(rule, spec.identity, o, avail)
    ensures var a := Reconcile(spec, left, right, lc, rc).ambiguous[j];
            && a.record == o && a.side == rule.many.Other()
            && Options(rule, spec.identity, o, avail, a.alternatives)
            && (!Crowded(rule, spec.identity, o, avail) ==> |a.alternatives| >= 2)
            && Distinct(a.candidates) && forall m :: m in a.candidates <==> InSome(a.alternatives, m)
  {
    var i: nat, n: nat;
    rule, o, avail, i, n, k := AmbiguityWasAsked(spec, left, right, lc, rc, j);
    GroupSumAsks(rule, spec.identity, o, avail);
  }

  /** An ExactRef rule reports none. */
  lemma ExactNeverAsks(spec: Reconciliation, left: seq<Row>, right: seq<Row>, lc: Option<Coverage>,
                       rc: Option<Coverage>, a: Ambiguity)
    requires Distinct(left) && Distinct(right) && a in Reconcile(spec, left, right, lc, rc).ambiguous
    ensures a.rule != ExactKind
  {
    var res := Reconcile(spec, left, right, lc, rc);
    var j :| 0 <= j < |res.ambiguous| && res.ambiguous[j] == a;
    var rule, o, avail, i, n, k := AmbiguityWasAsked(spec, left, right, lc, rc, j);
    if rule.ExactRef? {
      ExactTakesFirst(rule, spec.identity, o, avail);
    }
  }

  // ── in order ──

  /** `x` stands before `y`. */
  ghost predicate Precedes(rows: seq<Row>, x: Row, y: Row) {
    exists u, v :: 0 <= u < v < |rows| && rows[u] == x && rows[v] == y
  }

  /** Whatever stands before something in `part` does so in `whole`. */
  ghost predicate InOrder(part: seq<Row>, whole: seq<Row>) {
    forall i, j :: 0 <= i < j < |part| ==> Precedes(whole, part[i], part[j])
  }

  lemma InOrderTrans(a: seq<Row>, b: seq<Row>, c: seq<Row>)
    requires InOrder(a, b) && InOrder(b, c)
    ensures InOrder(a, c)
  {
    forall i, j | 0 <= i < j < |a| ensures Precedes(c, a[i], a[j]) {
      assert Precedes(b, a[i], a[j]);
      var u, v :| 0 <= u < v < |b| && b[u] == a[i] && b[v] == a[j];
      assert Precedes(c, b[u], b[v]);
    }
  }

  lemma PrecedesSnoc(rows: seq<Row>, r: Row)
    ensures forall x, y :: Precedes(rows, x, y) ==> Precedes(rows + [r], x, y)
    ensures forall x :: x in rows ==> Precedes(rows + [r], x, r)
  {
    var more := rows + [r];
    forall x, y | Precedes(rows, x, y) ensures Precedes(more, x, y) {
      var u, v :| 0 <= u < v < |rows| && rows[u] == x && rows[v] == y;
      assert more[u] == x && more[v] == y;
    }
    forall x | x in rows ensures Precedes(more, x, r) {
      var u :| 0 <= u < |rows| && rows[u] == x;
      assert more[u] == x && more[|rows|] == r;
    }
  }

  /** A list in order stays so when the whole grows, and may take the new end. */
  lemma InOrderSnoc(part: seq<Row>, whole: seq<Row>, r: Row)
    requires InOrder(part, whole) && forall x :: x in part ==> x in whole
    ensures InOrder(part, whole + [r]) && InOrder(part + [r], whole + [r])
  {
    PrecedesSnoc(whole, r);
  }

  lemma {:induction false} UnclaimedInOrder(rows: seq<Row>, consumed: set<nat>)
    ensures InOrder(Unclaimed(rows, consumed), rows)
  {
    if rows != [] {
      var n := |rows| - 1;
      TakeNext(rows, n);
      TakeAll(rows);
      UnclaimedInOrder(rows[..n], consumed);
      UnclaimedElems(rows[..n], consumed);
      InOrderSnoc(Unclaimed(rows[..n], consumed), rows[..n], rows[n]);
    }
  }

  /** In order, and all of it from the whole. */
  ghost predicate Within(part: seq<Row>, whole: seq<Row>) {
    InOrder(part, whole) && forall x :: x in part ==> x in whole
  }

  /** Over a sweep, what stays available is in order. */
  lemma {:induction false} AvailInOrder(rule: Rule, identity: Option<Msisdn>, ones: seq<Row>, p: Pass)
    ensures InOrder(Sweep(rule, identity, ones, p).avail, p.avail)
  {
    if ones == [] {
      WholeInOrder(p.avail);
    } else {
      var o := ones[0];
      var q := Step(rule, identity, o, p);
      SettleInOrder(rule, o, Decide(rule, identity, o, p.avail), p);
      AvailInOrder(rule, identity, ones[1..], q);
      InOrderTrans(Sweep(rule, identity, ones, p).avail, q.avail, p.avail);
    }
  }

  /** And so is what is kept, `done` being the records gone through before. */
  lemma {:induction false} StillInOrder(rule: Rule, identity: Option<Msisdn>, ones: seq<Row>, p: Pass, done: seq<Row>)
    requires Within(p.still, done)
    ensures Within(Sweep(rule, identity, ones, p).still, done + ones)
    decreases ones
  {
    if ones == [] {
      assert done + ones == done;
    } else {
      var o := ones[0];
      KeptInOrder(rule, o, Decide(rule, identity, o, p.avail), p, done);
      StillInOrder(rule, identity, ones[1..], Step(rule, identity, o, p), done + [o]);
      assert (done + [o]) + ones[1..] == done + ones;
    }
  }

  lemma WholeInOrder(rows: seq<Row>)
    ensures InOrder(rows, rows)
  {
  }

  lemma SettleInOrder(rule: Rule, o: Row, d: Decision, p: Pass)
    ensures InOrder(Settle(rule, o, d, p).avail, p.avail)
  {
    WholeInOrder(p.avail);
    if d.Claim? {
      UnclaimedInOrder(p.avail, Ids(d.members));
    }
  }

  lemma KeptInOrder(rule: Rule, o: Row, d: Decision, p: Pass, done: seq<Row>)
    requires Within(p.still, done)
    ensures Within(Settle(rule, o, d, p).still, done + [o])
  {
    InOrderSnoc(p.still, done, o);
  }

  lemma ApplyInOrder(rule: Rule, identity: Option<Msisdn>, b: Board)
    ensures var c := Apply(rule, identity, b); InOrder(c.left, b.left) && InOrder(c.right, b.right)
  {
    var ones := SideRows(b, OneSide(rule));
    AvailInOrder(rule, identity, ones, StartPass(rule, b));
    StillInOrder(rule, identity, ones, StartPass(rule, b), []);
    assert [] + ones == ones;
  }

  /** After any rules, what is left on either side is in the order it came in: so
      each rule takes the records of its one side in that order. */
  lemma {:induction false} RunInOrder(keys: seq<Rule>, identity: Option<Msisdn>, b: Board)
    ensures var c := Run(keys, identity, b); InOrder(c.left, b.left) && InOrder(c.right, b.right)
  {
    WholeInOrder(b.left);
    WholeInOrder(b.right);
    if keys != [] && b.left != [] && b.right != [] {
      var next := Apply(keys[0], identity, b);
      ApplyInOrder(keys[0], identity, b);
      RunInOrder(keys[1..], identity, next);
      InOrderTrans(Run(keys, identity, b).left, next.left, b.left);
      InOrderTrans(Run(keys, identity, b).right, next.right, b.right);
    }
  }

  /** And what is unclaimed at a moment is too. */
  lemma MomentInOrder(keys: seq<Rule>, identity: Option<Msisdn>, b: Board, i: nat, n: nat)
    requires i < |keys| && n <= |SideRows(Run(keys[..i], identity, b), OneSide(keys[i]))|
    ensures InOrder(Moment(keys, identity, b, i, n).avail, SideRows(b, OneSide(keys[i]).Other()))
  {
    var c, rule := Run(keys[..i], identity, b), keys[i];
    RunInOrder(keys[..i], identity, b);
    AvailInOrder(rule, identity, SideRows(c, OneSide(rule))[..n], StartPass(rule, c));
    InOrderTrans(Moment(keys, identity, b, i, n).avail, SideRows(c, OneSide(rule).Other()),
                 SideRows(b, OneSide(rule).Other()));
  }

  lemma {:induction false} SplitInOrder(rows: seq<Row>, timestamp: Option<Path>, counterpart: Option<Coverage>,
                                        read: bool)
    ensures InOrder(Split(rows, timestamp, counterpart, read), rows)
  {
    if rows != [] {
      var n := |rows| - 1;
      TakeNext(rows, n);
      TakeAll(rows);
      SplitInOrder(rows[..n], timestamp, counterpart, read);
      forall x | x in Split(rows[..n], timestamp, counterpart, read) ensures x in rows[..n] {
        SplitElems(rows[..n], timestamp, counterpart, read, x);
      }
      InOrderSnoc(Split(rows[..n], timestamp, counterpart, read), rows[..n], rows[n]);
    }
  }

  /** The four lists of leftovers are in the order the records came in. */
  lemma LeftoversInOrder(spec: Reconciliation, left: seq<Row>, right: seq<Row>, lc: Option<Coverage>,
                         rc: Option<Coverage>)
    ensures var res := Reconcile(spec, left, right, lc, rc);
            && InOrder(res.unmatchedLeft, left) && InOrder(res.unverifiableLeft, left)
            && InOrder(res.unmatchedRight, right) && InOrder(res.unverifiableRight, right)
  {
    var c := Run(spec.keys, spec.identity, Opening(left, right));
    var (leftTs, rightTs) := TimestampPaths(spec.keys);
    RunInOrder(spec.keys, spec.identity, Opening(left, right));
    forall read: bool ensures InOrder(Split(c.left, leftTs, rc, read), left) {
      SplitInOrder(c.left, leftTs, rc, read);
      InOrderTrans(Split(c.left, leftTs, rc, read), c.left, left);
    }
    forall read: bool ensures InOrder(Split(c.right, rightTs, lc, read), right) {
      SplitInOrder(c.right, rightTs, lc, read);
      InOrderTrans(Split(c.right, rightTs, lc, read), c.right, right);
    }
  }

  // ── which record an ExactRef rule pairs ──

  lemma FirstPrecedes(avail: seq<Row>, p: Row -> bool, m: Row, whole: seq<Row>)
    requires FirstOf(avail, p, m) && InOrder(avail, whole)
    ensures m in avail && p(m) && forall x :: x in avail && p(x) && x != m ==> Precedes(whole, m, x)
  {
    var i :| 0 <= i < |avail| && avail[i] == m && p(m) && forall j :: 0 <= j < i ==> !p(avail[j]);
    forall x | x in avail && p(x) && x != m ensures Precedes(whole, m, x) {
      var j :| 0 <= j < |avail| && avail[j] == x;
      assert i < j;
    }
  }

  /** An ExactRef pair carries one reference on both sides, and its right record is
      the first, in the order they came in, of those unclaimed at that moment that
      carry it. */
  lemma ExactPairsTakeFirst(spec: Reconciliation, left: seq<Row>, right: seq<Row>, lc: Option<Coverage>,
                            rc: Option<Coverage>, k: nat)
    returns (rule: Rule, o: Row, avail: seq<Row>, j: nat)
    requires Distinct(left) && Distinct(right) && k < |Reconcile(spec, left, right, lc, rc).matched|
    requires Reconcile(spec, left, right, lc, rc).matched[k].rule == ExactKind
    ensures rule in spec.keys && rule.ExactRef?
    ensures var res := Reconcile(spec, left, right, lc, rc);
            j <= |res.ambiguous| && UnclaimedThen(res, left, right, RightSide, avail, k, j)
    ensures var p := Reconcile(spec, left, right, lc, rc).matched[k];
            && p.left == Single(o) && p.right.Single? && p.right.row in avail
            && OneRef(rule.left, rule.right, rule.caseSensitive, o, p.right.row)
            && forall m :: m in avail && OneRef(rule.left, rule.right, rule.caseSensitive, o, m) && m != p.right.row ==>
                 Precedes(right, p.right.row, m)
  {
    var i: nat, n: nat;
    rule, o, avail, i, n, j := PairWasClaimed(spec, left, right, lc, rc, k);
    MomentInOrder(spec.keys, spec.identity, Opening(left, right), i, n);
    ExactClaim(rule, spec.identity, o, avail, right, Reconcile(spec, left, right, lc, rc).matched[k]);
  }

  lemma ExactClaim(rule: Rule, identity: Option<Msisdn>, o: Row, avail: seq<Row>, whole: seq<Row>, p: Pairing)
    requires Claims(rule, identity, o, avail, p) && p.rule == ExactKind
    requires rule.ExactRef? ==> InOrder(avail, whole)
    ensures rule.ExactRef? && p.left == Single(o) && p.right.Single? && p.right.row in avail
    ensures OneRef(rule.left, rule.right, rule.caseSensitive, o, p.right.row)
    ensures forall m :: m in avail && OneRef(rule.left, rule.right, rule.caseSensitive, o, m) && m != p.right.row ==>
              Precedes(whole, p.right.row, m)
  {
    ExactTakesFirst(rule, identity, o, avail);
    FirstPrecedes(avail, m => OneRef(rule.left, rule.right, rule.caseSensitive, o, m), p.right.row, whole);
  }
}
