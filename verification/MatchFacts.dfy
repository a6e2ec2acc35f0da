/** What holds after any list of rules has run: every record is accounted for
    once, no two records left over could still answer each other, and each
    pair holds only records its rule admits. */
module MatchFacts {
  import opened Prelude
  import opened Rows
  import opened Declaration
  import opened Matching
  import opened GroupSums

  // ── what one decision guarantees ──

  /** Nothing in `rows` answers `o` under this rule: no record alone, and for
      GroupSum no group. */
  ghost predicate NoPartner(rule: Rule, identity: Option<Msisdn>, o: Row, rows: set<Row>) {
    if rule.GroupSum? then forall s: set<Row> :: s <= rows ==> !Fitting(rule, identity, o, s)
    else forall m :: m in rows ==> !Admits(rule, identity, o, m)
  }

  lemma ClaimIsSound(rule: Rule, identity: Option<Msisdn>, o: Row, avail: seq<Row>)
    requires Distinct(avail) && Decide(rule, identity, o, avail).Claim?
    ensures var members := Decide(rule, identity, o, avail).members;
            && members != [] && Distinct(members)
            && (forall m :: m in members ==> m in avail && Admits(rule, identity, o, m))
  {
    PoolElems(rule, identity, o, avail);
    if rule.GroupSum? {
      SumClaimIsSound(rule, identity, o, avail);
    }
  }

  lemma SumClaimIsSound(rule: Rule, identity: Option<Msisdn>, o: Row, avail: seq<Row>)
    requires rule.GroupSum? && Distinct(avail) && Decide(rule, identity, o, avail).Claim?
    ensures var members := Decide(rule, identity, o, avail).members;
            && members != [] && Distinct(members)
            && (forall m :: m in members ==> m in Pool(rule, identity, o, avail))
  {
    var members, pool := Decide(rule, identity, o, avail).members, Pool(rule, identity, o, avail);
    var g := GatherAll(SharingOf(rule), SumGoal(rule, o), pool);
    PoolElems(rule, identity, o, avail);
    ListedElems(pool, g.fits[0]);
    GroupSumIsForced(rule, identity, o, avail);
    assert Elems(members) in AllFitting(rule, identity, o, avail);
    var m :| m in Elems(members);
    assert m in members;
  }

  lemma MissIsSound(rule: Rule, identity: Option<Msisdn>, o: Row, avail: seq<Row>)
    requires Distinct(avail) && Decide(rule, identity, o, avail).Miss?
    ensures NoPartner(rule, identity, o, Elems(avail))
  {
    PoolElems(rule, identity, o, avail);
    if rule.GroupSum? {
      GroupSumIsForced(rule, identity, o, avail);
      forall s: set<Row> | s <= Elems(avail) ensures !Fitting(rule, identity, o, s) {
        assert s !in AllFitting(rule, identity, o, avail);
      }
    }
  }

  // ── accounting: where each record has gone ──

  ghost function MatchedRows(matched: seq<Pairing>, side: Side): multiset<Row> {
    if matched == [] then multiset{}
    else
      var n := |matched| - 1;
      MatchedRows(matched[..n], side) + multiset(PartyRows(PartyOn(matched[n], side)))
  }

  ghost function OpenRows(ambiguous: seq<Ambiguity>, side: Side): multiset<Row> {
    if ambiguous == [] then multiset{}
    else
      var n := |ambiguous| - 1;
      OpenRows(ambiguous[..n], side) + if ambiguous[n].side == side then multiset{ambiguous[n].record} else multiset{}
  }

  lemma MatchedRowsSnoc(matched: seq<Pairing>, p: Pairing, side: Side)
    ensures MatchedRows(matched + [p], side) == MatchedRows(matched, side) + multiset(PartyRows(PartyOn(p, side)))
  {
    assert (matched + [p])[..|matched|] == matched;
  }

  lemma OpenRowsSnoc(ambiguous: seq<Ambiguity>, a: Ambiguity, side: Side)
    ensures OpenRows(ambiguous + [a], side)
         == OpenRows(ambiguous, side) + if a.side == side then multiset{a.record} else multiset{}
  {
    assert (ambiguous + [a])[..|ambiguous|] == ambiguous;
  }

  /** Everything a pass holds of the one side and of the many side. */
  ghost function OnesHeld(p: Pass, one: Side): multiset<Row> {
    multiset(p.still) + MatchedRows(p.matched, one) + OpenRows(p.ambiguous, one)
  }

  ghost function ManyHeld(p: Pass, one: Side): multiset<Row> {
    multiset(p.avail) + MatchedRows(p.matched, one.Other()) + OpenRows(p.ambiguous, one.Other())
  }

  /** A claim the pass can honour: distinct available records. */
  ghost predicate Honest(d: Decision, avail: seq<Row>) {
    d.Claim? ==> d.members != [] && Distinct(d.members) && forall m :: m in d.members ==> m in avail
  }

  lemma PairRows(one: Row, members: seq<Row>, oneSide: Side, rule: Kind)
    requires members != []
    ensures PartyRows(PartyOn(Pair(one, members, oneSide, rule), oneSide)) == [one]
    ensures PartyRows(PartyOn(Pair(one, members, oneSide, rule), oneSide.Other())) == members
  {
  }

  lemma ClaimAccounts(rule: Rule, o: Row, members: seq<Row>, p: Pass)
    requires Distinct(p.avail) && Honest(Claim(members), p.avail)
    ensures var q, one := Settle(rule, o, Claim(members), p), OneSide(rule);
            && OnesHeld(q, one) == OnesHeld(p, one) + multiset{o}
            && ManyHeld(q, one) == ManyHeld(p, one)
  {
    var one, pair := OneSide(rule), Pair(o, members, OneSide(rule), KindOf(rule));
    ClaimSplits(p.avail, members);
    PairRows(o, members, one, KindOf(rule));
    MatchedRowsSnoc(p.matched, pair, one);
    MatchedRowsSnoc(p.matched, pair, one.Other());
    assert multiset([o]) == multiset{o};
    Swap(multiset(Unclaimed(p.avail, Ids(members))), multiset(members),
         MatchedRows(p.matched, one.Other()), OpenRows(p.ambiguous, one.Other()));
    Insert(multiset(p.still), MatchedRows(p.matched, one), OpenRows(p.ambiguous, one), o);
  }

  lemma Swap(a: multiset<Row>, b: multiset<Row>, c: multiset<Row>, d: multiset<Row>)
    ensures a + (c + b) + d == (a + b) + c + d
  {
  }

  lemma Insert(a: multiset<Row>, b: multiset<Row>, c: multiset<Row>, o: Row)
    ensures a + (b + multiset{o}) + c == (a + b + c) + multiset{o}
    ensures a + b + (c + multiset{o}) == (a + b + c) + multiset{o}
    ensures (a + multiset{o}) + b + c == (a + b + c) + multiset{o}
  {
  }

  lemma SettleAccounts(rule: Rule, o: Row, d: Decision, p: Pass)
    requires Distinct(p.avail) && Honest(d, p.avail)
    ensures var q, one := Settle(rule, o, d, p), OneSide(rule);
            && OnesHeld(q, one) == OnesHeld(p, one) + multiset{o}
            && ManyHeld(q, one) == ManyHeld(p, one)
  {
    var one := OneSide(rule);
    match d
    case Claim(members) =>
      ClaimAccounts(rule, o, members, p);
    case Open(candidates, alternatives) =>
      var a := Ambiguity(o, candidates, KindOf(rule), one, alternatives);
      OpenRowsSnoc(p.ambiguous, a, one);
      OpenRowsSnoc(p.ambiguous, a, one.Other());
      Insert(multiset(p.still), MatchedRows(p.matched, one), OpenRows(p.ambiguous, one), o);
    case Miss =>
      assert multiset(p.still + [o]) == multiset(p.still) + multiset{o};
      Insert(multiset(p.still), MatchedRows(p.matched, one), OpenRows(p.ambiguous, one), o);
  }

  /** Recording a decision only shrinks what is available and keeps at most
      the record decided. */
  lemma SettleShrinks(rule: Rule, o: Row, d: Decision, p: Pass)
    ensures var q := Settle(rule, o, d, p);
            && Elems(q.avail) <= Elems(p.avail)
            && multiset(q.still) <= multiset(p.still) + multiset{o}
            && (Distinct(p.avail) ==> Distinct(q.avail))
  {
    if d.Claim? {
      UnclaimedElems(p.avail, Ids(d.members));
    }
  }

  lemma StepAccounts(rule: Rule, identity: Option<Msisdn>, o: Row, p: Pass)
    requires Distinct(p.avail)
    ensures var q, one := Step(rule, identity, o, p), OneSide(rule);
            && OnesHeld(q, one) == OnesHeld(p, one) + multiset{o}
            && ManyHeld(q, one) == ManyHeld(p, one)
  {
    var d := Decide(rule, identity, o, p.avail);
    if d.Claim? {
      ClaimIsSound(rule, identity, o, p.avail);
    }
    SettleAccounts(rule, o, d, p);
  }

  lemma Chain(a: multiset<Row>, b: multiset<Row>, c: multiset<Row>, o: Row, ones: seq<Row>)
    requires ones != [] && o == ones[0]
    requires b == a + multiset{o} && c == b + multiset(ones[1..])
    ensures c == a + multiset(ones)
  {
    assert ones == [o] + ones[1..];
  }

  lemma {:induction false} SweepAccounts(rule: Rule, identity: Option<Msisdn>, ones: seq<Row>, p: Pass)
    requires Distinct(p.avail)
    ensures var q, one := Sweep(rule, identity, ones, p), OneSide(rule);
            && OnesHeld(q, one) == OnesHeld(p, one) + multiset(ones)
            && ManyHeld(q, one) == ManyHeld(p, one)
  {
    if ones != [] {
      var o, rest := ones[0], ones[1..];
      StepAccounts(rule, identity, o, p);
      SettleShrinks(rule, o, Decide(rule, identity, o, p.avail), p);
      var q, r, one := Step(rule, identity, o, p), Sweep(rule, identity, ones, p), OneSide(rule);
      SweepAccounts(rule, identity, rest, q);
      Chain(OnesHeld(p, one), OnesHeld(q, one), OnesHeld(r, one), o, ones);
    }
  }

  // ── what is left stays unanswerable ──

  /** The records kept so far have no partner among the records now left. */
  ghost predicate KeptAlone(rule: Rule, identity: Option<Msisdn>, p: Pass) {
    forall o :: o in p.still ==> NoPartner(rule, identity, o, Elems(p.avail))
  }

  lemma NoPartnerShrinks(rule: Rule, identity: Option<Msisdn>, o: Row, rows: set<Row>, fewer: set<Row>)
    requires NoPartner(rule, identity, o, rows) && fewer <= rows
    ensures NoPartner(rule, identity, o, fewer)
  {
  }

  lemma StepKeepsAlone(rule: Rule, identity: Option<Msisdn>, o: Row, p: Pass)
    requires Distinct(p.avail) && KeptAlone(rule, identity, p)
    ensures KeptAlone(rule, identity, Step(rule, identity, o, p))
  {
    var d := Decide(rule, identity, o, p.avail);
    var q := Settle(rule, o, d, p);
    SettleShrinks(rule, o, d, p);
    forall k | k in q.still ensures NoPartner(rule, identity, k, Elems(q.avail)) {
      if k !in p.still {
        MissIsSound(rule, identity, o, p.avail);
      }
      NoPartnerShrinks(rule, identity, k, Elems(p.avail), Elems(q.avail));
    }
  }

  lemma {:induction false} SweepKeepsAlone(rule: Rule, identity: Option<Msisdn>, ones: seq<Row>, p: Pass)
    requires Distinct(p.avail) && KeptAlone(rule, identity, p)
    ensures KeptAlone(rule, identity, Sweep(rule, identity, ones, p))
  {
    if ones != [] {
      var o := ones[0];
      StepKeepsAlone(rule, identity, o, p);
      SettleShrinks(rule, o, Decide(rule, identity, o, p.avail), p);
      SweepKeepsAlone(rule, identity, ones[1..], Step(rule, identity, o, p));
    }
  }

  lemma {:induction false} SweepShrinks(rule: Rule, identity: Option<Msisdn>, ones: seq<Row>, p: Pass)
    ensures var q := Sweep(rule, identity, ones, p);
            && Elems(q.avail) <= Elems(p.avail)
            && multiset(q.still) <= multiset(p.still) + multiset(ones)
            && (Distinct(p.avail) ==> Distinct(q.avail))
  {
    if ones != [] {
      var o, rest := ones[0], ones[1..];
      SettleShrinks(rule, o, Decide(rule, identity, o, p.avail), p);
      SweepShrinks(rule, identity, rest, Step(rule, identity, o, p));
      assert multiset(ones) == multiset{o} + multiset(rest) by {
        assert ones == [o] + rest;
      }
    }
  }

  lemma SubElems(s: seq<Row>, t: seq<Row>)
    requires multiset(s) <= multiset(t)
    ensures Elems(s) <= Elems(t)
  {
    forall r | r in s ensures r in t {
      assert r in multiset(s);
    }
  }

  // ── the board ──

  ghost predicate Sound(b: Board) {
    Distinct(b.left) && Distinct(b.right)
  }

  ghost function Held(b: Board, side: Side): multiset<Row> {
    multiset(SideRows(b, side)) + MatchedRows(b.matched, side) + OpenRows(b.ambiguous, side)
  }

  /** No record left on the board has a partner left under this rule. */
  ghost predicate Settled(rule: Rule, identity: Option<Msisdn>, b: Board) {
    forall o :: o in SideRows(b, OneSide(rule)) ==>
                  NoPartner(rule, identity, o, Elems(SideRows(b, OneSide(rule).Other())))
  }

  ghost function StartPass(rule: Rule, b: Board): Pass {
    Pass(b.matched, b.ambiguous, [], SideRows(b, OneSide(rule).Other()))
  }

  lemma ApplyAccounts(rule: Rule, identity: Option<Msisdn>, b: Board, side: Side)
    requires Sound(b)
    ensures Held(Apply(rule, identity, b), side) == Held(b, side)
  {
    var one := OneSide(rule);
    var ones, p := SideRows(b, one), StartPass(rule, b);
    SweepAccounts(rule, identity, ones, p);
    var q := Sweep(rule, identity, ones, p);
    if side == one {
      assert Held(Apply(rule, identity, b), side) == OnesHeld(q, one);
      assert OnesHeld(p, one) + multiset(ones) == Held(b, side);
    } else {
      assert side == one.Other();
      assert Held(Apply(rule, identity, b), side) == ManyHeld(q, one);
      assert ManyHeld(p, one) == Held(b, side);
    }
  }

  lemma ApplyShrinks(rule: Rule, identity: Option<Msisdn>, b: Board)
    requires Sound(b)
    ensures var c := Apply(rule, identity, b);
            && Sound(c)
            && Elems(c.left) <= Elems(b.left) && Elems(c.right) <= Elems(b.right)
  {
    var one := OneSide(rule);
    var ones, p := SideRows(b, one), StartPass(rule, b);
    SweepShrinks(rule, identity, ones, p);
    var q := Sweep(rule, identity, ones, p);
    SubDistinct(q.still, ones);
    SubElems(q.still, ones);
  }

  lemma ApplySettles(rule: Rule, identity: Option<Msisdn>, b: Board)
    requires Sound(b)
    ensures Settled(rule, identity, Apply(rule, identity, b))
  {
    SweepKeepsAlone(rule, identity, SideRows(b, OneSide(rule)), StartPass(rule, b));
  }

  lemma SettledStays(rule: Rule, identity: Option<Msisdn>, b: Board, c: Board)
    requires Settled(rule, identity, b)
    requires Elems(c.left) <= Elems(b.left) && Elems(c.right) <= Elems(b.right)
    ensures Settled(rule, identity, c)
  {
    var one := OneSide(rule);
    assert Elems(SideRows(c, one.Other())) <= Elems(SideRows(b, one.Other()));
    forall o | o in SideRows(c, one)
      ensures NoPartner(rule, identity, o, Elems(SideRows(c, one.Other())))
    {
      assert o in Elems(SideRows(b, one));
    }
  }

  lemma EmptySideSettles(rule: Rule, identity: Option<Msisdn>, b: Board)
    requires b.left == [] || b.right == []
    ensures Settled(rule, identity, b)
  {
  }

  /** Nothing is lost or counted twice, and what is left only shrinks. */
  lemma {:induction false} RunHolds(keys: seq<Rule>, identity: Option<Msisdn>, b: Board)
    requires Sound(b)
    ensures var c := Run(keys, identity, b);
            && Sound(c)
            && Held(c, LeftSide) == Held(b, LeftSide) && Held(c, RightSide) == Held(b, RightSide)
            && Elems(c.left) <= Elems(b.left) && Elems(c.right) <= Elems(b.right)
  {
    if keys != [] && b.left != [] && b.right != [] {
      ApplyAccounts(keys[0], identity, b, LeftSide);
      ApplyAccounts(keys[0], identity, b, RightSide);
      ApplyShrinks(keys[0], identity, b);
      RunHolds(keys[1..], identity, Apply(keys[0], identity, b));
    }
  }

  /** Every rule, even one the early stop skipped, is settled at the end. */
  lemma {:induction false} RunSettles(keys: seq<Rule>, identity: Option<Msisdn>, b: Board, rule: Rule)
    requires Sound(b) && rule in keys
    ensures Settled(rule, identity, Run(keys, identity, b))
  {
    if b.left == [] || b.right == [] {
      EmptySideSettles(rule, identity, b);
    } else {
      var next := Apply(keys[0], identity, b);
      ApplyShrinks(keys[0], identity, b);
      if rule == keys[0] {
        ApplySettles(rule, identity, b);
        RunHolds(keys[1..], identity, next);
        SettledStays(rule, identity, next, Run(keys[1..], identity, next));
      } else {
        assert keys == [keys[0]] + keys[1..];
        RunSettles(keys[1..], identity, next, rule);
      }
    }
  }

  /** The run as a whole. */
  lemma RunKeeps(keys: seq<Rule>, identity: Option<Msisdn>, b: Board)
    requires Sound(b)
    ensures var c := Run(keys, identity, b);
            && Sound(c)
            && Held(c, LeftSide) == Held(b, LeftSide) && Held(c, RightSide) == Held(b, RightSide)
            && Elems(c.left) <= Elems(b.left) && Elems(c.right) <= Elems(b.right)
            && forall rule :: rule in keys ==> Settled(rule, identity, c)
  {
    RunHolds(keys, identity, b);
    forall rule | rule in keys ensures Settled(rule, identity, Run(keys, identity, b)) {
      RunSettles(keys, identity, b, rule);
    }
  }

  // ── the moment a pair was made ──

  /** Where a run stands after rules `..i` and the first `n` records of the next
      rule's one side: what is matched and open so far, and what is still
      unclaimed on its many side. */
  ghost function Moment(keys: seq<Rule>, identity: Option<Msisdn>, b: Board, i: nat, n: nat): Pass
    requires i < |keys| && n <= |SideRows(Run(keys[..i], identity, b), OneSide(keys[i]))|
  {
    var c := Run(keys[..i], identity, b);
    Sweep(keys[i], identity, SideRows(c, OneSide(keys[i]))[..n], StartPass(keys[i], c))
  }

  /** The `k`-th pair is what rule `i` claimed for the `n`-th record it came to,
      out of the records unclaimed at that moment. */
  ghost predicate MadeAt(keys: seq<Rule>, identity: Option<Msisdn>, b: Board, k: nat, i: nat, n: nat) {
    && i < |keys|
    && var c, rule := Run(keys[..i], identity, b), keys[i];
    && n < |SideRows(c, OneSide(rule))|
    && k < |Run(keys, identity, b).matched|
    && var p, o := Moment(keys, identity, b, i, n), SideRows(c, OneSide(rule))[n];
    && p.matched == Run(keys, identity, b).matched[..k]
    && p.ambiguous <= Run(keys, identity, b).ambiguous
    && Claims(rule, identity, o, p.avail, Run(keys, identity, b).matched[k])
  }

  /** `made` is the rule's claim for `o` on these records. */
  ghost predicate Claims(rule: Rule, identity: Option<Msisdn>, o: Row, avail: seq<Row>, made: Pairing) {
    var d := Decide(rule, identity, o, avail);
    d.Claim? && made == Pair(o, d.members, OneSide(rule), KindOf(rule))
  }

  lemma SettleExtends(rule: Rule, o: Row, d: Decision, p: Pass)
    ensures var q := Settle(rule, o, d, p); p.matched <= q.matched && p.ambiguous <= q.ambiguous
    ensures var q := Settle(rule, o, d, p); |q.matched| == |p.matched| + if d.Claim? then 1 else 0
  {
  }

  /** A sweep only adds to what is matched and open. */
  lemma {:induction false} SweepExtends(rule: Rule, identity: Option<Msisdn>, ones: seq<Row>, p: Pass)
    ensures var q := Sweep(rule, identity, ones, p); p.matched <= q.matched && p.ambiguous <= q.ambiguous
  {
    if ones != [] {
      SettleExtends(rule, ones[0], Decide(rule, identity, ones[0], p.avail), p);
      SweepExtends(rule, identity, ones[1..], Step(rule, identity, ones[0], p));
    }
  }

  lemma {:induction false} RunExtends(keys: seq<Rule>, identity: Option<Msisdn>, b: Board)
    ensures b.matched <= Run(keys, identity, b).matched && b.ambiguous <= Run(keys, identity, b).ambiguous
  {
    if keys != [] && b.left != [] && b.right != [] {
      SweepExtends(keys[0], identity, SideRows(b, OneSide(keys[0])), StartPass(keys[0], b));
      RunExtends(keys[1..], identity, Apply(keys[0], identity, b));
    }
  }

  /** A sweep is its first record and then the rest, from the front or stopped
      part of the way. */
  lemma SweepFirst(rule: Rule, identity: Option<Msisdn>, ones: seq<Row>, p: Pass, n: nat)
    requires 0 < n <= |ones|
    ensures Sweep(rule, identity, ones[..n], p)
           == Sweep(rule, identity, ones[1..][..n - 1], Step(rule, identity, ones[0], p))
  {
    assert ones[..n][1..] == ones[1..][..n - 1];
  }

  /** The `k`-th pair of a sweep was claimed for its `n`-th record, when the pairs
      before it were all there were. */
  ghost predicate SweptAt(rule: Rule, identity: Option<Msisdn>, ones: seq<Row>, p: Pass, k: nat, n: nat) {
    && n < |ones| && k < |Sweep(rule, identity, ones, p).matched|
    && var all, q := Sweep(rule, identity, ones, p), Sweep(rule, identity, ones[..n], p);
    && q.matched == all.matched[..k] && q.ambiguous <= all.ambiguous
    && Claims(rule, identity, ones[n], q.avail, all.matched[k])
  }

  /** Each pair a sweep adds has its record. */
  lemma {:induction false} SweepMade(rule: Rule, identity: Option<Msisdn>, ones: seq<Row>, p: Pass, k: nat)
    returns (n: nat)
    requires |p.matched| <= k < |Sweep(rule, identity, ones, p).matched|
    ensures SweptAt(rule, identity, ones, p, k, n)
  {
    var o := ones[0];
    var d, q := Decide(rule, identity, o, p.avail), Step(rule, identity, o, p);
    SettleExtends(rule, o, d, p);
    if k < |q.matched| {
      n := 0;
      SweptFirst(rule, identity, ones, p);
    } else {
      var m := SweepMade(rule, identity, ones[1..], q, k);
      n := m + 1;
      SweptLater(rule, identity, ones, p, k, m);
    }
  }

  lemma SweptFirst(rule: Rule, identity: Option<Msisdn>, ones: seq<Row>, p: Pass)
    requires ones != [] && Decide(rule, identity, ones[0], p.avail).Claim?
    ensures SweptAt(rule, identity, ones, p, |p.matched|, 0)
  {
    SweepExtends(rule, identity, ones[1..], Step(rule, identity, ones[0], p));
    SettleExtends(rule, ones[0], Decide(rule, identity, ones[0], p.avail), p);
    assert ones[..0] == [];
  }

  lemma SweptLater(rule: Rule, identity: Option<Msisdn>, ones: seq<Row>, p: Pass, k: nat, m: nat)
    requires ones != [] && SweptAt(rule, identity, ones[1..], Step(rule, identity, ones[0], p), k, m)
    ensures SweptAt(rule, identity, ones, p, k, m + 1)
  {
    SweepFirst(rule, identity, ones, p, m + 1);
  }

  /** Rules `..i` of the whole list are the first rule and rules `..i - 1` of the
      rest. */
  lemma RunFirst(keys: seq<Rule>, identity: Option<Msisdn>, b: Board, i: nat)
    requires 0 < i <= |keys| && b.left != [] && b.right != []
    ensures Run(keys[..i], identity, b) == Run(keys[1..][..i - 1], identity, Apply(keys[0], identity, b))
  {
    assert keys[..i][1..] == keys[1..][..i - 1];
  }

  /** Every pair of a run has the moment it was made at. */
  lemma {:induction false} RunMade(keys: seq<Rule>, identity: Option<Msisdn>, b: Board, k: nat) returns (i: nat, n: nat)
    requires |b.matched| <= k < |Run(keys, identity, b).matched|
    ensures MadeAt(keys, identity, b, k, i, n)
  {
    var rule, next := keys[0], Apply(keys[0], identity, b);
    if k < |next.matched| {
      i := 0;
      n := SweepMade(rule, identity, SideRows(b, OneSide(rule)), StartPass(rule, b), k);
      MadeFirst(keys, identity, b, k, n);
    } else {
      var j;
      j, n := RunMade(keys[1..], identity, next, k);
      i := j + 1;
      MadeLater(keys, identity, b, k, j, n);
    }
  }

  lemma MadeFirst(keys: seq<Rule>, identity: Option<Msisdn>, b: Board, k: nat, n: nat)
    requires keys != [] && b.left != [] && b.right != []
    requires SweptAt(keys[0], identity, SideRows(b, OneSide(keys[0])), StartPass(keys[0], b), k, n)
    ensures MadeAt(keys, identity, b, k, 0, n)
  {
    RunExtends(keys[1..], identity, Apply(keys[0], identity, b));
    assert keys[..0] == [];
  }

  lemma MadeLater(keys: seq<Rule>, identity: Option<Msisdn>, b: Board, k: nat, j: nat, n: nat)
    requires keys != [] && b.left != [] && b.right != []
    requires MadeAt(keys[1..], identity, Apply(keys[0], identity, b), k, j, n)
    ensures MadeAt(keys, identity, b, k, j + 1, n)
  {
    RunFirst(keys, identity, b, j + 1);
    assert keys[1..][j] == keys[j + 1];
  }

  /** The records unclaimed at a moment: together with those matched and asked
      about until then they are the whole of that side. */
  lemma MomentHolds(keys: seq<Rule>, identity: Option<Msisdn>, b: Board, i: nat, n: nat)
    requires Sound(b) && i < |keys| && n <= |SideRows(Run(keys[..i], identity, b), OneSide(keys[i]))|
    ensures var p, many := Moment(keys, identity, b, i, n), OneSide(keys[i]).Other();
            && Distinct(p.avail)
            && multiset(p.avail) + MatchedRows(p.matched, many) + OpenRows(p.ambiguous, many) == Held(b, many)
  {
    var c, rule := Run(keys[..i], identity, b), keys[i];
    var ones, start := SideRows(c, OneSide(rule))[..n], StartPass(rule, c);
    RunKeeps(keys[..i], identity, b);
    SweepAccounts(rule, identity, ones, start);
    SweepShrinks(rule, identity, ones, start);
    assert ManyHeld(start, OneSide(rule)) == Held(c, OneSide(rule).Other());
  }

  // ── the three statements, from a fresh board ──

  function Opening(left: seq<Row>, right: seq<Row>): Board {
    Board(left, right, [], [])
  }

  /** Completeness of misses: after the whole rule list, no left and right
      record that both stay unclaimed admit each other under any rule, and no
      group of leftovers sums to a leftover record. */
  lemma MissesAreComplete(keys: seq<Rule>, identity: Option<Msisdn>, left: seq<Row>, right: seq<Row>, rule: Rule)
    requires Distinct(left) && Distinct(right) && rule in keys
    ensures var c := Run(keys, identity, Opening(left, right));
            var ones, many := SideRows(c, OneSide(rule)), SideRows(c, OneSide(rule).Other());
            && (!rule.GroupSum? ==> forall o, m :: o in ones && m in many ==> !Admits(rule, identity, o, m))
            && (rule.GroupSum? ==> forall o, s: set<Row> ::
                  o in ones && s <= Elems(many) ==> !Fitting(rule, identity, o, s))
  {
    RunKeeps(keys, identity, Opening(left, right));
    var c := Run(keys, identity, Opening(left, right));
    assert Settled(rule, identity, c);
    var ones, many := SideRows(c, OneSide(rule)), SideRows(c, OneSide(rule).Other());
    if !rule.GroupSum? {
      forall o, m | o in ones && m in many ensures !Admits(rule, identity, o, m) {
        assert NoPartner(rule, identity, o, Elems(many)) && m in Elems(many);
      }
    }
  }

  /** Partition: each input record ends in exactly one place, once. */
  lemma EveryRecordOnce(keys: seq<Rule>, identity: Option<Msisdn>, left: seq<Row>, right: seq<Row>, side: Side, r: Row)
    requires Distinct(left) && Distinct(right)
    ensures var c := Run(keys, identity, Opening(left, right));
            var input := if side == LeftSide then left else right;
            multiset(SideRows(c, side))[r] + MatchedRows(c.matched, side)[r] + OpenRows(c.ambiguous, side)[r]
            == if r in input then 1 else 0
  {
    var b := Opening(left, right);
    RunKeeps(keys, identity, b);
    DistinctCount(if side == LeftSide then left else right, r);
    assert Held(b, side) == multiset(SideRows(b, side));
    assert Held(Run(keys, identity, b), side)[r] == Held(b, side)[r];
  }
}
