/** What the four match rules decide, stated without their loops: a rule takes
    the records of one side in order, decides each against the other side's
    unclaimed records, and takes what it claims out of play. */
module Matching {
  import opened Prelude
  import opened Rows
  import opened Declaration
  import opened SubsetSearch

  const SECOND: int := 1_000_000  // instants are in microseconds

  datatype Kind = ExactKind | FuzzyKind | GroupRefKind | GroupSumKind

  function KindOf(rule: Rule): Kind {
    match rule
    case ExactRef(_, _, _) => ExactKind
    case Fuzzy(_, _, _, _, _, _, _, _, _, _) => FuzzyKind
    case GroupRef(_, _, _, _, _) => GroupRefKind
    case GroupSum(_, _, _, _, _, _, _, _, _, _, _, _, _) => GroupSumKind
  }

  /** One side of a pair: one record, or several together. */
  datatype Party = Single(row: Row) | Group(members: seq<Row>)

  datatype Pairing = Pairing(left: Party, right: Party, rule: Kind)

  datatype Ambiguity = Ambiguity(record: Row, candidates: seq<Row>, rule: Kind, side: Side, alternatives: seq<seq<Row>>)

  function PartyRows(p: Party): seq<Row> {
    match p
    case Single(row) => [row]
    case Group(members) => members
  }

  function PartyOn(p: Pairing, side: Side): Party {
    if side == LeftSide then p.left else p.right
  }

  /** `_pair`: several members stand as a group, one as itself. */
  function Pair(one: Row, members: seq<Row>, oneSide: Side, rule: Kind): Pairing {
    var many := if |members| == 1 then Single(members[0]) else Group(members);
    if oneSide == LeftSide then Pairing(Single(one), many, rule) else Pairing(many, Single(one), rule)
  }

  // ── who may answer whom ──

  predicate SameKey(a: Option<string>, b: Option<string>) {
    a.Some? && a == b
  }

  ghost predicate InWindow(a: Option<int>, b: Option<int>, span: int) {
    a == None || b == None || Abs(a.value - b.value) <= span
  }

  ghost predicate FuzzyInTime(rule: Rule, l: Row, r: Row)
    requires rule.Fuzzy?
  {
    if rule.lag.Some? then
      var zone := rule.lag.value.timezone;
      LagAdmits(rule.lag.value, Day(l, rule.timestampLeft, zone), Day(r, rule.timestampRight, zone))
    else
      // A zero window is read as one second.
      InWindow(Instant(l, rule.timestampLeft), Instant(r, rule.timestampRight),
               (if rule.window == 0 then 1 else rule.window) * SECOND)
  }

  ghost predicate Viable(rule: Rule, identity: Option<Msisdn>, l: Row, r: Row)
    requires rule.Fuzzy?
  {
    var lMinor, rMinor := Minor(l, rule.amount), Minor(r, rule.amountRight);
    && lMinor.Some? && rMinor.Some?
    && Upper(Currency(l, rule.currency)) == Upper(Currency(r, rule.currencyRight))
    && Abs(rMinor.value - lMinor.value) <= rule.tolerance
    && !IdentityDisagrees(identity, l, r)
    && (forall a :: a in rule.agree ==> !Contradicts(a, l, r))
    && FuzzyInTime(rule, l, r)
  }

  ghost predicate SumInTime(rule: Rule, o: Row, m: Row)
    requires rule.GroupSum?
  {
    if rule.lag.Some? then
      var zone := rule.lag.value.timezone;
      var oDay, mDay := Day(o, rule.timestampOne, zone), Day(m, rule.timestampMany, zone);
      if rule.many == LeftSide then LagAdmits(rule.lag.value, mDay, oDay) else LagAdmits(rule.lag.value, oDay, mDay)
    else
      InWindow(Instant(m, rule.timestampMany), Instant(o, rule.timestampOne), rule.window * SECOND)
  }

  /** Without a lag, a Fuzzy rule holds two records to its window as declared,
      except under a window of zero when they lie apart by up to a second: those
      it still takes as in time. */
  lemma ZeroWindowIff(rule: Rule, l: Row, r: Row)
    requires rule.Fuzzy? && rule.lag == None
    ensures var a, b := Instant(l, rule.timestampLeft), Instant(r, rule.timestampRight);
            (FuzzyInTime(rule, l, r) <==> InWindow(a, b, rule.window * SECOND))
            <==> !(rule.window == 0 && a.Some? && b.Some? && 0 < Abs(a.value - b.value) <= SECOND)
  {
  }

  /** Without a lag, a GroupSum rule holds them to it always: under a window of
      zero, two known instants have to be the same. */
  lemma ZeroSumWindow(rule: Rule, o: Row, m: Row)
    requires rule.GroupSum? && rule.lag == None && rule.window == 0
    ensures var a, b := Instant(m, rule.timestampMany), Instant(o, rule.timestampOne);
            SumInTime(rule, o, m) <==> a == None || b == None || a == b
  {
  }

  /** Two records a second apart, under windows of zero: in time for the one rule,
      not for the other. */
  lemma ASecondApart(fuzzy: Rule, sum: Rule, l: Row, r: Row)
    requires fuzzy.Fuzzy? && sum.GroupSum? && fuzzy.lag == None && sum.lag == None && fuzzy.window == 0
           && sum.window == 0
    requires fuzzy.timestampLeft == "at" && fuzzy.timestampRight == "at"
    requires sum.timestampMany == "at" && sum.timestampOne == "at"
    requires Instant(l, "at") == Some(0) && Instant(r, "at") == Some(SECOND)
    ensures FuzzyInTime(fuzzy, l, r) && !SumInTime(sum, l, r)
  {
  }

  /** May the many-side record `m` answer the one-side record `o`, alone or in
      a group? */
  ghost predicate Admits(rule: Rule, identity: Option<Msisdn>, o: Row, m: Row) {
    match rule
    case ExactRef(left, right, cs) => SameKey(Key(o, left, cs), Key(m, right, cs))
    case Fuzzy(_, _, _, _, _, _, _, _, _, _) => Viable(rule, identity, o, m)
    case GroupRef(left, right, many, cs, _) =>
      if many == RightSide then SameKey(Key(o, left, cs), Key(m, right, cs))
      else SameKey(Key(o, right, cs), Key(m, left, cs))
    case GroupSum(_, _, _, _, _, _, _, _, _, _, _, _, _) =>
      && Minor(o, rule.amountOne).Some? && Minor(m, rule.amount).Some?
      && Upper(Currency(m, rule.currency)) == Upper(Currency(o, rule.currencyOne))
      && SumInTime(rule, o, m)
  }

  ghost function Admitter(rule: Rule, identity: Option<Msisdn>, o: Row): Row -> bool {
    m => Admits(rule, identity, o, m)
  }

  ghost function Filter(p: Row -> bool, rows: seq<Row>): seq<Row> {
    if rows == [] then []
    else
      var n := |rows| - 1;
      Filter(p, rows[..n]) + if p(rows[n]) then [rows[n]] else []
  }

  lemma {:induction false} FilterElems(p: Row -> bool, rows: seq<Row>)
    ensures forall m :: m in Filter(p, rows) <==> m in rows && p(m)
    ensures Distinct(rows) ==> Distinct(Filter(p, rows))
  {
    if rows != [] {
      var n := |rows| - 1;
      FilterElems(p, rows[..n]);
      assert rows == rows[..n] + [rows[n]];
      if Distinct(rows) {
        forall r | r in rows[..n] ensures r.id != rows[n].id {}
      }
    }
  }

  /** The available records that may answer `o`. */
  ghost function Pool(rule: Rule, identity: Option<Msisdn>, o: Row, rows: seq<Row>): seq<Row> {
    Filter(Admitter(rule, identity, o), rows)
  }

  lemma PoolElems(rule: Rule, identity: Option<Msisdn>, o: Row, rows: seq<Row>)
    ensures forall m :: m in Pool(rule, identity, o, rows) <==> m in rows && Admits(rule, identity, o, m)
    ensures Distinct(rows) ==> Distinct(Pool(rule, identity, o, rows))
  {
    FilterElems(Admitter(rule, identity, o), rows);
  }

  // ── share groups and their fitting subsets ──

  function Keyed(share: seq<Path>, pool: seq<Row>, key: seq<string>): seq<Row> {
    if pool == [] then []
    else
      var n := |pool| - 1;
      Keyed(share, pool[..n], key) + if ShareKey(pool[n], share) == key then [pool[n]] else []
  }

  /** The share keys of a pool, in order of first appearance. */
  function KeysOf(share: seq<Path>, pool: seq<Row>): seq<seq<string>> {
    if pool == [] then []
    else
      var n := |pool| - 1;
      var before, key := KeysOf(share, pool[..n]), ShareKey(pool[n], share);
      if key in before then before else before + [key]
  }

  lemma {:induction false} KeyedElems(share: seq<Path>, pool: seq<Row>, key: seq<string>)
    ensures forall m :: m in Keyed(share, pool, key) <==> m in pool && ShareKey(m, share) == key
    ensures Distinct(pool) ==> Distinct(Keyed(share, pool, key))
  {
    if pool != [] {
      var n := |pool| - 1;
      KeyedElems(share, pool[..n], key);
      assert pool == pool[..n] + [pool[n]];
      if Distinct(pool) {
        forall r | r in pool[..n] ensures r.id != pool[n].id {}
      }
    }
  }

  lemma {:induction false} KeysOfPool(share: seq<Path>, pool: seq<Row>)
    ensures NoDups(KeysOf(share, pool))
    ensures forall m :: m in pool ==> ShareKey(m, share) in KeysOf(share, pool)
    ensures forall k :: k in KeysOf(share, pool) ==> exists m :: m in pool && ShareKey(m, share) == k
  {
    if pool != [] {
      var n := |pool| - 1;
      KeysOfPool(share, pool[..n]);
      assert pool == pool[..n] + [pool[n]];
    }
  }

  function SumGoal(rule: Rule, o: Row): Goal
    requires rule.GroupSum?
  {
    Goal(rule.amount, Units(o, rule.amountOne), rule.tolerance, rule.maxMembers)
  }

  datatype Gathered = Gathered(fits: seq<set<Row>>, crowded: bool)

  /** How groups are formed: what they share, and how many records are searched. */
  datatype Sharing = Sharing(share: seq<Path>, cap: nat)

  function SharingOf(rule: Rule): Sharing
    requires rule.GroupSum?
  {
    Sharing(rule.share, rule.maxCandidates)
  }

  /** The loop over share groups: over-full groups are skipped and noted; the
      search stops at the second fit. */
  ghost function Gather(h: Sharing, goal: Goal, pool: seq<Row>, keys: seq<seq<string>>, g: Gathered): Gathered {
    if keys == [] then g
    else
      var members := Keyed(h.share, pool, keys[0]);
      if |members| > h.cap then Gather(h, goal, pool, keys[1..], g.(crowded := true))
      else
        var fits := g.fits + Found(goal, members);
        if |fits| > 1 then g.(fits := fits) else Gather(h, goal, pool, keys[1..], g.(fits := fits))
  }

  ghost function GatherAll(h: Sharing, goal: Goal, pool: seq<Row>): Gathered {
    Gather(h, goal, pool, KeysOf(h.share, pool), Gathered([], false))
  }

  ghost function ListAll(pool: seq<Row>, fits: seq<set<Row>>): seq<seq<Row>> {
    if fits == [] then []
    else ListAll(pool, fits[..|fits| - 1]) + [Listed(pool, fits[|fits| - 1])]
  }

  /** Rows of several lists, each once, in order of first appearance. */
  function Merged(lists: seq<seq<Row>>): seq<Row> {
    if lists == [] then []
    else Append(Merged(lists[..|lists| - 1]), lists[|lists| - 1])
  }

  function Append(seen: seq<Row>, rows: seq<Row>): seq<Row> {
    if rows == [] then seen
    else
      var n := |rows| - 1;
      var before := Append(seen, rows[..n]);
      if rows[n].id in Ids(before) then before else before + [rows[n]]
  }

  // ── the decision ──

  datatype Decision = Claim(members: seq<Row>) | Open(candidates: seq<Row>, alternatives: seq<seq<Row>>) | Miss

  ghost function Decide(rule: Rule, identity: Option<Msisdn>, o: Row, avail: seq<Row>): Decision {
    var pool := Pool(rule, identity, o, avail);
    match rule
    case ExactRef(_, _, _) => if pool == [] then Miss else Claim([pool[0]])
    case Fuzzy(_, _, _, _, _, _, _, _, _, _) =>
      if pool == [] then Miss else if |pool| > 1 then Decision.Open(pool, []) else Claim(pool)
    case GroupRef(_, _, _, _, maxMembers) =>
      if pool == [] then Miss else if |pool| > maxMembers then Decision.Open(pool, []) else Claim(pool)
    case GroupSum(_, _, _, _, _, _, _, _, _, _, _, _, _) =>
      var g := GatherAll(SharingOf(rule), SumGoal(rule, o), pool);
      if |g.fits| == 1 && !g.crowded then Claim(Listed(pool, g.fits[0]))
      else if g.fits != [] || g.crowded then Decision.Open(Merged(ListAll(pool, g.fits)), ListAll(pool, g.fits))
      else Miss
  }

  // ── one rule over one side ──

  datatype Pass = Pass(matched: seq<Pairing>, ambiguous: seq<Ambiguity>, still: seq<Row>, avail: seq<Row>)

  /** Record a decision about `o`. */
  function Settle(rule: Rule, o: Row, d: Decision, p: Pass): Pass {
    match d
    case Claim(members) =>
      p.(matched := p.matched + [Pair(o, members, OneSide(rule), KindOf(rule))],
         avail := Unclaimed(p.avail, Ids(members)))
    case Open(candidates, alternatives) =>
      p.(ambiguous := p.ambiguous + [Ambiguity(o, candidates, KindOf(rule), OneSide(rule), alternatives)])
    case Miss => p.(still := p.still + [o])
  }

  ghost function Step(rule: Rule, identity: Option<Msisdn>, o: Row, p: Pass): Pass {
    Settle(rule, o, Decide(rule, identity, o, p.avail), p)
  }

  ghost function Sweep(rule: Rule, identity: Option<Msisdn>, ones: seq<Row>, p: Pass): Pass {
    if ones == [] then p else Sweep(rule, identity, ones[1..], Step(rule, identity, ones[0], p))
  }

  // ── all rules in order ──

  /** The two sides still in play, and what has been decided so far. */
  datatype Board = Board(left: seq<Row>, right: seq<Row>, matched: seq<Pairing>, ambiguous: seq<Ambiguity>)

  function SideRows(b: Board, side: Side): seq<Row> {
    if side == LeftSide then b.left else b.right
  }

  ghost function Apply(rule: Rule, identity: Option<Msisdn>, b: Board): Board {
    var one := OneSide(rule);
    var p := Sweep(rule, identity, SideRows(b, one), Pass(b.matched, b.ambiguous, [], SideRows(b, one.Other())));
    if one == LeftSide then Board(p.still, p.avail, p.matched, p.ambiguous)
    else Board(p.avail, p.still, p.matched, p.ambiguous)
  }

  /** The rules in order, stopping when a side has run out. */
  ghost function Run(keys: seq<Rule>, identity: Option<Msisdn>, b: Board): Board {
    if keys == [] || b.left == [] || b.right == [] then b
    else Run(keys[1..], identity, Apply(keys[0], identity, b))
  }
}
