/** The rule appliers as the engine runs them: loops over an index, a
    `consumed` set of identities and the result's lists. Each is shown to do
    exactly what `Matching.Sweep` says of its rule. */
module Appliers {
  import opened Prelude
  import opened Rows
  import opened Declaration
  import opened SubsetSearch
  import opened Matching

  /** One cause that accounts for part of a difference. */
  datatype Part = Part(caption: string, side: Side, amount: int)

  /** A pair in the result. How it was matched never changes; the amounts are
      compared, and the difference explained, after all rules have run. */
  class MatchedPair {
    const what: Pairing
    var discrepancy: Option<int>
    var explanation: seq<Part>

    ghost predicate Unscored()
      reads this
    {
      discrepancy == None && explanation == []
    }

    constructor (what: Pairing)
      ensures this.what == what && Unscored()
    {
      this.what := what;
      discrepancy := None;
      explanation := [];
    }
  }

  class ReconResult {
    var matched: seq<MatchedPair>
    var unmatchedLeft: seq<Row>
    var unmatchedRight: seq<Row>
    var ambiguous: seq<Ambiguity>
    var unverifiableLeft: seq<Row>
    var unverifiableRight: seq<Row>

    constructor ()
      ensures matched == [] && ambiguous == []
    {
      matched, ambiguous := [], [];
      unmatchedLeft, unmatchedRight, unverifiableLeft, unverifiableRight := [], [], [], [];
    }
  }

  ghost function Pairings(pairs: seq<MatchedPair>): seq<Pairing> {
    seq(|pairs|, i requires 0 <= i < |pairs| => pairs[i].what)
  }

  lemma PairingsSnoc(pairs: seq<MatchedPair>, p: MatchedPair)
    ensures Pairings(pairs + [p]) == Pairings(pairs) + [p.what]
  {
  }

  // ── the index by reference ──

  function Bucket(rows: seq<Row>, path: Path, cs: bool, key: string): seq<Row> {
    if rows == [] then []
    else
      var n := |rows| - 1;
      Bucket(rows[..n], path, cs, key) + if Key(rows[n], path, cs) == Some(key) then [rows[n]] else []
  }

  function Lookup(index: map<string, seq<Row>>, key: string): seq<Row> {
    if key in index then index[key] else []
  }

  /** The index holds under each key the rows with that key, in order. */
  ghost predicate Indexes(index: map<string, seq<Row>>, rows: seq<Row>, path: Path, cs: bool) {
    forall k :: Lookup(index, k) == Bucket(rows, path, cs, k)
  }

  lemma IndexNext(index: map<string, seq<Row>>, rows: seq<Row>, path: Path, cs: bool, r: Row)
    requires Indexes(index, rows, path, cs)
    ensures Key(r, path, cs) == None ==> Indexes(index, rows + [r], path, cs)
    ensures var key := Key(r, path, cs);
            key.Some? ==> Indexes(index[key.value := Lookup(index, key.value) + [r]], rows + [r], path, cs)
  {
    var key := Key(r, path, cs);
    forall k ensures Bucket(rows + [r], path, cs, k) == Lookup(index, k) + if key == Some(k) then [r] else [] {
      assert (rows + [r])[..|rows|] == rows;
      assert Lookup(index, k) == Bucket(rows, path, cs, k);
    }
    if key == None {
      forall k ensures Lookup(index, k) == Bucket(rows + [r], path, cs, k) {
        assert Lookup(index, k) + [] == Lookup(index, k);
      }
    } else {
      var next := index[key.value := Lookup(index, key.value) + [r]];
      forall k ensures Lookup(next, k) == Bucket(rows + [r], path, cs, k) {
        assert Lookup(next, k) == Lookup(index, k) + if key == Some(k) then [r] else [];
      }
    }
  }

  method BuildIndex(rows: seq<Row>, path: Path, cs: bool) returns (index: map<string, seq<Row>>)
    ensures forall k :: Lookup(index, k) == Bucket(rows, path, cs, k)
  {
    index := map[];
    for i := 0 to |rows|
      invariant Indexes(index, rows[..i], path, cs)
    {
      TakeNext(rows, i);
      IndexNext(index, rows[..i], path, cs, rows[i]);
      var key := Key(rows[i], path, cs);
      if key.Some? {
        index := index[key.value := Lookup(index, key.value) + [rows[i]]];
      }
    }
    assert rows[..|rows|] == rows;
  }

  lemma UnclaimedSnoc(rows: seq<Row>, r: Row, consumed: set<nat>)
    ensures Unclaimed(rows + [r], consumed) == Unclaimed(rows, consumed) + if r.id in consumed then [] else [r]
  {
    assert (rows + [r])[..|rows|] == rows;
  }

  lemma PoolSnoc(rule: Rule, identity: Option<Msisdn>, o: Row, rows: seq<Row>, r: Row)
    ensures Pool(rule, identity, o, rows + [r])
         == Pool(rule, identity, o, rows) + if Admits(rule, identity, o, r) then [r] else []
  {
    assert (rows + [r])[..|rows|] == rows;
  }

  /** The pool over the next record: it joins when unclaimed and admitted. */
  lemma PoolNext(rule: Rule, identity: Option<Msisdn>, o: Row, rows: seq<Row>, j: nat, consumed: set<nat>)
    requires j < |rows|
    ensures Pool(rule, identity, o, Unclaimed(rows[..j + 1], consumed))
         == Pool(rule, identity, o, Unclaimed(rows[..j], consumed))
            + if rows[j].id !in consumed && Admits(rule, identity, o, rows[j]) then [rows[j]] else []
  {
    var before := Unclaimed(rows[..j], consumed);
    assert rows[..j + 1] == rows[..j] + [rows[j]];
    UnclaimedSnoc(rows[..j], rows[j], consumed);
    if rows[j].id in consumed {
      assert Unclaimed(rows[..j + 1], consumed) == before;
    } else {
      PoolSnoc(rule, identity, o, before, rows[j]);
    }
  }

  lemma {:induction false} FilterUnclaimed(p: Row -> bool, rows: seq<Row>, consumed: set<nat>)
    ensures Filter(p, Unclaimed(rows, consumed)) == Unclaimed(Filter(p, rows), consumed)
  {
    if rows != [] {
      var n := |rows| - 1;
      var rest, picked := Unclaimed(rows[..n], consumed), Filter(p, rows[..n]);
      FilterUnclaimed(p, rows[..n], consumed);
      assert rows[n].id !in consumed ==> (rest + [rows[n]])[..|rest|] == rest;
      assert rest + [] == rest;
      if p(rows[n]) {
        UnclaimedSnoc(picked, rows[n], consumed);
      } else {
        assert Filter(p, rows) == picked;
      }
    }
  }

  lemma PoolUnclaimed(rule: Rule, identity: Option<Msisdn>, o: Row, rows: seq<Row>, consumed: set<nat>)
    ensures Pool(rule, identity, o, Unclaimed(rows, consumed)) == Unclaimed(Pool(rule, identity, o, rows), consumed)
  {
    FilterUnclaimed(Admitter(rule, identity, o), rows, consumed);
  }

  lemma {:induction false} FilterIsBucket(p: Row -> bool, rows: seq<Row>, path: Path, cs: bool, key: Option<string>)
    requires forall m :: p(m) <==> SameKey(key, Key(m, path, cs))
    ensures Filter(p, rows) == if key.Some? then Bucket(rows, path, cs, key.value) else []
  {
    if rows != [] {
      FilterIsBucket(p, rows[..|rows| - 1], path, cs, key);
    }
  }

  /** For a reference rule the pool is the bucket under the record's key. */
  lemma PoolIsBucket(rule: Rule, identity: Option<Msisdn>, o: Row, rows: seq<Row>, path: Path, cs: bool,
                     key: Option<string>)
    requires forall m :: Admits(rule, identity, o, m) <==> SameKey(key, Key(m, path, cs))
    ensures Pool(rule, identity, o, rows) == if key.Some? then Bucket(rows, path, cs, key.value) else []
  {
    FilterIsBucket(Admitter(rule, identity, o), rows, path, cs, key);
  }

  lemma {:induction false} UnclaimedPrefix(rows: seq<Row>, consumed: set<nat>, k: nat)
    requires k <= |rows|
    ensures Unclaimed(rows[..k], consumed) <= Unclaimed(rows, consumed)
  {
    if k == |rows| {
      assert rows[..k] == rows;
    } else {
      var n := |rows| - 1;
      UnclaimedPrefix(rows[..n], consumed, k);
      assert rows[..n][..k] == rows[..k];
    }
  }

  /** The first record of a bucket that has not been claimed, if any. */
  method FirstUnclaimed(bucket: seq<Row>, consumed: set<nat>) returns (hit: Option<Row>)
    ensures var free := Unclaimed(bucket, consumed);
            hit == if free == [] then None else Some(free[0])
  {
    for j := 0 to |bucket|
      invariant Unclaimed(bucket[..j], consumed) == []
    {
      assert bucket[..j + 1][..j] == bucket[..j];
      if bucket[j].id !in consumed {
        UnclaimedPrefix(bucket, consumed, j + 1);
        return Some(bucket[j]);
      }
    }
    assert bucket[..|bucket|] == bucket;
    hit := None;
  }

  // ── the loop every applier shares ──

  /** Where a loop stands: the result, the kept records and the consumed
      identities, against the pass they amount to. */
  ghost predicate At(out: ReconResult, p: Pass, still: seq<Row>, consumed: set<nat>, many: seq<Row>)
    reads out
  {
    && Pairings(out.matched) == p.matched && out.ambiguous == p.ambiguous
    && still == p.still && Unclaimed(many, consumed) == p.avail
  }

  lemma SweepNext(rule: Rule, identity: Option<Msisdn>, ones: seq<Row>, i: nat, p: Pass, d: Decision)
    requires i < |ones| && d == Decide(rule, identity, ones[i], p.avail)
    ensures Sweep(rule, identity, ones[i..], p) == Sweep(rule, identity, ones[i + 1..], Settle(rule, ones[i], d, p))
  {
    assert ones[i..][1..] == ones[i + 1..];
  }

  /** Put a decision into the result: claim, report, or keep for later. */
  method Record(rule: Rule, o: Row, d: Decision, many: seq<Row>, consumed: set<nat>, still: seq<Row>,
                out: ReconResult, ghost p: Pass)
    returns (nowConsumed: set<nat>, nowStill: seq<Row>)
    requires At(out, p, still, consumed, many)
    modifies out`matched, out`ambiguous
    ensures At(out, Settle(rule, o, d, p), nowStill, nowConsumed, many)
    ensures forall q :: q in out.matched ==> q in old(out.matched) || (fresh(q) && q.Unscored())
  {
    nowConsumed, nowStill := consumed, still;
    match d
    case Claim(members) =>
      UnclaimedTwice(many, consumed, Ids(members));
      nowConsumed := consumed + Ids(members);
      var pair := new MatchedPair(Pair(o, members, OneSide(rule), KindOf(rule)));
      PairingsSnoc(out.matched, pair);
      out.matched := out.matched + [pair];
    case Open(candidates, alternatives) =>
      out.ambiguous := out.ambiguous + [Ambiguity(o, candidates, KindOf(rule), OneSide(rule), alternatives)];
    case Miss =>
      nowStill := still + [o];
  }

  /** What an applier leaves behind is its rule's sweep. */
  ghost predicate Applied(rule: Rule, identity: Option<Msisdn>, left: seq<Row>, right: seq<Row>,
                          matched: seq<MatchedPair>, ambiguous: seq<Ambiguity>,
                          out: ReconResult, leftOver: seq<Row>, rightOver: seq<Row>)
    reads out
  {
    var (ones, many) := if OneSide(rule) == LeftSide then (left, right) else (right, left);
    var (still, rest) := if OneSide(rule) == LeftSide then (leftOver, rightOver) else (rightOver, leftOver);
    Sweep(rule, identity, ones, Pass(Pairings(matched), ambiguous, [], many))
    == Pass(Pairings(out.matched), out.ambiguous, still, rest)
  }

  // ── ExactRef ──

  method ApplyExact(rule: Rule, ghost identity: Option<Msisdn>, left: seq<Row>, right: seq<Row>, out: ReconResult)
    returns (stillLeft: seq<Row>, rest: seq<Row>)
    requires rule.ExactRef?
    modifies out`matched, out`ambiguous
    ensures Applied(rule, identity, left, right, old(out.matched), old(out.ambiguous), out, stillLeft, rest)
    ensures forall q :: q in out.matched ==> q in old(out.matched) || (fresh(q) && q.Unscored())
  {
    var index := BuildIndex(right, rule.right, rule.caseSensitive);
    var consumed: set<nat> := {};
    stillLeft := [];
    ghost var p := Pass(Pairings(out.matched), out.ambiguous, [], right);
    ghost var end := Sweep(rule, identity, left, p);
    UnclaimedAll(right);
    assert left[0..] == left;
    for i := 0 to |left|
      invariant Sweep(rule, identity, left[i..], p) == end
      invariant At(out, p, stillLeft, consumed, right)
      invariant forall q :: q in out.matched ==> q in old(out.matched) || (fresh(q) && q.Unscored())
    {
      var d := DecideExact(rule, identity, left[i], right, index, consumed);
      SweepNext(rule, identity, left, i, p, d);
      consumed, stillLeft := Record(rule, left[i], d, right, consumed, stillLeft, out, p);
      p := Settle(rule, left[i], d, p);
    }
    rest := Unclaimed(right, consumed);
  }

  method DecideExact(rule: Rule, ghost identity: Option<Msisdn>, l: Row, right: seq<Row>,
                     index: map<string, seq<Row>>, consumed: set<nat>)
    returns (d: Decision)
    requires rule.ExactRef? && forall k :: Lookup(index, k) == Bucket(right, rule.right, rule.caseSensitive, k)
    ensures d == Decide(rule, identity, l, Unclaimed(right, consumed))
  {
    var key := Key(l, rule.left, rule.caseSensitive);
    var bucket := if key.Some? then Lookup(index, key.value) else [];
    var hit := FirstUnclaimed(bucket, consumed);
    PoolIsBucket(rule, identity, l, right, rule.right, rule.caseSensitive, key);
    PoolUnclaimed(rule, identity, l, right, consumed);
    d := if hit == None then Miss else Claim([hit.value]);
  }

  // ── Fuzzy ──

  /** The chain of `continue`s: is `r` a candidate for `l`? */
  method IsCandidate(rule: Rule, identity: Option<Msisdn>, l: Row, r: Row, lMinor: int) returns (ok: bool)
    requires rule.Fuzzy? && Minor(l, rule.amount) == Some(lMinor)
    ensures ok == Viable(rule, identity, l, r)
  {
    if Upper(Currency(r, rule.currencyRight)) != Upper(Currency(l, rule.currency)) {
      return false;
    }
    var rMinor := Minor(r, rule.amountRight);
    if rMinor == None {
      return false;
    }
    if Abs(rMinor.value - lMinor) > rule.tolerance {
      return false;
    }
    if IdentityDisagrees(identity, l, r) {
      return false;
    }
    if exists a :: a in rule.agree && Contradicts(a, l, r) {
      return false;
    }
    if rule.lag.Some? {
      var lag := rule.lag.value;
      var days := ComputeLagDays(lag, Day(l, rule.timestampLeft, lag.timezone),
                                 Day(r, rule.timestampRight, lag.timezone));
      return days.Some? && lag.minDays <= days.value <= lag.maxDays;
    }
    var span := (if rule.window == 0 then 1 else rule.window) * SECOND;
    var lTs, rTs := Instant(l, rule.timestampLeft), Instant(r, rule.timestampRight);
    if lTs.Some? && rTs.Some? && Abs(lTs.value - rTs.value) > span {
      return false;
    }
    ok := true;
  }

  lemma {:induction false} FilterNone(p: Row -> bool, rows: seq<Row>)
    requires forall m :: !p(m)
    ensures Filter(p, rows) == []
  {
    if rows != [] {
      FilterNone(p, rows[..|rows| - 1]);
    }
  }

  method ApplyFuzzy(rule: Rule, identity: Option<Msisdn>, left: seq<Row>, right: seq<Row>, out: ReconResult)
    returns (stillLeft: seq<Row>, rest: seq<Row>)
    requires rule.Fuzzy?
    modifies out`matched, out`ambiguous
    ensures Applied(rule, identity, left, right, old(out.matched), old(out.ambiguous), out, stillLeft, rest)
    ensures forall q :: q in out.matched ==> q in old(out.matched) || (fresh(q) && q.Unscored())
  {
    var consumed: set<nat> := {};
    stillLeft := [];
    ghost var p := Pass(Pairings(out.matched), out.ambiguous, [], right);
    ghost var end := Sweep(rule, identity, left, p);
    UnclaimedAll(right);
    assert left[0..] == left;
    for i := 0 to |left|
      invariant Sweep(rule, identity, left[i..], p) == end
      invariant At(out, p, stillLeft, consumed, right)
      invariant forall q :: q in out.matched ==> q in old(out.matched) || (fresh(q) && q.Unscored())
    {
      var candidates := Candidates(rule, identity, left[i], right, consumed);
      var d := if candidates == [] then Miss
               else if |candidates| > 1 then Decision.Open(candidates, [])
               else Claim(candidates);
      SweepNext(rule, identity, left, i, p, d);
      consumed, stillLeft := Record(rule, left[i], d, right, consumed, stillLeft, out, p);
      p := Settle(rule, left[i], d, p);
    }
    rest := Unclaimed(right, consumed);
  }

  /** The inner loop of `_apply_fuzzy`; a record without an amount has none. */
  method Candidates(rule: Rule, identity: Option<Msisdn>, l: Row, right: seq<Row>, consumed: set<nat>)
    returns (candidates: seq<Row>)
    requires rule.Fuzzy?
    ensures candidates == Pool(rule, identity, l, Unclaimed(right, consumed))
  {
    var lMinor := Minor(l, rule.amount);
    candidates := [];
    if lMinor == None {
      FilterNone(Admitter(rule, identity, l), Unclaimed(right, consumed));
      return;
    }
    for j := 0 to |right|
      invariant candidates == Pool(rule, identity, l, Unclaimed(right[..j], consumed))
    {
      PoolNext(rule, identity, l, right, j, consumed);
      if right[j].id in consumed {
        continue;
      }
      var ok := IsCandidate(rule, identity, l, right[j], lMinor.value);
      if !ok {
        continue;
      }
      candidates := candidates + [right[j]];
    }
    assert right[..|right|] == right;
  }

  // ── GroupRef ──

  method ApplyGroupRef(rule: Rule, ghost identity: Option<Msisdn>, left: seq<Row>, right: seq<Row>, out: ReconResult)
    returns (leftOver: seq<Row>, rightOver: seq<Row>)
    requires rule.GroupRef?
    modifies out`matched, out`ambiguous
    ensures Applied(rule, identity, left, right, old(out.matched), old(out.ambiguous), out, leftOver, rightOver)
    ensures forall q :: q in out.matched ==> q in old(out.matched) || (fresh(q) && q.Unscored())
  {
    var oneSide := OneSide(rule);
    var (ones, many) := if oneSide == LeftSide then (left, right) else (right, left);
    var index := BuildIndex(many, if oneSide == LeftSide then rule.right else rule.left, rule.caseSensitive);
    var still: seq<Row>, consumed: set<nat> := [], {};
    ghost var p := Pass(Pairings(out.matched), out.ambiguous, [], many);
    ghost var end := Sweep(rule, identity, ones, p);
    UnclaimedAll(many);
    assert ones[0..] == ones;
    for i := 0 to |ones|
      invariant Sweep(rule, identity, ones[i..], p) == end
      invariant At(out, p, still, consumed, many)
      invariant forall q :: q in out.matched ==> q in old(out.matched) || (fresh(q) && q.Unscored())
    {
      var d := DecideRef(rule, identity, ones[i], many, index, consumed);
      SweepNext(rule, identity, ones, i, p, d);
      consumed, still := Record(rule, ones[i], d, many, consumed, still, out, p);
      p := Settle(rule, ones[i], d, p);
    }
    var rest := Unclaimed(many, consumed);
    leftOver, rightOver := if oneSide == LeftSide then still else rest, if oneSide == LeftSide then rest else still;
  }

  method DecideRef(rule: Rule, ghost identity: Option<Msisdn>, o: Row, many: seq<Row>, index: map<string, seq<Row>>,
                   consumed: set<nat>)
    returns (d: Decision)
    requires rule.GroupRef?
    requires var path := if OneSide(rule) == LeftSide then rule.right else rule.left;
             forall k :: Lookup(index, k) == Bucket(many, path, rule.caseSensitive, k)
    ensures d == Decide(rule, identity, o, Unclaimed(many, consumed))
  {
    var (onePath, manyPath) := if OneSide(rule) == LeftSide then (rule.left, rule.right) else (rule.right, rule.left);
    var key := Key(o, onePath, rule.caseSensitive);
    var bucket := if key.Some? then Unclaimed(Lookup(index, key.value), consumed) else [];
    PoolIsBucket(rule, identity, o, many, manyPath, rule.caseSensitive, key);
    PoolUnclaimed(rule, identity, o, many, consumed);
    d := if bucket == [] then Miss
         else if |bucket| > rule.maxMembers then Decision.Open(bucket, [])
         else Claim(bucket);
  }

  // ── GroupSum ──

  method InTime(rule: Rule, m: Row, o: Row) returns (ok: bool)
    requires rule.GroupSum?
    ensures ok == SumInTime(rule, o, m)
  {
    if rule.lag.Some? {
      var lag := rule.lag.value;
      var mDay, oDay := Day(m, rule.timestampMany, lag.timezone), Day(o, rule.timestampOne, lag.timezone);
      var (l, r) := if rule.many == LeftSide then (mDay, oDay) else (oDay, mDay);
      var days := ComputeLagDays(lag, l, r);
      return days.Some? && lag.minDays <= days.value <= lag.maxDays;
    }
    var a, b := Instant(m, rule.timestampMany), Instant(o, rule.timestampOne);
    ok := a == None || b == None || Abs(a.value - b.value) <= rule.window * SECOND;
  }

  /** The `pool` comprehension of `_apply_group_sum`. */
  method SumPool(rule: Rule, ghost identity: Option<Msisdn>, o: Row, many: seq<Row>, consumed: set<nat>)
    returns (pool: seq<Row>)
    requires rule.GroupSum? && Minor(o, rule.amountOne).Some?
    ensures pool == Pool(rule, identity, o, Unclaimed(many, consumed))
  {
    pool := [];
    for j := 0 to |many|
      invariant pool == Pool(rule, identity, o, Unclaimed(many[..j], consumed))
    {
      PoolNext(rule, identity, o, many, j, consumed);
      if many[j].id !in consumed
         && Upper(Currency(many[j], rule.currency)) == Upper(Currency(o, rule.currencyOne))
         && Minor(many[j], rule.amount).Some?
      {
        var timely := InTime(rule, many[j], o);
        if timely {
          pool := pool + [many[j]];
        }
      }
    }
    assert many[..|many|] == many;
  }

  /** The groups are the pool's share groups, by key. */
  ghost predicate GroupsOf(share: seq<Path>, pool: seq<Row>, keys: seq<seq<string>>,
                           groups: map<seq<string>, seq<Row>>) {
    && keys == KeysOf(share, pool)
    && groups.Keys == Elems(keys)
    && forall k :: Keyed(share, pool, k) == if k in groups then groups[k] else []
  }

  lemma GroupsNext(share: seq<Path>, pool: seq<Row>, keys: seq<seq<string>>,
                   groups: map<seq<string>, seq<Row>>, r: Row)
    requires GroupsOf(share, pool, keys, groups)
    ensures var key := ShareKey(r, share);
            var known := key in groups;
            GroupsOf(share, pool + [r], if known then keys else keys + [key],
                     groups[key := (if known then groups[key] else []) + [r]])
  {
    var key := ShareKey(r, share);
    KeysNext(share, pool, r);
    UpdatedKeys(keys, groups, key, (if key in groups then groups[key] else []) + [r]);
    MembersNext(share, pool, groups, r, key);
  }

  lemma UpdatedKeys(keys: seq<seq<string>>, groups: map<seq<string>, seq<Row>>, key: seq<string>, v: seq<Row>)
    requires groups.Keys == Elems(keys)
    ensures key in groups <==> key in keys
    ensures groups[key := v].Keys == Elems(if key in keys then keys else keys + [key])
  {
    assert key in groups <==> key in groups.Keys;
  }

  lemma KeysNext(share: seq<Path>, pool: seq<Row>, r: Row)
    ensures var keys, key := KeysOf(share, pool), ShareKey(r, share);
            KeysOf(share, pool + [r]) == if key in keys then keys else keys + [key]
  {
    assert (pool + [r])[..|pool|] == pool;
  }

  lemma MembersNext(share: seq<Path>, pool: seq<Row>, groups: map<seq<string>, seq<Row>>, r: Row, key: seq<string>)
    requires key == ShareKey(r, share) && forall k :: Keyed(share, pool, k) == if k in groups then groups[k] else []
    ensures var next := groups[key := (if key in groups then groups[key] else []) + [r]];
            forall k :: Keyed(share, pool + [r], k) == if k in next then next[k] else []
  {
    var next := groups[key := (if key in groups then groups[key] else []) + [r]];
    forall k ensures Keyed(share, pool + [r], k) == if k in next then next[k] else [] {
      assert Keyed(share, pool, k) == if k in groups then groups[k] else [];
      KeyedNext(share, pool, k, r);
    }
  }

  lemma KeyedNext(share: seq<Path>, pool: seq<Row>, k: seq<string>, r: Row)
    ensures Keyed(share, pool + [r], k) == Keyed(share, pool, k) + if ShareKey(r, share) == k then [r] else []
  {
    assert (pool + [r])[..|pool|] == pool;
  }

  method ShareGroups(share: seq<Path>, pool: seq<Row>)
    returns (keys: seq<seq<string>>, groups: map<seq<string>, seq<Row>>)
    ensures keys == KeysOf(share, pool)
    ensures groups.Keys == Elems(keys)
    ensures forall k :: k in keys ==> groups[k] == Keyed(share, pool, k)
  {
    keys, groups := [], map[];
    for i := 0 to |pool|
      invariant GroupsOf(share, pool[..i], keys, groups)
    {
      TakeNext(pool, i);
      GroupsNext(share, pool[..i], keys, groups, pool[i]);
      var key := ShareKey(pool[i], share);
      var known := key in groups;
      keys := if known then keys else keys + [key];
      groups := groups[key := (if known then groups[key] else []) + [pool[i]]];
    }
    TakeAll(pool);
  }

  method FindFits(rule: Rule, goal: Goal, pool: seq<Row>) returns (g: Gathered)
    requires rule.GroupSum? && Distinct(pool)
    ensures g == GatherAll(SharingOf(rule), goal, pool)
  {
    var keys, groups := ShareGroups(rule.share, pool);
    g := Gathered([], false);
    ghost var end := GatherAll(SharingOf(rule), goal, pool);
    assert keys[0..] == keys;
    for i := 0 to |keys|
      invariant Gather(SharingOf(rule), goal, pool, keys[i..], g) == end
    {
      assert keys[i..][1..] == keys[i + 1..];
      var members := groups[keys[i]];
      if |members| > rule.maxCandidates {
        g := g.(crowded := true);
        continue;
      }
      KeyedElems(rule.share, pool, keys[i]);
      var found := SubsetsSumming(goal, members);
      g := g.(fits := g.fits + found);
      if |g.fits| > 1 {
        return;
      }
    }
  }

  /** Each fitting group as the list the code keeps. */
  method Listings(pool: seq<Row>, fits: seq<set<Row>>) returns (lists: seq<seq<Row>>)
    ensures lists == ListAll(pool, fits)
  {
    lists := [];
    for i := 0 to |fits|
      invariant lists == ListAll(pool, fits[..i])
    {
      assert fits[..i + 1][..i] == fits[..i];
      lists := lists + [Listed(pool, fits[i])];
    }
    assert fits[..|fits|] == fits;
  }

  method ApplyGroupSum(rule: Rule, ghost identity: Option<Msisdn>, left: seq<Row>, right: seq<Row>, out: ReconResult)
    returns (leftOver: seq<Row>, rightOver: seq<Row>)
    requires rule.GroupSum? && Distinct(left) && Distinct(right)
    modifies out`matched, out`ambiguous
    ensures Applied(rule, identity, left, right, old(out.matched), old(out.ambiguous), out, leftOver, rightOver)
    ensures forall q :: q in out.matched ==> q in old(out.matched) || (fresh(q) && q.Unscored())
  {
    var oneSide := OneSide(rule);
    var (ones, many) := if oneSide == LeftSide then (left, right) else (right, left);
    var still: seq<Row>, consumed: set<nat> := [], {};
    ghost var p := Pass(Pairings(out.matched), out.ambiguous, [], many);
    ghost var end := Sweep(rule, identity, ones, p);
    UnclaimedAll(many);
    assert ones[0..] == ones;
    for i := 0 to |ones|
      invariant Sweep(rule, identity, ones[i..], p) == end
      invariant At(out, p, still, consumed, many)
      invariant forall q :: q in out.matched ==> q in old(out.matched) || (fresh(q) && q.Unscored())
    {
      var d := DecideSum(rule, identity, ones[i], many, consumed);
      SweepNext(rule, identity, ones, i, p, d);
      consumed, still := Record(rule, ones[i], d, many, consumed, still, out, p);
      p := Settle(rule, ones[i], d, p);
    }
    var rest := Unclaimed(many, consumed);
    leftOver, rightOver := if oneSide == LeftSide then still else rest, if oneSide == LeftSide then rest else still;
  }

  /** What is decided on the groups that fitted. */
  function SumDecision(pool: seq<Row>, g: Gathered, lists: seq<seq<Row>>): Decision {
    if |g.fits| == 1 && !g.crowded then Claim(Listed(pool, g.fits[0]))
    else if g.fits != [] || g.crowded then Decision.Open(Merged(lists), lists)
    else Miss
  }

  lemma SumDecided(rule: Rule, identity: Option<Msisdn>, o: Row, avail: seq<Row>, pool: seq<Row>, g: Gathered)
    requires rule.GroupSum? && pool == Pool(rule, identity, o, avail)
           && g == GatherAll(SharingOf(rule), SumGoal(rule, o), pool)
    ensures Decide(rule, identity, o, avail) == SumDecision(pool, g, ListAll(pool, g.fits))
  {
  }

  lemma NoAmountMisses(rule: Rule, identity: Option<Msisdn>, o: Row, avail: seq<Row>)
    requires rule.GroupSum? && Minor(o, rule.amountOne) == None
    ensures Decide(rule, identity, o, avail) == Miss
  {
    FilterNone(Admitter(rule, identity, o), avail);
    assert KeysOf(rule.share, []) == [];
  }

  /** The body of the loop of `_apply_group_sum`, up to the claim. */
  method DecideSum(rule: Rule, ghost identity: Option<Msisdn>, o: Row, many: seq<Row>, consumed: set<nat>)
    returns (d: Decision)
    requires rule.GroupSum? && Distinct(many)
    ensures d == Decide(rule, identity, o, Unclaimed(many, consumed))
  {
    var minor := Minor(o, rule.amountOne);
    if minor == None {
      NoAmountMisses(rule, identity, o, Unclaimed(many, consumed));
      return Miss;
    }
    UnclaimedElems(many, consumed);
    PoolElems(rule, identity, o, Unclaimed(many, consumed));
    var pool := SumPool(rule, identity, o, many, consumed);
    var g := FindFits(rule, SumGoal(rule, o), pool);
    var lists := Listings(pool, g.fits);
    SumDecided(rule, identity, o, Unclaimed(many, consumed), pool, g);
    d := SumDecision(pool, g, lists);
  }
}
