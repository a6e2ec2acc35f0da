/** When a pair has a difference and what it is, said of the pair's records alone;
    and the books over records in any currencies. */
module Differences {
  import opened Prelude
  import opened Rows
  import opened Declaration
  import opened Matching
  import opened MatchFacts
  import opened Scoring

  // ── what a pair's records say ──

  /** What the records of one side read as: whole numbers at their sum; any others
      only when all have the same value, at that value. */
  ghost predicate Reads(rows: seq<Row>, path: Path, n: int) {
    if forall r :: r in rows ==> Amount(r, path).Whole? then n == Sum(path, multiset(rows))
    else rows != [] && forall q, r :: q in rows && r in rows ==>
           SameValue(Amount(q, path), Amount(r, path)) && Minor(r, path) == Some(n)
  }

  /** All the records of one side carry one currency, and this is it. */
  ghost predicate Shows(rows: seq<Row>, path: Path, cur: string) {
    && rows != [] && cur != ""
    && exists c: Cur :: c.upper == cur && forall r :: r in rows ==> Currency(r, path) == Some(c)
  }

  /** The two sides of a pair show two different currencies. */
  ghost predicate Crosses(ref: AmountRef, p: Pairing) {
    exists a, b :: a != b && Shows(PartyRows(p.left), ref.currency, a)
                   && Shows(PartyRows(p.right), ref.currencyRight, b)
  }

  lemma PartyReads(p: Party, path: Path, n: int)
    ensures AsInt(PartyAmount(p, path)) == Some(n) <==> Reads(PartyRows(p), path, n)
  {
    var rows := PartyRows(p);
    if AllWhole(rows, path) {
      SumWholeIsSum(rows, path);
      if p.Single? {
        assert rows[0] in rows && rows[..0] == [];
      }
    } else {
      SharedReads(rows, path, n);
      if p.Single? {
        assert rows[0] == p.row;
      }
    }
  }

  /** Values that are the same read the same, so it does not matter whose is
      taken. */
  lemma SharedReads(rows: seq<Row>, path: Path, n: int)
    requires rows != []
    ensures AllSame(rows, path) && Minor(rows[0], path) == Some(n)
       <==> forall q, r :: q in rows && r in rows ==>
              SameValue(Amount(q, path), Amount(r, path)) && Minor(r, path) == Some(n)
  {
    if AllSame(rows, path) && Minor(rows[0], path) == Some(n) {
      forall r | r in rows ensures SameValue(Amount(r, path), Amount(rows[0], path)) {
        var i :| 0 <= i < |rows| && rows[i] == r;
      }
      forall q, r | q in rows && r in rows
        ensures SameValue(Amount(q, path), Amount(r, path)) && Minor(r, path) == Some(n)
      {
        SameThroughout(Amount(q, path), Amount(rows[0], path), Amount(r, path));
      }
    }
    assert rows[0] in rows;
  }

  lemma SameThroughout(a: Cell, b: Cell, c: Cell)
    requires SameValue(a, b) && SameValue(c, b)
    ensures SameValue(a, c) && AsInt(c) == AsInt(b)
  {
    if Numeric(b) {
      NumberReads(b);
      NumberReads(c);
    }
  }

  /** A number reads as itself, towards zero. */
  lemma NumberReads(c: Cell)
    requires Numeric(c)
    ensures AsInt(c) == Some(Truncate(Number(c)))
  {
    if c.Whole? {
      TruncateIs(c.n as real, c.n);
    }
  }

  lemma PartyShows(p: Party, path: Path, cur: string)
    requires cur != ""
    ensures PartyCurrency(p, path) == cur <==> Shows(PartyRows(p), path, cur)
  {
    var rows := PartyRows(p);
    if PartyCurrency(p, path) == cur {
      var c := Currency(rows[0], path).value;
      assert c.upper == cur && forall r :: r in rows ==> Currency(r, path) == Some(c);
    }
    if Shows(rows, path, cur) {
      assert rows[0] in rows;
    }
  }

  lemma CrossesIff(ref: AmountRef, p: Pairing)
    ensures var a, b := PartyCurrency(p.left, ref.currency), PartyCurrency(p.right, ref.currencyRight);
            Crosses(ref, p) <==> a != "" && b != "" && a != b
  {
    var a, b := PartyCurrency(p.left, ref.currency), PartyCurrency(p.right, ref.currencyRight);
    if a != "" && b != "" {
      PartyShows(p.left, ref.currency, a);
      PartyShows(p.right, ref.currencyRight, b);
    }
    if Crosses(ref, p) {
      var x, y :| x != y && Shows(PartyRows(p.left), ref.currency, x)
                  && Shows(PartyRows(p.right), ref.currencyRight, y);
      PartyShows(p.left, ref.currency, x);
      PartyShows(p.right, ref.currencyRight, y);
    }
  }

  /** A pair has a difference, and it is `d`: both sides read, left less right, and
      they do not show two different currencies. */
  ghost predicate DiffersBy(ref: AmountRef, p: Pairing, d: int) {
    && !Crosses(ref, p)
    && exists l, r :: Reads(PartyRows(p.left), ref.left, l) && Reads(PartyRows(p.right), ref.right, r) && d == l - r
  }

  lemma ScoreReads(ref: AmountRef, p: Pairing, l: Option<int>, r: Option<int>, d: int)
    requires l == AsInt(PartyAmount(p.left, ref.left)) && r == AsInt(PartyAmount(p.right, ref.right))
    ensures Score(Some(ref), p) == Some(d) <==> !Crosses(ref, p) && l.Some? && r.Some? && d == l.value - r.value
  {
    CrossesIff(ref, p);
  }

  lemma DiffersReads(ref: AmountRef, p: Pairing, l: Option<int>, r: Option<int>, d: int)
    requires forall n :: l == Some(n) <==> Reads(PartyRows(p.left), ref.left, n)
    requires forall n :: r == Some(n) <==> Reads(PartyRows(p.right), ref.right, n)
    ensures DiffersBy(ref, p, d) <==> !Crosses(ref, p) && l.Some? && r.Some? && d == l.value - r.value
  {
    if l.Some? && r.Some? {
      assert Reads(PartyRows(p.left), ref.left, l.value) && Reads(PartyRows(p.right), ref.right, r.value);
    }
  }

  lemma ScoreIff(ref: AmountRef, p: Pairing, d: int)
    ensures Score(Some(ref), p) == Some(d) <==> DiffersBy(ref, p, d)
  {
    var l, r := AsInt(PartyAmount(p.left, ref.left)), AsInt(PartyAmount(p.right, ref.right));
    forall n ensures l == Some(n) <==> Reads(PartyRows(p.left), ref.left, n) {
      PartyReads(p.left, ref.left, n);
    }
    forall n ensures r == Some(n) <==> Reads(PartyRows(p.right), ref.right, n) {
      PartyReads(p.right, ref.right, n);
    }
    ScoreReads(ref, p, l, r, d);
    DiffersReads(ref, p, l, r, d);
  }

  // ── the amounts a declaration compares ──

  /** The amounts a rule matches on, by side. */
  ghost predicate MatchesOn(rule: Rule, ref: AmountRef) {
    match rule
    case Fuzzy(amount, currency, amountRight, currencyRight, _, _, _, _, _, _) =>
      && ref.left == amount && ref.right == amountRight
      && ref.currency == currency && ref.currencyRight == currencyRight
    case GroupSum(many, amount, amountOne, currency, currencyOne, _, _, _, _, _, _, _, _) =>
      if many == LeftSide
      then ref.left == amount && ref.right == amountOne && ref.currency == currency
           && ref.currencyRight == currencyOne
      else ref.left == amountOne && ref.right == amount && ref.currency == currencyOne
           && ref.currencyRight == currency
    case _ => false
  }

  predicate HasAmount(rule: Rule) {
    rule.Fuzzy? || rule.GroupSum?
  }

  /** The amounts a declaration compares: those it names or, when it names none,
      those of its first rule that matches on amounts. */
  ghost predicate Compares(spec: Reconciliation, ref: AmountRef) {
    if spec.amount.Some? then spec.amount.value == ref
    else exists i :: FirstWith(spec.keys, i) && MatchesOn(spec.keys[i], ref)
  }

  ghost predicate FirstWith(keys: seq<Rule>, i: int) {
    0 <= i < |keys| && HasAmount(keys[i]) && forall j :: 0 <= j < i ==> !HasAmount(keys[j])
  }

  lemma ResolvedIff(spec: Reconciliation, ref: AmountRef)
    ensures ResolvedAmount(spec) == Some(ref) <==> Compares(spec, ref)
  {
    FirstAmountIff(spec.keys, ref);
  }

  lemma {:induction false} FirstAmountIff(keys: seq<Rule>, ref: AmountRef)
    ensures FirstAmount(keys) == Some(ref) <==> exists i :: FirstWith(keys, i) && MatchesOn(keys[i], ref)
  {
    if keys == [] {
    } else if HasAmount(keys[0]) {
      assert FirstWith(keys, 0);
    } else {
      var rest := keys[1..];
      FirstAmountIff(rest, ref);
      if i :| FirstWith(rest, i) && MatchesOn(rest[i], ref) {
        FirstLater(keys, i);
        assert MatchesOn(keys[i + 1], ref);
      }
      if i :| FirstWith(keys, i) && MatchesOn(keys[i], ref) {
        FirstLater(keys, i - 1);
        assert MatchesOn(rest[i - 1], ref);
      }
    }
  }

  lemma FirstLater(keys: seq<Rule>, i: int)
    requires keys != [] && !HasAmount(keys[0])
    ensures FirstWith(keys, i + 1) <==> FirstWith(keys[1..], i)
  {
    if FirstWith(keys[1..], i) {
      forall j | 0 <= j < i + 1 ensures !HasAmount(keys[j]) {
        assert j > 0 ==> keys[j] == keys[1..][j - 1];
      }
    }
    if FirstWith(keys, i + 1) {
      assert i + 1 != 0;
      forall j | 0 <= j < i ensures !HasAmount(keys[1..][j]) {
        assert keys[1..][j] == keys[j + 1];
      }
    }
  }

  /** A GroupSum rule before a Fuzzy one gives the amounts. */
  lemma SumBeforeFuzzy(sum: Rule, fuzzy: Rule, identity: Option<Msisdn>, explains: seq<Explains>)
    requires sum.GroupSum? && fuzzy.Fuzzy?
    ensures ResolvedAmount(Reconciliation([sum, fuzzy], None, explains, identity)) == Some(SumAmounts(sum))
    ensures MatchesOn(sum, SumAmounts(sum))
  {
    assert FirstAmount([sum, fuzzy]) == Some(SumAmounts(sum));
  }

  /** What a declaration says of a pair: it differs by `d` at the amounts it
      compares. */
  ghost predicate ReportedBy(spec: Reconciliation, p: Pairing, d: int) {
    exists ref :: Compares(spec, ref) && DiffersBy(ref, p, d)
  }

  lemma ReportedIff(spec: Reconciliation, p: Pairing, d: int)
    ensures Score(ResolvedAmount(spec), p) == Some(d) <==> ReportedBy(spec, p, d)
  {
    var resolved := ResolvedAmount(spec);
    if resolved.Some? {
      ResolvedIff(spec, resolved.value);
      ScoreIff(resolved.value, p, d);
    }
    if ref :| Compares(spec, ref) && DiffersBy(ref, p, d) {
      ResolvedIff(spec, ref);
    }
  }

  // ── the books in any currencies ──

  /** The records of one side of the pairs that show two currencies. */
  ghost function Crossed(ref: AmountRef, pairs: seq<Pairing>, side: Side): multiset<Row> {
    if pairs == [] then multiset{}
    else
      var n := |pairs| - 1;
      Crossed(ref, pairs[..n], side)
      + if Crosses(ref, pairs[n]) then multiset(PartyRows(PartyOn(pairs[n], side))) else multiset{}
  }

  ghost predicate InWhole(rows: multiset<Row>, amount: Path) {
    forall r :: r in rows ==> Amount(r, amount).Whole?
  }

  lemma WholeReads(rows: seq<Row>, amount: Path)
    requires InWhole(multiset(rows), amount)
    ensures Reads(rows, amount, Sum(amount, multiset(rows)))
  {
    forall r | r in rows ensures Amount(r, amount).Whole? {
      assert r in multiset(rows);
    }
  }

  /** A pair whose sides read: their difference, or none when it crosses. */
  lemma PairScore(ref: AmountRef, p: Pairing, l: int, r: int)
    requires Reads(PartyRows(p.left), ref.left, l) && Reads(PartyRows(p.right), ref.right, r)
    ensures Score(Some(ref), p) == if Crosses(ref, p) then None else Some(l - r)
  {
    PartyReads(p.left, ref.left, l);
    PartyReads(p.right, ref.right, r);
    ReadScore(ref, p, l, r);
  }

  lemma ReadScore(ref: AmountRef, p: Pairing, l: int, r: int)
    requires AsInt(PartyAmount(p.left, ref.left)) == Some(l) && AsInt(PartyAmount(p.right, ref.right)) == Some(r)
    ensures Score(Some(ref), p) == if Crosses(ref, p) then None else Some(l - r)
  {
    CrossesIff(ref, p);
  }

  lemma WholeParts(a: multiset<Row>, b: multiset<Row>, amount: Path)
    requires InWhole(a + b, amount)
    ensures InWhole(a, amount) && InWhole(b, amount)
  {
  }

  /** What the last pair adds on one side, in money. */
  lemma SideNext(ref: AmountRef, pairs: seq<Pairing>, side: Side, path: Path)
    returns (n: int)
    requires pairs != [] && InWhole(MatchedRows(pairs, side), path)
    ensures var last, before := pairs[|pairs| - 1], pairs[..|pairs| - 1];
            && InWhole(MatchedRows(before, side), path)
            && Reads(PartyRows(PartyOn(last, side)), path, n)
            && Sum(path, MatchedRows(pairs, side)) == Sum(path, MatchedRows(before, side)) + n
            && Sum(path, Crossed(ref, pairs, side))
               == Sum(path, Crossed(ref, before, side)) + if Crosses(ref, last) then n else 0
  {
    var last, before := pairs[|pairs| - 1], pairs[..|pairs| - 1];
    var rows := multiset(PartyRows(PartyOn(last, side)));
    n := Sum(path, rows);
    WholeParts(MatchedRows(before, side), rows, path);
    WholeReads(PartyRows(PartyOn(last, side)), path);
    SumUnion(path, MatchedRows(before, side), rows);
    CrossedNext(ref, pairs, side);
    SumUnion(path, Crossed(ref, before, side), rows);
  }

  lemma CrossedNext(ref: AmountRef, pairs: seq<Pairing>, side: Side)
    requires pairs != []
    ensures var last, before := pairs[|pairs| - 1], pairs[..|pairs| - 1];
            Crossed(ref, pairs, side)
            == if Crosses(ref, last) then Crossed(ref, before, side) + multiset(PartyRows(PartyOn(last, side)))
               else Crossed(ref, before, side)
  {
  }

  lemma NetNext(ref: AmountRef, pairs: seq<Pairing>, d: Option<int>)
    requires pairs != [] && d == Score(Some(ref), pairs[|pairs| - 1])
    ensures Net(Some(ref), pairs) == Net(Some(ref), pairs[..|pairs| - 1]) + if d.Some? then d.value else 0
  {
  }

  /** Over pairs of whole amounts, in any currencies, the net discrepancy and the
      pairs that cross are the difference of the matched sums. */
  lemma {:induction false} NetInCurrencies(ref: AmountRef, pairs: seq<Pairing>)
    requires InWhole(MatchedRows(pairs, LeftSide), ref.left) && InWhole(MatchedRows(pairs, RightSide), ref.right)
    ensures Net(Some(ref), pairs)
            + Sum(ref.left, Crossed(ref, pairs, LeftSide)) - Sum(ref.right, Crossed(ref, pairs, RightSide))
         == Sum(ref.left, MatchedRows(pairs, LeftSide)) - Sum(ref.right, MatchedRows(pairs, RightSide))
  {
    if pairs != [] {
      var n := |pairs| - 1;
      var l := SideNext(ref, pairs, LeftSide, ref.left);
      var r := SideNext(ref, pairs, RightSide, ref.right);
      NetInCurrencies(ref, pairs[..n]);
      PairScore(ref, pairs[n], l, r);
      NetNext(ref, pairs, if Crosses(ref, pairs[n]) then None else Some(l - r));
    }
  }
}
