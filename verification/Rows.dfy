/** The records a reconciliation reads. A row is an object with an identity
    (the code keys its `consumed` sets on `id(row)`) and the fields its
    declaration names by dotted path, each already in the shape the engine
    reads it in: an amount as the value found at the path, a reference
    stripped, an instant in microseconds, a calendar day as an ordinal. */
module Rows {
  import opened Prelude
  import Calendar

  type Path = string
  type Zone = string

  /** What may sit at an amount path. `Text.parsed` is what `int(text)` gives. */
  datatype Cell =
    | Absent
    | Whole(n: int)
    | Flag(b: bool)
    | Decimal(x: real)
    | Text(text: string, parsed: Option<int>)

  /** A reference after `strip()`; blank references are not in the map. */
  datatype Ref = Ref(exact: string, folded: string)

  /** A currency as stored, and upper-cased. */
  datatype Cur = Cur(raw: string, upper: string)

  datatype Row = Row(
    id: nat,
    amounts: map<Path, Cell>,
    refs: map<Path, Ref>,
    currencies: map<Path, Cur>,
    texts: map<Path, string>,
    instants: map<Path, int>,
    days: map<(Path, Zone), Calendar.Date>,
    phones: map<Path, set<string>>)

  /** `int(x)` of a finite decimal: towards zero. */
  function Truncate(x: real): int {
    if x < 0.0 then -((-x).Floor) else x.Floor
  }

  function AsInt(c: Cell): Option<int> {
    match c
    case Absent => None
    case Whole(n) => Some(n)
    case Flag(b) => Some(if b then 1 else 0)
    case Decimal(x) => Some(Truncate(x))
    case Text(_, parsed) => parsed
  }

  /** Python's `==` between two values: numbers by value, text by spelling. */
  predicate SameValue(a: Cell, b: Cell) {
    if Numeric(a) && Numeric(b) then Number(a) == Number(b) else a == b
  }

  predicate Numeric(c: Cell) {
    c.Whole? || c.Flag? || c.Decimal?
  }

  function Number(c: Cell): real
    requires Numeric(c)
  {
    match c
    case Whole(n) => n as real
    case Flag(b) => if b then 1.0 else 0.0
    case Decimal(x) => x
  }

  /** What an amount reads as: a whole number as itself, a truth value as one or
      nought, a decimal as the whole number it reaches on the way from zero, text
      as it parses. */
  lemma AsIntIs(c: Cell, n: int)
    ensures AsInt(c) == Some(n)
       <==> || c == Whole(n)
            || (c.Flag? && n == if c.b then 1 else 0)
            || (c.Decimal? && if c.x >= 0.0 then n as real <= c.x < (n + 1) as real
                              else (n - 1) as real < c.x <= n as real)
            || (c.Text? && c.parsed == Some(n))
  {
    if c.Decimal? {
      TruncateIs(c.x, n);
    }
  }

  lemma TruncateIs(x: real, n: int)
    ensures Truncate(x) == n
       <==> if x >= 0.0 then n as real <= x < (n + 1) as real else (n - 1) as real < x <= n as real
  {
    if x >= 0.0 {
      FloorIs(x, n);
    } else {
      FloorIs(-x, -n);
    }
  }

  lemma FloorIs(x: real, n: int)
    ensures x.Floor == n <==> n as real <= x < (n + 1) as real
  {
    var f := x.Floor;
    assert f as real <= x < (f + 1) as real;
  }

  /** Being the same value is an equivalence; a whole number and a decimal are the
      same when they are equal, true is one and false nought, and text is only ever
      the same as the same text. */
  lemma SameValueIs(a: Cell, b: Cell, c: Cell)
    ensures SameValue(a, a) && (SameValue(a, b) ==> SameValue(b, a))
    ensures SameValue(a, b) && SameValue(b, c) ==> SameValue(a, c)
    ensures a.Whole? && b.Decimal? ==> (SameValue(a, b) <==> a.n as real == b.x)
    ensures a.Whole? && b.Flag? ==> (SameValue(a, b) <==> a.n == if b.b then 1 else 0)
    ensures a.Text? ==> (SameValue(a, b) <==> a == b)
  {
  }

  function Amount(r: Row, p: Path): Cell {
    if p in r.amounts then r.amounts[p] else Absent
  }

  /** `_minor`: the amount as integer minor units, when it reads as one. */
  function Minor(r: Row, p: Path): Option<int> {
    AsInt(Amount(r, p))
  }

  function Currency(r: Row, p: Path): Option<Cur> {
    if p in r.currencies then Some(r.currencies[p]) else None
  }

  function Upper(c: Option<Cur>): string {
    if c.Some? then c.value.upper else ""
  }

  /** `_ref_key`. */
  function Key(r: Row, p: Path, caseSensitive: bool): Option<string> {
    if p !in r.refs then None
    else Some(if caseSensitive then r.refs[p].exact else r.refs[p].folded)
  }

  function Instant(r: Row, p: Path): Option<int> {
    if p in r.instants then Some(r.instants[p]) else None
  }

  function Day(r: Row, p: Path, z: Zone): Option<Calendar.Date> {
    if (p, z) in r.days then Some(r.days[(p, z)]) else None
  }

  function Phones(r: Row, p: Path): set<string> {
    if p in r.phones then r.phones[p] else {}
  }

  /** The text of every shared field; an absent one reads "None". */
  function ShareKey(r: Row, share: seq<Path>): seq<string> {
    seq(|share|, i requires 0 <= i < |share| => if share[i] in r.texts then r.texts[share[i]] else "None")
  }

  function Ids(rows: seq<Row>): set<nat> {
    set i | 0 <= i < |rows| :: rows[i].id
  }

  /** Rows are separate objects: no identity twice. */
  ghost predicate Distinct(rows: seq<Row>) {
    forall i, j :: 0 <= i < j < |rows| ==> rows[i].id != rows[j].id
  }

  /** The rows whose identity is not in the set, in order. */
  function Unclaimed(rows: seq<Row>, consumed: set<nat>): seq<Row> {
    if rows == [] then []
    else
      var n := |rows| - 1;
      Unclaimed(rows[..n], consumed) + if rows[n].id in consumed then [] else [rows[n]]
  }

  lemma {:induction false} UnclaimedElems(rows: seq<Row>, consumed: set<nat>)
    ensures forall r :: r in Unclaimed(rows, consumed) <==> r in rows && r.id !in consumed
    ensures Distinct(rows) ==> Distinct(Unclaimed(rows, consumed))
  {
    if rows != [] {
      var n := |rows| - 1;
      UnclaimedElems(rows[..n], consumed);
      assert rows == rows[..n] + [rows[n]];
      if Distinct(rows) {
        forall r | r in rows[..n] ensures r.id != rows[n].id {}
      }
    }
  }

  lemma {:induction false} UnclaimedTwice(rows: seq<Row>, a: set<nat>, b: set<nat>)
    ensures Unclaimed(Unclaimed(rows, a), b) == Unclaimed(rows, a + b)
  {
    if rows != [] {
      var n := |rows| - 1;
      UnclaimedTwice(rows[..n], a, b);
      var rest := Unclaimed(rows[..n], a);
      if rows[n].id !in a {
        assert Unclaimed(rows, a) == rest + [rows[n]];
        assert Unclaimed(rows, a)[..|rest|] == rest;
      } else {
        assert Unclaimed(rows, a) == rest;
      }
    }
  }

  lemma {:induction false} UnclaimedAll(rows: seq<Row>)
    ensures Unclaimed(rows, {}) == rows
  {
    if rows != [] {
      UnclaimedAll(rows[..|rows| - 1]);
    }
  }

  /** The rows of `s`, in the order they stand in `rows`. */
  function Listed(rows: seq<Row>, s: set<Row>): seq<Row> {
    if rows == [] then []
    else (if rows[0] in s then [rows[0]] else []) + Listed(rows[1..], s)
  }

  lemma {:induction false} ListedElems(rows: seq<Row>, s: set<Row>)
    ensures forall r :: r in Listed(rows, s) <==> r in rows && r in s
    ensures Distinct(rows) ==> Distinct(Listed(rows, s))
  {
    if rows != [] {
      ListedElems(rows[1..], s);
      assert rows == [rows[0]] + rows[1..];
      if Distinct(rows) {
        forall r | r in rows[1..] ensures r.id != rows[0].id {}
      }
    }
  }

  lemma {:induction false} DistinctCount(rows: seq<Row>, r: Row)
    requires Distinct(rows)
    ensures multiset(rows)[r] == if r in rows then 1 else 0
  {
    if rows != [] {
      assert rows == [rows[0]] + rows[1..];
      DistinctCount(rows[1..], r);
      forall q | q in rows[1..] ensures q.id != rows[0].id {}
    }
  }

  /** Taking `members` out of `rows` by identity splits the rows in two. */
  lemma ClaimSplits(rows: seq<Row>, members: seq<Row>)
    requires Distinct(rows) && Distinct(members)
    requires forall m :: m in members ==> m in rows
    ensures multiset(rows) == multiset(Unclaimed(rows, Ids(members))) + multiset(members)
  {
    var rest := Unclaimed(rows, Ids(members));
    UnclaimedElems(rows, Ids(members));
    forall r ensures multiset(rows)[r] == multiset(rest)[r] + multiset(members)[r] {
      DistinctCount(rows, r);
      DistinctCount(rest, r);
      DistinctCount(members, r);
      if r in rows && r.id in Ids(members) {
        var i :| 0 <= i < |members| && members[i].id == r.id;
        assert members[i] in rows;
        SameIdentity(rows, r, members[i]);
      }
    }
  }

  lemma SubDistinct(s: seq<Row>, t: seq<Row>)
    requires Distinct(t) && multiset(s) <= multiset(t)
    ensures Distinct(s)
  {
    forall i, j | 0 <= i < j < |s| ensures s[i].id != s[j].id {
      assert s[i] in multiset(s) && s[j] in multiset(s);
      if s[i].id == s[j].id {
        SameIdentity(t, s[i], s[j]);
        DistinctCount(t, s[i]);
        TwiceCounts(s, i, j);
      }
    }
  }

  lemma TwiceCounts(s: seq<Row>, i: nat, j: nat)
    requires i < j < |s| && s[i] == s[j]
    ensures multiset(s)[s[i]] >= 2
  {
    assert s == s[..j] + [s[j]] + s[j + 1..];
    assert s[i] in s[..j];
  }

  lemma SameIdentity(rows: seq<Row>, a: Row, b: Row)
    requires Distinct(rows) && a in rows && b in rows && a.id == b.id
    ensures a == b
  {
  }

  /** The summed minor units of a set of rows. */
  ghost function Total(p: Path, s: set<Row>): int {
    if s == {} then 0
    else
      var m :| m in s;
      Units(m, p) + Total(p, s - {m})
  }

  function Units(m: Row, p: Path): int {
    if Minor(m, p).Some? then Minor(m, p).value else 0
  }

  lemma {:induction false} TotalAdd(p: Path, s: set<Row>, m: Row)
    requires m !in s
    ensures Total(p, s + {m}) == Total(p, s) + Units(m, p)
    decreases |s|
  {
    var t := s + {m};
    var x :| x in t && Total(p, t) == Units(x, p) + Total(p, t - {x});
    if x == m {
      assert t - {x} == s;
    } else {
      assert t - {x} == (s - {x}) + {m};
      TotalAdd(p, s - {x}, m);
      TotalAdd(p, s - {x}, x);
      assert s == (s - {x}) + {x};
    }
  }

  /** Extra rows, none of them below `floor` and `floor` not negative, raise a
      total by at least `floor`. */
  lemma {:induction false} TotalGrows(p: Path, s: set<Row>, extra: set<Row>, floor: int)
    requires s !! extra && floor >= 0
    requires forall m :: m in extra ==> Units(m, p) >= floor
    ensures Total(p, s + extra) >= Total(p, s) + if extra == {} then 0 else floor
    decreases |extra|
  {
    if extra == {} {
      assert s + extra == s;
    } else {
      var m :| m in extra;
      GrowByOne(p, s, extra, m);
      TotalGrows(p, s, extra - {m}, floor);
    }
  }

  lemma GrowByOne(p: Path, s: set<Row>, extra: set<Row>, m: Row)
    requires s !! extra && m in extra
    ensures Total(p, s + extra) == Total(p, s + (extra - {m})) + Units(m, p)
  {
    var t := s + (extra - {m});
    TotalAdd(p, t, m);
    assert s + extra == t + {m};
  }
}
