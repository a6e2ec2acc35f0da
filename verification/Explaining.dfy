/** Which declared causes account for a difference: the smallest combination
    of stated amounts that adds up to it exactly, in declaration order. */
module Explaining {
  import opened Prelude
  import opened Rows
  import opened Declaration
  import opened Matching
  import opened Scoring
  import opened Appliers

  const MAX_PARTS: nat := 4

  // ── the figure a cause states ──

  /** Fields that carry something, in order. */
  function Carried(party: Party, fields: seq<Path>): seq<Cell> {
    if fields == [] then []
    else
      var n := |fields| - 1;
      var cell := PartyAmount(party, fields[n]);
      Carried(party, fields[..n]) + if cell == Absent then [] else [cell]
  }

  predicate Readable(cells: seq<Cell>) {
    forall c :: c in cells ==> AsInt(c).Some?
  }

  function SumCells(cells: seq<Cell>): int
    requires Readable(cells)
  {
    if cells == [] then 0
    else
      var n := |cells| - 1;
      SumCells(cells[..n]) + AsInt(cells[n]).value
  }

  /** The sum over the fields that carry something; no figure without such a
      field, or when one of them does not read as a number. */
  function Figure(party: Party, fields: seq<Path>): Option<int> {
    var cells := Carried(party, fields);
    if cells != [] && Readable(cells) then Some(SumCells(cells)) else None
  }

  /** What the loop knows after `i` fields: a total, and whether anything was
      carried. */
  ghost predicate SoFar(party: Party, fields: seq<Path>, i: nat, total: int, seen: bool)
    requires i <= |fields|
  {
    var cells := Carried(party, fields[..i]);
    Readable(cells) && total == SumCells(cells) && (seen <==> cells != [])
  }

  lemma CarriedNext(party: Party, fields: seq<Path>, i: nat)
    requires i < |fields|
    ensures var before, cell := Carried(party, fields[..i]), PartyAmount(party, fields[i]);
            Carried(party, fields[..i + 1]) == if cell == Absent then before else before + [cell]
  {
    assert fields[..i + 1][..i] == fields[..i];
  }

  lemma SumCellsNext(cells: seq<Cell>, c: Cell)
    requires Readable(cells) && AsInt(c).Some?
    ensures Readable(cells + [c]) && SumCells(cells + [c]) == SumCells(cells) + AsInt(c).value
  {
    assert (cells + [c])[..|cells|] == cells;
  }

  lemma FieldRead(party: Party, fields: seq<Path>, i: nat, total: int, seen: bool)
    requires i < |fields| && SoFar(party, fields, i, total, seen)
    ensures var cell := PartyAmount(party, fields[i]);
            && (cell == Absent ==> SoFar(party, fields, i + 1, total, seen))
            && (cell != Absent && AsInt(cell).Some? ==> SoFar(party, fields, i + 1, total + AsInt(cell).value, true))
            && (cell != Absent && AsInt(cell) == None ==> Figure(party, fields) == None)
  {
    var cells, cell := Carried(party, fields[..i]), PartyAmount(party, fields[i]);
    CarriedNext(party, fields, i);
    if cell != Absent {
      if AsInt(cell).Some? {
        SumCellsNext(cells, cell);
      } else {
        CarriedPrefix(party, fields, i + 1);
        assert cell in cells + [cell];
      }
    }
  }

  lemma AllFieldsRead(party: Party, fields: seq<Path>, total: int, seen: bool)
    requires SoFar(party, fields, |fields|, total, seen)
    ensures Figure(party, fields) == if seen then Some(total) else None
  {
    assert fields[..|fields|] == fields;
  }

  method ComputeFigure(party: Party, fields: seq<Path>) returns (figure: Option<int>)
    ensures figure == Figure(party, fields)
  {
    var total, seen := 0, false;
    for i := 0 to |fields|
      invariant SoFar(party, fields, i, total, seen)
    {
      var cell := PartyAmount(party, fields[i]);
      FieldRead(party, fields, i, total, seen);
      if cell == Absent {
        continue;
      }
      if AsInt(cell) == None {
        return None;
      }
      total, seen := total + AsInt(cell).value, true;
    }
    AllFieldsRead(party, fields, total, seen);
    figure := if seen then Some(total) else None;
  }

  lemma {:induction false} CarriedPrefix(party: Party, fields: seq<Path>, k: nat)
    requires k <= |fields|
    ensures forall c :: c in Carried(party, fields[..k]) ==> c in Carried(party, fields)
  {
    if k == |fields| {
      assert fields[..k] == fields;
    } else {
      var n := |fields| - 1;
      CarriedPrefix(party, fields[..n], k);
      assert fields[..n][..k] == fields[..k];
    }
  }

  /** Whether an amount may stand against a gap: neither is zero, and the gap has
      the declared sign. */
  predicate Allows(e: Explains, amount: int, gap: int) {
    && amount != 0 && gap != 0
    && !(e.sign == Positive && gap < 0)
    && !(e.sign == Negative && gap > 0)
  }

  /** The causes that state an allowed figure, in declaration order. */
  function Stated(explains: seq<Explains>, p: Pairing, gap: int): seq<Part> {
    if explains == [] then []
    else
      var n := |explains| - 1;
      var e := explains[n];
      var figure := Figure(PartyOn(p, e.side), e.fields);
      Stated(explains[..n], p, gap) +
      if figure.Some? && Allows(e, figure.value, gap) then [Part(e.caption, e.side, figure.value)] else []
  }

  // ── combinations: `itertools.combinations` over indices ──

  function Prepend(x: nat, lists: seq<seq<nat>>): seq<seq<nat>> {
    seq(|lists|, i requires 0 <= i < |lists| => [x] + lists[i])
  }

  /** Combinations of `k` indices out of `from..n`, in lexicographic order. */
  function Combinations(from: nat, n: nat, k: nat): seq<seq<nat>>
    requires from <= n
    decreases n - from
  {
    if k == 0 then [[]]
    else if from == n then []
    else Prepend(from, Combinations(from + 1, n, k - 1)) + Combinations(from + 1, n, k)
  }

  /** The reference definition: strictly increasing indices out of `from..n`. */
  ghost predicate Increasing(c: seq<nat>, from: nat, n: nat) {
    c == [] || (from <= c[0] < n && Increasing(c[1..], c[0] + 1, n))
  }

  predicate InRange(c: seq<nat>, n: nat) {
    forall i :: 0 <= i < |c| ==> c[i] < n
  }

  /** `a` before `b`: they agree up to a place where `a` has the smaller index. */
  ghost predicate Before(a: seq<nat>, b: seq<nat>) {
    if a == [] || b == [] then false
    else a[0] < b[0] || (a[0] == b[0] && Before(a[1..], b[1..]))
  }

  /** An increasing choice takes the first index or it does not. */
  lemma IncreasingHave(from: nat, n: nat, c: seq<nat>)
    requires c != [] && from < n
    ensures Increasing(c, from, n) <==> (c[0] == from && Increasing(c[1..], from + 1, n)) || Increasing(c, from + 1, n)
  {
  }

  /** What the combinations that start with `from` and the others have, together
      all have. */
  lemma EitherHas(from: nat, n: nat, k: nat, with: seq<seq<nat>>, without: seq<seq<nat>>, c: seq<nat>)
    requires k > 0 && from < n
    requires c in without <==> |c| == k && Increasing(c, from + 1, n)
    requires c != [] ==> (c[1..] in with <==> |c[1..]| == k - 1 && Increasing(c[1..], from + 1, n))
    ensures c in Prepend(from, with) + without <==> |c| == k && Increasing(c, from, n)
  {
    PrependHas(from, with, c);
    if c != [] {
      IncreasingHave(from, n, c);
    }
  }

  lemma {:induction false} CombinationsExact(from: nat, n: nat, k: nat, c: seq<nat>)
    requires from <= n
    ensures c in Combinations(from, n, k) <==> |c| == k && Increasing(c, from, n)
    decreases n - from
  {
    if k == 0 {
      assert Combinations(from, n, 0) == [[]];
    } else if from < n {
      CombinationsExact(from + 1, n, k, c);
      if c != [] {
        CombinationsExact(from + 1, n, k - 1, c[1..]);
      }
      EitherHas(from, n, k, Combinations(from + 1, n, k - 1), Combinations(from + 1, n, k), c);
    }
  }

  lemma PrependHas(x: nat, lists: seq<seq<nat>>, c: seq<nat>)
    ensures c in Prepend(x, lists) <==> c != [] && c[0] == x && c[1..] in lists
  {
    if c != [] && c[0] == x && c[1..] in lists {
      var i :| 0 <= i < |lists| && lists[i] == c[1..];
      assert Prepend(x, lists)[i] == c;
    }
    if c in Prepend(x, lists) {
      var i :| 0 <= i < |lists| && Prepend(x, lists)[i] == c;
      assert c[1..] == lists[i];
    }
  }

  ghost predicate InSequence(lists: seq<seq<nat>>) {
    forall i, j :: 0 <= i < j < |lists| ==> Before(lists[i], lists[j])
  }

  /** Lists in order, each after `x`, and then lists that start later, in order. */
  lemma JoinedInOrder(x: nat, with: seq<seq<nat>>, without: seq<seq<nat>>)
    requires InSequence(with) && InSequence(without)
    requires forall j :: 0 <= j < |without| ==> without[j] != [] && without[j][0] > x
    ensures InSequence(Prepend(x, with) + without)
  {
    forall i, j | 0 <= i < j < |with| ensures Before([x] + with[i], [x] + with[j]) {
      PrependedInOrder(x, with[i], with[j]);
    }
  }

  lemma {:induction false} CombinationsInOrder(from: nat, n: nat, k: nat)
    requires from <= n
    ensures InSequence(Combinations(from, n, k))
    decreases n - from
  {
    if k > 0 && from < n {
      var with, without := Combinations(from + 1, n, k - 1), Combinations(from + 1, n, k);
      CombinationsInOrder(from + 1, n, k - 1);
      CombinationsInOrder(from + 1, n, k);
      forall j | 0 <= j < |without| ensures without[j] != [] && without[j][0] > from {
        StartsLater(from + 1, n, k, j);
      }
      JoinedInOrder(from, with, without);
      assert Combinations(from, n, k) == Prepend(from, with) + without;
    }
  }

  lemma PrependedInOrder(x: nat, a: seq<nat>, b: seq<nat>)
    requires Before(a, b)
    ensures Before([x] + a, [x] + b)
  {
    assert ([x] + a)[1..] == a && ([x] + b)[1..] == b;
  }

  lemma StartsLater(from: nat, n: nat, k: nat, j: nat)
    requires from <= n && k > 0 && j < |Combinations(from, n, k)|
    ensures Combinations(from, n, k)[j] != [] && Combinations(from, n, k)[j][0] >= from
  {
    CombinationsExact(from, n, k, Combinations(from, n, k)[j]);
  }

  // ── the search for an explanation ──

  function Magnitude(stated: seq<Part>, c: seq<nat>): int
    requires InRange(c, |stated|)
  {
    if c == [] then 0 else Abs(stated[c[0]].amount) + Magnitude(stated, c[1..])
  }

  /** `c` picks at most four causes whose magnitudes add up to the gap. */
  ghost predicate Accounts(stated: seq<Part>, gap: int, c: seq<nat>) {
    && 1 <= |c| <= MAX_PARTS
    && Increasing(c, 0, |stated|)
    && InRange(c, |stated|)
    && Magnitude(stated, c) == Abs(gap)
  }

  function Pick(stated: seq<Part>, c: seq<nat>): seq<Part>
    requires InRange(c, |stated|)
  {
    seq(|c|, k requires 0 <= k < |c| => stated[c[k]])
  }

  /** The answer: no combination accounts for the gap and none is given, or the
      one given accounts for it, none smaller does, and none of its size that
      comes earlier in declaration order does. */
  ghost predicate IsExplanation(stated: seq<Part>, gap: int, parts: seq<Part>) {
    if gap == 0 || forall c :: !Accounts(stated, gap, c) then parts == []
    else exists c :: Accounts(stated, gap, c) && parts == Pick(stated, c) && Smallest(stated, gap, c)
  }

  ghost predicate Smallest(stated: seq<Part>, gap: int, c: seq<nat>) {
    forall d :: Accounts(stated, gap, d) ==> |c| < |d| || (|c| == |d| && (c == d || Before(c, d)))
  }

  method Explain(stated: seq<Part>, gap: int) returns (parts: seq<Part>)
    ensures IsExplanation(stated, gap, parts)
  {
    if gap == 0 {
      return [];
    }
    var size := 1;
    while size <= |stated| && size <= MAX_PARTS
      invariant 1 <= size <= MAX_PARTS + 1
      invariant forall d :: Accounts(stated, gap, d) ==> |d| >= size
    {
      var found := OfSize(stated, gap, size);
      if found.Some? {
        return Pick(stated, found.value);
      }
      size := size + 1;
    }
    forall d | Accounts(stated, gap, d) ensures |d| <= |stated| {
      IncreasingFits(d, 0, |stated|);
    }
    parts := [];
  }

  /** The inner loop: the first combination of one size that accounts for the
      gap. */
  method OfSize(stated: seq<Part>, gap: int, size: nat) returns (found: Option<seq<nat>>)
    requires 1 <= size <= MAX_PARTS
    requires forall d :: Accounts(stated, gap, d) ==> |d| >= size
    ensures found.Some? ==> Accounts(stated, gap, found.value) && Smallest(stated, gap, found.value)
    ensures found == None ==> forall d :: Accounts(stated, gap, d) ==> |d| >= size + 1
  {
    var combos := Combinations(0, |stated|, size);
    for k := 0 to |combos|
      invariant NoneBefore(stated, gap, combos, k)
    {
      IsCombination(stated, size, k);
      if Magnitude(stated, combos[k]) == Abs(gap) {
        FirstIsSmallest(stated, gap, size, k);
        return Some(combos[k]);
      }
      NoneBeforeNext(stated, gap, combos, k);
    }
    NoneOfSize(stated, gap, size);
    found := None;
  }

  ghost predicate NoneBefore(stated: seq<Part>, gap: int, combos: seq<seq<nat>>, k: nat)
    requires k <= |combos|
  {
    forall i :: 0 <= i < k ==> !Accounts(stated, gap, combos[i])
  }

  lemma NoneBeforeNext(stated: seq<Part>, gap: int, combos: seq<seq<nat>>, k: nat)
    requires k < |combos| && NoneBefore(stated, gap, combos, k)
    requires !Accounts(stated, gap, combos[k])
    ensures NoneBefore(stated, gap, combos, k + 1)
  {
  }

  lemma IsCombination(stated: seq<Part>, size: nat, k: nat)
    requires k < |Combinations(0, |stated|, size)|
    ensures var c := Combinations(0, |stated|, size)[k];
            |c| == size && Increasing(c, 0, |stated|) && InRange(c, |stated|)
  {
    var c := Combinations(0, |stated|, size)[k];
    CombinationsExact(0, |stated|, size, c);
    IncreasingFits(c, 0, |stated|);
  }

  lemma NoneOfSize(stated: seq<Part>, gap: int, size: nat)
    requires forall d :: Accounts(stated, gap, d) ==> |d| >= size
    requires NoneBefore(stated, gap, Combinations(0, |stated|, size), |Combinations(0, |stated|, size)|)
    ensures forall d :: Accounts(stated, gap, d) ==> |d| >= size + 1
  {
    forall d | Accounts(stated, gap, d) ensures |d| >= size + 1 {
      CombinationsExact(0, |stated|, size, d);
    }
  }

  lemma {:induction false} IncreasingFits(c: seq<nat>, from: nat, n: nat)
    requires from <= n && Increasing(c, from, n)
    ensures InRange(c, n) && |c| <= n - from
    decreases |c|
  {
    if c != [] {
      IncreasingFits(c[1..], c[0] + 1, n);
      assert forall i :: 0 < i < |c| ==> c[i] == c[1..][i - 1];
    }
  }

  lemma FirstIsSmallest(stated: seq<Part>, gap: int, size: nat, k: nat)
    requires k < |Combinations(0, |stated|, size)|
    requires forall d :: Accounts(stated, gap, d) ==> |d| >= size
    requires NoneBefore(stated, gap, Combinations(0, |stated|, size), k)
    ensures Smallest(stated, gap, Combinations(0, |stated|, size)[k])
  {
    var c := Combinations(0, |stated|, size)[k];
    CombinationsExact(0, |stated|, size, c);
    forall d | Accounts(stated, gap, d) ensures |c| < |d| || (|c| == |d| && (c == d || Before(c, d))) {
      if |d| == size {
        LaterOfSize(stated, gap, size, k, d);
      }
    }
  }

  lemma LaterOfSize(stated: seq<Part>, gap: int, size: nat, k: nat, d: seq<nat>)
    requires k < |Combinations(0, |stated|, size)|
    requires NoneBefore(stated, gap, Combinations(0, |stated|, size), k)
    requires Accounts(stated, gap, d) && |d| == size
    ensures d == Combinations(0, |stated|, size)[k] || Before(Combinations(0, |stated|, size)[k], d)
  {
    var combos := Combinations(0, |stated|, size);
    CombinationsExact(0, |stated|, size, d);
    var j :| 0 <= j < |combos| && combos[j] == d;
    if k < j {
      CombinationsInOrder(0, |stated|, size);
    }
  }

  /** The answer is the only one: smallest and first leave no choice. */
  lemma ExplanationIsUnique(stated: seq<Part>, gap: int, a: seq<Part>, b: seq<Part>)
    requires IsExplanation(stated, gap, a) && IsExplanation(stated, gap, b)
    ensures a == b
  {
    if gap != 0 && exists c :: Accounts(stated, gap, c) {
      var c :| Accounts(stated, gap, c) && a == Pick(stated, c) && Smallest(stated, gap, c);
      var d :| Accounts(stated, gap, d) && b == Pick(stated, d) && Smallest(stated, gap, d);
      if c != d {
        NotBothBefore(c, d);
      }
    }
  }

  lemma {:induction false} NotBothBefore(a: seq<nat>, b: seq<nat>)
    ensures !(Before(a, b) && Before(b, a))
    decreases |a|
  {
    if a != [] && b != [] && a[0] == b[0] {
      NotBothBefore(a[1..], b[1..]);
    }
  }

  // ── what an explanation is made of ──

  /** The fields of one side state a figure: some carry something, all that do read
      as a number, and this is their sum. */
  ghost predicate States(party: Party, fields: seq<Path>, n: int) {
    && (exists f :: f in fields && PartyAmount(party, f) != Absent)
    && (forall f :: f in fields && PartyAmount(party, f) != Absent ==> AsInt(PartyAmount(party, f)).Some?)
    && n == FieldsTotal(party, fields)
  }

  ghost function FieldsTotal(party: Party, fields: seq<Path>): int {
    if fields == [] then 0
    else
      var n := |fields| - 1;
      var read := AsInt(PartyAmount(party, fields[n]));
      FieldsTotal(party, fields[..n]) + if read.Some? then read.value else 0
  }

  lemma {:induction false} CarriedElems(party: Party, fields: seq<Path>)
    ensures forall c :: c in Carried(party, fields) <==>
                        c != Absent && exists f :: f in fields && PartyAmount(party, f) == c
    ensures Readable(Carried(party, fields)) ==> SumCells(Carried(party, fields)) == FieldsTotal(party, fields)
  {
    if fields != [] {
      var n := |fields| - 1;
      var before, cell := Carried(party, fields[..n]), PartyAmount(party, fields[n]);
      TakeNext(fields, n);
      TakeAll(fields);
      CarriedElems(party, fields[..n]);
      assert before + [] == before;
      if cell != Absent && Readable(Carried(party, fields)) {
        assert cell in before + [cell] && forall c :: c in before ==> c in before + [cell];
        SumCellsNext(before, cell);
      }
    }
  }

  lemma FigureIff(party: Party, fields: seq<Path>, n: int)
    ensures Figure(party, fields) == Some(n) <==> States(party, fields, n)
  {
    var cells := Carried(party, fields);
    CarriedElems(party, fields);
    if cells != [] {
      assert cells[0] in cells;
    }
    forall f | f in fields && PartyAmount(party, f) != Absent ensures PartyAmount(party, f) in cells {
    }
  }

  /** The `i`-th cause states this part: its own caption and side, its fields'
      figure, which is not zero, against a gap of the sign it is declared for. */
  ghost predicate IsCause(explains: seq<Explains>, p: Pairing, gap: int, part: Part, i: nat) {
    && i < |explains| && part.caption == explains[i].caption && part.side == explains[i].side
    && States(if part.side == LeftSide then p.left else p.right, explains[i].fields, part.amount)
    && part.amount != 0 && gap != 0
    && (explains[i].sign == Positive ==> gap > 0) && (explains[i].sign == Negative ==> gap < 0)
  }

  ghost predicate Climbing(c: seq<nat>) {
    forall i, j :: 0 <= i < j < |c| ==> c[i] < c[j]
  }

  /** Parts stated by different causes, in declaration order. */
  ghost predicate FromCauses(explains: seq<Explains>, p: Pairing, gap: int, parts: seq<Part>, causes: seq<nat>) {
    && |causes| == |parts| && Climbing(causes)
    && forall j :: 0 <= j < |parts| ==> IsCause(explains, p, gap, parts[j], causes[j])
  }

  lemma CauseBefore(explains: seq<Explains>, p: Pairing, gap: int, part: Part, i: nat)
    requires explains != []
    ensures var n := |explains| - 1;
            IsCause(explains[..n], p, gap, part, i) <==> i < n && IsCause(explains, p, gap, part, i)
  {
  }

  /** The part the last cause states, if any. */
  lemma CauseLast(explains: seq<Explains>, p: Pairing, gap: int, part: Part)
    requires explains != []
    ensures var n := |explains| - 1;
            IsCause(explains, p, gap, part, n)
            <==> Stated(explains, p, gap) == Stated(explains[..n], p, gap) + [part]
  {
    var e := explains[|explains| - 1];
    var figure := Figure(PartyOn(p, e.side), e.fields);
    if figure.Some? {
      FigureIff(PartyOn(p, e.side), e.fields, figure.value);
    }
    FigureIff(PartyOn(p, e.side), e.fields, part.amount);
    if figure.Some? && Allows(e, figure.value, gap) {
      assert Stated(explains, p, gap)[|Stated(explains, p, gap)| - 1] == Part(e.caption, e.side, figure.value);
    }
  }

  lemma FromBefore(explains: seq<Explains>, p: Pairing, gap: int, parts: seq<Part>, causes: seq<nat>)
    requires explains != [] && FromCauses(explains[..|explains| - 1], p, gap, parts, causes)
    ensures FromCauses(explains, p, gap, parts, causes)
    ensures forall j :: 0 <= j < |causes| ==> causes[j] < |explains| - 1
  {
    forall j | 0 <= j < |parts|
      ensures IsCause(explains, p, gap, parts[j], causes[j]) && causes[j] < |explains| - 1
    {
      CauseBefore(explains, p, gap, parts[j], causes[j]);
    }
  }

  lemma FromSnoc(explains: seq<Explains>, p: Pairing, gap: int, parts: seq<Part>, causes: seq<nat>, part: Part, n: nat)
    requires FromCauses(explains, p, gap, parts, causes) && IsCause(explains, p, gap, part, n)
    requires forall j :: 0 <= j < |causes| ==> causes[j] < n
    ensures FromCauses(explains, p, gap, parts + [part], causes + [n])
  {
  }

  /** What is stated: a part for each cause that has one, and no other. */
  lemma {:induction false} StatedFrom(explains: seq<Explains>, p: Pairing, gap: int) returns (causes: seq<nat>)
    ensures FromCauses(explains, p, gap, Stated(explains, p, gap), causes)
    ensures forall part, i :: IsCause(explains, p, gap, part, i) ==> i in causes
  {
    causes := [];
    if explains != [] {
      var n := |explains| - 1;
      var stated, some := Stated(explains, p, gap), Stated(explains[..n], p, gap);
      var before := StatedFrom(explains[..n], p, gap);
      FromBefore(explains, p, gap, some, before);
      StatedLast(explains, p, gap, stated, some);
      if |stated| > |some| {
        CauseLast(explains, p, gap, stated[|some|]);
        FromSnoc(explains, p, gap, some, before, stated[|some|], n);
        causes := before + [n];
      } else {
        causes := before;
      }
      forall part, i | IsCause(explains, p, gap, part, i) ensures i in causes {
        CauseBefore(explains, p, gap, part, i);
        if i == n {
          CauseLast(explains, p, gap, part);
        }
      }
    }
  }

  /** The last cause adds one part or none. */
  lemma StatedLast(explains: seq<Explains>, p: Pairing, gap: int, stated: seq<Part>, some: seq<Part>)
    requires explains != []
    requires stated == Stated(explains, p, gap) && some == Stated(explains[..|explains| - 1], p, gap)
    ensures stated == if |stated| > |some| then some + [stated[|some|]] else some
  {
  }

  /** A cause states one part. */
  lemma OnePart(explains: seq<Explains>, p: Pairing, gap: int, a: Part, b: Part, i: nat)
    requires IsCause(explains, p, gap, a, i) && IsCause(explains, p, gap, b, i)
    ensures a == b
  {
  }

  lemma {:induction false} IncreasingIff(c: seq<nat>, from: nat, n: nat)
    ensures Increasing(c, from, n) <==> Climbing(c) && forall i :: 0 <= i < |c| ==> from <= c[i] < n
    decreases |c|
  {
    if c != [] {
      IncreasingIff(c[1..], c[0] + 1, n);
      assert forall i :: 0 < i < |c| ==> c[i] == c[1..][i - 1];
      assert forall i :: 0 <= i < |c[1..]| ==> c[1..][i] == c[i + 1];
    }
  }

  function Magnitudes(parts: seq<Part>): int {
    if parts == [] then 0 else Abs(parts[0].amount) + Magnitudes(parts[1..])
  }

  lemma {:induction false} PickedMagnitude(stated: seq<Part>, c: seq<nat>)
    requires InRange(c, |stated|)
    ensures Magnitude(stated, c) == Magnitudes(Pick(stated, c))
  {
    if c != [] {
      PickedMagnitude(stated, c[1..]);
      assert Pick(stated, c)[1..] == Pick(stated, c[1..]);
    }
  }

  ghost function Place(s: seq<nat>, x: nat): (k: nat)
    requires x in s
    ensures k < |s| && s[k] == x
  {
    var k :| 0 <= k < |s| && s[k] == x;
    k
  }

  /** Parts the causes state are a choice out of all that is stated. */
  lemma AsChoice(explains: seq<Explains>, p: Pairing, gap: int, stated: seq<Part>, all: seq<nat>, parts: seq<Part>,
                 causes: seq<nat>)
    returns (c: seq<nat>)
    requires FromCauses(explains, p, gap, stated, all) && FromCauses(explains, p, gap, parts, causes)
    requires forall j :: 0 <= j < |causes| ==> causes[j] in all
    ensures Increasing(c, 0, |stated|) && InRange(c, |stated|) && Pick(stated, c) == parts
    ensures |c| == |causes| && forall j :: 0 <= j < |c| ==> all[c[j]] == causes[j]
  {
    c := seq(|causes|, j requires 0 <= j < |causes| => Place(all, causes[j]));
    forall i, j | 0 <= i < j < |c| ensures c[i] < c[j] {
      assert all[c[i]] == causes[i] && all[c[j]] == causes[j];
    }
    IncreasingIff(c, 0, |stated|);
    forall j | 0 <= j < |parts| ensures stated[c[j]] == parts[j] {
      OnePart(explains, p, gap, stated[c[j]], parts[j], causes[j]);
    }
  }

  lemma ChosenFrom(explains: seq<Explains>, p: Pairing, gap: int, stated: seq<Part>, all: seq<nat>, c: seq<nat>)
    returns (causes: seq<nat>)
    requires FromCauses(explains, p, gap, stated, all) && Increasing(c, 0, |stated|) && InRange(c, |stated|)
    ensures FromCauses(explains, p, gap, Pick(stated, c), causes)
    ensures |c| == |causes| && forall j :: 0 <= j < |c| ==> all[c[j]] == causes[j]
  {
    IncreasingIff(c, 0, |stated|);
    causes := seq(|c|, j requires 0 <= j < |c| => all[c[j]]);
  }

  /** At most four parts that different causes state, in declaration order, whose
      magnitudes add up to the gap. */
  ghost predicate AddsUp(explains: seq<Explains>, p: Pairing, gap: int, parts: seq<Part>, causes: seq<nat>) {
    && FromCauses(explains, p, gap, parts, causes)
    && 1 <= |parts| <= MAX_PARTS && Magnitudes(parts) == Abs(gap)
  }

  /** `a` comes first: it has the earlier cause where the two first differ. */
  ghost predicate ComesFirst(a: seq<nat>, b: seq<nat>) {
    exists k :: 0 <= k < |a| && k < |b| && a[..k] == b[..k] && a[k] < b[k]
  }

  /** An explanation consists of such parts, no fewer do, and of those that are as
      few it comes first; and it is empty only when none do. */
  ghost predicate Explained(explains: seq<Explains>, p: Pairing, gap: int, parts: seq<Part>) {
    && (parts != [] ==> exists causes :: AddsUp(explains, p, gap, parts, causes) && IsFirst(explains, p, gap, causes))
    && forall other, causes :: AddsUp(explains, p, gap, other, causes) ==> 1 <= |parts| <= |other|
  }

  ghost predicate IsFirst(explains: seq<Explains>, p: Pairing, gap: int, causes: seq<nat>) {
    forall other, others :: AddsUp(explains, p, gap, other, others) && |others| == |causes| ==>
      others == causes || ComesFirst(causes, others)
  }

  lemma {:induction false} BeforeIff(a: seq<nat>, b: seq<nat>)
    ensures Before(a, b) <==> ComesFirst(a, b)
    decreases |a|
  {
    if a != [] && b != [] {
      BeforeIff(a[1..], b[1..]);
      if a[0] < b[0] {
        assert a[..0] == b[..0];
      }
      if k :| 0 <= k < |a| && k < |b| && a[..k] == b[..k] && a[k] < b[k] {
        FirstInTail(a, b, k);
      }
      if a[0] == b[0] && ComesFirst(a[1..], b[1..]) {
        var k :| 0 <= k < |a[1..]| && k < |b[1..]| && a[1..][..k] == b[1..][..k] && a[1..][k] < b[1..][k];
        assert a[..k + 1] == [a[0]] + a[1..][..k] && b[..k + 1] == [b[0]] + b[1..][..k];
        assert a[k + 1] < b[k + 1];
      }
    }
  }

  lemma FirstInTail(a: seq<nat>, b: seq<nat>, k: nat)
    requires k < |a| && k < |b| && a[..k] == b[..k] && a[k] < b[k]
    ensures k > 0 ==> a[0] == b[0] && ComesFirst(a[1..], b[1..])
  {
    if k > 0 {
      assert a[0] == a[..k][0] && b[0] == b[..k][0];
      assert a[1..][..k - 1] == a[..k][1..] && b[1..][..k - 1] == b[..k][1..];
      assert a[1..][k - 1] < b[1..][k - 1];
    }
  }

  /** The first of two choices out of what is stated names the earlier causes. */
  lemma FirstCauses(all: seq<nat>, c: seq<nat>, d: seq<nat>, causes: seq<nat>, others: seq<nat>)
    requires Climbing(all) && InRange(c, |all|) && InRange(d, |all|) && ComesFirst(c, d)
    requires |causes| == |c| && forall j :: 0 <= j < |c| ==> causes[j] == all[c[j]]
    requires |others| == |d| && forall j :: 0 <= j < |d| ==> others[j] == all[d[j]]
    ensures ComesFirst(causes, others)
  {
    var k :| 0 <= k < |c| && k < |d| && c[..k] == d[..k] && c[k] < d[k];
    forall j | 0 <= j < k ensures causes[..k][j] == others[..k][j] {
      assert c[..k][j] == d[..k][j];
    }
    assert causes[..k] == others[..k];
  }

  lemma ExplanationMeans(explains: seq<Explains>, p: Pairing, gap: int, parts: seq<Part>)
    requires IsExplanation(Stated(explains, p, gap), gap, parts)
    ensures Explained(explains, p, gap, parts)
  {
    var stated := Stated(explains, p, gap);
    var all := StatedFrom(explains, p, gap);
    if parts != [] {
      var c :| Accounts(stated, gap, c) && parts == Pick(stated, c) && Smallest(stated, gap, c);
      var causes := ChosenFrom(explains, p, gap, stated, all, c);
      PickedMagnitude(stated, c);
      assert AddsUp(explains, p, gap, parts, causes);
      forall other, others | AddsUp(explains, p, gap, other, others) && |others| == |causes|
        ensures others == causes || ComesFirst(causes, others)
      {
        NoneFirst(explains, p, gap, stated, all, c, causes, other, others);
      }
    }
    forall other, causes | AddsUp(explains, p, gap, other, causes) ensures 1 <= |parts| <= |other| {
      NoSmaller(explains, p, gap, stated, all, parts, other, causes);
    }
  }

  lemma NoneFirst(explains: seq<Explains>, p: Pairing, gap: int, stated: seq<Part>, all: seq<nat>, c: seq<nat>,
                  causes: seq<nat>, other: seq<Part>, others: seq<nat>)
    requires FromCauses(explains, p, gap, stated, all) && AddsUp(explains, p, gap, other, others)
    requires forall part, i :: IsCause(explains, p, gap, part, i) ==> i in all
    requires InRange(c, |stated|) && Smallest(stated, gap, c) && |others| == |causes| == |c|
    requires forall j :: 0 <= j < |c| ==> all[c[j]] == causes[j]
    ensures others == causes || ComesFirst(causes, others)
  {
    var d := ChoiceOf(explains, p, gap, stated, all, other, others);
    if c != d {
      BeforeIff(c, d);
      FirstCauses(all, c, d, causes, others);
    }
  }

  /** Parts that add up are a choice that accounts for the gap. */
  lemma ChoiceOf(explains: seq<Explains>, p: Pairing, gap: int, stated: seq<Part>, all: seq<nat>, parts: seq<Part>,
                 causes: seq<nat>)
    returns (c: seq<nat>)
    requires FromCauses(explains, p, gap, stated, all) && AddsUp(explains, p, gap, parts, causes)
    requires forall part, i :: IsCause(explains, p, gap, part, i) ==> i in all
    ensures gap != 0 && Accounts(stated, gap, c) && |c| == |causes|
    ensures forall j :: 0 <= j < |c| ==> all[c[j]] == causes[j]
  {
    forall j | 0 <= j < |causes| ensures causes[j] in all {
      assert IsCause(explains, p, gap, parts[j], causes[j]);
    }
    assert IsCause(explains, p, gap, parts[0], causes[0]);
    c := AsChoice(explains, p, gap, stated, all, parts, causes);
    PickedMagnitude(stated, c);
  }

  lemma NoSmaller(explains: seq<Explains>, p: Pairing, gap: int, stated: seq<Part>, all: seq<nat>, parts: seq<Part>,
                  other: seq<Part>, causes: seq<nat>)
    requires FromCauses(explains, p, gap, stated, all) && AddsUp(explains, p, gap, other, causes)
    requires forall part, i :: IsCause(explains, p, gap, part, i) ==> i in all
    requires IsExplanation(stated, gap, parts)
    ensures 1 <= |parts| <= |other|
  {
    var c := ChoiceOf(explains, p, gap, stated, all, other, causes);
    assert Accounts(stated, gap, c);
  }
}
