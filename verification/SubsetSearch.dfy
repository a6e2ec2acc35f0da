/** `_subsets_summing`: the pruned search for groups of records that sum to
    one figure. `Enum` lists every fitting group in the order the search
    would meet it without pruning; `Search.Walk` is the search itself, and
    returns exactly the first two entries of that list. */
module SubsetSearch {
  import opened Prelude
  import opened Rows

  datatype Goal = Goal(path: Path, target: int, tolerance: int, maxMembers: nat)

  /** The reference definition: what it means for a group to fit. */
  ghost predicate Fits(g: Goal, s: set<Row>) {
    s != {} && |s| <= g.maxMembers && Abs(Total(g.path, s) - g.target) <= g.tolerance
  }

  ghost function AllFits(g: Goal, pool: set<Row>): set<set<Row>> {
    set s: set<Row> | s <= pool && Fits(g, s)
  }

  // ── the search order: by amount, equal amounts as they came ──

  function Insert(p: Path, m: Row, rows: seq<Row>): seq<Row> {
    if rows == [] || Units(m, p) <= Units(rows[0], p) then [m] + rows
    else [rows[0]] + Insert(p, m, rows[1..])
  }

  function Sorted(p: Path, rows: seq<Row>): seq<Row> {
    if rows == [] then [] else Insert(p, rows[0], Sorted(p, rows[1..]))
  }

  ghost predicate Ascending(p: Path, rows: seq<Row>) {
    forall i, j :: 0 <= i < j < |rows| ==> Units(rows[i], p) <= Units(rows[j], p)
  }

  lemma {:induction false} InsertKeeps(p: Path, m: Row, rows: seq<Row>)
    requires Ascending(p, rows)
    ensures Ascending(p, Insert(p, m, rows))
    ensures forall r :: r in Insert(p, m, rows) <==> r == m || r in rows
  {
    if rows == [] || Units(m, p) <= Units(rows[0], p) {
    } else {
      InsertKeeps(p, m, rows[1..]);
      assert rows == [rows[0]] + rows[1..];
      forall r | r in Insert(p, m, rows[1..]) ensures Units(rows[0], p) <= Units(r, p) {
        if r in rows[1..] {
          var i :| 0 <= i < |rows[1..]| && rows[1..][i] == r;
          assert rows[i + 1] == r;
        }
      }
    }
  }

  lemma {:induction false} InsertDistinct(p: Path, m: Row, rows: seq<Row>)
    requires Distinct(rows) && forall r :: r in rows ==> r.id != m.id
    ensures Distinct(Insert(p, m, rows))
    ensures forall r :: r in Insert(p, m, rows) <==> r == m || r in rows
  {
    if rows == [] || Units(m, p) <= Units(rows[0], p) {
    } else {
      InsertDistinct(p, m, rows[1..]);
      assert rows == [rows[0]] + rows[1..];
      forall r | r in Insert(p, m, rows[1..]) ensures rows[0].id != r.id {
        if r in rows[1..] {
          var i :| 0 <= i < |rows[1..]| && rows[1..][i] == r;
          assert rows[i + 1] == r;
        }
      }
    }
  }

  lemma {:induction false} SortedSorts(p: Path, rows: seq<Row>)
    ensures Ascending(p, Sorted(p, rows))
    ensures forall r :: r in Sorted(p, rows) <==> r in rows
    ensures Distinct(rows) ==> Distinct(Sorted(p, rows))
  {
    if rows != [] {
      SortedSorts(p, rows[1..]);
      InsertKeeps(p, rows[0], Sorted(p, rows[1..]));
      assert rows == [rows[0]] + rows[1..];
      if Distinct(rows) {
        forall r | r in rows[1..] ensures r.id != rows[0].id {}
        InsertDistinct(p, rows[0], Sorted(p, rows[1..]));
      }
    }
  }

  // ── the unpruned listing ──

  ghost function Enum(g: Goal, order: seq<Row>, k: nat, chosen: set<Row>): seq<set<Row>>
    requires k <= |order|
    decreases |order| - k, 1
  {
    (if Fits(g, chosen) then [chosen] else []) +
    (if |chosen| == g.maxMembers then [] else Extend(g, order, k, chosen))
  }

  ghost function Extend(g: Goal, order: seq<Row>, k: nat, chosen: set<Row>): seq<set<Row>>
    requires k <= |order|
    decreases |order| - k, 0
  {
    if k == |order| then []
    else Enum(g, order, k + 1, chosen + {order[k]}) + Extend(g, order, k + 1, chosen)
  }

  ghost predicate Open(g: Goal, order: seq<Row>, k: nat, chosen: set<Row>) {
    && k <= |order|
    && Distinct(order)
    && (forall i :: k <= i < |order| ==> order[i] !in chosen)
    && |chosen| <= g.maxMembers
  }

  lemma OpenNext(g: Goal, order: seq<Row>, k: nat, chosen: set<Row>)
    requires Open(g, order, k, chosen) && k < |order|
    ensures order[k] !in chosen
    ensures Open(g, order, k + 1, chosen)
    ensures |chosen| < g.maxMembers ==> Open(g, order, k + 1, chosen + {order[k]})
  {
  }

  lemma RestSplits(order: seq<Row>, k: nat)
    requires k < |order| && Distinct(order)
    ensures Elems(order[k..]) == {order[k]} + Elems(order[k + 1..])
    ensures order[k] !in order[k + 1..]
  {
    assert order[k..] == [order[k]] + order[k + 1..];
  }

  /** `Enum` lists exactly the fitting groups that hold `chosen` and otherwise
      only records from `order[k..]`. */
  lemma {:induction false} EnumHas(g: Goal, order: seq<Row>, k: nat, chosen: set<Row>, s: set<Row>)
    requires Open(g, order, k, chosen)
    ensures s in Enum(g, order, k, chosen) <==> chosen <= s <= chosen + Elems(order[k..]) && Fits(g, s)
    decreases |order| - k, 1
  {
    var own := if Fits(g, chosen) then [chosen] else [];
    if |chosen| == g.maxMembers {
      assert Enum(g, order, k, chosen) == own;
      if chosen <= s && Fits(g, s) {
        SubsetCard(chosen, s);
      }
    } else {
      var rest := Extend(g, order, k, chosen);
      assert Enum(g, order, k, chosen) == own + rest;
      ExtendHas(g, order, k, chosen, s);
      if chosen <= s && !(chosen < s) {
        assert s == chosen;
      }
    }
  }

  lemma {:induction false} ExtendHas(g: Goal, order: seq<Row>, k: nat, chosen: set<Row>, s: set<Row>)
    requires Open(g, order, k, chosen) && |chosen| < g.maxMembers
    ensures s in Extend(g, order, k, chosen) <==> chosen < s <= chosen + Elems(order[k..]) && Fits(g, s)
    decreases |order| - k, 0
  {
    if k < |order| {
      OpenNext(g, order, k, chosen);
      RestSplits(order, k);
      var x := order[k];
      EnumHas(g, order, k + 1, chosen + {x}, s);
      ExtendHas(g, order, k + 1, chosen, s);
      var with, without := Enum(g, order, k + 1, chosen + {x}), Extend(g, order, k + 1, chosen);
      assert Extend(g, order, k, chosen) == with + without;
      if x in s {
        assert chosen < s <= chosen + Elems(order[k..]) <==> chosen + {x} <= s <= chosen + {x} + Elems(order[k + 1..]);
      }
    }
  }

  /** No group is listed twice. */
  lemma {:induction false} EnumNoDups(g: Goal, order: seq<Row>, k: nat, chosen: set<Row>)
    requires Open(g, order, k, chosen)
    ensures NoDups(Enum(g, order, k, chosen))
    decreases |order| - k, 1
  {
    if |chosen| != g.maxMembers {
      ExtendNoDups(g, order, k, chosen);
      ExtendHas(g, order, k, chosen, chosen);
    }
  }

  lemma {:induction false} ExtendNoDups(g: Goal, order: seq<Row>, k: nat, chosen: set<Row>)
    requires Open(g, order, k, chosen) && |chosen| < g.maxMembers
    ensures NoDups(Extend(g, order, k, chosen))
    decreases |order| - k, 0
  {
    if k < |order| {
      OpenNext(g, order, k, chosen);
      RestSplits(order, k);
      var x := order[k];
      var with, without := Enum(g, order, k + 1, chosen + {x}), Extend(g, order, k + 1, chosen);
      EnumNoDups(g, order, k + 1, chosen + {x});
      ExtendNoDups(g, order, k + 1, chosen);
      forall s | s in with && s in without ensures false {
        EnumHas(g, order, k + 1, chosen + {x}, s);
        ExtendHas(g, order, k + 1, chosen, s);
      }
      NoDupsConcat(with, without);
    }
  }

  /** Over a whole group: the listing is the set of all fitting groups. */
  lemma EnumIsAllFits(g: Goal, order: seq<Row>)
    requires Distinct(order)
    ensures Elems(Enum(g, order, 0, {})) == AllFits(g, Elems(order))
    ensures NoDups(Enum(g, order, 0, {}))
    ensures |Enum(g, order, 0, {})| == |AllFits(g, Elems(order))|
  {
    assert order[0..] == order;
    EnumNoDups(g, order, 0, {});
    forall s ensures s in Enum(g, order, 0, {}) <==> s in AllFits(g, Elems(order)) {
      EnumHas(g, order, 0, {}, s);
    }
    NoDupsCard(Enum(g, order, 0, {}));
  }

  /** The pruning is harmless: with ascending amounts, none of them negative, no
      group that goes on from an overshoot can come back to the target. */
  lemma PruneLosesNothing(g: Goal, order: seq<Row>, k: nat, chosen: set<Row>)
    requires Open(g, order, k, chosen) && |chosen| < g.maxMembers && k < |order|
    requires Ascending(g.path, order) && Units(order[k], g.path) >= 0
    requires Total(g.path, chosen) + Units(order[k], g.path) > g.target + g.tolerance
    ensures Extend(g, order, k, chosen) == []
  {
    if Extend(g, order, k, chosen) != [] {
      var s := Extend(g, order, k, chosen)[0];
      ExtendHas(g, order, k, chosen, s);
      var extra := s - chosen;
      assert s == chosen + extra;
      forall m | m in extra ensures Units(m, g.path) >= Units(order[k], g.path) {
        assert m in order[k..];
      }
      TotalGrows(g.path, chosen, extra, Units(order[k], g.path));
      assert false;
    }
  }

  // ── the search ──

  /** What the code returns, as a function: the first two fits it meets. */
  ghost function Found(g: Goal, members: seq<Row>): seq<set<Row>> {
    FirstTwo(Enum(g, Sorted(g.path, members), 0, {}))
  }

  /** What `walk` appends for the group in hand, and for those that go on. */
  lemma EnumIs(found: seq<set<Row>>, g: Goal, order: seq<Row>, k: nat, chosen: set<Row>)
    requires Open(g, order, k, chosen)
    ensures var now := found + if Fits(g, chosen) then [chosen] else [];
            found + Enum(g, order, k, chosen)
            == if |chosen| == g.maxMembers then now else now + Extend(g, order, k, chosen)
  {
    var now := found + if Fits(g, chosen) then [chosen] else [];
    assert now + [] == now;
  }

  /** The closure of `_subsets_summing`: the sorted records and the list
      `walk` appends to. */
  class Search {
    const g: Goal
    const order: seq<Row>
    const positive: bool
    var found: seq<set<Row>>

    constructor (g: Goal, members: seq<Row>)
      ensures this.g == g && order == Sorted(g.path, members) && found == []
      ensures positive <==> forall m :: m in members ==> Units(m, g.path) >= 0
    {
      this.g := g;
      this.order := Sorted(g.path, members);
      this.positive := forall m :: m in members ==> Units(m, g.path) >= 0;
      this.found := [];
    }

    ghost predicate Ready() {
      && Distinct(order)
      && Ascending(g.path, order)
      && (positive ==> forall i :: 0 <= i < |order| ==> Units(order[i], g.path) >= 0)
    }

    method Walk(start: nat, chosen: set<Row>, total: int)
      requires Ready() && Open(g, order, start, chosen)
      requires total == Total(g.path, chosen)
      requires |found| <= 2
      modifies this`found
      ensures found == FirstTwo(old(found) + Enum(g, order, start, chosen))
      ensures |found| <= 2
      decreases |order| - start, 2
    {
      if |found| > 1 {
        FirstTwoDone(found, Enum(g, order, start, chosen));
        return;
      }
      EnumIs(found, g, order, start, chosen);
      if chosen != {} && Abs(total - g.target) <= g.tolerance {
        found := found + [chosen];
      }
      if |chosen| == g.maxMembers {
        return;
      }
      Scan(start, chosen, total);
    }

    /** The `for` loop of `walk`. */
    method Scan(start: nat, chosen: set<Row>, total: int)
      requires Ready() && Open(g, order, start, chosen) && |chosen| < g.maxMembers
      requires total == Total(g.path, chosen)
      requires |found| <= 2
      modifies this`found
      ensures found == FirstTwo(old(found) + Extend(g, order, start, chosen))
      ensures |found| <= 2
      decreases |order| - start, 1
    {
      ghost var goal := FirstTwo(old(found) + Extend(g, order, start, chosen));
      var k, going := start, true;
      while k < |order| && going
        invariant start <= k <= |order| && |found| <= 2
        invariant Open(g, order, k, chosen)
        invariant FirstTwo(found + Extend(g, order, k, chosen)) == goal
        invariant !going ==> found == goal
        decreases |order| - k, going
      {
        going := Try(k, chosen, total);
        k := if going then k + 1 else k;
      }
      if k == |order| {
        FirstTwoDone(found, []);
      }
    }

    /** The body of that loop; false when it breaks or returns. */
    method Try(k: nat, chosen: set<Row>, total: int) returns (going: bool)
      requires Ready() && k < |order| && Open(g, order, k, chosen) && |chosen| < g.maxMembers
      requires total == Total(g.path, chosen)
      requires |found| <= 2
      modifies this`found
      ensures |found| <= 2 && Open(g, order, k + 1, chosen)
      ensures going ==>
                FirstTwo(found + Extend(g, order, k + 1, chosen)) == FirstTwo(old(found) + Extend(g, order, k, chosen))
      ensures !going ==> found == FirstTwo(old(found) + Extend(g, order, k, chosen))
                         && FirstTwo(found + Extend(g, order, k, chosen)) == found
      decreases |order| - k, 0
    {
      var m := order[k];
      OpenNext(g, order, k, chosen);
      if positive && total + Units(m, g.path) > g.target + g.tolerance {
        PruneLosesNothing(g, order, k, chosen);
        FirstTwoDone(found, []);
        return false;
      }
      TotalAdd(g.path, chosen, m);
      Walk(k + 1, chosen + {m}, total + Units(m, g.path));
      Splice(old(found), found, FirstTwo(old(found) + Extend(g, order, k, chosen)), g, order, k, chosen);
      going := |found| <= 1;
      if !going {
        FirstTwoDone(found, Extend(g, order, k + 1, chosen));
        FirstTwoDone(found, Extend(g, order, k, chosen));
      }
    }
  }

  lemma Splice(before: seq<set<Row>>, after: seq<set<Row>>, goal: seq<set<Row>>, g: Goal, order: seq<Row>, k: nat,
               chosen: set<Row>)
    requires k < |order|
    requires after == FirstTwo(before + Enum(g, order, k + 1, chosen + {order[k]}))
    requires goal == FirstTwo(before + Extend(g, order, k, chosen))
    ensures FirstTwo(after + Extend(g, order, k + 1, chosen)) == goal
  {
    var with, without := Enum(g, order, k + 1, chosen + {order[k]}), Extend(g, order, k + 1, chosen);
    assert before + Extend(g, order, k, chosen) == (before + with) + without;
    FirstTwoAppend(before + with, without);
  }

  method SubsetsSumming(g: Goal, members: seq<Row>) returns (found: seq<set<Row>>)
    requires Distinct(members)
    ensures found == Found(g, members)
  {
    var search := new Search(g, members);
    SortedSorts(g.path, members);
    assert search.order[0..] == search.order;
    search.Walk(0, {}, 0);
    found := search.found;
  }

  /** The pruned search is exact: it returns min(2, N) different groups, every
      one a fit, where N counts all fitting groups of the records given. */
  lemma SearchIsExact(g: Goal, members: seq<Row>)
    requires Distinct(members)
    ensures var n := |AllFits(g, Elems(members))|; |Found(g, members)| == if n < 2 then n else 2
    ensures NoDups(Found(g, members))
    ensures forall s :: s in Found(g, members) ==> s in AllFits(g, Elems(members))
    ensures |Found(g, members)| < 2 ==> Elems(Found(g, members)) == AllFits(g, Elems(members))
  {
    var order := Sorted(g.path, members);
    SortedSorts(g.path, members);
    assert Elems(order) == Elems(members);
    EnumIsAllFits(g, order);
    var all := Enum(g, order, 0, {});
    assert forall s :: s in all ==> s in Elems(all);
  }
}
