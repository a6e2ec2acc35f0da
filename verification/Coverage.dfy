/** What one side actually read: when "not found" is evidence. */
module Coverages {
  import opened Prelude
  import opened Rows

  datatype Coverage = Coverage(records: nat, cap: nat, truncated: bool, spanStart: Option<int>, spanEnd: Option<int>) {

    predicate Bounded() {
      spanStart.Some? || spanEnd.Some?
    }

    /** Would a counterpart dated `at` have been fetched here? */
    predicate Reads(at: Option<int>) {
      if truncated then false
      else if !Bounded() then true
      else if at == None then false
      else if spanStart.Some? && at.value < spanStart.value then false
      else if spanEnd.Some? && at.value > spanEnd.value then false
      else true
    }
  }

  /** The span covers an instant: no limit on either side, or a known instant
      within the limits there are. */
  ghost predicate Covers(c: Coverage, at: Option<int>) {
    (c.spanStart == None && c.spanEnd == None)
    || (at.Some? && (c.spanStart.Some? ==> c.spanStart.value <= at.value)
                 && (c.spanEnd.Some? ==> at.value <= c.spanEnd.value))
  }

  lemma ReadsIsEvidence(c: Coverage, at: Option<int>)
    ensures c.Reads(at) <==> !c.truncated && Covers(c, at)
  {
  }

  predicate Vouches(counterpart: Option<Coverage>, timestamp: Option<Path>, r: Row) {
    counterpart == None || counterpart.value.Reads(if timestamp.Some? then Instant(r, timestamp.value) else None)
  }

  /** The rows the counterpart read for (`true`), or did not (`false`). */
  function Split(rows: seq<Row>, timestamp: Option<Path>, counterpart: Option<Coverage>, read: bool): seq<Row> {
    if rows == [] then []
    else
      var n := |rows| - 1;
      Split(rows[..n], timestamp, counterpart, read)
      + if Vouches(counterpart, timestamp, rows[n]) == read then [rows[n]] else []
  }

  /** `_split_unread`. */
  method SplitUnread(rows: seq<Row>, timestamp: Option<Path>, counterpart: Option<Coverage>)
    returns (missed: seq<Row>, unread: seq<Row>)
    ensures missed == Split(rows, timestamp, counterpart, true)
    ensures unread == Split(rows, timestamp, counterpart, false)
  {
    if counterpart == None {
      AllVouched(rows, timestamp);
      return rows, [];
    }
    missed, unread := [], [];
    for i := 0 to |rows|
      invariant missed == Split(rows[..i], timestamp, counterpart, true)
      invariant unread == Split(rows[..i], timestamp, counterpart, false)
    {
      assert rows[..i + 1][..i] == rows[..i];
      if counterpart.value.Reads(if timestamp.Some? then Instant(rows[i], timestamp.value) else None) {
        missed := missed + [rows[i]];
      } else {
        unread := unread + [rows[i]];
      }
    }
    assert rows[..|rows|] == rows;
  }

  lemma {:induction false} AllVouched(rows: seq<Row>, timestamp: Option<Path>)
    ensures Split(rows, timestamp, None, true) == rows && Split(rows, timestamp, None, false) == []
  {
    if rows != [] {
      AllVouched(rows[..|rows| - 1], timestamp);
    }
  }

  /** Each row goes one way, and none is lost. */
  lemma {:induction false} SplitParts(rows: seq<Row>, timestamp: Option<Path>, counterpart: Option<Coverage>)
    ensures multiset(rows) == multiset(Split(rows, timestamp, counterpart, true))
           + multiset(Split(rows, timestamp, counterpart, false))
  {
    if rows != [] {
      var n := |rows| - 1;
      TakeNext(rows, n);
      TakeAll(rows);
      SplitParts(rows[..n], timestamp, counterpart);
      SplitLast(rows, timestamp, counterpart);
      OneToASide(rows[..n], rows[n], Split(rows[..n], timestamp, counterpart, true),
                 Split(rows[..n], timestamp, counterpart, false),
                 Split(rows, timestamp, counterpart, true), Split(rows, timestamp, counterpart, false));
    }
  }

  lemma SplitLast(rows: seq<Row>, timestamp: Option<Path>, counterpart: Option<Coverage>)
    requires rows != []
    ensures var n := |rows| - 1;
            var some := Split(rows[..n], timestamp, counterpart, true);
            var others := Split(rows[..n], timestamp, counterpart, false);
            var more, rest := Split(rows, timestamp, counterpart, true), Split(rows, timestamp, counterpart, false);
            (more == some + [rows[n]] && rest == others) || (more == some && rest == others + [rows[n]])
  {
  }

  lemma OneToASide(rows: seq<Row>, r: Row, some: seq<Row>, others: seq<Row>, more: seq<Row>, rest: seq<Row>)
    requires multiset(rows) == multiset(some) + multiset(others)
    requires (more == some + [r] && rest == others) || (more == some && rest == others + [r])
    ensures multiset(rows + [r]) == multiset(more) + multiset(rest)
  {
  }

  /** Which way is decided by the evidence alone. */
  lemma {:induction false} SplitElems(rows: seq<Row>, timestamp: Option<Path>, counterpart: Option<Coverage>,
                                      read: bool, r: Row)
    ensures r in Split(rows, timestamp, counterpart, read) <==> r in rows && Vouches(counterpart, timestamp, r) == read
  {
    if rows != [] {
      var n := |rows| - 1;
      SplitElems(rows[..n], timestamp, counterpart, read, r);
      assert rows == rows[..n] + [rows[n]];
    }
  }
}
