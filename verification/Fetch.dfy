/** Reading one side: the paging loop, the record cap, and whether the rows
    returned are all there were. */
module Fetch {
  import opened Rows

  /** A page as the connector returns it. `resumes` says it carries a cursor. */
  datatype Page = Page(items: seq<Row>, resumes: bool, hasMore: bool) {
    predicate Continues() {
      resumes && hasMore
    }
  }

  /** What an operation answers with: pages in order, however upstream cuts
      them, or a list that cannot say whether there was more, or one record. */
  datatype Upstream = Paged(pages: seq<Page>) | Container(rows: seq<Row>) | Record(row: Row)

  /** A finite paged upstream: every page but the last continues. */
  ghost predicate Finite(pages: seq<Page>) {
    && pages != []
    && (forall i :: 0 <= i < |pages| - 1 ==> pages[i].Continues())
    && !pages[|pages| - 1].Continues()
  }

  function Everything(pages: seq<Page>): seq<Row> {
    if pages == [] then [] else pages[0].items + Everything(pages[1..])
  }

  function AllRows(u: Upstream): seq<Row> {
    match u
    case Paged(pages) => Everything(pages)
    case Container(rows) => rows
    case Record(row) => [row]
  }

  function Cut(rows: seq<Row>, cap: nat): seq<Row> {
    if |rows| <= cap then rows else rows[..cap]
  }

  datatype Side = Side(rows: seq<Row>, truncated: bool)

  /** `truncated`, from what was read and whether upstream had more. */
  function Close(rows: seq<Row>, more: bool, cap: nat): Side {
    Side(Cut(rows, cap), |rows| > cap || (|rows| >= cap && more))
  }

  /** Whether the loop ends: not when an operation that takes no cursor, and so
      is asked for its first page again and again, answers an empty page and
      says there is more, with room left under the cap. */
  predicate Halts(u: Upstream, takesCursor: bool, cap: nat) {
    u.Paged? && u.pages != [] && !takesCursor && u.pages[0].Continues() ==> u.pages[0].items != [] || cap == 0
  }

  /** The page asked for after `at` replies. */
  function Asked(at: nat, takesCursor: bool): nat {
    if takesCursor then at else 0
  }

  /** The paging loop from its `at`-th request on, with `rows` in hand. */
  function Walk(pages: seq<Page>, takesCursor: bool, cap: nat, at: nat, rows: seq<Row>): Side
    requires Halts(Paged(pages), takesCursor, cap) && Asked(at, takesCursor) < |pages|
    requires forall i :: 0 <= i < |pages| - 1 ==> pages[i].Continues()
    requires takesCursor ==> !pages[|pages| - 1].Continues()
    decreases if takesCursor then |pages| - at else cap - |rows|
  {
    var page := pages[Asked(at, takesCursor)];
    var now := rows + page.items;
    if !page.Continues() || |now| >= cap then Close(now, page.Continues(), cap)
    else Walk(pages, takesCursor, cap, at + 1, now)
  }

  /** `fetch_side`, as a function. */
  function Fetched(u: Upstream, takesCursor: bool, cap: nat): Side
    requires Halts(u, takesCursor, cap) && (u.Paged? ==> Finite(u.pages))
  {
    match u
    case Paged(pages) => Walk(pages, takesCursor, cap, 0, [])
    case Container(rows) => Close(rows, |rows| >= cap, cap)
    case Record(row) => Close([row], 1 >= cap, cap)
  }

  method FetchSide(u: Upstream, takesCursor: bool, cap: nat) returns (side: Side)
    requires Halts(u, takesCursor, cap) && (u.Paged? ==> Finite(u.pages))
    ensures side == Fetched(u, takesCursor, cap)
  {
    var rows: seq<Row>, more, at := [], false, 0;
    if u.Paged? {
      while true
        invariant Asked(at, takesCursor) < |u.pages|
        invariant Walk(u.pages, takesCursor, cap, at, rows) == Fetched(u, takesCursor, cap)
        decreases if takesCursor then |u.pages| - at else cap - |rows|
      {
        var page := u.pages[Asked(at, takesCursor)];
        rows := rows + page.items;
        more := page.Continues();
        if !more || |rows| >= cap {
          break;
        }
        at := at + 1;
      }
    } else {
      rows := if u.Container? then u.rows else [u.row];
      more := |rows| >= cap;
    }
    side := Close(rows, more, cap);
  }

  // ── soundness ──

  lemma {:induction false} EverythingSplits(pages: seq<Page>, at: nat)
    requires at <= |pages|
    ensures Everything(pages) == Everything(pages[..at]) + Everything(pages[at..])
  {
    if at == 0 {
      assert pages[0..] == pages;
    } else {
      var rest := pages[1..];
      EverythingSplits(rest, at - 1);
      Slices(pages, at);
      Reassociated(pages[0].items, Everything(rest[..at - 1]), Everything(rest[at - 1..]));
    }
  }

  lemma Slices(pages: seq<Page>, at: nat)
    requires 0 < at <= |pages|
    ensures pages[..at][1..] == pages[1..][..at - 1] && pages[at..] == pages[1..][at - 1..]
  {
  }

  lemma Reassociated(a: seq<Row>, b: seq<Row>, c: seq<Row>)
    ensures a + (b + c) == (a + b) + c
  {
  }

  lemma {:induction false} WalkSound(pages: seq<Page>, cap: nat, at: nat, rows: seq<Row>)
    requires Finite(pages) && at < |pages| && rows == Everything(pages[..at])
    ensures var s := Walk(pages, true, cap, at, rows);
            && s.rows == Cut(Everything(pages), cap)
            && (!s.truncated ==> s.rows == Everything(pages))
            && (s.truncated ==> |s.rows| == cap)
    decreases |pages| - at
  {
    var now := rows + pages[at].items;
    EverythingSplits(pages[..at + 1], at);
    assert pages[..at + 1][..at] == pages[..at] && pages[..at + 1][at..] == [pages[at]];
    assert Everything([pages[at]]) == pages[at].items;
    EverythingSplits(pages, at + 1);
    if !pages[at].Continues() {
      assert at == |pages| - 1;
      assert pages[at + 1..] == [];
    } else if |now| < cap {
      WalkSound(pages, cap, at + 1, now);
    }
  }

  /** Wherever the loop ends, what does not report itself truncated is all there
      is; and unless a page that continues was asked for without a cursor, it is
      the first `cap` rows in any case. */
  lemma FetchIsSound(u: Upstream, takesCursor: bool, cap: nat)
    requires Halts(u, takesCursor, cap) && (u.Paged? ==> Finite(u.pages))
    ensures var s := Fetched(u, takesCursor, cap);
            && (!s.truncated ==> s.rows == AllRows(u))
            && (s.truncated ==> |s.rows| == cap)
            && ((u.Paged? && u.pages[0].Continues() ==> takesCursor) ==> s.rows == Cut(AllRows(u), cap))
  {
    if u.Paged? {
      if takesCursor {
        WalkSound(u.pages, cap, 0, []);
      } else if u.pages[0].Continues() {
        RepeatsAreTruncated(u.pages, cap);
      } else {
        assert |u.pages| == 1;
        assert Everything(u.pages[1..]) == [];
      }
    }
  }

  /** The rows before the last page already fill the cap. */
  ghost predicate FullBeforeLast(pages: seq<Page>, cap: nat) {
    |pages| > 1 && |Everything(pages[..|pages| - 1])| >= cap
  }

  lemma EverythingGrows(pages: seq<Page>, at: nat, to: nat)
    requires at <= to <= |pages|
    ensures |Everything(pages[..at])| <= |Everything(pages[..to])|
  {
    EverythingSplits(pages[..to], at);
    assert pages[..to][..at] == pages[..at];
  }

  lemma EverythingNext(pages: seq<Page>, at: nat)
    requires at < |pages|
    ensures Everything(pages[..at + 1]) == Everything(pages[..at]) + pages[at].items
  {
    EverythingSplits(pages[..at + 1], at);
    assert pages[..at + 1][..at] == pages[..at] && pages[..at + 1][at..] == [pages[at]];
    assert Everything([pages[at]]) == pages[at].items;
  }

  /** The read ends with the last page, or on a page that fills the cap before it. */
  lemma EndsAt(pages: seq<Page>, cap: nat, at: nat, now: seq<Row>)
    requires Finite(pages) && at < |pages| && now == Everything(pages[..at + 1])
    requires !pages[at].Continues() || |now| >= cap
    requires at > 0 ==> |Everything(pages[..at])| < cap
    ensures Close(now, pages[at].Continues(), cap).truncated
       <==> |Everything(pages)| > cap || FullBeforeLast(pages, cap)
  {
    if !pages[at].Continues() {
      assert at == |pages| - 1 && pages[..at + 1] == pages;
    } else {
      EverythingGrows(pages, at + 1, |pages| - 1);
    }
  }

  lemma {:induction false} WalkTruncatedIff(pages: seq<Page>, cap: nat, at: nat, rows: seq<Row>)
    requires Finite(pages) && at < |pages| && rows == Everything(pages[..at]) && (at > 0 ==> |rows| < cap)
    ensures Walk(pages, true, cap, at, rows).truncated
       <==> |Everything(pages)| > cap || FullBeforeLast(pages, cap)
    decreases |pages| - at
  {
    var now := rows + pages[at].items;
    EverythingNext(pages, at);
    if !pages[at].Continues() || |now| >= cap {
      EndsAt(pages, cap, at, now);
    } else {
      WalkTruncatedIff(pages, cap, at + 1, now);
    }
  }

  /** When a side is truncated. Paged, it is exactly when upstream has more rows
      than the cap, or the cap was full before the last page: then even when what
      came after was empty. A bare list is whenever it fills the cap, one record
      whenever the cap is not above one; and always a page that continues when it
      is asked for without a cursor. */
  lemma TruncatedIff(u: Upstream, takesCursor: bool, cap: nat)
    requires Halts(u, takesCursor, cap) && (u.Paged? ==> Finite(u.pages))
    ensures Fetched(u, takesCursor, cap).truncated
       <==> match u
            case Paged(pages) =>
              if !takesCursor && |pages| > 1 then true else |Everything(pages)| > cap || FullBeforeLast(pages, cap)
            case Container(rows) => |rows| >= cap
            case Record(_) => cap <= 1
  {
    if u.Paged? {
      if takesCursor {
        WalkTruncatedIff(u.pages, cap, 0, []);
      } else if u.pages[0].Continues() {
        RepeatsAreTruncated(u.pages, cap);
      } else {
        assert |u.pages| == 1;
        assert Everything(u.pages[1..]) == [];
      }
    }
  }

  /** A page that fills the cap, and an empty one after it. */
  lemma EmptyPageAlarms(a: Row)
    ensures var u := Paged([Page([a], true, true), Page([], false, false)]);
            Finite(u.pages) && AllRows(u) == [a] && Fetched(u, true, 1) == Side([a], true)
  {
    var pages := [Page([a], true, true), Page([], false, false)];
    assert Everything(pages[1..][1..]) == [] && Everything(pages[1..]) == [];
    assert [] + [a] == [a];
  }

  /** A page that says there is more but carries no cursor is the last, as is one
      that carries a cursor and says there is no more: its rows are all there is. */
  lemma LonePage(items: seq<Row>, resumes: bool, hasMore: bool, takesCursor: bool, cap: nat)
    requires !(resumes && hasMore)
    ensures var u := Paged([Page(items, resumes, hasMore)]);
            && Finite(u.pages) && Halts(u, takesCursor, cap)
            && Fetched(u, takesCursor, cap) == Side(if |items| <= cap then items else items[..cap], |items| > cap)
  {
    assert [] + items == items;
  }

  /** A read is called truncated although nothing was left exactly when the rows
      that fill the cap exactly were followed by empty pages only. */
  lemma FalseAlarmIff(pages: seq<Page>, cap: nat)
    requires Finite(pages)
    ensures Fetched(Paged(pages), true, cap).truncated && Fetched(Paged(pages), true, cap).rows == Everything(pages)
       <==> |Everything(pages)| == cap && FullBeforeLast(pages, cap)
  {
    TruncatedIff(Paged(pages), true, cap);
    FetchIsSound(Paged(pages), true, cap);
    EverythingGrows(pages, |pages| - 1, |pages|);
    assert pages[..|pages|] == pages;
  }

  /** Asked without a cursor for a page that continues, the read fills the cap
      and says there was more. */
  lemma RepeatsAreTruncated(pages: seq<Page>, cap: nat)
    requires Finite(pages) && pages[0].Continues() && Halts(Paged(pages), false, cap)
    ensures var s := Fetched(Paged(pages), false, cap); s.truncated && |s.rows| == cap
  {
    if pages[0].items != [] {
      assert Again(pages[0].items, 0) == [];
      var n := WalkRepeats(pages, cap, 0);
    }
  }

  // ── termination ──

  /** The loop after some requests: still reading, with these rows in hand, or
      through. */
  datatype Progress = Reading(rows: seq<Row>) | Through(side: Side)

  /** The reply to the request made after `at` others; a finite upstream is not
      asked past its last page. */
  function Reply(pages: seq<Page>, takesCursor: bool, at: nat): Page
    requires pages != []
  {
    if Asked(at, takesCursor) < |pages| then pages[Asked(at, takesCursor)] else pages[|pages| - 1]
  }

  function Next(rows: seq<Row>, page: Page, cap: nat): Progress {
    var now := rows + page.items;
    if !page.Continues() || |now| >= cap then Through(Close(now, page.Continues(), cap)) else Reading(now)
  }

  /** After `n` requests. */
  function After(u: Upstream, takesCursor: bool, cap: nat, n: nat): Progress
    requires u.Paged? ==> Finite(u.pages)
  {
    if n == 0 then Reading([])
    else
      var p := After(u, takesCursor, cap, n - 1);
      if p.Through? then p
      else
        match u
        case Paged(pages) => Next(p.rows, Reply(pages, takesCursor, n - 1), cap)
        case Container(rows) => Through(Close(rows, |rows| >= cap, cap))
        case Record(row) => Through(Close([row], 1 >= cap, cap))
  }

  /** What the loop has still to do decides its answer: as long as it reads, the
      answer is that of `Walk` from here. */
  lemma {:induction false} AfterWalks(pages: seq<Page>, takesCursor: bool, cap: nat, n: nat)
    requires Finite(pages) && Halts(Paged(pages), takesCursor, cap)
    ensures var p := After(Paged(pages), takesCursor, cap, n);
            match p
            case Through(side) => side == Fetched(Paged(pages), takesCursor, cap)
            case Reading(rows) =>
              && Asked(n, takesCursor) < |pages|
              && Fetched(Paged(pages), takesCursor, cap) == Walk(pages, takesCursor, cap, n, rows)
              && (n > 0 && !takesCursor ==> n <= |rows| < cap)
  {
    if n > 0 {
      AfterWalks(pages, takesCursor, cap, n - 1);
    }
  }

  /** An answer once given stays. */
  lemma {:induction false} ThroughStays(u: Upstream, takesCursor: bool, cap: nat, n: nat, m: nat)
    requires (u.Paged? ==> Finite(u.pages)) && n <= m && After(u, takesCursor, cap, n).Through?
    ensures After(u, takesCursor, cap, m) == After(u, takesCursor, cap, n)
    decreases m
  {
    if n < m {
      ThroughStays(u, takesCursor, cap, n, m - 1);
    }
  }

  lemma {:induction false} NeverThrough(pages: seq<Page>, cap: nat, n: nat)
    requires Finite(pages) && !Halts(Paged(pages), false, cap)
    ensures After(Paged(pages), false, cap, n) == Reading([])
  {
    if n > 0 {
      NeverThrough(pages, cap, n - 1);
    }
  }

  /** The loop ends after some number of requests, at most one more than there
      are pages or than the cap, exactly when `Halts` says so; and what it then
      returns is what `Fetched` says. */
  lemma FetchEndsIff(u: Upstream, takesCursor: bool, cap: nat)
    requires u.Paged? ==> Finite(u.pages)
    ensures (exists n :: After(u, takesCursor, cap, n).Through?) <==> Halts(u, takesCursor, cap)
    ensures forall n :: Halts(u, takesCursor, cap) && After(u, takesCursor, cap, n).Through? ==>
              After(u, takesCursor, cap, n).side == Fetched(u, takesCursor, cap)
    ensures Halts(u, takesCursor, cap) ==>
              After(u, takesCursor, cap, 1 + if !u.Paged? then 0 else if takesCursor then |u.pages| else cap).Through?
  {
    match u
    case Paged(pages) =>
      if Halts(u, takesCursor, cap) {
        AfterWalks(pages, takesCursor, cap, 1 + if takesCursor then |pages| else cap);
        forall n | After(u, takesCursor, cap, n).Through?
          ensures After(u, takesCursor, cap, n).side == Fetched(u, takesCursor, cap)
        {
          AfterWalks(pages, takesCursor, cap, n);
        }
      } else {
        forall n ensures After(u, takesCursor, cap, n).Reading? {
          NeverThrough(pages, cap, n);
        }
      }
    case Container(_) => OneReply(u, takesCursor, cap);
    case Record(_) => OneReply(u, takesCursor, cap);
  }

  lemma OneReply(u: Upstream, takesCursor: bool, cap: nat)
    requires !u.Paged?
    ensures forall n :: n > 0 ==> After(u, takesCursor, cap, n) == Through(Fetched(u, takesCursor, cap))
    ensures After(u, takesCursor, cap, 1).Through? && After(u, takesCursor, cap, 0).Reading?
  {
    assert After(u, takesCursor, cap, 0) == Reading([]);
    assert After(u, takesCursor, cap, 1) == Through(Fetched(u, takesCursor, cap));
    forall n | n > 0 ensures After(u, takesCursor, cap, n) == Through(Fetched(u, takesCursor, cap)) {
      ThroughStays(u, takesCursor, cap, 1, n);
    }
  }

  /** An empty first page that says there is more, asked for without a cursor:
      however many requests are made, nothing has been read. */
  lemma EmptyPageNeverEnds(last: Page, n: nat)
    requires !last.Continues()
    ensures After(Paged([Page([], true, true), last]), false, 1, n) == Reading([])
  {
    NeverThrough([Page([], true, true), last], 1, n);
  }

  // ── an operation without a cursor ──

  /** `items` over and over, `n` times. */
  function Again(items: seq<Row>, n: nat): seq<Row> {
    if n == 0 then [] else Again(items, n - 1) + items
  }

  lemma {:induction false} WalkRepeats(pages: seq<Page>, cap: nat, at: nat) returns (n: nat)
    requires Finite(pages) && pages[0].Continues() && pages[0].items != []
    requires |Again(pages[0].items, at)| < cap || at == 0
    ensures var s := Walk(pages, false, cap, at, Again(pages[0].items, at));
            s.truncated && n > at && s.rows == Cut(Again(pages[0].items, n), cap) && |Again(pages[0].items, n)| >= cap
    decreases cap - |Again(pages[0].items, at)|
  {
    n := at + 1;
    if |Again(pages[0].items, n)| < cap {
      n := WalkRepeats(pages, cap, at + 1);
    }
  }

  /** Asked without a cursor for a page that continues, the code reads that page
      again until the cap. It says it was truncated; but over distinct rows
      what it returns is the start of the upstream exactly when one page
      already fills the cap. */
  lemma WithoutCursor(pages: seq<Page>, cap: nat)
    requires Finite(pages) && pages[0].Continues() && Halts(Paged(pages), false, cap) && Distinct(Everything(pages))
    ensures var s := Fetched(Paged(pages), false, cap);
            && s.truncated
            && (s.rows <= Everything(pages) <==> cap <= |pages[0].items|)
  {
    var items, all := pages[0].items, Everything(pages);
    if items == [] {
      return;
    }
    assert Again(items, 0) == [];
    var n := WalkRepeats(pages, cap, 0);
    var s := Fetched(Paged(pages), false, cap);
    AgainStarts(items, n);
    if cap > |items| {
      RepeatIsNoPrefix(s.rows, all, |items|);
    } else {
      CutIsPrefix(items, Again(items, n), all, cap);
    }
  }

  /** A page of one row, another after it, and a cap of two: the first row comes
      twice, the second not at all. */
  lemma PageOneTwice(a: Row, b: Row)
    requires a.id != b.id
    ensures var pages := [Page([a], true, true), Page([b], false, false)];
            Finite(pages) && Halts(Paged(pages), false, 2) && Fetched(Paged(pages), false, 2) == Side([a, a], true)
  {
    var pages := [Page([a], true, true), Page([b], false, false)];
    assert Walk(pages, false, 2, 1, [a]) == Close([a, a], true, 2);
    assert [] + [a] == [a];
    assert Walk(pages, false, 2, 0, []) == Walk(pages, false, 2, 1, [a]);
  }

  lemma RepeatIsNoPrefix(rows: seq<Row>, all: seq<Row>, k: nat)
    requires 0 < k < |rows| && rows[0] == rows[k] && Distinct(all)
    ensures !(rows <= all)
  {
  }

  lemma CutIsPrefix(items: seq<Row>, again: seq<Row>, all: seq<Row>, cap: nat)
    requires items <= again && items <= all && cap <= |items|
    ensures Cut(again, cap) <= all
  {
  }

  lemma {:induction false} AgainStarts(items: seq<Row>, n: nat)
    requires n > 0 && items != []
    ensures items <= Again(items, n)
    ensures n > 1 ==> |Again(items, n)| > |items| && Again(items, n)[|items|] == items[0]
    ensures n == 1 ==> Again(items, n) == items
  {
    if n == 1 {
      assert Again(items, 1) == [] + items;
    } else {
      AgainStarts(items, n - 1);
    }
  }
}
