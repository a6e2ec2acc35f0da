/** Fixed-window attempt limits, in memory. A ghost log of what each key was
    admitted for, and when, gives the windows their meaning. */
module Limits {
  import opened Prelude

  const MAX_KEYS: nat := 100_000

  datatype Rule = Rule(name: string, limit: int, window: real)

  type Key = (string, string)

  datatype Entry = Entry(start: real, n: int)

  datatype Event = Event(at: real, cost: nat)

  type Check = (Rule, string)

  function KeyOf(c: Check): Key {
    (c.0.name, c.1)
  }

  /** The window an attempt falls in: the stored one, or a new one from now. */
  function Window(rule: Rule, entry: Option<Entry>, now: real): Entry {
    if entry == None || now - entry.value.start >= rule.window then Entry(now, 0) else entry.value
  }

  function At(hits: map<Key, Entry>, k: Key): Option<Entry> {
    if k in hits then Some(hits[k]) else None
  }

  predicate Refused(hits: map<Key, Entry>, c: Check, cost: nat, now: real) {
    Window(c.0, At(hits, KeyOf(c)), now).n + cost > c.0.limit
  }

  function Max(a: real, b: real): real {
    if a < b then b else a
  }

  /** Seconds until the last refusing window resets, 0 when none refuses. */
  function Wait(hits: map<Key, Entry>, checks: seq<Check>, cost: nat, now: real): real {
    if checks == [] then 0.0
    else
      var n := |checks| - 1;
      var c, wait := checks[n], Wait(hits, checks[..n], cost, now);
      if Refused(hits, c, cost, now)
      then Max(wait, Window(c.0, At(hits, KeyOf(c)), now).start + c.0.window - now)
      else wait
  }

  /** The clock has not run backwards: no stored window starts in the future. */
  ghost predicate Started(hits: map<Key, Entry>, now: real) {
    forall k :: k in hits ==> hits[k].start <= now
  }

  ghost predicate Blocks(hits: map<Key, Entry>, c: Check, cost: nat, now: real) {
    c.0.window > 0.0 && Refused(hits, c, cost, now)
  }

  /** An attempt has to wait exactly when a rule with a positive window refuses
      it: a rule whose window is zero or less refuses nothing. */
  lemma {:induction false} WaitMeans(hits: map<Key, Entry>, checks: seq<Check>, cost: nat, now: real)
    requires Started(hits, now)
    ensures Wait(hits, checks, cost, now) >= 0.0
    ensures Wait(hits, checks, cost, now) > 0.0 <==> exists c :: c in checks && Blocks(hits, c, cost, now)
  {
    if checks != [] {
      var n := |checks| - 1;
      var before, last := checks[..n], checks[n];
      WaitMeans(hits, before, cost, now);
      assert checks == before + [last];
      if Blocks(hits, last, cost, now) {
        assert last in checks;
      } else if Wait(hits, before, cost, now) > 0.0 {
        var c :| c in before && Blocks(hits, c, cost, now);
        assert c in checks;
      }
    }
  }

  /** A rule without a window admits an attempt that is past its limit. */
  lemma NoWindowNoLimit(rule: Rule, who: string, now: real)
    requires rule.window <= 0.0 && rule.limit == 0
    ensures Refused(map[], (rule, who), 1, now) && Wait(map[], [(rule, who)], 1, now) == 0.0
  {
    var checks: seq<Check> := [(rule, who)];
    assert checks[..0] == [];
    assert Wait(map[], checks[..0], 1, now) == 0.0;
  }

  /** And the wait is exact: with nothing else counted in between, an attempt
      whose cost is within every limit is refused until the wait has passed and
      admitted from then on. It is the last of the refusing windows, not the
      first, that decides. */
  lemma {:induction false} WaitIsExact(hits: map<Key, Entry>, checks: seq<Check>, cost: nat, now: real, at: real)
    requires Started(hits, now) && now <= at
    requires forall c :: c in checks && c.0.window > 0.0 ==> cost <= c.0.limit
    ensures (exists c :: c in checks && Blocks(hits, c, cost, at)) <==> at < now + Wait(hits, checks, cost, now)
  {
    if checks != [] {
      var n := |checks| - 1;
      var before, last := checks[..n], checks[n];
      assert checks == before + [last];
      WaitIsExact(hits, before, cost, now, at);
      WaitMeans(hits, before, cost, now);
      BlocksUntil(hits, last, cost, now, at);
      if Blocks(hits, last, cost, at) {
        assert last in checks;
      } else if c :| c in before && Blocks(hits, c, cost, at) {
        assert c in checks;
      }
    }
  }

  /** Seconds until a check's window resets. */
  function Until(hits: map<Key, Entry>, c: Check, now: real): real {
    Window(c.0, At(hits, KeyOf(c)), now).start + c.0.window - now
  }

  /** The wait is that of some refusing window, and none resets later. */
  lemma {:induction false} WaitIsLatest(hits: map<Key, Entry>, checks: seq<Check>, cost: nat, now: real)
    returns (last: Check)
    requires Started(hits, now) && exists c :: c in checks && Blocks(hits, c, cost, now)
    ensures last in checks && Blocks(hits, last, cost, now) && Wait(hits, checks, cost, now) == Until(hits, last, now)
    ensures forall c :: c in checks && Blocks(hits, c, cost, now) ==>
              Until(hits, c, now) <= Wait(hits, checks, cost, now)
  {
    var n := |checks| - 1;
    var before, c := checks[..n], checks[n];
    assert checks == before + [c];
    WaitMeans(hits, before, cost, now);
    BlockedBriefly(hits, c, cost, now);
    if exists b :: b in before && Blocks(hits, b, cost, now) {
      last := WaitIsLatest(hits, before, cost, now);
      if Blocks(hits, c, cost, now) && Until(hits, c, now) >= Wait(hits, before, cost, now) {
        last := c;
      }
    } else {
      last := c;
    }
  }

  /** A refusing window that resets now or earlier is no reason to wait. */
  lemma BlockedBriefly(hits: map<Key, Entry>, c: Check, cost: nat, now: real)
    requires Started(hits, now)
    ensures Blocks(hits, c, cost, now) ==> Until(hits, c, now) > 0.0
    ensures Refused(hits, c, cost, now) && !Blocks(hits, c, cost, now) ==> Until(hits, c, now) <= 0.0
  {
  }

  /** What the documentation of `take` promises: the first refusing window to
      reset. */
  ghost predicate IsEarliest(hits: map<Key, Entry>, checks: seq<Check>, cost: nat, now: real, w: real) {
    && (exists c :: c in checks && Blocks(hits, c, cost, now) && Until(hits, c, now) == w)
    && forall c :: c in checks && Blocks(hits, c, cost, now) ==> w <= Until(hits, c, now)
  }

  /** The wait is that one exactly when all refusing windows reset together. */
  lemma WaitIsEarliestIff(hits: map<Key, Entry>, checks: seq<Check>, cost: nat, now: real)
    requires Started(hits, now) && exists c :: c in checks && Blocks(hits, c, cost, now)
    ensures IsEarliest(hits, checks, cost, now, Wait(hits, checks, cost, now))
       <==> forall c, d :: c in checks && d in checks && Blocks(hits, c, cost, now) && Blocks(hits, d, cost, now) ==>
              Until(hits, c, now) == Until(hits, d, now)
  {
    var last := WaitIsLatest(hits, checks, cost, now);
  }

  const MINUTE: Check := (Rule("minute", 1, 60.0), "who")
  const QUARTER: Check := (Rule("quarter", 1, 900.0), "who")

  /** Two spent windows, of a minute and of a quarter of an hour: the wait is the
      quarter, and after the minute the attempt would still be refused. */
  lemma EarliestIsTooSoon(hits: map<Key, Entry>)
    requires hits == map[KeyOf(MINUTE) := Entry(0.0, 1), KeyOf(QUARTER) := Entry(0.0, 1)]
    ensures Wait(hits, [MINUTE, QUARTER], 1, 0.0) == 900.0
    ensures IsEarliest(hits, [MINUTE, QUARTER], 1, 0.0, 60.0)
    ensures Blocks(hits, QUARTER, 1, 60.0)
  {
    var checks := [MINUTE, QUARTER];
    var first := [MINUTE];
    assert KeyOf(MINUTE) != KeyOf(QUARTER) by {
      assert "minute"[0] != "quarter"[0];
    }
    assert checks[..1] == first && first[..0] == [];
    assert Wait(hits, first[..0], 1, 0.0) == 0.0;
    assert Wait(hits, first, 1, 0.0) == 60.0;
    assert MINUTE in checks && Until(hits, MINUTE, 0.0) == 60.0;
  }

  lemma BlocksUntil(hits: map<Key, Entry>, c: Check, cost: nat, now: real, at: real)
    requires Started(hits, now) && now <= at
    requires c.0.window > 0.0 ==> cost <= c.0.limit
    ensures Blocks(hits, c, cost, at)
       <==> Refused(hits, c, cost, now) && at < Window(c.0, At(hits, KeyOf(c)), now).start + c.0.window
  {
  }

  /** Every checked key counts the attempt once. */
  function Counted(hits: map<Key, Entry>, checks: seq<Check>, cost: nat, now: real): map<Key, Entry> {
    if checks == [] then hits
    else
      var n := |checks| - 1;
      Counted(hits, checks[..n], cost, now)[
        KeyOf(checks[n]) := Bumped(checks[n].0, At(hits, KeyOf(checks[n])), cost, now)]
  }

  function Bumped(rule: Rule, entry: Option<Entry>, cost: nat, now: real): Entry {
    var w := Window(rule, entry, now);
    Entry(w.start, w.n + cost)
  }

  /** One rule per name. */
  ghost predicate Catalogued(checks: seq<Check>, catalog: map<string, Rule>) {
    forall c :: c in checks ==> c.0.name in catalog && catalog[c.0.name] == c.0
  }

  ghost function KeysIn(checks: seq<Check>): set<Key> {
    set c | c in checks :: KeyOf(c)
  }

  /** Counted once, on the checked keys only. */
  lemma {:induction false} CountedAt(hits: map<Key, Entry>, checks: seq<Check>, cost: nat, now: real,
                                     catalog: map<string, Rule>, k: Key)
    requires Catalogued(checks, catalog)
    ensures k in KeysIn(checks) ==> k.0 in catalog
    ensures At(Counted(hits, checks, cost, now), k)
         == if k in KeysIn(checks) then Some(Bumped(catalog[k.0], At(hits, k), cost, now)) else At(hits, k)
  {
    if checks != [] {
      var n := |checks| - 1;
      var before, last := checks[..n], checks[n];
      assert checks == before + [last];
      CountedAt(hits, before, cost, now, catalog, k);
      assert KeysIn(checks) == KeysIn(before) + {KeyOf(last)};
    }
  }

  lemma {:induction false} CountedSize(hits: map<Key, Entry>, checks: seq<Check>, cost: nat, now: real)
    ensures |Counted(hits, checks, cost, now)| <= |hits| + |checks|
  {
    if checks != [] {
      var n := |checks| - 1;
      CountedSize(hits, checks[..n], cost, now);
      MapGrowsByOne(Counted(hits, checks[..n], cost, now), KeyOf(checks[n]),
                    Bumped(checks[n].0, At(hits, KeyOf(checks[n])), cost, now));
    }
  }

  lemma MapGrowsByOne<K, V>(m: map<K, V>, k: K, v: V)
    ensures |m[k := v]| <= |m| + 1
  {
    assert m[k := v].Keys == m.Keys + {k};
  }

  // ── the log of one key ──

  /** The entry a log of admissions leaves behind. */
  ghost function Replay(rule: Rule, log: seq<Event>): Option<Entry> {
    if log == [] then None
    else
      var n := |log| - 1;
      Some(Bumped(rule, Replay(rule, log[..n]), log[n].cost, log[n].at))
  }

  /** Admissions in time order, none of them past its window's limit. */
  ghost predicate Legal(rule: Rule, log: seq<Event>) {
    log == [] ||
    var n := |log| - 1;
    && Legal(rule, log[..n])
    && (n > 0 ==> log[n - 1].at <= log[n].at)
    && Window(rule, Replay(rule, log[..n]), log[n].at).n + log[n].cost <= rule.limit
  }

  /** The cost admitted from an instant on. */
  ghost function Since(log: seq<Event>, x: real): nat {
    if log == [] then 0
    else
      var n := |log| - 1;
      Since(log[..n], x) + if log[n].at >= x then log[n].cost else 0
  }

  /** The cost admitted between two instants, both included. */
  ghost function Between(log: seq<Event>, x: real, y: real): nat {
    if log == [] then 0
    else
      var n := |log| - 1;
      Between(log[..n], x, y) + if x <= log[n].at <= y then log[n].cost else 0
  }

  lemma {:induction false} SinceShrinks(log: seq<Event>, x: real, y: real)
    requires x <= y
    ensures Since(log, y) <= Since(log, x)
  {
    if log != [] {
      SinceShrinks(log[..|log| - 1], x, y);
    }
  }

  /** Events after every logged one count for nothing. */
  lemma {:induction false} SinceLast(rule: Rule, log: seq<Event>, x: real)
    requires Legal(rule, log) && (log != [] ==> log[|log| - 1].at < x)
    ensures Since(log, x) == 0
  {
    if log != [] {
      SinceLast(rule, log[..|log| - 1], x);
    }
  }

  /** The open window: its entry counts exactly the admissions since it began,
      within the limit, and every admission so far came before it closes. */
  lemma {:induction false} WindowCounts(rule: Rule, log: seq<Event>)
    requires rule.window > 0.0 && Legal(rule, log) && log != []
    ensures var e, last := Replay(rule, log).value, log[|log| - 1];
            && e.start <= last.at < e.start + rule.window
            && Since(log, e.start) == e.n <= rule.limit
  {
    var n := |log| - 1;
    if n > 0 {
      WindowCounts(rule, log[..n]);
      if log[n].at - Replay(rule, log[..n]).value.start >= rule.window {
        SinceLast(rule, log[..n], log[n].at);
      }
    }
  }

  /** From less than a window before the open one began: at most one more
      window's worth. */
  lemma {:induction false} TailBound(rule: Rule, log: seq<Event>, x: real)
    requires rule.window > 0.0 && Legal(rule, log) && log != []
    requires x > Replay(rule, log).value.start - rule.window
    ensures Since(log, x) <= Replay(rule, log).value.n + rule.limit
  {
    var n := |log| - 1;
    WindowCounts(rule, log);
    if n > 0 {
      WindowCounts(rule, log[..n]);
      var before := Replay(rule, log[..n]).value;
      if log[n].at - before.start >= rule.window {
        SinceShrinks(log[..n], before.start, x);
      } else {
        TailBound(rule, log[..n], x);
      }
    }
  }

  lemma {:induction false} BetweenIsSince(rule: Rule, log: seq<Event>, x: real, y: real)
    requires Legal(rule, log) && (log != [] ==> log[|log| - 1].at <= y)
    ensures Between(log, x, y) == Since(log, x)
  {
    if log != [] {
      BetweenIsSince(rule, log[..|log| - 1], x, y);
    }
  }

  /** The open window began with an admission, and every admission from that one on
      came within one window of it. */
  lemma {:induction false} WindowOpensAt(rule: Rule, log: seq<Event>) returns (j: nat)
    requires rule.window > 0.0 && Legal(rule, log) && log != []
    ensures j < |log| && log[j].at == Replay(rule, log).value.start
    ensures forall k :: j <= k < |log| ==> log[j].at <= log[k].at < log[j].at + rule.window
  {
    var n := |log| - 1;
    WindowCounts(rule, log);
    j := n;
    if n > 0 && log[n].at - Replay(rule, log[..n]).value.start < rule.window {
      j := WindowOpensAt(rule, log[..n]);
    }
  }

  /** Over a whole run, whatever the attempts: in any interval shorter than the
      window a key is admitted for at most twice the limit. */
  lemma {:induction false} TwiceTheLimit(rule: Rule, log: seq<Event>, x: real, y: real)
    requires rule.window > 0.0 && rule.limit >= 0 && Legal(rule, log) && y - x < rule.window
    ensures Between(log, x, y) <= 2 * rule.limit
  {
    if log != [] {
      var n := |log| - 1;
      if log[n].at > y {
        TwiceTheLimit(rule, log[..n], x, y);
      } else {
        BetweenIsSince(rule, log, x, y);
        WindowCounts(rule, log);
        TailBound(rule, log, x);
      }
    }
  }

  /** The factor two is reached: a full limit at the end of one window and
      another at the start of the next. */
  lemma TwiceTheLimitIsReached(rule: Rule, short: real)
    requires 0.0 < short < rule.window && rule.limit >= 0
    ensures var log := [Event(0.0, 0), Event(rule.window - short, rule.limit), Event(rule.window, rule.limit)];
            Legal(rule, log) && Between(log, rule.window - short, rule.window) == 2 * rule.limit
  {
    var log := [Event(0.0, 0), Event(rule.window - short, rule.limit), Event(rule.window, rule.limit)];
    assert log[..2][..1] == [log[0]] && log[..1] == [log[0]] && log[..1][..0] == [];
    assert log[..2] == [log[0], log[1]];
    assert Replay(rule, log[..1]) == Some(Entry(0.0, 0));
    assert Legal(rule, log[..1]);
    assert Replay(rule, log[..2]) == Some(Entry(0.0, rule.limit));
    assert Legal(rule, log[..2]);
    assert Between(log[..1], rule.window - short, rule.window) == 0;
    assert Between(log[..2], rule.window - short, rule.window) == rule.limit;
  }

  // ── the table ──

  /** The windows a sweep goes by; not every rule is in the table. */
  function SweepWindows(): map<string, real> {
    map["signup:ip" := 3600.0, "signup:address" := 3600.0, "signin:ip" := 900.0,
        "signin:address" := 900.0, "verify:ip" := 900.0, "test:ip" := 600.0, "test:tenant" := 600.0,
        "sql:recon:tenant" := 60.0, "import:tenant" := 3600.0]
  }

  function SweepWindow(windows: map<string, real>, name: string): real {
    if name in windows then windows[name] else 0.0
  }

  /** The entries a sweep keeps at first. */
  function Live(windows: map<string, real>, hits: map<Key, Entry>, now: real): map<Key, Entry> {
    map k | k in hits && now - hits[k].start < SweepWindow(windows, k.0) :: hits[k]
  }

  /** Dropping what has expired changes no answer, then or later, for a rule whose
      window is in the sweep's table. For one that is not in the table it forgets
      every attempt: what was refused is then admitted whenever the cost alone is
      within the limit. */
  lemma SweepAnswers(windows: map<string, real>, hits: map<Key, Entry>, c: Check, cost: nat, now: real, at: real)
    requires Started(hits, now) && now <= at
    ensures c.0.name in windows && windows[c.0.name] >= c.0.window ==>
              (Refused(Live(windows, hits, now), c, cost, at) <==> Refused(hits, c, cost, at))
    ensures c.0.name !in windows ==> (Refused(Live(windows, hits, now), c, cost, at) <==> cost > c.0.limit)
  {
  }

  const UNLOCK: Check := (Rule("ops:unlock", 5, 900.0), "who")

  /** Five attempts at an unlock, and a sixth a second later. */
  lemma UnlockForgotten(hits: map<Key, Entry>)
    requires hits == map[KeyOf(UNLOCK) := Entry(0.0, 5)]
    ensures Refused(hits, UNLOCK, 1, 1.0) && !Refused(Live(SweepWindows(), hits, 1.0), UNLOCK, 1, 1.0)
  {
    assert |"ops:unlock"| == 10 && "ops:unlock"[0] == 'o';
    SweepAnswers(SweepWindows(), hits, UNLOCK, 1, 1.0, 1.0);
  }

  /** Each entry is what its key's log replays to, and the log is legal. */
  ghost predicate InStep(hits: map<Key, Entry>, log: map<Key, seq<Event>>, catalog: map<string, Rule>, clock: real) {
    && hits.Keys == log.Keys
    && forall k :: k in hits ==> k.0 in catalog && KeyInStep(catalog[k.0], hits[k], log[k], clock)
  }

  ghost predicate KeyInStep(rule: Rule, entry: Entry, log: seq<Event>, clock: real) {
    && log != [] && log[|log| - 1].at <= clock && entry.start <= clock
    && Replay(rule, log) == Some(entry)
    && (rule.window > 0.0 ==> Legal(rule, log))
  }

  /** The log after an admitted attempt: one event more on each checked key. */
  ghost function Logged(log: map<Key, seq<Event>>, checks: seq<Check>, e: Event): map<Key, seq<Event>> {
    map k | k in log.Keys + KeysIn(checks) ::
      (if k in log then log[k] else []) + if k in KeysIn(checks) then [e] else []
  }

  /** Counting an admitted attempt keeps every key's log and entry in step. */
  lemma CountedInStep(hits: map<Key, Entry>, log: map<Key, seq<Event>>, catalog: map<string, Rule>, clock: real,
                      checks: seq<Check>, cost: nat, now: real)
    requires InStep(hits, log, catalog, clock) && clock <= now && Catalogued(checks, catalog)
    requires forall c :: c in checks ==> !Blocks(hits, c, cost, now)
    ensures InStep(Counted(hits, checks, cost, now), Logged(log, checks, Event(now, cost)), catalog, now)
  {
    var after, grown := Counted(hits, checks, cost, now), Logged(log, checks, Event(now, cost));
    forall k ensures OneInStep(catalog, At(after, k), if k in grown then Some(grown[k]) else None, k, now) {
      CountedAt(hits, checks, cost, now, catalog, k);
      if k in KeysIn(checks) {
        CheckedInStep(hits, log, catalog, clock, checks, cost, now, k);
      } else if k in hits {
        assert grown[k] == log[k] + [] == log[k];
      }
    }
    AllInStep(after, grown, catalog, now);
  }

  /** One key's entry and log: both there, in step, or neither. */
  ghost predicate OneInStep(catalog: map<string, Rule>, entry: Option<Entry>, log: Option<seq<Event>>, k: Key,
                            clock: real) {
    && (entry.Some? <==> log.Some?)
    && (entry.Some? ==> k.0 in catalog && KeyInStep(catalog[k.0], entry.value, log.value, clock))
  }

  lemma AllInStep(hits: map<Key, Entry>, log: map<Key, seq<Event>>, catalog: map<string, Rule>, clock: real)
    requires forall k :: OneInStep(catalog, At(hits, k), if k in log then Some(log[k]) else None, k, clock)
    ensures InStep(hits, log, catalog, clock)
  {
    forall k ensures k in hits <==> k in log
      ensures k in hits ==> k.0 in catalog && KeyInStep(catalog[k.0], hits[k], log[k], clock)
    {
      assert OneInStep(catalog, At(hits, k), if k in log then Some(log[k]) else None, k, clock);
    }
    assert hits.Keys == log.Keys;
  }

  lemma CheckedInStep(hits: map<Key, Entry>, log: map<Key, seq<Event>>, catalog: map<string, Rule>, clock: real,
                      checks: seq<Check>, cost: nat, now: real, k: Key)
    requires InStep(hits, log, catalog, clock) && clock <= now && Catalogued(checks, catalog)
    requires forall c :: c in checks ==> !Blocks(hits, c, cost, now)
    requires k in KeysIn(checks)
    ensures k.0 in catalog
    ensures KeyInStep(catalog[k.0], Bumped(catalog[k.0], At(hits, k), cost, now),
                      (if k in log then log[k] else []) + [Event(now, cost)], now)
  {
    var c :| c in checks && KeyOf(c) == k;
    assert catalog[k.0] == c.0 && !Blocks(hits, c, cost, now);
    BumpInStep(c.0, At(hits, k), if k in log then log[k] else [], clock, cost, now);
  }

  lemma BumpInStep(rule: Rule, entry: Option<Entry>, log: seq<Event>, clock: real, cost: nat, now: real)
    requires if entry == None then log == [] else KeyInStep(rule, entry.value, log, clock)
    requires clock <= now
    requires rule.window > 0.0 ==> Window(rule, entry, now).n + cost <= rule.limit
    ensures KeyInStep(rule, Bumped(rule, entry, cost, now), log + [Event(now, cost)], now)
  {
    assert (log + [Event(now, cost)])[..|log|] == log;
    assert Replay(rule, log) == entry;
  }

  lemma LaterInStep(hits: map<Key, Entry>, log: map<Key, seq<Event>>, catalog: map<string, Rule>, clock: real,
                    now: real)
    requires InStep(hits, log, catalog, clock) && clock <= now
    ensures InStep(hits, log, catalog, now)
  {
  }

  /** The cost a check's key was admitted for since its window opened; nothing when
      none is open. */
  ghost function Spent(hits: map<Key, Entry>, log: map<Key, seq<Event>>, c: Check, now: real): nat {
    var k := KeyOf(c);
    if k in hits && k in log && now < hits[k].start + c.0.window then Since(log[k], hits[k].start) else 0
  }

  /** Every rule with a window has room for this attempt. */
  ghost predicate HasRoom(hits: map<Key, Entry>, log: map<Key, seq<Event>>, checks: seq<Check>, cost: nat, now: real) {
    forall c :: c in checks && c.0.window > 0.0 ==> Spent(hits, log, c, now) + cost <= c.0.limit
  }

  /** A rule with a window refuses exactly when what its key was admitted for since
      the window opened leaves no room for the cost. */
  lemma BlocksIff(hits: map<Key, Entry>, log: map<Key, seq<Event>>, catalog: map<string, Rule>, clock: real,
                  c: Check, cost: nat, now: real)
    requires InStep(hits, log, catalog, clock) && c.0.name in catalog && catalog[c.0.name] == c.0
    ensures Blocks(hits, c, cost, now) <==> c.0.window > 0.0 && Spent(hits, log, c, now) + cost > c.0.limit
  {
    var k := KeyOf(c);
    if k in hits && c.0.window > 0.0 {
      assert KeyInStep(catalog[k.0], hits[k], log[k], clock);
      WindowCounts(c.0, log[k]);
    }
  }

  lemma RoomIff(hits: map<Key, Entry>, log: map<Key, seq<Event>>, catalog: map<string, Rule>, clock: real,
                checks: seq<Check>, cost: nat, now: real)
    requires InStep(hits, log, catalog, clock) && Catalogued(checks, catalog)
    ensures HasRoom(hits, log, checks, cost, now) <==> forall c :: c in checks ==> !Blocks(hits, c, cost, now)
  {
    forall c | c in checks
      ensures Blocks(hits, c, cost, now) <==> c.0.window > 0.0 && Spent(hits, log, c, now) + cost > c.0.limit
    {
      BlocksIff(hits, log, catalog, clock, c, cost, now);
    }
  }

  /** The newer half of a table: nothing dropped is newer than what is kept. */
  ghost predicate IsNewerHalf(all: map<Key, Entry>, kept: map<Key, Entry>) {
    && |kept| == |all| - |all| / 2
    && (forall k :: k in kept ==> k in all && kept[k] == all[k])
    && forall k, gone :: k in kept && gone in all && gone !in kept ==> all[gone].start <= all[k].start
  }

  /** What a sweep leaves of a table. */
  ghost predicate Swept(windows: map<string, real>, was: map<Key, Entry>, now: map<Key, Entry>, at: real) {
    var live := Live(windows, was, at);
    if |live| <= MAX_KEYS then now == live else IsNewerHalf(live, now)
  }

  method Oldest(hits: map<Key, Entry>) returns (oldest: Key)
    requires hits != map[]
    ensures oldest in hits && forall k :: k in hits ==> hits[oldest].start <= hits[k].start
  {
    var rest := hits.Keys;
    oldest :| oldest in rest;
    rest := rest - {oldest};
    while rest != {}
      invariant oldest in hits && rest <= hits.Keys
      invariant forall k :: k in hits && k !in rest ==> hits[oldest].start <= hits[k].start
      decreases |rest|
    {
      var k :| k in rest;
      if hits[k].start < hits[oldest].start {
        oldest := k;
      }
      rest := rest - {k};
    }
  }

  method NewerHalf(all: map<Key, Entry>) returns (kept: map<Key, Entry>)
    ensures IsNewerHalf(all, kept)
  {
    kept := all;
    for i := 0 to |all| / 2
      invariant |kept| == |all| - i
      invariant forall k :: k in kept ==> k in all && kept[k] == all[k]
      invariant forall k, gone :: k in kept && gone in all && gone !in kept ==> all[gone].start <= all[k].start
    {
      var oldest := Oldest(kept);
      assert (kept - {oldest}).Keys == kept.Keys - {oldest};
      kept := kept - {oldest};
    }
  }

  lemma LiveShrinks(windows: map<string, real>, hits: map<Key, Entry>, now: real)
    ensures |Live(windows, hits, now)| <= |hits|
  {
    assert Live(windows, hits, now).Keys <= hits.Keys;
    SubsetCard(Live(windows, hits, now).Keys, hits.Keys);
  }

  method SweptTable(windows: map<string, real>, hits: map<Key, Entry>, now: real) returns (kept: map<Key, Entry>)
    ensures Swept(windows, hits, kept, now)
    ensures forall k :: k in kept ==> k in hits && kept[k] == hits[k]
    ensures |hits| <= 2 * MAX_KEYS ==> |kept| <= MAX_KEYS
  {
    kept := Live(windows, hits, now);
    LiveShrinks(windows, hits, now);
    if |kept| > MAX_KEYS {
      kept := NewerHalf(kept);
    }
  }

  ghost function Only(log: map<Key, seq<Event>>, keys: set<Key>): map<Key, seq<Event>> {
    map k | k in log && k in keys :: log[k]
  }

  lemma SubTableInStep(hits: map<Key, Entry>, log: map<Key, seq<Event>>, catalog: map<string, Rule>, clock: real,
                       kept: map<Key, Entry>)
    requires InStep(hits, log, catalog, clock)
    requires forall k :: k in kept ==> k in hits && kept[k] == hits[k]
    ensures InStep(kept, Only(log, kept.Keys), catalog, clock)
  {
    assert Only(log, kept.Keys).Keys == kept.Keys;
    forall k | k in kept ensures KeyInStep(catalog[k.0], kept[k], Only(log, kept.Keys)[k], clock) {
      assert KeyInStep(catalog[k.0], hits[k], log[k], clock);
    }
  }

  class Limiter {
    var hits: map<Key, Entry>
    const windows: map<string, real>
    ghost var log: map<Key, seq<Event>>
    ghost var clock: real
    ghost const catalog: map<string, Rule>

    ghost predicate Valid()
      reads this
    {
      InStep(hits, log, catalog, clock)
    }

    constructor (ghost catalog: map<string, Rule>)
      ensures Valid() && hits == map[] && windows == SweepWindows() && this.catalog == catalog
    {
      hits, windows := map[], SweepWindows();
      log := map[];
      clock := 0.0;
      this.catalog := catalog;
    }

    /** The first loop of `take`: each check's window, and the wait. */
    method Assess(checks: seq<Check>, cost: nat, now: real) returns (current: seq<(Key, Entry)>, wait: real)
      ensures wait == Wait(hits, checks, cost, now) && |current| == |checks|
      ensures forall j :: 0 <= j < |checks| ==>
                current[j] == (KeyOf(checks[j]), Window(checks[j].0, At(hits, KeyOf(checks[j])), now))
    {
      current, wait := [], 0.0;
      for i := 0 to |checks|
        invariant wait == Wait(hits, checks[..i], cost, now) && |current| == i
        invariant forall j :: 0 <= j < i ==>
                    current[j] == (KeyOf(checks[j]), Window(checks[j].0, At(hits, KeyOf(checks[j])), now))
      {
        var (rule, subject) := checks[i];
        var entry := Window(rule, At(hits, (rule.name, subject)), now);
        assert checks[..i + 1][..i] == checks[..i];
        if entry.n + cost > rule.limit {
          wait := Max(wait, entry.start + rule.window - now);
        }
        current := current + [((rule.name, subject), entry)];
      }
      assert checks[..|checks|] == checks;
    }

    /** The second loop: count the attempt on every key. */
    method Count(ghost checks: seq<Check>, current: seq<(Key, Entry)>, cost: nat, ghost now: real)
      requires |current| == |checks|
      requires forall j :: 0 <= j < |checks| ==>
                 current[j] == (KeyOf(checks[j]), Window(checks[j].0, At(hits, KeyOf(checks[j])), now))
      modifies this`hits
      ensures hits == Counted(old(hits), checks, cost, now)
    {
      for i := 0 to |current|
        invariant hits == Counted(old(hits), checks[..i], cost, now)
      {
        assert checks[..i + 1][..i] == checks[..i];
        hits := hits[current[i].0 := Entry(current[i].1.start, current[i].1.n + cost)];
      }
      assert checks[..|checks|] == checks;
    }

    /** `take`: the attempt counts on all of its keys, or changes nothing. */
    method Take(checks: seq<Check>, cost: nat, now: real) returns (wait: Option<real>)
      requires Valid() && now >= clock && Catalogued(checks, catalog)
      modifies this
      ensures Valid() && clock == now
      ensures wait == None <==> HasRoom(old(hits), old(log), checks, cost, now)
      ensures wait.Some? <==> exists c :: c in checks && Blocks(old(hits), c, cost, now)
      ensures wait.Some? ==> wait.value == Wait(old(hits), checks, cost, now) > 0.0
      ensures wait.Some? ==> hits == old(hits) && log == old(log)
      ensures wait == None ==>
                var counted := Counted(old(hits), checks, cost, now);
                var logged := Logged(old(log), checks, Event(now, cost));
                if |counted| <= MAX_KEYS then hits == counted && log == logged
                else Swept(windows, counted, hits, now) && log == Only(logged, hits.Keys)
      ensures |old(hits)| <= MAX_KEYS && |checks| <= MAX_KEYS ==> |hits| <= MAX_KEYS
    {
      var current, w := Assess(checks, cost, now);
      WaitMeans(hits, checks, cost, now);
      RoomIff(hits, log, catalog, clock, checks, cost, now);
      if w != 0.0 {
        LaterInStep(hits, log, catalog, clock, now);
        clock := now;
        return Some(w);
      }
      Admit(checks, current, cost, now);
      CountedSize(old(hits), checks, cost, now);
      if |hits| > MAX_KEYS {
        Sweep(now);
      }
      wait := None;
    }

    /** An admitted attempt is counted and logged. */
    method Admit(ghost checks: seq<Check>, current: seq<(Key, Entry)>, cost: nat, ghost now: real)
      requires Valid() && now >= clock && Catalogued(checks, catalog) && |current| == |checks|
      requires forall j :: 0 <= j < |checks| ==>
                 current[j] == (KeyOf(checks[j]), Window(checks[j].0, At(hits, KeyOf(checks[j])), now))
      requires forall c :: c in checks ==> !Blocks(hits, c, cost, now)
      modifies this
      ensures Valid() && clock == now
      ensures hits == Counted(old(hits), checks, cost, now) && log == Logged(old(log), checks, Event(now, cost))
    {
      CountedInStep(hits, log, catalog, clock, checks, cost, now);
      Count(checks, current, cost, now);
      log := Logged(log, checks, Event(now, cost));
      clock := now;
    }

    /** Bound memory: drop what has expired, then, if that is not enough, the
        oldest half. */
    method Sweep(now: real)
      requires Valid() && now == clock
      modifies this
      ensures Valid() && clock == old(clock)
      ensures Swept(windows, old(hits), hits, now)
      ensures log == Only(old(log), hits.Keys)
      ensures |old(hits)| <= 2 * MAX_KEYS ==> |hits| <= MAX_KEYS
    {
      var kept := SweptTable(windows, hits, now);
      Keep(kept);
    }

    /** The table cut to some of its entries, and the log with it. */
    method Keep(kept: map<Key, Entry>)
      requires Valid() && forall k :: k in kept ==> k in hits && kept[k] == hits[k]
      modifies this`hits, this`log
      ensures Valid() && hits == kept && log == Only(old(log), kept.Keys)
    {
      SubTableInStep(hits, log, catalog, clock, kept);
      hits, log := kept, Only(log, kept.Keys);
    }
  }

  // ── a caller who tries again and again ──

  /** Instants in order, none earlier than `from`, within one window of the first. */
  ghost predicate OneWindow(times: seq<real>, from: real, window: real) {
    forall i, j :: 0 <= i <= j < |times| ==> from <= times[i] <= times[j] < times[i] + window
  }

  /** The table while one key alone is tried inside one window. */
  ghost predicate Tried(hits: map<Key, Entry>, c: Check, times: seq<real>, i: nat)
    requires i <= |times|
  {
    if i == 0 || c.0.limit <= 0 then hits == map[]
    else hits == map[KeyOf(c) := Entry(times[0], if i < c.0.limit then i else c.0.limit)]
  }

  lemma TriedNext(hits: map<Key, Entry>, c: Check, times: seq<real>, i: nat, from: real)
    requires i < |times| && c.0.window > 0.0 && OneWindow(times, from, c.0.window) && Tried(hits, c, times, i)
    ensures Blocks(hits, c, 1, times[i]) <==> i >= c.0.limit
    ensures i < c.0.limit ==> Tried(Counted(hits, [c], 1, times[i]), c, times, i + 1)
    ensures i < c.0.limit ==> |Counted(hits, [c], 1, times[i])| == 1
    ensures i >= c.0.limit ==> Tried(hits, c, times, i + 1)
  {
    assert [c][..0] == [] && Counted(hits, [c][..0], 1, times[i]) == hits;
    assert times[i] < times[0] + c.0.window;
    assert Counted(hits, [c], 1, times[i]) == hits[KeyOf(c) := Bumped(c.0, At(hits, KeyOf(c)), 1, times[i])];
    if i < c.0.limit {
      assert Counted(hits, [c], 1, times[i]) == map[KeyOf(c) := Entry(times[0], i + 1)];
    }
  }

  /** On an empty table, single attempts inside one window are admitted up to the
      limit, all of them, and from there on refused, every one. */
  method TryEach(limiter: Limiter, c: Check, times: seq<real>) returns (waits: seq<Option<real>>)
    requires limiter.Valid() && limiter.hits == map[] && Catalogued([c], limiter.catalog) && c.0.window > 0.0
    requires OneWindow(times, limiter.clock, c.0.window)
    modifies limiter
    ensures |waits| == |times| && forall i :: 0 <= i < |times| ==> (waits[i] == None <==> i < c.0.limit)
  {
    waits := [];
    ghost var from := limiter.clock;
    for i := 0 to |times|
      invariant limiter.Valid() && Tried(limiter.hits, c, times, i) && Catalogued([c], limiter.catalog)
      invariant limiter.clock == if i == 0 then from else times[i - 1]
      invariant |waits| == i && forall j :: 0 <= j < i ==> (waits[j] == None <==> j < c.0.limit)
    {
      var wait := TryOnce(limiter, c, times[i], times, i, from);
      waits := waits + [wait];
    }
  }

  method TryOnce(limiter: Limiter, c: Check, now: real, ghost times: seq<real>, ghost i: nat, ghost from: real)
    returns (wait: Option<real>)
    requires limiter.Valid() && Catalogued([c], limiter.catalog) && c.0.window > 0.0
    requires i < |times| && now == times[i] >= limiter.clock && OneWindow(times, from, c.0.window)
    requires Tried(limiter.hits, c, times, i)
    modifies limiter
    ensures limiter.Valid() && limiter.clock == now && Tried(limiter.hits, c, times, i + 1)
    ensures wait == None <==> i < c.0.limit
  {
    TriedNext(limiter.hits, c, times, i, from);
    OneCheck(limiter.hits, c, 1, now);
    wait := limiter.Take([c], 1, now);
  }

  lemma OneCheck(hits: map<Key, Entry>, c: Check, cost: nat, now: real)
    ensures (exists x :: x in [c] && Blocks(hits, x, cost, now)) <==> Blocks(hits, c, cost, now)
  {
    assert c in [c];
  }
}
