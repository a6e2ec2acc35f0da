/** The client-side throttle. An acquire that has to sleep stamps the bucket
    with the time it began to sleep, so the sleep is credited once more
    afterwards: throughput is bounded by twice the rate, and by the rate itself
    only as long as nothing sleeps. */
module Throttle {

  /** One acquire: when it got the lock, and when it was through. */
  datatype Call = Call(start: real, done: real)

  datatype Bucket = Bucket(tokens: real, updated: real)

  datatype Profile = Profile(rate: real, burst: nat) {
    ghost predicate Ok() {
      rate > 0.0
    }
  }

  function Min(a: real, b: real): real {
    if a < b then a else b
  }

  /** The tokens a stretch of time brings in. */
  function Worth(time: real, rate: real): real {
    time * rate
  }

  /** The tokens in the bucket at an instant. */
  function Level(p: Profile, b: Bucket, at: real): real {
    Min(p.burst as real, b.tokens + Worth(at - b.updated, p.rate))
  }

  function After(p: Profile, b: Bucket, start: real): Bucket {
    var t := Level(p, b, start);
    Bucket(if t < 1.0 then 0.0 else t - 1.0, start)
  }

  /** How long an acquire takes at least; one that need not sleep takes none. */
  predicate Takes(p: Profile, b: Bucket, c: Call)
    requires p.rate != 0.0
  {
    var t := Level(p, b, c.start);
    if t < 1.0 then c.done >= c.start + (1.0 - t) / p.rate else c.done == c.start
  }

  // ── runs ──

  ghost function Final(p: Profile, began: real, run: seq<Call>): Bucket {
    if run == [] then Bucket(p.burst as real, began)
    else After(p, Final(p, began, run[..|run| - 1]), run[|run| - 1].start)
  }

  ghost function LastDone(began: real, run: seq<Call>): real {
    if run == [] then began else run[|run| - 1].done
  }

  /** Acquires one after another, as the lock makes them. */
  ghost predicate Legal(p: Profile, began: real, run: seq<Call>)
    requires p.Ok()
  {
    run == [] ||
    var n := |run| - 1;
    && Legal(p, began, run[..n])
    && run[n].start >= LastDone(began, run[..n])
    && Takes(p, Final(p, began, run[..n]), run[n])
  }

  /** Acquires completed between two instants, both included. */
  ghost function Completed(run: seq<Call>, x: real, y: real): nat {
    if run == [] then 0
    else
      var n := |run| - 1;
      Completed(run[..n], x, y) + if x <= run[n].done <= y then 1 else 0
  }

  predicate Slept(p: Profile, b: Bucket, c: Call) {
    Level(p, b, c.start) < 1.0
  }

  /** Those of them that had to sleep. */
  ghost function Sleeps(p: Profile, began: real, run: seq<Call>, x: real, y: real): nat {
    if run == [] then 0
    else
      var n := |run| - 1;
      Sleeps(p, began, run[..n], x, y)
      + if x <= run[n].done <= y && Slept(p, Final(p, began, run[..n]), run[n]) then 1 else 0
  }

  lemma Earned(time: real, rate: real)
    requires time >= 0.0 && rate > 0.0
    ensures Worth(time, rate) >= 0.0
    ensures time == 0.0 ==> Worth(time, rate) == 0.0
  {
  }

  lemma Adds(a: real, b: real, rate: real)
    ensures Worth(a + b, rate) == Worth(a, rate) + Worth(b, rate)
  {
  }

  lemma Parts(y: real, mid: real, x: real, rate: real)
    ensures Worth(y - x, rate) == Worth(y - mid, rate) + Worth(mid - x, rate)
  {
    Adds(y - mid, mid - x, rate);
    assert (y - mid) + (mid - x) == y - x;
  }

  /** A sleep of the shortfall over the rate is worth the shortfall. */
  lemma Divided(short: real, rate: real, slept: real)
    requires rate > 0.0 && slept >= short / rate
    ensures Worth(slept, rate) >= short
  {
    var asked := short / rate;
    assert asked * rate == short;
    Adds(asked, slept - asked, rate);
    Earned(slept - asked, rate);
    assert asked + (slept - asked) == slept;
  }

  /** Tokens stay between none and a full burst; the stamp is never ahead of the
      last completion. */
  lemma {:induction false} TokensInRange(p: Profile, began: real, run: seq<Call>)
    requires p.Ok() && Legal(p, began, run)
    ensures var b := Final(p, began, run);
            0.0 <= b.tokens <= p.burst as real && b.updated <= LastDone(began, run)
  {
    if run != [] {
      var n := |run| - 1;
      TokensInRange(p, began, run[..n]);
      StepInRange(p, Final(p, began, run[..n]), run[n]);
    }
  }

  lemma StepInRange(p: Profile, b: Bucket, c: Call)
    requires p.Ok() && Takes(p, b, c)
    requires 0.0 <= b.tokens <= p.burst as real && b.updated <= c.start
    ensures var a := After(p, b, c.start); 0.0 <= a.tokens <= p.burst as real
    ensures c.start <= c.done
  {
    StartBeforeDone(p, b, c);
    LevelNotNegative(p, b, c.start);
  }

  lemma LevelNotNegative(p: Profile, b: Bucket, at: real)
    requires p.Ok() && b.tokens >= 0.0 && b.updated <= at
    ensures Level(p, b, at) >= 0.0
  {
    Earned(at - b.updated, p.rate);
    Lower(p.burst, b.tokens, Worth(at - b.updated, p.rate));
  }

  lemma Lower(burst: nat, tokens: real, earned: real)
    requires tokens >= 0.0 && earned >= 0.0
    ensures Min(burst as real, tokens + earned) >= 0.0
  {
  }

  lemma Positive(short: real, rate: real)
    requires short > 0.0 && rate > 0.0
    ensures short / rate > 0.0
  {
    var asked := short / rate;
    assert asked * rate == short;
  }

  lemma StartBeforeDone(p: Profile, b: Bucket, c: Call)
    requires p.Ok() && Takes(p, b, c)
    ensures c.start <= c.done
  {
    var t := Level(p, b, c.start);
    if t < 1.0 {
      Positive(1.0 - t, p.rate);
    }
  }

  /** What an acquire costs, whether it slept or found a token. */
  lemma Costs(t: real, was: real, idle: real, slept: real, left: real, after: real)
    requires t <= was + idle && idle >= 0.0 && slept >= 0.0
    requires after <= left + slept
    requires if t < 1.0 then left == 0.0 && slept >= 1.0 - t else left == t - 1.0 && slept == 0.0
    ensures after + 1.0 <= was + 2.0 * (slept + idle)
  {
  }

  /** One acquire costs a token, and time is worth at most twice the rate. */
  lemma AcquireCosts(p: Profile, b: Bucket, was: real, c: Call)
    requires p.Ok() && b.updated <= was <= c.start && Takes(p, b, c)
    ensures Level(p, After(p, b, c.start), c.done) + 1.0 <= Level(p, b, was) + 2.0 * Worth(c.done - was, p.rate)
  {
    var t, after := Level(p, b, c.start), After(p, b, c.start);
    var slept, idle := Worth(c.done - c.start, p.rate), Worth(c.start - was, p.rate);
    StartBeforeDone(p, b, c);
    LevelRises(p, b, was, c.start);
    LevelIs(p, after, c.done);
    Earned(c.start - was, p.rate);
    Earned(c.done - c.start, p.rate);
    SleptEnough(p, b, c);
    Costs(t, Level(p, b, was), idle, slept, after.tokens, Level(p, after, c.done));
    Parts(c.done, c.start, was, p.rate);
  }

  lemma SleptEnough(p: Profile, b: Bucket, c: Call)
    requires p.Ok() && Takes(p, b, c)
    ensures Level(p, b, c.start) < 1.0 ==> Worth(c.done - c.start, p.rate) >= 1.0 - Level(p, b, c.start)
  {
    if Level(p, b, c.start) < 1.0 {
      Divided(1.0 - Level(p, b, c.start), p.rate, c.done - c.start);
    }
  }

  lemma LevelIs(p: Profile, b: Bucket, at: real)
    ensures Level(p, b, at) <= b.tokens + Worth(at - b.updated, p.rate)
  {
  }

  /** Waiting adds at most the rate. */
  lemma LevelRises(p: Profile, b: Bucket, was: real, at: real)
    requires p.Ok() && was <= at
    ensures Level(p, b, at) <= Level(p, b, was) + Worth(at - was, p.rate)
  {
    Parts(at, was, b.updated, p.rate);
    Earned(at - was, p.rate);
  }

  /** Acquires completed since `x`, and the tokens still in hand. */
  ghost function Spent(p: Profile, began: real, run: seq<Call>, x: real): real {
    Completed(run, x, LastDone(began, run)) as real + Level(p, Final(p, began, run), LastDone(began, run))
  }

  ghost function Bound(p: Profile, x: real, y: real): real {
    p.burst as real + 1.0 + 2.0 * Worth(y - x, p.rate)
  }

  lemma BoundRises(p: Profile, x: real, was: real, y: real)
    requires p.Ok() && x <= was <= y
    ensures Bound(p, x, y) == Bound(p, x, was) + 2.0 * Worth(y - was, p.rate)
    ensures p.burst as real + 1.0 <= Bound(p, x, was) <= Bound(p, x, y)
  {
    Parts(y, was, x, p.rate);
    Earned(y - was, p.rate);
    Earned(was - x, p.rate);
    Above(p.burst as real + 1.0, Worth(was - x, p.rate), Worth(y - was, p.rate));
  }

  lemma Above(base: real, first: real, second: real)
    requires first >= 0.0 && second >= 0.0
    ensures base <= base + 2.0 * first <= base + 2.0 * (first + second)
  {
  }

  lemma CountOneMore(run: seq<Call>, x: real, y: real, was: real)
    requires run != [] && x <= run[|run| - 1].done <= y
    requires Completed(run[..|run| - 1], x, y) == Completed(run[..|run| - 1], x, was)
    ensures Completed(run, x, y) as real == Completed(run[..|run| - 1], x, was) as real + 1.0
  {
  }

  lemma SpentIs(p: Profile, began: real, run: seq<Call>, x: real)
    requires run != []
    ensures var n := |run| - 1; var b, y := Final(p, began, run[..n]), run[n].done;
            Spent(p, began, run, x) == Completed(run, x, y) as real + Level(p, After(p, b, run[n].start), y)
  {
  }

  lemma {:induction false} CompletedWithCredit(p: Profile, began: real, run: seq<Call>, x: real)
    requires p.Ok() && Legal(p, began, run) && run != [] && x <= LastDone(began, run)
    ensures Spent(p, began, run, x) <= Bound(p, x, LastDone(began, run))
  {
    var n := |run| - 1;
    var before, c := run[..n], run[n];
    var was, b, y := LastDone(began, before), Final(p, began, before), c.done;
    TokensInRange(p, began, before);
    StartBeforeDone(p, b, c);
    SpentIs(p, began, run, x);
    if n == 0 || was < x {
      NoneSince(p, began, before, x, y);
      FirstInView(p, After(p, b, c.start), x, y);
    } else {
      CompletedWithCredit(p, began, before, x);
      AcquireCosts(p, b, was, c);
      AllDoneBy(p, began, before, x, was, y);
      CountOneMore(run, x, y, was);
      BoundRises(p, x, was, y);
      CreditAdds(Completed(before, x, was) as real, Level(p, b, was), Level(p, After(p, b, c.start), y),
                 2.0 * Worth(y - was, p.rate), Bound(p, x, was), Bound(p, x, y));
    }
  }

  lemma CreditAdds(done: real, level: real, after: real, gained: real, bound: real, later: real)
    requires done + level <= bound && after + 1.0 <= level + gained && later == bound + gained
    ensures done + 1.0 + after <= later
  {
  }

  lemma FirstInView(p: Profile, b: Bucket, x: real, y: real)
    requires p.Ok() && x <= y
    ensures 1.0 + Level(p, b, y) <= Bound(p, x, y)
  {
    BoundRises(p, x, x, y);
  }

  /** Nothing completed after the last completion. */
  lemma {:induction false} NoneSince(p: Profile, began: real, run: seq<Call>, x: real, y: real)
    requires p.Ok() && Legal(p, began, run) && (run == [] || LastDone(began, run) < x)
    ensures Completed(run, x, y) == 0
  {
    if run != [] {
      var n := |run| - 1;
      StartBeforeDone(p, Final(p, began, run[..n]), run[n]);
      NoneSince(p, began, run[..n], x, y);
    }
  }

  lemma {:induction false} AllDoneBy(p: Profile, began: real, run: seq<Call>, x: real, last: real, y: real)
    requires p.Ok() && Legal(p, began, run) && LastDone(began, run) <= last <= y
    ensures Completed(run, x, y) == Completed(run, x, last)
  {
    if run != [] {
      var n := |run| - 1;
      StartBeforeDone(p, Final(p, began, run[..n]), run[n]);
      AllDoneBy(p, began, run[..n], x, last, y);
    }
  }

  /** Over a whole run: in an interval of length T at most
      burst + 1 + 2 * rate * T acquires complete. */
  lemma {:induction false} Throughput(p: Profile, began: real, run: seq<Call>, x: real, y: real)
    requires p.Ok() && Legal(p, began, run) && x <= y
    ensures Completed(run, x, y) as real <= Bound(p, x, y)
  {
    BoundRises(p, x, x, y);
    if run != [] {
      var n := |run| - 1;
      var last := run[n].done;
      if last > y {
        Throughput(p, began, run[..n], x, y);
      } else if last < x {
        NoneSince(p, began, run, x, y);
      } else {
        CompletedWithCredit(p, began, run, x);
        TokensInRange(p, began, run);
        LevelNotNegative(p, Final(p, began, run), last);
        AllDoneBy(p, began, run, x, last, y);
        BoundRises(p, x, last, y);
      }
    }
  }

  // ── the plain bound, and when it holds ──

  /** burst + rate * T. */
  ghost function Plain(p: Profile, x: real, y: real): real {
    p.burst as real + Worth(y - x, p.rate)
  }

  lemma PlainRises(p: Profile, x: real, was: real, y: real)
    requires p.Ok() && x <= was <= y
    ensures Plain(p, x, y) == Plain(p, x, was) + Worth(y - was, p.rate)
    ensures p.burst as real <= Plain(p, x, was) <= Plain(p, x, y)
  {
    Parts(y, was, x, p.rate);
    Earned(y - was, p.rate);
    Earned(was - x, p.rate);
  }

  /** What an acquire costs: a token, unless it slept. */
  lemma CostsUnlessSlept(p: Profile, b: Bucket, was: real, c: Call)
    requires p.Ok() && b.updated <= was <= c.start && b.tokens >= 0.0 && Takes(p, b, c)
    ensures Level(p, After(p, b, c.start), c.done) + 1.0
         <= Level(p, b, was) + Worth(c.done - was, p.rate) + if Slept(p, b, c) then 1.0 else 0.0
  {
    var t, after := Level(p, b, c.start), After(p, b, c.start);
    StartBeforeDone(p, b, c);
    LevelNotNegative(p, b, was);
    LevelRises(p, b, was, c.start);
    LevelIs(p, after, c.done);
    Earned(c.start - was, p.rate);
    Earned(c.done - c.start, p.rate);
    Parts(c.done, c.start, was, p.rate);
    CostIs(t, Level(p, b, was), Worth(c.start - was, p.rate), Worth(c.done - c.start, p.rate), after.tokens,
           Level(p, after, c.done));
  }

  lemma CostIs(t: real, was: real, idle: real, slept: real, left: real, after: real)
    requires t <= was + idle && was >= 0.0 && idle >= 0.0 && slept >= 0.0 && after <= left + slept
    requires if t < 1.0 then left == 0.0 else left == t - 1.0 && slept == 0.0
    ensures after + 1.0 <= was + (slept + idle) + if t < 1.0 then 1.0 else 0.0
  {
  }

  lemma {:induction false} SleepsDoneBy(p: Profile, began: real, run: seq<Call>, x: real, last: real, y: real)
    requires p.Ok() && Legal(p, began, run) && LastDone(began, run) <= last <= y
    ensures Sleeps(p, began, run, x, y) == Sleeps(p, began, run, x, last)
  {
    if run != [] {
      var n := |run| - 1;
      StartBeforeDone(p, Final(p, began, run[..n]), run[n]);
      SleepsDoneBy(p, began, run[..n], x, last, y);
    }
  }

  lemma SleepsOneMore(p: Profile, began: real, run: seq<Call>, x: real, y: real)
    requires run != [] && x <= run[|run| - 1].done <= y
    ensures var before, c := run[..|run| - 1], run[|run| - 1];
            Sleeps(p, began, run, x, y) as real
            == Sleeps(p, began, before, x, y) as real + if Slept(p, Final(p, began, before), c) then 1.0 else 0.0
  {
  }

  lemma {:induction false} SpentBySleeps(p: Profile, began: real, run: seq<Call>, x: real)
    requires p.Ok() && Legal(p, began, run) && run != [] && x <= LastDone(began, run)
    ensures var last := LastDone(began, run);
            Spent(p, began, run, x) <= Plain(p, x, last) + Sleeps(p, began, run, x, last) as real
  {
    var n := |run| - 1;
    var before, c := run[..n], run[n];
    var was, b, y := LastDone(began, before), Final(p, began, before), c.done;
    TokensInRange(p, began, before);
    StartBeforeDone(p, b, c);
    SpentIs(p, began, run, x);
    SleepsOneMore(p, began, run, x, y);
    if n == 0 || was < x {
      NoneSince(p, began, before, x, y);
      FirstUnlessSlept(p, b, c, x);
    } else {
      SpentBySleeps(p, began, before, x);
      CostsUnlessSlept(p, b, was, c);
      AllDoneBy(p, began, before, x, was, y);
      SleepsDoneBy(p, began, before, x, was, y);
      CountOneMore(run, x, y, was);
      PlainRises(p, x, was, y);
    }
  }

  lemma FirstUnlessSlept(p: Profile, b: Bucket, c: Call, x: real)
    requires p.Ok() && Takes(p, b, c) && x <= c.done
    ensures 1.0 + Level(p, After(p, b, c.start), c.done) <= Plain(p, x, c.done) + if Slept(p, b, c) then 1.0 else 0.0
  {
    PlainRises(p, x, x, c.done);
    LevelIs(p, After(p, b, c.start), c.done);
    Earned(0.0, p.rate);
  }

  /** Over a whole run: in an interval of length T at most burst + rate * T
      acquires complete, and one more for each of them that slept. */
  lemma {:induction false} ThroughputBySleeps(p: Profile, began: real, run: seq<Call>, x: real, y: real)
    requires p.Ok() && Legal(p, began, run) && x <= y
    ensures Completed(run, x, y) as real <= Plain(p, x, y) + Sleeps(p, began, run, x, y) as real
  {
    PlainRises(p, x, x, y);
    if run != [] {
      var n := |run| - 1;
      var last := run[n].done;
      if last > y {
        ThroughputBySleeps(p, began, run[..n], x, y);
      } else if last < x {
        NoneSince(p, began, run, x, y);
      } else {
        SpentBySleeps(p, began, run, x);
        TokensInRange(p, began, run);
        LevelNotNegative(p, Final(p, began, run), last);
        AllDoneBy(p, began, run, x, last, y);
        SleepsDoneBy(p, began, run, x, last, y);
        PlainRises(p, x, last, y);
      }
    }
  }

  /** The plain bound, under the guard of the branch that breaks it: when no
      acquire that completes in an interval found less than a token, at most
      burst + rate * T complete in it. */
  lemma PlainBoundHolds(p: Profile, began: real, run: seq<Call>, x: real, y: real)
    requires p.Ok() && Legal(p, began, run) && x <= y
    requires forall i :: 0 <= i < |run| && x <= run[i].done <= y ==> !Slept(p, Final(p, began, run[..i]), run[i])
    ensures Completed(run, x, y) as real <= Plain(p, x, y)
  {
    NoSleeps(p, began, run, x, y);
    ThroughputBySleeps(p, began, run, x, y);
  }

  lemma {:induction false} NoSleeps(p: Profile, began: real, run: seq<Call>, x: real, y: real)
    requires forall i :: 0 <= i < |run| && x <= run[i].done <= y ==> !Slept(p, Final(p, began, run[..i]), run[i])
    ensures Sleeps(p, began, run, x, y) == 0
  {
    if run != [] {
      var n := |run| - 1;
      assert forall i :: 0 <= i < n ==> run[..n][..i] == run[..i];
      NoSleeps(p, began, run[..n], x, y);
    }
  }

  // ── it fails for every profile ──

  lemma Extended(p: Profile, began: real, run: seq<Call>, c: Call)
    requires p.Ok() && Legal(p, began, run) && c.start >= LastDone(began, run) && Takes(p, Final(p, began, run), c)
    ensures Legal(p, began, run + [c]) && Final(p, began, run + [c]) == After(p, Final(p, began, run), c.start)
    ensures LastDone(began, run + [c]) == c.done
  {
    assert (run + [c])[..|run|] == run;
  }

  lemma CompletedMore(run: seq<Call>, c: Call, x: real, y: real)
    ensures Completed(run + [c], x, y) == Completed(run, x, y) + if x <= c.done <= y then 1 else 0
  {
    assert (run + [c])[..|run|] == run;
  }

  /** A legal run, where it leaves the bucket, and when it was done. */
  ghost predicate Leaves(p: Profile, run: seq<Call>, b: Bucket, done: real)
    requires p.Ok()
  {
    Legal(p, 0.0, run) && Final(p, 0.0, run) == b && LastDone(0.0, run) == done
  }

  lemma OneMore(p: Profile, run: seq<Call>, b: Bucket, done: real, c: Call)
    requires p.Ok() && Leaves(p, run, b, done) && c.start >= done && Takes(p, b, c)
    ensures Leaves(p, run + [c], After(p, b, c.start), c.done)
  {
    Extended(p, 0.0, run, c);
  }

  /** `k` acquires at once, out of a full bucket. */
  ghost function Burst(k: nat): seq<Call> {
    if k == 0 then [] else Burst(k - 1) + [Call(0.0, 0.0)]
  }

  lemma LevelAt(p: Profile, b: Bucket, at: real, earned: real)
    requires earned == Worth(at - b.updated, p.rate)
    ensures Level(p, b, at) == Min(p.burst as real, b.tokens + earned)
  {
  }

  lemma {:induction false} BurstLeaves(p: Profile, k: nat)
    requires p.Ok() && k <= p.burst
    ensures Leaves(p, Burst(k), Bucket((p.burst - k) as real, 0.0), 0.0)
  {
    if k > 0 {
      var left := (p.burst - k + 1) as real;
      BurstLeaves(p, k - 1);
      Earned(0.0, p.rate);
      LevelAt(p, Bucket(left, 0.0), 0.0, 0.0);
      assert left >= 1.0 && left <= p.burst as real;
      OneMore(p, Burst(k - 1), Bucket(left, 0.0), 0.0, Call(0.0, 0.0));
    }
  }

  /** The time of `n` tokens. */
  ghost function Tick(p: Profile, n: nat): real
    requires p.Ok()
  {
    if n == 0 then 0.0 else Tick(p, n - 1) + 1.0 / p.rate
  }

  lemma {:induction false} TickIsWorth(p: Profile, n: nat)
    requires p.Ok()
    ensures Worth(Tick(p, n), p.rate) == n as real && Tick(p, n) >= 0.0
  {
    Earned(0.0, p.rate);
    if n > 0 {
      TickIsWorth(p, n - 1);
      OneToken(p.rate);
      Adds(Tick(p, n - 1), 1.0 / p.rate, p.rate);
    }
  }

  lemma OneToken(rate: real)
    requires rate > 0.0
    ensures Worth(1.0 / rate, rate) == 1.0 && 1.0 / rate > 0.0
  {
    Positive(1.0, rate);
    var gap := 1.0 / rate;
    assert gap * rate == 1.0;
  }

  /** A burst, then pairs: one that sleeps for a token, and one that finds that
      token credited again. */
  ghost function Busy(p: Profile, n: nat): seq<Call>
    requires p.Ok()
  {
    if n == 0 then Burst(p.burst)
    else Busy(p, n - 1) + [Call(Tick(p, n - 1), Tick(p, n))] + [Call(Tick(p, n), Tick(p, n))]
  }

  lemma BusyPair(p: Profile, run: seq<Call>, m: real, next: real)
    requires p.Ok() && p.burst >= 1 && next == m + 1.0 / p.rate && Leaves(p, run, Bucket(0.0, m), m)
    ensures Leaves(p, run + [Call(m, next)] + [Call(next, next)], Bucket(0.0, next), next)
  {
    var empty := Bucket(0.0, m);
    OneToken(p.rate);
    Earned(0.0, p.rate);
    assert next - m == 1.0 / p.rate;
    LevelAt(p, empty, m, 0.0);
    OneMore(p, run, empty, m, Call(m, next));
    LevelAt(p, empty, next, 1.0);
    OneMore(p, run + [Call(m, next)], empty, next, Call(next, next));
  }

  lemma {:induction false} BusyLeaves(p: Profile, n: nat)
    requires p.Ok() && p.burst >= 1
    ensures Leaves(p, Busy(p, n), Bucket(0.0, Tick(p, n)), Tick(p, n))
  {
    if n == 0 {
      BurstLeaves(p, p.burst);
    } else {
      BusyLeaves(p, n - 1);
      BusyPair(p, Busy(p, n - 1), Tick(p, n - 1), Tick(p, n));
    }
  }

  lemma {:induction false} BurstCompletes(k: nat, y: real)
    requires y >= 0.0
    ensures Completed(Burst(k), 0.0, y) == k
  {
    if k > 0 {
      BurstCompletes(k - 1, y);
      CompletedMore(Burst(k - 1), Call(0.0, 0.0), 0.0, y);
    }
  }

  lemma {:induction false} BusyCompletes(p: Profile, n: nat, y: real)
    requires p.Ok() && y >= Tick(p, n)
    ensures Completed(Busy(p, n), 0.0, y) == p.burst + 2 * n
  {
    TickIsWorth(p, n);
    if n == 0 {
      BurstCompletes(p.burst, y);
    } else {
      var slow, fast := Call(Tick(p, n - 1), Tick(p, n)), Call(Tick(p, n), Tick(p, n));
      OneToken(p.rate);
      BusyCompletes(p, n - 1, y);
      CompletedMore(Busy(p, n - 1), slow, 0.0, y);
      CompletedMore(Busy(p, n - 1) + [slow], fast, 0.0, y);
    }
  }

  /** With a burst of at least one: `burst + 2 * n` acquires complete in the time
      of `n` tokens, which is `n` more than the plain bound. */
  lemma BusyExceeds(p: Profile, n: nat)
    requires p.Ok() && p.burst >= 1
    ensures Legal(p, 0.0, Busy(p, n))
    ensures Completed(Busy(p, n), 0.0, Tick(p, n)) as real == Plain(p, 0.0, Tick(p, n)) + n as real
  {
    BusyLeaves(p, n);
    BusyCompletes(p, n, Tick(p, n));
    TickIsWorth(p, n);
    assert Tick(p, n) - 0.0 == Tick(p, n);
  }

  /** Without a burst every acquire sleeps, and the instant one completes holds
      one too many. */
  lemma LoneExceeds(p: Profile, run: seq<Call>, gap: real)
    requires p.Ok() && p.burst == 0 && gap == 1.0 / p.rate && run == [Call(0.0, gap)]
    ensures Legal(p, 0.0, run) && Completed(run, gap, gap) == 1 && Plain(p, gap, gap) == 0.0
  {
    var none: seq<Call> := [];
    Earned(0.0, p.rate);
    LevelAt(p, Bucket(0.0, 0.0), 0.0, 0.0);
    OneToken(p.rate);
    OneMore(p, none, Bucket(0.0, 0.0), 0.0, Call(0.0, gap));
    CompletedMore(none, Call(0.0, gap), gap, gap);
    assert none + [Call(0.0, gap)] == run;
  }

  /** So no profile has the plain bound: some legal run exceeds it. */
  lemma PlainBoundFails(p: Profile) returns (run: seq<Call>, x: real, y: real)
    requires p.Ok()
    ensures Legal(p, 0.0, run) && x <= y && Completed(run, x, y) as real > Plain(p, x, y)
  {
    if p.burst == 0 {
      var gap := 1.0 / p.rate;
      run, x, y := [Call(0.0, gap)], gap, gap;
      LoneExceeds(p, run, gap);
    } else {
      run, x, y := Busy(p, 1), 0.0, Tick(p, 1);
      BusyExceeds(p, 1);
      TickIsWorth(p, 1);
    }
  }

  /** A sleep of at least what was asked, or none when none was needed. */
  lemma LongEnough(p: Profile, b: Bucket, c: Call, late: real)
    requires p.Ok() && late >= 0.0
    requires var t := Level(p, b, c.start); c.done == if t < 1.0 then c.start + (1.0 - t) / p.rate + late else c.start
    ensures Takes(p, b, c)
  {
  }

  // ── the bucket itself ──

  class TokenBucket {
    const p: Profile
    ghost const began: real
    var tokens: real
    var updated: real
    ghost var run: seq<Call>

    ghost predicate Valid()
      reads this
    {
      p.Ok() && Legal(p, began, run) && Bucket(tokens, updated) == Final(p, began, run)
    }

    constructor (p: Profile, now: real)
      requires p.Ok()
      ensures Valid() && this.p == p && run == [] && began == now
    {
      this.p := p;
      tokens := p.burst as real;
      updated := now;
      began := now;
      run := [];
    }

    /** `acquire`, entered at `now`; a sleep may last `late` longer than asked. */
    method Acquire(now: real, late: real) returns (done: real)
      requires Valid() && now >= LastDone(began, run) && late >= 0.0
      modifies this
      ensures Valid() && run == old(run) + [Call(now, done)]
    {
      ghost var b := Bucket(tokens, updated);
      tokens := Level(p, Bucket(tokens, updated), now);
      updated := now;
      done := now;
      if tokens < 1.0 {
        var wait := (1.0 - tokens) / p.rate;
        done := now + wait + late;
        tokens := 0.0;
      } else {
        tokens := tokens - 1.0;
      }
      LongEnough(p, b, Call(now, done), late);
      Extended(p, began, run, Call(now, done));
      run := run + [Call(now, done)];
    }
  }
}
