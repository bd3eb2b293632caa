/** What a decision promises about the requests that follow it. */
module Decisions {
  import opened Wrappers
  import opened Durations
  import opened Quotas
  import opened Buckets
  import opened Runs
  import opened Equivalence

  function UnitsAt(now: nat, n: nat): (rs: seq<Request>)
    ensures |rs| == n && forall k :: 0 <= k < n ==> rs[k] == Request(now, 1)
  {
    seq(n, _ => Request(now, 1))
  }

  /** What k unit requests leave of a level, each taking w while it can. */
  function Drained(level: nat, w: pos, k: nat): int {
    level - w * Min(k, level / w)
  }

  lemma DrainedStep(level: nat, w: pos, k: nat)
    ensures 0 <= Drained(level, w, k) <= level
    ensures w <= Drained(level, w, k) <==> k < level / w
    ensures Drained(level, w, k + 1) == Drained(level, w, k) - if k < level / w then w else 0
  {
    var m := level / w;
    assert level == w * m + level % w;
    Distributes(w, k, 1);
    if k < m {
      TimesInOrder(w, k + 1, m);
    }
    TimesInOrder(w, 0, Min(k, m));
  }

  lemma ServedAtOnce(q: Quota, b: BucketState, now: nat)
    requires b.updated == now && b.level <= Capacity(q)
    ensures Serve(q, Some(b), Request(now, 1))
         == Some(BucketState(if q.window <= b.level then b.level - q.window else b.level, now))
  {
  }

  lemma {:induction false} DrainsByUnits(q: Quota, b: BucketState, now: nat, n: nat, k: nat)
    requires b.updated == now && b.level <= Capacity(q) && k <= n
    ensures 0 <= Drained(b.level, q.window, k) <= b.level
    ensures After(q, Some(b), UnitsAt(now, n), k) == Some(BucketState(Drained(b.level, q.window, k), now))
  {
    hide Drained, Capacity, Serve;
    DrainedStep(b.level, q.window, k);
    if k == 0 {
      NothingDrained(b.level, q.window);
    } else {
      DrainsByUnits(q, b, now, n, k - 1);
      DrainedStep(b.level, q.window, k - 1);
      ServedAtOnce(q, BucketState(Drained(b.level, q.window, k - 1), now), now);
    }
  }

  lemma NothingDrained(level: nat, w: pos)
    ensures Drained(level, w, 0) == level
  {
  }

  /** After any attempt, of the unit requests made at the same instant exactly `remaining` succeed. */
  lemma RemainingIsExact(q: Quota, b: BucketState, now: nat, cost: nat, n: nat, k: nat)
    requires k < n
    ensures Granted(q, Some(Consume(q, b, now, cost)), UnitsAt(now, n), k)
       <==> k < Decide(q, b, now, cost).remaining
  {
    hide Drained, DelayFor;
    var c := Consume(q, b, now, cost);
    DrainsByUnits(q, c, now, n, k);
    DrainedStep(c.level, q.window, k);
  }

  /** Two costs in one instant are both admitted exactly when their sum is, to the same effect. */
  lemma CostsCombine(q: Quota, b: BucketState, now: nat, x: nat, y: nat)
    ensures Admits(q, b, now, x + y)
       <==> Admits(q, b, now, x) && Admits(q, Consume(q, b, now, x), now, y)
    ensures Admits(q, b, now, x + y) ==>
              Consume(q, Consume(q, b, now, x), now, y) == Consume(q, b, now, x + y)
  {
    Distributes(q.window, x, y);
  }

  // ---------------------------------------------------------------- retry delays

  /** What a denied attempt still lacks. */
  function Missing(q: Quota, b: BucketState, now: nat, cost: nat): nat
    requires !Admits(q, b, now, cost)
  {
    Price(q, cost) - Refilled(q, b, now)
  }

  /** The exact wait, in whole nanoseconds. */
  function ExactWait(q: Quota, b: BucketState, now: nat, cost: nat): nat
    requires !Admits(q, b, now, cost) && q.count > 0
  {
    CeilDiv(Missing(q, b, now, cost), q.count)
  }

  lemma WaitCovers(missing: nat, count: pos, elapsed: nat)
    ensures elapsed * count >= missing <==> elapsed >= CeilDiv(missing, count)
  {
    var k := CeilDiv(missing, count);
    if elapsed >= k {
      TimesInOrder(count, k, elapsed);
    } else {
      TimesInOrder(count, elapsed, k - 1);
      Distributes(count, k - 1, 1);
    }
  }

  /** A denied cost becomes admissible after exactly that wait, and stays so. */
  lemma DeniedUntilWaited(q: Quota, b: BucketState, now: nat, cost: nat, t: nat)
    requires q.count > 0 && cost <= q.burst && !Admits(q, b, now, cost)
    ensures Admits(q, Consume(q, b, now, cost), t, cost) <==> now + ExactWait(q, b, now, cost) <= t
  {
    assert Price(q, cost) <= Capacity(q) by {
      TimesInOrder(q.window, cost, q.burst);
    }
    WaitCovers(Missing(q, b, now, cost), q.count, Since(now, t));
  }

  predicate AllDenied(q: Quota, s: Slot, rs: seq<Request>) {
    forall k :: 0 <= k < |rs| ==> !Granted(q, s, rs, k)
  }

  /** Further denied attempts, of any cost, in clock order, change nothing about that. */
  lemma DeniedUntilWaitedDespiteRetries(q: Quota, b: BucketState, now: nat, cost: nat, rs: seq<Request>, t: nat)
    requires q.count > 0 && cost <= q.burst && !Admits(q, b, now, cost)
    requires Monotone(rs) && (forall k :: 0 <= k < |rs| ==> now <= rs[k].at <= t) && now <= t
    requires AllDenied(q, Some(Consume(q, b, now, cost)), rs)
    ensures Grants(q, After(q, Some(Consume(q, b, now, cost)), rs, |rs|), Request(t, cost))
       <==> now + ExactWait(q, b, now, cost) <= t
  {
    var s := Some(Consume(q, b, now, cost));
    var none := seq(|rs|, _ => false);
    DeniedLeaveNoTrace(q, s, rs, none, now, |rs|);
    NothingKept(rs, none, |rs|);
    ServeKeepsSame(q, After(q, s, rs, |rs|), s, ClockAt(rs, now, |rs|), Request(t, cost));
    DeniedUntilWaited(q, b, now, cost, t);
  }

  lemma {:induction false} NothingKept<T>(xs: seq<T>, keep: seq<bool>, n: nat)
    requires n <= |xs| == |keep| && forall k :: 0 <= k < |keep| ==> !keep[k]
    ensures Kept(xs, keep, n) == []
  {
    if n > 0 {
      NothingKept(xs, keep, n - 1);
    }
  }

  /**
   The reported delay is the exact wait, or one nanosecond less when the conversion to a
   `Duration` rounds down.
   */
  lemma RetryAfterIsExactUnlessRoundedDown(q: Quota, b: BucketState, now: nat, cost: nat)
    requires q.count > 0 && !Admits(q, b, now, cost)
    ensures Decide(q, b, now, cost).retryAfter
         == Some(ExactWait(q, b, now, cost) - if RoundsDown(Missing(q, b, now, cost), q.count) then 1 else 0)
    ensures ExactWait(q, b, now, cost) > 0
  {
    NearestIsCeilUnlessRoundedDown(Missing(q, b, now, cost), q.count);
  }

  /** The bucket is full again after exactly the reported time, up to the same lost nanosecond. */
  lemma TimeToFullIsExact(q: Quota, b: BucketState, now: nat, cost: nat, t: nat)
    requires q.count > 0
    ensures var c := Consume(q, b, now, cost); var missing := Capacity(q) - c.level;
      && (Refilled(q, c, t) == Capacity(q) <==> missing == 0 || now + CeilDiv(missing, q.count) <= t)
      && Decide(q, b, now, cost).timeToFull
         == CeilDiv(missing, q.count) - if RoundsDown(missing, q.count) then 1 else 0
  {
    hide CeilDiv, Nearest, RoundsDown;
    var missing := Capacity(q) - Consume(q, b, now, cost).level;
    WaitCovers(missing, q.count, Since(now, t));
    NearestIsCeilUnlessRoundedDown(missing, q.count);
  }

  /** A quota that never refills reports no wait at all, and is still denied at every later time. */
  lemma ZeroRateNeverRecovers(q: Quota, b: BucketState, now: nat, cost: nat, t: nat)
    requires q.count == 0 && !Admits(q, b, now, cost)
    ensures Decide(q, b, now, cost).retryAfter == Some(0)
    ensures !Admits(q, Consume(q, b, now, cost), t, cost)
  {
  }
}
