/**
 The client's throttle: per scope a theoretical arrival time (TAT), a `Claim` that always reserves
 the next slot, and a `BackOff` that only pushes the TAT out.
 */
module Throttles {
  import opened Wrappers
  import opened Durations
  import opened Quotas

  datatype Pace = Pace(interval: nat, tolerance: nat)

  /** The pace a quota is throttled to, with every clamp of the constructor. */
  function PaceOf(q: Quota): Pace {
    var interval := Nearest(q.window, Max(q.count, 1));
    Pace(interval, Min(interval * Min(Max(q.burst - 1, 0), U32_MAX), DURATION_MAX))
  }

  function ProceedAt(p: Pace, tat: nat, now: nat): nat {
    if tat < p.tolerance then now else Max(tat - p.tolerance, now)
  }

  function NextTat(p: Pace, tat: nat, now: nat): nat {
    Max(tat, now) + p.interval
  }

  function BackOffTarget(p: Pace, now: nat, backoff: nat): nat {
    now + backoff + p.tolerance
  }

  /** All TATs after a claim: the slot advances unless the clock itself runs out. */
  function Claimed(p: Pace, horizon: nat, state: map<string, nat>, scope: string, now: nat): map<string, nat> {
    var tat := Lookup(state, scope).GetOr(now);
    state[scope := if NextTat(p, tat, now) <= horizon then NextTat(p, tat, now) else tat]
  }

  /** All TATs after a back-off, which never moves one earlier. */
  function BackedOff(p: Pace, state: map<string, nat>, scope: string, backoff: nat, now: nat): map<string, nat> {
    var target := BackOffTarget(p, now, backoff);
    state[scope := Max(Lookup(state, scope).GetOr(target), target)]
  }

  class Throttle {
    const quota: Quota
    const pace: Pace
    /** The last instant the platform's clock can represent. */
    const horizon: nat
    var state: map<string, nat>

    constructor (quota: Quota, horizon: nat)
      ensures this.quota == quota && this.horizon == horizon && state == map[]
      ensures pace == PaceOf(quota)
    {
      var count := Max(quota.count, 1);
      var secs := quota.window as real / NANOS_PER_SEC as real / count as real;
      assert secs * NANOS_PER_SEC as real * count as real == quota.window as real;
      var interval := FromSecs(secs);
      FromSecsIsNearest(secs, quota.window, count);
      var spare := if quota.burst == 0 then 0 else quota.burst - 1;
      var burstHeadroom := if spare <= U32_MAX then spare else U32_MAX;
      var tolerance := if interval * burstHeadroom <= DURATION_MAX then interval * burstHeadroom else DURATION_MAX;
      this.quota := quota;
      this.pace := Pace(interval, tolerance);
      this.horizon := horizon;
      state := map[];
    }

    method Claim(scope: string, now: nat) returns (delay: nat)
      modifies this
      ensures delay == ProceedAt(pace, Lookup(old(state), scope).GetOr(now), now) - now
      ensures state == Claimed(pace, horizon, old(state), scope, now)
    {
      if scope !in state {
        state := state[scope := now];
      }
      var tat := state[scope];
      var proceedAt := now;
      if pace.tolerance <= tat {
        var earliest := tat - pace.tolerance;
        proceedAt := if now < earliest then earliest else now;
      }
      var advanced := (if tat < now then now else tat) + pace.interval;
      state := state[scope := if advanced <= horizon then advanced else tat];
      delay := if proceedAt <= now then 0 else proceedAt - now;
    }

    /** Adding past the last instant panics, so callers must stay clear of it. */
    method BackOff(scope: string, backoff: nat, now: nat)
      requires BackOffTarget(pace, now, backoff) <= horizon
      modifies this
      ensures state == BackedOff(pace, old(state), scope, backoff, now)
    {
      var target := now + backoff + pace.tolerance;
      if scope !in state {
        state := state[scope := target];
      }
      if state[scope] < target {
        state := state[scope := target];
      }
    }
  }

  /** One request per interval is the quota's rate, to half a nanosecond either way, ties to even. */
  lemma IntervalIsNearest(q: Quota, interval: nat)
    ensures interval == PaceOf(q).interval <==>
              var c := Max(q.count, 1);
              && 2 * (interval * c - q.window) <= c && 2 * (q.window - interval * c) <= c
              && (2 * (interval * c - q.window) == c || 2 * (q.window - interval * c) == c ==> interval % 2 == 0)
  {
    NearestIs(q.window, Max(q.count, 1), interval);
  }

  /** The tolerance is the burst less one in intervals, and what each clamp makes of it. */
  lemma ToleranceIsClamped(q: Quota)
    ensures var Pace(interval, tolerance) := PaceOf(q);
      && (q.burst <= 1 ==> tolerance == 0)
      && (1 < q.burst && q.burst - 1 <= U32_MAX && interval * (q.burst - 1) <= DURATION_MAX ==>
            tolerance == interval * (q.burst - 1))
      && (U32_MAX <= q.burst - 1 && interval * U32_MAX <= DURATION_MAX ==> tolerance == interval * U32_MAX)
      && (1 < q.burst && DURATION_MAX < interval * (if q.burst - 1 <= U32_MAX then q.burst - 1 else U32_MAX) ==>
            tolerance == DURATION_MAX)
  {
  }

  /** Clamping only ever lowers the tolerance: it stays within a burst's worth of intervals. */
  lemma ToleranceWithinBurst(q: Quota)
    ensures PaceOf(q).tolerance <= PaceOf(q).interval * (Max(q.burst, 1) - 1)
  {
    TimesInOrder(PaceOf(q).interval, Min(Max(q.burst - 1, 0), U32_MAX), Max(q.burst, 1) - 1);
  }
}

/** Runs of claims and back-offs on one scope, in lock order. */
module ThrottleRuns {
  import opened Wrappers
  import opened Durations
  import opened Quotas
  import opened Throttles

  datatype ScopeOp = Claim(now: nat) | BackOff(now: nat, backoff: nat)

  function TatStep(p: Pace, tat: Option<nat>, op: ScopeOp): nat {
    match op
    case Claim(now) => NextTat(p, tat.GetOr(now), now)
    case BackOff(now, backoff) =>
      var target := BackOffTarget(p, now, backoff);
      Max(tat.GetOr(target), target)
  }

  function TatAfter(p: Pace, ops: seq<ScopeOp>, n: nat): Option<nat>
    requires n <= |ops|
  {
    if n == 0 then None else Some(TatStep(p, TatAfter(p, ops, n - 1), ops[n - 1]))
  }

  /** The TAT that claim k finds. */
  function Found(p: Pace, ops: seq<ScopeOp>, k: nat): nat
    requires k < |ops|
  {
    TatAfter(p, ops, k).GetOr(ops[k].now)
  }

  /** The instant at which claim k lets its request go. */
  function Proceed(p: Pace, ops: seq<ScopeOp>, k: nat): nat
    requires k < |ops|
  {
    ProceedAt(p, Found(p, ops, k), ops[k].now)
  }

  /** How many of the first n operations are claims proceeding within [from, to]. */
  function CountWithin(p: Pace, ops: seq<ScopeOp>, n: nat, from: nat, to: nat): nat
    requires n <= |ops|
  {
    if n == 0 then 0
    else CountWithin(p, ops, n - 1, from, to)
         + if ops[n - 1].Claim? && from <= Proceed(p, ops, n - 1) <= to then 1 else 0
  }

  /** Each claim within the window pushes the TAT a further interval beyond its start. */
  lemma {:induction false} ClaimsPushTat(p: Pace, ops: seq<ScopeOp>, n: nat, from: nat, to: nat)
    requires n <= |ops|
    ensures var m := CountWithin(p, ops, n, from, to);
      m > 0 ==>
        && TatAfter(p, ops, n).Some?
        && from + p.interval * m <= TatAfter(p, ops, n).value
        && from + p.interval * (m - 1) <= to + p.tolerance
  {
    if n > 0 {
      ClaimsPushTat(p, ops, n - 1, from, to);
      var m := CountWithin(p, ops, n - 1, from, to);
      Distributes(p.interval, m, 1);
    }
  }

  /**
   However claims and back-offs interleave and however stale their clock readings, at most burst
   plus one per interval proceed within any window.
   */
  lemma RateBound(q: Quota, ops: seq<ScopeOp>, from: nat, to: nat)
    requires from <= to && PaceOf(q).interval > 0
    ensures CountWithin(PaceOf(q), ops, |ops|, from, to) <= Max(q.burst, 1) + (to - from) / PaceOf(q).interval
  {
    hide PaceOf, CountWithin, TatAfter;
    var p, m := PaceOf(q), CountWithin(PaceOf(q), ops, |ops|, from, to);
    ClaimsPushTat(p, ops, |ops|, from, to);
    ToleranceWithinBurst(q);
    if m > 0 {
      ClaimsFit(p.interval, Max(q.burst, 1), p.tolerance, to - from, m);
    }
  }

  lemma ClaimsFit(interval: pos, burst: pos, tolerance: nat, span: nat, m: pos)
    requires interval * (m - 1) <= span + tolerance && tolerance <= interval * (burst - 1)
    ensures m <= burst + span / interval
  {
    var k := span / interval;
    assert span == interval * k + span % interval;
    if m > burst + k {
      TimesInOrder(interval, k + 1 + (burst - 1), m - 1);
      Distributes(interval, k + 1, burst - 1);
      Distributes(interval, k, 1);
    }
  }

  /** n requests that all arrive at once. */
  function ClaimsAt(now: nat, n: nat): (ops: seq<ScopeOp>)
    ensures |ops| == n && forall k :: 0 <= k < n ==> ops[k] == Claim(now)
  {
    seq(n, _ => Claim(now))
  }

  lemma {:induction false} SimultaneousClaims(p: Pace, now: nat, n: nat, k: nat)
    requires k < n
    ensures Found(p, ClaimsAt(now, n), k) == now + p.interval * k
    ensures Proceed(p, ClaimsAt(now, n), k) == Max(now, now + p.interval * k - p.tolerance)
  {
    if k > 0 {
      SimultaneousClaims(p, now, n, k - 1);
      Distributes(p.interval, k - 1, 1);
    }
  }

  /**
   Of requests made together by a throttle whose tolerance is not clamped, as many as the burst go at
   once, one if the burst is zero, and each further one an interval after the one before.
   */
  lemma BurstGoesTogether(q: Quota, now: nat, n: nat, k: nat)
    requires k < n && q.burst - 1 <= U32_MAX && PaceOf(q).interval * (Max(q.burst, 1) - 1) <= DURATION_MAX
    ensures Proceed(PaceOf(q), ClaimsAt(now, n), k) == now + PaceOf(q).interval * Max(0, k + 1 - Max(q.burst, 1))
  {
    hide Proceed;
    var p, spare := PaceOf(q), Max(q.burst, 1) - 1;
    SimultaneousClaims(p, now, n, k);
    ToleranceIsClamped(q);
    hide PaceOf;
    assert p.tolerance == p.interval * spare;
    if k <= spare {
      TimesInOrder(p.interval, k, spare);
    } else {
      Distributes(p.interval, spare, k - spare);
      TimesInOrder(p.interval, 0, k - spare);
    }
  }

  /** The bound is attained: enough simultaneous claims fill any window after them to the limit. */
  lemma RateBoundIsAttained(p: Pace, burst: pos, from: nat, to: nat, n: nat)
    requires from <= to && p.interval > 0 && p.tolerance == p.interval * (burst - 1)
    requires n == burst + (to - from) / p.interval
    ensures CountWithin(p, ClaimsAt(from, n), n, from, to) == n
  {
    AllWithin(p, burst, from, to, n, n);
  }

  lemma {:induction false} AllWithin(p: Pace, burst: pos, from: nat, to: nat, n: nat, m: nat)
    requires from <= to && p.interval > 0 && p.tolerance == p.interval * (burst - 1)
    requires n == burst + (to - from) / p.interval && m <= n
    ensures CountWithin(p, ClaimsAt(from, n), m, from, to) == m
  {
    if m > 0 {
      AllWithin(p, burst, from, to, n, m - 1);
      SimultaneousClaims(p, from, n, m - 1);
      SlotWithin(p.interval, burst, to - from, m - 1);
    }
  }

  lemma SlotWithin(interval: pos, burst: pos, span: nat, k: nat)
    requires k < burst + span / interval
    ensures interval * k - interval * (burst - 1) <= span
  {
    assert span == interval * (span / interval) + span % interval;
    TimesInOrder(interval, k, span / interval + (burst - 1));
    Distributes(interval, span / interval, burst - 1);
  }

  // ---------------------------------------------------------------- order

  /** Slots strictly increase at each claim and never move back at a back-off. */
  lemma {:induction false} SlotsStayOrdered(p: Pace, ops: seq<ScopeOp>, i: nat, j: nat)
    requires 0 < i <= j <= |ops|
    ensures TatAfter(p, ops, i).value <= TatAfter(p, ops, j).value
    ensures p.interval > 0 && (exists k :: i <= k < j && ops[k].Claim?) ==>
              TatAfter(p, ops, i).value < TatAfter(p, ops, j).value
  {
    if i < j {
      SlotsStayOrdered(p, ops, i, j - 1);
    }
  }

  predicate ClaimsInOrder(ops: seq<ScopeOp>) {
    forall i, j :: 0 <= i <= j < |ops| && ops[i].Claim? && ops[j].Claim? ==> ops[i].now <= ops[j].now
  }

  /** When the clock readings are in lock order, requests wake in the order they claimed. */
  lemma WakeInClaimOrder(p: Pace, ops: seq<ScopeOp>, i: nat, j: nat)
    requires ClaimsInOrder(ops) && i < j < |ops| && ops[i].Claim? && ops[j].Claim?
    ensures Proceed(p, ops, i) <= Proceed(p, ops, j)
  {
    SlotsStayOrdered(p, ops, i + 1, j);
  }

  /** Later claims never proceed before earlier ones. */
  predicate WakesInOrder(p: Pace, ops: seq<ScopeOp>) {
    forall i, j :: 0 <= i < j < |ops| && ops[i].Claim? && ops[j].Claim? ==> Proceed(p, ops, i) <= Proceed(p, ops, j)
  }

  /** Whatever its quota, a throttle wakes no claim out of order. */
  ghost predicate AlwaysWakesInOrder(ops: seq<ScopeOp>) {
    forall q: Quota :: WakesInOrder(PaceOf(q), ops)
  }

  /**
   How long the back-offs among the first n operations hold the scope, at the least: to the latest
   end of one, and one nanosecond more for each claim since.
   */
  function HeldUntil(ops: seq<ScopeOp>, n: nat): Option<nat>
    requires n <= |ops|
  {
    if n == 0 then None
    else
      match ops[n - 1]
      case Claim(_) => (match HeldUntil(ops, n - 1) case None => None case Some(end) => Some(end + 1))
      case BackOff(now, backoff) => Some(Max(HeldUntil(ops, n - 1).GetOr(0), now + backoff))
  }

  /** A claim with an older reading than an earlier claim's is held back at least that far. */
  predicate OldReadingsAreHeld(ops: seq<ScopeOp>) {
    forall i, j :: 0 <= i < j < |ops| && ops[i].Claim? && ops[j].Claim? ==>
      ops[i].now <= Max(ops[j].now, HeldUntil(ops, j).GetOr(0))
  }

  lemma {:induction false} TatCoversHold(p: Pace, ops: seq<ScopeOp>, n: nat)
    requires n <= |ops| && p.interval > 0
    ensures HeldUntil(ops, n).Some? ==>
              TatAfter(p, ops, n).Some? && HeldUntil(ops, n).value + p.tolerance <= TatAfter(p, ops, n).value
  {
    if n > 0 {
      TatCoversHold(p, ops, n - 1);
    }
  }

  /** Under that condition claims wake in order at any pace, clamped or not. */
  lemma HeldReadingsWakeInOrder(p: Pace, ops: seq<ScopeOp>)
    requires OldReadingsAreHeld(ops) && (p.interval > 0 || p.tolerance == 0)
    ensures WakesInOrder(p, ops)
  {
    forall i, j | 0 <= i < j < |ops| && ops[i].Claim? && ops[j].Claim?
      ensures Proceed(p, ops, i) <= Proceed(p, ops, j)
    {
      SlotsStayOrdered(p, ops, i + 1, j);
      if p.interval > 0 {
        TatCoversHold(p, ops, j);
      }
    }
  }

  /** The latest reading among the claims of the first n operations. */
  function LatestClaim(ops: seq<ScopeOp>, n: nat): nat
    requires n <= |ops|
  {
    if n == 0 then 0
    else if ops[n - 1].Claim? then Max(LatestClaim(ops, n - 1), ops[n - 1].now)
    else LatestClaim(ops, n - 1)
  }

  lemma {:induction false} LatestClaimIsOne(ops: seq<ScopeOp>, n: nat)
    requires n <= |ops|
    ensures forall k :: 0 <= k < n && ops[k].Claim? ==> ops[k].now <= LatestClaim(ops, n)
    ensures LatestClaim(ops, n) > 0 ==> exists k :: 0 <= k < n && ops[k].Claim? && ops[k].now == LatestClaim(ops, n)
  {
    if n > 0 {
      LatestClaimIsOne(ops, n - 1);
    }
  }

  /** At one nanosecond a claim the TAT outruns neither the latest claim by much nor what back-offs hold. */
  lemma {:induction false} TatOfFastThrottle(p: Pace, ops: seq<ScopeOp>, n: nat)
    requires n <= |ops| && p.interval == 1
    ensures TatAfter(p, ops, n).Some? ==>
              TatAfter(p, ops, n).value
              <= Max(LatestClaim(ops, n) + n,
                     if HeldUntil(ops, n).Some? then HeldUntil(ops, n).value + p.tolerance else 0)
  {
    if n > 0 {
      TatOfFastThrottle(p, ops, n - 1);
    }
  }

  /** So a burst beyond the length of the run lets a claim go before the latest, unless it is held. */
  lemma FastThrottleWakesInOrder(p: Pace, ops: seq<ScopeOp>, i: nat, j: nat)
    requires p == Pace(1, |ops| + 1) && WakesInOrder(p, ops)
    requires i < j < |ops| && ops[i].Claim? && ops[j].Claim?
    ensures ops[i].now <= Max(ops[j].now, HeldUntil(ops, j).GetOr(0))
  {
    hide HeldUntil, LatestClaim, TatAfter;
    TatOfFastThrottle(p, ops, j);
    LatestClaimIsOne(ops, j);
    if LatestClaim(ops, j) > 0 {
      var k :| 0 <= k < j && ops[k].Claim? && ops[k].now == LatestClaim(ops, j);
      assert Proceed(p, ops, k) <= Proceed(p, ops, j);
    }
  }

  lemma FastQuota(burst: pos)
    requires burst - 1 <= U32_MAX
    ensures PaceOf(Quota(1, 1, burst)) == Pace(1, burst - 1)
  {
  }

  /**
   Throttles of every quota wake a run's requests in the order they claimed exactly when no older
   reading goes unheld. Of a run longer than the burst headroom a throttle can have, only "if" is claimed:
   `HeldReadingsWakeInOrder`.
   */
  lemma AlwaysWakesInOrderIff(ops: seq<ScopeOp>)
    requires |ops| < U32_MAX
    ensures AlwaysWakesInOrder(ops) <==> OldReadingsAreHeld(ops)
  {
    hide PaceOf, WakesInOrder;
    if OldReadingsAreHeld(ops) {
      forall q: Quota
        ensures WakesInOrder(PaceOf(q), ops)
      {
        ToleranceWithinBurst(q);
        HeldReadingsWakeInOrder(PaceOf(q), ops);
      }
    }
    if AlwaysWakesInOrder(ops) {
      FastQuota(|ops| + 2);
      assert WakesInOrder(PaceOf(Quota(1, 1, |ops| + 2)), ops);
      forall i, j | 0 <= i < j < |ops| && ops[i].Claim? && ops[j].Claim?
        ensures ops[i].now <= Max(ops[j].now, HeldUntil(ops, j).GetOr(0))
      {
        FastThrottleWakesInOrder(Pace(1, |ops| + 1), ops, i, j);
      }
    }
  }

  lemma {:induction false} NothingHeld(ops: seq<ScopeOp>, n: nat)
    requires n <= |ops| && forall k :: 0 <= k < |ops| ==> ops[k].Claim?
    ensures HeldUntil(ops, n) == None
  {
    if n > 0 {
      NothingHeld(ops, n - 1);
    }
  }

  /** Without back-offs that is exactly when the readings are in lock order. */
  lemma ClaimsWakeInOrderIff(ops: seq<ScopeOp>)
    requires |ops| < U32_MAX && forall k :: 0 <= k < |ops| ==> ops[k].Claim?
    ensures AlwaysWakesInOrder(ops) <==> ClaimsInOrder(ops)
  {
    AlwaysWakesInOrderIff(ops);
    forall n | 0 <= n <= |ops|
      ensures HeldUntil(ops, n) == None
    {
      NothingHeld(ops, n);
    }
  }

  /** Two claims whose readings are out of lock order may wake the other way round. */
  lemma StaleClaimWakesFirst()
    ensures var p, ops := Pace(1, 10), [Claim(10), Claim(5)];
      Proceed(p, ops, 1) == 5 < Proceed(p, ops, 0) == 10
  {
    var p, ops := Pace(1, 10), [Claim(10), Claim(5)];
    assert TatAfter(p, ops, 0) == None;
    assert TatAfter(p, ops, 1) == Some(11);
  }

  // ---------------------------------------------------------------- closed form

  /** How many of operations i..n are claims. */
  function ClaimsSince(ops: seq<ScopeOp>, i: nat, n: nat): nat
    requires i <= n <= |ops|
  {
    if i == n then 0 else ClaimsSince(ops, i, n - 1) + if ops[n - 1].Claim? then 1 else 0
  }

  /** How far operation i alone would have pushed the schedule by now: an interval for each claim since. */
  function Demand(p: Pace, ops: seq<ScopeOp>, i: nat, n: nat): nat
    requires i < n <= |ops|
  {
    p.interval * ClaimsSince(ops, i, n)
    + match ops[i]
      case Claim(now) => now
      case BackOff(now, backoff) => now + backoff + p.tolerance
  }

  lemma DemandStep(p: Pace, ops: seq<ScopeOp>, i: nat, n: nat)
    requires i < n < |ops|
    ensures Demand(p, ops, i, n + 1) == Demand(p, ops, i, n) + if ops[n].Claim? then p.interval else 0
  {
    Distributes(p.interval, ClaimsSince(ops, i, n), 1);
  }

  /** The schedule stands where the most demanding operation so far has pushed it. */
  lemma {:induction false} TatIsGreatestDemand(p: Pace, ops: seq<ScopeOp>, n: nat)
    requires 0 < n <= |ops|
    ensures TatAfter(p, ops, n).Some?
    ensures forall i :: 0 <= i < n ==> Demand(p, ops, i, n) <= TatAfter(p, ops, n).value
    ensures exists i :: 0 <= i < n && Demand(p, ops, i, n) == TatAfter(p, ops, n).value
  {
    assert ClaimsSince(ops, n - 1, n) == if ops[n - 1].Claim? then 1 else 0;
    assert Demand(p, ops, n - 1, n)
        == match ops[n - 1]
           case Claim(now) => now + p.interval
           case BackOff(now, backoff) => now + backoff + p.tolerance;
    if n > 1 {
      TatIsGreatestDemand(p, ops, n - 1);
      forall i | 0 <= i < n - 1
        ensures Demand(p, ops, i, n) == Demand(p, ops, i, n - 1) + if ops[n - 1].Claim? then p.interval else 0
      {
        DemandStep(p, ops, i, n - 1);
      }
      var i :| 0 <= i < n - 1 && Demand(p, ops, i, n - 1) == TatAfter(p, ops, n - 1).value;
      assert Demand(p, ops, i, n) == TatAfter(p, ops, n).value || Demand(p, ops, n - 1, n) == TatAfter(p, ops, n).value;
    }
  }

  // ---------------------------------------------------------------- back-off

  function Without(ops: seq<ScopeOp>, k: nat): seq<ScopeOp>
    requires k < |ops|
  {
    ops[..k] + ops[k + 1..]
  }

  lemma {:induction false} ScheduleWithout(p: Pace, ops: seq<ScopeOp>, k: nat, n: nat)
    requires k < n <= |ops| && TatAfter(p, ops, k + 1) == TatAfter(p, ops, k)
    ensures TatAfter(p, Without(ops, k), n - 1) == TatAfter(p, ops, n)
  {
    if n == k + 1 {
      SamePrefix(p, ops, Without(ops, k), k);
    } else {
      ScheduleWithout(p, ops, k, n - 1);
    }
  }

  lemma {:induction false} SamePrefix(p: Pace, ops: seq<ScopeOp>, ops': seq<ScopeOp>, n: nat)
    requires n <= |ops| && n <= |ops'| && forall i :: 0 <= i < n ==> ops[i] == ops'[i]
    ensures TatAfter(p, ops, n) == TatAfter(p, ops', n)
  {
    if n > 0 {
      SamePrefix(p, ops, ops', n - 1);
    }
  }

  /** A back-off that ends before the schedule does changes no later slot. */
  lemma ShortBackOffChangesNothing(p: Pace, ops: seq<ScopeOp>, k: nat, j: nat)
    requires k < j < |ops| && ops[k].BackOff? && ops[j].Claim?
    requires TatAfter(p, ops, k).Some?
    requires ops[k].now + ops[k].backoff + p.tolerance <= TatAfter(p, ops, k).value
    ensures Proceed(p, Without(ops, k), j - 1) == Proceed(p, ops, j)
  {
    ScheduleWithout(p, ops, k, j);
  }

  /** No later claim proceeds before the back-off ends, whatever happens in between. */
  lemma BackOffIsPermanent(p: Pace, ops: seq<ScopeOp>, k: nat, j: nat)
    requires k < j < |ops| && ops[k].BackOff? && ops[j].Claim?
    ensures ops[k].now + ops[k].backoff <= Proceed(p, ops, j)
  {
    SlotsStayOrdered(p, ops, k + 1, j);
  }

  /**
   The next claim, if made before the back-off ends, proceeds exactly when it ends, unless the
   schedule already reached further.
   */
  lemma BackOffEndsOnTime(p: Pace, ops: seq<ScopeOp>, k: nat)
    requires k + 1 < |ops| && ops[k].BackOff? && ops[k + 1].Claim?
    requires ops[k + 1].now <= ops[k].now + ops[k].backoff
    ensures Proceed(p, ops, k + 1) == ops[k].now + ops[k].backoff
       <==> (TatAfter(p, ops, k).Some? ==>
               TatAfter(p, ops, k).value <= BackOffTarget(p, ops[k].now, ops[k].backoff))
  {
    assert TatAfter(p, ops, k + 1) == Some(TatStep(p, TatAfter(p, ops, k), ops[k]));
  }
}

/** Runs over many scopes: each keeps a schedule of its own. */
module ThrottleScopes {
  import opened Wrappers
  import opened Throttles
  import opened ThrottleRuns

  datatype Call = Call(scope: string, op: ScopeOp)

  function Called(p: Pace, horizon: nat, state: map<string, nat>, call: Call): map<string, nat> {
    match call.op
    case Claim(now) => Claimed(p, horizon, state, call.scope, now)
    case BackOff(now, backoff) => BackedOff(p, state, call.scope, backoff, now)
  }

  /** The TATs of a throttle after its first n calls. */
  function StateAfter(p: Pace, horizon: nat, calls: seq<Call>, n: nat): map<string, nat>
    requires n <= |calls|
  {
    if n == 0 then map[] else Called(p, horizon, StateAfter(p, horizon, calls, n - 1), calls[n - 1])
  }

  /** What the first n calls did to one scope. */
  function OpsOn(calls: seq<Call>, n: nat, scope: string): seq<ScopeOp>
    requires n <= |calls|
  {
    if n == 0 then []
    else OpsOn(calls, n - 1, scope) + if calls[n - 1].scope == scope then [calls[n - 1].op] else []
  }

  /** The call, if a claim, would not take its TAT past the last instant. */
  predicate Fits(p: Pace, horizon: nat, state: map<string, nat>, call: Call) {
    call.op.Claim? ==> NextTat(p, Lookup(state, call.scope).GetOr(call.op.now), call.op.now) <= horizon
  }

  predicate WithinHorizon(p: Pace, horizon: nat, calls: seq<Call>) {
    forall k :: 0 <= k < |calls| ==> Fits(p, horizon, StateAfter(p, horizon, calls, k), calls[k])
  }

  lemma CallStepsOneScope(p: Pace, horizon: nat, state: map<string, nat>, call: Call, scope: string)
    requires Fits(p, horizon, state, call)
    ensures Lookup(Called(p, horizon, state, call), scope)
         == if call.scope == scope then Some(TatStep(p, Lookup(state, scope), call.op)) else Lookup(state, scope)
  {
  }

  /**
   Past that instant pacing stops: a claim leaves everything as it was, so that any number of claims
   made with it get the same slot. That happens exactly to claims that do not fit.
   */
  lemma ClaimTakesNoSlotIff(p: Pace, horizon: nat, state: map<string, nat>, call: Call)
    requires p.interval > 0 && call.op.Claim? && call.scope in state
    ensures Called(p, horizon, state, call) == state <==> !Fits(p, horizon, state, call)
  {
    var tat := state[call.scope];
    assert NextTat(p, tat, call.op.now) > tat;
    assert state[call.scope := tat] == state;
    assert Called(p, horizon, state, call)[call.scope]
        == if NextTat(p, tat, call.op.now) <= horizon then NextTat(p, tat, call.op.now) else tat;
  }

  lemma {:induction false} TatOfPrefix(p: Pace, ops: seq<ScopeOp>, op: ScopeOp, n: nat)
    requires n <= |ops|
    ensures TatAfter(p, ops + [op], n) == TatAfter(p, ops, n)
  {
    if n > 0 {
      TatOfPrefix(p, ops, op, n - 1);
    }
  }

  lemma TatOfOneMore(p: Pace, ops: seq<ScopeOp>, op: ScopeOp)
    ensures TatAfter(p, ops + [op], |ops| + 1) == Some(TatStep(p, TatAfter(p, ops, |ops|), op))
  {
    hide TatStep;
    TatOfPrefix(p, ops, op, |ops|);
    assert (ops + [op])[|ops|] == op;
  }

  /** A scope's TAT is that of a run of its own claims and back-offs. */
  lemma {:induction false} RunsProjectPerScope(p: Pace, horizon: nat, calls: seq<Call>, n: nat, scope: string)
    requires n <= |calls| && WithinHorizon(p, horizon, calls)
    ensures var ops := OpsOn(calls, n, scope);
      Lookup(StateAfter(p, horizon, calls, n), scope) == TatAfter(p, ops, |ops|)
  {
    hide Fits, Called, TatStep, TatAfter, Lookup;
    if n == 0 {
      NothingCalled(p, horizon, calls, scope);
    } else {
      RunsProjectPerScope(p, horizon, calls, n - 1, scope);
      CallStepsOneScope(p, horizon, StateAfter(p, horizon, calls, n - 1), calls[n - 1], scope);
      var ops := OpsOn(calls, n - 1, scope);
      TatOfOneMore(p, ops, calls[n - 1].op);
      assert ops + [] == ops;
    }
  }

  lemma NothingCalled(p: Pace, horizon: nat, calls: seq<Call>, scope: string)
    ensures OpsOn(calls, 0, scope) == []
    ensures Lookup(StateAfter(p, horizon, calls, 0), scope) == None == TatAfter(p, OpsOn(calls, 0, scope), 0)
  {
  }

  /** So does each delay: a claim sleeps until its proceed time in the scope's own run. */
  lemma DelaysProjectPerScope(p: Pace, horizon: nat, calls: seq<Call>, k: nat)
    requires k < |calls| && calls[k].op.Claim? && WithinHorizon(p, horizon, calls)
    ensures var Call(scope, op) := calls[k];
      var ops := OpsOn(calls, k + 1, scope);
      && |ops| > 0 && ops[|ops| - 1] == op
      && ProceedAt(p, Lookup(StateAfter(p, horizon, calls, k), scope).GetOr(op.now), op.now)
         == Proceed(p, ops, |ops| - 1)
  {
    hide ProceedAt, Called, TatStep, Fits;
    var Call(scope, op) := calls[k];
    var ops := OpsOn(calls, k, scope);
    RunsProjectPerScope(p, horizon, calls, k, scope);
    TatOfPrefix(p, ops, op, |ops|);
    assert OpsOn(calls, k + 1, scope) == ops + [op];
  }
}
