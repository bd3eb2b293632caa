/**
 The throttle is the virtual-scheduling (GCRA) dual of the bucket: over every run of claims, the
 instants it lets requests go are exactly those at which a bucket of the same quota would first
 admit them, and the TAT and the level are two readings of one quantity.
 */
module Duality {
  import opened Wrappers
  import opened Durations
  import opened Quotas
  import opened Buckets
  import opened Runs
  import opened Equivalence
  import opened Throttles
  import opened ThrottleRuns

  /** One token accrues per interval, and the tolerance is the whole burst but one. */
  predicate ExactPace(q: Quota, p: Pace) {
    q.burst > 0 && q.count * p.interval == q.window && p.tolerance == p.interval * (q.burst - 1)
  }

  /** The constructor's pace is exact when nothing is rounded or clamped away. */
  lemma PaceOfIsExact(q: Quota)
    requires q.count > 0 && q.burst > 0 && q.window % q.count == 0
    requires q.burst - 1 <= U32_MAX && q.window / q.count * (q.burst - 1) <= DURATION_MAX
    ensures ExactPace(q, PaceOf(q))
  {
  }

  /** The bucket holds its capacity less the refill of the time by which the TAT lies ahead. */
  predicate Dual(q: Quota, s: Slot, tat: nat, t: nat) {
    UpdatedBy(s, t) && Level(q, s, t) == Capacity(q) - q.count * Since(t, tat)
  }

  lemma DualLater(q: Quota, s: Slot, tat: nat, t: nat, u: nat)
    requires Dual(q, s, tat, t) && t <= u
    ensures Dual(q, s, tat, u)
  {
    hide Level, Capacity;
    RefillComposes(q, s, t, u);
    if u <= tat {
      Distributes(q.count, tat - u, u - t);
    } else {
      TimesInOrder(q.count, Since(t, tat), u - t);
    }
    LevelAtMostCapacity(q, s, t);
  }

  lemma LevelAtMostCapacity(q: Quota, s: Slot, t: nat)
    ensures Level(q, s, t) <= Capacity(q)
    ensures forall r: Request :: r.at == t && r.cost == 1 ==> (Grants(q, s, r) <==> q.window <= Level(q, s, t))
  {
  }

  /** Capacity, a token and the tolerance, all in units of the interval. */
  lemma ExactUnits(q: Quota, p: Pace)
    requires ExactPace(q, p)
    ensures Capacity(q) == q.count * (p.tolerance + p.interval)
    ensures q.window == q.count * p.interval && q.count > 0 && p.interval > 0
    ensures p.tolerance == p.interval * (q.burst - 1)
  {
    TimesAssociates(q.count, p.interval, q.burst);
    Distributes(p.interval, q.burst - 1, 1);
  }

  /** A slot can be used exactly once the TAT is within the tolerance. */
  lemma GrantedIffWithinTolerance(q: Quota, p: Pace, s: Slot, tat: nat, t: nat)
    requires ExactPace(q, p) && Dual(q, s, tat, t)
    ensures Grants(q, s, Request(t, 1)) <==> Since(t, tat) <= p.tolerance
  {
    hide Level, Capacity, ExactPace;
    ExactUnits(q, p);
    LevelAtMostCapacity(q, s, t);
    var ahead := Since(t, tat);
    Distributes(q.count, p.tolerance, p.interval);
    if ahead <= p.tolerance {
      TimesInOrder(q.count, ahead, p.tolerance);
    } else {
      TimesInOrder(q.count, p.tolerance + 1, ahead);
      Distributes(q.count, p.tolerance, 1);
    }
  }

  /** One claim on one side is one unit request, at the claim's proceed time, on the other. */
  lemma ClaimIsDual(q: Quota, p: Pace, s: Slot, tat: nat, t: nat, now: nat)
    requires ExactPace(q, p) && Dual(q, s, tat, t) && t <= ProceedAt(p, tat, now)
    ensures var r := Request(ProceedAt(p, tat, now), 1);
      && Grants(q, s, r)
      && Serve(q, s, r).Some? && Serve(q, s, r).value.updated == r.at
      && Dual(q, Serve(q, s, r), NextTat(p, tat, now), r.at)
  {
    var r := Request(ProceedAt(p, tat, now), 1);
    DualLater(q, s, tat, t, r.at);
    GrantedIffWithinTolerance(q, p, s, tat, r.at);
    ServedLevel(q, s, r.at);
    assert Since(r.at, NextTat(p, tat, now)) == Since(r.at, tat) + p.interval;
    Distributes(q.count, Since(r.at, tat), p.interval);
  }

  lemma ServedLevel(q: Quota, s: Slot, t: nat)
    ensures Grants(q, s, Request(t, 1)) ==>
              Level(q, Serve(q, s, Request(t, 1)), t) == Level(q, s, t) - q.window
  {
  }

  // ---------------------------------------------------------------- whole runs

  predicate AllClaims(ops: seq<ScopeOp>) {
    forall k :: 0 <= k < |ops| ==> ops[k].Claim?
  }

  /** The unit requests a run of claims lets go, each at its proceed time. */
  function Paced(p: Pace, ops: seq<ScopeOp>): (rs: seq<Request>)
    ensures |rs| == |ops| && forall k :: 0 <= k < |rs| ==> rs[k] == Request(Proceed(p, ops, k), 1)
  {
    seq(|ops|, k requires 0 <= k < |ops| => Request(Proceed(p, ops, k), 1))
  }

  lemma FreshIsDual(q: Quota, now: nat)
    ensures Dual(q, None, now, now)
  {
  }

  lemma {:induction false} PacedRunIsDual(q: Quota, p: Pace, ops: seq<ScopeOp>, n: nat)
    requires ExactPace(q, p) && AllClaims(ops) && ClaimsInOrder(ops) && n <= |ops|
    ensures forall k :: 0 <= k < n ==> Granted(q, None, Paced(p, ops), k)
    ensures n > 0 ==>
              var s := After(q, None, Paced(p, ops), n);
              && s.Some? && s.value.updated == Proceed(p, ops, n - 1)
              && Dual(q, s, TatAfter(p, ops, n).value, Proceed(p, ops, n - 1))
  {
    hide Dual, ExactPace, Grants, Serve;
    if n > 0 {
      PacedRunIsDual(q, p, ops, n - 1);
      var s, now := After(q, None, Paced(p, ops), n - 1), ops[n - 1].now;
      if n == 1 {
        FreshIsDual(q, now);
        ClaimIsDual(q, p, None, now, now, now);
      } else {
        WakeInClaimOrder(p, ops, n - 2, n - 1);
        ClaimIsDual(q, p, s, Found(p, ops, n - 1), Proceed(p, ops, n - 2), now);
      }
    }
  }

  /** Every request the throttle lets go is admitted. */
  lemma PacedRunIsGranted(q: Quota, p: Pace, ops: seq<ScopeOp>)
    requires ExactPace(q, p) && AllClaims(ops) && ClaimsInOrder(ops)
    ensures AllGranted(q, None, Paced(p, ops))
  {
    PacedRunIsDual(q, p, ops, |ops|);
  }

  /** At any time after n claims the TAT tells the bucket's level. */
  lemma TatTellsLevel(q: Quota, p: Pace, ops: seq<ScopeOp>, n: nat, t: nat)
    requires ExactPace(q, p) && AllClaims(ops) && ClaimsInOrder(ops) && 0 < n <= |ops|
    requires Proceed(p, ops, n - 1) <= t
    ensures Level(q, After(q, None, Paced(p, ops), n), t)
         == q.burst * q.window - q.count * Max(0, TatAfter(p, ops, n).value - t)
  {
    hide ExactPace, Grants, After, Level, Proceed, AllClaims, ClaimsInOrder;
    PacedRunIsDual(q, p, ops, n);
    DualLater(q, After(q, None, Paced(p, ops), n), TatAfter(p, ops, n).value, Proceed(p, ops, n - 1), t);
  }

  /** No claim sleeps longer than it must: at every earlier instant the bucket would have refused. */
  lemma NoEarlierSlot(q: Quota, p: Pace, ops: seq<ScopeOp>, k: nat, t: nat)
    requires ExactPace(q, p) && AllClaims(ops) && ClaimsInOrder(ops)
    requires k < |ops| && ops[k].now <= t < Proceed(p, ops, k)
    ensures !Grants(q, After(q, None, Paced(p, ops), k), Request(t, 1))
  {
    hide Dual, ExactPace, Grants, Serve, Capacity;
    var s, tat := After(q, None, Paced(p, ops), k), Found(p, ops, k);
    assert k > 0;
    var last := Proceed(p, ops, k - 1);
    PacedRunIsDual(q, p, ops, k);
    ExactUnits(q, p);
    if last <= t {
      DualLater(q, s, tat, last, t);
      GrantedIffWithinTolerance(q, p, s, tat, t);
    } else {
      assert ops[k - 1].now <= ops[k].now;
      assert tat == last + p.tolerance + p.interval;
      GrantedIffWithinTolerance(q, p, s, tat, last);
      EarlierIsNoBetter(q, s, t);
    }
  }

  /** Before its last update a bucket holds what it held then. */
  lemma EarlierIsNoBetter(q: Quota, s: Slot, t: nat)
    requires s.Some? && t <= s.value.updated
    ensures Grants(q, s, Request(t, 1)) ==> Grants(q, s, Request(s.value.updated, 1))
  {
  }
}
