/**
 What holds over every run of one partition's bucket: a closed form for its level, the exact
 conformance condition, greedy optimality, and what denied attempts leave behind.

 A slot is what the store holds for a key. An absent one is opened as a full bucket by the first
 request that reaches it.
 */
module Runs {
  import opened Wrappers
  import opened Durations
  import opened Quotas
  import opened Buckets

  datatype Request = Request(at: nat, cost: nat)

  type Slot = Option<BucketState>

  function Opened(q: Quota, s: Slot, now: nat): BucketState {
    s.GetOr(Fresh(q, now))
  }

  /** The level a request arriving at `now` finds. */
  function Level(q: Quota, s: Slot, now: nat): nat {
    Refilled(q, Opened(q, s, now), now)
  }

  predicate Grants(q: Quota, s: Slot, r: Request) {
    Admits(q, Opened(q, s, r.at), r.at, r.cost)
  }

  function Serve(q: Quota, s: Slot, r: Request): Slot {
    Some(Consume(q, Opened(q, s, r.at), r.at, r.cost))
  }

  /** The slot once the first n requests have been served, in order. */
  function After(q: Quota, s: Slot, rs: seq<Request>, n: nat): Slot
    requires n <= |rs|
  {
    if n == 0 then s else Serve(q, After(q, s, rs, n - 1), rs[n - 1])
  }

  predicate Granted(q: Quota, s: Slot, rs: seq<Request>, k: nat)
    requires k < |rs|
  {
    Grants(q, After(q, s, rs, k), rs[k])
  }

  function Available(q: Quota, s: Slot, rs: seq<Request>, k: nat): nat
    requires k < |rs|
  {
    Level(q, After(q, s, rs, k), rs[k].at)
  }

  /** Total cost of requests i..j, counting only the granted ones. */
  function Spent(q: Quota, s: Slot, rs: seq<Request>, i: nat, j: nat): nat
    requires i <= j <= |rs|
  {
    if i == j then 0
    else Spent(q, s, rs, i, j - 1) + if Granted(q, s, rs, j - 1) then rs[j - 1].cost else 0
  }

  /** Total cost asked for by requests i..j. */
  function Asked(rs: seq<Request>, i: nat, j: nat): nat
    requires i <= j <= |rs|
  {
    if i == j then 0 else Asked(rs, i, j - 1) + rs[j - 1].cost
  }

  /** How far the clock runs forward from request i to request j, ignoring every step back. */
  function Forward(rs: seq<Request>, i: nat, j: nat): nat
    requires i <= j < |rs|
  {
    if i == j then 0 else Forward(rs, i, j - 1) + Since(rs[j - 1].at, rs[j].at)
  }

  predicate Monotone(rs: seq<Request>) {
    forall i, j :: 0 <= i <= j < |rs| ==> rs[i].at <= rs[j].at
  }

  predicate UnitCosts(rs: seq<Request>) {
    forall k :: 0 <= k < |rs| ==> rs[k].cost == 1
  }

  lemma {:induction false} ForwardIsSpan(rs: seq<Request>, i: nat, j: nat)
    requires i <= j < |rs|
    requires forall k, l :: i <= k <= l <= j ==> rs[k].at <= rs[l].at
    ensures Forward(rs, i, j) == rs[j].at - rs[i].at
  {
    if i < j {
      ForwardIsSpan(rs, i, j - 1);
    }
  }

  // ---------------------------------------------------------------- closed form and conformance

  /** Level left over from request i plus everything that flowed in since, less what was spent. */
  function Balance(q: Quota, s: Slot, rs: seq<Request>, i: nat, j: nat): int
    requires i <= j < |rs|
  {
    Capacity(q) + q.count * Forward(rs, i, j) - q.window * Spent(q, s, rs, i, j)
  }

  lemma BalanceStep(q: Quota, s: Slot, rs: seq<Request>, i: nat, j: nat)
    requires i < j < |rs|
    ensures Balance(q, s, rs, i, j)
         == Balance(q, s, rs, i, j - 1)
            - (if Granted(q, s, rs, j - 1) then Price(q, rs[j - 1].cost) else 0)
            + Accrued(q, rs[j - 1].at, rs[j].at)
  {
    hide Admits, Consume, Opened;
    Distributes(q.count, Forward(rs, i, j - 1), Since(rs[j - 1].at, rs[j].at));
    Distributes(q.window, Spent(q, s, rs, i, j - 1), if Granted(q, s, rs, j - 1) then rs[j - 1].cost else 0);
  }

  lemma AvailableStep(q: Quota, s: Slot, rs: seq<Request>, j: nat)
    requires 0 < j < |rs|
    ensures Available(q, s, rs, j)
         == Min(Available(q, s, rs, j - 1)
                - (if Granted(q, s, rs, j - 1) then Price(q, rs[j - 1].cost) else 0)
                + Accrued(q, rs[j - 1].at, rs[j].at),
                Capacity(q))
  {
  }

  lemma GrantedIffAvailable(q: Quota, s: Slot, rs: seq<Request>, j: nat)
    requires j < |rs|
    ensures Granted(q, s, rs, j) <==> Price(q, rs[j].cost) <= Available(q, s, rs, j)
  {
  }

  /** The request at which the bucket was last seen full. */
  function LastFull(q: Quota, s: Slot, rs: seq<Request>, j: nat): (i: nat)
    requires j < |rs|
    ensures i <= j
  {
    if j == 0 || Available(q, s, rs, j) == Capacity(q) then j else LastFull(q, s, rs, j - 1)
  }

  /**
   The level request j finds is at most every balance, whatever the clock did and whatever state
   the run began in; starting from a full bucket it is the least of them.
   */
  lemma {:induction false} LevelIsLeastBalance(q: Quota, s: Slot, rs: seq<Request>, j: nat)
    requires j < |rs|
    ensures forall i :: 0 <= i <= j ==> Available(q, s, rs, j) <= Balance(q, s, rs, i, j)
    ensures s == None ==> Available(q, s, rs, j) == Balance(q, s, rs, LastFull(q, s, rs, j), j)
  {
    if j > 0 {
      LevelIsLeastBalance(q, s, rs, j - 1);
      AvailableStep(q, s, rs, j);
      forall i | 0 <= i < j
        ensures Available(q, s, rs, j) <= Balance(q, s, rs, i, j)
      {
        BalanceStep(q, s, rs, i, j);
      }
      var b := LastFull(q, s, rs, j - 1);
      BalanceStep(q, s, rs, b, j);
    }
  }

  /**
   No window of requests is granted more than burst plus the refill of the clock's forward steps,
   denied requests' readings included. This is all that survives clock readings out of order.
   */
  lemma SpentIsBounded(q: Quota, s: Slot, rs: seq<Request>, i: nat, j: nat)
    requires i <= j < |rs|
    ensures q.window * Spent(q, s, rs, i, j + 1) <= q.window * q.burst + q.count * Forward(rs, i, j)
  {
    LevelIsLeastBalance(q, s, rs, j);
    assert Available(q, s, rs, j) <= Balance(q, s, rs, i, j);
    Distributes(q.window, Spent(q, s, rs, i, j), if Granted(q, s, rs, j) then rs[j].cost else 0);
  }

  /** With readings in order the bound is the token bucket's arrival curve. */
  lemma WindowBound(q: Quota, s: Slot, rs: seq<Request>, i: nat, j: nat)
    requires i <= j < |rs| && Monotone(rs)
    ensures q.window * Spent(q, s, rs, i, j + 1) <= q.window * q.burst + q.count * (rs[j].at - rs[i].at)
  {
    SpentIsBounded(q, s, rs, i, j);
    ForwardIsSpan(rs, i, j);
  }

  predicate AllGranted(q: Quota, s: Slot, rs: seq<Request>) {
    forall k :: 0 <= k < |rs| ==> Granted(q, s, rs, k)
  }

  /** Requests i..j fit the burst plus the refill of the time between them. */
  predicate Fits(q: Quota, rs: seq<Request>, i: nat, j: nat)
    requires i <= j < |rs| && Monotone(rs)
  {
    q.window * Asked(rs, i, j + 1) <= q.window * q.burst + q.count * (rs[j].at - rs[i].at)
  }

  predicate Conforms(q: Quota, rs: seq<Request>)
    requires Monotone(rs)
  {
    forall i, j :: 0 <= i <= j < |rs| ==> Fits(q, rs, i, j)
  }

  lemma {:induction false} SpentWhenGranted(q: Quota, s: Slot, rs: seq<Request>, i: nat, j: nat)
    requires i <= j <= |rs|
    requires forall k :: i <= k < j ==> Granted(q, s, rs, k)
    ensures Spent(q, s, rs, i, j) == Asked(rs, i, j)
  {
    if i < j {
      SpentWhenGranted(q, s, rs, i, j - 1);
    }
  }

  /** Once every earlier request was granted, the next one is granted exactly when it fits. */
  lemma GrantedIffFits(q: Quota, rs: seq<Request>, j: nat)
    requires j < |rs| && Monotone(rs)
    requires forall k :: 0 <= k < j ==> Granted(q, None, rs, k)
    ensures Granted(q, None, rs, j) <==> forall i :: 0 <= i <= j ==> Fits(q, rs, i, j)
  {
    LevelIsLeastBalance(q, None, rs, j);
    forall i | 0 <= i <= j
      ensures Fits(q, rs, i, j) <==> Price(q, rs[j].cost) <= Balance(q, None, rs, i, j)
    {
      SpentWhenGranted(q, None, rs, i, j);
      ForwardIsSpan(rs, i, j);
      Distributes(q.window, Asked(rs, i, j), rs[j].cost);
    }
    var b := LastFull(q, None, rs, j);
    assert Fits(q, rs, b, j) <==> Price(q, rs[j].cost) <= Balance(q, None, rs, b, j);
  }

  /** A new bucket grants a whole run exactly when no window of it asks for too much. */
  lemma GrantedIffConforms(q: Quota, rs: seq<Request>)
    requires Monotone(rs)
    ensures AllGranted(q, None, rs) <==> Conforms(q, rs)
  {
    if AllGranted(q, None, rs) {
      forall i, j | 0 <= i <= j < |rs|
        ensures Fits(q, rs, i, j)
      {
        GrantedIffFits(q, rs, j);
      }
    }
    if Conforms(q, rs) {
      ConformingPrefixGranted(q, rs, |rs|);
    }
  }

  lemma {:induction false} ConformingPrefixGranted(q: Quota, rs: seq<Request>, n: nat)
    requires n <= |rs| && Monotone(rs) && Conforms(q, rs)
    ensures forall k :: 0 <= k < n ==> Granted(q, None, rs, k)
  {
    if n > 0 {
      ConformingPrefixGranted(q, rs, n - 1);
      GrantedIffFits(q, rs, n - 1);
    }
  }
}
