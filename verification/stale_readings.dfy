/**
 What clock readings out of order cost: which orders of commit let a key be granted more than its
 burst and the refill of the time between, and that every order can happen.
 */
module StaleReadings {
  import opened Wrappers
  import opened Durations
  import opened Quotas
  import opened Buckets
  import opened Runs
  import opened Equivalence
  import opened Stores
  import opened KeyRuns
  import opened Interleavings

  // ---------------------------------------------------------------- one way or back and forth

  /** The readings only ever run forward, or only ever backward. */
  predicate OneWay(rs: seq<Request>) {
    Monotone(rs) || forall i, j :: 0 <= i <= j < |rs| ==> rs[j].at <= rs[i].at
  }

  /** How far the clock runs backward from request i to request j, ignoring every step forward. */
  function Backward(rs: seq<Request>, i: nat, j: nat): nat
    requires i <= j < |rs|
  {
    if i == j then 0 else Backward(rs, i, j - 1) + Since(rs[j].at, rs[j - 1].at)
  }

  lemma {:induction false} ForwardLessBackward(rs: seq<Request>, i: nat, j: nat)
    requires i <= j < |rs|
    ensures Forward(rs, i, j) - Backward(rs, i, j) == rs[j].at - rs[i].at
  {
    if i < j {
      ForwardLessBackward(rs, i, j - 1);
    }
  }

  lemma {:induction false} NoStepBack(rs: seq<Request>, j: nat)
    requires j < |rs|
    ensures Backward(rs, 0, j) == 0 <==> forall k, l :: 0 <= k <= l <= j ==> rs[k].at <= rs[l].at
    ensures Forward(rs, 0, j) == 0 <==> forall k, l :: 0 <= k <= l <= j ==> rs[l].at <= rs[k].at
  {
    if j > 0 {
      NoStepBack(rs, j - 1);
    }
  }

  /** The forward steps add up to no more than the time elapsed exactly when the readings run one way. */
  lemma OneWayIffForwardIsElapsed(rs: seq<Request>)
    requires rs != []
    ensures OneWay(rs) <==> Forward(rs, 0, |rs| - 1) <= Since(rs[0].at, rs[|rs| - 1].at)
  {
    hide Forward, Backward;
    NoStepBack(rs, |rs| - 1);
    ForwardLessBackward(rs, 0, |rs| - 1);
  }

  lemma {:induction false} OneWayWindow(rs: seq<Request>, i: nat, j: nat)
    requires i <= j < |rs| && OneWay(rs)
    ensures Forward(rs, i, j) == Since(rs[i].at, rs[j].at)
  {
    if i < j {
      OneWayWindow(rs, i, j - 1);
      assert Monotone(rs) ==> rs[i].at <= rs[j - 1].at <= rs[j].at;
    }
  }

  // ---------------------------------------------------------------- the bound on runs

  predicate SameReadings(rs: seq<Request>, rs': seq<Request>) {
    |rs| == |rs'| && forall k :: 0 <= k < |rs| ==> rs[k].at == rs'[k].at
  }

  /** Requests i..j are granted no more than the burst and the refill of the time between them. */
  predicate WithinElapsed(q: Quota, rs: seq<Request>, verdicts: seq<bool>, i: nat, j: nat)
    requires i <= j < |rs| == |verdicts|
  {
    q.window * Admitted(rs, verdicts, i, j + 1) <= q.window * q.burst + q.count * Since(rs[i].at, rs[j].at)
  }

  predicate NeverOverAdmits(q: Quota, rs: seq<Request>, verdicts: seq<bool>)
    requires |rs| == |verdicts|
  {
    forall i, j :: 0 <= i <= j < |rs| ==> WithinElapsed(q, rs, verdicts, i, j)
  }

  lemma OneWayNeverOverAdmits(q: Quota, s: Slot, rs: seq<Request>)
    requires OneWay(rs)
    ensures NeverOverAdmits(q, rs, Verdicts(q, s, rs, |rs|))
  {
    hide OneWay, Verdicts, Admitted, Spent, Forward;
    forall i, j | 0 <= i <= j < |rs|
      ensures WithinElapsed(q, rs, Verdicts(q, s, rs, |rs|), i, j)
    {
      OneWayWindow(rs, i, j);
      RunBound(q, s, rs, i, j);
    }
  }

  /** Costs that take, from request i on, the whole burst and then everything that flows in. */
  function DrainingCost(rs: seq<Request>, i: nat, burst: nat, k: nat): nat
    requires k < |rs|
  {
    if k < i then 0 else if k == i then burst else Since(rs[k - 1].at, rs[k].at)
  }

  function Draining(rs: seq<Request>, i: nat, burst: nat): (rs': seq<Request>)
    ensures SameReadings(rs, rs')
    ensures forall k :: 0 <= k < |rs'| ==> rs'[k] == Request(rs[k].at, DrainingCost(rs, i, burst, k))
  {
    hide DrainingCost;
    seq(|rs|, k requires 0 <= k < |rs| => Request(rs[k].at, DrainingCost(rs, i, burst, k)))
  }

  lemma {:induction false} StepsWithinForward(rs: seq<Request>, i: nat, k: nat, j: nat)
    requires i < k <= j < |rs|
    ensures Since(rs[k - 1].at, rs[k].at) <= Forward(rs, i, k) <= Forward(rs, i, j)
  {
    if k < j {
      StepsWithinForward(rs, i, k, j - 1);
    }
  }

  /** One token per nanosecond, so that a level is a number of tokens. */
  function PerNano(burst: nat): Quota {
    Quota(1, 1, burst)
  }

  /** What request k of a draining run leaves. */
  function LeftAfter(rs: seq<Request>, i: nat, burst: nat, k: nat): BucketState
    requires k < |rs|
  {
    BucketState(if k < i then burst else 0, rs[k].at)
  }

  lemma DrainingStep(rs: seq<Request>, i: nat, burst: nat, k: nat)
    requires i <= |rs| && 0 < k < |rs| && (i < k ==> Since(rs[k - 1].at, rs[k].at) <= burst)
    ensures var q, s, r := PerNano(burst), Some(LeftAfter(rs, i, burst, k - 1)), Draining(rs, i, burst)[k];
      Grants(q, s, r) && Serve(q, s, r) == Some(LeftAfter(rs, i, burst, k))
  {
    hide Draining;
  }

  lemma DrainingFirst(rs: seq<Request>, i: nat, burst: nat)
    requires rs != []
    ensures var q, r := PerNano(burst), Draining(rs, i, burst)[0];
      Grants(q, None, r) && Serve(q, None, r) == Some(LeftAfter(rs, i, burst, 0))
  {
    hide Draining;
  }

  lemma {:induction false} DrainingRun(rs: seq<Request>, i: nat, j: nat, burst: nat, k: nat)
    requires i <= j < |rs| && burst >= Forward(rs, i, j) && k <= j
    ensures Granted(PerNano(burst), None, Draining(rs, i, burst), k)
    ensures After(PerNano(burst), None, Draining(rs, i, burst), k + 1) == Some(LeftAfter(rs, i, burst, k))
  {
    hide Grants, Serve, Draining, DrainingCost, LeftAfter, PerNano, Forward;
    if k == 0 {
      DrainingFirst(rs, i, burst);
    } else {
      DrainingRun(rs, i, j, burst, k - 1);
      if i < k {
        StepsWithinForward(rs, i, k, j);
      }
      DrainingStep(rs, i, burst, k);
    }
  }

  lemma {:induction false} DrainingSpends(rs: seq<Request>, i: nat, j: nat, burst: nat, m: nat)
    requires i <= m <= j < |rs| && burst >= Forward(rs, i, j)
    ensures Spent(PerNano(burst), None, Draining(rs, i, burst), i, m + 1) == burst + Forward(rs, i, m)
  {
    hide Granted, PerNano, Draining, LeftAfter, After;
    DrainingRun(rs, i, j, burst, m);
    if i < m {
      DrainingSpends(rs, i, j, burst, m - 1);
    }
  }

  /** The bound on runs is attained: for any readings and any window of them, some costs reach it. */
  lemma SpentBoundIsAttained(rs: seq<Request>, i: nat, j: nat)
    requires i <= j < |rs|
    ensures var burst := Forward(rs, i, j); var q := PerNano(burst); var rs' := Draining(rs, i, burst);
      q.window * Spent(q, None, rs', i, j + 1) == q.window * q.burst + q.count * Forward(rs', i, j)
  {
    hide Draining, Spent;
    DrainingSpends(rs, i, j, Forward(rs, i, j), j);
    ForwardOfReadings(rs, Draining(rs, i, Forward(rs, i, j)), i, j);
  }

  lemma {:induction false} ForwardOfReadings(rs: seq<Request>, rs': seq<Request>, i: nat, j: nat)
    requires i <= j < |rs| && SameReadings(rs, rs')
    ensures Forward(rs, i, j) == Forward(rs', i, j)
  {
    if i < j {
      ForwardOfReadings(rs, rs', i, j - 1);
    }
  }

  // ---------------------------------------------------------------- requests of one token each

  predicate Rises(rs: seq<Request>, n: nat)
    requires n < |rs|
  {
    forall k, l :: 0 <= k <= l <= n ==> rs[k].at <= rs[l].at
  }

  predicate Falls(rs: seq<Request>, n: nat)
    requires n < |rs|
  {
    forall k, l :: 0 <= k <= l <= n ==> rs[l].at <= rs[k].at
  }

  /** Up to request n the readings run one way, not all alike, and the next turns back. */
  predicate TurnsDown(rs: seq<Request>, n: nat) {
    n + 1 < |rs| && Rises(rs, n) && rs[0].at < rs[n].at && rs[n + 1].at < rs[n].at
  }

  predicate TurnsUp(rs: seq<Request>, n: nat) {
    n + 1 < |rs| && Falls(rs, n) && rs[n].at < rs[0].at && rs[n].at < rs[n + 1].at
  }

  /** Readings that do not run one way turn somewhere for the first time. */
  lemma {:induction false} FirstTurn(rs: seq<Request>, m: nat) returns (n: nat)
    requires m < |rs| && !Rises(rs, m) && !Falls(rs, m)
    ensures TurnsDown(rs, n) || TurnsUp(rs, n)
  {
    if !Rises(rs, m - 1) && !Falls(rs, m - 1) {
      n := FirstTurn(rs, m - 1);
    } else {
      n := m - 1;
    }
  }

  /** A token for the whole rise, and a burst one short of the requests along it. */
  function RiseQuota(rs: seq<Request>, n: nat): Quota
    requires TurnsDown(rs, n)
  {
    Quota(1, rs[n].at - rs[0].at, n)
  }

  /** What request k leaves: the burst less the tokens taken, and the time since the first. */
  function RiseLevel(rs: seq<Request>, n: nat, k: nat): int
    requires TurnsDown(rs, n) && k <= n
  {
    (n - k - 1) * (rs[n].at - rs[0].at) + (rs[k].at - rs[0].at)
  }

  lemma RiseLevels(rs: seq<Request>, n: nat, k: nat)
    requires TurnsDown(rs, n) && k <= n
    ensures var w := rs[n].at - rs[0].at;
      && 0 <= RiseLevel(rs, n, k)
      && (0 < k ==> RiseLevel(rs, n, k) == RiseLevel(rs, n, k - 1) + (rs[k].at - rs[k - 1].at) - w)
      && (k == 0 ==> RiseLevel(rs, n, k) == n * w - w)
      && RiseLevel(rs, n, k) + w <= n * w
  {
    var w := rs[n].at - rs[0].at;
    assert Rises(rs, n) && rs[0].at <= rs[k].at <= rs[n].at;
    Distributes(w, n - k - 1, 1);
    Distributes(w, n - k, k);
    if k < n {
      TimesInOrder(w, 0, n - k - 1);
    }
    if k > 0 {
      TimesInOrder(w, 1, k);
    }
  }

  lemma {:induction false} RiseIsGranted(rs: seq<Request>, n: nat, k: nat)
    requires TurnsDown(rs, n) && UnitCosts(rs) && k <= n
    ensures RiseLevel(rs, n, k) >= 0
    ensures Granted(RiseQuota(rs, n), None, rs, k)
    ensures After(RiseQuota(rs, n), None, rs, k + 1) == Some(BucketState(RiseLevel(rs, n, k), rs[k].at))
  {
    hide RiseLevel, Rises;
    RiseLevels(rs, n, k);
    if k > 0 {
      RiseIsGranted(rs, n, k - 1);
      RisesOn(rs, n, k);
    }
  }

  lemma RisesOn(rs: seq<Request>, n: nat, k: nat)
    requires n < |rs| && Rises(rs, n) && 0 < k <= n
    ensures rs[k - 1].at <= rs[k].at
  {
  }

  /** A token for the step up that follows the fall, and a burst as large as the fall. */
  function FallQuota(rs: seq<Request>, n: nat): Quota
    requires TurnsUp(rs, n)
  {
    Quota(1, rs[n + 1].at - rs[n].at, n + 1)
  }

  /** What request k leaves: the burst less the tokens taken. */
  function FallLevel(rs: seq<Request>, n: nat, k: nat): nat
    requires TurnsUp(rs, n) && k <= n
  {
    (n - k) * (rs[n + 1].at - rs[n].at)
  }

  lemma FallLevels(rs: seq<Request>, n: nat, k: nat)
    requires TurnsUp(rs, n) && k <= n
    ensures var w := rs[n + 1].at - rs[n].at;
      && (0 < k ==> FallLevel(rs, n, k) == FallLevel(rs, n, k - 1) - w)
      && (k == 0 ==> FallLevel(rs, n, k) == (n + 1) * w - w)
      && (k == n ==> FallLevel(rs, n, k) == 0)
      && FallLevel(rs, n, k) + w <= (n + 1) * w
  {
    var w := rs[n + 1].at - rs[n].at;
    Distributes(w, n - k, 1);
    Distributes(w, n, 1);
    TimesInOrder(w, n - k + 1, n + 1);
  }

  lemma {:induction false} FallIsGranted(rs: seq<Request>, n: nat, k: nat)
    requires TurnsUp(rs, n) && UnitCosts(rs) && k <= n
    ensures Granted(FallQuota(rs, n), None, rs, k)
    ensures After(FallQuota(rs, n), None, rs, k + 1) == Some(BucketState(FallLevel(rs, n, k), rs[k].at))
  {
    hide FallLevel, Falls;
    FallLevels(rs, n, k);
    if k > 0 {
      FallIsGranted(rs, n, k - 1);
      FallsOn(rs, n, k);
    }
  }

  /** The step up pays for one request more. */
  lemma StepUpIsGranted(rs: seq<Request>, n: nat)
    requires TurnsUp(rs, n) && UnitCosts(rs)
    ensures Granted(FallQuota(rs, n), None, rs, n + 1)
  {
    hide FallLevel, Falls;
    FallIsGranted(rs, n, n);
    FallLevels(rs, n, n);
  }

  lemma FallsOn(rs: seq<Request>, n: nat, k: nat)
    requires n < |rs| && Falls(rs, n) && 0 < k <= n
    ensures rs[k].at <= rs[k - 1].at
  {
  }

  lemma {:induction false} UnitsSpent(q: Quota, rs: seq<Request>, j: nat)
    requires UnitCosts(rs) && j <= |rs| && forall k :: 0 <= k < j ==> Granted(q, None, rs, k)
    ensures Spent(q, None, rs, 0, j) == j
  {
    hide Granted;
    if j > 0 {
      UnitsSpent(q, rs, j - 1);
    }
  }

  /** The quota under which readings that go back and forth over-admit. */
  lemma BackAndForthOverAdmits(rs: seq<Request>) returns (q: Quota)
    requires !OneWay(rs) && UnitCosts(rs)
    ensures !NeverOverAdmits(q, rs, Verdicts(q, None, rs, |rs|))
  {
    hide Spent, Admitted, Verdicts, Granted, After;
    var n := FirstTurn(rs, |rs| - 1);
    if TurnsDown(rs, n) {
      q := RiseQuota(rs, n);
      forall k | 0 <= k <= n
        ensures Granted(q, None, rs, k)
      {
        RiseIsGranted(rs, n, k);
      }
      UnitsSpent(q, rs, n + 1);
      OneMoreSpent(q, rs, n + 1);
      TooMuchSpent(q, rs, n + 1, n + 1);
    } else {
      q := FallQuota(rs, n);
      forall k | 0 <= k <= n + 1
        ensures Granted(q, None, rs, k)
      {
        if k <= n {
          FallIsGranted(rs, n, k);
        } else {
          StepUpIsGranted(rs, n);
        }
      }
      UnitsSpent(q, rs, n + 2);
      TooMuchSpent(q, rs, n + 1, n + 2);
    }
  }

  lemma OneMoreSpent(q: Quota, rs: seq<Request>, j: nat)
    requires j < |rs|
    ensures Spent(q, None, rs, 0, j) <= Spent(q, None, rs, 0, j + 1)
  {
  }

  /** One token more than the burst is too much for less than the time of a token. */
  lemma TooMuchSpent(q: Quota, rs: seq<Request>, j: nat, spent: nat)
    requires j < |rs| && spent == q.burst + 1 && spent <= Spent(q, None, rs, 0, j + 1)
    requires q.count == 1 && Since(rs[0].at, rs[j].at) < q.window
    ensures !NeverOverAdmits(q, rs, Verdicts(q, None, rs, |rs|))
  {
    hide Spent, Admitted, Verdicts;
    AdmittedIsSpent(q, None, rs, 0, j + 1);
    TimesInOrder(q.window, spent, Spent(q, None, rs, 0, j + 1));
    Distributes(q.window, q.burst, 1);
    assert !WithinElapsed(q, rs, Verdicts(q, None, rs, |rs|), 0, j);
  }

  // ---------------------------------------------------------------- every order can happen

  function Start<K>(): World<K> {
    World(0, map[], map[])
  }

  function CommitAll<K>(rs: seq<Request>, i: nat): seq<Step<K>>
    requires i <= |rs|
    decreases |rs| - i
  {
    if i == |rs| then [] else [Commit(i)] + CommitAll(rs, i + 1)
  }

  /** Samples every request when the clock shows its reading, then commits them in the given order. */
  function Plan<K>(rs: seq<Request>, k: K, t: nat, i: nat, last: nat): seq<Step<K>>
    requires i <= |rs|
    decreases last + 1 - t, |rs| - i
  {
    if last < t then CommitAll(rs, 0)
    else if i == |rs| then [Tick(1)] + Plan(rs, k, t + 1, 0, last)
    else if rs[i].at == t then [Sample(i, k, rs[i].cost)] + Plan(rs, k, t, i + 1, last)
    else Plan(rs, k, t, i + 1, last)
  }

  /** The requests sampled before the clock has shown t, and the first i of those that read t. */
  function SampledBy<K>(rs: seq<Request>, k: K, t: nat, i: nat): map<nat, Pending<K>> {
    map m: nat | m < |rs| && (rs[m].at < t || (rs[m].at == t && m < i)) :: Pending(k, rs[m])
  }

  function LeftFrom<K>(rs: seq<Request>, k: K, i: nat): map<nat, Pending<K>> {
    map m: nat | i <= m < |rs| :: Pending(k, rs[m])
  }

  lemma {:induction false} CommitsInOrder<K>(q: Quota, w: World<K>, rs: seq<Request>, k: K, i: nat)
    requires i <= |rs| && w.pending == LeftFrom(rs, k, i)
    ensures Legal(q, w, CommitAll(rs, i)) && NeverDropped(CommitAll(rs, i), k)
    ensures CommitsOn(q, w, CommitAll(rs, i), k) == rs[i..]
    decreases |rs| - i
  {
    hide Legal, CommitsOn, DecisionsOn, Served;
    if i == |rs| {
      NothingLeft(q, w, k);
    } else {
      var w' := Next(q, w, Commit(i));
      assert w'.pending == LeftFrom(rs, k, i + 1);
      CommitsInOrder(q, w', rs, k, i + 1);
      Unfold(q, w, CommitAll(rs, i), Commit(i), CommitAll(rs, i + 1), k);
    }
  }

  lemma {:induction false} PlanCommitsInOrder<K>(
    q: Quota, w: World<K>, rs: seq<Request>, k: K, t: nat, i: nat, last: nat)
    requires i <= |rs| && forall m :: 0 <= m < |rs| ==> rs[m].at <= last
    requires w.clock == t && w.pending == SampledBy(rs, k, t, i)
    ensures Legal(q, w, Plan(rs, k, t, i, last)) && NeverDropped(Plan(rs, k, t, i, last), k)
    ensures CommitsOn(q, w, Plan(rs, k, t, i, last), k) == rs
    decreases last + 1 - t, |rs| - i
  {
    hide Legal, CommitsOn, DecisionsOn;
    var steps := Plan(rs, k, t, i, last);
    if last < t {
      assert w.pending == LeftFrom(rs, k, 0);
      CommitsInOrder(q, w, rs, k, 0);
    } else if i == |rs| {
      var w' := Next(q, w, Tick(1));
      assert w'.pending == SampledBy(rs, k, t + 1, 0);
      PlanCommitsInOrder(q, w', rs, k, t + 1, 0, last);
      Unfold(q, w, steps, Tick(1), Plan(rs, k, t + 1, 0, last), k);
    } else if rs[i].at == t {
      var step := Sample(i, k, rs[i].cost);
      var w' := Next(q, w, step);
      assert w'.pending == SampledBy(rs, k, t, i + 1);
      PlanCommitsInOrder(q, w', rs, k, t, i + 1, last);
      Unfold(q, w, steps, step, Plan(rs, k, t, i + 1, last), k);
    } else {
      assert SampledBy(rs, k, t, i + 1) == SampledBy(rs, k, t, i);
      PlanCommitsInOrder(q, w, rs, k, t, i + 1, last);
    }
  }

  function LatestReading(rs: seq<Request>): (latest: nat)
    ensures forall m :: 0 <= m < |rs| ==> rs[m].at <= latest
  {
    if rs == [] then 0 else Max(rs[0].at, LatestReading(rs[1..]))
  }

  function Realized<K>(rs: seq<Request>, k: K): seq<Step<K>> {
    Plan(rs, k, 0, 0, LatestReading(rs))
  }

  /** Any requests with any readings, in any order, are the commits of some run of an empty store. */
  lemma EveryOrderHappens<K>(q: Quota, rs: seq<Request>, k: K)
    ensures Legal(q, Start(), Realized(rs, k)) && NeverDropped(Realized(rs, k), k)
    ensures CommitsOn(q, Start(), Realized(rs, k), k) == rs
  {
    PlanCommitsInOrder(q, Start(), rs, k, 0, 0, LatestReading(rs));
  }

  // ---------------------------------------------------------------- the store's claim

  /** Commits of a key that carry readings running one way keep to the bound, in any store. */
  lemma OneWayCommitsNeverOverAdmit<K>(q: Quota, w: World<K>, steps: seq<Step<K>>, k: K)
    requires Legal(q, w, steps) && NeverDropped(steps, k) && OneWay(CommitsOn(q, w, steps, k))
    ensures var rs, verdicts := CommitsOn(q, w, steps, k), DecisionsOn(q, w, steps, k);
      |rs| == |verdicts| && NeverOverAdmits(q, rs, verdicts)
  {
    hide DecisionsOn, CommitsOn, Verdicts, NeverOverAdmits, OneWay, Legal;
    CommitsAreARun(q, w, steps, k);
    OneWayNeverOverAdmits(q, Lookup(w.slots, k), CommitsOn(q, w, steps, k));
  }

  predicate BoundHolds<K(==)>(q: Quota, steps: seq<Step<K>>, k: K)
    requires Legal(q, Start(), steps)
  {
    var rs, verdicts := CommitsOn(q, Start(), steps, k), DecisionsOn(q, Start(), steps, k);
    |rs| == |verdicts| && NeverOverAdmits(q, rs, verdicts)
  }

  /** No run of an empty store that commits just these requests on k grants too much, whatever the quota. */
  ghost predicate StoresNeverOverAdmit<K(!new)>(rs: seq<Request>, k: K) {
    forall q: Quota, steps: seq<Step<K>> ::
      Legal(q, Start(), steps) && NeverDropped(steps, k) && CommitsOn(q, Start(), steps, k) == rs ==>
        BoundHolds(q, steps, k)
  }

  /**
   Concurrent calls of one token each, as the handler makes them, cannot over-admit a key that is never
   dropped exactly when its commits carry readings that run one way: all in sample order, or all in
   the reverse of it.
   */
  lemma UnitCallsNeverOverAdmitIff<K(!new)>(rs: seq<Request>, k: K)
    requires UnitCosts(rs)
    ensures StoresNeverOverAdmit(rs, k) <==> OneWay(rs)
  {
    hide CommitsOn, DecisionsOn, Legal, NeverOverAdmits, Verdicts, NeverDropped, OneWay;
    if OneWay(rs) {
      OneWayStoresNeverOverAdmit(rs, k);
    } else {
      var q := BackAndForthOverAdmits(rs);
      EveryOrderHappens(q, rs, k);
      CommitsAreARun(q, Start(), Realized(rs, k), k);
      assert !BoundHolds(q, Realized(rs, k), k);
    }
  }

  lemma OneWayStoresNeverOverAdmit<K(!new)>(rs: seq<Request>, k: K)
    requires OneWay(rs)
    ensures StoresNeverOverAdmit(rs, k)
  {
    hide CommitsOn, DecisionsOn, Legal, NeverOverAdmits, NeverDropped, OneWay;
    forall q: Quota, steps: seq<Step<K>> |
      Legal(q, Start(), steps) && NeverDropped(steps, k) && CommitsOn(q, Start(), steps, k) == rs
      ensures BoundHolds(q, steps, k)
    {
      OneWayCommitsNeverOverAdmit(q, Start(), steps, k);
    }
  }

  function AsUnits(rs: seq<Request>): (rs': seq<Request>)
    ensures SameReadings(rs, rs') && UnitCosts(rs')
  {
    seq(|rs|, k requires 0 <= k < |rs| => Request(rs[k].at, 1))
  }

  /** Nor can calls of any costs, for the same readings. */
  lemma StoresNeverOverAdmitIff<K(!new)>(rs: seq<Request>, k: K)
    ensures (forall rs' :: SameReadings(rs, rs') ==> StoresNeverOverAdmit(rs', k)) <==> OneWay(rs)
  {
    hide StoresNeverOverAdmit;
    if OneWay(rs) {
      forall rs' | SameReadings(rs, rs')
        ensures StoresNeverOverAdmit(rs', k)
      {
        OneWayStoresNeverOverAdmit(rs', k);
      }
    } else {
      var units := AsUnits(rs);
      assert SameReadings(rs, units) && !OneWay(units);
      UnitCallsNeverOverAdmitIff(units, k);
    }
  }

  // ---------------------------------------------------------------- the store's claim about idle expiry

  /** A request that samples `at` nanoseconds after the burst is spent, and commits after the entry has expired. */
  function LateCommit<K>(q: Quota, k: K, at: nat): seq<Step<K>>
    requires at <= q.window
  {
    [Sample(0, k, q.burst), Commit(0), Tick(at), Sample(1, k, q.burst), Tick(q.window - at), Discard(k), Commit(1)]
  }

  lemma UnfoldOps<K>(q: Quota, w: World<K>, steps: seq<Step<K>>, step: Step<K>, rest: seq<Step<K>>, k: K)
    requires steps == [step] + rest && Enabled(w, step) && Legal(q, Next(q, w, step), rest)
    ensures Legal(q, w, steps) && OpsOn(q, w, steps, k) == OpOn(w, step, k) + OpsOn(q, Next(q, w, step), rest, k)
  {
    assert steps[1..] == rest;
  }

  lemma LateCommitOps<K>(q: Quota, k: K, at: nat)
    requires at <= q.window
    ensures Legal(q, Start(), LateCommit(q, k, at)) && OpsOn(q, Start(), LateCommit(q, k, at), k) == BurstTwice(q, at)
  {
    hide Legal, OpsOn, Served;
    var s: seq<Step<K>> := LateCommit(q, k, at);
    var w0: World<K> := Start();
    var w1 := Next(q, w0, s[0]);
    var w2 := Next(q, w1, s[1]);
    var w3 := Next(q, w2, s[2]);
    var w4 := Next(q, w3, s[3]);
    var w5 := Next(q, w4, s[4]);
    var w6 := Next(q, w5, s[5]);
    NothingMore(q, Next(q, w6, s[6]), k);
    UnfoldOps(q, w6, s[6..], s[6], [], k);
    UnfoldOps(q, w5, s[5..], s[5], s[6..], k);
    UnfoldOps(q, w4, s[4..], s[4], s[5..], k);
    UnfoldOps(q, w3, s[3..], s[3], s[4..], k);
    UnfoldOps(q, w2, s[2..], s[2], s[3..], k);
    UnfoldOps(q, w1, s[1..], s[1], s[2..], k);
    UnfoldOps(q, w0, s, s[0], s[1..], k);
  }

  lemma NothingMore<K>(q: Quota, w: World<K>, k: K)
    ensures Legal(q, w, []) && OpsOn(q, w, [], k) == []
  {
  }

  /**
   The expiry is idle, and decides the late commit differently exactly when the burst had not come
   back by its sample: for any quota that grants at all, when it samples right after the first.
   */
  lemma LateCommitSeesExpiryIff<K>(q: Quota, k: K, at: nat)
    requires at <= q.window
    ensures var steps := LateCommit(q, k, at);
      && Legal(q, Start(), steps) && DropsAreIdle(q, None, OpsOn(q, Start(), steps, k))
      && Legal(q, Start(), WithoutDiscards(steps))
      && (DecisionsOn(q, Start(), steps, k) != DecisionsOn(q, Start(), WithoutDiscards(steps), k)
          <==> at * q.count < q.burst * q.window)
  {
    hide Legal, OpsOn, DecisionsOn, KeyVerdicts, WithoutDiscards, LateCommit, BurstTwice, Uses;
    var steps: seq<Step<K>> := LateCommit(q, k, at);
    LateCommitOps(q, k, at);
    DiscardsOnlyDrop(q, Start(), Start(), steps, k);
    RunsProjectPerKey(q, Start(), steps, k);
    RunsProjectPerKey(q, Start(), WithoutDiscards(steps), k);
    BurstTwiceIsIdle(q, at);
    BurstTwiceDiffersIff(q, at);
  }
}
