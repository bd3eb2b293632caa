/**
 A throttled client against a rate-limiting server: when can the guest never be refused?
 */
module PoliteGuest {
  import opened Wrappers
  import opened Durations
  import opened Quotas
  import opened Buckets
  import opened Runs
  import opened Throttles
  import opened ThrottleRuns

  /** Which operations are claims, in order. */
  function ClaimIndices(ops: seq<ScopeOp>): (ks: seq<nat>)
    ensures forall i :: 0 <= i < |ks| ==> ks[i] < |ops| && ops[ks[i]].Claim?
    ensures forall i, j :: 0 <= i < j < |ks| ==> ks[i] < ks[j]
  {
    if ops == [] then []
    else ClaimIndices(ops[..|ops| - 1]) + if ops[|ops| - 1].Claim? then [|ops| - 1] else []
  }

  /** The unit requests the server receives, each `latency` after its claim let it go. */
  function Deliveries(p: Pace, ops: seq<ScopeOp>, latency: nat): (rs: seq<Request>)
    ensures |rs| == |ClaimIndices(ops)|
    ensures forall k :: 0 <= k < |rs| ==> rs[k] == Request(Proceed(p, ops, ClaimIndices(ops)[k]) + latency, 1)
  {
    var ks := ClaimIndices(ops);
    seq(|ks|, k requires 0 <= k < |ks| => Request(Proceed(p, ops, ks[k]) + latency, 1))
  }

  /** A claim finds the TAT an interval past each earlier delivery for every claim since. */
  lemma {:induction false} TatOutpacesDeliveries(p: Pace, ops: seq<ScopeOp>, i: nat, j: nat)
    requires i < j < |ClaimIndices(ops)|
    ensures var ks := ClaimIndices(ops);
      Proceed(p, ops, ks[i]) + p.interval * (j - i) <= Found(p, ops, ks[j])
    decreases j
  {
    var ks := ClaimIndices(ops);
    SlotsStayOrdered(p, ops, ks[j - 1] + 1, ks[j]);
    assert Found(p, ops, ks[j - 1]) + p.interval <= TatAfter(p, ops, ks[j - 1] + 1).value;
    if i + 1 < j {
      TatOutpacesDeliveries(p, ops, i, j - 1);
      Distributes(p.interval, j - 1 - i, 1);
    }
  }

  lemma DeliveriesAreSpaced(p: Pace, ops: seq<ScopeOp>, latency: nat, i: nat, j: nat)
    requires ClaimsInOrder(ops) && i <= j < |Deliveries(p, ops, latency)|
    ensures var rs := Deliveries(p, ops, latency);
      && rs[i].at <= rs[j].at
      && rs[i].at + p.interval * (j - i) <= rs[j].at + p.tolerance
  {
    hide Found, ClaimIndices, Deliveries, ClaimsInOrder;
    if i < j {
      var ks := ClaimIndices(ops);
      WakeInClaimOrder(p, ops, ks[i], ks[j]);
      TatOutpacesDeliveries(p, ops, i, j);
    }
  }

  lemma DeliveriesInOrder(p: Pace, ops: seq<ScopeOp>, latency: nat)
    requires ClaimsInOrder(ops)
    ensures Monotone(Deliveries(p, ops, latency))
  {
    var rs := Deliveries(p, ops, latency);
    forall i, j | 0 <= i <= j < |rs|
      ensures rs[i].at <= rs[j].at
    {
      DeliveriesAreSpaced(p, ops, latency, i, j);
    }
  }

  lemma {:induction false} UnitsAsked(rs: seq<Request>, i: nat, j: nat)
    requires i <= j <= |rs| && forall k :: 0 <= k < |rs| ==> rs[k].cost == 1
    ensures Asked(rs, i, j) == j - i
  {
    if i < j {
      UnitsAsked(rs, i, j - 1);
    }
  }

  /** How many claims made together a pace lets go without a wait. */
  function AtOnce(p: Pace): pos
    requires p.interval > 0
  {
    p.tolerance / p.interval + 1
  }

  /** How long the first claim beyond them waits. */
  function FirstWait(p: Pace): nat
    requires p.interval > 0
  {
    assert p.tolerance == p.interval * (p.tolerance / p.interval) + p.tolerance % p.interval;
    Distributes(p.interval, p.tolerance / p.interval, 1);
    p.interval * AtOnce(p) - p.tolerance
  }

  /**
   The server refills a token per interval, takes at once what the client sends at once, and takes
   the next request when the client lets it go.
   */
  predicate SlowEnough(q: Quota, p: Pace) {
    && q.window <= q.count * p.interval
    && (assert p.interval > 0; AtOnce(p) <= q.burst)
    && q.window * (AtOnce(p) + 1) <= q.window * q.burst + q.count * FirstWait(p)
  }

  /** m requests spread over `span` fit a server for which their pace is slow enough. */
  lemma SpacedRequestsFit(q: Quota, p: Pace, m: nat, span: nat)
    requires SlowEnough(q, p)
    requires m > 0 ==> p.interval * (m - 1) <= span + p.tolerance
    ensures q.window * m <= q.window * q.burst + q.count * span
  {
    if m <= AtOnce(p) {
      TimesInOrder(q.window, m, q.burst);
    } else {
      var more := m - 1 - AtOnce(p);
      Distributes(p.interval, AtOnce(p), more);
      TimesInOrder(q.count, FirstWait(p) + p.interval * more, span);
      Distributes(q.count, FirstWait(p), p.interval * more);
      TimesAssociates(q.count, p.interval, more);
      TimesInOrder(more, q.window, q.count * p.interval);
      Distributes(q.window, AtOnce(p) + 1, more);
    }
  }

  /**
   A guest slow enough for the server is admitted on every request of every run, back-offs included,
   at any constant latency.
   */
  lemma GuestIsNeverDenied(q: Quota, p: Pace, ops: seq<ScopeOp>, latency: nat)
    requires SlowEnough(q, p) && ClaimsInOrder(ops)
    ensures AllGranted(q, None, Deliveries(p, ops, latency))
  {
    hide Deliveries, ClaimIndices, ClaimsInOrder, Granted, Asked, SlowEnough;
    var rs := Deliveries(p, ops, latency);
    DeliveriesInOrder(p, ops, latency);
    forall i, j | 0 <= i <= j < |rs|
      ensures Fits(q, rs, i, j)
    {
      DeliveriesAreSpaced(p, ops, latency, i, j);
      UnitsAsked(rs, i, j + 1);
      SpacedRequestsFit(q, p, j + 1 - i, rs[j].at - rs[i].at);
    }
    GrantedIffConforms(q, rs);
  }

  /** What n claims made together must satisfy to be admitted. */
  lemma SimultaneousGuestFits(q: Quota, p: Pace, n: pos)
    requires AllGranted(q, None, Deliveries(p, ClaimsAt(0, n), 0))
    ensures q.window * n <= q.window * q.burst + q.count * Max(0, p.interval * (n - 1) - p.tolerance)
  {
    hide Deliveries, AllGranted, Conforms, Monotone;
    var rs := Deliveries(p, ClaimsAt(0, n), 0);
    DeliveriesInOrder(p, ClaimsAt(0, n), 0);
    SimultaneousSpan(p, n);
    GrantedIffConforms(q, rs);
    WholeRunFits(q, rs);
  }

  lemma SimultaneousSpan(p: Pace, n: pos)
    ensures var rs := Deliveries(p, ClaimsAt(0, n), 0);
      |rs| == n && rs[0].at == 0 && rs[n - 1].at == Max(0, p.interval * (n - 1) - p.tolerance)
  {
    hide Deliveries;
    SimultaneousDeliveries(p, n);
    TogetherArrives(p, n, 0);
    TogetherArrives(p, n, n - 1);
    TimesInOrder(p.interval, 0, n - 1);
  }

  lemma TogetherArrives(p: Pace, n: nat, k: nat)
    requires k < n
    ensures |Deliveries(p, ClaimsAt(0, n), 0)| == n
    ensures Deliveries(p, ClaimsAt(0, n), 0)[k].at == Max(0, p.interval * k - p.tolerance)
  {
    hide Deliveries, Proceed, Found;
    SimultaneousDeliveries(p, n);
    SimultaneousClaims(p, 0, n, k);
  }

  /** With a shorter interval, enough simultaneous claims outrun the server. */
  lemma HurriedGuestIsDenied(q: Quota, p: Pace)
    requires q.count * p.interval < q.window
    ensures var n := q.window * q.burst + 1;
      !AllGranted(q, None, Deliveries(p, ClaimsAt(0, n), 0))
  {
    hide Deliveries, AllGranted;
    var n := q.window * q.burst + 1;
    if AllGranted(q, None, Deliveries(p, ClaimsAt(0, n), 0)) {
      SimultaneousGuestFits(q, p, n);
      TimesInOrder(p.interval, 0, n - 1);
      HurriedRunOverflows(q, p, n, Max(0, p.interval * (n - 1) - p.tolerance));
    }
  }

  lemma WholeRunFits(q: Quota, rs: seq<Request>)
    requires rs != [] && Monotone(rs) && Conforms(q, rs)
    requires forall k :: 0 <= k < |rs| ==> rs[k].cost == 1
    ensures q.window * |rs| <= q.window * q.burst + q.count * (rs[|rs| - 1].at - rs[0].at)
  {
    assert Fits(q, rs, 0, |rs| - 1);
    UnitsAsked(rs, 0, |rs|);
  }

  lemma HurriedRunOverflows(q: Quota, p: Pace, n: pos, span: nat)
    requires q.count * p.interval < q.window && n == q.window * q.burst + 1
    requires span <= p.interval * (n - 1)
    ensures q.window * n > q.window * q.burst + q.count * span
  {
    TimesInOrder(q.count, span, p.interval * (n - 1));
    TimesAssociates(q.count, p.interval, n - 1);
    TimesInOrder(n - 1, q.count * p.interval, q.window - 1);
    Distributes(n - 1, q.window, -1);
    Distributes(q.window, n - 1, 1);
  }

  lemma SimultaneousDeliveries(p: Pace, n: nat)
    ensures var rs := Deliveries(p, ClaimsAt(0, n), 0);
      |rs| == n && forall k :: 0 <= k < n ==> rs[k].at == Proceed(p, ClaimsAt(0, n), k)
  {
    EveryIndexClaims(ClaimsAt(0, n));
  }

  lemma {:induction false} EveryIndexClaims(ops: seq<ScopeOp>)
    requires forall k :: 0 <= k < |ops| ==> ops[k].Claim?
    ensures |ClaimIndices(ops)| == |ops|
    ensures forall k :: 0 <= k < |ops| ==> ClaimIndices(ops)[k] == k
  {
    if ops != [] {
      EveryIndexClaims(ops[..|ops| - 1]);
    }
  }

  /** No run of the throttle, however long, is ever refused by the server. */
  ghost predicate AlwaysWelcome(q: Quota, p: Pace) {
    forall ops: seq<ScopeOp>, latency: nat ::
      ClaimsInOrder(ops) ==> AllGranted(q, None, Deliveries(p, ops, latency))
  }

  /** Exactly the paces slow enough for it are never refused by a server. */
  lemma WelcomeIffSlowEnough(server: Quota, p: Pace)
    ensures AlwaysWelcome(server, p) <==> SlowEnough(server, p)
  {
    hide AllGranted, Deliveries, ClaimsInOrder, SlowEnough;
    if SlowEnough(server, p) {
      forall ops: seq<ScopeOp>, latency: nat | ClaimsInOrder(ops)
        ensures AllGranted(server, None, Deliveries(p, ops, latency))
      {
        GuestIsNeverDenied(server, p, ops, latency);
      }
    }
    if AlwaysWelcome(server, p) {
      WelcomeIsSlowEnough(server, p);
    }
  }

  lemma WelcomeTogether(server: Quota, p: Pace, n: pos)
    requires AlwaysWelcome(server, p)
    ensures AllGranted(server, None, Deliveries(p, ClaimsAt(0, n), 0))
  {
    hide AllGranted, Deliveries;
    assert ClaimsInOrder(ClaimsAt(0, n));
  }

  lemma WelcomeIsSlowEnough(server: Quota, p: Pace)
    requires AlwaysWelcome(server, p)
    ensures SlowEnough(server, p)
  {
    hide AlwaysWelcome, AllGranted, Deliveries;
    var many := server.window * server.burst + 1;
    WelcomeTogether(server, p, many);
    if server.count * p.interval < server.window {
      HurriedGuestIsDenied(server, p);
    } else {
      OnlySomeTogether(server, p);
    }
  }

  lemma OnlySomeTogether(server: Quota, p: Pace)
    requires AlwaysWelcome(server, p) && p.interval > 0
    ensures AtOnce(p) <= server.burst
    ensures server.window * (AtOnce(p) + 1) <= server.window * server.burst + server.count * FirstWait(p)
  {
    hide AlwaysWelcome, AllGranted, Deliveries;
    WelcomeTogether(server, p, AtOnce(p));
    SimultaneousGuestFits(server, p, AtOnce(p));
    WelcomeTogether(server, p, AtOnce(p) + 1);
    SimultaneousGuestFits(server, p, AtOnce(p) + 1);
    assert p.tolerance == p.interval * (p.tolerance / p.interval) + p.tolerance % p.interval;
    if AtOnce(p) > server.burst {
      TimesInOrder(server.window, server.burst + 1, AtOnce(p));
      Distributes(server.window, server.burst, 1);
    }
  }

  /** With a tolerance within the server's burst only the interval matters. */
  lemma SlowEnoughWithinBurstIff(server: Quota, p: Pace)
    requires p.tolerance <= p.interval * (server.burst - 1)
    ensures SlowEnough(server, p) <==> server.window <= server.count * p.interval
  {
    if server.window <= server.count * p.interval {
      var i, k, spare := p.interval, p.tolerance / p.interval, server.burst - 1;
      assert p.tolerance == i * k + p.tolerance % i;
      if spare < k {
        TimesInOrder(i, spare + 1, k);
        Distributes(i, spare, 1);
      } else if k < spare {
        TimesInOrder(server.window, AtOnce(p) + 1, server.burst);
        TimesInOrder(server.count, 0, FirstWait(p));
      } else {
        Distributes(i, k, 1);
        Distributes(server.window, server.burst, 1);
      }
    }
  }

  /** For two quotas, the guest's burst within the server's: the interval compared exactly. */
  lemma QuotasWelcomeIffSlowEnough(client: Quota, server: Quota)
    requires Max(client.burst, 1) <= server.burst
    ensures AlwaysWelcome(server, PaceOf(client)) <==> server.window <= server.count * PaceOf(client).interval
  {
    hide AlwaysWelcome, PaceOf, SlowEnough;
    ToleranceWithinBurst(client);
    TimesInOrder(PaceOf(client).interval, Max(client.burst, 1) - 1, server.burst - 1);
    WelcomeIffSlowEnough(server, PaceOf(client));
    SlowEnoughWithinBurstIff(server, PaceOf(client));
  }

  /**
   A throttle and a server built from one quota: the guest is welcome on every run exactly when
   `window / count` does not round down to the nanosecond.
   */
  lemma SameQuotaWelcomeIffNotRoundedDown(q: Quota)
    requires q.count > 0 && q.burst > 0
    ensures AlwaysWelcome(q, PaceOf(q)) <==> !RoundsDown(q.window, q.count)
  {
    hide AlwaysWelcome, RoundsDown;
    QuotasWelcomeIffSlowEnough(q, q);
    NearestIsCeilUnlessRoundedDown(q.window, q.count);
  }

  /** Three requests a second is the everyday case: the interval rounds down, and a guest is refused. */
  lemma ThreePerSecondRoundsDown()
    ensures RoundsDown(PerSecond(3).window, PerSecond(3).count)
    ensures !AlwaysWelcome(PerSecond(3), PaceOf(PerSecond(3)))
  {
    SameQuotaWelcomeIffNotRoundedDown(PerSecond(3));
  }

  /** The refusal comes at once: the fourth of four requests made together. */
  lemma FourthRequestDenied()
    ensures var q := PerSecond(3); var rs := Deliveries(PaceOf(q), ClaimsAt(0, 4), 0);
      && |rs| == 4
      && Granted(q, None, rs, 0) && Granted(q, None, rs, 1) && Granted(q, None, rs, 2)
      && !Granted(q, None, rs, 3)
  {
    var q, p := PerSecond(3), PaceOf(PerSecond(3));
    assert p == Pace(333_333_333, 666_666_666);
    var rs := Deliveries(p, ClaimsAt(0, 4), 0);
    SimultaneousDeliveries(p, 4);
    SimultaneousClaims(p, 0, 4, 0);
    SimultaneousClaims(p, 0, 4, 1);
    SimultaneousClaims(p, 0, 4, 2);
    SimultaneousClaims(p, 0, 4, 3);
    assert rs == [Request(0, 1), Request(0, 1), Request(0, 1), Request(333_333_333, 1)];
    assert After(q, None, rs, 1) == Some(BucketState(2 * q.window, 0));
    assert After(q, None, rs, 2) == Some(BucketState(q.window, 0));
    assert After(q, None, rs, 3) == Some(BucketState(0, 0));
  }
}
