/** The rate-limiting handler: what it does to the store and what it tells the client. */
module Limiters {
  import opened Wrappers
  import opened Durations
  import opened Quotas
  import opened Buckets
  import opened Runs
  import opened Decisions
  import opened Stores
  import opened Text
  import opened StructuredFields
  import opened FieldLists
  import RateLimits
  import RateLimitPolicies

  /** Whole seconds, rounded up. */
  function SecsCeil(duration: nat): nat {
    duration / NANOS_PER_SEC + if duration % NANOS_PER_SEC > 0 then 1 else 0
  }

  /** A wait is covered by k whole seconds exactly when k is at least its ceiling. */
  lemma SecsCeilIsLeast(duration: nat, k: nat)
    ensures k * NANOS_PER_SEC >= duration <==> k >= SecsCeil(duration)
  {
    WaitCovers(duration, NANOS_PER_SEC, k);
  }

  datatype MissingKey = Skip | Reject | Shared

  /** The parts of a response the handler touches. */
  class Conn {
    var policyLines: seq<string>
    var limitLines: seq<string>
    var retryAfter: Option<string>
    var status: Option<nat>
    var halted: bool

    constructor ()
      ensures policyLines == [] && limitLines == [] && retryAfter == None && status == None && !halted
    {
      policyLines, limitLines := [], [];
      retryAfter, status, halted := None, None, false;
    }
  }

  function AdvertisedPolicy(q: Quota, name: string, pk: Option<string>): RateLimitPolicies.RateLimitPolicy {
    RateLimitPolicies.RateLimitPolicy(name, q.count, Requests, Some(q.window), pk)
  }

  function AdvertisedLimit(d: Decision, name: string, pk: Option<string>, jitter: nat): RateLimits.RateLimit {
    RateLimits.RateLimit(name, d.remaining, Some(SecsCeil(d.timeToFull + jitter) * NANOS_PER_SEC), pk)
  }

  function AdvertisedRetry(d: Decision, jitter: nat): nat {
    SecsCeil(d.retryAfter.GetOr(0) + jitter)
  }

  // ---------------------------------------------------------------- what the headers tell

  predicate Base64Key(pk: Option<string>) {
    pk.Some? ==> All(IsBase64, pk.value)
  }

  /** k whole seconds are enough to wait for. */
  predicate Covers(k: nat, wait: nat) {
    wait <= k * NANOS_PER_SEC
  }

  /** The line reads as one policy: the count per window, in requests, under the key if there is one. */
  predicate PolicyLineTells(line: string, q: Quota, name: string, pk: Option<string>) {
    All(IsPrintable, name) && Base64Key(pk) && q.count < INTEGER_LIMIT && q.window / NANOS_PER_SEC < INTEGER_LIMIT ==>
      RateLimitPolicies.Parse(line) == Ok([RateLimitPolicies.RateLimitPolicy(
        name, q.count, Requests,
        if q.window < NANOS_PER_SEC then None else Some(q.window / NANOS_PER_SEC * NANOS_PER_SEC), pk)])
  }

  /**
   The line reads as one limit: as many requests remaining as the bucket would grant at this instant,
   and a reset of the fewest whole seconds that cover the wait.
   */
  ghost predicate LimitLineTells(line: string, q: Quota, b: BucketState, now: nat, wait: nat,
                                 name: string, pk: Option<string>) {
    All(IsPrintable, name) && Base64Key(pk) && q.burst < INTEGER_LIMIT && Covers(INTEGER_LIMIT - 1, wait) ==>
      exists l :: RateLimits.Parse(line) == Ok([l]) && LimitTells(l, q, b, now, wait, name, pk)
  }

  ghost predicate LimitTells(l: RateLimits.RateLimit, q: Quota, b: BucketState, now: nat, wait: nat,
                             name: string, pk: Option<string>) {
    && l.name == name && l.partitionKey == pk
    && l.reset.Some? && l.reset.value % NANOS_PER_SEC == 0
    && (forall k: nat :: Covers(k, wait) <==> Covers(k, l.reset.value))
    && (forall n: nat, k: nat | k < n :: Granted(q, Some(b), UnitsAt(now, n), k) <==> k < l.remaining)
  }

  /** The text is the fewest whole seconds that cover the wait. */
  ghost predicate RetryTells(text: string, wait: nat) {
    text != "" && All(IsDigit, text) && forall k: nat :: Covers(k, wait) <==> ToNat(text) <= k
  }

  lemma PolicyLineReads(q: Quota, name: string, pk: Option<string>)
    ensures PolicyLineTells(RateLimitPolicies.Print(AdvertisedPolicy(q, name, pk)), q, name, pk)
  {
    hide RateLimitPolicies.Parse, RateLimitPolicies.Print, All;
    if All(IsPrintable, name) && Base64Key(pk) && q.count < INTEGER_LIMIT && q.window / NANOS_PER_SEC < INTEGER_LIMIT {
      RateLimitPolicies.ReadsBackInWholeSeconds(AdvertisedPolicy(q, name, pk));
    }
  }

  lemma WholeSecondsCover(wait: nat, secs: nat)
    requires secs == SecsCeil(wait)
    ensures forall k: nat :: Covers(k, wait) <==> Covers(k, secs * NANOS_PER_SEC)
    ensures forall k: nat :: Covers(k, wait) <==> secs <= k
  {
    forall k: nat
      ensures Covers(k, wait) <==> secs <= k
      ensures Covers(k, wait) <==> Covers(k, secs * NANOS_PER_SEC)
    {
      SecsCeilIsLeast(wait, k);
    }
  }

  lemma RemainingWithinBurst(q: Quota, b: BucketState, now: nat, cost: nat)
    ensures Decide(q, b, now, cost).remaining <= q.burst
  {
    hide DelayFor;
    var left := Consume(q, b, now, cost).level;
    assert left == q.window * (left / q.window) + left % q.window;
    if left / q.window > q.burst {
      TimesInOrder(q.window, q.burst + 1, left / q.window);
      Distributes(q.window, q.burst, 1);
    }
  }

  lemma LimitLineReads(q: Quota, b: BucketState, now: nat, name: string, pk: Option<string>, jitter: nat)
    ensures var d := Decide(q, b, now, 1);
      LimitLineTells(RateLimits.Print(AdvertisedLimit(d, name, pk, jitter)), q, Consume(q, b, now, 1), now,
                     d.timeToFull + jitter, name, pk)
  {
    hide RateLimits.Parse, RateLimits.Print, All, Decide, Consume, SecsCeil, UnitsAt, Granted;
    var d := Decide(q, b, now, 1);
    var l, wait := AdvertisedLimit(d, name, pk, jitter), d.timeToFull + jitter;
    if All(IsPrintable, name) && Base64Key(pk) && q.burst < INTEGER_LIMIT && Covers(INTEGER_LIMIT - 1, wait) {
      RemainingWithinBurst(q, b, now, 1);
      WholeSecondsCover(wait, SecsCeil(wait));
      assert SecsCeil(wait) * NANOS_PER_SEC / NANOS_PER_SEC == SecsCeil(wait);
      assert SecsCeil(wait) <= INTEGER_LIMIT - 1;
      RateLimits.ReadsBackInWholeSeconds(l);
      assert RateLimits.InWholeSeconds(l) == l;
      forall n: nat, k: nat | k < n
        ensures Granted(q, Some(Consume(q, b, now, 1)), UnitsAt(now, n), k) <==> k < l.remaining
      {
        RemainingIsExact(q, b, now, 1, n, k);
      }
      assert LimitTells(l, q, Consume(q, b, now, 1), now, wait, name, pk);
    }
  }

  lemma RetryReads(d: Decision, jitter: nat)
    ensures RetryTells(Digits(AdvertisedRetry(d, jitter)), d.retryAfter.GetOr(0) + jitter)
  {
    hide Digits, SecsCeil, ToNat;
    WholeSecondsCover(d.retryAfter.GetOr(0) + jitter, AdvertisedRetry(d, jitter));
    DigitsReadBack(AdvertisedRetry(d, jitter));
  }

  // ---------------------------------------------------------------- the handler

  class RateLimiter<K(!new, ==)> {
    const quota: Quota
    const store: Store<Option<K>>
    const policyName: string
    const missingKey: MissingKey
    const status: nat
    const jitter: nat
    /** Renders a key to its base64 wire form. */
    const partitionKey: Option<K -> string>

    constructor (quota: Quota, policyName: string, missingKey: MissingKey, status: nat, jitter: nat,
                 partitionKey: Option<K -> string>)
      ensures this.quota == quota && this.policyName == policyName && this.missingKey == missingKey
      ensures this.status == status && this.jitter == jitter && this.partitionKey == partitionKey
      ensures fresh(store) && store.quota == quota && store.Valid() && store.Slots() == map[]
    {
      this.quota, this.policyName, this.missingKey := quota, policyName, missingKey;
      this.status, this.jitter, this.partitionKey := status, jitter, partitionKey;
      store := new Store(quota);
    }

    /** The delay the generator rolls, of those in [0, jitter] that a u64 of nanoseconds reaches. */
    method RandomJitter(roll: nat) returns (drawn: nat)
      requires roll <= jitter && roll <= U64_MAX
      ensures drawn == roll
    {
      drawn := if jitter == 0 then 0 else roll;
    }

    /**
     A keyless request is passed, rejected or metered with its like; any other is charged one token
     under its key, told the policy and its state, and halted with `Retry-After` when denied.
     */
    method Run(conn: Conn, key: Option<K>, now: nat, roll: nat)
      requires store.Valid() && store.quota == quota
      requires roll <= jitter && roll <= U64_MAX
      modifies conn, store
      ensures store.Valid()
      ensures key.None? && missingKey != Shared ==>
                && store.Slots() == old(store.Slots())
                && conn.policyLines == old(conn.policyLines) && conn.limitLines == old(conn.limitLines)
                && conn.retryAfter == old(conn.retryAfter)
                && conn.halted == (old(conn.halted) || missingKey == Reject)
                && conn.status == if missingKey == Reject then Some(status) else old(conn.status)
      ensures key.Some? || missingKey == Shared ==>
                var b := Opened(quota, Lookup(old(store.Slots()), key), now);
                var d := Decide(quota, b, now, 1);
                var pk := if partitionKey.Some? && key.Some? then Some(partitionKey.value(key.value)) else None;
                var policyLine := RateLimitPolicies.Print(AdvertisedPolicy(quota, policyName, pk));
                var limitLine := RateLimits.Print(AdvertisedLimit(d, policyName, pk, roll));
                && store.Slots() == Served(quota, old(store.Slots()), key, now, 1)
                && conn.policyLines == old(conn.policyLines) + [policyLine]
                && PolicyLineTells(policyLine, quota, policyName, pk)
                && conn.limitLines == old(conn.limitLines) + [limitLine]
                && LimitLineTells(limitLine, quota, Consume(quota, b, now, 1), now, d.timeToFull + roll, policyName, pk)
                && conn.retryAfter
                   == (if d.allowed then old(conn.retryAfter) else Some(Digits(AdvertisedRetry(d, roll))))
                && (!d.allowed ==> RetryTells(conn.retryAfter.value, d.retryAfter.GetOr(0) + roll))
                && conn.halted == (old(conn.halted) || !d.allowed)
                && conn.status == if d.allowed then old(conn.status) else Some(status)
    {
      hide RateLimits.Print, RateLimitPolicies.Print, AdvertisedPolicy, AdvertisedLimit, AdvertisedRetry;
      hide Decide, Consume, Served, SecsCeil, Digits, Opened, Lookup, PolicyLineTells, LimitLineTells, RetryTells;
      if key.None? {
        match missingKey
        case Skip => return;
        case Reject =>
          conn.status, conn.halted := Some(status), true;
          return;
        case Shared =>
      }
      var pk := if partitionKey.Some? && key.Some? then Some(partitionKey.value(key.value)) else None;

      ghost var b := Opened(quota, Lookup(store.Slots(), key), now);
      var decision := store.Consume(key, 1, now);
      var drawn := RandomJitter(roll);
      PolicyLineReads(quota, policyName, pk);
      LimitLineReads(quota, b, now, policyName, pk, drawn);
      RetryReads(decision, drawn);

      Announce(conn, decision, pk, drawn);
      if !decision.allowed {
        Deny(conn, decision, drawn);
      }
    }

    /** The part of `Run` that turns a denied request away. */
    method Deny(conn: Conn, decision: Decision, drawn: nat)
      modifies conn`retryAfter, conn`status, conn`halted
      ensures conn.retryAfter == Some(Digits(AdvertisedRetry(decision, drawn)))
      ensures conn.status == Some(status) && conn.halted
    {
      hide SecsCeil, Digits;
      var retryAfter := SecsCeil(decision.retryAfter.GetOr(0) + drawn);
      conn.retryAfter := Some(Digits(retryAfter));
      conn.status, conn.halted := Some(status), true;
    }

    /** The part of `Run` that appends the two list headers. */
    method Announce(conn: Conn, decision: Decision, pk: Option<string>, drawn: nat)
      modifies conn`policyLines, conn`limitLines
      ensures conn.policyLines
           == old(conn.policyLines) + [RateLimitPolicies.Print(AdvertisedPolicy(quota, policyName, pk))]
      ensures conn.limitLines
           == old(conn.limitLines) + [RateLimits.Print(AdvertisedLimit(decision, policyName, pk, drawn))]
    {
      hide RateLimits.Print, RateLimitPolicies.Print, SecsCeil;
      var policy := RateLimitPolicies.RateLimitPolicy(policyName, quota.count, Requests, None, None);
      policy := policy.(window := Some(quota.window));
      var limit := RateLimits.RateLimit(policyName, decision.remaining, None, None);
      limit := limit.(reset := Some(SecsCeil(decision.timeToFull + drawn) * NANOS_PER_SEC));
      if pk.Some? {
        policy := policy.(partitionKey := pk);
        limit := limit.(partitionKey := pk);
      }

      var policyText := new Formatter();
      RateLimitPolicies.Display(policyText, policy);
      assert policyText.text == RateLimitPolicies.Print(policy);
      conn.policyLines := conn.policyLines + [policyText.text];
      var limitText := new Formatter();
      RateLimits.Display(limitText, limit);
      assert limitText.text == RateLimits.Print(limit);
      conn.limitLines := conn.limitLines + [limitText.text];
    }
  }

  // ---------------------------------------------------------------- is the advertised retry enough?

  /** The exact wait ends a fraction of a nanosecond after a whole second, and that fraction is lost. */
  predicate LosesASecond(missing: nat, count: pos) {
    RoundsDown(missing, count) && missing / count % NANOS_PER_SEC == 0
  }

  /**
   Without jitter the advertised whole seconds are never more than needed, and they are enough
   exactly unless rounding to the nanosecond drops the wait onto a whole second.
   */
  lemma AdvertisedSecondsSufficeIff(q: Quota, b: BucketState, now: nat, cost: nat, k: nat)
    requires q.count > 0 && cost <= q.burst && !Admits(q, b, now, cost)
    ensures var secs := AdvertisedRetry(Decide(q, b, now, cost), 0);
      && (k < secs ==> !Admits(q, Consume(q, b, now, cost), now + k * NANOS_PER_SEC, cost))
      && (Admits(q, Consume(q, b, now, cost), now + secs * NANOS_PER_SEC, cost)
          <==> !LosesASecond(Missing(q, b, now, cost), q.count))
  {
    hide Admits, Consume, Decide, Missing, ExactWait, CeilDiv, RoundsDown;
    var d, wait := Decide(q, b, now, cost), ExactWait(q, b, now, cost);
    var delay := d.retryAfter.GetOr(0);
    RetryAfterIsExactUnlessRoundedDown(q, b, now, cost);
    DelayIsFloorWhenRoundedDown(q, b, now, cost);
    var secs := AdvertisedRetry(d, 0);
    DeniedUntilWaited(q, b, now, cost, now + k * NANOS_PER_SEC);
    DeniedUntilWaited(q, b, now, cost, now + secs * NANOS_PER_SEC);
    SecsCeilIsLeast(delay, k);
    SecsCeilIsLeast(delay, secs);
  }

  lemma DelayIsFloorWhenRoundedDown(q: Quota, b: BucketState, now: nat, cost: nat)
    requires q.count > 0 && !Admits(q, b, now, cost)
    ensures RoundsDown(Missing(q, b, now, cost), q.count) ==>
              ExactWait(q, b, now, cost) - 1 == Missing(q, b, now, cost) / q.count
  {
  }

  /** Three per 3,000,000,001 ns: told to retry after one second, and refused when it does. */
  lemma RetryAfterTooSoon()
    ensures var q := Per(3, 3_000_000_001); var drained := BucketState(0, 0);
      && Decide(q, drained, 0, 1).retryAfter == Some(1_000_000_000)
      && AdvertisedRetry(Decide(q, drained, 0, 1), 0) == 1
      && !Admits(q, Consume(q, drained, 0, 1), NANOS_PER_SEC, 1)
  {
  }
}
