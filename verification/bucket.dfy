/**
 The token bucket of one partition.

 The specification counts in integers: a level is tokens times window nanoseconds, so one elapsed
 nanosecond is worth `count` of it, one token is worth `window` of it and nothing is ever rounded.
 `Bucket` is the program's own arithmetic, on tokens, seconds and a rate, over exact reals.
 */
module Buckets {
  import opened Wrappers
  import opened Durations
  import opened Quotas

  datatype BucketState = BucketState(level: nat, updated: nat)

  datatype Decision = Decision(allowed: bool, remaining: nat, timeToFull: nat, retryAfter: Option<nat>)

  function Capacity(q: Quota): nat {
    q.burst * q.window
  }

  function Price(q: Quota, cost: nat): nat {
    cost * q.window
  }

  function Fresh(q: Quota, now: nat): BucketState {
    BucketState(Capacity(q), now)
  }

  /** What elapsed time adds: nothing when the clock reads earlier than the last update. */
  function Accrued(q: Quota, earlier: nat, now: nat): nat {
    Since(earlier, now) * q.count
  }

  function Refilled(q: Quota, b: BucketState, now: nat): nat {
    Min(b.level + Accrued(q, b.updated, now), Capacity(q))
  }

  predicate Admits(q: Quota, b: BucketState, now: nat, cost: nat) {
    Price(q, cost) <= Refilled(q, b, now)
  }

  /** The bucket after an attempt; `updated` is the attempt's own clock reading, even an older one. */
  function Consume(q: Quota, b: BucketState, now: nat, cost: nat): BucketState {
    BucketState(Refilled(q, b, now) - (if Admits(q, b, now, cost) then Price(q, cost) else 0), now)
  }

  /** Nanoseconds to accrue `needed`, as the program rounds them; zero for a quota that never refills. */
  function DelayFor(q: Quota, needed: nat): nat {
    if q.count == 0 then 0 else Nearest(needed, q.count)
  }

  function Decide(q: Quota, b: BucketState, now: nat, cost: nat): Decision {
    var left := Consume(q, b, now, cost).level;
    Decision(
      Admits(q, b, now, cost),
      left / q.window,
      DelayFor(q, Capacity(q) - left),
      if Admits(q, b, now, cost) then None else Some(DelayFor(q, Price(q, cost) - left)))
  }

  // ---------------------------------------------------------------- the program's arithmetic

  const NANOS := NANOS_PER_SEC as real

  function RefillPerSecond(q: Quota): real {
    q.count as real / (q.window as real / NANOS)
  }

  function SecondsToRefill(tokensNeeded: real, rate: real): nat {
    if tokensNeeded <= 0.0 || rate <= 0.0 then 0 else
      assert tokensNeeded / rate >= 0.0;
      FromSecs(tokensNeeded / rate)
  }

  /** `tokens` is the real number of tokens that `level` stands for. */
  ghost predicate Measures(q: Quota, tokens: real, level: int) {
    tokens * q.window as real == level as real
  }

  ghost function LevelOf(q: Quota, tokens: real): int {
    (tokens * q.window as real).Floor
  }

  lemma TokensOfPrice(q: Quota, cost: nat)
    ensures Measures(q, cost as real, Price(q, cost)) && LevelOf(q, cost as real) == Price(q, cost)
  {
  }

  lemma MeasuresInOrder(q: Quota, x: real, m: int, y: real, n: int)
    requires Measures(q, x, m) && Measures(q, y, n)
    ensures x <= y <==> m <= n
    ensures Measures(q, x - y, m - n)
  {
    var w := q.window as real;
    assert (x - y) * w == (m - n) as real;
    if x < y {
      assert (y - x) * w > 0.0;
    } else if y < x {
      assert (x - y) * w > 0.0;
    }
  }

  lemma RatePerWindow(q: Quota)
    ensures RefillPerSecond(q) * q.window as real == q.count as real * NANOS
    ensures RefillPerSecond(q) > 0.0 <==> q.count > 0
  {
    var secs := q.window as real / NANOS;
    var rate := RefillPerSecond(q);
    assert rate * secs == q.count as real;
    assert secs * NANOS == q.window as real;
    assert rate * (secs * NANOS) == (rate * secs) * NANOS;
    if rate > 0.0 {
      assert rate * secs > 0.0;
    } else if rate < 0.0 {
      assert rate * secs < 0.0;
    }
  }

  lemma RefillMeasures(q: Quota, tokens: real, level: int, elapsed: nat, secs: real)
    requires Measures(q, tokens, level)
    requires secs == elapsed as real / NANOS
    ensures Measures(q, tokens + secs * RefillPerSecond(q), level + elapsed * q.count)
  {
    RatePerWindow(q);
    var rate, w := RefillPerSecond(q), q.window as real;
    assert secs * rate * w == secs * (rate * w);
    assert secs * (q.count as real * NANOS) == (secs * NANOS) * q.count as real;
    assert secs * NANOS == elapsed as real;
    assert (elapsed * q.count) as real == elapsed as real * q.count as real;
    assert (tokens + secs * rate) * w == tokens * w + secs * rate * w;
  }

  /** Dividing missing tokens by the rate gives the delay computed on levels. */
  lemma SecondsToRefillIsDelay(q: Quota, tokensNeeded: real, needed: nat)
    requires Measures(q, tokensNeeded, needed)
    ensures SecondsToRefill(tokensNeeded, RefillPerSecond(q)) == DelayFor(q, needed)
  {
    var rate, w := RefillPerSecond(q), q.window as real;
    RatePerWindow(q);
    MeasuresInOrder(q, tokensNeeded, needed, 0.0, 0);
    if needed > 0 && q.count > 0 {
      var secs := tokensNeeded / rate;
      assert secs * rate == tokensNeeded;
      assert secs * (rate * w) == (secs * rate) * w;
      assert secs * (q.count as real * NANOS) == secs * NANOS * q.count as real;
      assert secs >= 0.0;
      FromSecsIsNearest(secs, needed, q.count);
    }
  }

  lemma WholeTokens(q: Quota, tokens: real, level: nat)
    requires Measures(q, tokens, level)
    ensures tokens.Floor == level / q.window
  {
    var k, w := level / q.window, q.window as real;
    assert level == k * q.window + level % q.window;
    MeasuresInOrder(q, k as real, k * q.window, tokens, level);
    assert (k + 1) * q.window == k * q.window + q.window;
    MeasuresInOrder(q, (k + 1) as real, (k + 1) * q.window, tokens, level);
  }

  function MinReal(x: real, y: real): real {
    if x <= y then x else y
  }

  lemma RefilledMeasures(q: Quota, tokens: real, b: BucketState, now: nat, elapsed: real)
    requires Measures(q, tokens, b.level)
    requires elapsed == Since(b.updated, now) as real / NANOS
    ensures Measures(q, MinReal(tokens + elapsed * RefillPerSecond(q), q.burst as real), Refilled(q, b, now))
  {
    RefillMeasures(q, tokens, b.level, Since(b.updated, now), elapsed);
    TokensOfPrice(q, q.burst);
    MeasuresInOrder(q, tokens + elapsed * RefillPerSecond(q),
                    b.level + Accrued(q, b.updated, now), q.burst as real, Capacity(q));
  }

  lemma CostMeasures(q: Quota, tokens: real, level: nat, cost: nat)
    requires Measures(q, tokens, level)
    ensures tokens >= cost as real <==> Price(q, cost) <= level
    ensures Measures(q, tokens - cost as real, level - Price(q, cost))
    ensures Price(q, cost) >= level ==>
              SecondsToRefill(cost as real - tokens, RefillPerSecond(q)) == DelayFor(q, Price(q, cost) - level)
  {
    TokensOfPrice(q, cost);
    MeasuresInOrder(q, cost as real, Price(q, cost), tokens, level);
    MeasuresInOrder(q, tokens, level, cost as real, Price(q, cost));
    if Price(q, cost) >= level {
      SecondsToRefillIsDelay(q, cost as real - tokens, Price(q, cost) - level);
    }
  }

  /** One whole attempt, on tokens and on levels. */
  lemma AttemptAgrees(q: Quota, tokens: real, b: BucketState, now: nat, cost: nat, elapsed: real, refilled: real)
    requires Measures(q, tokens, b.level)
    requires elapsed == Since(b.updated, now) as real / NANOS
    requires refilled == MinReal(tokens + elapsed * RefillPerSecond(q), q.burst as real)
    ensures
      var rate := RefillPerSecond(q);
      var allowed := refilled >= cost as real;
      var left := if allowed then refilled - cost as real else refilled;
      var level := Consume(q, b, now, cost).level;
      && Measures(q, left, level)
      && LevelOf(q, left) == level && Consume(q, b, now, cost).updated == now
      && allowed == Decide(q, b, now, cost).allowed
      && left.Floor == Decide(q, b, now, cost).remaining
      && SecondsToRefill(q.burst as real - left, rate) == Decide(q, b, now, cost).timeToFull
      && Decide(q, b, now, cost).retryAfter
         == if allowed then None else Some(SecondsToRefill(cost as real - left, rate))
  {
    hide Measures, LevelOf, RefillPerSecond, SecondsToRefill, MinReal, DelayFor;
    RefilledMeasures(q, tokens, b, now, elapsed);
    LeftoverAgrees(q, refilled, Refilled(q, b, now), cost);
  }

  lemma LeftoverAgrees(q: Quota, tokens: real, level: nat, cost: nat)
    requires Measures(q, tokens, level) && level <= Capacity(q)
    ensures
      var rate := RefillPerSecond(q);
      var allowed := tokens >= cost as real;
      var left := if allowed then tokens - cost as real else tokens;
      var after := level - (if Price(q, cost) <= level then Price(q, cost) else 0);
      && Measures(q, left, after)
      && LevelOf(q, left) == after
      && allowed == (Price(q, cost) <= level)
      && left.Floor == after / q.window
      && SecondsToRefill(q.burst as real - left, rate) == DelayFor(q, Capacity(q) - after)
      && (!allowed ==> SecondsToRefill(cost as real - left, rate) == DelayFor(q, Price(q, cost) - after))
  {
    CostMeasures(q, tokens, level, cost);
    var left := if tokens >= cost as real then tokens - cost as real else tokens;
    var after := level - (if Price(q, cost) <= level then Price(q, cost) else 0);
    CostMeasures(q, left, after, q.burst);
    WholeTokens(q, left, after);
  }

  class Bucket {
    var tokens: real
    var lastUpdate: nat

    ghost predicate Valid(q: Quota)
      reads this
    {
      0 <= LevelOf(q, tokens) && Measures(q, tokens, LevelOf(q, tokens))
    }

    ghost function State(q: Quota): BucketState
      requires Valid(q)
      reads this
    {
      BucketState(LevelOf(q, tokens), lastUpdate)
    }

    constructor (now: nat, q: Quota)
      ensures Valid(q) && State(q) == Fresh(q, now)
    {
      tokens := q.burst as real;
      lastUpdate := now;
      new;
      hide Measures, LevelOf;
      TokensOfPrice(q, q.burst);
    }

    /** `Clone`: the copy a store takes of a cached bucket before changing it. */
    constructor Copy(other: Bucket)
      ensures tokens == other.tokens && lastUpdate == other.lastUpdate
    {
      tokens := other.tokens;
      lastUpdate := other.lastUpdate;
    }

    method TryConsume(now: nat, q: Quota, cost: nat) returns (d: Decision)
      requires Valid(q)
      modifies this
      ensures Valid(q)
      ensures State(q) == Consume(q, old(State(q)), now, cost)
      ensures d == Decide(q, old(State(q)), now, cost)
    {
      hide Measures, LevelOf, Consume, Decide, RefillPerSecond, SecondsToRefill;
      ghost var before, tokensBefore := State(q), tokens;
      var rate := RefillPerSecond(q);
      var burst := q.burst as real;

      var elapsed := Since(lastUpdate, now) as real / NANOS;
      tokens := MinReal(tokens + elapsed * rate, burst);
      lastUpdate := now;
      AttemptAgrees(q, tokensBefore, before, now, cost, elapsed, tokens);

      var allowed := tokens >= cost as real;
      if allowed {
        tokens := tokens - cost as real;
      }

      var retryAfter := if allowed then None else Some(SecondsToRefill(cost as real - tokens, rate));
      d := Decision(allowed, tokens.Floor, SecondsToRefill(burst - tokens, rate), retryAfter);
    }
  }
}
