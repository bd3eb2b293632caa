/** How a client reads a server's push-back. */
module ServerSignals {
  import opened Wrappers
  import opened Durations
  import opened Text
  import opened ItemLists
  import opened RateLimits

  function Trimmed(s: string): string {
    var t := Skip(IsOws, s);
    Reversed(Skip(IsOws, Reversed(t)))
  }

  function Reversed(s: string): string {
    if s == "" then "" else Reversed(s[1..]) + [s[0]]
  }

  /** `str::parse::<u64>`: digits after an optional plus sign, as far as 64 bits go. */
  function ParseU64(s: string): Option<nat> {
    var t := if s != "" && s[0] == '+' then s[1..] else s;
    if t != "" && All(IsDigit, t) && ToNat(t) <= U64_MAX then Some(ToNat(t)) else None
  }

  function Longer(a: Option<nat>, b: Option<nat>): Option<nat> {
    if a.None? then b else if b.None? then a else Some(Max(a.value, b.value))
  }

  /** The longest reset among the limits reported as exhausted. */
  function ExhaustedReset(limits: seq<RateLimit>): Option<nat> {
    if limits == [] then None
    else Longer(if limits[0].remaining == 0 then limits[0].reset else None, ExhaustedReset(limits[1..]))
  }

  /** The wait the response asks for: the longer of `Retry-After` and any exhausted limit's reset. */
  function ServerBackoff(retryAfter: Option<string>, limitLines: seq<Option<string>>): Option<nat> {
    var parsed := if retryAfter.Some? then ParseU64(Trimmed(retryAfter.value)) else None;
    var retry := if parsed.Some? then Some(parsed.value * NANOS_PER_SEC) else None;
    var limits := ParseLinesWith(LimitOf, limitLines);
    Longer(retry, ExhaustedReset(if limits.Ok? then limits.value else []))
  }

  lemma {:induction false} ReversedReverses(s: string)
    ensures |Reversed(s)| == |s| && forall i :: 0 <= i < |s| ==> Reversed(s)[i] == s[|s| - 1 - i]
  {
    if s != "" {
      ReversedReverses(s[1..]);
    }
  }

  lemma ReversedParts(s: string, t: string)
    ensures Reversed(s + t) == Reversed(t) + Reversed(s) && Reversed(Reversed(s)) == s
  {
    ReversedReverses(s);
    ReversedReverses(t);
    ReversedReverses(s + t);
    ReversedReverses(Reversed(s));
  }

  lemma ReversedAll(p: char -> bool, s: string)
    requires All(p, s)
    ensures All(p, Reversed(s))
  {
    ReversedReverses(s);
  }

  /** Trimming takes the whitespace off both ends of text that neither begins nor ends with any. */
  lemma TrimmedIs(a: string, core: string, b: string)
    requires All(IsOws, a) && All(IsOws, b)
    requires core != "" && !IsOws(core[0]) && !IsOws(core[|core| - 1])
    ensures Trimmed(a + core + b) == core
  {
    hide Split, Reversed, All;
    assert a + core + b == a + (core + b);
    SplitWhole(IsOws, a, core + b);
    ReversedParts(core, b);
    ReversedAll(IsOws, b);
    ReversedReverses(core);
    SplitWhole(IsOws, Reversed(b), Reversed(core));
  }

  /** And that text is always all that is left. */
  lemma TrimmedSplits(s: string) returns (a: string, b: string)
    ensures All(IsOws, a) && All(IsOws, b) && s == a + Trimmed(s) + b
  {
    hide Split, Reversed, All;
    var t := Split(IsOws, s).rest;
    a := Split(IsOws, s).taken;
    var c := Split(IsOws, Reversed(t));
    b := Reversed(c.taken);
    ReversedAll(IsOws, c.taken);
    ReversedParts(c.taken, c.rest);
    ReversedParts(t, "");
    assert a + Trimmed(s) + b == a + (Trimmed(s) + b);
  }

  /** The text is a number of 64 bits at most, in digits, with an optional plus sign and whitespace around it. */
  predicate IsNumber(s: string, a: string, sign: string, digits: string, b: string, n: nat) {
    && All(IsOws, a) && All(IsOws, b) && sign in ["", "+"]
    && digits != "" && All(IsDigit, digits) && ToNat(digits) == n <= U64_MAX
    && s == a + (sign + digits) + b
  }

  ghost predicate HoldsNumber(s: string, n: nat) {
    exists a, sign, digits, b :: IsNumber(s, a, sign, digits, b, n)
  }

  lemma SignedDigits(sign: string, digits: string)
    requires sign in ["", "+"] && digits != "" && All(IsDigit, digits)
    ensures var core := sign + digits; core != "" && !IsOws(core[0]) && !IsOws(core[|core| - 1])
    ensures ParseU64(sign + digits) == if ToNat(digits) <= U64_MAX then Some(ToNat(digits)) else None
  {
    hide ToNat;
    if sign == "" {
      assert sign + digits == digits;
    } else {
      assert (sign + digits)[0] == '+' && (sign + digits)[1..] == digits;
    }
  }

  /** That is what the client reads a number from. */
  lemma HoldsNumberIff(s: string, n: nat)
    ensures ParseU64(Trimmed(s)) == Some(n) <==> HoldsNumber(s, n)
  {
    hide Trimmed, ToNat, All;
    if HoldsNumber(s, n) {
      var a, sign, digits, b :| IsNumber(s, a, sign, digits, b, n);
      SignedDigits(sign, digits);
      TrimmedIs(a, sign + digits, b);
    }
    if ParseU64(Trimmed(s)) == Some(n) {
      var a, b := TrimmedSplits(s);
      var t := Trimmed(s);
      var sign, digits := if t[0] == '+' then "+" else "", if t[0] == '+' then t[1..] else t;
      assert sign + digits == t;
      assert IsNumber(s, a, sign, digits, b, n);
    }
  }

  /** One of the two ways a response asks for a wait of t. */
  ghost predicate AsksFor(retryAfter: Option<string>, limitLines: seq<Option<string>>, t: nat) {
    || (retryAfter.Some? && exists n: nat :: HoldsNumber(retryAfter.value, n) && t == n * NANOS_PER_SEC)
    || (ParseLinesWith(LimitOf, limitLines).Ok?
        && exists l :: l in ParseLinesWith(LimitOf, limitLines).value && l.remaining == 0 && l.reset == Some(t))
  }

  /**
   The client waits for the longest of what a response asks, by `Retry-After` or by an exhausted limit,
   and does not wait when it asks for nothing. A malformed line anywhere leaves no limits.
   */
  lemma BackoffIsLongestAsked(retryAfter: Option<string>, limitLines: seq<Option<string>>)
    ensures ServerBackoff(retryAfter, limitLines).None? <==> forall t: nat :: !AsksFor(retryAfter, limitLines, t)
    ensures ServerBackoff(retryAfter, limitLines).Some? ==>
              AsksFor(retryAfter, limitLines, ServerBackoff(retryAfter, limitLines).value)
    ensures forall t: nat :: AsksFor(retryAfter, limitLines, t) ==>
              ServerBackoff(retryAfter, limitLines).Some? && t <= ServerBackoff(retryAfter, limitLines).value
  {
    hide Trimmed, ParseU64, ExhaustedReset, ParseLinesWith, HoldsNumber;
    var limits := ParseLinesWith(LimitOf, limitLines);
    ExhaustedResetIsLongest(if limits.Ok? then limits.value else []);
    if retryAfter.Some? {
      forall n: nat
        ensures ParseU64(Trimmed(retryAfter.value)) == Some(n) <==> HoldsNumber(retryAfter.value, n)
      {
        HoldsNumberIff(retryAfter.value, n);
      }
    }
    var backoff := ServerBackoff(retryAfter, limitLines);
    if backoff.Some? {
      assert AsksFor(retryAfter, limitLines, backoff.value);
    }
  }

  /** A printed `Retry-After` is read back exactly. */
  lemma RetryReadsBack(secs: nat)
    requires secs <= U64_MAX
    ensures ParseU64(Trimmed(Digits(secs))) == Some(secs)
  {
    hide Trimmed, Digits, ToNat;
    SignedDigits("", Digits(secs));
    TrimmedIs("", Digits(secs), "");
    assert "" + Digits(secs) + "" == Digits(secs);
    DigitsReadBack(secs);
    assert IsDigit(Digits(secs)[0]);
  }

  /** Whatever else the response says, the wait covers its `Retry-After`. */
  lemma BackoffCoversRetryAfter(secs: nat, limitLines: seq<Option<string>>)
    requires secs <= U64_MAX
    ensures ServerBackoff(Some(Digits(secs)), limitLines).Some?
    ensures secs * NANOS_PER_SEC <= ServerBackoff(Some(Digits(secs)), limitLines).value
  {
    hide Trimmed, ParseU64, Digits, ParseLinesWith, ExhaustedReset;
    RetryReadsBack(secs);
  }

  /** It is no longer than what some signal asks for. */
  lemma {:induction false} ExhaustedResetIsLongest(limits: seq<RateLimit>)
    ensures forall l :: l in limits && l.remaining == 0 && l.reset.Some? ==>
              ExhaustedReset(limits).Some? && l.reset.value <= ExhaustedReset(limits).value
    ensures ExhaustedReset(limits).Some? ==>
              exists l :: l in limits && l.remaining == 0 && l.reset == ExhaustedReset(limits)
  {
    if limits != [] {
      ExhaustedResetIsLongest(limits[1..]);
      var first := if limits[0].remaining == 0 then limits[0].reset else None;
      if ExhaustedReset(limits).Some? {
        if first == ExhaustedReset(limits) {
          assert limits[0] in limits && limits[0].remaining == 0 && limits[0].reset == ExhaustedReset(limits);
        } else {
          var l :| l in limits[1..] && l.remaining == 0 && l.reset == ExhaustedReset(limits[1..]);
          assert l in limits;
        }
      }
    }
  }
}

/** Server and client together: a denial, the headers it sends, and the guest's next request. */
module ClosedLoop {
  import opened Wrappers
  import opened Durations
  import opened Quotas
  import opened Buckets
  import opened Runs
  import opened Decisions
  import opened Text
  import opened FieldLists
  import opened ItemLists
  import opened Throttles
  import opened ThrottleRuns
  import opened Limiters
  import opened ServerSignals
  import RateLimits

  // ---------------------------------------------------------------- what the guest is told

  lemma NearestInOrder(m: nat, n: nat, d: pos)
    requires m <= n
    ensures Nearest(m, d) <= Nearest(n, d)
  {
    var x, y := m / d, n / d;
    assert m == d * x + m % d && n == d * y + n % d;
    if y < x {
      TimesInOrder(d, y + 1, x);
      Distributes(d, y, 1);
      assert false;
    }
  }

  lemma DelaysInOrder(q: Quota, m: nat, n: nat)
    requires m <= n
    ensures DelayFor(q, m) <= DelayFor(q, n)
  {
    hide Nearest;
    if q.count > 0 {
      NearestInOrder(m, n, q.count);
    }
  }

  /** A denied unit request has nothing left, and waits to full at least as long as to retry. */
  lemma DeniedIsExhausted(q: Quota, b: BucketState, now: nat)
    requires q.burst > 0 && !Admits(q, b, now, 1)
    ensures var d := Decide(q, b, now, 1); d.remaining == 0 && d.retryAfter.GetOr(0) <= d.timeToFull
  {
    hide DelayFor;
    TimesInOrder(q.window, 1, q.burst);
    var left := Consume(q, b, now, 1).level;
    DelaysInOrder(q, Price(q, 1) - left, Capacity(q) - left);
  }

  lemma SecsCeilInOrder(m: nat, n: nat)
    requires m <= n
    ensures SecsCeil(m) <= SecsCeil(n)
  {
    SecsCeilIsLeast(n, SecsCeil(n));
    SecsCeilIsLeast(m, SecsCeil(n));
  }

  /** What a response from this limiter alone asks of the guest, read back from its headers. */
  function HeardBackoff(d: Decision, name: string, pk: Option<string>, jitter: nat): Option<nat> {
    ServerBackoff(Some(Digits(AdvertisedRetry(d, jitter))),
                  [Some(RateLimits.Print(AdvertisedLimit(d, name, pk, jitter)))])
  }

  /** The reset, when its line can be read, and otherwise what `Retry-After` says. */
  function AdvertisedWait(d: Decision, name: string, pk: Option<string>, jitter: nat): nat {
    if RateLimits.Legible(AdvertisedLimit(d, name, pk, jitter)) then SecsCeil(d.timeToFull + jitter)
    else AdvertisedRetry(d, jitter)
  }

  lemma OneLine(line: string)
    ensures ParseLinesWith(RateLimits.LimitOf, [Some(line)]) == RateLimits.Parse(line)
  {
    hide ParseWith, ParseLinesWith;
    OneLineReads(RateLimits.LimitOf, Some(line));
  }

  lemma ExhaustedAlone(l: RateLimits.RateLimit)
    requires l.remaining == 0
    ensures ExhaustedReset([l]) == l.reset && ExhaustedReset([]) == None
  {
  }

  /**
   The guest obeys the exhausted limit's reset as well as `Retry-After`, and on a denial that reset
   is the longer of the two: it waits for the whole burst to come back, not for one token, unless
   the limit cannot be read.
   */
  lemma GuestWaitsForFullBurst(q: Quota, b: BucketState, now: nat, jitter: nat, name: string, pk: Option<string>)
    requires q.burst > 0 && !Admits(q, b, now, 1) && Base64Key(pk)
    requires AdvertisedRetry(Decide(q, b, now, 1), jitter) <= U64_MAX
    ensures var d := Decide(q, b, now, 1);
      HeardBackoff(d, name, pk, jitter) == Some(AdvertisedWait(d, name, pk, jitter) * NANOS_PER_SEC)
  {
    hide Decide, Admits, SecsCeil, Digits, Trimmed, ParseU64, ParseLinesWith, ExhaustedReset, All;
    hide RateLimits.Legible, RateLimits.Print, RateLimits.Parse;
    var d := Decide(q, b, now, 1);
    var limit := AdvertisedLimit(d, name, pk, jitter);
    DeniedIsExhausted(q, b, now);
    RetryReadsBack(AdvertisedRetry(d, jitter));
    SecsCeilInOrder(d.retryAfter.GetOr(0) + jitter, d.timeToFull + jitter);
    OneLine(RateLimits.Print(limit));
    RateLimits.PrintedReadsIffLegible(limit);
    ExhaustedAlone(limit);
  }

  // ---------------------------------------------------------------- the guest's next request

  /**
   A guest that is the only user of its key claims a slot, is denied at `now`, hears of it no earlier
   and backs off as the response asks. Claim j is any claim made since; it is the next of the key's
   requests to arrive, at `arrival`.
   */
  predicate HonoursDenial(q: Quota, b: BucketState, now: nat, jitter: nat, name: string, pk: Option<string>,
                          p: Pace, ops: seq<ScopeOp>, c: nat, k: nat, j: nat, arrival: nat)
  {
    && AdvertisedRetry(Decide(q, b, now, 1), jitter) <= U64_MAX
    && c < k < j < |ops| && ops[c].Claim? && ops[k].BackOff? && ops[j].Claim?
    && Proceed(p, ops, c) <= now <= ops[k].now
    && HeardBackoff(Decide(q, b, now, 1), name, pk, jitter) == Some(ops[k].backoff)
    && Proceed(p, ops, j) <= arrival
  }

  /** It arrives after the whole seconds it was told, at any pace, whatever else the throttle did meanwhile. */
  lemma NextRequestWaits(q: Quota, b: BucketState, now: nat, jitter: nat, name: string, pk: Option<string>,
                         p: Pace, ops: seq<ScopeOp>, c: nat, k: nat, j: nat, arrival: nat)
    requires q.burst > 0 && !Admits(q, b, now, 1) && Base64Key(pk)
    requires HonoursDenial(q, b, now, jitter, name, pk, p, ops, c, k, j, arrival)
    ensures now + AdvertisedWait(Decide(q, b, now, 1), name, pk, jitter) * NANOS_PER_SEC <= arrival
  {
    hide Admits, Decide, HeardBackoff, AdvertisedWait, AdvertisedRetry, Proceed, Base64Key;
    GuestWaitsForFullBurst(q, b, now, jitter, name, pk);
    BackOffIsPermanent(p, ops, k, j);
  }

  /**
   Waiting for `toFull` in rounded-up seconds is not enough for `missing`: rounding to the nanosecond
   drops it onto a whole second, and the exact wait for `missing` ends in that same nanosecond.
   */
  predicate EndsTooSoon(missing: nat, toFull: nat, count: pos) {
    LosesASecond(toFull, count) && missing / count == toFull / count && missing % count != 0
  }

  lemma QuotientsInOrder(m: nat, n: nat, d: pos)
    requires m <= n
    ensures m / d <= n / d
  {
    var x, y := m / d, n / d;
    assert m == d * x + m % d && n == d * y + n % d;
    if y < x {
      TimesInOrder(d, y + 1, x);
      Distributes(d, y, 1);
      assert false;
    }
  }

  lemma CeilingIsShortIff(missing: nat, toFull: nat, count: pos, jitter: nat)
    requires missing <= toFull
    ensures var wait := SecsCeil(Nearest(toFull, count) + jitter) * NANOS_PER_SEC;
      && CeilDiv(missing, count) <= wait + 1
      && (wait < CeilDiv(missing, count) <==> jitter == 0 && EndsTooSoon(missing, toFull, count))
  {
    hide SecsCeil, Nearest, RoundsDown;
    var delay := Nearest(toFull, count) + jitter;
    NearestIsCeilUnlessRoundedDown(toFull, count);
    RoundsDownLeavesRest(toFull, count);
    SecsCeilIsLeast(delay, SecsCeil(delay));
    SecsCeilIsLeast(delay, delay / NANOS_PER_SEC);
    QuotientsInOrder(missing, toFull, count);
    if missing / count == toFull / count {
      assert missing == count * (missing / count) + missing % count;
      assert toFull == count * (toFull / count) + toFull % count;
    }
  }

  lemma RoundsDownLeavesRest(n: nat, d: pos)
    ensures RoundsDown(n, d) ==> n % d != 0
  {
  }

  /** The guest is told to come back too soon; with an unreadable limit, as to `Retry-After` alone. */
  predicate FallsShort(q: Quota, b: BucketState, now: nat, name: string, pk: Option<string>)
    requires q.count > 0 && !Admits(q, b, now, 1)
  {
    var missing := Missing(q, b, now, 1);
    if RateLimits.Legible(AdvertisedLimit(Decide(q, b, now, 1), name, pk, 0))
    then EndsTooSoon(missing, ToFull(q, b, now), q.count)
    else EndsTooSoon(missing, missing, q.count)
  }

  /** What a denied attempt lacks to a full bucket. */
  function ToFull(q: Quota, b: BucketState, now: nat): nat {
    Capacity(q) - Refilled(q, b, now)
  }

  lemma DeniedDelays(q: Quota, b: BucketState, now: nat)
    requires q.count > 0 && q.burst > 0 && !Admits(q, b, now, 1)
    ensures Decide(q, b, now, 1).retryAfter == Some(Nearest(Missing(q, b, now, 1), q.count))
    ensures Decide(q, b, now, 1).timeToFull == Nearest(ToFull(q, b, now), q.count)
    ensures ToFull(q, b, now) == Missing(q, b, now, 1) + q.window * (q.burst - 1)
  {
    hide Nearest;
    Distributes(q.window, q.burst, -1);
  }

  /** The advertised wait is never more than a nanosecond short, and is short exactly as said, without jitter. */
  lemma AdvertisedWaitIsShortIff(q: Quota, b: BucketState, now: nat, name: string, pk: Option<string>, jitter: nat)
    requires q.count > 0 && q.burst > 0 && !Admits(q, b, now, 1)
    ensures var wait := AdvertisedWait(Decide(q, b, now, 1), name, pk, jitter) * NANOS_PER_SEC;
      && ExactWait(q, b, now, 1) <= wait + 1
      && (jitter > 0 ==> ExactWait(q, b, now, 1) <= wait)
      && (jitter == 0 ==> (wait < ExactWait(q, b, now, 1) <==> FallsShort(q, b, now, name, pk)))
  {
    hide Admits, Decide, Missing, ToFull, SecsCeil, Nearest, CeilDiv, EndsTooSoon, RateLimits.Legible;
    DeniedDelays(q, b, now);
    var missing, toFull := Missing(q, b, now, 1), ToFull(q, b, now);
    TimesInOrder(q.window, 0, q.burst - 1);
    CeilingIsShortIff(missing, toFull, q.count, jitter);
    CeilingIsShortIff(missing, missing, q.count, jitter);
  }

  /** Honouring a denial works if a nanosecond passes on the way, if there is jitter, or unless the wait falls short. */
  lemma NextRequestIsAdmitted(q: Quota, b: BucketState, now: nat, jitter: nat, name: string, pk: Option<string>,
                              p: Pace, ops: seq<ScopeOp>, c: nat, k: nat, j: nat, arrival: nat)
    requires q.count > 0 && q.burst > 0 && !Admits(q, b, now, 1) && Base64Key(pk)
    requires HonoursDenial(q, b, now, jitter, name, pk, p, ops, c, k, j, arrival)
    requires now + AdvertisedWait(Decide(q, b, now, 1), name, pk, jitter) * NANOS_PER_SEC < arrival
          || jitter > 0 || !FallsShort(q, b, now, name, pk)
    ensures Admits(q, Consume(q, b, now, 1), arrival, 1)
  {
    hide Decide, Admits, Consume, ExactWait, AdvertisedWait, FallsShort, HonoursDenial, Base64Key;
    NextRequestWaits(q, b, now, jitter, name, pk, p, ops, c, k, j, arrival);
    AdvertisedWaitIsShortIff(q, b, now, name, pk, jitter);
    DeniedUntilWaited(q, b, now, 1, arrival);
  }

  /** Whatever its throttle, the jitter and the latencies, a guest that honours the denial is let in next. */
  ghost predicate AlwaysReadmitted(q: Quota, b: BucketState, now: nat, name: string, pk: Option<string>) {
    forall jitter: nat, p: Pace, ops: seq<ScopeOp>, c: nat, k: nat, j: nat, arrival: nat ::
      HonoursDenial(q, b, now, jitter, name, pk, p, ops, c, k, j, arrival) ==>
        Admits(q, Consume(q, b, now, 1), arrival, 1)
  }

  /** That holds exactly unless the wait the response asks for falls short. */
  lemma AlwaysReadmittedIff(q: Quota, b: BucketState, now: nat, name: string, pk: Option<string>)
    requires q.count > 0 && q.burst > 0 && !Admits(q, b, now, 1) && Base64Key(pk)
    requires AdvertisedRetry(Decide(q, b, now, 1), 0) <= U64_MAX
    ensures AlwaysReadmitted(q, b, now, name, pk) <==> !FallsShort(q, b, now, name, pk)
  {
    hide Admits, Consume, Decide, FallsShort, HonoursDenial, AdvertisedRetry, AdvertisedWait, ExactWait, Base64Key;
    if !FallsShort(q, b, now, name, pk) {
      forall jitter: nat, p: Pace, ops: seq<ScopeOp>, c: nat, k: nat, j: nat, arrival: nat
        | HonoursDenial(q, b, now, jitter, name, pk, p, ops, c, k, j, arrival)
        ensures Admits(q, Consume(q, b, now, 1), arrival, 1)
      {
        NextRequestIsAdmitted(q, b, now, jitter, name, pk, p, ops, c, k, j, arrival);
      }
    } else {
      var wait := AdvertisedWait(Decide(q, b, now, 1), name, pk, 0) * NANOS_PER_SEC;
      PromptGuest(q, b, now, name, pk, Pace(1, 1));
      AdvertisedWaitIsShortIff(q, b, now, name, pk, 0);
      DeniedUntilWaited(q, b, now, 1, now + wait);
      assert HonoursDenial(q, b, now, 0, name, pk, Pace(1, 1), PromptOps(now, wait), 0, 1, 2, now + wait);
    }
  }

  /** It is denied in the instant it claims, hears of it at once, and claims again at once. */
  function PromptOps(now: nat, wait: nat): seq<ScopeOp> {
    [Claim(now), BackOff(now, wait), Claim(now)]
  }

  lemma PromptRun(p: Pace, now: nat, wait: nat)
    requires p.interval <= p.tolerance
    ensures Proceed(p, PromptOps(now, wait), 0) == now && Proceed(p, PromptOps(now, wait), 2) == now + wait
  {
    var ops := PromptOps(now, wait);
    assert TatAfter(p, ops, 0) == None;
    assert TatAfter(p, ops, 1) == Some(now + p.interval);
    assert TatAfter(p, ops, 2) == Some(now + wait + p.tolerance);
  }

  /** The promptest guest there is, at any pace with a slot to spare, arrives as soon as it was told. */
  lemma PromptGuest(q: Quota, b: BucketState, now: nat, name: string, pk: Option<string>, p: Pace)
    requires q.burst > 0 && !Admits(q, b, now, 1) && Base64Key(pk)
    requires AdvertisedRetry(Decide(q, b, now, 1), 0) <= U64_MAX && p.interval <= p.tolerance
    ensures var wait := AdvertisedWait(Decide(q, b, now, 1), name, pk, 0) * NANOS_PER_SEC;
      HonoursDenial(q, b, now, 0, name, pk, p, PromptOps(now, wait), 0, 1, 2, now + wait)
  {
    hide Admits, Decide, AdvertisedRetry, AdvertisedWait, HeardBackoff, Proceed, Base64Key;
    var wait := AdvertisedWait(Decide(q, b, now, 1), name, pk, 0) * NANOS_PER_SEC;
    GuestWaitsForFullBurst(q, b, now, 0, name, pk);
    PromptRun(p, now, wait);
  }

  /**
   With a burst that takes a nanosecond more than one token to refill, waiting for all of it makes up
   for the rounding: a guest that can read the limit is always let in next.
   */
  lemma SpareBurstReadmits(q: Quota, b: BucketState, now: nat, name: string, pk: Option<string>)
    requires q.count > 0 && q.burst > 0 && !Admits(q, b, now, 1) && Base64Key(pk)
    requires AdvertisedRetry(Decide(q, b, now, 1), 0) <= U64_MAX
    requires RateLimits.Legible(AdvertisedLimit(Decide(q, b, now, 1), name, pk, 0))
    requires q.count <= q.window * (q.burst - 1)
    ensures AlwaysReadmitted(q, b, now, name, pk)
  {
    hide Admits, Decide, AdvertisedRetry, AdvertisedLimit, AlwaysReadmitted, Missing, ToFull, LosesASecond, Base64Key;
    hide RateLimits.Legible;
    AlwaysReadmittedIff(q, b, now, name, pk);
    DeniedDelays(q, b, now);
    QuotientsApart(Missing(q, b, now, 1), ToFull(q, b, now), q.count);
  }

  lemma QuotientsApart(m: nat, n: nat, d: pos)
    requires m + d <= n
    ensures m / d < n / d
  {
    var x, y := m / d, n / d;
    assert m == d * x + m % d && n == d * y + n % d;
    if y <= x {
      TimesInOrder(d, y, x);
      assert false;
    }
  }

  const DRAINED := BucketState(0, 0)

  lemma OneSecondOff(q: Quota)
    requires q.count > 0 && q.burst > 0 && Nearest(q.window, q.count) == NANOS_PER_SEC
    ensures !Admits(q, DRAINED, 0, 1) && Missing(q, DRAINED, 0, 1) == q.window
    ensures ToFull(q, DRAINED, 0) == q.burst * q.window
    ensures AdvertisedRetry(Decide(q, DRAINED, 0, 1), 0) == 1
  {
    hide Nearest;
    assert Price(q, 1) == q.window;
    TimesInOrder(q.window, 0, q.burst);
    assert Refilled(q, DRAINED, 0) == 0;
    assert Decide(q, DRAINED, 0, 1).retryAfter == Some(Nearest(q.window, q.count));
  }

  lemma DefaultIsLegible(d: Decision)
    requires d.remaining == 0 && SecsCeil(d.timeToFull) < INTEGER_LIMIT
    ensures RateLimits.Legible(AdvertisedLimit(d, "default", None, 0))
  {
    hide SecsCeil;
    assert SecsCeil(d.timeToFull + 0) * NANOS_PER_SEC / NANOS_PER_SEC == SecsCeil(d.timeToFull);
  }

  lemma DrainedIsLegible(q: Quota)
    requires q.count > 0 && q.burst > 0 && Nearest(q.window, q.count) == NANOS_PER_SEC
    requires Nearest(q.burst * q.window, q.count) < INTEGER_LIMIT
    ensures RateLimits.Legible(AdvertisedLimit(Decide(q, DRAINED, 0, 1), "default", None, 0))
  {
    hide Nearest, Admits, Decide, RateLimits.Legible, Missing, ToFull;
    OneSecondOff(q);
    DeniedIsExhausted(q, DRAINED, 0);
    DeniedDelays(q, DRAINED, 0);
    SecsCeilIsLeast(Nearest(q.burst * q.window, q.count), INTEGER_LIMIT - 1);
    DefaultIsLegible(Decide(q, DRAINED, 0, 1));
  }

  /** Three per 3,000,000,001 ns, drained: always readmitted with a burst of three, not with a burst of one. */
  lemma ReadmittedOrNot()
    ensures AlwaysReadmitted(Per(3, 3_000_000_001), DRAINED, 0, "default", None)
    ensures !AlwaysReadmitted(Per(3, 3_000_000_001).AllowBurst(1), DRAINED, 0, "default", None)
  {
    hide AlwaysReadmitted, Admits, Decide, Missing, ToFull, AdvertisedRetry, AdvertisedLimit, RateLimits.Legible;
    var three, one := Per(3, 3_000_000_001), Per(3, 3_000_000_001).AllowBurst(1);
    OneSecondOff(three);
    DrainedIsLegible(three);
    SpareBurstReadmits(three, DRAINED, 0, "default", None);
    OneSecondOff(one);
    DrainedIsLegible(one);
    AlwaysReadmittedIff(one, DRAINED, 0, "default", None);
  }

  /** With a policy name that is not printable, its limit cannot be read, and the burst of three is no help. */
  lemma UnreadableLimitReadmitsTooSoon()
    ensures !AlwaysReadmitted(Per(3, 3_000_000_001), DRAINED, 0, "na\U{EF}ve", None)
  {
    hide AlwaysReadmitted, Admits, Decide, Missing, ToFull, AdvertisedRetry;
    var q, name := Per(3, 3_000_000_001), "na\U{EF}ve";
    OneSecondOff(q);
    assert !IsPrintable(name[2]);
    AlwaysReadmittedIff(q, DRAINED, 0, name, None);
  }

  /** Had the entry been dropped meanwhile, the request finds a full bucket. */
  lemma DroppedEntryAdmits(q: Quota, t: nat)
    requires q.burst > 0
    ensures Grants(q, None, Request(t, 1))
  {
    TimesInOrder(q.window, 1, q.burst);
  }
}
