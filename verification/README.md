# Rate limiting, verified

A model of the `trillium-ratelimit` crate: the token bucket and the concurrent store that keeps one
per key, the client throttle that claims to be the bucket's dual, the handler that turns decisions
into response headers, the header fields themselves, and the loop these make between a server and a
client. `dafny verify dfyconfig.toml` checks everything.

Instants and durations are whole nanoseconds. The specification of a bucket is integral: its level
is tokens times window nanoseconds, so a nanosecond accrues `count`, a token is worth `window`, and
nothing is rounded. `Bucket.TryConsume` computes as the program does, on fractional tokens, seconds
and a rate, over exact reals, and is proved to agree. The rounding that matters,
`Duration::from_secs_f64` to the nearest nanosecond with ties to even, is modelled as it is.

| files | what they hold |
|---|---|
| `wrappers`, `durations`, `quota` | optional values, rounding, quotas and units |
| `bucket`, `runs`, `greedy`, `equivalence`, `decisions` | one bucket: an attempt, every run, what a decision promises |
| `store`, `interleavings`, `stale_readings` | the store, one key's operations, every interleaving of sample, commit, tick and discard, and what clock readings out of order cost |
| `throttle`, `duality`, `polite_guest` | the throttle over one scope and many, its duality with the bucket, and a throttled client against a server |
| `text`, `structured_fields`, `field_lists`, `field_grammar`, `item_lists` | a tokenizer for Structured Field Lists (RFC 9651), escaping, what it reads and refuses, and lists over one line or many |
| `rate_limit`, `rate_limit_policy` | the two header fields |
| `limiter`, `closed_loop` | the handler, the client's reading of its answers, and the two together |

## Where the program and its documentation part

The model follows the code. Each point below has a concrete input and an exact condition.

- Dropping a bucket idle for one window is called lossless (`src/store.rs:26-28`). As long as no
  request reads the clock before an expiry and commits after it, every run is decided as if nothing
  expired exactly when `burst <= count`: `KeyRuns.ExpiryLosslessIffBurstWithinCount`. A request that
  samples before the expiry and commits after it can see it under any quota:
  `StaleReadings.LateCommitSeesExpiryIff`. For drops of any kind and readings in any order, the exact
  condition is that each use reopening an entry reads a whole refill after the last use before:
  `KeyRuns.DropsUnseenIff`. In clock order an expiry never grants more than the excess of burst over
  count: `KeyRuns.ExpiriesCostTheExcessEach`.
- Concurrent calls on one key are said not to over-admit (`src/store.rs:39-40`). The clock is read
  before the lock is taken, so a request can commit an older reading, rewind the bucket, and have
  the span refilled twice: `Interleavings.StaleCommitOverAdmits`. Commits of a key that is not dropped
  keep to burst plus refill of the time between, for every quota, exactly when their readings all run
  one way, whether each costs one token as in the handler (`StaleReadings.UnitCallsNeverOverAdmitIff`)
  or costs are free (`StaleReadings.StoresNeverOverAdmitIff`). What holds of any readings is
  `Interleavings.ConcurrentBound`, which is attained, and `Interleavings.AnyInterleavingBound` when
  entries are dropped.
- `Retry-After` is said never to be sooner than the bucket can admit (`src/limiter.rs:271-272`). It
  is too soon exactly when rounding to the nanosecond drops the wait onto a whole second:
  `Limiters.AdvertisedSecondsSufficeIff`, `Limiters.RetryAfterTooSoon`. What the crate's own client
  does with the whole response is another matter: it also obeys the `r=0` limit sent with a denial,
  whose reset is the time to a full bucket, and so waits for the whole burst rather than for one
  token: `ClosedLoop.GuestWaitsForFullBurst`. It is always let in next exactly unless that longer wait
  is cut short the same way: `ClosedLoop.AlwaysReadmittedIff`, `ClosedLoop.ReadmittedOrNot`. With a
  policy name that is not printable the limit cannot be read and `Retry-After` alone decides:
  `ClosedLoop.UnreadableLimitReadmitsTooSoon`.
- A throttle is meant to keep a client under a quota. Which paces a server never refuses is exact for
  every pace: `PoliteGuest.WelcomeIffSlowEnough`. Against a server with the very same quota it is never
  refused exactly when `window / count` does not round down to the nanosecond:
  `PoliteGuest.SameQuotaWelcomeIffNotRoundedDown`. `Quota::per_second(3)` rounds down, and of four
  requests made together the fourth is refused: `PoliteGuest.FourthRequestDenied`.
- Requests are said to wake in the order they claimed (`src/client.rs:122-124`). With clock readings
  out of lock order they may not: `ThrottleRuns.StaleClaimWakesFirst`. Throttles of every quota wake a
  run in order exactly when each older reading is held back by a back-off at least as far:
  `ThrottleRuns.AlwaysWakesInOrderIff`; without back-offs, exactly when the readings are in lock order:
  `ThrottleRuns.ClaimsWakeInOrderIff`.
- A denied attempt is not supposed to count. In clock order it changes nothing later exactly unless it
  rewinds the bucket with something to gain: `Equivalence.DeniedLeavesNoTraceIff`,
  `Equivalence.RewoundDenialLeavesTrace`. To commits with older readings it can show without a rewind
  as well, since the refill it took is kept: `Equivalence.AdvancedDenialLeavesTrace`. No reading at all
  can tell exactly when the attempt leaves the clock where it was, or nothing can accrue:
  `Equivalence.DeniedLeavesNoTraceAtAnyReadingIff`.
- A policy window below one second prints as `w=0`, which the parser ignores:
  `RateLimitPolicies.ReadsBackInWholeSeconds`.
- Combining several field lines into one comma-joined value is safe only for non-empty lists; a line
  holding no item makes the joined value malformed: `FieldLists.LinesCombineIffNonEmpty`.

## Model

| member | source | states |
|---|---|---|
| `Durations.NearestIsCeilUnlessRoundedDown` | src/bucket.rs:76-82 | rounding to the nearest nanosecond errs by at most half of one, and falls short of the exact value exactly when it rounds down, then by less than one from the ceiling |
| `Durations.NearestIs` | src/bucket.rs:80 | the rounded value is the only integer within half a unit, and of two the even one |
| `Durations.FromSecsIsNearest` | src/bucket.rs:80 | converting fractional seconds to a duration is rounding the exact fraction of nanoseconds, ties to even |
| `Quotas.UnitReadsBack` | src/headers/quota.rs:106-128 | a unit survives printing and reading exactly when it is not a registered token held as `Other` |
| `Buckets.SecondsToRefillIsDelay` | src/bucket.rs:72-82 | dividing missing tokens by the per-second rate gives the delay computed on integer levels |
| `Buckets.AttemptAgrees` | src/bucket.rs:41-69 | one attempt in tokens, seconds and a rate admits, leaves and reports what the integer specification does, all four reported facts included |
| `Buckets.Bucket.constructor` | src/bucket.rs:33-38 | a new bucket stands for a full level at the given instant |
| `Buckets.Bucket.TryConsume` | src/bucket.rs:41-69 | the new state and the whole decision are those of the integer specification, for every earlier or later clock reading and every cost |
| `Runs.LevelIsLeastBalance` | src/bucket.rs:41-69 | closed form: the level any request finds is at most burst plus inflow less spending since any earlier request, from any state and with any clock; from a new bucket it is the least of these |
| `Runs.SpentIsBounded` | src/bucket.rs:45-55 | over any window of any run, out-of-order readings included, what is granted is at most burst plus the refill of the clock's forward steps |
| `Runs.WindowBound` | src/bucket.rs:45-55 | with readings in order the bound is burst plus rate times elapsed time |
| `Runs.GrantedIffFits` | src/bucket.rs:33-69 | after a prefix granted in full, the next request is granted exactly when every window ending in it fits the arrival curve |
| `Runs.GrantedIffConforms` | src/bucket.rs:33-69 | a new bucket grants every request of a run, of any costs, exactly when every window of it asks for at most burst plus the refill of its span |
| `Greedy.GreedyIsMaximal` | src/bucket.rs:51-55 | no selection of the same unit requests that keeps the level non-negative admits more in any prefix |
| `Greedy.GrantsAreFeasible` | src/bucket.rs:51-55 | the bucket's own grants are such a selection, so the maximum is attained |
| `Equivalence.RefillComposes` | src/bucket.rs:45-49 | refilling to t and then to u is refilling straight to u, cap included |
| `Equivalence.ServeKeepsSame` | src/bucket.rs:41-69 | slots that refill alike answer alike and stay alike |
| `Equivalence.DeniedLeaveNoTrace` | src/bucket.rs:45-69 | deleting any denied requests from a run in clock order changes no other verdict and no later level |
| `Equivalence.DeniedLeavesNoTraceIff` | src/bucket.rs:45-49 | to readings in clock order, its own and the bucket's behind them, one denied attempt leaves every level alone exactly when its reading is no older than the bucket's, or rewinding has nothing to add |
| `Equivalence.DeniedLeavesNoTraceAtAnyReadingIff` | src/bucket.rs:45-49 | to any reading whatever, stale ones included, exactly when the attempt reads the bucket's own instant, or nothing can accrue, or the bucket is absent |
| `Equivalence.AdvancedDenialLeavesTrace` | src/bucket.rs:45-49 | a denied attempt that does not rewind turns the refusal of an older reading into an admission |
| `Equivalence.RewoundDenialLeavesTrace` | src/bucket.rs:45-49 | a denied attempt with an older reading turns a later refusal into an admission |
| `Decisions.RemainingIsExact` | src/bucket.rs:51-68 | of the unit requests following at the same instant, exactly the first `remaining` are admitted |
| `Decisions.CostsCombine` | src/bucket.rs:51-55 | two costs in one instant are both admitted exactly when their sum is, leaving the same bucket |
| `Decisions.DeniedUntilWaited` | src/bucket.rs:57-61 | a denied cost within burst is admitted at exactly the instants from now plus the exact wait on |
| `Decisions.DeniedUntilWaitedDespiteRetries` | src/bucket.rs:45-61 | the same after any run of further denied attempts of any cost |
| `Decisions.RetryAfterIsExactUnlessRoundedDown` | src/bucket.rs:57-61 | the reported delay is the exact wait, or one nanosecond less exactly when the conversion rounds down |
| `Decisions.TimeToFullIsExact` | src/bucket.rs:66 | the bucket is full exactly from the reported time on, up to the same lost nanosecond |
| `Decisions.ZeroRateNeverRecovers` | src/bucket.rs:76-79 | a quota with no rate reports no wait and is denied at every later time |
| `Stores.Store.constructor` | src/store.rs:29-35 | a new store holds no slots and keeps its quota |
| `Stores.Store.Consume` | src/store.rs:41-55 | the key's slot, opened full at the sampled instant if absent, takes the attempt, no other slot changes, and the decision is that attempt's |
| `Stores.Store.Discard` | src/store.rs:26-33 | dropping an entry removes that slot and no other |
| `KeyRuns.GrantedIsPaidFor` | src/store.rs:41-55 | over any run of uses and drops in clock order, grants are paid for by the level found, the refill, and what each drop gained |
| `KeyRuns.EvictionsCostABurstEach` | src/store.rs:27-33 | with evictions at any moment, grants over a run are at most burst times one plus the evictions, plus the refill of its span |
| `KeyRuns.ExpiriesCostTheExcessEach` | src/store.rs:26-33 | an idle expiry grants at most the part of the burst that exceeds the count |
| `KeyRuns.DropsUnseenWhenFull` | src/store.rs:26-33 | if each use that reopens a dropped entry reads a whole refill after the last use before, a key decides as one that is never dropped, with readings otherwise in any order |
| `KeyRuns.DropsUnseenIff` | src/store.rs:26-33 | for given times of uses and drops, no drop changes any decision for any costs exactly under that condition |
| `KeyRuns.IdleEntriesReopenFull` | src/store.rs:26-33 | with burst within count, idle expiries meet that condition as long as no use reads a clock older than an expiry it follows |
| `KeyRuns.BurstTwiceDiffersIff` | src/store.rs:26-33 | spend a burst, expire, ask again at a later reading: the expiry shows exactly when the burst had not come back by that reading |
| `KeyRuns.ExpiryLosslessIffBurstWithinCount` | src/store.rs:26-33 | among runs whose uses read no clock older than an expiry they follow, idle expiry changes no decision of any exactly when burst is within count |
| `KeyRuns.InClockOrderLosslessIff` | src/store.rs:26-33 | the same among runs in clock order |
| `KeyRuns.StaleReadingSeesExpiry` | src/store.rs:43-49 | a use with a reading older than the expiry sees it, under every quota with a burst |
| `KeyRuns.AnyRunIsPaidFor` | src/store.rs:37-55 | with drops and readings in any order whatever, grants over a run are paid for by the level held, a burst per drop, and the refill of the readings' forward steps |
| `Interleavings.RunsProjectPerKey` | src/store.rs:37-55 | in any interleaving, a key's slot, decisions and admitted cost are those of a single bucket on that key's commits and drops |
| `Interleavings.CommitsAreARun` | src/store.rs:41-55 | a key never dropped decides as one bucket run on its commits, in commit order with sampled readings |
| `Interleavings.ConcurrentBound` | src/store.rs:39-55 | any commits i..j of a key never dropped admit at most burst plus the refill of forward steps of their readings, and plus that of elapsed time when they commit in sample order |
| `Interleavings.StoreDropsUnseen` | src/store.rs:26-33 | an interleaved run is legal with every discard left out, and decides alike on a key whose entry is always reopened a whole refill after its last use |
| `Interleavings.StoreExpiryIsLossless` | src/store.rs:26-33 | with burst within count and idle expiries it decides alike on any key none of whose commits carries a reading older than an expiry before it |
| `Interleavings.StoreExpiryIsLosslessInClockOrder` | src/store.rs:26-33 | in particular on a key whose commits and expiries come in clock order |
| `Interleavings.StoreEvictionBound` | src/limiter.rs:126-128 | however often a key in clock order is dropped in an interleaved run, it is admitted at most a burst more per drop |
| `Interleavings.AnyInterleavingBound` | src/store.rs:37-55 | in every legal interleaving, dropped entries and stale readings together, a key is admitted at most a burst, a burst more per drop, and the refill of its readings' forward steps between drops |
| `Interleavings.StaleCommitOverAdmits` | src/store.rs:39-46 | a legal interleaving in which a denied stale commit lets two requests sampled at one instant through a bucket of burst one |
| `StaleReadings.OneWayIffForwardIsElapsed` | src/bucket.rs:45-49 | the clock's forward steps add up to no more than the time between first and last reading exactly when the readings run one way |
| `StaleReadings.SpentBoundIsAttained` | src/bucket.rs:45-55 | for any readings and any window of them there are a quota and costs that reach burst plus the refill of the forward steps |
| `StaleReadings.EveryOrderHappens` | src/store.rs:41-55 | any requests with any readings in any order are the commits of a legal interleaving on an empty store |
| `StaleReadings.OneWayCommitsNeverOverAdmit` | src/store.rs:39-40 | in any store, commits of a key never dropped whose readings run one way admit at most burst plus the refill of the time between, in each window |
| `StaleReadings.BackAndForthOverAdmits` | src/store.rs:39-55 | for any one-token requests whose readings turn back there is a quota under which the bucket over-admits them |
| `StaleReadings.UnitCallsNeverOverAdmitIff` | src/limiter.rs:230 | for given one-token commits, no run of an empty store over-admits under any quota exactly when their readings run one way |
| `StaleReadings.StoresNeverOverAdmitIff` | src/store.rs:39-55 | for given commit readings, no run of an empty store over-admits under any quota and any costs exactly when the readings run one way |
| `StaleReadings.LateCommitSeesExpiryIff` | src/store.rs:41-55 | a legal interleaving in which a request samples before its key's idle expiry and commits after it: the expiry changes a decision exactly when the burst had not come back by the sample |
| `Throttles.Throttle.constructor` | src/client.rs:70-85 | the interval is the nearest nanosecond to window over count, and the tolerance is the burst's headroom with both clamps |
| `Throttles.IntervalIsNearest` | src/client.rs:71-72 | for every quota the interval is the one integer whose count-fold is within half a count of the window, ties to even, a count of zero taken as one |
| `Throttles.ToleranceIsClamped` | src/client.rs:73-76 | the tolerance is the burst less one in intervals, u32::MAX intervals for larger bursts, and the longest duration when that overflows |
| `Throttles.Throttle.Claim` | src/client.rs:125-135 | the delay reaches the tolerance before the TAT or now, the later; the TAT advances an interval past both unless the clock runs out; other scopes keep theirs |
| `Throttles.Throttle.BackOff` | src/client.rs:139-144 | the scope's TAT becomes at least now plus back-off plus tolerance, never earlier; other scopes keep theirs |
| `Throttles.ToleranceWithinBurst` | src/client.rs:73-76 | every clamp leaves the tolerance within one interval per burst slot after the first |
| `ThrottleRuns.RateBound` | src/client.rs:125-144 | for any claims and back-offs with any clock readings, at most max(burst, 1) plus span over interval proceed within any window |
| `ThrottleRuns.RateBoundIsAttained` | src/client.rs:125-135 | without clamping, simultaneous claims fill every window to that bound |
| `ThrottleRuns.BurstGoesTogether` | src/client.rs:43-46 | for every quota not clamped, of requests made together as many as the burst go at once, one for a burst of zero, and each further one an interval after the one before |
| `ThrottleRuns.TatIsGreatestDemand` | src/client.rs:125-144 | closed form: after any claims and back-offs with any readings the TAT is the greatest, over all of them, of where each alone put it plus an interval for each claim since |
| `ThrottleRuns.SlotsStayOrdered` | src/client.rs:122-144 | along every run the TAT never decreases and grows strictly with each claim |
| `ThrottleRuns.WakeInClaimOrder` | src/client.rs:122-135 | with readings in lock order, proceed times are in claim order |
| `ThrottleRuns.HeldReadingsWakeInOrder` | src/client.rs:122-144 | at any pace, clamped or not, claims wake in order if each older reading is held back by back-offs at least as far |
| `ThrottleRuns.AlwaysWakesInOrderIff` | src/client.rs:70-144 | throttles of every quota, clamps and rounding included, wake a run of claims and back-offs in claim order exactly when each older reading is so held back |
| `ThrottleRuns.ClaimsWakeInOrderIff` | src/client.rs:70-135 | throttles of every quota wake a run of claims alone in claim order exactly when its readings are in lock order |
| `ThrottleRuns.StaleClaimWakesFirst` | src/client.rs:122-135 | with readings out of lock order a later claim can wake first |
| `ThrottleRuns.BackOffIsPermanent` | src/client.rs:137-144 | no later claim of any run proceeds before the back-off ends, burst headroom notwithstanding |
| `ThrottleRuns.BackOffEndsOnTime` | src/client.rs:137-144 | the next claim made before the end proceeds exactly at the end, if and only if the schedule had not already reached further |
| `ThrottleRuns.ShortBackOffChangesNothing` | src/client.rs:139-144 | a back-off that ends before the schedule does can be left out without changing any later proceed time |
| `ThrottleScopes.RunsProjectPerScope` | src/client.rs:125-144 | in a run over many scopes that stays clear of the last instant, each scope's TAT is that of its own claims and back-offs |
| `ThrottleScopes.DelaysProjectPerScope` | src/client.rs:125-135 | and each claim sleeps until its proceed time in its own scope's run |
| `ThrottleScopes.ClaimTakesNoSlotIff` | src/client.rs:133 | a claim on a known scope takes no slot exactly when that would pass the clock's last instant |
| `Duality.PaceOfIsExact` | src/client.rs:70-76 | the constructor's pace is one token per interval with the whole burst but one as tolerance, when nothing is rounded or clamped |
| `Duality.ClaimIsDual` | src/client.rs:43-47 | one claim keeps the relation between TAT and level: its slot is admitted and both sides move together |
| `Duality.PacedRunIsDual` | src/client.rs:125-135 | over every run of claims in clock order the relation holds after each step |
| `Duality.PacedRunIsGranted` | src/client.rs:43-47 | a bucket of the quota admits every request of a paced run |
| `Duality.TatTellsLevel` | src/client.rs:43-47 | at any time the level is the capacity less the refill of the time by which the TAT lies ahead |
| `Duality.NoEarlierSlot` | src/client.rs:128-134 | at every instant between a claim and its slot the bucket would have refused |
| `PoliteGuest.DeliveriesAreSpaced` | src/client.rs:125-144 | deliveries i and j of a run are at least j - i intervals apart, less the tolerance, back-offs included |
| `PoliteGuest.GuestIsNeverDenied` | src/client.rs:70-85 | a client slow enough for the server is admitted on every request of every run, back-offs included |
| `PoliteGuest.HurriedGuestIsDenied` | src/client.rs:125-135 | a client with a shorter interval than the server's is denied in an explicit run |
| `PoliteGuest.WelcomeIffSlowEnough` | src/client.rs:70-85 | any pace is never refused in any run exactly when an interval refills a token, the burst covers what the pace sends at once, and the next request fits when it is let go |
| `PoliteGuest.SlowEnoughWithinBurstIff` | src/client.rs:70-85 | with tolerance within the server's burst, only the first of these is left |
| `PoliteGuest.QuotasWelcomeIffSlowEnough` | src/client.rs:70-85 | the same for the throttle built from any quota whose burst is within the server's, clamps and rounding included |
| `PoliteGuest.SameQuotaWelcomeIffNotRoundedDown` | src/client.rs:1-9 | client and server with one quota: never refused exactly when window over count does not round down |
| `PoliteGuest.ThreePerSecondRoundsDown` | src/headers/quota.rs:33-35 | three per second does round down, so such a client is not always admitted |
| `PoliteGuest.FourthRequestDenied` | src/client.rs:71-72 | four simultaneous requests at three per second: three admitted, the fourth refused on arrival in its slot |
| `Text.DigitsReadBack` | src/headers/rate_limit.rs:154-156 | a printed number reads back |
| `StructuredFields.Unescape` | src/headers/sf.rs:26-39 | the loop removes each escaping backslash and keeps what follows it, a trailing one dropped |
| `StructuredFields.WriteSfString` | src/headers/sf.rs:42-51 | the loop appends the quoted, escaped string and nothing else |
| `StructuredFields.DrainParams` | src/headers/sf.rs:54-57 | the loop stops where the whole parameter list ends and fails exactly when it is malformed |
| `StructuredFields.SkipItem` | src/headers/sf.rs:60-65 | an item of any kind is passed over whole, inner list and parameters, failing exactly when it is malformed |
| `FieldLists.ItemReadsBack` | src/headers/rate_limit.rs:87-111 | every kind of bare item, negative numbers, decimals, tokens, booleans and dates included, reads from its written form as what it is |
| `FieldLists.DecimalLexes` | src/headers/rate_limit.rs:100-103 | digits either side of a point are a decimal exactly when they are at most 12 and one to three, and otherwise malformed |
| `FieldGrammar.InnerListReadsBack` | src/headers/sf.rs:60-63 | an inner list of any items with any parameters, however spaced, reads as one member with its own parameters kept |
| `FieldGrammar.CommaMayBeSpaced` | src/headers/rate_limit.rs:87 | spaces and tabs around the commas of a list mean nothing |
| `FieldGrammar.TrailingWhitespaceIsSkipped` | src/headers/rate_limit.rs:87 | nor do they after its last member |
| `FieldGrammar.MembersNeedComma` | src/headers/rate_limit.rs:87 | two members without a comma between them are malformed |
| `FieldGrammar.UnclosedIsRejected` | src/headers/rate_limit.rs:89 | a string without its closing quote is malformed, whatever it holds |
| `FieldGrammar.SemicolonMayBeSpaced` | src/headers/rate_limit.rs:100 | spaces after a semicolon mean nothing |
| `FieldGrammar.BareKeyIsTrue` | src/headers/rate_limit.rs:100-109 | a key alone reads as the boolean true |
| `StructuredFields.UnescapeUndoesEscape` | src/headers/sf.rs:17-51 | reading a written string gives it back for every string, with the escape flag as the lexer sets it |
| `StructuredFields.UnescapeUndoesAnyEscape` | src/headers/sf.rs:26-39 | whichever characters are escaped, as long as backslashes are, unescaping gives the string back, and drops a backslash left at the end |
| `StructuredFields.EscapedIsDelimited` | src/headers/sf.rs:42-51 | the written form of a printable string ends at its own closing quote, whatever follows |
| `StructuredFields.AcceptedIsPrintable` | src/headers/sf.rs:17-24 | any string the lexer accepts is printable after unescaping |
| `StructuredFields.UnprintableIsRejected` | src/headers/sf.rs:42-51 | the written form of a string with an unprintable character is never accepted as a string |
| `FieldLists.LinesCombineIffNonEmpty` | src/headers/rate_limit.rs:128-138 | two well-formed values joined by a comma hold both lists exactly when neither is empty, and are malformed otherwise |
| `FieldLists.JoinedLinesTokenize` | src/headers/rate_limit.rs:128-138 | any number of non-empty lines, comma-joined, read as all their members in order |
| `FieldLists.MembersReadBack` | src/headers/rate_limit.rs:151-163 | named members written one by one and joined by comma and space read back as they were |
| `FieldLists.MembersAreReadable` | src/headers/rate_limit.rs:87-111 | whatever the input, every value read is within the grammar's ranges |
| `ItemLists.LinesCombine` | src/headers/rate_limit.rs:128-138 | for either header, parsing non-empty lines apart and concatenating is parsing their comma-joined value |
| `ItemLists.LinesReadIff` | src/headers/rate_limit.rs:128-138 | for either header, any lines are read exactly when no text line at any position is malformed, and hold in order what each holds alone |
| `ItemLists.LinesReadInParts` | src/headers/rate_limit.rs:128-138 | reading the first lines and the rest apart, and concatenating if neither fails, is reading them all |
| `ItemLists.OneLineReads` | src/headers/rate_limit.rs:131-135 | one text line is what it parses to, and one that is not text holds nothing |
| `ItemLists.UnreadableLineIsSkipped` | src/headers/rate_limit.rs:132 | a line that is not text can be left out anywhere |
| `ItemLists.ForeignMembersAreSkipped` | src/headers/rate_limit.rs:88-122 | a list of members that are not items of ours can be spliced between two others without changing what is read |
| `RateLimits.ReadParams` | src/headers/rate_limit.rs:96-111 | the parameter loop yields what folding all parameters sets, leaves off where they end, and fails exactly when they are malformed |
| `RateLimits.ParseList` | src/headers/rate_limit.rs:83-125 | the nested loops return every limit of the tokenized list in order, or an error exactly when the value is malformed |
| `RateLimits.LastWellTypedIsKept` | src/headers/rate_limit.rs:100-111 | of repeated parameters the last well-typed value stands, ill-typed repeats ignored |
| `RateLimits.ForeignParamIsIgnored` | src/headers/rate_limit.rs:96-111 | a parameter of another name, or of the wrong type or range, might as well not be there, wherever it stands |
| `RateLimits.Display` | src/headers/rate_limit.rs:151-163 | the formatter gains the printed limit |
| `RateLimits.WireFormat` | src/headers/rate_limit.rs:229-233 | a limit prints in the documented form, by example |
| `RateLimits.KeyWireFormat` | src/headers/rate_limit.rs:151-163 | the same with a partition key and no reset |
| `RateLimits.ReadsBackInWholeSeconds` | src/headers/rate_limit.rs:151-163 | a legible limit reads back with its reset cut to whole seconds and nothing else changed |
| `RateLimits.PrintedReadsIffLegible` | src/headers/rate_limit.rs:83-163 | a printed limit with a base64 key reads back, cut to whole seconds, exactly when it is legible, and otherwise its line is malformed |
| `RateLimits.ParsedAreEncodable` | src/headers/rate_limit.rs:83-125 | every limit parsed from any input is one the field can express |
| `RateLimits.WithoutRemainingIsNothing` | src/headers/rate_limit.rs:113-121 | an item of any kind that is not named, or whose every `r` is negative or not an integer, reads as no limit |
| `RateLimits.WithoutRemainingIsSkipped` | src/headers/rate_limit.rs:113-121 | and changes nothing when placed between two lists |
| `RateLimits.NegativeRemainingIsNothing` | src/headers/rate_limit.rs:102 | a concrete line with `r=-5` reads as an empty list |
| `RateLimits.InnerListIsSkipped` | src/headers/rate_limit.rs:88-94 | an inner list of any items and parameters changes nothing when placed between two lists |
| `RateLimits.RoundTripsIffEncodable` | src/headers/rate_limit.rs:83-163 | a list of limits survives printing, joining and parsing exactly when the field can express each, a partition key being any run of base64 characters, its padding unchecked |
| `RateLimits.FromHeaders` | src/headers/rate_limit.rs:128-138 | lines that are not text are passed over, lists are concatenated in order, and the first malformed line is an error |
| `RateLimitPolicies.ReadParams` | src/headers/rate_limit_policy.rs:110-129 | the parameter loop yields what folding all parameters sets, leaves off where they end, and fails exactly when they are malformed |
| `RateLimitPolicies.ParseList` | src/headers/rate_limit_policy.rs:95-144 | the nested loops return every policy of the tokenized list in order, or an error exactly when the value is malformed |
| `RateLimitPolicies.LastWellTypedIsKept` | src/headers/rate_limit_policy.rs:115-129 | of repeated parameters the last well-typed value stands, ill-typed repeats ignored |
| `RateLimitPolicies.ForeignParamIsIgnored` | src/headers/rate_limit_policy.rs:110-129 | a parameter of another name, or of the wrong type or range, might as well not be there, wherever it stands |
| `RateLimitPolicies.Display` | src/headers/rate_limit_policy.rs:171-187 | the formatter gains the printed policy |
| `RateLimitPolicies.WireFormat` | src/headers/rate_limit_policy.rs:171-187 | a policy prints in the documented form, by example |
| `RateLimitPolicies.UnitWireFormat` | src/headers/rate_limit_policy.rs:171-187 | the same with a unit other than requests |
| `RateLimitPolicies.ReadsBackInWholeSeconds` | src/headers/rate_limit_policy.rs:171-187 | a legible policy reads back with its window cut to whole seconds, and without one below a second |
| `RateLimitPolicies.ParsedAreEncodable` | src/headers/rate_limit_policy.rs:95-144 | every policy parsed from any input is one the field can express |
| `RateLimitPolicies.WithoutQuotaIsNothing` | src/headers/rate_limit_policy.rs:131-140 | an item of any kind that is not named, or whose every `q` is negative or not an integer, reads as no policy |
| `RateLimitPolicies.WithoutQuotaIsSkipped` | src/headers/rate_limit_policy.rs:131-140 | and changes nothing when placed between two lists |
| `RateLimitPolicies.NegativeQuotaIsNothing` | src/headers/rate_limit_policy.rs:117 | a concrete line with `q=-5` reads as an empty list |
| `RateLimitPolicies.InnerListIsSkipped` | src/headers/rate_limit_policy.rs:102-108 | an inner list of any items and parameters changes nothing when placed between two lists |
| `RateLimitPolicies.RoundTripsIffEncodable` | src/headers/rate_limit_policy.rs:95-187 | a list of policies survives printing, joining and parsing exactly when the field can express each, a partition key being any run of base64 characters, its padding unchecked |
| `RateLimitPolicies.FromHeaders` | src/headers/rate_limit_policy.rs:147-157 | lines that are not text are passed over, lists are concatenated in order, and the first malformed line is an error |
| `Limiters.SecsCeilIsLeast` | src/limiter.rs:271-275 | a whole number of seconds covers a duration exactly when it is at least the rounded-up one |
| `Limiters.RateLimiter.RandomJitter` | src/limiter.rs:161-168 | the delay is what the generator rolls, anything up to the configured jitter and 64 bits of nanoseconds |
| `Limiters.RateLimiter.Run` | src/limiter.rs:215-256 | a keyless request is skipped or rejected with the store untouched, or shares one slot; a metered one is charged one token under its key alone, and the response gains exactly the headers, status and halt its decision calls for; read back, the policy line tells the count per window, the limit line the requests the bucket still grants and the fewest seconds that cover its time to full and the jitter, and `Retry-After` the fewest that cover the delay and the jitter, with the rendered key exactly when there is a renderer and a key |
| `Limiters.PolicyLineReads` | src/limiter.rs:233-244 | the policy line parses to one policy: the quota's count, in requests, its window in whole seconds, and the key |
| `Limiters.LimitLineReads` | src/limiter.rs:235-246 | admitted or denied, the limit line parses to one limit: as many remaining as further unit requests at that instant are granted, and as reset the fewest whole seconds that cover the time to full and the jitter |
| `Limiters.RetryReads` | src/limiter.rs:251-253 | `Retry-After` is the fewest whole seconds that cover the retry delay and the jitter |
| `Limiters.RateLimiter.Announce` | src/limiter.rs:233-246 | one policy line and one limit line are appended, with the drawn jitter in the reset |
| `Limiters.RateLimiter.Deny` | src/limiter.rs:251-254 | `Retry-After` is the jittered delay in rounded-up seconds, the status is the configured one, and the connection halts |
| `Limiters.AdvertisedSecondsSufficeIff` | src/limiter.rs:271-275 | without jitter no fewer whole seconds suffice, and the advertised ones do exactly unless rounding drops the wait onto a whole second |
| `Limiters.RetryAfterTooSoon` | src/limiter.rs:271-275 | three per 3,000,000,001 ns: the advertised second is too short |
| `ServerSignals.RetryReadsBack` | src/client.rs:179-183 | every 64-bit `Retry-After` the server prints is read back exactly |
| `ServerSignals.BackoffCoversRetryAfter` | src/client.rs:178-193 | whatever limits the response carries, well formed or not, the wait covers its `Retry-After` |
| `ServerSignals.BackoffIsLongestAsked` | src/client.rs:175-193 | for any `Retry-After` and any lines, absent and malformed ones included, the client waits for the longest of what they ask, and not at all exactly when they ask for nothing |
| `ServerSignals.HoldsNumberIff` | src/client.rs:179-183 | a `Retry-After` asks for n seconds exactly when it is n in digits, within 64 bits, with whitespace around and a plus sign before it allowed |
| `ServerSignals.ExhaustedResetIsLongest` | src/client.rs:185-190 | the reset obeyed belongs to an exhausted limit and no exhausted limit's is longer |
| `ClosedLoop.NextRequestWaits` | src/client.rs:125-193 | after a claim, its denial and the back-off it asks for, the next request arrives no sooner than the advertised seconds after the denial, at any pace |
| `ClosedLoop.AdvertisedWaitIsShortIff` | src/limiter.rs:230-254 | what the response makes the guest wait is at most a nanosecond less than needed, and less exactly without jitter when rounding drops it onto a whole second and the token needed arrives in that same nanosecond |
| `ClosedLoop.NextRequestIsAdmitted` | src/limiter.rs:248-255 | that request is admitted for any latency, if there is jitter, a nanosecond passes on the way, or the wait does not fall short |
| `ClosedLoop.AlwaysReadmittedIff` | src/limiter.rs:230-275 | every guest honouring the limiter's own response to a denial, at any pace, jitter and latency, is admitted next exactly unless that wait falls short |
| `ClosedLoop.SpareBurstReadmits` | src/limiter.rs:233-255 | it always is when it can read the limit and the rest of the burst takes a nanosecond or more to refill |
| `ClosedLoop.ReadmittedOrNot` | src/limiter.rs:271-275 | three per 3,000,000,001 ns, drained: a guest is always readmitted with a burst of three, and not with a burst of one |
| `ClosedLoop.UnreadableLimitReadmitsTooSoon` | src/client.rs:185-192 | with an unprintable policy name, not with a burst of three either |
| `ClosedLoop.DroppedEntryAdmits` | src/store.rs:46-49 | had the key's entry been dropped meanwhile, the request is admitted as well |
| `ClosedLoop.DeniedIsExhausted` | src/bucket.rs:57-68 | a denied unit request has nothing remaining and waits to full at least as long as to retry |
| `ClosedLoop.GuestWaitsForFullBurst` | src/client.rs:175-193 | end to end through printing and parsing, the guest's wait after a denial is the jittered time to full in rounded-up seconds, or the jittered retry delay when the limit's line cannot be read |

## Left out

- Floating point: tokens, rates and seconds are exact reals; f64 representation error and rounding of intermediate results are not modelled, only the conversion to a `Duration`.
- Integer widths: counts, bursts and costs are unbounded; conversions that overflow (a wait beyond `Duration::MAX`, a level beyond f64 precision) are not modelled. Readers of integers are bounded as in the source.
- A zero window: it has no refill rate and the crate documents it as out of use, so the `Quota` type excludes it.
- ThrottleRuns.RateBound: assumes the clock does not run out. `Throttle.Claim` models the saturating step at the last representable instant; runs of claims do not reach it (`ThrottleScopes.WithinHorizon`); `ThrottleScopes.ClaimTakesNoSlotIff` says where pacing stops.
- ThrottleRuns.AlwaysWakesInOrderIff: of runs of `u32::MAX` operations or more only the "if" half is stated (`ThrottleRuns.HeldReadingsWakeInOrder`), since no throttle's burst headroom is that large.
- ThrottleRuns.ClaimsWakeInOrderIff: likewise.
- Throttles.Throttle.BackOff: an addition past the last instant panics in the source; here it is a precondition.
- PoliteGuest.GuestIsNeverDenied: latency is one constant for the whole run; variable latency can bunch deliveries, and the claim is not made for it.
- ClosedLoop.NextRequestIsAdmitted: the guest is the only user of its key; with other users no wait guarantees admission.
- ClosedLoop.AlwaysReadmittedIff: the response carries this limiter's own `RateLimit` line alone; stacked limiters add lines, and a malformed one makes the client ignore them all.
- Stores.Store.Consume: the clock reading is a parameter. Sampling it before the lock is a step of its own in `Interleavings`, where the commit uses the same specification function.
- moka: which entry it evicts, when it notices an expiry and its capacity count. Any entry may be dropped at any moment; idleness is measured from the reading the bucket carries, which is never later than moka's own time of last use, so every expiry moka can perform is covered.
- StructuredFields: sfparse is not part of this repository. The tokenizer follows sections 4.2.1 to 4.2.9 of RFC 9651 for the list type; display strings (section 4.2.10) read as malformed, byte sequences are checked for their alphabet but not decoded or checked for padding, and an inner list's own members lose their parameters when they are read.
- Text is a sequence of characters; UTF-8 encoding of lines is not modelled. A line that is not text is `None`.
- ServerSignals.RetryReadsBack: `str::trim` is modelled for spaces and tabs only.
- Limiters.RateLimiter.RandomJitter: the generator's roll is a parameter, any value in range; uniformity is not stated.
- Key extraction, network grouping, scope functions, base64 encoding of keys, the capacity setting and the other builders: each is read off one branch.
- Trillium's connections, handlers and header storage, asynchronous sleeping, the mutex and its poisoning: framework plumbing. A response is the few fields the handler touches.
- Borrowed and owned text (`Cow`, `into_owned`) are not distinguished.
