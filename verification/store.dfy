/**
 The store of buckets, one per key.

 `Store` is the program's store: `Consume` is the closure moka runs under a key's lock, given the
 clock reading taken before the lock, and `Discard` is moka dropping an entry, by idle expiry or by
 capacity eviction.
 */
module Stores {
  import opened Wrappers
  import opened Quotas
  import opened Buckets
  import opened Runs

  /** All slots once `key` has been charged under its lock. */
  function Served<K>(q: Quota, slots: map<K, BucketState>, key: K, now: nat, cost: nat): map<K, BucketState> {
    slots[key := Buckets.Consume(q, Opened(q, Lookup(slots, key), now), now, cost)]
  }

  class Store<K(==)> {
    const quota: Quota
    var cache: map<K, Bucket>

    ghost predicate Valid()
      reads this, cache.Values
    {
      forall k :: k in cache ==> cache[k].Valid(quota)
    }

    ghost function Slots(): map<K, BucketState>
      requires Valid()
      reads this, cache.Values
    {
      map k | k in cache :: cache[k].State(quota)
    }

    constructor (quota: Quota)
      ensures Valid() && Slots() == map[] && this.quota == quota
    {
      this.quota := quota;
      cache := map[];
    }

    method Consume(key: K, cost: nat, now: nat) returns (d: Decision)
      requires Valid()
      modifies this
      ensures Valid()
      ensures Slots() == Served(quota, old(Slots()), key, now, cost)
      ensures d == Decide(quota, Opened(quota, Lookup(old(Slots()), key), now), now, cost)
    {
      hide Buckets.Consume, Decide, Fresh;
      var bucket: Bucket;
      if key in cache {
        bucket := new Bucket.Copy(cache[key]);
      } else {
        bucket := new Bucket(now, quota);
      }
      d := bucket.TryConsume(now, quota, cost);
      cache := cache[key := bucket];
    }

    method Discard(key: K)
      requires Valid()
      modifies this
      ensures Valid() && Slots() == old(Slots()) - {key}
    {
      cache := cache - {key};
    }
  }
}

/** Runs of one key, as its slot sees them: requests served in commit order, and entries dropped. */
module KeyRuns {
  import opened Wrappers
  import opened Durations
  import opened Quotas
  import opened Buckets
  import opened Runs
  import opened Equivalence

  datatype KeyOp = Use(request: Request) | Drop(at: nat) {
    function Time(): nat {
      if Use? then request.at else at
    }
  }

  function KeyStep(q: Quota, s: Slot, op: KeyOp): Slot {
    if op.Use? then Serve(q, s, op.request) else None
  }

  function KeyAfter(q: Quota, s: Slot, ops: seq<KeyOp>): Slot
    decreases ops
  {
    if ops == [] then s else KeyAfter(q, KeyStep(q, s, ops[0]), ops[1..])
  }

  function KeyVerdicts(q: Quota, s: Slot, ops: seq<KeyOp>): seq<bool>
    decreases ops
  {
    if ops == [] then []
    else (if ops[0].Use? then [Grants(q, s, ops[0].request)] else [])
         + KeyVerdicts(q, KeyStep(q, s, ops[0]), ops[1..])
  }

  function KeyGranted(q: Quota, s: Slot, ops: seq<KeyOp>): nat
    decreases ops
  {
    if ops == [] then 0
    else (if ops[0].Use? && Grants(q, s, ops[0].request) then ops[0].request.cost else 0)
         + KeyGranted(q, KeyStep(q, s, ops[0]), ops[1..])
  }

  function Uses(ops: seq<KeyOp>): seq<KeyOp> {
    if ops == [] then [] else (if ops[0].Use? then [ops[0]] else []) + Uses(ops[1..])
  }

  function Drops(ops: seq<KeyOp>): nat {
    if ops == [] then 0 else (if ops[0].Use? then 0 else 1) + Drops(ops[1..])
  }

  /** Operations happen in clock order, none before t. */
  predicate InOrder(ops: seq<KeyOp>, t: nat) {
    ops != [] ==> t <= ops[0].Time() && InOrder(ops[1..], ops[0].Time())
  }

  function EndTime(ops: seq<KeyOp>, t: nat): nat {
    if ops == [] then t else EndTime(ops[1..], ops[0].Time())
  }

  /** Every drop hits a slot whose refilled level is within `gain` of a full bucket. */
  predicate DropsGainAtMost(q: Quota, s: Slot, ops: seq<KeyOp>, gain: nat)
    decreases ops
  {
    ops != [] ==>
      && (ops[0].Drop? ==> Capacity(q) <= Level(q, s, ops[0].at) + gain)
      && DropsGainAtMost(q, KeyStep(q, s, ops[0]), ops[1..], gain)
  }

  /** Entries are only dropped once they have been idle for a whole window. */
  predicate DropsAreIdle(q: Quota, s: Slot, ops: seq<KeyOp>)
    decreases ops
  {
    ops != [] ==>
      && (ops[0].Drop? && s.Some? ==> s.value.updated + q.window <= ops[0].at)
      && DropsAreIdle(q, KeyStep(q, s, ops[0]), ops[1..])
  }

  /** What is granted is paid for by the level found, the refill, and the gain of each drop. */
  lemma {:induction false} GrantedIsPaidFor(q: Quota, s: Slot, ops: seq<KeyOp>, t: nat, gain: nat)
    requires UpdatedBy(s, t) && InOrder(ops, t) && DropsGainAtMost(q, s, ops, gain)
    ensures t <= EndTime(ops, t)
    ensures q.window * KeyGranted(q, s, ops) <= Level(q, s, t) + gain * Drops(ops) + q.count * (EndTime(ops, t) - t)
    decreases ops
  {
    hide Level, KeyStep, Grants, Capacity;
    if ops != [] {
      var op, rest, s' := ops[0], ops[1..], KeyStep(q, s, ops[0]);
      var u, end := op.Time(), EndTime(ops, t);
      StepPays(q, s, op);
      GrantedIsPaidFor(q, s', rest, u, gain);
      LevelGrows(q, s, t, u);
      Distributes(q.count, u - t, end - u);
      Distributes(gain, Drops(rest), Drops(ops) - Drops(rest));
      Distributes(q.window, KeyGranted(q, s', rest), KeyGranted(q, s, ops) - KeyGranted(q, s', rest));
    }
  }

  lemma LevelGrows(q: Quota, s: Slot, t: nat, u: nat)
    requires UpdatedBy(s, t) && t <= u
    ensures Level(q, s, u) <= Level(q, s, t) + q.count * (u - t)
  {
    RefillComposes(q, s, t, u);
  }

  lemma StepPays(q: Quota, s: Slot, op: KeyOp)
    ensures op.Use? ==>
              Level(q, KeyStep(q, s, op), op.Time())
              == Level(q, s, op.Time()) - if Grants(q, s, op.request) then q.window * op.request.cost else 0
    ensures op.Drop? ==> Level(q, KeyStep(q, s, op), op.Time()) == Capacity(q)
    ensures UpdatedBy(KeyStep(q, s, op), op.Time())
  {
  }

  /** Evictions for capacity: each is worth at most one full burst. */
  lemma EvictionsCostABurstEach(q: Quota, s: Slot, ops: seq<KeyOp>, t: nat)
    requires UpdatedBy(s, t) && InOrder(ops, t)
    ensures t <= EndTime(ops, t)
    ensures q.window * KeyGranted(q, s, ops)
         <= q.window * (q.burst * (1 + Drops(ops))) + q.count * (EndTime(ops, t) - t)
  {
    hide Level;
    LevelWithinCapacity(q, s, t);
    AnyDropGainsCapacity(q, s, ops);
    GrantedIsPaidFor(q, s, ops, t, Capacity(q));
    Distributes(q.burst, 1, Drops(ops));
    Distributes(q.window, q.burst, q.burst * Drops(ops));
    TimesAssociates(q.window, q.burst, Drops(ops));
  }

  lemma LevelWithinCapacity(q: Quota, s: Slot, t: nat)
    ensures Level(q, s, t) <= q.window * q.burst == Capacity(q)
  {
  }

  lemma {:induction false} AnyDropGainsCapacity(q: Quota, s: Slot, ops: seq<KeyOp>)
    ensures DropsGainAtMost(q, s, ops, Capacity(q))
    decreases ops
  {
    if ops != [] {
      AnyDropGainsCapacity(q, KeyStep(q, s, ops[0]), ops[1..]);
    }
  }

  // ---------------------------------------------------------------- readings in any order

  /** How far the readings run forward, ignoring steps back and starting anew after each drop. */
  function Advance(last: Option<nat>, ops: seq<KeyOp>): nat
    decreases ops
  {
    if ops == [] then 0
    else if ops[0].Drop? then Advance(None, ops[1..])
    else
      var at := ops[0].request.at;
      (if last.Some? then Since(last.value, at) else 0) + Advance(Some(at), ops[1..])
  }

  function LastReading(s: Slot): Option<nat> {
    if s.Some? then Some(s.value.updated) else None
  }

  /** The level a slot holds as it was last updated. */
  function Held(q: Quota, s: Slot): nat {
    if s.Some? then Min(s.value.level, Capacity(q)) else Capacity(q)
  }

  lemma UseIsPaidFor(q: Quota, s: Slot, r: Request)
    ensures var inflow := if s.Some? then Since(s.value.updated, r.at) else 0;
      Held(q, Serve(q, s, r)) + (if Grants(q, s, r) then q.window * r.cost else 0) <= Held(q, s) + q.count * inflow
  {
  }

  /**
   Neither clock order nor idleness assumed: grants are paid for by the level held, a burst for each
   drop, and the refill of the readings' forward steps.
   */
  lemma {:induction false} AnyRunIsPaidFor(q: Quota, s: Slot, ops: seq<KeyOp>)
    ensures q.window * KeyGranted(q, s, ops)
         <= Held(q, s) + Capacity(q) * Drops(ops) + q.count * Advance(LastReading(s), ops)
    decreases ops
  {
    hide Held, Serve, Grants, Capacity;
    if ops != [] {
      var op, rest, s' := ops[0], ops[1..], KeyStep(q, s, ops[0]);
      AnyRunIsPaidFor(q, s', rest);
      if op.Use? {
        UseIsPaidFor(q, s, op.request);
        var inflow := if s.Some? then Since(s.value.updated, op.request.at) else 0;
        assert LastReading(s') == Some(op.request.at) by {
          ServedReads(q, s, op.request);
        }
        Distributes(q.count, inflow, Advance(LastReading(s'), rest));
        Distributes(q.window, if Grants(q, s, op.request) then op.request.cost else 0, KeyGranted(q, s', rest));
      } else {
        DroppedHoldsAll(q, s);
        Distributes(Capacity(q), 1, Drops(rest));
      }
    }
  }

  lemma ServedReads(q: Quota, s: Slot, r: Request)
    ensures LastReading(Serve(q, s, r)) == Some(r.at)
  {
  }

  lemma DroppedHoldsAll(q: Quota, s: Slot)
    ensures Held(q, None) == Capacity(q) == q.window * q.burst && Held(q, s) <= Capacity(q)
  {
  }

  // ---------------------------------------------------------------- idle expiry

  /** How much of a full burst a window's refill cannot restore. */
  function Excess(q: Quota): nat {
    if q.burst <= q.count then 0 else q.window * (q.burst - q.count)
  }

  lemma IdleWindowNearlyFills(q: Quota, s: Slot, t: nat)
    requires s.Some? ==> s.value.updated + q.window <= t
    ensures Capacity(q) <= Level(q, s, t) + Excess(q)
  {
    if s.Some? {
      TimesInOrder(q.count, q.window, t - s.value.updated);
      if q.burst <= q.count {
        TimesInOrder(q.window, q.burst, q.count);
      } else {
        Distributes(q.window, q.count, q.burst - q.count);
      }
    }
  }

  lemma {:induction false} IdleDropsGainExcess(q: Quota, s: Slot, ops: seq<KeyOp>)
    requires DropsAreIdle(q, s, ops)
    ensures DropsGainAtMost(q, s, ops, Excess(q))
    decreases ops
  {
    if ops != [] {
      if ops[0].Drop? {
        IdleWindowNearlyFills(q, s, ops[0].at);
      }
      IdleDropsGainExcess(q, KeyStep(q, s, ops[0]), ops[1..]);
    }
  }

  /** Idle expiry: each grants at most the part of the burst that exceeds the count. */
  lemma ExpiriesCostTheExcessEach(q: Quota, s: Slot, ops: seq<KeyOp>, t: nat)
    requires UpdatedBy(s, t) && InOrder(ops, t) && DropsAreIdle(q, s, ops)
    ensures t <= EndTime(ops, t)
    ensures q.window * KeyGranted(q, s, ops)
         <= q.window * q.burst + Excess(q) * Drops(ops) + q.count * (EndTime(ops, t) - t)
  {
    hide Level;
    LevelWithinCapacity(q, s, t);
    IdleDropsGainExcess(q, s, ops);
    GrantedIsPaidFor(q, s, ops, t, Excess(q));
  }

  // ---------------------------------------------------------------- when dropping an entry goes unseen

  /** The reading of the next use. */
  function NextUse(ops: seq<KeyOp>): Option<nat> {
    if ops == [] then None else if ops[0].Use? then Some(ops[0].request.at) else NextUse(ops[1..])
  }

  /** If the entry last read `at` is dropped next, the use that reopens it reads a whole refill later. */
  predicate ReopensFull(q: Quota, at: nat, ops: seq<KeyOp>) {
    ops != [] && ops[0].Drop? && NextUse(ops).Some? ==> Capacity(q) <= Accrued(q, at, NextUse(ops).value)
  }

  /** So it is after every use. */
  predicate AlwaysReopensFull(q: Quota, ops: seq<KeyOp>) {
    ops != [] ==>
      && (ops[0].Use? ==> ReopensFull(q, ops[0].request.at, ops[1..]))
      && AlwaysReopensFull(q, ops[1..])
  }

  /** The slot was dropped, and the next use would have found it full anyway. */
  predicate DroppedFull(q: Quota, s: Slot, s': Slot, ops: seq<KeyOp>) {
    && s == None && s'.Some?
    && (NextUse(ops).Some? ==> Capacity(q) <= Accrued(q, s'.value.updated, NextUse(ops).value))
  }

  lemma FullServesAsFresh(q: Quota, s: Slot, r: Request)
    requires s.Some? && Capacity(q) <= Accrued(q, s.value.updated, r.at)
    ensures Grants(q, None, r) == Grants(q, s, r) && Serve(q, None, r) == Serve(q, s, r)
  {
  }

  lemma {:induction false} DropsUnseenWhenFull(q: Quota, s: Slot, s': Slot, ops: seq<KeyOp>)
    requires AlwaysReopensFull(q, ops)
    requires (s == s' && (s.Some? ==> ReopensFull(q, s.value.updated, ops))) || DroppedFull(q, s, s', ops)
    ensures KeyVerdicts(q, s, ops) == KeyVerdicts(q, s', Uses(ops))
    decreases ops
  {
    hide Serve, Grants, Accrued, Capacity;
    if ops != [] {
      var op := ops[0];
      if op.Use? {
        if s != s' {
          FullServesAsFresh(q, s', op.request);
        }
        ServedReads(q, s, op.request);
        DropsUnseenWhenFull(q, KeyStep(q, s, op), Serve(q, s', op.request), ops[1..]);
        assert Uses(ops)[1..] == Uses(ops[1..]);
      } else {
        DropsUnseenWhenFull(q, None, s', ops[1..]);
        assert Uses(ops) == Uses(ops[1..]);
      }
    }
  }

  /** The same operations at the same instants, costs aside. */
  predicate SameTimes(ops: seq<KeyOp>, ops': seq<KeyOp>) {
    |ops| == |ops'| && forall i :: 0 <= i < |ops| ==> ops[i].Use? == ops'[i].Use? && ops[i].Time() == ops'[i].Time()
  }

  /** Whatever the requests cost, the key decides as if nothing was ever dropped. */
  ghost predicate DropsUnseen(q: Quota, ops: seq<KeyOp>) {
    forall ops' :: SameTimes(ops, ops') ==> KeyVerdicts(q, None, ops') == KeyVerdicts(q, None, Uses(ops'))
  }

  function Costing(op: KeyOp, cost: nat): KeyOp {
    if op.Use? then Use(Request(op.request.at, cost)) else op
  }

  function AllCosting(ops: seq<KeyOp>, cost: nat): (ops': seq<KeyOp>)
    ensures SameTimes(ops, ops')
  {
    if ops == [] then [] else [Costing(ops[0], cost)] + AllCosting(ops[1..], cost)
  }

  /** Costs that tell: nothing until a use too close to its entry's reopening, then a burst every time. */
  function Telltale(q: Quota, ops: seq<KeyOp>): (ops': seq<KeyOp>)
    ensures SameTimes(ops, ops')
  {
    if ops == [] then []
    else if ops[0].Use? && !ReopensFull(q, ops[0].request.at, ops[1..]) then AllCosting(ops, q.burst)
    else [Costing(ops[0], 0)] + Telltale(q, ops[1..])
  }

  predicate Full(q: Quota, s: Slot) {
    s.Some? ==> s.value.level == Capacity(q)
  }

  /** The first verdict on a run of bursts, drops and all, and on its uses alone. */
  lemma {:induction false} FirstVerdict(q: Quota, s: Slot, s': Slot, ops: seq<KeyOp>)
    requires NextUse(ops).Some? && (ops[0].Drop? || s == None)
    ensures var ops', burst := AllCosting(ops, q.burst), Request(NextUse(ops).value, q.burst);
      && KeyVerdicts(q, s, ops') != [] && KeyVerdicts(q, s, ops')[0]
      && KeyVerdicts(q, s', Uses(ops')) != [] && KeyVerdicts(q, s', Uses(ops'))[0] == Grants(q, s', burst)
    decreases ops
  {
    var ops' := AllCosting(ops, q.burst);
    assert ops'[1..] == AllCosting(ops[1..], q.burst);
    if ops[0].Drop? {
      FirstVerdict(q, None, s', ops[1..]);
      assert Uses(ops') == Uses(ops'[1..]);
    }
  }

  lemma BurstEmpties(q: Quota, s: Slot, at: nat)
    requires Full(q, s)
    ensures Grants(q, s, Request(at, q.burst)) && Serve(q, s, Request(at, q.burst)) == Some(BucketState(0, at))
    ensures Grants(q, s, Request(at, 0)) && Full(q, Serve(q, s, Request(at, 0)))
  {
  }

  lemma EmptyGrantsBurstIff(q: Quota, at: nat, next: nat)
    ensures Grants(q, Some(BucketState(0, at)), Request(next, q.burst)) <==> Capacity(q) <= Accrued(q, at, next)
  {
  }

  lemma {:induction false} TelltaleTells(q: Quota, s: Slot, s': Slot, ops: seq<KeyOp>)
    requires !AlwaysReopensFull(q, ops) && Full(q, s) && Full(q, s')
    ensures KeyVerdicts(q, s, Telltale(q, ops)) != KeyVerdicts(q, s', Uses(Telltale(q, ops)))
    decreases ops
  {
    hide Serve, Grants, Accrued, Capacity, Full;
    var op, rest, ops' := ops[0], ops[1..], Telltale(q, ops);
    if op.Use? {
      BurstEmpties(q, s, op.request.at);
      BurstEmpties(q, s', op.request.at);
      assert Uses(ops')[1..] == Uses(ops'[1..]);
      if !ReopensFull(q, op.request.at, rest) {
        var empty := Some(BucketState(0, op.request.at));
        assert ops'[1..] == AllCosting(rest, q.burst);
        FirstVerdict(q, empty, empty, rest);
        EmptyGrantsBurstIff(q, op.request.at, NextUse(rest).value);
        SecondDiffers(true, KeyVerdicts(q, empty, ops'[1..]), KeyVerdicts(q, empty, Uses(ops'[1..])));
      } else {
        var r := Request(op.request.at, 0);
        assert ops'[1..] == Telltale(q, rest);
        TelltaleTells(q, Serve(q, s, r), Serve(q, s', r), rest);
        SecondDiffers(true, KeyVerdicts(q, Serve(q, s, r), ops'[1..]),
                      KeyVerdicts(q, Serve(q, s', r), Uses(ops'[1..])));
      }
    } else {
      assert ops'[1..] == Telltale(q, rest) && Uses(ops') == Uses(ops'[1..]);
      NothingIsFull(q);
      TelltaleTells(q, None, s', rest);
    }
  }

  lemma NothingIsFull(q: Quota)
    ensures Full(q, None)
  {
  }

  lemma SecondDiffers(v: bool, vs: seq<bool>, vs': seq<bool>)
    requires vs != vs'
    ensures [v] + vs != [v] + vs'
  {
    assert ([v] + vs)[1..] == vs && ([v] + vs')[1..] == vs';
  }

  /**
   When dropping entries, for idleness or capacity, changes no decision: exactly when each use that
   reopens one reads a whole refill after the last use before. No order among readings is assumed.
   */
  lemma DropsUnseenIff(q: Quota, ops: seq<KeyOp>)
    ensures DropsUnseen(q, ops) <==> AlwaysReopensFull(q, ops)
  {
    hide KeyVerdicts;
    if AlwaysReopensFull(q, ops) {
      forall ops' | SameTimes(ops, ops')
        ensures KeyVerdicts(q, None, ops') == KeyVerdicts(q, None, Uses(ops'))
      {
        TimesDecide(q, ops, ops');
        DropsUnseenWhenFull(q, None, None, ops');
      }
    } else {
      NothingIsFull(q);
      TelltaleTells(q, None, None, ops);
    }
  }

  lemma {:induction false} TimesDecide(q: Quota, ops: seq<KeyOp>, ops': seq<KeyOp>)
    requires SameTimes(ops, ops')
    ensures NextUse(ops) == NextUse(ops') && AlwaysReopensFull(q, ops) == AlwaysReopensFull(q, ops')
  {
    if ops != [] {
      assert ops[0].Use? == ops'[0].Use? && ops[0].Time() == ops'[0].Time();
      assert SameTimes(ops[1..], ops'[1..]);
      TimesDecide(q, ops[1..], ops'[1..]);
      assert ops[1..] != [] ==> ops[1].Use? == ops'[1].Use?;
    }
  }

  // ---------------------------------------------------------------- the store's claim about idle expiry

  /**
   No use reads a clock earlier than a drop it follows; `floor` is the latest drop since the last use.
   Requests that sample before the entry expires and commit after it break this.
   */
  predicate ReadsFollowDrops(ops: seq<KeyOp>, floor: nat) {
    ops != [] ==>
      if ops[0].Drop? then ReadsFollowDrops(ops[1..], Max(floor, ops[0].at))
      else floor <= ops[0].request.at && ReadsFollowDrops(ops[1..], 0)
  }

  lemma {:induction false} InOrderReadsFollowDrops(ops: seq<KeyOp>, t: nat, floor: nat)
    requires InOrder(ops, t) && floor <= t
    ensures ReadsFollowDrops(ops, floor)
  {
    if ops != [] {
      InOrderReadsFollowDrops(ops[1..], ops[0].Time(), if ops[0].Drop? then Max(floor, ops[0].at) else 0);
    }
  }

  lemma {:induction false} NextUseFollowsDrops(ops: seq<KeyOp>, floor: nat)
    requires ReadsFollowDrops(ops, floor) && NextUse(ops).Some?
    ensures floor <= NextUse(ops).value
  {
    if ops[0].Drop? {
      NextUseFollowsDrops(ops[1..], Max(floor, ops[0].at));
    }
  }

  lemma WindowRefills(q: Quota, at: nat, next: nat)
    requires q.burst <= q.count && at + q.window <= next
    ensures Capacity(q) <= Accrued(q, at, next)
  {
    TimesInOrder(q.count, q.window, next - at);
    TimesInOrder(q.window, q.burst, q.count);
  }

  lemma {:induction false} IdleEntriesReopenFull(q: Quota, s: Slot, ops: seq<KeyOp>, floor: nat)
    requires q.burst <= q.count && DropsAreIdle(q, s, ops) && ReadsFollowDrops(ops, floor)
    ensures AlwaysReopensFull(q, ops)
    ensures s.Some? ==> ReopensFull(q, s.value.updated, ops)
    decreases ops
  {
    hide Accrued, Capacity, Serve;
    if ops != [] {
      var next := KeyStep(q, s, ops[0]);
      if ops[0].Use? {
        ServedReads(q, s, ops[0].request);
        IdleEntriesReopenFull(q, next, ops[1..], 0);
      } else {
        IdleEntriesReopenFull(q, next, ops[1..], Max(floor, ops[0].at));
        if s.Some? && NextUse(ops).Some? {
          NextUseFollowsDrops(ops, floor);
          NextUseFollowsDrops(ops[1..], Max(floor, ops[0].at));
          WindowRefills(q, s.value.updated, NextUse(ops).value);
        }
      }
    }
  }

  /** A run with idle expiries only, and no reading older than one, that decides as if nothing expired. */
  predicate ExpiryIsLossless(q: Quota, ops: seq<KeyOp>) {
    DropsAreIdle(q, None, ops) && ReadsFollowDrops(ops, 0) ==>
      KeyVerdicts(q, None, ops) == KeyVerdicts(q, None, Uses(ops))
  }

  /** Spend the whole burst, expire a window later, ask for it again with a clock that reads `at`. */
  function BurstTwice(q: Quota, at: nat): seq<KeyOp> {
    [Use(Request(0, q.burst)), Drop(q.window), Use(Request(at, q.burst))]
  }

  lemma BurstTwiceIsIdle(q: Quota, at: nat)
    ensures DropsAreIdle(q, None, BurstTwice(q, at))
    ensures ReadsFollowDrops(BurstTwice(q, at), 0) <==> q.window <= at
    ensures AlwaysReopensFull(q, BurstTwice(q, at)) <==> Capacity(q) <= Accrued(q, 0, at)
    ensures Telltale(q, BurstTwice(q, at)) == BurstTwice(q, at) || AlwaysReopensFull(q, BurstTwice(q, at))
  {
    hide Accrued, Capacity;
    var ops := BurstTwice(q, at);
    var spent := Serve(q, None, ops[0].request);
    ServedReads(q, None, ops[0].request);
    assert ops[1..] == [ops[1], ops[2]] && ops[1..][1..] == [ops[2]] && ops[1..][1..][1..] == [];
    assert NextUse(ops[1..][1..]) == Some(at) && NextUse(ops[1..]) == Some(at);
    assert DropsAreIdle(q, None, ops[1..][1..]) && DropsAreIdle(q, spent, ops[1..]);
    assert ReadsFollowDrops(ops[1..][1..], q.window) <==> q.window <= at;
    assert AlwaysReopensFull(q, ops[1..][1..]) && AlwaysReopensFull(q, ops[1..]);
    assert AllCosting(ops[1..][1..], q.burst) == ops[1..][1..];
    assert AllCosting(ops[1..], q.burst) == ops[1..];
    assert AllCosting(ops, q.burst) == ops;
  }

  /** That run decides differently for the expiry exactly when the burst has not come back by `at`. */
  lemma BurstTwiceDiffersIff(q: Quota, at: nat)
    ensures KeyVerdicts(q, None, BurstTwice(q, at)) != KeyVerdicts(q, None, Uses(BurstTwice(q, at)))
       <==> at * q.count < q.burst * q.window
  {
    hide KeyVerdicts, AlwaysReopensFull, Uses, Telltale;
    BurstTwiceIsIdle(q, at);
    if AlwaysReopensFull(q, BurstTwice(q, at)) {
      DropsUnseenWhenFull(q, None, None, BurstTwice(q, at));
    } else {
      TelltaleTells(q, None, None, BurstTwice(q, at));
    }
  }

  /**
   The store's comment calls dropping a bucket idle for one window lossless. As long as no request
   reads the clock before an expiry and commits after it, that is so for every run exactly when the
   burst does not exceed the count.
   */
  lemma ExpiryLosslessIffBurstWithinCount(q: Quota)
    ensures (forall ops: seq<KeyOp> :: ExpiryIsLossless(q, ops)) <==> q.burst <= q.count
  {
    hide KeyVerdicts, AlwaysReopensFull;
    if q.burst <= q.count {
      forall ops: seq<KeyOp>
        ensures ExpiryIsLossless(q, ops)
      {
        if DropsAreIdle(q, None, ops) && ReadsFollowDrops(ops, 0) {
          IdleEntriesReopenFull(q, None, ops, 0);
          DropsUnseenWhenFull(q, None, None, ops);
        }
      }
    } else {
      BurstTwiceIsIdle(q, q.window);
      BurstTwiceDiffersIff(q, q.window);
      TimesInOrder(q.window, q.count + 1, q.burst);
      Distributes(q.window, q.count, 1);
      assert !ExpiryIsLossless(q, BurstTwice(q, q.window));
    }
  }

  /** In clock order nothing reads a clock older than an expiry it follows, and the same holds. */
  lemma InClockOrderLosslessIff(q: Quota)
    ensures (forall ops: seq<KeyOp> :: InOrder(ops, 0) ==> ExpiryIsLossless(q, ops)) <==> q.burst <= q.count
  {
    hide ExpiryIsLossless, KeyVerdicts, AlwaysReopensFull;
    ExpiryLosslessIffBurstWithinCount(q);
    if q.count < q.burst {
      BurstTwiceIsIdle(q, q.window);
      BurstTwiceDiffersIff(q, q.window);
      TimesInOrder(q.window, q.count + 1, q.burst);
      Distributes(q.window, q.count, 1);
      BurstTwiceInOrder(q);
      LossyIfDiffers(q, BurstTwice(q, q.window));
    }
  }

  lemma LossyIfDiffers(q: Quota, ops: seq<KeyOp>)
    requires DropsAreIdle(q, None, ops) && ReadsFollowDrops(ops, 0)
    requires KeyVerdicts(q, None, ops) != KeyVerdicts(q, None, Uses(ops))
    ensures !ExpiryIsLossless(q, ops)
  {
  }

  lemma BurstTwiceInOrder(q: Quota)
    ensures InOrder(BurstTwice(q, q.window), 0)
  {
    var ops := BurstTwice(q, q.window);
    assert ops[1..][1..][1..] == [] && ops[1..][1..] == [ops[2]] && ops[1..] == [ops[1], ops[2]];
    assert InOrder(ops[1..][1..], q.window);
  }

  /** A reading older than the expiry loses under every quota that grants anything at all. */
  lemma StaleReadingSeesExpiry(q: Quota)
    requires q.burst > 0
    ensures DropsAreIdle(q, None, BurstTwice(q, 0))
    ensures KeyVerdicts(q, None, BurstTwice(q, 0)) != KeyVerdicts(q, None, Uses(BurstTwice(q, 0)))
  {
    hide KeyVerdicts;
    BurstTwiceIsIdle(q, 0);
    BurstTwiceDiffersIff(q, 0);
    TimesInOrder(q.window, 1, q.burst);
  }
}
