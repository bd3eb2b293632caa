/**
 Every interleaving of concurrent requests on one store.

 A request samples the clock first and commits under its key's lock later, so other requests, ticks
 and dropped entries may fall in between and commits need not come in the order of their samples.
 */
module Interleavings {
  import opened Wrappers
  import opened Durations
  import opened Quotas
  import opened Buckets
  import opened Runs
  import opened Equivalence
  import opened Stores
  import opened KeyRuns

  datatype Pending<K> = Pending(key: K, request: Request)

  datatype World<K> = World(clock: nat, pending: map<nat, Pending<K>>, slots: map<K, BucketState>)

  datatype Step<K> =
    | Tick(elapsed: nat)
    | Sample(id: nat, key: K, cost: nat)
    | Commit(id: nat)
    | Discard(key: K)

  predicate Enabled<K>(w: World<K>, step: Step<K>) {
    match step
    case Sample(id, _, _) => id !in w.pending
    case Commit(id) => id in w.pending
    case _ => true
  }

  function Next<K>(q: Quota, w: World<K>, step: Step<K>): World<K>
    requires Enabled(w, step)
  {
    match step
    case Tick(elapsed) => w.(clock := w.clock + elapsed)
    case Sample(id, key, cost) => w.(pending := w.pending[id := Pending(key, Request(w.clock, cost))])
    case Commit(id) =>
      var p := w.pending[id];
      w.(pending := w.pending - {id}, slots := Served(q, w.slots, p.key, p.request.at, p.request.cost))
    case Discard(key) => w.(slots := w.slots - {key})
  }

  predicate Legal<K>(q: Quota, w: World<K>, steps: seq<Step<K>>)
    decreases steps
  {
    steps != [] ==> Enabled(w, steps[0]) && Legal(q, Next(q, w, steps[0]), steps[1..])
  }

  function Final<K>(q: Quota, w: World<K>, steps: seq<Step<K>>): World<K>
    requires Legal(q, w, steps)
    decreases steps
  {
    if steps == [] then w else Final(q, Next(q, w, steps[0]), steps[1..])
  }

  /** The decisions on key k, in commit order. */
  function DecisionsOn<K>(q: Quota, w: World<K>, steps: seq<Step<K>>, k: K): seq<bool>
    requires Legal(q, w, steps)
    decreases steps
  {
    if steps == [] then []
    else (if steps[0].Commit? && w.pending[steps[0].id].key == k
          then [Grants(q, Lookup(w.slots, k), w.pending[steps[0].id].request)] else [])
         + DecisionsOn(q, Next(q, w, steps[0]), steps[1..], k)
  }

  /** The cost admitted on key k. */
  function AdmittedOn<K>(q: Quota, w: World<K>, steps: seq<Step<K>>, k: K): nat
    requires Legal(q, w, steps)
    decreases steps
  {
    if steps == [] then 0
    else (if steps[0].Commit? && w.pending[steps[0].id].key == k
             && Grants(q, Lookup(w.slots, k), w.pending[steps[0].id].request)
          then w.pending[steps[0].id].request.cost else 0)
         + AdmittedOn(q, Next(q, w, steps[0]), steps[1..], k)
  }

  function OpOn<K>(w: World<K>, step: Step<K>, k: K): seq<KeyOp>
    requires Enabled(w, step)
  {
    match step
    case Commit(id) => if w.pending[id].key == k then [Use(w.pending[id].request)] else []
    case Discard(key) => if key == k then [Drop(w.clock)] else []
    case _ => []
  }

  /** What happens to key k's slot. */
  function OpsOn<K>(q: Quota, w: World<K>, steps: seq<Step<K>>, k: K): seq<KeyOp>
    requires Legal(q, w, steps)
    decreases steps
  {
    if steps == [] then [] else OpOn(w, steps[0], k) + OpsOn(q, Next(q, w, steps[0]), steps[1..], k)
  }

  /** Each key of an interleaved run behaves exactly as a single bucket running its own operations. */
  lemma {:induction false} RunsProjectPerKey<K>(q: Quota, w: World<K>, steps: seq<Step<K>>, k: K)
    requires Legal(q, w, steps)
    ensures var ops := OpsOn(q, w, steps, k);
      && Lookup(Final(q, w, steps).slots, k) == KeyAfter(q, Lookup(w.slots, k), ops)
      && DecisionsOn(q, w, steps, k) == KeyVerdicts(q, Lookup(w.slots, k), ops)
      && AdmittedOn(q, w, steps, k) == KeyGranted(q, Lookup(w.slots, k), ops)
    decreases steps
  {
    hide Consume, Grants;
    if steps != [] {
      var w' := Next(q, w, steps[0]);
      var op, rest := OpOn(w, steps[0], k), OpsOn(q, w', steps[1..], k);
      RunsProjectPerKey(q, w', steps[1..], k);
      if op == [] {
        assert [] + rest == rest;
        assert Lookup(w'.slots, k) == Lookup(w.slots, k);
      } else {
        assert (op + rest)[1..] == rest;
        assert Lookup(w'.slots, k) == KeyStep(q, Lookup(w.slots, k), op[0]);
      }
    }
  }

  // ---------------------------------------------------------------- bounds on a key never dropped

  predicate NeverDropped<K(==)>(steps: seq<Step<K>>, k: K) {
    Discard(k) !in steps
  }

  /** The requests committed on key k, with the clock readings they sampled. */
  function CommitsOn<K>(q: Quota, w: World<K>, steps: seq<Step<K>>, k: K): seq<Request>
    requires Legal(q, w, steps)
  {
    Requests(OpsOn(q, w, steps, k))
  }

  function Requests(ops: seq<KeyOp>): seq<Request> {
    if ops == [] then [] else (if ops[0].Use? then [ops[0].request] else []) + Requests(ops[1..])
  }

  lemma {:induction false} NoDropsOn<K>(q: Quota, w: World<K>, steps: seq<Step<K>>, k: K)
    requires Legal(q, w, steps) && NeverDropped(steps, k)
    ensures Uses(OpsOn(q, w, steps, k)) == OpsOn(q, w, steps, k)
    decreases steps
  {
    if steps != [] {
      var w' := Next(q, w, steps[0]);
      NoDropsOn(q, w', steps[1..], k);
      var op, rest := OpOn(w, steps[0], k), OpsOn(q, w', steps[1..], k);
      if op == [] {
        assert op + rest == rest;
      } else {
        assert (op + rest)[1..] == rest;
      }
    }
  }

  lemma {:induction false} AfterFirst(q: Quota, s: Slot, rs: seq<Request>, n: nat)
    requires 0 < n <= |rs|
    ensures After(q, s, rs, n) == After(q, Serve(q, s, rs[0]), rs[1..], n - 1)
  {
    hide Serve;
    if n > 1 {
      AfterFirst(q, s, rs, n - 1);
    }
  }

  /** A key's run of uses is a bucket run on its requests. */
  lemma {:induction false} UsesAreARun(q: Quota, s: Slot, ops: seq<KeyOp>)
    requires Uses(ops) == ops
    ensures KeyVerdicts(q, s, ops) == Verdicts(q, s, Requests(ops), |Requests(ops)|)
    decreases ops
  {
    hide Verdicts, Grants, Serve;
    if ops == [] {
      NoVerdicts(q, s);
    } else {
      UsesLength(ops[1..]);
      assert ops[0].Use? && Uses(ops[1..]) == ops[1..] by {
        assert Uses(ops)[0] == ops[0];
      }
      UsesAreARun(q, KeyStep(q, s, ops[0]), ops[1..]);
      assert Requests(ops)[1..] == Requests(ops[1..]);
      VerdictsUnfold(q, s, Requests(ops));
    }
  }

  lemma NoVerdicts(q: Quota, s: Slot)
    ensures Verdicts(q, s, [], 0) == []
  {
  }

  lemma VerdictsUnfold(q: Quota, s: Slot, rs: seq<Request>)
    requires rs != []
    ensures Verdicts(q, s, rs, |rs|) == [Grants(q, s, rs[0])] + Verdicts(q, Serve(q, s, rs[0]), rs[1..], |rs| - 1)
  {
    hide Serve, Grants;
    forall k | 0 < k < |rs|
      ensures Verdicts(q, s, rs, |rs|)[k] == Verdicts(q, Serve(q, s, rs[0]), rs[1..], |rs| - 1)[k - 1]
    {
      AfterFirst(q, s, rs, k);
    }
  }

  lemma {:induction false} UsesLength(ops: seq<KeyOp>)
    ensures |Uses(ops)| <= |ops|
    ensures forall i :: 0 <= i < |Uses(ops)| ==> Uses(ops)[i].Use?
  {
    if ops != [] {
      UsesLength(ops[1..]);
    }
  }

  /** Cost admitted among commits i..j, read off the decisions themselves. */
  function Admitted(rs: seq<Request>, verdicts: seq<bool>, i: nat, j: nat): nat
    requires i <= j <= |rs| == |verdicts|
  {
    if i == j then 0 else Admitted(rs, verdicts, i, j - 1) + if verdicts[j - 1] then rs[j - 1].cost else 0
  }

  lemma {:induction false} AdmittedIsSpent(q: Quota, s: Slot, rs: seq<Request>, i: nat, j: nat)
    requires i <= j <= |rs|
    ensures Admitted(rs, Verdicts(q, s, rs, |rs|), i, j) == Spent(q, s, rs, i, j)
  {
    if i < j {
      AdmittedIsSpent(q, s, rs, i, j - 1);
    }
  }

  lemma CommitsAreARun<K>(q: Quota, w: World<K>, steps: seq<Step<K>>, k: K)
    requires Legal(q, w, steps) && NeverDropped(steps, k)
    ensures var rs := CommitsOn(q, w, steps, k);
      DecisionsOn(q, w, steps, k) == Verdicts(q, Lookup(w.slots, k), rs, |rs|)
  {
    RunsProjectPerKey(q, w, steps, k);
    NoDropsOn(q, w, steps, k);
    UsesAreARun(q, Lookup(w.slots, k), OpsOn(q, w, steps, k));
  }

  /**
   Whatever the interleaving, commits i..j of a key admit at most burst plus the refill of the
   forward steps between the readings they carry. If they commit in the order they sampled, that is
   burst plus the refill of the time between the first and the last.
   */
  lemma ConcurrentBound<K>(q: Quota, w: World<K>, steps: seq<Step<K>>, k: K, i: nat, j: nat)
    requires Legal(q, w, steps) && NeverDropped(steps, k)
    requires i <= j < |CommitsOn(q, w, steps, k)|
    ensures var rs, vs := CommitsOn(q, w, steps, k), DecisionsOn(q, w, steps, k);
      && |vs| == |rs|
      && q.window * Admitted(rs, vs, i, j + 1) <= q.window * q.burst + q.count * Forward(rs, i, j)
      && ((forall a, b :: i <= a <= b <= j ==> rs[a].at <= rs[b].at) ==>
            q.window * Admitted(rs, vs, i, j + 1) <= q.window * q.burst + q.count * (rs[j].at - rs[i].at))
  {
    hide DecisionsOn, CommitsOn, Verdicts, Forward, Admitted, Legal;
    CommitsAreARun(q, w, steps, k);
    RunBound(q, Lookup(w.slots, k), CommitsOn(q, w, steps, k), i, j);
  }

  lemma RunBound(q: Quota, s: Slot, rs: seq<Request>, i: nat, j: nat)
    requires i <= j < |rs|
    ensures var admitted := Admitted(rs, Verdicts(q, s, rs, |rs|), i, j + 1);
      && q.window * admitted <= q.window * q.burst + q.count * Forward(rs, i, j)
      && ((forall a, b :: i <= a <= b <= j ==> rs[a].at <= rs[b].at) ==>
            q.window * admitted <= q.window * q.burst + q.count * (rs[j].at - rs[i].at))
  {
    hide Verdicts, Forward, Admitted, Spent;
    AdmittedIsSpent(q, s, rs, i, j + 1);
    SpentIsBounded(q, s, rs, i, j);
    if forall a, b :: i <= a <= b <= j ==> rs[a].at <= rs[b].at {
      ForwardIsSpan(rs, i, j);
    }
  }

  // ---------------------------------------------------------------- expiry over a whole store

  function WithoutDiscards<K>(steps: seq<Step<K>>): seq<Step<K>> {
    if steps == [] then []
    else (if steps[0].Discard? then [] else [steps[0]]) + WithoutDiscards(steps[1..])
  }

  lemma {:induction false} DiscardsOnlyDrop<K>(q: Quota, w: World<K>, w': World<K>, steps: seq<Step<K>>, k: K)
    requires w.clock == w'.clock && w.pending == w'.pending
    requires Legal(q, w, steps)
    ensures Legal(q, w', WithoutDiscards(steps))
    ensures OpsOn(q, w', WithoutDiscards(steps), k) == Uses(OpsOn(q, w, steps, k))
    decreases steps
  {
    hide Served;
    if steps != [] {
      var op, rest := OpOn(w, steps[0], k), OpsOn(q, Next(q, w, steps[0]), steps[1..], k);
      if steps[0].Discard? {
        DiscardsOnlyDrop(q, Next(q, w, steps[0]), w', steps[1..], k);
        assert WithoutDiscards(steps) == WithoutDiscards(steps[1..]);
      } else {
        DiscardsOnlyDrop(q, Next(q, w, steps[0]), Next(q, w', steps[0]), steps[1..], k);
        assert WithoutDiscards(steps)[1..] == WithoutDiscards(steps[1..]);
      }
      if op == [] {
        assert op + rest == rest;
      } else {
        assert (op + rest)[1..] == rest;
      }
    }
  }

  /**
   Whatever was dropped and why, a key decides as in the same store never dropping anything, provided
   each commit that reopens its entry carries a reading a whole refill after the last before.
   */
  lemma StoreDropsUnseen<K>(q: Quota, w: World<K>, steps: seq<Step<K>>, k: K)
    requires Legal(q, w, steps) && AlwaysReopensFull(q, OpsOn(q, w, steps, k))
    requires k in w.slots ==> ReopensFull(q, w.slots[k].updated, OpsOn(q, w, steps, k))
    ensures Legal(q, w, WithoutDiscards(steps))
    ensures DecisionsOn(q, w, steps, k) == DecisionsOn(q, w, WithoutDiscards(steps), k)
  {
    hide DecisionsOn, AlwaysReopensFull, ReopensFull, KeyVerdicts, WithoutDiscards;
    DiscardsOnlyDrop(q, w, w, steps, k);
    RunsProjectPerKey(q, w, steps, k);
    RunsProjectPerKey(q, w, WithoutDiscards(steps), k);
    DropsUnseenWhenFull(q, Lookup(w.slots, k), Lookup(w.slots, k), OpsOn(q, w, steps, k));
  }

  /**
   With burst within count, idle expiry is such a drop, unless a request samples the clock before its
   key expires and commits after it.
   */
  lemma StoreExpiryIsLossless<K>(q: Quota, w: World<K>, steps: seq<Step<K>>, k: K)
    requires q.burst <= q.count && Legal(q, w, steps)
    requires DropsAreIdle(q, Lookup(w.slots, k), OpsOn(q, w, steps, k))
    requires ReadsFollowDrops(OpsOn(q, w, steps, k), 0)
    ensures Legal(q, w, WithoutDiscards(steps))
    ensures DecisionsOn(q, w, steps, k) == DecisionsOn(q, w, WithoutDiscards(steps), k)
  {
    hide DecisionsOn, AlwaysReopensFull, ReopensFull, WithoutDiscards, DropsAreIdle, ReadsFollowDrops;
    IdleEntriesReopenFull(q, Lookup(w.slots, k), OpsOn(q, w, steps, k), 0);
    StoreDropsUnseen(q, w, steps, k);
  }

  /** In particular when the key's commits and expiries come in clock order. */
  lemma StoreExpiryIsLosslessInClockOrder<K>(q: Quota, w: World<K>, steps: seq<Step<K>>, k: K, t: nat)
    requires q.burst <= q.count && Legal(q, w, steps)
    requires DropsAreIdle(q, Lookup(w.slots, k), OpsOn(q, w, steps, k)) && InOrder(OpsOn(q, w, steps, k), t)
    ensures Legal(q, w, WithoutDiscards(steps))
    ensures DecisionsOn(q, w, steps, k) == DecisionsOn(q, w, WithoutDiscards(steps), k)
  {
    InOrderReadsFollowDrops(OpsOn(q, w, steps, k), t, 0);
    StoreExpiryIsLossless(q, w, steps, k);
  }

  /** However often its entry is dropped, a key in clock order is admitted a burst more per drop at most. */
  lemma StoreEvictionBound<K>(q: Quota, w: World<K>, steps: seq<Step<K>>, k: K, t: nat)
    requires Legal(q, w, steps) && UpdatedBy(Lookup(w.slots, k), t) && InOrder(OpsOn(q, w, steps, k), t)
    ensures var ops := OpsOn(q, w, steps, k);
      && t <= EndTime(ops, t)
      && q.window * AdmittedOn(q, w, steps, k)
         <= q.window * (q.burst * (1 + Drops(ops))) + q.count * (EndTime(ops, t) - t)
  {
    hide AdmittedOn, KeyGranted, OpsOn, Legal;
    RunsProjectPerKey(q, w, steps, k);
    EvictionsCostABurstEach(q, Lookup(w.slots, k), OpsOn(q, w, steps, k), t);
  }

  /**
   The bound on every interleaving there is, dropped entries and stale readings together: a burst to
   begin with and one per drop, plus the refill of the readings' forward steps between drops.
   */
  lemma AnyInterleavingBound<K>(q: Quota, w: World<K>, steps: seq<Step<K>>, k: K)
    requires Legal(q, w, steps)
    ensures var ops := OpsOn(q, w, steps, k);
      q.window * AdmittedOn(q, w, steps, k)
      <= q.window * (q.burst * (1 + Drops(ops))) + q.count * Advance(LastReading(Lookup(w.slots, k)), ops)
  {
    hide AdmittedOn, KeyGranted, OpsOn, Legal, Advance, Drops, Held;
    RunsProjectPerKey(q, w, steps, k);
    var s, ops := Lookup(w.slots, k), OpsOn(q, w, steps, k);
    AnyRunIsPaidFor(q, s, ops);
    DroppedHoldsAll(q, s);
    Distributes(q.burst, 1, Drops(ops));
    Distributes(q.window, q.burst, q.burst * Drops(ops));
    TimesAssociates(q.window, q.burst, Drops(ops));
  }

  // ---------------------------------------------------------------- what a stale commit costs

  /**
   The store's comment says concurrent calls on one key cannot over-admit. A commit that carries an
   older reading rewinds the bucket even when it is denied, and the span is then refilled twice:
   here two requests that both sampled at 10 are admitted from a bucket of burst 1.
   */
  function StaleSteps(): seq<Step<int>> {
    [Sample(0, 7, 1), Tick(10), Sample(1, 7, 1), Commit(1), Commit(0), Sample(2, 7, 1), Commit(2)]
  }

  /** One step of a run, unfolded for a key. */
  lemma Unfold<K>(q: Quota, w: World<K>, steps: seq<Step<K>>, step: Step<K>, rest: seq<Step<K>>, k: K)
    requires steps == [step] + rest && Enabled(w, step) && Legal(q, Next(q, w, step), rest)
    ensures Legal(q, w, steps)
    ensures CommitsOn(q, w, steps, k)
         == (if step.Commit? && w.pending[step.id].key == k then [w.pending[step.id].request] else [])
            + CommitsOn(q, Next(q, w, step), rest, k)
    ensures DecisionsOn(q, w, steps, k)
         == (if step.Commit? && w.pending[step.id].key == k
             then [Grants(q, Lookup(w.slots, k), w.pending[step.id].request)] else [])
            + DecisionsOn(q, Next(q, w, step), rest, k)
  {
    assert steps[1..] == rest;
    var op, ops := OpOn(w, step, k), OpsOn(q, Next(q, w, step), rest, k);
    if op != [] {
      assert (op + ops)[1..] == ops;
    } else {
      assert op + ops == ops;
    }
  }

  lemma NothingLeft<K>(q: Quota, w: World<K>, k: K)
    ensures Legal(q, w, []) && CommitsOn(q, w, [], k) == [] && DecisionsOn(q, w, [], k) == []
  {
  }

  lemma StaleCommitOverAdmits()
    ensures var q, w := Per(1, 10), World(0, map[], map[]);
      && Legal(q, w, StaleSteps())
      && CommitsOn(q, w, StaleSteps(), 7) == [Request(10, 1), Request(0, 1), Request(10, 1)]
      && DecisionsOn(q, w, StaleSteps(), 7) == [true, false, true]
  {
    hide CommitsOn, DecisionsOn, Legal;
    var q, s := Per(1, 10), StaleSteps();
    var w0: World<int> := World(0, map[], map[]);
    var w1 := Next(q, w0, s[0]);
    var w2 := Next(q, w1, s[1]);
    var w3 := Next(q, w2, s[2]);
    var w4 := Next(q, w3, s[3]);
    assert w4.slots == map[7 := BucketState(0, 10)];
    var w5 := Next(q, w4, s[4]);
    assert w5.slots == map[7 := BucketState(0, 0)];
    var w6 := Next(q, w5, s[5]);
    NothingLeft(q, Next(q, w6, s[6]), 7);
    Unfold(q, w6, s[6..], s[6], [], 7);
    Unfold(q, w5, s[5..], s[5], s[6..], 7);
    Unfold(q, w4, s[4..], s[4], s[5..], 7);
    Unfold(q, w3, s[3..], s[3], s[4..], 7);
    Unfold(q, w2, s[2..], s[2], s[3..], 7);
    Unfold(q, w1, s[1..], s[1], s[2..], 7);
    Unfold(q, w0, s, s[0], s[1..], 7);
  }
}
