/**
 When two slots cannot be told apart, and what follows from it: refills compose, so a denied
 attempt leaves nothing behind as long as the clock never runs backwards.
 */
module Equivalence {
  import opened Wrappers
  import opened Durations
  import opened Quotas
  import opened Buckets
  import opened Runs

  predicate UpdatedBy(s: Slot, t: nat) {
    s.Some? ==> s.value.updated <= t
  }

  /** From t on, no request can tell the two slots apart. */
  predicate SameFrom(q: Quota, s: Slot, s': Slot, t: nat) {
    UpdatedBy(s, t) && UpdatedBy(s', t) && Level(q, s, t) == Level(q, s', t)
  }

  /** Refilling to t and then to u is refilling straight to u. */
  lemma RefillComposes(q: Quota, s: Slot, t: nat, u: nat)
    requires UpdatedBy(s, t) && t <= u
    ensures Level(q, s, u) == Min(Level(q, s, t) + Accrued(q, t, u), Capacity(q))
  {
    if s.Some? {
      Distributes(q.count, Since(s.value.updated, t), Since(t, u));
    }
  }

  lemma SameLater(q: Quota, s: Slot, s': Slot, t: nat, u: nat)
    requires SameFrom(q, s, s', t) && t <= u
    ensures SameFrom(q, s, s', u)
  {
    RefillComposes(q, s, t, u);
    RefillComposes(q, s', t, u);
  }

  /** The same request gets the same answer and leaves the slots alike. */
  lemma ServeKeepsSame(q: Quota, s: Slot, s': Slot, t: nat, r: Request)
    requires SameFrom(q, s, s', t) && t <= r.at
    ensures Grants(q, s, r) == Grants(q, s', r)
    ensures SameFrom(q, Serve(q, s, r), Serve(q, s', r), r.at)
  {
    SameLater(q, s, s', t, r.at);
  }

  lemma DeniedKeepsSame(q: Quota, s: Slot, s': Slot, t: nat, r: Request)
    requires SameFrom(q, s, s', t) && t <= r.at && !Grants(q, s, r)
    ensures SameFrom(q, Serve(q, s, r), s', r.at)
  {
    SameLater(q, s, s', t, r.at);
  }

  // ---------------------------------------------------------------- leaving denied requests out

  /** The first n elements without those whose flag is down. */
  function Kept<T>(xs: seq<T>, keep: seq<bool>, n: nat): seq<T>
    requires n <= |xs| == |keep|
  {
    if n == 0 then [] else Kept(xs, keep, n - 1) + if keep[n - 1] then [xs[n - 1]] else []
  }

  function Verdicts(q: Quota, s: Slot, rs: seq<Request>, n: nat): (vs: seq<bool>)
    requires n <= |rs|
    ensures |vs| == n && forall k :: 0 <= k < n ==> vs[k] == Granted(q, s, rs, k)
  {
    seq(n, k requires 0 <= k < n => Granted(q, s, rs, k))
  }

  lemma {:induction false} AfterPrefix(q: Quota, s: Slot, rs: seq<Request>, more: seq<Request>, n: nat)
    requires n <= |rs|
    ensures After(q, s, rs + more, n) == After(q, s, rs, n)
  {
    if n > 0 {
      AfterPrefix(q, s, rs, more, n - 1);
    }
  }

  lemma OneMoreVerdict(q: Quota, s: Slot, rs: seq<Request>, r: Request)
    ensures After(q, s, rs + [r], |rs| + 1) == Serve(q, After(q, s, rs, |rs|), r)
    ensures Verdicts(q, s, rs + [r], |rs| + 1)
         == Verdicts(q, s, rs, |rs|) + [Grants(q, After(q, s, rs, |rs|), r)]
  {
    hide Serve, Grants;
    forall k | 0 <= k <= |rs|
      ensures After(q, s, rs + [r], k) == After(q, s, rs, k)
    {
      AfterPrefix(q, s, rs, [r], k);
    }
  }

  function ClockAt(rs: seq<Request>, start: nat, n: nat): nat
    requires n <= |rs|
  {
    if n == 0 then start else rs[n - 1].at
  }

  /**
   Deleting any denied requests from a run in clock order changes no other decision, nor the level
   anyone finds later.
   */
  lemma {:induction false} DeniedLeaveNoTrace(q: Quota, s: Slot, rs: seq<Request>, keep: seq<bool>, start: nat, n: nat)
    requires n <= |rs| == |keep| && Monotone(rs)
    requires UpdatedBy(s, start) && (rs != [] ==> start <= rs[0].at)
    requires forall k :: 0 <= k < |rs| && !keep[k] ==> !Granted(q, s, rs, k)
    ensures var kept := Kept(rs, keep, n);
      && SameFrom(q, After(q, s, rs, n), After(q, s, kept, |kept|), ClockAt(rs, start, n))
      && Verdicts(q, s, kept, |kept|) == Kept(Verdicts(q, s, rs, |rs|), keep, n)
  {
    hide SameFrom, Serve, Grants;
    if n == 0 {
      SameAsItself(q, s, start);
    } else {
      DeniedLeaveNoTrace(q, s, rs, keep, start, n - 1);
      var kept, r := Kept(rs, keep, n - 1), rs[n - 1];
      var now, instead := After(q, s, rs, n - 1), After(q, s, kept, |kept|);
      if keep[n - 1] {
        ServeKeepsSame(q, now, instead, ClockAt(rs, start, n - 1), r);
        OneMoreVerdict(q, s, kept, r);
      } else {
        DeniedKeepsSame(q, now, instead, ClockAt(rs, start, n - 1), r);
        assert kept + [] == kept;
      }
    }
  }

  lemma SameAsItself(q: Quota, s: Slot, t: nat)
    requires UpdatedBy(s, t)
    ensures SameFrom(q, s, s, t)
  {
  }

  /** In clock order, no later reading finds another level than if the attempt had not been made. */
  ghost predicate NoTrace(q: Quota, s: Slot, r: Request) {
    forall t: nat :: r.at <= t && UpdatedBy(s, t) ==> Level(q, Serve(q, s, r), t) == Level(q, s, t)
  }

  /**
   To readings in clock order one denied attempt leaves no trace exactly when it does not rewind, or
   there is nothing to gain by it.
   */
  lemma DeniedLeavesNoTraceIff(q: Quota, s: Slot, r: Request)
    requires !Grants(q, s, r)
    ensures NoTrace(q, s, r) <==> UpdatedBy(s, r.at) || q.count == 0 || Capacity(q) <= s.value.level
  {
    if UpdatedBy(s, r.at) {
      forall t: nat | r.at <= t
        ensures Level(q, Serve(q, s, r), t) == Level(q, s, t)
      {
        RefillComposes(q, s, r.at, t);
      }
    } else if q.count > 0 && s.value.level < Capacity(q) {
      var t := s.value.updated;
      TimesInOrder(q.count, 1, t - r.at);
      assert Level(q, s, t) < Level(q, Serve(q, s, r), t);
    }
  }

  /** No reading at all, in clock order or not, finds another level. */
  ghost predicate NoTraceAtAnyReading(q: Quota, s: Slot, r: Request) {
    forall t: nat :: Level(q, Serve(q, s, r), t) == Level(q, s, t)
  }

  /**
   To stale readings as well, exactly when it leaves the clock where it was, or there is nothing to
   gain by moving it either way.
   */
  lemma DeniedLeavesNoTraceAtAnyReadingIff(q: Quota, s: Slot, r: Request)
    requires !Grants(q, s, r)
    ensures NoTraceAtAnyReading(q, s, r)
       <==> s == None || s.value.updated == r.at || q.count == 0 || Capacity(q) <= s.value.level
  {
    if s == None || s.value.updated == r.at || q.count == 0 || Capacity(q) <= s.value.level {
      forall t: nat
        ensures Level(q, Serve(q, s, r), t) == Level(q, s, t)
      {
      }
    } else {
      var u := s.value.updated;
      TimesInOrder(q.count, 1, Max(r.at, u) - Min(r.at, u));
      assert Level(q, s, u) < Level(q, Serve(q, s, r), u);
    }
  }

  /** A denial that does not rewind can admit a commit with an older reading: the refill it took is kept. */
  lemma AdvancedDenialLeavesTrace()
    ensures var q := Per(2, 10); var empty := Some(BucketState(0, 0));
      && !Grants(q, empty, Request(9, 2)) && UpdatedBy(empty, 9)
      && !Grants(q, empty, Request(4, 1))
      && Grants(q, Serve(q, empty, Request(9, 2)), Request(4, 1))
  {
    var q := Per(2, 10);
    assert Serve(q, Some(BucketState(0, 0)), Request(9, 2)) == Some(BucketState(18, 9));
  }

  /** A denied attempt that carries an older reading does leave a trace: it rewinds the bucket. */
  lemma RewoundDenialLeavesTrace()
    ensures var q := Per(1, 10); var empty := Some(BucketState(0, 10));
      && !Grants(q, empty, Request(0, 1))
      && !Grants(q, empty, Request(10, 1))
      && Grants(q, Serve(q, empty, Request(0, 1)), Request(10, 1))
  {
    var q := Per(1, 10);
    assert Serve(q, Some(BucketState(0, 10)), Request(0, 1)) == Some(BucketState(0, 0));
  }
}
