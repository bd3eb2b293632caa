/** Admitting whenever possible admits the most: no other choice of unit requests does better. */
module Greedy {
  import opened Durations
  import opened Quotas
  import opened Buckets
  import opened Runs

  /** The level request k finds when the requests picked before it, and only those, were charged. */
  function Found(q: Quota, s: Slot, rs: seq<Request>, pick: seq<bool>, k: nat): int
    requires k < |rs| == |pick|
  {
    if k == 0 then Level(q, s, rs[0].at)
    else Min(Found(q, s, rs, pick, k - 1)
             - (if pick[k - 1] then Price(q, rs[k - 1].cost) else 0)
             + Accrued(q, rs[k - 1].at, rs[k].at),
             Capacity(q))
  }

  /** A choice of requests that never takes the bucket below zero. */
  predicate Feasible(q: Quota, s: Slot, rs: seq<Request>, pick: seq<bool>)
    requires |rs| == |pick|
  {
    forall k :: 0 <= k < |rs| && pick[k] ==> Price(q, rs[k].cost) <= Found(q, s, rs, pick, k)
  }

  function Picked(pick: seq<bool>, n: nat): nat
    requires n <= |pick|
  {
    if n == 0 then 0 else Picked(pick, n - 1) + if pick[n - 1] then 1 else 0
  }

  function Worth(w: nat, lead: int): int {
    w * lead
  }

  /** One request: if the surplus was covered by the lead, it still is. */
  lemma LeadStep(w: nat, cap: nat, found: int, available: int, inflow: nat, p: bool, g: bool,
                 lead: int, lead': int)
    requires lead' == lead + (if g then 1 else 0) - (if p then 1 else 0)
    requires lead >= 0 && found - available <= Worth(w, lead)
    requires (p ==> w <= found) && (g <==> w <= available)
    ensures p && !g ==> lead > 0
    ensures lead' >= 0
    ensures Min(found - (if p then w else 0) + inflow, cap) - Min(available - (if g then w else 0) + inflow, cap)
         <= Worth(w, lead')
  {
    assert lead == 0 ==> w * lead == 0;
    Distributes(w, lead, lead' - lead);
    TimesInOrder(w, 0, lead');
  }

  lemma UnitPrice(q: Quota)
    ensures Price(q, 1) == q.window
  {
  }

  lemma FirstFinds(q: Quota, s: Slot, rs: seq<Request>, pick: seq<bool>)
    requires 0 < |rs| == |pick|
    ensures Found(q, s, rs, pick, 0) == Available(q, s, rs, 0)
  {
  }

  lemma NoLead(w: nat)
    ensures Worth(w, 0) == 0
  {
  }

  /**
   No feasible choice admits more in any prefix. It may hold more tokens than the bucket does, but
   never more than the admissions it is behind.
   */
  lemma {:induction false} GreedyIsMaximal(q: Quota, s: Slot, rs: seq<Request>, pick: seq<bool>, n: nat)
    requires n <= |rs| == |pick| && UnitCosts(rs) && Feasible(q, s, rs, pick)
    ensures Picked(pick, n) <= Spent(q, s, rs, 0, n)
    ensures n < |rs| ==>
              Found(q, s, rs, pick, n) - Available(q, s, rs, n)
              <= Worth(q.window, Spent(q, s, rs, 0, n) - Picked(pick, n))
  {
    hide Available, Level, Granted, Accrued, Capacity, Price, Worth;
    if n == 0 {
      if rs != [] {
        FirstFinds(q, s, rs, pick);
        NoLead(q.window);
      }
    } else {
      GreedyIsMaximal(q, s, rs, pick, n - 1);
      UnitPrice(q);
      GrantedIffAvailable(q, s, rs, n - 1);
      assert pick[n - 1] ==> q.window <= Found(q, s, rs, pick, n - 1);
      var inflow := if n < |rs| then Accrued(q, rs[n - 1].at, rs[n].at) else 0;
      LeadStep(q.window, Capacity(q), Found(q, s, rs, pick, n - 1), Available(q, s, rs, n - 1), inflow,
               pick[n - 1], Granted(q, s, rs, n - 1),
               Spent(q, s, rs, 0, n - 1) - Picked(pick, n - 1), Spent(q, s, rs, 0, n) - Picked(pick, n));
      if n < |rs| {
        AvailableStep(q, s, rs, n);
      }
    }
  }

  /** What the bucket grants is itself a feasible choice, so the maximum is attained. */
  lemma {:induction false} GrantsAreFeasible(q: Quota, s: Slot, rs: seq<Request>, pick: seq<bool>, k: nat)
    requires k < |rs| == |pick|
    requires forall i :: 0 <= i < |rs| ==> pick[i] == Granted(q, s, rs, i)
    ensures Found(q, s, rs, pick, k) == Available(q, s, rs, k)
    ensures pick[k] ==> Price(q, rs[k].cost) <= Found(q, s, rs, pick, k)
  {
    if k > 0 {
      GrantsAreFeasible(q, s, rs, pick, k - 1);
      AvailableStep(q, s, rs, k);
    }
  }
}
