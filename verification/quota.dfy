/** Request quotas and the units policies are measured in. */
module Quotas {
  import opened Durations

  /**
   `count` units per `window` nanoseconds, at most `burst` at once. A zero window has no refill
   rate and the crate documents it as out of use, so the type excludes it.
   */
  datatype Quota = Quota(count: nat, window: pos, burst: nat) {
    function AllowBurst(n: nat): Quota {
      this.(burst := n)
    }
  }

  function Per(count: nat, window: pos): Quota {
    Quota(count, window, count)
  }

  function PerSecond(count: nat): Quota {
    Per(count, NANOS_PER_SEC)
  }

  datatype QuotaUnit = Requests | ContentBytes | ConcurrentRequests | Other(token: string) {
    function AsStr(): string {
      match this
      case Requests => "requests"
      case ContentBytes => "content-bytes"
      case ConcurrentRequests => "concurrent-requests"
      case Other(token) => token
    }
  }

  function UnitFromToken(token: string): QuotaUnit {
    if token == "requests" then Requests
    else if token == "content-bytes" then ContentBytes
    else if token == "concurrent-requests" then ConcurrentRequests
    else Other(token)
  }

  /** A unit survives the wire exactly when it is not a registered token dressed up as `Other`. */
  lemma UnitReadsBack(u: QuotaUnit)
    ensures UnitFromToken(u.AsStr()) == u
       <==> (u.Other? ==> u.token !in ["requests", "content-bytes", "concurrent-requests"])
    ensures UnitFromToken("requests") == Requests && UnitFromToken("content-bytes") == ContentBytes
    ensures UnitFromToken("concurrent-requests") == ConcurrentRequests
  {
  }
}
