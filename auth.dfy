/** Model of the authentication helpers of the agent social service:
    the `X-API-Key` header check and the per-key sliding-window rate limiter.

    Instants are integers counting microseconds, the resolution of
    Python's `datetime`/`timedelta`, so `now - WINDOW` is exact, as
    `datetime - timedelta` is. The limiter's lock is not modelled: one call of `Check` is one
    atomic step, and `now` arrives in the order calls take the lock. */
module Auth {

  /** At most `LIMIT` accepted requests per key ... */
  const LIMIT: nat := 30
  /** ... within any trailing window of one minute, in microseconds. */
  const WINDOW: nat := 60_000_000

  datatype Option<T> = None | Some(value: T)

  /** The HTTP error the service answers with. */
  datatype HttpError = HttpError(status: int, detail: string)

  datatype Result<T> = Ok(value: T) | Err(error: HttpError)

  const MissingApiKey := HttpError(401, "Missing X-API-Key")

  /** The credential check in front of every write route: an absent or
      empty header is refused with 401, anything else is the key. */
  function RequireApiKey(header: Option<string>): (r: Result<string>)
    ensures r.Err? <==> (header == None || header == Some(""))
    ensures r.Err? ==> r.error == MissingApiKey
    ensures r.Ok? ==> header == Some(r.value) && |r.value| > 0
  {
    if header.None? || header.value == "" then Err(MissingApiKey)
    else Ok(header.value)
  }

  // ---------------------------------------------------------------------
  // Specification of one rate-limit check, on the value of the hit table
  // ---------------------------------------------------------------------

  /** The timestamps of `ts` strictly later than `cutoff`, in their
      original order. */
  function Unexpired(ts: seq<int>, cutoff: int): (r: seq<int>)
    ensures |r| <= |ts|
    ensures forall i :: 0 <= i < |r| ==> r[i] > cutoff
  {
    if ts == [] then []
    else if ts[0] > cutoff then [ts[0]] + Unexpired(ts[1..], cutoff)
    else Unexpired(ts[1..], cutoff)
  }

  /** What the table holds for `key`; a key never seen has no timestamps. */
  function Stored(hits: map<string, seq<int>>, key: string): (s: seq<int>)
  {
    if key in hits then hits[key] else []
  }

  /** The key's timestamps that survive pruning at instant `now`. */
  function Window(hits: map<string, seq<int>>, key: string, now: int): (w: seq<int>)
  {
    Unexpired(Stored(hits, key), now - WINDOW)
  }

  /** Whether a request for `key` at `now` is let through. */
  predicate Accepts(hits: map<string, seq<int>>, key: string, now: int)
  {
    |Window(hits, key, now)| < LIMIT
  }

  /** The hit table after a request for `key` at `now`: untouched on
      rejection; otherwise the key's pruned list with `now` appended. */
  function After(hits: map<string, seq<int>>, key: string, now: int): (h: map<string, seq<int>>)
  {
    if Accepts(hits, key, now) then hits[key := Window(hits, key, now) + [now]]
    else hits
  }

  /** The invariant the table keeps: no key holds more than `LIMIT` entries. */
  ghost predicate WithinQuota(hits: map<string, seq<int>>)
  {
    forall k :: k in hits ==> |hits[k]| <= LIMIT
  }

  lemma {:induction false} UnexpiredAppend(ts: seq<int>, t: int, cutoff: int)
    ensures Unexpired(ts + [t], cutoff)
         == Unexpired(ts, cutoff) + (if t > cutoff then [t] else [])
  {
    if ts != [] {
      assert (ts + [t])[1..] == ts[1..] + [t];
      UnexpiredAppend(ts[1..], t, cutoff);
    }
  }

  /** The list comprehension that prunes a key's timestamps. */
  method Prune(ts: seq<int>, cutoff: int) returns (kept: seq<int>)
    ensures kept == Unexpired(ts, cutoff)
  {
    kept := [];
    var i := 0;
    while i < |ts|
      invariant 0 <= i <= |ts|
      invariant kept == Unexpired(ts[..i], cutoff)
    {
      assert ts[..i + 1] == ts[..i] + [ts[i]];
      UnexpiredAppend(ts[..i], ts[i], cutoff);
      if ts[i] > cutoff {
        kept := kept + [ts[i]];
      }
      i := i + 1;
    }
    assert ts[..i] == ts;
  }

  // ---------------------------------------------------------------------
  // The limiter's state and its one operation
  // ---------------------------------------------------------------------

  /** The process-wide table from API key to the instants of its recent
      accepted requests. */
  class RateLimiter {
    var hits: map<string, seq<int>>

    ghost predicate Valid()
      reads this
    {
      WithinQuota(hits)
    }

    constructor ()
      ensures hits == map[] && Valid()
    {
      hits := map[];
    }

    /** One rate-limit check for `key` at instant `now`; `false` is the
        429 answer. A rejected request records nothing. */
    method Check(key: string, now: int) returns (accepted: bool)
      requires Valid()
      modifies this
      ensures Valid()
      ensures accepted == Accepts(old(hits), key, now)
      ensures hits == After(old(hits), key, now)
    {
      var cutoff := now - WINDOW;
      var arr := if key in hits then hits[key] else [];
      arr := Prune(arr, cutoff);
      if |arr| >= LIMIT {
        accepted := false;
        return;
      }
      arr := arr + [now];
      hits := hits[key := arr];
      accepted := true;
    }
  }
}
