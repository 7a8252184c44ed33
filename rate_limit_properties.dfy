/** What the rate limiter of module `Auth` guarantees, stated about the
    specification functions `Unexpired`, `Accepts` and `After` that the
    limiter's `Check` method is proved to follow. */
module RateLimitProperties {
  import opened Auth

  // ---------------------------------------------------------------------
  // Pruning
  // ---------------------------------------------------------------------

  /** `a` is `b` with some elements left out, the rest in the same order. */
  predicate IsSubsequence(a: seq<int>, b: seq<int>)
  {
    if a == [] then true
    else if b == [] then false
    else if a[0] == b[0] then IsSubsequence(a[1..], b[1..])
    else IsSubsequence(a, b[1..])
  }

  predicate Sorted(s: seq<int>)
  {
    forall i, j :: 0 <= i < j < |s| ==> s[i] <= s[j]
  }

  /** Pruning keeps exactly the timestamps strictly later than the cutoff,
      each as often as it occurs; one exactly at the cutoff is dropped. */
  lemma {:induction false} UnexpiredKeepsExactlyLive(ts: seq<int>, cutoff: int)
    ensures forall t :: multiset(Unexpired(ts, cutoff))[t]
                        == if t > cutoff then multiset(ts)[t] else 0
    ensures forall t :: t in Unexpired(ts, cutoff) <==> t in ts && t > cutoff
  {
    if ts != [] {
      UnexpiredKeepsExactlyLive(ts[1..], cutoff);
      assert ts == [ts[0]] + ts[1..];
      assert multiset(ts) == multiset{ts[0]} + multiset(ts[1..]);
    }
  }

  /** Surviving timestamps keep their relative order. */
  lemma {:induction false} UnexpiredKeepsOrder(ts: seq<int>, cutoff: int)
    ensures IsSubsequence(Unexpired(ts, cutoff), ts)
  {
    if ts != [] {
      UnexpiredKeepsOrder(ts[1..], cutoff);
      var rest := Unexpired(ts[1..], cutoff);
      if ts[0] > cutoff {
        assert ([ts[0]] + rest)[1..] == rest;
      } else if rest != [] {
        // rest[0] > cutoff >= ts[0], so the head of ts is skipped
        assert rest[0] != ts[0];
      }
    }
  }

  /** Pruning leaves nothing exactly when every timestamp has expired. */
  lemma {:induction false} UnexpiredEmptyIff(ts: seq<int>, cutoff: int)
    ensures Unexpired(ts, cutoff) == [] <==> forall i :: 0 <= i < |ts| ==> ts[i] <= cutoff
  {
    if ts != [] {
      UnexpiredEmptyIff(ts[1..], cutoff);
      assert forall i :: 1 <= i < |ts| ==> ts[i] == ts[1..][i - 1];
    }
  }

  /** A list with nothing expired is kept whole. */
  lemma {:induction false} UnexpiredAllLive(ts: seq<int>, cutoff: int)
    requires forall i :: 0 <= i < |ts| ==> ts[i] > cutoff
    ensures Unexpired(ts, cutoff) == ts
  {
    if ts != [] {
      UnexpiredAllLive(ts[1..], cutoff);
      assert [ts[0]] + ts[1..] == ts;
    }
  }

  /** Pruning a chronological list drops a prefix of it. */
  lemma {:induction false} UnexpiredOfSortedIsSuffix(ts: seq<int>, cutoff: int)
    requires Sorted(ts)
    ensures Unexpired(ts, cutoff) == ts[|ts| - |Unexpired(ts, cutoff)|..]
  {
    if ts != [] {
      if ts[0] > cutoff {
        UnexpiredAllLive(ts, cutoff);
      } else {
        UnexpiredOfSortedIsSuffix(ts[1..], cutoff);
      }
    }
  }

  // ---------------------------------------------------------------------
  // One check
  // ---------------------------------------------------------------------

  /** A key never seen, or one whose every stored timestamp has expired,
      is always let through, and then holds just `now`. */
  lemma FreshKeyAccepted(hits: map<string, seq<int>>, key: string, now: int)
    requires key !in hits || forall i :: 0 <= i < |hits[key]| ==> hits[key][i] <= now - WINDOW
    ensures Accepts(hits, key, now)
    ensures After(hits, key, now) == hits[key := [now]]
  {
    UnexpiredEmptyIff(Stored(hits, key), now - WINDOW);
    assert Window(hits, key, now) + [now] == [now];
  }

  /** The request is refused exactly when the key already has `LIMIT` or
      more timestamps strictly later than `now - WINDOW`. */
  lemma RejectedIffQuotaUsed(hits: map<string, seq<int>>, key: string, now: int)
    ensures !Accepts(hits, key, now)
        <==> exists live: seq<int> ::
               IsSubsequence(live, Stored(hits, key)) && |live| >= LIMIT
               && forall i :: 0 <= i < |live| ==> live[i] > now - WINDOW
  {
    var w := Window(hits, key, now);
    UnexpiredKeepsOrder(Stored(hits, key), now - WINDOW);
    forall live: seq<int> | IsSubsequence(live, Stored(hits, key))
      && forall i :: 0 <= i < |live| ==> live[i] > now - WINDOW
      ensures |live| <= |w|
    {
      LiveSubsequenceFits(live, Stored(hits, key), now - WINDOW);
    }
  }

  /** Any order-preserving selection of live timestamps is no longer than
      what pruning keeps. */
  lemma {:induction false} LiveSubsequenceFits(live: seq<int>, ts: seq<int>, cutoff: int)
    requires IsSubsequence(live, ts)
    requires forall i :: 0 <= i < |live| ==> live[i] > cutoff
    ensures |live| <= |Unexpired(ts, cutoff)|
  {
    if live != [] {
      if live[0] == ts[0] {
        LiveSubsequenceFits(live[1..], ts[1..], cutoff);
      } else {
        LiveSubsequenceFits(live, ts[1..], cutoff);
      }
    }
  }

  /** A rejected request leaves the table as it was, stale entries included,
      so repeating it at the same instant is rejected again. */
  lemma RejectionChangesNothing(hits: map<string, seq<int>>, key: string, now: int)
    requires !Accepts(hits, key, now)
    ensures After(hits, key, now) == hits
    ensures !Accepts(After(hits, key, now), key, now)
  {
  }

  /** An accepted request stores the pruned list with `now` at its end; the
      key then holds every unexpired timestamp it had, plus this one. */
  lemma AcceptedRecordsNow(hits: map<string, seq<int>>, key: string, now: int)
    requires Accepts(hits, key, now)
    ensures key in After(hits, key, now)
    ensures var s := After(hits, key, now)[key];
            |s| <= LIMIT && s[|s| - 1] == now
            && forall t :: t in s <==> t == now || (t in Stored(hits, key) && t > now - WINDOW)
  {
    UnexpiredKeepsExactlyLive(Stored(hits, key), now - WINDOW);
  }

  /** A request for one key changes no other key's entry and no other key's
      next outcome. */
  lemma OtherKeysUntouched(hits: map<string, seq<int>>, key: string, now: int, other: string, later: int)
    requires other != key
    ensures other in After(hits, key, now) <==> other in hits
    ensures Stored(After(hits, key, now), other) == Stored(hits, other)
    ensures Accepts(After(hits, key, now), other, later) == Accepts(hits, other, later)
  {
  }

  /** Every check keeps each stored list at `LIMIT` entries or fewer. */
  lemma QuotaKept(hits: map<string, seq<int>>, key: string, now: int)
    requires WithinQuota(hits)
    ensures WithinQuota(After(hits, key, now))
  {
  }

  /** Pruning a list that holds an expired entry leaves it strictly shorter. */
  lemma {:induction false} UnexpiredDropsExpired(ts: seq<int>, cutoff: int, j: nat)
    requires j < |ts| && ts[j] <= cutoff
    ensures |Unexpired(ts, cutoff)| < |ts|
  {
    if j > 0 {
      UnexpiredDropsExpired(ts[1..], cutoff, j - 1);
    }
  }

  /** Sliding window: once any stored timestamp of a key has aged a full
      window, the next request is accepted, whatever else is stored. */
  lemma ExpiredEntryFreesSlot(hits: map<string, seq<int>>, key: string, now: int, j: nat)
    requires WithinQuota(hits)
    requires key in hits && j < |hits[key]|
    requires hits[key][j] <= now - WINDOW
    ensures Accepts(hits, key, now)
  {
    UnexpiredDropsExpired(hits[key], now - WINDOW, j);
  }

  /** The table's lists are chronological, none later than `clock`. */
  ghost predicate Chronological(hits: map<string, seq<int>>, clock: int)
  {
    forall k :: k in hits ==> Sorted(hits[k]) && forall i :: 0 <= i < |hits[k]| ==> hits[k][i] <= clock
  }

  /** When each call's `now` is no earlier than the previous call's, every
      stored list stays in chronological order. */
  lemma ChronologicalKept(hits: map<string, seq<int>>, clock: int, key: string, now: int)
    requires Chronological(hits, clock) && clock <= now
    ensures Chronological(After(hits, key, now), now)
  {
    if Accepts(hits, key, now) {
      StampedWindowChronological(Stored(hits, key), clock, now - WINDOW, now);
    }
  }

  /** The list an accepted call stores, built from a chronological list of
      instants none later than `clock`, is chronological and none of it is
      later than `now`. */
  lemma StampedWindowChronological(s: seq<int>, clock: int, cutoff: int, now: int)
    requires Sorted(s) && clock <= now
    requires forall i :: 0 <= i < |s| ==> s[i] <= clock
    ensures Sorted(Unexpired(s, cutoff) + [now])
    ensures forall i :: 0 <= i < |Unexpired(s, cutoff)| ==> Unexpired(s, cutoff)[i] <= now
  {
    UnexpiredOfSortedIsSuffix(s, cutoff);
    SuffixStamped(s, |s| - |Unexpired(s, cutoff)|, now);
  }

  /** A suffix of a chronological list of instants none later than `now`,
      followed by `now`, is chronological. */
  lemma SuffixStamped(s: seq<int>, from: nat, now: int)
    requires from <= |s| && Sorted(s)
    requires forall i :: 0 <= i < |s| ==> s[i] <= now
    ensures Sorted(s[from..] + [now])
    ensures forall i :: 0 <= i < |s[from..] + [now]| ==> (s[from..] + [now])[i] <= now
  {
    var r := s[from..] + [now];
    forall i, j | 0 <= i < j < |r|
      ensures r[i] <= r[j]
    {
      assert r[i] == s[from + i];
      if j < |r| - 1 {
        assert r[j] == s[from + j];
      }
    }
  }

  // ---------------------------------------------------------------------
  // Sequences of checks for one key
  // ---------------------------------------------------------------------

  /** The outcomes of checking `key` at each instant of `times` in turn, and
      the table they leave behind. */
  function Run(hits: map<string, seq<int>>, key: string, times: seq<int>): (r: (seq<bool>, map<string, seq<int>>))
    ensures |r.0| == |times|
  {
    if times == [] then ([], hits)
    else
      var prev := Run(hits, key, times[..|times| - 1]);
      var now := times[|times| - 1];
      (prev.0 + [Accepts(prev.1, key, now)], After(prev.1, key, now))
  }

  /** One more check appended to a run. */
  lemma RunSnoc(hits: map<string, seq<int>>, key: string, times: seq<int>, now: int)
    ensures var prev := Run(hits, key, times);
            Run(hits, key, times + [now]) == (prev.0 + [Accepts(prev.1, key, now)], After(prev.1, key, now))
  {
    assert (times + [now])[..|times|] == times;
  }

  /** Repeating a rejected request any number of times at the same instant
      is always rejected and records nothing. */
  lemma {:induction false} RejectedRepeats(hits: map<string, seq<int>>, key: string, now: int, n: nat)
    requires !Accepts(hits, key, now)
    ensures Run(hits, key, seq(n, _ => now)) == (seq(n, _ => false), hits)
  {
    if n > 0 {
      var before := seq(n - 1, _ => now);
      RejectedRepeats(hits, key, now, n - 1);
      assert before + [now] == seq(n, _ => now);
      RunSnoc(hits, key, before, now);
      assert Run(hits, key, before + [now]) == (seq(n - 1, _ => false) + [false], hits);
      assert seq(n - 1, _ => false) + [false] == seq(n, _ => false);
    } else {
      assert seq(n, _ => now) == [] && seq(n, _ => false) == [];
    }
  }

  /** Every instant of `times` lies in the window of one minute that opens
      at the first one; the order of the others is free. */
  predicate InFirstWindow(times: seq<int>)
  {
    times != [] && forall i :: 0 <= i < |times| ==> times[0] <= times[i] < times[0] + WINDOW
  }

  /** A burst of requests for a key with no live timestamps at the first
      one, at most `LIMIT` of them, all within one window of the first (in
      any order after it): every one is accepted, and the key then holds
      exactly their instants, in call order. */
  lemma {:induction false} BurstAccepted(hits: map<string, seq<int>>, key: string, burst: seq<int>)
    requires |burst| <= LIMIT
    requires InFirstWindow(burst)
    requires Window(hits, key, burst[0]) == []
    ensures Run(hits, key, burst).0 == seq(|burst|, _ => true)
    ensures Stored(Run(hits, key, burst).1, key) == burst
  {
    if |burst| == 1 {
      BurstFirst(hits, key, burst);
    } else {
      InFirstWindowPrefix(burst, |burst| - 1);
      BurstAccepted(hits, key, burst[..|burst| - 1]);
      BurstNext(hits, key, burst);
    }
  }

  /** The first call of a burst finds no live instant and is accepted. */
  lemma BurstFirst(hits: map<string, seq<int>>, key: string, burst: seq<int>)
    requires |burst| == 1
    requires Window(hits, key, burst[0]) == []
    ensures Run(hits, key, burst).0 == seq(1, _ => true)
    ensures Stored(Run(hits, key, burst).1, key) == burst
  {
    assert [] + [burst[0]] == burst;
    BurstStepAccepted(hits, key, burst, 0);
    RunExtendAccepted(hits, key, [], burst[0], 0);
  }

  /** A later call of a burst whose earlier calls were all accepted. */
  lemma BurstNext(hits: map<string, seq<int>>, key: string, burst: seq<int>)
    requires 2 <= |burst| <= LIMIT
    requires InFirstWindow(burst)
    requires Run(hits, key, burst[..|burst| - 1]).0 == seq(|burst| - 1, _ => true)
    requires Stored(Run(hits, key, burst[..|burst| - 1]).1, key) == burst[..|burst| - 1]
    ensures Run(hits, key, burst).0 == seq(|burst|, _ => true)
    ensures Stored(Run(hits, key, burst).1, key) == burst
  {
    var m := |burst| - 1;
    var earlier, now := burst[..m], burst[m];
    assert earlier + [now] == burst;
    BurstStepAccepted(Run(hits, key, earlier).1, key, burst, m);
    assert burst[..m + 1] == burst;
    RunExtendAccepted(hits, key, earlier, now, m);
  }

  /** A non-empty prefix of calls within one window of the first is too. */
  lemma InFirstWindowPrefix(times: seq<int>, n: nat)
    requires InFirstWindow(times) && 0 < n <= |times|
    ensures InFirstWindow(times[..n])
  {
    forall i | 0 <= i < n
      ensures times[..n][0] <= times[..n][i] < times[..n][0] + WINDOW
    {
      assert times[..n][i] == times[i];
    }
  }

  /** A run whose calls were all accepted, extended by one more accepted call. */
  lemma RunExtendAccepted(hits: map<string, seq<int>>, key: string, earlier: seq<int>, now: int, k: nat)
    requires Run(hits, key, earlier).0 == seq(k, _ => true)
    requires Accepts(Run(hits, key, earlier).1, key, now)
    ensures Run(hits, key, earlier + [now]).0 == seq(k + 1, _ => true)
    ensures Run(hits, key, earlier + [now]).1 == After(Run(hits, key, earlier).1, key, now)
  {
    RunSnoc(hits, key, earlier, now);
    assert seq(k, _ => true) + [true] == seq(k + 1, _ => true);
  }

  /** Calls within one window of the first all see every earlier call of
      the burst as live. */
  lemma BurstAllLive(times: seq<int>, m: nat)
    requires m < |times| && InFirstWindow(times)
    ensures Unexpired(times[..m], times[m] - WINDOW) == times[..m]
  {
    var s := times[..m];
    forall i | 0 <= i < |s|
      ensures s[i] > times[m] - WINDOW
    {
      assert s[i] == times[i];
    }
    UnexpiredAllLive(s, times[m] - WINDOW);
  }

  /** The step of `BurstAccepted`: with the key holding the first
      `m` instants, the next one sees all of them still live. */
  lemma BurstStepAccepted(state: map<string, seq<int>>, key: string, times: seq<int>, m: nat)
    requires m < |times| && m < LIMIT
    requires InFirstWindow(times)
    requires m == 0 ==> Window(state, key, times[0]) == []
    requires m > 0 ==> Stored(state, key) == times[..m]
    ensures Accepts(state, key, times[m])
    ensures Stored(After(state, key, times[m]), key) == times[..m + 1]
  {
    var now := times[m];
    if m == 0 {
      assert Window(state, key, now) + [now] == times[..1];
    } else {
      BurstAllLive(times, m);
      assert times[..m] + [now] == times[..m + 1];
    }
  }

  /** Quota ceiling: `LIMIT` requests within one window of the first, for
      a key with no live timestamps at the first, are all accepted, and one
      more request still inside that window is rejected. */
  lemma QuotaCeiling(hits: map<string, seq<int>>, key: string, times: seq<int>)
    requires |times| == LIMIT + 1
    requires InFirstWindow(times)
    requires Window(hits, key, times[0]) == []
    ensures Run(hits, key, times).0 == seq(LIMIT, _ => true) + [false]
  {
    var earlier, now := times[..LIMIT], times[LIMIT];
    InFirstWindowPrefix(times, LIMIT);
    BurstAccepted(hits, key, earlier);
    BurstAllLive(times, LIMIT);
    RunSnoc(hits, key, earlier, now);
    assert earlier + [now] == times;
  }

  /** However many checks run, no stored list grows past `LIMIT`. */
  lemma {:induction false} RunKeepsQuota(hits: map<string, seq<int>>, key: string, times: seq<int>)
    requires WithinQuota(hits)
    ensures WithinQuota(Run(hits, key, times).1)
  {
    if times != [] {
      RunKeepsQuota(hits, key, times[..|times| - 1]);
      QuotaKept(Run(hits, key, times[..|times| - 1]).1, key, times[|times| - 1]);
    }
  }

  /** The one-minute, thirty-request example: requests for "k1" once a
      second from 0 s to 29 s are accepted, one at 29.5 s is rejected, and
      one at 61 s is accepted because the request at 0 s has aged out. */
  lemma WorkedExample()
    ensures var times := seq(LIMIT, i => i * 1_000_000) + [29_500_000];
            var r := Run(map[], "k1", times);
            r.0 == seq(LIMIT, _ => true) + [false] && Accepts(r.1, "k1", 61_000_000)
  {
    var times := seq(LIMIT, i => i * 1_000_000) + [29_500_000];
    assert InFirstWindow(times);
    assert Window(map[], "k1", times[0]) == [];
    QuotaCeiling(map[], "k1", times);
    BurstAccepted(map[], "k1", times[..LIMIT]);
    var first := Run(map[], "k1", times[..LIMIT]);
    assert times[..LIMIT] + [29_500_000] == times;
    RunSnoc(map[], "k1", times[..LIMIT], 29_500_000);
    RunKeepsQuota(map[], "k1", times[..LIMIT]);
    assert Stored(first.1, "k1")[0] == 0;
    ExpiredEntryFreesSlot(first.1, "k1", 61_000_000, 0);
  }
}
