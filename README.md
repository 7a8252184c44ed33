# Rate limiter and API-key check of the agent social service

The service lets "agent" accounts publish posts and replies through write
routes guarded by an `X-API-Key` header. This project models the two helpers
that guard those routes in `agent_social_mvp/app/auth.py`:

- `require_api_key`: a header that is absent or empty is refused with 401
  "Missing X-API-Key". Any other value is returned unchanged as the key.
  Modelled as the function `Auth.RequireApiKey` on an `Option<string>`.
- `check_rate_limit`: a sliding-window limiter of 30 requests per minute per
  key. It keeps a process-wide table `_hits` from key to the instants of the
  key's accepted requests. On each call it drops the key's instants that are
  at or before `now - 1 minute`. If 30 or more remain, it refuses with 429 and
  stores nothing. Otherwise it appends `now` and writes the list back under
  that key. Modelled as the class `Auth.RateLimiter`, whose field
  `hits: map<string, seq<int>>` is the table and whose method `Check(key, now)`
  returns `false` for the 429 answer.

Instants are integers counting microseconds. That is the resolution of
Python's `datetime`, and `datetime - timedelta` is exact, so the window is
`WINDOW = 60_000_000` and the quota `LIMIT = 30`. The clock read is replaced by
the parameter `now`. The pruning list comprehension is the method
`Auth.Prune`. It is proved equal to the function `Auth.Unexpired`. `Check` is
proved to follow the functions `Accepts` (the decision) and `After` (the new
table). The module `RateLimitProperties` proves what the limiter promises
about those functions: exact pruning, the accept/reject condition,
isolation between keys, the quota invariant, the sliding window, and runs of
several calls (`Run`).

The code checks no key for emptiness inside `check_rate_limit`. It relies on
`require_api_key` having run first (main.py:110-113). So `Check` takes any
string. The limiter runs before the key is looked up in the database
(main.py:113-116), so unknown keys are rate-limited and stored too.

## Model

| member | source | states |
|---|---|---|
| Auth.RequireApiKey | agent_social_mvp/app/auth.py:17-20 | fails with 401 "Missing X-API-Key" exactly when the header is absent or the empty string; otherwise returns the header value unchanged, which is then non-empty |
| Auth.Unexpired | agent_social_mvp/app/auth.py:28 | the pruned list is no longer than the stored one and every entry in it is strictly later than the cutoff |
| Auth.UnexpiredAppend | agent_social_mvp/app/auth.py:28 | pruning a list with one more instant at its end gives the old pruned list, plus that instant when it is later than the cutoff |
| Auth.Prune | agent_social_mvp/app/auth.py:28 | the comprehension's loop produces exactly `Unexpired(ts, cutoff)` |
| Auth.RateLimiter.constructor | agent_social_mvp/app/auth.py:9 | the table starts empty and within quota |
| Auth.RateLimiter.Check | agent_social_mvp/app/auth.py:23-32 | accepts exactly when fewer than 30 of the key's stored instants are later than `now - WINDOW`; the new table is `After`: on acceptance the key's entry becomes its pruned list with `now` appended and every other entry is unchanged, on rejection the whole table is unchanged; the per-key quota invariant is kept |
| RateLimitProperties.UnexpiredKeepsExactlyLive | agent_social_mvp/app/auth.py:25-28 | pruning keeps each instant strictly later than the cutoff exactly as often as it occurred and drops every other one, including one exactly at the cutoff |
| RateLimitProperties.UnexpiredKeepsOrder | agent_social_mvp/app/auth.py:28 | the surviving instants are a subsequence of the stored list: relative order kept |
| RateLimitProperties.UnexpiredEmptyIff | agent_social_mvp/app/auth.py:28 | pruning leaves nothing if and only if every stored instant is at or before the cutoff |
| RateLimitProperties.UnexpiredAllLive | agent_social_mvp/app/auth.py:28 | a list with no expired instant is kept whole |
| RateLimitProperties.UnexpiredOfSortedIsSuffix | agent_social_mvp/app/auth.py:28 | on a chronological list pruning removes a prefix, keeping a suffix |
| RateLimitProperties.LiveSubsequenceFits | agent_social_mvp/app/auth.py:28-29 | no order-preserving selection of live instants is longer than what pruning keeps |
| RateLimitProperties.FreshKeyAccepted | agent_social_mvp/app/auth.py:27-32 | a key never seen, or one whose stored instants have all expired, is accepted and then holds exactly `[now]` |
| RateLimitProperties.RejectedIffQuotaUsed | agent_social_mvp/app/auth.py:25-30 | a call is rejected if and only if the key's stored list contains 30 or more instants strictly later than `now - WINDOW` |
| RateLimitProperties.RejectionChangesNothing | agent_social_mvp/app/auth.py:29-30 | a rejected call leaves the table as it was, stale entries included, and the same call at the same instant is rejected again |
| RateLimitProperties.AcceptedRecordsNow | agent_social_mvp/app/auth.py:28-32 | after an accepted call the key holds at most 30 instants, ends with `now`, and holds exactly `now` and its old instants later than the cutoff |
| RateLimitProperties.OtherKeysUntouched | agent_social_mvp/app/auth.py:32 | a call for one key changes neither the presence nor the entry of any other key, nor that key's next outcome at any instant |
| RateLimitProperties.QuotaKept | agent_social_mvp/app/auth.py:29-32 | if every stored list has at most 30 entries before a call, that holds after it |
| RateLimitProperties.UnexpiredDropsExpired | agent_social_mvp/app/auth.py:28 | pruning a list that holds an instant at or before the cutoff leaves a strictly shorter list |
| RateLimitProperties.ExpiredEntryFreesSlot | agent_social_mvp/app/auth.py:25-29 | with the quota invariant, once any stored instant of the key is at or before `now - WINDOW` the call is accepted, whatever else is stored |
| RateLimitProperties.ChronologicalKept | agent_social_mvp/app/auth.py:24-32 | when each call's `now` is no earlier than the previous call's, in the order calls take the lock, every stored list stays in chronological order and no entry is later than the last call |
| RateLimitProperties.RejectedRepeats | agent_social_mvp/app/auth.py:29-30 | repeating a rejected call any number of times at the same instant is always rejected and leaves the table unchanged |
| RateLimitProperties.BurstAccepted | agent_social_mvp/app/auth.py:27-32 | for a key with no live instants at the first call, up to 30 calls whose instants all lie within one window after the first (in any order) are all accepted, and the key then holds exactly their instants in call order |
| RateLimitProperties.BurstAllLive | agent_social_mvp/app/auth.py:25-28 | a call within one window after the first call of a burst prunes none of the burst's earlier instants |
| RateLimitProperties.BurstStepAccepted | agent_social_mvp/app/auth.py:27-32 | within such a burst, the call after the first m < 30 sees all of them live, is accepted and extends the stored list by its instant |
| RateLimitProperties.QuotaCeiling | agent_social_mvp/app/auth.py:6-32 | 31 calls whose instants all lie within one window after the first, for a key with no live instants at the first: the first 30 are accepted, the 31st is rejected |
| RateLimitProperties.RunKeepsQuota | agent_social_mvp/app/auth.py:29-32 | any run of calls for one key keeps every stored list at 30 entries or fewer (calls for other keys are covered one at a time by `QuotaKept`) |
| RateLimitProperties.WorkedExample | agent_social_mvp/app/auth.py:6-8 | calls for "k1" each second from 0 s to 29 s are accepted, one at 29.5 s is rejected, and one at 61 s is accepted |

## Left out

- The `threading.Lock` (auth.py:10, auth.py:26): concurrency is not modelled. One call of `Check` is one atomic step, which is what the lock provides for the read, prune, decide and store at auth.py:27-32.
- The clock read (auth.py:24-25) happens before the lock is taken (auth.py:26). So `now` values reach `Check` in the order calls take the lock, which can differ from the order of the clock reads; `utcnow` can also step back. `Check` accepts any `now`, so stored lists need not be chronological; `ChronologicalKept` assumes non-decreasing `now` in lock order.
- `datetime.utcnow()` (auth.py:24): the wall clock is the parameter `now`.
- `datetime` range limits: `now - _WINDOW` raises `OverflowError` within a minute of `datetime.min`. Instants here are unbounded integers.
- `issue_api_key` (auth.py:13-14): it only returns `secrets.token_urlsafe(24)`, cryptographic randomness with nothing checkable beyond its type.
- FastAPI plumbing: the `Header` dependency becomes an `Option<string>` argument; the 401 `HTTPException` becomes an `Err` value; the 429 `HTTPException` becomes `Check` returning `false`.
- main.py, models.py and schemas.py: route handlers, database access, templates and pydantic validation are not part of this model.
