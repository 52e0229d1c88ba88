# Newsletter rate limiter and confirmation setup

This project models two pieces of the API service's newsletter code, `services/api/src/newsletter.rs`, in Dafny.

The first piece is `IpRateLimiter::allow`, a per-key sliding-window rate limiter. The limiter keeps a table from key (a client address) to the timestamps of that key's admitted calls, oldest first when calls reach the table in the order of their clock readings. A call does three things:

1. It fetches the key's record, creating an empty one if there is none.
2. It prunes the record in place to the timestamps at most `window` old. A timestamp exactly `window` old is kept.
3. It rejects if the pruned record already holds `max_requests` entries. Otherwise it appends `now` and admits.

The second piece is the start of `send_confirmation_email`. It checks that the SendGrid API key is configured, then that the sender address is configured. It then builds the confirmation link: the base URL with all trailing `/` removed, then `/api/v1/newsletter/confirm?token=`, then the token.

Files:

- `rate_limiter.dfy`, module `RateLimiter`, models the limiter. `IpRateLimiter` is a class whose field `entries: map<string, seq<nat>>` stands for the locked `HashMap<String, Vec<Instant>>`. `Allow` takes the clock reading `now` as a parameter and updates that field.
  - `Prune` and `Admit` state each call's rule as functions on one record.
  - `Replay` and `Admitted` describe a run of calls on one key with fixed limits.
  - The lemmas prove freshness, the inclusive boundary, ordering and the length bound. They also prove the sliding-window guarantee: when calls reach the table in the order of their clock readings, at most `max_requests` admitted calls lie in the trailing window at any call.
  - A counterexample lemma shows what happens when calls reach the table out of reading order (see "## Findings").
- `confirmation.dfy`, module `Confirmation`, models the configuration checks and the link construction as pure functions that return a `Result`.

Modelling choices:

- `Instant` and `Duration` are natural numbers of clock ticks.
- `Instant::duration_since` saturates at zero when the stored instant is later than `now`, as Rust has done since 1.60. The model writes this out in `DurationSince`. So `Allow` needs no precondition on `now`.
- A monotonic clock is not enough for the records to be oldest first. `now` is read at newsletter.rs:20, before the lock is taken at newsletter.rs:21, so calls can reach the table out of reading order. The ordering lemmas and the run theorems therefore assume that calls reach the table in the order of their clock readings.
- `max_requests: usize` is a `nat`. A record's length can never reach the `usize` limit, so no wrap-around is modelled.
- `Vec::retain` is the library function `Prune`. `Allow` performs the source's steps in its order: it creates the record if absent, writes back the pruned record, returns early on rejection, and otherwise pushes.

Where the code departs from the intended behaviour of the limiter and the confirmation setup, the model follows the code:

- A record that prunes to empty stays in the table. `Allow` ensures `key in entries` after every call, even a rejected one.
- A record is oldest first only when calls reach the table in the order of their clock readings. `Allow` promises ordering under that condition: the old record is oldest first and no entry is later than `now`.
- A configured value that is present but empty (`Some("")`) passes the checks, because the source only tests for absence.
- The source never checks that `base_url` is configured, so a missing base URL is not reported as a configuration error. `base_url` is a plain `String` field, so `Config.baseUrl` is a plain `string` and no error case exists for it.

## Model

| member | source | states |
|---|---|---|
| `RateLimiter.DurationSince` | services/api/src/newsletter.rs:24 | `duration_since` is the elapsed time when the stored instant is not later than `now`, and saturates at zero otherwise |
| `RateLimiter.Prune` | services/api/src/newsletter.rs:24 | `retain` with the closure of line 24, whose test is the predicate `InWindow` (`DurationSince(now, t) <= window`): the retained record is no longer than the old one, every entry in it is within the window of `now`, and every entry comes from the old record |
| `RateLimiter.PruneMembers` | services/api/src/newsletter.rs:24 | a timestamp survives pruning if and only if it was stored and `duration_since(now, t) <= window` |
| `RateLimiter.BoundaryInclusive` | services/api/src/newsletter.rs:24 | a stored timestamp exactly `window` old is kept; one older than `window` is dropped |
| `RateLimiter.PruneAppend` | services/api/src/newsletter.rs:24 | pruning distributes over concatenation, so retain keeps the relative order of what survives |
| `RateLimiter.PruneSorted` | services/api/src/newsletter.rs:24 | pruning an oldest-first record leaves it oldest first |
| `RateLimiter.PruneFresh` | services/api/src/newsletter.rs:24 | a record entirely within the window is left unchanged by pruning |
| `RateLimiter.PruneIdempotent` | services/api/src/newsletter.rs:24 | pruning twice at the same instant equals pruning once |
| `RateLimiter.PruneAllStale` | services/api/src/newsletter.rs:24 | a record whose every entry is older than the window prunes to empty |
| `RateLimiter.PruneLater` | services/api/src/newsletter.rs:20-24 | when no stored timestamp is later than the first instant, pruning at that instant and then at a later one equals pruning once at the later one |
| `RateLimiter.Admit` | services/api/src/newsletter.rs:24-30 | after one call every stored timestamp is in the window; an admitted call leaves at most `max_requests` entries, the last being `now`; a rejected call leaves at least `max_requests` entries and appends nothing; a record within the limit stays within it; `max_requests == 0` never admits |
| `RateLimiter.AdmitIgnoresStale` | services/api/src/newsletter.rs:24-30 | a call's outcome and resulting record depend only on the in-window part of the stored record |
| `RateLimiter.RejectionIsStable` | services/api/src/newsletter.rs:24-27 | a rejected call retried at the same instant with the same limits is rejected again and leaves the record unchanged |
| `RateLimiter.ZeroNeverAdmits` | services/api/src/newsletter.rs:25-27 | with `max_requests == 0` the call is rejected and the record is just the pruned record |
| `RateLimiter.AdmitSorted` | services/api/src/newsletter.rs:24-29 | if the record is oldest first and no entry is later than `now`, the record after the call is oldest first and still no later than `now` |
| `RateLimiter.BoundaryCountsAgainstLimit` | services/api/src/newsletter.rs:24-30 | with a limit of one, a call made exactly `window` after an admitted call is rejected, and any call made more than `window` later is admitted with a record holding only itself |
| `RateLimiter.StepKeepsWindow` | services/api/src/newsletter.rs:24-30 | if pruning the record and pruning the admitted history agree at `now`, the new record is the pruned history extended by this call when it is admitted |
| `RateLimiter.ReplayBounded` | services/api/src/newsletter.rs:22-30 | in a run with fixed `max_requests` and `window`, the record never holds more than `max_requests` timestamps; with only `max_requests` fixed, the one-call bounds of `Admit` and `Allow` keep a record within the limit |
| `RateLimiter.AdmittedNotAfter` | services/api/src/newsletter.rs:20-29 | when calls reach the table in the order of their clock readings, no admitted timestamp is later than the latest call |
| `RateLimiter.ReplayIsWindowOfAdmitted` | services/api/src/newsletter.rs:19-31 | with fixed limits and calls that reach the table in the order of their clock readings, the stored record equals the admitted calls that lie in the window ending at the latest call |
| `RateLimiter.PruneIsTrailingInterval` | services/api/src/newsletter.rs:24 | when nothing stored is later than `now`, pruning keeps exactly the timestamps read in `[now - window, now]` |
| `RateLimiter.AdmitNotAfter` | services/api/src/newsletter.rs:24-29 | if no stored timestamp is later than `now`, none is after the call either |
| `RateLimiter.SlidingWindowGuarantee` | services/api/src/newsletter.rs:19-31 | with fixed limits and calls in reading order, at any call at most `max_requests` admitted calls were read in the trailing window `[now - window, now]`, and at most `max_requests` survive pruning at `now` |
| `RateLimiter.OutOfOrderReadingsExceedLimit` | services/api/src/newsletter.rs:20-30 | readings `b, b+1, b+2, b+13, b+5` reaching the table in that order with a limit of three and a window of ten are all admitted; the record ends as `[b+13, b+5]`, which is not oldest first; four admitted calls were read in the last call's trailing window `[b-5, b+5]`, over the limit of three; and all five count as in that window for pruning, because `duration_since` saturates |
| `RateLimiter.IpRateLimiter.constructor` | services/api/src/newsletter.rs:13-16 | a default limiter starts with an empty table |
| `RateLimiter.IpRateLimiter.Allow` | services/api/src/newsletter.rs:19-31 | the old record is read through `Record`, which gives the empty record for an absent key as `or_default` does; `key` is in the table afterwards, even after a rejection; the result is true exactly when the pruned record was below `max_requests`; the key's record is the pruned old record, followed by `now` when admitted; every other key's record and presence are unchanged; every stored timestamp is in the window; `max_requests == 0` rejects; the length bound is preserved; if no old entry is later than `now`, no new one is, and an oldest-first record stays oldest first, so these conditions carry over to a next call with a later `now` |
| `Confirmation.TrimEndSlashes` | services/api/src/newsletter.rs:43 | the result is a prefix of the input, does not end in `/`, and leaves only `/` characters behind |
| `Confirmation.TrimUnique` | services/api/src/newsletter.rs:43 | those three properties determine the trimmed string uniquely |
| `Confirmation.TrimIdempotent` | services/api/src/newsletter.rs:43 | trimming twice equals trimming once |
| `Confirmation.TrimIgnoresExtraSlash` | services/api/src/newsletter.rs:43 | an added trailing `/` does not change the trimmed string |
| `Confirmation.ConfirmUrl` | services/api/src/newsletter.rs:41-44 | the link ends with exactly the token, preceded by `/api/v1/newsletter/confirm?token=`, preceded by a prefix of the base URL that has no trailing `/` and leaves only `/` behind |
| `Confirmation.ConfirmUrlBase` | services/api/src/newsletter.rs:41-44 | the link's base part is exactly the trimmed base URL, so no `/` stands directly before the confirmation path |
| `Confirmation.ConfirmUrlInjective` | services/api/src/newsletter.rs:41-44 | under one base URL, equal links mean equal tokens, so the token can be read back |
| `Confirmation.ConfirmUrlTrailingSlash` | services/api/src/newsletter.rs:41-44 | a base URL with an extra trailing `/` gives the same link |
| `Confirmation.PrepareConfirmation` | services/api/src/newsletter.rs:34-44 | a missing API key is reported first, whatever the from-address; with the key present, a missing from-address is reported; the result is success exactly when both are present, and then carries both values and the confirmation link for the token |
| `Confirmation.PreparedUrlInjective` | services/api/src/newsletter.rs:35-44 | under one configuration, two successful setups with the same link were for the same token |

The methods `BurstThenRecover`, `TwoKeysIndependent` and `InclusiveBoundary` of `RateLimiter` are worked scenarios. Each one builds a fresh limiter and checks a trace of `Allow` calls against the contract of `Allow`. The traces are: a burst with a limit of three followed by recovery once the window has passed; two keys that do not interfere; and the inclusive boundary.

## Findings

| source | as written | input that shows it | evidently intended | confidence | as-written member | corrected member |
|---|---|---|---|---|---|---|
| services/api/src/newsletter.rs:20-21 | `Instant::now()` is read before the lock is taken, so a call can reach the table after a call that read the clock later | readings 100, 101, 102, 113, 105 reaching the table in that order, `max_requests` 3, `window` 10: all five are admitted, the record becomes `[113, 105]`, and four admitted calls read in `[95, 105]` | read the clock after taking the lock, so calls reach the table in reading order and each trailing window holds at most `max_requests` admitted calls | low (needs a task to be suspended between the clock read and the lock); not executed | `RateLimiter.OutOfOrderReadingsExceedLimit` | `RateLimiter.SlidingWindowGuarantee` |

`Allow` accepts any `now`, so it models the code as written. The corrected behaviour is the in-order traces (`NonDecreasing`) that the run theorems require.

## Left out

- The `Arc<Mutex<…>>` around the table (newsletter.rs:9, 15, 21) is concurrency plumbing. `Allow` is modelled as one atomic step on a single-threaded object, which is what the mutex guarantees for the prune-check-append sequence. The clock read that comes before the lock is covered by the next lines.
- `Instant::now()` (newsletter.rs:20) reads the system clock. It becomes the parameter `now`.
- `now` is read outside the lock (newsletter.rs:20-21). That calls reach the table in the order of their clock readings is therefore assumed by the ordering and run lemmas, not guaranteed by the source.
- A key's record is never removed from the table, even when it prunes to empty, because the source never removes it. Memory growth over many keys is not modelled.
- The JSON payload and HTML body (newsletter.rs:46-56) are built by a library and contain no logic. The `email` parameter is used only there, so `PrepareConfirmation` does not take it.
- The POST to SendGrid and the handling of its response status and body (newsletter.rs:58-70) are network I/O through a foreign client.
- The text of the `anyhow` context messages is not modelled. `ConfigError` only says which configuration value is missing.
- RateLimiter.SlidingWindowGuarantee: states the bound for the trailing window ending at each call, for a run with fixed `max_requests` and `window` on one key starting from an empty record, with calls in reading order. It is not stated for arbitrary pairs of admitted calls closer than `window`, or for runs whose limits change between calls.
- RateLimiter.ReplayBounded: fixes `window` as well as `max_requests`. With only `max_requests` fixed, the bound is given call by call by `Admit` and `Allow`.
