/**
 A per-key sliding-window rate limiter (`IpRateLimiter::allow`).

 The limiter keeps, for every key it has been asked about, the timestamps of
 the calls it admitted, oldest first when calls reach the table in the order
 of their clock readings. A call prunes the key's record to the
 trailing window ending at `now` (inclusive), rejects when the pruned record
 already holds `maxRequests` entries, and otherwise appends `now` and admits.

 Time is a monotonic clock reading in ticks (`Instant`), and a span of time is
 a number of ticks (`Duration`). The clock is read by the caller and passed
 in as `now`.
 */
module RateLimiter {

  type Key = string
  type Instant = nat
  type Duration = nat

  /** `now.duration_since(earlier)`: the elapsed time, saturating at zero when
      `earlier` is later than `now`. */
  function DurationSince(now: Instant, earlier: Instant): (d: Duration)
    ensures earlier <= now ==> earlier + d == now
    ensures now <= earlier ==> d == 0
  {
    if earlier <= now then now - earlier else 0
  }

  /** The retain predicate: a timestamp survives pruning at `now` when it is at
      most `window` old. The bound is inclusive. */
  predicate InWindow(now: Instant, window: Duration, t: Instant)
  {
    DurationSince(now, t) <= window
  }

  /** Every timestamp of `rec` is no later than `now`. */
  predicate NotAfter(rec: seq<Instant>, now: Instant)
  {
    forall i :: 0 <= i < |rec| ==> rec[i] <= now
  }

  /** Timestamps are kept oldest first. */
  predicate Sorted(rec: seq<Instant>)
  {
    forall i, j :: 0 <= i < j < |rec| ==> rec[i] <= rec[j]
  }

  /** `entry.retain(|t| now.duration_since(*t) <= window)`: the timestamps of
      `rec` that lie in the window, in their original order. */
  function Prune(rec: seq<Instant>, now: Instant, window: Duration): (r: seq<Instant>)
    ensures |r| <= |rec|
    ensures forall i :: 0 <= i < |r| ==> InWindow(now, window, r[i])
    ensures forall i :: 0 <= i < |r| ==> r[i] in rec
  {
    if rec == [] then []
    else (if InWindow(now, window, rec[0]) then [rec[0]] else []) + Prune(rec[1..], now, window)
  }

  /** The timestamps of `rec` read in the closed interval `[lo, hi]`, in
      their original order. */
  function ReadIn(rec: seq<Instant>, lo: int, hi: int): (r: seq<Instant>)
    ensures |r| <= |rec|
    ensures forall i :: 0 <= i < |r| ==> lo <= r[i] <= hi
  {
    if rec == [] then []
    else (if lo <= rec[0] <= hi then [rec[0]] else []) + ReadIn(rec[1..], lo, hi)
  }

  /** The outcome of one call on one record: the record it leaves behind and
      whether the call was admitted. */
  datatype Decision = Decision(record: seq<Instant>, admitted: bool)

  /** The admission rule on the record of one key: prune, reject when the
      pruned record is full, otherwise append `now`. */
  function Admit(rec: seq<Instant>, maxRequests: nat, window: Duration, now: Instant): (d: Decision)
    ensures forall i :: 0 <= i < |d.record| ==> InWindow(now, window, d.record[i])
    ensures d.admitted ==> |d.record| <= maxRequests
    ensures |rec| <= maxRequests ==> |d.record| <= maxRequests
    ensures maxRequests == 0 ==> !d.admitted && |d.record| <= |rec|
    ensures d.admitted ==> |d.record| > 0 && d.record[|d.record| - 1] == now
    ensures !d.admitted ==> |d.record| <= |rec| && |d.record| >= maxRequests
  {
    var pruned := Prune(rec, now, window);
    if |pruned| >= maxRequests then Decision(pruned, false)
    else Decision(pruned + [now], true)
  }

  /** A stored timestamp survives pruning exactly when it is in the window:
      both directions of the retain predicate. */
  lemma {:induction false} PruneMembers(rec: seq<Instant>, now: Instant, window: Duration, t: Instant)
    ensures t in Prune(rec, now, window) <==> t in rec && InWindow(now, window, t)
  {
    if rec != [] {
      PruneMembers(rec[1..], now, window, t);
      assert rec == [rec[0]] + rec[1..];
    }
  }

  /** The inclusive boundary: a timestamp exactly `window` old is kept, one a
      tick older is dropped. */
  lemma BoundaryInclusive(rec: seq<Instant>, now: Instant, window: Duration, t: Instant)
    requires t in rec && t <= now
    ensures now - t == window ==> t in Prune(rec, now, window)
    ensures now - t > window ==> t !in Prune(rec, now, window)
  {
    PruneMembers(rec, now, window, t);
  }

  /** Pruning works element by element: it distributes over concatenation, so
      it preserves the relative order of what it keeps. */
  lemma {:induction false} PruneAppend(a: seq<Instant>, b: seq<Instant>, now: Instant, window: Duration)
    ensures Prune(a + b, now, window) == Prune(a, now, window) + Prune(b, now, window)
  {
    if a == [] {
      assert a + b == b;
    } else {
      assert (a + b)[0] == a[0];
      assert (a + b)[1..] == a[1..] + b;
      PruneAppend(a[1..], b, now, window);
    }
  }

  /** Pruning a record that is oldest first leaves it oldest first. */
  lemma {:induction false} PruneSorted(rec: seq<Instant>, now: Instant, window: Duration)
    requires Sorted(rec)
    ensures Sorted(Prune(rec, now, window))
  {
    if rec != [] {
      var tail := rec[1..];
      assert Sorted(tail) by {
        forall i, j | 0 <= i < j < |tail| ensures tail[i] <= tail[j] {
          assert tail[i] == rec[i + 1] && tail[j] == rec[j + 1];
        }
      }
      PruneSorted(tail, now, window);
      var p := Prune(tail, now, window);
      forall i | 0 <= i < |p| ensures rec[0] <= p[i] {
        var k :| 0 <= k < |tail| && tail[k] == p[i];
        assert tail[k] == rec[k + 1];
      }
    }
  }

  /** A record already inside the window is left as it is, so pruning twice
      at the same instant is the same as pruning once. */
  lemma {:induction false} PruneFresh(rec: seq<Instant>, now: Instant, window: Duration)
    requires forall i :: 0 <= i < |rec| ==> InWindow(now, window, rec[i])
    ensures Prune(rec, now, window) == rec
  {
    if rec != [] {
      PruneFresh(rec[1..], now, window);
      assert rec == [rec[0]] + rec[1..];
    }
  }

  lemma PruneIdempotent(rec: seq<Instant>, now: Instant, window: Duration)
    ensures Prune(Prune(rec, now, window), now, window) == Prune(rec, now, window)
  {
    PruneFresh(Prune(rec, now, window), now, window);
  }

  /** Pruning at one instant and then at a later one is the same as pruning
      once at the later one, when nothing stored is later than the first
      instant: what is in the window later was in it before. */
  lemma {:induction false} PruneLater(rec: seq<Instant>, earlier: Instant, now: Instant, window: Duration)
    requires NotAfter(rec, earlier) && earlier <= now
    ensures Prune(Prune(rec, earlier, window), now, window) == Prune(rec, now, window)
  {
    if rec != [] {
      assert NotAfter(rec[1..], earlier) by {
        forall i | 0 <= i < |rec[1..]| ensures rec[1..][i] <= earlier {
          assert rec[1..][i] == rec[i + 1];
        }
      }
      PruneLater(rec[1..], earlier, now, window);
      var head := if InWindow(earlier, window, rec[0]) then [rec[0]] else [];
      PruneAppend(head, Prune(rec[1..], earlier, window), now, window);
    }
  }

  /** When nothing stored is later than `now`, pruning keeps exactly the
      timestamps read in `[now - window, now]`. */
  lemma {:induction false} PruneIsTrailingInterval(rec: seq<Instant>, now: Instant, window: Duration)
    requires NotAfter(rec, now)
    ensures Prune(rec, now, window) == ReadIn(rec, now - window, now)
  {
    if rec != [] {
      assert NotAfter(rec[1..], now) by {
        forall i | 0 <= i < |rec[1..]| ensures rec[1..][i] <= now {
          assert rec[1..][i] == rec[i + 1];
        }
      }
      PruneIsTrailingInterval(rec[1..], now, window);
    }
  }

  /** Stale entries play no part in a call: the outcome on a record is the
      outcome on its in-window part. */
  lemma AdmitIgnoresStale(rec: seq<Instant>, maxRequests: nat, window: Duration, now: Instant)
    ensures Admit(Prune(rec, now, window), maxRequests, window, now) == Admit(rec, maxRequests, window, now)
  {
    PruneIdempotent(rec, now, window);
  }

  /** A rejected call, retried at the same instant with the same limits, is
      rejected again and leaves the record as it was. */
  lemma RejectionIsStable(rec: seq<Instant>, maxRequests: nat, window: Duration, now: Instant)
    requires !Admit(rec, maxRequests, window, now).admitted
    ensures var d := Admit(rec, maxRequests, window, now);
            Admit(d.record, maxRequests, window, now) == d
  {
    PruneIdempotent(rec, now, window);
  }

  /** `maxRequests == 0` never admits and never appends. */
  lemma ZeroNeverAdmits(rec: seq<Instant>, window: Duration, now: Instant)
    ensures Admit(rec, 0, window, now) == Decision(Prune(rec, now, window), false)
  {
  }

  /** One call keeps every stored timestamp no later than `now`. */
  lemma AdmitNotAfter(rec: seq<Instant>, maxRequests: nat, window: Duration, now: Instant)
    requires NotAfter(rec, now)
    ensures NotAfter(Admit(rec, maxRequests, window, now).record, now)
  {
    var p := Prune(rec, now, window);
    forall i | 0 <= i < |p| ensures p[i] <= now {
      var k :| 0 <= k < |rec| && rec[k] == p[i];
    }
  }

  /** The record stays oldest first when no stored timestamp is later than
      `now`. */
  lemma AdmitSorted(rec: seq<Instant>, maxRequests: nat, window: Duration, now: Instant)
    requires Sorted(rec) && NotAfter(rec, now)
    ensures Sorted(Admit(rec, maxRequests, window, now).record)
    ensures NotAfter(Admit(rec, maxRequests, window, now).record, now)
  {
    PruneSorted(rec, now, window);
    AdmitNotAfter(rec, maxRequests, window, now);
  }

  /** A call exactly `window` after an admitted call still sees it, and with a
      limit of one is rejected; any later call finds that the earlier one has
      left the window and is admitted. */
  lemma BoundaryCountsAgainstLimit(t: Instant, window: Duration, later: Instant)
    requires later > t + window
    ensures !Admit([t], 1, window, t + window).admitted
    ensures Admit([t], 1, window, later) == Decision([later], true)
  {
    assert Prune([t], t + window, window) == [t];
    assert Prune([t], later, window) == [];
  }

  // ---------------------------------------------------------------------------
  // A run of calls on one key with fixed limits

  function Last(times: seq<Instant>): (t: Instant)
    requires times != []
  {
    times[|times| - 1]
  }

  /** The calls reach the table in the order of their clock readings. */
  predicate NonDecreasing(times: seq<Instant>)
  {
    forall i, j :: 0 <= i < j < |times| ==> times[i] <= times[j]
  }

  /** The record of a key after calls at `times`, starting from the empty
      record that `or_default` creates on the first call. */
  function Replay(times: seq<Instant>, maxRequests: nat, window: Duration): (rec: seq<Instant>)
  {
    if times == [] then []
    else Admit(Replay(times[..|times| - 1], maxRequests, window), maxRequests, window, Last(times)).record
  }

  /** The calls among `times` that were admitted, in order. */
  function Admitted(times: seq<Instant>, maxRequests: nat, window: Duration): (admitted: seq<Instant>)
  {
    if times == [] then []
    else
      var init := times[..|times| - 1];
      Admitted(init, maxRequests, window)
        + (if Admit(Replay(init, maxRequests, window), maxRequests, window, Last(times)).admitted
           then [Last(times)] else [])
  }

  /** In a run with fixed limits, the record never holds more than
      `maxRequests` timestamps. */
  lemma {:induction false} ReplayBounded(times: seq<Instant>, maxRequests: nat, window: Duration)
    ensures |Replay(times, maxRequests, window)| <= maxRequests
  {
    if times != [] {
      ReplayBounded(times[..|times| - 1], maxRequests, window);
    }
  }

  /** When calls arrive in reading order, no admitted timestamp is later than
      the latest call. */
  lemma {:induction false} AdmittedNotAfter(times: seq<Instant>, maxRequests: nat, window: Duration)
    requires times != [] && NonDecreasing(times)
    ensures NotAfter(Admitted(times, maxRequests, window), Last(times))
  {
    var init := times[..|times| - 1];
    if init != [] {
      assert NonDecreasing(init) by {
        forall i, j | 0 <= i < j < |init| ensures init[i] <= init[j] {
          assert init[i] == times[i] && init[j] == times[j];
        }
      }
      AdmittedNotAfter(init, maxRequests, window);
      assert Last(init) == times[|times| - 2];
    }
  }

  /** One call keeps the record equal to the windowed history of admitted
      calls: if pruning the record and pruning the history agree at `now`,
      then the new record is the pruned history extended by this call when
      it is admitted. */
  lemma StepKeepsWindow(rec: seq<Instant>, hist: seq<Instant>, maxRequests: nat, window: Duration, now: Instant)
    requires Prune(rec, now, window) == Prune(hist, now, window)
    ensures var d := Admit(rec, maxRequests, window, now);
            d.record == Prune(hist + (if d.admitted then [now] else []), now, window)
  {
    var d := Admit(rec, maxRequests, window, now);
    if d.admitted {
      PruneAppend(hist, [now], now, window);
      assert Prune([now], now, window) == [now];
    } else {
      assert hist + [] == hist;
    }
  }

  /** With fixed limits and calls that reach the table in the order of their
      clock readings, the stored record is exactly the admitted calls that
      lie in the window ending at the latest call. */
  lemma {:induction false} ReplayIsWindowOfAdmitted(times: seq<Instant>, maxRequests: nat, window: Duration)
    requires times != [] && NonDecreasing(times)
    ensures Replay(times, maxRequests, window) == Prune(Admitted(times, maxRequests, window), Last(times), window)
  {
    var init := times[..|times| - 1];
    var now := Last(times);
    var hist := Admitted(init, maxRequests, window);
    if init == [] {
      StepKeepsWindow([], hist, maxRequests, window, now);
    } else {
      assert NonDecreasing(init) by {
        forall i, j | 0 <= i < j < |init| ensures init[i] <= init[j] {
          assert init[i] == times[i] && init[j] == times[j];
        }
      }
      ReplayIsWindowOfAdmitted(init, maxRequests, window);
      AdmittedNotAfter(init, maxRequests, window);
      assert Last(init) == times[|times| - 2] <= now;
      PruneLater(hist, Last(init), now, window);
      StepKeepsWindow(Replay(init, maxRequests, window), hist, maxRequests, window, now);
    }
  }

  /** The sliding-window guarantee: with fixed limits and calls in reading
      order, at any call the number of admitted calls in the trailing window
      `[now - window, now]` is at most `maxRequests`. */
  lemma SlidingWindowGuarantee(times: seq<Instant>, maxRequests: nat, window: Duration)
    requires times != [] && NonDecreasing(times)
    ensures |Prune(Admitted(times, maxRequests, window), Last(times), window)| <= maxRequests
    ensures |ReadIn(Admitted(times, maxRequests, window), Last(times) - window, Last(times))| <= maxRequests
  {
    ReplayIsWindowOfAdmitted(times, maxRequests, window);
    ReplayBounded(times, maxRequests, window);
    AdmittedNotAfter(times, maxRequests, window);
    PruneIsTrailingInterval(Admitted(times, maxRequests, window), Last(times), window);
  }

  /** A run extended by one more call. */
  lemma ReplayExtend(init: seq<Instant>, t: Instant, maxRequests: nat, window: Duration)
    ensures var d := Admit(Replay(init, maxRequests, window), maxRequests, window, t);
            Replay(init + [t], maxRequests, window) == d.record
            && Admitted(init + [t], maxRequests, window)
               == Admitted(init, maxRequests, window) + (if d.admitted then [t] else [])
  {
    assert (init + [t])[..|init|] == init;
  }

  /** `now` is read before the lock is taken, so calls can reach the table out
      of reading order. Then a record is no longer oldest first, and a window
      can hold more admitted calls than the limit: with a limit of three and a
      window of ten, five calls read at `b`, `b + 1`, `b + 2`, `b + 13` and
      `b + 5` that take the lock in that order are all admitted. At the last
      call four admitted calls were read in `[b + 5 - 10, b + 5]`, and all five
      count as in its window for pruning, since `duration_since` of the later
      reading saturates at zero. */
  lemma OutOfOrderReadingsExceedLimit(b: Instant)
    ensures Replay([b, b + 1, b + 2, b + 13, b + 5], 3, 10) == [b + 13, b + 5]
    ensures Admitted([b, b + 1, b + 2, b + 13, b + 5], 3, 10) == [b, b + 1, b + 2, b + 13, b + 5]
    ensures |ReadIn(Admitted([b, b + 1, b + 2, b + 13, b + 5], 3, 10), b + 5 - 10, b + 5)| == 4
    ensures |Prune(Admitted([b, b + 1, b + 2, b + 13, b + 5], 3, 10), b + 5, 10)| == 5
  {
    LateArrival(b);
    PruneFresh([b, b + 1, b + 2, b + 13, b + 5], b + 5, 10);
    FourReadInWindow(b);
  }

  /** Of the readings `b, b + 1, b + 2, b + 13, b + 5`, all but `b + 13` lie in
      `[b - 5, b + 5]`. */
  lemma FourReadInWindow(b: Instant)
    ensures ReadIn([b, b + 1, b + 2, b + 13, b + 5], b - 5, b + 5) == [b, b + 1, b + 2, b + 5]
  {
    var lo, hi := b - 5, b + 5;
    var r5: seq<Instant> := [b + 5];
    var r4 := [b + 13] + r5;
    var r3 := [b + 2] + r4;
    var r2 := [b + 1] + r3;
    var r1 := [b] + r2;
    ReadInCons(b + 5, [], lo, hi);
    assert [b + 5] + [] == r5;
    ReadInCons(b + 13, r5, lo, hi);
    ReadInCons(b + 2, r4, lo, hi);
    ReadInCons(b + 1, r3, lo, hi);
    ReadInCons(b, r2, lo, hi);
    assert r1 == [b, b + 1, b + 2, b + 13, b + 5];
  }

  lemma ReadInCons(x: Instant, rest: seq<Instant>, lo: int, hi: int)
    ensures ReadIn([x] + rest, lo, hi) == (if lo <= x <= hi then [x] else []) + ReadIn(rest, lo, hi)
  {
    assert ([x] + rest)[1..] == rest;
  }

  /** A fifth call read before the fourth, reaching the table after it, still
      finds room. */
  lemma LateArrival(b: Instant)
    ensures Replay([b, b + 1, b + 2, b + 13, b + 5], 3, 10) == [b + 13, b + 5]
    ensures Admitted([b, b + 1, b + 2, b + 13, b + 5], 3, 10) == [b, b + 1, b + 2, b + 13, b + 5]
  {
    var s4 := [b, b + 1, b + 2, b + 13];
    var times := s4 + [b + 5];
    assert times == [b, b + 1, b + 2, b + 13, b + 5];
    JumpAhead(b);
    ReplayExtend(s4, b + 5, 3, 10);
    var rec := Replay(s4, 3, 10);
    assert Prune(rec, b + 5, 10) == rec;
    var d := Admit(rec, 3, 10, b + 5);
    assert d == Decision([b + 13, b + 5], true);
    assert Replay(times, 3, 10) == [b + 13, b + 5];
    assert Admitted(times, 3, 10) == s4 + [b + 5];
  }

  /** A fourth call read well after the first three finds them all stale. */
  lemma JumpAhead(b: Instant)
    ensures Replay([b, b + 1, b + 2, b + 13], 3, 10) == [b + 13]
    ensures Admitted([b, b + 1, b + 2, b + 13], 3, 10) == [b, b + 1, b + 2, b + 13]
  {
    var s3 := [b, b + 1, b + 2];
    var s4 := [b, b + 1, b + 2, b + 13];
    assert s4[..3] == s3;
    OrderedPrefix(b);
    PruneAllStale(s3, b + 13, 10);
  }

  /** Three calls in reading order, one tick apart, are all admitted. */
  lemma OrderedPrefix(b: Instant)
    ensures Replay([b, b + 1, b + 2], 3, 10) == [b, b + 1, b + 2]
    ensures Admitted([b, b + 1, b + 2], 3, 10) == [b, b + 1, b + 2]
  {
    ReplayExtend([], b, 3, 10);
    assert [] + [b] == [b];
    ReplayExtend([b], b + 1, 3, 10);
    PruneFresh([b], b + 1, 10);
    assert [b] + [b + 1] == [b, b + 1];
    ReplayExtend([b, b + 1], b + 2, 3, 10);
    PruneFresh([b, b + 1], b + 2, 10);
    assert [b, b + 1] + [b + 2] == [b, b + 1, b + 2];
  }

  /** A record whose every entry is older than the window prunes to empty. */
  lemma {:induction false} PruneAllStale(rec: seq<Instant>, now: Instant, window: Duration)
    requires forall i :: 0 <= i < |rec| ==> !InWindow(now, window, rec[i])
    ensures Prune(rec, now, window) == []
  {
    if rec != [] {
      PruneAllStale(rec[1..], now, window);
    }
  }

  // ---------------------------------------------------------------------------
  // The limiter object

  /** `IpRateLimiter`: the table from key to admitted timestamps, oldest first
      when calls arrive in reading order. The update of one call runs as one
      atomic step, as the mutex around the table ensures; the clock reading
      `now` is taken before that step, by the caller. */
  class IpRateLimiter {
    var entries: map<Key, seq<Instant>>

    /** `IpRateLimiter::default()`: an empty table. */
    constructor ()
      ensures entries == map[]
    {
      entries := map[];
    }

    /** The record of `key`, or the empty record `or_default` would create. */
    function Record(key: Key): (rec: seq<Instant>)
      reads this
    {
      if key in entries then entries[key] else []
    }

    /** `allow(key, max_requests, window)` with the clock reading `now`. */
    method Allow(key: Key, maxRequests: nat, window: Duration, now: Instant) returns (admitted: bool)
      modifies this
      ensures key in entries
      ensures var d := Admit(old(Record(key)), maxRequests, window, now);
              admitted == d.admitted && entries == old(entries)[key := d.record]
      ensures admitted <==> |Prune(old(Record(key)), now, window)| < maxRequests
      ensures entries[key] == if admitted then Prune(old(Record(key)), now, window) + [now]
                              else Prune(old(Record(key)), now, window)
      ensures forall k :: k != key ==> (k in entries <==> k in old(entries))
      ensures forall k :: k != key && k in entries ==> entries[k] == old(entries)[k]
      ensures forall i :: 0 <= i < |entries[key]| ==> InWindow(now, window, entries[key][i])
      ensures maxRequests == 0 ==> !admitted
      ensures |old(Record(key))| <= maxRequests ==> |entries[key]| <= maxRequests
      ensures NotAfter(old(Record(key)), now) ==> NotAfter(entries[key], now)
      ensures Sorted(old(Record(key))) && NotAfter(old(Record(key)), now) ==> Sorted(entries[key])
    {
      ghost var before := Record(key);
      if NotAfter(before, now) {
        AdmitNotAfter(before, maxRequests, window, now);
      }
      if Sorted(before) && NotAfter(before, now) {
        AdmitSorted(before, maxRequests, window, now);
      }
      if key !in entries {
        entries := entries[key := []];
      }
      var entry := entries[key];
      entry := Prune(entry, now, window);
      entries := entries[key := entry];
      if |entry| >= maxRequests {
        return false;
      }
      entry := entry + [now];
      entries := entries[key := entry];
      admitted := true;
    }
  }

  /** Three quick calls with a limit of three are admitted and a fourth is
      not; once the window has passed a fifth is admitted. */
  method BurstThenRecover()
  {
    var limiter := new IpRateLimiter();
    var a := limiter.Allow("ip1", 3, 1000, 0);
    assert a && limiter.entries["ip1"] == [0];
    assert Prune([0], 1, 1000) == [0];
    var b := limiter.Allow("ip1", 3, 1000, 1);
    assert b && limiter.entries["ip1"] == [0, 1];
    assert Prune([0, 1], 2, 1000) == [0, 1];
    var c := limiter.Allow("ip1", 3, 1000, 2);
    assert c && limiter.entries["ip1"] == [0, 1, 2];
    PruneFresh([0, 1, 2], 3, 1000);
    var d := limiter.Allow("ip1", 3, 1000, 3);
    assert !d && limiter.entries["ip1"] == [0, 1, 2];
    assert Prune([0, 1, 2], 1100, 1000) == [];
    var e := limiter.Allow("ip1", 3, 1000, 1100);
    assert e;
  }

  /** Two keys, each called once with a limit of one, are both admitted, and
      the second call leaves the first key's record alone. */
  method TwoKeysIndependent()
  {
    var limiter := new IpRateLimiter();
    var one := limiter.Allow("ip1", 1, 10000, 0);
    var two := limiter.Allow("ip2", 1, 10000, 0);
    assert one && two && limiter.entries["ip1"] == [0];
  }

  /** With a limit of one, a second call exactly one window later is rejected
      and one a tick after that is admitted. */
  method InclusiveBoundary()
  {
    var limiter := new IpRateLimiter();
    var first := limiter.Allow("ip1", 1, 10, 5);
    assert first && limiter.entries["ip1"] == [5];
    assert Prune([5], 15, 10) == [5];
    var atEdge := limiter.Allow("ip1", 1, 10, 15);
    assert !atEdge && limiter.entries["ip1"] == [5];
    assert Prune([5], 16, 10) == [];
    var past := limiter.Allow("ip1", 1, 10, 16);
    assert first && !atEdge && past;
  }
}
