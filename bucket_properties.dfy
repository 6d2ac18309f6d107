/**
 Properties of series of serialised Allow calls on one bucket: burst
 admission, refill quantised to whole intervals, denied calls that do not
 move the refill clock, and the meaning of an unset access time.
 */
module BucketProperties {
  import opened RateLimiter

  /** `n` copies of `x`; `Repeat(now, n)` is a burst of n calls at one instant. */
  function Repeat<T>(x: T, n: nat): (s: seq<T>)
    ensures |s| == n && forall i :: 0 <= i < n ==> s[i] == x
  {
    seq(n, _ => x)
  }

  lemma {:induction false} BurstMonotone(last: Option<int>, now: int, n: nat)
    requires last.Some? ==> last.value <= now
    ensures Monotone(last, Repeat(now, n))
    decreases n
  {
    if n > 0 {
      assert Repeat(now, n)[1..] == Repeat(now, n - 1);
      BurstMonotone(Some(now), now, n - 1);
    }
  }

  /**
   A bucket holding k tokens that granted a token at `now` answers k + 1
   calls at that same instant with k grants and then a denial: no time has
   elapsed, so nothing is refilled.
   */
  lemma {:induction false} DrainAtSameInstant(cfg: Config, k: int, now: int)
    requires ValidConfig(cfg) && 0 <= k <= cfg.size
    ensures Monotone(Some(now), Repeat(now, k + 1))
    ensures Run(cfg, Bucket(k, Some(now)), Repeat(now, k + 1))
         == Trace(Repeat(true, k) + [false], Bucket(0, Some(now)))
  {
    BurstMonotone(Some(now), now, k + 1);
    var b := Bucket(k, Some(now));
    assert Repeat(now, k + 1)[1..] == Repeat(now, k);
    var d := Step(cfg, b, now);
    if k == 0 {
      assert d == Decision(false, b);
    } else {
      assert d == Decision(true, Bucket(k - 1, Some(now)));
      DrainAtSameInstant(cfg, k - 1, now);
      assert [true] + (Repeat(true, k - 1) + [false]) == Repeat(true, k) + [false];
    }
  }

  /**
   Burst admission: a fresh bucket of size N, called N + 1 times at the same
   instant, grants exactly the first N calls and denies the last one, leaving
   the bucket empty.
   */
  lemma BurstAdmission(cfg: Config, now: int)
    requires ValidConfig(cfg)
    ensures Monotone(None, Repeat(now, cfg.size + 1))
    ensures Run(cfg, Fresh(cfg), Repeat(now, cfg.size + 1))
         == Trace(Repeat(true, cfg.size) + [false], Bucket(0, Some(now)))
  {
    BurstMonotone(None, now, cfg.size + 1);
    var d := Step(cfg, Fresh(cfg), now);
    assert d == Decision(true, Bucket(cfg.size - 1, Some(now)));
    assert Repeat(now, cfg.size + 1)[1..] == Repeat(now, cfg.size);
    DrainAtSameInstant(cfg, cfg.size - 1, now);
    assert [true] + (Repeat(true, cfg.size - 1) + [false]) == Repeat(true, cfg.size) + [false];
  }

  /**
   Quantised refill: an empty bucket whose last grant was at t0, called
   k + 1 times at a later instant `now`, grants exactly k of them, where k is
   the number of whole fill intervals in now - t0 (at most the size).
   Partial intervals earn nothing.
   */
  lemma RefillAfterWait(cfg: Config, t0: int, now: int)
    requires ValidConfig(cfg) && t0 <= now
    ensures var k := FillNumber(0, cfg.size, Some(t0), cfg.fillInterval, now);
      && k * cfg.fillInterval <= now - t0
      && (k < cfg.size ==> now - t0 < (k + 1) * cfg.fillInterval)
      && Monotone(Some(t0), Repeat(now, k + 1))
      && Run(cfg, Bucket(0, Some(t0)), Repeat(now, k + 1)).outcomes == Repeat(true, k) + [false]
  {
    var k := FillNumber(0, cfg.size, Some(t0), cfg.fillInterval, now);
    BurstMonotone(Some(t0), now, k + 1);
    var b := Bucket(0, Some(t0));
    var d := Step(cfg, b, now);
    assert Repeat(now, k + 1)[1..] == Repeat(now, k);
    if k == 0 {
      assert d == Decision(false, b);
    } else {
      assert d == Decision(true, Bucket(k - 1, Some(now)));
      DrainAtSameInstant(cfg, k - 1, now);
      assert [true] + (Repeat(true, k - 1) + [false]) == Repeat(true, k) + [false];
    }
  }

  /**
   A bucket of size 5 with a fill interval of 10, emptied by a grant at t0:
   at t0 + 29, 2.9 intervals later, exactly two of three calls are granted.
   */
  lemma QuantizedRefillExample(t0: int)
    ensures Monotone(Some(t0), [t0 + 29, t0 + 29, t0 + 29])
    ensures Run(Config(5, 10), Bucket(0, Some(t0)), [t0 + 29, t0 + 29, t0 + 29]).outcomes == [true, true, false]
  {
    assert FillNumber(0, 5, Some(t0), 10, t0 + 29) == 2;
    RefillAfterWait(Config(5, 10), t0, t0 + 29);
    assert Repeat(t0 + 29, 3) == [t0 + 29, t0 + 29, t0 + 29];
    assert Repeat(true, 2) + [false] == [true, true, false];
  }

  /**
   Denied calls do not advance the refill clock: after a grant at t0 has
   emptied the bucket, any number of calls before t0 + fillInterval are
   denied and leave the bucket untouched, and the first call at or after
   t0 + fillInterval is granted, measured from t0 and not from the last
   denied attempt.
   */
  lemma {:induction false} DeniedCallsKeepClock(cfg: Config, t0: int, times: seq<int>, t: int)
    requires ValidConfig(cfg)
    requires Monotone(Some(t0), times + [t])
    requires forall i :: 0 <= i < |times| ==> times[i] < t0 + cfg.fillInterval
    requires t0 + cfg.fillInterval <= t
    ensures Run(cfg, Bucket(0, Some(t0)), times + [t]).outcomes == Repeat(false, |times|) + [true]
  {
    var b := Bucket(0, Some(t0));
    if |times| == 0 {
      assert times + [t] == [t];
    } else {
      assert (times + [t])[1..] == times[1..] + [t];
      assert Step(cfg, b, times[0]) == Decision(false, b);
      MonotoneFrom(Some(t0), times[0], times[1..] + [t]);
      DeniedCallsKeepClock(cfg, t0, times[1..], t);
      assert [false] + (Repeat(false, |times| - 1) + [true]) == Repeat(false, |times|) + [true];
    }
  }

  /**
   The access time stays unset exactly as long as no call has been granted:
   after a series of calls it is unset iff it was unset before and every
   call was denied.
   */
  lemma {:induction false} AccessTimeUnsetIffNoGrant(cfg: Config, b: Bucket, times: seq<int>)
    requires ValidConfig(cfg) && Monotone(b.lastAccessTime, times)
    ensures var t := Run(cfg, b, times);
      t.final.lastAccessTime.None? <==> b.lastAccessTime.None? && true !in t.outcomes
    decreases |times|
  {
    if |times| > 0 {
      var d := Step(cfg, b, times[0]);
      MonotoneFrom(d.next.lastAccessTime, times[0], times[1..]);
      AccessTimeUnsetIffNoGrant(cfg, d.next, times[1..]);
      var rest := Run(cfg, d.next, times[1..]);
      assert Run(cfg, b, times).outcomes == [d.allowed] + rest.outcomes;
    }
  }

  /**
   Corollary for a fresh bucket: its access time is unset iff no call has
   been granted, and whenever it holds fewer than `size` tokens the access
   time is set, so the unset-time branch of the refill only meets a full
   bucket.
   */
  lemma FreshAccessTime(cfg: Config, times: seq<int>)
    requires ValidConfig(cfg) && Monotone(None, times)
    ensures var t := Run(cfg, Fresh(cfg), times);
      && (t.final.lastAccessTime.None? <==> true !in t.outcomes)
      && 0 <= t.final.count <= cfg.size
      && (t.final.count < cfg.size ==> t.final.lastAccessTime.Some?)
  {
    AccessTimeUnsetIffNoGrant(cfg, Fresh(cfg), times);
  }
}
