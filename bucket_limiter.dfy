/**
 A lazily refilling token bucket rate limiter.

 The bucket holds at most `size` tokens and starts full. Every call to
 `Allow` first adds one token per whole `fillInterval` elapsed since the last
 granted call (never beyond `size`, and nothing before the first grant), then
 consumes one token if there is one. Time is an explicit integer `now`
 (nanoseconds) read from a monotonic clock.

 The module gives the behaviour twice: as pure functions over a value
 `Bucket` (FillNumber, Refill, Step, Run), which the lemmas in
 BucketProperties reason about, and as the class `BucketLimiter`, whose
 fields are updated in place and whose methods are proved against those
 functions.
 */
module RateLimiter {

  datatype Option<T> = None | Some(value: T)

  /** The immutable configuration of a bucket. */
  datatype Config = Config(size: int, fillInterval: int)

  /** The mutable part of a bucket: available tokens and the time of the last grant. */
  datatype Bucket = Bucket(count: int, lastAccessTime: Option<int>)

  /** The outcome of one call: whether a token was granted, and the bucket afterwards. */
  datatype Decision = Decision(allowed: bool, next: Bucket)

  /** The constructor performs no checks; these are the values it must be given. */
  predicate ValidConfig(cfg: Config) {
    cfg.size > 0 && cfg.fillInterval > 0
  }

  /** The clock never runs backwards past the last grant. */
  predicate ClockOk(b: Bucket, now: int) {
    b.lastAccessTime.Some? ==> b.lastAccessTime.value <= now
  }

  /**
   The bucket's invariant: the count stays within capacity, and a bucket
   that has never granted a token is still full.
   */
  predicate Inv(cfg: Config, b: Bucket) {
    && 0 <= b.count <= cfg.size
    && (b.lastAccessTime.None? ==> b.count == cfg.size)
  }

  /** A freshly constructed bucket: full, and no access time. */
  function Fresh(cfg: Config): (b: Bucket)
    requires ValidConfig(cfg)
    ensures Inv(cfg, b) && b.count == cfg.size && b.lastAccessTime.None?
  {
    Bucket(cfg.size, None)
  }

  /**
   The number of tokens a refill adds: the number of whole fill intervals
   that fit in the time since the last grant, but no more than the free room
   in the bucket; nothing when the bucket is full or has never granted.
   */
  function FillNumber(count: int, size: int, lastAccessTime: Option<int>, fillInterval: int, now: int): (n: int)
    requires fillInterval > 0
    requires lastAccessTime.Some? ==> lastAccessTime.value <= now
    ensures 0 <= n
    ensures count >= size ==> n == 0
    ensures lastAccessTime.None? ==> n == 0
    ensures count < size ==> count + n <= size
    // n whole intervals have elapsed ...
    ensures lastAccessTime.Some? ==> n * fillInterval <= now - lastAccessTime.value
    // ... and, unless the bucket is now full, not n + 1 of them
    ensures lastAccessTime.Some? && count + n < size ==> now - lastAccessTime.value < (n + 1) * fillInterval
  {
    if count >= size then 0
    else if lastAccessTime.Some? then
      var elapsed := now - lastAccessTime.value;
      var filled := elapsed / fillInterval;
      assert elapsed == filled * fillInterval + elapsed % fillInterval;
      if size - count < filled then size - count else filled
    else 0
  }

  /**
   The contract of FillNumber determines its result: the only amount within
   the free room that counts exactly the whole elapsed intervals (or fills
   the bucket) is FillNumber itself, i.e. min(floor(elapsed / fillInterval),
   size - count).
   */
  lemma {:induction false} FillNumberUnique(count: int, size: int, last: int, fillInterval: int, now: int, m: int)
    requires fillInterval > 0 && last <= now && count < size
    requires 0 <= m && count + m <= size
    requires m * fillInterval <= now - last
    requires count + m < size ==> now - last < (m + 1) * fillInterval
    ensures m == FillNumber(count, size, Some(last), fillInterval, now)
  {
  }

  /** The refill step: adds FillNumber tokens and leaves the access time alone. */
  function Refill(cfg: Config, b: Bucket, now: int): (r: Bucket)
    requires ValidConfig(cfg) && ClockOk(b, now)
    ensures r.lastAccessTime == b.lastAccessTime
    ensures r.count >= b.count
    ensures Inv(cfg, b) ==> Inv(cfg, r)
    ensures b.lastAccessTime.None? ==> r == b
  {
    b.(count := b.count + FillNumber(b.count, cfg.size, b.lastAccessTime, cfg.fillInterval, now))
  }

  /**
   One call of Allow: refill, then consume a token if one is available,
   stamping the access time only when a token is granted. A denied call
   leaves the bucket exactly as it was: it happens only when the bucket was
   empty and the refill added nothing.
   */
  function Step(cfg: Config, b: Bucket, now: int): (d: Decision)
    requires ValidConfig(cfg) && ClockOk(b, now)
    ensures d.allowed <==> Refill(cfg, b, now).count > 0
    ensures d.allowed ==> d.next == Bucket(Refill(cfg, b, now).count - 1, Some(now))
    ensures !d.allowed && b.count >= 0 ==> b.count == 0 && d.next == b
    ensures Inv(cfg, b) ==> Inv(cfg, d.next)
  {
    var r := Refill(cfg, b, now);
    if r.count > 0 then Decision(true, Bucket(r.count - 1, Some(now)))
    else Decision(false, r)
  }

  /** The call times are non-decreasing and none precedes the last grant. */
  predicate Monotone(last: Option<int>, times: seq<int>)
    decreases |times|
  {
    |times| == 0 ||
    ((last.Some? ==> last.value <= times[0]) && Monotone(Some(times[0]), times[1..]))
  }

  /** An earlier last grant than `a` keeps a call series that is in order after `a` in order. */
  lemma MonotoneFrom(last: Option<int>, a: int, times: seq<int>)
    requires Monotone(Some(a), times)
    requires last.Some? ==> last.value <= a
    ensures Monotone(last, times)
  {
  }

  /** The answers of a series of serialised calls and the bucket they leave behind. */
  datatype Trace = Trace(outcomes: seq<bool>, final: Bucket)

  /** Calls Allow once for each time in `times`, in order. */
  function Run(cfg: Config, b: Bucket, times: seq<int>): (t: Trace)
    requires ValidConfig(cfg) && Monotone(b.lastAccessTime, times)
    ensures |t.outcomes| == |times|
    ensures |times| == 0 ==> t.final == b
    ensures Inv(cfg, b) ==> Inv(cfg, t.final)
    decreases |times|
  {
    if |times| == 0 then Trace([], b)
    else
      var d := Step(cfg, b, times[0]);
      MonotoneFrom(d.next.lastAccessTime, times[0], times[1..]);
      var rest := Run(cfg, d.next, times[1..]);
      Trace([d.allowed] + rest.outcomes, rest.final)
  }

  /**
   The limiter object. `size` and `fillInterval` are constants set once by
   the constructor; `count` and `lastAccessTime` are updated in place by
   `Allow`. The ghost field `grants` counts the calls that returned true.
   */
  class BucketLimiter {
    const size: int
    const fillInterval: int
    var count: int
    var lastAccessTime: Option<int>
    ghost var grants: nat

    function Settings(): Config {
      Config(size, fillInterval)
    }

    function State(): Bucket
      reads this
    {
      Bucket(count, lastAccessTime)
    }

    ghost predicate Valid()
      reads this
    {
      && ValidConfig(Settings())
      && Inv(Settings(), State())
      && (lastAccessTime.None? <==> grants == 0)
    }

    constructor (interval: int, size: int)
      requires size > 0 && interval > 0
      ensures Valid()
      ensures this.size == size && fillInterval == interval
      ensures State() == Fresh(Settings()) && grants == 0
    {
      this.size := size;
      fillInterval := interval;
      count := size;
      lastAccessTime := None;
      grants := 0;
    }

    method FillToken(now: int)
      requires Valid() && ClockOk(State(), now)
      modifies this`count
      ensures Valid()
      ensures State() == Refill(Settings(), old(State()), now)
    {
      count := count + FillNumber(count, size, lastAccessTime, fillInterval, now);
    }

    method Allow(now: int) returns (allowed: bool)
      requires Valid() && ClockOk(State(), now)
      modifies this`count, this`lastAccessTime, this`grants
      ensures Valid()
      ensures Decision(allowed, State()) == Step(Settings(), old(State()), now)
      ensures grants == old(grants) + (if allowed then 1 else 0)
    {
      FillToken(now);
      if count > 0 {
        count := count - 1;
        lastAccessTime := Some(now);
        grants := grants + 1;
        allowed := true;
      } else {
        allowed := false;
      }
    }
  }
}
