# Token bucket rate limiter

This project models `BucketLimiter`, a lazily refilling token bucket, and proves properties of it. The bucket holds at most `size` tokens and starts full. Each call to `Allow` first refills the bucket, adding one token for every whole `fillInterval` that has passed since the last granted call. The refill never exceeds `size` and adds nothing before the first grant. The call then consumes one token if one is available, and records the call time only when it grants.

Two files, two modules:

- `bucket_limiter.dfy`, module `RateLimiter`. The pure specification works on values: `FillNumber` (the source's `getFillNumber`), `Refill`, `Step` (one `allow`) and `Run` (a series of serialised calls). The class `BucketLimiter` has constant fields `size` and `fillInterval`, mutable fields `count` and `lastAccessTime: Option<int>`, and a ghost counter `grants`. Its constructor, `FillToken` and `Allow` update the fields in place. Each method is proved against `Step`/`Refill`, and each keeps the invariant `Valid()`:
  - `0 <= count <= size`;
  - a bucket that has never granted is full;
  - `lastAccessTime` is unset exactly when `grants == 0`.
- `bucket_properties.dfy`, module `BucketProperties`. Lemmas about series of calls: burst admission, refill in whole intervals, denied calls that leave the clock alone, and what an unset access time means.

Time is an explicit integer `now`, in nanoseconds. It comes from a monotonic clock, so every operation requires `now >= lastAccessTime` when an access time is set. `size > 0` and `fillInterval > 0` are preconditions of the constructor, which does not check them. The configuration cannot change after construction because `size` and `fillInterval` are `const` fields: only the constructor can assign them.

For the elapsed time of the refill (never negative) with a positive interval, Dafny's `/` gives the same result as Go's truncating `time.Duration` division.

## Model

| member | source | states |
|---|---|---|
| `RateLimiter.BucketLimiter.constructor` | RateLimiter/bucket_limiter.go:19-25 | The new limiter stores the given size and interval, starts with `count == size` and no access time, and satisfies the invariant. |
| `RateLimiter.Fresh` | RateLimiter/bucket_limiter.go:19-25 | A freshly built bucket is full, has no access time, and satisfies the capacity invariant. |
| `RateLimiter.FillNumber` | RateLimiter/bucket_limiter.go:33-47 | The fill is never negative. It is 0 when `count >= size` or when no access time is set. Otherwise `count + fill <= size`, `fill` whole intervals fit in the elapsed time, and `fill + 1` do not fit unless the bucket is then full. |
| `RateLimiter.FillNumberUnique` | RateLimiter/bucket_limiter.go:39-44 | Those bounds determine the fill uniquely: it is exactly `min(floor(elapsed / fillInterval), size - count)`. |
| `RateLimiter.Refill` | RateLimiter/bucket_limiter.go:49-51 | A refill leaves the access time alone and never lowers `count`. It keeps `0 <= count <= size`, and it is a no-op before the first grant. |
| `RateLimiter.BucketLimiter.FillToken` | RateLimiter/bucket_limiter.go:49-51 | The in-place refill changes only `count`, which becomes the `Refill` of the old state, and it keeps the invariant. |
| `RateLimiter.Step` | RateLimiter/bucket_limiter.go:53-62 | A call grants iff the refilled count is positive. On a grant the new count is the refilled count minus one and `lastAccessTime == now`. A denied call happens only on an empty bucket and leaves the state unchanged. The capacity invariant is preserved. |
| `RateLimiter.BucketLimiter.Allow` | RateLimiter/bucket_limiter.go:53-62 | The in-place call returns the decision of `Step`, and the new fields equal `Step`'s next state. It keeps the invariant, including "access time unset iff no grant", and counts one more grant exactly when it returns true. |
| `RateLimiter.Run` | RateLimiter/bucket_limiter.go:53-62 | A series of calls gives one answer per call and keeps `0 <= count <= size` from start to end. |
| `BucketProperties.DrainAtSameInstant` | RateLimiter/bucket_limiter.go:39-59 | A bucket holding k tokens that granted at `now` answers k+1 calls at `now` with k grants, then a denial, and ends empty. |
| `BucketProperties.BurstAdmission` | RateLimiter/bucket_limiter.go:19-62 | A fresh bucket of size N, called N+1 times at the same instant, grants exactly the first N calls, denies the last, and ends empty. |
| `BucketProperties.RefillAfterWait` | RateLimiter/bucket_limiter.go:39-44 | An empty bucket last granted at t0 and called k+1 times at `now` grants exactly k calls. k is the number of whole intervals in `now - t0`, capped at the size, so partial intervals earn nothing. |
| `BucketProperties.QuantizedRefillExample` | RateLimiter/bucket_limiter.go:40 | With size 5 and interval 10, an emptied bucket called three times 29 time units later grants two calls and denies the third. |
| `BucketProperties.DeniedCallsKeepClock` | RateLimiter/bucket_limiter.go:53-62 | After a grant at t0 empties the bucket, every call before `t0 + fillInterval` is denied. The first call at or after that time is granted, because denials do not move the refill clock. |
| `BucketProperties.AccessTimeUnsetIffNoGrant` | RateLimiter/bucket_limiter.go:53-62 | After any series of calls, the access time is unset iff it was unset before and no call was granted. |
| `BucketProperties.FreshAccessTime` | RateLimiter/bucket_limiter.go:34-38 | For a fresh bucket, the access time is unset iff no call has been granted. Whenever `count < size` the access time is set, so the unset-time branch of the refill only meets a full bucket. |

## Left out

- The `sync.Mutex` in `Allow` (RateLimiter/bucket_limiter.go:27-31): concurrency is not modelled. `BucketLimiter.Allow` is the sequential `allow`, and calls are assumed to be serialised.
- `time.Now()` and `time.Time`: the clock is an integer parameter `now` with a monotonicity precondition. The zero-value test `IsZero()` becomes the `None` case of `Option<int>`.
- `RateLimiter.BucketLimiter.Allow`: the source reads the clock twice. One reading is used for the refill (line 39) and a later one is stored as `lastAccessTime` (line 58). The model uses one instant `now` for both, so it does not capture the small delay between the two readings.
- `RateLimiter.FillNumber`: 64-bit overflow of `time.Duration` arithmetic and of the `int(...)` conversion is not modelled. Integers are unbounded.
- `RateLimiter.BucketLimiter.constructor`: no validation of `size <= 0` or `interval <= 0` happens, as in the source. Both are preconditions here, and there is no error path.
