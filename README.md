# Token-bucket quoter, modelled in Dafny

This project models the token-bucket engine of the `bucket_quoter` Go package and the millisecond
clock it reads. A `BucketQuoter` holds a signed token level `Bucket`. The level may go negative,
and a negative level is a deficit that later credits pay back. The quoter also holds the instant of
the last credit `LastAdd`, a sequence number `SeqNo`, an inflow in tokens per second, a capacity and
a `BucketQuoterStat` record of counters. Every public operation first refills lazily from the clock.
A refill credits whole tokens only when `inflow * elapsed` strictly exceeds the resolution of 1000
ms per second. It then clamps the level to capacity and moves `LastAdd`. After the refill, the
operation queries, spends or credits tokens, or computes how long to wait.

Layout:

- `timer.dfy`, module `Timer`: the class `InstantTimerMs`. Its wall clock is replaced by a fake
  clock. The field `now` changes only through `Advance(d)`, with `d >= 0`. The class also has
  `Duration` and `Resolution`, which is always 1000.
- `bucket_spec.dfy`, module `BucketSpec`: the quoter's state as a value (`State`, `Counters`).
  It has one function per operation, giving the state after the operation and the value it
  returns. It also holds the proved properties: the strict refill threshold, the clamp, how split
  refills relate to one refill, bounds on the wait time, and invariants over any sequence of
  operations.
- `quoter.dfy`, module `Quoter`: the classes `BucketQuoterStat` and `BucketQuoter`. Their methods
  update fields in place, as the Go methods do. Each method's `ensures` ties the new state
  (`Model()`) and its return value to the matching `BucketSpec` function of the old state and the
  clock's instant.
- `quoter_test.dfy`, module `QuoterTest`: the basic scenario of `quoter_test.go`, stated as
  calls on the classes. It also has two smaller scenarios: the sequence number, and a refill after the clock
  moves.

Behaviour modelled exactly as the code has it:

- The `...WithResult` operations report `SeqNo + 1` but never write `SeqNo`. A fresh quoter
  therefore reports 1 in every snapshot, and its own `SeqNo` stays 0. The model does not make the
  sequence number increase strictly.
- `GetWaitTime` with a deficit and a zero inflow divides by zero. In Go this panics after the
  refill has already changed the state. The model returns `WaitTime.DivisionByZero` and keeps the
  refilled state.
- A refill below the threshold leaves `LastAdd` alone, so its elapsed time carries over to the next
  refill. A refill that credits drops the remainder of its division (`SplitRefillNeverOvercredits`,
  `SlicedRefillDropsRemainder`).
- Waiting exactly the time `GetWaitTime` reports can leave the level still negative. Two things
  cause this: the threshold is strict, and the clock counts whole milliseconds
  (`ExactWaitMayFallShort`). With a positive inflow and a non-negative capacity, waiting strictly
  longer always brings the level back to zero or above. With a positive inflow, waiting strictly
  less never does. With a negative capacity, the clamp keeps the level negative however long the
  wait.
- A fresh empty bucket is available: level 0 satisfies `Bucket >= 0` (`RefillAfterThreeSeconds`).
- Both Go divisions in the core have a positive dividend. In that case Go's truncating `/` and
  Dafny's Euclidean `/` agree, so the model uses `/` directly.
- Inflow and capacity are plain integer fields with no sign check, as in the source. A caller may
  assign them between operations, as the atomic handles allow.

## Model

| member | source | states |
|---|---|---|
| `Timer.InstantTimerMs.NewInstantTimerMs` | bucket_quoter/timer.go:17-21 | a new timer's resolution is 1000 ticks per second; the fake clock starts at the given instant |
| `Timer.InstantTimerMs.Now` | bucket_quoter/timer.go:23-25 | reading the clock returns the fake clock's current instant |
| `Timer.InstantTimerMs.Advance` | bucket_quoter/timer.go:23-25 | the fake clock only moves forward, by exactly the given non-negative amount |
| `Timer.InstantTimerMs.Duration` | bucket_quoter/timer.go:27-29 | adding the duration to the start instant gives the end instant |
| `Timer.InstantTimerMs.Resolution` | bucket_quoter/timer.go:31-33 | the resolution is always 1000, so the refill's division by it is always defined |
| `Timer.DurationOfEmptyInterval` | bucket_quoter/timer.go:27-29 | an interval from an instant to itself lasts 0 ticks |
| `Timer.DurationsAdd` | bucket_quoter/timer.go:27-29 | durations of consecutive intervals add up to the duration of the whole |
| `BucketSpec.Credit` | bucket_quoter/quoter.go:227-228 | a crediting refill grants at least one token, namely the floor of inflow*elapsed/1000 |
| `BucketSpec.Fill` | bucket_quoter/quoter.go:223-241 | a refill below the strict threshold changes nothing; a crediting refill moves `LastAdd` to now, adds exactly the credit (the floor of inflow*elapsed/1000) to `AggregateInflow`, and sets the level to min(level + credit, capacity); no other counter, inflow, capacity or sequence number changes |
| `BucketSpec.IsAvailable` | bucket_quoter/quoter.go:68-79 | after the refill, the answer is true exactly when the level is non-negative; `BucketUnderflows` goes up by exactly 1 when the answer is false; nothing else differs from the refill |
| `BucketSpec.GetAvailable` | bucket_quoter/quoter.go:97-107 | the state is the refilled one; the answer is the level, or 0 in deficit, so it is never negative; `BucketUnderflows` is not touched |
| `BucketSpec.Use` | bucket_quoter/quoter.go:243-252 | the level drops by exactly the tokens with no lower bound and no refill; `TokensUsed` grows by the tokens and `MsgPassed` by 1 |
| `BucketSpec.UseAndFill` | bucket_quoter/quoter.go:148-156 | the state is spend-then-refill, and the returned value is the level reached |
| `BucketSpec.Add` | bucket_quoter/quoter.go:254-259 | the level becomes level+tokens, or capacity if that is smaller; nothing else changes, no refill, no counter |
| `BucketSpec.WaitFor` | bucket_quoter/quoter.go:180-184 | 0 when the level is non-negative; with a deficit and positive inflow, the floor of deficit*10^6/inflow microseconds, never negative; a division-by-zero outcome when the inflow is 0; for a negative inflow, Go's quotient truncated toward zero, which is never positive |
| `BucketSpec.GetWaitTime` | bucket_quoter/quoter.go:175-185 | the wait time is computed from the refilled state |
| `BucketSpec.FillIsIdempotent` | bucket_quoter/quoter.go:223-241 | a second refill at the same instant credits nothing |
| `BucketSpec.SplitRefillNeverOvercredits` | bucket_quoter/quoter.go:223-241 | for a non-negative inflow and a clock that does not go back, refilling at t1 and then at t2 never gives a higher level or aggregate inflow than one refill at t2; a refill below the threshold loses no time |
| `BucketSpec.SlicedRefillDropsRemainder` | bucket_quoter/quoter.go:227-239 | at 1 token/s, two refills 1500 ms apart credit 2 tokens where one refill after 3000 ms credits 3 |
| `BucketSpec.AvailabilityQueriesAgree` | bucket_quoter/quoter.go:68-107 | GetAvailable reports the level exactly when IsAvailable answers true, and 0 otherwise; both see the same refilled level |
| `BucketSpec.UseThenAddRestoresLevel` | bucket_quoter/quoter.go:243-259 | giving back the tokens just spent restores the level of a bucket within capacity |
| `BucketSpec.WaitingLongerRestoresLevel` | bucket_quoter/quoter.go:175-185 | with positive inflow and non-negative capacity, once strictly more microseconds than the reported wait have passed since the last credit, a refill lifts the level to 0 or above |
| `BucketSpec.WaitingShorterKeepsDeficit` | bucket_quoter/quoter.go:175-185 | with positive inflow, while strictly fewer microseconds than the reported wait have passed, a refill leaves the level negative |
| `BucketSpec.ExactWaitMayFallShort` | bucket_quoter/quoter.go:184 | at level -1 and 1 token/s the wait is 10^6 microseconds, yet a refill 1000 ms later credits nothing because the threshold is strict |
| `BucketSpec.RunKeepsInvariants` | bucket_quoter/quoter.go:66-259 | over any sequence of operations that spend non-negative amounts: the level stays within capacity; seqNo, inflow and capacity never change; `BucketUnderflows` and `AggregateInflow` never decrease; `UsecWaited` is untouched; `MsgPassed` grows by exactly the number of spends |
| `Quoter.BucketQuoterStat.constructor` | bucket_quoter/quoter.go:37-39 | a record made in place of a missing one starts with all counters at 0 |
| `Quoter.BucketQuoter.NewBucketQuoter` | bucket_quoter/quoter.go:35-64 | the level is capacity when filling and 0 otherwise; `SeqNo` is 0; `LastAdd` is the clock's instant; inflow and capacity are as given; the given statistics record is kept, or a fresh zeroed one is used when none is given |
| `Quoter.BucketQuoter.FillBucket` | bucket_quoter/quoter.go:223-241 | the new state is `Fill` of the old one at the clock's instant |
| `Quoter.BucketQuoter.IsAvailableNoLock` | bucket_quoter/quoter.go:217-221 | refills, then answers whether the level is non-negative, without counting an underflow |
| `Quoter.BucketQuoter.UseNoLock` | bucket_quoter/quoter.go:243-252 | the new state is `Use` of the old one (the non-sleeping path) |
| `Quoter.BucketQuoter.AddNoLock` | bucket_quoter/quoter.go:254-259 | the new state is `Add` of the old one; the counters are not touched |
| `Quoter.BucketQuoter.IsAvailable` | bucket_quoter/quoter.go:68-79 | the new state and the answer are those of `IsAvailable`; the answer is whether the new level is non-negative |
| `Quoter.BucketQuoter.IsAvailableWithResult` | bucket_quoter/quoter.go:81-95 | same state change and answer as `IsAvailable`; the snapshot holds the level before the refill, the level after it and `SeqNo + 1`, while `SeqNo` itself stays unchanged |
| `Quoter.BucketQuoter.GetAvailable` | bucket_quoter/quoter.go:97-107 | the new state and the answer are those of `GetAvailable`; the answer is never negative |
| `Quoter.BucketQuoter.GetAvailableWithResult` | bucket_quoter/quoter.go:109-122 | same as `GetAvailable`, with a snapshot of the level before and after and `SeqNo + 1`; `SeqNo` is unchanged |
| `Quoter.BucketQuoter.Use` | bucket_quoter/quoter.go:124-129 | the new state is `Use` of the old one |
| `Quoter.BucketQuoter.UseWithResult` | bucket_quoter/quoter.go:138-146 | with sleep off: same state change as `Use`, and a snapshot of the level before and after and `SeqNo + 1`; `SeqNo` is unchanged |
| `Quoter.BucketQuoter.UseAndFill` | bucket_quoter/quoter.go:148-156 | the new state is spend-then-refill; the returned value is the level reached |
| `Quoter.BucketQuoter.Add` | bucket_quoter/quoter.go:158-163 | the new state is `Add` of the old one |
| `Quoter.BucketQuoter.AddWithResult` | bucket_quoter/quoter.go:165-173 | same state change as `Add`, and a snapshot of the level before and after and `SeqNo + 1`; `SeqNo` is unchanged |
| `Quoter.BucketQuoter.GetWaitTime` | bucket_quoter/quoter.go:175-185 | the new state is the refilled one, and the result is `WaitFor` of its level and inflow |
| `Quoter.BucketQuoter.GetWaitTimeWithResult` | bucket_quoter/quoter.go:187-201 | same as `GetWaitTime`, and a snapshot of the level before and after the refill and `SeqNo + 1`; `SeqNo` is unchanged |
| `QuoterTest.DrainFullBucket` | bucket_quoter/quoter_test.go:11-36 | a bucket built full at capacity C, with no time passing, admits exactly C+1 rounds of IsAvailable/Use(1); it then answers false at level -1, so the loop ends, and one underflow has been counted |
| `QuoterTest.SnapshotsRepeatSeqNo` | bucket_quoter/quoter.go:138-146 | two consecutive snapshots of a fresh quoter both report sequence number 1, the second starts where the first ended, and the quoter's own sequence number stays 0 |
| `QuoterTest.EmptyThenSpend` | bucket_quoter/quoter.go:223-241 | at 5 tokens/s and capacity 10, a bucket built empty at instant 0 is available at level 0 and unavailable after one spend, at level -1 with the last credit still at 0 |
| `QuoterTest.RefillAfterThreeSeconds` | bucket_quoter/quoter.go:223-241 | at 5 tokens/s and capacity 10, an empty bucket is available at level 0 and unavailable after one spend; three seconds later it is available again, clamped at 10 |

## Left out

- The mutex and the atomic handles: the model has one sequential caller, and inflow and capacity
  are plain fields that callers may assign between operations.
- `Sleep`, `UseWithSleep` and the `sleep = true` path of `UseWithResult`: they really sleep. With a
  deficit, `UseWithSleep` deadlocks, because `Sleep` calls the locking `GetWaitTime` while the
  mutex is held. They also spin when the computed delay is 0. The `UsecWaited` counter, which only
  `Sleep` writes, is therefore never changed by a modelled operation.
- The wall-clock `Now()`: it is replaced by the fake clock.
- Quoter.BucketQuoter.NewBucketQuoter: takes the timer as a parameter instead of building one,
  so that a caller can advance the fake clock.
- Quoter.BucketQuoter.UseWithResult: models only `sleep = false`, because the sleeping path is
  left out as described above.
- `FixedInflow` and `FixedCapacity`: the logic never reads these copies, only the cells behind the
  pointers.
- The `Result` passed by pointer is returned as a value. Every operation writes all three of its
  fields, so the caller sees no difference.
- The `q.Stat != nil` test in `fillBucket`: the constructor never leaves the record missing, so the
  test always passes.
- int64 overflow of `inflow*elapsed` and `-Bucket*1000000`: the model uses unbounded integers, so
  it says nothing about values where Go would wrap around.
- The infinite-loop sleep test in `quoter_test.go`: it never ends and only exercises `Sleep`.
- The HTTP server, admission handler, configuration loading, logging, daemonisation, certificate
  generation, CLI wiring and the Lambda client: none of them holds logic of the quoter's own.
