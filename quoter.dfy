/**
 * The BucketQuoter of bucket_quoter/quoter.go as a class whose methods update
 * its fields in place. Each method is proved to move the quoter's state as the
 * matching function of BucketSpec does, and to return what that function
 * returns. The mutex is left out: one caller at a time.
 */
module Quoter {
  import Timer
  import BucketSpec

  /** The statistics record a quoter updates; several quoters may share one. */
  class BucketQuoterStat {
    var bucketUnderflows: int
    var aggregateInflow: int
    var tokensUsed: int
    var msgPassed: int
    var usecWaited: int

    constructor ()
      ensures Counters() == BucketSpec.ZeroCounters
    {
      bucketUnderflows, aggregateInflow, tokensUsed, msgPassed, usecWaited := 0, 0, 0, 0, 0;
    }

    function Counters(): BucketSpec.Counters
      reads this
    {
      BucketSpec.Counters(bucketUnderflows, aggregateInflow, tokensUsed, msgPassed, usecWaited)
    }
  }

  class BucketQuoter {
    const timer: Timer.InstantTimerMs
    var bucket: int
    var seqNo: int
    var lastAdd: int
    /** Tokens credited per second; callers may change it between operations. */
    var inflowTokensPerSecond: int
    /** The most the level may reach by a credit; callers may change it between operations. */
    var bucketTokensCapacity: int
    const stat: BucketQuoterStat

    /** The quoter's state as a value. */
    function Model(): BucketSpec.State
      reads this, stat
    {
      BucketSpec.State(bucket, lastAdd, seqNo, inflowTokensPerSecond, bucketTokensCapacity, stat.Counters())
    }

    /**
     * Starts full or empty, with sequence number 0 and the last credit at the
     * timer's current instant. Without a statistics record it makes a fresh one.
     */
    constructor NewBucketQuoter(inflow: int, capacity: int, fill: bool, stat: BucketQuoterStat?, timer: Timer.InstantTimerMs)
      ensures this.timer == timer
      ensures stat != null ==> this.stat == stat
      ensures stat == null ==> fresh(this.stat) && this.stat.Counters() == BucketSpec.ZeroCounters
      ensures bucket == (if fill then capacity else 0)
      ensures seqNo == 0 && lastAdd == timer.now
      ensures inflowTokensPerSecond == inflow && bucketTokensCapacity == capacity
    {
      var st: BucketQuoterStat;
      if stat == null {
        st := new BucketQuoterStat();
      } else {
        st := stat;
      }
      var start := timer.Now();
      this.timer := timer;
      this.bucket := if fill then capacity else 0;
      this.seqNo := 0;
      this.lastAdd := start;
      this.inflowTokensPerSecond := inflow;
      this.bucketTokensCapacity := capacity;
      this.stat := st;
    }

    // -------------------------------------------------------------------------
    // Private steps

    /** fillBucket: credit the tokens accrued since the last credit, clamped to capacity. */
    method FillBucket()
      modifies this, stat
      ensures Model() == BucketSpec.Fill(old(Model()), timer.now)
    {
      var timerNow := timer.Now();
      var elapsed := Timer.InstantTimerMs.Duration(lastAdd, timerNow);
      if inflowTokensPerSecond * elapsed > timer.Resolution() {
        var inflow := inflowTokensPerSecond * elapsed / timer.Resolution();
        stat.aggregateInflow := stat.aggregateInflow + inflow;
        bucket := bucket + inflow;
        if bucket > bucketTokensCapacity {
          bucket := bucketTokensCapacity;
        }
        lastAdd := timerNow;
      }
    }

    /** isAvailableNoLock: refill, then whether the level is non-negative. */
    method IsAvailableNoLock() returns (ok: bool)
      modifies this, stat
      ensures Model() == BucketSpec.Fill(old(Model()), timer.now)
      ensures ok <==> bucket >= 0
    {
      FillBucket();
      ok := bucket >= 0;
    }

    /** useNoLock with sleep = false: spend the tokens and count them. */
    method UseNoLock(tokens: int)
      modifies this, stat
      ensures Model() == BucketSpec.Use(old(Model()), tokens)
    {
      bucket := bucket - tokens;
      stat.tokensUsed := stat.tokensUsed + tokens;
      stat.msgPassed := stat.msgPassed + 1;
    }

    /** addNoLock: credit the tokens, clamped to capacity. */
    method AddNoLock(tokens: int)
      modifies this
      ensures Model() == BucketSpec.Add(old(Model()), tokens)
    {
      bucket := bucket + tokens;
      if bucket > bucketTokensCapacity {
        bucket := bucketTokensCapacity;
      }
    }

    // -------------------------------------------------------------------------
    // Public operations

    method IsAvailable() returns (ok: bool)
      modifies this, stat
      ensures BucketSpec.IsAvailable(old(Model()), timer.now) == BucketSpec.Step(Model(), ok)
      ensures ok <==> bucket >= 0
    {
      FillBucket();
      if bucket < 0 {
        stat.bucketUnderflows := stat.bucketUnderflows + 1;
      }
      ok := bucket >= 0;
    }

    method IsAvailableWithResult() returns (ok: bool, r: BucketSpec.Result)
      modifies this, stat
      ensures BucketSpec.IsAvailable(old(Model()), timer.now) == BucketSpec.Step(Model(), ok)
      ensures r == BucketSpec.Snapshot(old(Model()), Model()) && seqNo == old(seqNo)
    {
      var before := bucket;
      FillBucket();
      if bucket < 0 {
        stat.bucketUnderflows := stat.bucketUnderflows + 1;
      }
      r := BucketSpec.Result(before, bucket, seqNo + 1);
      ok := bucket >= 0;
    }

    method GetAvailable() returns (n: int)
      modifies this, stat
      ensures BucketSpec.GetAvailable(old(Model()), timer.now) == BucketSpec.Step(Model(), n)
      ensures n >= 0
    {
      FillBucket();
      if bucket > 0 {
        n := bucket;
      } else {
        n := 0;
      }
    }

    method GetAvailableWithResult() returns (n: int, r: BucketSpec.Result)
      modifies this, stat
      ensures BucketSpec.GetAvailable(old(Model()), timer.now) == BucketSpec.Step(Model(), n)
      ensures r == BucketSpec.Snapshot(old(Model()), Model()) && seqNo == old(seqNo)
    {
      var before := bucket;
      FillBucket();
      r := BucketSpec.Result(before, bucket, seqNo + 1);
      if bucket > 0 {
        n := bucket;
      } else {
        n := 0;
      }
    }

    method Use(tokens: int)
      modifies this, stat
      ensures Model() == BucketSpec.Use(old(Model()), tokens)
    {
      UseNoLock(tokens);
    }

    /** UseWithResult with sleep = false. */
    method UseWithResult(tokens: int) returns (r: BucketSpec.Result)
      modifies this, stat
      ensures Model() == BucketSpec.Use(old(Model()), tokens)
      ensures r == BucketSpec.Snapshot(old(Model()), Model()) && seqNo == old(seqNo)
    {
      var before := bucket;
      UseNoLock(tokens);
      r := BucketSpec.Result(before, bucket, seqNo + 1);
    }

    method UseAndFill(tokens: int) returns (level: int)
      modifies this, stat
      ensures BucketSpec.UseAndFill(old(Model()), tokens, timer.now) == BucketSpec.Step(Model(), level)
    {
      UseNoLock(tokens);
      FillBucket();
      level := bucket;
    }

    method Add(tokens: int)
      modifies this
      ensures Model() == BucketSpec.Add(old(Model()), tokens)
    {
      AddNoLock(tokens);
    }

    method AddWithResult(tokens: int) returns (r: BucketSpec.Result)
      modifies this
      ensures Model() == BucketSpec.Add(old(Model()), tokens)
      ensures r == BucketSpec.Snapshot(old(Model()), Model()) && seqNo == old(seqNo)
    {
      var before := bucket;
      AddNoLock(tokens);
      r := BucketSpec.Result(before, bucket, seqNo + 1);
    }

    /** GetWaitTime; with a deficit and a zero inflow Go's division panics, after the refill took place. */
    method GetWaitTime() returns (w: BucketSpec.WaitTime)
      modifies this, stat
      ensures BucketSpec.GetWaitTime(old(Model()), timer.now) == BucketSpec.Step(Model(), w)
    {
      FillBucket();
      if bucket >= 0 {
        w := BucketSpec.Micros(0);
      } else if inflowTokensPerSecond == 0 {
        w := BucketSpec.DivisionByZero;
      } else {
        w := BucketSpec.Micros((-bucket * BucketSpec.MicrosPerSecond) / inflowTokensPerSecond);
      }
    }

    method GetWaitTimeWithResult() returns (w: BucketSpec.WaitTime, r: BucketSpec.Result)
      modifies this, stat
      ensures BucketSpec.GetWaitTime(old(Model()), timer.now) == BucketSpec.Step(Model(), w)
      ensures r == BucketSpec.Snapshot(old(Model()), Model()) && seqNo == old(seqNo)
    {
      var before := bucket;
      FillBucket();
      r := BucketSpec.Result(before, bucket, seqNo + 1);
      if bucket >= 0 {
        w := BucketSpec.Micros(0);
      } else if inflowTokensPerSecond == 0 {
        w := BucketSpec.DivisionByZero;
      } else {
        w := BucketSpec.Micros((-bucket * BucketSpec.MicrosPerSecond) / inflowTokensPerSecond);
      }
    }
  }
}
