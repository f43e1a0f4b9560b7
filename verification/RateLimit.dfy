/** The per-principal token bucket. Floats are read as reals; the clock is a parameter. */
module RateLimit {
  import opened Common

  datatype BucketValue = BucketValue(tokens: real, lastRefill: real)

  function Max(a: real, b: real): real { if a < b then b else a }
  function Min(a: real, b: real): real { if b < a then b else a }

  /** What a stretch of time adds to a bucket. */
  function Linear(rate: real): real -> real { elapsed => elapsed * rate }

  /** The level a bucket is refilled to at time now. */
  function Refilled(capacity: real, earn: real -> real, b: BucketValue, now: real): real {
    Min(capacity, b.tokens + earn(Max(0.0, now - b.lastRefill)))
  }

  /** One call against one bucket; a missing bucket starts full. */
  function Take(capacity: real, earn: real -> real, bucket: Option<BucketValue>, now: real): (bool, BucketValue) {
    var level := Refilled(capacity, earn, OrElse(bucket, BucketValue(capacity, now)), now);
    if level < 1.0 then (false, BucketValue(level, now)) else (true, BucketValue(level - 1.0, now))
  }

  class Bucket {
    var tokens: real
    var lastRefill: real

    constructor (tokens: real, lastRefill: real)
      ensures Value() == BucketValue(tokens, lastRefill)
    { this.tokens, this.lastRefill := tokens, lastRefill; }

    function Value(): BucketValue
      reads this
    { BucketValue(tokens, lastRefill) }
  }

  class TokenBucketLimiter {
    const capacity: real
    const refillRate: real
    var buckets: map<string, Bucket>

    constructor (capacity: real, refillRate: real)
      ensures this.capacity == capacity && this.refillRate == refillRate && Valid() && Levels() == map[]
    {
      this.capacity, this.refillRate := capacity, refillRate;
      buckets := map[];
    }

    ghost predicate Valid()
      reads this
    {
      forall j, k | j in buckets && k in buckets && j != k :: buckets[j] != buckets[k]
    }

    ghost function Levels(): map<string, BucketValue>
      reads this, buckets.Values
    {
      map k | k in buckets :: buckets[k].Value()
    }

    method Acquire(key: string, now: real) returns (granted: bool)
      requires Valid()
      modifies this, buckets.Values
      ensures Valid() && fresh(buckets.Values - old(buckets.Values))
      ensures (granted, Levels()) == Call(capacity, Linear(refillRate), old(Levels()), Request(key, now))
    {
      ghost var before := Levels();
      if key !in buckets {
        var b := new Bucket(capacity, now);
        buckets := buckets[key := b];
      }
      var bucket := buckets[key];
      var elapsed := Max(0.0, now - bucket.lastRefill);
      bucket.tokens := Min(capacity, bucket.tokens + elapsed * refillRate);
      bucket.lastRefill := now;
      if bucket.tokens < 1.0 {
        granted := false;
      } else {
        bucket.tokens := bucket.tokens - 1.0;
        granted := true;
      }
      assert Linear(refillRate)(elapsed) == elapsed * refillRate;
      assert (granted, bucket.Value()) == Take(capacity, Linear(refillRate), Get(before, key), now);
      assert Levels() == before[key := bucket.Value()];
    }
  }

  // ---- Runs over many principals -------------------------------------------------------

  datatype Request = Request(key: string, now: real)

  function Call(capacity: real, earn: real -> real, levels: map<string, BucketValue>,
                r: Request): (bool, map<string, BucketValue>) {
    var t := Take(capacity, earn, Get(levels, r.key), r.now);
    (t.0, levels[r.key := t.1])
  }

  /** The limiter's levels after a run from empty, and the answers given. */
  function Levels(capacity: real, earn: real -> real, run: seq<Request>): map<string, BucketValue> {
    if run == [] then map[]
    else Call(capacity, earn, Levels(capacity, earn, run[..|run| - 1]), run[|run| - 1]).1
  }

  function Answers(capacity: real, earn: real -> real, run: seq<Request>): (a: seq<bool>)
    ensures |a| == |run|
  {
    if run == [] then []
    else
      var n := |run| - 1;
      Answers(capacity, earn, run[..n]) + [Call(capacity, earn, Levels(capacity, earn, run[..n]), run[n]).0]
  }

  // ---- Runs of one principal -----------------------------------------------------------

  /** The clock readings of the calls made with one key. */
  function TimesOf(run: seq<Request>, key: string): seq<real> {
    if run == [] then []
    else
      var n := |run| - 1;
      TimesOf(run[..n], key) + (if run[n].key == key then [run[n].now] else [])
  }

  function AnswersOf(run: seq<Request>, answers: seq<bool>, key: string): seq<bool>
    requires |run| == |answers|
  {
    if run == [] then []
    else
      var n := |run| - 1;
      AnswersOf(run[..n], answers[..n], key) + (if run[n].key == key then [answers[n]] else [])
  }

  function BucketAfter(capacity: real, earn: real -> real, times: seq<real>): Option<BucketValue> {
    if times == [] then None
    else
      var n := |times| - 1;
      Some(Take(capacity, earn, BucketAfter(capacity, earn, times[..n]), times[n]).1)
  }

  function Grants(capacity: real, earn: real -> real, times: seq<real>): (g: seq<bool>)
    ensures |g| == |times|
  {
    if times == [] then []
    else
      var n := |times| - 1;
      Grants(capacity, earn, times[..n]) + [Take(capacity, earn, BucketAfter(capacity, earn, times[..n]), times[n]).0]
  }

  lemma AppendTime(capacity: real, earn: real -> real, times: seq<real>, now: real)
    ensures var t := Take(capacity, earn, BucketAfter(capacity, earn, times), now);
            Grants(capacity, earn, times + [now]) == Grants(capacity, earn, times) + [t.0] &&
            BucketAfter(capacity, earn, times + [now]) == Some(t.1)
  {
    assert (times + [now])[..|times|] == times;
  }

  /** Calls on other keys never matter: a principal is answered as if it were alone. */
  lemma {:induction false} KeysAreIndependent(capacity: real, earn: real -> real, run: seq<Request>, key: string)
    ensures AnswersOf(run, Answers(capacity, earn, run), key) == Grants(capacity, earn, TimesOf(run, key))
    ensures Get(Levels(capacity, earn, run), key) == BucketAfter(capacity, earn, TimesOf(run, key))
  {
    if run == [] {
    } else {
      var n := |run| - 1;
      KeysAreIndependent(capacity, earn, run[..n], key);
      OneMoreRequest(capacity, earn, run, key);
      if run[n].key == key {
        AppendTime(capacity, earn, TimesOf(run[..n], key), run[n].now);
        assert TimesOf(run, key) == TimesOf(run[..n], key) + [run[n].now];
      } else {
        assert TimesOf(run, key) == TimesOf(run[..n], key);
      }
    }
  }

  lemma OneMoreRequest(capacity: real, earn: real -> real, run: seq<Request>, key: string)
    requires run != []
    ensures var n := |run| - 1;
            var levels := Levels(capacity, earn, run[..n]);
            var t := Take(capacity, earn, Get(levels, run[n].key), run[n].now);
            && AnswersOf(run, Answers(capacity, earn, run), key) ==
               AnswersOf(run[..n], Answers(capacity, earn, run[..n]), key) + (if run[n].key == key then [t.0] else [])
            && Get(Levels(capacity, earn, run), key) == if run[n].key == key then Some(t.1) else Get(levels, key)
  {
    var n := |run| - 1;
    assert Answers(capacity, earn, run)[..n] == Answers(capacity, earn, run[..n]);
  }

  // ---- The bucket is exactly greedy ----------------------------------------------------

  /** What the clock step into call i earns; a clock that steps back earns nothing. */
  function Step(earn: real -> real, times: seq<real>, i: nat): real
    requires 0 < i < |times|
  {
    earn(Max(0.0, times[i] - times[i - 1]))
  }

  /** What is earned between calls k and n. */
  function Earned(earn: real -> real, times: seq<real>, k: nat, n: nat): real
    requires k <= n < |times|
    decreases n
  {
    if k == n then 0.0 else Earned(earn, times, k, n - 1) + Step(earn, times, n)
  }

  /** The grants among calls k..n-1. */
  function Count(g: seq<bool>, k: nat, n: nat): nat
    requires k <= n <= |g|
    decreases n
  {
    if k == n then 0 else Count(g, k, n - 1) + (if g[n - 1] then 1 else 0)
  }

  /** Room left for call n by the window that opens at call k. */
  function Room(capacity: real, earn: real -> real, times: seq<real>, g: seq<bool>, k: nat, n: nat): real
    requires k <= n < |times| && |g| == |times|
  {
    capacity + Earned(earn, times, k, n) - Count(g, k, n) as real
  }

  /** The level the bucket has when call n is decided. */
  function LevelAt(capacity: real, earn: real -> real, times: seq<real>, n: nat): real
    requires n < |times|
  {
    Refilled(capacity, earn, OrElse(BucketAfter(capacity, earn, times[..n]), BucketValue(capacity, times[n])), times[n])
  }

  lemma {:induction false} GrantAt(capacity: real, earn: real -> real, times: seq<real>, n: nat)
    requires n < |times|
    ensures Grants(capacity, earn, times)[n] <==> LevelAt(capacity, earn, times, n) >= 1.0
  {
    var m := |times| - 1;
    if n < m {
      GrantAt(capacity, earn, times[..m], n);
      assert times[..m][..n] == times[..n];
    }
  }

  /** Between calls the level loses the grant just made and gains what the step earns. */
  lemma LevelStep(capacity: real, earn: real -> real, times: seq<real>, n: nat)
    requires 0 < n < |times|
    ensures var spent := if Grants(capacity, earn, times)[n - 1] then 1.0 else 0.0;
            LevelAt(capacity, earn, times, n) ==
            Min(capacity, LevelAt(capacity, earn, times, n - 1) - spent + Step(earn, times, n))
  {
    GrantAt(capacity, earn, times, n - 1);
    BucketBefore(capacity, earn, times, n);
    var level := LevelAt(capacity, earn, times, n - 1);
    var left := if level < 1.0 then level else level - 1.0;
    assert LevelAt(capacity, earn, times, n) == Refilled(capacity, earn, BucketValue(left, times[n - 1]), times[n]);
  }

  lemma BucketBefore(capacity: real, earn: real -> real, times: seq<real>, n: nat)
    requires 0 < n < |times|
    ensures var level := LevelAt(capacity, earn, times, n - 1);
            BucketAfter(capacity, earn, times[..n]) ==
            Some(BucketValue(if level < 1.0 then level else level - 1.0, times[n - 1]))
  {
    assert times[..n][..n - 1] == times[..n - 1];
    assert times[..n][n - 1] == times[n - 1];
  }

  /** The level is the least room over all windows ending at call n. */
  lemma {:induction false} LevelIsLeastRoom(capacity: real, earn: real -> real, times: seq<real>, n: nat)
    returns (tightest: nat)
    requires n < |times| && earn(0.0) == 0.0
    ensures var g := Grants(capacity, earn, times);
      && tightest <= n && LevelAt(capacity, earn, times, n) == Room(capacity, earn, times, g, tightest, n)
      && forall k | 0 <= k <= n :: LevelAt(capacity, earn, times, n) <= Room(capacity, earn, times, g, k, n)
  {
    var g := Grants(capacity, earn, times);
    if n == 0 {
      tightest := 0;
      assert times[..0] == [];
    } else {
      var before := LevelIsLeastRoom(capacity, earn, times, n - 1);
      LevelStep(capacity, earn, times, n);
      assert Room(capacity, earn, times, g, n, n) == capacity;
      forall k | 0 <= k < n
        ensures LevelAt(capacity, earn, times, n) <= Room(capacity, earn, times, g, k, n)
      {
        assert LevelAt(capacity, earn, times, n - 1) <= Room(capacity, earn, times, g, k, n - 1);
      }
      tightest := if LevelAt(capacity, earn, times, n) == capacity then n else before;
    }
  }

  /** A call is granted exactly when no window ending with it would overflow: no call is
      refused that the limit allows, and none is granted that it forbids. */
  lemma GreedyExactly(capacity: real, earn: real -> real, times: seq<real>, n: nat)
    requires n < |times| && earn(0.0) == 0.0
    ensures var g := Grants(capacity, earn, times);
      g[n] <==> forall k | 0 <= k <= n ::
        Count(g, k, n) as real + 1.0 <= capacity + Earned(earn, times, k, n)
  {
    GrantAt(capacity, earn, times, n);
    var tightest := LevelIsLeastRoom(capacity, earn, times, n);
    var g := Grants(capacity, earn, times);
    assert g[n] <==> Count(g, tightest, n) as real + 1.0 <= capacity + Earned(earn, times, tightest, n);
    forall k | 0 <= k <= n && g[n]
      ensures Count(g, k, n) as real + 1.0 <= capacity + Earned(earn, times, k, n)
    {
      assert 1.0 <= LevelAt(capacity, earn, times, n) <= Room(capacity, earn, times, g, k, n);
    }
  }

  /** A clock that never steps back. */
  ghost predicate Steady(times: seq<real>) { forall i, j | 0 <= i <= j < |times| :: times[i] <= times[j] }

  /** With such a clock, what is earned is the rate times the time passed. */
  lemma {:induction false} EarnedIsRateTimesElapsed(rate: real, times: seq<real>, k: nat, n: nat)
    requires k <= n < |times|
    requires Steady(times)
    ensures Earned(Linear(rate), times, k, n) == rate * (times[n] - times[k])
  {
    if k == n {
    } else {
      EarnedIsRateTimesElapsed(rate, times, k, n - 1);
      Distribute(rate, times[n] - times[n - 1], times[n - 1] - times[k], times[n] - times[k]);
    }
  }

  lemma Distribute(rate: real, a: real, b: real, c: real)
    requires a + b == c
    ensures a * rate + rate * b == rate * c
  {
  }

  /** One more call at n keeps the window since k within capacity + rate * length. */
  ghost predicate Fits(capacity: real, rate: real, times: seq<real>, g: seq<bool>, k: nat, n: nat)
    requires k <= n < |times| && |g| == |times|
  {
    Count(g, k, n) as real + 1.0 <= capacity + rate * (times[n] - times[k])
  }

  /** On a steady clock: granted if and only if every window still fits. */
  lemma GrantedIffEveryWindowFits(capacity: real, rate: real, times: seq<real>, n: nat)
    requires n < |times|
    requires Steady(times)
    ensures var g := Grants(capacity, Linear(rate), times);
            g[n] <==> forall k | 0 <= k <= n :: Fits(capacity, rate, times, g, k, n)
  {
    var g := Grants(capacity, Linear(rate), times);
    assert Linear(rate)(0.0) == 0.0;
    GreedyExactly(capacity, Linear(rate), times, n);
    forall k | 0 <= k <= n
      ensures Fits(capacity, rate, times, g, k, n) <==>
              Count(g, k, n) as real + 1.0 <= capacity + Earned(Linear(rate), times, k, n)
    {
      EarnedIsRateTimesElapsed(rate, times, k, n);
    }
    if !g[n] {
      var k :| 0 <= k <= n && !(Count(g, k, n) as real + 1.0 <= capacity + Earned(Linear(rate), times, k, n));
      assert !Fits(capacity, rate, times, g, k, n);
    } else {
      forall k | 0 <= k <= n ensures Fits(capacity, rate, times, g, k, n) {
        assert Count(g, k, n) as real + 1.0 <= capacity + Earned(Linear(rate), times, k, n);
      }
    }
  }

  /** A principal's windows each admit at most what the capacity and the earnings allow. */
  lemma {:induction false} WindowBound(capacity: real, earn: real -> real, times: seq<real>, k: nat, n: nat)
    requires capacity >= 0.0 && k <= n < |times|
    requires earn(0.0) == 0.0 && forall t | t >= 0.0 :: earn(t) >= 0.0
    ensures Count(Grants(capacity, earn, times), k, n + 1) as real <= capacity + Earned(earn, times, k, n)
    decreases n
  {
    GreedyExactly(capacity, earn, times, n);
    if !Grants(capacity, earn, times)[n] && k < n {
      WindowBound(capacity, earn, times, k, n - 1);
      assert Step(earn, times, n) >= 0.0;
    }
  }

  lemma NonNegative(a: real, b: real)
    requires a >= 0.0 && b >= 0.0
    ensures a * b >= 0.0
  {
  }

  /** Every window of every principal, whatever the others do, admits at most
      capacity + rate * length calls. */
  lemma EveryWindowIsBounded(capacity: real, rate: real, run: seq<Request>, key: string,
                             times: seq<real>, answers: seq<bool>, k: nat, n: nat)
    requires capacity >= 0.0 && rate >= 0.0
    requires Steady(times)
    requires times == TimesOf(run, key) && answers == AnswersOf(run, Answers(capacity, Linear(rate), run), key)
    requires k <= n < |times|
    ensures |answers| == |times|
    ensures Count(answers, k, n + 1) as real <= capacity + rate * (times[n] - times[k])
  {
    assert answers == Grants(capacity, Linear(rate), times) by {
      KeysAreIndependent(capacity, Linear(rate), run, key);
    }
    WindowOfTimes(capacity, rate, times, k, n);
  }

  lemma WindowOfTimes(capacity: real, rate: real, times: seq<real>, k: nat, n: nat)
    requires capacity >= 0.0 && rate >= 0.0 && k <= n < |times|
    requires Steady(times)
    ensures Count(Grants(capacity, Linear(rate), times), k, n + 1) as real <= capacity + rate * (times[n] - times[k])
  {
    EarnedIsRateTimesElapsed(rate, times, k, n);
    LinearEarns(rate);
    WindowBound(capacity, Linear(rate), times, k, n);
    var bound := Earned(Linear(rate), times, k, n);
    assert bound == rate * (times[n] - times[k]);
  }

  lemma LinearEarns(rate: real)
    requires rate >= 0.0
    ensures Linear(rate)(0.0) == 0.0 && forall t | t >= 0.0 :: Linear(rate)(t) >= 0.0
  {
    forall t | t >= 0.0 ensures Linear(rate)(t) >= 0.0 { NonNegative(t, rate); }
  }

  /** A run with one steady clock is steady for every principal. */
  lemma {:induction false} TimesMonotone(run: seq<Request>, key: string)
    requires forall i, j | 0 <= i <= j < |run| :: run[i].now <= run[j].now
    ensures var ts := TimesOf(run, key);
      Steady(ts) && (ts != [] ==> run != [] && ts[|ts| - 1] <= run[|run| - 1].now)
  {
    if run == [] {
    } else {
      TimesMonotone(run[..|run| - 1], key);
    }
  }

  // ---- Clocks that step back -------------------------------------------------------------

  /** The limiter is exactly greedy by the readings of this clock. */
  ghost predicate Exact(capacity: real, rate: real, times: seq<real>) {
    var g := Grants(capacity, Linear(rate), times);
    forall n | 0 <= n < |times| :: g[n] <==> forall k | 0 <= k <= n :: Fits(capacity, rate, times, g, k, n)
  }

  /** Every window by this clock admits at most capacity + rate * length calls. */
  ghost predicate Bounded(capacity: real, rate: real, times: seq<real>) {
    forall k, n | 0 <= k <= n < |times| :: InBound(capacity, rate, times, k, n)
  }

  ghost predicate InBound(capacity: real, rate: real, times: seq<real>, k: nat, n: nat)
    requires k <= n < |times|
  {
    Count(Grants(capacity, Linear(rate), times), k, n + 1) as real <= capacity + rate * (times[n] - times[k])
  }

  lemma {:induction false} StepBack(times: seq<real>) returns (i: nat)
    requires !Steady(times)
    ensures i + 1 < |times| && times[i + 1] < times[i]
  {
    var n := |times| - 1;
    if n > 0 && times[n] < times[n - 1] {
      i := n - 1;
    } else {
      if Steady(times[..n]) {
        assert forall a, b | 0 <= a <= b < n :: times[..n][a] <= times[..n][b];
        assert forall a | 0 <= a < n :: times[..n][a] <= times[..n][n - 1] <= times[n];
        assert Steady(times);
        assert false;
      }
      i := StepBack(times[..n]);
    }
  }

  lemma {:induction false} EarnedNonNegative(earn: real -> real, times: seq<real>, k: nat, n: nat)
    requires k <= n < |times| && forall t | t >= 0.0 :: earn(t) >= 0.0
    ensures Earned(earn, times, k, n) >= 0.0
    decreases n
  {
    if k == n {
    } else {
      EarnedNonNegative(earn, times, k, n - 1);
    }
  }

  lemma {:induction false} CountAtMost(g: seq<bool>, k: nat, n: nat)
    requires k <= n <= |g|
    ensures Count(g, k, n) <= n - k
    decreases n
  {
    if k == n {
    } else {
      CountAtMost(g, k, n - 1);
    }
  }

  /** A bucket that holds as many tokens as there are calls grants them all. */
  lemma AllGranted(earn: real -> real, times: seq<real>, n: nat)
    requires n < |times| && earn(0.0) == 0.0 && forall t | t >= 0.0 :: earn(t) >= 0.0
    ensures Grants(|times| as real, earn, times)[n]
  {
    var capacity := |times| as real;
    GrantAt(capacity, earn, times, n);
    var k := LevelIsLeastRoom(capacity, earn, times, n);
    EarnedNonNegative(earn, times, k, n);
    CountAtMost(Grants(capacity, earn, times), k, n);
  }

  /** A full bucket whose rate pays back exactly its capacity over the step. */
  lemma StepBackBreaks(times: seq<real>, i: nat) returns (capacity: real, rate: real)
    requires i + 1 < |times| && times[i + 1] < times[i]
    ensures capacity >= 0.0 && rate >= 0.0 && !Exact(capacity, rate, times) && !Bounded(capacity, rate, times)
  {
    capacity := |times| as real;
    var step := times[i] - times[i + 1];
    rate := capacity / step;
    assert rate * step == capacity;
    Negated(rate, step, times[i + 1] - times[i]);
    LinearEarns(rate);
    AllGranted(Linear(rate), times, i);
    AllGranted(Linear(rate), times, i + 1);
    var g := Grants(capacity, Linear(rate), times);
    assert Count(g, i, i) == 0 && Count(g, i, i + 1) == 1 && Count(g, i, i + 2) == 2;
    assert !Fits(capacity, rate, times, g, i, i + 1);
    assert !InBound(capacity, rate, times, i, i + 1);
  }

  lemma Negated(rate: real, a: real, b: real)
    requires b == -a
    ensures rate * b == -(rate * a)
  {
  }

  /** The limiter is exactly greedy by a clock, whatever its capacity and rate, if and only if
      that clock never steps back. */
  lemma ExactIffSteady(times: seq<real>)
    ensures Steady(times) <==> forall capacity, rate | capacity >= 0.0 && rate >= 0.0 :: Exact(capacity, rate, times)
  {
    if Steady(times) {
      forall capacity, rate | capacity >= 0.0 && rate >= 0.0 ensures Exact(capacity, rate, times) {
        forall n | 0 <= n < |times|
          ensures var g := Grants(capacity, Linear(rate), times);
            g[n] <==> forall k | 0 <= k <= n :: Fits(capacity, rate, times, g, k, n)
        {
          GrantedIffEveryWindowFits(capacity, rate, times, n);
        }
      }
    } else {
      var i := StepBack(times);
      var _, _ := StepBackBreaks(times, i);
    }
  }

  /** So is the bound on every window. */
  lemma BoundedIffSteady(times: seq<real>)
    ensures Steady(times) <==> forall capacity, rate | capacity >= 0.0 && rate >= 0.0 :: Bounded(capacity, rate, times)
  {
    if Steady(times) {
      forall capacity, rate | capacity >= 0.0 && rate >= 0.0 ensures Bounded(capacity, rate, times) {
        forall k, n | 0 <= k <= n < |times| ensures InBound(capacity, rate, times, k, n) {
          WindowOfTimes(capacity, rate, times, k, n);
        }
      }
    } else {
      var i := StepBack(times);
      var _, _ := StepBackBreaks(times, i);
    }
  }
}
