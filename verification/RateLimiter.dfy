/** The token bucket of the rate limiter, proved to be the greedy policy for the
    constraint "every window of calls admits at most burst + rate * length".

    Time is the steady clock in seconds, passed in as an argument. The source's
    `double` is modelled by `real`.
  */
module RateLimiting {
  import opened CommonTypes

  datatype RateLimitConfig = RateLimitConfig(requestsPerSecond: uint32, burstSize: uint32)

  datatype Decision = Allow | Reject

  /** The tokens earned between two instants. */
  function Earned(config: RateLimitConfig, lo: real, hi: real): real {
    config.requestsPerSecond as real * (hi - lo)
  }

  function MinReal(a: real, b: real): real {
    if a <= b then a else b
  }

  lemma EarnedIsRate(config: RateLimitConfig, lo: real, hi: real)
    ensures Earned(config, lo, hi) == config.requestsPerSecond as real * (hi - lo)
  {
  }

  lemma EarnedAdds(config: RateLimitConfig, a: real, b: real, c: real)
    ensures Earned(config, a, b) + Earned(config, b, c) == Earned(config, a, c)
  {
  }

  lemma EarnedGrows(config: RateLimitConfig, a: real, b: real, c: real)
    requires b <= c
    ensures Earned(config, a, a) == 0.0
    ensures Earned(config, a, b) <= Earned(config, a, c)
  {
    var rate := config.requestsPerSecond as real;
    assert rate * (c - b) >= 0.0;
    EarnedAdds(config, a, b, c);
  }

  lemma EarnedInside(config: RateLimitConfig, a: real, b: real, c: real, d: real)
    requires a <= b && c <= d
    ensures Earned(config, b, c) <= Earned(config, a, d)
  {
    EarnedGrows(config, a, a, b);
    EarnedGrows(config, a, c, d);
    EarnedAdds(config, a, b, c);
  }

  ghost predicate NonDecreasing(times: seq<real>) {
    forall i, j | 0 <= i <= j < |times| :: times[i] <= times[j]
  }

  /** How many of the calls `lo <= i < hi` were admitted. */
  function Admitted(verdicts: seq<Decision>, lo: nat, hi: nat): nat
    requires lo <= hi <= |verdicts|
  {
    if lo == hi then 0
    else Admitted(verdicts, lo, hi - 1) + if verdicts[hi - 1] == Allow then 1 else 0
  }

  lemma {:induction false} AdmittedSplits(verdicts: seq<Decision>, a: nat, b: nat, c: nat)
    requires a <= b <= c <= |verdicts|
    ensures Admitted(verdicts, a, c) == Admitted(verdicts, a, b) + Admitted(verdicts, b, c)
    decreases c
  {
    if b < c {
      AdmittedSplits(verdicts, a, b, c - 1);
    }
  }

  lemma {:induction false} AdmittedOfPrefix(verdicts: seq<Decision>, longer: seq<Decision>, lo: nat, hi: nat)
    requires lo <= hi <= |verdicts| && verdicts <= longer
    ensures Admitted(longer, lo, hi) == Admitted(verdicts, lo, hi)
    decreases hi
  {
    if lo < hi {
      AdmittedOfPrefix(verdicts, longer, lo, hi - 1);
    }
  }

  /** What the window that starts at call `k` still has to spare at call `n`, before call `n` is decided. */
  function Headroom(config: RateLimitConfig, times: seq<real>, verdicts: seq<Decision>, k: nat, n: nat): real
    requires k <= n < |times| && n <= |verdicts|
  {
    config.burstSize as real + Earned(config, times[k], times[n]) - Admitted(verdicts, k, n) as real
  }

  /** Admitting call `n` keeps every window that ends at `n` within its bound. */
  ghost predicate Fits(config: RateLimitConfig, times: seq<real>, verdicts: seq<Decision>, n: nat)
    requires n < |times| && n <= |verdicts|
  {
    forall k: nat | k <= n :: Headroom(config, times, verdicts, k, n) >= 1.0
  }

  /** `level` is the least headroom of all windows that end at call `n`. */
  ghost predicate LeastHeadroom(config: RateLimitConfig, times: seq<real>, verdicts: seq<Decision>, n: nat, level: real)
    requires n < |times| && n <= |verdicts|
  {
    && (forall k: nat | k <= n :: level <= Headroom(config, times, verdicts, k, n))
    && (exists k: nat | k <= n :: level == Headroom(config, times, verdicts, k, n))
  }

  /** Every window of calls admits at most burst + rate * (length of the window). */
  ghost predicate Conforms(config: RateLimitConfig, times: seq<real>, verdicts: seq<Decision>)
    requires |times| == |verdicts|
  {
    forall i: nat, j: nat | i <= j < |times| ::
      Admitted(verdicts, i, j + 1) as real <= config.burstSize as real + Earned(config, times[i], times[j])
  }

  /** A call is admitted exactly when that breaks no window. */
  ghost predicate Greedy(config: RateLimitConfig, times: seq<real>, verdicts: seq<Decision>)
    requires |times| == |verdicts|
  {
    forall n: nat | n < |times| :: verdicts[n] == Allow <==> Fits(config, times, verdicts, n)
  }

  /** The run so far is greedy, and the bucket holds the least headroom, less the last admission. */
  ghost predicate BucketHolds(config: RateLimitConfig, times: seq<real>, verdicts: seq<Decision>, tokens: real,
                              last: real) {
    && |times| == |verdicts|
    && NonDecreasing(times)
    && Greedy(config, times, verdicts)
    && if times == [] then tokens == config.burstSize as real
       else
         var n := |times| - 1;
         && last == times[n]
         && tokens >= 0.0
         && LeastHeadroom(config, times, verdicts, n, tokens + if verdicts[n] == Allow then 1.0 else 0.0)
  }

  /** One more admission fits into every window that ends at call `n`: burst and rate written out. */
  ghost predicate HasRoom(config: RateLimitConfig, times: seq<real>, verdicts: seq<Decision>, n: nat)
    requires n < |times| && n <= |verdicts|
  {
    forall k: nat | k <= n ::
      Admitted(verdicts, k, n) as real + 1.0
      <= config.burstSize as real + config.requestsPerSecond as real * (times[n] - times[k])
  }

  lemma FitsIsRoom(config: RateLimitConfig, times: seq<real>, verdicts: seq<Decision>, n: nat)
    requires n < |times| && n <= |verdicts|
    ensures Fits(config, times, verdicts, n) <==> HasRoom(config, times, verdicts, n)
  {
    assert forall k: nat | k <= n ::
        Earned(config, times[k], times[n]) == config.requestsPerSecond as real * (times[n] - times[k]);
    if HasRoom(config, times, verdicts, n) {
      forall k: nat | k <= n
        ensures Headroom(config, times, verdicts, k, n) >= 1.0
      {
        assert Admitted(verdicts, k, n) as real + 1.0
            <= config.burstSize as real + config.requestsPerSecond as real * (times[n] - times[k]);
      }
    }
    if Fits(config, times, verdicts, n) {
      forall k: nat | k <= n
        ensures Admitted(verdicts, k, n) as real + 1.0
             <= config.burstSize as real + config.requestsPerSecond as real * (times[n] - times[k])
      {
        assert Headroom(config, times, verdicts, k, n) >= 1.0;
      }
    }
  }

  lemma RoomForNextCall(config: RateLimitConfig, times: seq<real>, verdicts: seq<Decision>, now: real,
                        decision: Decision)
    requires |times| == |verdicts|
    ensures Fits(config, times + [now], verdicts, |times|)
            <==> HasRoom(config, times + [now], verdicts + [decision], |times|)
  {
    FitsOfPrefix(config, times + [now], times + [now], verdicts, verdicts + [decision], |times|);
    FitsIsRoom(config, times + [now], verdicts + [decision], |times|);
  }

  class RateLimiter {
    const config: RateLimitConfig
    var tokens: real
    var lastRefillTime: real
    // the calls made since construction or the last reset, and how each was decided
    ghost var times: seq<real>
    ghost var verdicts: seq<Decision>

    ghost predicate Valid()
      reads this
    {
      BucketHolds(config, times, verdicts, tokens, lastRefillTime)
    }

    constructor (config: RateLimitConfig, now: real)
      ensures Valid() && this.config == config
      ensures times == [] && verdicts == [] && lastRefillTime == now
    {
      this.config := config;
      tokens := config.burstSize as real;
      lastRefillTime := now;
      times, verdicts := [], [];
    }

    method CheckAllow(now: real) returns (decision: Decision)
      requires Valid() && lastRefillTime <= now
      modifies this
      ensures Valid()
      ensures times == old(times) + [now] && verdicts == old(verdicts) + [decision]
      ensures lastRefillTime == now
      ensures decision == Allow <==> Fits(config, times, old(verdicts), |old(times)|)
      ensures LeastHeadroom(config, times, old(verdicts), |old(times)|, tokens + if decision == Allow then 1.0 else 0.0)
      ensures decision == Allow <==> HasRoom(config, times, verdicts, |old(times)|)
    {
      CallKeepsBucket(config, times, verdicts, now, tokens, lastRefillTime);
      var tokensToAdd := Earned(config, lastRefillTime, now);
      tokens := MinReal(tokens + tokensToAdd, config.burstSize as real);
      lastRefillTime := now;
      ghost var level := tokens;

      if tokens >= 1.0 {
        tokens := tokens - 1.0;
        decision := Allow;
      } else {
        decision := Reject;
      }
      assert decision == (if level >= 1.0 then Allow else Reject);
      assert BucketHolds(config, times + [now], verdicts + [decision], tokens, now);
      times, verdicts := times + [now], verdicts + [decision];
    }

    /** Starts a new run with a full bucket. */
    method Reset(now: real)
      modifies this
      ensures Valid() && times == [] && verdicts == [] && lastRefillTime == now
    {
      tokens := config.burstSize as real;
      lastRefillTime := now;
      times, verdicts := [], [];
    }
  }

  lemma HeadroomAtNextCall(config: RateLimitConfig, times: seq<real>, verdicts: seq<Decision>, now: real, k: nat)
    requires k < |times| == |verdicts|
    ensures var n := |times|;
            Headroom(config, times + [now], verdicts, k, n)
            == Headroom(config, times, verdicts, k, n - 1)
               - (if verdicts[n - 1] == Allow then 1.0 else 0.0) + Earned(config, times[n - 1], now)
  {
    EarnedAdds(config, times[k], times[|times| - 1], now);
  }

  /** One refill turns the least headroom of call n - 1 into the least headroom of call n. */
  lemma RefillIsLeastHeadroom(config: RateLimitConfig, times: seq<real>, verdicts: seq<Decision>, now: real,
                              left: real, last: real, level: real)
    requires BucketHolds(config, times, verdicts, left, last) && last <= now
    requires level == MinReal(left + Earned(config, last, now), config.burstSize as real)
    ensures level >= 0.0
    ensures LeastHeadroom(config, times + [now], verdicts, |times|, level)
  {
    var n := |times|;
    var all := times + [now];
    EarnedGrows(config, last, last, now);
    EarnedGrows(config, now, now, now);
    assert Headroom(config, all, verdicts, n, n) == config.burstSize as real;
    if n == 0 {
      assert level == Headroom(config, all, verdicts, 0, n);
    } else {
      var spent := if verdicts[n - 1] == Allow then 1.0 else 0.0;
      forall k: nat | k < n
        ensures Headroom(config, all, verdicts, k, n)
             == Headroom(config, times, verdicts, k, n - 1) - spent + Earned(config, last, now)
      {
        HeadroomAtNextCall(config, times, verdicts, now, k);
      }
      if level < config.burstSize as real {
        var k: nat :| k <= n - 1 && left + spent == Headroom(config, times, verdicts, k, n - 1);
        assert level == Headroom(config, all, verdicts, k, n);
      }
    }
  }

  lemma HeadroomOfPrefix(config: RateLimitConfig, times: seq<real>, moreTimes: seq<real>,
                         verdicts: seq<Decision>, more: seq<Decision>, k: nat, n: nat)
    requires k <= n < |times| && n <= |verdicts| && times <= moreTimes && verdicts <= more
    ensures Headroom(config, moreTimes, more, k, n) == Headroom(config, times, verdicts, k, n)
  {
    AdmittedOfPrefix(verdicts, more, k, n);
  }

  lemma LeastHeadroomOfPrefix(config: RateLimitConfig, times: seq<real>, verdicts: seq<Decision>,
                              more: seq<Decision>, n: nat, level: real)
    requires n < |times| && n <= |verdicts| && verdicts <= more
    requires LeastHeadroom(config, times, verdicts, n, level)
    ensures LeastHeadroom(config, times, more, n, level)
  {
    forall k: nat | k <= n
      ensures Headroom(config, times, more, k, n) == Headroom(config, times, verdicts, k, n)
    {
      HeadroomOfPrefix(config, times, times, verdicts, more, k, n);
    }
    var k: nat :| k <= n && level == Headroom(config, times, verdicts, k, n);
    assert level == Headroom(config, times, more, k, n);
  }

  lemma FitsOfPrefix(config: RateLimitConfig, times: seq<real>, moreTimes: seq<real>,
                     verdicts: seq<Decision>, more: seq<Decision>, n: nat)
    requires n < |times| && n <= |verdicts| && times <= moreTimes && verdicts <= more
    ensures Fits(config, moreTimes, more, n) == Fits(config, times, verdicts, n)
  {
    forall k: nat | k <= n
      ensures Headroom(config, moreTimes, more, k, n) == Headroom(config, times, verdicts, k, n)
    {
      HeadroomOfPrefix(config, times, moreTimes, verdicts, more, k, n);
    }
  }

  lemma GreedyExtends(config: RateLimitConfig, times: seq<real>, verdicts: seq<Decision>, now: real, decision: Decision)
    requires |times| == |verdicts| && Greedy(config, times, verdicts)
    requires decision == Allow <==> Fits(config, times + [now], verdicts, |times|)
    ensures Greedy(config, times + [now], verdicts + [decision])
  {
    forall n: nat | n <= |times|
      ensures (verdicts + [decision])[n] == Allow <==> Fits(config, times + [now], verdicts + [decision], n)
    {
      if n < |times| {
        FitsOfPrefix(config, times, times + [now], verdicts, verdicts + [decision], n);
      } else {
        FitsOfPrefix(config, times + [now], times + [now], verdicts, verdicts + [decision], n);
      }
    }
  }

  /** The decision taken on the least headroom is the greedy one, and leaves the bucket consistent. */
  lemma DecisionKeepsBucket(config: RateLimitConfig, times: seq<real>, verdicts: seq<Decision>, now: real,
                            level: real, decision: Decision)
    requires |times| == |verdicts| && Greedy(config, times, verdicts) && NonDecreasing(times + [now])
    requires level >= 0.0 && LeastHeadroom(config, times + [now], verdicts, |times|, level)
    requires decision == Allow <==> level >= 1.0
    ensures decision == Allow <==> Fits(config, times + [now], verdicts, |times|)
    ensures BucketHolds(config, times + [now], verdicts + [decision],
                        if decision == Allow then level - 1.0 else level, now)
  {
    GreedyExtends(config, times, verdicts, now, decision);
    LeastHeadroomOfPrefix(config, times + [now], verdicts, verdicts + [decision], |times|, level);
  }

  lemma CallKeepsBucket(config: RateLimitConfig, times: seq<real>, verdicts: seq<Decision>, now: real, left: real,
                        last: real)
    requires BucketHolds(config, times, verdicts, left, last) && last <= now
    ensures var level := MinReal(left + Earned(config, last, now), config.burstSize as real);
            var decision := if level >= 1.0 then Allow else Reject;
            && (decision == Allow <==> Fits(config, times + [now], verdicts, |times|))
            && (decision == Allow <==> HasRoom(config, times + [now], verdicts + [decision], |times|))
            && LeastHeadroom(config, times + [now], verdicts, |times|, level)
            && BucketHolds(config, times + [now], verdicts + [decision],
                           if level >= 1.0 then level - 1.0 else level, now)
  {
    var level := MinReal(left + Earned(config, last, now), config.burstSize as real);
    RefillIsLeastHeadroom(config, times, verdicts, now, left, last, level);
    var decision := if level >= 1.0 then Allow else Reject;
    DecisionKeepsBucket(config, times, verdicts, now, level, decision);
    RoomForNextCall(config, times, verdicts, now, decision);
  }

  // ----- what the greedy rule means ---------------------------------------------------------

  /** The limiter never lets a window exceed its bound. */
  lemma GreedyConforms(config: RateLimitConfig, times: seq<real>, verdicts: seq<Decision>)
    requires |times| == |verdicts| && NonDecreasing(times) && Greedy(config, times, verdicts)
    ensures Conforms(config, times, verdicts)
  {
    forall i: nat, j: nat | i <= j < |times|
      ensures Admitted(verdicts, i, j + 1) as real <= config.burstSize as real + Earned(config, times[i], times[j])
    {
      GreedyWindow(config, times, verdicts, i, j);
    }
  }

  lemma {:induction false} GreedyWindow(config: RateLimitConfig, times: seq<real>, verdicts: seq<Decision>, i: nat,
                                        j: nat)
    requires |times| == |verdicts| && NonDecreasing(times) && Greedy(config, times, verdicts)
    requires i <= j < |times|
    ensures Admitted(verdicts, i, j + 1) as real <= config.burstSize as real + Earned(config, times[i], times[j])
    decreases j
  {
    if verdicts[j] == Allow {
      assert Headroom(config, times, verdicts, i, j) >= 1.0;
    } else if i < j {
      GreedyWindow(config, times, verdicts, i, j - 1);
      EarnedGrows(config, times[i], times[j - 1], times[j]);
    } else {
      EarnedGrows(config, times[i], times[i], times[i]);
    }
  }

  /** A call is admitted exactly when admitting it leaves every window within its bound. */
  lemma AdmittedExactlyWhenHarmless(config: RateLimitConfig, times: seq<real>, verdicts: seq<Decision>, n: nat)
    requires |times| == |verdicts| && NonDecreasing(times) && Greedy(config, times, verdicts) && n < |times|
    ensures verdicts[n] == Allow <==> Conforms(config, times[..n + 1], verdicts[..n] + [Allow])
  {
    FitsOfPrefix(config, times, times, verdicts[..n], verdicts, n);
    if verdicts[n] == Allow {
      assert verdicts[..n] + [Allow] == verdicts[..n + 1];
      forall i: nat, j: nat | i <= j <= n
        ensures Admitted(verdicts[..n + 1], i, j + 1) as real
             <= config.burstSize as real + Earned(config, times[i], times[j])
      {
        GreedyWindow(config, times, verdicts, i, j);
        AdmittedOfPrefix(verdicts[..n + 1], verdicts, i, j + 1);
      }
    } else if Conforms(config, times[..n + 1], verdicts[..n] + [Allow]) {
      HarmlessFits(config, times, verdicts[..n], n);
    }
  }

  lemma HarmlessFits(config: RateLimitConfig, times: seq<real>, before: seq<Decision>, n: nat)
    requires n < |times| && n == |before| && Conforms(config, times[..n + 1], before + [Allow])
    ensures Fits(config, times, before, n)
  {
    forall k: nat | k <= n
      ensures Headroom(config, times, before, k, n) >= 1.0
    {
      AdmittedOfPrefix(before, before + [Allow], k, n);
      assert Admitted(before + [Allow], k, n + 1) as real
          <= config.burstSize as real + Earned(config, times[..n + 1][k], times[..n + 1][n]);
    }
  }

  /** No policy that respects every window has admitted more calls, at any point of any run. */
  lemma {:induction false} GreedyIsOptimal(config: RateLimitConfig, times: seq<real>, verdicts: seq<Decision>,
                                           others: seq<Decision>, m: nat)
    requires |times| == |verdicts| == |others| && m <= |times|
    requires Greedy(config, times, verdicts) && Conforms(config, times, others)
    ensures Admitted(others, 0, m) <= Admitted(verdicts, 0, m)
    decreases m
  {
    if m > 0 {
      var n := m - 1;
      GreedyIsOptimal(config, times, verdicts, others, n);
      if verdicts[n] == Reject {
        var k: nat :| k <= n && Headroom(config, times, verdicts, k, n) < 1.0;
        GreedyIsOptimal(config, times, verdicts, others, k);
        AdmittedSplits(verdicts, 0, k, n);
        AdmittedSplits(others, 0, k, m);
        assert Admitted(others, k, n + 1) as real <= config.burstSize as real + Earned(config, times[k], times[n]);
      }
    }
  }

  /** The rule leaves nothing open: one sequence of call times has one greedy run. */
  lemma {:induction false} GreedyIsUnique(config: RateLimitConfig, times: seq<real>, one: seq<Decision>,
                                          two: seq<Decision>, m: nat)
    requires |times| == |one| == |two| && m <= |times|
    requires Greedy(config, times, one) && Greedy(config, times, two)
    ensures one[..m] == two[..m]
  {
    if m > 0 {
      GreedyIsUnique(config, times, one, two, m - 1);
      var n := m - 1;
      var same := one[..n];
      FitsOfPrefix(config, times, times, same, one, n);
      FitsOfPrefix(config, times, times, same, two, n);
      assert one[n] == two[n];
      assert one[..m] == same + [one[n]] && two[..m] == same + [two[n]];
    }
  }

  /** How many admitted calls of a run fall into the time interval [a, b]. */
  function AdmittedWithin(times: seq<real>, verdicts: seq<Decision>, a: real, b: real): nat
    requires |times| == |verdicts|
  {
    if times == [] then 0
    else
      var n := |times| - 1;
      AdmittedWithin(times[..n], verdicts[..n], a, b)
      + if verdicts[n] == Allow && a <= times[n] <= b then 1 else 0
  }

  lemma {:induction false} WithinIsAWindow(times: seq<real>, verdicts: seq<Decision>, a: real, b: real)
      returns (i: nat, j: nat)
    requires |times| == |verdicts| && NonDecreasing(times)
    ensures i <= j <= |times|
    ensures forall k | i <= k < j :: a <= times[k] <= b
    ensures forall k | j <= k < |times| :: b < times[k] || (i == j && times[k] < a)
    ensures AdmittedWithin(times, verdicts, a, b) == Admitted(verdicts, i, j)
  {
    if times == [] {
      i, j := 0, 0;
    } else {
      var n := |times| - 1;
      i, j := WithinIsAWindow(times[..n], verdicts[..n], a, b);
      AdmittedOfPrefix(verdicts[..n], verdicts, i, j);
      if a <= times[n] <= b {
        if i == j {
          i := n;
          assert AdmittedWithin(times[..n], verdicts[..n], a, b) == 0;
        }
        j := n + 1;
      }
    }
  }

  /** Over any interval of time the limiter admits at most burst + rate * (length of the interval). */
  lemma EveryIntervalIsBounded(config: RateLimitConfig, times: seq<real>, verdicts: seq<Decision>, a: real, b: real)
    requires |times| == |verdicts| && NonDecreasing(times) && Greedy(config, times, verdicts) && a <= b
    ensures AdmittedWithin(times, verdicts, a, b) as real
            <= config.burstSize as real + config.requestsPerSecond as real * (b - a)
  {
    IntervalIsBounded(config, times, verdicts, a, b);
    EarnedIsRate(config, a, b);
  }

  lemma IntervalIsBounded(config: RateLimitConfig, times: seq<real>, verdicts: seq<Decision>, a: real, b: real)
    requires |times| == |verdicts| && NonDecreasing(times) && Greedy(config, times, verdicts) && a <= b
    ensures AdmittedWithin(times, verdicts, a, b) as real <= config.burstSize as real + Earned(config, a, b)
  {
    var i, j := WithinIsAWindow(times, verdicts, a, b);
    if i < j {
      var earned := Earned(config, times[i], times[j - 1]);
      GreedyWindow(config, times, verdicts, i, j - 1);
      assert earned <= Earned(config, a, b) by {
        EarnedInside(config, a, times[i], times[j - 1], b);
      }
    } else {
      EarnedGrows(config, a, a, b);
    }
  }

  // ----- burst and rate -----------------------------------------------------------------------

  /** A call is admitted exactly when every window that ends with it has room for one more. */
  lemma AllowedExactlyWhenRoom(config: RateLimitConfig, times: seq<real>, verdicts: seq<Decision>, n: nat)
    requires |times| == |verdicts| && Greedy(config, times, verdicts) && n < |times|
    ensures verdicts[n] == Allow <==> HasRoom(config, times, verdicts, n)
  {
    FitsIsRoom(config, times, verdicts, n);
  }

  lemma EarnedIn(config: RateLimitConfig, lo: real, hi: real, d: real)
    requires hi == lo + d
    ensures Earned(config, lo, hi) == config.requestsPerSecond as real * d
  {
    assert hi - lo == d;
  }

  lemma OneOverRate(rate: real, span: real)
    requires rate > 0.0 && span >= 1.0 / rate
    ensures rate * span >= 1.0
  {
    var one := 1.0 / rate;
    assert rate * one == 1.0;
    assert rate * (span - one) >= 0.0;
  }

  /** What call `n - 1` leaves of a window, and what is earned until call `n`. */
  lemma HeadroomAfterCall(config: RateLimitConfig, times: seq<real>, verdicts: seq<Decision>, k: nat, n: nat)
    requires |times| == |verdicts| && NonDecreasing(times) && Greedy(config, times, verdicts) && k < n < |times|
    ensures Headroom(config, times, verdicts, k, n) >= Earned(config, times[n - 1], times[n])
  {
    GreedyWindow(config, times, verdicts, k, n - 1);
    EarnedAdds(config, times[k], times[n - 1], times[n]);
  }

  lemma FreshWindow(config: RateLimitConfig, times: seq<real>, verdicts: seq<Decision>, n: nat)
    requires n < |times| && n <= |verdicts|
    ensures Headroom(config, times, verdicts, n, n) == config.burstSize as real
  {
    EarnedGrows(config, times[n], times[n], times[n]);
  }

  /** With any burst at all the first call is admitted, and so is each call that comes a whole
      1/rate after the one before it. */
  lemma SpacedCallIsAllowed(config: RateLimitConfig, times: seq<real>, verdicts: seq<Decision>, n: nat)
    requires |times| == |verdicts| && NonDecreasing(times) && Greedy(config, times, verdicts) && n < |times|
    requires config.burstSize >= 1
    requires n > 0 ==>
               && config.requestsPerSecond >= 1
               && times[n] - times[n - 1] >= 1.0 / config.requestsPerSecond as real
    ensures verdicts[n] == Allow
  {
    FreshWindow(config, times, verdicts, n);
    forall k: nat | k <= n
      ensures Headroom(config, times, verdicts, k, n) >= 1.0
    {
      if k < n {
        HeadroomAfterCall(config, times, verdicts, k, n);
        OneIsEarned(config, times[n - 1], times[n]);
      }
    }
  }

  lemma OneIsEarned(config: RateLimitConfig, lo: real, hi: real)
    requires config.requestsPerSecond >= 1 && hi - lo >= 1.0 / config.requestsPerSecond as real
    ensures Earned(config, lo, hi) >= 1.0
  {
    OneOverRate(config.requestsPerSecond as real, hi - lo);
    EarnedIsRate(config, lo, hi);
  }

  /** Whatever the bucket has paid out since call `k`, `d` seconds later it holds no more than is left
      of the burst and what the rate has added: an emptied bucket holds at most the rate times the wait. */
  lemma TokensAreEarned(config: RateLimitConfig, times: seq<real>, verdicts: seq<Decision>, n: nat, level: real,
                        k: nat, d: real)
    requires n < |times| == |verdicts| && LeastHeadroom(config, times, verdicts, n, level)
    requires k <= n && times[n] == times[k] + d
    ensures level <= config.burstSize as real - Admitted(verdicts, k, n) as real + config.requestsPerSecond as real * d
  {
    assert level <= Headroom(config, times, verdicts, k, n);
    EarnedIn(config, times[k], times[n], d);
  }

  /** And `d` seconds after a call it holds no less than the rate adds in that time, up to the burst. */
  lemma TokensReach(config: RateLimitConfig, times: seq<real>, verdicts: seq<Decision>, n: nat, level: real, d: real)
    requires 0 < n < |times| == |verdicts| && NonDecreasing(times) && Greedy(config, times, verdicts)
    requires LeastHeadroom(config, times, verdicts, n, level) && times[n] == times[n - 1] + d
    ensures level >= MinReal(config.burstSize as real, config.requestsPerSecond as real * d)
  {
    var k: nat :| k <= n && level == Headroom(config, times, verdicts, k, n);
    FreshWindow(config, times, verdicts, n);
    if k < n {
      HeadroomAfterCall(config, times, verdicts, k, n);
    }
    EarnedIn(config, times[n - 1], times[n], d);
  }
}
