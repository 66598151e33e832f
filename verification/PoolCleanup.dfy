/** Cleaning up the connection pool: when borrowers can tell that it happened. */
module PoolCleanups {
  import opened CommonTypes
  import opened ConnectionPools
  import opened PoolRuns

  // ----- runs onward from a state ---------------------------------------------------------------------

  ghost predicate CanRun(config: UpstreamConfig, w: World, steps: seq<Step>)
    decreases |steps|
  {
    steps == [] || (CanStep(w, steps[0]) && CanRun(config, Stepped(config, w, steps[0]), steps[1..]))
  }

  /** What a step tells a borrower: a pooled connection or none, and then a new one or none. */
  ghost function Told(config: UpstreamConfig, w: World, step: Step): seq<Option<Conn>> {
    match step
    case BeginBorrow(_, key) => [PopHealthy(config, PoolAt(w.pools, key), w.now).0]
    case FinishBorrow(_, success) => [if success then Some(Conn(w.created, w.now, true)) else None]
    case _ => []
  }

  /** What the borrowers of a run are told, in order. */
  ghost function Results(config: UpstreamConfig, w: World, steps: seq<Step>): seq<Option<Conn>>
    requires CanRun(config, w, steps)
    decreases |steps|
  {
    if steps == [] then []
    else Told(config, w, steps[0]) + Results(config, Stepped(config, w, steps[0]), steps[1..])
  }

  lemma RunsOn(config: UpstreamConfig, w: World, step: Step, rest: seq<Step>)
    requires CanStep(w, step)
    ensures CanRun(config, w, [step] + rest) <==> CanRun(config, Stepped(config, w, step), rest)
    ensures CanRun(config, w, [step] + rest) ==>
              Results(config, w, [step] + rest)
              == Told(config, w, step) + Results(config, Stepped(config, w, step), rest)
  {
    assert ([step] + rest)[1..] == rest;
  }

  function WithoutCleanups(steps: seq<Step>): seq<Step> {
    if steps == [] then []
    else if steps[0].Clean? then WithoutCleanups(steps[1..])
    else [steps[0]] + WithoutCleanups(steps[1..])
  }

  /** A healthy connection that is given back finds room. */
  ghost predicate FindsRoom(config: UpstreamConfig, w: World, step: Step) {
    step.GiveBack? && step.id in w.lent && Healthy(config, w.lent[step.id], w.now) ==>
      |PoolAt(w.pools, step.key)| < config.maxConnectionsPerHost
  }

  ghost predicate ReturnsFindRoom(config: UpstreamConfig, w: World, steps: seq<Step>)
    decreases |steps|
  {
    steps != [] && CanStep(w, steps[0]) ==>
      FindsRoom(config, w, steps[0]) && ReturnsFindRoom(config, Stepped(config, w, steps[0]), steps[1..])
  }

  // ----- a cleanup only removes what borrows would pass over ------------------------------------------

  /** `thin` is `full` without some connections that are unhealthy. */
  predicate Thinned(config: UpstreamConfig, thin: seq<Conn>, full: seq<Conn>, now: int) {
    if full == [] then thin == []
    else
      var last, rest := full[|full| - 1], full[..|full| - 1];
      || (thin != [] && thin[|thin| - 1] == last && Thinned(config, thin[..|thin| - 1], rest, now))
      || (!Healthy(config, last, now) && Thinned(config, thin, rest, now))
  }

  lemma {:induction false} ThinnedReflexive(config: UpstreamConfig, cs: seq<Conn>, now: int)
    ensures Thinned(config, cs, cs, now)
  {
    if cs != [] {
      ThinnedReflexive(config, cs[..|cs| - 1], now);
    }
  }

  lemma {:induction false} ThinnedIsShorter(config: UpstreamConfig, thin: seq<Conn>, full: seq<Conn>, now: int)
    requires Thinned(config, thin, full, now)
    ensures |thin| <= |full|
    decreases |full|
  {
    if full != [] {
      var rest := full[..|full| - 1];
      if thin != [] && Thinned(config, thin[..|thin| - 1], rest, now) {
        ThinnedIsShorter(config, thin[..|thin| - 1], rest, now);
      } else {
        ThinnedIsShorter(config, thin, rest, now);
      }
    }
  }

  /** The last healthy connection is the same, and so is the relation of what is left. */
  lemma {:induction false} ThinnedPop(config: UpstreamConfig, thin: seq<Conn>, full: seq<Conn>, now: int)
    requires Thinned(config, thin, full, now)
    ensures PopHealthy(config, thin, now).0 == PopHealthy(config, full, now).0
    ensures Thinned(config, PopHealthy(config, thin, now).1, PopHealthy(config, full, now).1, now)
    decreases |full|
  {
    if full != [] && !Healthy(config, full[|full| - 1], now) {
      var rest := full[..|full| - 1];
      if Thinned(config, thin, rest, now) {
        ThinnedPop(config, thin, rest, now);
      } else {
        ThinnedPop(config, thin[..|thin| - 1], rest, now);
      }
    }
  }

  lemma ThinnedPush(config: UpstreamConfig, thin: seq<Conn>, full: seq<Conn>, c: Conn, now: int)
    requires Thinned(config, thin, full, now) && |full| < config.maxConnectionsPerHost
    ensures Thinned(config, Push(config, thin, c, now), Push(config, full, c, now), now)
  {
    ThinnedIsShorter(config, thin, full, now);
    assert (thin + [c])[..|thin|] == thin && (full + [c])[..|full|] == full;
  }

  /** An unhealthy pooled connection stays unhealthy: time only moves on and sockets only close. */
  lemma UnhealthyStays(config: UpstreamConfig, c: Conn, now: int, later: int)
    requires !Healthy(config, c, now) && now <= later
    ensures !Healthy(config, c, later) && !Healthy(config, c.(open := false), later)
  {
  }

  lemma {:induction false} ThinnedLater(config: UpstreamConfig, thin: seq<Conn>, full: seq<Conn>, now: int, later: int)
    requires Thinned(config, thin, full, now) && now <= later
    ensures Thinned(config, thin, full, later)
    decreases |full|
  {
    if full != [] {
      var rest := full[..|full| - 1];
      if thin != [] && thin[|thin| - 1] == full[|full| - 1] && Thinned(config, thin[..|thin| - 1], rest, now) {
        ThinnedLater(config, thin[..|thin| - 1], rest, now, later);
      } else {
        UnhealthyStays(config, full[|full| - 1], now, later);
        ThinnedLater(config, thin, rest, now, later);
      }
    }
  }

  lemma {:induction false} ThinnedClosed(config: UpstreamConfig, thin: seq<Conn>, full: seq<Conn>, now: int, id: nat)
    requires Thinned(config, thin, full, now)
    ensures Thinned(config, Closed(thin, id), Closed(full, id), now)
    decreases |full|
  {
    if full != [] {
      var rest := full[..|full| - 1];
      assert Closed(full, id)[..|full| - 1] == Closed(rest, id);
      if thin != [] && thin[|thin| - 1] == full[|full| - 1] && Thinned(config, thin[..|thin| - 1], rest, now) {
        assert Closed(thin, id)[..|thin| - 1] == Closed(thin[..|thin| - 1], id);
        ThinnedClosed(config, thin[..|thin| - 1], rest, now, id);
      } else {
        UnhealthyStays(config, full[|full| - 1], now, now);
        ThinnedClosed(config, thin, rest, now, id);
      }
    } else {
      assert Closed(thin, id) == [] == Closed(full, id);
    }
  }

  lemma {:induction false} ThinnedSwept(config: UpstreamConfig, thin: seq<Conn>, full: seq<Conn>, now: int)
    requires Thinned(config, thin, full, now)
    ensures Thinned(config, Sweep(config, thin, now), full, now)
    decreases |full|
  {
    if full != [] {
      var rest := full[..|full| - 1];
      if thin != [] && thin[|thin| - 1] == full[|full| - 1] && Thinned(config, thin[..|thin| - 1], rest, now) {
        SweepStep(config, thin, now);
        var swept := Sweep(config, thin[..|thin| - 1], now);
        ThinnedSwept(config, thin[..|thin| - 1], rest, now);
        assert (swept + [thin[|thin| - 1]])[..|swept|] == swept;
        assert swept + [] == swept;
      } else {
        ThinnedSwept(config, thin, rest, now);
      }
    }
  }

  /** The same world, but for unhealthy pooled connections. */
  ghost predicate ThinnedWorld(config: UpstreamConfig, thin: World, full: World) {
    && thin.lent == full.lent && thin.pending == full.pending && thin.created == full.created && thin.now == full.now
    && forall key: string :: Thinned(config, PoolAt(thin.pools, key), PoolAt(full.pools, key), full.now)
  }

  lemma StepKeepsThinned(config: UpstreamConfig, thin: World, full: World, step: Step)
    requires ThinnedWorld(config, thin, full) && !step.Clean? && CanStep(full, step) && FindsRoom(config, full, step)
    ensures ThinnedWorld(config, Stepped(config, thin, step), Stepped(config, full, step))
    ensures Told(config, thin, step) == Told(config, full, step)
  {
    var thin', full' := Stepped(config, thin, step), Stepped(config, full, step);
    if step.BeginBorrow? {
      ThinnedPop(config, PoolAt(thin.pools, step.key), PoolAt(full.pools, step.key), full.now);
    }
    forall key: string
      ensures Thinned(config, PoolAt(thin'.pools, key), PoolAt(full'.pools, key), full'.now)
    {
      PoolKeepsThinned(config, thin, full, step, key);
    }
  }

  lemma PoolKeepsThinned(config: UpstreamConfig, thin: World, full: World, step: Step, key: string)
    requires ThinnedWorld(config, thin, full) && !step.Clean? && CanStep(full, step) && FindsRoom(config, full, step)
    ensures Thinned(config, PoolAt(Stepped(config, thin, step).pools, key),
                    PoolAt(Stepped(config, full, step).pools, key), Stepped(config, full, step).now)
  {
    var t, f := PoolAt(thin.pools, key), PoolAt(full.pools, key);
    match step {
      case BeginBorrow(_, k) => ThinnedPop(config, t, f, full.now);
      case GiveBack(id, k) =>
        if k == key && Healthy(config, full.lent[id], full.now) {
          ThinnedPush(config, t, f, full.lent[id], full.now);
        }
      case Wait(span) => ThinnedLater(config, t, f, full.now, full.now + span);
      case Shut(id) =>
        ThinnedClosed(config, t, f, full.now, id);
        assert Closed([], id) == [];
      case _ =>
    }
  }

  lemma CleanKeepsThinned(config: UpstreamConfig, thin: World, full: World)
    requires ThinnedWorld(config, thin, full)
    ensures ThinnedWorld(config, Stepped(config, thin, Clean), full)
  {
    forall key: string
      ensures Thinned(config, PoolAt(SweptPools(config, thin.pools, thin.now), key), PoolAt(full.pools, key), full.now)
    {
      ThinnedSwept(config, PoolAt(thin.pools, key), PoolAt(full.pools, key), full.now);
    }
  }

  lemma {:induction false} ThinnedRunsAgree(config: UpstreamConfig, thin: World, full: World, steps: seq<Step>)
    requires ThinnedWorld(config, thin, full) && ReturnsFindRoom(config, full, WithoutCleanups(steps))
    ensures CanRun(config, thin, steps) <==> CanRun(config, full, WithoutCleanups(steps))
    ensures CanRun(config, thin, steps) ==>
              Results(config, thin, steps) == Results(config, full, WithoutCleanups(steps))
    decreases |steps|
  {
    if steps != [] {
      var step, rest := steps[0], steps[1..];
      if step.Clean? {
        CleanKeepsThinned(config, thin, full);
        ThinnedRunsAgree(config, Stepped(config, thin, step), full, rest);
      } else {
        assert WithoutCleanups(steps)[1..] == WithoutCleanups(rest);
        if CanStep(full, step) {
          StepKeepsThinned(config, thin, full, step);
          ThinnedRunsAgree(config, Stepped(config, thin, step), Stepped(config, full, step), rest);
        }
      }
    }
  }

  /** Cleanups, wherever they are put into a run, leave it possible and change nothing that a
      borrower is told, as long as the returns of the run without them find room. */
  lemma CleanupIsInvisible(config: UpstreamConfig, w: World, steps: seq<Step>)
    requires ReturnsFindRoom(config, w, WithoutCleanups(steps))
    ensures CanRun(config, w, steps) <==> CanRun(config, w, WithoutCleanups(steps))
    ensures CanRun(config, w, steps) ==> Results(config, w, steps) == Results(config, w, WithoutCleanups(steps))
  {
    forall key: string
      ensures Thinned(config, PoolAt(w.pools, key), PoolAt(w.pools, key), w.now)
    {
      ThinnedReflexive(config, PoolAt(w.pools, key), w.now);
    }
    ThinnedRunsAgree(config, w, w, steps);
  }

  lemma {:induction false} NoReturnsFindRoom(config: UpstreamConfig, w: World, steps: seq<Step>)
    requires forall step | step in steps :: !step.GiveBack?
    ensures ReturnsFindRoom(config, w, steps)
    decreases |steps|
  {
    if steps != [] && CanStep(w, steps[0]) {
      NoReturnsFindRoom(config, Stepped(config, w, steps[0]), steps[1..]);
    }
  }

  // ----- when a cleanup shows ---------------------------------------------------------------------------

  /** No run that is possible with and without a cleanup first tells a borrower something else. */
  ghost predicate CleanupNeverShows(config: UpstreamConfig, w: World) {
    forall steps | CanRun(config, w, steps) && CanRun(config, Stepped(config, w, Clean), steps) ::
      Results(config, Stepped(config, w, Clean), steps) == Results(config, w, steps)
  }

  ghost predicate AllHealthy(config: UpstreamConfig, w: World) {
    forall key, c | key in w.pools && c in w.pools[key] :: Healthy(config, c, w.now)
  }

  /** A new connection is made under a key with an empty pool, and given back under `key`. */
  function Trip(b: BorrowId, spare: string, id: nat, key: string): seq<Step> {
    [BeginBorrow(b, spare), FinishBorrow(b, true), GiveBack(id, key)]
  }

  ghost predicate CanTrip(config: UpstreamConfig, w: World, b: BorrowId, spare: string, key: string) {
    config.idleTimeoutMillis >= 0 && b !in w.pending && PoolAt(w.pools, spare) == [] && spare != key
  }

  function TripResults(id: nat, now: int): seq<Option<Conn>> {
    [None, Some(Conn(id, now, true))]
  }

  /** After a trip the new connection is at the end of the pool, if there is room. */
  lemma TripPushes(config: UpstreamConfig, w: World, b: BorrowId, spare: string, key: string, rest: seq<Step>)
      returns (w': World)
    requires CanTrip(config, w, b, spare, key)
    ensures CanTrip(config, w', b, spare, key) && w'.now == w.now && w'.created == w.created + 1
    ensures PoolAt(w'.pools, key) == Push(config, PoolAt(w.pools, key), Conn(w.created, w.now, true), w.now)
    ensures CanRun(config, w, Trip(b, spare, w.created, key) + rest) <==> CanRun(config, w', rest)
    ensures CanRun(config, w', rest) ==>
              Results(config, w, Trip(b, spare, w.created, key) + rest)
              == TripResults(w.created, w.now) + Results(config, w', rest)
  {
    var steps := Trip(b, spare, w.created, key) + rest;
    var w1 := Stepped(config, w, steps[0]);
    var w2 := Stepped(config, w1, steps[1]);
    w' := Stepped(config, w2, steps[2]);
    assert steps == [steps[0]] + ([steps[1]] + ([steps[2]] + rest));
    RunsOn(config, w, steps[0], [steps[1]] + ([steps[2]] + rest));
    RunsOn(config, w1, steps[1], [steps[2]] + rest);
    RunsOn(config, w2, steps[2], rest);
  }

  function Filling(b: BorrowId, spare: string, id: nat, key: string, n: nat): seq<Step>
    decreases n
  {
    if n == 0 then [] else Trip(b, spare, id, key) + Filling(b, spare, id + 1, key, n - 1)
  }

  function FillingResults(id: nat, now: int, n: nat): seq<Option<Conn>>
    decreases n
  {
    if n == 0 then [] else TripResults(id, now) + FillingResults(id + 1, now, n - 1)
  }

  lemma {:induction false} FillingAddsUp(config: UpstreamConfig, w: World, b: BorrowId, spare: string, key: string,
                                         n: nat,
                                         rest: seq<Step>)
      returns (w': World)
    requires CanTrip(config, w, b, spare, key) && |PoolAt(w.pools, key)| + n <= config.maxConnectionsPerHost
    ensures CanTrip(config, w', b, spare, key) && w'.now == w.now && w'.created == w.created + n
    ensures |PoolAt(w'.pools, key)| == |PoolAt(w.pools, key)| + n
    ensures forall c | c in PoolAt(w'.pools, key) :: c in PoolAt(w.pools, key) || c.id < w'.created
    ensures CanRun(config, w, Filling(b, spare, w.created, key, n) + rest) <==> CanRun(config, w', rest)
    ensures CanRun(config, w', rest) ==>
              Results(config, w, Filling(b, spare, w.created, key, n) + rest)
              == FillingResults(w.created, w.now, n) + Results(config, w', rest)
    decreases n
  {
    if n == 0 {
      w' := w;
      assert Filling(b, spare, w.created, key, n) + rest == rest;
    } else {
      var more := Filling(b, spare, w.created + 1, key, n - 1) + rest;
      assert Filling(b, spare, w.created, key, n) + rest == Trip(b, spare, w.created, key) + more;
      var w1 := TripPushes(config, w, b, spare, key, more);
      var cs, c := PoolAt(w.pools, key), Conn(w.created, w.now, true);
      assert PoolAt(w1.pools, key) == cs + [c] && forall x | x in cs + [c] :: x in cs || x == c;
      w' := FillingAddsUp(config, w1, b, spare, key, n - 1, rest);
      if CanRun(config, w', rest) {
        var results := Results(config, w', rest);
        assert TripResults(w.created, w.now) + (FillingResults(w1.created, w.now, n - 1) + results)
            == FillingResults(w.created, w.now, n) + results;
      }
    }
  }

  lemma {:induction false} PoppedWasPooled(config: UpstreamConfig, cs: seq<Conn>, now: int)
    ensures var popped := PopHealthy(config, cs, now).0;
            popped.Some? ==> exists c :: c in cs && c.id == popped.value.id
  {
    if cs != [] {
      var n := |cs| - 1;
      assert cs[n] in cs;
      PoppedWasPooled(config, cs[..n], now);
    }
  }

  /** A trip and then a borrow under the same key: whether the new connection comes back depends on
      whether there was room for it. */
  lemma TripThenBorrow(config: UpstreamConfig, w: World, b: BorrowId, spare: string, key: string)
    requires CanTrip(config, w, b, spare, key) && forall c | c in PoolAt(w.pools, key) :: c.id < w.created
    ensures var steps := Trip(b, spare, w.created, key) + [BeginBorrow(b, key)];
            && CanRun(config, w, steps) && |Results(config, w, steps)| == 3
            && (Results(config, w, steps)[2] == Some(Conn(w.created, w.now, true))
                <==> |PoolAt(w.pools, key)| < config.maxConnectionsPerHost)
  {
    var last := Conn(w.created, w.now, true);
    var rest := [BeginBorrow(b, key)];
    var w' := TripPushes(config, w, b, spare, key, rest);
    assert rest[1..] == [];
    assert CanRun(config, Stepped(config, w', rest[0]), []);
    assert Results(config, w', rest) == Told(config, w', rest[0]) + [];
    PoppedWasPooled(config, PoolAt(w'.pools, key), w.now);
    var cs := PoolAt(w.pools, key);
    assert (cs + [last])[..|cs|] == cs;
  }

  lemma UnusedBorrow(pending: set<BorrowId>) returns (b: BorrowId)
    ensures forall used | used in pending :: used < b
  {
    b := 0;
    var todo := pending;
    while todo != {}
      invariant todo <= pending && forall used | used in pending && used !in todo :: used < b
    {
      var x :| x in todo;
      b := if x < b then b else x + 1;
      todo := todo - {x};
    }
  }

  lemma UnusedKey(keys: set<string>) returns (key: string)
    ensures forall used | used in keys :: |used| < |key|
  {
    key := PoolKey("", 80);
    var todo := keys;
    while todo != {}
      invariant todo <= keys && forall used | used in keys && used !in todo :: |used| < |key|
    {
      var k :| k in todo;
      key := if |k| < |key| then key else PoolKey(k, 80);
      todo := todo - {k};
    }
  }

  /** If a cleanup removes anything, filling the pool with new connections tells it apart: the
      last one given back is kept with the cleanup and dropped without it. */
  lemma FullPoolShowsCleanup(config: UpstreamConfig, w: World, key: string) returns (steps: seq<Step>)
    requires config.idleTimeoutMillis >= 0 && Partitioned(w) && WithinLimit(config, w.pools)
    requires key in w.pools && exists c :: c in w.pools[key] && !Healthy(config, c, w.now)
    ensures CanRun(config, w, steps) && CanRun(config, Stepped(config, w, Clean), steps)
    ensures Results(config, Stepped(config, w, Clean), steps) != Results(config, w, steps)
  {
    var cs, cleaned := w.pools[key], Stepped(config, w, Clean);
    SweepOfHealthy(config, cs, w.now);
    forall c | c in cs
      ensures c.id < w.created
    {
      assert c.id in Ids(cs) && c.id in PooledIds(w.pools);
    }
    forall c | c in cleaned.pools[key]
      ensures c in cs
    {
      SweepKeepsSome(config, cs, w.now, c);
    }
    var b := UnusedBorrow(w.pending.Keys);
    var spare := UnusedKey(w.pools.Keys);
    var n: nat := config.maxConnectionsPerHost - |cs|;
    var tail := Trip(b, spare, w.created + n, key) + [BeginBorrow(b, key)];
    steps := Filling(b, spare, w.created, key, n) + tail;
    var full := FillingAddsUp(config, w, b, spare, key, n, tail);
    var thin := FillingAddsUp(config, cleaned, b, spare, key, n, tail);
    TripThenBorrow(config, full, b, spare, key);
    TripThenBorrow(config, thin, b, spare, key);
    var prefix := FillingResults(w.created, w.now, n);
    assert Results(config, w, steps)[|prefix| + 2] == Results(config, full, tail)[2];
    assert Results(config, cleaned, steps)[|prefix| + 2] == Results(config, thin, tail)[2];
  }

  /** With a negative time-out nothing is ever healthy, so that pools stay without effect. */
  lemma {:induction false} NothingIsReused(config: UpstreamConfig, one: World, two: World, steps: seq<Step>)
    requires config.idleTimeoutMillis < 0 && InThePast(one) && InThePast(two)
    requires one.now == two.now && one.created == two.created
    requires CanRun(config, one, steps) && CanRun(config, two, steps)
    ensures Results(config, one, steps) == Results(config, two, steps)
    decreases |steps|
  {
    if steps != [] {
      var step := steps[0];
      StepKeepsPast(config, one, step);
      StepKeepsPast(config, two, step);
      if step.BeginBorrow? {
        PopOfUnhealthy(config, PoolAt(one.pools, step.key), one.now);
        PopOfUnhealthy(config, PoolAt(two.pools, step.key), two.now);
      }
      NothingIsReused(config, Stepped(config, one, step), Stepped(config, two, step), steps[1..]);
    }
  }

  /** A cleanup shows in no future run exactly when it finds nothing to remove, or when the
      time-out is negative, so that nothing pooled is ever handed out. */
  lemma CleanupInvisibleExactlyWhen(config: UpstreamConfig, w: World)
    requires Partitioned(w) && WithinLimit(config, w.pools) && InThePast(w)
    ensures CleanupNeverShows(config, w) <==> AllHealthy(config, w) || config.idleTimeoutMillis < 0
  {
    if AllHealthy(config, w) {
      NothingToRemove(config, w);
    } else if config.idleTimeoutMillis < 0 {
      StepKeepsPast(config, w, Clean);
      forall steps | CanRun(config, w, steps) && CanRun(config, Stepped(config, w, Clean), steps)
        ensures Results(config, Stepped(config, w, Clean), steps) == Results(config, w, steps)
      {
        NothingIsReused(config, Stepped(config, w, Clean), w, steps);
      }
    } else {
      var key, c :| key in w.pools && c in w.pools[key] && !Healthy(config, c, w.now);
      var steps := FullPoolShowsCleanup(config, w, key);
    }
  }

  lemma NothingToRemove(config: UpstreamConfig, w: World)
    requires AllHealthy(config, w)
    ensures Stepped(config, w, Clean) == w
  {
    forall key | key in w.pools
      ensures Sweep(config, w.pools[key], w.now) == w.pools[key] && Sick(config, w.pools[key], w.now) == {}
    {
      SweepOfHealthy(config, w.pools[key], w.now);
    }
    assert SweptPools(config, w.pools, w.now) == w.pools;
    assert AllSick(config, w.pools, w.now) == {};
  }
}
