/** What the pool does with a connection, in terms of its socket and of the time since its last use. */
module PoolMeaning {
  import opened CommonTypes
  import opened ConnectionPools
  import opened PoolRuns

  /** Open, and idle for less than a millisecond more than the time-out: whole milliseconds count. */
  predicate Usable(config: UpstreamConfig, c: Conn, now: int) {
    c.open && now - c.lastUsed < (config.idleTimeoutMillis + 1) * 1_000_000
  }

  lemma HealthyIsUsable(config: UpstreamConfig, c: Conn, now: int)
    ensures Healthy(config, c, now) ==> Usable(config, c, now)
    ensures c.lastUsed <= now || config.idleTimeoutMillis >= 0 ==>
              (Healthy(config, c, now) <==> Usable(config, c, now))
  {
  }

  // ----- single operations --------------------------------------------------------------------------

  /** A borrow from a pool hands out a usable connection, and does so if there is one. */
  lemma {:induction false} BorrowIsUsable(config: UpstreamConfig, cs: seq<Conn>, now: int)
    requires forall c | c in cs :: c.lastUsed <= now
    ensures PopHealthy(config, cs, now).0.Some? <==> exists c :: c in cs && Usable(config, c, now)
    ensures var popped := PopHealthy(config, cs, now).0;
            popped.Some? ==> exists c :: c in cs && Usable(config, c, now) && popped.value == c.(lastUsed := now)
  {
    if cs != [] {
      var n := |cs| - 1;
      assert cs == cs[..n] + [cs[n]];
      assert cs[n] in cs;
      HealthyIsUsable(config, cs[n], now);
      BorrowIsUsable(config, cs[..n], now);
    }
  }

  /** A connection that is given back is kept exactly if it is usable and there is room. */
  lemma ReturnKeepsUsable(config: UpstreamConfig, cs: seq<Conn>, c: Conn, now: int)
    requires c.lastUsed <= now
    ensures Push(config, cs, c, now)
            == if Usable(config, c, now) && |cs| < config.maxConnectionsPerHost then cs + [c] else cs
  {
    HealthyIsUsable(config, c, now);
  }

  /** A cleanup keeps exactly the usable connections. */
  lemma {:induction false} CleanupKeepsUsable(config: UpstreamConfig, cs: seq<Conn>, now: int)
    requires forall c | c in cs :: c.lastUsed <= now
    ensures forall c :: c in Sweep(config, cs, now) <==> c in cs && Usable(config, c, now)
  {
    if cs != [] {
      var n := |cs| - 1;
      SweepStep(config, cs, now);
      assert cs == cs[..n] + [cs[n]];
      HealthyIsUsable(config, cs[n], now);
      CleanupKeepsUsable(config, cs[..n], now);
    }
  }

  // ----- whole runs -----------------------------------------------------------------------------------

  function Waited(steps: seq<Step>): nat {
    if steps == [] then 0
    else Waited(steps[..|steps| - 1]) + if steps[|steps| - 1].Wait? then steps[|steps| - 1].span else 0
  }

  /** The time that has passed is the time waited. */
  lemma {:induction false} NowIsWaited(config: UpstreamConfig, ws: seq<World>, steps: seq<Step>, n: nat)
    requires IsRun(config, ws, steps) && n <= |steps|
    ensures ws[n].now == Waited(steps[..n])
  {
    if n > 0 {
      NowIsWaited(config, ws, steps, n - 1);
      assert steps[..n][..n - 1] == steps[..n - 1];
      assert ws[n - 1 + 1] == Stepped(config, ws[n - 1], steps[n - 1]);
    }
  }

  /** A connection that a borrow takes out of a pool was open, and had been idle for no longer than
      the time-out. */
  lemma ReusedWasUsable(config: UpstreamConfig, ws: seq<World>, steps: seq<Step>, n: nat, id: nat)
    requires IsRun(config, ws, steps) && n < |steps| && steps[n].BeginBorrow?
    requires id in ws[n + 1].lent && id !in ws[n].lent
    ensures exists c ::
              && c in PoolAt(ws[n].pools, steps[n].key) && c.id == id
              && c.open && ws[n].now - c.lastUsed < (config.idleTimeoutMillis + 1) * 1_000_000
              && ws[n + 1].lent[id] == c.(lastUsed := ws[n].now)
  {
    LentWasHealthyOrNew(config, ws, steps, n, id);
    var c :|
      && c in PoolAt(ws[n].pools, steps[n].key) && c.id == id && Healthy(config, c, ws[n].now)
      && ws[n + 1].lent[id] == c.(lastUsed := ws[n].now);
    HealthyIsUsable(config, c, ws[n].now);
  }

  /** If the pool of the key holds an open connection that has not been idle for longer, the borrow
      hands one out; otherwise it suspends for a new one. */
  lemma UsableIsReused(config: UpstreamConfig, ws: seq<World>, steps: seq<Step>, n: nat)
    requires IsRun(config, ws, steps) && n < |steps| && steps[n].BeginBorrow?
    ensures var some := exists c ::
                          && c in PoolAt(ws[n].pools, steps[n].key)
                          && c.open && ws[n].now - c.lastUsed < (config.idleTimeoutMillis + 1) * 1_000_000;
            && (some ==> ws[n + 1].pending == ws[n].pending && |ws[n + 1].lent| == |ws[n].lent| + 1)
            && (!some ==> steps[n].b in ws[n + 1].pending && ws[n + 1].lent == ws[n].lent)
  {
    ConnectionsAreConserved(config, ws, steps, n);
    BorrowIsUsable(config, PoolAt(ws[n].pools, steps[n].key), ws[n].now);
    assert ws[n + 1] == Begun(config, ws[n], steps[n].b, steps[n].key);
    BegunLends(config, ws[n], steps[n].b, steps[n].key);
    assert forall c :: Usable(config, c, ws[n].now) <==>
        c.open && ws[n].now - c.lastUsed < (config.idleTimeoutMillis + 1) * 1_000_000;
  }

  lemma BegunLends(config: UpstreamConfig, w: World, b: BorrowId, key: string)
    requires Partitioned(w)
    ensures var w', popped := Begun(config, w, b, key), PopHealthy(config, PoolAt(w.pools, key), w.now).0;
            && (popped.Some? ==> w'.pending == w.pending && |w'.lent| == |w.lent| + 1)
            && (popped.None? ==> b in w'.pending && w'.lent == w.lent)
  {
    var w', popped := Begun(config, w, b, key), PopHealthy(config, PoolAt(w.pools, key), w.now).0;
    if popped.Some? {
      var cs := PoolAt(w.pools, key);
      PopKeepsPrefix(config, cs, w.now);
      var c := cs[|PopHealthy(config, cs, w.now).1|];
      assert c in cs && c.id in Ids(cs) && c.id in PooledIds(w.pools);
      OneMoreKey(w.lent, c.id, popped.value);
    }
  }

  lemma OneMoreKey(m: map<nat, Conn>, id: nat, c: Conn)
    requires id !in m
    ensures |m[id := c]| == |m| + 1
  {
    assert m[id := c].Keys == m.Keys + {id};
    assert |m[id := c].Keys| == |m[id := c]| && |m.Keys| == |m|;
  }

  /** Wherever the connection is, its socket is closed. */
  ghost predicate Shutdown(w: World, id: nat) {
    && id < w.created && (id in w.lent ==> !w.lent[id].open)
    && forall key, c: Conn | key in w.pools && c in w.pools[key] && c.id == id :: !c.open
  }

  /** A closed connection stays closed, is not handed out, and enters no pool. */
  lemma StepKeepsShutdown(config: UpstreamConfig, w: World, step: Step, id: nat)
    requires Shutdown(w, id) && CanStep(w, step) && Partitioned(w)
    ensures Shutdown(Stepped(config, w, step), id)
    ensures id in Stepped(config, w, step).lent ==> id in w.lent
    ensures id in PooledIds(Stepped(config, w, step).pools) ==> id in PooledIds(w.pools)
  {
    var w' := Stepped(config, w, step);
    EnteringPools(config, w, step);
    forall key, c: Conn | key in w'.pools && c in w'.pools[key] && c.id == id
      ensures !c.open
      ensures step.GiveBack? && step.id == id ==> id in PooledIds(w.pools)
    {
      ShutdownInPool(config, w, step, id, key, c);
    }
    if step.BeginBorrow? {
      PopKeepsPrefix(config, PoolAt(w.pools, step.key), w.now);
    }
  }

  lemma ShutdownInPool(config: UpstreamConfig, w: World, step: Step, id: nat, key: string, c: Conn)
    requires Shutdown(w, id) && CanStep(w, step) && Partitioned(w)
    requires key in Stepped(config, w, step).pools && c in Stepped(config, w, step).pools[key] && c.id == id
    ensures !c.open && id in PooledIds(w.pools)
  {
    var was := PoolAt(w.pools, key);
    match step {
      case BeginBorrow(_, k) => PopKeepsPrefix(config, PoolAt(w.pools, k), w.now);
      case Clean => SweepKeepsSome(config, was, w.now, c);
      case Shut(_) => ClosedKeepsClosed(was, step.id, c);
      case _ =>
    }
    assert id in Ids(was) && was == w.pools[key];
  }

  /** Closing sockets opens none. */
  lemma ClosedKeepsClosed(cs: seq<Conn>, id: nat, c: Conn)
    requires c in Closed(cs, id)
    ensures exists was :: was in cs && was.id == c.id && (c.open ==> was.open && c.id != id)
  {
    var i :| 0 <= i < |cs| && Closed(cs, id)[i] == c;
    assert cs[i] in cs;
  }

  /** A connection whose socket is closed is never handed out again, and never pooled again: while
      it is pooled it stays there until it is dropped, and when it is given back it is dropped. */
  lemma {:induction false} ShutIsForGood(config: UpstreamConfig, ws: seq<World>, steps: seq<Step>, m: nat, n: nat,
                                         id: nat)
    requires IsRun(config, ws, steps) && m < n <= |steps| && steps[m] == Shut(id) && id < ws[m].created
    ensures Shutdown(ws[n], id)
    ensures id in ws[n].lent ==> id in ws[m].lent
    ensures id in PooledIds(ws[n].pools) ==> id in PooledIds(ws[m].pools)
    decreases n
  {
    ConnectionsAreConserved(config, ws, steps, n - 1);
    if n == m + 1 {
      ShutCloses(config, ws[m], id);
    } else {
      ShutIsForGood(config, ws, steps, m, n - 1, id);
      RunKeepsShutdown(config, ws, steps, n - 1, id);
    }
  }

  lemma RunKeepsShutdown(config: UpstreamConfig, ws: seq<World>, steps: seq<Step>, n: nat, id: nat)
    requires IsRun(config, ws, steps) && n < |steps| && Shutdown(ws[n], id) && Partitioned(ws[n])
    ensures Shutdown(ws[n + 1], id)
    ensures id in ws[n + 1].lent ==> id in ws[n].lent
    ensures id in PooledIds(ws[n + 1].pools) ==> id in PooledIds(ws[n].pools)
  {
    StepKeepsShutdown(config, ws[n], steps[n], id);
  }

  lemma ShutCloses(config: UpstreamConfig, w: World, id: nat)
    requires Partitioned(w) && id < w.created
    ensures var w' := Stepped(config, w, Shut(id));
            && Shutdown(w', id) && w'.lent.Keys == w.lent.Keys && PooledIds(w'.pools) <= PooledIds(w.pools)
  {
    EnteringPools(config, w, Shut(id));
    var w' := Stepped(config, w, Shut(id));
    forall key, c: Conn | key in w'.pools && c in w'.pools[key] && c.id == id
      ensures !c.open
    {
      ClosedKeepsClosed(w.pools[key], id, c);
    }
  }
}
