/** The operations on the heap are the steps of the pool's runs: what each leaves in the pools, seen
    as values, is what the step of that name leaves there.
  */
module PoolSteps {
  import opened CommonTypes
  import opened ConnectionPools
  import opened PoolRuns

  lemma {:induction false} SelectViews(cs: seq<UpstreamConnection>, keep: seq<bool>)
    requires |cs| == |keep|
    ensures Views(Select(cs, keep)) == Select(Views(cs), keep)
  {
    if cs != [] {
      var n := |cs| - 1;
      SelectViews(cs[..n], keep[..n]);
      assert Views(cs)[..n] == Views(cs[..n]);
    }
  }

  ghost function ViewPools(pools: map<string, seq<UpstreamConnection>>): Pools
    reads set key, i | key in pools && 0 <= i < |pools[key]| :: pools[key][i]
  {
    map key | key in pools :: Views(pools[key])
  }

  /** The pool holds what the world says, and the step can be taken at this moment. */
  ghost predicate AtStep(pool: ConnectionPool, w: World, step: Step, now: int)
    reads pool, set key, i | key in pool.pools && 0 <= i < |pool.pools[key]| :: pool.pools[key][i]
  {
    pool.Valid() && ViewPools(pool.pools) == w.pools && now == w.now && CanStep(w, step)
  }

  method Borrow(pool: ConnectionPool, host: string, port: uint16, now: int, ghost w: World, ghost step: Step)
      returns (conn: UpstreamConnection?)
    requires step.BeginBorrow? && step.key == PoolKey(host, port) && AtStep(pool, w, step, now)
    modifies pool`pools, pool`places, PoolAt(pool.pools, PoolKey(host, port))
    ensures ViewPools(pool.pools) == Stepped(pool.config, w, step).pools
  {
    conn := BorrowViews(pool, host, port, now, w.pools);
    StepPools(pool.config, w, step);
  }

  method BorrowViews(pool: ConnectionPool, host: string, port: uint16, now: int, ghost pools: Pools)
      returns (conn: UpstreamConnection?)
    requires pool.Valid() && ViewPools(pool.pools) == pools
    modifies pool`pools, pool`places, PoolAt(pool.pools, PoolKey(host, port))
    ensures ViewPools(pool.pools) == PoppedPools(pool.config, pools, PoolKey(host, port), now)
  {
    ghost var key, before, cs := PoolKey(host, port), pool.pools, PoolAt(pool.pools, PoolKey(host, port));
    ghost var views := Views(cs);
    PoolsAreApart(pool.places, before, key, cs);
    ghost var kept;
    conn, kept := pool.BorrowPooled(host, port, now);
    assert conn != null ==> conn in cs;
    forall k | k in before && k != key
      ensures Views(before[k]) == pools[k]
    {
      SameViews(before[k]);
    }
    forall i | 0 <= i < kept
      ensures cs[i].View() == views[i]
    {
      assert cs[i] in old(pool.places) && cs[i] != conn;
    }
    ViewsOfPrefix(cs, kept, views);
    PoppedViews(pool.config, before, key, cs[..kept], pools, now);
  }

  /** A borrow that resumes. */
  method Resume(pool: ConnectionPool, success: bool, now: int, ghost w: World, ghost step: Step)
      returns (conn: UpstreamConnection?)
    requires step.FinishBorrow? && step.success == success && AtStep(pool, w, step, now) && pool.created == w.created
    modifies pool`created, pool`places
    ensures ViewPools(pool.pools) == Stepped(pool.config, w, step).pools
    ensures pool.created == Stepped(pool.config, w, step).created
  {
    conn := pool.CreateNewConnection(success, now);
    StepPools(pool.config, w, step);
  }

  method Return(pool: ConnectionPool, host: string, port: uint16, conn: UpstreamConnection, now: int,
                ghost w: World, ghost step: Step)
    requires step.GiveBack? && step.key == PoolKey(host, port) && AtStep(pool, w, step, now)
    requires conn in pool.places && pool.places[conn] == Lent && conn.View() == w.lent[step.id]
    modifies pool`pools, pool`places
    ensures ViewPools(pool.pools) == Stepped(pool.config, w, step).pools
  {
    ReturnViews(pool, host, port, conn, now, w.pools);
    StepPools(pool.config, w, step);
  }

  method ReturnViews(pool: ConnectionPool, host: string, port: uint16, conn: UpstreamConnection, now: int,
                     ghost pools: Pools)
    requires pool.Valid() && ViewPools(pool.pools) == pools && conn in pool.places && pool.places[conn] == Lent
    modifies pool`pools, pool`places
    ensures ViewPools(pool.pools) == PushedPools(pool.config, pools, PoolKey(host, port), conn.View(), now)
  {
    ghost var before := pool.pools;
    pool.ReturnConnection(host, port, conn, now);
    assert ViewPools(before) == pools;
    PushedViews(pool.config, before, PoolKey(host, port), conn, now);
  }

  method CleanUp(pool: ConnectionPool, now: int, ghost w: World, ghost step: Step)
    requires step.Clean? && AtStep(pool, w, step, now)
    modifies pool`pools, pool`places
    ensures ViewPools(pool.pools) == Stepped(pool.config, w, step).pools
  {
    ghost var before := pool.pools;
    pool.CleanupIdleConnections(now);
    assert ViewPools(before) == w.pools;
    SweptViews(pool.config, before, pool.pools, now);
    StepPools(pool.config, w, step);
  }

  lemma StepPools(config: UpstreamConfig, w: World, step: Step)
    requires CanStep(w, step)
    ensures step.BeginBorrow? ==> Stepped(config, w, step).pools == PoppedPools(config, w.pools, step.key, w.now)
    ensures step.FinishBorrow? ==> Stepped(config, w, step).pools == w.pools
    ensures step.GiveBack? ==>
              Stepped(config, w, step).pools == PushedPools(config, w.pools, step.key, w.lent[step.id], w.now)
    ensures step.Clean? ==> Stepped(config, w, step).pools == SweptPools(config, w.pools, w.now)
  {
  }

  lemma PoppedViews(config: UpstreamConfig, pools: map<string, seq<UpstreamConnection>>, key: string,
                    cs: seq<UpstreamConnection>, views: Pools, now: int)
    requires pools.Keys == views.Keys && |cs| <= |PoolAt(views, key)|
    requires forall k | k in pools && k != key :: Views(pools[k]) == views[k]
    requires Views(cs) == PoolAt(views, key)[..|cs|] == PopHealthy(config, PoolAt(views, key), now).1
    ensures ViewPools(pools[key := cs]) == PoppedPools(config, views, key, now)
  {
  }

  lemma ViewsOfPrefix(cs: seq<UpstreamConnection>, k: nat, views: seq<Conn>)
    requires k <= |cs| == |views| && forall i | 0 <= i < k :: cs[i].View() == views[i]
    ensures Views(cs[..k]) == views[..k]
  {
  }

  twostate lemma SameViews(cs: seq<UpstreamConnection>)
    requires forall c: UpstreamConnection | c in cs :: c.View() == old(c.View())
    ensures Views(cs) == old(Views(cs))
  {
  }

  lemma PushedViews(config: UpstreamConfig, pools: map<string, seq<UpstreamConnection>>, key: string,
                    conn: UpstreamConnection, now: int)
    ensures var cs, healthy := PoolAt(pools, key), Healthy(config, conn.View(), now);
            var room := |cs| < config.maxConnectionsPerHost;
            ViewPools(if !healthy then pools else pools[key := if room then cs + [conn] else cs])
            == PushedPools(config, ViewPools(pools), key, conn.View(), now)
  {
    var cs := PoolAt(pools, key);
    assert Views(cs + [conn]) == Views(cs) + [conn.View()];
    assert PoolAt(ViewPools(pools), key) == Views(cs);
  }

  lemma SweptViews(config: UpstreamConfig, pools: map<string, seq<UpstreamConnection>>,
                   swept: map<string, seq<UpstreamConnection>>, now: int)
    requires swept.Keys == pools.Keys
    requires forall key | key in pools :: swept[key] == Select(pools[key], HealthFlags(config, Views(pools[key]), now))
    ensures ViewPools(swept) == SweptPools(config, ViewPools(pools), now)
  {
    forall key | key in pools
      ensures Views(swept[key]) == Sweep(config, Views(pools[key]), now)
    {
      SelectViews(pools[key], HealthFlags(config, Views(pools[key]), now));
    }
  }

  lemma PoolsAreApart(places: Places, pools: map<string, seq<UpstreamConnection>>, key: string,
                      cs: seq<UpstreamConnection>)
    requires PoolsHold(places, pools) && cs == PoolAt(pools, key)
    ensures forall k, c | k in pools && c in pools[k] :: c in places && (k != key ==> c !in cs)
    ensures forall i | 0 <= i < |cs| :: cs[i] in places
    ensures forall i, j | 0 <= i < j < |cs| :: cs[i] != cs[j]
  {
    forall k, c | k in pools && c in pools[k]
      ensures c in places && (k != key ==> c !in cs)
    {
      assert PoolHolds(places, k, pools[k]);
      assert key in pools ==> PoolHolds(places, key, pools[key]);
    }
    assert key in pools ==> PoolHolds(places, key, pools[key]);
  }
}
