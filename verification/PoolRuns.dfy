/** Whole runs of the connection pool: no connection is lost or duplicated while borrows are
    suspended, and no pool is over its limit.
  */
module PoolRuns {
  import opened CommonTypes
  import opened ConnectionPools

  type BorrowId = nat

  /** The pools, the connections lent out, those destroyed, and the borrows that are suspended
      while their connection is being made. Connections are numbered in the order of creation. */
  datatype World = World(pools: Pools, lent: map<nat, Conn>, destroyed: set<nat>, pending: map<BorrowId, string>,
                         created: nat, now: int)

  datatype Step =
    | BeginBorrow(b: BorrowId, key: string)
    | FinishBorrow(b: BorrowId, success: bool)
    | GiveBack(id: nat, key: string)
    | Discard(id: nat)
    | Shut(id: nat)
    | Wait(span: nat)
    | Clean

  const NEW_WORLD := World(map[], map[], {}, map[], 0, 0)

  function Closed(cs: seq<Conn>, id: nat): seq<Conn> {
    seq(|cs|, i requires 0 <= i < |cs| => if cs[i].id == id then cs[i].(open := false) else cs[i])
  }

  ghost function Ids(cs: seq<Conn>): set<nat> {
    set c | c in cs :: c.id
  }

  ghost function PooledIds(pools: Pools): set<nat> {
    set key, id | key in pools && id in Ids(pools[key]) :: id
  }

  ghost function Sick(config: UpstreamConfig, cs: seq<Conn>, now: int): set<nat> {
    set c | c in cs && !Healthy(config, c, now) :: c.id
  }

  ghost function AllSick(config: UpstreamConfig, pools: Pools, now: int): set<nat> {
    set key, id | key in pools && id in Sick(config, pools[key], now) :: id
  }

  ghost predicate CanStep(w: World, step: Step) {
    match step
    case BeginBorrow(b, _) => b !in w.pending
    case FinishBorrow(b, _) => b in w.pending
    case GiveBack(id, _) => id in w.lent
    case Discard(id) => id in w.lent
    case Shut(_) => true
    case Wait(_) => true
    case Clean => true
  }

  /** A borrow that finds no healthy connection suspends after its pool has been emptied; other
      steps come before the new connection is made, or fails to be. */
  ghost function Stepped(config: UpstreamConfig, w: World, step: Step): World
    requires CanStep(w, step)
  {
    match step
    case BeginBorrow(b, key) => Begun(config, w, b, key)
    case FinishBorrow(b, success) =>
      var w := w.(pending := w.pending - {b});
      if success then w.(lent := w.lent[w.created := Conn(w.created, w.now, true)], created := w.created + 1) else w
    case GiveBack(id, key) =>
      var conn := w.lent[id];
      w.(pools := PushedPools(config, w.pools, key, conn, w.now), lent := w.lent - {id},
         destroyed := if Accepts(config, PoolAt(w.pools, key), conn, w.now) then w.destroyed else w.destroyed + {id})
    case Discard(id) => w.(lent := w.lent - {id}, destroyed := w.destroyed + {id})
    case Shut(id) =>
      w.(pools := map key | key in w.pools :: Closed(w.pools[key], id),
         lent := map i | i in w.lent :: if i == id then w.lent[i].(open := false) else w.lent[i])
    case Wait(span) => w.(now := w.now + span)
    case Clean =>
      w.(pools := SweptPools(config, w.pools, w.now),
         destroyed := w.destroyed + AllSick(config, w.pools, w.now))
  }

  ghost function Begun(config: UpstreamConfig, w: World, b: BorrowId, key: string): World {
    var cs := PoolAt(w.pools, key);
    var (conn, rest) := PopHealthy(config, cs, w.now);
    PopKeepsPrefix(config, cs, w.now);
    var w := w.(pools := PoppedPools(config, w.pools, key, w.now));
    match conn
    case Some(c) => w.(lent := w.lent[c.id := c], destroyed := w.destroyed + Ids(cs[|rest| + 1..]))
    case None => w.(pending := w.pending[b := key], destroyed := w.destroyed + Ids(cs[|rest|..]))
  }

  lemma {:induction false} PopKeepsPrefix(config: UpstreamConfig, cs: seq<Conn>, now: int)
    ensures var (conn, rest) := PopHealthy(config, cs, now);
            && |rest| <= |cs| && rest == cs[..|rest|]
            && (conn.Some? ==>
                  && |rest| < |cs| && Healthy(config, cs[|rest|], now)
                  && conn.value == cs[|rest|].(lastUsed := now))
  {
    if cs != [] {
      PopKeepsPrefix(config, cs[..|cs| - 1], now);
    }
  }

  // ----- what every step keeps ----------------------------------------------------------------------

  ghost predicate DistinctIn(cs: seq<Conn>) {
    forall i, j | 0 <= i < j < |cs| :: cs[i].id != cs[j].id
  }

  ghost function Numbered(n: nat): (ids: set<nat>)
    ensures forall id: nat :: id in ids <==> id < n
  {
    if n == 0 then {} else Numbered(n - 1) + {n - 1}
  }

  /** No connection is in two slots. */
  ghost predicate OneSlotEach(pools: Pools) {
    && (forall key | key in pools :: DistinctIn(pools[key]))
    && (forall a, b | a in pools && b in pools && a != b :: Ids(pools[a]) !! Ids(pools[b]))
  }

  /** Every connection ever created is in exactly one slot of one pool, or lent, or destroyed. */
  ghost predicate Partitioned(w: World) {
    && OneSlotEach(w.pools)
    && PooledIds(w.pools) !! w.lent.Keys !! w.destroyed
    && PooledIds(w.pools) + w.lent.Keys + w.destroyed == Numbered(w.created)
    && (forall id | id in w.lent :: w.lent[id].id == id)
  }

  /** No connection has been used later than now. */
  ghost predicate InThePast(w: World) {
    && (forall key, c: Conn | key in w.pools && c in w.pools[key] :: c.lastUsed <= w.now)
    && forall id | id in w.lent :: w.lent[id].lastUsed <= w.now
  }

  ghost predicate WithinLimit(config: UpstreamConfig, pools: Pools) {
    forall key | key in pools :: |pools[key]| <= config.maxConnectionsPerHost
  }

  /** Replacing one pool by distinct connections of its own, or of none. */
  lemma PoolReplaced(pools: Pools, key: string, cs: seq<Conn>)
    requires OneSlotEach(pools) && DistinctIn(cs)
    requires forall id | id in Ids(cs) :: id in Ids(PoolAt(pools, key)) || id !in PooledIds(pools)
    ensures OneSlotEach(pools[key := cs])
    ensures PooledIds(pools[key := cs]) == PooledIds(pools) - Ids(PoolAt(pools, key)) + Ids(cs)
    ensures Ids(PoolAt(pools, key)) <= PooledIds(pools)
  {
    var pools' := pools[key := cs];
    assert forall k | k in pools && k != key :: pools'[k] == pools[k] && Ids(pools[k]) !! Ids(PoolAt(pools, key));
    forall id | id in PooledIds(pools) - Ids(PoolAt(pools, key)) + Ids(cs)
      ensures id in PooledIds(pools')
    {
      if id in Ids(cs) {
        assert pools'[key] == cs;
      } else {
        var k :| k in pools && id in Ids(pools[k]);
        assert k in pools' && id in Ids(pools'[k]);
      }
    }
  }

  lemma IdsOfParts(cs: seq<Conn>, k: nat)
    requires k <= |cs|
    ensures Ids(cs) == Ids(cs[..k]) + Ids(cs[k..])
    ensures k < |cs| ==> Ids(cs[k..]) == {cs[k].id} + Ids(cs[k + 1..])
    ensures DistinctIn(cs) ==> DistinctIn(cs[..k]) && Ids(cs[..k]) !! Ids(cs[k..])
    ensures DistinctIn(cs) && k < |cs| ==> cs[k].id !in Ids(cs[k + 1..])
  {
    assert cs == cs[..k] + cs[k..];
    assert k < |cs| ==> cs[k..] == [cs[k]] + cs[k + 1..];
  }

  lemma PoolCut(pools: Pools, key: string, k: nat)
    requires OneSlotEach(pools) && k <= |PoolAt(pools, key)|
    ensures var cs := PoolAt(pools, key);
            && OneSlotEach(pools[key := cs[..k]])
            && PooledIds(pools[key := cs[..k]]) == PooledIds(pools) - Ids(cs[k..])
            && Ids(cs[k..]) <= PooledIds(pools)
  {
    IdsOfParts(PoolAt(pools, key), k);
    PoolReplaced(pools, key, PoolAt(pools, key)[..k]);
  }

  lemma PoolKept(pools: Pools, key: string)
    requires OneSlotEach(pools)
    ensures OneSlotEach(pools[key := PoolAt(pools, key)])
    ensures PooledIds(pools[key := PoolAt(pools, key)]) == PooledIds(pools)
  {
    PoolReplaced(pools, key, PoolAt(pools, key));
  }

  lemma PoolExtended(pools: Pools, key: string, conn: Conn)
    requires OneSlotEach(pools) && conn.id !in PooledIds(pools)
    ensures var cs := PoolAt(pools, key);
            && OneSlotEach(pools[key := cs + [conn]])
            && PooledIds(pools[key := cs + [conn]]) == PooledIds(pools) + {conn.id}
  {
    var cs := PoolAt(pools, key);
    assert Ids(cs) <= PooledIds(pools);
    assert forall c | c in cs :: c.id in Ids(cs);
    assert Ids(cs + [conn]) == Ids(cs) + {conn.id} by {
      assert conn in cs + [conn];
    }
    PoolReplaced(pools, key, cs + [conn]);
  }

  lemma BeginBorrowKeeps(config: UpstreamConfig, w: World, b: BorrowId, key: string)
    requires Partitioned(w)
    ensures Partitioned(Begun(config, w, b, key))
  {
    var cs := PoolAt(w.pools, key);
    var k := |PopHealthy(config, cs, w.now).1|;
    PopKeepsPrefix(config, cs, w.now);
    PoolCut(w.pools, key, k);
    IdsOfParts(cs, k);
  }

  lemma GiveBackKeeps(config: UpstreamConfig, w: World, id: nat, key: string)
    requires Partitioned(w) && id in w.lent
    ensures Partitioned(Stepped(config, w, GiveBack(id, key)))
  {
    PoolExtended(w.pools, key, w.lent[id]);
    PoolKept(w.pools, key);
  }

  lemma ShutKeeps(config: UpstreamConfig, w: World, id: nat)
    requires Partitioned(w)
    ensures Partitioned(Stepped(config, w, Shut(id)))
  {
    var pools := Stepped(config, w, Shut(id)).pools;
    forall key | key in pools
      ensures Ids(pools[key]) == Ids(w.pools[key])
    {
      ClosedIds(w.pools[key], id);
    }
    SameIds(pools, w.pools);
  }

  lemma ClosedIds(cs: seq<Conn>, id: nat)
    ensures Ids(Closed(cs, id)) == Ids(cs)
  {
    forall c | c in cs
      ensures c.id in Ids(Closed(cs, id))
    {
      var i :| 0 <= i < |cs| && cs[i] == c;
      assert Closed(cs, id)[i] in Closed(cs, id);
    }
  }

  lemma SameIds(pools: Pools, pools': Pools)
    requires pools.Keys == pools'.Keys && forall key | key in pools :: Ids(pools[key]) == Ids(pools'[key])
    ensures PooledIds(pools) == PooledIds(pools')
  {
    assert forall key, id | key in pools' && id in Ids(pools'[key]) :: id in Ids(pools[key]);
  }

  lemma SweepStep(config: UpstreamConfig, cs: seq<Conn>, now: int)
    requires cs != []
    ensures var n := |cs| - 1;
            Sweep(config, cs, now) == Sweep(config, cs[..n], now) + if Healthy(config, cs[n], now) then [cs[n]] else []
  {
    var n := |cs| - 1;
    assert HealthFlags(config, cs, now)[..n] == HealthFlags(config, cs[..n], now);
  }

  lemma {:induction false} SweepOfHealthy(config: UpstreamConfig, cs: seq<Conn>, now: int)
    ensures |Sweep(config, cs, now)| <= |cs|
    ensures |Sweep(config, cs, now)| == |cs| <==> forall c | c in cs :: Healthy(config, c, now)
    ensures |Sweep(config, cs, now)| == |cs| ==> Sweep(config, cs, now) == cs
  {
    if cs != [] {
      var n := |cs| - 1;
      SweepStep(config, cs, now);
      SweepOfHealthy(config, cs[..n], now);
      assert cs == cs[..n] + [cs[n]];
    }
  }

  /** Sweeping splits a pool into what stays and the unhealthy. */
  lemma {:induction false} SweepSplits(config: UpstreamConfig, cs: seq<Conn>, now: int)
    requires DistinctIn(cs)
    ensures DistinctIn(Sweep(config, cs, now))
    ensures Ids(cs) == Ids(Sweep(config, cs, now)) + Sick(config, cs, now)
    ensures Ids(Sweep(config, cs, now)) !! Sick(config, cs, now)
  {
    if cs != [] {
      var n := |cs| - 1;
      var swept := Sweep(config, cs[..n], now);
      SweepStep(config, cs, now);
      SweepSplits(config, cs[..n], now);
      IdsOfParts(cs, n);
      assert cs == cs[..n] + [cs[n]];
      assert Sick(config, cs, now)
          == Sick(config, cs[..n], now) + if Healthy(config, cs[n], now) then {} else {cs[n].id};
      if Healthy(config, cs[n], now) {
        IdsOfParts(swept + [cs[n]], |swept|);
        assert forall i | 0 <= i < |swept| :: swept[i].id in Ids(swept);
      }
    }
  }

  lemma CleanKeeps(config: UpstreamConfig, w: World)
    requires Partitioned(w)
    ensures Partitioned(Stepped(config, w, Clean))
  {
    var pools := Stepped(config, w, Clean).pools;
    forall key | key in pools
      ensures DistinctIn(pools[key])
      ensures Ids(w.pools[key]) == Ids(pools[key]) + Sick(config, w.pools[key], w.now)
      ensures Ids(pools[key]) !! Sick(config, w.pools[key], w.now)
    {
      SweepSplits(config, w.pools[key], w.now);
    }
    SweptPartition(config, w.pools, pools, w.now);
  }

  lemma SweptPartition(config: UpstreamConfig, pools: Pools, swept: Pools, now: int)
    requires OneSlotEach(pools) && pools.Keys == swept.Keys
    requires forall key | key in pools ::
               && Ids(pools[key]) == Ids(swept[key]) + Sick(config, pools[key], now)
               && Ids(swept[key]) !! Sick(config, pools[key], now)
    ensures PooledIds(pools) == PooledIds(swept) + AllSick(config, pools, now)
    ensures PooledIds(swept) !! AllSick(config, pools, now)
  {
    forall id | id in PooledIds(pools)
      ensures id in PooledIds(swept) + AllSick(config, pools, now)
    {
      var key :| key in pools && id in Ids(pools[key]);
      assert id in Ids(swept[key]) || id in Sick(config, pools[key], now);
    }
    forall id | id in PooledIds(swept)
      ensures id in PooledIds(pools) && id !in AllSick(config, pools, now)
    {
      var key :| key in swept && id in Ids(swept[key]);
      assert id in Ids(pools[key]);
    }
  }

  lemma StepKeepsPartition(config: UpstreamConfig, w: World, step: Step)
    requires Partitioned(w) && CanStep(w, step)
    ensures Partitioned(Stepped(config, w, step))
  {
    match step
    case BeginBorrow(b, key) => BeginBorrowKeeps(config, w, b, key);
    case GiveBack(id, key) => GiveBackKeeps(config, w, id, key);
    case Shut(id) => ShutKeeps(config, w, id);
    case Clean => CleanKeeps(config, w);
    case _ =>
  }

  lemma StepKeepsPast(config: UpstreamConfig, w: World, step: Step)
    requires InThePast(w) && CanStep(w, step)
    ensures InThePast(Stepped(config, w, step))
  {
    var pools := Stepped(config, w, step).pools;
    forall key, c: Conn | key in pools && c in pools[key]
      ensures c.lastUsed <= w.now
    {
      match step {
        case BeginBorrow(_, k) => PopKeepsPrefix(config, PoolAt(w.pools, k), w.now);
        case Clean => SweepKeepsSome(config, w.pools[key], w.now, c);
        case _ =>
      }
    }
    if step.BeginBorrow? {
      var cs := PoolAt(w.pools, step.key);
      PopKeepsPrefix(config, cs, w.now);
    }
  }

  lemma {:induction false} SweepKeepsSome(config: UpstreamConfig, cs: seq<Conn>, now: int, c: Conn)
    requires c in Sweep(config, cs, now)
    ensures c in cs && Healthy(config, c, now)
  {
    var n := |cs| - 1;
    SweepStep(config, cs, now);
    if c in Sweep(config, cs[..n], now) {
      SweepKeepsSome(config, cs[..n], now, c);
    }
  }

  lemma StepKeepsLimit(config: UpstreamConfig, w: World, step: Step)
    requires WithinLimit(config, w.pools) && CanStep(w, step)
    ensures WithinLimit(config, Stepped(config, w, step).pools)
  {
    if step.BeginBorrow? {
      PopKeepsPrefix(config, PoolAt(w.pools, step.key), w.now);
    } else if step.Clean? {
      forall key | key in w.pools
        ensures |Sweep(config, w.pools[key], w.now)| <= |w.pools[key]|
      {
        SweepOfHealthy(config, w.pools[key], w.now);
      }
    }
  }

  ghost predicate IsRun(config: UpstreamConfig, ws: seq<World>, steps: seq<Step>) {
    && |ws| == |steps| + 1 && ws[0] == NEW_WORLD
    && forall i | 0 <= i < |steps| :: CanStep(ws[i], steps[i]) && ws[i + 1] == Stepped(config, ws[i], steps[i])
  }

  /** In every run, at every moment, no connection is lost or in two places, and no pool is over
      its limit, however the borrows that are suspended are interleaved. */
  lemma {:induction false} ConnectionsAreConserved(config: UpstreamConfig, ws: seq<World>, steps: seq<Step>, n: nat)
    requires IsRun(config, ws, steps) && n <= |steps|
    ensures Partitioned(ws[n]) && WithinLimit(config, ws[n].pools) && InThePast(ws[n])
  {
    if n > 0 {
      ConnectionsAreConserved(config, ws, steps, n - 1);
      StepKeepsPartition(config, ws[n - 1], steps[n - 1]);
      StepKeepsLimit(config, ws[n - 1], steps[n - 1]);
      StepKeepsPast(config, ws[n - 1], steps[n - 1]);
    }
  }

  /** A connection that comes to be lent is either new, or was pooled under the key asked for and
      healthy at that moment; nobody held it before. */
  lemma LentWasHealthyOrNew(config: UpstreamConfig, ws: seq<World>, steps: seq<Step>, n: nat, id: nat)
    requires IsRun(config, ws, steps) && n < |steps| && id in ws[n + 1].lent && id !in ws[n].lent
    ensures match steps[n]
            case BeginBorrow(_, key) =>
              exists c :: && c in PoolAt(ws[n].pools, key) && c.id == id && Healthy(config, c, ws[n].now)
                          && ws[n + 1].lent[id] == c.(lastUsed := ws[n].now)
            case FinishBorrow(_, success) => success && id == ws[n].created
            case _ => false
    ensures id !in ws[n].destroyed
  {
    ConnectionsAreConserved(config, ws, steps, n);
    var w := ws[n];
    if steps[n].BeginBorrow? {
      var cs := PoolAt(w.pools, steps[n].key);
      var rest := PopHealthy(config, cs, w.now).1;
      PopKeepsPrefix(config, cs, w.now);
      assert cs[|rest|] in cs && id == cs[|rest|].id;
      assert id in Ids(PoolAt(w.pools, steps[n].key)) && id in PooledIds(w.pools);
    }
  }

  /** The limit bounds idle connections only: under one key any number may be lent. */
  lemma {:induction false} NothingLimitsLent(config: UpstreamConfig, key: string, n: nat)
      returns (ws: seq<World>, steps: seq<Step>)
    ensures IsRun(config, ws, steps)
    ensures forall step | step in steps :: step.FinishBorrow? || (step.BeginBorrow? && step.key == key)
    ensures |ws[|steps|].lent| == n == ws[|steps|].created
    ensures PoolAt(ws[|steps|].pools, key) == [] && ws[|steps|].pending == map[]
  {
    if n == 0 {
      ws, steps := [NEW_WORLD], [];
    } else {
      ws, steps := NothingLimitsLent(config, key, n - 1);
      ws, steps := LendOneMore(config, ws, steps, key);
    }
  }

  lemma LendOneMore(config: UpstreamConfig, ws: seq<World>, steps: seq<Step>, key: string)
      returns (ws': seq<World>, steps': seq<Step>)
    requires IsRun(config, ws, steps) && PoolAt(ws[|steps|].pools, key) == [] && ws[|steps|].pending == map[]
    ensures IsRun(config, ws', steps') && steps' == steps + [BeginBorrow(0, key), FinishBorrow(0, true)]
    ensures |ws'[|steps'|].lent| == |ws[|steps|].lent| + 1 && ws'[|steps'|].created == ws[|steps|].created + 1
    ensures PoolAt(ws'[|steps'|].pools, key) == [] && ws'[|steps'|].pending == map[]
  {
    ConnectionsAreConserved(config, ws, steps, |steps|);
    LentOneMore(config, ws[|steps|], key);
    ws', steps' := Extend(config, ws, steps, BeginBorrow(0, key));
    ws', steps' := Extend(config, ws', steps', FinishBorrow(0, true));
  }

  lemma Extend(config: UpstreamConfig, ws: seq<World>, steps: seq<Step>, step: Step)
      returns (ws': seq<World>, steps': seq<Step>)
    requires IsRun(config, ws, steps) && CanStep(ws[|steps|], step)
    ensures IsRun(config, ws', steps') && steps' == steps + [step]
    ensures ws'[|steps'|] == Stepped(config, ws[|steps|], step)
  {
    ws', steps' := ws + [Stepped(config, ws[|steps|], step)], steps + [step];
  }

  lemma LentOneMore(config: UpstreamConfig, w: World, key: string)
    requires Partitioned(w) && PoolAt(w.pools, key) == [] && w.pending == map[]
    ensures var w1 := Stepped(config, w, BeginBorrow(0, key));
            && CanStep(w1, FinishBorrow(0, true))
            && var w2 := Stepped(config, w1, FinishBorrow(0, true));
            && |w2.lent| == |w.lent| + 1 && w2.created == w.created + 1
            && PoolAt(w2.pools, key) == [] && w2.pending == map[]
  {
    var w2 := Stepped(config, Stepped(config, w, BeginBorrow(0, key)), FinishBorrow(0, true));
    assert w.created !in w.lent.Keys;
    assert w2.lent.Keys == w.lent.Keys + {w.created};
    assert |w2.lent.Keys| == |w2.lent| && |w.lent.Keys| == |w.lent|;
  }

  /** A destroyed connection is never pooled or lent again. */
  lemma {:induction false} DestroyedForGood(config: UpstreamConfig, ws: seq<World>, steps: seq<Step>, m: nat, n: nat,
                                            id: nat)
    requires IsRun(config, ws, steps) && m <= n <= |steps| && id in ws[m].destroyed
    ensures id in ws[n].destroyed && id !in ws[n].lent && id !in PooledIds(ws[n].pools)
    decreases n
  {
    ConnectionsAreConserved(config, ws, steps, n);
    if m < n {
      DestroyedForGood(config, ws, steps, m, n - 1, id);
      assert CanStep(ws[n - 1], steps[n - 1]);
    }
  }

  /** A lent connection is pooled again only after a step that gives that very connection back. */
  lemma {:induction false} GivenBackBetween(config: UpstreamConfig, ws: seq<World>, steps: seq<Step>, m: nat, n: nat,
                                            id: nat)
      returns (k: nat)
    requires IsRun(config, ws, steps) && m < n <= |steps| && id in ws[m].lent && id in PooledIds(ws[n].pools)
    ensures m <= k < n && steps[k].GiveBack? && steps[k].id == id
    decreases n
  {
    k := n - 1;
    ConnectionsAreConserved(config, ws, steps, k);
    EnteringPools(config, ws[k], steps[k]);
    if id in PooledIds(ws[k].pools) {
      k := GivenBackBetween(config, ws, steps, m, k, id);
    }
  }

  /** Only what is given back enters a pool. */
  lemma EnteringPools(config: UpstreamConfig, w: World, step: Step)
    requires CanStep(w, step) && Partitioned(w)
    ensures PooledIds(Stepped(config, w, step).pools) <= PooledIds(w.pools) + if step.GiveBack? then {step.id} else {}
  {
    forall key | key in Stepped(config, w, step).pools
      ensures Ids(Stepped(config, w, step).pools[key])
           <= Ids(PoolAt(w.pools, key)) + if step.GiveBack? then {step.id} else {}
    {
      EnteringPool(config, w, step, key);
    }
    assert forall key | key in w.pools :: Ids(PoolAt(w.pools, key)) <= PooledIds(w.pools);
  }

  lemma EnteringPool(config: UpstreamConfig, w: World, step: Step, key: string)
    requires CanStep(w, step) && Partitioned(w) && key in Stepped(config, w, step).pools
    ensures Ids(Stepped(config, w, step).pools[key])
         <= Ids(PoolAt(w.pools, key)) + if step.GiveBack? then {step.id} else {}
  {
    match step {
      case BeginBorrow(_, k) => PopKeepsPrefix(config, PoolAt(w.pools, k), w.now);
      case Shut(closed) => ClosedIds(w.pools[key], closed);
      case Clean => SweepSplits(config, w.pools[key], w.now);
      case _ =>
    }
  }
}
