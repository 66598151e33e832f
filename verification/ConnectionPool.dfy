/** The pool of idle upstream connections, keyed by host and port.

    Instants are steady-clock nanoseconds. Connections are heap objects that the pool and its
    borrowers hand to each other; what the operations do is stated on their views.
  */
module ConnectionPools {
  import opened CommonTypes
  import opened DecimalText

  const NANOS_PER_MILLI := 1_000_000

  datatype UpstreamConfig = UpstreamConfig(idleTimeoutMillis: int, maxConnectionsPerHost: uint32)

  /** A connection as a value. */
  datatype Conn = Conn(id: nat, lastUsed: int, open: bool)

  /** `duration_cast` to whole milliseconds, which truncates toward zero. */
  function WholeMillis(nanos: int): int {
    if nanos >= 0 then nanos / NANOS_PER_MILLI else -(-nanos / NANOS_PER_MILLI)
  }

  predicate Healthy(config: UpstreamConfig, c: Conn, now: int) {
    WholeMillis(now - c.lastUsed) <= config.idleTimeoutMillis && c.open
  }

  /** Takes connections from the back until one is healthy; those passed over are gone. */
  function PopHealthy(config: UpstreamConfig, cs: seq<Conn>, now: int): (Option<Conn>, seq<Conn>) {
    if cs == [] then (None, [])
    else
      var n := |cs| - 1;
      if Healthy(config, cs[n], now) then (Some(cs[n].(lastUsed := now)), cs[..n])
      else PopHealthy(config, cs[..n], now)
  }

  predicate Accepts(config: UpstreamConfig, cs: seq<Conn>, c: Conn, now: int) {
    Healthy(config, c, now) && |cs| < config.maxConnectionsPerHost
  }

  function Push(config: UpstreamConfig, cs: seq<Conn>, c: Conn, now: int): seq<Conn> {
    if Accepts(config, cs, c, now) then cs + [c] else cs
  }

  function HealthFlags(config: UpstreamConfig, cs: seq<Conn>, now: int): seq<bool> {
    seq(|cs|, i requires 0 <= i < |cs| => Healthy(config, cs[i], now))
  }

  /** The elements whose flag is set, in order. */
  function Select<T>(cs: seq<T>, keep: seq<bool>): seq<T>
    requires |cs| == |keep|
  {
    if cs == [] then []
    else Select(cs[..|cs| - 1], keep[..|cs| - 1]) + if keep[|cs| - 1] then [cs[|cs| - 1]] else []
  }

  /** The healthy connections, in order. */
  function Sweep(config: UpstreamConfig, cs: seq<Conn>, now: int): seq<Conn> {
    Select(cs, HealthFlags(config, cs, now))
  }

  function PoolAt<T>(pools: map<string, seq<T>>, key: string): seq<T> {
    if key in pools then pools[key] else []
  }

  // ----- all pools ------------------------------------------------------------------------------

  type Pools = map<string, seq<Conn>>

  function PoppedPools(config: UpstreamConfig, pools: Pools, key: string, now: int): Pools {
    pools[key := PopHealthy(config, PoolAt(pools, key), now).1]
  }

  function PushedPools(config: UpstreamConfig, pools: Pools, key: string, c: Conn, now: int): Pools {
    if Healthy(config, c, now) then pools[key := Push(config, PoolAt(pools, key), c, now)] else pools
  }

  function SweptPools(config: UpstreamConfig, pools: Pools, now: int): Pools {
    map key | key in pools :: Sweep(config, pools[key], now)
  }

  // ----- keys -----------------------------------------------------------------------------------

  function PoolKey(host: string, port: uint16): string {
    host + ":" + Decimal(port)
  }

  /** Different hosts or ports never share a pool, whatever the host contains. */
  lemma PoolKeyInjective(host: string, port: uint16, host': string, port': uint16)
    requires PoolKey(host, port) == PoolKey(host', port')
    ensures host == host' && port == port'
  {
    var key, p, p' := PoolKey(host, port), Decimal(port), Decimal(port');
    DecimalIsDigits(port);
    DecimalIsDigits(port');
    assert key[|host|] == ':' && key[|host'|] == ':';
    assert forall i | |host| < i < |key| :: key[i] == p[i - |host| - 1] && p[i - |host| - 1] in p;
    assert forall i | |host'| < i < |key| :: key[i] == p'[i - |host'| - 1] && p'[i - |host'| - 1] in p';
    assert |host| == |host'|;
    assert key[..|host|] == host && key[..|host'|] == host';
    assert key[|host| + 1..] == p && key[|host'| + 1..] == p';
    DecimalInjective(port, port');
  }

  // ----- what popping and sweeping mean ---------------------------------------------------------

  /** Popping yields the last healthy connection, keeps what is before it and drops what is behind it. */
  lemma {:induction false} PopIsLastHealthy(config: UpstreamConfig, cs: seq<Conn>, now: int, k: nat)
    requires k < |cs| && Healthy(config, cs[k], now)
    requires forall i | k < i < |cs| :: !Healthy(config, cs[i], now)
    ensures PopHealthy(config, cs, now) == (Some(cs[k].(lastUsed := now)), cs[..k])
    decreases |cs|
  {
    var n := |cs| - 1;
    if k < n {
      PopIsLastHealthy(config, cs[..n], now, k);
      assert cs[..n][..k] == cs[..k];
    }
  }

  lemma {:induction false} PopOfUnhealthy(config: UpstreamConfig, cs: seq<Conn>, now: int)
    requires forall i | 0 <= i < |cs| :: !Healthy(config, cs[i], now)
    ensures PopHealthy(config, cs, now) == (None, [])
  {
    if cs != [] {
      PopOfUnhealthy(config, cs[..|cs| - 1], now);
    }
  }

  lemma {:induction false} SelectSource<T>(cs: seq<T>, keep: seq<bool>, i: nat) returns (j: nat)
    requires |cs| == |keep| && i < |Select(cs, keep)|
    ensures j < |cs| && keep[j] && cs[j] == Select(cs, keep)[i]
  {
    var n := |cs| - 1;
    if i < |Select(cs[..n], keep[..n])| {
      j := SelectSource(cs[..n], keep[..n], i);
    } else {
      j := n;
    }
  }

  lemma {:induction false} SelectKeeps<T>(cs: seq<T>, keep: seq<bool>, j: nat)
    requires |cs| == |keep| && j < |cs| && keep[j]
    ensures cs[j] in Select(cs, keep)
  {
    var n := |cs| - 1;
    if j < n {
      SelectKeeps(cs[..n], keep[..n], j);
      assert cs[..n][j] == cs[j];
    }
  }

  lemma {:induction false} SelectDistinct<T>(cs: seq<T>, keep: seq<bool>)
    requires |cs| == |keep| && forall i, j | 0 <= i < j < |cs| :: cs[i] != cs[j]
    ensures forall i, j | 0 <= i < j < |Select(cs, keep)| :: Select(cs, keep)[i] != Select(cs, keep)[j]
  {
    if cs != [] {
      var n := |cs| - 1;
      SelectDistinct(cs[..n], keep[..n]);
      forall i: nat | i < |Select(cs[..n], keep[..n])|
        ensures Select(cs[..n], keep[..n])[i] != cs[n]
      {
        var j := SelectSource(cs[..n], keep[..n], i);
      }
    }
  }

  // ----- the pool on the heap ---------------------------------------------------------------------

  class UpstreamConnection {
    const id: nat
    var open: bool
    var lastUsedTime: int

    constructor (id: nat, createTime: int)
      ensures View() == Conn(id, createTime, true)
    {
      this.id := id;
      open, lastUsedTime := true, createTime;
    }

    function View(): Conn
      reads this`open, this`lastUsedTime
    {
      Conn(id, lastUsedTime, open)
    }

    method MarkUsed(now: int)
      modifies this`lastUsedTime
      ensures lastUsedTime == now
    {
      lastUsedTime := now;
    }
  }

  function Views(cs: seq<UpstreamConnection>): (views: seq<Conn>)
    reads cs`open, cs`lastUsedTime
    ensures |views| == |cs| && forall i | 0 <= i < |cs| :: views[i] == cs[i].View()
  {
    if cs == [] then [] else Views(cs[..|cs| - 1]) + [cs[|cs| - 1].View()]
  }

  /** Where a connection is. */
  datatype Place = InPool(key: string) | Lent | Destroyed

  type Places = map<UpstreamConnection, Place>

  /** A pool's connections are in its slots and nowhere else, one slot each. */
  ghost predicate PoolHolds(places: Places, key: string, cs: seq<UpstreamConnection>) {
    && (forall c | c in cs :: c in places && places[c] == InPool(key))
    && (forall i, j | 0 <= i < j < |cs| :: cs[i] != cs[j])
  }

  /** Every pooled connection is in exactly one slot of one pool. */
  ghost predicate PoolsHold(places: Places, pools: map<string, seq<UpstreamConnection>>) {
    && (forall key | key in pools :: PoolHolds(places, key, pools[key]))
    && forall c | c in places && places[c].InPool? :: c in PoolAt(pools, places[c].key)
  }

  lemma LastOut(places: Places, pools: map<string, seq<UpstreamConnection>>, key: string, place: Place)
    requires PoolsHold(places, pools) && key in pools && pools[key] != [] && !place.InPool?
    ensures var cs := pools[key];
            PoolsHold(places[cs[|cs| - 1] := place], pools[key := cs[..|cs| - 1]])
  {
    var cs := pools[key];
    var last := cs[|cs| - 1];
    assert PoolHolds(places, key, cs);
    LastApart(cs);
    forall k | k in pools && k != key
      ensures PoolHolds(places[last := place], k, pools[k])
    {
      assert PoolHolds(places, k, pools[k]);
    }
  }

  lemma LastApart<T>(cs: seq<T>)
    requires cs != [] && forall i, j | 0 <= i < j < |cs| :: cs[i] != cs[j]
    ensures cs[|cs| - 1] in cs && cs[|cs| - 1] !in cs[..|cs| - 1]
    ensures forall c | c in cs && c != cs[|cs| - 1] :: c in cs[..|cs| - 1]
    ensures forall c | c in cs[..|cs| - 1] :: c in cs
  {
    assert cs == cs[..|cs| - 1] + [cs[|cs| - 1]];
  }

  lemma LentIn(places: Places, pools: map<string, seq<UpstreamConnection>>, key: string, conn: UpstreamConnection)
    requires PoolsHold(places, pools) && conn in places && places[conn] == Lent
    ensures PoolsHold(places[conn := InPool(key)], pools[key := PoolAt(pools, key) + [conn]])
    ensures PoolsHold(places[conn := Destroyed], pools)
  {
    forall k | k in pools
      ensures conn !in pools[k] && PoolHolds(places[conn := Destroyed], k, pools[k])
      ensures k != key ==> PoolHolds(places[conn := InPool(key)], k, pools[k])
    {
      assert PoolHolds(places, k, pools[k]);
    }
  }

  ghost function Flags(cs: seq<UpstreamConnection>, healthy: set<UpstreamConnection>): (flags: seq<bool>)
    ensures |flags| == |cs| && forall i | 0 <= i < |cs| :: flags[i] <==> cs[i] in healthy
  {
    seq(|cs|, i requires 0 <= i < |cs| => cs[i] in healthy)
  }

  lemma FlagsAreHealth(config: UpstreamConfig, cs: seq<UpstreamConnection>, healthy: set<UpstreamConnection>, now: int)
    requires forall c | c in cs :: c in healthy <==> Healthy(config, c.View(), now)
    ensures Flags(cs, healthy) == HealthFlags(config, Views(cs), now)
  {
    assert forall i | 0 <= i < |cs| :: cs[i] in cs;
  }

  /** The connections of some pools that are not healthy have been destroyed, the others are where they were. */
  ghost predicate PlacesSwept(before: Places, after: Places, keys: set<string>, healthy: set<UpstreamConnection>) {
    && after.Keys == before.Keys
    && forall c | c in after ::
         after[c] == if before[c].InPool? && before[c].key in keys && c !in healthy then Destroyed else before[c]
  }

  ghost function SickMarked(places: Places, key: string, healthy: set<UpstreamConnection>): (after: Places)
    ensures PlacesSwept(places, after, {key}, healthy)
  {
    map c | c in places :: if places[c] == InPool(key) && c !in healthy then Destroyed else places[c]
  }

  lemma SweepKeepsHold(places: Places, pools: map<string, seq<UpstreamConnection>>, key: string,
                       healthy: set<UpstreamConnection>)
    requires PoolsHold(places, pools) && key in pools
    ensures PoolsHold(SickMarked(places, key, healthy), pools[key := Select(pools[key], Flags(pools[key], healthy))])
  {
    var cs := pools[key];
    assert PoolHolds(places, key, cs);
    assert forall i | 0 <= i < |cs| :: cs[i] in cs;
    SomeKept(places, pools, key, Flags(cs, healthy), SickMarked(places, key, healthy));
  }

  lemma SweptOneMore(one: Places, two: Places, three: Places, keys: set<string>, key: string,
                     healthy: set<UpstreamConnection>)
    requires PlacesSwept(one, two, keys, healthy) && PlacesSwept(two, three, {key}, healthy) && key !in keys
    ensures PlacesSwept(one, three, keys + {key}, healthy)
  {
  }

  /** Keeping some of a pool, in order, and destroying the others. */
  lemma SomeKept(places: Places, pools: map<string, seq<UpstreamConnection>>, key: string, keep: seq<bool>,
                 after: Places)
    requires PoolsHold(places, pools) && key in pools && |keep| == |pools[key]| && after.Keys == places.Keys
    requires forall i | 0 <= i < |keep| :: after[pools[key][i]] == if keep[i] then InPool(key) else Destroyed
    requires forall c | c in places && c !in pools[key] :: after[c] == places[c]
    ensures PoolsHold(after, pools[key := Select(pools[key], keep)])
  {
    KeptHold(places, after, key, pools[key], keep);
    forall k | k in pools && k != key
      ensures PoolHolds(after, k, pools[k])
    {
      assert PoolHolds(places, k, pools[k]);
      assert PoolHolds(places, key, pools[key]);
    }
  }

  lemma KeptHold(places: Places, after: Places, key: string, cs: seq<UpstreamConnection>, keep: seq<bool>)
    requires PoolHolds(places, key, cs) && |keep| == |cs| && after.Keys == places.Keys
    requires forall i | 0 <= i < |keep| :: after[cs[i]] == if keep[i] then InPool(key) else Destroyed
    ensures PoolHolds(after, key, Select(cs, keep))
    ensures forall c | c in cs && after[c].InPool? :: c in Select(cs, keep)
  {
    var kept := Select(cs, keep);
    SelectDistinct(cs, keep);
    forall i: nat | i < |kept|
      ensures kept[i] in cs && after[kept[i]] == InPool(key)
    {
      var j := SelectSource(cs, keep, i);
    }
    forall j: nat | j < |cs| && keep[j]
      ensures cs[j] in kept
    {
      SelectKeeps(cs, keep, j);
    }
  }

  class ConnectionPool {
    const config: UpstreamConfig
    var pools: map<string, seq<UpstreamConnection>>
    var created: nat
    ghost var places: Places

    ghost predicate Valid()
      reads this
    {
      PoolsHold(places, pools)
    }

    constructor (config: UpstreamConfig)
      ensures Valid() && this.config == config && pools == map[] && created == 0 && places == map[]
    {
      this.config := config;
      pools, created, places := map[], 0, map[];
    }

    /** The part of a borrow before it suspends: null if no pooled connection is healthy. The first
        `kept` connections of the pool stay, the next is handed out, and those behind it are destroyed. */
    method BorrowPooled(host: string, port: uint16, now: int) returns (conn: UpstreamConnection?, ghost kept: nat)
      requires Valid()
      modifies this`pools, this`places, PoolAt(pools, PoolKey(host, port))
      ensures Valid()
      ensures var key, cs := PoolKey(host, port), old(PoolAt(pools, PoolKey(host, port)));
              && kept <= |cs| && pools == old(pools)[key := cs[..kept]]
              && (conn == null ==> kept == 0)
              && (conn != null ==> kept < |cs| && conn == cs[kept])
              && places == (if conn == null then Dropped(old(places), cs, kept)
                            else Dropped(old(places), cs, kept + 1)[conn := Lent])
      ensures PopHealthy(config, old(Views(PoolAt(pools, PoolKey(host, port)))), now)
              == (if conn == null then None else Some(conn.View()),
                  old(Views(PoolAt(pools, PoolKey(host, port))))[..kept])
      ensures conn != null ==>
                && conn.open && conn.lastUsedTime == now
                && now - old(PoolAt(pools, PoolKey(host, port))[kept].lastUsedTime)
                   < (config.idleTimeoutMillis + 1) * 1_000_000
      ensures forall c: UpstreamConnection | c in old(places) && c != conn :: c.View() == old(c.View())
    {
      var key := PoolKey(host, port);
      ghost var views := Views(PoolAt(pools, key));
      if key !in pools {
        pools := pools[key := []];
      }
      assert Views(pools[key]) == views;
      conn, kept := PopUntilHealthy(key, now);
      if conn != null {
        conn.MarkUsed(now);
      }
    }

    method PopUntilHealthy(key: string, now: int) returns (conn: UpstreamConnection?, ghost kept: nat)
      requires Valid() && key in pools
      modifies this`pools, this`places
      ensures Valid()
      ensures var cs := old(pools)[key];
              && kept <= |cs| && pools == old(pools)[key := cs[..kept]]
              && (conn == null ==> kept == 0)
              && (conn != null ==> kept < |cs| && conn == cs[kept])
              && places == (if conn == null then Dropped(old(places), cs, kept)
                            else Dropped(old(places), cs, kept + 1)[conn := Lent])
      ensures PopHealthy(config, old(Views(pools[key])), now)
              == (if conn == null then None else Some(conn.View().(lastUsed := now)), old(Views(pools[key]))[..kept])
      ensures conn != null ==>
                conn.open && now - conn.lastUsedTime < (config.idleTimeoutMillis + 1) * 1_000_000
    {
      ghost var cs, views := pools[key], Views(pools[key]);
      kept := |cs|;
      assert cs[..kept] == cs;
      while pools[key] != []
        invariant kept <= |cs| && pools == old(pools)[key := cs[..kept]]
        invariant Valid() && places == Dropped(old(places), cs, kept)
        invariant forall i | kept <= i < |cs| :: !Healthy(config, views[i], now)
        decreases kept
      {
        var last := pools[key][|pools[key]| - 1];
        kept := kept - 1;
        assert last == cs[kept] && last.View() == views[kept] && cs[..kept + 1][..kept] == cs[..kept];
        LastOut(places, pools, key, Lent);
        LastOut(places, pools, key, Destroyed);
        pools := pools[key := pools[key][..|pools[key]| - 1]];
        if Healthy(config, last.View(), now) {
          PopIsLastHealthy(config, views, now, kept);
          places := places[last := Lent];
          return last, kept;
        }
        places := places[last := Destroyed];
      }
      PopOfUnhealthy(config, views, now);
      conn := null;
    }

    /** The part of a borrow after it resumes: connecting has succeeded or failed. */
    method CreateNewConnection(success: bool, now: int) returns (conn: UpstreamConnection?)
      requires Valid()
      modifies this`created, this`places
      ensures Valid() && (conn != null <==> success)
      ensures conn == null ==> created == old(created) && places == old(places)
      ensures conn != null ==>
                && fresh(conn) && conn.View() == Conn(old(created), now, true)
                && created == old(created) + 1 && places == old(places)[conn := Lent]
    {
      if !success {
        return null;
      }
      conn := new UpstreamConnection(created, now);
      created, places := created + 1, places[conn := Lent];
    }

    /** A borrower gives a connection back, under whatever host and port it names. It goes to the
        end of that pool if it is healthy and there is room, and is destroyed otherwise. */
    method ReturnConnection(host: string, port: uint16, conn: UpstreamConnection?, now: int)
      requires Valid() && (conn != null ==> conn in places && places[conn] == Lent)
      modifies this`pools, this`places
      ensures Valid()
      ensures conn == null ==> pools == old(pools) && places == old(places)
      ensures conn != null ==>
                var key, cs := PoolKey(host, port), old(PoolAt(pools, PoolKey(host, port)));
                var healthy, room := Healthy(config, conn.View(), now), |cs| < config.maxConnectionsPerHost;
                && pools == (if !healthy then old(pools) else old(pools)[key := if room then cs + [conn] else cs])
                && places == old(places)[conn := if healthy && room then InPool(key) else Destroyed]
    {
      if conn == null {
        return;
      }
      LentIn(places, pools, PoolKey(host, port), conn);
      if !Healthy(config, conn.View(), now) {
        places := places[conn := Destroyed];
        return;
      }
      PushBack(PoolKey(host, port), conn);
    }

    method PushBack(key: string, conn: UpstreamConnection)
      requires Valid() && conn in places && places[conn] == Lent
      modifies this`pools, this`places
      ensures Valid()
      ensures var cs := old(PoolAt(pools, key));
              var room := |cs| < config.maxConnectionsPerHost;
              && pools == old(pools)[key := if room then cs + [conn] else cs]
              && places == old(places)[conn := if room then InPool(key) else Destroyed]
    {
      LentIn(places, pools, key, conn);
      if key !in pools {
        pools := pools[key := []];
      }
      if |pools[key]| >= config.maxConnectionsPerHost {
        places := places[conn := Destroyed];
        return;
      }
      pools := pools[key := pools[key] + [conn]];
      places := places[conn := InPool(key)];
    }

    /** Every pool keeps its healthy connections, in order; the others are destroyed. */
    method CleanupIdleConnections(now: int)
      requires Valid()
      modifies this`pools, this`places
      ensures Valid() && pools.Keys == old(pools).Keys && places.Keys == old(places).Keys
      ensures forall key | key in pools ::
                pools[key] == Select(old(pools)[key], HealthFlags(config, Views(old(pools)[key]), now))
      ensures forall c | c in places ::
                places[c] == if old(places)[c].InPool? && !Healthy(config, c.View(), now) then Destroyed
                             else old(places)[c]
    {
      ghost var before, held := pools, places;
      ghost var healthy := set c | c in places && Healthy(config, c.View(), now);
      var todo := pools.Keys;
      while todo != {}
        invariant Valid() && todo <= pools.Keys == before.Keys
        invariant forall key | key in pools ::
                    pools[key] == if key in todo then before[key] else Select(before[key], Flags(before[key], healthy))
        invariant PlacesSwept(held, places, before.Keys - todo, healthy)
        invariant forall c | c in places :: c in healthy <==> Healthy(config, c.View(), now)
      {
        var key :| key in todo;
        ghost var between := places;
        SweepPool(key, now, healthy);
        SweptOneMore(held, between, places, before.Keys - todo, key, healthy);
        assert before.Keys - todo + {key} == before.Keys - (todo - {key});
        todo := todo - {key};
      }
      forall key | key in pools
        ensures Flags(before[key], healthy) == HealthFlags(config, Views(before[key]), now)
      {
        assert PoolHolds(held, key, before[key]);
        FlagsAreHealth(config, before[key], healthy, now);
      }
    }

    method SweepPool(key: string, now: int, ghost healthy: set<UpstreamConnection>)
      requires Valid() && key in pools
      requires forall c | c in places :: c in healthy <==> Healthy(config, c.View(), now)
      modifies this`pools, this`places
      ensures Valid() && PlacesSwept(old(places), places, {key}, healthy)
      ensures pools == old(pools)[key := Select(old(pools)[key], Flags(old(pools)[key], healthy))]
    {
      SweepKeepsHold(places, pools, key, healthy);
      assert PoolHolds(places, key, pools[key]);
      FlagsAreHealth(config, pools[key], healthy, now);
      var kept := KeepHealthy(pools[key], now);
      pools := pools[key := kept];
      places := SickMarked(places, key, healthy);
    }

    method KeepHealthy(cs: seq<UpstreamConnection>, now: int) returns (kept: seq<UpstreamConnection>)
      ensures kept == Select(cs, HealthFlags(config, Views(cs), now))
    {
      kept := [];
      ghost var flags := HealthFlags(config, Views(cs), now);
      var n := 0;
      while n < |cs|
        invariant n <= |cs|
        invariant kept == Select(cs[..n], flags[..n])
      {
        assert cs[..n + 1][..n] == cs[..n] && flags[..n + 1][..n] == flags[..n];
        if Healthy(config, cs[n].View(), now) {
          kept := kept + [cs[n]];
        }
        n := n + 1;
      }
      assert cs[..n] == cs && flags[..n] == flags;
    }
  }

  /** The connections from slot `k` on are destroyed. */
  ghost function Dropped(places: Places, cs: seq<UpstreamConnection>, k: nat): Places
    requires k <= |cs|
    decreases |cs| - k
  {
    if k == |cs| then places else Dropped(places, cs, k + 1)[cs[k] := Destroyed]
  }

  lemma {:induction false} DroppedMeaning(places: Places, cs: seq<UpstreamConnection>, k: nat)
    requires k <= |cs|
    ensures forall i | k <= i < |cs| :: cs[i] in Dropped(places, cs, k) && Dropped(places, cs, k)[cs[i]] == Destroyed
    ensures forall c | c !in cs[k..] :: c in Dropped(places, cs, k) <==> c in places
    ensures forall c | c !in cs[k..] && c in places :: Dropped(places, cs, k)[c] == places[c]
    decreases |cs| - k
  {
    if k < |cs| {
      DroppedMeaning(places, cs, k + 1);
      assert cs[k..] == [cs[k]] + cs[k + 1..];
    }
  }
}
