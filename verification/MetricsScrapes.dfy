/** When one scrape is consistent across counters. */
module MetricsScrapes {
  import opened CommonTypes
  import opened Metrics
  import opened MetricsRuns

  /** What is true of the counters at every moment, said of what a scrape reports. */
  predicate Ordered(t: Counts) {
    t.accepts >= t.requests >= Responses(t)
  }

  predicate OnlyLive(shards: seq<Shard>, v: nat) {
    forall w | 0 <= w < |shards| && shards[w].alive :: w == v
  }

  /** A run that goes on as another one did. */
  ghost predicate Continues(states: seq<State>, actions: seq<Action>, states': seq<State>, actions': seq<Action>) {
    IsRun(states, actions) && IsRun(states', actions') && states <= states' && actions <= actions'
  }

  lemma ContinuesOn(one: seq<State>, steps1: seq<Action>, two: seq<State>, steps2: seq<Action>,
                    three: seq<State>, steps3: seq<Action>)
    requires Continues(one, steps1, two, steps2) && Continues(two, steps2, three, steps3)
    ensures Continues(one, steps1, three, steps3)
  {
  }

  lemma Extend(states: seq<State>, actions: seq<Action>, a: Action) returns (states': seq<State>, actions': seq<Action>)
    requires IsRun(states, actions) && Enabled(states[|actions|], a)
    ensures Continues(states, actions, states', actions')
    ensures actions' == actions + [a] && states'[|actions'|] == Next(states[|actions|], a)
  {
    states', actions' := states + [Next(states[|actions|], a)], actions + [a];
  }

  // ----- the scraper waits ------------------------------------------------------------------------------

  /** While a scrape is under way its worker lives, and its connection is where it was. */
  ghost predicate ScraperWaits(s: State) {
    s.scrape.Some? ==>
      var scrape := s.scrape.value;
      && scrape.worker < |s.shards| && s.shards[scrape.worker].alive
      && scrape.conn < |s.conns| && !s.conns[scrape.conn].gone
      && s.conns[scrape.conn].worker == scrape.worker && s.conns[scrape.conn].stage.Serving?
  }

  lemma StepKeepsWaiting(s: State, a: Action)
    requires ScraperWaits(s) && Enabled(s, a)
    ensures ScraperWaits(Next(s, a))
  {
  }

  lemma {:induction false} ScraperAlwaysWaits(states: seq<State>, actions: seq<Action>, n: nat)
    requires IsRun(states, actions) && n <= |actions|
    ensures ScraperWaits(states[n])
  {
    if n > 0 {
      ScraperAlwaysWaits(states, actions, n - 1);
      StepKeepsWaiting(states[n - 1], actions[n - 1]);
    }
  }

  // ----- alone, the scraper reports an order --------------------------------------------------------------

  /** Since a scrape began with no other worker alive, nothing has been counted until it ended. */
  ghost predicate QuietSince(s: State, now: State)
    requires s.scrape.Some?
  {
    if now.scrape.Some? && now.reports == s.reports then
      now.shards == s.shards == now.scrape.value.before && now.scrape.value.worker == s.scrape.value.worker
    else
      && |now.reports| > |s.reports|
      && now.reports[|s.reports|].before == s.shards == now.reports[|s.reports|].after
  }

  lemma StepStaysQuiet(s: State, now: State, a: Action)
    requires s.scrape.Some? && OnlyLive(s.shards, s.scrape.value.worker) && QuietSince(s, now) && Enabled(now, a)
    ensures QuietSince(s, Next(now, a))
  {
  }

  lemma {:induction false} StaysQuiet(states: seq<State>, actions: seq<Action>, n: nat, m: nat)
    requires IsRun(states, actions) && n <= m <= |actions|
    requires states[n].scrape.Some? && states[n].scrape.value.before == states[n].shards
    requires OnlyLive(states[n].shards, states[n].scrape.value.worker)
    ensures QuietSince(states[n], states[m])
    decreases m
  {
    if n < m {
      StaysQuiet(states, actions, n, m - 1);
      StepStaysQuiet(states[n], states[m - 1], actions[m - 1]);
    }
  }

  /** The live total of a counter. */
  function Total(shards: seq<Shard>, c: Counter): nat {
    Sum(shards, shards, c, |shards|)
  }

  lemma AloneIsOrdered(states: seq<State>, actions: seq<Action>, n: nat, m: nat)
    requires IsRun(states, actions) && n <= m <= |actions|
    requires states[n].scrape.Some? && states[n].scrape.value.before == states[n].shards
    requires OnlyLive(states[n].shards, states[n].scrape.value.worker) && Total(states[n].shards, Accepts) < WORD
    requires |states[m].reports| > |states[n].reports|
    ensures Ordered(states[m].reports[|states[n].reports|].sums)
  {
    StaysQuiet(states, actions, n, m);
    RunKeepsReports(states, actions, m);
    TotalsInOrder(states, actions, n, |states[n].shards|);
    var r := states[m].reports[|states[n].reports|];
    assert ReportHolds(r);
    ExactIsTotal(r, Accepts);
    ExactIsTotal(r, Requests);
    ExactIsTotal(r, Responses2xx);
    ExactIsTotal(r, Responses4xx);
    ExactIsTotal(r, Responses5xx);
  }

  lemma ExactIsTotal(r: Report, c: Counter)
    requires ReportHolds(r) && r.before == r.after
    ensures r.exact.At(c) == Total(r.before, c)
    ensures Total(r.before, c) < WORD ==> r.sums.At(c) == Total(r.before, c)
  {
    assert r.sums.At(c) == r.exact.At(c) % WORD;
  }

  // ----- what a scrape comes to if nothing more is counted -------------------------------------------------

  /** What has been summed, and the live counters that have not been read yet. */
  function Expected(shards: seq<Shard>, scrape: Scrape, c: Counter): int
    requires UpTo(scrape, c) <= |shards|
  {
    scrape.exact.At(c) + Total(shards, c) - Sum(shards, shards, c, UpTo(scrape, c))
  }

  predicate ReadsLive(shards: seq<Shard>, scrape: Scrape) {
    && scrape.at <= |shards|
    && (scrape.reading.Some? ==> scrape.at < |shards| && shards[scrape.at].alive && scrape.reading.value <= 7)
  }

  lemma ExpectedAtStart(shards: seq<Shard>, scrape: Scrape, c: Counter)
    requires scrape.at == 0 && scrape.reading.None? && scrape.exact == ZERO
    ensures Expected(shards, scrape, c) == Total(shards, c)
  {
  }

  lemma ScrapedKeepsExpected(shards: seq<Shard>, scrape: Scrape)
    requires ReadsLive(shards, scrape) && scrape.at < |shards|
    ensures ReadsLive(shards, Scraped(shards, scrape))
    ensures forall c: Counter :: Expected(shards, Scraped(shards, scrape), c) == Expected(shards, scrape, c)
  {
  }

  /** Same state, but for how far the scrape has come. */
  predicate ScrapedOn(s: State, s': State) {
    && s.scrape.Some? && s'.scrape.Some? && s' == s.(scrape := s'.scrape)
    && ReadsLive(s.shards, s.scrape.value) && ReadsLive(s.shards, s'.scrape.value)
    && s'.scrape.value.before == s.scrape.value.before && s'.scrape.value.worker == s.scrape.value.worker
    && forall c: Counter :: Expected(s.shards, s'.scrape.value, c) == Expected(s.shards, s.scrape.value, c)
  }

  function StepsAtShard(scrape: Scrape): nat {
    if scrape.reading.None? then 9 else if scrape.reading.value > 8 then 0 else 8 - scrape.reading.value
  }

  /** The scraper goes on by itself up to some shard. */
  lemma {:induction false} ScrapeUpTo(states: seq<State>, actions: seq<Action>, target: nat)
      returns (states': seq<State>, actions': seq<Action>)
    requires IsRun(states, actions) && states[|actions|].scrape.Some?
    requires ReadsLive(states[|actions|].shards, states[|actions|].scrape.value)
    requires var scrape := states[|actions|].scrape.value;
             scrape.at <= target <= |states[|actions|].shards| && (scrape.at == target ==> scrape.reading.None?)
    ensures Continues(states, actions, states', actions') && ScrapedOn(states[|actions|], states'[|actions'|])
    ensures var scrape := states'[|actions'|].scrape.value;
            scrape.at == target && scrape.reading.None?
    decreases target - states[|actions|].scrape.value.at, StepsAtShard(states[|actions|].scrape.value)
  {
    var s := states[|actions|];
    if s.scrape.value.at == target {
      states', actions' := states, actions;
    } else {
      ScrapedKeepsExpected(s.shards, s.scrape.value);
      var states1, actions1 := Extend(states, actions, if s.scrape.value.reading.None? then NextShard else ReadCounter);
      states', actions' := ScrapeUpTo(states1, actions1, target);
      ContinuesOn(states, actions, states1, actions1, states', actions');
    }
  }

  // ----- another worker keeps counting ------------------------------------------------------------------------

  function Counted(t: Counts, k: nat): Counts {
    t.Add(Accepts, k).Add(Requests, k)
  }

  /** The worker has accepted and counted `k` more requests, and is ready for the next. */
  predicate CountedOn(s: State, s': State, u: nat, k: nat) {
    && u < |s.shards| && Runs(s', u) && s'.loops[u].Waiting?
    && s'.shards == s.shards[u := s.shards[u].(total := Counted(s.shards[u].total, k))]
    && s'.scrape == s.scrape && s'.reports == s.reports
  }

  lemma Settles(states: seq<State>, actions: seq<Action>, u: nat) returns (states': seq<State>, actions': seq<Action>)
    requires IsRun(states, actions) && Runs(states[|actions|], u)
    ensures Continues(states, actions, states', actions') && CountedOn(states[|actions|], states'[|actions'|], u, 0)
  {
    states', actions' := states, actions;
    var loop := states[|actions|].loops[u];
    if !loop.Waiting? {
      states', actions' := Extend(states, actions, if loop.Accepted? then Refuse(u) else Spawn(u));
    }
  }

  /** A connection comes in and its request is counted. */
  lemma CountsOneMore(states: seq<State>, actions: seq<Action>, u: nat)
      returns (states': seq<State>, actions': seq<Action>)
    requires IsRun(states, actions) && Runs(states[|actions|], u) && states[|actions|].loops[u].Waiting?
    ensures Continues(states, actions, states', actions') && CountedOn(states[|actions|], states'[|actions'|], u, 1)
    ensures var s := states[|actions|];
            && states'[|actions'|].conns == s.conns + [Connection(u, RequestCounted(1), false)]
            && states'[|actions'|].loops == s.loops
  {
    var i := |states[|actions|].conns|;
    states', actions' := AcceptsOneMore(states, actions, u);
    states', actions' := Extend(states', actions', Receive(i, 1));
    states', actions' := Extend(states', actions', CountRequest(i));
  }

  lemma AcceptsOneMore(states: seq<State>, actions: seq<Action>, u: nat)
      returns (states': seq<State>, actions': seq<Action>)
    requires IsRun(states, actions) && Runs(states[|actions|], u) && states[|actions|].loops[u].Waiting?
    ensures Continues(states, actions, states', actions')
    ensures var s := states[|actions|];
            states'[|actions'|] == s.(shards := s.shards[u := s.shards[u].(total := s.shards[u].total.Add(Accepts, 1))],
                                      conns := s.conns + [Connection(u, Spawned, false)])
  {
    var s := states[|actions|];
    states', actions' := Extend(states, actions, Accept(u));
    states', actions' := Extend(states', actions', CountAccept(u));
    states', actions' := Extend(states', actions', Spawn(u));
    assert states'[|actions'|].loops == s.loops;
  }

  lemma {:induction false} KeepsCounting(states: seq<State>, actions: seq<Action>, u: nat, k: nat)
      returns (states': seq<State>, actions': seq<Action>)
    requires IsRun(states, actions) && Runs(states[|actions|], u)
    ensures Continues(states, actions, states', actions') && CountedOn(states[|actions|], states'[|actions'|], u, k)
    decreases k
  {
    if k == 0 {
      states', actions' := Settles(states, actions, u);
    } else {
      var states1, actions1 := KeepsCounting(states, actions, u, k - 1);
      states', actions' := CountsOneMore(states1, actions1, u);
      ContinuesOn(states, actions, states1, actions1, states', actions');
    }
  }

  lemma {:induction false} SumCounted(shards: seq<Shard>, u: nat, k: nat, c: Counter, n: nat)
    requires u < |shards| && shards[u].alive && n <= |shards|
    ensures var shards' := shards[u := shards[u].(total := Counted(shards[u].total, k))];
            Sum(shards', shards', c, n)
            == Sum(shards, shards, c, n) + if u < n && (c.Accepts? || c.Requests?) then k else 0
    decreases n
  {
    if n > 0 {
      SumCounted(shards, u, k, c, n - 1);
    }
  }

  /** Between reading the accepts of a shard and its requests, k more of each: the accepts the
      scrape will report stay what they were, the requests do not. */
  lemma CountingTears(shards: seq<Shard>, scrape: Scrape, k: nat)
    requires ReadsLive(shards, scrape) && scrape.reading == Some(1)
    ensures var u := scrape.at;
            var shards' := shards[u := shards[u].(total := Counted(shards[u].total, k))];
            && ReadsLive(shards', scrape)
            && Expected(shards', scrape, Accepts) == Expected(shards, scrape, Accepts)
            && Expected(shards', scrape, Requests) == Expected(shards, scrape, Requests) + k
  {
    var u := scrape.at;
    SumCounted(shards, u, k, Accepts, u + 1);
    SumCounted(shards, u, k, Accepts, |shards|);
    SumCounted(shards, u, k, Requests, u);
    SumCounted(shards, u, k, Requests, |shards|);
  }

  /** A scrape that has just begun reads the accepts of shard `u`. */
  lemma ReadsAcceptsOf(states: seq<State>, actions: seq<Action>, u: nat)
      returns (states': seq<State>, actions': seq<Action>)
    requires IsRun(states, actions) && states[|actions|].scrape.Some?
    requires var s := states[|actions|]; s.scrape.value.at == 0 && s.scrape.value.reading.None?
    requires u < |states[|actions|].shards| && states[|actions|].shards[u].alive
    ensures Continues(states, actions, states', actions') && ScrapedOn(states[|actions|], states'[|actions'|])
    ensures states'[|actions'|].scrape.value.at == u && states'[|actions'|].scrape.value.reading == Some(1)
  {
    var states1, actions1 := ScrapeUpTo(states, actions, u);
    var s1 := states1[|actions1|];
    ScrapedKeepsExpected(s1.shards, s1.scrape.value);
    var states2, actions2 := Extend(states1, actions1, NextShard);
    var s2 := states2[|actions2|];
    ScrapedKeepsExpected(s2.shards, s2.scrape.value);
    states', actions' := Extend(states2, actions2, ReadCounter);
  }

  /** A scrape that goes on to its end reports what was expected. */
  lemma ScrapeEnds(states: seq<State>, actions: seq<Action>) returns (states': seq<State>, actions': seq<Action>)
    requires IsRun(states, actions) && states[|actions|].scrape.Some?
    requires ReadsLive(states[|actions|].shards, states[|actions|].scrape.value)
    ensures Continues(states, actions, states', actions')
    ensures var s, s' := states[|actions|], states'[|actions'|];
            && |s'.reports| == |s.reports| + 1 && |s'.shards| == |s.shards|
            && forall c: Counter ::
                 s'.reports[|s.reports|].sums.At(c) == Expected(s.shards, s.scrape.value, c) % WORD
  {
    var s := states[|actions|];
    var states1, actions1 := ScrapeUpTo(states, actions, |s.shards|);
    var s1 := states1[|actions1|];
    ScraperAlwaysWaits(states1, actions1, |actions1|);
    RunKeepsReports(states1, actions1, |actions1|);
    states', actions' := Extend(states1, actions1, EndScrape);
    forall c: Counter
      ensures s1.scrape.value.sums.At(c) == Expected(s.shards, s.scrape.value, c) % WORD
    {
      assert Bracketed(s1.shards, s1.scrape.value, c);
      assert Expected(s.shards, s1.scrape.value, c) == s1.scrape.value.exact.At(c);
    }
  }

  /** If another worker lives, the scrape may report more requests than accepts. */
  lemma AnotherWorkerTears(states: seq<State>, actions: seq<Action>, u: nat)
      returns (states': seq<State>, actions': seq<Action>)
    requires IsRun(states, actions) && states[|actions|].scrape.Some?
    requires var scrape := states[|actions|].scrape.value;
             scrape.at == 0 && scrape.reading.None? && scrape.exact == ZERO && u != scrape.worker
    requires u < |states[|actions|].shards| && states[|actions|].shards[u].alive
    requires Total(states[|actions|].shards, Accepts) + 1 < WORD
    ensures Continues(states, actions, states', actions')
    ensures |states'[|actions'|].reports| == |states[|actions|].reports| + 1
    ensures |states'[|actions'|].shards| == |states[|actions|].shards|
    ensures var t := states'[|actions'|].reports[|states[|actions|].reports|].sums; t.requests > t.accepts
  {
    var s := states[|actions|];
    CountersAreExact(states, actions, |actions|);
    TotalsInOrder(states, actions, |actions|, |s.shards|);
    var k := Total(s.shards, Accepts) - Total(s.shards, Requests) + 1;
    var states1, actions1 := ReadsAcceptsOf(states, actions, u);
    var s1 := states1[|actions1|];
    var states2, actions2 := KeepsCounting(states1, actions1, u, k);
    CountingTears(s1.shards, s1.scrape.value, k);
    states', actions' := ScrapeEnds(states2, actions2);
    ContinuesOn(states, actions, states1, actions1, states2, actions2);
    ContinuesOn(states, actions, states2, actions2, states', actions');
    ExpectedAtStart(s.shards, s.scrape.value, Accepts);
    ExpectedAtStart(s.shards, s.scrape.value, Requests);
    var t := states'[|actions'|].reports[|s.reports|].sums;
    assert t.At(Accepts) == Total(s.shards, Accepts) % WORD;
    assert t.At(Requests) == (Total(s.shards, Accepts) + 1) % WORD;
  }

  /** However the run goes on, the report of the scrape that is under way, once there is one, is ordered. */
  ghost predicate ReportsOrdered(states: seq<State>, actions: seq<Action>)
    requires IsRun(states, actions)
  {
    var k := |states[|actions|].reports|;
    forall states': seq<State>, actions': seq<Action> |
      Continues(states, actions, states', actions') && |states'[|actions'|].reports| > k ::
      Ordered(states'[|actions'|].reports[k].sums)
  }

  /** Whatever happens after a scrape has begun, it reports accepts >= requests >= responses, if and
      only if the worker that scrapes is the only one alive. */
  lemma OrderedExactlyWhenAlone(states: seq<State>, actions: seq<Action>, i: nat)
    requires IsRun(states, actions) && actions != [] && actions[|actions| - 1] == BeginScrape(i)
    requires Total(states[|actions|].shards, Accepts) + 1 < WORD
    ensures i < |states[|actions|].conns|
    ensures ReportsOrdered(states, actions)
            <==> OnlyLive(states[|actions|].shards, states[|actions|].conns[i].worker)
  {
    var n := |actions|;
    var s := states[n];
    assert Enabled(states[n - 1], actions[n - 1]) && s == Next(states[n - 1], actions[n - 1]);
    if OnlyLive(s.shards, s.conns[i].worker) {
      forall states': seq<State>, actions': seq<Action> |
        Continues(states, actions, states', actions') && |states'[|actions'|].reports| > |s.reports|
        ensures Ordered(states'[|actions'|].reports[|s.reports|].sums)
      {
        assert states'[n] == s;
        AloneIsOrdered(states', actions', n, |actions'|);
      }
    } else {
      var u: nat :| u < |s.shards| && s.shards[u].alive && u != s.conns[i].worker;
      var states', actions' := AnotherWorkerTears(states, actions, u);
      assert !Ordered(states'[|actions'|].reports[|s.reports|].sums);
    }
  }

  /** Two workers have started, and the first may have counted a request. */
  predicate TwoWorkers(s: State, accepts: nat) {
    && |s.shards| == 2 == |s.loops| && s.shards[0].alive && s.shards[1].alive && s.reports == []
    && s.shards[0].total.accepts == accepts && s.shards[1].total.accepts == 0 && s.loops[0].Waiting?
  }

  lemma TwoWorkersStart() returns (states: seq<State>, actions: seq<Action>)
    ensures IsRun(states, actions)
    ensures var s := states[|actions|]; TwoWorkers(s, 0) && s.scrape == None && s.conns == []
  {
    states, actions := Extend([INITIAL], [], AddWorker);
    states, actions := Extend(states, actions, AddWorker);
  }

  lemma FirstCounts() returns (states: seq<State>, actions: seq<Action>)
    ensures IsRun(states, actions)
    ensures var s := states[|actions|];
            && TwoWorkers(s, 1) && s.scrape == None
            && |s.conns| == 1 && s.conns[0] == Connection(0, RequestCounted(1), false)
  {
    states, actions := TwoWorkersStart();
    states, actions := CountsOneMore(states, actions, 0);
  }

  lemma FirstScrapes() returns (states: seq<State>, actions: seq<Action>)
    ensures IsRun(states, actions)
    ensures var s := states[|actions|];
            && TwoWorkers(s, 1) && s.scrape == Some(Scrape(0, 0, s.shards, 0, None, ZERO, ZERO))
  {
    states, actions := FirstCounts();
    states, actions := Extend(states, actions, CountBytesIn(0));
    states, actions := Extend(states, actions, BeginScrape(0));
  }

  /** Two workers are enough: one scrapes for a connection of its own while the other counts. */
  lemma TornScrape() returns (states: seq<State>, actions: seq<Action>)
    ensures IsRun(states, actions) && |states[|actions|].reports| == 1 && |states[|actions|].shards| == 2
    ensures states[|actions|].reports[0].sums.requests > states[|actions|].reports[0].sums.accepts
  {
    states, actions := FirstScrapes();
    var shards := states[|actions|].shards;
    TotalOfTwo(shards, Accepts);
    states, actions := AnotherWorkerTears(states, actions, 1);
  }

  lemma TotalOfTwo(shards: seq<Shard>, c: Counter)
    requires |shards| == 2
    ensures Total(shards, c) <= shards[0].total.At(c) + shards[1].total.At(c)
  {
    assert Sum(shards, shards, c, 2) <= Sum(shards, shards, c, 1) + shards[1].total.At(c);
    assert Sum(shards, shards, c, 1) <= Sum(shards, shards, c, 0) + shards[0].total.At(c);
  }
}
