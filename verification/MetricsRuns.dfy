/** Workers record while scrapes read, as a system of steps taken in any order: one step is one
    atomic operation on a counter, or one suspension of a coroutine.

    Connections are numbered in the order in which they are spawned.
  */
module MetricsRuns {
  import opened CommonTypes
  import opened ParseErrors
  import opened Metrics

  /** How a request is answered. */
  datatype Outcome = Malformed(error: ParseError) | NotGet | MetricsPage | Routed(matched: bool)

  function StatusOf(outcome: Outcome): int {
    match outcome
    case Malformed(error) => ErrorStatus(error)
    case NotGet => 405
    case MetricsPage => 200
    case Routed(matched) => if matched then 200 else 404
  }

  /** How far a connection has come. */
  datatype Stage =
    | Spawned
    | Received(bytesIn: nat)
    | RequestCounted(bytesIn: nat)
    | Serving(bytesIn: nat)
    | Rendered(bytesIn: nat)
    | Answered(bytesIn: nat, outcome: Outcome, bytesOut: nat)
    | Written(bytesIn: nat, outcome: Outcome, bytesOut: nat)
    | ClassCounted(bytesIn: nat, outcome: Outcome, bytesOut: nat)
    | Recorded(bytesIn: nat, outcome: Outcome, bytesOut: nat)

  /** A connection that is `gone` ended early. */
  datatype Connection = Connection(worker: nat, stage: Stage, gone: bool)

  /** The accept loop: waiting, holding a socket not yet counted, or about to spawn. */
  datatype Loop = Waiting | Accepted | AcceptCounted

  /** A scrape under the registry's lock, by a worker for one of its connections: the shard it is
      at, the counter of that shard it reads next if it has got hold of the shard, the words
      summed so far and what they would be if they did not wrap. `before` is what the shards were
      when it began. The worker does nothing else until it has ended. */
  datatype Scrape = Scrape(worker: nat, conn: nat, before: seq<Shard>, at: nat, reading: Option<nat>, sums: Counts,
                           exact: Counts)

  datatype Report = Report(before: seq<Shard>, after: seq<Shard>, sums: Counts, exact: Counts)

  datatype State = State(shards: seq<Shard>, loops: seq<Loop>, conns: seq<Connection>, scrape: Option<Scrape>,
                         reports: seq<Report>)

  const INITIAL := State([], [], [], None, [])

  datatype Action =
    | AddWorker
    | StopWorker(w: nat)
    // the accept loop
    | Accept(w: nat)
    | Refuse(w: nat)
    | CountAccept(w: nat)
    | Spawn(w: nat)
    // a connection
    | Receive(i: nat, bytesIn: nat)
    | CountRequest(i: nat)
    | CountBytesIn(i: nat)
    | Answer(i: nat, outcome: Outcome, bytesOut: nat)
    | Write(i: nat)
    | CountClass(i: nat)
    | CountBytesOut(i: nat)
    | GiveUp(i: nat)
    // a scrape
    | BeginScrape(i: nat)
    | NextShard
    | ReadCounter
    | EndScrape

  /** The order in which a scrape reads the counters of a shard. */
  function Place(c: Counter): nat {
    match c
    case Accepts => 0
    case Requests => 1
    case Responses2xx => 2
    case Responses4xx => 3
    case Responses5xx => 4
    case BytesIn => 5
    case BytesOut => 6
  }

  function CounterAt(place: nat): (c: Counter)
    requires place < 7
    ensures Place(c) == place
  {
    if place == 0 then Accepts
    else if place == 1 then Requests
    else if place == 2 then Responses2xx
    else if place == 3 then Responses4xx
    else if place == 4 then Responses5xx
    else if place == 5 then BytesIn
    else BytesOut
  }

  /** The worker is alive, and not busy with a scrape. */
  predicate Runs(s: State, w: nat) {
    w < |s.shards| && w < |s.loops| && s.shards[w].alive && !(s.scrape.Some? && s.scrape.value.worker == w)
  }

  predicate Lives(s: State, i: nat) {
    i < |s.conns| && !s.conns[i].gone && Runs(s, s.conns[i].worker)
  }

  predicate Enabled(s: State, a: Action) {
    match a
    case AddWorker => s.scrape.None?
    case StopWorker(w) => Runs(s, w)
    case Accept(w) => Runs(s, w) && s.loops[w].Waiting?
    case Refuse(w) => Runs(s, w) && s.loops[w].Accepted?
    case CountAccept(w) => Runs(s, w) && s.loops[w].Accepted?
    case Spawn(w) => Runs(s, w) && s.loops[w].AcceptCounted?
    case Receive(i, _) => Lives(s, i) && s.conns[i].stage.Spawned?
    case CountRequest(i) => Lives(s, i) && s.conns[i].stage.Received?
    case CountBytesIn(i) => Lives(s, i) && s.conns[i].stage.RequestCounted?
    case Answer(i, outcome, _) =>
      Lives(s, i) && if outcome.MetricsPage? then s.conns[i].stage.Rendered? else s.conns[i].stage.Serving?
    case Write(i) => Lives(s, i) && s.conns[i].stage.Answered?
    case CountClass(i) => Lives(s, i) && s.conns[i].stage.Written?
    case CountBytesOut(i) => Lives(s, i) && s.conns[i].stage.ClassCounted?
    case GiveUp(i) => Lives(s, i) && (s.conns[i].stage.Spawned? || s.conns[i].stage.Answered?)
    case BeginScrape(i) => s.scrape.None? && Lives(s, i) && s.conns[i].stage.Serving?
    case NextShard => s.scrape.Some? && s.scrape.value.at < |s.shards| && s.scrape.value.reading.None?
    case ReadCounter => s.scrape.Some? && s.scrape.value.at < |s.shards| && s.scrape.value.reading.Some?
    case EndScrape =>
      && s.scrape.Some? && s.scrape.value.at >= |s.shards|
      && s.scrape.value.conn < |s.conns| && s.conns[s.scrape.value.conn].stage.Serving?
  }

  /** The counter that an action of a worker adds to, and by how much. */
  function Increment(s: State, a: Action): Option<(Counter, nat)>
    requires Enabled(s, a)
  {
    match a
    case CountAccept(_) => Some((Accepts, 1))
    case CountRequest(_) => Some((Requests, 1))
    case CountBytesIn(i) => Some((BytesIn, s.conns[i].stage.bytesIn))
    case CountClass(i) =>
      (match ClassOf(StatusOf(s.conns[i].stage.outcome))
       case Some(c) => Some((c, 1))
       case None => None)
    case CountBytesOut(i) => Some((BytesOut, s.conns[i].stage.bytesOut))
    case _ => None
  }

  predicate IsConnectionAction(a: Action) {
    a.Receive? || a.CountRequest? || a.CountBytesIn? || a.Answer? || a.Write? || a.CountClass? || a.CountBytesOut?
    || a.GiveUp?
  }

  predicate IsLoopAction(a: Action) {
    a.Accept? || a.Refuse? || a.CountAccept? || a.Spawn?
  }

  function NextStage(stage: Stage, a: Action): Stage {
    match a
    case Receive(_, bytesIn) => Received(bytesIn)
    case CountRequest(_) => if stage.Received? then RequestCounted(stage.bytesIn) else stage
    case CountBytesIn(_) => if stage.RequestCounted? then Serving(stage.bytesIn) else stage
    case Answer(_, outcome, bytesOut) =>
      if stage.Serving? || stage.Rendered? then Answered(stage.bytesIn, outcome, bytesOut) else stage
    case Write(_) => if stage.Answered? then Written(stage.bytesIn, stage.outcome, stage.bytesOut) else stage
    case CountClass(_) => if stage.Written? then ClassCounted(stage.bytesIn, stage.outcome, stage.bytesOut) else stage
    case CountBytesOut(_) =>
      if stage.ClassCounted? then Recorded(stage.bytesIn, stage.outcome, stage.bytesOut) else stage
    case _ => stage
  }

  function NextLoop(a: Action): Loop {
    if a.Accept? then Accepted else if a.CountAccept? then AcceptCounted else Waiting
  }

  function Added(shards: seq<Shard>, w: nat, increment: Option<(Counter, nat)>): seq<Shard>
    requires w < |shards|
  {
    match increment
    case Some((c, n)) => shards[w := shards[w].(total := shards[w].total.Add(c, n))]
    case None => shards
  }

  function Next(s: State, a: Action): State
    requires Enabled(s, a)
  {
    if IsConnectionAction(a) then
      var conn := s.conns[a.i];
      s.(shards := Added(s.shards, conn.worker, Increment(s, a)),
         conns := s.conns[a.i := conn.(stage := NextStage(conn.stage, a), gone := a.GiveUp?)])
    else if IsLoopAction(a) then
      s.(shards := Added(s.shards, a.w, Increment(s, a)),
         loops := s.loops[a.w := NextLoop(a)],
         conns := if a.Spawn? then s.conns + [Connection(a.w, Spawned, false)] else s.conns)
    else if a.AddWorker? then s.(shards := s.shards + [Shard(true, ZERO)], loops := s.loops + [Waiting])
    else if a.StopWorker? then s.(shards := s.shards[a.w := s.shards[a.w].(alive := false)])
    else if a.BeginScrape? then s.(scrape := Some(Scrape(s.conns[a.i].worker, a.i, s.shards, 0, None, ZERO, ZERO)))
    else if a.EndScrape? then
      var scrape := s.scrape.value;
      var conn := s.conns[scrape.conn];
      s.(scrape := None, conns := s.conns[scrape.conn := conn.(stage := Rendered(conn.stage.bytesIn))],
         reports := s.reports + [Report(scrape.before, s.shards, scrape.sums, scrape.exact)])
    else s.(scrape := Some(Scraped(s.shards, s.scrape.value)))
  }

  /** One step of a scrape: lock the next weak pointer, skip a shard that is gone, or read a counter. */
  function Scraped(shards: seq<Shard>, scrape: Scrape): Scrape
    requires scrape.at < |shards|
  {
    match scrape.reading
    case None => if shards[scrape.at].alive then scrape.(reading := Some(0)) else scrape.(at := scrape.at + 1)
    case Some(place) =>
      if place >= 7 then scrape.(at := scrape.at + 1, reading := None)
      else
        var c := CounterAt(place);
        var total := shards[scrape.at].total.At(c);
        scrape.(reading := Some(place + 1), exact := scrape.exact.Add(c, total),
                sums := SetAt(scrape.sums, c, FetchAdd(scrape.sums.At(c), total % WORD)))
  }

  function SetAt(counts: Counts, c: Counter, n: nat): Counts {
    match c
    case Accepts => counts.(accepts := n)
    case Requests => counts.(requests := n)
    case Responses2xx => counts.(responses2xx := n)
    case Responses4xx => counts.(responses4xx := n)
    case Responses5xx => counts.(responses5xx := n)
    case BytesIn => counts.(bytesIn := n)
    case BytesOut => counts.(bytesOut := n)
  }

  predicate IsRun(states: seq<State>, actions: seq<Action>) {
    && |states| == |actions| + 1 && states[0] == INITIAL
    && forall i | 0 <= i < |actions| :: Enabled(states[i], actions[i]) && states[i + 1] == Next(states[i], actions[i])
  }

  // ----- what the counters count --------------------------------------------------------------------

  /** What one connection has added to a counter. */
  function Share(stage: Stage, c: Counter): nat {
    match c
    case Accepts => 1
    case Requests => if stage.Spawned? || stage.Received? then 0 else 1
    case BytesIn => if stage.Spawned? || stage.Received? || stage.RequestCounted? then 0 else stage.bytesIn
    case BytesOut => if stage.Recorded? then stage.bytesOut else 0
    case _ =>
      if (stage.ClassCounted? || stage.Recorded?) && ClassOf(StatusOf(stage.outcome)) == Some(c) then 1 else 0
  }

  /** The shares of a worker's connections. */
  function Shares(conns: seq<Connection>, w: nat, c: Counter): nat {
    if conns == [] then 0
    else
      var last := conns[|conns| - 1];
      Shares(conns[..|conns| - 1], w, c) + if last.worker == w then Share(last.stage, c) else 0
  }

  function LoopShare(loop: Loop, c: Counter): nat {
    if loop.AcceptCounted? && c.Accepts? then 1 else 0
  }

  /** Every counter is what the connections of its worker, and its accept loop, have added to it. */
  ghost predicate CountersCount(s: State) {
    && |s.shards| == |s.loops|
    && (forall i | 0 <= i < |s.conns| :: s.conns[i].worker < |s.shards|)
    && forall w: nat, c: Counter | w < |s.shards| ::
         s.shards[w].total.At(c) == Shares(s.conns, w, c) + LoopShare(s.loops[w], c)
  }

  lemma {:induction false} SharesAfter(conns: seq<Connection>, i: nat, conn: Connection, w: nat, c: Counter)
    requires i < |conns| && conn.worker == conns[i].worker
    ensures Shares(conns[i := conn], w, c) + (if conn.worker == w then Share(conns[i].stage, c) else 0)
         == Shares(conns, w, c) + if conn.worker == w then Share(conn.stage, c) else 0
  {
    var n := |conns| - 1;
    if i < n {
      SharesAfter(conns[..n], i, conn, w, c);
      assert conns[i := conn][..n] == conns[..n][i := conn];
    } else {
      assert conns[i := conn][..n] == conns[..n];
    }
  }

  lemma {:induction false} SharesOfOthers(conns: seq<Connection>, w: nat, c: Counter)
    requires forall i | 0 <= i < |conns| :: conns[i].worker != w
    ensures Shares(conns, w, c) == 0
  {
    if conns != [] {
      SharesOfOthers(conns[..|conns| - 1], w, c);
    }
  }

  lemma EveryStatusIsCounted(outcome: Outcome)
    ensures ClassOf(StatusOf(outcome)).Some?
    ensures ClassOf(StatusOf(outcome)).value in {Responses2xx, Responses4xx, Responses5xx}
    ensures StatusOf(outcome) in {200, 400, 404, 405, 431, 500}
  {
  }

  /** What a step adds to the counters is what it adds to the share of its connection. */
  lemma NextShare(s: State, a: Action, c: Counter)
    requires Enabled(s, a) && IsConnectionAction(a)
    ensures Share(NextStage(s.conns[a.i].stage, a), c) == Share(s.conns[a.i].stage, c) + Addend(Increment(s, a), c)
  {
  }

  function Addend(increment: Option<(Counter, nat)>, c: Counter): nat {
    if increment.Some? && increment.value.0 == c then increment.value.1 else 0
  }

  lemma ConnectionKeepsCounters(s: State, a: Action)
    requires CountersCount(s) && Enabled(s, a) && IsConnectionAction(a)
    ensures CountersCount(Next(s, a))
  {
    var s', i, conn := Next(s, a), a.i, s.conns[a.i];
    forall w: nat, c: Counter | w < |s'.shards|
      ensures s'.shards[w].total.At(c) == Shares(s'.conns, w, c) + LoopShare(s'.loops[w], c)
    {
      NextShare(s, a, c);
      SharesAfter(s.conns, i, s'.conns[i], w, c);
      AddedAt(s.shards, conn.worker, Increment(s, a), w, c);
    }
  }

  lemma AddedAt(shards: seq<Shard>, v: nat, increment: Option<(Counter, nat)>, w: nat, c: Counter)
    requires v < |shards| && w < |shards|
    ensures Added(shards, v, increment)[w].total.At(c)
            == shards[w].total.At(c) + if w == v then Addend(increment, c) else 0
  {
  }

  lemma LoopKeepsCounters(s: State, a: Action)
    requires CountersCount(s) && Enabled(s, a) && IsLoopAction(a)
    ensures CountersCount(Next(s, a))
  {
    assert a.Spawn? ==> (s.conns + [Connection(a.w, Spawned, false)])[..|s.conns|] == s.conns;
  }

  lemma RenderingKeepsCounters(s: State, a: Action)
    requires CountersCount(s) && Enabled(s, a) && a.EndScrape?
    ensures CountersCount(Next(s, a))
  {
    var s', i := Next(s, a), s.scrape.value.conn;
    forall w: nat, c: Counter | w < |s'.shards|
      ensures s'.shards[w].total.At(c) == Shares(s'.conns, w, c) + LoopShare(s'.loops[w], c)
    {
      SharesAfter(s.conns, i, s'.conns[i], w, c);
    }
  }

  lemma StepKeepsCounters(s: State, a: Action)
    requires CountersCount(s) && Enabled(s, a)
    ensures CountersCount(Next(s, a))
  {
    if IsConnectionAction(a) {
      ConnectionKeepsCounters(s, a);
    } else if IsLoopAction(a) {
      LoopKeepsCounters(s, a);
    } else if a.AddWorker? {
      forall c: Counter
        ensures Shares(s.conns, |s.shards|, c) == 0
      {
        SharesOfOthers(s.conns, |s.shards|, c);
      }
    } else if a.EndScrape? {
      RenderingKeepsCounters(s, a);
    }
  }

  lemma {:induction false} CountersAreExact(states: seq<State>, actions: seq<Action>, n: nat)
    requires IsRun(states, actions) && n <= |actions|
    ensures CountersCount(states[n])
  {
    if n > 0 {
      CountersAreExact(states, actions, n - 1);
      StepKeepsCounters(states[n - 1], actions[n - 1]);
    }
  }

  /** The two steps that count a response, taken one after the other, record what
      `MetricsRegistry.RecordResponse` records, and likewise for a request. */
  lemma StepsRecord(s: State, i: nat)
    requires i < |s.conns| && s.conns[i].worker < |s.shards|
    ensures Enabled(s, CountClass(i)) ==>
              var s1 := Next(s, CountClass(i));
              var w, stage := s.conns[i].worker, s.conns[i].stage;
              && Enabled(s1, CountBytesOut(i))
              && Next(s1, CountBytesOut(i)).shards[w].total
                 == Responded(s.shards[w].total, StatusOf(stage.outcome), stage.bytesOut)
    ensures Enabled(s, CountRequest(i)) ==>
              var s1 := Next(s, CountRequest(i));
              var w, stage := s.conns[i].worker, s.conns[i].stage;
              && Enabled(s1, CountBytesIn(i))
              && Next(s1, CountBytesIn(i)).shards[w].total
                 == s.shards[w].total.Add(Requests, 1).Add(BytesIn, stage.bytesIn)
  {
  }

  /** A connection carries what was received and answered, as it was, to the end. */
  lemma StagesCarry(s: State, a: Action)
    requires Enabled(s, a) && IsConnectionAction(a)
    ensures var before, after := s.conns[a.i].stage, Next(s, a).conns[a.i].stage;
            && (a.Receive? ==> after == Received(a.bytesIn))
            && (!a.Receive? && !before.Spawned? ==> after.bytesIn == before.bytesIn)
            && (a.Answer? ==> after.Answered? && after.outcome == a.outcome && after.bytesOut == a.bytesOut)
            && (before.Answered? || HasWritten(before) ==>
                  (after.Answered? || HasWritten(after))
                  && after.outcome == before.outcome && after.bytesOut == before.bytesOut)
  {
  }

  /** A matched request is answered 200 and an unmatched one 404; the two limits are answered 431,
      internal errors 500, and every other malformed request 400. */
  lemma AnswersAreCounted(s: State, i: nat)
    requires Enabled(s, CountClass(i))
    ensures var outcome := s.conns[i].stage.outcome;
            var w := s.conns[i].worker;
            var t, t' := s.shards[w].total, Next(s, CountClass(i)).shards[w].total;
            match outcome
            case Routed(matched) =>
              && StatusOf(outcome) == (if matched then 200 else 404)
              && t' == if matched then t.(responses2xx := t.responses2xx + 1)
                       else t.(responses4xx := t.responses4xx + 1)
            case MetricsPage => StatusOf(outcome) == 200 && t' == t.(responses2xx := t.responses2xx + 1)
            case NotGet => StatusOf(outcome) == 405 && t' == t.(responses4xx := t.responses4xx + 1)
            case Malformed(error) =>
              if error.InternalError? then StatusOf(outcome) == 500 && t' == t.(responses5xx := t.responses5xx + 1)
              else if error.Success? then StatusOf(outcome) == 200 && t' == t.(responses2xx := t.responses2xx + 1)
              else
                && StatusOf(outcome) == (if error.HeaderTooLarge? || error.TooManyHeaders? then 431 else 400)
                && t' == t.(responses4xx := t.responses4xx + 1)
  {
    RecordedCounters(s.shards[s.conns[i].worker].total, StatusOf(s.conns[i].stage.outcome), 0);
  }

  // ----- the order of the counters --------------------------------------------------------------------

  predicate HasWritten(stage: Stage) {
    stage.Written? || stage.ClassCounted? || stage.Recorded?
  }

  /** The connections of a worker whose response has been written. */
  function Writes(conns: seq<Connection>, w: nat): nat {
    if conns == [] then 0
    else
      var last := conns[|conns| - 1];
      Writes(conns[..|conns| - 1], w) + if last.worker == w && HasWritten(last.stage) then 1 else 0
  }

  /** Those among them that have yet to be counted. */
  function Uncounted(conns: seq<Connection>, w: nat): nat {
    if conns == [] then 0
    else
      var last := conns[|conns| - 1];
      Uncounted(conns[..|conns| - 1], w) + if last.worker == w && last.stage.Written? then 1 else 0
  }

  function Responses(t: Counts): nat {
    t.responses2xx + t.responses4xx + t.responses5xx
  }

  lemma {:induction false} SharesInOrder(conns: seq<Connection>, w: nat)
    ensures Shares(conns, w, Accepts) >= Shares(conns, w, Requests) >= Writes(conns, w)
    ensures Writes(conns, w) == Shares(conns, w, Responses2xx) + Shares(conns, w, Responses4xx)
                                + Shares(conns, w, Responses5xx) + Uncounted(conns, w)
  {
    if conns != [] {
      SharesInOrder(conns[..|conns| - 1], w);
      var stage := conns[|conns| - 1].stage;
      if HasWritten(stage) {
        EveryStatusIsCounted(stage.outcome);
      }
    }
  }

  /** At every moment and for every worker: no more requests than accepts, no more responses than
      requests, and the three classes add up to the responses written, less those whose class is
      just about to be counted. */
  lemma CounterOrder(states: seq<State>, actions: seq<Action>, n: nat, w: nat)
    requires IsRun(states, actions) && n <= |actions| && w < |states[n].shards|
    ensures var t := states[n].shards[w].total;
            && t.accepts >= t.requests >= Responses(t)
            && Responses(t) + Uncounted(states[n].conns, w) == Writes(states[n].conns, w)
  {
    CountersAreExact(states, actions, n);
    var s := states[n];
    SharesInOrder(s.conns, w);
    var t := s.shards[w].total;
    assert t.At(Accepts) == Shares(s.conns, w, Accepts) + LoopShare(s.loops[w], Accepts);
    assert t.At(Requests) == Shares(s.conns, w, Requests) + LoopShare(s.loops[w], Requests);
    assert t.At(Responses2xx) == Shares(s.conns, w, Responses2xx) + LoopShare(s.loops[w], Responses2xx);
    assert t.At(Responses4xx) == Shares(s.conns, w, Responses4xx) + LoopShare(s.loops[w], Responses4xx);
    assert t.At(Responses5xx) == Shares(s.conns, w, Responses5xx) + LoopShare(s.loops[w], Responses5xx);
  }

  /** The same order holds of the totals over the live shards. */
  lemma {:induction false} TotalsInOrder(states: seq<State>, actions: seq<Action>, n: nat, k: nat)
    requires IsRun(states, actions) && n <= |actions| && k <= |states[n].shards|
    ensures var shards := states[n].shards;
            && Sum(shards, shards, Accepts, k) >= Sum(shards, shards, Requests, k)
            && Sum(shards, shards, Requests, k)
               >= Sum(shards, shards, Responses2xx, k) + Sum(shards, shards, Responses4xx, k)
                  + Sum(shards, shards, Responses5xx, k)
    decreases k
  {
    if k > 0 {
      TotalsInOrder(states, actions, n, k - 1);
      CounterOrder(states, actions, n, k - 1);
    }
  }

  // ----- scrapes -----------------------------------------------------------------------------------------

  /** Counters only go up, and a shard that is gone stays gone and keeps its counts. */
  ghost predicate Grew(a: seq<Shard>, b: seq<Shard>) {
    && |a| <= |b|
    && forall i | 0 <= i < |a| ::
         && (forall c: Counter :: a[i].total.At(c) <= b[i].total.At(c))
         && (b[i].alive ==> a[i].alive)
         && (!a[i].alive ==> b[i] == a[i])
  }

  lemma StepGrows(s: State, a: Action)
    requires Enabled(s, a) && |s.shards| == |s.loops|
    ensures Grew(s.shards, Next(s, a).shards)
    ensures !a.AddWorker? ==> |Next(s, a).shards| == |s.shards|
  {
  }

  lemma {:induction false} SumGrows(values: seq<Shard>, mask: seq<Shard>, values': seq<Shard>, mask': seq<Shard>,
                                    c: Counter, n: nat)
    requires n <= |values| && n <= |mask| && n <= |values'| && n <= |mask'|
    requires forall i | 0 <= i < n ::
               values[i].total.At(c) <= values'[i].total.At(c) && (mask[i].alive ==> mask'[i].alive)
    ensures Sum(values, mask, c, n) <= Sum(values', mask', c, n)
  {
    if n > 0 {
      SumGrows(values, mask, values', mask', c, n - 1);
    }
  }

  /** How many shards this scrape has read this counter of, or passed over. */
  function UpTo(scrape: Scrape, c: Counter): nat {
    scrape.at + if scrape.reading.Some? && scrape.reading.value > Place(c) then 1 else 0
  }

  /** What has been summed lies between what the shards still alive had at the start and what
      those alive at the start have now. */
  ghost predicate Bracketed(shards: seq<Shard>, scrape: Scrape, c: Counter)
    requires UpTo(scrape, c) <= |shards| == |scrape.before|
  {
    && Sum(scrape.before, shards, c, UpTo(scrape, c)) <= scrape.exact.At(c)
    && scrape.exact.At(c) <= Sum(shards, scrape.before, c, UpTo(scrape, c))
    && scrape.sums.At(c) == scrape.exact.At(c) % WORD
  }

  ghost predicate ScrapeHolds(shards: seq<Shard>, scrape: Scrape) {
    && Grew(scrape.before, shards) && |shards| == |scrape.before|
    && scrape.at <= |shards|
    && (scrape.reading.Some? ==>
          scrape.at < |shards| && scrape.reading.value <= 7 && scrape.before[scrape.at].alive)
    && forall c: Counter :: Bracketed(shards, scrape, c)
  }

  /** Recording while the scrape is under way. */
  lemma RecordingKeepsScrape(shards: seq<Shard>, shards': seq<Shard>, scrape: Scrape)
    requires ScrapeHolds(shards, scrape) && Grew(shards, shards') && |shards'| == |shards|
    ensures ScrapeHolds(shards', scrape)
  {
    forall c: Counter
      ensures Bracketed(shards', scrape, c)
    {
      assert Bracketed(shards, scrape, c);
      SumGrows(scrape.before, shards', scrape.before, shards, c, UpTo(scrape, c));
      SumGrows(shards, scrape.before, shards', scrape.before, c, UpTo(scrape, c));
    }
  }

  lemma ScrapingKeepsScrape(shards: seq<Shard>, scrape: Scrape)
    requires ScrapeHolds(shards, scrape) && scrape.at < |shards|
    ensures ScrapeHolds(shards, Scraped(shards, scrape))
  {
    var scrape' := Scraped(shards, scrape);
    forall c: Counter
      ensures UpTo(scrape', c) <= |shards| && Bracketed(shards, scrape', c)
    {
      assert Bracketed(shards, scrape, c);
      if scrape.reading.Some? && scrape.reading.value == Place(c) {
        AddWraps(scrape.sums.At(c), scrape.exact.At(c), shards[scrape.at].total.At(c));
      }
    }
  }

  ghost predicate ReportHolds(r: Report) {
    && |r.before| == |r.after|
    && forall c: Counter ::
         && Sum(r.before, r.after, c, |r.before|) <= r.exact.At(c) <= Sum(r.after, r.before, c, |r.before|)
         && r.sums.At(c) == r.exact.At(c) % WORD
  }

  /** Scrapes so far, and how they follow each other. */
  ghost predicate ReportsHold(s: State) {
    && |s.shards| == |s.loops|
    && (forall i | 0 <= i < |s.reports| :: ReportHolds(s.reports[i]) && Grew(s.reports[i].after, s.shards))
    && (forall i, j | 0 <= i < j < |s.reports| :: Grew(s.reports[i].after, s.reports[j].before))
    && (s.scrape.Some? ==>
          && ScrapeHolds(s.shards, s.scrape.value)
          && forall i | 0 <= i < |s.reports| :: Grew(s.reports[i].after, s.scrape.value.before))
  }

  lemma GrewTransitive(a: seq<Shard>, b: seq<Shard>, c: seq<Shard>)
    requires Grew(a, b) && Grew(b, c)
    ensures Grew(a, c)
  {
  }

  lemma FinishedScrape(shards: seq<Shard>, scrape: Scrape)
    requires ScrapeHolds(shards, scrape) && scrape.at >= |shards|
    ensures ReportHolds(Report(scrape.before, shards, scrape.sums, scrape.exact))
    ensures Grew(shards, shards)
  {
    var r := Report(scrape.before, shards, scrape.sums, scrape.exact);
    forall c: Counter
      ensures && Sum(r.before, r.after, c, |r.before|) <= r.exact.At(c) <= Sum(r.after, r.before, c, |r.before|)
              && r.sums.At(c) == r.exact.At(c) % WORD
    {
      assert UpTo(scrape, c) == |shards| && Bracketed(shards, scrape, c);
    }
  }

  lemma StepKeepsReports(s: State, a: Action)
    requires ReportsHold(s) && Enabled(s, a)
    ensures ReportsHold(Next(s, a))
  {
    var s' := Next(s, a);
    StepGrows(s, a);
    forall i | 0 <= i < |s.reports|
      ensures Grew(s.reports[i].after, s'.shards)
    {
      GrewTransitive(s.reports[i].after, s.shards, s'.shards);
    }
    if a.NextShard? || a.ReadCounter? {
      ScrapingKeepsScrape(s.shards, s.scrape.value);
    } else if a.EndScrape? {
      FinishedScrape(s.shards, s.scrape.value);
    } else if s.scrape.Some? {
      RecordingKeepsScrape(s.shards, s'.shards, s.scrape.value);
    }
  }

  lemma {:induction false} RunKeepsReports(states: seq<State>, actions: seq<Action>, n: nat)
    requires IsRun(states, actions) && n <= |actions|
    ensures ReportsHold(states[n])
  {
    if n > 0 {
      RunKeepsReports(states, actions, n - 1);
      StepKeepsReports(states[n - 1], actions[n - 1]);
    }
  }

  /** Every counter a scrape reports lies between what the shards that survived the scrape had
      when it began, and what the shards it began with have when it ends, unless that wraps. */
  lemma ScrapeWithinTotals(states: seq<State>, actions: seq<Action>, n: nat, i: nat, c: Counter)
    requires IsRun(states, actions) && n <= |actions| && i < |states[n].reports|
    ensures var r := states[n].reports[i];
            && |r.before| == |r.after|
            && (Sum(r.after, r.before, c, |r.before|) < WORD ==>
                  Sum(r.before, r.after, c, |r.before|) <= r.sums.At(c) <= Sum(r.after, r.before, c, |r.before|))
  {
    RunKeepsReports(states, actions, n);
    var r := states[n].reports[i];
    assert ReportHolds(r);
    assert r.exact.At(c) < WORD ==> r.exact.At(c) % WORD == r.exact.At(c);
  }

  /** With no worker stopped meanwhile, that is the true totals at the start and at the end. */
  lemma ScrapeWithinTrueTotals(states: seq<State>, actions: seq<Action>, n: nat, i: nat, c: Counter)
    requires IsRun(states, actions) && n <= |actions| && i < |states[n].reports|
    requires var r := states[n].reports[i];
             && (forall k | 0 <= k < |r.before| && k < |r.after| :: r.before[k].alive == r.after[k].alive)
             && Sum(r.after, r.after, c, |r.after|) < WORD
    ensures var r := states[n].reports[i];
            Sum(r.before, r.before, c, |r.before|) <= r.sums.At(c) <= Sum(r.after, r.after, c, |r.after|)
  {
    ScrapeWithinTotals(states, actions, n, i, c);
    var r := states[n].reports[i];
    SumGrows(r.before, r.before, r.before, r.after, c, |r.before|);
    SumGrows(r.after, r.before, r.after, r.after, c, |r.before|);
  }

  /** A scrape during which nothing is recorded reports what `MetricsRegistry.SumShards` returns. */
  lemma QuietScrapeIsSum(states: seq<State>, actions: seq<Action>, n: nat, i: nat)
    requires IsRun(states, actions) && n <= |actions| && i < |states[n].reports|
    requires states[n].reports[i].before == states[n].reports[i].after
    ensures var r := states[n].reports[i];
            IsSum(r.sums, r.after, |r.after|)
  {
    RunKeepsReports(states, actions, n);
    assert ReportHolds(states[n].reports[i]);
  }

  /** A later scrape never reports less, if every shard the earlier one began with is still alive. */
  lemma ScrapesAreMonotone(states: seq<State>, actions: seq<Action>, n: nat, i: nat, j: nat, c: Counter)
    requires IsRun(states, actions) && n <= |actions| && i < j < |states[n].reports|
    requires var r, r' := states[n].reports[i], states[n].reports[j];
             && (forall k | 0 <= k < |r.before| && k < |r'.after| && r.before[k].alive :: r'.after[k].alive)
             && |r'.after| == |r'.before| && Sum(r'.after, r'.before, c, |r'.before|) < WORD
    ensures states[n].reports[i].sums.At(c) <= states[n].reports[j].sums.At(c)
  {
    RunKeepsReports(states, actions, n);
    var r, r' := states[n].reports[i], states[n].reports[j];
    ScrapeWithinTotals(states, actions, n, j, c);
    SumGrows(r.after, r.before, r'.before, r'.after, c, |r.after|);
    SumExtends(r'.before, r'.after, c, |r.after|, |r'.before|);
    assert r.sums.At(c) <= r.exact.At(c);
  }

  lemma {:induction false} SumExtends(values: seq<Shard>, mask: seq<Shard>, c: Counter, m: nat, n: nat)
    requires m <= n <= |values| && n <= |mask|
    ensures Sum(values, mask, c, m) <= Sum(values, mask, c, n)
    decreases n
  {
    if m < n {
      SumExtends(values, mask, c, m, n - 1);
    }
  }

  /** What a report says of its start and end is what the shards were at those moments. */
  lemma {:induction false} ScrapeMoments(states: seq<State>, actions: seq<Action>, n: nat, i: nat)
      returns (b: nat, e: nat)
    requires IsRun(states, actions) && n <= |actions| && i < |states[n].reports|
    ensures b < e < n && actions[b].BeginScrape? && actions[e].EndScrape?
    ensures states[n].reports[i].before == states[b].shards && states[n].reports[i].after == states[e].shards
    ensures |states[e].reports| == i
  {
    e := n - 1;
    var s, a := states[e], actions[e];
    assert Enabled(s, a) && states[n] == Next(s, a);
    if i < |s.reports| {
      b, e := ScrapeMoments(states, actions, e, i);
    } else {
      b := ScrapeBegan(states, actions, e);
    }
  }

  lemma {:induction false} ScrapeBegan(states: seq<State>, actions: seq<Action>, n: nat) returns (b: nat)
    requires IsRun(states, actions) && n <= |actions| && states[n].scrape.Some?
    ensures b < n && actions[b].BeginScrape? && states[n].scrape.value.before == states[b].shards
  {
    b := n - 1;
    assert Enabled(states[b], actions[b]) && states[n] == Next(states[b], actions[b]);
    if !actions[b].BeginScrape? {
      b := ScrapeBegan(states, actions, b);
    }
  }
}
