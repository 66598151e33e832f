/** The three-state circuit breaker, characterised by its log of timestamped events.

    Instants are steady-clock nanoseconds, passed in with each event. Every request,
    success and failure is one event, whatever request a result belongs to.
  */
module CircuitBreaking {
  import opened CommonTypes

  const NANOS_PER_SECOND := 1_000_000_000
  const WRAP_32 := 0x1_0000_0000

  datatype CircuitBreakerConfig =
    CircuitBreakerConfig(failureThreshold: uint32, successThreshold: uint32, openTimeoutSeconds: int)

  datatype CircuitState = Closed | Open | HalfOpen

  datatype Event = Request(at: int) | Success(at: int) | Failure(at: int)

  /** Increment of a 32-bit counter, which wraps. */
  function Increment32(x: uint32): uint32 {
    (x + 1) % WRAP_32
  }

  function AtLeastOne(threshold: uint32): nat {
    if threshold == 0 then 1 else threshold
  }

  /** `duration_cast` to whole seconds, which truncates toward zero. */
  function WholeSeconds(nanos: int): int {
    if nanos >= 0 then nanos / NANOS_PER_SECOND else -(-nanos / NANOS_PER_SECOND)
  }

  /** The fields of the breaker, and what one event makes of them. */
  datatype Fields = Fields(state: CircuitState, failures: uint32, successes: uint32, openStart: int)

  function After(config: CircuitBreakerConfig, b: Fields, event: Event): Fields {
    match b.state
    case Closed =>
      if event.Request? then b
      else if event.Success? then b.(failures := 0)
      else if Increment32(b.failures) >= config.failureThreshold then Fields(Open, 0, 0, event.at)
      else b.(failures := Increment32(b.failures))
    case HalfOpen =>
      if event.Request? then b
      else if event.Failure? then Fields(Open, 0, 0, event.at)
      else if Increment32(b.successes) >= config.successThreshold then Fields(Closed, 0, 0, b.openStart)
      else b.(successes := Increment32(b.successes))
    case Open =>
      if event.Request? && WholeSeconds(event.at - b.openStart) >= config.openTimeoutSeconds
      then Fields(HalfOpen, 0, 0, b.openStart)
      else b
  }

  function TimeoutNanos(config: CircuitBreakerConfig): int {
    config.openTimeoutSeconds * NANOS_PER_SECOND
  }

  // ----- reading a log ----------------------------------------------------------------------

  ghost predicate InOrder(log: seq<Event>) {
    forall i, j | 0 <= i <= j < |log| :: log[i].at <= log[j].at
  }

  /** The successes and failures of a log, requests left out. */
  function Results(log: seq<Event>): seq<Event> {
    if log == [] then []
    else Results(log[..|log| - 1]) + if log[|log| - 1].Request? then [] else [log[|log| - 1]]
  }

  function TrailingFailures(results: seq<Event>): nat {
    if results == [] || !results[|results| - 1].Failure? then 0
    else 1 + TrailingFailures(results[..|results| - 1])
  }

  ghost predicate EndsInFailures(results: seq<Event>, n: nat) {
    n <= |results| && forall i | |results| - n <= i < |results| :: results[i].Failure?
  }

  ghost predicate AllSuccesses(results: seq<Event>) {
    forall i | 0 <= i < |results| :: results[i].Success?
  }

  /** The index at which the last state of a history was entered. */
  function PhaseStart(history: seq<CircuitState>): (start: nat)
    requires history != []
    ensures start < |history|
    ensures forall i | start <= i < |history| :: history[i] == history[|history| - 1]
    ensures start > 0 ==> history[start - 1] != history[start]
  {
    var n := |history| - 1;
    if n == 0 || history[n - 1] != history[n] then n else PhaseStart(history[..n])
  }

  /** The results recorded since the state before event `i` was entered, event `i` included. */
  ghost function PhaseResults(log: seq<Event>, history: seq<CircuitState>, i: nat): seq<Event>
    requires |history| == |log| + 1 && i < |log|
  {
    Results(log[PhaseStart(history[..i + 1])..i + 1])
  }

  /** The instant of the event that led into the state before event `i`, if there is one. */
  ghost function EnteredAt(log: seq<Event>, history: seq<CircuitState>, i: nat): int
    requires |history| == |log| + 1 && i < |history|
  {
    var start := PhaseStart(history[..i + 1]);
    if start == 0 then 0 else log[start - 1].at
  }

  /** The next state, given the results since the current state was entered, the newest event included. */
  ghost function NextState(config: CircuitBreakerConfig, current: CircuitState, results: seq<Event>, enteredAt: int,
                           event: Event): CircuitState
  {
    match current
    case Closed =>
      if event.Failure? && EndsInFailures(results, AtLeastOne(config.failureThreshold)) then Open else Closed
    case HalfOpen =>
      if event.Failure? then Open
      else if event.Success? && AllSuccesses(results) && |results| >= AtLeastOne(config.successThreshold) then Closed
      else HalfOpen
    case Open =>
      if event.Request? && WholeSeconds(event.at - enteredAt) >= config.openTimeoutSeconds then HalfOpen else Open
  }

  /** The state after event `i`, read off the log: no counter is involved. */
  ghost function StateAfter(config: CircuitBreakerConfig, log: seq<Event>, history: seq<CircuitState>,
                            i: nat): CircuitState
    requires |history| == |log| + 1 && i < |log|
  {
    NextState(config, history[i], PhaseResults(log, history, i), EnteredAt(log, history, i), log[i])
  }

  /** `history` lists the states the log leads through, the first state included. */
  ghost predicate Explains(config: CircuitBreakerConfig, log: seq<Event>, history: seq<CircuitState>) {
    && |history| == |log| + 1
    && history[0] == Closed
    && forall i: nat | i < |log| :: history[i + 1] == StateAfter(config, log, history, i)
  }

  /** What the fields hold, in terms of the results since the current state was entered. */
  ghost predicate FieldsAgree(config: CircuitBreakerConfig, results: seq<Event>, enteredAt: int, b: Fields) {
    match b.state
    case Closed =>
      && b.failures == TrailingFailures(results) < AtLeastOne(config.failureThreshold)
      && b.successes == 0
    case HalfOpen =>
      && b.failures == 0
      && AllSuccesses(results)
      && b.successes == |results| < AtLeastOne(config.successThreshold)
    case Open =>
      && b.failures == b.successes == 0
      && b.openStart == enteredAt
  }

  ghost predicate FieldsHold(config: CircuitBreakerConfig, log: seq<Event>, history: seq<CircuitState>, b: Fields)
    requires |history| == |log| + 1
  {
    && b.state == history[|log|]
    && FieldsAgree(config, Results(log[PhaseStart(history)..]), EnteredAt(log, history, |log|), b)
  }

  class CircuitBreaker {
    const config: CircuitBreakerConfig
    var state: CircuitState
    var consecutiveFailures: uint32
    var consecutiveSuccesses: uint32
    var openStartTime: int
    // every event since construction or the last reset, and the states it led through
    ghost var log: seq<Event>
    ghost var history: seq<CircuitState>

    ghost predicate Valid()
      reads this
    {
      && Explains(config, log, history)
      && FieldsHold(config, log, history, View())
    }

    function View(): Fields
      reads this
    {
      Fields(state, consecutiveFailures, consecutiveSuccesses, openStartTime)
    }

    constructor (config: CircuitBreakerConfig)
      ensures Valid() && this.config == config && log == [] && history == [Closed]
    {
      this.config := config;
      state := Closed;
      consecutiveFailures, consecutiveSuccesses := 0, 0;
      openStartTime := 0;
      log, history := [], [Closed];
    }

    method AllowRequest(now: int) returns (allowed: bool)
      requires Valid()
      modifies this
      ensures Valid()
      ensures View() == After(config, old(View()), Request(now))
      ensures log == old(log) + [Request(now)] && history == old(history) + [state]
      ensures allowed == (state != Open)
    {
      EventKeepsFields(config, log, history, View(), Request(now));
      allowed := true;
      if state == Open {
        var elapsed := WholeSeconds(now - openStartTime);
        if elapsed >= config.openTimeoutSeconds {
          TransitionToHalfOpen();
        } else {
          allowed := false;
        }
      }
      log, history := log + [Request(now)], history + [state];
    }

    method RecordSuccess(now: int)
      requires Valid()
      modifies this
      ensures Valid()
      ensures View() == After(config, old(View()), Success(now))
      ensures log == old(log) + [Success(now)] && history == old(history) + [state]
    {
      EventKeepsFields(config, log, history, View(), Success(now));
      if state == Closed {
        consecutiveFailures := 0;
      } else if state == HalfOpen {
        consecutiveSuccesses := Increment32(consecutiveSuccesses);
        if consecutiveSuccesses >= config.successThreshold {
          TransitionToClosed();
        }
      }
      log, history := log + [Success(now)], history + [state];
    }

    method RecordFailure(now: int)
      requires Valid()
      modifies this
      ensures Valid()
      ensures View() == After(config, old(View()), Failure(now))
      ensures log == old(log) + [Failure(now)] && history == old(history) + [state]
    {
      EventKeepsFields(config, log, history, View(), Failure(now));
      if state == Closed {
        consecutiveFailures := Increment32(consecutiveFailures);
        if consecutiveFailures >= config.failureThreshold {
          TransitionToOpen(now);
        }
      } else if state == HalfOpen {
        TransitionToOpen(now);
      }
      log, history := log + [Failure(now)], history + [state];
    }

    method TransitionToOpen(now: int)
      modifies this
      ensures state == Open && openStartTime == now && consecutiveFailures == consecutiveSuccesses == 0
      ensures log == old(log) && history == old(history)
    {
      state := Open;
      openStartTime := now;
      consecutiveFailures := 0;
      consecutiveSuccesses := 0;
    }

    method TransitionToHalfOpen()
      modifies this
      ensures state == HalfOpen && openStartTime == old(openStartTime)
      ensures consecutiveFailures == consecutiveSuccesses == 0
      ensures log == old(log) && history == old(history)
    {
      state := HalfOpen;
      consecutiveFailures := 0;
      consecutiveSuccesses := 0;
    }

    method TransitionToClosed()
      modifies this
      ensures state == Closed && openStartTime == old(openStartTime) && consecutiveFailures == consecutiveSuccesses == 0
      ensures log == old(log) && history == old(history)
    {
      state := Closed;
      consecutiveFailures := 0;
      consecutiveSuccesses := 0;
    }

    /** Starts a new log; the start time is left as it is. */
    method Reset()
      modifies this
      ensures Valid() && log == [] && history == [Closed]
    {
      state := Closed;
      consecutiveFailures := 0;
      consecutiveSuccesses := 0;
      log, history := [], [Closed];
    }
  }

  // ----- the counters read the log correctly --------------------------------------------------

  lemma {:induction false} TrailingFailuresMeaning(results: seq<Event>, n: nat)
    ensures TrailingFailures(results) >= n <==> EndsInFailures(results, n)
  {
    if n > 0 && results != [] && results[|results| - 1].Failure? {
      var rest := results[..|results| - 1];
      TrailingFailuresMeaning(rest, n - 1);
      assert EndsInFailures(rest, n - 1) <==> EndsInFailures(results, n) by {
        if EndsInFailures(results, n) {
          assert forall i | |rest| - (n - 1) <= i < |rest| :: rest[i] == results[i];
        }
      }
    } else if n > 0 && results != [] {
      assert !results[|results| - 1].Failure?;
    }
  }

  lemma StateAfterOfPrefix(config: CircuitBreakerConfig, log: seq<Event>, history: seq<CircuitState>,
                           log': seq<Event>, history': seq<CircuitState>, i: nat)
    requires |history| == |log| + 1 && |history'| == |log'| + 1 && i < |log|
    requires log <= log' && history <= history'
    ensures StateAfter(config, log', history', i) == StateAfter(config, log, history, i)
  {
    assert history'[..i + 1] == history[..i + 1];
    var start := PhaseStart(history[..i + 1]);
    assert log'[start..i + 1] == log[start..i + 1];
  }

  lemma HistoryExtends(config: CircuitBreakerConfig, log: seq<Event>, history: seq<CircuitState>, event: Event,
                       next: CircuitState)
    requires Explains(config, log, history)
    requires next == StateAfter(config, log + [event], history + [next], |log|)
    ensures Explains(config, log + [event], history + [next])
  {
    var log', history' := log + [event], history + [next];
    forall i: nat | i < |log'|
      ensures history'[i + 1] == StateAfter(config, log', history', i)
    {
      if i < |log| {
        StateAfterOfPrefix(config, log, history, log', history', i);
      }
    }
  }

  lemma PhaseContinues(history: seq<CircuitState>, next: CircuitState)
    requires history != []
    ensures PhaseStart(history + [next]) == if next == history[|history| - 1] then PhaseStart(history) else |history|
  {
    assert (history + [next])[..|history|] == history;
  }

  lemma ResultsGrow(log: seq<Event>, start: nat, event: Event)
    requires start <= |log|
    ensures Results((log + [event])[start..]) == ResultsWith(Results(log[start..]), event)
    ensures (log + [event])[start..|log| + 1] == (log + [event])[start..]
  {
    assert (log + [event])[start..] == log[start..] + [event];
    assert (log[start..] + [event])[..|log[start..]|] == log[start..];
  }

  /** The phase that event `|log|` falls into, seen from the longer history. */
  lemma PhaseOfNextEvent(log: seq<Event>, history: seq<CircuitState>, event: Event, next: CircuitState)
    requires |history| == |log| + 1
    ensures PhaseResults(log + [event], history + [next], |log|)
            == ResultsWith(Results(log[PhaseStart(history)..]), event)
    ensures EnteredAt(log + [event], history + [next], |log|) == EnteredAt(log, history, |log|)
  {
    assert (history + [next])[..|log| + 1] == history == history[..|log| + 1];
    ResultsGrow(log, PhaseStart(history), event);
  }

  /** The phase after that event: the same one goes on, or a new one starts empty. */
  lemma PhaseAfterNextEvent(log: seq<Event>, history: seq<CircuitState>, event: Event, next: CircuitState)
    requires |history| == |log| + 1
    ensures Results((log + [event])[PhaseStart(history + [next])..])
            == if next == history[|log|] then ResultsWith(Results(log[PhaseStart(history)..]), event) else []
    ensures EnteredAt(log + [event], history + [next], |log| + 1)
            == if next == history[|log|] then EnteredAt(log, history, |log|) else event.at
  {
    assert history == history[..|log| + 1];
    assert (history + [next])[..|log| + 2] == history + [next];
    PhaseContinues(history, next);
    ResultsGrow(log, PhaseStart(history), event);
    if next != history[|log|] {
      assert (log + [event])[|history|..] == [];
    }
  }

  function ResultsWith(results: seq<Event>, event: Event): seq<Event> {
    if event.Request? then results else results + [event]
  }

  /** The counters make the transition the results call for, and none of them wraps on the way. */
  lemma FieldsFollowResults(config: CircuitBreakerConfig, results: seq<Event>, enteredAt: int, b: Fields, event: Event)
    requires FieldsAgree(config, results, enteredAt, b)
    ensures var b' := After(config, b, event);
            && b'.state == NextState(config, b.state, ResultsWith(results, event), enteredAt, event)
            && FieldsAgree(config, if b'.state == b.state then ResultsWith(results, event) else [],
                           if b'.state == b.state then enteredAt else event.at, b')
    ensures b.state == Closed && event.Failure? ==> Increment32(b.failures) == b.failures + 1
    ensures b.state == HalfOpen && event.Success? ==> Increment32(b.successes) == b.successes + 1
  {
    var with := ResultsWith(results, event);
    TrailingFailuresMeaning(with, AtLeastOne(config.failureThreshold));
    if !event.Request? {
      assert with[..|results|] == results;
    }
  }

  /** The fields after an event hold what the longer log says. */
  lemma EventKeepsFields(config: CircuitBreakerConfig, log: seq<Event>, history: seq<CircuitState>, b: Fields,
                         event: Event)
    requires Explains(config, log, history) && FieldsHold(config, log, history, b)
    ensures var b' := After(config, b, event);
            && Explains(config, log + [event], history + [b'.state])
            && FieldsHold(config, log + [event], history + [b'.state], b')
  {
    var b' := After(config, b, event);
    PhaseOfNextEvent(log, history, event, b'.state);
    PhaseAfterNextEvent(log, history, event, b'.state);
    FieldsFollowResults(config, Results(log[PhaseStart(history)..]), EnteredAt(log, history, |log|), b, event);
    HistoryExtends(config, log, history, event, b'.state);
  }

  // ----- thresholds ---------------------------------------------------------------------------

  /** Closed trips when the failure threshold is met by failures in a row, and not before: of the
      results since it was closed, the last `failureThreshold` (one, if that is zero) are failures. */
  lemma ClosedTripsExactlyWhen(config: CircuitBreakerConfig, log: seq<Event>, history: seq<CircuitState>, i: nat)
    requires Explains(config, log, history) && i < |log| && history[i] == Closed
    ensures var results := PhaseResults(log, history, i);
            var n: nat := if config.failureThreshold == 0 then 1 else config.failureThreshold;
            && (history[i + 1] == Open <==>
                  && log[i].Failure? && n <= |results|
                  && forall j | |results| - n <= j < |results| :: results[j].Failure?)
            && (history[i + 1] != Open ==> history[i + 1] == Closed)
  {
    assert history[i + 1] == StateAfter(config, log, history, i);
  }

  /** HalfOpen closes when its first `successThreshold` results (one, if that is zero) are all
      successes, and opens again at its first failure. */
  lemma HalfOpenEndsExactlyWhen(config: CircuitBreakerConfig, log: seq<Event>, history: seq<CircuitState>, i: nat)
    requires Explains(config, log, history) && i < |log| && history[i] == HalfOpen
    ensures var results := PhaseResults(log, history, i);
            var n: nat := if config.successThreshold == 0 then 1 else config.successThreshold;
            && (history[i + 1] == Open <==> log[i].Failure?)
            && (history[i + 1] == Closed <==>
                  log[i].Success? && n <= |results| && forall j | 0 <= j < |results| :: results[j].Success?)
  {
    assert history[i + 1] == StateAfter(config, log, history, i);
  }

  /** A new breaker that sees nothing but failures trips at the failure that meets the threshold. */
  lemma {:induction false} FailuresInARowTrip(config: CircuitBreakerConfig, log: seq<Event>, history: seq<CircuitState>,
                                              n: nat)
    requires Explains(config, log, history) && n <= |log| && forall j | 0 <= j < n :: log[j].Failure?
    requires n <= if config.failureThreshold == 0 then 1 else config.failureThreshold
    ensures forall j | 0 <= j < n :: history[j] == Closed
    ensures n > 0 ==> (history[n] == Open <==> n >= config.failureThreshold)
    ensures history[n] == Open || history[n] == Closed
  {
    if n > 0 {
      FailuresInARowTrip(config, log, history, n - 1);
      assert n - 1 > 0 ==> n - 1 < config.failureThreshold;
      assert history[n - 1] == Closed;
      ClosedTripsExactlyWhen(config, log, history, n - 1);
      OnePhase(history, n - 1);
      ResultsOfFailures(log, n);
      assert log[0..n] == log[..n];
    }
  }

  lemma {:induction false} OnePhase(history: seq<CircuitState>, n: nat)
    requires n < |history| && forall j | 0 <= j <= n :: history[j] == Closed
    ensures PhaseStart(history[..n + 1]) == 0
  {
    if n > 0 {
      OnePhase(history, n - 1);
      assert history[..n + 1][..n] == history[..n];
    }
  }

  lemma {:induction false} ResultsOfFailures(log: seq<Event>, n: nat)
    requires n <= |log| && forall j | 0 <= j < n :: log[j].Failure?
    ensures Results(log[..n]) == log[..n]
  {
    if n > 0 {
      ResultsOfFailures(log, n - 1);
      assert log[..n][..n - 1] == log[..n - 1];
      assert log[..n] == log[..n - 1] + [log[n - 1]];
    }
  }

  // ----- claims over whole logs ---------------------------------------------------------------

  lemma StateAfterSamePast(config: CircuitBreakerConfig, log: seq<Event>, one: seq<CircuitState>,
                           two: seq<CircuitState>, i: nat)
    requires |one| == |two| == |log| + 1 && i < |log| && one[..i + 1] == two[..i + 1]
    ensures StateAfter(config, log, one, i) == StateAfter(config, log, two, i)
  {
    assert one[i] == one[..i + 1][i] == two[..i + 1][i] == two[i];
  }

  /** The states are a function of the log. */
  lemma {:induction false} HistoryIsUnique(config: CircuitBreakerConfig, log: seq<Event>,
                                           one: seq<CircuitState>, two: seq<CircuitState>, n: nat)
    requires Explains(config, log, one) && Explains(config, log, two) && n <= |log|
    ensures one[..n + 1] == two[..n + 1]
  {
    if n > 0 {
      HistoryIsUnique(config, log, one, two, n - 1);
      StateAfterSamePast(config, log, one, two, n - 1);
      assert one[..n + 1] == one[..n] + [one[n]] && two[..n + 1] == two[..n] + [two[n]];
    }
  }

  ghost predicate TripsAt(history: seq<CircuitState>, i: nat)
    requires i + 1 < |history|
  {
    history[i] != Open && history[i + 1] == Open
  }

  ghost predicate AllowsAt(log: seq<Event>, history: seq<CircuitState>, i: nat)
    requires |history| == |log| + 1 && i < |log|
  {
    log[i].Request? && history[i + 1] != Open
  }

  /** While Open nothing but a request after the time-out changes the state, and the time-out runs from the trip. */
  lemma {:induction false} OpenLasts(config: CircuitBreakerConfig, log: seq<Event>, history: seq<CircuitState>,
                                     trip: nat, i: nat)
    requires Explains(config, log, history) && InOrder(log) && trip < i <= |log| && TripsAt(history, trip)
    requires forall k | trip < k < i :: log[k].at - log[trip].at < TimeoutNanos(config)
    ensures history[i] == Open
    ensures PhaseStart(history[..i + 1]) == trip + 1
    decreases i
  {
    assert history[..i + 1][..i] == history[..i];
    if i > trip + 1 {
      OpenLasts(config, log, history, trip, i - 1);
      assert history[i] == StateAfter(config, log, history, i - 1);
      assert EnteredAt(log, history, i - 1) == log[trip].at;
      assert log[i - 1].at - log[trip].at < TimeoutNanos(config);
    }
  }

  /** After a trip no request is allowed before the whole time-out has passed. */
  lemma NoRequestBeforeTimeout(config: CircuitBreakerConfig, log: seq<Event>, history: seq<CircuitState>, trip: nat,
                               i: nat)
    requires Explains(config, log, history) && InOrder(log)
    requires trip < i < |log| && TripsAt(history, trip)
    requires log[i].at < log[trip].at + config.openTimeoutSeconds * 1_000_000_000
    ensures !AllowsAt(log, history, i)
  {
    forall k | trip < k <= i
      ensures log[k].at - log[trip].at < TimeoutNanos(config)
    {
      assert log[k].at <= log[i].at;
    }
    OpenLasts(config, log, history, trip, i + 1);
  }

  /** And the first request after it is allowed, as a probe. */
  lemma FirstLateRequestProbes(config: CircuitBreakerConfig, log: seq<Event>, history: seq<CircuitState>, trip: nat,
                               i: nat)
    requires Explains(config, log, history) && InOrder(log)
    requires trip < i < |log| && TripsAt(history, trip)
    requires forall k | trip < k < i :: log[k].at - log[trip].at < config.openTimeoutSeconds * 1_000_000_000
    requires log[i].Request? && log[i].at - log[trip].at >= config.openTimeoutSeconds * 1_000_000_000
    ensures history[i + 1] == HalfOpen && AllowsAt(log, history, i)
  {
    OpenLasts(config, log, history, trip, i);
    assert history[i + 1] == StateAfter(config, log, history, i);
    assert EnteredAt(log, history, i) == log[trip].at;
    assert log[i].at >= log[trip].at;
  }

  function Trips(history: seq<CircuitState>, lo: nat, hi: nat): nat
    requires lo <= hi < |history|
  {
    if lo == hi then 0
    else Trips(history, lo, hi - 1) + if history[hi - 1] != Open && history[hi] == Open then 1 else 0
  }

  /** Some trip is the last one before a state other than Open was left for good. */
  lemma {:induction false} LastTrip(history: seq<CircuitState>, lo: nat, hi: nat) returns (trip: nat)
    requires lo <= hi < |history| && Trips(history, lo, hi) > 0
    ensures lo <= trip < hi && TripsAt(history, trip)
    ensures Trips(history, lo, trip + 1) == Trips(history, lo, hi)
    decreases hi
  {
    if history[hi - 1] != Open && history[hi] == Open {
      trip := hi - 1;
    } else {
      trip := LastTrip(history, lo, hi - 1);
    }
  }

  /** Two trips are at least the time-out apart. */
  lemma TripsAreSpaced(config: CircuitBreakerConfig, log: seq<Event>, history: seq<CircuitState>, first: nat,
                       second: nat)
    requires Explains(config, log, history) && InOrder(log)
    requires first < second < |log| && TripsAt(history, first) && TripsAt(history, second)
    ensures log[second].at - log[first].at >= config.openTimeoutSeconds * 1_000_000_000
  {
    if log[second].at - log[first].at < TimeoutNanos(config) {
      forall k | first < k < second
        ensures log[k].at - log[first].at < TimeoutNanos(config)
      {
        assert log[k].at <= log[second].at;
      }
      OpenLasts(config, log, history, first, second);
      assert false;
    }
  }

  lemma OneMoreTimeout(n: int, timeout: int)
    ensures (n - 1) * timeout == (n - 2) * timeout + timeout
    ensures n >= 1 && timeout <= 0 ==> (n - 1) * timeout <= 0
  {
  }

  /** n trips take at least n - 1 time-outs. */
  lemma {:induction false} TripsPerWindow(config: CircuitBreakerConfig, log: seq<Event>, history: seq<CircuitState>,
                                          lo: nat, hi: nat)
    requires Explains(config, log, history) && InOrder(log) && lo < hi <= |log|
    requires Trips(history, lo, hi) > 0
    ensures (Trips(history, lo, hi) - 1) * (config.openTimeoutSeconds * 1_000_000_000) <= log[hi - 1].at - log[lo].at
    decreases hi
  {
    var trip := LastTrip(history, lo, hi);
    var n := Trips(history, lo, hi);
    OneMoreTimeout(n, TimeoutNanos(config));
    assert log[lo].at <= log[trip].at <= log[hi - 1].at;
    if n > 1 {
      var previous := LastTrip(history, lo, trip);
      TripsPerWindow(config, log, history, lo, previous + 1);
      TripsAreSpaced(config, log, history, previous, trip);
    }
  }

  /** Open leads to Closed only through HalfOpen. */
  lemma {:induction false} ClosedThroughHalfOpen(config: CircuitBreakerConfig, log: seq<Event>,
                                                 history: seq<CircuitState>, i: nat, j: nat)
    requires Explains(config, log, history) && i < j <= |log|
    requires history[i] == Open && history[j] == Closed
    ensures exists k :: i < k < j && history[k] == HalfOpen
    decreases j - i
  {
    assert history[i + 1] == StateAfter(config, log, history, i);
    if history[i + 1] == Open {
      ClosedThroughHalfOpen(config, log, history, i + 1, j);
    }
  }
}
