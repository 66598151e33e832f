/** The per-worker metric shards and the scrape that adds them up. The counters hold 64 bits and
    wrap; `total` is what they would hold if they did not.
  */
module Metrics {
  import opened CommonTypes

  datatype Counter = Accepts | Requests | Responses2xx | Responses4xx | Responses5xx | BytesIn | BytesOut

  datatype Counts = Counts(accepts: nat, requests: nat, responses2xx: nat, responses4xx: nat, responses5xx: nat,
                           bytesIn: nat, bytesOut: nat) {
    function At(c: Counter): nat {
      match c
      case Accepts => accepts
      case Requests => requests
      case Responses2xx => responses2xx
      case Responses4xx => responses4xx
      case Responses5xx => responses5xx
      case BytesIn => bytesIn
      case BytesOut => bytesOut
    }

    function Add(c: Counter, n: nat): Counts {
      match c
      case Accepts => this.(accepts := accepts + n)
      case Requests => this.(requests := requests + n)
      case Responses2xx => this.(responses2xx := responses2xx + n)
      case Responses4xx => this.(responses4xx := responses4xx + n)
      case Responses5xx => this.(responses5xx := responses5xx + n)
      case BytesIn => this.(bytesIn := bytesIn + n)
      case BytesOut => this.(bytesOut := bytesOut + n)
    }
  }

  const ZERO := Counts(0, 0, 0, 0, 0, 0, 0)

  /** The words that counters hold for these totals. */
  function Wrapped(t: Counts): Counts {
    Counts(t.accepts % WORD, t.requests % WORD, t.responses2xx % WORD, t.responses4xx % WORD, t.responses5xx % WORD,
           t.bytesIn % WORD, t.bytesOut % WORD)
  }

  function ClassOf(status: int): Option<Counter> {
    if 200 <= status < 300 then Some(Responses2xx)
    else if 400 <= status < 500 then Some(Responses4xx)
    else if 500 <= status < 600 then Some(Responses5xx)
    else None
  }

  /** One response of this status and size. */
  function Responded(t: Counts, status: int, bytesOut: nat): Counts {
    match ClassOf(status)
    case Some(c) => t.Add(c, 1).Add(BytesOut, bytesOut)
    case None => t.Add(BytesOut, bytesOut)
  }

  /** A shard as a value; `alive` while its worker owns it. */
  datatype Shard = Shard(alive: bool, total: Counts)

  /** The sum, over the first `n` shards that `mask` says are alive, of what `values` has. */
  function Sum(values: seq<Shard>, mask: seq<Shard>, c: Counter, n: nat): nat
    requires n <= |values| && n <= |mask|
  {
    if n == 0 then 0
    else Sum(values, mask, c, n - 1) + if mask[n - 1].alive then values[n - 1].total.At(c) else 0
  }

  /** A word incremented by a word still agrees with its total. */
  lemma AddWraps(x: nat, a: nat, n: nat)
    requires x == a % WORD
    ensures FetchAdd(x, n) == (a + n) % WORD == FetchAdd(x, n % WORD)
  {
    var q, r := a / WORD, n / WORD;
    Reduce(x + n, q);
    Reduce(x + n % WORD, r);
    assert a + n == x + n + q * WORD;
    assert x + n == x + n % WORD + r * WORD;
  }

  lemma {:induction false} Reduce(x: nat, q: nat)
    ensures (x + q * WORD) % WORD == x % WORD
    decreases q
  {
    if q > 0 {
      Reduce(x, q - 1);
      assert x + q * WORD == (x + (q - 1) * WORD) + WORD;
    }
  }

  function FetchAdd(x: nat, n: nat): uint64 {
    (x + n) % WORD
  }

  function FetchAddAll(x: Counts, n: Counts): (r: Counts)
    ensures forall c: Counter :: r.At(c) == FetchAdd(x.At(c), n.At(c))
  {
    Counts(FetchAdd(x.accepts, n.accepts), FetchAdd(x.requests, n.requests),
           FetchAdd(x.responses2xx, n.responses2xx), FetchAdd(x.responses4xx, n.responses4xx),
           FetchAdd(x.responses5xx, n.responses5xx), FetchAdd(x.bytesIn, n.bytesIn), FetchAdd(x.bytesOut, n.bytesOut))
  }

  ghost predicate IsSum(sums: Counts, shards: seq<Shard>, n: nat)
    requires n <= |shards|
  {
    forall c: Counter :: sums.At(c) == Sum(shards, shards, c, n) % WORD
  }

  lemma SumOneMore(sums: Counts, shards: seq<Shard>, n: nat)
    requires n < |shards| && IsSum(sums, shards, n)
    ensures IsSum(if shards[n].alive then FetchAddAll(sums, Wrapped(shards[n].total)) else sums, shards, n + 1)
  {
    if shards[n].alive {
      forall c: Counter
        ensures FetchAddAll(sums, Wrapped(shards[n].total)).At(c) == Sum(shards, shards, c, n + 1) % WORD
      {
        AddWraps(sums.At(c), Sum(shards, shards, c, n), shards[n].total.At(c));
      }
    }
  }

  /** A counter of 64 bits. */
  lemma CountersWrap(x: uint64)
    ensures FetchAdd(x, 1) == if x == 18_446_744_073_709_551_615 then 0 else x + 1
  {
  }

  /** The class of a status is its first digit of three. */
  lemma ClassIsFirstDigit(status: int)
    ensures ClassOf(status) == Some(Responses2xx) <==> status / 100 == 2
    ensures ClassOf(status) == Some(Responses4xx) <==> status / 100 == 4
    ensures ClassOf(status) == Some(Responses5xx) <==> status / 100 == 5
    ensures ClassOf(status).Some? <==> status / 100 in {2, 4, 5}
  {
  }

  /** What each recording adds to which counter; no other counter changes. */
  lemma RecordedCounters(t: Counts, status: int, bytes: nat)
    ensures t.Add(Accepts, 1) == t.(accepts := t.accepts + 1)
    ensures t.Add(Requests, 1).Add(BytesIn, bytes) == t.(requests := t.requests + 1, bytesIn := t.bytesIn + bytes)
    ensures Responded(t, status, bytes)
            == t.(responses2xx := t.responses2xx + if status / 100 == 2 then 1 else 0,
                  responses4xx := t.responses4xx + if status / 100 == 4 then 1 else 0,
                  responses5xx := t.responses5xx + if status / 100 == 5 then 1 else 0,
                  bytesOut := t.bytesOut + bytes)
  {
    ClassIsFirstDigit(status);
  }

  // ----- recording and rendering ------------------------------------------------------------------

  class WorkerMetricsShard {
    var alive: bool
    var accepts: uint64
    var requests: uint64
    var responses2xx: uint64
    var responses4xx: uint64
    var responses5xx: uint64
    var bytesIn: uint64
    var bytesOut: uint64
    ghost var total: Counts

    constructor ()
      ensures Valid() && alive && total == ZERO
    {
      alive := true;
      accepts, requests, responses2xx, responses4xx, responses5xx, bytesIn, bytesOut := 0, 0, 0, 0, 0, 0, 0;
      total := ZERO;
    }

    ghost predicate Valid()
      reads this
    {
      Counts(accepts, requests, responses2xx, responses4xx, responses5xx, bytesIn, bytesOut) == Wrapped(total)
    }

    ghost function View(): Shard
      reads this`alive, this`total
    {
      Shard(alive, total)
    }
  }

  ghost function Views(shards: seq<WorkerMetricsShard>): (views: seq<Shard>)
    reads shards
    ensures |views| == |shards|
  {
    seq(|shards|, i requires 0 <= i < |shards| reads shards => shards[i].View())
  }

  class MetricsRegistry {
    var shards: seq<WorkerMetricsShard>

    constructor ()
      ensures shards == []
    {
      shards := [];
    }

    method CreateWorkerShard() returns (shard: WorkerMetricsShard)
      modifies this
      ensures fresh(shard) && shard.Valid() && shard.View() == Shard(true, ZERO)
      ensures shards == old(shards) + [shard]
    {
      shard := new WorkerMetricsShard();
      shards := shards + [shard];
    }

    /** `shard` is the one bound to the calling thread, or null. */
    method RecordAccept(shard: WorkerMetricsShard?)
      requires shard != null ==> shard.Valid()
      modifies if shard == null then {} else {shard}
      ensures shard != null ==>
                && shard.Valid() && shard.alive == old(shard.alive)
                && shard.total == old(shard.total).Add(Accepts, 1)
    {
      if shard == null {
        return;
      }
      AddWraps(shard.accepts, shard.total.accepts, 1);
      shard.accepts := FetchAdd(shard.accepts, 1);
      shard.total := shard.total.Add(Accepts, 1);
    }

    method RecordRequest(shard: WorkerMetricsShard?, bytesIn: uint64)
      requires shard != null ==> shard.Valid()
      modifies if shard == null then {} else {shard}
      ensures shard != null ==>
                && shard.Valid() && shard.alive == old(shard.alive)
                && shard.total == old(shard.total).Add(Requests, 1).Add(BytesIn, bytesIn)
    {
      if shard == null {
        return;
      }
      AddWraps(shard.requests, shard.total.requests, 1);
      AddWraps(shard.bytesIn, shard.total.bytesIn, bytesIn);
      shard.requests := FetchAdd(shard.requests, 1);
      shard.bytesIn := FetchAdd(shard.bytesIn, bytesIn);
      shard.total := shard.total.Add(Requests, 1).Add(BytesIn, bytesIn);
    }

    method RecordResponse(shard: WorkerMetricsShard?, status: int, bytesOut: uint64)
      requires shard != null ==> shard.Valid()
      modifies if shard == null then {} else {shard}
      ensures shard != null ==>
                && shard.Valid() && shard.alive == old(shard.alive)
                && shard.total == Responded(old(shard.total), status, bytesOut)
    {
      if shard == null {
        return;
      }
      AddWraps(shard.responses2xx, shard.total.responses2xx, 1);
      AddWraps(shard.responses4xx, shard.total.responses4xx, 1);
      AddWraps(shard.responses5xx, shard.total.responses5xx, 1);
      AddWraps(shard.bytesOut, shard.total.bytesOut, bytesOut);
      if status >= 200 && status < 300 {
        shard.responses2xx := FetchAdd(shard.responses2xx, 1);
      } else if status >= 400 && status < 500 {
        shard.responses4xx := FetchAdd(shard.responses4xx, 1);
      } else if status >= 500 && status < 600 {
        shard.responses5xx := FetchAdd(shard.responses5xx, 1);
      }
      shard.bytesOut := FetchAdd(shard.bytesOut, bytesOut);
      shard.total := Responded(shard.total, status, bytesOut);
    }

    /** With nobody recording meanwhile, every sum is the exact total of the live shards, modulo
        the word size. */
    method SumShards() returns (sums: Counts)
      requires forall shard | shard in shards :: shard.Valid()
      ensures IsSum(sums, Views(shards), |shards|)
    {
      var accepts: uint64, requests: uint64, bytesIn: uint64, bytesOut: uint64 := 0, 0, 0, 0;
      var responses2xx: uint64, responses4xx: uint64, responses5xx: uint64 := 0, 0, 0;
      sums := ZERO;
      ghost var views := Views(shards);
      for n := 0 to |shards|
        invariant sums == Counts(accepts, requests, responses2xx, responses4xx, responses5xx, bytesIn, bytesOut)
        invariant IsSum(sums, views, n)
      {
        var shard := shards[n];
        assert shard in shards && shard.Valid();
        ghost var next := if shard.alive then FetchAddAll(sums, Wrapped(shard.total)) else sums;
        SumOneMore(sums, views, n);
        if shard.alive {
          accepts := FetchAdd(accepts, shard.accepts);
          requests := FetchAdd(requests, shard.requests);
          responses2xx := FetchAdd(responses2xx, shard.responses2xx);
          responses4xx := FetchAdd(responses4xx, shard.responses4xx);
          responses5xx := FetchAdd(responses5xx, shard.responses5xx);
          bytesIn := FetchAdd(bytesIn, shard.bytesIn);
          bytesOut := FetchAdd(bytesOut, shard.bytesOut);
        }
        sums := Counts(accepts, requests, responses2xx, responses4xx, responses5xx, bytesIn, bytesOut);
        assert sums == next;
      }
    }
  }
}
