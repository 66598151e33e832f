# A verified model of the gateway's stateful core

netp2 is a small HTTP gateway. This project models, in Dafny, the parts of it that keep state and
make decisions, and proves what those parts promise over all inputs, all runs and all interleavings:

- **Routing.** Rules are compiled into a trie of path segments, built in place on the heap and sorted
  node by node. A match splits the path, walks the trie and filters by host and client network. The
  trie is proved to answer as a linear scan over the rules would (`RouteSnapshot.dfy`, specified by
  `RouteTable.dfy`, on top of `PathSegments.dfy` and `RouteRules.dfy`). `RouteMeaning.dfy` says what
  an answer means for a rule's own fields, and what the rules of a new gateway serve. `CidrMeaning.dfy`
  compares the text test for client networks with what a prefix means numerically.
- **Rate limiting.** The token bucket is proved to be the greedy policy for "every window admits at
  most burst + rate * length", and that policy to be optimal (`RateLimiter.dfy`).
- **Circuit breaking.** The breaker's fields are tied to its whole log of timestamped events, and the
  claims about spacing and order of trips are proved of logs (`CircuitBreaker.dfy`).
- **Snapshot publication.** Publishers, readers and requests are threads that take small steps under a
  reader/writer lock with shared ownership (`SnapshotPublication.dfy`). `SnapshotRuns.dfy` ties what a
  load returns to the call of `publish` it comes from, and shows that nobody waits for ever.
- **Upstream connections.** The pool is a class over heap connections that are handed over
  (`ConnectionPool.dfy`); whole runs, with borrows that are suspended while a connection is made, are
  in `PoolRuns.dfy`, and `PoolSteps.dfy` shows that the operations are the steps of those runs.
  `PoolMeaning.dfy` says what happens to a connection in terms of its socket and its idle time, and
  `PoolCleanup.dfy` when borrowers can tell that a cleanup happened.
- **Metrics.** Worker shards and the sum over them are classes over 64-bit words (`Metrics.dfy`);
  recorders and scrapes that run at the same time are a step system (`MetricsRuns.dfy`).
  `MetricsScrapes.dfy` says when one scrape is consistent across counters.
- **Header assembly.** The codec's callbacks collect names and values from fragments
  (`HeaderAssembly.dfy`).

`CommonTypes.dfy`, `DecimalText.dfy` and `ParseErrors.dfy` hold what several of these share.

Conventions: instants are arguments (real seconds for the limiter, nanoseconds elsewhere); 32-bit and
64-bit counters wrap explicitly; text is `string`, one `char` per byte; rules are referred to by index
where the source keeps pointers. Ghost fields hold the history a claim speaks about.

## Where the code differs from its documentation, or from what one may expect

- Requirement 4.6 of `docs/architecture/04-routing-and-rate-limit.md` (line 35) asks for Host, then
  Path, then Client IP. The code takes the longest prefix over all rules first. `RouteTable.OrdersAgreeWhen`
  says exactly when the two agree and `RouteTable.LongerRuleOfOtherHostHides` gives a request on which
  they do not.
- A `/16` entry is compared as text without looking at the end of the second octet, so `10.1.0.0/16`
  admits `10.10.0.0`. `CidrMeaning.SixteenIsExactWhen` says for which prefixes it is exact. Lengths other
  than 0, 8, 16, 24 admit the prefix address alone.
- `*.x` is a test for a suffix of the text, with no label boundary. `RouteRules.WildcardDiffersWhen`
  says on which hosts that matters, and by `RouteRules.WildcardIsNeverExact` it matters for every `x`.
- A header with an empty value that is not the last one is not saved: its name is glued to the next
  name. `HeaderAssembly.SavesWhatWasSent` says exactly when the headers saved are those sent.
- A cleanup shows to borrowers only if it makes room for a connection that would otherwise be dropped
  on its return. `PoolCleanups.CleanupIsInvisible` covers all runs whose returns find room anyway, and
  `PoolCleanups.CleanupInvisibleExactlyWhen` says when no run at all can tell.
- One scrape is consistent across counters exactly when the worker that scrapes is the only one alive
  (`MetricsScrapes.OrderedExactlyWhenAlone`); `MetricsScrapes.TornScrape` is a run with two workers in
  which it is not.
- `max_connections_per_host` (`include/netp2/upstream/connection_pool.h:19`) bounds idle connections
  only: by `PoolRuns.NothingLimitsLent` any number may be lent under one key whatever the limit, and no
  borrow ever fails for it, so that `kPoolExhausted` is never produced.

## Model

| member | source | states |
|---|---|---|
| RouteSnapshots.RouteSnapshot.Match | src/routing/route_snapshot.cpp:154-198 | a match through the trie is an answer of the linear scan over the rules: the best priority among the longest-prefix rules that pass host and client, else the reason of a failing candidate, else path mismatch |
| RouteSnapshots.RouteSnapshot.FindLongestPrefixRules | src/routing/route_snapshot.cpp:221-259 | returns exactly the candidates of the linear scan, each once, in order of priority; rules without segments only for a path without segments |
| RouteSnapshots.RouteSnapshot.DeepestWithRules | src/routing/route_snapshot.cpp:233-250 | the walk ends at the deepest node on the path that has rules: no rule of the whole list sits on a longer prefix |
| RouteSnapshots.RouteSnapshot.Finalize | src/routing/route_snapshot.cpp:125-152 | from any rule list builds a trie in which every rule is listed once, at its own segments, and every list is sorted by priority; the rules are unchanged |
| RouteSnapshots.RouteSnapshot.AddRule | src/routing/route_snapshot.cpp:121-123 | appends one rule before compilation |
| RouteSnapshots.RouteSnapshot.PlaceRules | src/routing/route_snapshot.cpp:129-148 | after the loop every rule is listed at its own segments, in the order of the rules |
| RouteSnapshots.RouteSnapshot.NodeFor | src/routing/route_snapshot.cpp:137-145 | finds or makes the node of a list of segments, adding paths and changing no list |
| RouteSnapshots.RouteSnapshot.SortRules | src/routing/route_snapshot.cpp:205-219 | sorts the list of every node at and below this one into a permutation in order of priority, and no other list |
| RouteSnapshots.SortByPriority | src/routing/route_snapshot.cpp:211-214 | the result is a permutation of the list in order of priority |
| RouteSnapshots.AnyNetworkAdmits | src/routing/route_snapshot.cpp:171-178 | true exactly when some entry admits the address |
| RouteSnapshots.ListIsComplete | src/routing/route_snapshot.cpp:129-151 | a compiled list holds exactly the rules with its segments, each once, sorted |
| RouteSnapshots.NothingBelow | src/routing/route_snapshot.cpp:239-243 | where the trie has no node for a prefix, no rule lies on any longer prefix, so stopping the walk loses nothing |
| RouteSnapshots.DeepestRulesAreCandidates | src/routing/route_snapshot.cpp:236-256 | the rules at the deepest prefix that has any are the longest-prefix candidates over all rules |
| RouteSnapshots.NoRulesNoCandidates | src/routing/route_snapshot.cpp:252-258 | a path on which no rule lies has no candidate; rules at the root are no fallback |
| RouteSnapshots.FirstPassingIsAnswer | src/routing/route_snapshot.cpp:163-191 | the first passing candidate in sorted order has the least priority number of all that pass |
| RouteSnapshots.NonePassingIsAnswer | src/routing/route_snapshot.cpp:193-197 | with no passing candidate the reason is that of the last one, and path mismatch exactly if there is none |
| RouteTable.AnswerMeaning | src/routing/route_snapshot.cpp:154-198 | an answer matches exactly when some candidate passes; path mismatch exactly when there is no candidate; the other reasons come from a candidate |
| RouteTable.AnswerIsUnique | src/routing/route_snapshot.cpp:210-214 | with distinct priorities at the longest prefix the answer is determined |
| RouteTable.CandidatesShareSegments | src/routing/route_snapshot.cpp:252-256 | all candidates of a path have the same segments |
| RouteTable.MatchImpliesHostFirstMatch | docs/architecture/04-routing-and-rate-limit.md:35 | whenever the code matches, the documented host-first order matches, among the same passing rules |
| RouteTable.OrdersAgreeWhen | docs/architecture/04-routing-and-rate-limit.md:35 | the code's order and the documented one pass the same rules for every client if and only if the longest prefix holds a rule for the host, or no rule on the path is for the host |
| RouteTable.LongerRuleOfOtherHostHides | src/routing/route_snapshot.cpp:159-168 | a request on which the documented order matches and the code does not |
| RouteMeaning.AnyHostRuleMatches | src/routing/route_snapshot.cpp:75-77 | a request for which some candidate has the pattern `*`, and admits the client, is matched whatever its host |
| RouteMeaning.OneHostRulePasses | src/routing/route_snapshot.cpp:85-86 | a candidate whose pattern is no wildcard passes exactly for the host that is its own text, and a client it admits |
| RouteMeaning.OneHostRuleAnswers | src/routing/route_snapshot.cpp:185-190 | for that host it is an answer, with its own target and name, if no candidate has a better priority |
| RouteMeaning.AnswerIsOneRule | src/routing/route_snapshot.cpp:185-197 | a match has the target and the name of one passing rule of best priority; a request not matched has neither |
| RouteMeaning.AdmitsIsAllowed | src/routing/route_snapshot.cpp:170-183 | a client is allowed exactly when the rule has no list or any entry of it, whichever, admits the client |
| RouteMeaning.NobodyAdmits | src/routing/route_snapshot.cpp:179-182 | a client that no candidate admits is not matched |
| RouteMeaning.NoSlashNoSegments | src/routing/route_snapshot.cpp:94-96 | a path that does not begin with a slash has no segments |
| RouteMeaning.DefaultRulesServe | src/runtime/spine.cpp:85-105 | the rules a gateway starts with serve every host and client, on `/` by the root service and at and below `/proxy/mock` by the mock upstream, and nothing else |
| PathSegments.SplitPath | src/routing/route_snapshot.cpp:90-114 | the loop yields the segments of the path; none unless it begins with a slash |
| PathSegments.SplitOfJoin | src/routing/route_snapshot.cpp:90-114 | splitting a joined list of non-empty slash-free segments gives it back |
| PathSegments.CanonicalKeepsSegments | src/routing/route_snapshot.cpp:98-111 | segments are non-empty and slash-free; canonicalising keeps them and is idempotent |
| PathSegments.SegmentsSplitAtSlash | src/routing/route_snapshot.cpp:98-111 | a slash in a path is a boundary between segments, and repeated slashes add none |
| PathSegments.SegmentPrefixIsTextPrefix | src/routing/route_snapshot.cpp:236-250 | segments are a prefix of segments exactly when canonical text equals or is continued by a slash |
| RouteRules.CheckIpInCidr | src/routing/route_snapshot.cpp:20-71 | the function with its counting loop computes the text test |
| RouteRules.WildcardDiffersWhen | src/routing/route_snapshot.cpp:79-83 | a host with `.x` at its end always passes `*.x`; the hosts that pass without it are exactly those that end in `x` with no dot before it |
| RouteRules.WildcardIsNeverExact | src/routing/route_snapshot.cpp:79-83 | for every `x`, some host with no label boundary before `x` passes `*.x` |
| CidrMeaning.TestByOctets | src/routing/route_snapshot.cpp:20-71 | on canonical dotted quads, what the text test comes to octet by octet for every prefix length |
| CidrMeaning.ExactLengths | src/routing/route_snapshot.cpp:33-38 | at /0, /8, /24 and /32 the text test is the numeric test |
| CidrMeaning.BareAddressIsExact | src/routing/route_snapshot.cpp:23-25 | an entry without a length admits exactly that address |
| CidrMeaning.SixteenIsExactWhen | src/routing/route_snapshot.cpp:40-56 | /16 never misses a member, and is exact for every address if and only if the second octet of the prefix is 0 or at least 26 |
| CidrMeaning.SixteenAdmitsOutsider | src/routing/route_snapshot.cpp:53-55 | for every other second octet, an address outside that is admitted |
| CidrMeaning.OtherLengthsAdmitOneAddress | src/routing/route_snapshot.cpp:69-70 | any other length admits the prefix address alone: never wrong when it admits, and below 32 some member is always missed |
| RateLimiting.RateLimiter.constructor | src/resilience/rate_limiter.cpp:8-11 | starts with a full bucket and an empty run |
| RateLimiting.RateLimiter.CheckAllow | src/resilience/rate_limiter.cpp:13-30 | allows exactly when every window ending at this call has room for one more, burst and rate written out; the tokens seen are the least headroom of all windows; the run stays greedy |
| RateLimiting.RateLimiter.Reset | src/resilience/rate_limiter.cpp:32-35 | starts a new run with a full bucket |
| RateLimiting.RefillIsLeastHeadroom | src/resilience/rate_limiter.cpp:18-21 | one refill turns the least headroom at one call into the least headroom, over all windows, at the next |
| RateLimiting.DecisionKeepsBucket | src/resilience/rate_limiter.cpp:23-29 | deciding by "at least one token" is the greedy decision and leaves the bucket consistent |
| RateLimiting.GreedyConforms | src/resilience/rate_limiter.cpp:13-30 | no window of calls admits more than burst + rate * length |
| RateLimiting.AdmittedExactlyWhenHarmless | src/resilience/rate_limiter.cpp:23-29 | a call is admitted if and only if admitting it keeps every window within its bound |
| RateLimiting.GreedyIsOptimal | src/resilience/rate_limiter.cpp:13-30 | no other decision sequence that respects every window has admitted more calls at any prefix of any run |
| RateLimiting.GreedyIsUnique | src/resilience/rate_limiter.cpp:13-30 | call times determine all decisions |
| RateLimiting.EveryIntervalIsBounded | src/resilience/rate_limiter.cpp:13-30 | over any interval of time, not just between calls, at most burstSize + requestsPerSecond * length calls are admitted |
| RateLimiting.AllowedExactlyWhenRoom | src/resilience/rate_limiter.cpp:18-29 | in every run, a call is admitted exactly when for each earlier call the admissions since then, and this one, are within burstSize + requestsPerSecond * time since then |
| RateLimiting.SpacedCallIsAllowed | src/resilience/rate_limiter.cpp:18-26 | with any burst the first call is admitted, and each that comes at least 1/requestsPerSecond after the one before it |
| RateLimiting.TokensAreEarned | src/resilience/rate_limiter.cpp:18-21 | d seconds after any call the bucket holds at most what has been left of the burst since that call and requestsPerSecond * d |
| RateLimiting.TokensReach | src/resilience/rate_limiter.cpp:18-21 | and d seconds after the last call no less than requestsPerSecond * d, up to the burst |
| CircuitBreaking.CircuitBreaker.constructor | src/resilience/circuit_breaker.cpp:7-8 | starts Closed with an empty log |
| CircuitBreaking.CircuitBreaker.AllowRequest | src/resilience/circuit_breaker.cpp:10-31 | extends the log by a request, keeps the fields in agreement with it, and allows unless the state is Open |
| CircuitBreaking.CircuitBreaker.RecordSuccess | src/resilience/circuit_breaker.cpp:33-46 | extends the log by a success and keeps the fields in agreement with it |
| CircuitBreaking.CircuitBreaker.RecordFailure | src/resilience/circuit_breaker.cpp:48-66 | extends the log by a failure and keeps the fields in agreement with it |
| CircuitBreaking.FieldsFollowResults | src/resilience/circuit_breaker.cpp:33-85 | the two counters make exactly the transition the results call for (a run of failures, an unbroken run of successes, the first failure), and neither 32-bit counter wraps |
| CircuitBreaking.EventKeepsFields | src/resilience/circuit_breaker.cpp:10-85 | after every event the state is the function of the log, and the fields hold what the log says |
| CircuitBreaking.TrailingFailuresMeaning | src/resilience/circuit_breaker.cpp:54-58 | the failure count reaches n exactly when the last n results are all failures |
| CircuitBreaking.HistoryIsUnique | src/resilience/circuit_breaker.cpp:10-85 | a log leads through one sequence of states |
| CircuitBreaking.ClosedTripsExactlyWhen | src/resilience/circuit_breaker.cpp:54-58 | Closed trips exactly at a failure that makes the last failureThreshold results (one, if that is zero) since it was closed all failures |
| CircuitBreaking.HalfOpenEndsExactlyWhen | src/resilience/circuit_breaker.cpp:40-45 | HalfOpen opens exactly at a failure, and closes exactly when successThreshold results (one, if that is zero) have come and all were successes |
| CircuitBreaking.FailuresInARowTrip | src/resilience/circuit_breaker.cpp:48-60 | a new breaker that sees failures only stays Closed before the failureThreshold-th and is Open after it |
| CircuitBreaking.NoRequestBeforeTimeout | src/resilience/circuit_breaker.cpp:15-27 | no request is allowed less than the time-out after a trip, whole-second truncation included |
| CircuitBreaking.FirstLateRequestProbes | src/resilience/circuit_breaker.cpp:21-24 | the first request at or after the time-out is allowed and makes the state HalfOpen |
| CircuitBreaking.TripsAreSpaced | src/resilience/circuit_breaker.cpp:15-27 | two trips are at least the time-out apart |
| CircuitBreaking.TripsPerWindow | src/resilience/circuit_breaker.cpp:68-73 | n trips in a stretch of the log take at least (n - 1) time-outs |
| CircuitBreaking.ClosedThroughHalfOpen | src/resilience/circuit_breaker.cpp:75-85 | Open reaches Closed only through HalfOpen |
| SnapshotPublication.StepKeepsInv | include/netp2/config/config_snapshot.h:43-57 | every step of every thread keeps: counts equal owners, writers exclude readers, what was read is still current while the lock is held |
| SnapshotPublication.NothingHeldIsFreed | include/netp2/config/config_snapshot.h:43-57 | in every interleaving, no snapshot that a thread owns, or has read but not counted yet, is freed |
| SnapshotPublication.FreedExactlyWhenUnowned | include/netp2/config/config_snapshot.h:41-42 | a snapshot is freed if and only if it is not current and nobody owns it |
| SnapshotPublication.LoadIsLinearizable | include/netp2/config/config_snapshot.h:54-57 | for every load that has returned: the step in which that very load was called and a later one at which it read the pointer, at which the snapshot it returned was the last published; the thread is in that load, or uses what it returned, throughout |
| SnapshotPublication.LoadsNeverGoBack | include/netp2/config/config_snapshot.h:43-57 | one thread's loads never go back in the order of publication |
| SnapshotRuns.AssignPublishes | include/netp2/config/config_snapshot.h:43-46 | the one step of `publish` that counts makes current the reference that its caller had when it called, and the thread is in that publish from the call on |
| SnapshotRuns.OnlyAssignPublishes | include/netp2/config/config_snapshot.h:43-57 | no other step, of a reader or of anyone else, changes what is current |
| SnapshotRuns.VersionsArePublished | include/netp2/config/config_snapshot.h:43-46 | every version was made current by such a step, with the reference its publisher had at the call |
| SnapshotRuns.LoadReturnsLastPublished | include/netp2/config/config_snapshot.h:54-57 | a load returns the reference that the last publisher before the moment it read the pointer had at its call, and null if there was none |
| SnapshotRuns.LoadIsNotNull | src/runtime/spine.cpp:85-105 | if nobody has called `publish` with null, a load called after a publication returns a snapshot |
| SnapshotRuns.TablesAreAsBuilt | src/runtime/spine.cpp:86-105 | the rules of a snapshot are those it was built with |
| SnapshotRuns.RequestSeesPublishedRules | src/runtime/spine.cpp:238-244 | a request is answered from the rules with which one snapshot was built, the one published last before a step of that request, which is still alive |
| SnapshotRuns.CallsGoOn | include/netp2/config/config_snapshot.h:43-57 | a thread inside a call can take its next step, but for a publisher that waits for lock holders and a reader that waits for a publisher; readers never wait for readers |
| SnapshotRuns.NoDeadlock | include/netp2/config/config_snapshot.h:43-57 | as long as some thread is inside a call, some thread inside a call can take its next step |
| SnapshotRuns.CallersMayAct | include/netp2/config/config_snapshot.h:43-57 | outside a call a thread may always build, publish, load, hand on and drop |
| SnapshotRuns.LoadersMayAnswer | src/runtime/spine.cpp:238-244 | with a snapshot it has loaded a thread may answer any request in any way that snapshot's rules allow |
| SnapshotRuns.PublishCanFinish | include/netp2/config/config_snapshot.h:43-46 | when the lock is free, an owner can publish, and its snapshot is then current |
| SnapshotRuns.LoadCanReturn | include/netp2/config/config_snapshot.h:54-57 | when the lock is free, a thread can load, and then uses the current snapshot |
| SnapshotRuns.FirstPublicationIsLoaded | src/runtime/spine.cpp:105-110 | from the start: what is built and published first is what the first load returns, alive |
| SnapshotPublication.RequestSeesOneVersion | src/runtime/spine.cpp:238-244 | the snapshot a request was answered from was current at a step of that very request, after its call of `load`, and is still alive, whatever is published meanwhile (that the answer is one of that snapshot's rules is the guard of the step that gives it) |
| SnapshotPublication.ReadMoment | include/netp2/config/config_snapshot.h:54-57 | finds, after the call of a load, the step at which that load read the pointer |
| SnapshotPublication.LoadBegan | include/netp2/config/config_snapshot.h:54-57 | finds the call of the load a thread is in, or whose result it uses, and the version current at that call |
| ConnectionPools.ConnectionPool.BorrowPooled | src/upstream/connection_pool.cpp:46-62 | hands out the last healthy connection of the key's pool, which is open and was idle for no more than the time-out, marked as used now; those behind it are destroyed, those before it stay; nothing else changes, and every pooled connection stays in exactly one slot of one pool |
| ConnectionPools.ConnectionPool.CreateNewConnection | src/upstream/connection_pool.cpp:64-66 | the part of a borrow after it resumes: a new connection that belongs to the borrower, or none |
| ConnectionPools.DroppedMeaning | src/upstream/connection_pool.cpp:61 | exactly the connections behind the one handed out are destroyed |
| ConnectionPools.ConnectionPool.ReturnConnection | src/upstream/connection_pool.cpp:69-89 | a healthy connection goes to the end of the pool it is returned to if there is room, any other is destroyed; null changes nothing |
| ConnectionPools.ConnectionPool.CleanupIdleConnections | src/upstream/connection_pool.cpp:91-101 | every pool keeps exactly its healthy connections in order, and the others are destroyed |
| ConnectionPools.ConnectionPool.KeepHealthy | src/upstream/connection_pool.cpp:93-99 | the elements kept are the healthy ones, in order |
| ConnectionPools.UpstreamConnection.MarkUsed | src/upstream/connection_pool.cpp:38-40 | sets the time of last use |
| ConnectionPools.PoolKeyInjective | src/upstream/connection_pool.cpp:138-140 | different hosts or ports never share a pool, whatever characters the host contains |
| ConnectionPools.PopIsLastHealthy | src/upstream/connection_pool.cpp:50-62 | popping yields the last healthy connection and keeps what is before it |
| ConnectionPools.PopOfUnhealthy | src/upstream/connection_pool.cpp:50-62 | a pool without a healthy connection is emptied and yields none |
| PoolRuns.ConnectionsAreConserved | src/upstream/connection_pool.cpp:46-101 | in every run with suspended borrows, every connection ever created is in exactly one slot of one pool, or lent, or destroyed, and no pool is over its limit |
| PoolRuns.LentWasHealthyOrNew | src/upstream/connection_pool.cpp:50-66 | a connection that comes to be lent is new, or was pooled under the key asked for and healthy at that moment; it was held by nobody and had not been destroyed |
| PoolRuns.DestroyedForGood | src/upstream/connection_pool.cpp:61-87 | a destroyed connection is never pooled or lent again |
| PoolRuns.GivenBackBetween | src/upstream/connection_pool.cpp:69-89 | a lent connection is pooled again only after a step that gives that connection back |
| PoolRuns.StepKeepsPartition | src/upstream/connection_pool.cpp:46-101 | every step keeps the partition of connections |
| PoolRuns.StepKeepsLimit | src/upstream/connection_pool.cpp:83-88 | every step keeps every pool within its limit |
| PoolRuns.StepKeepsPast | src/upstream/connection_pool.cpp:22-23 | no pooled or lent connection was ever used later than now |
| PoolRuns.NothingLimitsLent | src/upstream/connection_pool.cpp:46-66 | for every limit, key and n, a run in which n connections are lent under that key: the limit never bounds what is lent |
| PoolMeaning.ReusedWasUsable | src/upstream/connection_pool.cpp:50-58 | in every run, a connection taken out of a pool was open and had been idle for less than idle_timeout + 1 ms |
| PoolMeaning.UsableIsReused | src/upstream/connection_pool.cpp:50-66 | in every run, a borrow hands one out exactly if its pool holds such a connection, and otherwise suspends for a new one |
| PoolMeaning.ShutIsForGood | src/upstream/connection_pool.cpp:30-33 | in every run, a connection whose socket is closed is never handed out again and enters no pool again |
| PoolMeaning.BorrowIsUsable | src/upstream/connection_pool.cpp:50-62 | a borrow finds a connection exactly if the pool holds one that is open and not idle for longer, and hands out such a one |
| PoolMeaning.ReturnKeepsUsable | src/upstream/connection_pool.cpp:75-88 | a connection given back is kept, at the end, exactly if it is open, not idle for longer, and there is room |
| PoolMeaning.CleanupKeepsUsable | src/upstream/connection_pool.cpp:91-101 | a cleanup keeps exactly the connections that are open and not idle for longer |
| PoolMeaning.NowIsWaited | src/upstream/connection_pool.cpp:21-23 | the time idle is counted against is the time that has passed in the run |
| DecimalText.NumberOfDecimal | src/upstream/connection_pool.cpp:138-140 | the digits of a port are its decimal digits |
| PoolSteps.Borrow | src/upstream/connection_pool.cpp:46-62 | what a borrow leaves in the pools on the heap is what the step of the runs leaves there |
| PoolSteps.Resume | src/upstream/connection_pool.cpp:64-66 | the same when a borrow resumes, with the number of connections created |
| PoolSteps.Return | src/upstream/connection_pool.cpp:69-89 | the same for giving a connection back |
| PoolSteps.CleanUp | src/upstream/connection_pool.cpp:91-101 | the same for a cleanup |
| PoolCleanups.UnhealthyStays | src/upstream/connection_pool.cpp:20-36 | a pooled connection that is unhealthy never becomes healthy again |
| PoolCleanups.CleanupIsInvisible | src/upstream/connection_pool.cpp:91-101 | cleanups put anywhere into a run leave it possible and change nothing a borrower is told, if the returns find room without them |
| PoolCleanups.NoReturnsFindRoom | src/upstream/connection_pool.cpp:69-89 | in particular for every run without returns |
| PoolCleanups.ThinnedPop | src/upstream/connection_pool.cpp:50-62 | pools that differ only in unhealthy connections give a borrow the same connection, and still differ only so afterwards |
| PoolCleanups.CleanupInvisibleExactlyWhen | src/upstream/connection_pool.cpp:83-101 | in every reachable state, no run that goes on from it can tell whether a cleanup came first if and only if all pooled connections are healthy, or the idle time-out is negative |
| PoolCleanups.FullPoolShowsCleanup | src/upstream/connection_pool.cpp:83-101 | otherwise some run tells: new connections fill the pool, each made by a borrow and given back once, and the last one given back is kept with the cleanup and dropped without it |
| PoolCleanups.NothingIsReused | src/upstream/connection_pool.cpp:20-36 | with a negative time-out no connection is ever reused |
| Metrics.MetricsRegistry.CreateWorkerShard | src/observability/metrics.cpp:20-25 | appends a live shard whose counters are zero |
| Metrics.MetricsRegistry.RecordAccept | src/observability/metrics.cpp:35-40 | adds one accept; nothing if the thread has no shard |
| Metrics.MetricsRegistry.RecordRequest | src/observability/metrics.cpp:42-49 | adds one request and its bytes, the words agreeing with the true totals modulo 2^64 |
| Metrics.MetricsRegistry.RecordResponse | src/observability/metrics.cpp:51-66 | adds one response to the class of its status, if it has one, and its bytes |
| Metrics.RecordedCounters | src/observability/metrics.cpp:35-66 | which counter each recording adds to, the class of a response by the first digit of its status, and that no other counter changes |
| Metrics.ClassIsFirstDigit | src/observability/metrics.cpp:56-62 | a status is counted as 2xx, 4xx or 5xx exactly when its hundreds are 2, 4 or 5 |
| Metrics.CountersWrap | include/netp2/observability/metrics.h:12-20 | a counter has 64 bits: one more than 18446744073709551615 is 0 |
| Metrics.MetricsRegistry.SumShards | src/observability/metrics.cpp:68-92 | with no recorder at work, each of the seven sums is the true total over the live shards modulo 2^64 |
| MetricsRuns.EveryStatusIsCounted | include/netp2/protocol/request_context.h:60-80 | every status a request can be answered with is one of 200, 400, 404, 405, 431, 500 and so falls in a counted class |
| MetricsRuns.AnswersAreCounted | src/runtime/spine.cpp:215-256 | a matched request is answered 200 and counted 2xx, an unmatched one 404, a method other than GET 405, a header limit 431, all counted 4xx, and an internal error 500, counted 5xx; nothing else is counted with it |
| MetricsRuns.StagesCarry | src/runtime/spine.cpp:197-275 | the bytes received, the answer and its size are carried unchanged to where they are counted |
| MetricsRuns.NextShare | src/runtime/spine.cpp:205-275 | each step of a connection adds to the counters exactly what its progress adds to its share |
| MetricsRuns.StepsRecord | src/observability/metrics.cpp:42-66 | the separate atomic steps of recording a request or a response add up to what the whole operation records |
| MetricsRuns.CountersAreExact | src/runtime/spine.cpp:156-275 | in every interleaving each counter of each worker is the sum of what its accept loop and its connections have added, bytes included |
| MetricsRuns.CounterOrder | src/runtime/spine.cpp:174-275 | per worker, at every moment: accepts >= requests >= 2xx + 4xx + 5xx, and the class sum plus the writes not yet counted is the number of responses written |
| MetricsRuns.TotalsInOrder | src/runtime/spine.cpp:174-275 | the same order of the totals over the live shards |
| MetricsRuns.StepGrows | src/observability/metrics.cpp:35-66 | counters only go up, and a shard that is gone stays gone and keeps its counts |
| MetricsRuns.ScrapingKeepsScrape | src/observability/metrics.cpp:79-91 | reading one counter of one shard, or skipping one that is gone, keeps the partial sums bracketed |
| MetricsRuns.RecordingKeepsScrape | src/observability/metrics.cpp:35-91 | recording while a scrape is under way keeps the partial sums bracketed |
| MetricsRuns.ScrapeWithinTotals | src/observability/metrics.cpp:77-92 | in every interleaving, workers stopping included, each reported counter lies between what the surviving shards had at the start and what the shards alive at the start have at the end, unless the latter reaches 2^64 |
| MetricsRuns.ScrapeWithinTrueTotals | src/observability/metrics.cpp:77-92 | with the same shards alive throughout, those bounds are the true totals at the start and at the end |
| MetricsRuns.QuietScrapeIsSum | src/observability/metrics.cpp:77-92 | a scrape during which nothing is recorded reports the same sums as the sequential loop |
| MetricsRuns.ScrapesAreMonotone | src/observability/metrics.cpp:77-92 | a later scrape never reports less, if the shards the earlier one began with are still alive |
| MetricsRuns.ScrapeMoments | src/observability/metrics.cpp:77-92 | start and end are moments of the run: when the scrape took the lock and when it released it |
| MetricsScrapes.OrderedExactlyWhenAlone | src/observability/metrics.cpp:77-92 | in every reachable state in which a worker has just begun a scrape (accepts not about to wrap): every way of going on reports accepts >= requests >= 2xx + 4xx + 5xx if and only if no other worker is alive |
| MetricsScrapes.AloneIsOrdered | src/runtime/spine.cpp:227-235 | a worker that scrapes does nothing else, so that alone it reports the totals, which are ordered |
| MetricsScrapes.AnotherWorkerTears | src/observability/metrics.cpp:84-85 | from every such state with another live worker, a run in which that worker counts requests between the reads of its accepts and its requests, so that more requests than accepts are reported |
| MetricsScrapes.TornScrape | src/observability/metrics.cpp:84-85 | such a run from the start, with two workers, one of which scrapes for a connection of its own |
| MetricsScrapes.ScraperAlwaysWaits | src/runtime/spine.cpp:227-235 | while a scrape is under way its worker is alive and its connection waits for the page |
| HeaderAssembly.HeaderAssembler.constructor | src/protocol/http1_codec.cpp:47-62 | the state in which parsing starts |
| HeaderAssembly.HeaderAssembler.OnHeaderField | src/protocol/http1_codec.cpp:130-148 | one piece of a name: saves the header before it if that has a value, and reports when the bytes exceed the limit |
| HeaderAssembly.HeaderAssembler.OnHeaderValue | src/protocol/http1_codec.cpp:150-162 | one piece of a value, and reports when the bytes exceed the limit |
| HeaderAssembly.HeaderAssembler.OnComplete | src/protocol/http1_codec.cpp:164-179 | saves the last header and reports when there are more distinct names than allowed |
| HeaderAssembly.HeaderAssembler.SaveCurrentHeader | src/protocol/http1_codec.cpp:194-221 | the context stays the last-wins fold over the headers saved, whose keys are lower-case (see the rows on the case of letters) |
| HeaderAssembly.AssemblyIgnoresFragmentation | src/protocol/http1_codec.cpp:130-179 | for every way of cutting up the headers, the error and the headers saved depend on the whole names and values alone; the trace completes exactly when bytes and distinct names stay within the limits |
| HeaderAssembly.AcceptedExactlyWhen | src/protocol/http1_codec.cpp:141-176 | a header block is accepted exactly when the bytes of its names and values, and its distinct names, are within the limits |
| HeaderAssembly.FragmentationsLeaveTheSame | src/protocol/http1_codec.cpp:130-221 | two assemblers that were given the same headers cut up in different ways hold the same map, host and content length, and the same error, also when the headers are refused |
| HeaderAssembly.RunTrace | src/protocol/http1_codec.cpp:130-179 | the same from any state with no error so far, for the rest of a header block |
| HeaderAssembly.SavesWhatWasSent | src/protocol/http1_codec.cpp:134-136 | the headers saved are the headers sent if and only if none but the last has an empty value and the last has a name |
| HeaderAssembly.EmptyValueGluesNames | src/protocol/http1_codec.cpp:134-138 | two headers, the first without a value, that are saved as one |
| HeaderAssembly.LastHeaderWins | src/protocol/http1_codec.cpp:216-217 | the map holds exactly the lower-cased names, each with the value of its last header (section 5.1 of RFC 9110 for the case of names) |
| HeaderAssembly.LastHostWins | src/protocol/http1_codec.cpp:201-204 | the host is the value of the last Host header |
| HeaderAssembly.LastLengthWins | src/protocol/http1_codec.cpp:206-214 | the content length is that of the last Content-Length that can be read as a number |
| HeaderAssembly.LowerIgnoresCase | src/protocol/http1_codec.cpp:18-24 | names are one key exactly when they agree letter by letter, case aside; lowering is idempotent |
| HeaderAssembly.SameNamesAreOneKey | src/protocol/http1_codec.cpp:18-24 | two names are one key exactly when at each place they have the same character, or the same ASCII letter in either case |
| HeaderAssembly.LowerNamesAreKeys | src/protocol/http1_codec.cpp:18-24 | a name is its own key exactly when it has no upper-case letter |
| HeaderAssembly.KeysAreLower | src/protocol/http1_codec.cpp:199-217 | no key of the map has an upper-case letter |
| HeaderAssembly.ValueInAnyCase | src/protocol/http1_codec.cpp:199-217 | the last header whose name reads so in any mixture of cases has its value under the lower-case name, and one that reads `host` sets the host |
| HeaderAssembly.NoHostHeaderNoHost | src/protocol/http1_codec.cpp:201-204 | nothing else sets the host |
| HeaderAssembly.LengthInAnyCase | src/protocol/http1_codec.cpp:206-214 | the last readable value of a header that reads `content-length` in any mixture of cases is the content length |
| HeaderAssembly.NoLengthHeaderNoLength | src/protocol/http1_codec.cpp:206-214 | without such a header there is none |

## Left out

- Floating-point rounding in the rate limiter: tokens and seconds are `real`.
- The parser library llhttp, the mapping of its errors, the body, and the text of responses: not part of this model. The callbacks are the input of header assembly; whether a limit error surfaces as 431 or 500 depends on that library.
- `std::stoull` is a parameter of header assembly that either yields a number or fails.
- Sockets, name resolution and connecting: creation of a connection succeeds or fails, and a socket may close at any step. Peer data and acceptors are steps of the environment.
- C++ memory orders: each atomic operation is one sequentially consistent step.
- ConfigSnapshotManager is a step system over values rather than a class: its point is the interleaving of lock, pointer and count, which a class in sequential Dafny cannot show. A load that finds no snapshot is not followed by an answer (the source would dereference null there).
- The concurrent runs of metrics (`MetricsRuns.dfy`) and of the pool (`PoolRuns.dfy`) are step systems over values; the classes beside them carry the heap form of single operations, tied to the steps by `MetricsRuns.StepsRecord` and `PoolSteps.dfy`.
- A borrower that marks a connection as used itself: nothing in the repository does. Connections may be given back under any host and port, as the interface allows.
- RouteSnapshots.RouteSnapshot.AddRule: rules are added before `finalize` only, since the trie keeps pointers into the rule list and adding one later may leave them dangling.
- RouteSnapshots.SortByPriority: `std::sort` is stood for by an insertion whose callers know only "a sorted permutation", so ties in priority stay open.
- CircuitBreaking.CircuitBreaker.Reset: a reset starts a new log; no claim spans it.
- RateLimiting.RateLimiter.CheckAllow: expects the steady clock not to go back, and ignores the route key as the source does.
- `create_time_` and `connect_timeout` of connections: kept by the source but never read.
- The sums of header bytes and of `size_t` values are unbounded.
- Thread start, join and signal handling in `src/runtime/gateway_runtime.cpp` and `src/app/main.cpp`, and the executor affinity checks beyond "a connection may be dropped": their claims are easy.
- What only the documentation describes (quota splitting, leaky bucket, active health probes, tracing, HTTP/2): there is no code for it.
