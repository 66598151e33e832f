/** Publishing and loading route snapshots under a reader/writer lock with shared ownership,
    as a system of small steps taken by any number of threads in any order.

    Reading the pointer and raising its count are separate steps, and so are replacing the
    current snapshot and releasing the one it replaces. A request is a thread that loads a
    snapshot, answers from it, suspends while it holds it, and drops it.
  */
module SnapshotPublication {
  import opened CommonTypes
  import opened RouteRules
  import opened RouteTable

  type ThreadId = nat
  type SnapshotId = nat
  type Reference = Option<SnapshotId>

  datatype Request = Request(host: string, path: string, clientIp: string)

  /** Where a thread is. `since` is the version that was current when it called `load`, and
      `version` the one it read. */
  datatype Pc =
    | Idle
    | Owner(ref: Reference)
    // publish
    | Publishing(ref: Reference)
    | Locked(ref: Reference)
    | Swapped(ref: Reference)
    | Released
    // load
    | Loading(since: nat)
    | Shared(since: nat)
    | Read(since: nat, ref: Reference, version: nat)
    | Counted(since: nat, ref: Reference, version: nat)
    // after load has returned
    | Using(since: nat, ref: Reference, version: nat)
    | Answered(since: nat, ref: Reference, version: nat, request: Request, answer: RouteMatch)

  datatype State = State(
    tables: map<SnapshotId, seq<RouteRule>>,  // every snapshot ever built
    counts: map<SnapshotId, nat>,
    freed: set<SnapshotId>,
    current: Reference,
    writer: Option<ThreadId>,
    readers: set<ThreadId>,
    threads: map<ThreadId, Pc>,
    published: seq<Reference>,                // version 0 is the null pointer before any publication
    seen: map<ThreadId, nat>)                 // the version each thread read last

  const INITIAL := State(map[], map[], {}, None, None, {}, map[], [None], map[])

  datatype Action =
    | Build(t: ThreadId, id: SnapshotId, table: seq<RouteRule>)
    | Copy(t: ThreadId, to: ThreadId)
    | CallPublish(t: ThreadId)
    | CallPublishNull(t: ThreadId)
    | LockExclusive(t: ThreadId)
    | Assign(t: ThreadId)
    | ReleaseOld(t: ThreadId)
    | UnlockExclusive(t: ThreadId)
    | CallLoad(t: ThreadId)
    | LockShared(t: ThreadId)
    | ReadPointer(t: ThreadId)
    | RaiseCount(t: ThreadId)
    | UnlockShared(t: ThreadId)
    | Answer(t: ThreadId, request: Request, answer: RouteMatch)
    | Drop(t: ThreadId)

  function PcOf(threads: map<ThreadId, Pc>, t: ThreadId): Pc {
    if t in threads then threads[t] else Idle
  }

  /** The reference that counts as this thread's own. A pointer merely read does not. */
  function Owned(pc: Pc): Reference {
    match pc
    case Owner(ref) => ref
    case Publishing(ref) => ref
    case Locked(ref) => ref
    case Swapped(ref) => ref
    case Counted(_, ref, _) => ref
    case Using(_, ref, _) => ref
    case Answered(_, ref, _, _, _) => ref
    case _ => None
  }

  /** The reference the thread may follow, counted or not. */
  function Followed(pc: Pc): Reference {
    if pc.Read? then pc.ref else Owned(pc)
  }

  predicate HoldsExclusive(pc: Pc) {
    pc.Locked? || pc.Swapped? || pc.Released?
  }

  predicate HoldsShared(pc: Pc) {
    pc.Shared? || pc.Read? || pc.Counted?
  }

  // ----- steps ---------------------------------------------------------------------------------

  ghost predicate Enabled(s: State, a: Action) {
    var pc := PcOf(s.threads, a.t);
    s.published != [] &&
    match a
    case Build(_, id, _) => pc.Idle? && id !in s.tables
    case Copy(_, to) =>
      (pc.Owner? || pc.Using? || pc.Answered?) && Owned(pc).Some? && to != a.t && PcOf(s.threads, to).Idle?
    case CallPublish(_) => pc.Owner?
    case CallPublishNull(_) => pc.Idle?
    case LockExclusive(_) => pc.Publishing? && s.writer.None? && s.readers == {}
    case Assign(_) => pc.Locked?
    case ReleaseOld(_) => pc.Swapped?
    case UnlockExclusive(_) => pc.Released?
    case CallLoad(_) => pc.Idle?
    case LockShared(_) => pc.Loading? && s.writer.None?
    case ReadPointer(_) => pc.Shared?
    case RaiseCount(_) => pc.Read?
    case UnlockShared(_) => pc.Counted?
    case Answer(_, request, answer) =>
      && pc.Using? && pc.ref.Some? && pc.ref.value in s.tables
      && IsAnswer(s.tables[pc.ref.value], request.host, request.path, request.clientIp, answer)
    case Drop(_) => pc.Owner? || pc.Using? || pc.Answered?
  }

  function Raise(s: State, ref: Reference): State {
    if ref.None? || ref.value !in s.counts then s
    else s.(counts := s.counts[ref.value := s.counts[ref.value] + 1])
  }

  /** Gives up one reference; the last one frees the snapshot. */
  function Release(s: State, ref: Reference): State {
    if ref.None? || ref.value !in s.counts || s.counts[ref.value] == 0 then s
    else
      var left := s.counts[ref.value] - 1;
      s.(counts := s.counts[ref.value := left], freed := if left == 0 then s.freed + {ref.value} else s.freed)
  }

  function At(s: State, t: ThreadId, pc: Pc): State {
    s.(threads := s.threads[t := pc])
  }

  ghost function Next(s: State, a: Action): State
    requires Enabled(s, a)
  {
    var pc := PcOf(s.threads, a.t);
    match a
    case Build(t, id, table) =>
      At(s.(tables := s.tables[id := table], counts := s.counts[id := 1]), t, Owner(Some(id)))
    case Copy(t, to) => At(Raise(s, Owned(pc)), to, Owner(Owned(pc)))
    case CallPublish(t) => At(s, t, Publishing(pc.ref))
    case CallPublishNull(t) => At(s, t, Publishing(None))
    case LockExclusive(t) => At(s.(writer := Some(t)), t, Locked(pc.ref))
    case Assign(t) => At(s.(current := pc.ref, published := s.published + [pc.ref]), t, Swapped(s.current))
    case ReleaseOld(t) => At(Release(s, pc.ref), t, Released)
    case UnlockExclusive(t) => At(s.(writer := None), t, Idle)
    case CallLoad(t) => At(s, t, Loading(|s.published| - 1))
    case LockShared(t) => At(s.(readers := s.readers + {t}), t, Shared(pc.since))
    case ReadPointer(t) =>
      At(s.(seen := s.seen[t := |s.published| - 1]), t, Read(pc.since, s.current, |s.published| - 1))
    case RaiseCount(t) => At(Raise(s, pc.ref), t, Counted(pc.since, pc.ref, pc.version))
    case UnlockShared(t) => At(s.(readers := s.readers - {t}), t, Using(pc.since, pc.ref, pc.version))
    case Answer(t, request, answer) => At(s, t, Answered(pc.since, pc.ref, pc.version, request, answer))
    case Drop(t) => At(Release(s, Owned(pc)), t, Idle)
  }

  // ----- what every state keeps ------------------------------------------------------------------

  ghost function Holders(threads: map<ThreadId, Pc>, id: SnapshotId): set<ThreadId> {
    set t | t in threads && Owned(threads[t]) == Some(id)
  }

  ghost function References(s: State, id: SnapshotId): nat {
    |Holders(s.threads, id)| + if s.current == Some(id) then 1 else 0
  }

  /** A count is the number of owners, and a snapshot is freed exactly when it has none. */
  ghost predicate CountsAreExact(s: State) {
    && s.counts.Keys == s.tables.Keys
    && s.freed <= s.tables.Keys
    && (forall id | id in s.counts :: s.counts[id] == References(s, id))
    && (forall id | id in s.counts :: id in s.freed <==> s.counts[id] == 0)
  }

  ghost predicate KnownReferences(s: State) {
    && (s.current.Some? ==> s.current.value in s.tables)
    && forall t | t in s.threads && Followed(s.threads[t]).Some? :: Followed(s.threads[t]).value in s.tables
  }

  ghost predicate LocksAreExclusive(s: State) {
    && (s.writer.Some? ==> s.readers == {})
    && (forall t: ThreadId :: s.writer == Some(t) <==> HoldsExclusive(PcOf(s.threads, t)))
    && (forall t: ThreadId :: t in s.readers <==> HoldsShared(PcOf(s.threads, t)))
  }

  /** The version a thread has read is one that was current between its call and now; while it
      holds the lock that version still is. */
  ghost predicate LoadIsCurrent(s: State, t: ThreadId)
    requires s.published != []
  {
    var now := |s.published| - 1;
    match PcOf(s.threads, t)
    case Loading(since) => since <= now
    case Shared(since) => since <= now
    case Read(since, ref, version) => since <= version == now && ref == s.current && SeenIs(s, t, version)
    case Counted(since, ref, version) => since <= version == now && ref == s.current && SeenIs(s, t, version)
    case Using(since, ref, version) =>
      since <= version <= now && ref == s.published[version] && SeenIs(s, t, version)
    case Answered(since, ref, version, request, answer) =>
      && since <= version <= now && ref == s.published[version] && SeenIs(s, t, version)
      && ref.Some? && ref.value in s.tables
      && IsAnswer(s.tables[ref.value], request.host, request.path, request.clientIp, answer)
    case _ => true
  }

  ghost predicate SeenIs(s: State, t: ThreadId, version: nat) {
    t in s.seen && s.seen[t] == version
  }

  ghost predicate LoadsAreCurrent(s: State) {
    && s.published != []
    && s.published[|s.published| - 1] == s.current
    && s.published[0] == None
    && (forall t: ThreadId :: LoadIsCurrent(s, t))
    && (forall t | t in s.seen :: s.seen[t] < |s.published|)
  }

  ghost predicate Inv(s: State) {
    CountsAreExact(s) && KnownReferences(s) && LocksAreExclusive(s) && LoadsAreCurrent(s)
  }

  lemma InitialHolds()
    ensures Inv(INITIAL)
  {
  }

  /** How the owners of a snapshot change when one thread moves. */
  lemma HoldersAfterMove(threads: map<ThreadId, Pc>, t: ThreadId, pc: Pc, id: SnapshotId)
    ensures |Holders(threads[t := pc], id)|
            == |Holders(threads, id)| - (if Owned(PcOf(threads, t)) == Some(id) then 1 else 0)
               + (if Owned(pc) == Some(id) then 1 else 0)
  {
    var before, after := Holders(threads, id), Holders(threads[t := pc], id);
    var others := before - {t};
    assert others == after - {t};
    SizeWithout(before, t);
    SizeWithout(after, t);
  }

  lemma SizeWithout(threads: set<ThreadId>, t: ThreadId)
    ensures |threads| == |threads - {t}| + if t in threads then 1 else 0
  {
  }

  lemma HolderHasCount(s: State, t: ThreadId)
    requires CountsAreExact(s) && KnownReferences(s) && t in s.threads && Owned(s.threads[t]).Some?
    ensures var id := Owned(s.threads[t]).value; id in s.counts && s.counts[id] >= 1 && id !in s.freed
  {
    var id := Owned(s.threads[t]).value;
    assert Followed(s.threads[t]) == Some(id);
    assert t in Holders(s.threads, id);
  }

  lemma CurrentHasCount(s: State)
    requires CountsAreExact(s) && KnownReferences(s) && s.current.Some?
    ensures s.current.value in s.counts && s.counts[s.current.value] >= 1 && s.current.value !in s.freed
  {
  }

  /** The thread an action moves. */
  function Moved(a: Action): ThreadId {
    if a.Copy? then a.to else a.t
  }

  lemma OneThreadMoves(s: State, a: Action)
    requires Enabled(s, a)
    ensures var threads := Next(s, a).threads;
            Moved(a) in threads && threads == s.threads[Moved(a) := threads[Moved(a)]]
  {
  }

  /** Counts stay exact when they change by what the moving thread and `current` gain and lose. */
  lemma CountsAfterMove(s: State, s': State, t: ThreadId)
    requires CountsAreExact(s) && t in s'.threads && s'.threads == s.threads[t := s'.threads[t]]
    requires s'.counts.Keys == s'.tables.Keys == s.tables.Keys
    requires forall id | id in s'.counts ::
               s'.counts[id] + (if Owned(PcOf(s.threads, t)) == Some(id) then 1 else 0)
               + (if s.current == Some(id) then 1 else 0)
               == s.counts[id] + (if Owned(s'.threads[t]) == Some(id) then 1 else 0)
                  + (if s'.current == Some(id) then 1 else 0)
    requires s'.freed <= s'.tables.Keys && forall id | id in s'.counts :: id in s'.freed <==> s'.counts[id] == 0
    ensures CountsAreExact(s')
  {
    forall id | id in s'.counts
      ensures s'.counts[id] == References(s', id)
    {
      HoldersAfterMove(s.threads, t, s'.threads[t], id);
    }
  }

  predicate ChangesCounts(a: Action) {
    a.Build? || a.Copy? || a.ReleaseOld? || a.RaiseCount? || a.Drop?
  }

  lemma QuietStepKeepsCounts(s: State, a: Action)
    requires CountsAreExact(s) && Enabled(s, a) && !ChangesCounts(a)
    ensures CountsAreExact(Next(s, a))
  {
    OneThreadMoves(s, a);
    CountsAfterMove(s, Next(s, a), a.t);
  }

  lemma ReleaseMeaning(s: State, ref: Reference)
    requires CountsAreExact(s)
    requires ref.Some? ==> ref.value in s.counts && s.counts[ref.value] >= 1
    ensures var s' := Release(s, ref);
            && s' == s.(counts := s'.counts, freed := s'.freed)
            && s'.counts.Keys == s.counts.Keys && s'.freed <= s.tables.Keys
            && (forall id | id in s'.counts :: s'.counts[id] + (if ref == Some(id) then 1 else 0) == s.counts[id])
            && (forall id | id in s'.counts :: id in s'.freed <==> s'.counts[id] == 0)
  {
  }

  lemma ReleaseKeepsCounts(s: State, t: ThreadId, pc: Pc)
    requires CountsAreExact(s) && KnownReferences(s) && t in s.threads && Owned(pc).None?
    ensures CountsAreExact(At(Release(s, Owned(s.threads[t])), t, pc))
  {
    var ref := Owned(s.threads[t]);
    if ref.Some? {
      HolderHasCount(s, t);
    }
    ReleaseMeaning(s, ref);
    var released := Release(s, ref);
    CountsAfterMove(s, released.(threads := s.threads[t := pc]), t);
  }

  lemma CopyKeepsCounts(s: State, a: Action)
    requires CountsAreExact(s) && KnownReferences(s) && Enabled(s, a) && a.Copy?
    ensures CountsAreExact(Next(s, a))
  {
    HolderHasCount(s, a.t);
    CountsAfterMove(s, Next(s, a), a.to);
  }

  /** The count is raised from at least one: the pointer read is still the current one. */
  lemma RaiseKeepsCounts(s: State, a: Action)
    requires CountsAreExact(s) && KnownReferences(s) && LoadsAreCurrent(s) && Enabled(s, a) && a.RaiseCount?
    ensures CountsAreExact(Next(s, a))
  {
    assert LoadIsCurrent(s, a.t);
    if s.current.Some? {
      CurrentHasCount(s);
    }
    CountsAfterMove(s, Next(s, a), a.t);
  }

  lemma BuildKeepsCounts(s: State, a: Action)
    requires CountsAreExact(s) && KnownReferences(s) && Enabled(s, a) && a.Build?
    ensures CountsAreExact(Next(s, a))
  {
    var s' := Next(s, a);
    forall t | t in s.threads
      ensures Owned(s.threads[t]) != Some(a.id)
    {
      assert Followed(s.threads[t]).Some? ==> Followed(s.threads[t]).value in s.tables;
    }
    assert Holders(s.threads, a.id) == {};
    forall id | id in s'.counts
      ensures s'.counts[id] == References(s', id)
    {
      HoldersAfterMove(s.threads, a.t, s'.threads[a.t], id);
    }
  }

  lemma StepKeepsCounts(s: State, a: Action)
    requires Inv(s) && Enabled(s, a)
    ensures CountsAreExact(Next(s, a))
  {
    if !ChangesCounts(a) {
      QuietStepKeepsCounts(s, a);
    } else if a.Build? {
      BuildKeepsCounts(s, a);
    } else if a.ReleaseOld? || a.Drop? {
      ReleaseKeepsCounts(s, a.t, if a.Drop? then Idle else Released);
    } else if a.Copy? {
      CopyKeepsCounts(s, a);
    } else {
      RaiseKeepsCounts(s, a);
    }
  }

  lemma StepKeepsReferences(s: State, a: Action)
    requires Enabled(s, a) && KnownReferences(s)
    ensures KnownReferences(Next(s, a))
  {
    var s', t := Next(s, a), Moved(a);
    OneThreadMoves(s, a);
    MovedReferenceIsKnown(s, a);
    assert s.tables.Keys <= s'.tables.Keys;
  }

  lemma MovedReferenceIsKnown(s: State, a: Action)
    requires Enabled(s, a) && KnownReferences(s)
    ensures var s', followed := Next(s, a), Followed(PcOf(Next(s, a).threads, Moved(a)));
            && (followed.Some? ==> followed.value in s'.tables)
            && (s'.current.Some? ==> s'.current.value in s'.tables)
            && s.tables.Keys <= s'.tables.Keys
  {
    var followed := Followed(PcOf(s.threads, a.t));
    assert followed.Some? ==> followed.value in s.tables;
  }

  predicate ChangesLocks(a: Action) {
    a.LockExclusive? || a.UnlockExclusive? || a.LockShared? || a.UnlockShared?
  }

  lemma LockStepKeepsLocks(s: State, a: Action)
    requires LocksAreExclusive(s) && Enabled(s, a) && ChangesLocks(a)
    ensures LocksAreExclusive(Next(s, a))
  {
  }

  lemma OtherStepKeepsLocks(s: State, a: Action)
    requires LocksAreExclusive(s) && Enabled(s, a) && !ChangesLocks(a)
    ensures LocksAreExclusive(Next(s, a))
  {
    var s', t := Next(s, a), Moved(a);
    OneThreadMoves(s, a);
    assert s'.writer == s.writer && s'.readers == s.readers;
    assert HoldsExclusive(s'.threads[t]) == HoldsExclusive(PcOf(s.threads, t));
    assert HoldsShared(s'.threads[t]) == HoldsShared(PcOf(s.threads, t));
  }

  lemma StepKeepsLocks(s: State, a: Action)
    requires Inv(s) && Enabled(s, a)
    ensures LocksAreExclusive(Next(s, a))
  {
    if ChangesLocks(a) {
      LockStepKeepsLocks(s, a);
    } else {
      OtherStepKeepsLocks(s, a);
    }
  }

  /** Publishing moves no reader: while the exclusive lock is held nobody is between reading and returning. */
  lemma AssignKeepsLoads(s: State, a: Action)
    requires Inv(s) && Enabled(s, a) && a.Assign?
    ensures LoadsAreCurrent(Next(s, a))
  {
    var s' := Next(s, a);
    forall t: ThreadId
      ensures LoadIsCurrent(s', t)
    {
      assert LoadIsCurrent(s, t);
      assert t !in s.readers;
    }
  }

  /** A thread that does not move stays current while nothing is published. */
  lemma StillCurrent(s: State, s': State, t: ThreadId)
    requires s.published != [] && LoadIsCurrent(s, t) && PcOf(s'.threads, t) == PcOf(s.threads, t)
    requires s'.published == s.published && s'.current == s.current
    requires t in s.seen ==> t in s'.seen && s'.seen[t] == s.seen[t]
    requires forall id | id in s.tables :: id in s'.tables && s'.tables[id] == s.tables[id]
    ensures LoadIsCurrent(s', t)
  {
  }

  lemma MovedLoadIsCurrent(s: State, a: Action)
    requires Enabled(s, a) && LoadsAreCurrent(s) && !a.Assign?
    ensures LoadIsCurrent(Next(s, a), Moved(a))
  {
    assert LoadIsCurrent(s, a.t);
  }

  lemma OtherStepKeepsLoads(s: State, a: Action)
    requires Enabled(s, a) && LoadsAreCurrent(s) && !a.Assign?
    ensures LoadsAreCurrent(Next(s, a))
  {
    var s' := Next(s, a);
    OneThreadMoves(s, a);
    forall t: ThreadId
      ensures LoadIsCurrent(s', t)
    {
      assert LoadIsCurrent(s, t);
      if t == Moved(a) {
        MovedLoadIsCurrent(s, a);
      } else {
        StillCurrent(s, s', t);
      }
    }
  }

  lemma StepKeepsLoads(s: State, a: Action)
    requires Inv(s) && Enabled(s, a)
    ensures LoadsAreCurrent(Next(s, a))
  {
    if a.Assign? {
      AssignKeepsLoads(s, a);
    } else {
      OtherStepKeepsLoads(s, a);
    }
  }

  lemma StepKeepsInv(s: State, a: Action)
    requires Inv(s) && Enabled(s, a)
    ensures Inv(Next(s, a))
  {
    StepKeepsCounts(s, a);
    StepKeepsReferences(s, a);
    StepKeepsLocks(s, a);
    StepKeepsLoads(s, a);
  }

  // ----- whole runs --------------------------------------------------------------------------------

  ghost predicate IsRun(states: seq<State>, actions: seq<Action>) {
    && |states| == |actions| + 1
    && states[0] == INITIAL
    && forall i | 0 <= i < |actions| :: Enabled(states[i], actions[i]) && states[i + 1] == Next(states[i], actions[i])
  }

  lemma {:induction false} RunKeepsInv(states: seq<State>, actions: seq<Action>, n: nat)
    requires IsRun(states, actions) && n <= |actions|
    ensures Inv(states[n])
  {
    if n == 0 {
      InitialHolds();
    } else {
      RunKeepsInv(states, actions, n - 1);
      StepKeepsInv(states[n - 1], actions[n - 1]);
    }
  }

  /** No thread ever has a freed snapshot in its hands, not even one it has read but not counted yet. */
  lemma NothingHeldIsFreed(states: seq<State>, actions: seq<Action>, n: nat, t: ThreadId)
    requires IsRun(states, actions) && n <= |actions|
    ensures var followed := Followed(PcOf(states[n].threads, t));
            followed.Some? ==> followed.value in states[n].tables && followed.value !in states[n].freed
  {
    RunKeepsInv(states, actions, n);
    var s := states[n];
    var pc := PcOf(s.threads, t);
    if pc.Read? && pc.ref.Some? {
      assert LoadIsCurrent(s, t);
      CurrentHasCount(s);
    } else if Owned(pc).Some? {
      HolderHasCount(s, t);
    }
  }

  /** A snapshot is freed exactly when it is not current and nobody owns it: none too early, none forgotten. */
  lemma FreedExactlyWhenUnowned(states: seq<State>, actions: seq<Action>, n: nat, id: SnapshotId)
    requires IsRun(states, actions) && n <= |actions| && id in states[n].tables
    ensures id in states[n].freed <==>
            states[n].current != Some(id) && forall t :: Owned(PcOf(states[n].threads, t)) != Some(id)
  {
    RunKeepsInv(states, actions, n);
    var s := states[n];
    assert id in s.counts;
    if s.current != Some(id) {
      if forall t :: Owned(PcOf(s.threads, t)) != Some(id) {
        forall t | t in s.threads ensures t !in Holders(s.threads, id) {
          assert Owned(PcOf(s.threads, t)) != Some(id);
        }
        assert Holders(s.threads, id) == {};
      } else {
        var t :| Owned(PcOf(s.threads, t)) == Some(id);
        assert t in Holders(s.threads, id);
      }
    }
  }

  datatype Loaded = Loaded(since: nat, ref: Reference, version: nat)

  /** What a thread has read in the load it is in, or has returned from. */
  function LoadOf(pc: Pc): Option<Loaded> {
    match pc
    case Read(since, ref, version) => Some(Loaded(since, ref, version))
    case Counted(since, ref, version) => Some(Loaded(since, ref, version))
    case Using(since, ref, version) => Some(Loaded(since, ref, version))
    case Answered(since, ref, version, _, _) => Some(Loaded(since, ref, version))
    case _ => None
  }

  predicate InLoad(pc: Pc) {
    pc.Loading? || pc.Shared? || LoadOf(pc).Some?
  }

  /** From step `c` on, in which it called `load`, the thread is in that load or uses what it returned. */
  ghost predicate LoadsSince(states: seq<State>, actions: seq<Action>, c: nat, n: nat, t: ThreadId)
    requires IsRun(states, actions) && n <= |actions|
  {
    && c < n && actions[c] == CallLoad(t)
    && forall m | c < m <= n :: InLoad(PcOf(states[m].threads, t))
  }

  /** The call that a thread is in, or has returned from. */
  lemma {:induction false} LoadBegan(states: seq<State>, actions: seq<Action>, n: nat, t: ThreadId) returns (c: nat)
    requires IsRun(states, actions) && n <= |actions| && InLoad(PcOf(states[n].threads, t))
    ensures LoadsSince(states, actions, c, n, t)
    ensures PcOf(states[n].threads, t).since == |states[c].published| - 1
  {
    c := n - 1;
    InLoadBefore(states, actions, n, t);
    if actions[c] != CallLoad(t) {
      c := LoadBegan(states, actions, n - 1, t);
    }
  }

  lemma InLoadBefore(states: seq<State>, actions: seq<Action>, n: nat, t: ThreadId)
    requires IsRun(states, actions) && n <= |actions| && InLoad(PcOf(states[n].threads, t))
    ensures n > 0
    ensures if actions[n - 1] == CallLoad(t) then PcOf(states[n].threads, t).since == |states[n - 1].published| - 1
            else InLoad(PcOf(states[n - 1].threads, t))
                 && PcOf(states[n - 1].threads, t).since == PcOf(states[n].threads, t).since
  {
    if n > 0 {
      assert states[n - 1 + 1] == Next(states[n - 1], actions[n - 1]);
    }
  }

  /** The step of that call at which the thread read the pointer. */
  lemma {:induction false} ReadMoment(states: seq<State>, actions: seq<Action>, c: nat, n: nat, t: ThreadId,
                                      load: Loaded)
      returns (k: nat)
    requires IsRun(states, actions) && n <= |actions| && LoadsSince(states, actions, c, n, t)
    requires LoadOf(PcOf(states[n].threads, t)) == Some(load)
    ensures c < k <= n && PcOf(states[k].threads, t) == Read(load.since, load.ref, load.version)
  {
    if PcOf(states[n].threads, t).Read? {
      k := n;
    } else {
      LoadedBefore(states, actions, n, t, load);
      CallerIsIdle(states, actions, c, t);
      LoadsSinceBefore(states, actions, c, n, t);
      k := ReadMoment(states, actions, c, n - 1, t, load);
    }
  }

  lemma LoadsSinceBefore(states: seq<State>, actions: seq<Action>, c: nat, n: nat, t: ThreadId)
    requires IsRun(states, actions) && n <= |actions| && LoadsSince(states, actions, c, n, t)
    requires n > 0 && LoadOf(PcOf(states[n - 1].threads, t)).Some? && PcOf(states[c].threads, t).Idle?
    ensures LoadsSince(states, actions, c, n - 1, t)
  {
    assert n - 1 != c;
  }

  lemma CallerIsIdle(states: seq<State>, actions: seq<Action>, c: nat, t: ThreadId)
    requires IsRun(states, actions) && c < |actions| && actions[c] == CallLoad(t)
    ensures PcOf(states[c].threads, t).Idle?
  {
    assert Enabled(states[c], actions[c]);
  }

  lemma LoadedBefore(states: seq<State>, actions: seq<Action>, n: nat, t: ThreadId, load: Loaded)
    requires IsRun(states, actions) && 0 < n <= |actions|
    requires LoadOf(PcOf(states[n].threads, t)) == Some(load) && !PcOf(states[n].threads, t).Read?
    ensures LoadOf(PcOf(states[n - 1].threads, t)) == Some(load)
  {
    assert states[n - 1 + 1] == Next(states[n - 1], actions[n - 1]);
  }

  /** What a load returned is the snapshot of the last publication before one step of that very
      load: the thread called in step `c`, read the pointer by state `k`, and is in that load, or
      uses what it returned, from `c` to `n`. */
  lemma LoadIsLinearizable(states: seq<State>, actions: seq<Action>, n: nat, t: ThreadId) returns (c: nat, k: nat)
    requires IsRun(states, actions) && n <= |actions|
    requires PcOf(states[n].threads, t).Using? || PcOf(states[n].threads, t).Answered?
    ensures LoadsSince(states, actions, c, n, t) && c < k <= n
    ensures var pc := PcOf(states[n].threads, t);
            && pc.version < |states[n].published| && states[n].published[pc.version] == pc.ref
            && PcOf(states[k].threads, t) == Read(pc.since, pc.ref, pc.version)
            && states[k].current == pc.ref && |states[k].published| == pc.version + 1
            && |states[c].published| == pc.since + 1 && pc.since <= pc.version
  {
    RunKeepsInv(states, actions, n);
    assert LoadIsCurrent(states[n], t);
    var pc := PcOf(states[n].threads, t);
    c := LoadBegan(states, actions, n, t);
    k := ReadMoment(states, actions, c, n, t, Loaded(pc.since, pc.ref, pc.version));
    RunKeepsInv(states, actions, k);
    RunKeepsInv(states, actions, c);
    assert LoadIsCurrent(states[k], t);
  }

  lemma {:induction false} SeenGrows(states: seq<State>, actions: seq<Action>, i: nat, j: nat, t: ThreadId)
    requires IsRun(states, actions) && i <= j <= |actions| && t in states[i].seen
    ensures t in states[j].seen && states[i].seen[t] <= states[j].seen[t]
    decreases j
  {
    if i < j {
      SeenGrows(states, actions, i, j - 1, t);
      SeenGrowsInOneStep(states, actions, j - 1, t);
    }
  }

  lemma SeenGrowsInOneStep(states: seq<State>, actions: seq<Action>, j: nat, t: ThreadId)
    requires IsRun(states, actions) && j < |actions| && t in states[j].seen
    ensures t in states[j + 1].seen && states[j].seen[t] <= states[j + 1].seen[t]
  {
    RunKeepsInv(states, actions, j);
    StepKeepsSeen(states[j], actions[j], t);
  }

  lemma StepKeepsSeen(s: State, a: Action, t: ThreadId)
    requires Inv(s) && Enabled(s, a) && t in s.seen
    ensures t in Next(s, a).seen && s.seen[t] <= Next(s, a).seen[t]
  {
  }

  /** The loads of one thread never go back in the order of publication. */
  lemma LoadsNeverGoBack(states: seq<State>, actions: seq<Action>, i: nat, j: nat, t: ThreadId)
    requires IsRun(states, actions) && i <= j <= |actions|
    requires PcOf(states[i].threads, t).Using? && PcOf(states[j].threads, t).Using?
    ensures PcOf(states[i].threads, t).version <= PcOf(states[j].threads, t).version
  {
    RunKeepsInv(states, actions, i);
    RunKeepsInv(states, actions, j);
    assert LoadIsCurrent(states[i], t) && LoadIsCurrent(states[j], t);
    SeenGrows(states, actions, i, j, t);
  }

  /** A request is answered from the rules of one snapshot, which was current at a step of that
      very request after it called `load`, and which it still holds alive, whatever has been
      published in the meantime. */
  lemma RequestSeesOneVersion(states: seq<State>, actions: seq<Action>, n: nat, t: ThreadId) returns (c: nat, k: nat)
    requires IsRun(states, actions) && n <= |actions| && PcOf(states[n].threads, t).Answered?
    ensures LoadsSince(states, actions, c, n, t) && c < k <= n
    ensures var s, pc := states[n], PcOf(states[n].threads, t);
            && pc.ref.Some? && pc.ref.value in s.tables && pc.ref.value !in s.freed
            && states[k].current == pc.ref && |states[k].published| == pc.version + 1
            && IsAnswer(s.tables[pc.ref.value], pc.request.host, pc.request.path, pc.request.clientIp, pc.answer)
  {
    c, k := LoadIsLinearizable(states, actions, n, t);
    RunKeepsInv(states, actions, n);
    assert LoadIsCurrent(states[n], t);
    NothingHeldIsFreed(states, actions, n, t);
  }
}
