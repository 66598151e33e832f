/** What publishing and loading come to for those who call them: a load returns the reference that
    the last publisher before it had when it called `publish`.
  */
module SnapshotRuns {
  import opened CommonTypes
  import opened RouteRules
  import opened RouteTable
  import opened SnapshotPublication

  // ----- publishing publishes ------------------------------------------------------------------------

  /** The thread called `publish` in step `c`, with `ref`, and has not replaced the current snapshot
      by state `m`. */
  ghost predicate PublishesSince(states: seq<State>, actions: seq<Action>, c: nat, m: nat, t: ThreadId, ref: Reference)
    requires IsRun(states, actions) && m <= |actions|
  {
    && c < m
    && ((actions[c] == CallPublish(t) && PcOf(states[c].threads, t) == Owner(ref))
        || (actions[c] == CallPublishNull(t) && ref == None))
    && forall k | c < k <= m ::
         PcOf(states[k].threads, t) == Publishing(ref) || PcOf(states[k].threads, t) == Locked(ref)
  }

  lemma {:induction false} PublishBegan(states: seq<State>, actions: seq<Action>, m: nat, t: ThreadId) returns (c: nat)
    requires IsRun(states, actions) && m <= |actions|
    requires PcOf(states[m].threads, t).Publishing? || PcOf(states[m].threads, t).Locked?
    ensures PublishesSince(states, actions, c, m, t, PcOf(states[m].threads, t).ref)
  {
    InPublishBefore(states, actions, m, t);
    c := m - 1;
    if actions[c] != CallPublish(t) && actions[c] != CallPublishNull(t) {
      c := PublishBegan(states, actions, m - 1, t);
      PublishesOn(states, actions, c, m, t, PcOf(states[m].threads, t).ref);
    }
  }

  lemma PublishesOn(states: seq<State>, actions: seq<Action>, c: nat, m: nat, t: ThreadId, ref: Reference)
    requires IsRun(states, actions) && 0 < m <= |actions| && PublishesSince(states, actions, c, m - 1, t, ref)
    requires PcOf(states[m].threads, t) == Publishing(ref) || PcOf(states[m].threads, t) == Locked(ref)
    ensures PublishesSince(states, actions, c, m, t, ref)
  {
  }

  lemma InPublishBefore(states: seq<State>, actions: seq<Action>, m: nat, t: ThreadId)
    requires IsRun(states, actions) && m <= |actions|
    requires PcOf(states[m].threads, t).Publishing? || PcOf(states[m].threads, t).Locked?
    ensures m > 0
    ensures var ref, before := PcOf(states[m].threads, t).ref, PcOf(states[m - 1].threads, t);
            if actions[m - 1] == CallPublish(t) then before == Owner(ref)
            else if actions[m - 1] == CallPublishNull(t) then ref == None
            else before == Publishing(ref) || before == Locked(ref)
  {
    if m > 0 {
      assert states[m - 1 + 1] == Next(states[m - 1], actions[m - 1]);
    }
  }

  /** The step of `publish` that counts makes the reference its caller had at the call the current one. */
  lemma AssignPublishes(states: seq<State>, actions: seq<Action>, m: nat, t: ThreadId) returns (c: nat, ref: Reference)
    requires IsRun(states, actions) && m < |actions| && actions[m] == Assign(t)
    ensures PublishesSince(states, actions, c, m, t, ref) && states[m + 1].current == ref
    ensures states[m + 1].published == states[m].published + [ref]
  {
    assert Enabled(states[m], actions[m]) && states[m + 1] == Next(states[m], actions[m]);
    ref := PcOf(states[m].threads, t).ref;
    c := PublishBegan(states, actions, m, t);
  }

  /** No other step changes what is current. */
  lemma OnlyAssignPublishes(states: seq<State>, actions: seq<Action>, m: nat)
    requires IsRun(states, actions) && m < |actions| && !actions[m].Assign?
    ensures states[m + 1].current == states[m].current && states[m + 1].published == states[m].published
  {
    assert states[m + 1] == Next(states[m], actions[m]);
  }

  /** Every version was published by a call of `publish`, with the reference its caller had. */
  lemma {:induction false} VersionsArePublished(states: seq<State>, actions: seq<Action>, n: nat, v: nat)
      returns (c: nat, m: nat, t: ThreadId)
    requires IsRun(states, actions) && n <= |actions| && 1 <= v < |states[n].published|
    ensures m < n && actions[m] == Assign(t)
    ensures PublishesSince(states, actions, c, m, t, states[n].published[v])
    ensures states[m + 1].current == states[n].published[v] && |states[m].published| == v
  {
    m := n - 1;
    if actions[m].Assign? && v == |states[m].published| {
      var ref;
      t := actions[m].t;
      c, ref := AssignPublishes(states, actions, m, t);
    } else {
      VersionIsOlder(states, actions, m, v);
      c, m, t := VersionsArePublished(states, actions, m, v);
    }
  }

  lemma VersionIsOlder(states: seq<State>, actions: seq<Action>, m: nat, v: nat)
    requires IsRun(states, actions) && m < |actions| && 1 <= v < |states[m + 1].published|
    requires actions[m].Assign? ==> v != |states[m].published|
    ensures v < |states[m].published| && states[m].published[v] == states[m + 1].published[v]
  {
    if actions[m].Assign? {
      var c, ref := AssignPublishes(states, actions, m, actions[m].t);
    } else {
      OnlyAssignPublishes(states, actions, m);
    }
  }

  // ----- what a load returns -------------------------------------------------------------------------

  /** Step `m` is the last before state `k` that replaces the current snapshot. */
  predicate IsLastAssign(actions: seq<Action>, m: nat, k: nat) {
    m < k <= |actions| && actions[m].Assign? && forall j | m < j < k :: !actions[j].Assign?
  }

  predicate NoAssign(actions: seq<Action>, k: nat) {
    k <= |actions| && forall j | 0 <= j < k :: !actions[j].Assign?
  }

  lemma {:induction false} CurrentIsLastAssigned(states: seq<State>, actions: seq<Action>, k: nat)
    requires IsRun(states, actions) && k <= |actions|
    ensures NoAssign(actions, k) ==> states[k].current == None
    ensures forall m: nat | IsLastAssign(actions, m, k) :: states[k].current == states[m + 1].current
  {
    if k > 0 {
      CurrentIsLastAssigned(states, actions, k - 1);
      if !actions[k - 1].Assign? {
        OnlyAssignPublishes(states, actions, k - 1);
        forall m: nat | IsLastAssign(actions, m, k)
          ensures m < k - 1 && IsLastAssign(actions, m, k - 1)
        {
        }
      }
    }
  }

  /** A load returns the reference that the last publisher before the moment it read the pointer had
      when it called `publish`, and null if there was none. */
  lemma LoadReturnsLastPublished(states: seq<State>, actions: seq<Action>, n: nat, t: ThreadId)
      returns (c: nat, k: nat)
    requires IsRun(states, actions) && n <= |actions|
    requires PcOf(states[n].threads, t).Using? || PcOf(states[n].threads, t).Answered?
    ensures LoadsSince(states, actions, c, n, t) && c < k <= n && PcOf(states[k].threads, t).Read?
    ensures NoAssign(actions, k) ==> PcOf(states[n].threads, t).ref == None
    ensures forall m: nat | IsLastAssign(actions, m, k) ::
              exists b: nat :: PublishesSince(states, actions, b, m, actions[m].t, PcOf(states[n].threads, t).ref)
  {
    c, k := LoadIsLinearizable(states, actions, n, t);
    CurrentIsLastAssigned(states, actions, k);
    forall m: nat | IsLastAssign(actions, m, k)
      ensures exists b: nat :: PublishesSince(states, actions, b, m, actions[m].t, PcOf(states[n].threads, t).ref)
    {
      var b, ref := AssignPublishes(states, actions, m, actions[m].t);
    }
  }

  ghost predicate OwnersHold(s: State) {
    forall t: ThreadId :: PcOf(s.threads, t).Owner? ==> PcOf(s.threads, t).ref.Some?
  }

  lemma {:induction false} OwnersAlwaysHold(states: seq<State>, actions: seq<Action>, n: nat)
    requires IsRun(states, actions) && n <= |actions|
    ensures OwnersHold(states[n])
  {
    if n > 0 {
      OwnersAlwaysHold(states, actions, n - 1);
      StepKeepsOwners(states[n - 1], actions[n - 1]);
    }
  }

  lemma StepKeepsOwners(s: State, a: Action)
    requires OwnersHold(s) && Enabled(s, a)
    ensures OwnersHold(Next(s, a))
  {
    OneThreadMoves(s, a);
    assert a.CallPublish? || a.Copy? || a.Drop? ==> PcOf(s.threads, a.t) == s.threads[a.t];
    forall t: ThreadId | t != Moved(a)
      ensures PcOf(Next(s, a).threads, t) == PcOf(s.threads, t)
    {
    }
  }

  lemma LastAssignBefore(actions: seq<Action>, k: nat) returns (m: nat)
    requires k <= |actions| && !NoAssign(actions, k)
    ensures IsLastAssign(actions, m, k)
  {
    m := k - 1;
    while !actions[m].Assign?
      invariant m < k && forall j | m < j < k :: !actions[j].Assign?
      decreases m
    {
      if m == 0 {
        assert NoAssign(actions, k);
      }
      m := m - 1;
    }
  }

  /** If nobody has called `publish` with null, a load called after a publication is not null. */
  lemma LoadIsNotNull(states: seq<State>, actions: seq<Action>, n: nat, t: ThreadId, call: nat, m: nat)
    requires IsRun(states, actions) && n <= |actions| && forall j | 0 <= j < n :: !actions[j].CallPublishNull?
    requires PcOf(states[n].threads, t).Using? && LoadsSince(states, actions, call, n, t)
    requires m < call && actions[m].Assign?
    ensures PcOf(states[n].threads, t).ref.Some?
  {
    var c, k := LoadReturnsLastPublished(states, actions, n, t);
    CallerIsIdle(states, actions, call, t);
    CallerIsIdle(states, actions, c, t);
    assert c == call;
    var last := LastAssignBefore(actions, k);
    var b: nat :| PublishesSince(states, actions, b, last, actions[last].t, PcOf(states[n].threads, t).ref);
    OwnersAlwaysHold(states, actions, b);
  }

  // ----- the rules a request is answered from -----------------------------------------------------------

  /** The rules of a snapshot are those it was built with. */
  lemma {:induction false} TablesAreAsBuilt(states: seq<State>, actions: seq<Action>, n: nat, id: SnapshotId)
      returns (b: nat)
    requires IsRun(states, actions) && n <= |actions| && id in states[n].tables
    ensures b < n && actions[b].Build? && actions[b].id == id && actions[b].table == states[n].tables[id]
    ensures PcOf(states[b + 1].threads, actions[b].t) == Owner(Some(id))
  {
    b := n - 1;
    assert Enabled(states[b], actions[b]) && states[b + 1] == Next(states[b], actions[b]);
    if !(actions[b].Build? && actions[b].id == id) {
      b := TablesAreAsBuilt(states, actions, b, id);
    }
  }

  /** A request is answered from the rules that one snapshot was built with; that snapshot is the
      one published last before a step of that very request, and it is still alive. */
  lemma RequestSeesPublishedRules(states: seq<State>, actions: seq<Action>, n: nat, t: ThreadId)
      returns (c: nat, k: nat, m: nat, p: nat, b: nat)
    requires IsRun(states, actions) && n <= |actions| && PcOf(states[n].threads, t).Answered?
    ensures LoadsSince(states, actions, c, n, t) && c < k <= n && IsLastAssign(actions, m, k)
    ensures b < n && actions[b].Build?
    ensures PublishesSince(states, actions, p, m, actions[m].t, Some(actions[b].id))
    ensures actions[b].id !in states[n].freed
    ensures var pc := PcOf(states[n].threads, t);
            IsAnswer(actions[b].table, pc.request.host, pc.request.path, pc.request.clientIp, pc.answer)
  {
    c, k := RequestSeesOneVersion(states, actions, n, t);
    c, k := LoadReturnsLastPublished(states, actions, n, t);
    var ref := PcOf(states[n].threads, t).ref;
    b := TablesAreAsBuilt(states, actions, n, ref.value);
    m := LastAssignBefore(actions, k);
    p :| PublishesSince(states, actions, p, m, actions[m].t, ref);
  }

  // ----- nobody waits for ever ----------------------------------------------------------------------------

  /** The thread is inside `publish` or `load`. */
  predicate InCall(pc: Pc) {
    || pc.Publishing? || pc.Locked? || pc.Swapped? || pc.Released?
    || pc.Loading? || pc.Shared? || pc.Read? || pc.Counted?
  }

  /** Its next step. */
  function NextOf(t: ThreadId, pc: Pc): Action
    requires InCall(pc)
  {
    match pc
    case Publishing(_) => LockExclusive(t)
    case Locked(_) => Assign(t)
    case Swapped(_) => ReleaseOld(t)
    case Released => UnlockExclusive(t)
    case Loading(_) => LockShared(t)
    case Shared(_) => ReadPointer(t)
    case Read(_, _, _) => RaiseCount(t)
    case Counted(_, _, _) => UnlockShared(t)
  }

  /** A thread inside a call can go on, unless it publishes and waits for the lock that others
      hold, or loads and waits for a publisher. Readers never wait for readers. */
  lemma CallsGoOn(states: seq<State>, actions: seq<Action>, n: nat, t: ThreadId)
    requires IsRun(states, actions) && n <= |actions| && InCall(PcOf(states[n].threads, t))
    ensures Enabled(states[n], NextOf(t, PcOf(states[n].threads, t))) <==>
            match PcOf(states[n].threads, t)
            case Publishing(_) =>
              forall u :: !HoldsExclusive(PcOf(states[n].threads, u)) && !HoldsShared(PcOf(states[n].threads, u))
            case Loading(_) => forall u :: !HoldsExclusive(PcOf(states[n].threads, u))
            case _ => true
  {
    RunKeepsInv(states, actions, n);
    var s := states[n];
    assert s.writer.Some? ==> HoldsExclusive(PcOf(s.threads, s.writer.value));
    if s.readers != {} {
      var r :| r in s.readers;
      assert HoldsShared(PcOf(s.threads, r));
    }
  }

  /** Outside a call a thread may always do what the interface offers: build and publish, load, hand
      on or drop what it owns. */
  lemma CallersMayAct(states: seq<State>, actions: seq<Action>, n: nat, t: ThreadId)
    requires IsRun(states, actions) && n <= |actions|
    ensures var s, pc := states[n], PcOf(states[n].threads, t);
            && (pc.Idle? ==>
                  && Enabled(s, CallLoad(t)) && Enabled(s, CallPublishNull(t))
                  && forall id, table | id !in s.tables :: Enabled(s, Build(t, id, table)))
            && (pc.Owner? ==> Enabled(s, CallPublish(t)))
            && (pc.Owner? || pc.Using? || pc.Answered? ==>
                  && Enabled(s, Drop(t))
                  && (pc.ref.Some? ==>
                        forall u | u != t && PcOf(s.threads, u).Idle? :: Enabled(s, Copy(t, u))))
  {
    RunKeepsInv(states, actions, n);
  }

  /** And with the snapshot it has loaded it may answer any request, in any way the rules allow. */
  lemma LoadersMayAnswer(states: seq<State>, actions: seq<Action>, n: nat, t: ThreadId, r: Request, answer: RouteMatch)
    requires IsRun(states, actions) && n <= |actions|
    requires PcOf(states[n].threads, t).Using? && PcOf(states[n].threads, t).ref.Some?
    ensures var id := PcOf(states[n].threads, t).ref.value;
            id in states[n].tables
            && (IsAnswer(states[n].tables[id], r.host, r.path, r.clientIp, answer) ==>
                  Enabled(states[n], Answer(t, r, answer)))
  {
    RunKeepsInv(states, actions, n);
    NothingHeldIsFreed(states, actions, n, t);
  }

  /** So as long as anyone is inside a call, someone can go on. */
  lemma NoDeadlock(states: seq<State>, actions: seq<Action>, n: nat, t: ThreadId) returns (u: ThreadId)
    requires IsRun(states, actions) && n <= |actions| && InCall(PcOf(states[n].threads, t))
    ensures InCall(PcOf(states[n].threads, u)) && Enabled(states[n], NextOf(u, PcOf(states[n].threads, u)))
  {
    var s := states[n];
    if v :| HoldsExclusive(PcOf(s.threads, v)) {
      u := v;
    } else if v :| HoldsShared(PcOf(s.threads, v)) {
      u := v;
    } else {
      u := t;
    }
    CallsGoOn(states, actions, n, u);
  }

  // ----- a publication and a load, undisturbed ------------------------------------------------------------

  lemma Extend(states: seq<State>, actions: seq<Action>, a: Action) returns (states': seq<State>, actions': seq<Action>)
    requires IsRun(states, actions) && Enabled(states[|actions|], a)
    ensures IsRun(states', actions') && actions <= actions' && states <= states'
    ensures |actions'| == |actions| + 1 && states'[|actions'|] == Next(states[|actions|], a)
  {
    states', actions' := states + [Next(states[|actions|], a)], actions + [a];
  }

  predicate Unlocked(s: State) {
    s.writer.None? && s.readers == {} && s.published != []
  }

  /** A thread that owns a snapshot can publish it, and then it is the current one. */
  lemma PublishCanFinish(states: seq<State>, actions: seq<Action>, t: ThreadId)
      returns (states': seq<State>, actions': seq<Action>)
    requires IsRun(states, actions) && Unlocked(states[|actions|]) && PcOf(states[|actions|].threads, t).Owner?
    ensures IsRun(states', actions') && states <= states' && actions <= actions' && Unlocked(states'[|actions'|])
    ensures states'[|actions'|].current == PcOf(states[|actions|].threads, t).ref
    ensures forall u | u != t :: PcOf(states'[|actions'|].threads, u) == PcOf(states[|actions|].threads, u)
  {
    states', actions' := Extend(states, actions, CallPublish(t));
    states', actions' := Extend(states', actions', LockExclusive(t));
    states', actions' := Extend(states', actions', Assign(t));
    states', actions' := Extend(states', actions', ReleaseOld(t));
    states', actions' := Extend(states', actions', UnlockExclusive(t));
  }

  /** A thread can load, and then it uses the current snapshot. */
  lemma LoadCanReturn(states: seq<State>, actions: seq<Action>, t: ThreadId)
      returns (states': seq<State>, actions': seq<Action>)
    requires IsRun(states, actions) && Unlocked(states[|actions|]) && PcOf(states[|actions|].threads, t).Idle?
    ensures IsRun(states', actions') && states <= states' && actions <= actions'
    ensures PcOf(states'[|actions'|].threads, t).Using?
    ensures PcOf(states'[|actions'|].threads, t).ref == states[|actions|].current
  {
    states', actions' := LoadCanRead(states, actions, t);
    states', actions' := Extend(states', actions', RaiseCount(t));
    states', actions' := Extend(states', actions', UnlockShared(t));
  }

  lemma LoadCanRead(states: seq<State>, actions: seq<Action>, t: ThreadId)
      returns (states': seq<State>, actions': seq<Action>)
    requires IsRun(states, actions) && Unlocked(states[|actions|]) && PcOf(states[|actions|].threads, t).Idle?
    ensures IsRun(states', actions') && states <= states' && actions <= actions'
    ensures PcOf(states'[|actions'|].threads, t).Read?
    ensures PcOf(states'[|actions'|].threads, t).ref == states[|actions|].current
    ensures states'[|actions'|].published != []
  {
    states', actions' := Extend(states, actions, CallLoad(t));
    states', actions' := Extend(states', actions', LockShared(t));
    states', actions' := Extend(states', actions', ReadPointer(t));
  }

  /** From the start: what the first publisher built and published is what the first load returns. */
  lemma FirstPublicationIsLoaded(id: SnapshotId, table: seq<RouteRule>)
      returns (states: seq<State>, actions: seq<Action>)
    ensures IsRun(states, actions) && id in states[|actions|].tables && id !in states[|actions|].freed
    ensures PcOf(states[|actions|].threads, 1).Using? && PcOf(states[|actions|].threads, 1).ref == Some(id)
  {
    states, actions := Extend([INITIAL], [], Build(0, id, table));
    assert PcOf(states[|actions|].threads, 0) == Owner(Some(id)) && PcOf(states[|actions|].threads, 1) == Idle;
    states, actions := PublishCanFinish(states, actions, 0);
    states, actions := LoadCanReturn(states, actions, 1);
    NothingHeldIsFreed(states, actions, |actions|, 1);
  }
}
