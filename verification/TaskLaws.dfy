/**
 What every interleaving of the task store's statements keeps: one task for each key that is not
 given back, one claimant for each task, results from the claimant only, chains that end at their
 root; and exactly which statements overwrite a settled task.
 */
module TaskLaws {
  import opened Sequences
  import opened TaskStore

  // ----- what a statement leaves alone --------------------------------------------------

  predicate SameOrigin(a: Task, b: Task) {
    a.request == b.request && a.root == b.root && a.hops == b.hops && (a.claimedBy.Some? ==> b.claimedBy == a.claimedBy)
  }

  /** No row is lost, what admission fixed stays, and a claim is for good. */
  ghost predicate Grows(before: Db, after: Db) {
    forall id :: id in before.tasks ==> id in after.tasks && SameOrigin(before.tasks[id], after.tasks[id])
  }

  /** The request follows its parent's row, within the absolute limit. */
  predicate IsPlaced(db: Db, r: Request, root: string, hops: nat) {
    hops < ABSOLUTE_MAX_HOPS
    && if r.parent.None? then root == r.id && hops == 0
       else
         && r.parent.value in db.tasks
         && db.tasks[r.parent.value].request.project == r.project
         && root == db.tasks[r.parent.value].root && hops == db.tasks[r.parent.value].hops + 1
  }

  predicate TaskOk(db: Db, id: string)
    requires id in db.tasks
  {
    db.tasks[id].request.id == id && IsPlaced(db, db.tasks[id].request, db.tasks[id].root, db.tasks[id].hops)
  }

  ghost predicate TasksOk(db: Db) { forall id :: id in db.tasks ==> TaskOk(db, id) }

  /** A key is held by exactly the task that was admitted under it and has not given it back. */
  ghost predicate KeysOk(db: Db, freed: set<string>) {
    && (forall id :: id in freed ==> id in db.tasks)
    && (forall key :: key in db.keys ==> db.keys[key] in db.tasks && db.keys[key] !in freed
                                         && KeyOf(db.tasks[db.keys[key]].request) == Some(key))
    && (forall id :: id in db.tasks && id !in freed && KeyOf(db.tasks[id].request).Some? ==>
          var key := KeyOf(db.tasks[id].request).value;
          key in db.keys && db.keys[key] == id)
  }

  predicate IsVerdict(status: Status) { status.Completed? || status.Failed? }

  /** What a call under way may rely on, whatever the others did since it read. */
  predicate CallOk(db: Db, c: Call) {
    match c
    case AdmitLookup(r, root, hops) => IsPlaced(db, r, root, hops)
    case AdmitWrite(r, root, hops) => IsPlaced(db, r, root, hops)
    case CancelStatus(id) => id in db.tasks
    case CancelWrite(id) => id in db.tasks
    case YieldOwner(_, _, status, _) => IsVerdict(status)
    case YieldBound(_, _, status, _) => IsVerdict(status)
    case YieldClaim(_, _, status, _) => IsVerdict(status)
    case YieldClaimWrite(_, _, status, _) => IsVerdict(status)
    case YieldWrite(id, session, status, _) => IsVerdict(status) && Owner(db, id) == Some(session)
    case _ => true
  }

  predicate EventOk(db: Db, e: Event) {
    match e
    case Accepted(id) => id in db.tasks
    case Replayed(key, id) => id in db.tasks && KeyOf(db.tasks[id].request) == Some(key)
    case Connected(_, _) => true
    case Claimed(id, session, _) => Owner(db, id) == Some(session)
    case Yielded(id, session, _) => Owner(db, id) == Some(session)
    case WasCancelled(id) => id in db.tasks
    case Reopened(id) => id in db.tasks
  }

  ghost predicate EffectOk(db: Db, freed: set<string>, e: Effect) {
    && Grows(db, e.db) && TasksOk(e.db) && KeysOk(e.db, freed + Lost(db, e.db))
    && CallOk(e.db, e.next)
    && forall event :: event in e.events ==> EventOk(e.db, event)
  }

  lemma GrowsKeepsCall(before: Db, after: Db, c: Call)
    requires Grows(before, after) && CallOk(before, c)
    ensures CallOk(after, c)
  {
  }

  lemma GrowsKeepsEvent(before: Db, after: Db, e: Event)
    requires Grows(before, after) && EventOk(before, e)
    ensures EventOk(after, e)
  {
  }

  // ----- the few things statements do ---------------------------------------------------

  lemma RowUpdated(db: Db, freed: set<string>, id: string, task: Task)
    requires TasksOk(db) && KeysOk(db, freed) && id in db.tasks && SameOrigin(db.tasks[id], task)
    ensures var after := SetTask(db, id, task);
      Grows(db, after) && TasksOk(after) && KeysOk(after, freed) && Lost(db, after) == {}
  {
    hide TasksOk, KeysOk, KeyOf;
    RowKeepsTasks(db, id, task);
    RowKeepsKeys(db, freed, id, task);
  }

  lemma RowKeepsKeys(db: Db, freed: set<string>, id: string, task: Task)
    requires KeysOk(db, freed) && id in db.tasks && SameOrigin(db.tasks[id], task)
    ensures KeysOk(SetTask(db, id, task), freed)
  {
    hide KeyOf;
  }

  lemma RowKeepsTasks(db: Db, id: string, task: Task)
    requires TasksOk(db) && id in db.tasks && SameOrigin(db.tasks[id], task)
    ensures TasksOk(SetTask(db, id, task))
  {
    var after := SetTask(db, id, task);
    forall j | j in after.tasks
      ensures TaskOk(after, j)
    {
      assert TaskOk(db, j);
    }
  }

  lemma NothingLost(db: Db, freed: set<string>)
    ensures Lost(db, db) == {} && freed + {} == freed && Grows(db, db)
  {
  }

  /** Deleting keys frees exactly the tasks that held them. */
  lemma KeysDropped(db: Db, freed: set<string>, after: Db)
    requires TasksOk(db) && KeysOk(db, freed) && after.tasks == db.tasks
    requires forall key :: key in after.keys ==> key in db.keys && after.keys[key] == db.keys[key]
    ensures Grows(db, after) && TasksOk(after) && KeysOk(after, freed + Lost(db, after))
  {
    forall j | j in after.tasks
      ensures TaskOk(after, j)
    {
      assert TaskOk(db, j);
    }
  }

  lemma AdmittedTasks(db: Db, r: Request, root: string, hops: nat)
    requires TasksOk(db) && IsPlaced(db, r, root, hops) && r.id !in db.tasks
    ensures Grows(db, WithTask(db, r, root, hops)) && TasksOk(WithTask(db, r, root, hops))
  {
    hide KeyOf;
    var after := WithTask(db, r, root, hops);
    forall j | j in after.tasks
      ensures TaskOk(after, j)
    {
      assert j != r.id ==> TaskOk(db, j);
    }
  }

  lemma AdmittedKeys(db: Db, freed: set<string>, r: Request, root: string, hops: nat)
    requires KeysOk(db, freed) && r.id !in db.tasks && (KeyOf(r).Some? ==> KeyOf(r).value !in db.keys)
    ensures var after := WithTask(db, r, root, hops); KeysOk(after, freed) && Lost(db, after) == {}
  {
    hide KeyOf;
  }

  lemma TaskAdmitted(db: Db, freed: set<string>, r: Request, root: string, hops: nat)
    requires TasksOk(db) && KeysOk(db, freed) && IsPlaced(db, r, root, hops) && r.id !in db.tasks
    requires KeyOf(r).Some? ==> KeyOf(r).value !in db.keys
    ensures EffectOk(db, freed, AdmitExec(db, AdmitWrite(r, root, hops)))
  {
    AdmittedTasks(db, r, root, hops);
    AdmittedKeys(db, freed, r, root, hops);
    hide KeysOk, TasksOk, Grows, IsPlaced, WithTask, PlaceOf, Lost;
  }

  // ----- every statement ----------------------------------------------------------------

  lemma PlaceIsPlaced(db: Db, r: Request, maxHops: nat)
    requires TasksOk(db)
    ensures var place := PlaceOf(db, r, maxHops); place.Placed? ==> IsPlaced(db, r, place.root, place.hops)
  {
    if r.parent.Some? && r.parent.value in db.tasks {
      assert TaskOk(db, r.parent.value);
    }
  }

  lemma HeldKey(db: Db, freed: set<string>, key: Key)
    requires KeysOk(db, freed) && key in db.keys
    ensures EventOk(db, Replayed(key, db.keys[key]))
  {
  }

  lemma AdmitOk(db: Db, freed: set<string>, c: Call)
    requires c.Admit? || c.AdmitLookup? || c.AdmitWrite?
    requires TasksOk(db) && KeysOk(db, freed) && CallOk(db, c)
    ensures EffectOk(db, freed, AdmitExec(db, c))
  {
    hide KeysOk, TasksOk, Grows, IsPlaced, PlaceOf, KeyOf, EventOk, WithTask;
    NothingLost(db, freed);
    var key := KeyOf(c.request);
    if c.Admit? {
      PlaceIsPlaced(db, c.request, c.maxHops);
    } else if key.Some? && key.value in db.keys {
      HeldKey(db, freed, key.value);
    } else if c.AdmitWrite? && c.request.id !in db.tasks {
      TaskAdmitted(db, freed, c.request, c.root, c.hops);
    }
  }

  lemma TakeOk(db: Db, freed: set<string>, id: string, session: string, won: Call)
    requires TasksOk(db) && KeysOk(db, freed)
    requires won.Done? || (won.YieldWrite? && won.id == id && won.session == session && IsVerdict(won.status))
    ensures EffectOk(db, freed, TakeExec(db, id, session, won))
  {
    hide KeysOk, TasksOk, Grows;
    NothingLost(db, freed);
    if id in db.tasks && db.tasks[id].claimedBy.None? {
      RowUpdated(db, freed, id, db.tasks[id].(claimedBy := Some(session)));
    }
  }

  lemma ClaimOk(db: Db, freed: set<string>, c: Call)
    requires c.Claim? || c.ClaimWrite?
    requires TasksOk(db) && KeysOk(db, freed) && CallOk(db, c)
    ensures EffectOk(db, freed, ClaimExec(db, c))
  {
    hide KeysOk, TasksOk, Grows;
    NothingLost(db, freed);
    if c.ClaimWrite? {
      TakeOk(db, freed, c.id, c.session, Done);
    }
  }

  lemma YieldOk(db: Db, freed: set<string>, c: Call)
    requires c.Yield? || c.YieldOwner? || c.YieldBound? || c.YieldClaim? || c.YieldClaimWrite? || c.YieldWrite?
    requires TasksOk(db) && KeysOk(db, freed) && CallOk(db, c)
    ensures EffectOk(db, freed, YieldExec(db, c))
  {
    hide KeysOk, TasksOk, Grows;
    NothingLost(db, freed);
    if c.YieldClaimWrite? {
      TakeOk(db, freed, c.id, c.session, YieldWrite(c.id, c.session, c.status, c.result));
    } else if c.YieldWrite? && c.id in db.tasks {
      RowUpdated(db, freed, c.id,
                 db.tasks[c.id].(status := c.status, claimedBy := Some(c.session), result := Some(c.result)));
    }
  }

  lemma CancelOk(db: Db, freed: set<string>, c: Call)
    requires c.Cancel? || c.CancelStatus? || c.CancelWrite? || c.ReleaseKey?
    requires TasksOk(db) && KeysOk(db, freed) && CallOk(db, c)
    ensures EffectOk(db, freed, CancelExec(db, c))
  {
    hide KeysOk, TasksOk, Grows;
    NothingLost(db, freed);
    if c.CancelWrite? && c.id in db.tasks {
      RowUpdated(db, freed, c.id, db.tasks[c.id].(status := Cancelled));
    } else if c.ReleaseKey? {
      KeysDropped(db, freed, WithoutKeysOf(db, c.id));
    }
  }

  lemma BusOk(db: Db, freed: set<string>, c: Call)
    requires c.BusEnd? || c.EndWrite?
    requires TasksOk(db) && KeysOk(db, freed) && CallOk(db, c)
    ensures EffectOk(db, freed, BusExec(db, c))
  {
    hide KeysOk, TasksOk, Grows;
    NothingLost(db, freed);
    if c.EndWrite? && c.id in db.tasks {
      var task := db.tasks[c.id].(status := if c.failed then Failed else Completed,
                                  result := if c.output.Some? then c.output else db.tasks[c.id].result);
      var middle := SetTask(db, c.id, task);
      RowUpdated(db, freed, c.id, task);
      KeysDropped(middle, freed, WithoutKeysOf(middle, c.id));
      GrowsTwice(db, middle, WithoutKeysOf(middle, c.id));
    }
  }

  lemma GrowsTwice(a: Db, b: Db, c: Db)
    requires Grows(a, b) && Grows(b, c)
    ensures Grows(a, c)
  {
  }

  lemma KernelOk(db: Db, freed: set<string>, c: Call)
    requires c.SetStatus? || c.Abandon?
    requires TasksOk(db) && KeysOk(db, freed)
    ensures EffectOk(db, freed, KernelExec(db, c))
  {
    hide KeysOk, TasksOk, Grows;
    NothingLost(db, freed);
    if c.id in db.tasks {
      RowUpdated(db, freed, c.id, KernelExec(db, c).db.tasks[c.id]);
    }
  }

  lemma GuardedOk(db: Db, freed: set<string>, c: Call)
    requires c.Ack? || c.WaitOver?
    requires TasksOk(db) && KeysOk(db, freed)
    ensures EffectOk(db, freed, GuardedExec(db, c))
  {
    hide KeysOk, TasksOk, Grows;
    NothingLost(db, freed);
    if c.id in db.tasks {
      RowUpdated(db, freed, c.id, db.tasks[c.id].(status := if c.Ack? then Executing else WaitTimeoutReached));
    }
  }

  lemma TableOk(db: Db, freed: set<string>, c: Call)
    requires c.CollectKeys? || c.Connect? || c.PruneSession? || c.Done?
    requires TasksOk(db) && KeysOk(db, freed)
    ensures EffectOk(db, freed, TableExec(db, c))
  {
    hide KeysOk, TasksOk, Grows;
    KeysDropped(db, freed, TableExec(db, c).db);
  }

  lemma ExecOk(db: Db, freed: set<string>, c: Call)
    requires TasksOk(db) && KeysOk(db, freed) && CallOk(db, c)
    ensures EffectOk(db, freed, Exec(db, c))
  {
    hide TasksOk, KeysOk, CallOk, EffectOk;
    hide AdmitExec, ClaimExec, YieldExec, CancelExec, BusExec, KernelExec, GuardedExec, TableExec;
    if c.Admit? || c.AdmitLookup? || c.AdmitWrite? {
      AdmitOk(db, freed, c);
    } else if c.Claim? || c.ClaimWrite? {
      ClaimOk(db, freed, c);
    } else if c.Cancel? || c.CancelStatus? || c.CancelWrite? || c.ReleaseKey? {
      CancelOk(db, freed, c);
    } else if c.BusEnd? || c.EndWrite? {
      BusOk(db, freed, c);
    } else if c.SetStatus? || c.Abandon? {
      KernelOk(db, freed, c);
    } else if c.Ack? || c.WaitOver? {
      GuardedOk(db, freed, c);
    } else if c.CollectKeys? || c.Connect? || c.PruneSession? || c.Done? {
      TableOk(db, freed, c);
    } else {
      YieldOk(db, freed, c);
    }
  }

  // ----- every run ----------------------------------------------------------------------

  ghost predicate Inv(s: State) {
    && TasksOk(s.db) && KeysOk(s.db, s.freed)
    && (forall c :: c in s.calls ==> CallOk(s.db, c))
    && (forall event :: event in s.log ==> EventOk(s.db, event))
  }

  /** Every step of every call keeps the invariant, the rows' origins and the claims. */
  lemma StepKeepsInv(s: State, a: Action)
    requires Inv(s)
    ensures Inv(Step(s, a)) && Grows(s.db, Step(s, a).db)
  {
    hide TasksOk, KeysOk, CallOk, EventOk, Grows, Exec, IsStart;
    NothingLost(s.db, s.freed);
    var next := Step(s, a);
    if a.Start? {
      if IsStart(a.call) {
        StartIsOk(s.db, a.call);
      }
      forall c | c in next.calls
        ensures CallOk(next.db, c)
      {
        assert c in s.calls || c == a.call;
      }
    } else if a.i < |s.calls| {
      var e := Exec(s.db, s.calls[a.i]);
      assert s.calls[a.i] in s.calls;
      ExecOk(s.db, s.freed, s.calls[a.i]);
      forall c | c in next.calls
        ensures CallOk(next.db, c)
      {
        if c != e.next {
          assert c in s.calls;
          GrowsKeepsCall(s.db, e.db, c);
        }
      }
      forall event | event in next.log
        ensures EventOk(next.db, event)
      {
        if event !in e.events {
          GrowsKeepsEvent(s.db, e.db, event);
        }
      }
    }
  }

  lemma StartIsOk(db: Db, c: Call)
    requires IsStart(c)
    ensures CallOk(db, c)
  {
  }

  lemma {:induction false} EveryRunKeepsInv(actions: seq<Action>)
    ensures Inv(Run(INITIAL, actions))
  {
    if actions != [] {
      EveryRunKeepsInv(actions[..|actions| - 1]);
      StepKeepsInv(Run(INITIAL, actions[..|actions| - 1]), actions[|actions| - 1]);
    }
  }

  // ----- one row under one statement ----------------------------------------------------

  function IsYieldOf(id: string): Event -> bool { (e: Event) => e.Yielded? && e.id == id }

  function IsReopeningOf(id: string): Event -> bool { (e: Event) => e == Reopened(id) }

  /** One for a task that may still be ended, or is not admitted yet. */
  function OpenEnds(db: Db, id: string): nat {
    if id in db.tasks && IsSettled(db.tasks[id].status) then 0 else 1
  }

  /** The events after which a key must come free, so that the task can be asked for again. */
  predicate Frees(e: Event, id: string) { e == WasCancelled(id) || (e.Yielded? && e.id == id && e.status.Failed?) }

  ghost predicate HoldsNoKey(db: Db, id: string) { forall key :: key in db.keys ==> db.keys[key] != id }

  /** The statements that write a status without looking at the one there. */
  predicate Overwrites(c: Call, id: string, status: Status) {
    match c
    case CancelWrite(i) => i == id && !status.Cancelled?
    case EndWrite(i, failed, _) => i == id && status != if failed then Failed else Completed
    case SetStatus(i, next) => i == id && status != next
    case Abandon(i, _) => i == id && !status.Failed?
    case _ => false
  }

  /** How many statements a call has left at most. */
  function Left(c: Call): nat {
    match c
    case Done => 0
    case Admit(_, _) => 3
    case AdmitLookup(_, _, _) => 2
    case Claim(_, _) => 2
    case Yield(_, _, _, _) => 7
    case YieldOwner(_, _, _, _) => 6
    case YieldBound(_, _, _, _) => 5
    case YieldClaim(_, _, _, _) => 4
    case YieldClaimWrite(_, _, _, _) => 3
    case YieldWrite(_, _, _, _) => 2
    case Cancel(_, _) => 4
    case CancelStatus(_) => 3
    case CancelWrite(_) => 2
    case BusEnd(_, _, _, _) => 2
    case _ => 1
  }

  /** What a call has seen of row id rules out that its next write overwrites a settled status. */
  predicate IsGuarded(db: Db, c: Call, id: string) {
    !c.SetStatus? && !c.Abandon?
    && ((c.CancelWrite? || c.EndWrite?) && c.id == id && id in db.tasks ==> !IsSettled(db.tasks[id].status))
  }

  predicate KeepsEnd(before: Db, after: Db, id: string)
    requires id in before.tasks
  {
    id in after.tasks && after.tasks[id].status == before.tasks[id].status
    && after.tasks[id].result == before.tasks[id].result
  }

  predicate LogsClaim(db: Db, e: Effect, id: string) {
    id in e.db.tasks && e.db.tasks[id].claimedBy.Some? ==>
      (id in db.tasks && db.tasks[id].claimedBy == e.db.tasks[id].claimedBy)
      || (exists toYield :: e.events == [Claimed(id, e.db.tasks[id].claimedBy.value, toYield)])
  }

  predicate EndsOnce(db: Db, e: Effect, id: string) {
    && (|e.events| == 1 && IsYieldOf(id)(e.events[0]) ==> OpenEnds(db, id) == 1 && OpenEnds(e.db, id) == 0)
    && (OpenEnds(e.db, id) > OpenEnds(db, id) ==> e.events == [Reopened(id)])
  }

  predicate TreatsSettled(db: Db, c: Call, e: Effect, id: string) {
    id in db.tasks && IsSettled(db.tasks[id].status) ==>
      && id in e.db.tasks && (e.db.tasks[id].status != db.tasks[id].status <==> Overwrites(c, id, db.tasks[id].status))
      && (IsGuarded(db, c, id) ==> IsGuarded(e.db, e.next, id) && KeepsEnd(db, e.db, id))
  }

  ghost predicate FreesKey(db: Db, c: Call, e: Effect, id: string) {
    && (id in db.tasks && HoldsNoKey(db, id) ==> HoldsNoKey(e.db, id))
    && (c == ReleaseKey(id) ==> HoldsNoKey(e.db, id))
    && (|e.events| == 1 && Frees(e.events[0], id) ==> e.next == ReleaseKey(id) && id in db.tasks)
  }

  ghost predicate Facts(db: Db, c: Call, e: Effect, id: string) {
    && |e.events| <= 1 && (c.Done? || Left(e.next) < Left(c))
    && (CallOk(db, c) ==> LogsClaim(db, e, id) && EndsOnce(db, e, id))
    && TreatsSettled(db, c, e, id)
    && (CallOk(db, c) ==> FreesKey(db, c, e, id))
  }

  lemma AdmitFacts(db: Db, c: Call, id: string)
    requires c.Admit? || c.AdmitLookup? || c.AdmitWrite?
    ensures Facts(db, c, AdmitExec(db, c), id)
  {
    hide PlaceOf, KeyOf, IsBound, Lower, MayEnd, IsPlaced;
  }

  lemma ClaimFacts(db: Db, c: Call, id: string)
    requires c.Claim? || c.ClaimWrite?
    ensures Facts(db, c, ClaimExec(db, c), id)
  {
    hide PlaceOf, KeyOf, IsBound, Lower, MayEnd, IsPlaced;
  }

  lemma YieldFacts(db: Db, c: Call, id: string)
    requires c.Yield? || c.YieldOwner? || c.YieldBound? || c.YieldClaim? || c.YieldClaimWrite? || c.YieldWrite?
    ensures Facts(db, c, YieldExec(db, c), id)
  {
    hide PlaceOf, KeyOf, IsBound, Lower, MayEnd, IsPlaced;
  }

  lemma CancelFacts(db: Db, c: Call, id: string)
    requires c.Cancel? || c.CancelStatus? || c.CancelWrite? || c.ReleaseKey?
    ensures Facts(db, c, CancelExec(db, c), id)
  {
    hide PlaceOf, KeyOf, IsBound, Lower, MayEnd, IsPlaced;
  }

  lemma BusFacts(db: Db, c: Call, id: string)
    requires c.BusEnd? || c.EndWrite?
    ensures Facts(db, c, BusExec(db, c), id)
  {
    hide PlaceOf, KeyOf, IsBound, Lower, IsPlaced;
  }

  lemma KernelFacts(db: Db, c: Call, id: string)
    requires c.SetStatus? || c.Abandon?
    ensures Facts(db, c, KernelExec(db, c), id)
  {
    hide PlaceOf, KeyOf, IsBound, Lower, MayEnd, IsPlaced;
  }

  lemma GuardedFacts(db: Db, c: Call, id: string)
    requires c.Ack? || c.WaitOver?
    ensures Facts(db, c, GuardedExec(db, c), id)
  {
    hide PlaceOf, KeyOf, IsBound, Lower, MayEnd, IsPlaced;
  }

  lemma TableFacts(db: Db, c: Call, id: string)
    requires c.CollectKeys? || c.Connect? || c.PruneSession? || c.Done?
    ensures Facts(db, c, TableExec(db, c), id)
  {
    hide PlaceOf, KeyOf, IsBound, Lower, MayEnd, IsPlaced;
  }

  lemma ExecFacts(db: Db, c: Call, id: string)
    ensures Facts(db, c, Exec(db, c), id)
  {
    hide Facts, AdmitExec, ClaimExec, YieldExec, CancelExec, BusExec, KernelExec, GuardedExec, TableExec;
    if c.Admit? || c.AdmitLookup? || c.AdmitWrite? {
      AdmitFacts(db, c, id);
    } else if c.Claim? || c.ClaimWrite? {
      ClaimFacts(db, c, id);
    } else if c.Cancel? || c.CancelStatus? || c.CancelWrite? || c.ReleaseKey? {
      CancelFacts(db, c, id);
    } else if c.BusEnd? || c.EndWrite? {
      BusFacts(db, c, id);
    } else if c.SetStatus? || c.Abandon? {
      KernelFacts(db, c, id);
    } else if c.Ack? || c.WaitOver? {
      GuardedFacts(db, c, id);
    } else if c.CollectKeys? || c.Connect? || c.PruneSession? || c.Done? {
      TableFacts(db, c, id);
    } else {
      YieldFacts(db, c, id);
    }
  }

  // ----- keys ---------------------------------------------------------------------------

  /**
   However admissions, retries, releases and collections interleave: of the tasks that were ever
   admitted under one key, all but at most one have given it back; and whoever holds a key now is
   that one.
   */
  lemma OneTaskPerKey(actions: seq<Action>, a: string, b: string)
    requires var s := Run(INITIAL, actions);
      && a in s.db.tasks && b in s.db.tasks && KeyOf(s.db.tasks[a].request).Some?
      && KeyOf(s.db.tasks[a].request) == KeyOf(s.db.tasks[b].request)
    ensures var s := Run(INITIAL, actions);
      var key := KeyOf(s.db.tasks[a].request).value;
      && (a == b || a in s.freed || b in s.freed)
      && (a !in s.freed <==> key in s.db.keys && s.db.keys[key] == a)
  {
    EveryRunKeepsInv(actions);
  }

  /** An answer "replay" names a task that was admitted under the very key that was asked for. */
  lemma ReplayNamesItsTask(actions: seq<Action>, key: Key, id: string)
    requires Replayed(key, id) in Run(INITIAL, actions).log
    ensures var s := Run(INITIAL, actions); id in s.db.tasks && KeyOf(s.db.tasks[id].request) == Some(key)
  {
    EveryRunKeepsInv(actions);
    assert EventOk(Run(INITIAL, actions).db, Replayed(key, id));
  }

  /** After such an event the key is gone, or the call that is to delete it is still under way. */
  ghost predicate Freeing(s: State, id: string) {
    (exists e :: e in s.log && Frees(e, id)) ==>
      id in s.db.tasks && (HoldsNoKey(s.db, id) || ReleaseKey(id) in s.calls)
  }

  lemma StepKeepsFreeing(s: State, a: Action, id: string)
    requires Inv(s) && Freeing(s, id)
    ensures Freeing(Step(s, a), id)
  {
    hide Inv, Exec, HoldsNoKey, Frees, IsStart, CallOk;
    var next := Step(s, a);
    if a.Start? {
      assert forall c :: c in s.calls ==> c in next.calls;
    } else if a.i < |s.calls| {
      var c, e := s.calls[a.i], Exec(s.db, s.calls[a.i]);
      InvHolds(s, c);
      StepKeepsInv(s, a);
      assert next.calls[a.i] == e.next;
      ExecFacts(s.db, c, id);
      forall event | event in e.events
        ensures event == e.events[0]
      {
        var j :| 0 <= j < |e.events| && e.events[j] == event;
      }
      if ReleaseKey(id) in s.calls && c != ReleaseKey(id) {
        var i :| 0 <= i < |s.calls| && s.calls[i] == ReleaseKey(id);
        assert next.calls[i] == ReleaseKey(id);
      }
    }
  }

  lemma InvHolds(s: State, c: Call)
    requires Inv(s) && c in s.calls
    ensures CallOk(s.db, c)
  {
  }

  lemma {:induction false} EveryRunFrees(actions: seq<Action>, id: string)
    ensures Freeing(Run(INITIAL, actions), id)
  {
    if actions != [] {
      var before := actions[..|actions| - 1];
      EveryRunKeepsInv(before);
      EveryRunFrees(before, id);
      StepKeepsFreeing(Run(INITIAL, before), actions[|actions| - 1], id);
    }
  }

  /** No key is burnt: once no call is under way, a task that was cancelled or yielded as failed holds none. */
  lemma KeysComeFree(actions: seq<Action>, id: string, e: Event)
    requires var s := Run(INITIAL, actions); e in s.log && Frees(e, id) && forall c :: c in s.calls ==> c.Done?
    ensures HoldsNoKey(Run(INITIAL, actions).db, id)
  {
    EveryRunFrees(actions, id);
  }

  // ----- claims and results -------------------------------------------------------------

  ghost predicate ClaimsLogged(s: State) {
    forall id :: id in s.db.tasks && s.db.tasks[id].claimedBy.Some? ==>
      exists toYield :: Claimed(id, s.db.tasks[id].claimedBy.value, toYield) in s.log
  }

  lemma ClaimIsLogged(s: State, a: Action, id: string)
    requires ClaimsLogged(s) && a.Advance? && a.i < |s.calls| && id in Step(s, a).db.tasks
    requires Step(s, a).db.tasks[id].claimedBy.Some? && LogsClaim(s.db, Exec(s.db, s.calls[a.i]), id)
    ensures exists toYield :: Claimed(id, Step(s, a).db.tasks[id].claimedBy.value, toYield) in Step(s, a).log
  {
    hide Exec;
    var e, owner := Exec(s.db, s.calls[a.i]), Step(s, a).db.tasks[id].claimedBy.value;
    if toYield :| e.events == [Claimed(id, owner, toYield)] {
      assert Claimed(id, owner, toYield) in e.events;
    } else {
      var before :| Claimed(id, owner, before) in s.log;
      assert Claimed(id, owner, before) in Step(s, a).log;
    }
  }

  lemma {:induction false} EveryRunLogsClaims(actions: seq<Action>)
    ensures ClaimsLogged(Run(INITIAL, actions))
  {
    if actions != [] {
      var s, a := Run(INITIAL, actions[..|actions| - 1]), actions[|actions| - 1];
      EveryRunKeepsInv(actions[..|actions| - 1]);
      EveryRunLogsClaims(actions[..|actions| - 1]);
      hide Exec, CallOk;
      if a.Advance? && a.i < |s.calls| {
        assert s.calls[a.i] in s.calls;
        forall id | id in Step(s, a).db.tasks && Step(s, a).db.tasks[id].claimedBy.Some?
          ensures exists toYield :: Claimed(id, Step(s, a).db.tasks[id].claimedBy.value, toYield) in Step(s, a).log
        {
          ExecFacts(s.db, s.calls[a.i], id);
          ClaimIsLogged(s, a, id);
        }
      }
    }
  }

  /** The first claim wins for good: over the whole run at most one session has claimed a task. */
  lemma FirstClaimWins(actions: seq<Action>, id: string, session: string, other: string, y: bool, z: bool)
    requires Claimed(id, session, y) in Run(INITIAL, actions).log && Claimed(id, other, z) in Run(INITIAL, actions).log
    ensures session == other && Owner(Run(INITIAL, actions).db, id) == Some(session)
  {
    EveryRunKeepsInv(actions);
    assert EventOk(Run(INITIAL, actions).db, Claimed(id, session, y));
    assert EventOk(Run(INITIAL, actions).db, Claimed(id, other, z));
  }

  /** Only the session that claimed a task yields its result. */
  lemma OnlyTheClaimantYields(actions: seq<Action>, id: string, session: string, status: Status)
    requires Yielded(id, session, status) in Run(INITIAL, actions).log
    ensures exists toYield :: Claimed(id, session, toYield) in Run(INITIAL, actions).log
    ensures forall other, toYield :: Claimed(id, other, toYield) in Run(INITIAL, actions).log ==> other == session
  {
    EveryRunKeepsInv(actions);
    EveryRunLogsClaims(actions);
    assert EventOk(Run(INITIAL, actions).db, Yielded(id, session, status));
    forall other, toYield | Claimed(id, other, toYield) in Run(INITIAL, actions).log
      ensures other == session
    {
      assert EventOk(Run(INITIAL, actions).db, Claimed(id, other, toYield));
    }
  }

  ghost predicate Balanced(s: State, id: string) {
    |Filter(IsYieldOf(id), s.log)| + OpenEnds(s.db, id) <= 1 + |Filter(IsReopeningOf(id), s.log)|
  }

  lemma FilterOne<T>(p: T -> bool, s: seq<T>)
    requires |s| <= 1
    ensures |Filter(p, s)| == if s != [] && p(s[0]) then 1 else 0
  {
  }

  lemma ExecBalance(db: Db, c: Call, id: string)
    requires CallOk(db, c)
    ensures var e := Exec(db, c);
      |Filter(IsYieldOf(id), e.events)| + OpenEnds(e.db, id)
      <= OpenEnds(db, id) + |Filter(IsReopeningOf(id), e.events)|
  {
    hide Exec, CallOk, OpenEnds;
    ExecFacts(db, c, id);
    FilterOne(IsYieldOf(id), Exec(db, c).events);
    FilterOne(IsReopeningOf(id), Exec(db, c).events);
    OneOrNone(db, id);
    OneOrNone(Exec(db, c).db, id);
  }

  lemma OneOrNone(db: Db, id: string)
    ensures OpenEnds(db, id) <= 1
  {
  }

  /** A task gets at most one result from its worker, and one more each time the kernel reopens it. */
  lemma {:induction false} YieldsAreBounded(actions: seq<Action>, id: string)
    ensures Balanced(Run(INITIAL, actions), id)
  {
    if actions != [] {
      var s, a := Run(INITIAL, actions[..|actions| - 1]), actions[|actions| - 1];
      EveryRunKeepsInv(actions[..|actions| - 1]);
      YieldsAreBounded(actions[..|actions| - 1], id);
      hide Exec, CallOk, OpenEnds;
      if a.Advance? && a.i < |s.calls| {
        assert s.calls[a.i] in s.calls;
        ExecBalance(s.db, s.calls[a.i], id);
        FilterAppend(IsYieldOf(id), s.log, Exec(s.db, s.calls[a.i]).events);
        FilterAppend(IsReopeningOf(id), s.log, Exec(s.db, s.calls[a.i]).events);
      }
    }
  }

  // ----- chains of tasks ----------------------------------------------------------------

  /** The task n parents up. */
  ghost function Ancestor(db: Db, id: string, n: nat): string
    requires TasksOk(db) && id in db.tasks
    decreases n
  {
    if n == 0 || db.tasks[id].request.parent.None? then id
    else assert TaskOk(db, id); Ancestor(db, db.tasks[id].request.parent.value, n - 1)
  }

  /**
   A task's hop count is its exact distance from its root, less than 64; all tasks on the way are
   in the same project and name the same root, which has no parent.
   */
  lemma {:induction false} ChainEndsAtRoot(db: Db, id: string, n: nat)
    requires TasksOk(db) && id in db.tasks && n <= db.tasks[id].hops
    ensures var up := Ancestor(db, id, n);
      && up in db.tasks && db.tasks[up].hops == db.tasks[id].hops - n && db.tasks[id].hops < ABSOLUTE_MAX_HOPS
      && db.tasks[up].root == db.tasks[id].root && db.tasks[up].request.project == db.tasks[id].request.project
      && (n == db.tasks[id].hops ==> up == db.tasks[id].root && db.tasks[up].request.parent.None?)
    decreases n
  {
    assert TaskOk(db, id);
    if n > 0 {
      ChainEndsAtRoot(db, db.tasks[id].request.parent.value, n - 1);
    }
  }

  lemma EveryChainEndsAtRoot(actions: seq<Action>, id: string)
    requires id in Run(INITIAL, actions).db.tasks
    ensures var db := Run(INITIAL, actions).db;
      && TasksOk(db) && db.tasks[id].hops < ABSOLUTE_MAX_HOPS
      && Ancestor(db, id, db.tasks[id].hops) == db.tasks[id].root
      && db.tasks[id].root in db.tasks && db.tasks[db.tasks[id].root].request.parent.None?
  {
    EveryRunKeepsInv(actions);
    var db := Run(INITIAL, actions).db;
    ChainEndsAtRoot(db, id, db.tasks[id].hops);
  }

  // ----- settled tasks ------------------------------------------------------------------

  /** Admission, claims, yields, acknowledgements and wait timeouts never touch a settled status, at any moment. */
  lemma SettledIsOverwrittenExactly(db: Db, c: Call, id: string)
    requires id in db.tasks && IsSettled(db.tasks[id].status)
    ensures id in Exec(db, c).db.tasks
    ensures Exec(db, c).db.tasks[id].status != db.tasks[id].status <==> Overwrites(c, id, db.tasks[id].status)
  {
    hide Exec, Overwrites, IsSettled;
    ExecFacts(db, c, id);
  }

  /** A call run to its end with nothing in between, as under a lock that is held throughout. */
  ghost function Whole(db: Db, c: Call): Db
    decreases Left(c)
  {
    if c.Done? then db else ExecFacts(db, c, ""); Whole(Exec(db, c).db, Exec(db, c).next)
  }

  lemma {:induction false} GuardedCallsKeepSettled(db: Db, c: Call, id: string)
    requires IsGuarded(db, c, id) && id in db.tasks && IsSettled(db.tasks[id].status)
    ensures KeepsEnd(db, Whole(db, c), id)
    decreases Left(c)
  {
    hide Exec, Left, IsGuarded;
    if !c.Done? {
      ExecFacts(db, c, id);
      GuardedCallsKeepSettled(Exec(db, c).db, Exec(db, c).next, id);
    }
  }

  /**
   With each call run as a whole, only the kernel's own unguarded writes change a settled task:
   status and result stay under every admission, claim, yield, cancellation and bus report.
   */
  lemma WholeCallsKeepSettled(db: Db, c: Call, id: string)
    requires IsStart(c) && !c.EndWrite? && !c.SetStatus? && !c.Abandon?
    requires id in db.tasks && IsSettled(db.tasks[id].status)
    ensures KeepsEnd(db, Whole(db, c), id)
  {
    GuardedCallsKeepSettled(db, c, id);
  }

  // ----- each call, uninterrupted -------------------------------------------------------

  lemma WholeDone(db: Db)
    ensures Whole(db, Done) == db
  {
  }

  lemma WholeStep(db: Db, c: Call)
    requires !c.Done?
    ensures Whole(db, c) == Whole(Exec(db, c).db, Exec(db, c).next)
  {
    hide Exec;
  }

  /** Admitted exactly if the parent allows it and neither the id nor the key is taken. */
  lemma WholeAdmit(db: Db, r: Request, maxHops: nat)
    ensures var place := PlaceOf(db, r, maxHops);
      Whole(db, Admit(r, maxHops))
      == if place.Placed? && r.id !in db.tasks && (KeyOf(r).Some? ==> KeyOf(r).value !in db.keys)
         then WithTask(db, r, place.root, place.hops) else db
  {
    hide Whole, PlaceOf, KeyOf, WithTask;
    var place := PlaceOf(db, r, maxHops);
    WholeStep(db, Admit(r, maxHops));
    WholeDone(db);
    if place.Placed? {
      WholeStep(db, AdmitLookup(r, place.root, place.hops));
      WholeStep(db, AdmitWrite(r, place.root, place.hops));
      WholeDone(WithTask(db, r, place.root, place.hops));
    }
  }

  lemma WholeClaim(db: Db, id: string, session: string)
    ensures Whole(db, Claim(id, session))
         == if id in db.tasks && db.tasks[id].claimedBy.None?
            then SetTask(db, id, db.tasks[id].(claimedBy := Some(session))) else db
  {
    hide Whole, SetTask;
    WholeStep(db, Claim(id, session));
    WholeStep(db, ClaimWrite(id, session));
    WholeDone(db);
    WholeDone(Exec(db, ClaimWrite(id, session)).db);
  }

  /** Who may yield: the claimant, or while nobody is, a session bound to the target. */
  predicate MayYield(db: Db, id: string, session: string) {
    id in db.tasks && IsYieldable(db.tasks[id].status)
    && (Owner(db, id) == Some(session) || (Owner(db, id).None? && IsBound(db, session, db.tasks[id].request.target)))
  }

  function YieldedDb(db: Db, id: string, session: string, status: Status, result: string): Db
    requires id in db.tasks
  {
    var after := SetTask(db, id, db.tasks[id].(status := status, claimedBy := Some(session), result := Some(result)));
    if status.Failed? then WithoutKeysOf(after, id) else after
  }

  lemma WholeYield(db: Db, id: string, session: string, status: Status, result: string)
    ensures Whole(db, Yield(id, session, status, result))
         == if MayYield(db, id, session) && IsVerdict(status) then YieldedDb(db, id, session, status, result) else db
  {
    hide Whole, IsBound, YieldedDb, IsYieldable, Exec;
    YieldStarts(db, id, session, status, result);
    WholeStep(db, Yield(id, session, status, result));
    WholeDone(db);
    if id in db.tasks && IsYieldable(db.tasks[id].status) && IsVerdict(status) {
      WholeStep(db, YieldOwner(id, session, status, result));
      if Owner(db, id) == Some(session) {
        WholeYieldWrite(db, id, session, status, result);
      } else if Owner(db, id).None? {
        WholeFirstYield(db, id, session, status, result);
      }
    }
  }

  lemma YieldStarts(db: Db, id: string, session: string, status: Status, result: string)
    ensures Exec(db, Yield(id, session, status, result))
         == Effect(db, if id in db.tasks && IsVerdict(status) && IsYieldable(db.tasks[id].status)
                       then YieldOwner(id, session, status, result) else Done, [])
    ensures id in db.tasks ==>
      Exec(db, YieldOwner(id, session, status, result))
      == Effect(db, if Owner(db, id) == Some(session) then YieldWrite(id, session, status, result)
                    else if Owner(db, id).None? then YieldBound(id, session, status, result) else Done, [])
  {
    hide IsYieldable;
  }

  /** A yield that has to claim the task first. */
  lemma WholeFirstYield(db: Db, id: string, session: string, status: Status, result: string)
    requires id in db.tasks && IsYieldable(db.tasks[id].status) && Owner(db, id).None?
    ensures Whole(db, YieldBound(id, session, status, result))
         == if IsBound(db, session, db.tasks[id].request.target) then YieldedDb(db, id, session, status, result) else db
  {
    hide Whole, IsBound, YieldedDb, IsYieldable, Exec;
    FirstYieldSteps(db, id, session, status, result);
    var claimed := SetTask(db, id, db.tasks[id].(claimedBy := Some(session)));
    WholeStep(db, YieldBound(id, session, status, result));
    WholeDone(db);
    if IsBound(db, session, db.tasks[id].request.target) {
      WholeStep(db, YieldClaim(id, session, status, result));
      WholeStep(db, YieldClaimWrite(id, session, status, result));
      WholeYieldWrite(claimed, id, session, status, result);
      ClaimThenYield(db, id, session, status, result);
    }
  }

  lemma FirstYieldSteps(db: Db, id: string, session: string, status: Status, result: string)
    requires id in db.tasks && Owner(db, id).None?
    ensures Exec(db, YieldBound(id, session, status, result))
         == Effect(db, if IsBound(db, session, db.tasks[id].request.target)
                       then YieldClaim(id, session, status, result) else Done, [])
    ensures Exec(db, YieldClaim(id, session, status, result))
         == Effect(db, YieldClaimWrite(id, session, status, result), [])
    ensures Exec(db, YieldClaimWrite(id, session, status, result))
         == Effect(SetTask(db, id, db.tasks[id].(claimedBy := Some(session))),
                   YieldWrite(id, session, status, result), [Claimed(id, session, true)])
  {
    hide IsBound, SetTask;
  }

  lemma ClaimThenYield(db: Db, id: string, session: string, status: Status, result: string)
    requires id in db.tasks
    ensures YieldedDb(SetTask(db, id, db.tasks[id].(claimedBy := Some(session))), id, session, status, result)
         == YieldedDb(db, id, session, status, result)
  {
    var claimed := SetTask(db, id, db.tasks[id].(claimedBy := Some(session)));
    var task := db.tasks[id].(status := status, claimedBy := Some(session), result := Some(result));
    assert SetTask(claimed, id, task) == SetTask(db, id, task);
  }

  lemma WholeYieldWrite(db: Db, id: string, session: string, status: Status, result: string)
    requires id in db.tasks && IsYieldable(db.tasks[id].status)
    ensures Whole(db, YieldWrite(id, session, status, result)) == YieldedDb(db, id, session, status, result)
  {
    hide Whole, WithoutKeysOf, IsYieldable;
    var e := Exec(db, YieldWrite(id, session, status, result));
    WholeStep(db, YieldWrite(id, session, status, result));
    WholeDone(e.db);
    WholeStep(e.db, ReleaseKey(id));
    WholeDone(WithoutKeysOf(e.db, id));
  }

  /** Cancelled exactly if the asking session is the task's own and the task is not settled. */
  lemma WholeCancel(db: Db, id: string, session: string)
    ensures Whole(db, Cancel(id, session))
         == if id in db.tasks && db.tasks[id].request.session == Some(session) && !IsSettled(db.tasks[id].status)
            then WithoutKeysOf(WithStatus(db, id, Cancelled), id) else db
  {
    hide Whole, WithoutKeysOf, IsSettled, WithStatus, Exec;
    var cancelled := WithStatus(db, id, Cancelled);
    CancelSteps(db, id, session);
    CancelSteps(cancelled, id, session);
    WholeStep(db, Cancel(id, session));
    WholeDone(db);
    WholeStep(db, CancelStatus(id));
    WholeStep(db, CancelWrite(id));
    WholeStep(cancelled, ReleaseKey(id));
    WholeDone(WithoutKeysOf(cancelled, id));
  }

  lemma CancelSteps(db: Db, id: string, session: string)
    ensures Exec(db, Cancel(id, session))
         == Effect(db, if id in db.tasks && db.tasks[id].request.session == Some(session)
                       then CancelStatus(id) else Done, [])
    ensures Exec(db, CancelStatus(id))
         == Effect(db, if id in db.tasks && IsSettled(db.tasks[id].status) then Done else CancelWrite(id), [])
    ensures Exec(db, CancelWrite(id)) == Effect(WithStatus(db, id, Cancelled), ReleaseKey(id), [WasCancelled(id)])
    ensures Exec(db, ReleaseKey(id)) == Effect(WithoutKeysOf(db, id), Done, [])
  {
    hide WithoutKeysOf, IsSettled, WithStatus;
  }

  // ----- a race -------------------------------------------------------------------------

  lemma RunAppend(s: State, before: seq<Action>, a: Action)
    ensures Run(s, before + [a]) == Step(Run(s, before), a)
  {
    assert (before + [a])[..|before|] == before;
  }

  /**
   A bus report checks the status, lets go of the lock, and writes later without looking again.
   When a whole yield of the claimant comes in between, the task ends as failed and without its
   key, although its result was accepted as a completion.
   */
  lemma BusReportOverwritesYield(s: State, id: string, session: string, result: string)
    requires s.calls == [] && id in s.db.tasks && IsYieldable(s.db.tasks[id].status)
    requires Owner(s.db, id) == Some(session)
    ensures var after := Run(s, [Start(BusEnd(id, true, None, None)), Advance(0),
                                 Start(Yield(id, session, Completed, result)), Advance(1), Advance(1), Advance(1),
                                 Advance(0)]);
      && Yielded(id, session, Completed) in after.log
      && id in after.db.tasks && after.db.tasks[id].status == Failed
      && after.db.tasks[id].result == Some(result) && HoldsNoKey(after.db, id)
  {
    hide Run, Step, Exec, SetTask, WithoutKeysOf, HoldsNoKey, IsYieldable, Lost;
    var bus, y := BusEnd(id, true, None, None), Yield(id, session, Completed, result);
    var a := [Start(bus)];
    SetTaskHas(s.db, id, s.db.tasks[id].(status := Completed, claimedBy := Some(session), result := Some(result)));
    EmptyRun(s);
    RunAppend(s, [], a[0]);
    assert [] + [a[0]] == a;
    OneStarts(s, [], bus);
    BusSteps(s.db, id);
    RunAppend(s, a, Advance(0));
    FirstAdvances(Run(s, a), bus, []);
    var s2 := Run(s, a + [Advance(0)]);
    RunAppend(s, a + [Advance(0)], Start(y));
    OneStarts(s2, [EndWrite(id, true, None)], y);
    YieldInFull(s, a + [Advance(0)] + [Start(y)], EndWrite(id, true, None), id, session, result);
    var all := a + [Advance(0)] + [Start(y)] + [Advance(1)] + [Advance(1)] + [Advance(1)];
    RunAppend(s, all, Advance(0));
    var s6 := Run(s, all);
    BusWrites(s6.db, id);
    FirstAdvances(s6, EndWrite(id, true, None), [Done]);
    assert all + [Advance(0)] == [Start(bus), Advance(0), Start(y), Advance(1), Advance(1), Advance(1), Advance(0)];
  }

  lemma SetTaskHas(db: Db, id: string, task: Task)
    ensures id in SetTask(db, id, task).tasks && SetTask(db, id, task).tasks[id] == task
  {
  }

  lemma OneStarts(s: State, others: seq<Call>, c: Call)
    requires s.calls == others && IsStart(c)
    ensures Step(s, Start(c)) == s.(calls := others + [c])
  {
  }

  lemma FirstAdvances(s: State, first: Call, others: seq<Call>)
    requires s.calls == [first] + others
    ensures var e := Exec(s.db, first);
      Step(s, Advance(0)) == State(e.db, [e.next] + others, s.freed + Lost(s.db, e.db), s.log + e.events)
  {
    hide Exec;
    assert ([first] + others)[0 := Exec(s.db, first).next] == [Exec(s.db, first).next] + others;
  }

  lemma BusSteps(db: Db, id: string)
    requires id in db.tasks && IsYieldable(db.tasks[id].status)
    ensures Exec(db, BusEnd(id, true, None, None)) == Effect(db, EndWrite(id, true, None), [])
  {
  }

  lemma BusWrites(db: Db, id: string)
    requires id in db.tasks
    ensures var e := Exec(db, EndWrite(id, true, None));
      && id in e.db.tasks && e.db.tasks[id] == db.tasks[id].(status := Failed)
      && HoldsNoKey(e.db, id) && e.events == []
  {
  }

  lemma EmptyRun(s: State)
    ensures Run(s, []) == s
  {
  }

  lemma SecondAdvances(s: State, first: Call, c: Call)
    requires s.calls == [first, c]
    ensures var e := Exec(s.db, c);
      Step(s, Advance(1)) == State(e.db, [first, e.next], s.freed + Lost(s.db, e.db), s.log + e.events)
  {
    hide Exec;
  }

  lemma ClaimantsYield(db: Db, id: string, session: string, result: string)
    requires id in db.tasks && IsYieldable(db.tasks[id].status) && Owner(db, id) == Some(session)
    ensures Exec(db, Yield(id, session, Completed, result))
         == Effect(db, YieldOwner(id, session, Completed, result), [])
    ensures Exec(db, YieldOwner(id, session, Completed, result))
         == Effect(db, YieldWrite(id, session, Completed, result), [])
    ensures Exec(db, YieldWrite(id, session, Completed, result))
         == Effect(
              SetTask(db, id, db.tasks[id].(status := Completed, claimedBy := Some(session), result := Some(result))),
              Done, [Yielded(id, session, Completed)])
  {
    hide IsBound, TakeExec, SetTask;
  }

  /** The claimant's yield goes through beside a first call that stands still. */
  lemma YieldInFull(s: State, before: seq<Action>, first: Call, id: string, session: string, result: string)
    requires var now := Run(s, before);
      && now.calls == [first, Yield(id, session, Completed, result)] && id in now.db.tasks
      && IsYieldable(now.db.tasks[id].status) && Owner(now.db, id) == Some(session)
    ensures var now, after := Run(s, before), Run(s, before + [Advance(1)] + [Advance(1)] + [Advance(1)]);
      && after.calls == [first, Done] && after.log == now.log + [Yielded(id, session, Completed)]
      && after.db == SetTask(now.db, id, now.db.tasks[id].(status := Completed, claimedBy := Some(session),
                                                           result := Some(result)))
  {
    hide Run, Step, Lost, Exec, SetTask;
    var now, y := Run(s, before), Yield(id, session, Completed, result);
    ClaimantsYield(now.db, id, session, result);
    RunAppend(s, before, Advance(1));
    SecondAdvances(now, first, y);
    var s1 := Run(s, before + [Advance(1)]);
    RunAppend(s, before + [Advance(1)], Advance(1));
    SecondAdvances(s1, first, YieldOwner(id, session, Completed, result));
    var s2 := Run(s, before + [Advance(1)] + [Advance(1)]);
    RunAppend(s, before + [Advance(1)] + [Advance(1)], Advance(1));
    SecondAdvances(s2, first, YieldWrite(id, session, Completed, result));
    assert now.log + [] + [] == now.log;
  }
}
