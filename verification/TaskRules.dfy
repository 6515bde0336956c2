/**
 The rules of the task operations in the fields of the rows: which requests are admitted and
 where they are placed, who may claim, yield and cancel, and in which states. Statuses, scopes and
 limits are written out. And over every run: who claims a task in order to yield its result has
 connected as the agent that the task is for.
 */
module TaskRules {
  import opened Sequences
  import opened TaskLaws
  import opened TaskStore

  // ----- admission ----------------------------------------------------------------------

  /** Where a request belongs, or None when it is refused. */
  function PlaceFor(db: Db, r: Request, maxHops: nat): Option<(string, nat)> {
    var limit := if maxHops < 1 then 1 else if maxHops > 64 then 64 else maxHops;
    match r.parent
    case None => Some((r.id, 0))
    case Some(p) =>
      if p in db.tasks && db.tasks[p].request.project == r.project
         && db.tasks[p].status !in {Failed, Expired, NeedsHuman, Timeout, Cancelled} && db.tasks[p].hops + 1 < limit
      then Some((db.tasks[p].root, db.tasks[p].hops + 1)) else None
  }

  /** The key under which a request is known, if it has one. */
  function KeyFor(r: Request): Option<Key> {
    match r.key
    case None => None
    case Some(text) =>
      Some(Key(if r.session.Some? then "session:" + r.session.value else "agent:" + r.source, r.project, text))
  }

  /** The table with the request's row: in the status it came with, unclaimed and without a result. */
  function Admitted(db: Db, r: Request, place: (string, nat)): Db {
    Db(db.tasks[r.id := Task(r, place.0, place.1, r.status, None, None)],
       if r.key.Some? then db.keys[KeyFor(r).value := r.id] else db.keys, db.sessions)
  }

  /**
   A request is admitted exactly if its parent is there, in its project, not ended otherwise than
   completed and not too deep, and neither its id nor its key is in use; or else nothing changes.
   */
  lemma AdmissionRule(db: Db, r: Request, maxHops: nat)
    ensures var place := PlaceFor(db, r, maxHops);
      Whole(db, Admit(r, maxHops))
      == if place.Some? && r.id !in db.tasks && (r.key.Some? ==> KeyFor(r).value !in db.keys)
         then Admitted(db, r, place.value) else db
  {
    hide Whole;
    WholeAdmit(db, r, maxHops);
    assert KeyOf(r) == KeyFor(r);
  }

  // ----- claims, yields and cancellations -----------------------------------------------

  /** A claim takes a task that exists and has no owner, and changes nothing else. */
  lemma ClaimRule(db: Db, id: string, session: string)
    ensures Whole(db, Claim(id, session))
         == if id in db.tasks && db.tasks[id].claimedBy == None
            then db.(tasks := db.tasks[id := db.tasks[id].(claimedBy := Some(session))]) else db
  {
    hide Whole;
    WholeClaim(db, id, session);
  }

  /** Who may yield what: the owner, or while there is none, a session that is connected as the task's target. */
  predicate YieldAllowed(db: Db, id: string, session: string, status: Status) {
    && id in db.tasks && status in {Completed, Failed}
    && db.tasks[id].status in {Queued, Dispatched, Executing, WaitTimeoutReached}
    && match db.tasks[id].claimedBy
       case Some(owner) => owner == session
       case None =>
         db.tasks[id].request.target.Some? && session in db.sessions
         && db.sessions[session] == Lower(db.tasks[id].request.target.value)
  }

  /** The keys but for those of task id. */
  function KeysBut(db: Db, id: string): map<Key, string> {
    map key | key in db.keys && db.keys[key] != id :: db.keys[key]
  }

  lemma YieldRule(db: Db, id: string, session: string, status: Status, result: string)
    ensures Whole(db, Yield(id, session, status, result))
         == if YieldAllowed(db, id, session, status)
            then db.(tasks := db.tasks[id := db.tasks[id].(status := status, claimedBy := Some(session),
                                                           result := Some(result))],
                     keys := if status == Failed then KeysBut(db, id) else db.keys)
            else db
  {
    hide Whole;
    WholeYield(db, id, session, status, result);
    assert YieldAllowed(db, id, session, status) <==> MayYield(db, id, session) && IsVerdict(status);
  }

  /** A session cancels its own task unless that has ended, and the key comes free. */
  lemma CancelRule(db: Db, id: string, session: string)
    ensures Whole(db, Cancel(id, session))
         == if id in db.tasks && db.tasks[id].request.session == Some(session)
               && db.tasks[id].status !in {Completed, Failed, Expired, Timeout, Cancelled}
            then db.(tasks := db.tasks[id := db.tasks[id].(status := Cancelled)], keys := KeysBut(db, id)) else db
  {
    hide Whole;
    WholeCancel(db, id, session);
  }

  // ----- the bus and the kernel ---------------------------------------------------------

  /** A bus report ends a task that is on its way, if its sender does not name another agent than the target. */
  lemma BusRule(db: Db, id: string, failed: bool, sender: Option<string>, output: Option<string>)
    ensures Whole(db, BusEnd(id, failed, sender, output))
         == if id in db.tasks
               && db.tasks[id].status
                  in {Dispatched, Executing, Queued, RecoveryPending, NeedsHuman, WaitTimeoutReached}
               && (sender.Some? && db.tasks[id].request.target.Some? ==>
                     Lower(sender.value) == Lower(db.tasks[id].request.target.value))
            then EndedDb(db, id, failed, output) else db
  {
    hide Whole, EndedDb, Lower;
    WholeStep(db, BusEnd(id, failed, sender, output));
    WholeDone(db);
    EndRule(db, id, failed, output);
  }

  /** The table after an end: the status, the result if there is one, and for a failure without the key. */
  function EndedDb(db: Db, id: string, failed: bool, output: Option<string>): Db
    requires id in db.tasks
  {
    var result := if output.Some? then output else db.tasks[id].result;
    db.(tasks := db.tasks[id := db.tasks[id].(status := if failed then Failed else Completed, result := result)],
        keys := if failed then KeysBut(db, id) else db.keys)
  }

  /** The write of such an end looks at nothing but that the row is there. */
  lemma EndRule(db: Db, id: string, failed: bool, output: Option<string>)
    ensures Whole(db, EndWrite(id, failed, output)) == if id in db.tasks then EndedDb(db, id, failed, output) else db
  {
    hide Whole;
    WholeStep(db, EndWrite(id, failed, output));
    WholeDone(Exec(db, EndWrite(id, failed, output)).db);
  }

  function Restated(db: Db, id: string, status: Status): Db
    requires id in db.tasks
  {
    db.(tasks := db.tasks[id := db.tasks[id].(status := status)])
  }

  /** The acknowledgement of its target starts a dispatched task. */
  lemma AckRule(db: Db, id: string, bot: string)
    ensures Whole(db, Ack(id, bot))
         == if id in db.tasks && db.tasks[id].status == Dispatched
               && (db.tasks[id].request.target.Some? ==> Lower(db.tasks[id].request.target.value) == Lower(bot))
            then Restated(db, id, Executing) else db
  {
    hide Whole, Lower;
    WholeStep(db, Ack(id, bot));
    WholeDone(GuardedExec(db, Ack(id, bot)).db);
  }

  /** When a wait is over, a task that is on its way goes to the background. */
  lemma WaitRule(db: Db, id: string)
    ensures Whole(db, WaitOver(id))
         == if id in db.tasks
               && db.tasks[id].status in {Queued, Dispatched, Executing, RecoveryPending, PendingApproval}
            then Restated(db, id, WaitTimeoutReached) else db
  {
    hide Whole;
    WholeStep(db, WaitOver(id));
    WholeDone(GuardedExec(db, WaitOver(id)).db);
  }

  /** The kernel sets any status; abandoning a task keeps a result that is there. */
  lemma KernelRule(db: Db, id: string, status: Status, note: string)
    ensures Whole(db, SetStatus(id, status)) == if id in db.tasks then Restated(db, id, status) else db
    ensures Whole(db, Abandon(id, note))
         == if id !in db.tasks then db
            else
              var task := Restated(db, id, Failed).tasks[id];
              db.(tasks := db.tasks[id := if task.result.Some? then task else task.(result := Some(note))])
  {
    hide Whole;
    WholeStep(db, SetStatus(id, status));
    WholeDone(KernelExec(db, SetStatus(id, status)).db);
    WholeStep(db, Abandon(id, note));
    WholeDone(KernelExec(db, Abandon(id, note)).db);
  }

  /** Released and collected keys are gone, and no others. */
  lemma KeyRule(db: Db, id: string, gone: set<Key>)
    ensures Whole(db, ReleaseKey(id)) == db.(keys := KeysBut(db, id))
    ensures Whole(db, CollectKeys(gone)) == db.(keys := db.keys - gone)
  {
    hide Whole;
    WholeStep(db, ReleaseKey(id));
    WholeDone(CancelExec(db, ReleaseKey(id)).db);
    WholeStep(db, CollectKeys(gone));
    WholeDone(TableExec(db, CollectKeys(gone)).db);
  }

  /** A session that is known keeps its agent; names are kept in small letters. */
  lemma ConnectRule(db: Db, session: string, agent: string)
    ensures Whole(db, Connect(session, agent))
         == if session in db.sessions then db else db.(sessions := db.sessions[session := Lower(agent)])
  {
    hide Whole, Lower, Exec;
    ConnectStep(db, session, agent);
    WholeStep(db, Connect(session, agent));
    WholeDone(Exec(db, Connect(session, agent)).db);
  }

  lemma ConnectStep(db: Db, session: string, agent: string)
    ensures var e := Exec(db, Connect(session, agent));
      e.next == Done && e.db == if session in db.sessions then db
                                else db.(sessions := db.sessions[session := Lower(agent)])
  {
    hide Lower;
  }

  /** A session that the table of sessions has no more room for is deleted, and nothing else. */
  lemma PruneRule(db: Db, session: string)
    ensures Whole(db, PruneSession(session)) == db.(sessions := db.sessions - {session})
  {
    hide Whole;
    WholeStep(db, PruneSession(session));
    WholeDone(TableExec(db, PruneSession(session)).db);
  }

  /** Every operation can be called, at any time. */
  lemma CallsMayStart(r: Request, n: nat, id: string, session: string, status: Status, failed: bool,
                      text: Option<string>, gone: set<Key>)
    ensures IsStart(Admit(r, n)) && IsStart(Claim(id, session)) && IsStart(Yield(id, session, status, id))
    ensures IsStart(Cancel(id, session)) && IsStart(BusEnd(id, failed, text, text))
    ensures IsStart(EndWrite(id, failed, text)) && IsStart(ReleaseKey(id)) && IsStart(Ack(id, session))
    ensures IsStart(WaitOver(id)) && IsStart(SetStatus(id, status)) && IsStart(Abandon(id, session))
    ensures IsStart(CollectKeys(gone)) && IsStart(Connect(session, id)) && IsStart(PruneSession(session))
  {
  }

  /** A task counts as reopened exactly when the kernel takes one that has ended back to a state that has not. */
  lemma ReopenedMeans(db: Db, id: string, status: Status)
    ensures Exec(db, SetStatus(id, status)).events
         == if id in db.tasks && db.tasks[id].status in {Completed, Failed, Expired, Timeout, Cancelled}
               && status !in {Completed, Failed, Expired, Timeout, Cancelled}
            then [Reopened(id)] else []
  {
  }

  // ----- settled tasks ------------------------------------------------------------------

  /** The calls that the kernel makes on its own. */
  predicate IsKernels(c: Call) { c.SetStatus? || c.Abandon? || c.EndWrite? }

  /** Of whole calls only the kernel's own change the status or the result of a task that has ended. */
  lemma EndedTasksStay(db: Db, c: Call, id: string)
    requires IsStart(c) && !IsKernels(c) && id in db.tasks
    requires db.tasks[id].status in {Completed, Failed, Expired, Timeout, Cancelled}
    ensures id in Whole(db, c).tasks
    ensures Whole(db, c).tasks[id].status == db.tasks[id].status && Whole(db, c).tasks[id].result == db.tasks[id].result
  {
    hide Whole;
    WholeCallsKeepSettled(db, c, id);
  }

  // ----- over every run -----------------------------------------------------------------

  /** The session has connected, at some time, as the agent that the task is for. */
  ghost predicate ServesTarget(s: State, id: string, session: string) {
    && id in s.db.tasks && s.db.tasks[id].request.target.Some?
    && exists agent :: Connected(session, agent) in s.log && Lower(agent) == Lower(s.db.tasks[id].request.target.value)
  }

  ghost predicate SessionsLogged(s: State) {
    forall session :: session in s.db.sessions ==>
      exists agent :: Connected(session, agent) in s.log && s.db.sessions[session] == Lower(agent)
  }

  ghost predicate ClaimsServe(s: State) {
    && SessionsLogged(s)
    && (forall c :: c in s.calls && (c.YieldClaim? || c.YieldClaimWrite?) ==> ServesTarget(s, c.id, c.session))
    && forall id, session :: Claimed(id, session, true) in s.log ==> ServesTarget(s, id, session)
  }

  /** What one statement does to the sessions, and where claims to yield come from. */
  ghost predicate Joins(db: Db, c: Call, e: Effect) {
    && (forall session :: session in e.db.sessions ==>
          (session in db.sessions && e.db.sessions[session] == db.sessions[session])
          || (c.Connect? && e.events == [Connected(session, c.agent)] && e.db.sessions[session] == Lower(c.agent)))
    && (e.next.YieldClaim? || e.next.YieldClaimWrite? ==>
          ((c.YieldClaim? || c.YieldClaimWrite?) && c.id == e.next.id && c.session == e.next.session)
          || (c.YieldBound? && c.id == e.next.id && c.session == e.next.session && c.id in db.tasks
              && db.tasks[c.id].request.target.Some? && c.session in db.sessions
              && db.sessions[c.session] == Lower(db.tasks[c.id].request.target.value)))
    && (forall id, session :: Claimed(id, session, true) in e.events ==>
          c.YieldClaimWrite? && c.id == id && c.session == session)
  }

  lemma YieldJoins(db: Db, c: Call)
    requires c.Yield? || c.YieldOwner? || c.YieldBound? || c.YieldClaim? || c.YieldClaimWrite? || c.YieldWrite?
    ensures Joins(db, c, YieldExec(db, c))
  {
    hide Lower, IsYieldable;
  }

  lemma AdmitJoins(db: Db, c: Call)
    requires c.Admit? || c.AdmitLookup? || c.AdmitWrite?
    ensures Joins(db, c, AdmitExec(db, c))
  {
    hide PlaceOf, KeyOf;
  }

  lemma ClaimJoins(db: Db, c: Call)
    requires c.Claim? || c.ClaimWrite?
    ensures Joins(db, c, ClaimExec(db, c))
  {
    hide IsBound;
  }

  lemma CancelJoins(db: Db, c: Call)
    requires c.Cancel? || c.CancelStatus? || c.CancelWrite? || c.ReleaseKey?
    ensures Joins(db, c, CancelExec(db, c))
  {
    hide WithoutKeysOf, IsSettled;
  }

  lemma BusJoins(db: Db, c: Call)
    requires c.BusEnd? || c.EndWrite?
    ensures Joins(db, c, BusExec(db, c))
  {
    hide Lower, MayEnd, WithoutKeysOf;
  }

  lemma KernelJoins(db: Db, c: Call)
    requires c.SetStatus? || c.Abandon?
    ensures Joins(db, c, KernelExec(db, c))
  {
    hide IsSettled;
  }

  lemma GuardedJoins(db: Db, c: Call)
    requires c.Ack? || c.WaitOver?
    ensures Joins(db, c, GuardedExec(db, c))
  {
    hide Lower, IsYieldable;
  }

  lemma TableJoins(db: Db, c: Call)
    requires c.CollectKeys? || c.Connect? || c.PruneSession? || c.Done?
    ensures Joins(db, c, TableExec(db, c))
  {
    hide Lower;
  }

  lemma ExecJoins(db: Db, c: Call)
    ensures Joins(db, c, Exec(db, c))
  {
    hide Joins, AdmitExec, ClaimExec, YieldExec, CancelExec, BusExec, KernelExec, GuardedExec, TableExec;
    if c.Admit? || c.AdmitLookup? || c.AdmitWrite? {
      AdmitJoins(db, c);
    } else if c.Claim? || c.ClaimWrite? {
      ClaimJoins(db, c);
    } else if c.Cancel? || c.CancelStatus? || c.CancelWrite? || c.ReleaseKey? {
      CancelJoins(db, c);
    } else if c.BusEnd? || c.EndWrite? {
      BusJoins(db, c);
    } else if c.SetStatus? || c.Abandon? {
      KernelJoins(db, c);
    } else if c.Ack? || c.WaitOver? {
      GuardedJoins(db, c);
    } else if c.CollectKeys? || c.Connect? || c.PruneSession? || c.Done? {
      TableJoins(db, c);
    } else {
      YieldJoins(db, c);
    }
  }

  lemma ServesStill(s: State, a: Action, id: string, session: string)
    requires Inv(s) && ServesTarget(s, id, session)
    ensures ServesTarget(Step(s, a), id, session)
  {
    hide Inv, Exec, Lower;
    StepKeepsInv(s, a);
    var agent :| Connected(session, agent) in s.log && Lower(agent) == Lower(s.db.tasks[id].request.target.value);
    assert Connected(session, agent) in Step(s, a).log;
  }

  lemma BoundServes(s: State, id: string, session: string)
    requires SessionsLogged(s) && id in s.db.tasks && s.db.tasks[id].request.target.Some?
    requires session in s.db.sessions && s.db.sessions[session] == Lower(s.db.tasks[id].request.target.value)
    ensures ServesTarget(s, id, session)
  {
  }

  lemma StepKeepsSessions(s: State, i: nat)
    requires SessionsLogged(s) && i < |s.calls|
    ensures SessionsLogged(Step(s, Advance(i)))
  {
    hide Exec, Lower;
    var c, e, next := s.calls[i], Exec(s.db, s.calls[i]), Step(s, Advance(i));
    ExecJoins(s.db, c);
    forall session | session in next.db.sessions
      ensures exists agent :: Connected(session, agent) in next.log && next.db.sessions[session] == Lower(agent)
    {
      if session in s.db.sessions && e.db.sessions[session] == s.db.sessions[session] {
        var agent :| Connected(session, agent) in s.log && s.db.sessions[session] == Lower(agent);
        assert Connected(session, agent) in next.log;
      } else {
        assert Connected(session, c.agent) in e.events;
        assert Connected(session, c.agent) in next.log;
      }
    }
  }

  lemma StepKeepsClaims(s: State, a: Action)
    requires Inv(s) && ClaimsServe(s)
    ensures ClaimsServe(Step(s, a))
  {
    hide Inv, Exec, Lower, ServesTarget, SessionsLogged, IsStart;
    var next := Step(s, a);
    if a.Start? {
      if IsStart(a.call) {
        StartClaimsNothing(a.call);
      }
      assert forall id, session :: ServesTarget(s, id, session) ==> ServesTarget(next, id, session) by {
        forall id, session | ServesTarget(s, id, session)
          ensures ServesTarget(next, id, session)
        {
          ServesStill(s, a, id, session);
        }
      }
      SameSessions(s, next);
    } else if a.i < |s.calls| {
      var c, e := s.calls[a.i], Exec(s.db, s.calls[a.i]);
      ExecJoins(s.db, c);
      StepKeepsSessions(s, a.i);
      assert c in s.calls;
      if c.YieldBound? && (e.next.YieldClaim? || e.next.YieldClaimWrite?) {
        BoundServes(s, c.id, c.session);
      }
      forall d | d in next.calls && (d.YieldClaim? || d.YieldClaimWrite?)
        ensures ServesTarget(next, d.id, d.session)
      {
        assert d == e.next || d in s.calls;
        ServesStill(s, a, d.id, d.session);
      }
      forall id, session | Claimed(id, session, true) in next.log
        ensures ServesTarget(next, id, session)
      {
        assert Claimed(id, session, true) in s.log || Claimed(id, session, true) in e.events;
        ServesStill(s, a, id, session);
      }
    }
  }

  lemma SameSessions(s: State, next: State)
    requires SessionsLogged(s) && next.db == s.db && next.log == s.log
    ensures SessionsLogged(next)
  {
  }

  lemma StartClaimsNothing(c: Call)
    requires IsStart(c)
    ensures !c.YieldClaim? && !c.YieldClaimWrite?
  {
  }

  lemma {:induction false} EveryRunKeepsClaims(actions: seq<Action>)
    ensures ClaimsServe(Run(INITIAL, actions))
  {
    if actions != [] {
      EveryRunKeepsInv(actions[..|actions| - 1]);
      EveryRunKeepsClaims(actions[..|actions| - 1]);
      StepKeepsClaims(Run(INITIAL, actions[..|actions| - 1]), actions[|actions| - 1]);
    }
  }

  /**
   Over every run, whatever connects, is forgotten and claims in between: a session that claimed a
   task in order to yield its result had connected as the agent that the task is for.
   */
  lemma YieldersServeTheTarget(actions: seq<Action>, id: string, session: string)
    requires Claimed(id, session, true) in Run(INITIAL, actions).log
    ensures var s := Run(INITIAL, actions);
      && id in s.db.tasks && s.db.tasks[id].request.target.Some?
      && exists agent ::
           Connected(session, agent) in s.log && Lower(agent) == Lower(s.db.tasks[id].request.target.value)
  {
    EveryRunKeepsClaims(actions);
  }
}
