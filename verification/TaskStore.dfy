/**
 The kernel's task table: admission with idempotency keys and a parent chain, claims, yielded
 results, cancellation. Many calls are under way at once; one step is one SQL statement or one
 transaction of one of them, so every interleaving of their statements is a run.
 */
module TaskStore {
  import opened Sequences

  // ----- rows ---------------------------------------------------------------------------

  datatype Status =
    | Queued | PendingApproval | Dispatched | Executing | Completed | Failed | NeedsHuman
    | RecoveryPending | Expired | Timeout | WaitTimeoutReached | Cancelled

  /** The states that a result may still be yielded in. */
  predicate IsYieldable(status: Status) {
    status.Queued? || status.Dispatched? || status.Executing? || status.WaitTimeoutReached?
  }

  /** The states that end a task for good; `NeedsHuman` may still be cancelled. */
  predicate IsSettled(status: Status) {
    status.Completed? || status.Failed? || status.Expired? || status.Timeout? || status.Cancelled?
  }

  /** What a client asks for; key, session and target are trimmed, None when missing or blank. */
  datatype Request = Request(
    id: string, parent: Option<string>, project: string, source: string, target: Option<string>,
    session: Option<string>, key: Option<string>, status: Status)

  /** A row of `a2a_tasks`; root and hops are worked out by the store, never taken from the client. */
  datatype Task = Task(
    request: Request, root: string, hops: nat, status: Status, claimedBy: Option<string>, result: Option<string>)

  /** The primary key of `idempotency_keys`. */
  datatype Key = Key(scope: string, project: string, text: string)

  /** `sessions` gives the agent of each connected session. */
  datatype Db = Db(tasks: map<string, Task>, keys: map<Key, string>, sessions: map<string, string>)

  const EMPTY: Db := Db(map[], map[], map[])

  const ABSOLUTE_MAX_HOPS: nat := 64

  /** A session cannot be borrowed by naming its agent: it is its own scope. */
  function Scope(r: Request): string {
    if r.session.Some? then "session:" + r.session.value else "agent:" + r.source
  }

  function KeyOf(r: Request): Option<Key> {
    if r.key.Some? then Some(Key(Scope(r), r.project, r.key.value)) else None
  }

  // ----- calls --------------------------------------------------------------------------

  /** A call and the point it has reached, with what it remembers of its reads. */
  datatype Call =
    | Admit(request: Request, maxHops: nat)
    | AdmitLookup(request: Request, root: string, hops: nat)
    | AdmitWrite(request: Request, root: string, hops: nat)
    | Claim(id: string, session: string)
    | ClaimWrite(id: string, session: string)
    | Yield(id: string, session: string, status: Status, result: string)
    | YieldOwner(id: string, session: string, status: Status, result: string)
    | YieldBound(id: string, session: string, status: Status, result: string)
    | YieldClaim(id: string, session: string, status: Status, result: string)
    | YieldClaimWrite(id: string, session: string, status: Status, result: string)
    | YieldWrite(id: string, session: string, status: Status, result: string)
    | Cancel(id: string, session: string)
    | CancelStatus(id: string)
    | CancelWrite(id: string)
    | ReleaseKey(id: string)
    | BusEnd(id: string, failed: bool, sender: Option<string>, output: Option<string>)
    | EndWrite(id: string, failed: bool, output: Option<string>)
    | Ack(id: string, bot: string)
    | WaitOver(id: string)
    | SetStatus(id: string, status: Status)
    | Abandon(id: string, note: string)
    | CollectKeys(gone: set<Key>)
    | Connect(session: string, agent: string)
    | PruneSession(session: string)
    | Done

  /** Where a caller may begin; after the first line, with a single statement or transaction. */
  predicate IsStart(c: Call) {
    c.Admit? || c.Claim? || c.Yield? || c.Cancel? || c.BusEnd?
    || c.EndWrite? || c.ReleaseKey? || c.Ack? || c.WaitOver?
    || c.SetStatus? || c.Abandon? || c.CollectKeys? || c.Connect? || c.PruneSession?
  }

  /** What happened, in order; `toYield` says that the claim is part of a yield. */
  datatype Event =
    | Accepted(id: string)
    | Replayed(key: Key, id: string)
    | Connected(session: string, agent: string)
    | Claimed(id: string, session: string, toYield: bool)
    | Yielded(id: string, session: string, status: Status)
    | WasCancelled(id: string)
    | Reopened(id: string)

  datatype Effect = Effect(db: Db, next: Call, events: seq<Event>)

  // ----- statements ---------------------------------------------------------------------

  function SetTask(db: Db, id: string, task: Task): Db { db.(tasks := db.tasks[id := task]) }

  function WithStatus(db: Db, id: string, status: Status): Db {
    if id in db.tasks then SetTask(db, id, db.tasks[id].(status := status)) else db
  }

  /** `DELETE FROM idempotency_keys WHERE task_id = ?` */
  function WithoutKeysOf(db: Db, id: string): (after: Db)
    ensures after.tasks == db.tasks && after.sessions == db.sessions
  {
    db.(keys := map key | key in db.keys && db.keys[key] != id :: db.keys[key])
  }

  datatype Place = Placed(root: string, hops: nat) | Rejected

  /** Where a request belongs in the chain of tasks, from its parent's row. */
  function PlaceOf(db: Db, r: Request, maxHops: nat): Place {
    var place :=
      if r.parent.None? then Placed(r.id, 0)
      else if r.parent.value !in db.tasks then Rejected
      else
        var parent := db.tasks[r.parent.value];
        if parent.request.project != r.project then Rejected
        else if parent.status.NeedsHuman? || (IsSettled(parent.status) && !parent.status.Completed?) then Rejected
        else Placed(parent.root, parent.hops + 1);
    if place.Placed? && place.hops < Max(1, Min(maxHops, ABSOLUTE_MAX_HOPS)) then place else Rejected
  }

  function WithTask(db: Db, r: Request, root: string, hops: nat): Db {
    db.(tasks := db.tasks[r.id := Task(r, root, hops, r.status, None, None)],
        keys := if KeyOf(r).Some? then db.keys[KeyOf(r).value := r.id] else db.keys)
  }

  function AdmitExec(db: Db, c: Call): Effect
    requires c.Admit? || c.AdmitLookup? || c.AdmitWrite?
  {
    var r, key := c.request, KeyOf(c.request);
    match c
    case Admit(_, maxHops) =>
      var place := PlaceOf(db, r, maxHops);
      if place.Rejected? then Effect(db, Done, [])
      else Effect(db, if key.Some? then AdmitLookup(r, place.root, place.hops)
                      else AdmitWrite(r, place.root, place.hops), [])
    case AdmitLookup(_, root, hops) =>
      if key.Some? && key.value in db.keys then Effect(db, Done, [Replayed(key.value, db.keys[key.value])])
      else Effect(db, AdmitWrite(r, root, hops), [])
    case AdmitWrite(_, root, hops) =>
      // One transaction: a used id is an error, a used key rolls the row back and replays.
      if r.id in db.tasks then Effect(db, Done, [])
      else if key.Some? && key.value in db.keys then Effect(db, Done, [Replayed(key.value, db.keys[key.value])])
      else
        Effect(WithTask(db, r, root, hops), Done, [Accepted(r.id)])
  }

  function Owner(db: Db, id: string): Option<string> {
    if id in db.tasks then db.tasks[id].claimedBy else None
  }

  /** `SET claimed_by = ? WHERE id = ? AND claimed_by IS NULL`; the claim goes on as `won` or is over. */
  function TakeExec(db: Db, id: string, session: string, won: Call): Effect {
    if id in db.tasks && db.tasks[id].claimedBy.None?
    then Effect(SetTask(db, id, db.tasks[id].(claimedBy := Some(session))), won,
                [Claimed(id, session, won.YieldWrite?)])
    else Effect(db, Done, [])
  }

  function ClaimExec(db: Db, c: Call): Effect
    requires c.Claim? || c.ClaimWrite?
  {
    match c
    case Claim(id, session) => Effect(db, if Owner(db, id).None? then ClaimWrite(id, session) else Done, [])
    case ClaimWrite(id, session) => TakeExec(db, id, session, Done)
  }

  predicate IsBound(db: Db, session: string, target: Option<string>) {
    target.Some? && session in db.sessions && db.sessions[session] == Lower(target.value)
  }

  function YieldExec(db: Db, c: Call): Effect
    requires c.Yield? || c.YieldOwner? || c.YieldBound? || c.YieldClaim? || c.YieldClaimWrite? || c.YieldWrite?
  {
    var id, session, status, result := c.id, c.session, c.status, c.result;
    var stop := Effect(db, Done, []);
    if id !in db.tasks then stop
    else
      match c
      case Yield(_, _, _, _) =>
        if (status.Completed? || status.Failed?) && IsYieldable(db.tasks[id].status)
        then Effect(db, YieldOwner(id, session, status, result), []) else stop
      case YieldOwner(_, _, _, _) =>
        if Owner(db, id) == Some(session) then Effect(db, YieldWrite(id, session, status, result), [])
        else if Owner(db, id).None? then Effect(db, YieldBound(id, session, status, result), []) else stop
      case YieldBound(_, _, _, _) =>
        if IsBound(db, session, db.tasks[id].request.target)
        then Effect(db, YieldClaim(id, session, status, result), []) else stop
      case YieldClaim(_, _, _, _) =>
        if Owner(db, id) == Some(session) then Effect(db, YieldWrite(id, session, status, result), [])
        else if Owner(db, id).None? then Effect(db, YieldClaimWrite(id, session, status, result), []) else stop
      case YieldClaimWrite(_, _, _, _) => TakeExec(db, id, session, YieldWrite(id, session, status, result))
      case YieldWrite(_, _, _, _) =>
        if IsYieldable(db.tasks[id].status) then
          var task := db.tasks[id].(status := status, claimedBy := Some(session), result := Some(result));
          Effect(SetTask(db, id, task), if status.Failed? then ReleaseKey(id) else Done,
                 [Yielded(id, session, status)])
        else stop
  }

  function CancelExec(db: Db, c: Call): Effect
    requires c.Cancel? || c.CancelStatus? || c.CancelWrite? || c.ReleaseKey?
  {
    match c
    case Cancel(id, session) =>
      Effect(db, if id in db.tasks && db.tasks[id].request.session == Some(session)
                 then CancelStatus(id) else Done, [])
    case CancelStatus(id) =>
      Effect(db, if id in db.tasks && IsSettled(db.tasks[id].status) then Done else CancelWrite(id), [])
    case CancelWrite(id) =>
      // The statement names the row only: what it overwrites was read before.
      Effect(WithStatus(db, id, Cancelled), ReleaseKey(id), [WasCancelled(id)])
    case ReleaseKey(id) => Effect(WithoutKeysOf(db, id), Done, [])
  }

  predicate MayEnd(task: Task, sender: Option<string>) {
    && (IsYieldable(task.status) || task.status.RecoveryPending? || task.status.NeedsHuman?)
    && (sender.Some? && task.request.target.Some? ==> Lower(sender.value) == Lower(task.request.target.value))
  }

  /**
   The end of a task as a worker reports it on the bus: a check, and later an unguarded
   transaction, with which the kernel also ends the tasks that it runs itself.
   */
  function BusExec(db: Db, c: Call): Effect
    requires c.BusEnd? || c.EndWrite?
  {
    match c
    case BusEnd(id, failed, sender, output) =>
      Effect(db, if id in db.tasks && MayEnd(db.tasks[id], sender) then EndWrite(id, failed, output) else Done, [])
    case EndWrite(id, failed, output) =>
      if id !in db.tasks then Effect(db, Done, [])
      else
        var task := db.tasks[id].(status := if failed then Failed else Completed,
                                  result := if output.Some? then output else db.tasks[id].result);
        Effect(if failed then WithoutKeysOf(SetTask(db, id, task), id) else SetTask(db, id, task), Done, [])
  }

  /** What the kernel writes on its own: routing decisions and the watchdog's sweeps set any status. */
  function KernelExec(db: Db, c: Call): Effect
    requires c.SetStatus? || c.Abandon?
  {
    if c.id !in db.tasks then Effect(db, Done, [])
    else
      var task := db.tasks[c.id];
      match c
      case SetStatus(id, status) =>
        Effect(SetTask(db, id, task.(status := status)), Done,
               if IsSettled(task.status) && !IsSettled(status) then [Reopened(id)] else [])
      case Abandon(id, note) =>
        var result := if task.result.Some? then task.result else Some(note);
        Effect(SetTask(db, id, task.(status := Failed, result := result)), Done, [])
  }

  /** Updates that look at the status in the statement itself. */
  function GuardedExec(db: Db, c: Call): Effect
    requires c.Ack? || c.WaitOver?
  {
    match c
    case Ack(id, bot) =>
      if id in db.tasks && db.tasks[id].status.Dispatched?
         && (db.tasks[id].request.target.Some? ==> Lower(db.tasks[id].request.target.value) == Lower(bot))
      then Effect(WithStatus(db, id, Executing), Done, []) else Effect(db, Done, [])
    case WaitOver(id) =>
      if id in db.tasks && !db.tasks[id].status.WaitTimeoutReached?
         && (IsYieldable(db.tasks[id].status) || db.tasks[id].status.RecoveryPending?
             || db.tasks[id].status.PendingApproval?)
      then Effect(WithStatus(db, id, WaitTimeoutReached), Done, []) else Effect(db, Done, [])
  }

  /** What leaves the tasks alone. */
  function TableExec(db: Db, c: Call): Effect
    requires c.CollectKeys? || c.Connect? || c.PruneSession? || c.Done?
  {
    match c
    case CollectKeys(gone) => Effect(db.(keys := db.keys - gone), Done, [])
    case Connect(session, agent) =>
      // A session that is known keeps its agent.
      if session in db.sessions then Effect(db, Done, [])
      else Effect(db.(sessions := db.sessions[session := Lower(agent)]), Done, [Connected(session, agent)])
    case PruneSession(session) => Effect(db.(sessions := db.sessions - {session}), Done, [])
    case Done => Effect(db, Done, [])
  }

  /** The next statement of a call. */
  function Exec(db: Db, c: Call): Effect {
    if c.Admit? || c.AdmitLookup? || c.AdmitWrite? then AdmitExec(db, c)
    else if c.Claim? || c.ClaimWrite? then ClaimExec(db, c)
    else if c.Cancel? || c.CancelStatus? || c.CancelWrite? || c.ReleaseKey? then CancelExec(db, c)
    else if c.BusEnd? || c.EndWrite? then BusExec(db, c)
    else if c.SetStatus? || c.Abandon? then KernelExec(db, c)
    else if c.Ack? || c.WaitOver? then GuardedExec(db, c)
    else if c.CollectKeys? || c.Connect? || c.PruneSession? || c.Done? then TableExec(db, c)
    else YieldExec(db, c)
  }

  // ----- runs ---------------------------------------------------------------------------

  /** `freed` are the tasks whose idempotency key has been deleted at some time. */
  datatype State = State(db: Db, calls: seq<Call>, freed: set<string>, log: seq<Event>)

  datatype Action = Start(call: Call) | Advance(i: nat)

  const INITIAL: State := State(EMPTY, [], {}, [])

  function Lost(before: Db, after: Db): set<string> {
    set key | key in before.keys && key !in after.keys :: before.keys[key]
  }

  function Step(s: State, a: Action): State {
    match a
    case Start(call) => if IsStart(call) then s.(calls := s.calls + [call]) else s
    case Advance(i) =>
      if i >= |s.calls| then s
      else
        var e := Exec(s.db, s.calls[i]);
        State(e.db, s.calls[i := e.next], s.freed + Lost(s.db, e.db), s.log + e.events)
  }

  function Run(s: State, actions: seq<Action>): State {
    if actions == [] then s else Step(Run(s, actions[..|actions| - 1]), actions[|actions| - 1])
  }
}
