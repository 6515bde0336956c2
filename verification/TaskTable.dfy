/**
 The task operations as the kernel runs them while it holds the lock on its one connection. Each
 is proved to be its sequence of statements run without interruption, so that the laws about
 whole calls and about all interleavings are about this code.
 */
module TaskTable {
  import opened Sequences
  import opened TaskLaws
  import opened TaskRules
  import opened TaskStore

  datatype Outcome = Inserted | Replay(id: string) | Refused

  class Table {
    var db: Db

    constructor ()
      ensures db == EMPTY
    {
      db := EMPTY;
    }

    /** Place the request, look its key up, then write row and key in one transaction. */
    method AdmitTaskAtomic(r: Request, maxHops: nat) returns (outcome: Outcome)
      modifies this
      ensures db == Whole(old(db), Admit(r, maxHops))
      ensures var place := PlaceFor(old(db), r, maxHops);
        match outcome
        case Refused => db == old(db) && (place.None? || r.id in db.tasks)
        case Replay(id) => db == old(db) && place.Some? && r.key.Some? && KeyFor(r).value in db.keys
                           && id == db.keys[KeyFor(r).value]
        case Inserted => place.Some? && r.id !in old(db).tasks && (r.key.Some? ==> KeyFor(r).value !in old(db).keys)
                         && db == Admitted(old(db), r, place.value)
    {
      WholeAdmit(db, r, maxHops);
      assert KeyOf(r) == KeyFor(r);
      var place := PlaceOf(db, r, maxHops);
      if place.Rejected? {
        return Refused;
      }
      var key := KeyOf(r);
      if key.Some? && key.value in db.keys {
        return Replay(db.keys[key.value]);
      }
      if r.id in db.tasks {
        return Refused;
      }
      assert r.id in WithTask(db, r, place.root, place.hops).tasks;
      db := WithTask(db, r, place.root, place.hops);
      outcome := Inserted;
    }

    /** The first claim wins; the same session may claim again. */
    method ClaimTask(id: string, session: string) returns (won: bool)
      modifies this
      ensures db == Whole(old(db), Claim(id, session))
      ensures won <==> id in db.tasks && db.tasks[id].claimedBy == Some(session)
      ensures db == old(db) || (id in old(db).tasks && old(db).tasks[id].claimedBy == None
                && db == old(db).(tasks := old(db).tasks[id := old(db).tasks[id].(claimedBy := Some(session))]))
    {
      WholeClaim(db, id, session);
      var current := Owner(db, id);
      if current.None? {
        won := id in db.tasks;
        if won {
          db := SetTask(db, id, db.tasks[id].(claimedBy := Some(session)));
        }
      } else {
        won := current.value == session;
      }
    }

    method YieldTaskResult(id: string, session: string, status: Status, result: string) returns (ok: bool)
      modifies this
      ensures db == Whole(old(db), Yield(id, session, status, result))
      ensures ok <==> YieldAllowed(old(db), id, session, status)
      ensures !ok ==> db == old(db)
      ensures ok ==> id in db.tasks && db.tasks[id].status == status
                     && db.tasks[id].claimedBy == Some(session) && db.tasks[id].result == Some(result)
    {
      WholeYield(db, id, session, status, result);
      if !IsVerdict(status) || id !in db.tasks || !IsYieldable(db.tasks[id].status) {
        return false;
      }
      var task, owner := db.tasks[id], Owner(db, id);
      if owner.Some? {
        if owner.value != session {
          return false;
        }
      } else {
        if !IsBound(db, session, task.request.target) {
          return false;
        }
        ClaimThenYield(db, id, session, status, result);
        WholeClaim(db, id, session);
        var won := ClaimTask(id, session);
        if !won {
          return false;
        }
      }
      db := SetTask(db, id, db.tasks[id].(status := status, claimedBy := Some(session), result := Some(result)));
      if status.Failed? {
        db := WithoutKeysOf(db, id);
      }
      ok := true;
    }

    method CancelTask(id: string, session: string) returns (ok: bool)
      modifies this
      ensures db == Whole(old(db), Cancel(id, session))
      ensures ok <==> id in old(db).tasks && old(db).tasks[id].request.session == Some(session)
      ensures ok && old(db).tasks[id].status !in {Completed, Failed, Expired, Timeout, Cancelled} ==>
                && id in db.tasks && db.tasks[id].status == Cancelled
                && forall key :: key in db.keys ==> db.keys[key] != id
    {
      WholeCancel(db, id, session);
      if id !in db.tasks || db.tasks[id].request.session != Some(session) {
        return false;
      }
      if !IsSettled(db.tasks[id].status) {
        db := WithStatus(db, id, Cancelled);
        db := WithoutKeysOf(db, id);
      }
      ok := true;
    }
  }
}
