/**
 The experience store behind the IPC commands: rows looked up by the first match of an id and
 changed in place, counts and review queues computed from the same rows.
 */
module Experiences {
  import opened Sequences
  import opened StableSort

  /** Time stamps are milliseconds; None stands for an absent or null field. */
  datatype Experience = Experience(
    id: string, agent: string, projectId: string, summary: string, outcome: string, tags: seq<string>,
    createdAt: int, updatedAt: Option<int>, status: Option<string>,
    reviewed: Option<bool>, reviewedAt: Option<int>,
    archivedAt: Option<int>, archivedBy: Option<string>,
    isPinned: Option<bool>, original: Option<string>)

  function IdOf(row: Experience): string { row.id }

  function Ids(rows: seq<Experience>): seq<string> { Map(IdOf, rows) }

  /** `row.status ?? "active"` */
  function StatusOf(row: Experience): string {
    if row.status.Some? then row.status.value else "active"
  }

  predicate IsArchived(row: Experience) { StatusOf(row) == "archived" }

  predicate IsPending(row: Experience) { row.reviewed == Some(false) && StatusOf(row) == "active" }

  predicate IsRejected(row: Experience) { IsArchived(row) && row.archivedBy == Some("rejected") }

  predicate Newest(a: Experience, b: Experience) { a.createdAt >= b.createdAt }

  predicate IsPinned(row: Experience) { row.isPinned == Some(true) }

  /** Rows a list or count command may see; the empty project id selects every project. */
  function IsVisible(includeArchived: bool, projectId: string): Experience -> bool {
    (row: Experience) => (includeArchived || !IsArchived(row)) && (projectId == "" || row.projectId == projectId)
  }

  /** The backend order of a listing: pinned rows first, then newest. */
  function Ordered(rows: seq<Experience>, includeArchived: bool, projectId: string): seq<Experience> {
    Sort(Grouped(IsPinned, Newest), Filter(IsVisible(includeArchived, projectId), rows))
  }

  function List(rows: seq<Experience>, limit: nat, offset: nat, includeArchived: bool, projectId: string)
    : seq<Experience>
  {
    Slice(Ordered(rows, includeArchived, projectId), offset, limit)
  }

  function Count(rows: seq<Experience>, includeArchived: bool, projectId: string): nat {
    |Filter(IsVisible(includeArchived, projectId), rows)|
  }
}

module ExperienceStore {
  import opened Sequences
  import opened StableSort
  import opened Experiences
  import Clock

  /** Position of the first row with this id, or the number of rows. */
  function IndexOf(rows: seq<Experience>, id: string): (k: nat)
    ensures k <= |rows|
    ensures k < |rows| ==> rows[k].id == id
    ensures forall j :: 0 <= j < k ==> rows[j].id != id
  {
    if rows == [] || rows[0].id == id then 0 else 1 + IndexOf(rows[1..], id)
  }

  predicate Found(rows: seq<Experience>, id: string) { IndexOf(rows, id) < |rows| }

  // ----- commands -----------------------------------------------------------------------

  datatype Patch = Patch(
    summary: Option<string>, projectId: Option<string>, outcome: Option<string>, tags: Option<seq<string>>)

  datatype Command =
    | Update(id: string, patch: Patch, now: int)
    | Archive(id: string, now: int)
    | Unarchive(id: string)
    | Pin(id: string, pinned: bool)
    | MarkReviewed(id: string, now: int)
    | MarkAllReviewed(now: int)
    | MarkManyReviewed(ids: seq<string>, now: int)
    | Reject(id: string, now: int)
    | RejectMany(ids: seq<string>, now: int)
    | UndoReject(id: string)

  datatype Reply = Done | Changed(count: nat) | Error

  predicate HasOriginal(row: Experience) { row.original.Some? && row.original.value != "" }

  function Patched(row: Experience, patch: Patch, now: int): Experience {
    var row1 :=
      if patch.summary.None? then row
      else
        row.(original := if HasOriginal(row) then row.original else Some(row.summary),
             summary := patch.summary.value);
    row1.(projectId := if patch.projectId.Some? then patch.projectId.value else row1.projectId,
          outcome := if patch.outcome.Some? then patch.outcome.value else row1.outcome,
          tags := if patch.tags.Some? then patch.tags.value else row1.tags,
          updatedAt := Some(now))
  }

  function Archived(row: Experience, actor: string, now: int): Experience {
    row.(status := Some("archived"), archivedAt := Some(now), archivedBy := Some(actor))
  }

  function Activated(row: Experience): Experience {
    row.(status := Some("active"), archivedAt := None, archivedBy := None)
  }

  function Reviewed(row: Experience, now: int): Experience {
    row.(reviewed := Some(true), reviewedAt := Some(now))
  }

  /** Replace the first row with this id, or report that there is none. */
  function WithRow(rows: seq<Experience>, id: string, change: Experience -> Experience): (seq<Experience>, Reply) {
    var k := IndexOf(rows, id);
    if k < |rows| then (rows[k := change(rows[k])], Done) else (rows, Error)
  }

  function MarkAll(rows: seq<Experience>, now: int): seq<Experience> {
    seq(|rows|, i requires 0 <= i < |rows| => if IsPending(rows[i]) then Reviewed(rows[i], now) else rows[i])
  }

  function MarkOne(rows: seq<Experience>, id: string, now: int): (seq<Experience>, nat) {
    var k := IndexOf(rows, id);
    if k < |rows| && IsPending(rows[k]) then (rows[k := Reviewed(rows[k], now)], 1) else (rows, 0)
  }

  function MarkMany(rows: seq<Experience>, ids: seq<string>, now: int): (seq<Experience>, nat)
    decreases |ids|
  {
    if ids == [] then (rows, 0)
    else
      var (rows1, n) := MarkOne(rows, ids[0], now);
      var (rows2, m) := MarkMany(rows1, ids[1..], now);
      (rows2, n + m)
  }

  function RejectOne(rows: seq<Experience>, id: string, now: int): (seq<Experience>, nat) {
    var k := IndexOf(rows, id);
    if k < |rows| then (rows[k := Archived(rows[k], "rejected", now)], 1) else (rows, 0)
  }

  function RejectList(rows: seq<Experience>, ids: seq<string>, now: int): (seq<Experience>, nat)
    decreases |ids|
  {
    if ids == [] then (rows, 0)
    else
      var (rows1, n) := RejectOne(rows, ids[0], now);
      var (rows2, m) := RejectList(rows1, ids[1..], now);
      (rows2, n + m)
  }

  function Undo(rows: seq<Experience>, id: string): (seq<Experience>, Reply) {
    var k := IndexOf(rows, id);
    if k < |rows| && rows[k].archivedBy == Some("rejected") then (rows[k := Activated(rows[k])], Done)
    else (rows, Error)
  }

  /** One command: the rows after it and its reply. An error leaves the rows as they were. */
  function Apply(rows: seq<Experience>, cmd: Command): (seq<Experience>, Reply) {
    match cmd
    case Update(id, patch, now) => WithRow(rows, id, (row: Experience) => Patched(row, patch, now))
    case Archive(id, now) => WithRow(rows, id, (row: Experience) => Archived(row, "user", now))
    case Unarchive(id) => WithRow(rows, id, Activated)
    case Pin(id, pinned) => WithRow(rows, id, (row: Experience) => row.(isPinned := Some(pinned)))
    case MarkReviewed(id, now) => WithRow(rows, id, (row: Experience) => Reviewed(row, now))
    case MarkAllReviewed(now) => (MarkAll(rows, now), Changed(Unreviewed(rows)))
    case MarkManyReviewed(ids, now) => (MarkMany(rows, ids, now).0, Changed(MarkMany(rows, ids, now).1))
    case Reject(id, now) => WithRow(rows, id, (row: Experience) => Archived(row, "rejected", now))
    case RejectMany(ids, now) => (RejectList(rows, ids, now).0, Changed(RejectList(rows, ids, now).1))
    case UndoReject(id) => Undo(rows, id)
  }

  function Run(rows: seq<Experience>, cmds: seq<Command>): seq<Experience>
    decreases |cmds|
  {
    if cmds == [] then rows else Run(Apply(rows, cmds[0]).0, cmds[1..])
  }

  // ----- counts and queues --------------------------------------------------------------

  function Unreviewed(rows: seq<Experience>): nat { |Filter(IsPending, rows)| }

  const PLACEHOLDERS: seq<string> := ["<device-ip>", "<redacted-token>", "<device-serial>", "<home>"]

  predicate HasHygiene(row: Experience) {
    var text := row.summary + " " + (if row.original.Some? then row.original.value else "");
    exists p :: p in PLACEHOLDERS && Contains(text, p)
  }

  datatype Stat = Pending | Hygiene | ApprovedToday | RejectedStat | OtherStat

  /** The rows a stat stands for; `today` is a UTC day number, as in `reviewed_at.startsWith(today)`. */
  function InStat(stat: Stat, today: int): Experience -> bool {
    (row: Experience) =>
      match stat
      case Pending => IsPending(row)
      case Hygiene => IsPending(row) && HasHygiene(row)
      case ApprovedToday =>
        row.reviewed == Some(true) && StatusOf(row) == "active"
        && row.reviewedAt.Some? && row.reviewedAt.value / Clock.MS_PER_DAY == today
      case RejectedStat => IsRejected(row)
      case OtherStat => true
  }

  datatype ReviewStats = ReviewStats(pending: nat, hygiene: nat, approvedToday: nat, rejected: nat)

  function CountStats(rows: seq<Experience>, today: int): ReviewStats {
    ReviewStats(
      |Filter(InStat(Pending, today), rows)|, |Filter(InStat(Hygiene, today), rows)|,
      |Filter(InStat(ApprovedToday, today), rows)|, |Filter(InStat(RejectedStat, today), rows)|)
  }

  /** The optional narrowing of a queue; an empty string narrows nothing. */
  datatype QueueFilter = QueueFilter(projectId: string, agent: string, outcome: string, hygieneOnly: bool)

  const NO_FILTER: QueueFilter := QueueFilter("", "", "", false)

  function Passes(f: QueueFilter): Experience -> bool {
    (row: Experience) =>
      && (f.projectId == "" || row.projectId == f.projectId)
      && (f.agent == "" || row.agent == f.agent)
      && (f.outcome == "" || row.outcome == f.outcome)
      && (f.hygieneOnly ==> HasHygiene(row))
  }

  function StatRows(rows: seq<Experience>, stat: Stat, today: int): seq<Experience> {
    var selected := Filter(InStat(stat, today), rows);
    match stat
    case Pending => Sort(Grouped(HasHygiene, Newest), selected)
    case Hygiene => Sort(Newest, selected)
    case _ => selected
  }

  function StripOriginal(row: Experience): Experience { row.(original := None) }

  function ReviewQueue(rows: seq<Experience>, stat: Stat, today: int, f: QueueFilter, limit: int): seq<Experience> {
    Map(StripOriginal, Take(Filter(Passes(f), StatRows(rows, stat, today)), Max(1, limit)))
  }

  function StatCount(stats: ReviewStats, stat: Stat): nat
    requires stat != OtherStat
  {
    match stat
    case Pending => stats.pending
    case Hygiene => stats.hygiene
    case ApprovedToday => stats.approvedToday
    case RejectedStat => stats.rejected
  }

  // ----- the store itself ---------------------------------------------------------------

  class Store {
    var rows: seq<Experience>

    constructor (rows: seq<Experience>)
      ensures this.rows == rows
    {
      this.rows := rows;
    }

    method Find(id: string) returns (k: nat)
      ensures k == IndexOf(rows, id)
    {
      k := 0;
      while k < |rows| && rows[k].id != id
        invariant k <= |rows|
        invariant IndexOf(rows, id) == k + IndexOf(rows[k..], id)
      {
        assert rows[k..][1..] == rows[k + 1..];
        k := k + 1;
      }
    }

    method UpdateExperience(id: string, patch: Patch, now: int) returns (reply: Reply)
      modifies this
      ensures (rows, reply) == Apply(old(rows), Update(id, patch, now))
    {
      var k := Find(id);
      if k == |rows| {
        return Error;
      }
      var row := rows[k];
      if patch.summary.Some? {
        if !HasOriginal(row) {
          row := row.(original := Some(row.summary));
        }
        row := row.(summary := patch.summary.value);
      }
      if patch.projectId.Some? {
        row := row.(projectId := patch.projectId.value);
      }
      if patch.outcome.Some? {
        row := row.(outcome := patch.outcome.value);
      }
      if patch.tags.Some? {
        row := row.(tags := patch.tags.value);
      }
      row := row.(updatedAt := Some(now));
      rows := rows[k := row];
      reply := Done;
    }

    method ArchiveExperience(id: string, now: int) returns (reply: Reply)
      modifies this
      ensures (rows, reply) == Apply(old(rows), Archive(id, now))
    {
      var k := Find(id);
      if k == |rows| {
        return Error;
      }
      rows := rows[k := rows[k].(status := Some("archived"), archivedAt := Some(now), archivedBy := Some("user"))];
      reply := Done;
    }

    method UnarchiveExperience(id: string) returns (reply: Reply)
      modifies this
      ensures (rows, reply) == Apply(old(rows), Unarchive(id))
    {
      var k := Find(id);
      if k == |rows| {
        return Error;
      }
      rows := rows[k := rows[k].(status := Some("active"), archivedAt := None, archivedBy := None)];
      reply := Done;
    }

    method PinExperience(id: string, pinned: bool) returns (reply: Reply)
      modifies this
      ensures (rows, reply) == Apply(old(rows), Pin(id, pinned))
    {
      var k := Find(id);
      if k == |rows| {
        return Error;
      }
      rows := rows[k := rows[k].(isPinned := Some(pinned))];
      reply := Done;
    }

    method MarkExperienceReviewed(id: string, now: int) returns (reply: Reply)
      modifies this
      ensures (rows, reply) == Apply(old(rows), MarkReviewed(id, now))
    {
      var k := Find(id);
      if k == |rows| {
        return Error;
      }
      rows := rows[k := rows[k].(reviewed := Some(true), reviewedAt := Some(now))];
      reply := Done;
    }

    method MarkAllExperiencesReviewed(now: int) returns (reply: Reply)
      modifies this
      ensures (rows, reply) == Apply(old(rows), MarkAllReviewed(now))
    {
      var changed := 0;
      for i := 0 to |rows|
        invariant |rows| == |old(rows)|
        invariant forall k :: 0 <= k < i ==> rows[k] == MarkAll(old(rows), now)[k]
        invariant forall k :: i <= k < |rows| ==> rows[k] == old(rows)[k]
        invariant changed == Unreviewed(old(rows)[..i])
      {
        FilterAppend(IsPending, old(rows)[..i], [old(rows)[i]]);
        assert old(rows)[..i + 1] == old(rows)[..i] + [old(rows)[i]];
        if rows[i].reviewed == Some(false) && StatusOf(rows[i]) == "active" {
          rows := rows[i := rows[i].(reviewed := Some(true), reviewedAt := Some(now))];
          changed := changed + 1;
        }
      }
      assert old(rows)[..|rows|] == old(rows);
      assert rows == MarkAll(old(rows), now);
      reply := Changed(changed);
    }

    method MarkExperiencesReviewed(ids: seq<string>, now: int) returns (reply: Reply)
      modifies this
      ensures (rows, reply) == Apply(old(rows), MarkManyReviewed(ids, now))
    {
      var changed := 0;
      for i := 0 to |ids|
        invariant MarkMany(old(rows), ids, now).0 == MarkMany(rows, ids[i..], now).0
        invariant MarkMany(old(rows), ids, now).1 == changed + MarkMany(rows, ids[i..], now).1
      {
        assert ids[i..][1..] == ids[i + 1..];
        var k := Find(ids[i]);
        if k < |rows| && rows[k].reviewed == Some(false) && StatusOf(rows[k]) == "active" {
          rows := rows[k := rows[k].(reviewed := Some(true), reviewedAt := Some(now))];
          changed := changed + 1;
        }
      }
      reply := Changed(changed);
    }

    method RejectExperience(id: string, now: int) returns (reply: Reply)
      modifies this
      ensures (rows, reply) == Apply(old(rows), Reject(id, now))
    {
      var k := Find(id);
      if k == |rows| {
        return Error;
      }
      rows := rows[k := rows[k].(status := Some("archived"), archivedAt := Some(now), archivedBy := Some("rejected"))];
      reply := Done;
    }

    method RejectExperiences(ids: seq<string>, now: int) returns (reply: Reply)
      modifies this
      ensures (rows, reply) == Apply(old(rows), RejectMany(ids, now))
    {
      var changed := 0;
      for i := 0 to |ids|
        invariant RejectList(old(rows), ids, now).0 == RejectList(rows, ids[i..], now).0
        invariant RejectList(old(rows), ids, now).1 == changed + RejectList(rows, ids[i..], now).1
      {
        assert ids[i..][1..] == ids[i + 1..];
        var k := Find(ids[i]);
        if k < |rows| {
          rows := rows[k := rows[k].(status := Some("archived"), archivedAt := Some(now),
                                     archivedBy := Some("rejected"))];
          changed := changed + 1;
        }
      }
      reply := Changed(changed);
    }

    method UndoRejectExperience(id: string) returns (reply: Reply)
      modifies this
      ensures (rows, reply) == Apply(old(rows), UndoReject(id))
    {
      var k := Find(id);
      if k == |rows| || rows[k].archivedBy != Some("rejected") {
        return Error;
      }
      rows := rows[k := rows[k].(status := Some("active"), archivedAt := None, archivedBy := None)];
      reply := Done;
    }
  }
}
