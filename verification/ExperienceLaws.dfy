/**
 What holds over whole runs of store commands: archive bookkeeping, counts that agree with
 queues, bulk operations that report exactly what they did, and undo that restores.
 */
module ExperienceLaws {
  import opened Sequences
  import opened StableSort
  import opened Experiences
  import opened ExperienceStore

  // ----- bulk reject and undo -----------------------------------------------------------

  ghost predicate SameIds(rows: seq<Experience>, after: seq<Experience>) {
    |after| == |rows| && forall k :: 0 <= k < |rows| ==> after[k].id == rows[k].id
  }

  lemma {:induction false} SameIdsSameIndex(rows: seq<Experience>, after: seq<Experience>, id: string)
    requires SameIds(rows, after)
    ensures IndexOf(after, id) == IndexOf(rows, id)
  {
    if rows != [] {
      SameIdsSameIndex(rows[1..], after[1..], id);
    }
  }

  /** Row k is the one some listed id looks up. */
  predicate Listed(rows: seq<Experience>, k: nat, ids: seq<string>)
    requires k < |rows|
  {
    IndexOf(rows, rows[k].id) == k && rows[k].id in ids
  }

  function Rejected(row: Experience, now: int): Experience { Archived(row, "rejected", now) }

  /** Rejecting a list of ids archives exactly the rows that the ids look up. */
  lemma {:induction false} RejectListPointwise(rows: seq<Experience>, ids: seq<string>, now: int, k: nat)
    requires k < |rows|
    ensures SameIds(rows, RejectList(rows, ids, now).0)
    ensures RejectList(rows, ids, now).0[k] == if Listed(rows, k, ids) then Rejected(rows[k], now) else rows[k]
    decreases |ids|
  {
    if ids != [] {
      var rows1 := RejectOne(rows, ids[0], now).0;
      assert ids == [ids[0]] + ids[1..];
      SameIdsSameIndex(rows, rows1, rows[k].id);
      RejectListPointwise(rows1, ids[1..], now, k);
    }
  }

  /** Undo of each listed id; an id whose undo fails leaves the rows alone. */
  function UndoList(rows: seq<Experience>, ids: seq<string>): seq<Experience>
    decreases |ids|
  {
    if ids == [] then rows else UndoList(Undo(rows, ids[0]).0, ids[1..])
  }

  lemma {:induction false} UndoListPointwise(rows: seq<Experience>, ids: seq<string>, k: nat)
    requires k < |rows|
    ensures SameIds(rows, UndoList(rows, ids))
    ensures UndoList(rows, ids)[k]
         == if Listed(rows, k, ids) && rows[k].archivedBy == Some("rejected") then Activated(rows[k]) else rows[k]
    decreases |ids|
  {
    if ids != [] {
      var rows1 := Undo(rows, ids[0]).0;
      assert ids == [ids[0]] + ids[1..];
      SameIdsSameIndex(rows, rows1, rows[k].id);
      UndoListPointwise(rows1, ids[1..], k);
    }
  }

  /** An active row with nothing left over from an earlier archiving. */
  predicate CleanActive(row: Experience) {
    row.status == Some("active") && row.archivedAt == None && row.archivedBy == None
  }

  lemma RejectThenUndoPointwise(rows: seq<Experience>, ids: seq<string>, undos: seq<string>, now: int, k: nat)
    requires k < |rows|
    requires forall id :: id in ids <==> id in undos
    ensures |UndoList(RejectList(rows, ids, now).0, undos)| == |rows|
    ensures UndoList(RejectList(rows, ids, now).0, undos)[k]
         == if Listed(rows, k, ids) then Activated(rows[k]) else rows[k]
  {
    var rejected := RejectList(rows, ids, now).0;
    RejectListPointwise(rows, ids, now, k);
    UndoListPointwise(rejected, undos, k);
    SameIdsSameIndex(rows, rejected, rows[k].id);
    if rows[k].id in ids && !Listed(rows, k, ids) {
      assert !Listed(rejected, k, undos);
    }
  }

  /**
   Bulk reject followed by undoing the same ids, in any order and with any repeats, restores
   the store exactly if and only if every listed row was active with no archive fields.
   */
  lemma RejectThenUndo(rows: seq<Experience>, ids: seq<string>, undos: seq<string>, now: int)
    requires forall id :: id in ids <==> id in undos
    ensures UndoList(RejectList(rows, ids, now).0, undos) == rows
       <==> forall id :: id in ids && Found(rows, id) ==> CleanActive(rows[IndexOf(rows, id)])
  {
    var restored := UndoList(RejectList(rows, ids, now).0, undos);
    if restored == rows {
      forall id | id in ids && Found(rows, id)
        ensures CleanActive(rows[IndexOf(rows, id)])
      {
        RejectThenUndoPointwise(rows, ids, undos, now, IndexOf(rows, id));
      }
    }
    if forall id :: id in ids && Found(rows, id) ==> CleanActive(rows[IndexOf(rows, id)]) {
      if rows == [] {
        EmptyStoreStaysEmpty(ids, undos, now);
      } else {
        RejectThenUndoPointwise(rows, ids, undos, now, 0);
      }
      forall k | 0 <= k < |rows|
        ensures restored[k] == rows[k]
      {
        RejectThenUndoPointwise(rows, ids, undos, now, k);
        if Listed(rows, k, ids) {
          assert Found(rows, rows[k].id);
        }
      }
    }
  }

  lemma {:induction false} EmptyStoreStaysEmpty(ids: seq<string>, undos: seq<string>, now: int)
    ensures UndoList(RejectList([], ids, now).0, undos) == []
    decreases |ids| + |undos|
  {
    if ids != [] {
      EmptyStoreStaysEmpty(ids[1..], undos, now);
    } else if undos != [] {
      EmptyStoreStaysEmpty(ids, undos[1..], now);
    }
  }

  // ----- marking as reviewed ------------------------------------------------------------

  function One(b: bool): nat { if b then 1 else 0 }

  lemma CountAfterUpdate(p: Experience -> bool, rows: seq<Experience>, k: nat, row: Experience)
    requires k < |rows|
    ensures |Filter(p, rows[k := row])| + One(p(rows[k])) == |Filter(p, rows)| + One(p(row))
  {
    var after := rows[k := row];
    assert rows == rows[..k] + [rows[k]] + rows[k + 1..];
    assert after == rows[..k] + [row] + rows[k + 1..];
    FilterAppend(p, rows[..k] + [rows[k]], rows[k + 1..]);
    FilterAppend(p, rows[..k] + [row], rows[k + 1..]);
    FilterAppend(p, rows[..k], [rows[k]]);
    FilterAppend(p, rows[..k], [row]);
  }

  /** Marking any list of ids, repeats and unknown ids included, returns exactly the drop in the unreviewed count. */
  lemma {:induction false} MarkManyReturnsTheDrop(rows: seq<Experience>, ids: seq<string>, now: int)
    ensures Unreviewed(rows) == Unreviewed(MarkMany(rows, ids, now).0) + MarkMany(rows, ids, now).1
    decreases |ids|
  {
    if ids != [] {
      var k := IndexOf(rows, ids[0]);
      if k < |rows| {
        CountAfterUpdate(IsPending, rows, k, Reviewed(rows[k], now));
      }
      MarkManyReturnsTheDrop(MarkOne(rows, ids[0], now).0, ids[1..], now);
    }
  }

  /** ... and leaves none of the listed rows pending. */
  lemma {:induction false} MarkManyLeavesNoneListed(rows: seq<Experience>, ids: seq<string>, now: int, k: nat)
    requires k < |rows|
    ensures SameIds(rows, MarkMany(rows, ids, now).0)
    ensures MarkMany(rows, ids, now).0[k]
         == if Listed(rows, k, ids) && IsPending(rows[k]) then Reviewed(rows[k], now) else rows[k]
    decreases |ids|
  {
    if ids != [] {
      var rows1 := MarkOne(rows, ids[0], now).0;
      assert ids == [ids[0]] + ids[1..];
      SameIdsSameIndex(rows, rows1, rows[k].id);
      MarkManyLeavesNoneListed(rows1, ids[1..], now, k);
    }
  }

  /** Mark-all answers with the previous unreviewed count and leaves it at zero. */
  lemma MarkAllClearsTheCount(rows: seq<Experience>, now: int)
    ensures Apply(rows, MarkAllReviewed(now)).1 == Changed(Unreviewed(rows))
    ensures Unreviewed(Apply(rows, MarkAllReviewed(now)).0) == 0
  {
    var after := MarkAll(rows, now);
    forall row | row in after
      ensures !IsPending(row)
    {
      var k :| 0 <= k < |after| && after[k] == row;
    }
    FilterNone(IsPending, after);
  }

  // ----- counts and queues --------------------------------------------------------------

  /** A remark: the badge count is the pending stat on every store, since both select the same rows. */
  lemma UnreviewedIsPendingStat(rows: seq<Experience>, today: int)
    ensures Unreviewed(rows) == CountStats(rows, today).pending
  {
    FilterCongruent(IsPending, InStat(Pending, today), rows);
  }

  /** Without further filters each review queue is as long as its stat, up to the limit. */
  lemma QueueLengthIsStat(rows: seq<Experience>, stat: Stat, today: int, limit: int)
    requires stat != OtherStat
    ensures |ReviewQueue(rows, stat, today, NO_FILTER, limit)|
         == Min(Max(1, limit), StatCount(CountStats(rows, today), stat))
  {
    FilterAll(Passes(NO_FILTER), StatRows(rows, stat, today));
  }

  /** The hygiene queue is the front part of the pending queue: the two sorts agree. */
  lemma PendingQueueStartsWithHygiene(rows: seq<Experience>, today: int)
    ensures StatRows(rows, Pending, today)
         == StatRows(rows, Hygiene, today) + Sort(Newest, Filter(Not(HasHygiene), Filter(IsPending, rows)))
  {
    var pending := Filter(InStat(Pending, today), rows);
    GroupedSort(HasHygiene, Newest, pending);
    FilterFilter(InStat(Pending, today), HasHygiene, InStat(Hygiene, today), rows);
    FilterCongruent(IsPending, InStat(Pending, today), rows);
  }

  /** So with enough room "hygiene only" on the pending queue is the hygiene queue. */
  lemma HygieneOnlyIsHygieneQueue(rows: seq<Experience>, today: int, limit: int)
    ensures ReviewQueue(rows, Pending, today, NO_FILTER.(hygieneOnly := true), limit)
         == ReviewQueue(rows, Hygiene, today, NO_FILTER, limit)
  {
    var only := Passes(NO_FILTER.(hygieneOnly := true));
    var front := StatRows(rows, Hygiene, today);
    var back := Sort(Newest, Filter(Not(HasHygiene), Filter(IsPending, rows)));
    PendingQueueStartsWithHygiene(rows, today);
    FilterAppend(only, front, back);
    SortIn(Newest, Filter(InStat(Hygiene, today), rows));
    FilterIn(InStat(Hygiene, today), rows);
    FilterAll(only, front);
    SortIn(Newest, Filter(Not(HasHygiene), Filter(IsPending, rows)));
    FilterIn(Not(HasHygiene), Filter(IsPending, rows));
    FilterNone(only, back);
    FilterAll(Passes(NO_FILTER), front);
  }

  // ----- every run ----------------------------------------------------------------------

  /** The archive bookkeeping of one row. */
  predicate Consistent(row: Experience) {
    && (IsArchived(row) <==> row.archivedAt.Some? && row.archivedBy.Some?)
    && (row.archivedBy == Some("rejected") ==> IsArchived(row))
  }

  /** While its summary was never edited a row holds it; from the first edit on `original` holds it for ever. */
  predicate Remembers(row: Experience, first: string) {
    (!HasOriginal(row) && row.summary == first) || row.original == Some(first)
  }

  /** What every command keeps of a row, whichever command it is and whichever row it is meant for. */
  predicate RowKept(before: Experience, after: Experience, first: string) {
    && after.id == before.id
    && after.createdAt == before.createdAt
    && after.agent == before.agent
    && (Consistent(before) ==> Consistent(after))
    && (first != "" && Remembers(before, first) ==> Remembers(after, first))
    && (before.reviewed == Some(true) ==> after.reviewed == Some(true))
  }

  lemma PatchKeepsRow(row: Experience, patch: Patch, now: int, first: string)
    ensures RowKept(row, Patched(row, patch, now), first)
  {
  }

  lemma RejectManyKeepsRow(rows: seq<Experience>, ids: seq<string>, now: int, k: nat, first: string)
    requires k < |rows|
    ensures |RejectList(rows, ids, now).0| == |rows|
    ensures RowKept(rows[k], RejectList(rows, ids, now).0[k], first)
  {
    hide RejectList, Listed;
    RejectListPointwise(rows, ids, now, k);
  }

  lemma MarkManyKeepsRow(rows: seq<Experience>, ids: seq<string>, now: int, k: nat, first: string)
    requires k < |rows|
    ensures |MarkMany(rows, ids, now).0| == |rows|
    ensures RowKept(rows[k], MarkMany(rows, ids, now).0[k], first)
  {
    hide MarkMany, Listed;
    MarkManyLeavesNoneListed(rows, ids, now, k);
  }

  lemma ApplyKeepsRow(rows: seq<Experience>, cmd: Command, k: nat, first: string)
    requires k < |rows|
    ensures |Apply(rows, cmd).0| == |rows|
    ensures RowKept(rows[k], Apply(rows, cmd).0[k], first)
  {
    match cmd
    case Update(id, patch, now) => UpdateKeepsRow(rows, cmd, k, first);
    case RejectMany(ids, now) => RejectManyKeepsRow(rows, ids, now, k, first);
    case MarkManyReviewed(ids, now) => MarkManyKeepsRow(rows, ids, now, k, first);
    case _ => OneCommandKeepsRow(rows, cmd, k, first);
  }

  lemma UpdateKeepsRow(rows: seq<Experience>, cmd: Command, k: nat, first: string)
    requires k < |rows| && cmd.Update?
    ensures |Apply(rows, cmd).0| == |rows|
    ensures RowKept(rows[k], Apply(rows, cmd).0[k], first)
  {
    hide IndexOf, Patched;
    PatchKeepsRow(rows[k], cmd.patch, cmd.now, first);
  }

  lemma OneCommandKeepsRow(rows: seq<Experience>, cmd: Command, k: nat, first: string)
    requires k < |rows| && !cmd.Update? && !cmd.RejectMany? && !cmd.MarkManyReviewed?
    ensures |Apply(rows, cmd).0| == |rows|
    ensures RowKept(rows[k], Apply(rows, cmd).0[k], first)
  {
    hide IndexOf, RejectList, MarkMany, Unreviewed, Patched;
  }

  /**
   Over every run of commands each row keeps its identity, its archive bookkeeping, its
   reviewed mark and the very first non-empty summary.
   */
  lemma {:induction false} RunKeepsRow(rows: seq<Experience>, cmds: seq<Command>, k: nat, first: string)
    requires k < |rows|
    ensures |Run(rows, cmds)| == |rows|
    ensures RowKept(rows[k], Run(rows, cmds)[k], first)
    decreases |cmds|
  {
    if cmds != [] {
      ApplyKeepsRow(rows, cmds[0], k, first);
      RunKeepsRow(Apply(rows, cmds[0]).0, cmds[1..], k, first);
    }
  }

  /** A run from a consistent store ends in one. */
  lemma RunKeepsConsistent(rows: seq<Experience>, cmds: seq<Command>)
    requires forall row :: row in rows ==> Consistent(row)
    ensures forall row :: row in Run(rows, cmds) ==> Consistent(row)
  {
    var after := Run(rows, cmds);
    if rows != [] {
      RunKeepsRow(rows, cmds, 0, "");
    } else {
      EmptyRun(cmds);
    }
    forall row | row in after
      ensures Consistent(row)
    {
      var k :| 0 <= k < |after| && after[k] == row;
      RunKeepsRow(rows, cmds, k, "");
      assert rows[k] in rows;
    }
  }

  lemma {:induction false} EmptyRun(cmds: seq<Command>)
    ensures Run([], cmds) == []
    decreases |cmds|
  {
    if cmds != [] {
      if cmds[0].RejectMany? {
        EmptyStoreStaysEmpty(cmds[0].ids, [], cmds[0].now);
      } else if cmds[0].MarkManyReviewed? {
        EmptyMark(cmds[0].ids, cmds[0].now);
      }
      EmptyRun(cmds[1..]);
    }
  }

  lemma {:induction false} EmptyMark(ids: seq<string>, now: int)
    ensures MarkMany([], ids, now).0 == []
    decreases |ids|
  {
    if ids != [] {
      EmptyMark(ids[1..], now);
    }
  }

  // ----- the original summary -----------------------------------------------------------

  /** The drawer's revert, offered while the row has an original: write it back as the summary. */
  function Revert(row: Experience, now: int): Command
    requires HasOriginal(row)
  {
    Update(row.id, Patch(Some(row.original.value), None, None, None), now)
  }

  /**
   However a row with a non-empty summary and no original was edited: either the summary never
   changed, or reverting is offered and restores the very first text.
   */
  lemma RevertRestoresFirst(rows: seq<Experience>, cmds: seq<Command>, k: nat, now: int)
    requires k < |rows| && IndexOf(rows, rows[k].id) == k
    requires !HasOriginal(rows[k]) && rows[k].summary != ""
    ensures |Run(rows, cmds)| == |rows|
    ensures var after := Run(rows, cmds);
      if HasOriginal(after[k]) then
        var (reverted, reply) := Apply(after, Revert(after[k], now));
        reply == Done && |reverted| == |rows| && reverted[k].summary == rows[k].summary
      else
        after[k].summary == rows[k].summary
  {
    var after := Run(rows, cmds);
    RunKeepsRow(rows, cmds, k, rows[k].summary);
    assert SameIds(rows, after) by {
      forall j | 0 <= j < |rows|
        ensures after[j].id == rows[j].id
      {
        RunKeepsRow(rows, cmds, j, "");
      }
    }
    SameIdsSameIndex(rows, after, rows[k].id);
  }

  predicate EditsSummary(rows: seq<Experience>, cmd: Command, k: nat) {
    cmd.Update? && cmd.patch.summary.Some? && IndexOf(rows, cmd.id) == k
  }

  /** The texts of row k that the edits of a run overwrote, in order. */
  function Overwritten(rows: seq<Experience>, cmds: seq<Command>, k: nat): seq<string>
    requires k < |rows|
    decreases |cmds|
  {
    if cmds == [] then []
    else
      ApplyKeepsRow(rows, cmds[0], k, "");
      (if EditsSummary(rows, cmds[0], k) then [rows[k].summary] else [])
      + Overwritten(Apply(rows, cmds[0]).0, cmds[1..], k)
  }

  /** The first text that is not empty; without one, the empty text if any was overwritten. */
  function FirstText(texts: seq<string>, otherwise: Option<string>): Option<string> {
    if texts == [] then otherwise
    else if texts[0] != "" then Some(texts[0])
    else FirstText(texts[1..], Some(""))
  }

  lemma OriginalAfterOne(rows: seq<Experience>, cmd: Command, k: nat)
    requires k < |rows|
    ensures |Apply(rows, cmd).0| == |rows|
    ensures Apply(rows, cmd).0[k].original ==
      if EditsSummary(rows, cmd, k) && !HasOriginal(rows[k])
      then Some(rows[k].summary) else rows[k].original
  {
    match cmd
    case RejectMany(ids, now) => RejectListPointwise(rows, ids, now, k);
    case MarkManyReviewed(ids, now) => MarkManyLeavesNoneListed(rows, ids, now, k);
    case _ =>
  }

  /**
   After any run, the original of a row is the one it had, if it had one that is not empty, and
   otherwise the first non-empty text that an edit of the run overwrote.
   */
  lemma {:induction false} OriginalIsFirstText(rows: seq<Experience>, cmds: seq<Command>, k: nat)
    requires k < |rows|
    ensures |Run(rows, cmds)| == |rows|
    ensures Run(rows, cmds)[k].original
         == if HasOriginal(rows[k]) then rows[k].original
            else FirstText(Overwritten(rows, cmds, k), rows[k].original)
    decreases |cmds|
  {
    if cmds != [] {
      hide Apply;
      var next := Apply(rows, cmds[0]).0;
      OriginalAfterOne(rows, cmds[0], k);
      OriginalIsFirstText(next, cmds[1..], k);
      var rest := Overwritten(next, cmds[1..], k);
      assert ([rows[k].summary] + rest)[1..] == rest && [] + rest == rest;
    }
  }

  /** For instance an absent status, which rejecting and undoing turns into "active". */
  lemma AbsentStatusIsNotRestored(row: Experience, now: int)
    requires row.status == None
    ensures UndoList(RejectList([row], [row.id], now).0, [row.id]) != [row]
  {
    RejectThenUndo([row], [row.id], [row.id], now);
    assert IndexOf([row], row.id) == 0 && row.id in [row.id];
  }
}
