/**
 The experience commands, listings and review queues in the fields of the rows: what a command
 writes into the row it names, which rows a listing or queue shows, and in which order.
 */
module ExperienceRules {
  import opened Sequences
  import opened StableSort
  import opened Experiences
  import opened ExperienceStore

  // ----- commands -----------------------------------------------------------------------

  predicate IsActive(row: Experience) { row.status == None || row.status == Some("active") }

  predicate AwaitsReview(row: Experience) { row.reviewed == Some(false) && IsActive(row) }

  /** Row k is the one that an id names: the first with that id. */
  predicate Names(rows: seq<Experience>, id: string, k: nat) {
    k < |rows| && rows[k].id == id && forall j :: 0 <= j < k ==> rows[j].id != id
  }

  lemma {:induction false} NamedIndex(rows: seq<Experience>, id: string, k: nat)
    requires Names(rows, id, k)
    ensures IndexOf(rows, id) == k
  {
    if k > 0 {
      NamedIndex(rows[1..], id, k - 1);
    }
  }

  lemma {:induction false} UnnamedIndex(rows: seq<Experience>, id: string)
    requires forall j :: 0 <= j < |rows| ==> rows[j].id != id
    ensures IndexOf(rows, id) == |rows|
  {
    if rows != [] {
      UnnamedIndex(rows[1..], id);
    }
  }

  /** What an edit leaves: each field that it brings, the time, and the text before the first edit as the original. */
  function Edited(row: Experience, patch: Patch, now: int): Experience {
    var keep := patch.summary.None? || (row.original.Some? && row.original.value != "");
    Experience(
      row.id, row.agent,
      if patch.projectId.Some? then patch.projectId.value else row.projectId,
      if patch.summary.Some? then patch.summary.value else row.summary,
      if patch.outcome.Some? then patch.outcome.value else row.outcome,
      if patch.tags.Some? then patch.tags.value else row.tags,
      row.createdAt, Some(now), row.status, row.reviewed, row.reviewedAt, row.archivedAt, row.archivedBy, row.isPinned,
      if keep then row.original else Some(row.summary))
  }

  /** A command that names one row replaces that row by the given one and nothing else. */
  ghost predicate Replaces(rows: seq<Experience>, cmd: Command, id: string, change: Experience -> Experience) {
    && (forall k: nat :: Names(rows, id, k) ==> Apply(rows, cmd) == (rows[k := change(rows[k])], Done))
    && ((forall j :: 0 <= j < |rows| ==> rows[j].id != id) ==> Apply(rows, cmd) == (rows, Error))
  }

  lemma WithRowReplaces(rows: seq<Experience>, id: string, change: Experience -> Experience)
    ensures forall k: nat :: Names(rows, id, k) ==> WithRow(rows, id, change) == (rows[k := change(rows[k])], Done)
    ensures (forall j :: 0 <= j < |rows| ==> rows[j].id != id) ==> WithRow(rows, id, change) == (rows, Error)
  {
    forall k: nat | Names(rows, id, k)
      ensures WithRow(rows, id, change) == (rows[k := change(rows[k])], Done)
    {
      NamedIndex(rows, id, k);
    }
    if forall j :: 0 <= j < |rows| ==> rows[j].id != id {
      UnnamedIndex(rows, id);
    }
  }

  lemma SameChange(rows: seq<Experience>, id: string, change: Experience -> Experience, other: Experience -> Experience)
    requires forall row: Experience :: change(row) == other(row)
    ensures WithRow(rows, id, change) == WithRow(rows, id, other)
  {
  }

  lemma UpdateRule(rows: seq<Experience>, id: string, patch: Patch, now: int)
    ensures Replaces(rows, Update(id, patch, now), id, (row: Experience) => Edited(row, patch, now))
  {
    SameChange(rows, id, (row: Experience) => Patched(row, patch, now), (row: Experience) => Edited(row, patch, now));
    WithRowReplaces(rows, id, (row: Experience) => Edited(row, patch, now));
  }

  /** Archiving, by the user or as rejected, and its undoing; the pin; the review mark. */
  lemma FieldRules(rows: seq<Experience>, id: string, pinned: bool, now: int)
    ensures Replaces(rows, Archive(id, now), id, (row: Experience) =>
      row.(status := Some("archived"), archivedAt := Some(now), archivedBy := Some("user")))
    ensures Replaces(rows, Reject(id, now), id, (row: Experience) =>
      row.(status := Some("archived"), archivedAt := Some(now), archivedBy := Some("rejected")))
    ensures Replaces(rows, Unarchive(id), id, (row: Experience) =>
      row.(status := Some("active"), archivedAt := None, archivedBy := None))
    ensures Replaces(rows, Pin(id, pinned), id, (row: Experience) => row.(isPinned := Some(pinned)))
    ensures Replaces(rows, MarkReviewed(id, now), id, (row: Experience) =>
      row.(reviewed := Some(true), reviewedAt := Some(now)))
  {
    hide IndexOf;
    ArchiveRule(rows, id, now);
    UnarchiveRule(rows, id);
    PinAndMarkRule(rows, id, pinned, now);
  }

  lemma ArchiveRule(rows: seq<Experience>, id: string, now: int)
    ensures Replaces(rows, Archive(id, now), id, (row: Experience) =>
      row.(status := Some("archived"), archivedAt := Some(now), archivedBy := Some("user")))
    ensures Replaces(rows, Reject(id, now), id, (row: Experience) =>
      row.(status := Some("archived"), archivedAt := Some(now), archivedBy := Some("rejected")))
  {
    WithRowReplaces(rows, id, (row: Experience) => Archived(row, "user", now));
    WithRowReplaces(rows, id, (row: Experience) => Archived(row, "rejected", now));
  }

  lemma UnarchiveRule(rows: seq<Experience>, id: string)
    ensures Replaces(rows, Unarchive(id), id, (row: Experience) =>
      row.(status := Some("active"), archivedAt := None, archivedBy := None))
  {
    WithRowReplaces(rows, id, Activated);
  }

  lemma PinAndMarkRule(rows: seq<Experience>, id: string, pinned: bool, now: int)
    ensures Replaces(rows, Pin(id, pinned), id, (row: Experience) => row.(isPinned := Some(pinned)))
    ensures Replaces(rows, MarkReviewed(id, now), id, (row: Experience) =>
      row.(reviewed := Some(true), reviewedAt := Some(now)))
  {
    WithRowReplaces(rows, id, (row: Experience) => row.(isPinned := Some(pinned)));
    WithRowReplaces(rows, id, (row: Experience) => Reviewed(row, now));
  }

  /** Undoing a rejection reactivates a row that was rejected, and is an error for any other. */
  lemma UndoRule(rows: seq<Experience>, id: string, k: nat)
    requires Names(rows, id, k)
    ensures Apply(rows, UndoReject(id))
         == if rows[k].archivedBy == Some("rejected")
            then (rows[k := rows[k].(status := Some("active"), archivedAt := None, archivedBy := None)], Done)
            else (rows, Error)
  {
    NamedIndex(rows, id, k);
  }

  /** Marking all marks exactly the active rows that await review, and answers with their number. */
  lemma MarkAllRule(rows: seq<Experience>, now: int)
    ensures |Apply(rows, MarkAllReviewed(now)).0| == |rows|
    ensures forall k :: 0 <= k < |rows| ==>
      Apply(rows, MarkAllReviewed(now)).0[k]
      == if AwaitsReview(rows[k]) then rows[k].(reviewed := Some(true), reviewedAt := Some(now)) else rows[k]
    ensures Apply(rows, MarkAllReviewed(now)).1 == Changed(|Filter(AwaitsReview, rows)|)
  {
    FilterCongruent(IsPending, AwaitsReview, rows);
  }

  predicate HasRow(rows: seq<Experience>, id: string) { exists row :: row in rows && row.id == id }

  /** How many ids of a list name a row. */
  function Hits(rows: seq<Experience>, ids: seq<string>): nat {
    |Filter(id => HasRow(rows, id), ids)|
  }

  lemma FoundIsHasRow(rows: seq<Experience>, id: string)
    ensures IndexOf(rows, id) < |rows| <==> HasRow(rows, id)
  {
    if IndexOf(rows, id) < |rows| {
      assert rows[IndexOf(rows, id)] in rows;
    }
    if row :| row in rows && row.id == id {
      var k :| 0 <= k < |rows| && rows[k] == row;
    }
  }

  lemma RejectOneKeepsIds(rows: seq<Experience>, id: string, now: int, other: string)
    ensures HasRow(RejectOne(rows, id, now).0, other) <==> HasRow(rows, other)
  {
    var after := RejectOne(rows, id, now).0;
    assert |after| == |rows| && forall k :: 0 <= k < |rows| ==> after[k].id == rows[k].id;
    if HasRow(rows, other) {
      var row :| row in rows && row.id == other;
      var k :| 0 <= k < |rows| && rows[k] == row;
      assert after[k] in after;
    }
    if HasRow(after, other) {
      var row :| row in after && row.id == other;
      var k :| 0 <= k < |after| && after[k] == row;
      assert rows[k] in rows;
    }
  }

  /** Bulk rejection answers with the number of ids in its list that name a row, repeats included. */
  lemma {:induction false} RejectManyCount(rows: seq<Experience>, ids: seq<string>, now: int)
    ensures Apply(rows, RejectMany(ids, now)).1 == Changed(Hits(rows, ids))
    decreases |ids|
  {
    hide HasRow, IndexOf;
    if ids != [] {
      var after := RejectOne(rows, ids[0], now).0;
      FoundIsHasRow(rows, ids[0]);
      forall id
        ensures HasRow(after, id) <==> HasRow(rows, id)
      {
        RejectOneKeepsIds(rows, ids[0], now, id);
      }
      FilterCongruent(id => HasRow(after, id), id => HasRow(rows, id), ids[1..]);
      RejectManyCount(after, ids[1..], now);
    }
  }

  // ----- listings -----------------------------------------------------------------------

  /** A row that a listing or count sees: not archived unless asked for, and of the project if one is given. */
  function IsSeen(includeArchived: bool, projectId: string): Experience -> bool {
    (row: Experience) =>
      (includeArchived || row.status != Some("archived")) && (projectId == "" || row.projectId == projectId)
  }

  /** Pinned before unpinned, and newer before older. */
  predicate GoesBefore(a: Experience, b: Experience) {
    if a.isPinned == Some(true) then b.isPinned != Some(true) || a.createdAt >= b.createdAt
    else b.isPinned != Some(true) && a.createdAt >= b.createdAt
  }

  /** A listing is a window of the rows seen, in that order; the count is their number. */
  lemma ListingRule(rows: seq<Experience>, limit: nat, offset: nat, includeArchived: bool, projectId: string)
    ensures var all := Ordered(rows, includeArchived, projectId);
      && multiset(all) == multiset(Filter(IsSeen(includeArchived, projectId), rows))
      && (forall i, j :: 0 <= i < j < |all| ==> GoesBefore(all[i], all[j]))
      && (forall x :: Filter(Ties(GoesBefore, x), all)
                   == Filter(Ties(GoesBefore, x), Filter(IsSeen(includeArchived, projectId), rows)))
      && Count(rows, includeArchived, projectId) == |all|
      && List(rows, limit, offset, includeArchived, projectId)
         == all[Min(offset, |all|)..Min(offset + limit, |all|)]
  {
    hide GoesBefore;
    var p, q := IsVisible(includeArchived, projectId), IsSeen(includeArchived, projectId);
    var order := Grouped(IsPinned, Newest);
    FilterCongruent(p, q, rows);
    SortContents(order, Filter(p, rows));
    SortGoesBefore(Filter(p, rows));
    var all := Ordered(rows, includeArchived, projectId);
    forall x
      ensures Filter(Ties(GoesBefore, x), all) == Filter(Ties(GoesBefore, x), Filter(q, rows))
    {
      TiesKeepOrder(x, Filter(p, rows));
    }
  }

  lemma SortGoesBefore(rows: seq<Experience>)
    ensures var all := Sort(Grouped(IsPinned, Newest), rows);
      forall i, j :: 0 <= i < j < |all| ==> GoesBefore(all[i], all[j])
  {
    var order := Grouped(IsPinned, Newest);
    GroupedIsPreorder(IsPinned, Newest);
    SortSorted(order, rows);
    var all := Sort(order, rows);
    forall i, j | 0 <= i < j < |all|
      ensures GoesBefore(all[i], all[j])
    {
      assert order(all[i], all[j]);
    }
  }

  lemma TiesKeepOrder(x: Experience, rows: seq<Experience>)
    ensures Filter(Ties(GoesBefore, x), Sort(Grouped(IsPinned, Newest), rows)) == Filter(Ties(GoesBefore, x), rows)
  {
    var order, tied := Grouped(IsPinned, Newest), Ties(GoesBefore, x);
    GroupedIsPreorder(IsPinned, Newest);
    FilterSort(order, tied, rows);
    FilterIn(tied, rows);
    var ties := Filter(tied, rows);
    forall i, j | 0 <= i < j < |ties|
      ensures order(ties[i], ties[j])
    {
      assert ties[i] in ties && ties[j] in ties;
      assert tied(ties[i]) && tied(ties[j]);
      assert GoesBefore(x, ties[i]) && GoesBefore(ties[i], x) && GoesBefore(x, ties[j]) && GoesBefore(ties[j], x);
    }
    SortOfSorted(order, ties);
  }

  // ----- review queues ------------------------------------------------------------------

  predicate Within(text: string, part: string) { exists i :: 0 <= i <= |text| && PartAt(text, part, i) }

  /** A row whose summary or original still names something that was to be replaced. */
  predicate NeedsHygiene(row: Experience) {
    var text := row.summary + " " + (if row.original.Some? then row.original.value else "");
    Within(text, "<device-ip>") || Within(text, "<redacted-token>") || Within(text, "<device-serial>")
    || Within(text, "<home>")
  }

  lemma SomePlaceholder(text: string)
    ensures (exists p :: p in PLACEHOLDERS && Contains(text, p))
       <==> Contains(text, "<device-ip>") || Contains(text, "<redacted-token>")
            || Contains(text, "<device-serial>") || Contains(text, "<home>")
  {
    hide Contains;
    assert PLACEHOLDERS[0] == "<device-ip>" && PLACEHOLDERS[1] == "<redacted-token>";
    assert PLACEHOLDERS[2] == "<device-serial>" && PLACEHOLDERS[3] == "<home>";
    assert PLACEHOLDERS[0] in PLACEHOLDERS && PLACEHOLDERS[1] in PLACEHOLDERS;
    assert PLACEHOLDERS[2] in PLACEHOLDERS && PLACEHOLDERS[3] in PLACEHOLDERS;
    if p :| p in PLACEHOLDERS && Contains(text, p) {
      var k :| 0 <= k < |PLACEHOLDERS| && PLACEHOLDERS[k] == p;
      assert k == 0 || k == 1 || k == 2 || k == 3;
    }
  }

  lemma WithinIs(text: string, part: string)
    ensures Within(text, part) <==> Contains(text, part)
  {
    ContainsIs(text, part);
  }

  lemma HygieneIs(row: Experience)
    ensures HasHygiene(row) <==> NeedsHygiene(row)
  {
    hide Contains, Within;
    var text := row.summary + " " + (if row.original.Some? then row.original.value else "");
    SomePlaceholder(text);
    WithinIs(text, "<device-ip>");
    WithinIs(text, "<redacted-token>");
    WithinIs(text, "<device-serial>");
    WithinIs(text, "<home>");
  }

  /** What a queue's stat selects. */
  predicate Selects(stat: Stat, today: int, row: Experience) {
    match stat
    case Pending => AwaitsReview(row)
    case Hygiene => AwaitsReview(row) && NeedsHygiene(row)
    case ApprovedToday =>
      row.reviewed == Some(true) && IsActive(row)
      && row.reviewedAt.Some? && row.reviewedAt.value / 86_400_000 == today
    case RejectedStat => row.status == Some("archived") && row.archivedBy == Some("rejected")
    case OtherStat => true
  }

  lemma StatIs(stat: Stat, today: int, row: Experience)
    ensures InStat(stat, today)(row) <==> Selects(stat, today, row)
  {
    HygieneIs(row);
  }

  /** What the filters of a queue let through. */
  predicate LetsThrough(f: QueueFilter, row: Experience) {
    && (f.projectId != "" ==> row.projectId == f.projectId)
    && (f.agent != "" ==> row.agent == f.agent)
    && (f.outcome != "" ==> row.outcome == f.outcome)
    && (f.hygieneOnly ==> NeedsHygiene(row))
  }

  /** Rows that need hygiene before those that do not, and newer before older. */
  predicate ReviewedBefore(a: Experience, b: Experience) {
    if NeedsHygiene(a) then !NeedsHygiene(b) || a.createdAt >= b.createdAt
    else !NeedsHygiene(b) && a.createdAt >= b.createdAt
  }

  /** A queue shows rows of its stat that pass the filters, without their originals, and at most its limit. */
  lemma QueueRule(rows: seq<Experience>, stat: Stat, today: int, f: QueueFilter, limit: int, x: Experience)
    requires x in ReviewQueue(rows, stat, today, f, limit)
    ensures |ReviewQueue(rows, stat, today, f, limit)| <= Max(1, limit) && x.original == None
    ensures exists row :: row in rows && x == row.(original := None) && Selects(stat, today, row) && LetsThrough(f, row)
  {
    var all := StatRows(rows, stat, today);
    var shown := Take(Filter(Passes(f), all), Max(1, limit));
    var k :| 0 <= k < |shown| && Map(StripOriginal, shown)[k] == x;
    var row := shown[k];
    FilterIn(Passes(f), all);
    assert row == Filter(Passes(f), all)[k];
    SelectedRow(rows, stat, today, row);
    HygieneIs(row);
    StatIs(stat, today, row);
  }

  lemma SelectedRow(rows: seq<Experience>, stat: Stat, today: int, row: Experience)
    ensures row in StatRows(rows, stat, today) <==> row in rows && InStat(stat, today)(row)
  {
    var selected := Filter(InStat(stat, today), rows);
    FilterIn(InStat(stat, today), rows);
    SortIn(Grouped(HasHygiene, Newest), selected);
    SortIn(Newest, selected);
  }

  /** With room enough every such row is shown. */
  lemma QueueShowsAll(rows: seq<Experience>, stat: Stat, today: int, f: QueueFilter, limit: int, row: Experience)
    requires |rows| <= limit && row in rows && Selects(stat, today, row) && LetsThrough(f, row)
    ensures row.(original := None) in ReviewQueue(rows, stat, today, f, limit)
  {
    var all := StatRows(rows, stat, today);
    var passing := Filter(Passes(f), all);
    HygieneIs(row);
    StatIs(stat, today, row);
    SelectedRow(rows, stat, today, row);
    FilterIn(Passes(f), all);
    FilterLength(Passes(f), all);
    StatRowsLength(rows, stat, today);
    assert Take(passing, Max(1, limit)) == passing;
    var k :| 0 <= k < |passing| && passing[k] == row;
    assert Map(StripOriginal, passing)[k] == row.(original := None);
  }

  lemma StatRowsLength(rows: seq<Experience>, stat: Stat, today: int)
    ensures |StatRows(rows, stat, today)| <= |rows|
  {
    FilterLength(InStat(stat, today), rows);
  }

  /** The pending queue puts rows that need hygiene first; it and the hygiene queue are newest first. */
  lemma QueueOrder(rows: seq<Experience>, today: int)
    ensures var pending := StatRows(rows, Pending, today);
      forall i, j :: 0 <= i < j < |pending| ==> ReviewedBefore(pending[i], pending[j])
    ensures var hygiene := StatRows(rows, Hygiene, today);
      forall i, j :: 0 <= i < j < |hygiene| ==> hygiene[i].createdAt >= hygiene[j].createdAt
  {
    var order := Grouped(HasHygiene, Newest);
    var pending, hygiene := StatRows(rows, Pending, today), StatRows(rows, Hygiene, today);
    GroupedIsPreorder(HasHygiene, Newest);
    SortSorted(order, Filter(InStat(Pending, today), rows));
    SortSorted(Newest, Filter(InStat(Hygiene, today), rows));
    forall i, j | 0 <= i < j < |pending|
      ensures ReviewedBefore(pending[i], pending[j])
    {
      assert order(pending[i], pending[j]);
      HygieneIs(pending[i]);
      HygieneIs(pending[j]);
    }
    forall i, j | 0 <= i < j < |hygiene|
      ensures hygiene[i].createdAt >= hygiene[j].createdAt
    {
      assert Newest(hygiene[i], hygiene[j]);
    }
  }

  /** The badge and the four stats count what the queues select. */
  lemma CountRule(rows: seq<Experience>, today: int)
    ensures Unreviewed(rows) == |Filter(AwaitsReview, rows)|
    ensures CountStats(rows, today).pending == |Filter(AwaitsReview, rows)|
    ensures CountStats(rows, today).rejected
         == |Filter((row: Experience) => row.status == Some("archived") && row.archivedBy == Some("rejected"), rows)|
  {
    FilterCongruent(IsPending, AwaitsReview, rows);
    FilterCongruent(InStat(Pending, today), AwaitsReview, rows);
    FilterCongruent(InStat(RejectedStat, today),
                    (row: Experience) => row.status == Some("archived") && row.archivedBy == Some("rejected"), rows);
  }
}
