/**
 The hash-chained event journal: every row carries the hash of its own fields and of the row
 before it. The hash function is a parameter of which nothing is assumed: where tampering goes
 unnoticed because two texts have one hash, the two texts are named.
 */
module EventJournal {
  import opened Sequences
  import opened StableSort

  const GENESIS: string := "GENESIS"

  const MAX_SEQ: int := 0x7FFF_FFFF_FFFF_FFFF

  /** What an append is given, after scrubbing and trimming; None stands for a missing id. */
  datatype Entry = Entry(eventId: string, timestamp: string, actor: string, actionType: string,
                         projectId: Option<string>, taskId: Option<string>, payload: string)

  datatype Row = Row(seqNo: int, entry: Entry, prevHash: string, entryHash: string)

  function OrEmpty(value: Option<string>): string {
    if value.Some? then value.value else ""
  }

  /** The seven texts of an entry that are hashed. */
  function Texts(e: Entry): (texts: seq<string>)
    ensures |texts| == 7
  {
    [e.eventId, e.timestamp, e.actor, e.actionType, OrEmpty(e.projectId), OrEmpty(e.taskId), e.payload]
  }

  /** Texts with a `|` between each two, which is not escaped. */
  function Piped(texts: seq<string>): string {
    if texts == [] then [] else if |texts| == 1 then texts[0] else texts[0] + ['|'] + Piped(texts[1..])
  }

  function Signed(n: int): string { if n < 0 then ['-'] + Decimal(-n) else Decimal(n) }

  function Preimage(seqNo: int, e: Entry, prevHash: string): string {
    Piped([Signed(seqNo)] + (Texts(e) + [prevHash]))
  }

  predicate BySeq(a: Row, b: Row) { a.seqNo <= b.seqNo }

  /** A table in the order in which it is read, `ORDER BY seq`. */
  function Listed(table: seq<Row>): seq<Row> { Sort(BySeq, table) }

  // ----- appending and verifying --------------------------------------------------------

  function HeadHash(rows: seq<Row>): string {
    if rows == [] then GENESIS else rows[|rows| - 1].entryHash
  }

  function NextSeq(rows: seq<Row>): int {
    if rows == [] then 1 else rows[|rows| - 1].seqNo + 1
  }

  /** An empty action type, a used event id and an exhausted sequence number are refused. */
  predicate Accepts(rows: seq<Row>, e: Entry) {
    && e.actionType != "" && NextSeq(rows) <= MAX_SEQ
    && forall row :: row in rows ==> row.entry.eventId != e.eventId
  }

  function NewRow(hash: string -> string, rows: seq<Row>, e: Entry): Row {
    Row(NextSeq(rows), e, HeadHash(rows), hash(Preimage(NextSeq(rows), e, HeadHash(rows))))
  }

  function Appended(hash: string -> string, rows: seq<Row>, e: Entry): seq<Row> {
    if Accepts(rows, e) then rows + [NewRow(hash, rows, e)] else rows
  }

  /** The table after a run of appends, refused ones included. */
  function Journaled(hash: string -> string, entries: seq<Entry>): seq<Row> {
    if entries == [] then []
    else Appended(hash, Journaled(hash, entries[..|entries| - 1]), entries[|entries| - 1])
  }

  datatype Reason = SeqGap | PrevMismatch | HashMismatch

  datatype Report = Report(
    valid: bool, checked: nat, head: Option<string>,
    brokenAt: Option<int>, brokenEvent: Option<string>, reason: Option<Reason>)

  /** What is wrong with row k of the table, if anything. */
  function Fault(hash: string -> string, rows: seq<Row>, k: nat): Option<Reason>
    requires k < |rows|
  {
    if rows[k].seqNo != k + 1 then Some(SeqGap)
    else if rows[k].prevHash != HeadHash(rows[..k]) then Some(PrevMismatch)
    else if rows[k].entryHash != hash(Preimage(k + 1, rows[k].entry, rows[k].prevHash)) then Some(HashMismatch)
    else None
  }

  /** Every row has its number, points to the row before it, and carries its own hash. */
  ghost predicate IsChain(hash: string -> string, rows: seq<Row>) {
    forall k: nat :: k < |rows| ==> Fault(hash, rows, k) == None
  }

  /** What is reported when row k is the first that is faulty. */
  function FaultReport(hash: string -> string, rows: seq<Row>, k: nat): Report
    requires k < |rows|
  {
    Report(false, k + 1, if k == 0 then None else Some(HeadHash(rows[..k])),
           Some(rows[k].seqNo), Some(rows[k].entry.eventId), Fault(hash, rows, k))
  }

  /** A report that a chain is valid, or that names its first faulty row. */
  ghost predicate Reports(hash: string -> string, rows: seq<Row>, report: Report) {
    if report.valid then
      && IsChain(hash, rows)
      && report == Report(true, |rows|, if rows == [] then None else Some(HeadHash(rows)), None, None, None)
    else
      exists k: nat :: k < |rows| && FirstFault(hash, rows, k) && report == FaultReport(hash, rows, k)
  }

  ghost predicate FirstFault(hash: string -> string, rows: seq<Row>, k: nat)
    requires k < |rows|
  {
    Fault(hash, rows, k).Some? && forall j: nat :: j < k ==> Fault(hash, rows, j) == None
  }

  class Journal {
    const hash: string -> string
    var rows: seq<Row>

    constructor (hash: string -> string)
      ensures this.hash == hash && rows == []
    {
      this.hash := hash;
      rows := [];
    }

    method Append(e: Entry) returns (ok: bool)
      modifies this
      ensures rows == Appended(hash, old(rows), e) && ok == Accepts(old(rows), e)
      ensures ok ==> |rows| == |old(rows)| + 1 && rows[..|old(rows)|] == old(rows) && rows[|old(rows)|].entry == e
      ensures !ok ==> rows == old(rows)
    {
      var prevSeq, prevHash := 0, GENESIS;
      if rows != [] {
        prevSeq, prevHash := rows[|rows| - 1].seqNo, rows[|rows| - 1].entryHash;
      }
      var used := exists row :: row in rows && row.entry.eventId == e.eventId;
      if e.actionType == "" || prevSeq >= MAX_SEQ || used {
        return false;
      }
      var preimage := Preimage(prevSeq + 1, e, prevHash);
      rows := rows + [Row(prevSeq + 1, e, prevHash, hash(preimage))];
      ok := true;
    }

    /** Walk the table in the order of its numbers; stop at the first row that does not fit. */
    method Verify() returns (report: Report)
      ensures Reports(hash, rows, report)
    {
      var expectedPrev, head := GENESIS, None;
      for k := 0 to |rows|
        invariant expectedPrev == HeadHash(rows[..k])
        invariant head == if k == 0 then None else Some(HeadHash(rows[..k]))
        invariant forall j: nat :: j < k ==> Fault(hash, rows, j) == None
      {
        var row := rows[k];
        if row.seqNo != k + 1 {
          assert FirstFault(hash, rows, k);
          return Report(false, k + 1, head, Some(row.seqNo), Some(row.entry.eventId), Some(SeqGap));
        }
        if row.prevHash != expectedPrev {
          assert FirstFault(hash, rows, k);
          return Report(false, k + 1, head, Some(row.seqNo), Some(row.entry.eventId), Some(PrevMismatch));
        }
        if row.entryHash != hash(Preimage(row.seqNo, row.entry, row.prevHash)) {
          assert FirstFault(hash, rows, k);
          return Report(false, k + 1, head, Some(row.seqNo), Some(row.entry.eventId), Some(HashMismatch));
        }
        expectedPrev, head := row.entryHash, Some(row.entryHash);
        assert rows[..k + 1][k] == row;
      }
      assert rows[..|rows|] == rows;
      report := Report(true, |rows|, head, None, None, None);
    }
  }

  // ----- every run of appends verifies --------------------------------------------------

  lemma PrefixFault(hash: string -> string, rows: seq<Row>, n: nat, k: nat)
    requires k < n <= |rows|
    ensures Fault(hash, rows[..n], k) == Fault(hash, rows, k)
  {
    assert rows[..n][..k] == rows[..k];
  }

  lemma ChainNumbers(hash: string -> string, rows: seq<Row>)
    requires IsChain(hash, rows)
    ensures NextSeq(rows) == |rows| + 1
  {
    if rows != [] {
      assert Fault(hash, rows, |rows| - 1) == None;
    }
  }

  lemma NewRowKeepsChain(hash: string -> string, rows: seq<Row>, e: Entry)
    requires IsChain(hash, rows)
    ensures IsChain(hash, rows + [NewRow(hash, rows, e)])
  {
    var after := rows + [NewRow(hash, rows, e)];
    ChainNumbers(hash, rows);
    forall k: nat | k < |after|
      ensures Fault(hash, after, k) == None
    {
      if k < |rows| {
        PrefixFault(hash, after, |rows|, k);
        assert after[..|rows|] == rows && Fault(hash, rows, k) == None;
      } else {
        assert after[..k] == rows;
      }
    }
  }

  lemma {:induction false} EveryJournalIsChain(hash: string -> string, entries: seq<Entry>)
    ensures IsChain(hash, Journaled(hash, entries))
  {
    if entries != [] {
      var before := Journaled(hash, entries[..|entries| - 1]);
      EveryJournalIsChain(hash, entries[..|entries| - 1]);
      NewRowKeepsChain(hash, before, entries[|entries| - 1]);
    }
  }

  /** Whatever is appended and whatever refused, the journal verifies, down to its last row. */
  lemma EveryJournalVerifies(hash: string -> string, entries: seq<Entry>, report: Report)
    requires Reports(hash, Journaled(hash, entries), report)
    ensures report.valid && report.checked == |Journaled(hash, entries)| && report.brokenAt == None
  {
    EveryJournalIsChain(hash, entries);
    ReportIsDetermined(hash, Journaled(hash, entries), report, report);
  }

  /** A table has one report only: valid exactly when it is a chain, else about its first faulty row. */
  lemma ReportIsDetermined(hash: string -> string, rows: seq<Row>, report: Report, other: Report)
    requires Reports(hash, rows, report) && Reports(hash, rows, other)
    ensures report == other && (report.valid <==> IsChain(hash, rows))
  {
    if !report.valid {
      var k: nat :| k < |rows| && FirstFault(hash, rows, k) && report == FaultReport(hash, rows, k);
      if !other.valid {
        var j: nat :| j < |rows| && FirstFault(hash, rows, j) && other == FaultReport(hash, rows, j);
        assert j == k;
      }
    }
  }

  // ----- what the rows hold -------------------------------------------------------------

  /** The entries that have an action and an event id of their own, in order. */
  function Kept(entries: seq<Entry>): seq<Entry> {
    if entries == [] then []
    else
      var before, e := Kept(entries[..|entries| - 1]), entries[|entries| - 1];
      if e.actionType != "" && forall k :: k in before ==> k.eventId != e.eventId then before + [e] else before
  }

  lemma {:induction false} KeptIsNoLonger(entries: seq<Entry>)
    ensures |Kept(entries)| <= |entries|
  {
    if entries != [] {
      KeptIsNoLonger(entries[..|entries| - 1]);
    }
  }

  lemma {:induction false} KeptComesFrom(entries: seq<Entry>)
    ensures forall k :: k in Kept(entries) ==> k in entries
  {
    if entries != [] {
      KeptComesFrom(entries[..|entries| - 1]);
      assert entries == entries[..|entries| - 1] + [entries[|entries| - 1]];
    }
  }

  /** Row by row the journal holds exactly the entries kept, unaltered and in order, numbered from 1. */
  lemma {:induction false} JournalHoldsEntries(hash: string -> string, entries: seq<Entry>)
    requires |entries| < 0x7FFF_FFFF_FFFF_FFFF
    ensures var rows := Journaled(hash, entries);
      && |rows| == |Kept(entries)|
      && forall k :: 0 <= k < |rows| ==> rows[k].entry == Kept(entries)[k] && rows[k].seqNo == k + 1
  {
    if entries != [] {
      var before, e := entries[..|entries| - 1], entries[|entries| - 1];
      var rows, kept := Journaled(hash, before), Kept(before);
      JournalHoldsEntries(hash, before);
      KeptIsNoLonger(before);
      assert (forall row :: row in rows ==> row.entry.eventId != e.eventId)
        <==> (forall k :: k in kept ==> k.eventId != e.eventId) by {
        SameEntries(rows, kept, e.eventId);
      }
      assert NextSeq(rows) == |rows| + 1;
    }
  }

  lemma SameEntries(rows: seq<Row>, kept: seq<Entry>, id: string)
    requires |rows| == |kept| && forall k :: 0 <= k < |rows| ==> rows[k].entry == kept[k]
    ensures (forall row :: row in rows ==> row.entry.eventId != id) <==> (forall k :: k in kept ==> k.eventId != id)
  {
    if forall row :: row in rows ==> row.entry.eventId != id {
      forall k | 0 <= k < |kept|
        ensures kept[k].eventId != id
      {
        assert rows[k] in rows;
      }
    }
    if forall k :: k in kept ==> k.eventId != id {
      forall k | 0 <= k < |rows|
        ensures rows[k].entry.eventId != id
      {
        assert kept[k] in kept;
      }
    }
  }

  lemma {:induction false} FreshUpTo(entries: seq<Entry>, n: nat)
    requires n <= |entries| && forall i :: 0 <= i < |entries| ==> entries[i].actionType != ""
    requires forall i, j :: 0 <= i < j < |entries| ==> entries[i].eventId != entries[j].eventId
    ensures Kept(entries[..n]) == entries[..n]
    decreases n
  {
    if n > 0 {
      var before, e := entries[..n - 1], entries[n - 1];
      FreshUpTo(entries, n - 1);
      assert entries[..n] == before + [e] && entries[..n][..n - 1] == before;
      forall k | k in before
        ensures k.eventId != e.eventId
      {
        var i :| 0 <= i < n - 1 && before[i] == k;
        assert entries[i] == k;
      }
    }
  }

  /** With actions and fresh event ids throughout, that is every entry. */
  lemma FreshEntriesAreKept(entries: seq<Entry>)
    requires forall i :: 0 <= i < |entries| ==> entries[i].actionType != ""
    requires forall i, j :: 0 <= i < j < |entries| ==> entries[i].eventId != entries[j].eventId
    ensures Kept(entries) == entries
  {
    FreshUpTo(entries, |entries|);
    assert entries[..|entries|] == entries;
  }

  /** What row k of a chain carries: the hash of the row before it, and the hash of its own nine fields. */
  lemma ChainSpelled(hash: string -> string, rows: seq<Row>, k: nat)
    requires IsChain(hash, rows) && k < |rows|
    ensures rows[k].seqNo == k + 1
    ensures rows[k].prevHash == if k == 0 then "GENESIS" else rows[k - 1].entryHash
    ensures var e := rows[k].entry;
      rows[k].entryHash == hash(
        Decimal(k + 1) + "|" + e.eventId + "|" + e.timestamp + "|" + e.actor + "|" + e.actionType
        + "|" + (if e.projectId.Some? then e.projectId.value else "")
        + "|" + (if e.taskId.Some? then e.taskId.value else "") + "|" + e.payload + "|" + rows[k].prevHash)
  {
    assert Fault(hash, rows, k) == None;
    if k > 0 {
      HeadBefore(rows, k);
    }
    PreimageSpelled(k + 1, rows[k].entry, rows[k].prevHash);
  }

  lemma PreimageSpelled(n: nat, e: Entry, p: string)
    ensures Preimage(n, e, p)
         == Decimal(n) + "|" + e.eventId + "|" + e.timestamp + "|" + e.actor + "|" + e.actionType
            + "|" + (if e.projectId.Some? then e.projectId.value else "")
            + "|" + (if e.taskId.Some? then e.taskId.value else "") + "|" + e.payload + "|" + p
  {
    hide Piped, Decimal;
    var t := [Signed(n)] + (Texts(e) + [p]);
    assert |t| == 9 && t[0] == Decimal(n) && t[8] == p;
    PipedNine(t);
  }

  /** A negative number, which only a table that was tampered with holds, is written with its sign. */
  lemma SignedSpelled(n: int)
    ensures n >= 0 ==> Signed(n) == Decimal(n)
    ensures n < 0 ==> Signed(n) == "-" + Decimal(-n)
  {
  }

  lemma PipedNine(t: seq<string>)
    requires |t| == 9
    ensures Piped(t) == t[0] + "|" + t[1] + "|" + t[2] + "|" + t[3] + "|" + t[4] + "|" + t[5] + "|" + t[6] + "|" + t[7]
                      + "|" + t[8]
  {
    hide Piped;
    PipedUpTo(t, 8);
    PipedUpTo(t, 7);
    PipedUpTo(t, 6);
    PipedUpTo(t, 5);
    PipedUpTo(t, 4);
    PipedUpTo(t, 3);
    PipedUpTo(t, 2);
    PipedUpTo(t, 1);
    PipedOne(t[0]);
    assert t[..9] == t && t[..1] == [t[0]];
  }

  lemma PipedUpTo(t: seq<string>, n: nat)
    requires 0 < n < |t|
    ensures Piped(t[..n + 1]) == Piped(t[..n]) + "|" + t[n]
  {
    assert t[..n + 1] == t[..n] + [t[n]];
    PipedAppend(t[..n], [t[n]]);
    PipedOne(t[n]);
  }

  lemma PipedOne(x: string)
    ensures Piped([x]) == x
  {
  }

  /** Row k is the first that breaks the chain; the report names it and says how. */
  ghost predicate NamesFault(hash: string -> string, rows: seq<Row>, k: nat, report: Report) {
    && k < |rows| && IsChain(hash, rows[..k]) && report.checked == k + 1
    && report.head == (if k == 0 then None else Some(rows[k - 1].entryHash))
    && report.brokenAt == Some(rows[k].seqNo) && report.brokenEvent == Some(rows[k].entry.eventId)
    && report.reason == Some(
         if rows[k].seqNo != k + 1 then SeqGap
         else if rows[k].prevHash != (if k == 0 then "GENESIS" else rows[k - 1].entryHash) then PrevMismatch
         else HashMismatch)
  }

  /** A report, field by field: valid with the last hash, or the first row that breaks the chain and how. */
  lemma ReportSpelled(hash: string -> string, rows: seq<Row>, report: Report)
    requires Reports(hash, rows, report)
    ensures report.valid ==>
      report == Report(true, |rows|, if rows == [] then None else Some(rows[|rows| - 1].entryHash), None, None, None)
    ensures !report.valid ==> exists k: nat :: NamesFault(hash, rows, k, report)
  {
    if !report.valid {
      var k: nat :| k < |rows| && FirstFault(hash, rows, k) && report == FaultReport(hash, rows, k);
      FaultSpelled(hash, rows, k);
    }
  }

  lemma FaultSpelled(hash: string -> string, rows: seq<Row>, k: nat)
    requires k < |rows| && FirstFault(hash, rows, k)
    ensures NamesFault(hash, rows, k, FaultReport(hash, rows, k))
  {
    hide Preimage;
    if k > 0 {
      HeadBefore(rows, k);
    }
    forall j: nat | j < k
      ensures Fault(hash, rows[..k], j) == None
    {
      PrefixFault(hash, rows, k, j);
      assert Fault(hash, rows, j) == None;
    }
  }

  // ----- pipes --------------------------------------------------------------------------

  lemma FirstPipe(u: string, x: string, v: string, y: string)
    requires '|' !in v && u + (['|'] + x) == v + (['|'] + y)
    ensures |u| >= |v|
  {
    assert forall i :: 0 <= i < |v| ==> (v + (['|'] + y))[i] == v[i] && v[i] in v;
    assert (u + (['|'] + x))[|u|] == '|';
  }

  lemma SplitAtFirst(u: string, x: string, v: string, y: string)
    requires '|' !in u && '|' !in v && u + (['|'] + x) == v + (['|'] + y)
    ensures u == v && x == y
  {
    var s := u + (['|'] + x);
    FirstPipe(u, x, v, y);
    FirstPipe(v, y, u, x);
    assert u == s[..|u|] == v && x == s[|u| + 1..] == y;
  }

  lemma LastPipe(u: string, x: string, v: string, y: string)
    requires '|' !in x && u + ['|'] + x == v + ['|'] + y
    ensures |v| <= |u|
  {
    var s := u + ['|'] + x;
    assert forall i :: |u| < i < |s| ==> s[i] == x[i - |u| - 1] && s[i] in x;
    assert (v + ['|'] + y)[|v|] == '|';
  }

  lemma SplitAtLast(u: string, x: string, v: string, y: string)
    requires '|' !in x && '|' !in y && u + ['|'] + x == v + ['|'] + y
    ensures u == v && x == y
  {
    var s := u + ['|'] + x;
    LastPipe(u, x, v, y);
    LastPipe(v, y, u, x);
    assert u == s[..|u|] == v && x == s[|u| + 1..] == y;
  }

  lemma {:induction false} PipedAppend(a: seq<string>, b: seq<string>)
    requires a != [] && b != []
    ensures Piped(a + b) == Piped(a) + ['|'] + Piped(b)
  {
    assert (a + b)[0] == a[0] && (a + b)[1..] == a[1..] + b;
    if |a| == 1 {
      assert a[1..] + b == b;
    } else {
      PipedAppend(a[1..], b);
    }
  }

  lemma PreimageParts(n: int, e: Entry, prevHash: string)
    ensures Preimage(n, e, prevHash) == Signed(n) + (['|'] + (Piped(Texts(e)) + ['|'] + prevHash))
  {
    PipedAppend([Signed(n)], Texts(e) + [prevHash]);
    PipedAppend(Texts(e), [prevHash]);
    assert Piped([Signed(n)]) == Signed(n) && Piped([prevHash]) == prevHash;
  }

  function Pipes(s: string): nat { if s == [] then 0 else (if s[0] == '|' then 1 else 0) + Pipes(s[1..]) }

  lemma {:induction false} PipesAppend(s: string, t: string)
    ensures Pipes(s + t) == Pipes(s) + Pipes(t)
  {
    if s == [] {
      assert s + t == t;
    } else {
      PipesAppend(s[1..], t);
      assert (s + t)[1..] == s[1..] + t;
    }
  }

  lemma {:induction false} NoPipes(s: string)
    ensures Pipes(s) == 0 <==> '|' !in s
  {
    if s != [] {
      NoPipes(s[1..]);
      assert s == [s[0]] + s[1..];
    }
  }

  ghost predicate PipeFree(texts: seq<string>) {
    forall i :: 0 <= i < |texts| ==> '|' !in texts[i]
  }

  lemma {:induction false} PipesOfPiped(texts: seq<string>)
    requires texts != []
    ensures Pipes(Piped(texts)) >= |texts| - 1
    ensures Pipes(Piped(texts)) == |texts| - 1 <==> PipeFree(texts)
  {
    NoPipes(texts[0]);
    if |texts| > 1 {
      PipesOfPiped(texts[1..]);
      PipesAppend(texts[0] + ['|'], Piped(texts[1..]));
      PipesAppend(texts[0], ['|']);
      assert ['|'][1..] == [];
      assert texts == [texts[0]] + texts[1..];
      if PipeFree(texts) {
        assert forall i :: 0 <= i < |texts| - 1 ==> texts[1..][i] == texts[i + 1];
      }
      if PipeFree(texts[1..]) && '|' !in texts[0] {
        forall i | 0 <= i < |texts|
          ensures '|' !in texts[i]
        {
          assert i > 0 ==> texts[i] == texts[1..][i - 1];
        }
      }
    }
  }

  lemma {:induction false} PipeFreeIsUnique(a: seq<string>, b: seq<string>)
    requires |a| == |b| > 0 && PipeFree(a) && PipeFree(b) && Piped(a) == Piped(b)
    ensures a == b
  {
    if |a| > 1 {
      assert Piped(a) == a[0] + (['|'] + Piped(a[1..])) && Piped(b) == b[0] + (['|'] + Piped(b[1..]));
      SplitAtFirst(a[0], Piped(a[1..]), b[0], Piped(b[1..]));
      assert forall i :: 0 <= i < |a| - 1 ==> a[1..][i] == a[i + 1] && b[1..][i] == b[i + 1];
      PipeFreeIsUnique(a[1..], b[1..]);
      assert a == [a[0]] + a[1..] && b == [b[0]] + b[1..];
    }
  }

  lemma SplitAtPipe(s: string) returns (u: string, v: string)
    requires '|' in s
    ensures s == u + ['|'] + v
  {
    var i :| 0 <= i < |s| && s[i] == '|';
    u, v := s[..i], s[i + 1..];
  }

  /** Neighbouring texts may trade characters across the `|` between them. */
  lemma PipedTrade(before: seq<string>, x: string, y: string, x1: string, y1: string, after: seq<string>)
    requires x + ['|'] + y == x1 + ['|'] + y1
    ensures Piped(before + [x, y] + after) == Piped(before + [x1, y1] + after)
  {
    PipedPair(x, y);
    PipedPair(x1, y1);
    assert before != [] ==> Piped(before + [x, y]) == Piped(before + [x1, y1]) by {
      if before != [] {
        PipedAppend(before, [x, y]);
        PipedAppend(before, [x1, y1]);
      }
    }
    assert before == [] ==> before + [x, y] == [x, y] && before + [x1, y1] == [x1, y1];
    if after == [] {
      assert before + [x, y] + after == before + [x, y] && before + [x1, y1] + after == before + [x1, y1];
    } else {
      PipedAppend(before + [x, y], after);
      PipedAppend(before + [x1, y1], after);
    }
  }

  lemma PipedPair(x: string, y: string)
    ensures Piped([x, y]) == x + ['|'] + y
  {
    assert [x, y][1..] == [y];
  }

  /** A `|` in one of several texts can be taken for a separator, and a separator for it. */
  lemma PipeCanMove(a: seq<string>, i: nat) returns (b: seq<string>)
    requires i < |a| && |a| > 1 && '|' in a[i]
    ensures |b| == |a| && b != a && Piped(b) == Piped(a)
  {
    var u, v := SplitAtPipe(a[i]);
    if i + 1 < |a| {
      var y := v + ['|'] + a[i + 1];
      b := a[..i] + [u, y] + a[i + 2..];
      assert u + ['|'] + y == a[i] + ['|'] + a[i + 1];
      PipedTrade(a[..i], u, y, a[i], a[i + 1], a[i + 2..]);
      assert a == a[..i] + [a[i], a[i + 1]] + a[i + 2..];
      assert b[i] == u && |u| < |a[i]|;
    } else {
      var x := a[i - 1] + ['|'] + u;
      b := a[..i - 1] + [x, v] + [];
      assert x + ['|'] + v == a[i - 1] + ['|'] + a[i];
      PipedTrade(a[..i - 1], x, v, a[i - 1], a[i], []);
      assert a == a[..i - 1] + [a[i - 1], a[i]] + [];
      assert b[i] == v && |v| < |a[i]|;
    }
  }

  /**
   The hashed text of an entry determines the entry's seven texts if and only if none of them
   contains the separator.
   */
  lemma AmbiguousExactlyWithPipes(e: Entry)
    ensures (exists f: Entry :: Texts(f) != Texts(e) && Piped(Texts(f)) == Piped(Texts(e))) <==> !PipeFree(Texts(e))
  {
    var a := Texts(e);
    if PipeFree(a) {
      forall f: Entry | Piped(Texts(f)) == Piped(a)
        ensures Texts(f) == a
      {
        PipesOfPiped(a);
        PipesOfPiped(Texts(f));
        PipeFreeIsUnique(Texts(f), a);
      }
    } else {
      var i: nat :| i < |a| && '|' in a[i];
      var b := PipeCanMove(a, i);
      var f := Entry(b[0], b[1], b[2], b[3], Some(b[4]), Some(b[5]), b[6]);
      assert Texts(f) == b;
    }
  }

  // ----- tampering ----------------------------------------------------------------------

  /** The text of which row k carries the hash. */
  function RowText(k: nat, row: Row): string { Preimage(k + 1, row.entry, row.prevHash) }

  predicate Collide(hash: string -> string, x: string, y: string) { x != y && hash(x) == hash(y) }

  /** A hash is a text without pipes, and never the word that stands for "no row before". */
  ghost predicate IsHex(hash: string -> string) {
    forall x :: '|' !in hash(x) && hash(x) != GENESIS
  }

  /** Two rows that verification cannot tell apart: all but how the separators split the texts. */
  predicate LooksLike(a: Row, b: Row) {
    a.seqNo == b.seqNo && a.prevHash == b.prevHash && a.entryHash == b.entryHash
    && Piped(Texts(a.entry)) == Piped(Texts(b.entry))
  }

  /** A row that passes for another because the hash does not tell their texts apart. */
  predicate Forges(hash: string -> string, k: nat, a: Row, b: Row) {
    a.seqNo == b.seqNo && a.prevHash == b.prevHash && a.entryHash == b.entryHash
    && Collide(hash, RowText(k, a), RowText(k, b))
  }

  lemma SamePreimage(n: int, a: Entry, b: Entry, prevHash: string)
    ensures Preimage(n, a, prevHash) == Preimage(n, b, prevHash) <==> Piped(Texts(a)) == Piped(Texts(b))
  {
    PreimageParts(n, a, prevHash);
    PreimageParts(n, b, prevHash);
    var x, y := Piped(Texts(a)), Piped(Texts(b));
    var head, tail := Signed(n) + ['|'], ['|'] + prevHash;
    assert Preimage(n, a, prevHash) == head + x + tail && Preimage(n, b, prevHash) == head + y + tail;
    if head + x + tail == head + y + tail {
      assert |x| == |y|;
      assert x == (head + x + tail)[|head|..|head| + |x|] == (head + y + tail)[|head|..|head| + |y|] == y;
    }
  }

  lemma UnchangedBefore(rows: seq<Row>, k: nat, row: Row, j: nat)
    requires k < |rows| && j <= k
    ensures rows[k := row][..j] == rows[..j]
  {
  }

  lemma HeadBefore(rows: seq<Row>, k: nat)
    requires 0 < k <= |rows|
    ensures HeadHash(rows[..k]) == rows[k - 1].entryHash
  {
  }

  /**
   Changing row k, but for its number, shows at most at rows k and k + 1, and at one of them
   unless the new row looks like the old or forges it.
   */
  ghost predicate FaultsNear(hash: string -> string, rows: seq<Row>, k: nat, row: Row, j: nat)
    requires k < |rows| && j < |rows|
  {
    var changed, sameHash := rows[k := row], row.entryHash == rows[k].entryHash;
    && (j < k || j > k + 1 ==> Fault(hash, changed, j) == None)
    && (j == k ==>
         (Fault(hash, changed, j) == None && sameHash <==> LooksLike(row, rows[k]) || Forges(hash, k, row, rows[k])))
    && (j == k + 1 ==> Fault(hash, changed, j) == if sameHash then None else Some(PrevMismatch))
  }

  lemma FaultAfterChange(hash: string -> string, rows: seq<Row>, k: nat, row: Row, j: nat)
    requires IsChain(hash, rows) && k < |rows| && j < |rows|
    ensures FaultsNear(hash, rows, k, row, j)
  {
    hide Preimage, Piped, Texts;
    var changed := rows[k := row];
    assert Fault(hash, rows, j) == None;
    if j <= k {
      UnchangedBefore(rows, k, row, j);
      if j == k {
        SamePreimage(k + 1, row.entry, rows[k].entry, rows[k].prevHash);
      }
    } else {
      HeadBefore(rows, j);
      HeadBefore(changed, j);
    }
  }

  lemma LookalikeKeepsChain(hash: string -> string, rows: seq<Row>, k: nat, row: Row)
    requires IsChain(hash, rows) && k < |rows| && LooksLike(row, rows[k])
    ensures IsChain(hash, rows[k := row])
  {
    var changed := rows[k := row];
    assert row.entryHash == rows[k].entryHash;
    hide Fault, LooksLike;
    forall j: nat | j < |changed|
      ensures Fault(hash, changed, j) == None
    {
      FaultAfterChange(hash, rows, k, row, j);
    }
  }

  lemma ChainIsListed(hash: string -> string, rows: seq<Row>)
    requires IsChain(hash, rows)
    ensures forall k :: 0 <= k < |rows| ==> rows[k].seqNo == k + 1
    ensures Listed(rows) == rows
  {
    forall k: nat | k < |rows|
      ensures rows[k].seqNo == k + 1
    {
      assert Fault(hash, rows, k) == None;
    }
    SortOfSorted(BySeq, rows);
  }

  /** A row with a number below 1 is read first, and is no first row. */
  lemma NumberedBelow(hash: string -> string, rows: seq<Row>, k: nat, row: Row)
    requires k < |rows| && row.seqNo < 1
    ensures FirstFault(hash, Listed(rows[k := row]), 0) && Fault(hash, Listed(rows[k := row]), 0) == Some(SeqGap)
  {
    var changed := rows[k := row];
    assert changed[k] == row;
    SortIn(BySeq, changed);
    SortSorted(BySeq, changed);
    SortedHeadBelow(BySeq, Listed(changed), row);
  }

  lemma ListedLast(rows: seq<Row>, k: nat, row: Row)
    requires forall j :: 0 <= j < |rows| ==> rows[j].seqNo == j + 1
    requires k < |rows| && row.seqNo > |rows|
    ensures Listed(rows[k := row]) == rows[..k] + rows[k + 1..] + [row]
  {
    hide Sort;
    var changed, moved := rows[k := row], rows[..k] + rows[k + 1..] + [row];
    assert changed == rows[..k] + [row] + rows[k + 1..];
    MoveToEnd(rows[..k], row, rows[k + 1..]);
    SortContents(BySeq, changed);
    SortSorted(BySeq, changed);
    assert forall i :: 0 <= i < |moved| - 1 ==> moved[i].seqNo == if i < k then i + 1 else i + 2;
    assert moved[|moved| - 1] == row;
    StrictOrderIsUnique(BySeq, Sort(BySeq, changed), moved);
  }

  lemma MoveToEnd<T>(a: seq<T>, x: T, b: seq<T>)
    ensures multiset(a + [x] + b) == multiset(a + b + [x])
  {
  }

  /** A row with a number above the head's is read last, and leaves a gap where it stood. */
  lemma NumberedAbove(hash: string -> string, rows: seq<Row>, k: nat, row: Row)
    requires IsChain(hash, rows) && k < |rows| && row.seqNo > |rows|
    ensures FirstFault(hash, Listed(rows[k := row]), k) && Fault(hash, Listed(rows[k := row]), k) == Some(SeqGap)
  {
    hide Listed, Preimage;
    var moved := rows[..k] + rows[k + 1..] + [row];
    ChainIsListed(hash, rows);
    ListedLast(rows, k, row);
    forall j: nat | j < k
      ensures Fault(hash, moved, j) == None
    {
      assert moved[..j] == rows[..j] && moved[j] == rows[j] && Fault(hash, rows, j) == None;
    }
    assert k + 1 < |rows| ==> moved[k] == rows[k + 1];
    assert k + 1 == |rows| ==> moved[k] == row;
  }

  /** Where a change of row k shows first. */
  function ChangeShowsAt(hash: string -> string, rows: seq<Row>, k: nat, row: Row): nat
    requires k < |rows|
  {
    if row.seqNo < 1 then 0
    else if row.seqNo == k + 1 && Fault(hash, rows[k := row], k) == None then k + 1
    else k
  }

  /**
   Any change of a row before the head is reported, unless the row looks the same to the hash or
   is an explicit collision of it. It is reported at that row, or at the next one when the changed
   row was given a hash that fits it, or at the front when its number sorts it there. The number
   of a row is its key in the table, so that no two rows have the same.
   */
  lemma ChangeIsReported(hash: string -> string, rows: seq<Row>, k: nat, row: Row)
    requires IsChain(hash, rows) && k + 1 < |rows|
    requires forall j :: 0 <= j < |rows| && j != k ==> rows[j].seqNo != row.seqNo
    ensures var listed := Listed(rows[k := row]);
      && |listed| == |rows|
      && (IsChain(hash, listed) <==> LooksLike(row, rows[k]) || Forges(hash, k, row, rows[k]))
      && (!IsChain(hash, listed) ==> FirstFault(hash, listed, ChangeShowsAt(hash, rows, k, row)))
  {
    ChainIsListed(hash, rows);
    assert row.seqNo != k + 1 ==> !LooksLike(row, rows[k]) && !Forges(hash, k, row, rows[k]);
    hide Fault, LooksLike, Forges;
    if row.seqNo < 1 {
      NumberedBelow(hash, rows, k, row);
    } else if row.seqNo > |rows| {
      NumberedAbove(hash, rows, k, row);
    } else {
      assert row.seqNo == rows[row.seqNo - 1].seqNo;
      SortOfSorted(BySeq, rows[k := row]);
      RewriteIsReported(hash, rows, k, row);
    }
  }

  lemma RewriteIsReported(hash: string -> string, rows: seq<Row>, k: nat, row: Row)
    requires IsChain(hash, rows) && k + 1 < |rows| && row.seqNo == k + 1
    ensures IsChain(hash, rows[k := row]) <==> LooksLike(row, rows[k]) || Forges(hash, k, row, rows[k])
    ensures !IsChain(hash, rows[k := row]) ==>
      FirstFault(hash, rows[k := row], ChangeShowsAt(hash, rows, k, row))
  {
    hide Fault, LooksLike, Forges;
    var changed := rows[k := row];
    FaultAfterChange(hash, rows, k, row, k);
    FaultAfterChange(hash, rows, k, row, k + 1);
    var same := LooksLike(row, rows[k]) || Forges(hash, k, row, rows[k]);
    var bad := if same then |rows| else ChangeShowsAt(hash, rows, k, row);
    forall j: nat | j < |rows| && (j < bad || same)
      ensures Fault(hash, changed, j) == None
    {
      FaultAfterChange(hash, rows, k, row, j);
    }
    if bad < |rows| {
      assert FirstFault(hash, changed, bad);
    }
  }

  /** Deleting a row before the head is reported at the row that takes its place, as a gap. */
  lemma DeletionIsReported(hash: string -> string, rows: seq<Row>, k: nat)
    requires IsChain(hash, rows) && k + 1 < |rows|
    ensures var cut := rows[..k] + rows[k + 1..];
      && Listed(cut) == cut && FirstFault(hash, cut, k)
      && Fault(hash, cut, k) == Some(SeqGap) && cut[k].seqNo == k + 2
  {
    ChainIsListed(hash, rows);
    SortOfSorted(BySeq, rows[..k] + rows[k + 1..]);
    var cut := rows[..k] + rows[k + 1..];
    assert cut[k] == rows[k + 1] && Fault(hash, rows, k + 1) == None;
    forall j: nat | j < k
      ensures Fault(hash, cut, j) == None
    {
      assert cut[..j] == rows[..j] && cut[j] == rows[j] && Fault(hash, rows, j) == None;
    }
  }

  lemma PrefixIsChain(hash: string -> string, rows: seq<Row>, n: nat)
    requires IsChain(hash, rows) && n <= |rows|
    ensures IsChain(hash, rows[..n])
  {
    forall k: nat | k < n
      ensures Fault(hash, rows[..n], k) == None
    {
      PrefixFault(hash, rows, n, k);
      assert Fault(hash, rows, k) == None;
    }
  }

  /** Cutting rows off at the head, or rewriting the head, is not seen: nothing points to it. */
  lemma HeadIsNotProtected(hash: string -> string, rows: seq<Row>, n: nat, e: Entry)
    requires IsChain(hash, rows) && n <= |rows|
    ensures IsChain(hash, rows[..n])
    ensures rows != [] ==> IsChain(hash, rows[..|rows| - 1] + [NewRow(hash, rows[..|rows| - 1], e)])
  {
    PrefixIsChain(hash, rows, n);
    if rows != [] {
      PrefixIsChain(hash, rows, |rows| - 1);
      NewRowKeepsChain(hash, rows[..|rows| - 1], e);
    }
  }

  lemma PreimageSplits(n: nat, a: Entry, p: string, m: nat, b: Entry, q: string)
    requires Preimage(n, a, p) == Preimage(m, b, q) && '|' !in p && '|' !in q
    ensures n == m && p == q && Piped(Texts(a)) == Piped(Texts(b))
  {
    hide Preimage, Piped, Texts, Decimal;
    PreimageParts(n, a, p);
    PreimageParts(m, b, q);
    DecimalDigits(n);
    DecimalDigits(m);
    SplitAtFirst(Signed(n), Piped(Texts(a)) + ['|'] + p, Signed(m), Piped(Texts(b)) + ['|'] + q);
    DecimalIsInjective(n, m);
    SplitAtLast(Piped(Texts(a)), p, Piped(Texts(b)), q);
  }

  lemma HeadsMatch(hash: string -> string, rows: seq<Row>, other: seq<Row>)
    requires IsChain(hash, rows) && IsChain(hash, other) && IsHex(hash)
    requires rows != [] && other != [] && HeadHash(rows) == HeadHash(other)
    requires RowText(|rows| - 1, rows[|rows| - 1]) == RowText(|other| - 1, other[|other| - 1])
    ensures |rows| == |other| && LooksLike(rows[|rows| - 1], other[|other| - 1])
    ensures HeadHash(rows[..|rows| - 1]) == HeadHash(other[..|other| - 1])
  {
    hide Preimage, Piped, Texts;
    var n, m := |rows|, |other|;
    var a, b := rows[n - 1], other[m - 1];
    assert Fault(hash, rows, n - 1) == None && Fault(hash, other, m - 1) == None;
    PrevHasNoPipe(hash, rows, n - 1);
    PrevHasNoPipe(hash, other, m - 1);
    PreimageSplits(n, a.entry, a.prevHash, m, b.entry, b.prevHash);
  }

  lemma PrevHasNoPipe(hash: string -> string, rows: seq<Row>, k: nat)
    requires IsChain(hash, rows) && IsHex(hash) && k < |rows|
    ensures '|' !in rows[k].prevHash
  {
    assert Fault(hash, rows, k) == None;
    if k > 0 {
      HeadBefore(rows, k);
      assert Fault(hash, rows, k - 1) == None;
    }
  }

  ghost predicate Alike(rows: seq<Row>, other: seq<Row>) {
    |rows| == |other| && forall k :: 0 <= k < |rows| ==> LooksLike(rows[k], other[k])
  }

  /** Row i of one table and row j of the other have different texts and one hash. */
  ghost predicate CollisionBetween(hash: string -> string, rows: seq<Row>, other: seq<Row>) {
    exists i: nat, j: nat :: i < |rows| && j < |other| && Collide(hash, RowText(i, rows[i]), RowText(j, other[j]))
  }

  /**
   The head hash fixes the whole journal: two tables that both verify and have the same head hash
   have the same rows, but for how a `|` inside a text is read, or between them hold two texts
   with the same hash.
   */
  lemma {:induction false} HeadFixesJournal(hash: string -> string, rows: seq<Row>, other: seq<Row>)
    requires IsChain(hash, rows) && IsChain(hash, other) && IsHex(hash)
    requires HeadHash(rows) == HeadHash(other)
    ensures Alike(rows, other) || CollisionBetween(hash, rows, other)
    decreases |rows|
  {
    hide LooksLike, Fault, RowText;
    if rows == [] || other == [] {
      GenesisIsNoHead(hash, rows);
      GenesisIsNoHead(hash, other);
    } else {
      var n, m := |rows| - 1, |other| - 1;
      HeadIsHashed(hash, rows);
      HeadIsHashed(hash, other);
      if RowText(n, rows[n]) == RowText(m, other[m]) {
        HeadsMatch(hash, rows, other);
        PrefixIsChain(hash, rows, n);
        PrefixIsChain(hash, other, m);
        HeadFixesJournal(hash, rows[..n], other[..m]);
        LastRowToo(hash, rows, other);
      } else {
        assert Collide(hash, RowText(n, rows[n]), RowText(m, other[m]));
      }
    }
  }

  lemma HeadIsHashed(hash: string -> string, rows: seq<Row>)
    requires IsChain(hash, rows) && rows != []
    ensures HeadHash(rows) == hash(RowText(|rows| - 1, rows[|rows| - 1]))
  {
    assert Fault(hash, rows, |rows| - 1) == None;
  }

  lemma LastRowToo(hash: string -> string, rows: seq<Row>, other: seq<Row>)
    requires |rows| == |other| > 0 && LooksLike(rows[|rows| - 1], other[|rows| - 1])
    requires var n := |rows| - 1; Alike(rows[..n], other[..n]) || CollisionBetween(hash, rows[..n], other[..n])
    ensures Alike(rows, other) || CollisionBetween(hash, rows, other)
  {
    hide LooksLike, Collide, RowText;
    var n := |rows| - 1;
    if Alike(rows[..n], other[..n]) {
      forall k | 0 <= k < |rows|
        ensures LooksLike(rows[k], other[k])
      {
        assert k < n ==> rows[..n][k] == rows[k] && other[..n][k] == other[k];
      }
    } else {
      var i: nat, j: nat :| i < n && j < n && Collide(hash, RowText(i, rows[..n][i]), RowText(j, other[..n][j]));
      assert Collide(hash, RowText(i, rows[i]), RowText(j, other[j]));
    }
  }

  lemma GenesisIsNoHead(hash: string -> string, rows: seq<Row>)
    requires IsChain(hash, rows) && IsHex(hash)
    ensures HeadHash(rows) == GENESIS <==> rows == []
  {
    if rows != [] {
      assert Fault(hash, rows, |rows| - 1) == None;
    }
  }

  /** A row whose texts hold a `|` can be rewritten under any hash: verification does not see it. */
  lemma PipedRowCanBeRewritten(hash: string -> string, rows: seq<Row>, k: nat)
    requires IsChain(hash, rows) && k < |rows| && !PipeFree(Texts(rows[k].entry))
    ensures exists e: Entry :: Texts(e) != Texts(rows[k].entry) && IsChain(hash, rows[k := rows[k].(entry := e)])
  {
    AmbiguousExactlyWithPipes(rows[k].entry);
    var e: Entry :| Texts(e) != Texts(rows[k].entry) && Piped(Texts(e)) == Piped(Texts(rows[k].entry));
    LookalikeKeepsChain(hash, rows, k, rows[k].(entry := e));
  }
}
