/**
 The event stream: sort key, newest-first order, and the capped buffer that bus messages
 are ingested into. The buffer is truncated and re-sorted on every message; the main result
 says that nothing is lost by doing so.
 */
module EventFeed {
  import opened Sequences
  import opened StableSort
  import Clock

  const EVENT_CAP: nat := 500

  /** `isoMs` is what `Date.parse(time)` makes of the display text (None for NaN). */
  datatype Event = Event(id: string, time: string, createdAtMs: Option<int>, isoMs: Option<int>,
                         subject: string, from: string, state: string)

  function SortKey(e: Event): int {
    match e.createdAtMs
    case Some(ms) => ms
    case None =>
      match Clock.Parse(e.time)
      case Some(ms) => ms
      case None => if e.isoMs.Some? then e.isoMs.value else 0
  }

  predicate NewestFirst(a: Event, b: Event) { SortKey(a) >= SortKey(b) }

  /** The comparator's order on (event, index): key descending, index ascending. */
  predicate DecoratedOrder(a: (Event, int), b: (Event, int)) {
    SortKey(a.0) > SortKey(b.0) || (SortKey(a.0) == SortKey(b.0) && a.1 <= b.1)
  }

  function Decorate(events: seq<Event>, index: int): (r: seq<(Event, int)>)
    ensures |r| == |events|
    ensures forall k :: 0 <= k < |r| ==> r[k] == (events[k], index + k)
  {
    if events == [] then [] else [(events[0], index)] + Decorate(events[1..], index + 1)
  }

  function Undecorate(rows: seq<(Event, int)>): seq<Event> {
    if rows == [] then [] else [rows[0].0] + Undecorate(rows[1..])
  }

  function SortEventsNewestFirst(events: seq<Event>): seq<Event> {
    Undecorate(Sort(DecoratedOrder, Decorate(events, 0)))
  }

  lemma {:induction false} UndecorateInsert(x: Event, index: int, rows: seq<(Event, int)>)
    requires forall k :: 0 <= k < |rows| ==> index < rows[k].1
    ensures Undecorate(Insert(DecoratedOrder, (x, index), rows)) == Insert(NewestFirst, x, Undecorate(rows))
  {
    if rows == [] {
    } else if DecoratedOrder((x, index), rows[0]) {
      assert ([(x, index)] + rows)[1..] == rows;
    } else {
      UndecorateInsert(x, index, rows[1..]);
      var r := Insert(DecoratedOrder, (x, index), rows[1..]);
      assert ([rows[0]] + r)[1..] == r;
      assert Undecorate(rows)[1..] == Undecorate(rows[1..]);
    }
  }

  lemma {:induction false} DecoratedSort(events: seq<Event>, index: int)
    ensures Undecorate(Sort(DecoratedOrder, Decorate(events, index))) == Sort(NewestFirst, events)
  {
    if events != [] {
      DecoratedSort(events[1..], index + 1);
      var rest := Decorate(events[1..], index + 1);
      assert Decorate(events, index)[1..] == rest;
      SortIn(DecoratedOrder, rest);
      var sorted := Sort(DecoratedOrder, rest);
      forall k | 0 <= k < |sorted|
        ensures index < sorted[k].1
      {
        assert sorted[k] in sorted;
      }
      UndecorateInsert(events[0], index, sorted);
    }
  }

  function WithKey(key: int): Event -> bool { e => SortKey(e) == key }

  /** Sorting (event, index) pairs by key and then index is the stable newest-first sort of the events. */
  lemma SortEventsIsStable(events: seq<Event>)
    ensures SortEventsNewestFirst(events) == Sort(NewestFirst, events)
    ensures Sorted(NewestFirst, SortEventsNewestFirst(events))
    ensures forall key :: Filter(WithKey(key), SortEventsNewestFirst(events)) == Filter(WithKey(key), events)
  {
    DecoratedSort(events, 0);
    SortSorted(NewestFirst, events);
    forall key
      ensures Filter(WithKey(key), SortEventsNewestFirst(events)) == Filter(WithKey(key), events)
    {
      var p := WithKey(key);
      FilterSort(NewestFirst, p, events);
      FilterIn(p, events);
      var ties := Filter(p, events);
      assert forall k :: 0 <= k < |ties| ==> ties[k] in ties;
      SortOfSorted(NewestFirst, ties);
    }
  }

  predicate HasId(events: seq<Event>, id: string) {
    exists e :: e in events && e.id == id
  }

  function IdOf(e: Event): string { e.id }

  function Ids(events: seq<Event>): seq<string> { Map(IdOf, events) }

  /** The state update of one bus message. */
  function Ingest(buffer: seq<Event>, row: Event): seq<Event> {
    if HasId(buffer, row.id) then buffer
    else Take(SortEventsNewestFirst([row] + buffer), EVENT_CAP)
  }

  function IngestAll(arrivals: seq<Event>): seq<Event> {
    if arrivals == [] then []
    else Ingest(IngestAll(arrivals[..|arrivals| - 1]), arrivals[|arrivals| - 1])
  }

  /** The arrivals that were not dropped as repeats of a buffered id. */
  function Admitted(arrivals: seq<Event>): seq<Event> {
    if arrivals == [] then []
    else
      var before, row := arrivals[..|arrivals| - 1], arrivals[|arrivals| - 1];
      if HasId(IngestAll(before), row.id) then Admitted(before) else Admitted(before) + [row]
  }

  /** One step of truncating online: only the first 500 of the sorted past matter. */
  lemma IngestTruncates(past: seq<Event>, row: Event)
    requires !HasId(Take(Sort(NewestFirst, past), EVENT_CAP), row.id)
    ensures Ingest(Take(Sort(NewestFirst, past), EVENT_CAP), row)
         == Take(Sort(NewestFirst, [row] + past), EVENT_CAP)
  {
    var sorted := Sort(NewestFirst, past);
    var buffer := Take(sorted, EVENT_CAP);
    SortSorted(NewestFirst, past);
    TakeSorted(NewestFirst, sorted, EVENT_CAP);
    SortOfSorted(NewestFirst, buffer);
    SortEventsIsStable([row] + buffer);
    assert ([row] + buffer)[1..] == buffer && ([row] + past)[1..] == past;
    TakeInsert(NewestFirst, row, sorted, EVENT_CAP);
  }

  /**
   After any run, repeats included, the buffer is the first 500 of the stable newest-first sort
   of everything admitted, later arrivals first among equal keys.
   */
  lemma {:induction false} BufferIsOfflineSort(arrivals: seq<Event>)
    ensures IngestAll(arrivals) == Take(Sort(NewestFirst, Reverse(Admitted(arrivals))), EVENT_CAP)
  {
    if arrivals != [] {
      var before, row := arrivals[..|arrivals| - 1], arrivals[|arrivals| - 1];
      BufferIsOfflineSort(before);
      if !HasId(IngestAll(before), row.id) {
        IngestTruncates(Reverse(Admitted(before)), row);
        ReverseAppend(Admitted(before), row);
      }
    }
  }

  lemma {:induction false} AdmittedComesFromArrivals(arrivals: seq<Event>)
    ensures forall e :: e in Admitted(arrivals) ==> e in arrivals
    ensures forall e :: e in IngestAll(arrivals) ==> e in arrivals
  {
    if arrivals != [] {
      AdmittedComesFromArrivals(arrivals[..|arrivals| - 1]);
      BufferIsOfflineSort(arrivals);
      var sorted := Sort(NewestFirst, Reverse(Admitted(arrivals)));
      SortIn(NewestFirst, Reverse(Admitted(arrivals)));
      ReverseIn(Admitted(arrivals));
      assert arrivals == arrivals[..|arrivals| - 1] + [arrivals[|arrivals| - 1]];
    }
  }

  lemma NewIdIsNotBuffered(before: seq<Event>, row: Event)
    requires Distinct(Ids(before + [row]))
    ensures Distinct(Ids(before)) && !HasId(IngestAll(before), row.id)
  {
    DistinctLast(IdOf, before, row);
    AdmittedComesFromArrivals(before);
  }

  lemma {:induction false} DistinctArrivalsAreAdmitted(arrivals: seq<Event>)
    requires Distinct(Ids(arrivals))
    ensures Admitted(arrivals) == arrivals
  {
    if arrivals != [] {
      var n := |arrivals| - 1;
      assert arrivals == arrivals[..n] + [arrivals[n]];
      NewIdIsNotBuffered(arrivals[..n], arrivals[n]);
      DistinctArrivalsAreAdmitted(arrivals[..n]);
    }
  }

  /** When no id repeats, everything is admitted: truncating online equals sorting offline. */
  lemma DistinctArrivalsAreAllKept(arrivals: seq<Event>)
    requires Distinct(Ids(arrivals))
    ensures IngestAll(arrivals) == Take(Sort(NewestFirst, Reverse(arrivals)), EVENT_CAP)
  {
    DistinctArrivalsAreAdmitted(arrivals);
    BufferIsOfflineSort(arrivals);
  }

  ghost predicate ValidBuffer(buffer: seq<Event>) {
    Sorted(NewestFirst, buffer) && Distinct(Ids(buffer)) && |buffer| <= EVENT_CAP
  }

  lemma FrontIsDistinct(row: Event, buffer: seq<Event>)
    requires Distinct(Ids(buffer)) && !HasId(buffer, row.id)
    ensures Distinct(Ids([row] + buffer))
  {
    var all := [row] + buffer;
    forall i, j | 0 <= i < j < |all|
      ensures Ids(all)[i] != Ids(all)[j]
    {
      assert buffer[j - 1] in buffer;
      assert i > 0 ==> Ids(buffer)[i - 1] != Ids(buffer)[j - 1];
    }
  }

  lemma TakeIsDistinct(rows: seq<Event>, n: nat)
    requires Distinct(Ids(rows))
    ensures Distinct(Ids(Take(rows, n)))
  {
    forall i, j | 0 <= i < j < |Take(rows, n)|
      ensures Ids(Take(rows, n))[i] != Ids(Take(rows, n))[j]
    {
      assert Ids(rows)[i] != Ids(rows)[j];
    }
  }

  /** With any ids at all, one message keeps the buffer sorted, duplicate-free and at most 500 long. */
  lemma IngestKeepsBufferValid(buffer: seq<Event>, row: Event)
    requires ValidBuffer(buffer)
    ensures ValidBuffer(Ingest(buffer, row))
  {
    if !HasId(buffer, row.id) {
      var all := [row] + buffer;
      var sorted := Sort(NewestFirst, all);
      FrontIsDistinct(row, buffer);
      SortEventsIsStable(all);
      SortContents(NewestFirst, all);
      DistinctContents(IdOf, all, sorted);
      TakeIsDistinct(sorted, EVENT_CAP);
      TakeSorted(NewestFirst, sorted, EVENT_CAP);
    }
  }

  lemma {:induction false} EveryRunKeepsBufferValid(arrivals: seq<Event>)
    ensures ValidBuffer(IngestAll(arrivals))
  {
    if arrivals != [] {
      EveryRunKeepsBufferValid(arrivals[..|arrivals| - 1]);
      IngestKeepsBufferValid(IngestAll(arrivals[..|arrivals| - 1]), arrivals[|arrivals| - 1]);
    }
  }

  // ----- the key, and what newest means -------------------------------------------------

  /** The time stamp if there is one; else the clock that the text shows; else what `Date.parse` says; else 0. */
  lemma KeyIsTime(e: Event)
    ensures e.createdAtMs.Some? ==> SortKey(e) == e.createdAtMs.value
    ensures e.createdAtMs.None? ==>
      forall h: string, m: string, sec: string, ms: string ::
        Clock.AreGroups(h, m, sec, ms) && e.time == Clock.ClockText(h, m, sec, ms) ==>
          SortKey(e) == Clock.ClockValue(h, m, sec, ms)
    ensures e.createdAtMs.None? && (forall h: string, m: string, sec: string, ms: string ::
        Clock.AreGroups(h, m, sec, ms) ==> e.time != Clock.ClockText(h, m, sec, ms)) ==>
          SortKey(e) == if e.isoMs.Some? then e.isoMs.value else 0
  {
    hide Clock.Parse, Clock.ClockText, Clock.ClockValue;
    forall h: string, m: string, sec: string, ms: string |
      Clock.AreGroups(h, m, sec, ms) && e.time == Clock.ClockText(h, m, sec, ms)
      ensures Clock.Parse(e.time) == Some(Clock.ClockValue(h, m, sec, ms))
    {
      Clock.ParsesGroups(h, m, sec, ms);
    }
    if Clock.Parse(e.time).Some? {
      Clock.ParseIsPattern(e.time, Clock.Parse(e.time).value);
    }
  }

  /** For instance a clock that the printer wrote counts as the millisecond of its day. */
  lemma KeyOfPrintedClock(e: Event, ms: nat)
    requires ms < 86_400_000
    ensures ms < Clock.MS_PER_DAY && (e.createdAtMs.None? && e.time == Clock.Print(ms) ==> SortKey(e) == ms)
  {
    hide Clock.Parse, Clock.Print;
    Clock.PrintIsClockText(ms);
    Clock.PrintParse(ms);
  }

  lemma TakeHas<T>(s: seq<T>, n: nat, i: nat)
    requires i < |s| && i < n
    ensures s[i] in Take(s, n)
  {
    assert Take(s, n)[i] == s[i];
  }

  lemma TakeIn<T>(s: seq<T>, n: nat, x: T)
    requires x in s && x !in Take(s, n)
    ensures exists i :: Min(n, |s|) <= i < |s| && s[i] == x
  {
    var i :| 0 <= i < |s| && s[i] == x;
    if i < n {
      TakeHas(s, n, i);
    }
  }

  /** The sorted arrivals, by their time stamps. */
  lemma SortedByStamp(arrivals: seq<Event>)
    requires forall e :: e in arrivals ==> e.createdAtMs.Some?
    ensures var sorted := Sort(NewestFirst, Reverse(arrivals));
      && |sorted| == |arrivals| && (forall e :: e in sorted <==> e in arrivals)
      && forall i, j :: 0 <= i < j < |sorted| ==> sorted[i].createdAtMs.value >= sorted[j].createdAtMs.value
  {
    hide SortKey, Sort;
    var sorted := Sort(NewestFirst, Reverse(arrivals));
    SortSorted(NewestFirst, Reverse(arrivals));
    SortIn(NewestFirst, Reverse(arrivals));
    ReverseIn(arrivals);
    forall i, j | 0 <= i < j < |sorted|
      ensures sorted[i].createdAtMs.value >= sorted[j].createdAtMs.value
    {
      assert NewestFirst(sorted[i], sorted[j]) && sorted[i] in sorted && sorted[j] in sorted;
      KeyIsTime(sorted[i]);
      KeyIsTime(sorted[j]);
    }
  }

  /**
   Of arrivals with time stamps and different ids the buffer holds the 500 newest: its stamps
   never increase, and nothing that was dropped is newer than anything kept.
   */
  lemma NewestAreKept(arrivals: seq<Event>)
    requires forall i, j :: 0 <= i < j < |arrivals| ==> arrivals[i].id != arrivals[j].id
    requires forall e :: e in arrivals ==> e.createdAtMs.Some?
    ensures var buffer := IngestAll(arrivals);
      && |buffer| == (if |arrivals| <= 500 then |arrivals| else 500)
      && (forall e :: e in buffer ==> e in arrivals)
      && (forall i, j :: 0 <= i < j < |buffer| ==> buffer[i].createdAtMs.value >= buffer[j].createdAtMs.value)
      && (forall kept, dropped :: kept in buffer && dropped in arrivals && dropped !in buffer ==>
            dropped.createdAtMs.value <= kept.createdAtMs.value)
  {
    hide SortKey, Sort, IngestAll;
    assert Distinct(Ids(arrivals));
    var buffer, sorted := IngestAll(arrivals), Sort(NewestFirst, Reverse(arrivals));
    DistinctArrivalsAreAllKept(arrivals);
    SortedByStamp(arrivals);
    assert forall i :: 0 <= i < |buffer| ==> buffer[i] == sorted[i] && sorted[i] in sorted;
    forall kept, dropped | kept in buffer && dropped in arrivals && dropped !in buffer
      ensures dropped.createdAtMs.value <= kept.createdAtMs.value
    {
      var i :| 0 <= i < |buffer| && buffer[i] == kept;
      TakeIn(sorted, EVENT_CAP, dropped);
      var j :| |buffer| <= j < |sorted| && sorted[j] == dropped;
      assert sorted[i] == kept;
    }
  }
}
