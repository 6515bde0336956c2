/**
 The 60-second message meter: a sliding window of ticks that is pruned lazily, when a message
 is recorded or a timer fires, and never holds one id twice.
 */
module MessageMeter {
  import opened Sequences

  const WINDOW_MS: int := 60_000

  datatype Tick = Tick(id: string, at: int)

  function InWindow(now: int): Tick -> bool { (t: Tick) => t.at >= now - WINDOW_MS }

  predicate Seen(ticks: seq<Tick>, id: string) {
    exists t :: t in ticks && t.id == id
  }

  /** In-window ticks in order, each id at its first in-window occurrence. */
  function Pruned(ticks: seq<Tick>, now: int): seq<Tick> {
    if ticks == [] then []
    else
      var before, t := Pruned(ticks[..|ticks| - 1], now), ticks[|ticks| - 1];
      if t.at < now - WINDOW_MS || Seen(before, t.id) then before else before + [t]
  }

  method PruneMsgWindow(ticks: seq<Tick>, now: int) returns (next: seq<Tick>)
    ensures next == Pruned(ticks, now)
  {
    var cutoff := now - WINDOW_MS;
    var seen: set<string> := {};
    next := [];
    for i := 0 to |ticks|
      invariant next == Pruned(ticks[..i], now)
      invariant forall id :: id in seen <==> Seen(next, id)
    {
      var tick := ticks[i];
      assert ticks[..i + 1][..i] == ticks[..i];
      if !(tick.at < cutoff || tick.id in seen) {
        seen := seen + {tick.id};
        next := next + [tick];
      }
    }
    assert ticks[..|ticks|] == ticks;
  }

  function Recorded(ticks: seq<Tick>, id: string, now: int): seq<Tick> {
    var pruned := Pruned(ticks, now);
    if id == "" || Seen(pruned, id) then pruned else pruned + [Tick(id, now)]
  }

  method RecordMsgTick(ticks: seq<Tick>, id: string, now: int) returns (next: seq<Tick>)
    ensures next == Recorded(ticks, id, now)
  {
    next := PruneMsgWindow(ticks, now);
    if !(id == "" || exists t :: t in next && t.id == id) {
      next := next + [Tick(id, now)];
    }
  }

  /** The timer's update: keep the old array when pruning did not shorten it. */
  function TimerPruned(ticks: seq<Tick>, now: int): seq<Tick> {
    var next := Pruned(ticks, now);
    if |next| == |ticks| then ticks else next
  }

  /** What drives the meter: messages and timer ticks, each at a clock reading. */
  datatype Op = Record(id: string, at: int) | Timer(at: int)

  function Step(window: seq<Tick>, op: Op): seq<Tick> {
    match op
    case Record(id, at) => Recorded(window, id, at)
    case Timer(at) => TimerPruned(window, at)
  }

  function Run(ops: seq<Op>): seq<Tick> {
    if ops == [] then [] else Step(Run(ops[..|ops| - 1]), ops[|ops| - 1])
  }

  /**
   The arrivals that count, decided from the arrivals alone: a message is dropped when its id
   is empty or when the same id already counted within the last 60 seconds.
   */
  function Counted(ops: seq<Op>): seq<Tick> {
    if ops == [] then [] else CountedNext(Counted(ops[..|ops| - 1]), ops[|ops| - 1])
  }

  function CountedNext(before: seq<Tick>, op: Op): seq<Tick> {
    if op.Timer? || op.id == "" || Seen(Filter(InWindow(op.at), before), op.id) then before
    else before + [Tick(op.id, op.at)]
  }

  ghost predicate ClockNondecreasing(ops: seq<Op>) {
    forall i, j :: 0 <= i < j < |ops| ==> ops[i].at <= ops[j].at
  }

  function TickId(t: Tick): string { t.id }

  lemma {:induction false} SeenAppend(ticks: seq<Tick>, t: Tick, id: string)
    ensures Seen(ticks + [t], id) <==> Seen(ticks, id) || t.id == id
  {
    assert t in ticks + [t];
    assert forall x :: x in ticks ==> x in ticks + [t];
  }

  lemma {:induction false} PrunedIn(ticks: seq<Tick>, now: int)
    ensures forall t :: t in Pruned(ticks, now) ==> t in ticks && t.at >= now - WINDOW_MS
  {
    if ticks != [] {
      PrunedIn(ticks[..|ticks| - 1], now);
      assert ticks == ticks[..|ticks| - 1] + [ticks[|ticks| - 1]];
    }
  }

  /** Pruning keeps ids unique whatever it is given, and gives every in-window id a tick. */
  lemma {:induction false} PrunedIsDistinct(ticks: seq<Tick>, now: int)
    ensures Distinct(Map(TickId, Pruned(ticks, now)))
    ensures forall t :: t in ticks && t.at >= now - WINDOW_MS ==> Seen(Pruned(ticks, now), t.id)
  {
    if ticks != [] {
      var n := |ticks| - 1;
      PrunedIsDistinct(ticks[..n], now);
      var before, t := Pruned(ticks[..n], now), ticks[n];
      SeenAppend(before, t, t.id);
      if t.at >= now - WINDOW_MS && !Seen(before, t.id) {
        DistinctSnoc(TickId, before, t);
      }
      forall x | x in ticks && x.at >= now - WINDOW_MS
        ensures Seen(Pruned(ticks, now), x.id)
      {
        SeenAppend(before, t, x.id);
        assert x in ticks[..n] || x == t;
      }
    }
  }

  lemma {:induction false} PrunedNoLonger(ticks: seq<Tick>, now: int)
    ensures |Pruned(ticks, now)| <= |ticks|
    ensures |Pruned(ticks, now)| == |ticks| ==> Pruned(ticks, now) == ticks
  {
    if ticks != [] {
      PrunedNoLonger(ticks[..|ticks| - 1], now);
      assert ticks == ticks[..|ticks| - 1] + [ticks[|ticks| - 1]];
    }
  }

  /** The timer's equal-length shortcut never changes the outcome: it is plain pruning. */
  lemma TimerShortcutIsSound(ticks: seq<Tick>, now: int)
    ensures TimerPruned(ticks, now) == Pruned(ticks, now)
  {
    PrunedNoLonger(ticks, now);
  }

  /** On ticks without repeats in the window, pruning is just the time filter. */
  lemma {:induction false} PrunedIsFilter(ticks: seq<Tick>, now: int)
    requires Distinct(Map(TickId, Filter(InWindow(now), ticks)))
    ensures Pruned(ticks, now) == Filter(InWindow(now), ticks)
  {
    if ticks != [] {
      var n := |ticks| - 1;
      var init, t := ticks[..n], ticks[n];
      assert ticks == init + [t];
      FilterAppend(InWindow(now), init, [t]);
      assert [t][1..] == [];
      var kept, all := Filter(InWindow(now), init), Filter(InWindow(now), ticks);
      if t.at >= now - WINDOW_MS {
        assert all == kept + [t];
        DistinctLast(TickId, kept, t);
      } else {
        assert all == kept;
      }
      PrunedIsFilter(init, now);
    }
  }

  /** Counted ticks are in time order and not in the future. */
  lemma {:induction false} CountedInOrder(ops: seq<Op>)
    requires ClockNondecreasing(ops)
    ensures forall t :: t in Counted(ops) ==> ops != [] && t.at <= ops[|ops| - 1].at
    ensures forall i, j :: 0 <= i < j < |Counted(ops)| ==> Counted(ops)[i].at <= Counted(ops)[j].at
  {
    if ops != [] {
      var n := |ops| - 1;
      CountedInOrder(ops[..n]);
      var before := Counted(ops[..n]);
      forall t | t in before
        ensures t.at <= ops[n].at
      {
        assert ops[..n][|ops[..n]| - 1] == ops[n - 1];
      }
      forall i, j | 0 <= i < j < |Counted(ops)|
        ensures Counted(ops)[i].at <= Counted(ops)[j].at
      {
        assert before[i] in before;
      }
    }
  }

  /** A tick whose id is not in its own window is not in any later window either. */
  lemma WindowGrows(before: seq<Tick>, t: Tick, now: int)
    requires Distinct(Map(TickId, Filter(InWindow(now), before)))
    requires t.at <= now && !Seen(Filter(InWindow(t.at), before), t.id)
    ensures Distinct(Map(TickId, Filter(InWindow(now), before + [t])))
  {
    var kept := Filter(InWindow(now), before);
    FilterAppend(InWindow(now), before, [t]);
    assert [t][1..] == [];
    forall x | x in kept
      ensures x.id != t.id
    {
      FilterIn(InWindow(now), before);
      FilterIn(InWindow(t.at), before);
      assert x in Filter(InWindow(t.at), before);
    }
    DistinctSnoc(TickId, kept, t);
    assert Filter(InWindow(now), [t]) == if t.at >= now - WINDOW_MS then [t] else [];
  }

  /** Two ticks of one id are never both counted within one window. */
  lemma {:induction false} CountedDistinctInWindow(ops: seq<Op>, now: int)
    requires ClockNondecreasing(ops)
    requires ops != [] ==> ops[|ops| - 1].at <= now
    ensures Distinct(Map(TickId, Filter(InWindow(now), Counted(ops))))
  {
    if ops != [] {
      var n := |ops| - 1;
      var op, before := ops[n], Counted(ops[..n]);
      CountedDistinctInWindow(ops[..n], now);
      if Counted(ops) != before {
        WindowGrows(before, Tick(op.id, op.at), now);
      }
    }
  }

  /** What one operation makes of the ticks still in its window. */
  function Kept(kept: seq<Tick>, op: Op): seq<Tick> {
    if op.Timer? || op.id == "" || Seen(kept, op.id) then kept else kept + [Tick(op.id, op.at)]
  }

  /** One operation on a window that is exact at its clock reading. */
  lemma StepIsExact(before: seq<Tick>, window: seq<Tick>, op: Op)
    requires Filter(InWindow(op.at), window) == Filter(InWindow(op.at), before)
    requires Distinct(Map(TickId, Filter(InWindow(op.at), before)))
    ensures Step(window, op) == Kept(Filter(InWindow(op.at), before), op)
  {
    PrunedIsFilter(window, op.at);
    TimerShortcutIsSound(window, op.at);
  }

  /** Counting an operation adds to the window what the operation keeps. */
  lemma CountedIsKept(before: seq<Tick>, op: Op)
    ensures Filter(InWindow(op.at), CountedNext(before, op)) == Kept(Filter(InWindow(op.at), before), op)
  {
    if op.Record? {
      NewTickIsInWindow(before, op.id, op.at);
    }
  }

  lemma NewTickIsInWindow(before: seq<Tick>, id: string, now: int)
    ensures Filter(InWindow(now), before + [Tick(id, now)]) == Filter(InWindow(now), before) + [Tick(id, now)]
  {
    FilterAppend(InWindow(now), before, [Tick(id, now)]);
    assert [Tick(id, now)][1..] == [];
  }

  /** A window that was exact at an earlier reading holds everything a later reading can still see. */
  lemma LaterReading(before: seq<Tick>, earlier: int, later: int)
    requires earlier <= later
    ensures Filter(InWindow(later), Filter(InWindow(earlier), before)) == Filter(InWindow(later), before)
  {
    FilterFilter(InWindow(earlier), InWindow(later), InWindow(later), before);
  }

  /**
   The meter is exact: under a nondecreasing clock, however timer prunes are interleaved and
   whatever ids repeat, the window holds exactly the counted arrivals of the last 60 seconds,
   in arrival order.
   */
  lemma {:induction false} WindowIsExact(ops: seq<Op>)
    requires ClockNondecreasing(ops) && ops != []
    ensures Run(ops) == Filter(InWindow(ops[|ops| - 1].at), Counted(ops))
  {
    var n := |ops| - 1;
    var init, op := ops[..n], ops[n];
    var before := Counted(init);
    if n > 0 {
      WindowIsExact(init);
      assert init[n - 1] == ops[n - 1];
      LaterReading(before, ops[n - 1].at, op.at);
    }
    CountedDistinctInWindow(init, op.at);
    StepIsExact(before, Run(init), op);
    CountedIsKept(before, op);
  }

  /** Every message of a run, as a tick. */
  function Arrivals(ops: seq<Op>): seq<Tick> {
    if ops == [] then []
    else
      var before, op := Arrivals(ops[..|ops| - 1]), ops[|ops| - 1];
      if op.Timer? then before else before + [Tick(op.id, op.at)]
  }

  lemma {:induction false} FreshIdsAllCount(ops: seq<Op>)
    requires Distinct(Map(TickId, Arrivals(ops)))
    requires forall t :: t in Arrivals(ops) ==> t.id != ""
    ensures Counted(ops) == Arrivals(ops)
  {
    if ops != [] {
      var n := |ops| - 1;
      var before, op := Arrivals(ops[..n]), ops[n];
      if op.Record? {
        assert Tick(op.id, op.at) in Arrivals(ops);
        DistinctLast(TickId, before, Tick(op.id, op.at));
        FilterIn(InWindow(op.at), before);
      }
      assert forall t :: t in before ==> t in Arrivals(ops);
      FreshIdsAllCount(ops[..n]);
    }
  }

  /** With non-repeating, non-empty ids the window is exactly the arrivals of the last 60 seconds. */
  lemma FreshIdsWindowIsArrivals(ops: seq<Op>)
    requires ClockNondecreasing(ops) && ops != []
    requires Distinct(Map(TickId, Arrivals(ops)))
    requires forall t :: t in Arrivals(ops) ==> t.id != ""
    ensures Run(ops) == Filter(InWindow(ops[|ops| - 1].at), Arrivals(ops))
  {
    FreshIdsAllCount(ops);
    WindowIsExact(ops);
  }

  /** With any clock and any ids, the window never holds an id twice. */
  lemma {:induction false} IdsStayUnique(ops: seq<Op>)
    ensures Distinct(Map(TickId, Run(ops)))
  {
    if ops != [] {
      var n := |ops| - 1;
      var op, window := ops[n], Run(ops[..n]);
      PrunedIsDistinct(window, op.at);
      TimerShortcutIsSound(window, op.at);
      var pruned := Pruned(window, op.at);
      if Run(ops) != pruned {
        DistinctSnoc(TickId, pruned, Tick(op.id, op.at));
      }
    }
  }

  /** The window of a moment is the 60 seconds before it, its own instant and that of a minute ago included. */
  lemma WindowIsAMinute(ops: seq<Op>, t: Tick)
    requires ClockNondecreasing(ops) && ops != []
    ensures t in Run(ops) <==> t in Counted(ops) && t.at >= ops[|ops| - 1].at - 60_000
  {
    WindowIsExact(ops);
    FilterIn(InWindow(ops[|ops| - 1].at), Counted(ops));
  }

  lemma CountedIsDecided(ops: seq<Op>, op: Op)
    ensures Counted(ops + [op])
         == if op.Record? && op.id != "" && (forall t :: t in Counted(ops) && t.at >= op.at - 60_000 ==> t.id != op.id)
            then Counted(ops) + [Tick(op.id, op.at)] else Counted(ops)
  {
    assert (ops + [op])[..|ops|] == ops;
    FilterIn(InWindow(op.at), Counted(ops));
  }
}
