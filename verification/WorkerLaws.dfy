/**
 What every run of the worker obeys: the session's order of registration, subscription and
 farewell, its retry waits, its end after a stop, and at most one verdict per message.
 */
module WorkerLaws {
  import opened Sequences
  import opened WorkerProtocol

  // ----- the session --------------------------------------------------------------------

  lemma PrefixIn(log: seq<Entry>, j: nat, e: Entry)
    requires j <= |log| && e in log[..j]
    ensures exists i :: 0 <= i < j && log[i] == e
  {
    var i :| 0 <= i < |log[..j]| && log[..j][i] == e;
    assert log[i] == e;
  }

  lemma NotInPrefix(log: seq<Entry>, j: int, e: Entry, i: int)
    ensures 0 <= i < j <= |log| && e !in log[..j] ==> log[i] != e
  {
    if 0 <= i < j <= |log| {
      assert log[..j][i] == log[i];
    }
  }

  lemma InPrefix(log: seq<Entry>, j: nat, i: nat)
    requires i < j <= |log|
    ensures log[i] in log[..j]
  {
    assert log[..j][i] == log[i];
  }

  /** Every subscription directly follows this session's registration, and there is only ever one. */
  lemma RegisterBeforeSubscribe(actions: seq<Action>, j: nat)
    requires var log := Run(actions).log; j < |log| && log[j] == Subscribed
    ensures var log := Run(actions).log;
      && j > 0 && log[j - 1] == Registered
      && (forall i :: 0 <= i < |log| && log[i] == Subscribed ==> i == j)
  {
    var log := Run(actions).log;
    EveryRunIsLawful(actions);
    assert MayFollow(log[..j], log[j]);
    forall i | 0 <= i < |log| && log[i] == Subscribed
      ensures i == j
    {
      assert MayFollow(log[..i], log[i]);
      NotInPrefix(log, j, Subscribed, i);
      NotInPrefix(log, i, Subscribed, j);
    }
  }

  /** At most one heartbeat loop is alive; it beats only between the subscription and the farewell. */
  lemma OneHeartbeatLoop(actions: seq<Action>)
    ensures Run(actions).heartbeats <= 1
    ensures var log := Run(actions).log;
      forall j :: 0 <= j < |log| && log[j] == Heartbeat ==> Subscribed in log[..j] && Unregistered !in log[..j]
  {
    EveryRunIsLawful(actions);
    var log := Run(actions).log;
    assert forall j :: 0 <= j < |log| && log[j] == Heartbeat ==> MayFollow(log[..j], log[j]);
  }

  lemma TailAfterFarewell(log: seq<Entry>, i: nat)
    requires i < |log| && MayFollow(log[..i], log[i])
    requires Unregistered in log[..i] && Subscribed in log[..i]
    ensures log[i].Task?
  {
  }

  /** The farewell is published at most once and only after a registration. */
  lemma UnregisterOnceAfterRegister(actions: seq<Action>, j: nat)
    requires var log := Run(actions).log; j < |log| && log[j] == Unregistered
    ensures var log := Run(actions).log;
      && Registered in log[..j]
      && (forall i :: 0 <= i < |log| && log[i] == Unregistered ==> i == j)
      && (forall i :: j < i < |log| ==> log[i].Task?)
  {
    var log := Run(actions).log;
    EveryRunIsLawful(actions);
    assert MayFollow(log[..j], log[j]);
    PrefixIn(log, j, Subscribed);
    var s :| 0 <= s < j && log[s] == Subscribed;
    RegisterBeforeSubscribe(actions, s);
    InPrefix(log, j, s - 1);
    forall i | 0 <= i < |log| && i != j
      ensures log[i] != Unregistered && (i > j ==> log[i].Task?)
    {
      assert MayFollow(log[..i], log[i]);
      if i > j {
        InPrefix(log, i, j);
        InPrefix(log, i, s);
        TailAfterFarewell(log, i);
      } else {
        NotInPrefix(log, j, Unregistered, i);
      }
    }
  }

  lemma {:induction false} TrailingWaitsAreWaits(log: seq<Entry>)
    ensures forall k :: |log| - TrailingWaits(log) <= k < |log| ==> log[k].Waited?
  {
    if log != [] && log[|log| - 1].Waited? {
      TrailingWaitsAreWaits(log[..|log| - 1]);
    }
  }

  /** Entry j is a wait of s seconds, the n-th of the connect call that began n entries before it. */
  predicate NthWait(log: seq<Entry>, j: nat, n: nat) {
    && n < j < |log|
    && log[j] == Waited(if n < 5 then [1, 2, 4, 8, 16][n] else 30)
    && log[j - 1 - n] == Connecting
    && forall k :: j - n <= k < j ==> log[k].Waited?
  }

  lemma {:induction false} Pow2AtLeast(n: nat)
    requires n >= 5
    ensures Pow2(n) >= 32
  {
    if n == 5 {
      assert Pow2(4) == 16 && Pow2(3) == 8 && Pow2(2) == 4;
    } else {
      Pow2AtLeast(n - 1);
    }
  }

  lemma RetryWaitSeconds(n: nat)
    ensures RetryWait(n) == if n < 5 then [1, 2, 4, 8, 16][n] else 30
  {
    if n >= 5 {
      Pow2AtLeast(n);
    } else {
      assert Pow2(0) == 1 && Pow2(1) == 2 && Pow2(2) == 4 && Pow2(3) == 8 && Pow2(4) == 16;
    }
  }

  lemma WaitIsNth(log: seq<Entry>, j: nat)
    requires j < |log| && log[j].Waited? && MayFollow(log[..j], log[j])
    ensures NthWait(log, j, TrailingWaits(log[..j]))
  {
    var before := log[..j];
    var n := TrailingWaits(before);
    RetryWaitSeconds(n);
    TrailingWaitsAreWaits(before);
    assert before[j - 1 - n] == log[j - 1 - n];
    forall k | j - n <= k < j
      ensures log[k].Waited?
    {
      assert before[k] == log[k];
    }
  }

  /** The n-th wait of one connect call lasts min(2^n, 30) seconds, n counted from zero. */
  lemma WaitsBackOff(actions: seq<Action>, j: nat)
    requires var log := Run(actions).log; j < |log| && log[j].Waited?
    ensures exists n: nat :: NthWait(Run(actions).log, j, n)
  {
    EveryRunIsLawful(actions);
    WaitIsNth(Run(actions).log, j);
  }

  /** A registration follows a connect call, with nothing but that call's waits in between. */
  lemma RegisterAfterConnect(actions: seq<Action>, j: nat)
    requires var log := Run(actions).log; j < |log| && log[j] == Registered
    ensures var log := Run(actions).log;
      exists i :: 0 <= i < j && log[i] == Connecting && forall k :: i < k < j ==> log[k].Waited?
  {
    hide Run, Lawful;
    EveryRunIsLawful(actions);
    RegisterFollowsConnect(Run(actions).log, j);
  }

  lemma RegisterFollowsConnect(log: seq<Entry>, j: nat)
    requires Lawful(log) && j < |log| && log[j] == Registered
    ensures exists i :: 0 <= i < j && log[i] == Connecting && forall k :: i < k < j ==> log[k].Waited?
  {
    assert MayFollow(log[..j], log[j]);
    ConnectBefore(log, j);
  }

  lemma ConnectBefore(log: seq<Entry>, j: nat)
    requires j < |log| && InConnect(log[..j], TrailingWaits(log[..j]))
    ensures exists i :: 0 <= i < j && log[i] == Connecting && forall k :: i < k < j ==> log[k].Waited?
  {
    hide TrailingWaits;
    var before := log[..j];
    TrailingWaitsAreWaits(before);
    var i := j - 1 - TrailingWaits(before);
    assert log[i] == before[i] == Connecting;
    assert forall k :: i < k < j ==> log[k] == before[k];
  }

  /** Handlers speak only after the subscription. */
  lemma TasksFollowSubscription(actions: seq<Action>, j: nat)
    requires var log := Run(actions).log; j < |log| && log[j].Task?
    ensures Subscribed in Run(actions).log[..j]
  {
    EveryRunIsLawful(actions);
    var log := Run(actions).log;
    assert MayFollow(log[..j], log[j]);
  }

  /** How many more stretches of the session task a stopped worker can take. */
  function Rank(phase: Phase): nat {
    match phase
    case Ended => 0
    case Idle => 1
    case Cooling => 1
    case Backing(_) => 2
    case Draining => 2
    case Unregistering => 3
    case Serving => 4
    case Subscribing => 5
    case Greeting => 6
    case Registering => 7
    case Attempting(_) => 8
  }

  function Advances(actions: seq<Action>): nat {
    if actions == [] then 0 else (if actions[0].Advance? then 1 else 0) + Advances(actions[1..])
  }

  /** With stop set no step climbs, and every stretch of the session task descends until the end. */
  lemma StoppedStepDescends(w: World, a: Action)
    requires PhaseAgrees(w) && w.stop
    ensures Step(w, a).stop
    ensures Rank(Step(w, a).phase) <= Rank(w.phase)
    ensures a.Advance? && w.phase != Ended ==> Rank(Step(w, a).phase) < Rank(w.phase)
  {
    if a.Advance? {
      match w.phase
      case Serving =>
      case _ =>
    }
  }

  /**
   Once stop is set, any continuation in which the session task runs 8 more stretches, whatever
   their outcomes and whatever happens in between, has ended the run.
   */
  lemma {:induction false} StopEndsTheRun(w: World, actions: seq<Action>)
    requires Inv(w) && w.stop
    requires Advances(actions) >= Rank(w.phase)
    ensures Continue(w, actions).phase == Ended
    decreases |actions|
  {
    if actions != [] {
      var next := Step(w, actions[0]);
      StepKeepsInv(w, actions[0]);
      StoppedStepDescends(w, actions[0]);
      StopEndsTheRun(next, actions[1..]);
    }
  }

  lemma EndedStepIsSilent(w: World, a: Action)
    requires PhaseAgrees(w) && w.phase == Ended
    ensures Step(w, a).log == w.log && Step(w, a).phase == Ended
  {
    if a.Handle? && a.i < |w.handlers| {
      assert HandlerStep(w.handlers[a.i], a.move, false).1 == None;
    }
  }

  /** After the end nothing more is published, by handlers that are still running either. */
  lemma {:induction false} SilentAfterEnd(w: World, actions: seq<Action>)
    requires Inv(w) && w.phase == Ended
    ensures Continue(w, actions).log == w.log && Continue(w, actions).phase == Ended
    decreases |actions|
  {
    if actions != [] {
      StepKeepsInv(w, actions[0]);
      EndedStepIsSilent(w, actions[0]);
      SilentAfterEnd(Step(w, actions[0]), actions[1..]);
    }
  }

  // ----- what signals, deliveries, heartbeats and farewells do --------------------------

  lemma {:induction false} RunThen(before: seq<Action>, after: seq<Action>)
    ensures Run(before + after) == Continue(Run(before), after)
    decreases |after|
  {
    if after == [] {
      assert before + after == before;
    } else {
      var first := before + [after[0]];
      assert first[..|before|] == before && before + after == first + after[1..];
      RunThen(first, after[1..]);
    }
  }

  /** The worker is stopping exactly when a signal has come. */
  lemma {:induction false} StopMeansSignal(actions: seq<Action>)
    ensures Run(actions).stop <==> Signal in actions
  {
    if actions != [] {
      var before, a := actions[..|actions| - 1], actions[|actions| - 1];
      StopMeansSignal(before);
      assert actions == before + [a];
      OnlySignalsStop(Run(before), a);
    }
  }

  lemma OnlySignalsStop(w: World, a: Action)
    ensures Step(w, a).stop <==> w.stop || a == Signal
  {
  }

  /** A signal ends every run in which the session task still runs 8 stretches, whatever their outcomes. */
  lemma SignalEndsTheRun(before: seq<Action>, after: seq<Action>)
    requires Signal in before && Advances(after) >= 8
    ensures Run(before + after).phase == Ended
  {
    StopMeansSignal(before);
    EveryRunIsLawful(before);
    StopEndsTheRun(Run(before), after);
    RunThen(before, after);
  }

  /** How the connection and the subscription follow the session. */
  predicate LinksAgree(w: World) {
    && (w.subscribed <==> Subscribed in w.log && w.phase != Ended)
    && (w.phase == Serving ==> w.connected)
    && (w.phase == Idle || w.phase.Attempting? || w.phase.Backing? || w.phase == Ended ==> !w.connected)
    && (w.phase == Registering || w.phase == Greeting || w.phase == Subscribing ==> w.connected)
  }

  lemma StepKeepsLinks(w: World, a: Action)
    requires Inv(w) && LinksAgree(w)
    ensures LinksAgree(Step(w, a))
  {
    hide Lawful, InConnect, HandlerStep;
    if a.Advance? {
      SessionKeepsLinks(w, a.ok);
    } else if Step(w, a).log != w.log {
      assert |Step(w, a).log| == |w.log| + 1 && Step(w, a).log[..|w.log|] == w.log;
      assert Step(w, a).log[|w.log|] != Subscribed;
      AddedIs(w.log, Step(w, a).log);
    }
  }

  lemma AddedIs(before: seq<Entry>, after: seq<Entry>)
    requires |after| == |before| + 1 && after[..|before|] == before && after[|before|] != Subscribed
    ensures Subscribed in after <==> Subscribed in before
  {
    assert after == before + [after[|before|]];
  }

  lemma SessionKeepsLinks(w: World, ok: bool)
    requires Inv(w) && LinksAgree(w)
    ensures LinksAgree(SessionStep(w, ok))
  {
    hide Lawful, InConnect;
  }

  lemma {:induction false} EveryRunKeepsLinks(actions: seq<Action>)
    ensures LinksAgree(Run(actions))
  {
    if actions != [] {
      EveryRunKeepsLinks(actions[..|actions| - 1]);
      EveryRunIsLawful(actions[..|actions| - 1]);
      StepKeepsLinks(Run(actions[..|actions| - 1]), actions[|actions| - 1]);
    }
  }

  /** A delivered message gets its own new handler exactly from the subscription to the end of the run. */
  lemma DeliveryStartsHandler(actions: seq<Action>, payload: Payload)
    ensures var w, next := Run(actions), Step(Run(actions), Deliver(payload));
      next == if Subscribed in w.log && w.phase != Ended
              then w.(handlers := w.handlers + [Handler(payload, Decoding, false)]) else w
  {
    EveryRunKeepsLinks(actions);
  }

  /** A heartbeat is published exactly while the worker serves, no signal has come, and the publish succeeds. */
  lemma HeartbeatWhileServing(actions: seq<Action>, ok: bool)
    ensures var w, next := Run(actions), Step(Run(actions), Beat(ok));
      next == if w.phase == Serving && Signal !in actions && ok then w.(log := w.log + [Heartbeat]) else w
  {
    EveryRunIsLawful(actions);
    EveryRunKeepsLinks(actions);
    StopMeansSignal(actions);
  }

  /** The stretch in which the farewell is said: action j of the run. */
  predicate SaysFarewell(actions: seq<Action>, j: nat) {
    j < |actions| && Run(actions[..j]).phase == Unregistering && actions[j].Advance?
  }

  /** Once the session is past it, the farewell is in the log exactly if its publish succeeded. */
  lemma {:induction false} FarewellIsItsOutcome(actions: seq<Action>)
    requires var w := Run(actions); Subscribed in w.log && w.phase in {Draining, Cooling, Ended}
    ensures exists j: nat :: SaysFarewell(actions, j) && (Unregistered in Run(actions).log <==> actions[j].ok)
  {
    hide Lawful, InConnect, HandlerStep;
    var n := |actions| - 1;
    var before, a := actions[..n], actions[n];
    var w, next := Run(before), Run(actions);
    EveryRunIsLawful(before);
    FarewellStep(w, a);
    if w.phase == Unregistering {
      assert SaysFarewell(actions, n);
    } else {
      FarewellIsItsOutcome(before);
      var j: nat :| SaysFarewell(before, j) && (Unregistered in w.log <==> before[j].ok);
      assert before[..j] == actions[..j];
      assert SaysFarewell(actions, j);
    }
  }

  /** The step into or within those phases: from the farewell, with its outcome, or from one of them with none. */
  lemma FarewellStep(w: World, a: Action)
    requires Inv(w) && Subscribed in Step(w, a).log && Step(w, a).phase in {Draining, Cooling, Ended}
    ensures if w.phase == Unregistering then a.Advance? && (Unregistered in Step(w, a).log <==> a.ok)
            else Subscribed in w.log && w.phase in {Draining, Cooling, Ended}
                 && (Unregistered in Step(w, a).log <==> Unregistered in w.log)
  {
    hide Lawful, InConnect;
    match a
    case Advance(ok) => if w.phase == Unregistering { LastIn(w.log, Unregistered); }
    case Beat(ok) => OtherIn(w.log, Heartbeat);
    case Handle(i, move) =>
      if i < |w.handlers| {
        var sent := HandlerStep(w.handlers[i], move, w.connected).1;
        if sent.Some? {
          OtherIn(w.log, Task(i, sent.value));
        }
      }
    case _ =>
  }

  lemma LastIn(log: seq<Entry>, e: Entry)
    ensures e in log + [e]
  {
    assert (log + [e])[|log|] == e;
  }

  lemma OtherIn(log: seq<Entry>, e: Entry)
    requires e != Subscribed && e != Unregistered
    ensures Subscribed in log + [e] <==> Subscribed in log
    ensures Unregistered in log + [e] <==> Unregistered in log
  {
  }

  // ----- the message handlers -----------------------------------------------------------

  /** What handler i published, in order. */
  function Trace(log: seq<Entry>, i: nat): seq<Kind> {
    if log == [] then []
    else
      var before, e := Trace(log[..|log| - 1], i), log[|log| - 1];
      if e.Task? && e.handler == i then before + [e.kind] else before
  }

  lemma TraceAppend(log: seq<Entry>, e: Entry, i: nat)
    ensures Trace(log + [e], i) == if e.Task? && e.handler == i then Trace(log, i) + [e.kind] else Trace(log, i)
  {
    assert (log + [e])[..|log|] == log;
  }

  /** The acknowledgement, for a task that has an id. */
  function Ack(p: Payload): seq<Kind> {
    if p.Object? && p.taskId != "" then [Acked] else []
  }

  /** Acknowledged if it has an id, started, and then any number of progress reports. */
  ghost predicate WorkTrace(p: Payload, t: seq<Kind>) {
    && p.Object? && p.accepted
    && Ack(p) + [Started] <= t
    && forall k :: |Ack(p)| < k < |t| ==> t[k] == Progress
  }

  /** What a handler may have published before it reaches its verdict. */
  ghost predicate OpenTrace(p: Payload, t: seq<Kind>) {
    t == [] || t == Ack(p) || WorkTrace(p, t)
  }

  /** What a finished handler has published: an open trace, perhaps closed by one verdict. */
  ghost predicate ClosedTrace(p: Payload, t: seq<Kind>) {
    || OpenTrace(p, t)
    || (t != [] && t[|t| - 1] == Completed && WorkTrace(p, t[..|t| - 1]))
    || (t != [] && t[|t| - 1] == Failed && MayFail(p) && OpenTrace(p, t[..|t| - 1]))
  }

  ghost predicate HandlerInv(h: Handler, t: seq<Kind>) {
    match h.pc
    case Decoding => t == []
    case Acking => t == [] && Ack(h.payload) == [Acked] && h.payload.Object? && h.payload.accepted
    case Starting => t == Ack(h.payload) && h.payload.Object? && h.payload.accepted
    case Working => WorkTrace(h.payload, t)
    case Completing => WorkTrace(h.payload, t)
    case Failing => OpenTrace(h.payload, t) && MayFail(h.payload)
    case Finished =>
      && ClosedTrace(h.payload, t)
      && (MayFail(h.payload) && !h.lost ==> t != [] && IsTerminal(t[|t| - 1]))
  }

  /** A good return completes a task, any other end of its work fails it, and neither publishes anything yet. */
  lemma WorkEnds(h: Handler, connected: bool)
    requires h.pc == Working
    ensures HandlerStep(h, Return(true), connected) == (h.(pc := Completing), None)
    ensures var next := h.(pc := if h.payload.Object? && h.payload.typeIsTask then Failing else Finished);
      HandlerStep(h, Return(false), connected) == (next, None) && HandlerStep(h, Raise, connected) == (next, None)
  {
  }

  /** Work starts after the acknowledgement, and reports belong to it. */
  lemma WorkGrows(p: Payload, t: seq<Kind>)
    ensures p.Object? && p.accepted ==> WorkTrace(p, Ack(p) + [Started])
    ensures WorkTrace(p, t) ==> WorkTrace(p, t + [Progress])
  {
  }

  lemma UnfinishedIsOpen(h: Handler, t: seq<Kind>)
    requires HandlerInv(h, t) && h.pc != Finished
    ensures OpenTrace(h.payload, t)
  {
    hide WorkTrace;
  }

  lemma ErrorKeepsInv(h: Handler, t: seq<Kind>)
    requires OpenTrace(h.payload, t)
    ensures HandlerInv(AfterError(h), t)
  {
    hide OpenTrace, WorkTrace;
  }

  lemma VerdictIsLast(p: Payload, t: seq<Kind>)
    ensures WorkTrace(p, t) ==> ClosedTrace(p, t + [Completed])
    ensures MayFail(p) && OpenTrace(p, t) ==> ClosedTrace(p, t + [Failed])
    ensures OpenTrace(p, t) ==> ClosedTrace(p, t)
  {
    hide OpenTrace, WorkTrace;
    assert (t + [Completed])[..|t|] == t && (t + [Failed])[..|t|] == t;
  }

  lemma HandlerStepKeepsInv(h: Handler, move: Move, connected: bool, t: seq<Kind>)
    requires HandlerInv(h, t)
    ensures var (next, sent) := HandlerStep(h, move, connected);
      HandlerInv(next, if sent.Some? then t + [sent.value] else t)
  {
    hide WorkTrace, OpenTrace, ClosedTrace, AfterError;
    if h.pc != Finished {
      UnfinishedIsOpen(h, t);
      ErrorKeepsInv(h, t);
      ErrorKeepsInv(h.(lost := true), t);
      ErrorIsLost(h);
      WorkGrows(h.payload, t);
      VerdictIsLast(h.payload, t);
    }
  }

  lemma ErrorIsLost(h: Handler)
    ensures AfterError(h.(lost := true)) == AfterError(h).(lost := true)
  {
  }

  ghost predicate HandlersInv(w: World) {
    && (forall i :: 0 <= i < |w.handlers| ==> HandlerInv(w.handlers[i], Trace(w.log, i)))
    && (forall j :: 0 <= j < |w.log| && w.log[j].Task? ==> w.log[j].handler < |w.handlers|)
  }

  lemma {:induction false} NoEntryNoTrace(log: seq<Entry>, i: nat)
    requires forall j :: 0 <= j < |log| && log[j].Task? ==> log[j].handler < i
    ensures Trace(log, i) == []
  {
    if log != [] {
      NoEntryNoTrace(log[..|log| - 1], i);
    }
  }

  /** The session task adds at most one entry, never one of a handler. */
  lemma SessionEntry(w: World, ok: bool) returns (e: Option<Entry>)
    ensures SessionStep(w, ok).handlers == w.handlers
    ensures SessionStep(w, ok).log == if e.Some? then w.log + [e.value] else w.log
    ensures e.Some? ==> !e.value.Task?
  {
    e := None;
    match w.phase
    case Attempting(b) => if !ok { e := Some(Waited(b)); }
    case Registering => if ok { e := Some(Registered); }
    case Subscribing => if ok { e := Some(Subscribed); }
    case Unregistering => if ok { e := Some(Unregistered); }
    case Idle => if ok && !w.stop { e := Some(Connecting); }
    case Cooling => if !w.stop { e := Some(Connecting); }
    case _ =>
  }

  lemma StepKeepsHandlers(w: World, a: Action)
    requires HandlersInv(w)
    ensures HandlersInv(Step(w, a))
  {
    var next := Step(w, a);
    match a
    case Signal =>
    case Advance(ok) =>
      var e := SessionEntry(w, ok);
      forall i | 0 <= i < |next.handlers|
        ensures HandlerInv(next.handlers[i], Trace(next.log, i))
      {
        if e.Some? {
          TraceAppend(w.log, e.value, i);
        }
      }
    case Beat(ok) =>
      if next != w {
        forall i | 0 <= i < |next.handlers|
          ensures HandlerInv(next.handlers[i], Trace(next.log, i))
        {
          TraceAppend(w.log, Heartbeat, i);
        }
      }
    case Deliver(payload) => NoEntryNoTrace(w.log, |w.handlers|);
    case Handle(i, move) =>
      if i < |w.handlers| {
        var (h, sent) := HandlerStep(w.handlers[i], move, w.connected);
        HandlerStepKeepsInv(w.handlers[i], move, w.connected, Trace(w.log, i));
        forall k | 0 <= k < |next.handlers|
          ensures HandlerInv(next.handlers[k], Trace(next.log, k))
        {
          if sent.Some? {
            TraceAppend(w.log, Task(i, sent.value), k);
          }
        }
      }
  }

  lemma {:induction false} EveryRunKeepsHandlers(actions: seq<Action>)
    ensures HandlersInv(Run(actions))
  {
    if actions != [] {
      EveryRunKeepsHandlers(actions[..|actions| - 1]);
      StepKeepsHandlers(Run(actions[..|actions| - 1]), actions[|actions| - 1]);
    }
  }

  lemma OpenTraceHasNoVerdict(p: Payload, t: seq<Kind>)
    ensures OpenTrace(p, t) ==> forall j :: 0 <= j < |t| ==> !IsTerminal(t[j])
  {
    if WorkTrace(p, t) {
      forall j | 0 <= j < |t|
        ensures !IsTerminal(t[j])
      {
        if j <= |Ack(p)| {
          assert t[j] == (Ack(p) + [Started])[j];
        }
      }
    }
  }

  /** A verdict is the last thing in a trace, and the handler has finished. */
  lemma VerdictCloses(h: Handler, t: seq<Kind>, j: nat)
    requires HandlerInv(h, t) && j < |t|
    ensures IsTerminal(t[j]) ==> j == |t| - 1 && h.pc == Finished
    ensures t[j] == Completed ==> WorkTrace(h.payload, t[..j])
    ensures t[j] == Failed ==> MayFail(h.payload)
  {
    OpenTraceHasNoVerdict(h.payload, t);
    if !OpenTrace(h.payload, t) {
      var open := t[..|t| - 1];
      OpenTraceHasNoVerdict(h.payload, open);
      forall k | 0 <= k < |t| - 1
        ensures !IsTerminal(t[k])
      {
        assert open[k] == t[k];
      }
    }
  }

  /**
   Under every interleaving, with any publish failures and handler exceptions: a message gets at
   most one verdict and nothing is published for it afterwards.
   */
  lemma AtMostOneVerdict(actions: seq<Action>, i: nat, j: nat)
    requires i < |Run(actions).handlers|
    requires var t := Trace(Run(actions).log, i); j < |t| && t[j] in {Completed, Failed}
    ensures j == |Trace(Run(actions).log, i)| - 1
    ensures Run(actions).handlers[i].pc == Finished
  {
    EveryRunKeepsHandlers(actions);
    VerdictCloses(Run(actions).handlers[i], Trace(Run(actions).log, i), j);
  }

  /** Completed is published only after started, and after the acknowledgement when the task has an id. */
  lemma CompletedAfterStartedAndAck(actions: seq<Action>, i: nat, j: nat)
    requires i < |Run(actions).handlers|
    requires var t := Trace(Run(actions).log, i); j < |t| && t[j] == Completed
    ensures var t := Trace(Run(actions).log, i);
      var p := Run(actions).handlers[i].payload;
      && p.Object? && p.accepted
      && Started in t[..j]
      && (p.taskId != "" ==> t[0] == Acked && Started in t[1..j])
  {
    EveryRunKeepsHandlers(actions);
    var p, t := Run(actions).handlers[i].payload, Trace(Run(actions).log, i);
    VerdictCloses(Run(actions).handlers[i], t, j);
    var k := |Ack(p)|;
    assert t[..j][k] == (Ack(p) + [Started])[k] == Started;
    if p.taskId != "" {
      assert t[..j][0] == (Ack(p) + [Started])[0] == Acked;
      assert t[1..j][0] == t[..j][1];
    }
  }

  /** A failure is reported only for a message that carries a task of type "task". */
  lemma FailedOnlyForTasks(actions: seq<Action>, i: nat, j: nat)
    requires i < |Run(actions).handlers|
    requires var t := Trace(Run(actions).log, i); j < |t| && t[j] == Failed
    ensures Run(actions).handlers[i].payload.Object? && Run(actions).handlers[i].payload.typeIsTask
  {
    EveryRunKeepsHandlers(actions);
    VerdictCloses(Run(actions).handlers[i], Trace(Run(actions).log, i), j);
  }

  /** When no publish was lost, every finished message that carries a task of type "task" got its verdict. */
  lemma ExactlyOneVerdict(actions: seq<Action>, i: nat)
    requires i < |Run(actions).handlers|
    requires var h := Run(actions).handlers[i];
      h.pc == Finished && !h.lost && h.payload.Object? && h.payload.typeIsTask
    ensures var t := Trace(Run(actions).log, i);
      && t != [] && t[|t| - 1] in {Completed, Failed}
      && forall j :: 0 <= j < |t| - 1 ==> t[j] !in {Completed, Failed}
  {
    hide WorkTrace, OpenTrace, Run, Trace;
    EveryRunKeepsHandlers(actions);
    var t := Trace(Run(actions).log, i);
    assert HandlerInv(Run(actions).handlers[i], t);
    forall j | 0 <= j < |t| - 1
      ensures !IsTerminal(t[j])
    {
      VerdictCloses(Run(actions).handlers[i], t, j);
    }
  }
}
