/**
 The worker's own code, in the order in which it is written: the handler of one message, and the
 session loop with its connect call. The world decides the outcome of every `await` and what
 other tasks do meanwhile; whatever it decides, the code only ever makes steps of the protocol.
 */
module BotWorker {
  import opened Sequences
  import opened WorkerProtocol
  import opened WorkerLaws

  // ----- one message --------------------------------------------------------------------

  datatype Result = Good | Bad | Raised

  /** The outcomes a handler may meet: of its publishes, and of the task-specific code. */
  datatype Fate = Fate(ack: bool, start: bool, reports: seq<bool>, result: Result, complete: bool, fail: bool)

  /** Every publish that this fate decides reaches the bus. */
  predicate NothingLost(fate: Fate) {
    fate.ack && fate.start && (forall ok :: ok in fate.reports ==> ok) && fate.complete && fate.fail
  }

  /** The handler's next state, and its trace with what it publishes. */
  ghost function Next(h: Handler, move: Move): Handler { HandlerStep(h, move, true).0 }

  ghost predicate Publishes(h: Handler, move: Move, ok: bool, kind: Kind) {
    HandlerStep(h, move, true).1 == if ok then Some(kind) else None
  }

  /** One awaited publish: `h` is where the handler is in the protocol. */
  method Publish(trace: seq<Kind>, ok: bool, kind: Kind, ghost h: Handler, ghost move: Move) returns (after: seq<Kind>)
    requires HandlerInv(h, trace) && Publishes(h, move, ok, kind)
    ensures HandlerInv(Next(h, move), after) && after == if ok then trace + [kind] else trace
  {
    HandlerStepKeepsInv(h, move, true, trace);
    after := if ok then trace + [kind] else trace;
  }

  /** The reports that reached the bus. */
  function Sent(reports: seq<bool>): seq<Kind> {
    if reports == [] then []
    else Sent(reports[..|reports| - 1]) + if reports[|reports| - 1] then [Progress] else []
  }

  /** The progress reports of the task-specific code, each of which may be lost. */
  method Reports(trace: seq<Kind>, fate: Fate, ghost h: Handler) returns (after: seq<Kind>, ghost end: Handler)
    requires HandlerInv(h, trace) && h.pc == Working
    ensures HandlerInv(end, after) && end.payload == h.payload && end.pc == Working
    ensures NothingLost(fate) && !h.lost ==> !end.lost
    ensures after == trace + Sent(fate.reports)
  {
    hide WorkTrace;
    after, end := trace, h;
    assert trace + [] == trace;
    for i := 0 to |fate.reports|
      invariant HandlerInv(end, after) && end.payload == h.payload && end.pc == Working
      invariant NothingLost(fate) && !h.lost ==> !end.lost
      invariant after == trace + Sent(fate.reports[..i])
    {
      var ok := fate.reports[i];
      assert ok in fate.reports;
      SentSnoc(fate.reports, i);
      after := Publish(after, ok, Progress, end, Report(ok));
      end := Next(end, Report(ok));
    }
    assert fate.reports[..|fate.reports|] == fate.reports;
  }

  lemma SentSnoc(reports: seq<bool>, i: nat)
    requires i < |reports|
    ensures Sent(reports[..i + 1]) == Sent(reports[..i]) + if reports[i] then [Progress] else []
  {
    assert reports[..i + 1][..i] == reports[..i];
  }

  lemma {:induction false} SentIsProgress(reports: seq<bool>)
    ensures Completed !in Sent(reports)
  {
    if reports != [] {
      SentIsProgress(reports[..|reports| - 1]);
    }
  }

  /** The task-specific code: progress reports, then a result or an exception. */
  method HandleTask(trace: seq<Kind>, fate: Fate, ghost h: Handler)
    returns (good: bool, after: seq<Kind>, ghost end: Handler)
    requires HandlerInv(h, trace) && h.pc == Working
    ensures HandlerInv(end, after) && end.payload == h.payload && good == fate.result.Good?
    ensures end.pc == (if good then Completing else AfterError(h).pc)
    ensures NothingLost(fate) && !h.lost ==> !end.lost
    ensures after == trace + Sent(fate.reports) && (Completed in after <==> Completed in trace)
  {
    hide WorkTrace;
    after, end := Reports(trace, fate, h);
    SentIsProgress(fate.reports);
    good := fate.result.Good?;
    ghost var move := if fate.result.Raised? then Raise else Return(good);
    HandlerStepKeepsInv(end, move, true, after);
    end := Next(end, move);
  }

  /** The acknowledgement, for a task that has an id, and the "started" report. */
  method BeginTask(payload: Payload, fate: Fate) returns (ok: bool, trace: seq<Kind>, ghost h: Handler)
    ensures HandlerInv(h, trace) && h.payload == payload && Completed !in trace
    ensures ok <==> payload.Object? && payload.accepted && (payload.taskId != "" ==> fate.ack) && fate.start
    ensures trace == if ok then (if payload.taskId != "" then [Acked] else []) + [Started]
                     else Opening(payload, fate).0
    ensures h.pc == if ok then Working else AfterError(h).pc
    ensures NothingLost(fate) ==> !h.lost
  {
    trace := [];
    ok := payload.Object? && payload.accepted;
    h := Next(Handler(payload, Decoding, false), Proceed(true));
    if ok && payload.taskId != "" {
      trace := Publish(trace, fate.ack, Acked, h, Proceed(fate.ack));
      h := Next(h, Proceed(fate.ack));
      ok := fate.ack;
    }
    if ok {
      trace := Publish(trace, fate.start, Started, h, Proceed(fate.start));
      h := Next(h, Proceed(fate.start));
      ok := fate.start;
    }
  }

  /** The verdict: completed, or the failure branch. */
  method ConcludeTask(payload: Payload, good: bool, trace: seq<Kind>, fate: Fate, ghost h: Handler)
    returns (after: seq<Kind>, ghost end: Handler)
    requires h.payload == payload && HandlerInv(h, trace) && h.pc == (if good then Completing else AfterError(h).pc)
    ensures HandlerInv(end, after) && end.payload == h.payload && end.pc == Finished
    ensures NothingLost(fate) && !h.lost ==> !end.lost
    ensures Completed in after <==> Completed in trace || (good && fate.complete)
    ensures after == trace + if good && fate.complete then [Completed]
                             else if payload.Object? && payload.typeIsTask && fate.fail then [Failed] else []
  {
    var ok := good;
    after, end := trace, h;
    if ok {
      after := Publish(after, fate.complete, Completed, end, Proceed(fate.complete));
      end := Next(end, Proceed(fate.complete));
      ok := fate.complete;
    }
    if !ok && MayFail(payload) {
      after := Publish(after, fate.fail, Failed, end, Proceed(fate.fail));
      end := Next(end, Proceed(fate.fail));
    }
  }

  /** What the handler publishes before its verdict, and whether it got through to a good result. */
  function Opening(payload: Payload, fate: Fate): (seq<Kind>, bool) {
    if !(payload.Object? && payload.accepted) then ([], false)
    else if payload.taskId != "" && !fate.ack then ([], false)
    else
      var ack := if payload.taskId != "" then [Acked] else [];
      if !fate.start then (ack, false) else (ack + [Started] + Sent(fate.reports), fate.result.Good?)
  }

  function Verdict(payload: Payload, fate: Fate): seq<Kind> {
    if Opening(payload, fate).1 && fate.complete then [Completed]
    else if payload.Object? && payload.typeIsTask && fate.fail then [Failed]
    else []
  }

  /**
   The handler from the first byte to the last publish. What it published is an open trace,
   perhaps closed by one verdict; a task of type "task" gets its verdict when nothing is lost; and
   the verdict is "completed" exactly when the task is accepted, every publish up to it succeeds
   and the task code returns a task.
   */
  method HandleMessage(payload: Payload, fate: Fate) returns (trace: seq<Kind>)
    ensures ClosedTrace(payload, trace) && trace == Opening(payload, fate).0 + Verdict(payload, fate)
    ensures MayFail(payload) && NothingLost(fate) ==> trace != [] && IsTerminal(trace[|trace| - 1])
    ensures Completed in trace <==>
      payload.Object? && payload.accepted && (payload.taskId != "" ==> fate.ack)
      && fate.start && fate.result.Good? && fate.complete
  {
    hide WorkTrace, OpenTrace, ClosedTrace;
    var ok;
    ghost var h;
    ok, trace, h := BeginTask(payload, fate);
    if ok {
      ok, trace, h := HandleTask(trace, fate, h);
    }
    trace, h := ConcludeTask(payload, ok, trace, fate, h);
  }

  // ----- scripts ------------------------------------------------------------------------

  /** What other tasks may do while the session waits: anything but a step of the session itself. */
  type Interruption = a: Action | !a.Advance? witness Signal

  /** One `await` of the session: what happens meanwhile, and how it ends. */
  datatype Turn = Turn(meanwhile: seq<Interruption>, ok: bool)

  datatype ConnectOutcome = Accepted | Stopped | Suspended

  /** The waits of one connect call that was refused n times. */
  function Waits(n: nat): seq<Entry> {
    if n == 0 then [] else Waits(n - 1) + [Waited(RetryWait(n - 1))]
  }

  /** The steps of the protocol that a script amounts to. */
  ghost function Moves(turns: seq<Turn>): seq<Action> {
    if turns == [] then []
    else
      var last := turns[|turns| - 1];
      Moves(turns[..|turns| - 1]) + last.meanwhile + [WorkerProtocol.Advance(last.ok)]
  }

  lemma RunSnoc(actions: seq<Action>, a: Action)
    ensures WorkerProtocol.Run(actions + [a]) == Step(WorkerProtocol.Run(actions), a)
  {
    assert (actions + [a])[..|actions|] == actions;
  }

  lemma TurnTaken(turns: seq<Turn>, k: nat)
    requires k < |turns|
    ensures Moves(turns[..k + 1]) == Moves(turns[..k]) + turns[k].meanwhile + [WorkerProtocol.Advance(turns[k].ok)]
  {
    assert turns[..k + 1][..k] == turns[..k];
  }

  lemma {:induction false} AdvancesAppend(a: seq<Action>, b: seq<Action>)
    ensures Advances(a + b) == Advances(a) + Advances(b)
  {
    if a == [] {
      assert a + b == b;
    } else {
      AdvancesAppend(a[1..], b);
      assert (a + b)[1..] == a[1..] + b;
    }
  }

  /** What the turns from k on add: at least one step of the session each. */
  lemma {:induction false} MovesFrom(turns: seq<Turn>, k: nat) returns (rest: seq<Action>)
    requires k <= |turns|
    ensures Moves(turns) == Moves(turns[..k]) + rest && Advances(rest) >= |turns| - k
  {
    var n := |turns|;
    assert turns[..n] == turns;
    if k == n {
      rest := [];
    } else {
      var last := turns[n - 1];
      var before := MovesFrom(turns[..n - 1], k);
      assert turns[..n - 1][..k] == turns[..k];
      var step := [WorkerProtocol.Advance(last.ok)];
      rest := before + last.meanwhile + step;
      AdvancesAppend(before + last.meanwhile, step);
      AdvancesAppend(before, last.meanwhile);
      assert step[1..] == [];
    }
  }

  /** A signal in one turn, with that and seven more turns to go, ends the run. */
  lemma SignalFinishes(turns: seq<Turn>, k: nat)
    requires k + 8 <= |turns| && Signal in turns[k].meanwhile
    ensures WorkerProtocol.Run(Moves(turns)).phase == Ended
  {
    hide Moves, Advances, WorkerProtocol.Run;
    var rest := MovesFrom(turns, k + 1);
    TurnTaken(turns, k);
    var start, meanwhile, step := Moves(turns[..k]), turns[k].meanwhile, [WorkerProtocol.Advance(turns[k].ok)];
    Regroup(start + meanwhile, step, rest);
    AdvancesAppend(step, rest);
    OneAdvance(turns[k].ok);
    assert Signal in start + meanwhile;
    SignalEndsTheRun(start + meanwhile, step + rest);
  }

  lemma OneAdvance(ok: bool)
    ensures Advances([WorkerProtocol.Advance(ok)]) == 1
  {
    assert [WorkerProtocol.Advance(ok)][1..] == [];
  }

  lemma Regroup<T>(a: seq<T>, b: seq<T>, c: seq<T>)
    ensures a + b + c == a + (b + c)
  {
  }

  /** Nothing that happens between two steps of the session moves it. */
  lemma {:induction false} MeanwhileKeepsPhase(w: World, meanwhile: seq<Interruption>)
    ensures Continue(w, meanwhile).phase == w.phase
    decreases |meanwhile|
  {
    if meanwhile != [] {
      MeanwhileKeepsPhase(Step(w, meanwhile[0]), meanwhile[1..]);
    }
  }

  /** The state after k turns and what happens meanwhile in the next: same phase, stopping if a signal has come. */
  lemma BeforeStep(turns: seq<Turn>, k: nat) returns (w: World)
    requires k < |turns|
    ensures w.phase == WorkerProtocol.Run(Moves(turns[..k])).phase && Inv(w)
    ensures w.stop <==> exists j :: 0 <= j <= k && Signal in turns[j].meanwhile
    ensures WorkerProtocol.Run(Moves(turns[..k + 1])) == Step(w, WorkerProtocol.Advance(turns[k].ok))
  {
    var before := Moves(turns[..k]);
    w := WorkerProtocol.Run(before + turns[k].meanwhile);
    TurnTaken(turns, k);
    RunSnoc(before + turns[k].meanwhile, WorkerProtocol.Advance(turns[k].ok));
    RunThen(before, turns[k].meanwhile);
    MeanwhileKeepsPhase(WorkerProtocol.Run(before), turns[k].meanwhile);
    EveryRunIsLawful(before + turns[k].meanwhile);
    StopMeansSignal(before + turns[k].meanwhile);
    SignalsOf(turns, k);
  }

  lemma {:induction false} SignalsOf(turns: seq<Turn>, k: nat)
    requires k <= |turns|
    ensures Signal in Moves(turns[..k]) <==> exists j :: 0 <= j < k && Signal in turns[j].meanwhile
  {
    if k > 0 {
      SignalsOf(turns, k - 1);
      TurnTaken(turns, k - 1);
    }
  }

  /** The phases of a session in which everything succeeds, by the number of turns. */
  function GoodPhase(n: nat): Phase
    requires n <= 5
  {
    [Idle, Attempting(1), Registering, Greeting, Subscribing, Serving][n]
  }

  lemma GoodStep(w: World, n: nat)
    requires n < 5 && w.phase == GoodPhase(n) && (n == 0 ==> !w.stop)
    ensures Step(w, WorkerProtocol.Advance(true)).phase == GoodPhase(n + 1)
  {
  }

  lemma ServingStep(w: World)
    requires w.phase == Serving && Inv(w)
    ensures Step(w, WorkerProtocol.Advance(true)).phase == if w.stop then Unregistering else Serving
  {
    hide Lawful;
  }

  lemma {:induction false} GoodStart(turns: seq<Turn>, n: nat)
    requires n <= 5 && n <= |turns| && (forall j :: 0 <= j < |turns| ==> turns[j].ok)
    requires turns != [] ==> Signal !in turns[0].meanwhile
    ensures WorkerProtocol.Run(Moves(turns[..n])).phase == GoodPhase(n)
  {
    hide Inv, Moves, Step, GoodPhase;
    if n == 0 {
      NothingDone(turns);
    } else {
      GoodStart(turns, n - 1);
      var w := BeforeStep(turns, n - 1);
      GoodStep(w, n - 1);
    }
  }

  lemma NothingDone(turns: seq<Turn>)
    ensures WorkerProtocol.Run(Moves(turns[..0])).phase == GoodPhase(0)
  {
  }

  lemma {:induction false} GoodServing(turns: seq<Turn>, n: nat)
    requires 5 <= n <= |turns| && forall j :: 0 <= j < |turns| ==> turns[j].ok
    requires forall j :: 0 <= j < n ==> Signal !in turns[j].meanwhile
    ensures WorkerProtocol.Run(Moves(turns[..n])).phase == Serving
  {
    hide Inv, Moves, Step, WorkerProtocol.Run;
    if n == 5 {
      GoodStart(turns, 5);
    } else {
      GoodServing(turns, n - 1);
      var w := BeforeStep(turns, n - 1);
      ServingStep(w);
    }
  }

  /**
   A day on which everything succeeds: the worker subscribes, serves until the first signal, which
   comes in turn k, says farewell, drains and ends.
   */
  lemma GoodDay(turns: seq<Turn>, k: nat)
    requires 5 <= k && k + 3 <= |turns| && forall j :: 0 <= j < |turns| ==> turns[j].ok
    requires Signal in turns[k].meanwhile && forall j :: 0 <= j < k ==> Signal !in turns[j].meanwhile
    ensures var w := WorkerProtocol.Run(Moves(turns));
      w.phase == Ended && Subscribed in w.log && Unregistered in w.log
  {
    hide Inv, Moves, WorkerProtocol.Run, Continue, Advances;
    FarewellOnGoodDay(turns, k);
    var end := Moves(turns[..k + 3]);
    var rest := MovesFrom(turns, k + 3);
    RunThen(end, rest);
    EveryRunIsLawful(end);
    var w := WorkerProtocol.Run(end);
    SilentAfterEnd(w, rest);
    assert WorkerProtocol.Run(Moves(turns)).log == w.log;
  }

  lemma FarewellOnGoodDay(turns: seq<Turn>, k: nat)
    requires 5 <= k && k + 3 <= |turns| && forall j :: 0 <= j < |turns| ==> turns[j].ok
    requires Signal in turns[k].meanwhile && forall j :: 0 <= j < k ==> Signal !in turns[j].meanwhile
    ensures var w := WorkerProtocol.Run(Moves(turns[..k + 3]));
      w.phase == Ended && Subscribed in w.log && Unregistered in w.log
  {
    hide Inv, Moves, WorkerProtocol.Run;
    GoodServing(turns, k);
    var w := BeforeStep(turns, k);
    ServingStep(w);
    assert WorkerProtocol.Run(Moves(turns[..k + 1])).phase == Unregistering;
    var w1 := BeforeStep(turns, k + 1);
    var w2 := BeforeStep(turns, k + 2);
    Farewell(turns, k, w1, w2);
  }

  lemma Farewell(turns: seq<Turn>, k: nat, w1: World, w2: World)
    requires k + 3 <= |turns| && turns[k + 1].ok && turns[k + 2].ok
    requires w1.phase == Unregistering && Inv(w1)
    requires WorkerProtocol.Run(Moves(turns[..k + 2])) == Step(w1, WorkerProtocol.Advance(true))
    requires w2.phase == Draining && Inv(w2)
    requires WorkerProtocol.Run(Moves(turns[..k + 3])) == Step(w2, WorkerProtocol.Advance(true))
    ensures var w := WorkerProtocol.Run(Moves(turns[..k + 3]));
      w.phase == Ended && Subscribed in w.log && Unregistered in w.log
  {
    var before := Moves(turns[..k + 2]);
    LastIn(w1.log, Unregistered);
    assert Unregistered in WorkerProtocol.Run(before).log;
    TurnTaken(turns, k + 2);
    RunSnoc(before + turns[k + 2].meanwhile, WorkerProtocol.Advance(true));
    RunThen(before, turns[k + 2].meanwhile + [WorkerProtocol.Advance(true)]);
    assert Moves(turns[..k + 3]) == before + (turns[k + 2].meanwhile + [WorkerProtocol.Advance(true)]);
    LogGrows(WorkerProtocol.Run(before), turns[k + 2].meanwhile + [WorkerProtocol.Advance(true)], Unregistered);
    EveryRunIsLawful(Moves(turns[..k + 3]));
  }

  lemma {:induction false} LogGrows(w: World, actions: seq<Action>, e: Entry)
    requires e in w.log
    ensures e in Continue(w, actions).log
    decreases |actions|
  {
    if actions != [] {
      StepKeepsEntry(w, actions[0], e);
      LogGrows(Step(w, actions[0]), actions[1..], e);
    }
  }

  lemma StepKeepsEntry(w: World, a: Action, e: Entry)
    requires e in w.log
    ensures e in Step(w, a).log
  {
  }

  // ----- the session --------------------------------------------------------------------

  lemma MoreWaits(start: seq<Entry>, n: nat, backoff: nat)
    requires backoff == RetryWait(n)
    ensures start + Waits(n) + [Waited(backoff)] == start + Waits(n + 1)
  {
  }

  class Worker {
    /** The outcomes of the session's awaits, in order; when they run out the session waits for ever. */
    const script: seq<Turn>
    var clock: nat

    var stop: bool
    var connected: bool
    var subscribed: bool
    var heartbeats: nat
    var handlers: seq<Handler>
    var bus: seq<Entry>

    /** Where the session is, and the steps of the protocol that were made so far. */
    ghost var phase: Phase
    ghost var taken: seq<Action>

    constructor (script: seq<Turn>)
      ensures this.script == script && clock == 0 && taken == [] && View() == START && Valid()
    {
      this.script, clock := script, 0;
      stop, connected, subscribed := false, false, false;
      heartbeats, handlers, bus := 0, [], [];
      phase, taken := Idle, [];
    }

    ghost function View(): World
      reads this
    {
      World(phase, stop, connected, subscribed, heartbeats, handlers, bus)
    }

    /** The worker is where a run of the protocol ends. */
    ghost predicate Follows()
      reads this
    {
      View() == WorkerProtocol.Run(taken)
    }

    /** It is the run that the script so far amounts to. */
    ghost predicate Valid()
      reads this
    {
      clock <= |script| && Follows() && taken == Moves(script[..clock])
    }

    /** The session's step that belongs to the latest turn is still to be taken. */
    ghost predicate InTurn(ok: bool)
      reads this
    {
      0 < clock <= |script| && ok == script[clock - 1].ok
      && taken == Moves(script[..clock - 1]) + script[clock - 1].meanwhile
    }

    /** The same, except that the head of the session loop is still to be executed. */
    ghost predicate AtLoopHead()
      reads this
    {
      clock <= |script| && !connected && LoopHead(View()) == WorkerProtocol.Run(taken)
      && taken == Moves(script[..clock])
    }

    /** Nothing but a stop can happen to a session that has not subscribed. */
    ghost predicate Alone()
      reads this
    {
      !subscribed && heartbeats == 0 && handlers == []
    }

    /** One stretch of another task: a signal, a heartbeat, a delivery, or a handler's next stretch. */
    method Interrupt(a: Interruption)
      requires Follows()
      modifies `stop, `handlers, `bus, `taken
      ensures Follows() && taken == old(taken) + [a]
      ensures old(Alone()) ==> Alone() && bus == old(bus)
      ensures stop <==> old(stop) || a.Signal?
    {
      RunSnoc(taken, a);
      match a {
        case Signal =>
          stop := true;
        case Beat(ok) =>
          if heartbeats > 0 && !stop && ok && connected {
            bus := bus + [Heartbeat];
          }
        case Deliver(payload) =>
          if subscribed {
            handlers := handlers + [Handler(payload, Decoding, false)];
          }
        case Handle(i, move) =>
          if i < |handlers| {
            var (h, sent) := HandlerStep(handlers[i], move, connected);
            handlers := handlers[i := h];
            if sent.Some? {
              bus := bus + [Task(i, sent.value)];
            }
          }
      }
      taken := taken + [a];
    }

    /** Wait for what the session awaits; `more` is false when it waits for ever. */
    method Await() returns (more: bool, ok: bool)
      requires Valid()
      modifies `stop, `handlers, `bus, `taken, `clock
      ensures if more then Follows() && InTurn(ok) && clock == old(clock) + 1
              else Valid() && clock == old(clock) == |script|
      ensures old(Alone()) ==> Alone() && bus == old(bus)
      ensures old(stop) ==> stop
      ensures more && Signal in script[old(clock)].meanwhile ==> stop
    {
      if clock == |script| {
        return false, false;
      }
      var turn := script[clock];
      for i := 0 to |turn.meanwhile|
        invariant Follows() && clock == old(clock)
        invariant taken == old(taken) + turn.meanwhile[..i]
        invariant old(Alone()) ==> Alone() && bus == old(bus)
        invariant stop <==> old(stop) || Signal in turn.meanwhile[..i]
      {
        Interrupt(turn.meanwhile[i]);
        assert turn.meanwhile[..i + 1] == turn.meanwhile[..i] + [turn.meanwhile[i]];
      }
      assert turn.meanwhile[..|turn.meanwhile|] == turn.meanwhile;
      clock := clock + 1;
      more, ok := true, turn.ok;
    }

    /** The session made the step of the protocol that it was to make next. */
    ghost method Advanced(before: World, ok: bool, next: Phase)
      requires InTurn(ok) && before == WorkerProtocol.Run(taken)
      requires View().(phase := next) == SessionStep(before, ok)
      modifies `phase, `taken
      ensures Valid() && phase == next
    {
      RunSnoc(taken, WorkerProtocol.Advance(ok));
      TurnTaken(script, clock - 1);
      taken := taken + [WorkerProtocol.Advance(ok)];
      phase := next;
    }

    /** One attempt to connect and, when it is refused, the wait after it; no outcome means try again. */
    method TryOnce(backoff: nat) returns (outcome: Option<ConnectOutcome>)
      requires Valid() && Alone() && !connected && phase == Attempting(backoff)
      modifies this
      ensures Valid() && Alone() && clock >= old(clock)
      ensures bus == old(bus) || bus == old(bus) + [Waited(backoff)]
      ensures match outcome
        case None => phase == Attempting(Min(backoff * 2, 30)) && bus != old(bus) && !connected && clock > old(clock)
        case Some(Accepted) => phase == Registering && connected && bus == old(bus)
        case Some(Stopped) => phase == Cooling && stop && !connected && bus != old(bus)
        case Some(Suspended) => clock == |script| && phase != Ended
    {
      var more, ok := Await();
      if !more {
        return Some(Suspended);
      }
      ghost var before := View();
      if ok {
        connected := true;
        Advanced(before, true, Registering);
        return Some(Accepted);
      }
      bus := bus + [Waited(backoff)];
      Advanced(before, false, Backing(backoff));
      outcome := WaitOut(backoff);
    }

    method WaitOut(backoff: nat) returns (outcome: Option<ConnectOutcome>)
      requires Valid() && Alone() && !connected && phase == Backing(backoff)
      modifies this
      ensures Valid() && Alone() && clock >= old(clock) && bus == old(bus) && !connected
      ensures match outcome
        case None => phase == Attempting(Min(backoff * 2, 30)) && clock > old(clock)
        case Some(end) =>
          if end.Stopped? then phase == Cooling && stop else end.Suspended? && clock == |script| && phase != Ended
    {
      var more, ok := Await();
      if !more {
        return Some(Suspended);
      }
      if stop {
        Advanced(View(), ok, Cooling);
        return Some(Stopped);
      }
      Advanced(View(), ok, Attempting(Min(backoff * 2, 30)));
      return None;
    }

    /**
     The connect call: retry with a backoff that doubles up to 30 seconds until the server accepts
     or stop is set. It logs exactly its own waits, the n-th of them min(2^n, 30) seconds long.
     */
    method Connect() returns (outcome: ConnectOutcome)
      requires AtLoopHead() && !stop && Alone()
      modifies this
      ensures Valid() && Alone() && clock >= old(clock)
      ensures exists n: nat :: bus == old(bus) + [Connecting] + Waits(n)
      ensures match outcome
        case Accepted => phase == Registering && connected
        case Stopped => phase == Cooling && stop && !connected
        case Suspended => clock == |script| && phase != Ended
    {
      bus := bus + [Connecting];
      phase := Attempting(1);
      var backoff: nat := 1;
      ghost var n: nat := 0;
      ghost var start := bus;
      assert start + Waits(0) == start;
      while true
        invariant Valid() && Alone() && !connected && clock >= old(clock)
        invariant phase == Attempting(backoff) && backoff == RetryWait(n)
        invariant bus == start + Waits(n)
        decreases |script| - clock
      {
        hide LoopHead, SessionStep, RetryWait;
        var end := TryOnce(backoff);
        MoreWaits(start, n, backoff);
        if end.Some? {
          return end.value;
        }
        RetryWaitDoubles(n);
        n, backoff := n + 1, Min(backoff * 2, 30);
      }
    }

    /** The session is back at the head of its loop. */
    ghost method LoopsBack(before: World, ok: bool)
      requires InTurn(ok) && before == WorkerProtocol.Run(taken) && !connected
      requires LoopHead(View()) == SessionStep(before, ok)
      modifies `taken
      ensures AtLoopHead()
    {
      RunSnoc(taken, WorkerProtocol.Advance(ok));
      TurnTaken(script, clock - 1);
      taken := taken + [WorkerProtocol.Advance(ok)];
    }

    /** Register, then the hook for a registered worker. */
    method Register() returns (more: bool, ok: bool)
      requires Valid() && phase == Registering && Alone()
      modifies this
      ensures Valid() && Alone() && clock >= old(clock)
      ensures if more then phase == (if ok then Subscribing else Cooling) else clock == |script| && phase != Ended
    {
      hide Moves;
      more, ok := Await();
      if !more {
        return;
      }
      ghost var before := View();
      if !ok {
        Advanced(before, false, Cooling);
        return;
      }
      bus := bus + [Registered];
      Advanced(before, true, Greeting);
      more, ok := Await();
      if more {
        Advanced(View(), ok, if ok then Subscribing else Cooling);
      }
    }

    /** Subscribe to the worker's tasks and start its heartbeat loop. */
    method Subscribe() returns (more: bool, ok: bool)
      requires Valid() && phase == Subscribing && Alone()
      modifies this
      ensures Valid() && clock >= old(clock)
      ensures if more then phase == (if ok then Serving else Cooling) else clock == |script| && phase != Ended
      ensures more && !ok ==> Alone()
    {
      more, ok := Await();
      if more {
        ghost var before := View();
        if ok {
          subscribed := true;
          bus := bus + [Subscribed];
          heartbeats := heartbeats + 1;
        }
        Advanced(before, ok, if ok then Serving else Cooling);
      }
    }

    /** Wait until stop is set, then cancel the heartbeat loop. */
    method WaitForStop() returns (more: bool)
      requires Valid() && phase == Serving
      modifies this
      ensures Valid() && clock >= old(clock)
      ensures if more then phase == Unregistering && stop else clock == |script| && phase != Ended
    {
      hide Moves;
      while true
        invariant Valid() && phase == Serving && clock >= old(clock)
        decreases |script| - clock
      {
        var ok;
        more, ok := Await();
        if !more {
          return;
        }
        ghost var before := View();
        if stop {
          EveryRunIsLawful(taken);
          heartbeats := heartbeats - 1;
          Advanced(before, ok, Unregistering);
          return;
        }
        Advanced(before, ok, Serving);
      }
    }

    /** Publish the farewell; that it fails is only logged. */
    method Unregister() returns (more: bool)
      requires Valid() && phase == Unregistering && stop
      modifies this
      ensures Valid() && clock >= old(clock) && stop
      ensures if more then phase == Draining else clock == |script| && phase != Ended
    {
      var ok;
      more, ok := Await();
      if more {
        ghost var before := View();
        if ok {
          bus := bus + [Unregistered];
        }
        Advanced(before, ok, Draining);
      }
    }

    method Drain() returns (more: bool, ok: bool)
      requires Valid() && phase == Draining && stop
      modifies this
      ensures Valid() && clock >= old(clock) && stop
      ensures if more then phase == (if ok then Ended else Cooling) else clock == |script| && phase != Ended
    {
      more, ok := Await();
      if more {
        ghost var before := View();
        if ok {
          connected, subscribed := false, false;
        }
        Advanced(before, ok, if ok then Ended else Cooling);
      }
    }

    /** Serve until stop, then say farewell and drain the connection. */
    method Serve() returns (more: bool, ok: bool)
      requires Valid() && phase == Serving
      modifies this
      ensures Valid() && clock >= old(clock)
      ensures if more then phase == (if ok then Ended else Cooling) && stop else clock == |script| && phase != Ended
    {
      ok := false;
      more := WaitForStop();
      if more {
        more := Unregister();
        if more {
          more, ok := Drain();
        }
      }
    }

    /** One session on an accepted connection, up to its end or its failure. */
    method Session() returns (more: bool, ok: bool)
      requires Valid() && phase == Registering && Alone()
      modifies this
      ensures Valid() && clock >= old(clock)
      ensures if more then phase == (if ok then Ended else Cooling) else clock == |script| && phase != Ended
      ensures more && !ok ==> stop || Alone()
    {
      more, ok := Register();
      if more && ok {
        more, ok := Subscribe();
        if more && ok {
          more, ok := Serve();
        }
      }
    }

    /** One turn of the session loop, up to its end or its failure. */
    method ConnectAndServe() returns (more: bool, ok: bool)
      requires AtLoopHead() && !stop && Alone()
      modifies this
      ensures Valid() && clock >= old(clock)
      ensures if more then phase == (if ok then Ended else Cooling) else clock == |script| && phase != Ended
      ensures more && !ok ==> stop || Alone()
    {
      var outcome := Connect();
      more, ok := !outcome.Suspended?, false;
      if outcome.Accepted? {
        more, ok := Session();
      }
    }

    /** The pause after a failed session; the connection is forgotten only then. */
    method SleepOff() returns (more: bool)
      requires Valid() && phase == Cooling && (stop || Alone())
      modifies this
      ensures if more then AtLoopHead() && clock > old(clock) else Valid() && clock == |script| && phase != Ended
      ensures stop || Alone()
    {
      hide Moves;
      var ok;
      more, ok := Await();
      if more {
        ghost var before := View();
        connected := false;
        LoopsBack(before, ok);
      }
    }

    /**
     The session loop: connect and serve; after a failure sleep and start over, until stop. It
     returns when the run has ended or the world stops answering.
     */
    method Sessions() returns (finished: bool)
      requires AtLoopHead() && Alone()
      modifies this
      ensures Valid()
      ensures if finished then phase == Ended else clock == |script| && phase != Ended
    {
      while !stop
        invariant AtLoopHead() && (stop || Alone())
        decreases |script| - clock
      {
        hide Alone;
        var more, ok := ConnectAndServe();
        if more && ok {
          return true;
        }
        if more {
          more := SleepOff();
        }
        if !more {
          return false;
        }
      }
      subscribed, phase := false, Ended;
      return true;
    }

    /**
     The worker's run. Whatever the world does, what the worker logs is the log of the protocol's
     run that the script amounts to, so it is lawful; it returns when that run has ended, and it
     always has once a signal has come and eight turns follow.
     */
    method Run() returns (finished: bool)
      requires Valid() && phase == Idle && taken == [] && Alone()
      modifies this
      ensures Valid() && Lawful(bus) && bus == WorkerProtocol.Run(Moves(script)).log
      ensures finished <==> WorkerProtocol.Run(Moves(script)).phase == Ended
      ensures finished <==> phase == Ended
      ensures (exists k: nat :: k + 8 <= |script| && Signal in script[k].meanwhile) ==> finished
    {
      var more, ok := Await();
      if !more {
        finished := false;
      } else if !ok {
        Advanced(View(), false, Ended);
        finished := true;
      } else {
        EveryRunIsLawful(taken);
        LoopsBack(View(), true);
        finished := Sessions();
      }
      EveryRunIsLawful(taken);
      RestIsSilent(finished);
    }

    /** What is left of the script when the run has ended adds nothing; when it has not, nothing is left. */
    lemma RestIsSilent(finished: bool)
      requires Valid() && if finished then phase == Ended else clock == |script| && phase != Ended
      ensures bus == WorkerProtocol.Run(Moves(script)).log
      ensures finished <==> WorkerProtocol.Run(Moves(script)).phase == Ended
      ensures (exists k: nat :: k + 8 <= |script| && Signal in script[k].meanwhile) ==> finished
    {
      if finished {
        var rest := MovesFrom(script, clock);
        EveryRunIsLawful(taken);
        SilentAfterEnd(View(), rest);
        RunThen(taken, rest);
      } else {
        assert script[..clock] == script;
      }
      if k: nat :| k + 8 <= |script| && Signal in script[k].meanwhile {
        SignalFinishes(script, k);
      }
    }
  }
}
