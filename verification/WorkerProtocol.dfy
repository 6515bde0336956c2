/**
 The bot worker: one session task, one heartbeat loop and any number of message handlers that
 run concurrently between `await` points. Every action below is one such stretch; a publish
 either reaches the bus or raises.
 */
module WorkerProtocol {
  import opened Sequences

  // ----- one message handler ------------------------------------------------------------

  /**
   What a message turns out to be. For an object, `typeIsTask`, `taskId` and `accepted` speak of
   the task inside it, or of the object itself when it wraps none: validation and the error
   path pick the same one.
   */
  datatype Payload =
    | Undecodable
    | NotAnObject
    | Object(typeIsTask: bool, taskId: string, accepted: bool)

  datatype Kind = Acked | Started | Progress | Completed | Failed

  predicate IsTerminal(k: Kind) { k == Completed || k == Failed }

  datatype Pc = Decoding | Acking | Starting | Working | Completing | Failing | Finished

  /** `lost` records that some publish of this handler did not reach the bus. */
  datatype Handler = Handler(payload: Payload, pc: Pc, lost: bool)

  /** `Report`, `Return` and `Raise` are what the task-specific code may do while it works. */
  datatype Move = Proceed(ok: bool) | Report(ok: bool) | Return(good: bool) | Raise

  predicate MayFail(p: Payload) { p.Object? && p.typeIsTask }

  /** The `except` branch: report a failure if the message was recognisably a task. */
  function AfterError(h: Handler): Handler {
    h.(pc := if MayFail(h.payload) then Failing else Finished)
  }

  /** Publish one message; on failure continue as `otherwise`. */
  function Publishing(h: Handler, sent: bool, kind: Kind, next: Pc, otherwise: Handler): (Handler, Option<Kind>) {
    if sent then (h.(pc := next), Some(kind)) else (otherwise.(lost := true), None)
  }

  function HandlerStep(h: Handler, move: Move, connected: bool): (Handler, Option<Kind>) {
    match (h.pc, move)
    case (Decoding, Proceed(_)) =>
      if h.payload.Object? && h.payload.accepted
      then (h.(pc := if h.payload.taskId != "" then Acking else Starting), None)
      else (AfterError(h), None)
    case (Acking, Proceed(ok)) => Publishing(h, ok && connected, Acked, Starting, AfterError(h))
    case (Starting, Proceed(ok)) => Publishing(h, ok && connected, Started, Working, AfterError(h))
    case (Working, Report(ok)) => Publishing(h, ok && connected, Progress, Working, h)
    case (Working, Return(good)) => (if good then h.(pc := Completing) else AfterError(h), None)
    case (Working, Raise) => (AfterError(h), None)
    case (Completing, Proceed(ok)) => Publishing(h, ok && connected, Completed, Finished, AfterError(h))
    case (Failing, Proceed(ok)) => Publishing(h, ok && connected, Failed, Finished, h.(pc := Finished))
    case _ => (h, None)
  }

  // ----- the whole worker ---------------------------------------------------------------

  /** What can be observed, in order: bus messages, and the session's connects and waits. */
  datatype Entry =
    | Connecting
    | Waited(seconds: nat)
    | Registered
    | Subscribed
    | Heartbeat
    | Unregistered
    | Task(handler: nat, kind: Kind)

  datatype Phase =
    | Idle
    | Attempting(backoff: nat)
    | Backing(backoff: nat)
    | Registering
    | Greeting
    | Subscribing
    | Serving
    | Unregistering
    | Draining
    | Cooling
    | Ended

  datatype World = World(
    phase: Phase, stop: bool, connected: bool, subscribed: bool, heartbeats: nat,
    handlers: seq<Handler>, log: seq<Entry>)

  datatype Action =
    | Signal
    | Advance(ok: bool)
    | Beat(ok: bool)
    | Deliver(payload: Payload)
    | Handle(i: nat, move: Move)

  const START: World := World(Idle, false, false, false, 0, [], [])

  /** The head of the session loop: leave when stopped, else call connect with a fresh backoff. */
  function LoopHead(w: World): World {
    if w.stop then w.(phase := Ended, connected := false, subscribed := false)
    else w.(phase := Attempting(1), connected := false, log := w.log + [Connecting])
  }

  /** One stretch of the session task; `ok` is the outcome of what it awaited. */
  function SessionStep(w: World, ok: bool): World {
    match w.phase
    case Idle => if ok then LoopHead(w) else w.(phase := Ended)
    case Attempting(b) =>
      if ok then w.(phase := Registering, connected := true)
      else w.(phase := Backing(b), log := w.log + [Waited(b)])
    case Backing(b) => if w.stop then w.(phase := Cooling) else w.(phase := Attempting(Min(b * 2, 30)))
    case Registering =>
      if ok then w.(phase := Greeting, log := w.log + [Registered]) else w.(phase := Cooling)
    case Greeting => if ok then w.(phase := Subscribing) else w.(phase := Cooling)
    case Subscribing =>
      if ok then w.(phase := Serving, subscribed := true, heartbeats := w.heartbeats + 1, log := w.log + [Subscribed])
      else w.(phase := Cooling)
    case Serving =>
      if w.stop && w.heartbeats > 0 then w.(phase := Unregistering, heartbeats := w.heartbeats - 1) else w
    case Unregistering =>
      w.(phase := Draining, log := if ok then w.log + [Unregistered] else w.log)
    case Draining =>
      if ok then w.(phase := Ended, connected := false, subscribed := false) else w.(phase := Cooling)
    case Cooling => LoopHead(w)
    case Ended => w
  }

  function Step(w: World, a: Action): World {
    match a
    case Signal => w.(stop := true)
    case Advance(ok) => SessionStep(w, ok)
    case Beat(ok) =>
      if w.heartbeats > 0 && !w.stop && ok && w.connected then w.(log := w.log + [Heartbeat]) else w
    case Deliver(payload) =>
      if w.subscribed then w.(handlers := w.handlers + [Handler(payload, Decoding, false)]) else w
    case Handle(i, move) =>
      if i >= |w.handlers| then w
      else
        var (h, sent) := HandlerStep(w.handlers[i], move, w.connected);
        w.(handlers := w.handlers[i := h], log := if sent.Some? then w.log + [Task(i, sent.value)] else w.log)
  }

  function Run(actions: seq<Action>): World {
    if actions == [] then START else Step(Run(actions[..|actions| - 1]), actions[|actions| - 1])
  }

  function Continue(w: World, actions: seq<Action>): World
    decreases |actions|
  {
    if actions == [] then w else Continue(Step(w, actions[0]), actions[1..])
  }

  // ----- the law of the log -------------------------------------------------------------

  function Pow2(n: nat): nat { if n == 0 then 1 else 2 * Pow2(n - 1) }

  /** The n-th retry wait of one connect call, counting from zero. */
  function RetryWait(n: nat): nat { Min(Pow2(n), 30) }

  function TrailingWaits(log: seq<Entry>): (n: nat)
    ensures n <= |log|
  {
    if log == [] || !log[|log| - 1].Waited? then 0 else 1 + TrailingWaits(log[..|log| - 1])
  }

  /** The log ends inside a connect call that has waited n times. */
  predicate InConnect(log: seq<Entry>, n: nat) {
    TrailingWaits(log) == n < |log| && log[|log| - 1 - n] == Connecting
  }

  /** When an entry may follow what is in the log already. */
  predicate MayFollow(log: seq<Entry>, e: Entry) {
    match e
    case Connecting => Subscribed !in log
    case Waited(s) => Subscribed !in log && InConnect(log, TrailingWaits(log)) && s == RetryWait(TrailingWaits(log))
    case Registered => Subscribed !in log && InConnect(log, TrailingWaits(log))
    case Subscribed => log != [] && log[|log| - 1] == Registered && Subscribed !in log
    case Heartbeat => Subscribed in log && Unregistered !in log
    case Unregistered => Subscribed in log && Unregistered !in log
    case Task(_, _) => Subscribed in log
  }

  ghost predicate Lawful(log: seq<Entry>) {
    forall j :: 0 <= j < |log| ==> MayFollow(log[..j], log[j])
  }

  predicate PhaseAgrees(w: World) {
    && w.heartbeats == (if w.phase == Serving then 1 else 0)
    && (w.subscribed || w.handlers != [] ==> Subscribed in w.log)
    && (Unregistered in w.log ==> Subscribed in w.log)
    && match w.phase
       case Idle => w.log == [] && !w.connected
       case Attempting(b) =>
         var n := TrailingWaits(w.log);
         !(Subscribed in w.log) && InConnect(w.log, n) && b == RetryWait(n)
       case Backing(b) =>
         var n := TrailingWaits(w.log);
         !(Subscribed in w.log) && n > 0 && InConnect(w.log, n) && b == RetryWait(n - 1)
       case Registering => !(Subscribed in w.log) && InConnect(w.log, TrailingWaits(w.log))
       case Greeting => !(Subscribed in w.log) && w.log != [] && w.log[|w.log| - 1] == Registered
       case Subscribing => !(Subscribed in w.log) && w.log != [] && w.log[|w.log| - 1] == Registered
       case Serving => Subscribed in w.log && Unregistered !in w.log
       case Unregistering => Subscribed in w.log && Unregistered !in w.log && w.stop
       case Draining => Subscribed in w.log && w.stop
       case Cooling => Subscribed in w.log ==> w.stop
       case Ended => !w.connected && !w.subscribed
  }

  ghost predicate Inv(w: World) { Lawful(w.log) && PhaseAgrees(w) }

  lemma LawfulAppend(log: seq<Entry>, e: Entry)
    requires Lawful(log) && MayFollow(log, e)
    ensures Lawful(log + [e])
    ensures forall x :: x in log + [e] <==> x in log || x == e
  {
    forall j | 0 <= j < |log| + 1
      ensures MayFollow((log + [e])[..j], (log + [e])[j])
    {
      assert (log + [e])[..j] == if j < |log| then log[..j] else log;
    }
  }

  lemma TrailingWaitsAppend(log: seq<Entry>, e: Entry)
    ensures TrailingWaits(log + [e]) == if e.Waited? then 1 + TrailingWaits(log) else 0
    ensures e == Connecting ==> InConnect(log + [e], 0)
    ensures e.Waited? && InConnect(log, TrailingWaits(log)) ==> InConnect(log + [e], 1 + TrailingWaits(log))
  {
    assert (log + [e])[..|log|] == log;
  }

  lemma LoopHeadKeepsInv(w: World)
    requires Lawful(w.log) && w.heartbeats == 0 && (w.subscribed || w.handlers != [] ==> Subscribed in w.log)
    requires Unregistered in w.log ==> Subscribed in w.log
    requires Subscribed in w.log ==> w.stop
    ensures Inv(LoopHead(w))
  {
    if !w.stop {
      LawfulAppend(w.log, Connecting);
      TrailingWaitsAppend(w.log, Connecting);
    }
  }

  lemma RefusalKeepsInv(w: World)
    requires Inv(w) && w.phase.Attempting?
    ensures Inv(SessionStep(w, false))
  {
    hide Lawful, InConnect, TrailingWaits, RetryWait;
    var b := w.phase.backoff;
    RefusalMayFollow(w.log, b);
    LawfulAppend(w.log, Waited(b));
    TrailingWaitsAppend(w.log, Waited(b));
  }

  lemma RefusalMayFollow(log: seq<Entry>, b: nat)
    requires Subscribed !in log && InConnect(log, TrailingWaits(log)) && b == RetryWait(TrailingWaits(log))
    ensures MayFollow(log, Waited(b))
  {
  }

  lemma RegistrationKeepsInv(w: World)
    requires Inv(w) && w.phase == Registering
    ensures Inv(SessionStep(w, true))
  {
    LawfulAppend(w.log, Registered);
    assert SessionStep(w, true) == w.(phase := Greeting, log := w.log + [Registered]);
  }

  lemma SubscriptionKeepsInv(w: World)
    requires Inv(w) && w.phase == Subscribing
    ensures Inv(SessionStep(w, true))
  {
    LawfulAppend(w.log, Subscribed);
    assert SessionStep(w, true).log == w.log + [Subscribed];
  }

  lemma UnregistrationKeepsInv(w: World)
    requires Inv(w) && w.phase == Unregistering
    ensures Inv(SessionStep(w, true))
  {
    LawfulAppend(w.log, Unregistered);
    assert SessionStep(w, true) == w.(phase := Draining, log := w.log + [Unregistered]);
  }

  lemma RetryWaitDoubles(n: nat)
    ensures RetryWait(n + 1) == Min(RetryWait(n) * 2, 30)
  {
  }

  lemma SessionStepKeepsInv(w: World, ok: bool)
    requires Inv(w)
    ensures Inv(SessionStep(w, ok))
  {
    hide Lawful, InConnect, TrailingWaits, RetryWait, MayFollow;
    match w.phase
    case Idle => if ok { LoopHeadKeepsInv(w); }
    case Attempting(_) => if !ok { RefusalKeepsInv(w); }
    case Backing(_) => RetryWaitDoubles(TrailingWaits(w.log) - 1);
    case Registering => if ok { RegistrationKeepsInv(w); }
    case Subscribing => if ok { SubscriptionKeepsInv(w); }
    case Unregistering => if ok { UnregistrationKeepsInv(w); }
    case Cooling => LoopHeadKeepsInv(w);
    case _ =>
  }

  lemma StepKeepsInv(w: World, a: Action)
    requires Inv(w)
    ensures Inv(Step(w, a))
  {
    match a
    case Advance(ok) => SessionStepKeepsInv(w, ok);
    case Beat(ok) => if Step(w, a) != w { LawfulAppend(w.log, Heartbeat); }
    case Handle(i, move) =>
      if i < |w.handlers| {
        var sent := HandlerStep(w.handlers[i], move, w.connected).1;
        if sent.Some? {
          assert w.connected;
          LawfulAppend(w.log, Task(i, sent.value));
        }
      }
    case _ =>
  }

  lemma {:induction false} EveryRunIsLawful(actions: seq<Action>)
    ensures Inv(Run(actions))
  {
    if actions != [] {
      EveryRunIsLawful(actions[..|actions| - 1]);
      StepKeepsInv(Run(actions[..|actions| - 1]), actions[|actions| - 1]);
    }
  }
}
