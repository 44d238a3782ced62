// Host-side command dispatch as a transition system. Any number of callers, one dispatcher task, the
// pending table behind its lock, one bounded queue per call and one for unmatched messages. Each step is
// what one task does between two points where another task may run; the table's lock is explicit.
module Dispatch {
  import opened Wrappers

  type Identifier = nat

  const COMMAND_EVENT_BUFFER := 16
  const MESSAGE_BUFFER := 64

  datatype ErrorCode = ErrorCode(code: nat)

  datatype Event =
    | Failure(error: ErrorCode)
    | Log(output: string)
    | TransitionStart(transition: nat)
    | TransitionEnd(transition: nat, state: nat)
    | Other(content: nat)

  datatype EventMessage = EventMessage(context: Option<Identifier>, resource: Option<nat>, event: Event)

  datatype Message = CommandMessage(identifier: Identifier) | Evt(event: EventMessage)

  /** What `execute_command_with_timeout_until` returns. */
  datatype Outcome =
    | Response(event: EventMessage)
    | DeviceError(error: ErrorCode)
    | SendError
    | ChannelClosed
    | Timeout

  /** Where a call is. It waits for the table's lock in `Registering` and `Leaving`, holds it in
      `Pushing` and `Removing`, and owns an open receiver until `Done` or `Cancelled`. */
  datatype Phase =
    | Registering
    | Pushing
    | Sending
    | Waiting
    | Leaving(outcome: Outcome)
    | Removing(outcome: Outcome)
    | Returning(outcome: Outcome)
    | Done(outcome: Outcome)
    | Cancelled

  /** `consumed` and `discarded` record what the receiver took and what was left when it was dropped. */
  datatype Call = Call(phase: Phase, queue: seq<EventMessage>, consumed: seq<EventMessage>,
                       discarded: seq<EventMessage>, terminal: EventMessage -> bool)

  /** Where the dispatcher task is, with the message it has in hand. It waits for the lock in `Matching`
      and `Evicting`, and holds it in `Pruning`, `Finding` and `Purging`. */
  datatype Dispatcher =
    | Receiving
    | Stopped
    | Matching(event: EventMessage)
    | Pruning(event: EventMessage)
    | Finding(event: EventMessage)
    | Delivering(event: EventMessage)
    | Evicting(event: EventMessage)
    | Purging(event: EventMessage)
    | Forwarding(message: Message)

  datatype Lock = Free | ByDispatcher | ByCall(holder: Identifier)

  datatype Fate = Delivered(to: Identifier) | Queued | Logged | Dropped | Lost

  datatype Settled = Settled(message: Message, fate: Fate)

  datatype State = State(
    calls: map<Identifier, Call>,
    pending: seq<Identifier>,
    lock: Lock,
    dispatcher: Dispatcher,
    unmatched: seq<Message>,
    taken: seq<Message>,
    logging: bool,
    sent: set<Identifier>,
    history: seq<Settled>)

  const Initial: State := State(map[], [], Free, Stopped, [], [], false, {}, [])

  datatype Step =
    | Start(c: Identifier, terminal: EventMessage -> bool)
    | CallLock(c: Identifier)
    | CallPush(c: Identifier)
    | Transmit(c: Identifier)
    | SendReturns(c: Identifier, ok: bool)
    | CallReceive(c: Identifier)
    | CallChannelClosed(c: Identifier)
    | Deadline(c: Identifier)
    | CallRemove(c: Identifier)
    | CallReturn(c: Identifier)
    | Cancel(c: Identifier)
    | Receive(message: Message)
    | ReceiveFails
    | MatchLock
    | Prune
    | Find
    | Deliver
    | DeliverFails
    | EvictLock
    | Purge
    | Forward
    | Abort
    | Restart
    | EnableLogging
    | NextMessage

  // ---------- Observations ----------

  predicate IsOpen(k: Call) {
    !k.phase.Done? && !k.phase.Cancelled?
  }

  /** Before its registration is in the table. */
  predicate Unsent(p: Phase) {
    p.Registering? || p.Pushing?
  }

  /** Between pushing the registration and removing it. */
  predicate Registered(p: Phase) {
    p.Sending? || p.Waiting? || p.Leaving? || p.Removing?
  }

  predicate HoldsLock(p: Phase) {
    p.Pushing? || p.Removing?
  }

  predicate DispatcherHoldsLock(d: Dispatcher) {
    d.Pruning? || d.Finding? || d.Purging?
  }

  function Context(m: Message): Option<Identifier> {
    if m.Evt? then m.event.context else None
  }

  /** The message obtained from the connection whose fate is not settled yet. */
  function InHand(d: Dispatcher): Option<Message> {
    match d
    case Receiving => None
    case Stopped => None
    case Forwarding(m) => Some(m)
    case Matching(e) => Some(Evt(e))
    case Pruning(e) => Some(Evt(e))
    case Finding(e) => Some(Evt(e))
    case Delivering(e) => Some(Evt(e))
    case Evicting(e) => Some(Evt(e))
    case Purging(e) => Some(Evt(e))
  }

  predicate DeliveringTo(s: State, c: Identifier) {
    s.dispatcher.Delivering? && s.dispatcher.event.context == Some(c)
  }

  /** The call's channel still has a sender: its registration, or the dispatcher's clone of it. */
  predicate HasSender(s: State, c: Identifier) {
    c in s.pending || DeliveringTo(s, c)
  }

  predicate Seen(s: State, c: Identifier) {
    (InHand(s.dispatcher).Some? && Context(InHand(s.dispatcher).value) == Some(c)) ||
    exists i :: 0 <= i < |s.history| && Context(s.history[i].message) == Some(c)
  }

  /** An event that ends the wait of a call: an error, or whatever the caller calls terminal. */
  predicate Decisive(k: Call, e: EventMessage) {
    e.event.Failure? || k.terminal(e)
  }

  function Without(pending: seq<Identifier>, c: Identifier): (r: seq<Identifier>)
    ensures forall d :: d in r <==> d in pending && d != c
  {
    if pending == [] then []
    else (if pending[0] == c then [] else [pending[0]]) + Without(pending[1..], c)
  }

  function KeepOpen(pending: seq<Identifier>, calls: map<Identifier, Call>): (r: seq<Identifier>)
    ensures forall d :: d in r <==> d in pending && d in calls && IsOpen(calls[d])
  {
    if pending == [] then []
    else
      (if pending[0] in calls && IsOpen(calls[pending[0]]) then [pending[0]] else []) + KeepOpen(pending[1..], calls)
  }

  // ---------- Steps ----------

  predicate Enabled(s: State, t: Step) {
    match t
    // Command identifiers are fresh: never used before and never seen in a message.
    case Start(c, _) => c !in s.calls && !Seen(s, c)
    case CallLock(c) => c in s.calls && (s.calls[c].phase.Registering? || s.calls[c].phase.Leaving?) && s.lock.Free?
    case CallPush(c) => c in s.calls && s.calls[c].phase.Pushing?
    case Transmit(c) => c in s.calls && !Unsent(s.calls[c].phase)
    case SendReturns(c, _) => c in s.calls && s.calls[c].phase.Sending?
    case CallReceive(c) => c in s.calls && s.calls[c].phase.Waiting? && s.calls[c].queue != []
    case CallChannelClosed(c) =>
      c in s.calls && s.calls[c].phase.Waiting? && s.calls[c].queue == [] && !HasSender(s, c)
    case Deadline(c) => c in s.calls && s.calls[c].phase.Waiting?
    case CallRemove(c) => c in s.calls && s.calls[c].phase.Removing?
    case CallReturn(c) => c in s.calls && s.calls[c].phase.Returning?
    // A caller's future can be dropped wherever it waits.
    case Cancel(c) =>
      c in s.calls && (s.calls[c].phase.Registering? || s.calls[c].phase.Sending? ||
                       s.calls[c].phase.Waiting? || s.calls[c].phase.Leaving?)
    // The device answers only commands it has received.
    case Receive(m) =>
      s.dispatcher.Receiving? && (Context(m).Some? && Context(m).value in s.calls ==> Context(m).value in s.sent)
    case ReceiveFails => s.dispatcher.Receiving?
    case MatchLock => s.dispatcher.Matching? && s.lock.Free?
    case Prune => s.dispatcher.Pruning?
    case Find => s.dispatcher.Finding?
    case Deliver =>
      s.dispatcher.Delivering? && s.dispatcher.event.context.Some? &&
      var c := s.dispatcher.event.context.value;
      c in s.calls && IsOpen(s.calls[c]) && |s.calls[c].queue| < COMMAND_EVENT_BUFFER
    case DeliverFails =>
      s.dispatcher.Delivering? && s.dispatcher.event.context.Some? &&
      var c := s.dispatcher.event.context.value;
      c in s.calls && !IsOpen(s.calls[c])
    case EvictLock => s.dispatcher.Evicting? && s.lock.Free?
    case Purge => s.dispatcher.Purging? && s.dispatcher.event.context.Some?
    case Forward => s.dispatcher.Forwarding?
    // A task is aborted where it waits.
    case Abort =>
      s.dispatcher.Receiving? || s.dispatcher.Matching? || s.dispatcher.Delivering? || s.dispatcher.Evicting?
    case Restart => s.dispatcher.Stopped?
    case EnableLogging => true
    case NextMessage => s.unmatched != []
  }

  /** What the receive loop does with the next event of its queue. */
  function Consume(c: Identifier, k: Call): Call
    requires k.queue != []
  {
    var e := k.queue[0];
    var rest := k.(queue := k.queue[1..], consumed := k.consumed + [e]);
    if e.context != Some(c) then rest
    else if e.event.Failure? then rest.(phase := Leaving(DeviceError(e.event.error)))
    else if k.terminal(e) then rest.(phase := Leaving(Response(e)))
    else rest
  }

  function DropReceiver(k: Call, p: Phase): Call {
    k.(phase := p, queue := [], discarded := k.queue)
  }

  function Settle(s: State, m: Message, fate: Fate): State {
    s.(dispatcher := Receiving, history := s.history + [Settled(m, fate)])
  }

  /** Log events are printed once logging is on; everything else is queued unless the queue is full. */
  function ForwardFate(s: State, m: Message): Fate {
    if m.Evt? && m.event.event.Log? && s.logging then Logged
    else if |s.unmatched| < MESSAGE_BUFFER then Queued
    else Dropped
  }

  function ForwardUnmatched(s: State, m: Message): State {
    var fate := ForwardFate(s, m);
    Settle(s, m, fate).(unmatched := if fate == Queued then s.unmatched + [m] else s.unmatched)
  }

  /** Steps that touch one call's own record, the table and its lock, and nothing else. */
  predicate IsCallStep(t: Step) {
    t.CallLock? || t.CallPush? || t.SendReturns? || t.CallReceive? || t.CallChannelClosed? || t.Deadline? ||
    t.CallRemove? || t.CallReturn? || t.Cancel?
  }

  function NextCall(c: Identifier, k: Call, t: Step): Call {
    match t
    case CallLock(_) =>
      if k.phase.Registering? then k.(phase := Pushing)
      else if k.phase.Leaving? then k.(phase := Removing(k.phase.outcome))
      else k
    case CallPush(_) => k.(phase := Sending)
    case SendReturns(_, ok) => k.(phase := if ok then Waiting else Leaving(SendError))
    case CallReceive(_) => if k.queue != [] then Consume(c, k) else k
    case CallChannelClosed(_) => k.(phase := Leaving(ChannelClosed))
    case Deadline(_) => k.(phase := Leaving(Timeout))
    case CallRemove(_) => if k.phase.Removing? then k.(phase := Returning(k.phase.outcome)) else k
    case CallReturn(_) => if k.phase.Returning? then DropReceiver(k, Done(k.phase.outcome)) else k
    case Cancel(_) => DropReceiver(k, Cancelled)
    case _ => k
  }

  function NextPending(pending: seq<Identifier>, t: Step): seq<Identifier> {
    match t
    case CallPush(c) => pending + [c]
    case CallRemove(c) => Without(pending, c)
    case _ => pending
  }

  function NextLock(lock: Lock, t: Step): Lock {
    match t
    case CallLock(c) => ByCall(c)
    case CallPush(_) => Free
    case CallRemove(_) => Free
    case _ => lock
  }

  function Apply(s: State, t: Step): State
    requires Enabled(s, t)
  {
    if IsCallStep(t) then
      s.(calls := s.calls[t.c := NextCall(t.c, s.calls[t.c], t)],
         pending := NextPending(s.pending, t),
         lock := NextLock(s.lock, t))
    else match t
    case Start(c, terminal) => s.(calls := s.calls[c := Call(Registering, [], [], [], terminal)])
    case Transmit(c) => s.(sent := s.sent + {c})
    case Receive(m) => s.(dispatcher := if Context(m).Some? then Matching(m.event) else Forwarding(m))
    case ReceiveFails => s.(dispatcher := Stopped)
    case MatchLock => s.(dispatcher := Pruning(s.dispatcher.event), lock := ByDispatcher)
    case Prune => s.(dispatcher := Finding(s.dispatcher.event), pending := KeepOpen(s.pending, s.calls))
    case Find =>
      var e := s.dispatcher.event;
      var found := e.context.Some? && e.context.value in s.pending;
      s.(dispatcher := if found then Delivering(e) else Forwarding(Evt(e)), lock := Free)
    case Deliver =>
      var e := s.dispatcher.event;
      var c := e.context.value;
      Settle(s, Evt(e), Delivered(c)).(calls := s.calls[c := s.calls[c].(queue := s.calls[c].queue + [e])])
    case DeliverFails => s.(dispatcher := Evicting(s.dispatcher.event))
    case EvictLock => s.(dispatcher := Purging(s.dispatcher.event), lock := ByDispatcher)
    case Purge =>
      var e := s.dispatcher.event;
      s.(dispatcher := Forwarding(Evt(e)), pending := Without(s.pending, e.context.value), lock := Free)
    case Forward => ForwardUnmatched(s, s.dispatcher.message)
    case Abort =>
      var stopped := match InHand(s.dispatcher) case None => s case Some(m) => Settle(s, m, Lost);
      stopped.(dispatcher := Stopped)
    case Restart => s.(dispatcher := Receiving)
    case EnableLogging => s.(logging := true)
    case NextMessage => s.(unmatched := s.unmatched[1..], taken := s.taken + [s.unmatched[0]])
    case _ => s
  }

  /** Every interleaving is a sequence of enabled steps. */
  predicate CanRun(s: State, steps: seq<Step>)
    decreases |steps|
  {
    steps != [] ==> Enabled(s, steps[0]) && CanRun(Apply(s, steps[0]), steps[1..])
  }

  function Run(s: State, steps: seq<Step>): State
    requires CanRun(s, steps)
    decreases |steps|
  {
    if steps == [] then s else Run(Apply(s, steps[0]), steps[1..])
  }

  // ---------- History ----------

  /** The events put into the queue of call `c`, in order. */
  function DeliveredTo(h: seq<Settled>, c: Identifier): seq<EventMessage> {
    if h == [] then []
    else
      var last := h[|h| - 1];
      DeliveredTo(h[..|h| - 1], c) +
      (if last.fate == Delivered(c) && last.message.Evt? then [last.message.event] else [])
  }

  /** The events with context `c` in arrival order, except those lost when the dispatcher was aborted. */
  function Arrived(h: seq<Settled>, c: Identifier): seq<EventMessage> {
    if h == [] then []
    else
      var last := h[|h| - 1];
      Arrived(h[..|h| - 1], c) +
      (if Context(last.message) == Some(c) && last.fate != Lost then [last.message.event] else [])
  }

  function QueuedMessages(h: seq<Settled>): seq<Message> {
    if h == [] then []
    else
      var last := h[|h| - 1];
      QueuedMessages(h[..|h| - 1]) + (if last.fate == Queued then [last.message] else [])
  }

  /** The event of call `c` the dispatcher has in hand. */
  function Held(s: State, c: Identifier): seq<EventMessage> {
    if InHand(s.dispatcher).Some? && Context(InHand(s.dispatcher).value) == Some(c)
    then [InHand(s.dispatcher).value.event] else []
  }
}
