// What every interleaving of callers and dispatcher keeps.
module DispatchSafety {
  import opened Wrappers
  import opened Dispatch

  // ---------- The invariant ----------

  ghost predicate LockInv(s: State) {
    && (forall c :: c in s.calls ==> (HoldsLock(s.calls[c].phase) <==> s.lock == ByCall(c)))
    && (s.lock.ByCall? ==> s.lock.holder in s.calls)
    && (DispatcherHoldsLock(s.dispatcher) <==> s.lock == ByDispatcher)
  }

  predicate HasOutcome(p: Phase) {
    p.Leaving? || p.Removing? || p.Returning? || p.Done?
  }

  /** The call ended, or is ending, because of an event it consumed. */
  predicate ByEvent(p: Phase) {
    HasOutcome(p) && (p.outcome.Response? || p.outcome.DeviceError?)
  }

  /** The outcome is explained by the last event consumed; every other consumed event was not decisive. */
  ghost predicate Verdict(c: Identifier, k: Call) {
    var n := |k.consumed|;
    && (forall i :: 0 <= i < n ==> k.consumed[i].context == Some(c))
    && (forall i :: 0 <= i < n - 1 ==> !Decisive(k, k.consumed[i]))
    && (n > 0 && !k.phase.Cancelled? && !ByEvent(k.phase) ==> !Decisive(k, k.consumed[n - 1]))
    && (ByEvent(k.phase) ==>
          n > 0 &&
          var e := k.consumed[n - 1];
          match k.phase.outcome
          case Response(r) => r == e && k.terminal(e) && !e.event.Failure?
          case DeviceError(x) => e.event == Failure(x)
          case _ => false)
    && (HasOutcome(k.phase) ==> !k.phase.outcome.ChannelClosed?)
  }

  /** What holds of a call by itself, given whether its registration is in the table and whether the
      device has received its command. */
  ghost predicate LocalInv(c: Identifier, k: Call, registered: bool, sent: bool) {
    && |k.queue| <= COMMAND_EVENT_BUFFER
    && (IsOpen(k) ==> k.discarded == [])
    && (!IsOpen(k) ==> k.queue == [])
    && (Unsent(k.phase) ==> !sent && k.queue == [] && k.consumed == [])
    && (Registered(k.phase) ==> registered)
    && (registered ==> Registered(k.phase) || k.phase.Cancelled?)
    && Verdict(c, k)
  }

  function Stream(k: Call): seq<EventMessage> {
    k.consumed + k.queue + k.discarded
  }

  ghost predicate CallInv(s: State, c: Identifier)
    requires c in s.calls
  {
    var k := s.calls[c];
    && LocalInv(c, k, c in s.pending, c in s.sent)
    && DeliveredTo(s.history, c) == Stream(k)
    && DeliveredTo(s.history, c) <= Arrived(s.history, c)
    && (HasSender(s, c) ==> DeliveredTo(s.history, c) == Arrived(s.history, c))
    && (Unsent(k.phase) ==> Arrived(s.history, c) == [])
    && (Held(s, c) != [] ==> c in s.sent)
  }

  /** What the dispatcher knows about the call whose event it holds. */
  ghost predicate HandInv(s: State) {
    match s.dispatcher
    case Receiving => true
    case Stopped => true
    case Forwarding(m) =>
      Context(m).Some? && Context(m).value in s.calls ==>
        !Unsent(s.calls[Context(m).value].phase) && Context(m).value !in s.pending
    case Delivering(e) => e.context.Some? && e.context.value in s.calls && !Unsent(s.calls[e.context.value].phase)
    case Evicting(e) => e.context.Some? && e.context.value in s.calls && !IsOpen(s.calls[e.context.value])
    case Purging(e) => e.context.Some? && e.context.value in s.calls && !IsOpen(s.calls[e.context.value])
    case Matching(e) => e.context.Some?
    case Pruning(e) => e.context.Some?
    case Finding(e) => e.context.Some?
  }

  ghost predicate TableInv(s: State) {
    && (forall c :: c in s.pending ==> c in s.calls)
    && (forall c :: c in s.sent ==> c in s.calls)
    && (forall c :: c !in s.calls ==> DeliveredTo(s.history, c) == [])
    && |s.unmatched| <= MESSAGE_BUFFER
    && QueuedMessages(s.history) == s.taken + s.unmatched
  }

  ghost predicate Inv(s: State) {
    && LockInv(s)
    && TableInv(s)
    && HandInv(s)
    && forall c :: c in s.calls ==> CallInv(s, c)
  }

  // ---------- History lemmas ----------

  function DeliveredBy(x: Settled, c: Identifier): seq<EventMessage> {
    if x.fate == Delivered(c) && x.message.Evt? then [x.message.event] else []
  }

  function ArrivedBy(x: Settled, c: Identifier): seq<EventMessage> {
    if Context(x.message) == Some(c) && x.fate != Lost then [x.message.event] else []
  }

  lemma HistoryGrows(h: seq<Settled>, x: Settled)
    ensures forall c :: DeliveredTo(h + [x], c) == DeliveredTo(h, c) + DeliveredBy(x, c)
    ensures forall c :: Arrived(h + [x], c) == Arrived(h, c) + ArrivedBy(x, c)
    ensures QueuedMessages(h + [x]) == QueuedMessages(h) + (if x.fate == Queued then [x.message] else [])
  {
    assert (h + [x])[..|h|] == h;
  }

  lemma {:induction false} NothingSeenNothingArrived(h: seq<Settled>, c: Identifier)
    requires forall i :: 0 <= i < |h| ==> Context(h[i].message) != Some(c)
    ensures Arrived(h, c) == []
  {
    if h != [] { NothingSeenNothingArrived(h[..|h| - 1], c); }
  }

  // ---------- Steps of a call ----------

  function Rank(p: Phase): nat {
    if Unsent(p) then 0 else if Registered(p) then 1 else if p.Returning? then 2 else 3
  }

  /** How a call may change by itself: it loses no event, never goes back, and respects the lock. */
  ghost predicate Move(s: State, c: Identifier, k': Call, pending': seq<Identifier>, lock': Lock)
    requires c in s.calls
  {
    var k := s.calls[c];
    && Stream(k') == Stream(k)
    && Rank(k.phase) <= Rank(k'.phase)
    && LocalInv(c, k', c in pending', c in s.sent)
    && (forall d :: d != c ==> (d in pending' <==> d in s.pending))
    && (c in pending' && c !in s.pending ==> Unsent(k.phase))
    && (HoldsLock(k'.phase) <==> lock' == ByCall(c))
    && (lock' == s.lock || (s.lock.Free? && lock' == ByCall(c)) || (s.lock == ByCall(c) && lock'.Free?))
  }

  function Moved(s: State, c: Identifier, k': Call, pending': seq<Identifier>, lock': Lock): State {
    s.(calls := s.calls[c := k'], pending := pending', lock := lock')
  }

  lemma MoveKeepsCall(s: State, c: Identifier, k': Call, pending': seq<Identifier>, lock': Lock, d: Identifier)
    requires c in s.calls && d in s.calls && Move(s, c, k', pending', lock')
    requires CallInv(s, c) && CallInv(s, d)
    ensures CallInv(Moved(s, c, k', pending', lock'), d)
  {
    hide Verdict, DeliveredTo, Arrived, Stream;
  }

  lemma MoveKeepsRest(s: State, c: Identifier, k': Call, pending': seq<Identifier>, lock': Lock)
    requires LockInv(s) && TableInv(s) && HandInv(s) && c in s.calls && Move(s, c, k', pending', lock')
    ensures var s' := Moved(s, c, k', pending', lock');
            LockInv(s') && TableInv(s') && HandInv(s')
  {
    hide Verdict, DeliveredTo, QueuedMessages, Stream;
  }

  lemma MoveKeeps(s: State, c: Identifier, k': Call, pending': seq<Identifier>, lock': Lock)
    requires Inv(s) && c in s.calls && Move(s, c, k', pending', lock')
    ensures Inv(Moved(s, c, k', pending', lock'))
  {
    hide Move, CallInv, LockInv, TableInv, HandInv;
    var s' := Moved(s, c, k', pending', lock');
    MoveKeepsRest(s, c, k', pending', lock');
    forall d | d in s'.calls ensures CallInv(s', d) {
      MoveKeepsCall(s, c, k', pending', lock', d);
    }
  }

  lemma StartKeepsCall(s: State, c: Identifier, terminal: EventMessage -> bool, d: Identifier)
    requires Enabled(s, Start(c, terminal)) && TableInv(s)
    requires d == c || (d in s.calls && CallInv(s, d))
    ensures d in Apply(s, Start(c, terminal)).calls && CallInv(Apply(s, Start(c, terminal)), d)
  {
    hide DeliveredTo, Arrived;
    NothingSeenNothingArrived(s.history, c);
  }

  lemma StartKeepsRest(s: State, c: Identifier, terminal: EventMessage -> bool)
    requires LockInv(s) && TableInv(s) && HandInv(s) && Enabled(s, Start(c, terminal))
    ensures var s' := Apply(s, Start(c, terminal));
            LockInv(s') && TableInv(s') && HandInv(s')
  {
    hide DeliveredTo, QueuedMessages;
  }

  lemma StartKeeps(s: State, c: Identifier, terminal: EventMessage -> bool)
    requires Inv(s) && Enabled(s, Start(c, terminal))
    ensures Inv(Apply(s, Start(c, terminal)))
  {
    hide LockInv, TableInv, HandInv, CallInv, Seen;
    StartKeepsRest(s, c, terminal);
    var s' := Apply(s, Start(c, terminal));
    forall d | d in s'.calls ensures CallInv(s', d) { StartKeepsCall(s, c, terminal, d); }
  }

  lemma {:induction false} ArrivedHaveContext(h: seq<Settled>, c: Identifier)
    ensures forall e :: e in Arrived(h, c) ==> e.context == Some(c)
  {
    if h != [] { ArrivedHaveContext(h[..|h| - 1], c); }
  }

  /** Every event in a call's queue carries the call's context, so the receive loop never skips one. */
  lemma QueueHasContext(s: State, c: Identifier)
    requires c in s.calls && CallInv(s, c)
    ensures forall e :: e in s.calls[c].queue ==> e.context == Some(c)
  {
    ArrivedHaveContext(s.history, c);
    var k := s.calls[c];
    forall e | e in k.queue ensures e.context == Some(c) {
      assert e in Stream(k);
      assert e in DeliveredTo(s.history, c);
    }
  }

  lemma ConsumeIsMove(c: Identifier, k: Call)
    requires Verdict(c, k) && k.phase.Waiting? && k.queue != [] && k.queue[0].context == Some(c)
    ensures Verdict(c, Consume(c, k)) && Stream(Consume(c, k)) == Stream(k)
  {
    var k' := Consume(c, k);
    assert k'.consumed == k.consumed + [k.queue[0]];
    forall i | 0 <= i < |k'.consumed| - 1 ensures !Decisive(k', k'.consumed[i]) {
      assert !Decisive(k, k.consumed[i]);
    }
  }

  lemma VerdictFollows(c: Identifier, k: Call, k': Call)
    requires Verdict(c, k) && k'.consumed == k.consumed && k'.terminal == k.terminal
    requires k'.phase.Cancelled? ||
             (!k.phase.Cancelled? &&
              if ByEvent(k.phase) then HasOutcome(k'.phase) && k'.phase.outcome == k.phase.outcome
              else !ByEvent(k'.phase) && (HasOutcome(k'.phase) ==> !k'.phase.outcome.ChannelClosed?))
    ensures Verdict(c, k')
  {
    forall i | 0 <= i < |k'.consumed| - 1 ensures !Decisive(k', k'.consumed[i]) {
      assert !Decisive(k, k.consumed[i]);
    }
  }

  lemma ReceiveIsMove(s: State, t: Step)
    requires t.CallReceive? && Enabled(s, t)
    requires CallInv(s, t.c) && (HoldsLock(s.calls[t.c].phase) <==> s.lock == ByCall(t.c))
    ensures Move(s, t.c, NextCall(t.c, s.calls[t.c], t), NextPending(s.pending, t), NextLock(s.lock, t))
  {
    QueueHasContext(s, t.c);
    ConsumeIsMove(t.c, s.calls[t.c]);
  }

  lemma VerdictHasOutcome(c: Identifier, k: Call)
    requires Verdict(c, k) && HasOutcome(k.phase)
    ensures !k.phase.outcome.ChannelClosed?
  {
  }

  lemma DropIsMove(s: State, t: Step)
    requires (t.CallReturn? || t.Cancel?) && Enabled(s, t)
    requires CallInv(s, t.c) && (HoldsLock(s.calls[t.c].phase) <==> s.lock == ByCall(t.c))
    ensures Move(s, t.c, NextCall(t.c, s.calls[t.c], t), NextPending(s.pending, t), NextLock(s.lock, t))
  {
    hide Verdict, DeliveredTo, Arrived;
    var k := s.calls[t.c];
    assert k.consumed + [] + k.queue == k.consumed + k.queue + [];
    if HasOutcome(k.phase) { VerdictHasOutcome(t.c, k); }
    VerdictFollows(t.c, k, NextCall(t.c, k, t));
  }

  lemma StreamIs(k: Call)
    ensures Stream(k) == k.consumed + k.queue + k.discarded
  {
  }

  lemma PhaseIsMove(s: State, t: Step)
    requires (t.CallLock? || t.CallPush? || t.SendReturns? || t.CallChannelClosed? || t.Deadline? || t.CallRemove?)
    requires Enabled(s, t)
    requires CallInv(s, t.c) && (HoldsLock(s.calls[t.c].phase) <==> s.lock == ByCall(t.c))
    ensures Move(s, t.c, NextCall(t.c, s.calls[t.c], t), NextPending(s.pending, t), NextLock(s.lock, t))
  {
    hide Verdict, DeliveredTo, Arrived, Stream;
    var k := s.calls[t.c];
    var k' := NextCall(t.c, k, t);
    StreamIs(k);
    StreamIs(k');
    if HasOutcome(k.phase) { VerdictHasOutcome(t.c, k); }
    VerdictFollows(t.c, k, k');
  }

  lemma CallStepIsMove(s: State, t: Step)
    requires IsCallStep(t) && Enabled(s, t)
    requires CallInv(s, t.c) && (HoldsLock(s.calls[t.c].phase) <==> s.lock == ByCall(t.c))
    ensures Move(s, t.c, NextCall(t.c, s.calls[t.c], t), NextPending(s.pending, t), NextLock(s.lock, t))
  {
    hide Move, CallInv, Enabled;
    if t.CallReceive? { ReceiveIsMove(s, t); }
    else if t.CallReturn? || t.Cancel? { DropIsMove(s, t); }
    else { PhaseIsMove(s, t); }
  }

  lemma CallStepKeeps(s: State, t: Step)
    requires Inv(s) && IsCallStep(t) && Enabled(s, t)
    ensures Inv(Apply(s, t))
  {
    CallStepIsMove(s, t);
    MoveKeeps(s, t.c, NextCall(t.c, s.calls[t.c], t), NextPending(s.pending, t), NextLock(s.lock, t));
  }

  // ---------- Steps of the dispatcher and of the rest ----------

  /** Settling the message in hand anywhere but in a call's queue concerns no call that could still want it. */
  lemma SettleKeepsCall(s: State, x: Settled, d: Identifier)
    requires d in s.calls && CallInv(s, d) && InHand(s.dispatcher) == Some(x.message)
    requires !x.fate.Delivered?
    requires x.fate.Lost? || Context(x.message) != Some(d) || (!Unsent(s.calls[d].phase) && d !in s.pending)
    ensures CallInv(Settle(s, x.message, x.fate), d)
  {
    hide LocalInv;
    HistoryGrows(s.history, x);
    assert DeliveredTo(s.history, d) + [] == DeliveredTo(s.history, d);
    assert Arrived(s.history, d) + [] == Arrived(s.history, d);
  }

  lemma DeliverKeepsOther(s: State, d: Identifier)
    requires d in s.calls && CallInv(s, d) && Enabled(s, Deliver) && s.dispatcher.event.context != Some(d)
    ensures d in Apply(s, Deliver).calls && CallInv(Apply(s, Deliver), d)
  {
    hide DeliveredTo, Arrived, QueuedMessages, LocalInv, Stream;
    HistoryGrows(s.history, Settled(Evt(s.dispatcher.event), Delivered(s.dispatcher.event.context.value)));
    assert DeliveredTo(s.history, d) + [] == DeliveredTo(s.history, d);
    assert Arrived(s.history, d) + [] == Arrived(s.history, d);
  }

  lemma StreamGrows(k: Call, e: EventMessage)
    requires k.discarded == []
    ensures Stream(k.(queue := k.queue + [e])) == Stream(k) + [e]
  {
  }

  lemma DeliverKeepsOwn(s: State, d: Identifier)
    requires d in s.calls && CallInv(s, d) && Enabled(s, Deliver) && s.dispatcher.event.context == Some(d)
    requires !Unsent(s.calls[d].phase)
    ensures CallInv(Apply(s, Deliver), d)
  {
    hide DeliveredTo, Arrived, QueuedMessages, Verdict, Stream;
    var e := s.dispatcher.event;
    var k := s.calls[d];
    var k' := k.(queue := k.queue + [e]);
    HistoryGrows(s.history, Settled(Evt(e), Delivered(d)));
    StreamGrows(k, e);
    if HasOutcome(k.phase) { VerdictHasOutcome(d, k); }
    VerdictFollows(d, k, k');
  }

  /** Steps that leave every call's record and the history alone. */
  predicate IsQuietStep(t: Step) {
    t.Transmit? || t.Receive? || t.ReceiveFails? || t.MatchLock? || t.Prune? || t.Find? || t.DeliverFails? ||
    t.EvictLock? || t.Purge? || t.Restart? || t.EnableLogging? || t.NextMessage?
  }

  lemma ShrinkKeepsCall(s: State, t: Step, c: Identifier)
    requires (t.Prune? || t.Purge?) && Enabled(s, t) && c in s.calls
    requires CallInv(s, c) && HandInv(s)
    ensures c in Apply(s, t).calls && CallInv(Apply(s, t), c)
  {
    hide Verdict, DeliveredTo, Arrived, Stream;
  }

  lemma QuietKeepsCall(s: State, t: Step, c: Identifier)
    requires IsQuietStep(t) && Enabled(s, t) && c in s.calls
    requires CallInv(s, c) && HandInv(s)
    ensures c in Apply(s, t).calls && CallInv(Apply(s, t), c)
  {
    hide Verdict, DeliveredTo, Arrived, Stream, QueuedMessages;
    if t.Prune? || t.Purge? { ShrinkKeepsCall(s, t, c); }
  }

  /** The call whose event the dispatcher holds has had its command received. */
  lemma HandWasSent(s: State)
    requires Inv(s)
    ensures match InHand(s.dispatcher)
            case None => true
            case Some(m) =>
              Context(m).Some? && Context(m).value in s.calls ==>
                var p := s.calls[Context(m).value].phase;
                !Unsent(p) && (Registered(p) ==> Context(m).value in s.pending)
  {
    match InHand(s.dispatcher)
    case None =>
    case Some(m) =>
      if Context(m).Some? && Context(m).value in s.calls { assert CallInv(s, Context(m).value); }
  }

  lemma OutsideKeepsRest(s: State, t: Step)
    requires LockInv(s) && TableInv(s) && HandInv(s) && Enabled(s, t)
    requires t.Transmit? || t.ReceiveFails? || t.Restart? || t.EnableLogging? || t.NextMessage?
    ensures var s' := Apply(s, t);
            LockInv(s') && TableInv(s') && HandInv(s')
  {
    hide CallInv, DeliveredTo, QueuedMessages;
  }

  lemma ReceiveKeepsRest(s: State, t: Step)
    requires LockInv(s) && TableInv(s) && HandInv(s) && t.Receive? && Enabled(s, t)
    ensures var s' := Apply(s, t);
            LockInv(s') && TableInv(s') && HandInv(s')
  {
    hide CallInv, DeliveredTo, QueuedMessages;
  }

  /** The table and its lock, with the fact about the call in hand that these steps rely on. */
  lemma TableStepKeepsRest(s: State, t: Step)
    requires LockInv(s) && TableInv(s) && HandInv(s) && Enabled(s, t)
    requires t.MatchLock? || t.Prune? || t.DeliverFails? || t.EvictLock? || t.Purge?
    requires s.dispatcher.event.context.Some? && s.dispatcher.event.context.value in s.calls ==>
               !Unsent(s.calls[s.dispatcher.event.context.value].phase)
    ensures var s' := Apply(s, t);
            LockInv(s') && TableInv(s') && HandInv(s')
  {
    hide DeliveredTo, QueuedMessages;
  }

  lemma FindKeepsRest(s: State)
    requires LockInv(s) && TableInv(s) && HandInv(s) && Enabled(s, Find)
    requires s.dispatcher.event.context.Some? && s.dispatcher.event.context.value in s.calls ==>
               !Unsent(s.calls[s.dispatcher.event.context.value].phase)
    ensures var s' := Apply(s, Find);
            LockInv(s') && TableInv(s') && HandInv(s')
  {
    hide DeliveredTo, QueuedMessages;
  }

  lemma DeliverKeepsRest(s: State)
    requires LockInv(s) && TableInv(s) && Enabled(s, Deliver)
    ensures var s' := Apply(s, Deliver);
            LockInv(s') && TableInv(s') && HandInv(s')
  {
    hide DeliveredTo, Arrived, QueuedMessages;
    HistoryGrows(s.history, Settled(Evt(s.dispatcher.event), Delivered(s.dispatcher.event.context.value)));
  }

  lemma DeliverKeeps(s: State)
    requires Inv(s) && Enabled(s, Deliver)
    ensures Inv(Apply(s, Deliver))
  {
    hide LockInv, TableInv, CallInv;
    DeliverKeepsRest(s);
    forall d | d in s.calls ensures CallInv(Apply(s, Deliver), d) {
      if s.dispatcher.event.context == Some(d) { DeliverKeepsOwn(s, d); } else { DeliverKeepsOther(s, d); }
    }
  }

  lemma ForwardKeeps(s: State)
    requires Inv(s) && Enabled(s, Forward)
    ensures Inv(Apply(s, Forward))
  {
    hide DeliveredTo, Arrived, QueuedMessages, LocalInv;
    var s' := Apply(s, Forward);
    var x := Settled(s.dispatcher.message, ForwardFate(s, s.dispatcher.message));
    HistoryGrows(s.history, x);
    forall d | d in s'.calls ensures CallInv(s', d) {
      assert CallInv(s, d);
      SettleKeepsCall(s, x, d);
    }
  }

  lemma AbortKeepsCall(s: State, d: Identifier)
    requires Enabled(s, Abort) && d in s.calls && CallInv(s, d)
    ensures CallInv(Apply(s, Abort), d)
  {
    hide LocalInv, DeliveredTo, Arrived;
    if InHand(s.dispatcher).Some? { SettleKeepsCall(s, Settled(InHand(s.dispatcher).value, Lost), d); }
  }

  lemma AbortKeepsRest(s: State)
    requires LockInv(s) && TableInv(s) && Enabled(s, Abort)
    ensures var s' := Apply(s, Abort);
            LockInv(s') && TableInv(s') && HandInv(s')
  {
    hide DeliveredTo, QueuedMessages;
    if InHand(s.dispatcher).Some? { HistoryGrows(s.history, Settled(InHand(s.dispatcher).value, Lost)); }
  }

  lemma AbortKeeps(s: State)
    requires Inv(s) && Enabled(s, Abort)
    ensures Inv(Apply(s, Abort))
  {
    hide LockInv, TableInv, HandInv, CallInv;
    AbortKeepsRest(s);
    forall d | d in s.calls ensures CallInv(Apply(s, Abort), d) { AbortKeepsCall(s, d); }
  }

  lemma QuietKeepsRest(s: State, t: Step)
    requires Inv(s) && IsQuietStep(t) && Enabled(s, t)
    ensures var s' := Apply(s, t);
            LockInv(s') && TableInv(s') && HandInv(s')
  {
    hide Apply, LockInv, TableInv, HandInv, CallInv;
    HandWasSent(s);
    if t.Find? { FindKeepsRest(s); }
    else if t.MatchLock? || t.Prune? || t.DeliverFails? || t.EvictLock? || t.Purge? { TableStepKeepsRest(s, t); }
    else if t.Receive? { ReceiveKeepsRest(s, t); }
    else { OutsideKeepsRest(s, t); }
  }

  lemma QuietKeepsCalls(s: State, t: Step)
    requires IsQuietStep(t) && Enabled(s, t)
    ensures Apply(s, t).calls == s.calls
  {
  }

  /** Every step of every task keeps the invariant. */
  lemma StepKeeps(s: State, t: Step)
    requires Inv(s) && Enabled(s, t)
    ensures Inv(Apply(s, t))
  {
    hide Apply, Enabled, LockInv, TableInv, HandInv, CallInv;
    if IsCallStep(t) { CallStepKeeps(s, t); }
    else if t.Start? { StartKeeps(s, t.c, t.terminal); }
    else if t.Deliver? { DeliverKeeps(s); }
    else if t.Forward? { ForwardKeeps(s); }
    else if t.Abort? { AbortKeeps(s); }
    else {
      QuietKeepsRest(s, t);
      QuietKeepsCalls(s, t);
      forall c | c in s.calls ensures CallInv(Apply(s, t), c) { QuietKeepsCall(s, t, c); }
    }
  }

  lemma {:induction false} RunKeeps(s: State, steps: seq<Step>)
    requires Inv(s) && CanRun(s, steps)
    ensures Inv(Run(s, steps))
    decreases |steps|
  {
    if steps != [] {
      StepKeeps(s, steps[0]);
      RunKeeps(Apply(s, steps[0]), steps[1..]);
    }
  }

  lemma ReachableInv(steps: seq<Step>)
    requires CanRun(Initial, steps)
    ensures Inv(Run(Initial, steps))
  {
    RunKeeps(Initial, steps);
  }
}
