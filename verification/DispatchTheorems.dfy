// The dispatch guarantees, for every run: every sequence of enabled steps from the initial state.
module DispatchTheorems {
  import opened Wrappers
  import opened Dispatch
  import opened DispatchSafety

  /** Events with context `c` that `recv_message` has returned, lost ones aside. */
  function ArrivedSoFar(s: State, c: Identifier): seq<EventMessage> {
    Arrived(s.history, c) + Held(s, c)
  }

  /** Position of the first event that ends the call's wait, or the length when there is none. */
  function FirstDecisive(k: Call, events: seq<EventMessage>): (i: nat)
    ensures i <= |events|
    ensures i < |events| ==> Decisive(k, events[i])
    ensures forall j :: 0 <= j < i ==> !Decisive(k, events[j])
  {
    if events == [] || Decisive(k, events[0]) then 0 else 1 + FirstDecisive(k, events[1..])
  }

  function OutcomeOf(e: EventMessage): Outcome {
    if e.event.Failure? then DeviceError(e.event.error) else Response(e)
  }

  // ---------- What gives a call its outcome ----------

  /** A call's phase changes by its own steps only. */
  lemma PhaseMoves(s: State, t: Step, c: Identifier)
    requires Enabled(s, t) && c in s.calls
    ensures c in Apply(s, t).calls
    ensures Apply(s, t).calls[c].phase ==
            if IsCallStep(t) && t.c == c then NextCall(c, s.calls[c], t).phase else s.calls[c].phase
  {
    hide NextCall;
  }

  /** The guards of the steps that give an outcome. */
  lemma OutcomeGuards(s: State, t: Step, c: Identifier)
    requires Enabled(s, t) && c in s.calls
    ensures t == Deadline(c) || t == CallReceive(c) || t == CallChannelClosed(c) ==> s.calls[c].phase.Waiting?
    ensures t == SendReturns(c, true) || t == SendReturns(c, false) ==> s.calls[c].phase.Sending?
    ensures t == Cancel(c) ==> IsOpen(s.calls[c])
    ensures t == CallPush(c) ==> s.calls[c].phase.Pushing?
    ensures t == CallRemove(c) ==> s.calls[c].phase.Removing?
    ensures t == CallReturn(c) ==> s.calls[c].phase.Returning?
    ensures t == CallLock(c) ==> s.calls[c].phase.Registering? || s.calls[c].phase.Leaving?
  {
  }

  /** The one step that decides each kind of outcome. */
  lemma StepOutcome(s: State, t: Step, c: Identifier)
    requires Enabled(s, t) && c in s.calls && !HasOutcome(s.calls[c].phase)
    requires c in Apply(s, t).calls && HasOutcome(Apply(s, t).calls[c].phase)
    ensures var outcome := Apply(s, t).calls[c].phase.outcome;
            && (outcome == Timeout <==> t == Deadline(c))
            && (outcome == SendError <==> t == SendReturns(c, false))
            && (outcome == ChannelClosed <==> t == CallChannelClosed(c))
            && (outcome.Response? || outcome.DeviceError? <==> t == CallReceive(c))
  {
    hide Apply, Enabled;
    PhaseMoves(s, t, c);
    OutcomeGuards(s, t, c);
  }

  /** A deadline and a failed send end the wait at once, and an outcome is kept until the call is cancelled. */
  lemma OutcomeKept(s: State, t: Step, c: Identifier)
    requires Enabled(s, t) && c in s.calls
    ensures c in Apply(s, t).calls
    ensures t == Deadline(c) || t == SendReturns(c, false) || t == CallChannelClosed(c) ==>
              !HasOutcome(s.calls[c].phase) && !s.calls[c].phase.Cancelled? && HasOutcome(Apply(s, t).calls[c].phase)
    ensures HasOutcome(s.calls[c].phase) && !Apply(s, t).calls[c].phase.Cancelled? ==>
              HasOutcome(Apply(s, t).calls[c].phase) &&
              Apply(s, t).calls[c].phase.outcome == s.calls[c].phase.outcome
    ensures s.calls[c].phase.Cancelled? ==> Apply(s, t).calls[c].phase.Cancelled?
  {
    hide Apply, Enabled;
    PhaseMoves(s, t, c);
    OutcomeGuards(s, t, c);
  }

  lemma UnknownCallGuards(s: State, t: Step, c: Identifier)
    requires Enabled(s, t) && c !in s.calls
    ensures IsCallStep(t) ==> t.c != c
    ensures t.Deliver? ==>
              s.dispatcher.Delivering? && s.dispatcher.event.context.Some? && s.dispatcher.event.context != Some(c)
  {
  }

  lemma CallBegins(s: State, t: Step, c: Identifier)
    requires Enabled(s, t) && c !in s.calls
    ensures t != Deadline(c) && t != SendReturns(c, false)
    ensures c in Apply(s, t).calls ==> Apply(s, t).calls[c].phase.Registering?
  {
    UnknownCallGuards(s, t, c);
    hide Enabled, NextCall, NextPending, NextLock, KeepOpen, Without;
  }

  /** Whether the call's deadline has passed, and whether its send has failed, as its outcome tells. */
  ghost predicate Caused(s: State, c: Identifier, expired: bool, failed: bool) {
    if c !in s.calls then !expired && !failed
    else
      var p := s.calls[c].phase;
      !p.Cancelled? ==>
        && (expired <==> HasOutcome(p) && p.outcome == Timeout)
        && (failed <==> HasOutcome(p) && p.outcome == SendError)
  }

  lemma StepCaused(s: State, t: Step, c: Identifier, expired: bool, failed: bool)
    requires Enabled(s, t) && Caused(s, c, expired, failed)
    ensures Caused(Apply(s, t), c, expired || t == Deadline(c), failed || t == SendReturns(c, false))
  {
    hide Apply, Enabled;
    if c in s.calls {
      OutcomeKept(s, t, c);
      if !HasOutcome(s.calls[c].phase) && HasOutcome(Apply(s, t).calls[c].phase) { StepOutcome(s, t, c); }
    } else {
      CallBegins(s, t, c);
    }
  }

  lemma {:induction false} RunCaused(s: State, steps: seq<Step>, c: Identifier, expired: bool, failed: bool)
    requires CanRun(s, steps) && Caused(s, c, expired, failed)
    ensures Caused(Run(s, steps), c, expired || Deadline(c) in steps, failed || SendReturns(c, false) in steps)
    decreases |steps|
  {
    hide Apply, Enabled, Caused;
    if steps != [] {
      var t, rest := steps[0], steps[1..];
      assert steps == [t] + rest;
      StepCaused(s, t, c, expired, failed);
      RunCaused(Apply(s, t), rest, c, expired || t == Deadline(c), failed || t == SendReturns(c, false));
    }
  }

  /** In every run, a call that was not cancelled times out exactly when its deadline passed while it waited, and
      reports the transport's error exactly when its send failed. */
  lemma OutcomeHasItsCause(steps: seq<Step>, c: Identifier)
    requires CanRun(Initial, steps) && c in Run(Initial, steps).calls
    requires !Run(Initial, steps).calls[c].phase.Cancelled?
    ensures var p := Run(Initial, steps).calls[c].phase;
            && (HasOutcome(p) && p.outcome == Timeout <==> Deadline(c) in steps)
            && (HasOutcome(p) && p.outcome == SendError <==> SendReturns(c, false) in steps)
  {
    RunCaused(Initial, steps, c, false, false);
  }

  // ---------- What a call sees ----------

  /** While a call is registered, what arrived for it is what it consumed, what is queued, and what the
      dispatcher holds for it, in that order. */
  lemma NothingLostNothingReordered(steps: seq<Step>, c: Identifier)
    requires CanRun(Initial, steps) && c in Run(Initial, steps).calls
    ensures var s := Run(Initial, steps);
            var k := s.calls[c];
            Registered(k.phase) ==> ArrivedSoFar(s, c) == k.consumed + k.queue + Held(s, c)
  {
    ReachableInv(steps);
    assert CallInv(Run(Initial, steps), c);
  }

  lemma FirstDecisiveIs(k: Call, events: seq<EventMessage>, n: nat)
    requires 0 < n <= |events| && Decisive(k, events[n - 1])
    requires forall j :: 0 <= j < n - 1 ==> !Decisive(k, events[j])
    ensures FirstDecisive(k, events) == n - 1
  {
  }

  /** What an outcome says about the events of its call. */
  ghost predicate Explains(k: Call, events: seq<EventMessage>)
    requires HasOutcome(k.phase)
  {
    var i := FirstDecisive(k, events);
    match k.phase.outcome
    case Response(_) => i < |events| && k.phase.outcome == OutcomeOf(events[i]) && k.consumed == events[..i + 1]
    case DeviceError(_) => i < |events| && k.phase.outcome == OutcomeOf(events[i]) && k.consumed == events[..i + 1]
    case SendError => FirstDecisive(k, k.consumed) == |k.consumed| && k.consumed <= events
    case Timeout => FirstDecisive(k, k.consumed) == |k.consumed| && k.consumed <= events
    case ChannelClosed => false
  }

  lemma VerdictExplains(c: Identifier, k: Call, events: seq<EventMessage>)
    requires HasOutcome(k.phase) && Verdict(c, k) && k.consumed <= events
    ensures Explains(k, events)
  {
    var n := |k.consumed|;
    assert forall j :: 0 <= j < n ==> events[j] == k.consumed[j];
    if ByEvent(k.phase) {
      FirstDecisiveIs(k, events, n);
    } else {
      assert forall j :: 0 <= j < n ==> !Decisive(k, k.consumed[j]);
    }
  }

  /** A call returns the first error-or-terminal event in arrival order; a call that gave up had seen none, and
      gave up because its deadline passed or its send failed. */
  lemma ReturnsFirstDecisive(steps: seq<Step>, c: Identifier)
    requires CanRun(Initial, steps) && c in Run(Initial, steps).calls
    requires HasOutcome(Run(Initial, steps).calls[c].phase)
    ensures Explains(Run(Initial, steps).calls[c], ArrivedSoFar(Run(Initial, steps), c))
    ensures var outcome := Run(Initial, steps).calls[c].phase.outcome;
            (outcome == Timeout <==> Deadline(c) in steps) && (outcome == SendError <==> SendReturns(c, false) in steps)
  {
    OutcomeHasItsCause(steps, c);
    hide Run, CanRun, DeliveredTo, Arrived, Explains;
    ReachableInv(steps);
    var s := Run(Initial, steps);
    var k := s.calls[c];
    assert CallInv(s, c);
    assert k.consumed <= Stream(k) <= Arrived(s.history, c) <= ArrivedSoFar(s, c);
    VerdictExplains(c, k, ArrivedSoFar(s, c));
  }

  /** `execute_command`, whose predicate accepts every event, returns the very first arrival. */
  lemma PlainCommandReturnsFirstArrival(steps: seq<Step>, c: Identifier)
    requires CanRun(Initial, steps) && c in Run(Initial, steps).calls
    requires forall e :: Run(Initial, steps).calls[c].terminal(e)
    requires HasOutcome(Run(Initial, steps).calls[c].phase)
    ensures var s := Run(Initial, steps);
            var o := s.calls[c].phase.outcome;
            o == SendError || o == Timeout || (ArrivedSoFar(s, c) != [] && o == OutcomeOf(ArrivedSoFar(s, c)[0]))
  {
    ReturnsFirstDecisive(steps, c);
    hide Run, CanRun;
    var s := Run(Initial, steps);
    var events := ArrivedSoFar(s, c);
    assert events != [] ==> FirstDecisive(s.calls[c], events) == 0;
  }

  /** The wait of a fixture transition: its own context, and the end of the transition asked for. */
  function TransitionEnds(c: Identifier, expected: nat): EventMessage -> bool {
    (e: EventMessage) => e.context == Some(c) && e.event.TransitionEnd? && e.event.transition == expected
  }

  predicate IsEnd(e: EventMessage, expected: nat) {
    e.event.TransitionEnd? && e.event.transition == expected
  }

  /** Event `i` is the end of the transition, and neither an error nor such an end came before it. */
  predicate IsFirstEnd(events: seq<EventMessage>, i: nat, expected: nat) {
    i < |events| && IsEnd(events[i], expected) &&
    forall j :: 0 <= j < i ==> !events[j].event.Failure? && !IsEnd(events[j], expected)
  }

  /** A transition call that succeeds reports the end of the requested transition, and before it there was
      neither an error nor an end of that transition among the call's events. */
  lemma TransitionReturnsItsOwnEnd(steps: seq<Step>, c: Identifier, expected: nat)
    requires CanRun(Initial, steps) && c in Run(Initial, steps).calls
    requires Run(Initial, steps).calls[c].terminal == TransitionEnds(c, expected)
    requires HasOutcome(Run(Initial, steps).calls[c].phase) && Run(Initial, steps).calls[c].phase.outcome.Response?
    ensures var s := Run(Initial, steps);
            var e := s.calls[c].phase.outcome.event;
            var events := ArrivedSoFar(s, c);
            && e.context == Some(c) && IsEnd(e, expected)
            && exists i: nat :: IsFirstEnd(events, i, expected) && events[i] == e
  {
    ReachableInv(steps);
    ReturnsFirstDecisive(steps, c);
    hide Run, CanRun, DeliveredTo, Arrived;
    var s := Run(Initial, steps);
    var k := s.calls[c];
    assert CallInv(s, c);
    var events := ArrivedSoFar(s, c);
    var i := FirstDecisive(k, events);
    forall j | 0 <= j < i ensures !events[j].event.Failure? && !IsEnd(events[j], expected) {
      assert events[j] == k.consumed[j] && k.consumed[j].context == Some(c);
      assert !Decisive(k, events[j]);
    }
    assert IsFirstEnd(events, i, expected);
  }

  lemma FirstEndIsUnique(events: seq<EventMessage>, i: nat, j: nat, expected: nat)
    requires IsFirstEnd(events, i, expected) && IsFirstEnd(events, j, expected)
    ensures i == j
  {
  }

  /** What `transition` makes of the outcome of its call. */
  datatype TransitionAnswer = Reached(state: nat) | Unexpected | NotAnswered(outcome: Outcome)

  function AnswerOf(outcome: Outcome, fixture: nat): TransitionAnswer {
    if !outcome.Response? then NotAnswered(outcome)
    else if outcome.event.resource != Some(fixture) then Unexpected
    else if outcome.event.event.TransitionEnd? then Reached(outcome.event.event.state)
    else Unexpected
  }

  /** A fixture reports a state as reached exactly when the call was answered and the first end of the
      transition asked for, with no error before it, carries that state and comes from this fixture. */
  lemma TransitionReachedIff(steps: seq<Step>, c: Identifier, expected: nat, fixture: nat, state: nat)
    requires CanRun(Initial, steps) && c in Run(Initial, steps).calls
    requires Run(Initial, steps).calls[c].terminal == TransitionEnds(c, expected)
    requires HasOutcome(Run(Initial, steps).calls[c].phase)
    ensures var s := Run(Initial, steps);
            var outcome, events := s.calls[c].phase.outcome, ArrivedSoFar(s, c);
            AnswerOf(outcome, fixture) == Reached(state) <==>
            outcome.Response? &&
            exists i: nat :: IsFirstEnd(events, i, expected) && events[i].resource == Some(fixture) &&
                        events[i].event.state == state
    ensures var outcome := Run(Initial, steps).calls[c].phase.outcome;
            && (AnswerOf(outcome, fixture) == Unexpected <==>
                outcome.Response? && outcome.event.resource != Some(fixture))
            && (!outcome.Response? ==> AnswerOf(outcome, fixture) == NotAnswered(outcome))
  {
    hide Run, CanRun, ArrivedSoFar;
    var s := Run(Initial, steps);
    var outcome, events := s.calls[c].phase.outcome, ArrivedSoFar(s, c);
    if outcome.Response? {
      TransitionReturnsItsOwnEnd(steps, c, expected);
      var i: nat :| IsFirstEnd(events, i, expected) && events[i] == outcome.event;
      forall j: nat | IsFirstEnd(events, j, expected) ensures j == i { FirstEndIsUnique(events, i, j, expected); }
    }
  }

  // ---------- One fate per message ----------

  /** What `recv_message` returned during a run, in order. */
  function ReceivedDuring(steps: seq<Step>): seq<Message> {
    if steps == [] then []
    else (if steps[0].Receive? then [steps[0].message] else []) + ReceivedDuring(steps[1..])
  }

  function SettledMessages(h: seq<Settled>): seq<Message> {
    seq(|h|, i requires 0 <= i < |h| => h[i].message)
  }

  function HandOf(s: State): seq<Message> {
    match InHand(s.dispatcher) case None => [] case Some(m) => [m]
  }

  function Obtained(s: State): seq<Message> {
    SettledMessages(s.history) + HandOf(s)
  }

  lemma SettleAccounts(s: State, m: Message, fate: Fate)
    requires InHand(s.dispatcher) == Some(m)
    ensures SettledMessages(Settle(s, m, fate).history) == Obtained(s)
  {
  }

  lemma QuietAccounts(s: State, t: Step)
    requires Enabled(s, t) && !t.Deliver? && !t.Forward? && !t.Abort?
    ensures Apply(s, t).history == s.history
    ensures HandOf(Apply(s, t)) == HandOf(s) + (if t.Receive? then [t.message] else [])
  {
  }

  lemma StepAccounts(s: State, t: Step)
    requires Enabled(s, t)
    ensures Obtained(Apply(s, t)) == Obtained(s) + (if t.Receive? then [t.message] else [])
  {
    if t.Deliver? {
      SettleAccounts(s, Evt(s.dispatcher.event), Delivered(s.dispatcher.event.context.value));
    } else if t.Forward? {
      SettleAccounts(s, s.dispatcher.message, ForwardFate(s, s.dispatcher.message));
    } else if t.Abort? {
      if InHand(s.dispatcher).Some? { SettleAccounts(s, InHand(s.dispatcher).value, Lost); }
    } else {
      hide Apply, Enabled, HandOf, SettledMessages;
      QuietAccounts(s, t);
    }
  }

  lemma {:induction false} RunAccounts(s: State, steps: seq<Step>)
    requires CanRun(s, steps)
    ensures Obtained(Run(s, steps)) == Obtained(s) + ReceivedDuring(steps)
    decreases |steps|
  {
    hide Apply, Enabled, Obtained;
    if steps != [] {
      StepAccounts(s, steps[0]);
      RunAccounts(Apply(s, steps[0]), steps[1..]);
    }
  }

  /** A message is delivered only to the call with its context, and printed only when it is a log event. */
  ghost predicate FatesMatch(h: seq<Settled>) {
    forall i :: 0 <= i < |h| ==>
                  (h[i].fate.Delivered? ==> Context(h[i].message) == Some(h[i].fate.to)) &&
                  (h[i].fate.Logged? ==> h[i].message.Evt? && h[i].message.event.event.Log?)
  }

  lemma {:induction false} RunFatesMatch(s: State, steps: seq<Step>)
    requires FatesMatch(s.history) && CanRun(s, steps)
    ensures FatesMatch(Run(s, steps).history)
    decreases |steps|
  {
    if steps != [] {
      RunFatesMatch(Apply(s, steps[0]), steps[1..]);
    }
  }

  function Losses(h: seq<Settled>): nat {
    if h == [] then 0 else Losses(h[..|h| - 1]) + if h[|h| - 1].fate.Lost? then 1 else 0
  }

  function Aborts(steps: seq<Step>): nat {
    if steps == [] then 0 else (if steps[0].Abort? then 1 else 0) + Aborts(steps[1..])
  }

  lemma StepLosses(s: State, t: Step)
    requires Enabled(s, t)
    ensures Losses(Apply(s, t).history) <= Losses(s.history) + if t.Abort? then 1 else 0
  {
    if Apply(s, t).history != s.history {
      assert Apply(s, t).history[..|s.history|] == s.history;
    }
  }

  lemma {:induction false} RunLosses(s: State, steps: seq<Step>)
    requires CanRun(s, steps)
    ensures Losses(Run(s, steps).history) <= Losses(s.history) + Aborts(steps)
    decreases |steps|
  {
    hide Apply, Losses;
    if steps != [] {
      StepLosses(s, steps[0]);
      RunLosses(Apply(s, steps[0]), steps[1..]);
    }
  }

  /** Every message obtained has exactly one fate, recorded in arrival order, or is the one in hand. The
      record agrees with where the messages went: the queue of the one call, or the unmatched queue. Each
      abort of the dispatcher loses at most one message, and nothing else loses any. */
  lemma EveryMessageHasOneFate(steps: seq<Step>)
    requires CanRun(Initial, steps)
    ensures var s := Run(Initial, steps);
            && ReceivedDuring(steps) == SettledMessages(s.history) + HandOf(s)
            && FatesMatch(s.history) && Losses(s.history) <= Aborts(steps)
            && QueuedMessages(s.history) == s.taken + s.unmatched
            && forall c :: c in s.calls ==> DeliveredTo(s.history, c) == Stream(s.calls[c])
  {
    RunAccounts(Initial, steps);
    RunFatesMatch(Initial, steps);
    RunLosses(Initial, steps);
    ReachableInv(steps);
    hide Run, CanRun;
    var s := Run(Initial, steps);
    assert Obtained(Initial) == [];
    forall c | c in s.calls ensures DeliveredTo(s.history, c) == Stream(s.calls[c]) { assert CallInv(s, c); }
  }

  lemma {:induction false} AllArrivalsDelivered(h: seq<Settled>, c: Identifier)
    requires FatesMatch(h)
    ensures |DeliveredTo(h, c)| <= |Arrived(h, c)|
    ensures |DeliveredTo(h, c)| == |Arrived(h, c)| ==>
              forall i :: 0 <= i < |h| && Context(h[i].message) == Some(c) ==>
                            h[i].fate == Delivered(c) || h[i].fate == Lost
  {
    if h != [] { AllArrivalsDelivered(h[..|h| - 1], c); }
  }

  /** A response to a registered call is never printed, queued as unmatched or dropped. */
  lemma NeverRoutedElsewhere(steps: seq<Step>, c: Identifier)
    requires CanRun(Initial, steps)
    requires c in Run(Initial, steps).calls && Registered(Run(Initial, steps).calls[c].phase)
    ensures forall x :: x in Run(Initial, steps).history && Context(x.message) == Some(c) ==>
                          x.fate == Delivered(c) || x.fate == Lost
  {
    ReachableInv(steps);
    RunFatesMatch(Initial, steps);
    hide Run, CanRun;
    assert CallInv(Run(Initial, steps), c);
    AllArrivalsDelivered(Run(Initial, steps).history, c);
  }

  predicate IsLogEvent(m: Message) {
    m.Evt? && m.event.event.Log?
  }

  lemma StepLogging(s: State, t: Step)
    requires Enabled(s, t)
    ensures Apply(s, t).logging <==> s.logging || t.EnableLogging?
  {
  }

  lemma {:induction false} RunLogging(s: State, steps: seq<Step>)
    requires CanRun(s, steps)
    ensures Run(s, steps).logging <==> s.logging || EnableLogging in steps
    decreases |steps|
  {
    if steps != [] {
      var t, rest := steps[0], steps[1..];
      assert steps == [t] + rest;
      StepLogging(s, t);
      RunLogging(Apply(s, t), rest);
    }
  }

  lemma ForwardSettles(s: State)
    requires Enabled(s, Forward) && |s.unmatched| <= 64
    ensures var m, s' := s.dispatcher.message, Apply(s, Forward);
            var printed := s.logging && IsLogEvent(m);
            && |s.history| < |s'.history| && s'.history[..|s.history|] == s.history
            && (s'.history == s.history + [Settled(m, Logged)] <==> printed)
            && (s'.history == s.history + [Settled(m, Queued)] <==> !printed && |s.unmatched| < 64)
            && (s'.history == s.history + [Settled(m, Dropped)] <==> !printed && |s.unmatched| == 64)
            && s'.unmatched == (if !printed && |s.unmatched| < 64 then s.unmatched + [m] else s.unmatched)
  {
    var m := s.dispatcher.message;
    var x := Settled(m, ForwardFate(s, m));
    assert (s.history + [x])[|s.history|] == x;
    forall fate: Fate ensures s.history + [Settled(m, fate)] == s.history + [x] <==> fate == x.fate {
      assert (s.history + [Settled(m, fate)])[|s.history|] == Settled(m, fate);
    }
  }

  /** Exactly what becomes of an unmatched message: it is printed when it is a log event and logging has been
      enabled; otherwise it is queued behind the others while fewer than 64 wait, and dropped when 64 do. */
  lemma ForwardingIff(steps: seq<Step>)
    requires CanRun(Initial, steps) && Enabled(Run(Initial, steps), Forward)
    ensures var s := Run(Initial, steps);
            var m, s' := s.dispatcher.message, Apply(s, Forward);
            var printed := EnableLogging in steps && IsLogEvent(m);
            && |s.history| < |s'.history| && s'.history[..|s.history|] == s.history
            && (s'.history == s.history + [Settled(m, Logged)] <==> printed)
            && (s'.history == s.history + [Settled(m, Queued)] <==> !printed && |s.unmatched| < 64)
            && (s'.history == s.history + [Settled(m, Dropped)] <==> !printed && |s.unmatched| == 64)
            && s'.unmatched == (if !printed && |s.unmatched| < 64 then s.unmatched + [m] else s.unmatched)
  {
    RunLogging(Initial, steps);
    ReachableInv(steps);
    hide Run, CanRun;
    var s := Run(Initial, steps);
    ForwardSettles(s);
  }

  /** An unmatched message is dropped only when its queue is full, and printed only when logging is on. */
  lemma DroppedOnlyWhenFull(steps: seq<Step>)
    requires CanRun(Initial, steps) && Enabled(Run(Initial, steps), Forward)
    ensures var s := Run(Initial, steps);
            var m, s' := s.dispatcher.message, Apply(s, Forward);
            && |s'.unmatched| <= MESSAGE_BUFFER == 64
            && (s'.history == s.history + [Settled(m, Dropped)] <==>
                |s.unmatched| == MESSAGE_BUFFER && !(s.logging && IsLogEvent(m)))
            && (s'.history == s.history + [Settled(m, Logged)] <==> s.logging && IsLogEvent(m))
  {
    ReachableInv(steps);
    hide Run, CanRun;
    ForwardSettles(Run(Initial, steps));
  }

  /** The dispatcher stops when the connection fails to give a message or when it is aborted, and by nothing else,
      until it is started again. */
  lemma DispatcherStops(s: State, t: Step)
    requires Enabled(s, t)
    ensures Apply(s, t).dispatcher.Stopped? <==>
            t.ReceiveFails? || t.Abort? || (s.dispatcher.Stopped? && !t.Restart?)
  {
    hide NextCall, ForwardFate, Without, KeepOpen;
  }

  // ---------- Registrations ----------

  /** Every table entry belongs to a call in flight or to a cancelled one; a call that returned has none. */
  lemma RegistrationsAccounted(steps: seq<Step>)
    requires CanRun(Initial, steps)
    ensures var s := Run(Initial, steps);
            && (forall c :: c in s.pending ==>
                           c in s.calls && (Registered(s.calls[c].phase) || s.calls[c].phase.Cancelled?))
            && (forall c :: c in s.calls && Registered(s.calls[c].phase) ==> c in s.pending)
            && (forall c :: c in s.calls && s.calls[c].phase.Done? ==> c !in s.pending)
  {
    ReachableInv(steps);
    hide Run, CanRun;
    var s := Run(Initial, steps);
    forall c | c in s.calls
      ensures (c in s.pending ==> Registered(s.calls[c].phase) || s.calls[c].phase.Cancelled?) &&
              (Registered(s.calls[c].phase) ==> c in s.pending)
    {
      assert CallInv(s, c);
    }
  }

  lemma TableChanges(s: State, t: Step)
    requires Enabled(s, t) && HandInv(s)
    ensures forall c :: c in s.pending && c !in Apply(s, t).pending ==>
                          t == CallRemove(c) || c !in s.calls || !IsOpen(s.calls[c])
  {
  }

  /** How a step changes the table: a call enters its registration and takes it out; pruning takes out those whose
      receiver is gone, and no others; after a failed delivery that one registration goes. */
  lemma TableIff(s: State, t: Step, c: Identifier)
    requires Enabled(s, t)
    ensures c in Apply(s, t).pending <==>
            t == CallPush(c) ||
            (&& c in s.pending && t != CallRemove(c)
             && !(t.Prune? && (c !in s.calls || s.calls[c].phase.Done? || s.calls[c].phase.Cancelled?))
             && !(t.Purge? && s.dispatcher.event.context == Some(c)))
  {
    hide NextCall, ForwardFate, Without, KeepOpen;
  }

  /** Nobody but the call itself takes a registered call's entry out of the table. */
  lemma EntryRemovedOnlyByItsCall(steps: seq<Step>, t: Step, c: Identifier)
    requires CanRun(Initial, steps) && Enabled(Run(Initial, steps), t)
    requires c in Run(Initial, steps).calls && Registered(Run(Initial, steps).calls[c].phase)
    ensures var s := Run(Initial, steps);
            c in s.pending && (c in Apply(s, t).pending || t == CallRemove(c))
  {
    ReachableInv(steps);
    hide Run, CanRun;
    var s := Run(Initial, steps);
    assert CallInv(s, c);
    TableChanges(s, t);
  }

  /** The "command response channel closed" branch of the receive loop cannot be taken. */
  lemma ChannelNeverClosesEarly(steps: seq<Step>, c: Identifier)
    requires CanRun(Initial, steps)
    ensures !Enabled(Run(Initial, steps), CallChannelClosed(c))
  {
    ReachableInv(steps);
    hide Run, CanRun;
    var s := Run(Initial, steps);
    if c in s.calls { assert CallInv(s, c); }
  }

  // ---------- Progress ----------

  /** Steps by which the holder gives the table's lock back. */
  function ReleaseLock(s: State): seq<Step> {
    match s.lock
    case Free => []
    case ByCall(d) =>
      if d in s.calls && s.calls[d].phase.Pushing? then [CallPush(d)] else [CallRemove(d)]
    case ByDispatcher =>
      if s.dispatcher.Pruning? then [Prune, Find] else if s.dispatcher.Finding? then [Find] else [Purge]
  }

  /** The lock is never held by a task that waits for something: at most two steps free it. */
  lemma LockIsAlwaysReleased(s: State)
    requires Inv(s)
    ensures |ReleaseLock(s)| <= 2 && CanRun(s, ReleaseLock(s))
    ensures Run(s, ReleaseLock(s)).lock.Free?
  {
    hide CallInv, TableInv;
    match s.lock
    case Free =>
    case ByCall(d) => assert HoldsLock(s.calls[d].phase);
    case ByDispatcher =>
      if s.dispatcher.Pruning? {
        assert [Prune, Find][1..] == [Find];
      }
  }

  /** What the dispatcher does next. */
  function OwnStep(s: State): Step {
    match s.dispatcher
    case Receiving => ReceiveFails
    case Stopped => Restart
    case Matching(_) => MatchLock
    case Pruning(_) => Prune
    case Finding(_) => Find
    case Evicting(_) => EvictLock
    case Purging(_) => Purge
    case Forwarding(_) => Forward
    case Delivering(e) =>
      if e.context.Some? && e.context.value in s.calls && IsOpen(s.calls[e.context.value])
      then Deliver else DeliverFails
  }

  /** Ordinary steps of callers: no deadline, no cancellation, no transport failure. */
  predicate Cooperative(t: Step) {
    t.CallLock? || t.CallPush? || t.CallReceive? || t.CallRemove? || t.CallReturn? || (t.SendReturns? && t.ok)
  }

  /** Steps of callers after which the dispatcher can move. */
  function Unblock(s: State): seq<Step> {
    match s.dispatcher
    case Matching(_) => ReleaseLock(s)
    case Evicting(_) => ReleaseLock(s)
    case Delivering(e) =>
      if Enabled(s, OwnStep(s)) || e.context.None? || e.context.value !in s.calls then []
      else
        var c := e.context.value;
        var p := s.calls[c].phase;
        if p.Sending? then [SendReturns(c, true), CallReceive(c)]
        else if p.Waiting? then [CallReceive(c)]
        else if p.Leaving? then ReleaseLock(s) + [CallLock(c), CallRemove(c), CallReturn(c)]
        else if p.Removing? then [CallRemove(c), CallReturn(c)]
        else [CallReturn(c)]
    case _ => []
  }

  lemma RunNone(s: State)
    ensures CanRun(s, []) && Run(s, []) == s
  {
  }

  lemma RunOne(s: State, t: Step)
    requires Enabled(s, t)
    ensures CanRun(s, [t]) && Run(s, [t]) == Apply(s, t)
  {
    assert [t][1..] == [];
  }

  lemma {:induction false} RunConcat(s: State, first: seq<Step>, second: seq<Step>)
    requires CanRun(s, first) && CanRun(Run(s, first), second)
    ensures CanRun(s, first + second) && Run(s, first + second) == Run(Run(s, first), second)
    decreases |first|
  {
    hide Apply, Enabled;
    if first == [] {
      assert first + second == second;
    } else {
      RunConcat(Apply(s, first[0]), first[1..], second);
      assert (first + second)[1..] == first[1..] + second;
    }
  }

  lemma RunTwo(s: State, t: Step, u: Step)
    requires Enabled(s, t) && Enabled(Apply(s, t), u)
    ensures CanRun(s, [t, u]) && Run(s, [t, u]) == Apply(Apply(s, t), u)
  {
    hide Apply, Enabled, Run, CanRun;
    RunOne(s, t);
    RunOne(Apply(s, t), u);
    RunConcat(s, [t], [u]);
    assert [t] + [u] == [t, u];
  }

  /** A blocked send has an open owner with a full queue, and the dispatcher does not hold the lock. */
  lemma BlockedSendHasLiveOwner(s: State)
    requires Inv(s) && s.dispatcher.Delivering? && !Enabled(s, Deliver) && !Enabled(s, DeliverFails)
    ensures s.lock != ByDispatcher
    ensures var c := s.dispatcher.event.context.value;
            && c in s.calls && IsOpen(s.calls[c]) && !Unsent(s.calls[c].phase)
            && |s.calls[c].queue| == COMMAND_EVENT_BUFFER == 16
  {
    hide Verdict;
    assert CallInv(s, s.dispatcher.event.context.value);
  }

  lemma RemovePath(s: State, c: Identifier)
    requires c in s.calls && s.calls[c].phase.Removing? && DeliveringTo(s, c)
    ensures var path := [CallRemove(c), CallReturn(c)];
            CanRun(s, path) && Run(s, path).dispatcher == s.dispatcher && Enabled(Run(s, path), DeliverFails)
  {
    var s1 := Apply(s, CallRemove(c));
    RunTwo(s, CallRemove(c), CallReturn(c));
  }

  lemma LeavePath(s: State, c: Identifier)
    requires LockInv(s) && s.lock.Free? && c in s.calls && s.calls[c].phase.Leaving?
    requires DeliveringTo(s, c)
    ensures var path := [CallLock(c), CallRemove(c), CallReturn(c)];
            CanRun(s, path) && Run(s, path).dispatcher == s.dispatcher && Enabled(Run(s, path), DeliverFails)
  {
    var s1 := Apply(s, CallLock(c));
    RemovePath(s1, c);
    hide Apply, Enabled;
    assert [CallLock(c), CallRemove(c), CallReturn(c)][1..] == [CallRemove(c), CallReturn(c)];
  }

  lemma ReceivePath(s: State, c: Identifier)
    requires c in s.calls && s.calls[c].phase.Waiting? && DeliveringTo(s, c)
    requires |s.calls[c].queue| == COMMAND_EVENT_BUFFER
    ensures Enabled(s, CallReceive(c))
    ensures Apply(s, CallReceive(c)).dispatcher == s.dispatcher && Enabled(Apply(s, CallReceive(c)), Deliver)
  {
  }

  lemma ReturnPath(s: State, c: Identifier)
    requires c in s.calls && s.calls[c].phase.Returning? && DeliveringTo(s, c)
    ensures CanRun(s, [CallReturn(c)]) && Run(s, [CallReturn(c)]).dispatcher == s.dispatcher
    ensures Enabled(Run(s, [CallReturn(c)]), DeliverFails) && OwnStep(Run(s, [CallReturn(c)])) == DeliverFails
  {
    RunOne(s, CallReturn(c));
  }

  lemma SendThenReceive(s: State, c: Identifier)
    requires c in s.calls && s.calls[c].phase.Sending? && DeliveringTo(s, c)
    requires |s.calls[c].queue| == COMMAND_EVENT_BUFFER
    ensures var path := [SendReturns(c, true), CallReceive(c)];
            CanRun(s, path) && Run(s, path).dispatcher == s.dispatcher && Enabled(Run(s, path), Deliver)
  {
    var s1 := Apply(s, SendReturns(c, true));
    ReceivePath(s1, c);
    RunTwo(s, SendReturns(c, true), CallReceive(c));
  }

  /** Releasing the lock leaves the dispatcher and every call that waits for the lock where they are. */
  lemma ReleaseKeepsWaiters(s: State)
    requires Inv(s) && !DispatcherHoldsLock(s.dispatcher)
    ensures CanRun(s, ReleaseLock(s)) && Run(s, ReleaseLock(s)).lock.Free?
    ensures Run(s, ReleaseLock(s)).dispatcher == s.dispatcher
    ensures forall t :: t in ReleaseLock(s) ==> Cooperative(t)
    ensures forall c :: c in s.calls && !HoldsLock(s.calls[c].phase) ==>
                          c in Run(s, ReleaseLock(s)).calls && Run(s, ReleaseLock(s)).calls[c] == s.calls[c]
  {
    LockIsAlwaysReleased(s);
    hide CallInv, TableInv, HandInv;
    if s.lock.ByCall? { RunOne(s, ReleaseLock(s)[0]); }
  }

  lemma BlockedSendIsUnblocked(s: State)
    requires Inv(s) && s.dispatcher.Delivering? && !Enabled(s, OwnStep(s))
    ensures |Unblock(s)| <= 4 && (forall t :: t in Unblock(s) ==> Cooperative(t))
    ensures CanRun(s, Unblock(s)) && Run(s, Unblock(s)).dispatcher == s.dispatcher
    ensures Enabled(Run(s, Unblock(s)), OwnStep(Run(s, Unblock(s))))
  {
    hide CallInv, TableInv, Apply, Run, CanRun;
    BlockedSendHasLiveOwner(s);
    var c := s.dispatcher.event.context.value;
    var p := s.calls[c].phase;
    if p.Sending? {
      SendThenReceive(s, c);
    } else if p.Waiting? {
      ReceivePath(s, c);
      RunOne(s, CallReceive(c));
    } else if p.Leaving? {
      ReleaseKeepsWaiters(s);
      var s1 := Run(s, ReleaseLock(s));
      RunKeeps(s, ReleaseLock(s));
      LeavePath(s1, c);
      RunConcat(s, ReleaseLock(s), [CallLock(c), CallRemove(c), CallReturn(c)]);
    } else if p.Removing? {
      RemovePath(s, c);
    } else {
      ReturnPath(s, c);
    }
  }

  /** No deadlock: whatever the dispatcher has in hand, at most four ordinary steps of callers let it move. */
  lemma DispatcherCanAlwaysMove(s: State)
    requires Inv(s) && !s.dispatcher.Receiving? && !s.dispatcher.Stopped?
    ensures |Unblock(s)| <= 4 && (forall t :: t in Unblock(s) ==> Cooperative(t))
    ensures CanRun(s, Unblock(s)) && Run(s, Unblock(s)).dispatcher == s.dispatcher
    ensures Enabled(Run(s, Unblock(s)), OwnStep(Run(s, Unblock(s))))
  {
    hide LockInv, CallInv, TableInv, Apply, Run, CanRun;
    if s.dispatcher.Delivering? && !Enabled(s, OwnStep(s)) {
      BlockedSendIsUnblocked(s);
    } else {
      RunNone(s);
      if s.dispatcher.Matching? || s.dispatcher.Evicting? { ReleaseKeepsWaiters(s); }
    }
  }

  /** The same for every reachable state, together with the lock: no run ends in a deadlock. */
  lemma NoReachableDeadlock(steps: seq<Step>)
    requires CanRun(Initial, steps)
    ensures var s := Run(Initial, steps);
            && CanRun(s, ReleaseLock(s)) && Run(s, ReleaseLock(s)).lock.Free?
            && (InHand(s.dispatcher).Some? ==>
                  CanRun(s, Unblock(s)) && Enabled(Run(s, Unblock(s)), OwnStep(Run(s, Unblock(s)))))
  {
    ReachableInv(steps);
    hide CallInv, TableInv, Apply, Enabled, CanRun, Run, ReleaseLock, Unblock, OwnStep;
    var s := Run(Initial, steps);
    LockIsAlwaysReleased(s);
    if InHand(s.dispatcher).Some? { DispatcherCanAlwaysMove(s); }
  }

  // ---------- Every message can be settled ----------

  /** The steps the dispatcher still has to take with the message in hand, at most. */
  function WorkLeft(d: Dispatcher): nat {
    match d
    case Receiving => 0
    case Stopped => 0
    case Forwarding(_) => 1
    case Purging(_) => 2
    case Evicting(_) => 3
    case Delivering(_) => 4
    case Finding(_) => 5
    case Pruning(_) => 6
    case Matching(_) => 7
  }

  /** Steps of the dispatcher with a message in hand, other than being aborted. */
  predicate Dispatches(t: Step) {
    t.MatchLock? || t.Prune? || t.Find? || t.Deliver? || t.DeliverFails? || t.EvictLock? || t.Purge? || t.Forward?
  }

  lemma OwnStepAdvances(s: State)
    requires InHand(s.dispatcher).Some? && Enabled(s, OwnStep(s))
    ensures Dispatches(OwnStep(s)) && WorkLeft(Apply(s, OwnStep(s)).dispatcher) < WorkLeft(s.dispatcher)
  {
    hide NextCall, ForwardFate, Without, KeepOpen;
  }

  lemma HandIsWork(s: State)
    ensures InHand(s.dispatcher).Some? <==> !s.dispatcher.Receiving? && !s.dispatcher.Stopped?
  {
  }

  /** In every reachable state, the dispatcher can settle the message it has in hand: by its own steps and ordinary
      steps of callers, without losing it. */
  lemma {:induction false} MessageCanAlwaysBeSettled(s: State) returns (steps: seq<Step>)
    requires Inv(s)
    ensures CanRun(s, steps) && InHand(Run(s, steps).dispatcher) == None
    ensures forall t :: t in steps ==> Dispatches(t) || Cooperative(t)
    decreases WorkLeft(s.dispatcher)
  {
    hide Inv, Apply, Enabled, Run, CanRun, Unblock, OwnStep, Dispatches, Cooperative, WorkLeft, InHand;
    HandIsWork(s);
    RunNone(s);
    steps := [];
    if InHand(s.dispatcher).Some? {
      DispatcherCanAlwaysMove(s);
      var mid := Run(s, Unblock(s));
      RunKeeps(s, Unblock(s));
      var t := OwnStep(mid);
      OwnStepAdvances(mid);
      StepKeeps(mid, t);
      var rest := MessageCanAlwaysBeSettled(Apply(mid, t));
      RunOne(mid, t);
      RunConcat(mid, [t], rest);
      RunConcat(s, Unblock(s), [t] + rest);
      steps := Unblock(s) + ([t] + rest);
    }
  }

  // ---------- An answer is returned ----------

  lemma RunCons(s: State, t: Step, next: State, rest: seq<Step>)
    requires Enabled(s, t) && Apply(s, t) == next && CanRun(next, rest)
    ensures CanRun(s, [t] + rest) && Run(s, [t] + rest) == Run(next, rest)
  {
    assert ([t] + rest)[1..] == rest;
  }

  function FindSteps(): seq<Step> {
    [MatchLock] + ([Prune] + ([Find] + ([Deliver] + [])))
  }

  lemma FindPath(s: State, c: Identifier, e: EventMessage)
    requires s.dispatcher == Matching(e) && e.context == Some(c) && s.lock.Free?
    requires c in s.calls && IsOpen(s.calls[c]) && c in s.pending && |s.calls[c].queue| < 16
    ensures CanRun(s, FindSteps())
    ensures var s' := Run(s, FindSteps());
            s'.lock.Free? && s'.calls == s.calls[c := s.calls[c].(queue := s.calls[c].queue + [e])]
  {
    hide Run, CanRun, KeepOpen;
    var s1 := s.(dispatcher := Pruning(e), lock := ByDispatcher);
    var s2 := s1.(dispatcher := Finding(e), pending := KeepOpen(s.pending, s.calls));
    var s3 := s2.(dispatcher := Delivering(e), lock := Free);
    var s4 := Apply(s3, Deliver);
    RunNone(s4);
    RunCons(s3, Deliver, s4, []);
    RunCons(s2, Find, s3, [Deliver] + []);
    RunCons(s1, Prune, s2, [Find] + ([Deliver] + []));
    RunCons(s, MatchLock, s1, [Prune] + ([Find] + ([Deliver] + [])));
  }

  function ReturnSteps(c: Identifier): seq<Step> {
    [CallReceive(c)] + ([CallLock(c)] + ([CallRemove(c)] + ([CallReturn(c)] + [])))
  }

  lemma ReturnsAnswer(s: State, c: Identifier, e: EventMessage)
    requires c in s.calls && s.calls[c].phase.Waiting? && s.calls[c].queue == [e] && s.lock.Free?
    requires e.context == Some(c) && Decisive(s.calls[c], e)
    ensures CanRun(s, ReturnSteps(c))
    ensures c in Run(s, ReturnSteps(c)).calls && Run(s, ReturnSteps(c)).calls[c].phase == Done(OutcomeOf(e))
  {
    hide Run, CanRun, Without;
    var s1 := Apply(s, CallReceive(c));
    var s2 := Apply(s1, CallLock(c));
    var s3 := Apply(s2, CallRemove(c));
    var s4 := Apply(s3, CallReturn(c));
    RunNone(s4);
    RunCons(s3, CallReturn(c), s4, []);
    RunCons(s2, CallRemove(c), s3, [CallReturn(c)] + []);
    RunCons(s1, CallLock(c), s2, [CallRemove(c)] + ([CallReturn(c)] + []));
    RunCons(s, CallReceive(c), s1, [CallLock(c)] + ([CallRemove(c)] + ([CallReturn(c)] + [])));
  }

  /** In every reachable state with an idle dispatcher and a free lock, a call that waits with nothing queued is
      answered by the next decisive event of its own: once the device has the command and sends the event, the
      call can return it. */
  lemma AnswerReturns(s: State, c: Identifier, e: EventMessage)
    requires Inv(s) && s.dispatcher.Receiving? && s.lock.Free?
    requires c in s.calls && s.calls[c].phase.Waiting? && s.calls[c].queue == []
    requires e.context == Some(c) && Decisive(s.calls[c], e)
    ensures var steps := ([Transmit(c)] + ([Receive(Evt(e))] + FindSteps())) + ReturnSteps(c);
            CanRun(s, steps) && c in Run(s, steps).calls && Run(s, steps).calls[c].phase == Done(OutcomeOf(e))
  {
    hide Run, CanRun, FindSteps, ReturnSteps, Verdict;
    assert CallInv(s, c);
    var s1 := s.(sent := s.sent + {c});
    var s2 := s1.(dispatcher := Matching(e));
    FindPath(s2, c, e);
    var s3 := Run(s2, FindSteps());
    assert s3.calls[c].queue == [] + [e] == [e];
    ReturnsAnswer(s3, c, e);
    RunCons(s1, Receive(Evt(e)), s2, FindSteps());
    RunCons(s, Transmit(c), s1, [Receive(Evt(e))] + FindSteps());
    RunConcat(s, [Transmit(c)] + ([Receive(Evt(e))] + FindSteps()), ReturnSteps(c));
  }

  // ---------- Every call can return ----------

  lemma DispatcherKeepsCalls(s: State, t: Step)
    requires Enabled(s, t) && (t.Prune? || t.Find? || t.Purge?)
    ensures Apply(s, t).calls == s.calls
  {
  }

  lemma PruneThenFind(s: State)
    requires s.dispatcher.Pruning?
    ensures CanRun(s, [Prune, Find]) && Run(s, [Prune, Find]).calls == s.calls
  {
    hide KeepOpen, Run, CanRun;
    RunTwo(s, Prune, Find);
  }

  lemma OneEnabled(s: State, t: Step)
    requires CanRun(s, [t])
    ensures Enabled(s, t)
  {
  }

  lemma ReleaseKeepsCall(s: State, c: Identifier)
    requires Inv(s) && c in s.calls && !HoldsLock(s.calls[c].phase)
    ensures CanRun(s, ReleaseLock(s)) && Run(s, ReleaseLock(s)).lock.Free?
    ensures c in Run(s, ReleaseLock(s)).calls && Run(s, ReleaseLock(s)).calls[c] == s.calls[c]
  {
    hide CallInv, TableInv, HandInv, Apply, Run, CanRun;
    LockIsAlwaysReleased(s);
    if s.dispatcher.Pruning? {
      PruneThenFind(s);
    } else if DispatcherHoldsLock(s.dispatcher) {
      var t := if s.dispatcher.Finding? then Find else Purge;
      OneEnabled(s, t);
      RunOne(s, t);
      DispatcherKeepsCalls(s, t);
    } else {
      ReleaseKeepsWaiters(s);
    }
  }

  /** The steps a call still has to take. */
  function StepsLeft(p: Phase): nat {
    match p
    case Registering => 7
    case Pushing => 6
    case Sending => 5
    case Waiting => 4
    case Leaving(_) => 3
    case Removing(_) => 2
    case Returning(_) => 1
    case Done(_) => 0
    case Cancelled => 0
  }

  /** What a call does next when nothing arrives for it. */
  function NextOf(c: Identifier, p: Phase): Step {
    match p
    case Pushing => CallPush(c)
    case Sending => SendReturns(c, true)
    case Waiting => Deadline(c)
    case Removing(_) => CallRemove(c)
    case Returning(_) => CallReturn(c)
    case _ => CallLock(c)
  }

  lemma NextIsEnabled(s: State, c: Identifier)
    requires c in s.calls && IsOpen(s.calls[c])
    requires s.calls[c].phase.Registering? || s.calls[c].phase.Leaving? ==> s.lock.Free?
    ensures Enabled(s, NextOf(c, s.calls[c].phase))
    ensures var after := Apply(s, NextOf(c, s.calls[c].phase));
            && c in after.calls && !after.calls[c].phase.Cancelled?
            && StepsLeft(after.calls[c].phase) + 1 == StepsLeft(s.calls[c].phase)
  {
  }

  /** In every reachable state, a call in flight can return by its own steps and those of whoever holds the lock,
      even if the device never answers. */
  lemma {:induction false} CallCanAlwaysReturn(s: State, c: Identifier) returns (steps: seq<Step>)
    requires Inv(s) && c in s.calls && !s.calls[c].phase.Cancelled?
    ensures CanRun(s, steps) && c in Run(s, steps).calls && Run(s, steps).calls[c].phase.Done?
    decreases StepsLeft(s.calls[c].phase), if s.lock.Free? then 0 else 1
  {
    hide Inv, Apply, Enabled, Run, CanRun, ReleaseLock, NextOf;
    var p := s.calls[c].phase;
    if p.Done? {
      RunNone(s);
      steps := [];
    } else if (p.Registering? || p.Leaving?) && !s.lock.Free? {
      ReleaseKeepsCall(s, c);
      RunKeeps(s, ReleaseLock(s));
      steps := CallCanAlwaysReturn(Run(s, ReleaseLock(s)), c);
      RunConcat(s, ReleaseLock(s), steps);
      steps := ReleaseLock(s) + steps;
    } else {
      var t := NextOf(c, p);
      NextIsEnabled(s, c);
      StepKeeps(s, t);
      steps := CallCanAlwaysReturn(Apply(s, t), c);
      RunOne(s, t);
      RunConcat(s, [t], steps);
      steps := [t] + steps;
    }
  }
}
