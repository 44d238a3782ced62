// The shared object behind every `RemoteRuntime`, and the code its tasks run between two waits. Each method
// takes the abstract state it starts in and leaves the object representing the state the step leads to.
module RemoteRuntimes {
  import opened Wrappers
  import opened Dispatch

  lemma WithoutNone(c: Identifier)
    ensures Without([], c) == []
  {
  }

  lemma KeepOpenNone(calls: map<Identifier, Call>)
    ensures KeepOpen([], calls) == []
  {
  }

  lemma WithoutNext(pending: seq<Identifier>, c: Identifier)
    requires pending != []
    ensures Without(pending, c) == (if pending[0] == c then [] else [pending[0]]) + Without(pending[1..], c)
  {
  }

  lemma KeepOpenNext(pending: seq<Identifier>, calls: map<Identifier, Call>)
    requires pending != []
    ensures KeepOpen(pending, calls) ==
            (if pending[0] in calls && IsOpen(calls[pending[0]]) then [pending[0]] else []) +
            KeepOpen(pending[1..], calls)
  {
  }

  lemma RetainStep(pending: seq<Identifier>, i: nat, kept: seq<Identifier>)
    requires i < |pending|
    ensures pending[i..][0] == pending[i] && pending[i..][1..] == pending[i + 1..]
    ensures forall rest: seq<Identifier> :: kept + ([] + rest) == kept + rest
    ensures forall rest: seq<Identifier> :: kept + ([pending[i]] + rest) == kept + [pending[i]] + rest
  {
  }

  /** Receiving as long as the call waits and its queue has events. */
  function ConsumeAll(c: Identifier, k: Call): Call
    decreases |k.queue|
  {
    if k.phase.Waiting? && k.queue != [] then ConsumeAll(c, Consume(c, k)) else k
  }

  lemma ConsumeOne(c: Identifier, k: Call)
    requires k.phase.Waiting? && k.queue != []
    ensures ConsumeAll(c, k) == ConsumeAll(c, Consume(c, k))
  {
  }

  lemma ConsumeNone(c: Identifier, k: Call)
    requires !k.phase.Waiting? || k.queue == []
    ensures ConsumeAll(c, k) == k
  {
  }

  class RemoteRuntimeInner {
    var pendingCommands: seq<Identifier>
    var messages: seq<Message>
    var loggingEnabled: bool
    /** The receiving end of the unmatched queue, which this object owns, still exists. */
    var messagesOpen: bool

    ghost predicate Represents(s: State)
      reads this
    {
      pendingCommands == s.pending && messages == s.unmatched && loggingEnabled == s.logging
    }

    constructor ()
      ensures Represents(Initial) && messagesOpen
    {
      pendingCommands := [];
      messages := [];
      loggingEnabled := false;
      messagesOpen := true;
    }

    /** The critical section that enters a call in the table. */
    method PushRegistration(context: Identifier, ghost s: State)
      requires Represents(s) && Enabled(s, CallPush(context))
      modifies this
      ensures Represents(Apply(s, CallPush(context)))
    {
      pendingCommands := pendingCommands + [context];
    }

    /** `retain` by context: the loop keeps the other registrations in their order. */
    method Retain(context: Identifier)
      modifies this`pendingCommands
      ensures pendingCommands == Without(old(pendingCommands), context)
    {
      hide Without;
      var kept: seq<Identifier> := [];
      assert pendingCommands[0..] == pendingCommands;
      assert kept + Without(pendingCommands, context) == Without(pendingCommands, context);
      for i := 0 to |pendingCommands|
        invariant pendingCommands == old(pendingCommands)
        invariant kept + Without(pendingCommands[i..], context) == Without(pendingCommands, context)
      {
        RetainStep(pendingCommands, i, kept);
        WithoutNext(pendingCommands[i..], context);
        if pendingCommands[i] != context {
          kept := kept + [pendingCommands[i]];
        }
      }
      WithoutNone(context);
      assert pendingCommands[|pendingCommands|..] == [] && kept + [] == kept;
      pendingCommands := kept;
    }

    /** `retain` by open receiver. */
    method RetainOpen(calls: map<Identifier, Call>)
      modifies this`pendingCommands
      ensures pendingCommands == KeepOpen(old(pendingCommands), calls)
    {
      hide KeepOpen;
      var kept: seq<Identifier> := [];
      assert pendingCommands[0..] == pendingCommands;
      assert kept + KeepOpen(pendingCommands, calls) == KeepOpen(pendingCommands, calls);
      for i := 0 to |pendingCommands|
        invariant pendingCommands == old(pendingCommands)
        invariant kept + KeepOpen(pendingCommands[i..], calls) == KeepOpen(pendingCommands, calls)
      {
        RetainStep(pendingCommands, i, kept);
        KeepOpenNext(pendingCommands[i..], calls);
        var context := pendingCommands[i];
        if context in calls && IsOpen(calls[context]) {
          kept := kept + [context];
        }
      }
      KeepOpenNone(calls);
      assert pendingCommands[|pendingCommands|..] == [] && kept + [] == kept;
      pendingCommands := kept;
    }

    /** The critical section that takes a call out of the table, used by the call itself and by the
        dispatcher after a failed delivery. */
    method RemovePendingRegistration(context: Identifier, ghost s: State)
      requires Represents(s)
      requires Enabled(s, CallRemove(context)) || (Enabled(s, Purge) && s.dispatcher.event.context == Some(context))
      modifies this
      ensures s.dispatcher.Purging? && !Enabled(s, CallRemove(context)) ==> Represents(Apply(s, Purge))
      ensures Enabled(s, CallRemove(context)) ==> Represents(Apply(s, CallRemove(context)))
    {
      Retain(context);
    }

    /** The dispatcher's critical section: drop registrations whose receiver is closed, then look the context up. */
    method FindRegistration(event: EventMessage, calls: map<Identifier, Call>, ghost s: State) returns (found: bool)
      requires event.context.Some? && s.dispatcher == Pruning(event) && calls == s.calls && Represents(s)
      modifies this
      ensures Enabled(s, Prune) && Enabled(Apply(s, Prune), Find)
      ensures var s' := Apply(Apply(s, Prune), Find);
              Represents(s') && s'.dispatcher == if found then Delivering(event) else Forwarding(Evt(event))
    {
      hide KeepOpen;
      RetainOpen(calls);
      found := false;
      for i := 0 to |pendingCommands|
        invariant found <==> event.context.value in pendingCommands[..i]
      {
        if pendingCommands[i] == event.context.value {
          found := true;
        }
      }
      assert pendingCommands[..|pendingCommands|] == pendingCommands;
    }

    method EnableLogging(ghost s: State)
      requires Represents(s)
      modifies this`loggingEnabled
      ensures loggingEnabled && Represents(Apply(s, Step.EnableLogging))
    {
      loggingEnabled := true;
    }

    /** `goesOn` is the answer that keeps the dispatcher's loop running. */
    method ForwardUnmatchedMessage(message: Message, ghost s: State) returns (fate: Fate, goesOn: bool)
      requires Represents(s) && s.dispatcher == Forwarding(message)
      modifies this`messages
      ensures goesOn <==> messagesOpen || fate == Logged
      ensures goesOn ==>
                Represents(Apply(s, Forward)) &&
                Apply(s, Forward).history == s.history + [Settled(message, fate)]
      ensures fate == Logged <==> loggingEnabled && message.Evt? && message.event.event.Log?
      ensures fate == Queued <==> fate != Logged && messagesOpen && |old(messages)| < 64
      ensures fate == Logged || fate == Queued || fate == Dropped
      ensures messages == if fate == Queued then old(messages) + [message] else old(messages)
    {
      if message.Evt? && message.event.event.Log? && loggingEnabled {
        return Logged, true;
      }
      if !messagesOpen {
        return Dropped, false;
      }
      if |messages| < MESSAGE_BUFFER {
        messages := messages + [message];
        return Queued, true;
      }
      fate, goesOn := Dropped, true;
    }

    /** The call's receive loop over what its queue holds until the deadline, or until the queue is closed: it
        stops at the first event of its own context that is an error or terminal and reports that one, and
        times out, or reports the closed queue, when there is none. However it ends, the call takes its
        registration out of the table. */
    method AwaitResponse(c: Identifier, terminal: EventMessage -> bool, arrivals: seq<EventMessage>, closes: bool)
      returns (outcome: Outcome, taken: nat)
      modifies this`pendingCommands
      ensures pendingCommands == Without(old(pendingCommands), c)
      ensures taken <= |arrivals|
      ensures var k := ConsumeAll(c, Call(Waiting, arrivals, [], [], terminal));
              && k.consumed == arrivals[..taken]
              && k.phase == if outcome.Timeout? || outcome.ChannelClosed? then Waiting else Leaving(outcome)
      ensures !(outcome.DeviceError? || outcome.Response?) ==>
                && outcome == (if closes then ChannelClosed else Timeout) && taken == |arrivals|
                && forall e :: e in arrivals && e.context == Some(c) ==> !e.event.Failure? && !terminal(e)
      ensures outcome.DeviceError? || outcome.Response? ==>
                && taken > 0 && arrivals[taken - 1].context == Some(c)
                && forall j :: 0 <= j < taken - 1 && arrivals[j].context == Some(c) ==>
                                 !arrivals[j].event.Failure? && !terminal(arrivals[j])
      ensures outcome.DeviceError? ==> arrivals[taken - 1].event == Failure(outcome.error)
      ensures outcome.Response? ==>
                outcome.event == arrivals[taken - 1] && terminal(outcome.event) && !outcome.event.event.Failure?
    {
      hide ConsumeAll;
      taken := 0;
      ghost var k := Call(Waiting, arrivals, [], [], terminal);
      while taken < |arrivals|
        invariant taken <= |arrivals| && pendingCommands == old(pendingCommands)
        invariant k == Call(Waiting, arrivals[taken..], arrivals[..taken], [], terminal)
        invariant ConsumeAll(c, k) == ConsumeAll(c, Call(Waiting, arrivals, [], [], terminal))
        invariant forall j :: 0 <= j < taken && arrivals[j].context == Some(c) ==>
                                !arrivals[j].event.Failure? && !terminal(arrivals[j])
      {
        var response := arrivals[taken];
        ConsumeOne(c, k);
        k := Consume(c, k);
        taken := taken + 1;
        assert arrivals[..taken] == arrivals[..taken - 1] + [response];
        if response.context != Some(c) {
          continue;
        }
        if response.event.Failure? {
          ConsumeNone(c, k);
          Retain(c);
          return DeviceError(response.event.error), taken;
        }
        if terminal(response) {
          ConsumeNone(c, k);
          Retain(c);
          return Response(response), taken;
        }
      }
      ConsumeNone(c, k);
      Retain(c);
      outcome := if closes then ChannelClosed else Timeout;
    }
  }
}
