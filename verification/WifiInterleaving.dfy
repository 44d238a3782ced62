// The discovery round and `exclude_host_id` running side by side: one discovery task, any number of
// exclusion tasks, the shared list and exclusion set behind their locks, and the bounded event channel.
// Each step is what one task does between two points where another may run.
module WifiInterleaving {
  import opened Wrappers
  import opened WifiDiscovery

  /** What a round keeps to itself: the exclusion set it copied, the hosts it has seen, the sightings still
      to look at, and the events it will send when it is over. */
  datatype Local = Local(snapshot: set<HostId>, seen: set<HostId>, devices: seq<Device>, events: seq<Event>)

  datatype Task =
    | Idle
    | Discovered(devices: seq<Device>)
    | Scanning(local: Local)
    | Connecting(local: Local, host: HostId)
    | Inserting(local: Local, host: HostId)
    | Disconnecting(missing: seq<HostId>, events: seq<Event>)
    | Sending(events: seq<Event>)

  /** An exclusion that has entered the set, or has also taken the runtime out and still has to report it. */
  datatype Excluder = Marked(host: HostId) | Removed(host: HostId)

  datatype State = State(
    connected: seq<Connected>,
    excluded: set<HostId>,
    task: Task,
    excluders: multiset<Excluder>,
    channel: seq<Event>,
    received: seq<Event>,
    dropped: seq<Event>)

  datatype Step =
    | Discover(devices: seq<Device>)
    | Snapshot
    | Look
    | Connect(ok: bool)
    | Insert
    | Age
    | Disconnect
    | StartSending
    | Send
    | Finish
    | StopDiscovery
    | ExcludeMark(host: HostId)
    | ExcludeRemove(host: HostId)
    | ExcludeSend(host: HostId)
    | ExcludeCancel(host: HostId)
    | Unexclude(host: HostId)
    | NextEvent

  function Start(s: Env): State {
    State(s.connected, s.excluded, Idle, multiset{}, [], [], [])
  }

  predicate Enabled(s: State, t: Step) {
    match t
    case Discover(_) => s.task.Idle?
    case Snapshot => s.task.Discovered?
    case Look => s.task.Scanning? && s.task.local.devices != []
    case Connect(_) => s.task.Connecting?
    case Insert => s.task.Inserting?
    case Age => s.task.Scanning? && s.task.local.devices == []
    case Disconnect => s.task.Disconnecting? && s.task.missing != []
    case StartSending => s.task.Disconnecting? && s.task.missing == []
    case Send => s.task.Sending? && s.task.events != [] && |s.channel| < RUNTIME_EVENT_CHANNEL_SIZE
    case Finish => s.task.Sending? && s.task.events == []
    case StopDiscovery => s.task.Idle? || s.task.Connecting? || s.task.Disconnecting? || s.task.Sending?
    case ExcludeMark(_) => true
    case ExcludeRemove(h) => Marked(h) in s.excluders
    case ExcludeSend(h) => Removed(h) in s.excluders
    case ExcludeCancel(h) => Removed(h) in s.excluders
    case Unexclude(_) => true
    case NextEvent => s.channel != []
  }

  /** The events the discovery task still has to send, including the departures it has decided on. */
  function Buffered(task: Task): seq<Event> {
    match task
    case Idle => []
    case Discovered(_) => []
    case Scanning(local) => local.events
    case Connecting(local, _) => local.events
    case Inserting(local, _) => local.events
    case Disconnecting(missing, events) => events + Departures(missing)
    case Sending(events) => events
  }

  function LookAt(tokens: Tokens, s: State, local: Local, d: Device): State {
    if !Eligible(tokens, local.snapshot, d) || d.hostId.value in local.seen then s.(task := Scanning(local))
    else
      var h := d.hostId.value;
      var marked := local.(seen := local.seen + {h});
      var i := Position(s.connected, h);
      if i < |s.connected| then
        s.(connected := s.connected[i := s.connected[i].(missed := 0)], task := Scanning(marked))
      else s.(task := Connecting(marked, h))
  }

  function Apply(tokens: Tokens, s: State, t: Step): State
    requires Enabled(s, t)
  {
    match t
    case Discover(devices) => s.(task := Discovered(devices))
    case Snapshot => s.(task := Scanning(Local(s.excluded, {}, s.task.devices, [])))
    case Look =>
      var local := s.task.local;
      LookAt(tokens, s, local.(devices := local.devices[1..]), local.devices[0])
    case Connect(ok) => s.(task := if ok then Inserting(s.task.local, s.task.host) else Scanning(s.task.local))
    case Insert =>
      var h := s.task.host;
      var local := s.task.local;
      if Holds(s.connected, h) then s.(task := Scanning(local))
      else
        s.(connected := s.connected + [Connected(h, 0)],
           task := Scanning(local.(events := local.events + [Arrived(h)])))
    case Age =>
      var local := s.task.local;
      s.(connected := Kept(s.connected, local.seen),
         task := Disconnecting(GivenUp(s.connected, local.seen), local.events))
    case Disconnect =>
      s.(task := Disconnecting(s.task.missing[1..], s.task.events + [Left(s.task.missing[0])]))
    case StartSending => s.(task := Sending(s.task.events))
    case Send => s.(channel := s.channel + [s.task.events[0]], task := Sending(s.task.events[1..]))
    case Finish => s.(task := Idle)
    case StopDiscovery => s.(task := Idle, dropped := s.dropped + Buffered(s.task))
    case ExcludeMark(h) =>
      if h in s.excluded then s else s.(excluded := s.excluded + {h}, excluders := s.excluders + multiset{Marked(h)})
    case ExcludeRemove(h) =>
      var rest := s.excluders - multiset{Marked(h)};
      if Holds(s.connected, h) then s.(connected := Without(s.connected, h), excluders := rest + multiset{Removed(h)})
      else s.(excluders := rest)
    case ExcludeSend(h) =>
      var after := s.(excluders := s.excluders - multiset{Removed(h)});
      if |s.channel| < RUNTIME_EVENT_CHANNEL_SIZE then after.(channel := s.channel + [Left(h)])
      else after.(dropped := s.dropped + [Left(h)])
    case ExcludeCancel(h) =>
      s.(excluders := s.excluders - multiset{Removed(h)}, dropped := s.dropped + [Left(h)])
    case Unexclude(h) => s.(excluded := s.excluded - {h})
    case NextEvent => s.(channel := s.channel[1..], received := s.received + [s.channel[0]])
  }

  predicate CanRun(tokens: Tokens, s: State, steps: seq<Step>)
    decreases |steps|
  {
    steps != [] ==> Enabled(s, steps[0]) && CanRun(tokens, Apply(tokens, s, steps[0]), steps[1..])
  }

  function RunSteps(tokens: Tokens, s: State, steps: seq<Step>): State
    requires CanRun(tokens, s, steps)
    decreases |steps|
  {
    if steps == [] then s else RunSteps(tokens, Apply(tokens, s, steps[0]), steps[1..])
  }

  // ---------- Balance ----------

  function Member(connected: seq<Connected>, h: HostId): nat {
    if Holds(connected, h) then 1 else 0
  }

  function Count(events: seq<Event>, e: Event): nat {
    if events == [] then 0 else Count(events[..|events| - 1], e) + (if events[|events| - 1] == e then 1 else 0)
  }

  /** Where an event can be: received, waiting in the channel, dropped, or buffered by the round. */
  function Places(s: State): seq<Event> {
    s.received + s.channel + s.dropped + Buffered(s.task)
  }

  /** How often an event has been generated: in one of the places, or still to be reported by an exclusion. */
  function Generated(s: State, e: Event): nat {
    Count(Places(s), e) + if e.Left? then s.excluders[Removed(e.host)] else 0
  }

  ghost predicate LocalInv(local: Local) {
    local.seen !! local.snapshot
  }

  ghost predicate Safe(s: State) {
    && Distinct(s.connected)
    && (forall c :: c in s.connected ==> c.missed < MISSES_BEFORE_LEFT)
    && (match s.task
        case Scanning(local) => LocalInv(local)
        case Connecting(local, h) => LocalInv(local) && h in local.seen
        case Inserting(local, h) => LocalInv(local) && h in local.seen
        case _ => true)
  }

  /** Membership is where it started plus arrivals minus departures. */
  ghost predicate Balanced(initial: seq<Connected>, s: State, h: HostId) {
    Member(s.connected, h) + Generated(s, Left(h)) == Member(initial, h) + Generated(s, Arrived(h))
  }

  lemma {:induction false} KeptFresh(connected: seq<Connected>, seen: set<HostId>)
    ensures forall c :: c in Kept(connected, seen) ==> c.missed < MISSES_BEFORE_LEFT
  {
    if connected != [] { KeptFresh(connected[..|connected| - 1], seen); }
  }

  lemma WithoutSafe(connected: seq<Connected>, h: HostId)
    requires Distinct(connected)
    ensures Distinct(Without(connected, h))
    ensures forall c :: c in Without(connected, h) ==> c in connected
  {
    var i, after := Position(connected, h), Without(connected, h);
    assert forall j :: 0 <= j < |after| ==> after[j] == connected[if j < i then j else j + 1];
  }

  lemma StepSafe(tokens: Tokens, s: State, t: Step)
    requires Safe(s) && Enabled(s, t)
    ensures Safe(Apply(tokens, s, t))
  {
    match t
    case Age =>
      KeptDistinct(s.connected, s.task.local.seen);
      KeptFresh(s.connected, s.task.local.seen);
    case ExcludeRemove(h) => WithoutSafe(s.connected, h);
    case _ =>
  }

  lemma {:induction false} CountConcat(a: seq<Event>, b: seq<Event>, e: Event)
    ensures Count(a + b, e) == Count(a, e) + Count(b, e)
  {
    if b == [] {
      assert a + b == a;
    } else {
      CountConcat(a, b[..|b| - 1], e);
      assert (a + b)[..|a + b| - 1] == a + b[..|b| - 1];
    }
  }

  lemma CountOne(x: Event, e: Event)
    ensures Count([x], e) == if x == e then 1 else 0
  {
  }

  lemma CountPlaces(s: State, e: Event)
    ensures Count(Places(s), e) ==
            Count(s.received, e) + Count(s.channel, e) + Count(s.dropped, e) + Count(Buffered(s.task), e)
  {
    hide Count;
    CountConcat(s.received + s.channel + s.dropped, Buffered(s.task), e);
    CountConcat(s.received + s.channel, s.dropped, e);
    CountConcat(s.received, s.channel, e);
  }

  lemma {:induction false} AgeBalance(connected: seq<Connected>, seen: set<HostId>, h: HostId)
    requires Distinct(connected)
    ensures Member(Kept(connected, seen), h) + Count(Departures(GivenUp(connected, seen)), Left(h)) ==
            Member(connected, h)
    ensures Count(Departures(GivenUp(connected, seen)), Arrived(h)) == 0
  {
    if connected != [] {
      var n := |connected| - 1;
      var front, last := connected[..n], connected[n];
      AgeBalance(front, seen, h);
      assert connected == front + [last];
      HoldsSnoc(front, last, h);
      assert !Holds(front, last.host);
      match Aged(last, seen)
      case Some(c) => HoldsSnoc(Kept(front, seen), c, h);
      case None =>
        var lost := GivenUp(front, seen);
        assert Departures(lost + [last.host])[..|lost|] == Departures(lost);
    }
  }

  lemma SameHosts(a: seq<Connected>, b: seq<Connected>, h: HostId)
    requires |a| == |b| && forall i :: 0 <= i < |a| ==> a[i].host == b[i].host
    ensures Member(a, h) == Member(b, h)
  {
  }

  /** A step keeps the balance when what it adds to membership and departures equals what it adds to arrivals. */
  lemma BalanceMoves(initial: seq<Connected>, s: State, s': State, h: HostId)
    requires Balanced(initial, s, h)
    requires Member(s'.connected, h) + Generated(s', Left(h)) + Generated(s, Arrived(h)) ==
             Member(s.connected, h) + Generated(s, Left(h)) + Generated(s', Arrived(h))
    ensures Balanced(initial, s', h)
  {
  }

  lemma LookMoves(tokens: Tokens, s: State)
    requires Enabled(s, Look)
    ensures var s' := Apply(tokens, s, Look);
            && Places(s') == Places(s) && s'.excluders == s.excluders
            && |s'.connected| == |s.connected|
            && forall i :: 0 <= i < |s.connected| ==> s'.connected[i].host == s.connected[i].host
  {
    hide Eligible;
  }

  lemma InsertMoves(tokens: Tokens, s: State, h: HostId)
    requires Enabled(s, Insert)
    ensures var s' := Apply(tokens, s, Insert);
            && s'.excluders == s.excluders
            && if Holds(s.connected, s.task.host) then s'.connected == s.connected && Places(s') == Places(s)
               else s'.connected == s.connected + [Connected(s.task.host, 0)] &&
                    Places(s') == Places(s) + [Arrived(s.task.host)]
  {
    hide Holds;
  }

  lemma AgeMoves(tokens: Tokens, s: State)
    requires Enabled(s, Age)
    ensures var s' := Apply(tokens, s, Age);
            var seen := s.task.local.seen;
            && s'.excluders == s.excluders && s'.connected == Kept(s.connected, seen)
            && Places(s') == Places(s) + Departures(GivenUp(s.connected, seen))
  {
    hide Kept, GivenUp, Departures;
  }

  lemma ScanStepBalanced(tokens: Tokens, initial: seq<Connected>, s: State, t: Step, h: HostId)
    requires Distinct(s.connected) && Enabled(s, t) && Balanced(initial, s, h)
    requires t.Look? || t.Insert? || t.Age?
    ensures Balanced(initial, Apply(tokens, s, t), h)
  {
    hide Apply, Holds, Kept, GivenUp, Departures, Places, Distinct, Count;
    var s' := Apply(tokens, s, t);
    match t
    case Look =>
      LookMoves(tokens, s);
      SameHosts(s.connected, s'.connected, h);
    case Insert =>
      InsertMoves(tokens, s, h);
      HoldsSnoc(s.connected, Connected(s.task.host, 0), h);
      CountConcat(Places(s), [Arrived(s.task.host)], Arrived(h));
      CountConcat(Places(s), [Arrived(s.task.host)], Left(h));
      CountOne(Arrived(s.task.host), Arrived(h));
      CountOne(Arrived(s.task.host), Left(h));
    case Age =>
      AgeMoves(tokens, s);
      AgeBalance(s.connected, s.task.local.seen, h);
      CountConcat(Places(s), Departures(GivenUp(s.connected, s.task.local.seen)), Arrived(h));
      CountConcat(Places(s), Departures(GivenUp(s.connected, s.task.local.seen)), Left(h));
  }

  lemma BufferedHead(missing: seq<HostId>, events: seq<Event>)
    requires missing != []
    ensures events + Departures(missing) == (events + [Left(missing[0])]) + Departures(missing[1..])
  {
    assert Departures(missing) == [Left(missing[0])] + Departures(missing[1..]);
  }

  lemma DeparturesNone(events: seq<Event>)
    ensures events + Departures([]) == events
  {
  }

  lemma CountNone(e: Event)
    ensures Count([], e) == 0
  {
  }

  lemma HeadMoves(a: seq<Event>, b: seq<Event>, e: Event)
    requires b != []
    ensures Count(a + [b[0]], e) + Count(b[1..], e) == Count(a, e) + Count(b, e)
  {
    hide Count;
    CountConcat(a, [b[0]], e);
    CountConcat([b[0]], b[1..], e);
    assert [b[0]] + b[1..] == b;
  }

  /** Steps that only move events from one place to the next. */
  lemma EventsMove(tokens: Tokens, s: State, t: Step, e: Event)
    requires Enabled(s, t)
    requires t.Discover? || t.Snapshot? || t.Connect? || t.Disconnect? || t.StartSending? || t.Send? || t.Finish? ||
             t.StopDiscovery? || t.NextEvent?
    ensures var s' := Apply(tokens, s, t);
            s'.connected == s.connected && s'.excluders == s.excluders && Count(Places(s'), e) == Count(Places(s), e)
  {
    hide Departures, LookAt, Count, Places;
    var s' := Apply(tokens, s, t);
    CountPlaces(s, e);
    CountPlaces(s', e);
    match t
    case Disconnect => BufferedHead(s.task.missing, s.task.events);
    case StartSending => DeparturesNone(s.task.events);
    case Send => HeadMoves(s.channel, s.task.events, e);
    case NextEvent => HeadMoves(s.received, s.channel, e);
    case StopDiscovery =>
      CountConcat(s.dropped, Buffered(s.task), e);
      CountNone(e);
    case _ =>
  }

  lemma ExcludeMoves(tokens: Tokens, s: State, t: Step, e: Event)
    requires Enabled(s, t) && (t.ExcludeMark? || t.ExcludeSend? || t.ExcludeCancel? || t.Unexclude?)
    ensures Apply(tokens, s, t).connected == s.connected
    ensures Generated(Apply(tokens, s, t), e) == Generated(s, e)
  {
    hide Buffered, Count, Places;
    CountPlaces(s, e);
    CountPlaces(Apply(tokens, s, t), e);
    CountConcat(s.channel, [Left(t.host)], e);
    CountConcat(s.dropped, [Left(t.host)], e);
    CountOne(Left(t.host), e);
  }

  lemma ExcludeRemoveBalanced(tokens: Tokens, initial: seq<Connected>, s: State, g: HostId, h: HostId)
    requires Distinct(s.connected) && Enabled(s, ExcludeRemove(g)) && Balanced(initial, s, h)
    ensures Balanced(initial, Apply(tokens, s, ExcludeRemove(g)), h)
  {
    hide Buffered, Without, Distinct, Count;
    WithoutCounter(s.connected, g, h);
  }

  lemma StepBalanced(tokens: Tokens, initial: seq<Connected>, s: State, t: Step, h: HostId)
    requires Safe(s) && Enabled(s, t) && Balanced(initial, s, h)
    ensures Balanced(initial, Apply(tokens, s, t), h)
  {
    hide Apply, Enabled, Places, Distinct;
    var s' := Apply(tokens, s, t);
    if t.Look? || t.Insert? || t.Age? {
      ScanStepBalanced(tokens, initial, s, t, h);
    } else if t.ExcludeRemove? {
      ExcludeRemoveBalanced(tokens, initial, s, t.host, h);
    } else if t.ExcludeMark? || t.ExcludeSend? || t.ExcludeCancel? || t.Unexclude? {
      ExcludeMoves(tokens, s, t, Left(h));
      ExcludeMoves(tokens, s, t, Arrived(h));
      BalanceMoves(initial, s, s', h);
    } else {
      EventsMove(tokens, s, t, Left(h));
      EventsMove(tokens, s, t, Arrived(h));
      BalanceMoves(initial, s, s', h);
    }
  }

  lemma {:induction false} RunBalanced(tokens: Tokens, initial: seq<Connected>, s: State, steps: seq<Step>, h: HostId)
    requires Safe(s) && Balanced(initial, s, h) && CanRun(tokens, s, steps)
    ensures Safe(RunSteps(tokens, s, steps)) && Balanced(initial, RunSteps(tokens, s, steps), h)
    decreases |steps|
  {
    hide Apply, Balanced, Safe, Enabled;
    if steps != [] {
      StepSafe(tokens, s, steps[0]);
      StepBalanced(tokens, initial, s, steps[0], h);
      RunBalanced(tokens, initial, Apply(tokens, s, steps[0]), steps[1..], h);
    }
  }

  /** In every interleaving: hosts stay pairwise distinct, and a host is connected exactly as its generated
      arrivals and departures say, wherever those events are now. */
  lemma InterleavingSafe(tokens: Tokens, env: Env, steps: seq<Step>, h: HostId)
    requires EnvInv(env) && CanRun(tokens, Start(env), steps)
    ensures var s := RunSteps(tokens, Start(env), steps);
            && Distinct(s.connected)
            && Member(s.connected, h) == Member(env.connected, h) + Generated(s, Arrived(h)) - Generated(s, Left(h))
  {
    RunBalanced(tokens, env.connected, Start(env), steps, h);
  }

  lemma RunCons(tokens: Tokens, s: State, t: Step, s': State, rest: seq<Step>)
    requires Enabled(s, t) && Apply(tokens, s, t) == s' && CanRun(tokens, s', rest)
    ensures CanRun(tokens, s, [t] + rest) && RunSteps(tokens, s, [t] + rest) == RunSteps(tokens, s', rest)
  {
    assert ([t] + rest)[1..] == rest;
  }

  lemma RunNone(tokens: Tokens, s: State)
    ensures CanRun(tokens, s, []) && RunSteps(tokens, s, []) == s
  {
  }

  // ---------- The event channel ----------

  lemma LookDelivers(tokens: Tokens, s: State)
    requires Enabled(s, Look)
    ensures var s' := Apply(tokens, s, Look);
            s'.channel == s.channel && s'.received == s.received && s'.dropped == s.dropped
  {
    hide Eligible, Position;
  }

  /** What a step puts into the channel, at its end, and what it drops: the departure of an exclusion only when
      the channel is full or the call is cancelled, and otherwise only events of a round that is stopped. */
  lemma StepDelivers(tokens: Tokens, s: State, t: Step)
    requires Enabled(s, t)
    ensures var s' := Apply(tokens, s, t);
            && s'.received + s'.channel ==
               s.received + s.channel +
               (if t.Send? then [s.task.events[0]]
                else if t.ExcludeSend? && |s.channel| < 16 then [Left(t.host)] else [])
            && s'.dropped ==
               s.dropped +
               (if t.StopDiscovery? then Buffered(s.task)
                else if (t.ExcludeSend? && |s.channel| >= 16) || t.ExcludeCancel? then [Left(t.host)] else [])
            && (|s.channel| <= 16 ==> |s'.channel| <= 16)
  {
    hide LookAt, Kept, GivenUp, Without, Holds, Buffered;
    if t.Look? { LookDelivers(tokens, s); }
    assert s.received + s.channel + [] == s.received + s.channel && s.dropped + [] == s.dropped;
    if t.NextEvent? { assert s.channel == [s.channel[0]] + s.channel[1..]; }
  }

  lemma StepReceives(tokens: Tokens, s: State, t: Step)
    requires Enabled(s, t)
    ensures Apply(tokens, s, t).received == s.received + (if t.NextEvent? then [s.channel[0]] else [])
  {
    assert s.received + [] == s.received;
  }

  /** The events of a stopped round are lost, and so is a departure reported to a full channel; whatever else is
      sent is received in the order of sending, from a channel that never holds more than 16. */
  lemma {:induction false} RunDelivers(tokens: Tokens, s: State, steps: seq<Step>)
    requires CanRun(tokens, s, steps) && |s.channel| <= 16
    ensures var s' := RunSteps(tokens, s, steps);
            && |s'.channel| <= 16
            && s.received + s.channel <= s'.received + s'.channel
            && s.received <= s'.received
            && s.dropped <= s'.dropped
    decreases |steps|
  {
    hide Apply, Enabled;
    if steps != [] {
      StepDelivers(tokens, s, steps[0]);
      StepReceives(tokens, s, steps[0]);
      RunDelivers(tokens, Apply(tokens, s, steps[0]), steps[1..]);
    }
  }

  // ---------- A round can always be finished ----------

  function Stage(task: Task): nat {
    match task
    case Idle => 0
    case Sending(_) => 1
    case Disconnecting(_, _) => 2
    case Scanning(_) => 3
    case Connecting(_, _) => 3
    case Inserting(_, _) => 3
    case Discovered(_) => 4
  }

  function WorkLeft(task: Task): nat {
    match task
    case Idle => 0
    case Sending(events) => |events|
    case Disconnecting(missing, _) => |missing|
    case Scanning(local) => 2 * |local.devices|
    case Connecting(local, _) => 2 * |local.devices| + 1
    case Inserting(local, _) => 2 * |local.devices| + 1
    case Discovered(_) => 0
  }

  /** The step by which a round under way goes on, or the reader's when the channel is full. */
  function Onward(s: State): Step
    requires !s.task.Idle?
  {
    match s.task
    case Discovered(_) => Snapshot
    case Scanning(local) => if local.devices != [] then Look else Age
    case Connecting(_, _) => Connect(false)
    case Inserting(_, _) => Insert
    case Disconnecting(missing, _) => if missing != [] then Disconnect else StartSending
    case Sending(events) => if events == [] then Finish else if |s.channel| < 16 then Send else NextEvent
  }

  lemma OnwardMoves(tokens: Tokens, s: State)
    requires !s.task.Idle?
    ensures Enabled(s, Onward(s))
    ensures var next := Apply(tokens, s, Onward(s));
            Stage(next.task) < Stage(s.task) ||
            (Stage(next.task) == Stage(s.task) &&
             (WorkLeft(next.task) < WorkLeft(s.task) ||
              (WorkLeft(next.task) == WorkLeft(s.task) && |next.channel| < |s.channel|)))
  {
    hide Eligible, Position, Kept, GivenUp, Holds;
  }

  /** From every state the round under way can finish, by its own steps and a reader's, and the next can begin. */
  lemma {:induction false} RoundCanFinish(tokens: Tokens, s: State) returns (steps: seq<Step>)
    ensures CanRun(tokens, s, steps) && RunSteps(tokens, s, steps).task == Idle
    ensures forall t :: t in steps ==>
              t.Snapshot? || t.Look? || t == Connect(false) || t.Insert? || t.Age? || t.Disconnect? ||
              t.StartSending? || t.Send? || t.Finish? || t.NextEvent?
    decreases Stage(s.task), WorkLeft(s.task), |s.channel|
  {
    hide Apply, Enabled, RunSteps, CanRun, Stage, WorkLeft;
    RunNone(tokens, s);
    steps := [];
    if !s.task.Idle? {
      OnwardMoves(tokens, s);
      var next := Apply(tokens, s, Onward(s));
      var rest := RoundCanFinish(tokens, next);
      RunCons(tokens, s, Onward(s), next, rest);
      steps := [Onward(s)] + rest;
    }
  }

  // ---------- An undisturbed round is the sequential one ----------

  lemma {:induction false} SightAllCons(tokens: Tokens, excluded: set<HostId>, sc: Scan, d: Device, rest: seq<Device>)
    ensures SightAll(tokens, excluded, sc, [d] + rest) ==
            SightAll(tokens, excluded, Sight(tokens, excluded, sc, d), rest)
  {
    hide Sight;
    var all := [d] + rest;
    if rest == [] {
      assert all[..0] == [] && all == [d];
    } else {
      assert all[..|all| - 1] == [d] + rest[..|rest| - 1];
      SightAllCons(tokens, excluded, sc, d, rest[..|rest| - 1]);
    }
  }

  /** What the discovery loop does with one sighting when nobody interferes. */
  function SightSteps(tokens: Tokens, excluded: set<HostId>, sc: Scan, d: Device): seq<Step> {
    if !Eligible(tokens, excluded, d) || d.hostId.value in sc.seen || Holds(sc.connected, d.hostId.value) then [Look]
    else if Connects(tokens, d) then [Look, Connect(true), Insert]
    else [Look, Connect(false)]
  }

  function ScanSteps(tokens: Tokens, excluded: set<HostId>, sc: Scan, devices: seq<Device>): seq<Step>
    decreases |devices|
  {
    if devices == [] then []
    else
      SightSteps(tokens, excluded, sc, devices[0]) +
      ScanSteps(tokens, excluded, Sight(tokens, excluded, sc, devices[0]), devices[1..])
  }

  function ScanningState(s: State, snapshot: set<HostId>, sc: Scan, devices: seq<Device>): State {
    s.(connected := sc.connected, task := Scanning(Local(snapshot, sc.seen, devices, sc.events)))
  }

  lemma SightAlone(tokens: Tokens, s: State, snapshot: set<HostId>, sc: Scan, devices: seq<Device>)
    requires devices != []
    ensures var start := ScanningState(s, snapshot, sc, devices);
            var steps := SightSteps(tokens, snapshot, sc, devices[0]);
            && CanRun(tokens, start, steps)
            && RunSteps(tokens, start, steps) ==
               ScanningState(s, snapshot, Sight(tokens, snapshot, sc, devices[0]), devices[1..])
  {
    hide Eligible, Connects;
    var start := ScanningState(s, snapshot, sc, devices);
    var d := devices[0];
    var s1 := Apply(tokens, start, Look);
    if s1.task.Connecting? {
      var s2 := Apply(tokens, s1, Connect(Connects(tokens, d)));
      if Connects(tokens, d) {
        var s3 := Apply(tokens, s2, Insert);
        RunCons(tokens, s2, Insert, s3, []);
        RunCons(tokens, s1, Connect(true), s2, [Insert]);
        RunCons(tokens, start, Look, s1, [Connect(true), Insert]);
        assert [Insert] + [] == [Insert] && [Connect(true)] + [Insert] == [Connect(true), Insert];
        assert [Look] + [Connect(true), Insert] == [Look, Connect(true), Insert];
      } else {
        RunCons(tokens, s1, Connect(false), s2, []);
        RunCons(tokens, start, Look, s1, [Connect(false)]);
        assert [Connect(false)] + [] == [Connect(false)] && [Look] + [Connect(false)] == [Look, Connect(false)];
      }
    } else {
      RunCons(tokens, start, Look, s1, []);
      assert [Look] + [] == [Look];
    }
  }

  lemma {:induction false} RunAppend(tokens: Tokens, s: State, a: seq<Step>, b: seq<Step>)
    requires CanRun(tokens, s, a) && CanRun(tokens, RunSteps(tokens, s, a), b)
    ensures CanRun(tokens, s, a + b) && RunSteps(tokens, s, a + b) == RunSteps(tokens, RunSteps(tokens, s, a), b)
    decreases |a|
  {
    hide Apply, Enabled;
    if a == [] {
      assert a + b == b;
    } else {
      RunAppend(tokens, Apply(tokens, s, a[0]), a[1..], b);
      assert (a + b)[1..] == a[1..] + b;
    }
  }

  lemma SightNone(tokens: Tokens, excluded: set<HostId>, sc: Scan)
    ensures SightAll(tokens, excluded, sc, []) == sc
  {
  }

  lemma {:induction false} ScanAlone(tokens: Tokens, s: State, snapshot: set<HostId>, sc: Scan, devices: seq<Device>)
    ensures var start := ScanningState(s, snapshot, sc, devices);
            var steps := ScanSteps(tokens, snapshot, sc, devices);
            && CanRun(tokens, start, steps)
            && RunSteps(tokens, start, steps) == ScanningState(s, snapshot, SightAll(tokens, snapshot, sc, devices), [])
    decreases |devices|
  {
    hide Apply, Enabled, ScanningState, Sight, SightSteps, SightAll;
    var start := ScanningState(s, snapshot, sc, devices);
    if devices == [] {
      SightNone(tokens, snapshot, sc);
      RunNone(tokens, start);
    } else {
      var d, rest := devices[0], devices[1..];
      var next := Sight(tokens, snapshot, sc, d);
      SightAlone(tokens, s, snapshot, sc, devices);
      ScanAlone(tokens, s, snapshot, next, rest);
      RunAppend(tokens, start, SightSteps(tokens, snapshot, sc, d), ScanSteps(tokens, snapshot, next, rest));
      SightAllCons(tokens, snapshot, sc, d, rest);
      assert [d] + rest == devices;
    }
  }

  function RoundSteps(tokens: Tokens, s: Env, devices: seq<Device>): seq<Step> {
    [Discover(devices)] + ([Snapshot] + (ScanSteps(tokens, s.excluded, Scan(s.connected, {}, []), devices) + [Age]))
  }

  /** A round during which nobody excludes a host ends with the list and the events of the sequential round. */
  lemma UndisturbedRound(tokens: Tokens, s: State, devices: seq<Device>)
    requires s.task.Idle?
    ensures var env := Env(s.connected, s.excluded);
            var steps := RoundSteps(tokens, env, devices);
            CanRun(tokens, s, steps) &&
            var s' := RunSteps(tokens, s, steps);
            && Env(s'.connected, s'.excluded) == ApplyOp(tokens, env, Round(devices))
            && Buffered(s'.task) == OpEvents(tokens, env, Round(devices))
  {
    hide SightAll, Kept, GivenUp, ScanSteps, CanRun, RunSteps;
    var sc := Scan(s.connected, {}, []);
    var scan := ScanSteps(tokens, s.excluded, sc, devices);
    var s1 := s.(task := Discovered(devices));
    var s2 := ScanningState(s, s.excluded, sc, devices);
    ScanAlone(tokens, s, s.excluded, sc, devices);
    var s3 := ScanningState(s, s.excluded, SightAll(tokens, s.excluded, sc, devices), []);
    var s4 := Apply(tokens, s3, Age);
    RunNone(tokens, s4);
    RunCons(tokens, s3, Age, s4, []);
    assert [Age] + [] == [Age];
    RunAppend(tokens, s2, scan, [Age]);
    RunCons(tokens, s1, Snapshot, s2, scan + [Age]);
    RunCons(tokens, s, Discover(devices), s1, [Snapshot] + (scan + [Age]));
  }
}
