// When a host can be connected although it is excluded: exactly which steps bring that about, from exactly
// which states it can still happen, and how it ends.
module WifiExclusions {
  import opened Wrappers
  import opened WifiDiscovery
  import opened WifiInterleaving

  predicate MidScan(task: Task) {
    task.Scanning? || task.Connecting? || task.Inserting?
  }

  /** The host is connected although it is excluded. */
  predicate Overlaps(s: State, h: HostId) {
    h in s.excluded && Holds(s.connected, h)
  }

  // ---------- Which steps connect an excluded host ----------

  lemma WithoutHolds(connected: seq<Connected>, g: HostId, h: HostId)
    requires Distinct(connected)
    ensures Holds(Without(connected, g), h) <==> Holds(connected, h) && h != g
  {
    WithoutCounter(connected, g, h);
  }

  lemma KeptHolds(connected: seq<Connected>, seen: set<HostId>, h: HostId)
    requires Distinct(connected)
    ensures Holds(Kept(connected, seen), h) <==> Holds(connected, h) && h !in GivenUp(connected, seen)
  {
    AgeMeaning(connected, seen, h);
  }

  lemma SameHostsHold(a: seq<Connected>, b: seq<Connected>, h: HostId)
    requires |a| == |b| && forall i :: 0 <= i < |a| ==> a[i].host == b[i].host
    ensures Holds(a, h) <==> Holds(b, h)
  {
    SameHosts(a, b, h);
  }

  /** What each step does to the membership of one host. */
  lemma StepHolds(tokens: Tokens, s: State, t: Step, h: HostId)
    requires Safe(s) && Enabled(s, t)
    ensures Holds(Apply(tokens, s, t).connected, h) <==>
            (Holds(s.connected, h) && t != ExcludeRemove(h) &&
             !(t.Age? && h in GivenUp(s.connected, s.task.local.seen))) ||
            (t.Insert? && s.task.host == h)
  {
    match t
    case Look =>
      LookMoves(tokens, s);
      SameHostsHold(Apply(tokens, s, t).connected, s.connected, h);
    case Insert => HoldsSnoc(s.connected, Connected(s.task.host, 0), h);
    case Age => KeptHolds(s.connected, s.task.local.seen, h);
    case ExcludeRemove(g) => WithoutHolds(s.connected, g, h);
    case _ =>
  }

  lemma ExcludedAfter(tokens: Tokens, s: State, t: Step, h: HostId)
    requires Enabled(s, t)
    ensures h in Apply(tokens, s, t).excluded <==> t == ExcludeMark(h) || (h in s.excluded && t != Step.Unexclude(h))
  {
  }

  /** An excluded host comes to be connected in two ways only: it was connected when it was marked, until its
      runtime is taken out; or a round that copied the exclusion set without it inserts it. */
  lemma OverlapBegins(tokens: Tokens, s: State, t: Step, h: HostId)
    requires Safe(s) && Enabled(s, t) && !Overlaps(s, h)
    ensures Overlaps(Apply(tokens, s, t), h) <==>
            (t == ExcludeMark(h) && Holds(s.connected, h)) || (t.Insert? && s.task.host == h && h in s.excluded)
    ensures t.Insert? && s.task.host == h ==> h !in s.task.local.snapshot
  {
    hide Holds;
    StepHolds(tokens, s, t, h);
    ExcludedAfter(tokens, s, t, h);
  }

  /** The overlap ends when the host is no longer excluded, its runtime is taken out, or it is given up. */
  lemma OverlapEnds(tokens: Tokens, s: State, t: Step, h: HostId)
    requires Safe(s) && Enabled(s, t) && Overlaps(s, h)
    ensures !Overlaps(Apply(tokens, s, t), h) <==>
            t == Step.Unexclude(h) || t == ExcludeRemove(h) ||
            (t.Age? && h in GivenUp(s.connected, s.task.local.seen))
  {
    hide Holds;
    StepHolds(tokens, s, t, h);
    ExcludedAfter(tokens, s, t, h);
    if t.Insert? { assert s.task.host == h ==> !t.Age? && t != ExcludeRemove(h); }
  }

  // ---------- From which states an excluded host can still be connected ----------

  /** A sighting of the host that counts is still to come in the round under way. */
  predicate Expects(tokens: Tokens, local: Local, h: HostId) {
    h !in local.seen &&
    exists d :: d in local.devices && Eligible(tokens, local.snapshot, d) && d.hostId == Some(h)
  }

  /** The round under way copied the exclusion set without the host, and is connecting it or will look at it. */
  predicate Exposed(tokens: Tokens, s: State, h: HostId) {
    match s.task
    case Scanning(local) => Expects(tokens, local, h)
    case Connecting(local, g) => g == h || Expects(tokens, local, h)
    case Inserting(local, g) => g == h || Expects(tokens, local, h)
    case _ => false
  }

  lemma ExposedMeansUnaware(tokens: Tokens, s: State, h: HostId)
    requires Safe(s) && Exposed(tokens, s, h)
    ensures MidScan(s.task) && h !in s.task.local.snapshot
  {
  }

  /** Excluded, not connected, and nothing under way that could connect it. */
  ghost predicate Shut(tokens: Tokens, s: State, h: HostId) {
    h in s.excluded && !Holds(s.connected, h) && !Exposed(tokens, s, h)
  }

  lemma StepNotExposed(tokens: Tokens, s: State, t: Step, h: HostId)
    requires Enabled(s, t) && h in s.excluded && !Holds(s.connected, h) && !Exposed(tokens, s, h)
    ensures !Exposed(tokens, Apply(tokens, s, t), h)
  {
    match t
    case Look =>
      var local := s.task.local;
      assert local.devices[0] in local.devices;
      assert forall d :: d in local.devices[1..] ==> d in local.devices;
    case _ =>
  }

  lemma StepKeepsShut(tokens: Tokens, s: State, t: Step, h: HostId)
    requires Safe(s) && Enabled(s, t) && t != Step.Unexclude(h) && Shut(tokens, s, h)
    ensures Shut(tokens, Apply(tokens, s, t), h)
  {
    StepNotExposed(tokens, s, t, h);
    hide Holds, Expects, Apply;
    StepHolds(tokens, s, t, h);
    ExcludedAfter(tokens, s, t, h);
  }

  lemma {:induction false} RunKeepsShut(tokens: Tokens, s: State, steps: seq<Step>, h: HostId)
    requires Safe(s) && CanRun(tokens, s, steps) && Step.Unexclude(h) !in steps && Shut(tokens, s, h)
    ensures Shut(tokens, RunSteps(tokens, s, steps), h)
    decreases |steps|
  {
    hide Apply, Enabled, Safe, Shut;
    if steps != [] {
      StepSafe(tokens, s, steps[0]);
      StepKeepsShut(tokens, s, steps[0], h);
      RunKeepsShut(tokens, Apply(tokens, s, steps[0]), steps[1..], h);
    }
  }

  lemma InsertLast(tokens: Tokens, s: State, h: HostId)
    requires Safe(s) && s.task.Inserting? && s.task.host == h
    ensures CanRun(tokens, s, [Insert]) && Holds(RunSteps(tokens, s, [Insert]).connected, h)
  {
    hide Holds;
    StepHolds(tokens, s, Insert, h);
    RunNone(tokens, Apply(tokens, s, Insert));
    RunCons(tokens, s, Insert, Apply(tokens, s, Insert), []);
    assert [Insert] + [] == [Insert];
  }

  lemma ExposedStep(tokens: Tokens, s: State, t: Step, h: HostId)
    requires Safe(s) && !Holds(s.connected, h) && Exposed(tokens, s, h)
    requires t == match s.task case Scanning(_) => Look case Connecting(_, g) => Connect(g == h) case _ => Insert
    ensures Enabled(s, t)
    ensures t == Connect(true) ==> Apply(tokens, s, t).task.Inserting? && Apply(tokens, s, t).task.host == h
    ensures t != Connect(true) && !(t == Insert && s.task.host == h) ==>
              var next := Apply(tokens, s, t).task;
              Exposed(tokens, Apply(tokens, s, t), h) && MidScan(next) &&
              (|next.local.devices| < |s.task.local.devices| ||
               (next.local.devices == s.task.local.devices && !s.task.Scanning? && next.Scanning?))
  {
    if s.task.Scanning? {
      var local := s.task.local;
      var d :| d in local.devices && Eligible(tokens, local.snapshot, d) && d.hostId == Some(h);
      var next := Apply(tokens, s, Look);
      if local.devices[0].hostId != Some(h) || !Eligible(tokens, local.snapshot, local.devices[0]) {
        assert local.devices == [local.devices[0]] + local.devices[1..];
        assert d in local.devices[1..];
        assert d in next.task.local.devices;
      }
    }
  }

  /** A run that connects the host, found by letting the round under way go on alone: it skips what comes
      before the host's sighting and lets the connection to the host succeed. */
  lemma {:induction false} SlipPath(tokens: Tokens, s: State, h: HostId) returns (steps: seq<Step>)
    requires Safe(s) && !Holds(s.connected, h) && Exposed(tokens, s, h)
    ensures CanRun(tokens, s, steps) && Step.Unexclude(h) !in steps
    ensures Holds(RunSteps(tokens, s, steps).connected, h)
    decreases |s.task.local.devices|, if s.task.Scanning? then 0 else 1
  {
    hide Holds, Expects, RunSteps, CanRun;
    var t :=
      match s.task
      case Scanning(_) => Look
      case Connecting(_, g) => Connect(g == h)
      case _ => Insert;
    ExposedStep(tokens, s, t, h);
    var next := Apply(tokens, s, t);
    StepSafe(tokens, s, t);
    StepHolds(tokens, s, t, h);
    if t == Insert && s.task.host == h {
      steps := [];
      RunNone(tokens, next);
    } else if t == Connect(true) {
      InsertLast(tokens, next, h);
      steps := [Insert];
    } else {
      steps := SlipPath(tokens, next, h);
    }
    RunCons(tokens, s, t, next, steps);
    steps := [t] + steps;
  }

  /** Exactly when a host that is excluded and not connected can still be connected while it stays excluded:
      the round under way copied the exclusion set without it and has it in hand or a sighting of it to come. */
  lemma SlipInIff(tokens: Tokens, s: State, h: HostId)
    requires Safe(s) && h in s.excluded && !Holds(s.connected, h)
    ensures Exposed(tokens, s, h) <==>
            exists steps :: CanRun(tokens, s, steps) && Step.Unexclude(h) !in steps &&
                            Holds(RunSteps(tokens, s, steps).connected, h)
    ensures Exposed(tokens, s, h) ==> MidScan(s.task) && h !in s.task.local.snapshot
  {
    hide Holds, Expects, Apply, Enabled;
    if Exposed(tokens, s, h) {
      var steps := SlipPath(tokens, s, h);
      ExposedMeansUnaware(tokens, s, h);
    }
    forall steps | CanRun(tokens, s, steps) && Step.Unexclude(h) !in steps &&
                   Holds(RunSteps(tokens, s, steps).connected, h)
      ensures Exposed(tokens, s, h)
    {
      if !Exposed(tokens, s, h) { RunKeepsShut(tokens, s, steps, h); }
    }
  }

  // ---------- Whole runs ----------

  /** The step inserts the host while it is excluded. */
  predicate SlipsIn(s: State, t: Step, h: HostId) {
    t.Insert? && Enabled(s, t) && s.task.host == h && h in s.excluded
  }

  predicate EverSlipsIn(tokens: Tokens, s: State, steps: seq<Step>, h: HostId)
    requires CanRun(tokens, s, steps)
    decreases |steps|
  {
    steps != [] && (SlipsIn(s, steps[0], h) || EverSlipsIn(tokens, Apply(tokens, s, steps[0]), steps[1..], h))
  }

  lemma StepExplains(tokens: Tokens, s: State, t: Step, h: HostId)
    requires Safe(s) && Enabled(s, t) && !SlipsIn(s, t, h)
    requires Overlaps(s, h) ==> Marked(h) in s.excluders
    ensures Overlaps(Apply(tokens, s, t), h) ==> Marked(h) in Apply(tokens, s, t).excluders
  {
    if Overlaps(s, h) {
      OverlapEnds(tokens, s, t, h);
    } else {
      OverlapBegins(tokens, s, t, h);
    }
  }

  lemma {:induction false} RunExplains(tokens: Tokens, s: State, steps: seq<Step>, h: HostId)
    requires Safe(s) && CanRun(tokens, s, steps) && !EverSlipsIn(tokens, s, steps, h)
    requires Overlaps(s, h) ==> Marked(h) in s.excluders
    ensures Overlaps(RunSteps(tokens, s, steps), h) ==> Marked(h) in RunSteps(tokens, s, steps).excluders
    decreases |steps|
  {
    hide Apply, Enabled, Safe, Overlaps, SlipsIn;
    if steps != [] {
      StepSafe(tokens, s, steps[0]);
      StepExplains(tokens, s, steps[0], h);
      RunExplains(tokens, Apply(tokens, s, steps[0]), steps[1..], h);
    }
  }

  lemma NotExcluded(env: Env, h: HostId)
    requires EnvInv(env)
    ensures Safe(Start(env)) && !Overlaps(Start(env), h)
  {
    if Holds(env.connected, h) { assert env.connected[Position(env.connected, h)] in env.connected; }
  }

  /** In every run, an excluded host that is connected is about to be taken out by the call that excluded it,
      or was inserted while it was excluded. */
  lemma ExcludedAndConnected(tokens: Tokens, env: Env, steps: seq<Step>, h: HostId)
    requires EnvInv(env) && CanRun(tokens, Start(env), steps)
    requires Overlaps(RunSteps(tokens, Start(env), steps), h)
    ensures Marked(h) in RunSteps(tokens, Start(env), steps).excluders || EverSlipsIn(tokens, Start(env), steps, h)
  {
    hide CanRun, RunSteps, EverSlipsIn;
    NotExcluded(env, h);
    if !EverSlipsIn(tokens, Start(env), steps, h) {
      RunExplains(tokens, Start(env), steps, h);
    }
  }

  /** Between being marked and being taken out, a connected host is excluded, with no round under way. */
  lemma MarkedBeforeRemoved(tokens: Tokens, h: HostId)
    ensures var s := Start(Env([Connected(h, 0)], {}));
            && CanRun(tokens, s, [ExcludeMark(h)])
            && RunSteps(tokens, s, [ExcludeMark(h)]).task.Idle? && Overlaps(RunSteps(tokens, s, [ExcludeMark(h)]), h)
  {
    var s := Start(Env([Connected(h, 0)], {}));
    RunNone(tokens, Apply(tokens, s, ExcludeMark(h)));
    RunCons(tokens, s, ExcludeMark(h), Apply(tokens, s, ExcludeMark(h)), []);
    assert [ExcludeMark(h)] + [] == [ExcludeMark(h)];
    assert s.connected[0].host == h;
  }

  function Sighting(h: HostId, token: Token): Device {
    Device(Some(h), Some(WIFI_PROTOCOL), Some(WIFI_AUTH), {token})
  }

  lemma {:induction false} RunKeepsExcluded(tokens: Tokens, s: State, steps: seq<Step>, h: HostId)
    requires CanRun(tokens, s, steps) && Step.Unexclude(h) !in steps && h in s.excluded
    ensures h in RunSteps(tokens, s, steps).excluded
    decreases |steps|
  {
    hide Apply, Enabled;
    if steps != [] {
      ExcludedAfter(tokens, s, steps[0], h);
      RunKeepsExcluded(tokens, Apply(tokens, s, steps[0]), steps[1..], h);
    }
  }

  /** A round starts and copies the exclusion set, then the host it has sighted is excluded. */
  function Beginning(h: HostId, token: Token): seq<Step> {
    [Discover([Sighting(h, token)])] + ([Snapshot] + ([ExcludeMark(h)] + ([ExcludeRemove(h)] + [])))
  }

  lemma BeginningRuns(tokens: Tokens, h: HostId, token: Token)
    ensures var s := Start(Env([], {}));
            && CanRun(tokens, s, Beginning(h, token))
            && RunSteps(tokens, s, Beginning(h, token)) ==
               s.(excluded := {h}, task := Scanning(Local({}, {}, [Sighting(h, token)], [])))
  {
    hide CanRun, RunSteps;
    var s0 := Start(Env([], {}));
    var s1 := s0.(task := Discovered([Sighting(h, token)]));
    var s2 := s0.(task := Scanning(Local({}, {}, [Sighting(h, token)], [])));
    var s3 := s2.(excluded := {h}, excluders := multiset{Marked(h)});
    var s4 := s2.(excluded := {h});
    assert Apply(tokens, s3, ExcludeRemove(h)) == s4 by {
      assert multiset{Marked(h)} - multiset{Marked(h)} == multiset{};
    }
    RunNone(tokens, s4);
    RunCons(tokens, s3, ExcludeRemove(h), s4, []);
    RunCons(tokens, s2, ExcludeMark(h), s3, [ExcludeRemove(h)] + []);
    RunCons(tokens, s1, Snapshot, s2, [ExcludeMark(h)] + ([ExcludeRemove(h)] + []));
    var later := [Snapshot] + ([ExcludeMark(h)] + ([ExcludeRemove(h)] + []));
    RunCons(tokens, s0, Discover([Sighting(h, token)]), s1, later);
  }

  /** It happens: a host excluded during a round that has sighted it is not connected when the call that
      excluded it is through, and connected later in the round. */
  lemma ExcludedHostCanSlipIn(h: HostId, token: Token) returns (rest: seq<Step>)
    ensures var s := Start(Env([], {}));
            && CanRun(map[h := token], s, Beginning(h, token))
            && var mid := RunSteps(map[h := token], s, Beginning(h, token));
            && h in mid.excluded && !Holds(mid.connected, h)
            && CanRun(map[h := token], mid, rest) && Overlaps(RunSteps(map[h := token], mid, rest), h)
  {
    hide CanRun, RunSteps;
    var tokens := map[h := token];
    BeginningRuns(tokens, h, token);
    var mid := RunSteps(tokens, Start(Env([], {})), Beginning(h, token));
    assert Sighting(h, token) in [Sighting(h, token)] && Eligible(tokens, {}, Sighting(h, token));
    rest := SlipPath(tokens, mid, h);
    RunKeepsExcluded(tokens, mid, rest, h);
  }

  // ---------- Exclusion takes effect ----------

  /** Whether the round under way after a step copied the exclusion set while the host was in it. */
  function NextAware(t: Step, aware: bool): bool {
    if t.Snapshot? then true else if t.Age? || t.StopDiscovery? then false else aware
  }

  function AwareAfter(steps: seq<Step>, aware: bool): bool {
    if steps == [] then aware else AwareAfter(steps[1..], NextAware(steps[0], aware))
  }

  /** Rounds that both copied the exclusion set and finished their ageing pass during `steps`. */
  function AwareRounds(steps: seq<Step>, aware: bool): nat {
    if steps == [] then 0
    else (if steps[0].Age? && aware then 1 else 0) + AwareRounds(steps[1..], NextAware(steps[0], aware))
  }

  /** The excluded host's counter keeps up with the rounds that knew of its exclusion. */
  ghost predicate Fading(s: State, h: HostId, k: nat, aware: bool) {
    && h in s.excluded
    && (forall c :: c in s.connected && c.host == h ==> c.missed >= k)
    && (aware ==> MidScan(s.task) && h in s.task.local.snapshot)
    && (MidScan(s.task) && !aware ==> k == 0)
  }

  lemma {:induction false} KeptCounts(connected: seq<Connected>, seen: set<HostId>, h: HostId, k: nat)
    requires h !in seen
    requires forall c :: c in connected && c.host == h ==> c.missed >= k
    ensures forall c :: c in Kept(connected, seen) && c.host == h ==> c.missed >= k + 1
  {
    if connected != [] {
      var last := connected[|connected| - 1];
      assert last in connected;
      KeptCounts(connected[..|connected| - 1], seen, h, k);
    }
  }

  lemma FadingStep(tokens: Tokens, s: State, t: Step, h: HostId, k: nat, aware: bool)
    requires Safe(s) && Enabled(s, t) && t != Step.Unexclude(h) && Fading(s, h, k, aware)
    ensures Fading(Apply(tokens, s, t), h, k + (if t.Age? && aware then 1 else 0), NextAware(t, aware))
  {
    match t
    case Age =>
      if aware { KeptCounts(s.connected, s.task.local.seen, h, k); }
    case ExcludeRemove(g) => WithoutSafe(s.connected, g);
    case _ =>
  }

  lemma {:induction false} FadingRun(tokens: Tokens, s: State, steps: seq<Step>, h: HostId, k: nat, aware: bool)
    requires Safe(s) && CanRun(tokens, s, steps) && Step.Unexclude(h) !in steps && Fading(s, h, k, aware)
    ensures Safe(RunSteps(tokens, s, steps))
    ensures Fading(RunSteps(tokens, s, steps), h, k + AwareRounds(steps, aware), AwareAfter(steps, aware))
    decreases |steps|
  {
    hide Apply, Fading, Safe, Enabled;
    if steps != [] {
      var t := steps[0];
      StepSafe(tokens, s, t);
      FadingStep(tokens, s, t, h, k, aware);
      var next := k + if t.Age? && aware then 1 else 0;
      FadingRun(tokens, Apply(tokens, s, t), steps[1..], h, next, NextAware(t, aware));
    }
  }

  lemma HoldsIn(connected: seq<Connected>, h: HostId)
    ensures Holds(connected, h) ==> exists c :: c in connected && c.host == h
  {
    if Holds(connected, h) { assert connected[Position(connected, h)] in connected; }
  }

  /** Once a host is excluded and stays excluded, three completed rounds that started after the exclusion
      are enough for it to be gone, even if it slipped in during the round under way. */
  lemma ExcludedHostFades(tokens: Tokens, env: Env, before: seq<Step>, after: seq<Step>, h: HostId)
    requires EnvInv(env) && CanRun(tokens, Start(env), before)
    requires h in RunSteps(tokens, Start(env), before).excluded
    requires CanRun(tokens, RunSteps(tokens, Start(env), before), after)
    requires Step.Unexclude(h) !in after && AwareRounds(after, false) >= MISSES_BEFORE_LEFT
    ensures !Holds(RunSteps(tokens, RunSteps(tokens, Start(env), before), after).connected, h)
  {
    hide Apply, Enabled, RunSteps, CanRun, AwareRounds;
    RunBalanced(tokens, env.connected, Start(env), before, h);
    var s := RunSteps(tokens, Start(env), before);
    FadingRun(tokens, s, after, h, 0, false);
    var s' := RunSteps(tokens, s, after);
    HoldsIn(s'.connected, h);
  }
}
