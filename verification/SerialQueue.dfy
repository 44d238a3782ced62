// What a full event queue costs the serial backend: which events are dropped, and which ports a listener is
// wrong about from then on.
module SerialQueues {
  import opened Wrappers
  import opened SerialPolling

  const USB_EVENT_CHANNEL_SIZE := 16

  /** An event the poll generated, and whether the queue took it. */
  datatype Attempt = Attempt(event: Event, taken: bool)

  function Attempted(log: seq<Attempt>): (events: seq<Event>)
    ensures |events| == |log| && forall i :: 0 <= i < |log| ==> events[i] == log[i].event
  {
    seq(|log|, i requires 0 <= i < |log| => log[i].event)
  }

  function Taken(log: seq<Attempt>): seq<Event> {
    if log == [] then []
    else Taken(log[..|log| - 1]) + if log[|log| - 1].taken then [log[|log| - 1].event] else []
  }

  /** The queue's length after `n` attempts, when the reader takes up to `drained(i)` events before attempt `i`. */
  function LengthAfter(start: nat, drained: nat -> nat, n: nat): nat
    decreases n, 0
  {
    if n == 0 then start
    else
      var length := LengthAt(start, drained, n - 1);
      if length < USB_EVENT_CHANNEL_SIZE then length + 1 else length
  }

  /** The queue's length when attempt `i` is made. */
  function LengthAt(start: nat, drained: nat -> nat, i: nat): nat
    decreases i, 1
  {
    var before := LengthAfter(start, drained, i);
    if drained(i) < before then before - drained(i) else 0
  }

  /** The attempts of one poll: an event is taken exactly when the queue is not full. */
  function LogOf(events: seq<Event>, start: nat, drained: nat -> nat): (log: seq<Attempt>)
    ensures |log| == |events|
  {
    seq(|events|, i requires 0 <= i < |events| =>
      Attempt(events[i], LengthAt(start, drained, i) < USB_EVENT_CHANNEL_SIZE))
  }

  lemma {:induction false} NoReader(start: nat, drained: nat -> nat, n: nat)
    requires start <= 16 && forall i :: drained(i) == 0
    ensures LengthAfter(start, drained, n) == LengthAt(start, drained, n) ==
            if start + n < 16 then start + n else 16
  {
    if n > 0 { NoReader(start, drained, n - 1); }
  }

  lemma TakenSnoc(log: seq<Attempt>, a: Attempt)
    ensures Taken(log + [a]) == Taken(log) + if a.taken then [a.event] else []
  {
    assert (log + [a])[..|log|] == log;
  }

  lemma TakenNone()
    ensures Taken([]) == []
  {
  }

  /** Sends a poll's events with `try_send` while the other end takes up to `drained(i)` events off the queue
      before attempt `i`: nothing is reordered, and an event is dropped exactly when the queue is full. */
  method TrySendAll(queue: seq<Event>, events: seq<Event>, drained: nat -> nat)
    returns (received: seq<Event>, left: seq<Event>, log: seq<Attempt>)
    requires |queue| <= 16
    ensures log == LogOf(events, |queue|, drained)
    ensures received + left == queue + Taken(log) && Attempted(log) == events
    ensures |left| == LengthAfter(|queue|, drained, |events|) <= 16
    ensures (forall i :: drained(i) == 0) ==>
              forall i :: 0 <= i < |events| ==> (log[i].taken <==> |queue| + i < 16)
  {
    hide Taken;
    received, left, log := [], queue, [];
    TakenNone();
    assert [] + left == queue + [];
    for i := 0 to |events|
      invariant |log| == i && forall j :: 0 <= j < i ==> log[j] == LogOf(events, |queue|, drained)[j]
      invariant |left| == LengthAfter(|queue|, drained, i) <= USB_EVENT_CHANNEL_SIZE
      invariant received + left == queue + Taken(log)
    {
      var n := if drained(i) < |left| then drained(i) else |left|;
      assert received + left[..n] + left[n..] == received + left;
      received, left := received + left[..n], left[n..];
      var attempt := Attempt(events[i], |left| < USB_EVENT_CHANNEL_SIZE);
      TakenSnoc(log, attempt);
      assert queue + Taken(log) + [] == queue + Taken(log) && Taken(log) + [] == Taken(log);
      if attempt.taken {
        assert received + (left + [events[i]]) == (received + left) + [events[i]];
        assert queue + (Taken(log) + [events[i]]) == (queue + Taken(log)) + [events[i]];
        left := left + [events[i]];
      }
      log := log + [attempt];
    }
    if forall i :: drained(i) == 0 {
      forall i | 0 <= i < |events| ensures log[i].taken <==> |queue| + i < 16 {
        NoReader(|queue|, drained, i);
      }
    }
  }

  function AttemptedAll(logs: seq<seq<Attempt>>): seq<seq<Event>> {
    seq(|logs|, i requires 0 <= i < |logs| => Attempted(logs[i]))
  }

  /** What a listener believes to be attached that starts from the known map and sees the events taken. */
  function View(m: PortMap, logs: seq<seq<Attempt>>): PortMap {
    if logs == [] then m else Fold(View(m, logs[..|logs| - 1]), Taken(logs[|logs| - 1]))
  }

  /** Some attempt of the poll is about the key. */
  predicate About(log: seq<Attempt>, k: string, taken: bool) {
    exists a :: a in log && KeyOf(a.event) == k && a.taken == taken
  }

  /** Events about the key dropped since the last one about it that was taken. */
  function Drops(logs: seq<seq<Attempt>>, k: string): nat {
    if logs == [] then 0
    else
      var last := logs[|logs| - 1];
      if About(last, k, true) then 0
      else Drops(logs[..|logs| - 1], k) + if About(last, k, false) then 1 else 0
  }

  lemma {:induction false} TakenAre(log: seq<Attempt>, e: Event)
    ensures e in Taken(log) <==> Attempt(e, true) in log
  {
    if log != [] {
      var n := |log| - 1;
      TakenAre(log[..n], e);
      assert log == log[..n] + [log[n]];
    }
  }

  lemma {:induction false} TakenDistinct(log: seq<Attempt>)
    requires forall i, j :: 0 <= i < j < |log| ==> KeyOf(log[i].event) != KeyOf(log[j].event)
    ensures forall i, j :: 0 <= i < j < |Taken(log)| ==> KeyOf(Taken(log)[i]) != KeyOf(Taken(log)[j])
  {
    hide ConnectionKey;
    if log != [] {
      var n := |log| - 1;
      TakenDistinct(log[..n]);
      forall i | 0 <= i < |Taken(log[..n])| ensures KeyOf(Taken(log[..n])[i]) != KeyOf(log[n].event) {
        var e := Taken(log[..n])[i];
        assert e in Taken(log[..n]);
        TakenAre(log[..n], e);
        var j :| 0 <= j < n && log[j] == Attempt(e, true);
      }
    }
  }

  /** What a poll about the key does: taken, its event decides the view; otherwise the view stays. */
  lemma ViewStep(view: PortMap, log: seq<Attempt>, k: string)
    requires forall i, j :: 0 <= i < j < |log| ==> KeyOf(log[i].event) != KeyOf(log[j].event)
    ensures !About(log, k, true) ==> (k in Fold(view, Taken(log)) <==> k in view)
    ensures forall a :: a in log && a.taken && KeyOf(a.event) == k ==>
                          (k in Fold(view, Taken(log)) <==> a.event.Connected?)
  {
    hide ConnectionKey, Fold, Taken;
    TakenDistinct(log);
    FoldAt(view, Taken(log), k);
    forall e ensures e in Taken(log) <==> Attempt(e, true) in log { TakenAre(log, e); }
  }

  lemma AttemptedAre(log: seq<Attempt>, e: Event)
    ensures e in Attempted(log) <==> Attempt(e, true) in log || Attempt(e, false) in log
  {
    if e in Attempted(log) {
      var i :| 0 <= i < |log| && Attempted(log)[i] == e;
      assert log[i] in log;
    }
    forall taken | Attempt(e, taken) in log ensures e in Attempted(log) {
      var i :| 0 <= i < |log| && log[i] == Attempt(e, taken);
      assert Attempted(log)[i] == e;
    }
  }

  lemma AboutOnce(log: seq<Attempt>, k: string)
    requires forall i, j :: 0 <= i < j < |log| ==> KeyOf(log[i].event) != KeyOf(log[j].event)
    ensures !(About(log, k, true) && About(log, k, false))
  {
    hide ConnectionKey;
  }

  lemma DistinctAttempts(log: seq<Attempt>)
    requires forall i, j :: 0 <= i < j < |log| ==> KeyOf(Attempted(log)[i]) != KeyOf(Attempted(log)[j])
    ensures forall i, j :: 0 <= i < j < |log| ==> KeyOf(log[i].event) != KeyOf(log[j].event)
  {
    hide ConnectionKey;
    forall i, j | 0 <= i < j < |log| ensures KeyOf(log[i].event) != KeyOf(log[j].event) {
      assert KeyOf(Attempted(log)[i]) != KeyOf(Attempted(log)[j]);
    }
  }

  /** A poll generates an event about a key exactly when the key came or went, and says which. */
  lemma PollAbout(known: PortMap, current: PortMap, log: seq<Attempt>, k: string)
    requires Filed(known) && Filed(current) && IsPoll(known, current, Attempted(log))
    ensures About(log, k, true) || About(log, k, false) <==> (k in known) != (k in current)
    ensures forall a :: a in log && KeyOf(a.event) == k ==> (a.event.Connected? <==> k in current)
  {
    hide ConnectionKey, Attempted;
    forall e ensures e in Attempted(log) <==> Attempt(e, true) in log || Attempt(e, false) in log {
      AttemptedAre(log, e);
    }
    forall a | a in log ensures a.event in Attempted(log) {
      assert a == Attempt(a.event, true) || a == Attempt(a.event, false);
    }
    if (k in known) != (k in current) {
      var e := if k in current then Connected(current[k]) else Disconnected(known[k]);
      assert e in Attempted(log) && KeyOf(e) == k;
    }
  }

  lemma LoggedFront(known: PortMap, maps: seq<PortMap>, logs: seq<seq<Attempt>>)
    requires IsRun(known, maps, AttemptedAll(logs)) && maps != []
    ensures var n := |maps| - 1;
            && |logs| == |maps| && IsRun(known, maps[..n], AttemptedAll(logs[..n]))
            && Filed(maps[n]) && IsPoll(LastMap(known, maps[..n]), maps[n], Attempted(logs[n]))
  {
    hide IsPoll, Filed, PollAt;
    RunFront(known, maps, AttemptedAll(logs));
    assert AttemptedAll(logs)[..|maps| - 1] == AttemptedAll(logs[..|maps| - 1]);
  }

  lemma WrongStep(view: PortMap, known: PortMap, current: PortMap, log: seq<Attempt>, k: string)
    requires Filed(known) && Filed(current) && IsPoll(known, current, Attempted(log))
    ensures About(log, k, true) ==> (k in Fold(view, Taken(log)) <==> k in current)
    ensures !About(log, k, true) ==> (k in Fold(view, Taken(log)) <==> k in view)
    ensures !About(log, k, true) && !About(log, k, false) ==> (k in known <==> k in current)
    ensures !About(log, k, true) && About(log, k, false) ==> (k in known) != (k in current)
  {
    hide ConnectionKey, Fold, Taken, Filed;
    PollAbout(known, current, log, k);
    DistinctAttempts(log);
    AboutOnce(log, k);
    ViewStep(view, log, k);
  }

  /** Exactly which keys a run of polls with dropped events leaves wrong: those about which an odd number of
      events was dropped since the last one taken. Later polls do not repair them, because each compares with
      the map of the poll before, whether or not its events were taken. */
  lemma {:induction false} WrongKeysExactly(known: PortMap, maps: seq<PortMap>, logs: seq<seq<Attempt>>, k: string)
    requires Filed(known) && IsRun(known, maps, AttemptedAll(logs))
    ensures (k in View(known, logs)) != (k in LastMap(known, maps)) <==> Drops(logs, k) % 2 == 1
  {
    hide ConnectionKey, IsPoll, Filed, Fold, Taken, About;
    if maps == [] {
      assert logs == [];
    } else {
      var n := |maps| - 1;
      LoggedFront(known, maps, logs);
      LastIsFiled(known, maps[..n], AttemptedAll(logs[..n]));
      WrongKeysExactly(known, maps[..n], logs[..n], k);
      WrongStep(View(known, logs[..n]), LastMap(known, maps[..n]), maps[n], logs[n], k);
    }
  }

  lemma QuietPoll(logs: seq<seq<Attempt>>, k: string)
    requires logs != [] && !About(logs[|logs| - 1], k, true) && !About(logs[|logs| - 1], k, false)
    ensures Drops(logs, k) == Drops(logs[..|logs| - 1], k)
  {
  }

  /** While a key whose last event was dropped stays attached or stays away, it stays wrong. */
  lemma {:induction false} NotRepaired(
      known: PortMap, maps: seq<PortMap>, logs: seq<seq<Attempt>>, from: nat, k: string)
    requires Filed(known) && IsRun(known, maps, AttemptedAll(logs)) && from <= |maps|
    requires forall i :: from <= i <= |maps| ==> (k in LastMap(known, maps[..i]) <==> k in LastMap(known, maps[..from]))
    ensures Drops(logs, k) == Drops(logs[..from], k)
    decreases |maps|
  {
    hide ConnectionKey, IsPoll, Filed, About, Attempted, Drops;
    var n := |maps| - 1;
    if from <= n {
      LoggedFront(known, maps, logs);
      LastIsFiled(known, maps[..n], AttemptedAll(logs[..n]));
      assert logs[..n][..from] == logs[..from] && maps[..n][..from] == maps[..from];
      forall i | from <= i <= n
        ensures k in LastMap(known, maps[..n][..i]) <==> k in LastMap(known, maps[..n][..from])
      {
        assert maps[..n][..i] == maps[..i];
      }
      NotRepaired(known, maps[..n], logs[..n], from, k);
      assert maps[..n + 1] == maps && (k in LastMap(known, maps[..n + 1]) <==> k in LastMap(known, maps[..from]));
      PollAbout(LastMap(known, maps[..n]), maps[n], logs[n], k);
      QuietPoll(logs, k);
    } else {
      assert logs[..from] == logs;
    }
  }

  // ---------- Polls that share the queue ----------

  /** The queue's length after all polls; `drains[i]` is the reader during poll `i`. */
  function QueueLength(start: nat, drains: seq<nat -> nat>, polls: seq<seq<Event>>): nat
    requires |drains| == |polls|
    decreases |polls|
  {
    var n := |polls| - 1;
    if polls == [] then start
    else LengthAfter(QueueLength(start, drains[..n], polls[..n]), drains[n], |polls[n]|)
  }

  /** The attempts of all polls, each finding the queue as the one before and the reader left it. */
  function QueueLogs(start: nat, drains: seq<nat -> nat>, polls: seq<seq<Event>>): (logs: seq<seq<Attempt>>)
    requires |drains| == |polls|
    ensures |logs| == |polls| && forall i :: 0 <= i < |polls| ==> |logs[i]| == |polls[i]|
    decreases |polls|
  {
    var n := |polls| - 1;
    if polls == [] then []
    else
      QueueLogs(start, drains[..n], polls[..n]) +
      [LogOf(polls[n], QueueLength(start, drains[..n], polls[..n]), drains[n])]
  }

  lemma {:induction false} QueueAttempts(start: nat, drains: seq<nat -> nat>, polls: seq<seq<Event>>)
    requires |drains| == |polls|
    ensures AttemptedAll(QueueLogs(start, drains, polls)) == polls
    decreases |polls|
  {
    hide LengthAfter, LengthAt;
    if polls != [] {
      var n := |polls| - 1;
      QueueAttempts(start, drains[..n], polls[..n]);
      var logs := QueueLogs(start, drains, polls);
      assert Attempted(logs[n]) == polls[n];
      assert AttemptedAll(logs)[..n] == AttemptedAll(logs[..n]);
      assert logs[..n] == QueueLogs(start, drains[..n], polls[..n]);
      assert AttemptedAll(logs) == AttemptedAll(logs)[..n] + [Attempted(logs[n])];
    }
  }

  /** The same for the queue of 16 and any reader: which attempts are dropped is decided by the queue's length. */
  lemma WrongKeysOfQueue(
      known: PortMap, maps: seq<PortMap>, polls: seq<seq<Event>>, start: nat, drains: seq<nat -> nat>, k: string)
    requires Filed(known) && IsRun(known, maps, polls) && |drains| == |polls|
    ensures var logs := QueueLogs(start, drains, polls);
            (k in View(known, logs)) != (k in LastMap(known, maps)) <==> Drops(logs, k) % 2 == 1
  {
    hide IsRun, Filed, View, Drops, QueueLogs;
    QueueAttempts(start, drains, polls);
    WrongKeysExactly(known, maps, QueueLogs(start, drains, polls), k);
  }

  // ---------- More ports at once than the queue holds ----------

  predicate DistinctKeys(ports: seq<Port>) {
    forall i, j :: 0 <= i < j < |ports| ==> ConnectionKey(ports[i]) != ConnectionKey(ports[j])
  }

  lemma {:induction false} MapOfDistinct(ports: seq<Port>)
    requires DistinctKeys(ports)
    ensures forall p :: p in ports ==> ConnectionKey(p) in MapOf(ports) && MapOf(ports)[ConnectionKey(p)] == p
    ensures forall k :: k in MapOf(ports) ==> MapOf(ports)[k] in ports
  {
    hide ConnectionKey;
    if ports != [] {
      var n := |ports| - 1;
      MapOfDistinct(ports[..n]);
      assert ports == ports[..n] + [ports[n]];
      forall p | p in ports[..n] ensures ConnectionKey(p) != ConnectionKey(ports[n]) {
        var i :| 0 <= i < n && ports[i] == p;
      }
    }
  }

  lemma MapNone()
    ensures MapOf([]) == map[]
  {
  }

  lemma NoDepartures(ports: seq<Port>)
    ensures Arrivals(ports) + Departures([]) == Arrivals(ports) && |Arrivals(ports)| == |ports|
    ensures forall i :: 0 <= i < |ports| ==> Arrivals(ports)[i] == Connected(ports[i])
  {
  }

  /** The first poll after these ports were plugged in. */
  lemma AllArrive(ports: seq<Port>)
    requires DistinctKeys(ports)
    ensures IsPoll(map[], MapOf(ports), Arrivals(ports))
  {
    hide ConnectionKey, IsPoll, MapOf, Arrivals, Departures;
    MapOfDistinct(ports);
    assert MapOf([]) == map[] by { MapNone(); }
    PollOf(map[], MapOf(ports), ports, []);
    NoDepartures(ports);
  }

  /** Polls of the same ports after that one, which generate nothing. */
  function Repeat(m: PortMap, n: nat): (maps: seq<PortMap>)
    ensures |maps| == n + 1 && forall i :: 0 <= i <= n ==> maps[i] == m
  {
    seq(n + 1, _ => m)
  }

  function ThenSilent(log: seq<Attempt>, n: nat): (logs: seq<seq<Attempt>>)
    ensures |logs| == n + 1 && logs[0] == log && forall i :: 0 < i <= n ==> logs[i] == []
  {
    [log] + seq(n, _ => [])
  }

  lemma QuietAfter(current: PortMap, log: seq<Attempt>, n: nat)
    requires Filed(current) && IsPoll(map[], current, Attempted(log))
    ensures IsRun(map[], Repeat(current, n), AttemptedAll(ThenSilent(log, n)))
  {
    hide Filed;
    var maps, polls := Repeat(current, n), AttemptedAll(ThenSilent(log, n));
    forall i | 0 <= i < |maps| ensures PollAt(map[], maps, polls, i) {
      if i == 0 {
        assert maps[..0] == [] && polls[0] == Attempted(log);
      } else {
        assert maps[..i] != [] && LastMap(map[], maps[..i]) == current && polls[i] == [];
      }
    }
  }

  lemma NothingAbout(k: string)
    ensures !About([], k, true) && !About([], k, false)
  {
  }

  lemma {:induction false} DropsAfterSilence(log: seq<Attempt>, n: nat, k: string)
    ensures Drops(ThenSilent(log, n), k) == Drops([log], k)
  {
    hide About;
    if n == 0 {
      assert ThenSilent(log, 0) == [log];
    } else {
      DropsAfterSilence(log, n - 1, k);
      assert ThenSilent(log, n)[..n] == ThenSilent(log, n - 1);
      NothingAbout(k);
    }
  }

  lemma OneDrop(log: seq<Attempt>, i: nat)
    requires i < |log| && !log[i].taken
    requires forall a, b :: 0 <= a < b < |log| ==> KeyOf(log[a].event) != KeyOf(log[b].event)
    ensures Drops([log], KeyOf(log[i].event)) == 1
  {
    hide ConnectionKey;
    var k := KeyOf(log[i].event);
    assert log[i] in log && About(log, k, false);
    AboutOnce(log, k);
    assert [log][..0] == [];
  }

  lemma AttemptsDistinct(ports: seq<Port>, log: seq<Attempt>)
    requires DistinctKeys(ports) && |log| == |ports|
    requires forall i :: 0 <= i < |ports| ==> log[i].event == Connected(ports[i])
    ensures forall a, b :: 0 <= a < b < |log| ==> KeyOf(log[a].event) != KeyOf(log[b].event)
  {
    hide ConnectionKey;
    forall a, b | 0 <= a < b < |log| ensures KeyOf(log[a].event) != KeyOf(log[b].event) {
      assert ConnectionKey(ports[a]) != ConnectionKey(ports[b]);
    }
  }

  lemma LateAttempts(ports: seq<Port>, drained: nat -> nat, i: nat)
    requires DistinctKeys(ports) && 16 <= i < |ports| && forall j :: drained(j) == 0
    ensures var log := LogOf(Arrivals(ports), 0, drained);
            && Attempted(log) == Arrivals(ports) && |log| == |ports|
            && log[i] == Attempt(Connected(ports[i]), false)
            && forall a, b :: 0 <= a < b < |log| ==> KeyOf(log[a].event) != KeyOf(log[b].event)
  {
    hide ConnectionKey, DistinctKeys;
    NoDepartures(ports);
    NoReader(0, drained, i);
    AttemptsDistinct(ports, LogOf(Arrivals(ports), 0, drained));
  }

  lemma LastOfRepeat(m: PortMap, n: nat)
    ensures LastMap(map[], Repeat(m, n)) == m && Filed(map[])
  {
  }

  /** When more ports than the queue holds arrive at once and nobody reads meanwhile, each port after the 16th
      is unknown to every listener for as long as it stays attached. */
  lemma LatePortsAreLost(ports: seq<Port>, drained: nat -> nat, i: nat, n: nat)
    requires DistinctKeys(ports) && 16 <= i < |ports| && forall j :: drained(j) == 0
    ensures var logs := ThenSilent(LogOf(Arrivals(ports), 0, drained), n);
            var k := ConnectionKey(ports[i]);
            && IsRun(map[], Repeat(MapOf(ports), n), AttemptedAll(logs))
            && k in MapOf(ports) && k !in View(map[], logs)
  {
    hide ConnectionKey, IsPoll, MapOf, IsRun, View, Drops, Arrivals, DistinctKeys, LogOf, LastMap, Filed, Repeat,
      ThenSilent, AttemptedAll, Attempted, Fold;
    AllArrive(ports);
    MapOfDistinct(ports);
    LateAttempts(ports, drained, i);
    var log := LogOf(Arrivals(ports), 0, drained);
    var k := ConnectionKey(ports[i]);
    assert ports[i] in ports;
    QuietAfter(MapOf(ports), log, n);
    OneDrop(log, i);
    DropsAfterSilence(log, n, k);
    LastOfRepeat(MapOf(ports), n);
    WrongKeysExactly(map[], Repeat(MapOf(ports), n), ThenSilent(log, n), k);
  }

  function Name(n: nat): (s: string)
    ensures |s| == n
  {
    seq(n, _ => 'x')
  }

  function Ports(n: nat): (ports: seq<Port>)
    ensures |ports| == n && forall i :: 0 <= i < n ==> ports[i] == Port(Name(i), None)
  {
    seq(n, i requires 0 <= i < n => Port(Name(i), None))
  }

  lemma PortsDistinct(n: nat)
    ensures DistinctKeys(Ports(n))
  {
    forall i | 0 <= i < n ensures |ConnectionKey(Ports(n)[i])| == |KEY_PREFIX| + i + 1 {
      assert ConnectionKey(Ports(n)[i]) == KEY_PREFIX + Name(i) + ":" + "";
    }
  }

  /** Seventeen ports: the last one is lost. */
  lemma SeventeenthPortIsLost(n: nat)
    ensures var ports := Ports(17);
            var logs := ThenSilent(LogOf(Arrivals(ports), 0, (i: nat) => 0), n);
            var k := ConnectionKey(ports[16]);
            && IsRun(map[], Repeat(MapOf(ports), n), AttemptedAll(logs))
            && k in MapOf(ports) && k !in View(map[], logs)
  {
    PortsDistinct(17);
    LatePortsAreLost(Ports(17), (i: nat) => 0, 16, n);
  }
}
