// The serial-port backend's poll: differencing the known port map against the current one, and how its
// events keep the list of connected runtimes in step with the ports that are attached.
module SerialPolling {
  import opened Wrappers
  import U = UsbDiscovery

  datatype Port = Port(name: string, serial: Option<string>)

  datatype Event = Connected(port: Port) | Disconnected(port: Port)

  const KEY_PREFIX := "serialport:"

  function SerialText(port: Port): string {
    match port.serial case Some(sn) => sn case None => ""
  }

  function ConnectionKey(port: Port): string {
    KEY_PREFIX + port.name + ":" + SerialText(port)
  }

  /** The key's text: a port without a serial number has an empty one. */
  lemma KeyText(name: string, sn: string)
    ensures ConnectionKey(Port(name, Some(sn))) == "serialport:" + name + ":" + sn
    ensures ConnectionKey(Port(name, None)) == "serialport:" + name + ":"
  {
    assert "serialport:" + name + ":" + "" == "serialport:" + name + ":";
  }

  type PortMap = map<string, Port>

  /** Every port is filed under its own key. */
  ghost predicate Filed(m: PortMap) {
    forall k :: k in m ==> ConnectionKey(m[k]) == k
  }

  /** The map built from an enumeration; a later port replaces an earlier one with the same key. */
  function MapOf(ports: seq<Port>): (m: PortMap)
    ensures Filed(m)
    ensures forall p :: p in ports ==> ConnectionKey(p) in m
  {
    if ports == [] then map[]
    else MapOf(ports[..|ports| - 1])[ConnectionKey(ports[|ports| - 1]) := ports[|ports| - 1]]
  }

  lemma {:induction false} MapKeys(ports: seq<Port>, k: string)
    ensures k in MapOf(ports) <==> exists p :: p in ports && ConnectionKey(p) == k
  {
    hide ConnectionKey;
    if ports != [] {
      var n := |ports| - 1;
      MapKeys(ports[..n], k);
      assert ports == ports[..n] + [ports[n]];
    }
  }

  /** Under a key stands the last port enumerated with it. */
  lemma {:induction false} MapAt(ports: seq<Port>, k: string, p: Port)
    ensures k in MapOf(ports) && MapOf(ports)[k] == p <==>
            exists i :: 0 <= i < |ports| && ports[i] == p && ConnectionKey(p) == k &&
                        forall q :: q in ports[i + 1..] ==> ConnectionKey(q) != k
  {
    hide ConnectionKey;
    if ports != [] {
      var n := |ports| - 1;
      var front, last := ports[..n], ports[n];
      MapAt(front, k, p);
      forall i | 0 <= i < n ensures ports[i] == front[i] && ports[i + 1..] == front[i + 1..] + [last] {
      }
      assert ports[n + 1..] == [];
    }
  }

  method BuildPortMap(ports: seq<Port>) returns (m: PortMap)
    ensures m == MapOf(ports)
    ensures forall k :: k in m <==> exists p :: p in ports && ConnectionKey(p) == k
    ensures forall k, p :: k in m && m[k] == p <==>
              exists i :: 0 <= i < |ports| && ports[i] == p && ConnectionKey(p) == k &&
                          forall q :: q in ports[i + 1..] ==> ConnectionKey(q) != k
  {
    hide ConnectionKey;
    m := map[];
    for i := 0 to |ports|
      invariant m == MapOf(ports[..i])
    {
      assert ports[..i + 1][..i] == ports[..i];
      m := m[ConnectionKey(ports[i]) := ports[i]];
    }
    assert ports[..|ports|] == ports;
    forall k ensures k in m <==> exists p :: p in ports && ConnectionKey(p) == k { MapKeys(ports, k); }
    forall k, p { MapAt(ports, k, p); }
  }

  function KeyOf(e: Event): string {
    ConnectionKey(e.port)
  }

  /** What one poll generates: an arrival for every new key, a departure for every key that is gone, each
      once, in whatever order the two maps are walked. */
  ghost predicate IsPoll(known: PortMap, current: PortMap, events: seq<Event>) {
    && (forall e :: e in events && e.Connected? ==>
                   KeyOf(e) in current && KeyOf(e) !in known && e.port == current[KeyOf(e)])
    && (forall e :: e in events && e.Disconnected? ==>
                   KeyOf(e) in known && KeyOf(e) !in current && e.port == known[KeyOf(e)])
    && (forall k :: k in current && k !in known ==> Connected(current[k]) in events)
    && (forall k :: k in known && k !in current ==> Disconnected(known[k]) in events)
    && (forall i, j :: 0 <= i < j < |events| ==> KeyOf(events[i]) != KeyOf(events[j]))
  }

  /** The ports of `from` whose key is not in `other`, each once. */
  ghost predicate Unmatched(from: PortMap, other: PortMap, ports: seq<Port>) {
    && (forall p :: p in ports ==>
                   ConnectionKey(p) in from && ConnectionKey(p) !in other && p == from[ConnectionKey(p)])
    && (forall k :: k in from && k !in other ==> from[k] in ports)
    && (forall i, j :: 0 <= i < j < |ports| ==> ConnectionKey(ports[i]) != ConnectionKey(ports[j]))
  }

  /** Walks `from` in an arbitrary order, skipping keys that `other` has. */
  method CollectUnmatched(from: PortMap, other: PortMap) returns (ports: seq<Port>)
    requires Filed(from)
    ensures Unmatched(from, other, ports)
  {
    hide ConnectionKey;
    ports := [];
    var rest := from.Keys;
    while rest != {}
      invariant rest <= from.Keys
      invariant forall p :: p in ports ==>
                              var k := ConnectionKey(p); k in from && k !in other && k !in rest && p == from[k]
      invariant forall k :: k in from && k !in other && k !in rest ==> from[k] in ports
      invariant forall i, j :: 0 <= i < j < |ports| ==> ConnectionKey(ports[i]) != ConnectionKey(ports[j])
      decreases |rest|
    {
      var key :| key in rest;
      rest := rest - {key};
      if key in other {
        continue;
      }
      assert forall i :: 0 <= i < |ports| ==> ports[i] in ports;
      ports := ports + [from[key]];
    }
  }

  function Arrivals(ports: seq<Port>): (events: seq<Event>) {
    seq(|ports|, i requires 0 <= i < |ports| => Connected(ports[i]))
  }

  function Departures(ports: seq<Port>): (events: seq<Event>) {
    seq(|ports|, i requires 0 <= i < |ports| => Disconnected(ports[i]))
  }

  lemma EventsOf(ports: seq<Port>, e: Event)
    ensures e in Arrivals(ports) <==> e.Connected? && e.port in ports
    ensures e in Departures(ports) <==> e.Disconnected? && e.port in ports
  {
    if e.port in ports {
      var i :| 0 <= i < |ports| && ports[i] == e.port;
      assert Arrivals(ports)[i] == Connected(e.port) && Departures(ports)[i] == Disconnected(e.port);
    }
  }

  lemma PollOf(known: PortMap, current: PortMap, new': seq<Port>, gone: seq<Port>)
    requires Unmatched(current, known, new') && Unmatched(known, current, gone)
    ensures IsPoll(known, current, Arrivals(new') + Departures(gone))
  {
    hide ConnectionKey;
    var events := Arrivals(new') + Departures(gone);
    forall e: Event
      ensures e in events <==> e.port in if e.Connected? then new' else gone
    {
      EventsOf(new', e);
      EventsOf(gone, e);
    }
    forall i, j | 0 <= i < j < |events| ensures KeyOf(events[i]) != KeyOf(events[j]) {
      if i < |new'| <= j {
        assert new'[i] in new' && gone[j - |new'|] in gone;
      }
    }
  }

  /** One poll: arrivals of the new keys first, then departures of the keys that are gone. */
  method Poll(known: PortMap, current: PortMap) returns (events: seq<Event>)
    requires Filed(known) && Filed(current)
    ensures IsPoll(known, current, events)
    ensures forall i, j :: 0 <= i < j < |events| && events[i].Disconnected? ==> events[j].Disconnected?
  {
    var new' := CollectUnmatched(current, known);
    var gone := CollectUnmatched(known, current);
    PollOf(known, current, new', gone);
    events := Arrivals(new') + Departures(gone);
  }

  // ---------- Folding the events ----------

  function Fold(m: PortMap, events: seq<Event>): PortMap {
    if events == [] then m
    else
      var before := Fold(m, events[..|events| - 1]);
      match events[|events| - 1]
      case Connected(p) => before[ConnectionKey(p) := p]
      case Disconnected(p) => before - {ConnectionKey(p)}
  }

  lemma FoldLast(m: PortMap, events: seq<Event>, k: string)
    requires events != []
    ensures var n := |events| - 1;
            var before, after, e := Fold(m, events[..n]), Fold(m, events), events[n];
            && (KeyOf(e) != k ==> (k in after <==> k in before) && (k in before ==> after[k] == before[k]))
            && (KeyOf(e) == k ==> (k in after <==> e.Connected?) && (e.Connected? ==> after[k] == e.port))
  {
    hide ConnectionKey;
  }

  /** With at most one event per key, each event decides its own key and no other. */
  lemma {:induction false} FoldAt(m: PortMap, events: seq<Event>, k: string)
    requires forall i, j :: 0 <= i < j < |events| ==> KeyOf(events[i]) != KeyOf(events[j])
    ensures (forall e :: e in events ==> KeyOf(e) != k) ==>
              (k in Fold(m, events) <==> k in m) && (k in m ==> Fold(m, events)[k] == m[k])
    ensures forall e :: e in events && KeyOf(e) == k ==>
                          (k in Fold(m, events) <==> e.Connected?) && (e.Connected? ==> Fold(m, events)[k] == e.port)
    decreases |events|, 1
  {
    if events == [] {
    } else {
      FoldAtLast(m, events, k);
    }
  }

  lemma {:induction false} FoldAtLast(m: PortMap, events: seq<Event>, k: string)
    requires events != []
    requires forall i, j :: 0 <= i < j < |events| ==> KeyOf(events[i]) != KeyOf(events[j])
    ensures (forall e :: e in events ==> KeyOf(e) != k) ==>
              (k in Fold(m, events) <==> k in m) && (k in m ==> Fold(m, events)[k] == m[k])
    ensures forall e :: e in events && KeyOf(e) == k ==>
                          (k in Fold(m, events) <==> e.Connected?) && (e.Connected? ==> Fold(m, events)[k] == e.port)
    decreases |events|, 0
  {
    hide ConnectionKey, Fold;
    var n := |events| - 1;
    var front, last := events[..n], events[n];
    FoldAt(m, front, k);
    FoldLast(m, events, k);
    assert events == front + [last] && last in events;
    forall e | e in front ensures e in events && KeyOf(e) != KeyOf(last) {
      var i :| 0 <= i < n && events[i] == e;
    }
  }

  /** Applying a poll's events to the known map gives the current keys, and the current map itself exactly
      when no key stays attached under a different name and serial number. */
  lemma FoldReachesCurrent(known: PortMap, current: PortMap, events: seq<Event>)
    requires Filed(known) && Filed(current) && IsPoll(known, current, events)
    ensures Fold(known, events).Keys == current.Keys
    ensures Fold(known, events) == current <==> forall k :: k in known && k in current ==> known[k] == current[k]
  {
    hide ConnectionKey, Fold;
    forall k
      ensures k in Fold(known, events) <==> k in current
      ensures k in current ==> Fold(known, events)[k] == if k in known then known[k] else current[k]
    {
      FoldAt(known, events, k);
      if k in current && k !in known { assert Connected(current[k]) in events; }
      if k in known && k !in current { assert Disconnected(known[k]) in events; }
    }
    if Fold(known, events) == current {
      forall k | k in known && k in current ensures known[k] == current[k] {
        assert Fold(known, events)[k] == known[k];
      }
    }
  }

  /** Two different ports can share a key, and then an unplugged one is not noticed when the other appears. */
  lemma KeysCanCollide()
    ensures var p, q := Port("a:b", None), Port("a", Some("b:"));
            p != q && ConnectionKey(p) == ConnectionKey(q) && IsPoll(MapOf([p]), MapOf([q]), [])
  {
    var p, q := Port("a:b", None), Port("a", Some("b:"));
    assert "a:b" + ":" + "" == "a" + ":" + "b:";
    assert KEY_PREFIX + "a:b" + ":" + "" == KEY_PREFIX + ("a:b" + ":" + "");
    assert KEY_PREFIX + "a" + ":" + "b:" == KEY_PREFIX + ("a" + ":" + "b:");
    assert [p][..0] == [] && [q][..0] == [];
  }

  /** Both of two such ports are connected by the initial enumeration, under one key. */
  lemma CollidingPortsBothConnect()
    ensures var p, q := Port("a:b", None), Port("a", Some("b:"));
            var devices := [U.Device(ConnectionKey(p), p.serial, true, p.serial, true),
                            U.Device(ConnectionKey(q), q.serial, true, q.serial, true)];
            var connected := U.EnumerateAll(devices).env.connected;
            |connected| == 2 && connected[0].key == connected[1].key
  {
    hide ConnectionKey;
    KeysCanCollide();
    U.SameKeyTwice(ConnectionKey(Port("a:b", None)), None, Some("b:"));
  }

  /** Port names as operating systems give them, and serial numbers that are absent rather than empty. */
  predicate Clean(p: Port) {
    ':' !in p.name && p.serial != Some("")
  }

  function Colon(s: string): nat {
    if s == "" || s[0] == ':' then 0 else 1 + Colon(s[1..])
  }

  lemma {:induction false} FirstColon(name: string, rest: string)
    requires ':' !in name
    ensures Colon(name + ":" + rest) == |name|
  {
    if name != "" {
      assert name[0] in name;
      FirstColon(name[1..], rest);
      assert (name + ":" + rest)[1..] == name[1..] + ":" + rest;
    }
  }

  lemma CleanKeysIdentify(p: Port, q: Port)
    requires ':' !in p.name && p.serial != Some("") && ':' !in q.name && q.serial != Some("")
    requires ConnectionKey(p) == ConnectionKey(q)
    ensures p == q
  {
    var a := p.name + ":" + SerialText(p);
    var b := q.name + ":" + SerialText(q);
    assert ConnectionKey(p)[|KEY_PREFIX|..] == a && ConnectionKey(q)[|KEY_PREFIX|..] == b;
    FirstColon(p.name, SerialText(p));
    FirstColon(q.name, SerialText(q));
    assert a[..|p.name|] == p.name && b[..|p.name|] == q.name;
    assert a[|p.name| + 1..] == SerialText(p) && b[|p.name| + 1..] == SerialText(q);
  }

  // ---------- Runs of polls ----------

  function LastMap(known: PortMap, maps: seq<PortMap>): PortMap {
    if maps == [] then known else maps[|maps| - 1]
  }

  /** Poll `i` of the run found `maps[i]` and compared it with the map of the poll before. */
  ghost predicate PollAt(known: PortMap, maps: seq<PortMap>, polls: seq<seq<Event>>, i: nat)
    requires i < |maps| == |polls|
  {
    Filed(maps[i]) && IsPoll(LastMap(known, maps[..i]), maps[i], polls[i])
  }

  /** Port maps seen by successive completed polls, and the events each generated. */
  ghost predicate IsRun(known: PortMap, maps: seq<PortMap>, polls: seq<seq<Event>>) {
    |maps| == |polls| && forall i :: 0 <= i < |maps| ==> PollAt(known, maps, polls, i)
  }

  /** The maps of the ticks that could enumerate the ports. */
  function Completed(ticks: seq<Option<seq<Port>>>): seq<PortMap> {
    if ticks == [] then []
    else
      Completed(ticks[..|ticks| - 1]) +
      match ticks[|ticks| - 1] case Some(ports) => [MapOf(ports)] case None => []
  }

  lemma SameLength(known: PortMap, maps: seq<PortMap>, polls: seq<seq<Event>>)
    requires IsRun(known, maps, polls)
    ensures |maps| == |polls|
  {
  }

  lemma EmptyRun(known: PortMap)
    ensures IsRun(known, [], [])
  {
  }

  lemma RunSnoc(known: PortMap, maps: seq<PortMap>, polls: seq<seq<Event>>, current: PortMap, events: seq<Event>)
    requires IsRun(known, maps, polls) && Filed(current) && IsPoll(LastMap(known, maps), current, events)
    ensures IsRun(known, maps + [current], polls + [events])
  {
    hide ConnectionKey, IsPoll, Filed;
    var maps', polls' := maps + [current], polls + [events];
    forall i | 0 <= i < |maps'| ensures PollAt(known, maps', polls', i) {
      assert maps'[..i] == maps[..i];
      if i < |maps| {
        assert PollAt(known, maps, polls, i);
      } else {
        assert maps[..i] == maps;
      }
    }
  }

  function FoldAll(m: PortMap, polls: seq<seq<Event>>): PortMap {
    if polls == [] then m else Fold(FoldAll(m, polls[..|polls| - 1]), polls[|polls| - 1])
  }

  ghost predicate AllClean(m: PortMap) {
    forall k :: k in m ==> Clean(m[k])
  }

  lemma FoldKeysOnly(m: PortMap, known: PortMap, current: PortMap, events: seq<Event>)
    requires Filed(known) && Filed(current) && IsPoll(known, current, events) && m.Keys == known.Keys
    ensures Fold(m, events).Keys == current.Keys
    ensures Filed(m) ==> Filed(Fold(m, events))
    ensures AllClean(m) && AllClean(current) ==> AllClean(Fold(m, events))
  {
    hide ConnectionKey, Fold;
    forall k
      ensures k in Fold(m, events) <==> k in current
      ensures k in current ==> Fold(m, events)[k] == if k in known then m[k] else current[k]
    {
      FoldAt(m, events, k);
      if k in current && k !in known { assert Connected(current[k]) in events; }
      if k in known && k !in current { assert Disconnected(known[k]) in events; }
    }
  }

  lemma RunFront(known: PortMap, maps: seq<PortMap>, polls: seq<seq<Event>>)
    requires IsRun(known, maps, polls) && maps != []
    ensures var n := |maps| - 1;
            && IsRun(known, maps[..n], polls[..n])
            && Filed(maps[n]) && IsPoll(LastMap(known, maps[..n]), maps[n], polls[n])
  {
    hide ConnectionKey, IsPoll, Filed;
    var n := |maps| - 1;
    forall i | 0 <= i < n ensures PollAt(known, maps[..n], polls[..n], i) {
      assert PollAt(known, maps, polls, i) && maps[..n][..i] == maps[..i];
    }
    assert PollAt(known, maps, polls, n);
  }

  lemma LastIsFiled(known: PortMap, maps: seq<PortMap>, polls: seq<seq<Event>>)
    requires Filed(known) && IsRun(known, maps, polls)
    ensures Filed(LastMap(known, maps))
  {
    hide ConnectionKey, IsPoll, Filed;
    if maps != [] {
      assert PollAt(known, maps, polls, |maps| - 1);
    }
  }

  lemma SameCleanKeysSameMap(m: PortMap, n: PortMap)
    requires Filed(m) && Filed(n) && AllClean(m) && AllClean(n) && m.Keys == n.Keys
    ensures m == n
  {
    forall k | k in m ensures m[k] == n[k] { CleanKeysIdentify(m[k], n[k]); }
  }

  /** When no event is dropped, the events of any run of polls reproduce the attached keys, and with clean
      port names the attached ports themselves. */
  lemma {:induction false} RunReproducesPorts(known: PortMap, maps: seq<PortMap>, polls: seq<seq<Event>>)
    requires Filed(known) && IsRun(known, maps, polls)
    ensures FoldAll(known, polls).Keys == LastMap(known, maps).Keys && Filed(FoldAll(known, polls))
    ensures AllClean(known) && (forall m :: m in maps ==> AllClean(m)) ==> FoldAll(known, polls) == LastMap(known, maps)
  {
    hide ConnectionKey, IsPoll, Filed, AllClean, Fold;
    if maps != [] {
      var n := |maps| - 1;
      RunFront(known, maps, polls);
      RunReproducesPorts(known, maps[..n], polls[..n]);
      LastIsFiled(known, maps[..n], polls[..n]);
      FoldKeysOnly(FoldAll(known, polls[..n]), LastMap(known, maps[..n]), maps[n], polls[n]);
      if AllClean(known) && forall m :: m in maps ==> AllClean(m) {
        assert forall m :: m in maps[..n] ==> m in maps;
        assert maps[n] in maps;
        assert AllClean(LastMap(known, maps[..n]));
        SameCleanKeysSameMap(FoldAll(known, polls), maps[n]);
      }
    } else {
      assert polls == [];
    }
  }

  /** The polling task: each tick enumerates the ports or fails; a failed enumeration changes nothing. */
  method PollingTask(initial: seq<Port>, ticks: seq<Option<seq<Port>>>)
      returns (known: PortMap, ghost maps: seq<PortMap>, polls: seq<seq<Event>>)
    ensures IsRun(MapOf(initial), maps, polls) && maps == Completed(ticks)
    ensures known == LastMap(MapOf(initial), Completed(ticks)) && |polls| == |Completed(ticks)|
    ensures FoldAll(MapOf(initial), polls).Keys == known.Keys
  {
    hide ConnectionKey, IsPoll, Filed, IsRun, MapOf, Fold;
    known := BuildPortMap(initial);
    maps, polls := [], [];
    EmptyRun(MapOf(initial));
    for t := 0 to |ticks|
      invariant maps == Completed(ticks[..t]) && known == LastMap(MapOf(initial), maps)
      invariant IsRun(MapOf(initial), maps, polls) && Filed(known)
    {
      assert ticks[..t + 1][..t] == ticks[..t];
      if ticks[t].None? {
        continue;
      }
      var current := BuildPortMap(ticks[t].value);
      var events := Poll(known, current);
      RunSnoc(MapOf(initial), maps, polls, current, events);
      known, maps, polls := current, maps + [current], polls + [events];
    }
    assert ticks[..|ticks|] == ticks;
    RunReproducesPorts(MapOf(initial), maps, polls);
    SameLength(MapOf(initial), maps, polls);
  }
}
