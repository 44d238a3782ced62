// WiFi discovery: a list of connected runtimes kept in step with noisy mDNS sightings.
// A sighting carries the tokens with which connecting to it would succeed; everything else is what the code computes.
module WifiDiscovery {
  import opened Wrappers

  type HostId = nat

  const WIFI_PROTOCOL := "enody-v1"
  const WIFI_AUTH := "noise-psk"
  const MISSES_BEFORE_LEFT: nat := 3
  const COUNTER_MAX: nat := 255
  const RUNTIME_EVENT_CHANNEL_SIZE := 16

  datatype Token = Token(key: nat)

  type Tokens = map<HostId, Token>

  datatype Device = Device(hostId: Option<HostId>, protocol: Option<string>, auth: Option<string>, accepts: set<Token>)

  datatype Connected = Connected(host: HostId, missed: nat)

  datatype Event = Arrived(host: HostId) | Left(host: HostId)

  function TokenFor(tokens: Tokens, d: Device): Option<Token> {
    if d.hostId.None? || d.hostId.value !in tokens then None
    else if d.protocol != Some(WIFI_PROTOCOL) || d.auth != Some(WIFI_AUTH) then None
    else Some(tokens[d.hostId.value])
  }

  /** Connecting uses the token looked up for the sighting, and succeeds if that is one the device accepts. */
  predicate Connects(tokens: Tokens, d: Device) {
    TokenFor(tokens, d).Some? && TokenFor(tokens, d).value in d.accepts
  }

  /** A sighting that counts: of a known, compatible host that is not excluded. */
  predicate Eligible(tokens: Tokens, excluded: set<HostId>, d: Device) {
    d.hostId.Some? && d.hostId.value !in excluded && TokenFor(tokens, d).Some?
  }

  function Hosts(connected: seq<Connected>): seq<HostId> {
    seq(|connected|, i requires 0 <= i < |connected| => connected[i].host)
  }

  predicate Distinct(connected: seq<Connected>) {
    forall i, j :: 0 <= i < j < |connected| ==> connected[i].host != connected[j].host
  }

  predicate Holds(connected: seq<Connected>, h: HostId) {
    exists i :: 0 <= i < |connected| && connected[i].host == h
  }

  /** Position of a host in the list, or the length. */
  function Position(connected: seq<Connected>, h: HostId): (i: nat)
    ensures i <= |connected|
    ensures i < |connected| ==> connected[i].host == h
    ensures forall j :: 0 <= j < i ==> connected[j].host != h
    ensures Holds(connected, h) <==> i < |connected|
  {
    if connected == [] then 0
    else if connected[0].host == h then 0
    else
      var i := Position(connected[1..], h);
      assert forall j :: 0 < j < 1 + i ==> connected[j] == connected[1..][j - 1];
      assert Holds(connected, h) ==> Holds(connected[1..], h) by {
        if Holds(connected, h) {
          var k :| 0 <= k < |connected| && connected[k].host == h;
          assert connected[1..][k - 1].host == h;
        }
      }
      1 + i
  }

  /** One more miss in an 8-bit counter that does not wrap. */
  function SaturatingIncrement(missed: nat): (r: nat)
    ensures missed <= 255 ==> missed <= r <= 255 && (r == missed <==> missed == 255)
    ensures missed < 255 ==> r == missed + 1
  {
    if missed >= COUNTER_MAX then COUNTER_MAX else missed + 1
  }

  // ---------- One round, as functions ----------

  /** Hosts with a sighting that counts. */
  function SeenHosts(tokens: Tokens, excluded: set<HostId>, devices: seq<Device>): set<HostId> {
    set d | d in devices && Eligible(tokens, excluded, d) :: d.hostId.value
  }

  datatype Scan = Scan(connected: seq<Connected>, seen: set<HostId>, events: seq<Event>)

  /** One sighting: the first of its host resets the counter of a connected host or tries to connect it. */
  function Sight(tokens: Tokens, excluded: set<HostId>, sc: Scan, d: Device): Scan {
    if !Eligible(tokens, excluded, d) || d.hostId.value in sc.seen then sc
    else
      var h := d.hostId.value;
      var marked := sc.(seen := sc.seen + {h});
      var i := Position(sc.connected, h);
      if i < |sc.connected| then marked.(connected := sc.connected[i := sc.connected[i].(missed := 0)])
      else if Connects(tokens, d) then
        marked.(connected := sc.connected + [Connected(h, 0)], events := sc.events + [Arrived(h)])
      else marked
  }

  function SightAll(tokens: Tokens, excluded: set<HostId>, sc: Scan, devices: seq<Device>): Scan {
    if devices == [] then sc
    else Sight(tokens, excluded, SightAll(tokens, excluded, sc, devices[..|devices| - 1]), devices[|devices| - 1])
  }

  /** Ageing of one entry: the entry it becomes, or `None` when the host is given up. */
  function Aged(c: Connected, seen: set<HostId>): Option<Connected> {
    if c.host in seen then Some(c.(missed := 0))
    else
      var missed := SaturatingIncrement(c.missed);
      if missed >= MISSES_BEFORE_LEFT then None else Some(c.(missed := missed))
  }

  function Kept(connected: seq<Connected>, seen: set<HostId>): seq<Connected> {
    if connected == [] then []
    else
      var front := Kept(connected[..|connected| - 1], seen);
      match Aged(connected[|connected| - 1], seen) case Some(c) => front + [c] case None => front
  }

  function GivenUp(connected: seq<Connected>, seen: set<HostId>): seq<HostId> {
    if connected == [] then []
    else
      var front := GivenUp(connected[..|connected| - 1], seen);
      var last := connected[|connected| - 1];
      if Aged(last, seen).None? then front + [last.host] else front
  }

  function Departures(hosts: seq<HostId>): seq<Event> {
    seq(|hosts|, i requires 0 <= i < |hosts| => Left(hosts[i]))
  }

  function Scanned(tokens: Tokens, excluded: set<HostId>, connected: seq<Connected>, devices: seq<Device>): Scan {
    SightAll(tokens, excluded, Scan(connected, {}, []), devices)
  }

  /** The list after a completed round. */
  function Reconciled(
      tokens: Tokens, excluded: set<HostId>, connected: seq<Connected>, devices: seq<Device>): seq<Connected>
  {
    var sc := Scanned(tokens, excluded, connected, devices);
    Kept(sc.connected, sc.seen)
  }

  /** The events a completed round generates. */
  function RoundEvents(
      tokens: Tokens, excluded: set<HostId>, connected: seq<Connected>, devices: seq<Device>): seq<Event>
  {
    var sc := Scanned(tokens, excluded, connected, devices);
    sc.events + Departures(GivenUp(sc.connected, sc.seen))
  }

  // ---------- What scanning does ----------

  /** The first sighting of `h` that counts. */
  function FirstSighting(tokens: Tokens, excluded: set<HostId>, devices: seq<Device>, h: HostId): Option<Device> {
    if devices == [] then None
    else
      var earlier := FirstSighting(tokens, excluded, devices[..|devices| - 1], h);
      var last := devices[|devices| - 1];
      if earlier.Some? then earlier
      else if Eligible(tokens, excluded, last) && last.hostId.value == h then Some(last)
      else None
  }

  predicate FirstSightingConnects(tokens: Tokens, excluded: set<HostId>, devices: seq<Device>, h: HostId) {
    var first := FirstSighting(tokens, excluded, devices, h);
    first.Some? && Connects(tokens, first.value)
  }

  lemma SeenSnoc(tokens: Tokens, excluded: set<HostId>, front: seq<Device>, d: Device)
    ensures SeenHosts(tokens, excluded, front + [d]) ==
            SeenHosts(tokens, excluded, front) + (if Eligible(tokens, excluded, d) then {d.hostId.value} else {})
  {
    var all, some := SeenHosts(tokens, excluded, front + [d]), SeenHosts(tokens, excluded, front);
    forall h | h in some ensures h in all {
      var e :| e in front && Eligible(tokens, excluded, e) && e.hostId.value == h;
      assert e in front + [d];
    }
    if Eligible(tokens, excluded, d) {
      assert d in front + [d];
      assert d.hostId.value in all;
    }
  }

  lemma {:induction false} SeenMeansSighted(tokens: Tokens, excluded: set<HostId>, devices: seq<Device>, h: HostId)
    ensures h in SeenHosts(tokens, excluded, devices) <==> FirstSighting(tokens, excluded, devices, h).Some?
  {
    if devices != [] {
      var n := |devices| - 1;
      SeenMeansSighted(tokens, excluded, devices[..n], h);
      assert devices == devices[..n] + [devices[n]];
      SeenSnoc(tokens, excluded, devices[..n], devices[n]);
    }
  }

  /** The hosts seen, in terms of what was advertised. */
  lemma SeenIff(tokens: Tokens, excluded: set<HostId>, devices: seq<Device>, h: HostId)
    ensures h in SeenHosts(tokens, excluded, devices) <==>
            && h in tokens && h !in excluded
            && exists d :: d in devices && d == Device(Some(h), Some("enody-v1"), Some("noise-psk"), d.accepts)
  {
    if d :| d in devices && d == Device(Some(h), Some("enody-v1"), Some("noise-psk"), d.accepts) {
      assert h in tokens && h !in excluded ==> Eligible(tokens, excluded, d) && d.hostId.value == h;
    }
  }

  /** Some sighting of `h` that advertises this protocol with this kind of authentication can be connected with
      `token`, and it is the first such sighting of `h`. */
  predicate ConnectsFirst(devices: seq<Device>, h: HostId, token: Token) {
    exists i: nat ::
      && i < |devices|
      && token in devices[i].accepts
      && devices[i] == Device(Some(h), Some("enody-v1"), Some("noise-psk"), devices[i].accepts)
      && forall d :: d in devices[..i] ==> d != Device(Some(h), Some("enody-v1"), Some("noise-psk"), d.accepts)
  }

  lemma ConnectsFirstSnoc(front: seq<Device>, last: Device, h: HostId, token: Token)
    ensures ConnectsFirst(front + [last], h, token) <==>
            ConnectsFirst(front, h, token) ||
            (&& token in last.accepts && last == Device(Some(h), Some("enody-v1"), Some("noise-psk"), last.accepts)
             && forall d :: d in front ==> d != Device(Some(h), Some("enody-v1"), Some("noise-psk"), d.accepts))
  {
    var all, n := front + [last], |front|;
    assert all[..n] == front && all[n] == last;
    forall i: nat | i < n ensures all[i] == front[i] && all[..i] == front[..i] {
    }
  }

  lemma FirstSightingSnoc(tokens: Tokens, excluded: set<HostId>, front: seq<Device>, last: Device, h: HostId)
    ensures FirstSighting(tokens, excluded, front + [last], h) ==
            if FirstSighting(tokens, excluded, front, h).Some? then FirstSighting(tokens, excluded, front, h)
            else if h in tokens && h !in excluded &&
                    last == Device(Some(h), Some("enody-v1"), Some("noise-psk"), last.accepts) then Some(last)
            else None
    ensures h in tokens && last == Device(Some(h), Some("enody-v1"), Some("noise-psk"), last.accepts) ==>
              (Connects(tokens, last) <==> tokens[h] in last.accepts)
  {
    assert (front + [last])[..|front|] == front;
  }

  /** The first sighting of a host that counts connects exactly when the first one that advertises the right
      protocol and authentication accepts the token saved for that very host. */
  lemma {:induction false} FirstConnectsIff(tokens: Tokens, excluded: set<HostId>, devices: seq<Device>, h: HostId)
    ensures FirstSightingConnects(tokens, excluded, devices, h) <==>
            h in tokens && h !in excluded && ConnectsFirst(devices, h, tokens[h])
    ensures FirstSighting(tokens, excluded, devices, h).Some? <==>
            && h in tokens && h !in excluded
            && exists d :: d in devices && d == Device(Some(h), Some("enody-v1"), Some("noise-psk"), d.accepts)
  {
    SeenMeansSighted(tokens, excluded, devices, h);
    SeenIff(tokens, excluded, devices, h);
    if devices != [] {
      hide SeenHosts, ConnectsFirst, Eligible, Connects, FirstSighting;
      var front, last := devices[..|devices| - 1], devices[|devices| - 1];
      assert devices == front + [last];
      FirstConnectsIff(tokens, excluded, front, h);
      FirstSightingSnoc(tokens, excluded, front, last, h);
      if h in tokens { ConnectsFirstSnoc(front, last, h, tokens[h]); }
    }
  }

  /** `after` continues `before`: the same hosts in the same places, counters reset exactly for the hosts seen,
      and newcomers behind them, seen and with a fresh counter. */
  ghost predicate Extends(before: seq<Connected>, after: seq<Connected>, seen: set<HostId>) {
    && |before| <= |after|
    && (forall i :: 0 <= i < |before| ==>
          after[i] == if before[i].host in seen then before[i].(missed := 0) else before[i])
    && (forall i :: |before| <= i < |after| ==> after[i].host in seen && after[i].missed == 0)
  }

  /** The newcomers of a scan are exactly the hosts whose arrival it announces, in order. */
  ghost predicate Announced(before: seq<Connected>, sc: Scan) {
    && |sc.events| == |sc.connected| - |before|
    && forall i :: 0 <= i < |sc.events| ==> sc.events[i] == Arrived(sc.connected[|before| + i].host)
  }

  ghost predicate ScanInv(before: seq<Connected>, sc: Scan) {
    Distinct(sc.connected) && Extends(before, sc.connected, sc.seen) && Announced(before, sc)
  }

  lemma SightKeeps(tokens: Tokens, excluded: set<HostId>, before: seq<Connected>, sc: Scan, d: Device)
    requires ScanInv(before, sc)
    ensures ScanInv(before, Sight(tokens, excluded, sc, d))
  {
  }

  lemma SightHolds(tokens: Tokens, excluded: set<HostId>, sc: Scan, d: Device, h: HostId)
    ensures Holds(Sight(tokens, excluded, sc, d).connected, h) <==>
            Holds(sc.connected, h) ||
            (Eligible(tokens, excluded, d) && d.hostId.value == h && h !in sc.seen && Connects(tokens, d))
  {
    var after := Sight(tokens, excluded, sc, d).connected;
    if Holds(sc.connected, h) {
      var i :| 0 <= i < |sc.connected| && sc.connected[i].host == h;
      assert after[i].host == h;
    }
    if Holds(after, h) {
      var i :| 0 <= i < |after| && after[i].host == h;
      if i < |sc.connected| { assert sc.connected[i].host == h; }
    }
    if |after| > |sc.connected| { assert after[|sc.connected|].host == d.hostId.value; }
  }

  lemma {:induction false} ScanMeaning(
      tokens: Tokens, excluded: set<HostId>, before: seq<Connected>, devices: seq<Device>)
    requires Distinct(before)
    ensures var sc := Scanned(tokens, excluded, before, devices);
            && sc.seen == SeenHosts(tokens, excluded, devices)
            && ScanInv(before, sc)
            && forall h :: Holds(sc.connected, h) <==>
                           Holds(before, h) || FirstSightingConnects(tokens, excluded, devices, h)
  {
    if devices != [] {
      hide SeenHosts, Holds, Distinct, ScanInv;
      var n := |devices| - 1;
      var front, d := devices[..n], devices[n];
      var sc := Scanned(tokens, excluded, before, front);
      ScanMeaning(tokens, excluded, before, front);
      assert devices == front + [d];
      SeenSnoc(tokens, excluded, front, d);
      SightKeeps(tokens, excluded, before, sc, d);
      forall h
        ensures Holds(Scanned(tokens, excluded, before, devices).connected, h) <==>
                Holds(before, h) || FirstSightingConnects(tokens, excluded, devices, h)
      {
        SightHolds(tokens, excluded, sc, d, h);
        SeenMeansSighted(tokens, excluded, front, h);
      }
    }
  }

  // ---------- What ageing does ----------

  /** The list seen from one host: its miss counter, if it is connected. */
  function Counter(connected: seq<Connected>, h: HostId): Option<nat> {
    var i := Position(connected, h);
    if i < |connected| then Some(connected[i].missed) else None
  }

  lemma CounterSnoc(connected: seq<Connected>, c: Connected, h: HostId)
    ensures Counter(connected + [c], h) ==
            if Holds(connected, h) then Counter(connected, h) else if c.host == h then Some(c.missed) else None
  {
    var all := connected + [c];
    if Holds(connected, h) {
      assert all[Position(connected, h)].host == h;
    } else if c.host == h {
      assert all[|connected|].host == h;
    }
  }

  /** What one completed round does to the counter of a host that is connected when ageing starts. */
  function AgedCounter(counter: Option<nat>, seen: bool): Option<nat> {
    match counter
    case None => None
    case Some(m) =>
      if seen then Some(0)
      else if SaturatingIncrement(m) >= MISSES_BEFORE_LEFT then None else Some(SaturatingIncrement(m))
  }

  lemma HoldsSnoc(connected: seq<Connected>, c: Connected, h: HostId)
    ensures Holds(connected + [c], h) <==> Holds(connected, h) || c.host == h
  {
    var all := connected + [c];
    if Holds(connected, h) {
      assert all[Position(connected, h)].host == h;
    } else if c.host == h {
      assert all[|connected|].host == h;
    }
  }

  lemma SnocDistinct(front: seq<Connected>, last: Connected)
    requires Distinct(front + [last])
    ensures Distinct(front) && !Holds(front, last.host)
  {
    var all := front + [last];
    assert forall k :: 0 <= k < |front| ==> all[k] == front[k];
    assert all[|front|] == last;
  }

  lemma AgeSnoc(front: seq<Connected>, last: Connected, seen: set<HostId>)
    ensures Kept([], seen) == [] && GivenUp([], seen) == []
    ensures Kept(front + [last], seen) ==
            Kept(front, seen) + match Aged(last, seen) case Some(c) => [c] case None => []
    ensures GivenUp(front + [last], seen) ==
            GivenUp(front, seen) + if Aged(last, seen).None? then [last.host] else []
  {
    assert (front + [last])[..|front|] == front;
  }

  lemma CounterOf(connected: seq<Connected>, h: HostId)
    ensures Counter(connected, h).Some? <==> Holds(connected, h)
    ensures Counter([], h) == None
  {
  }

  lemma {:induction false} AgeMeaning(connected: seq<Connected>, seen: set<HostId>, h: HostId)
    requires Distinct(connected)
    ensures Counter(Kept(connected, seen), h) == AgedCounter(Counter(connected, h), h in seen)
    ensures h in GivenUp(connected, seen) <==> Holds(connected, h) && Counter(Kept(connected, seen), h).None?
  {
    hide Kept, GivenUp, Holds, Distinct, Counter;
    CounterOf(connected, h);
    if connected == [] {
      AgeSnoc([], Connected(h, 0), seen);
    } else {
      var front, last := connected[..|connected| - 1], connected[|connected| - 1];
      assert connected == front + [last];
      SnocDistinct(front, last);
      AgeSnoc(front, last, seen);
      AgeMeaning(front, seen, h);
      CounterOf(front, h);
      CounterSnoc(front, last, h);
      HoldsSnoc(front, last, h);
      CounterOf(Kept(front, seen), h);
      match Aged(last, seen)
      case Some(c) => CounterSnoc(Kept(front, seen), c, h);
      case None => assert Kept(connected, seen) == Kept(front, seen);
    }
  }

  lemma {:induction false} KeptDistinct(connected: seq<Connected>, seen: set<HostId>)
    requires Distinct(connected)
    ensures Distinct(Kept(connected, seen))
  {
    if connected != [] {
      var n := |connected| - 1;
      var front, last := connected[..n], connected[n];
      KeptDistinct(front, seen);
      AgeMeaning(front, seen, last.host);
      assert !Holds(front, last.host);
      var kept := Kept(front, seen);
      assert forall i :: 0 <= i < |kept| ==> Holds(kept, kept[i].host);
    }
  }

  lemma ScanCounter(tokens: Tokens, excluded: set<HostId>, before: seq<Connected>, devices: seq<Device>, h: HostId)
    requires Distinct(before)
    ensures var sc := Scanned(tokens, excluded, before, devices);
            Counter(sc.connected, h) ==
            if h in SeenHosts(tokens, excluded, devices)
            then (if Holds(before, h) || FirstSightingConnects(tokens, excluded, devices, h) then Some(0) else None)
            else Counter(before, h)
  {
    hide SeenHosts, Scanned, FirstSightingConnects;
    ScanMeaning(tokens, excluded, before, devices);
    var sc := Scanned(tokens, excluded, before, devices);
    var i := Position(sc.connected, h);
    var j := Position(before, h);
    if j < |before| { assert sc.connected[j].host == h; }
  }

  lemma DeparturesContain(hosts: seq<HostId>, h: HostId)
    ensures Left(h) in Departures(hosts) <==> h in hosts
  {
    if h in hosts {
      var i :| 0 <= i < |hosts| && hosts[i] == h;
      assert Departures(hosts)[i] == Left(h);
    }
  }

  lemma ArrivalsContain(before: seq<Connected>, sc: Scan, h: HostId)
    requires ScanInv(before, sc)
    ensures Arrived(h) in sc.events <==> Holds(sc.connected, h) && !Holds(before, h)
  {
    var i := Position(sc.connected, h);
    if i < |sc.connected| && !Holds(before, h) {
      assert sc.events[i - |before|] == Arrived(h);
    }
    if Arrived(h) in sc.events {
      var k :| 0 <= k < |sc.events| && sc.events[k] == Arrived(h);
      assert sc.connected[|before| + k].host == h;
      assert forall j :: 0 <= j < |before| ==> sc.connected[j].host == before[j].host;
    }
  }

  /** One completed round, seen from one host. */
  lemma RoundMeaning(tokens: Tokens, excluded: set<HostId>, before: seq<Connected>, devices: seq<Device>, h: HostId)
    requires Distinct(before)
    ensures Distinct(Reconciled(tokens, excluded, before, devices))
    ensures Counter(Reconciled(tokens, excluded, before, devices), h) ==
            if h in SeenHosts(tokens, excluded, devices)
            then (if Holds(before, h) || FirstSightingConnects(tokens, excluded, devices, h) then Some(0) else None)
            else AgedCounter(Counter(before, h), false)
    ensures Arrived(h) in RoundEvents(tokens, excluded, before, devices) <==>
            !Holds(before, h) && FirstSightingConnects(tokens, excluded, devices, h)
    ensures Left(h) in RoundEvents(tokens, excluded, before, devices) <==>
            Holds(before, h) && Counter(Reconciled(tokens, excluded, before, devices), h).None?
  {
    hide SeenHosts, Scanned, FirstSightingConnects;
    ScanMeaning(tokens, excluded, before, devices);
    ScanCounter(tokens, excluded, before, devices, h);
    var sc := Scanned(tokens, excluded, before, devices);
    KeptDistinct(sc.connected, sc.seen);
    AgeMeaning(sc.connected, sc.seen, h);
    var lost := GivenUp(sc.connected, sc.seen);
    assert Left(h) in Departures(lost) <==> h in lost by { DeparturesContain(lost, h); }
    assert Arrived(h) in sc.events <==> !Holds(before, h) && FirstSightingConnects(tokens, excluded, devices, h) by {
      ArrivalsContain(before, sc, h);
    }
    assert Arrived(h) !in Departures(lost);
    assert Left(h) !in sc.events;
  }

  /** A completed round announces a host exactly when it was not connected, has a token, is not excluded, and
      the first sighting of it that advertises the right protocol and authentication accepts that token. */
  lemma ArrivedIff(tokens: Tokens, excluded: set<HostId>, before: seq<Connected>, devices: seq<Device>, h: HostId)
    requires Distinct(before)
    ensures Arrived(h) in RoundEvents(tokens, excluded, before, devices) <==>
            && !Holds(before, h)
            && h in tokens && h !in excluded && ConnectsFirst(devices, h, tokens[h])
    ensures Holds(Scanned(tokens, excluded, [], devices).connected, h) <==>
            h in tokens && h !in excluded && ConnectsFirst(devices, h, tokens[h])
  {
    hide SeenHosts, Scanned, FirstSightingConnects, RoundEvents, ConnectsFirst;
    RoundMeaning(tokens, excluded, before, devices, h);
    FirstConnectsIff(tokens, excluded, devices, h);
    ScanMeaning(tokens, excluded, [], devices);
  }

  /** Arrivals come in the order of the sightings: looking at more of them only adds events at the end. */
  lemma {:induction false} ArrivalsInOrder(
      tokens: Tokens, excluded: set<HostId>, before: seq<Connected>, devices: seq<Device>, more: seq<Device>)
    ensures Scanned(tokens, excluded, before, devices).events <=
            Scanned(tokens, excluded, before, devices + more).events
  {
    if more == [] {
      assert devices + more == devices;
    } else {
      var all := devices + more;
      assert all[..|all| - 1] == devices + more[..|more| - 1];
      ArrivalsInOrder(tokens, excluded, before, devices, more[..|more| - 1]);
    }
  }

  lemma PositionSnoc(front: seq<Connected>, last: Connected, h: HostId)
    ensures Position(front + [last], h) ==
            if Holds(front, h) || last.host == h then (if Holds(front, h) then Position(front, h) else |front|)
            else |front| + 1
  {
    var all := front + [last];
    assert forall k :: 0 <= k < |front| ==> all[k] == front[k];
    if Holds(front, h) {
      assert all[Position(front, h)].host == h;
    } else if last.host == h {
      assert all[|front|].host == h;
    }
  }

  /** Hosts are given up in the order in which they stand in the list. */
  lemma {:induction false} GivenUpInOrder(connected: seq<Connected>, seen: set<HostId>)
    requires Distinct(connected)
    ensures var lost := GivenUp(connected, seen);
            && (forall i :: 0 <= i < |lost| ==> Holds(connected, lost[i]))
            && forall i, j :: 0 <= i < j < |lost| ==> Position(connected, lost[i]) < Position(connected, lost[j])
  {
    if connected != [] {
      hide Holds, Position, Distinct, GivenUp;
      var front, last := connected[..|connected| - 1], connected[|connected| - 1];
      assert connected == front + [last];
      SnocDistinct(front, last);
      AgeSnoc(front, last, seen);
      GivenUpInOrder(front, seen);
      var before, lost := GivenUp(front, seen), GivenUp(connected, seen);
      forall i | 0 <= i < |lost|
        ensures Holds(connected, lost[i])
        ensures Position(connected, lost[i]) == if i < |before| then Position(front, before[i]) else |front|
      {
        assert lost[i] == if i < |before| then before[i] else last.host;
        HoldsSnoc(front, last, lost[i]);
        PositionSnoc(front, last, lost[i]);
      }
    }
  }

  lemma LeavesFromBefore(sc: Scan, before: seq<Connected>, h: HostId)
    requires ScanInv(before, sc) && h in GivenUp(sc.connected, sc.seen)
    ensures Position(sc.connected, h) == Position(before, h) < |before|
  {
    AgeMeaning(sc.connected, sc.seen, h);
    var i := Position(sc.connected, h);
    assert i < |before|;
    assert before[i].host == h;
    var j := Position(before, h);
    assert sc.connected[j].host == before[j].host;
  }

  /** The events of a completed round: its arrivals, then its departures in the order of the list. */
  lemma RoundInOrder(tokens: Tokens, excluded: set<HostId>, before: seq<Connected>, devices: seq<Device>)
    requires Distinct(before)
    ensures var events := RoundEvents(tokens, excluded, before, devices);
            forall i, j :: 0 <= i < j < |events| && events[i].Left? ==>
              events[j].Left? && Position(before, events[i].host) < Position(before, events[j].host)
  {
    hide SeenHosts, Scanned, GivenUp, Holds, Distinct, Position;
    ScanMeaning(tokens, excluded, before, devices);
    var sc := Scanned(tokens, excluded, before, devices);
    GivenUpInOrder(sc.connected, sc.seen);
    var n, lost := |sc.events|, GivenUp(sc.connected, sc.seen);
    var events := RoundEvents(tokens, excluded, before, devices);
    assert events == sc.events + Departures(lost);
    forall i, j | 0 <= i < j < |events| && events[i].Left?
      ensures events[j].Left? && Position(before, events[i].host) < Position(before, events[j].host)
    {
      assert i >= n && events[i] == Left(lost[i - n]) && events[j] == Left(lost[j - n]);
      LeavesFromBefore(sc, before, lost[i - n]);
      LeavesFromBefore(sc, before, lost[j - n]);
    }
  }

  // ---------- Runs ----------

  datatype Op = Round(devices: seq<Device>) | Exclude(host: HostId) | Unexclude(host: HostId)

  datatype Env = Env(connected: seq<Connected>, excluded: set<HostId>)

  function Without(connected: seq<Connected>, h: HostId): seq<Connected> {
    var i := Position(connected, h);
    if i < |connected| then connected[..i] + connected[i + 1..] else connected
  }

  /** One operation executed on its own: a completed discovery round, or a change of the exclusion set. */
  function ApplyOp(tokens: Tokens, s: Env, op: Op): Env {
    match op
    case Round(devices) => s.(connected := Reconciled(tokens, s.excluded, s.connected, devices))
    case Exclude(h) => if h in s.excluded then s else Env(Without(s.connected, h), s.excluded + {h})
    case Unexclude(h) => s.(excluded := s.excluded - {h})
  }

  function OpEvents(tokens: Tokens, s: Env, op: Op): seq<Event> {
    match op
    case Round(devices) => RoundEvents(tokens, s.excluded, s.connected, devices)
    case Exclude(h) => if h !in s.excluded && Holds(s.connected, h) then [Left(h)] else []
    case Unexclude(h) => []
  }

  function Run(tokens: Tokens, s: Env, ops: seq<Op>): Env {
    if ops == [] then s else ApplyOp(tokens, Run(tokens, s, ops[..|ops| - 1]), ops[|ops| - 1])
  }

  function RunEvents(tokens: Tokens, s: Env, ops: seq<Op>): seq<Event> {
    if ops == [] then []
    else
      var front := ops[..|ops| - 1];
      RunEvents(tokens, s, front) + OpEvents(tokens, Run(tokens, s, front), ops[|ops| - 1])
  }

  /** What the constructor leaves: one connected runtime per host whose first counting sighting connects. */
  function Constructed(tokens: Tokens, excluded: set<HostId>, devices: seq<Device>): Env {
    Env(if tokens == map[] then [] else Scanned(tokens, excluded, [], devices).connected, excluded)
  }

  /** What every reachable environment satisfies. */
  ghost predicate EnvInv(s: Env) {
    && Distinct(s.connected)
    && forall c :: c in s.connected ==> c.host !in s.excluded && c.missed < MISSES_BEFORE_LEFT
  }

  lemma SeenNotExcluded(tokens: Tokens, excluded: set<HostId>, devices: seq<Device>)
    ensures SeenHosts(tokens, excluded, devices) !! excluded
  {
  }

  lemma {:induction false} KeptInv(connected: seq<Connected>, seen: set<HostId>, excluded: set<HostId>)
    requires forall c :: c in connected ==> c.host !in excluded
    ensures forall c :: c in Kept(connected, seen) ==> c.host !in excluded && c.missed < MISSES_BEFORE_LEFT
  {
    if connected != [] {
      var last := connected[|connected| - 1];
      KeptInv(connected[..|connected| - 1], seen, excluded);
      assert last in connected;
    }
  }

  lemma WithoutKeepsInv(connected: seq<Connected>, excluded: set<HostId>, h: HostId)
    requires EnvInv(Env(connected, excluded))
    ensures EnvInv(Env(Without(connected, h), excluded + {h}))
  {
    var i, after := Position(connected, h), Without(connected, h);
    assert forall j :: 0 <= j < |after| ==> after[j] == connected[if j < i then j else j + 1];
  }

  lemma RoundKeepsInv(tokens: Tokens, s: Env, devices: seq<Device>)
    requires EnvInv(s)
    ensures EnvInv(ApplyOp(tokens, s, Round(devices)))
  {
    hide SeenHosts, Scanned, Kept;
    SeenNotExcluded(tokens, s.excluded, devices);
    ScanMeaning(tokens, s.excluded, s.connected, devices);
    var sc := Scanned(tokens, s.excluded, s.connected, devices);
    forall c | c in sc.connected ensures c.host !in s.excluded {
      var i :| 0 <= i < |sc.connected| && sc.connected[i] == c;
      if i < |s.connected| { assert s.connected[i] in s.connected && s.connected[i].host == c.host; }
    }
    KeptDistinct(sc.connected, sc.seen);
    KeptInv(sc.connected, sc.seen, s.excluded);
  }

  lemma OpKeepsInv(tokens: Tokens, s: Env, op: Op)
    requires EnvInv(s)
    ensures EnvInv(ApplyOp(tokens, s, op))
  {
    match op
    case Round(devices) => RoundKeepsInv(tokens, s, devices);
    case Exclude(h) => WithoutKeepsInv(s.connected, s.excluded, h);
    case Unexclude(_) =>
  }

  lemma ConstructedInv(tokens: Tokens, excluded: set<HostId>, devices: seq<Device>)
    ensures EnvInv(Constructed(tokens, excluded, devices))
    ensures forall h :: Counter(Constructed(tokens, excluded, devices).connected, h) != None ==>
                          Counter(Constructed(tokens, excluded, devices).connected, h) == Some(0)
  {
    hide SeenHosts;
    SeenNotExcluded(tokens, excluded, devices);
    ScanMeaning(tokens, excluded, [], devices);
  }

  /** No excluded host is connected, hosts are distinct, and no counter reaches the limit, after any run. */
  lemma {:induction false} RunKeepsInv(tokens: Tokens, s: Env, ops: seq<Op>)
    requires EnvInv(s)
    ensures EnvInv(Run(tokens, s, ops))
  {
    if ops != [] {
      var front := ops[..|ops| - 1];
      RunKeepsInv(tokens, s, front);
      OpKeepsInv(tokens, Run(tokens, s, front), ops[|ops| - 1]);
    }
  }

  lemma OpExcluded(tokens: Tokens, s: Env, op: Op, h: HostId)
    ensures h in ApplyOp(tokens, s, op).excluded <==> op == Exclude(h) || (h in s.excluded && op != Unexclude(h))
  {
  }

  /** The constructor connects exactly the hosts that a first round would announce. */
  lemma ConstructedIff(tokens: Tokens, excluded: set<HostId>, devices: seq<Device>, h: HostId)
    ensures Holds(Constructed(tokens, excluded, devices).connected, h) <==>
            h in tokens && h !in excluded && ConnectsFirst(devices, h, tokens[h])
  {
    hide Scanned, ConnectsFirst;
    ArrivedIff(tokens, excluded, [], devices, h);
  }

  /** After any run a host is excluded exactly when it was excluded to begin with, or in the run, and that has
      not been lifted since. */
  lemma {:induction false} RunExcluded(tokens: Tokens, s: Env, ops: seq<Op>, h: HostId)
    ensures h in Run(tokens, s, ops).excluded <==>
            || (h in s.excluded && Unexclude(h) !in ops)
            || exists i :: 0 <= i < |ops| && ops[i] == Exclude(h) && Unexclude(h) !in ops[i..]
  {
    if ops != [] {
      hide ApplyOp;
      var n := |ops| - 1;
      var front, last := ops[..n], ops[n];
      assert ops == front + [last];
      RunExcluded(tokens, s, front, h);
      OpExcluded(tokens, Run(tokens, s, front), last, h);
      forall i | 0 <= i < n
        ensures ops[i] == front[i] && (Unexclude(h) in ops[i..] <==> Unexclude(h) in front[i..] || last == Unexclude(h))
      {
        assert ops[i..] == front[i..] + [last];
      }
      if last == Exclude(h) { assert ops[n] == Exclude(h) && ops[n..] == [last]; }
    }
  }

  lemma WithoutCounter(connected: seq<Connected>, g: HostId, h: HostId)
    requires Distinct(connected)
    ensures Counter(Without(connected, g), h) == if h == g then None else Counter(connected, h)
  {
    var i, after := Position(connected, g), Without(connected, g);
    if i < |connected| {
      assert forall j :: 0 <= j < |after| ==> after[j] == connected[if j < i then j else j + 1];
      var k := Position(connected, h);
      if k < |connected| && k != i { assert after[if k < i then k else k - 1] == connected[k]; }
    }
  }

  /** An operation connects a host only by announcing its arrival. */
  lemma OpConnects(tokens: Tokens, s: Env, op: Op, h: HostId)
    requires EnvInv(s)
    ensures Holds(ApplyOp(tokens, s, op).connected, h) ==>
              Holds(s.connected, h) || Arrived(h) in OpEvents(tokens, s, op)
    ensures Arrived(h) in OpEvents(tokens, s, op) ==> op.Round?
  {
    hide SeenHosts, Reconciled, FirstSightingConnects, Without, RoundEvents, Counter, Holds;
    CounterOf(s.connected, h);
    CounterOf(ApplyOp(tokens, s, op).connected, h);
    match op
    case Round(devices) => RoundMeaning(tokens, s.excluded, s.connected, devices, h);
    case Exclude(g) => WithoutCounter(s.connected, g, h);
    case Unexclude(_) =>
  }

  /** Whoever is connected has a saved token, from the constructor on and through every run. */
  lemma {:induction false} RunKeepsKnown(
      tokens: Tokens, excluded: set<HostId>, found: seq<Device>, ops: seq<Op>, h: HostId)
    ensures Holds(Run(tokens, Constructed(tokens, excluded, found), ops).connected, h) ==> h in tokens
  {
    hide SeenHosts, ConnectsFirst, Scanned, Reconciled, Counter;
    var s := Constructed(tokens, excluded, found);
    ArrivedIff(tokens, excluded, [], found, h);
    if ops != [] {
      var front, last := ops[..|ops| - 1], ops[|ops| - 1];
      var mid := Run(tokens, s, front);
      RunKeepsKnown(tokens, excluded, found, front, h);
      ConstructedInv(tokens, excluded, found);
      RunKeepsInv(tokens, s, front);
      OpConnects(tokens, mid, last, h);
      if last.Round? { ArrivedIff(tokens, mid.excluded, mid.connected, last.devices, h); }
    }
  }

  // ---------- Hysteresis ----------

  /** Completed rounds since the host was last seen, counting from the end of the run. */
  function Misses(tokens: Tokens, s: Env, ops: seq<Op>, h: HostId): nat {
    if ops == [] then 0
    else
      var front, last := ops[..|ops| - 1], ops[|ops| - 1];
      if last.Round? then
        if h in SeenHosts(tokens, Run(tokens, s, front).excluded, last.devices) then 0
        else 1 + Misses(tokens, s, front, h)
      else Misses(tokens, s, front, h)
  }

  predicate SeenBy(tokens: Tokens, s: Env, op: Op, h: HostId) {
    op.Round? && h in SeenHosts(tokens, s.excluded, op.devices)
  }

  lemma OpCounter(tokens: Tokens, s: Env, op: Op, h: HostId)
    requires EnvInv(s)
    ensures EnvInv(ApplyOp(tokens, s, op))
    ensures var before, after := Counter(s.connected, h), Counter(ApplyOp(tokens, s, op).connected, h);
            after.Some? ==>
              after.value < MISSES_BEFORE_LEFT &&
              if SeenBy(tokens, s, op, h) then after.value == 0
              else before.Some? && after.value == if op.Round? then before.value + 1 else before.value
  {
    hide SeenHosts, Reconciled, FirstSightingConnects, Without;
    OpKeepsInv(tokens, s, op);
    match op
    case Round(devices) => RoundMeaning(tokens, s.excluded, s.connected, devices, h);
    case Exclude(g) => WithoutCounter(s.connected, g, h);
    case Unexclude(_) =>
  }

  lemma InvCounter(s: Env, h: HostId)
    requires EnvInv(s)
    ensures Counter(s.connected, h).Some? ==> Counter(s.connected, h).value < MISSES_BEFORE_LEFT
  {
  }

  /** The stored counter of a connected host is always the current run of rounds in which it was not seen. */
  lemma {:induction false} CounterIsMisses(tokens: Tokens, s: Env, ops: seq<Op>, h: HostId)
    requires EnvInv(s)
    requires Counter(s.connected, h).Some? ==> Counter(s.connected, h) == Some(0)
    ensures var after := Run(tokens, s, ops);
            Counter(after.connected, h).Some? ==>
              Counter(after.connected, h) == Some(Misses(tokens, s, ops, h)) &&
              Misses(tokens, s, ops, h) < MISSES_BEFORE_LEFT
  {
    hide ApplyOp, EnvInv, Counter, SeenHosts;
    if ops == [] {
      InvCounter(s, h);
    } else {
      var front := ops[..|ops| - 1];
      CounterIsMisses(tokens, s, front, h);
      RunKeepsInv(tokens, s, front);
      OpCounter(tokens, Run(tokens, s, front), ops[|ops| - 1], h);
    }
  }

  /** A host connected before a round leaves in that round exactly when neither this round nor the two
      before it saw the host. */
  lemma LeavesAfterThreeMisses(
      tokens: Tokens, excluded: set<HostId>, found: seq<Device>, ops: seq<Op>, devices: seq<Device>, h: HostId)
    requires Holds(Run(tokens, Constructed(tokens, excluded, found), ops).connected, h)
    ensures var s := Constructed(tokens, excluded, found);
            var before := Run(tokens, s, ops);
            && (Left(h) in OpEvents(tokens, before, Round(devices)) <==>
                Misses(tokens, s, ops + [Round(devices)], h) >= 3)
            && (Left(h) in OpEvents(tokens, before, Round(devices)) <==>
                !Holds(Run(tokens, s, ops + [Round(devices)]).connected, h))
            && SaturatingIncrement(Counter(before.connected, h).value) == Counter(before.connected, h).value + 1
  {
    hide SeenHosts, Reconciled, FirstSightingConnects, Constructed, RoundEvents;
    var s := Constructed(tokens, excluded, found);
    ConstructedInv(tokens, excluded, found);
    CounterIsMisses(tokens, s, ops, h);
    RunKeepsInv(tokens, s, ops);
    var before := Run(tokens, s, ops);
    RoundMeaning(tokens, before.excluded, before.connected, devices, h);
    var all := ops + [Round(devices)];
    assert all[..|all| - 1] == ops;
  }

  // ---------- Events explain the list ----------

  function RemoveHost(hosts: seq<HostId>, h: HostId): seq<HostId> {
    if hosts == [] then []
    else if hosts[0] == h then hosts[1..]
    else [hosts[0]] + RemoveHost(hosts[1..], h)
  }

  /** What a listener that only sees the events believes to be connected. */
  function Follow(hosts: seq<HostId>, events: seq<Event>): seq<HostId> {
    if events == [] then hosts
    else
      var before := Follow(hosts, events[..|events| - 1]);
      match events[|events| - 1]
      case Arrived(h) => before + [h]
      case Left(h) => RemoveHost(before, h)
  }

  lemma {:induction false} FollowConcat(hosts: seq<HostId>, a: seq<Event>, b: seq<Event>)
    ensures Follow(hosts, a + b) == Follow(Follow(hosts, a), b)
  {
    if b == [] {
      assert a + b == a;
    } else {
      FollowConcat(hosts, a, b[..|b| - 1]);
      assert (a + b)[..|a + b| - 1] == a + b[..|b| - 1];
    }
  }

  function EventHosts(events: seq<Event>): seq<HostId> {
    seq(|events|, i requires 0 <= i < |events| => events[i].host)
  }

  lemma {:induction false} FollowArrivals(hosts: seq<HostId>, events: seq<Event>)
    requires forall e :: e in events ==> e.Arrived?
    ensures Follow(hosts, events) == hosts + EventHosts(events)
  {
    if events != [] { FollowArrivals(hosts, events[..|events| - 1]); }
  }

  lemma {:induction false} RemoveFrom(hosts: seq<HostId>, x: HostId, h: HostId)
    ensures x != h || h in hosts ==> RemoveHost(hosts + [x], h) == RemoveHost(hosts, h) + [x]
    ensures h !in hosts ==> RemoveHost(hosts, h) == hosts && RemoveHost(hosts + [h], h) == hosts
  {
    if hosts == [] {
      assert hosts + [x] == [x] && hosts + [h] == [h];
    } else {
      RemoveFrom(hosts[1..], x, h);
      assert (hosts + [x])[1..] == hosts[1..] + [x];
      assert (hosts + [h])[1..] == hosts[1..] + [h];
    }
  }

  lemma {:induction false} FollowKeepsLast(hosts: seq<HostId>, x: HostId, lost: seq<HostId>)
    requires x !in lost
    ensures Follow(hosts + [x], Departures(lost)) == Follow(hosts, Departures(lost)) + [x]
  {
    if lost == [] {
      assert Departures(lost) == [];
    } else {
      var n := |lost| - 1;
      FollowKeepsLast(hosts, x, lost[..n]);
      assert Departures(lost)[..n] == Departures(lost[..n]);
      RemoveFrom(Follow(hosts, Departures(lost[..n])), x, lost[n]);
    }
  }

  lemma HostsHold(connected: seq<Connected>, h: HostId)
    ensures h in Hosts(connected) <==> Holds(connected, h)
  {
    if Holds(connected, h) { assert Hosts(connected)[Position(connected, h)] == h; }
  }

  lemma NeverKept(connected: seq<Connected>, seen: set<HostId>, h: HostId)
    requires Distinct(connected) && !Holds(connected, h)
    ensures !Holds(Kept(connected, seen), h) && h !in GivenUp(connected, seen)
  {
    AgeMeaning(connected, seen, h);
  }

  lemma AgedHost(c: Connected, seen: set<HostId>)
    ensures Aged(c, seen).Some? ==> Aged(c, seen).value.host == c.host
  {
  }

  lemma {:induction false} FollowDepartures(connected: seq<Connected>, seen: set<HostId>)
    requires Distinct(connected)
    ensures Follow(Hosts(connected), Departures(GivenUp(connected, seen))) == Hosts(Kept(connected, seen))
  {
    hide Counter, AgedCounter, Aged;
    if connected == [] {
      assert Departures([]) == [];
    } else {
      var n := |connected| - 1;
      var front, last := connected[..n], connected[n];
      var lost, kept := GivenUp(front, seen), Kept(front, seen);
      FollowDepartures(front, seen);
      assert !Holds(front, last.host);
      NeverKept(front, seen, last.host);
      FollowKeepsLast(Hosts(front), last.host, lost);
      assert Hosts(connected) == Hosts(front) + [last.host];
      match Aged(last, seen)
      case Some(c) =>
        AgedHost(last, seen);
        assert Hosts(kept + [c]) == Hosts(kept) + [last.host];
      case None =>
        assert Departures(lost + [last.host])[..|lost|] == Departures(lost);
        HostsHold(kept, last.host);
        RemoveFrom(Hosts(kept), last.host, last.host);
    }
  }

  lemma RoundFollowed(tokens: Tokens, excluded: set<HostId>, before: seq<Connected>, devices: seq<Device>)
    requires Distinct(before)
    ensures Follow(Hosts(before), RoundEvents(tokens, excluded, before, devices)) ==
            Hosts(Reconciled(tokens, excluded, before, devices))
  {
    hide SeenHosts, Scanned, Follow, Kept, GivenUp;
    ScanMeaning(tokens, excluded, before, devices);
    var sc := Scanned(tokens, excluded, before, devices);
    FollowArrivals(Hosts(before), sc.events);
    assert Hosts(sc.connected) == Hosts(before) + EventHosts(sc.events);
    FollowDepartures(sc.connected, sc.seen);
    FollowConcat(Hosts(before), sc.events, Departures(GivenUp(sc.connected, sc.seen)));
  }

  lemma {:induction false} RemoveFirst(hosts: seq<HostId>, i: nat)
    requires i < |hosts| && hosts[i] !in hosts[..i]
    ensures RemoveHost(hosts, hosts[i]) == hosts[..i] + hosts[i + 1..]
  {
    if i > 0 {
      assert hosts[0] in hosts[..i];
      assert hosts[..i] == [hosts[0]] + hosts[1..][..i - 1];
      RemoveFirst(hosts[1..], i - 1);
    }
  }

  lemma RemoveAt(connected: seq<Connected>, h: HostId)
    requires Holds(connected, h)
    ensures RemoveHost(Hosts(connected), h) == Hosts(Without(connected, h))
  {
    var i := Position(connected, h);
    RemoveFirst(Hosts(connected), i);
    assert Hosts(Without(connected, h)) == Hosts(connected)[..i] + Hosts(connected)[i + 1..];
  }

  lemma OpFollowed(tokens: Tokens, s: Env, op: Op)
    requires EnvInv(s)
    ensures Follow(Hosts(s.connected), OpEvents(tokens, s, op)) == Hosts(ApplyOp(tokens, s, op).connected)
  {
    match op
    case Unexclude(_) =>
    case Exclude(h) =>
      if h !in s.excluded && Holds(s.connected, h) {
        assert [Left(h)][..0] == [];
        RemoveAt(s.connected, h);
      }
    case Round(devices) => RoundFollowed(tokens, s.excluded, s.connected, devices);
  }

  /** Folding the events of any run over the initial list reproduces the final list, in order. */
  lemma {:induction false} EventsReproduceList(tokens: Tokens, s: Env, ops: seq<Op>)
    requires EnvInv(s)
    ensures Follow(Hosts(s.connected), RunEvents(tokens, s, ops)) == Hosts(Run(tokens, s, ops).connected)
  {
    if ops != [] {
      var front := ops[..|ops| - 1];
      var mid := Run(tokens, s, front);
      EventsReproduceList(tokens, s, front);
      RunKeepsInv(tokens, s, front);
      OpFollowed(tokens, mid, ops[|ops| - 1]);
      FollowConcat(Hosts(s.connected), RunEvents(tokens, s, front), OpEvents(tokens, mid, ops[|ops| - 1]));
    }
  }
}
