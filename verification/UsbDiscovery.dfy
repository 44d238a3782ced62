// USB discovery: device arrivals and departures folded into a list without duplicates, and the initial
// enumeration over several backends. A sighting carries the outcome of every connection attempt.
module UsbDiscovery {
  import opened Wrappers

  /** `serialEarly` is the serial number readable before connecting, `serialLate` the one after. */
  datatype Device = Device(
    key: string, serialEarly: Option<string>, opens: bool, serialLate: Option<string>, runtimeStarts: bool)

  /** A connected runtime; `runtime` is the identity of the object created for it. */
  datatype Entry = Entry(runtime: nat, key: string, serial: Option<string>)

  datatype Event = Arrived(runtime: nat) | Left(runtime: nat)

  datatype Notice = Connected(device: Device) | Disconnected(device: Device)

  /** The list, and the identity the next runtime object will get. */
  datatype Env = Env(connected: seq<Entry>, next: nat)

  /** The serial number could be asked for: it was readable at once, or the device opened. */
  predicate Reached(d: Device) {
    d.serialEarly.Some? || d.opens
  }

  function SerialOf(d: Device): Option<string> {
    if d.serialEarly.Some? then d.serialEarly else d.serialLate
  }

  /** Which reading that is: the one before connecting when there is one, and otherwise the one of the opened device. */
  lemma SerialRead(d: Device, sn: string)
    ensures Reached(d) && SerialOf(d) == Some(sn) <==>
            d.serialEarly == Some(sn) || (d.serialEarly == None && d.opens && d.serialLate == Some(sn))
    ensures Reached(d) && SerialOf(d) == None <==> d.serialEarly == None && d.opens && d.serialLate == None
  {
  }

  predicate Clashes(e: Entry, key: string, serial: Option<string>) {
    e.key == key || (serial.Some? && e.serial == serial)
  }

  predicate ContainsKey(connected: seq<Entry>, key: string, serial: Option<string>) {
    exists e :: e in connected && Clashes(e, key, serial)
  }

  function PositionOf(connected: seq<Entry>, key: string): (i: nat)
    ensures i <= |connected|
    ensures i < |connected| ==> connected[i].key == key
    ensures forall j :: 0 <= j < i ==> connected[j].key != key
  {
    if connected == [] || connected[0].key == key then 0 else 1 + PositionOf(connected[1..], key)
  }

  function Arrive(s: Env, d: Device): Env {
    if !Reached(d) || ContainsKey(s.connected, d.key, SerialOf(d)) then s
    else if !d.runtimeStarts then s.(next := s.next + 1)
    else Env(s.connected + [Entry(s.next, d.key, SerialOf(d))], s.next + 1)
  }

  function Leave(s: Env, d: Device): Env {
    var i := PositionOf(s.connected, d.key);
    if i < |s.connected| then s.(connected := s.connected[..i] + s.connected[i + 1..]) else s
  }

  function Handle(s: Env, n: Notice): Env {
    match n case Connected(d) => Arrive(s, d) case Disconnected(d) => Leave(s, d)
  }

  function Emits(s: Env, n: Notice): Option<Event> {
    match n
    case Connected(d) => if |Arrive(s, d).connected| > |s.connected| then Some(Arrived(s.next)) else None
    case Disconnected(d) =>
      var i := PositionOf(s.connected, d.key);
      if i < |s.connected| then Some(Left(s.connected[i].runtime)) else None
  }

  function Run(s: Env, notices: seq<Notice>): Env {
    if notices == [] then s else Handle(Run(s, notices[..|notices| - 1]), notices[|notices| - 1])
  }

  function RunEvents(s: Env, notices: seq<Notice>): seq<Event> {
    if notices == [] then []
    else
      var front := notices[..|notices| - 1];
      RunEvents(s, front) + match Emits(Run(s, front), notices[|notices| - 1]) case Some(e) => [e] case None => []
  }

  // ---------- Uniqueness ----------

  predicate DistinctEntries(a: Entry, b: Entry) {
    a.key != b.key && a.runtime != b.runtime && (a.serial.Some? ==> a.serial != b.serial)
  }

  /** Keys, serial numbers and runtime objects are pairwise distinct. */
  ghost predicate Unique(s: Env) {
    && (forall i, j :: 0 <= i < j < |s.connected| ==> DistinctEntries(s.connected[i], s.connected[j]))
    && (forall i :: 0 <= i < |s.connected| ==> s.connected[i].runtime < s.next)
  }

  lemma HandleKeepsUnique(s: Env, n: Notice)
    requires Unique(s)
    ensures Unique(Handle(s, n))
  {
    match n
    case Connected(d) =>
      forall i | 0 <= i < |s.connected| && !ContainsKey(s.connected, d.key, SerialOf(d))
        ensures !Clashes(s.connected[i], d.key, SerialOf(d))
      {
        assert s.connected[i] in s.connected;
      }
    case Disconnected(d) =>
      var i, after := PositionOf(s.connected, d.key), Leave(s, d).connected;
      assert i < |s.connected| ==> forall j :: 0 <= j < |after| ==> after[j] == s.connected[if j < i then j else j + 1];
  }

  /** After any sequence of arrivals and departures keys and serial numbers are still pairwise distinct. */
  lemma {:induction false} RunKeepsUnique(s: Env, notices: seq<Notice>)
    requires Unique(s)
    ensures Unique(Run(s, notices))
  {
    if notices != [] {
      var n := |notices| - 1;
      RunKeepsUnique(s, notices[..n]);
      HandleKeepsUnique(Run(s, notices[..n]), notices[n]);
    }
  }

  /** Exactly when an announcement is news: the device could be asked for its serial number, its runtime starts, and
      nothing connected has its key or the serial number read. The entry made carries the serial number read before
      connecting, or else the one read from the opened device. */
  lemma ArrivalIsNews(s: Env, d: Device)
    ensures Emits(s, Connected(d)).Some? <==>
            && (d.serialEarly.Some? || d.opens) && d.runtimeStarts
            && forall e :: e in s.connected ==>
                 && e.key != d.key
                 && (d.serialEarly.Some? ==> e.serial != d.serialEarly)
                 && (d.serialEarly.None? && d.serialLate.Some? ==> e.serial != d.serialLate)
    ensures Emits(s, Connected(d)).Some? ==> Emits(s, Connected(d)) == Some(Arrived(s.next))
    ensures Handle(s, Connected(d)).connected ==
            if Emits(s, Connected(d)).Some?
            then s.connected + [Entry(s.next, d.key, if d.serialEarly.Some? then d.serialEarly else d.serialLate)]
            else s.connected
  {
    if !ContainsKey(s.connected, d.key, SerialOf(d)) {
      forall e | e in s.connected ensures e.key != d.key && (SerialOf(d).Some? ==> e.serial != SerialOf(d)) {
        assert !Clashes(e, d.key, SerialOf(d));
      }
    }
  }

  /** Announcing again a device whose key or serial number is connected changes nothing and emits nothing. */
  lemma ReannouncementIsSilent(s: Env, d: Device, e: Entry)
    requires e in s.connected
    requires e.key == d.key || (d.serialEarly.Some? && e.serial == d.serialEarly) ||
             (d.serialEarly.None? && d.serialLate.Some? && e.serial == d.serialLate)
    ensures Handle(s, Connected(d)) == s && Emits(s, Connected(d)) == None
  {
    assert Clashes(e, d.key, SerialOf(d));
  }

  lemma RemovalExact(connected: seq<Entry>, i: nat, e: Entry)
    requires i < |connected|
    requires forall j :: 0 <= j < |connected| && j != i ==> connected[j].key != connected[i].key
    ensures e in connected[..i] + connected[i + 1..] <==> e in connected && e.key != connected[i].key
  {
    var after := connected[..i] + connected[i + 1..];
    if e in connected && e.key != connected[i].key {
      var j :| 0 <= j < |connected| && connected[j] == e;
      assert after[if j < i then j else j - 1] == e;
    }
    if e in after {
      var j :| 0 <= j < |after| && after[j] == e;
      assert e == connected[if j < i then j else j + 1];
    }
  }

  /** A departure removes exactly the entry with the device's key and reports that entry's runtime. */
  lemma DepartureIsExact(s: Env, d: Device)
    requires Unique(s)
    ensures forall e :: e in Handle(s, Disconnected(d)).connected <==> e in s.connected && e.key != d.key
    ensures forall r :: Emits(s, Disconnected(d)) == Some(Left(r)) <==>
                          exists e :: e in s.connected && e.key == d.key && e.runtime == r
  {
    var i := PositionOf(s.connected, d.key);
    if i < |s.connected| {
      assert s.connected[i] in s.connected;
      forall j | 0 <= j < |s.connected| && j != i ensures s.connected[j].key != d.key {
        assert if j < i then DistinctEntries(s.connected[j], s.connected[i])
               else DistinctEntries(s.connected[i], s.connected[j]);
      }
      forall e ensures e in Leave(s, d).connected <==> e in s.connected && e.key != d.key {
        RemovalExact(s.connected, i, e);
      }
    }
  }

  // ---------- Events explain the list ----------

  function Runtimes(connected: seq<Entry>): seq<nat> {
    seq(|connected|, i requires 0 <= i < |connected| => connected[i].runtime)
  }

  function RemoveRuntime(runtimes: seq<nat>, r: nat): seq<nat> {
    if runtimes == [] then []
    else if runtimes[0] == r then runtimes[1..]
    else [runtimes[0]] + RemoveRuntime(runtimes[1..], r)
  }

  /** What a listener that only sees the events believes to be connected. */
  function Follow(runtimes: seq<nat>, events: seq<Event>): seq<nat> {
    if events == [] then runtimes
    else
      var before := Follow(runtimes, events[..|events| - 1]);
      match events[|events| - 1]
      case Arrived(r) => before + [r]
      case Left(r) => RemoveRuntime(before, r)
  }

  lemma {:induction false} RemoveAt(runtimes: seq<nat>, i: nat)
    requires i < |runtimes| && runtimes[i] !in runtimes[..i]
    ensures RemoveRuntime(runtimes, runtimes[i]) == runtimes[..i] + runtimes[i + 1..]
  {
    if i > 0 {
      assert runtimes[0] in runtimes[..i];
      assert runtimes[..i] == [runtimes[0]] + runtimes[1..][..i - 1];
      RemoveAt(runtimes[1..], i - 1);
    }
  }

  lemma HandleFollowed(s: Env, n: Notice)
    requires Unique(s)
    ensures Runtimes(Handle(s, n).connected) ==
            match Emits(s, n)
            case None => Runtimes(s.connected)
            case Some(Arrived(r)) => Runtimes(s.connected) + [r]
            case Some(Left(r)) => RemoveRuntime(Runtimes(s.connected), r)
  {
    if n.Disconnected? {
      var i := PositionOf(s.connected, n.device.key);
      if i < |s.connected| {
        var all := Runtimes(s.connected);
        assert forall j :: 0 <= j < i ==> DistinctEntries(s.connected[j], s.connected[i]);
        RemoveAt(all, i);
        assert Runtimes(Handle(s, n).connected) == all[..i] + all[i + 1..];
      }
    }
  }

  /** Folding the emitted events over the initial list of runtimes reproduces the final list, in order. */
  lemma {:induction false} EventsReproduceList(s: Env, notices: seq<Notice>)
    requires Unique(s)
    ensures Follow(Runtimes(s.connected), RunEvents(s, notices)) == Runtimes(Run(s, notices).connected)
  {
    if notices != [] {
      var n := |notices| - 1;
      var mid, last := Run(s, notices[..n]), notices[n];
      EventsReproduceList(s, notices[..n]);
      RunKeepsUnique(s, notices[..n]);
      HandleFollowed(mid, last);
      var events := RunEvents(s, notices[..n]);
      match Emits(mid, last)
      case None => assert events + [] == events;
      case Some(e) => assert (events + [e])[..|events|] == events;
    }
  }

  // ---------- The initial enumeration ----------

  datatype Enumeration = Enumeration(env: Env, serials: set<string>)

  /** One sighting during the initial enumeration, which compares serial numbers only. */
  function Enumerate(st: Enumeration, d: Device): Enumeration {
    if !Reached(d) then st
    else
      var serial := SerialOf(d);
      if serial.Some? && serial.value in st.serials then st
      else
        var claimed := if serial.Some? then st.(serials := st.serials + {serial.value}) else st;
        if !d.runtimeStarts then claimed.(env := st.env.(next := st.env.next + 1))
        else claimed.(env := Env(st.env.connected + [Entry(st.env.next, d.key, serial)], st.env.next + 1))
  }

  function EnumerateAll(devices: seq<Device>): Enumeration {
    if devices == [] then Enumeration(Env([], 0), {})
    else Enumerate(EnumerateAll(devices[..|devices| - 1]), devices[|devices| - 1])
  }

  /** The serial number read from a device, before connecting or after. */
  predicate Reads(d: Device, sn: string) {
    d.serialEarly == Some(sn) || (d.serialEarly == None && d.opens && d.serialLate == Some(sn))
  }

  /** A sighting is accepted when its runtime starts and no earlier reached sighting had its serial number. */
  predicate Accepted(devices: seq<Device>, i: nat)
    requires i < |devices|
  {
    var d := devices[i];
    Reached(d) && d.runtimeStarts &&
    (SerialOf(d).Some? ==> forall j :: 0 <= j < i && Reached(devices[j]) ==> SerialOf(devices[j]) != SerialOf(d))
  }

  /** The same in terms of the two readings. */
  lemma AcceptedIff(devices: seq<Device>, i: nat)
    requires i < |devices|
    ensures Accepted(devices, i) <==>
            var d := devices[i];
            && (d.serialEarly.Some? || d.opens) && d.runtimeStarts
            && forall j: nat, sn ::
                 j < i && Reads(devices[j], sn) ==>
                   d.serialEarly != Some(sn) && (d.serialEarly == None ==> d.serialLate != Some(sn))
    ensures forall j: nat, sn ::
              j < |devices| ==>
                (Reads(devices[j], sn) <==>
                   devices[j].serialEarly == Some(sn) ||
                   (devices[j].serialEarly == None && devices[j].opens && devices[j].serialLate == Some(sn)))
  {
    var serial := SerialOf(devices[i]);
    if serial.Some? {
      assert forall j: nat :: j < i && Reads(devices[j], serial.value) ==> SerialOf(devices[j]) == serial;
      forall j: nat | j < i && Reached(devices[j]) && SerialOf(devices[j]) == serial
        ensures Reads(devices[j], serial.value)
      {
        SerialRead(devices[j], serial.value);
      }
    }
  }

  function AcceptedDevices(devices: seq<Device>, n: nat): seq<Device>
    requires n <= |devices|
  {
    if n == 0 then [] else AcceptedDevices(devices, n - 1) + (if Accepted(devices, n - 1) then [devices[n - 1]] else [])
  }

  predicate Describes(connected: seq<Entry>, devices: seq<Device>) {
    |connected| == |devices| &&
    forall i :: 0 <= i < |connected| ==>
      && connected[i].key == devices[i].key
      && connected[i].serial == if devices[i].serialEarly.Some? then devices[i].serialEarly else devices[i].serialLate
  }

  lemma {:induction false} AcceptedPrefix(devices: seq<Device>, d: Device, n: nat)
    requires n <= |devices|
    ensures AcceptedDevices(devices + [d], n) == AcceptedDevices(devices, n)
  {
    if n > 0 {
      AcceptedPrefix(devices, d, n - 1);
      assert forall j :: 0 <= j < n ==> (devices + [d])[j] == devices[j];
    }
  }

  /** The initial list holds the accepted sightings, in order of priority, and claims every serial number seen. */
  lemma {:induction false} EnumerationMeaning(devices: seq<Device>)
    ensures var st := EnumerateAll(devices);
            && Describes(st.env.connected, AcceptedDevices(devices, |devices|))
            && (forall sn :: sn in st.serials <==>
                            exists j :: 0 <= j < |devices| && Reads(devices[j], sn))
            && (forall i :: 0 <= i < |st.env.connected| ==> st.env.connected[i].runtime < st.env.next)
            && (forall i, j :: 0 <= i < j < |st.env.connected| ==>
                              st.env.connected[i].runtime != st.env.connected[j].runtime)
  {
    if devices != [] {
      var n := |devices| - 1;
      var front, d := devices[..n], devices[n];
      EnumerationMeaning(front);
      AcceptedPrefix(front, d, n);
      assert devices == front + [d];
    }
  }

  lemma {:induction false} AcceptedSource(devices: seq<Device>, n: nat)
    requires n <= |devices|
    ensures forall a :: a in AcceptedDevices(devices, n) ==>
                          exists j :: 0 <= j < n && devices[j] == a && Accepted(devices, j)
  {
    if n > 0 { AcceptedSource(devices, n - 1); }
  }

  predicate DistinctSerials(devices: seq<Device>) {
    forall i, j :: 0 <= i < j < |devices| && SerialOf(devices[i]).Some? ==> SerialOf(devices[i]) != SerialOf(devices[j])
  }

  lemma {:induction false} AcceptedSerialsDistinct(devices: seq<Device>, n: nat)
    requires n <= |devices|
    ensures DistinctSerials(AcceptedDevices(devices, n))
  {
    if n > 0 {
      AcceptedSerialsDistinct(devices, n - 1);
      AcceptedSource(devices, n - 1);
      var front := AcceptedDevices(devices, n - 1);
      if Accepted(devices, n - 1) {
        forall i | 0 <= i < |front| && SerialOf(front[i]).Some?
          ensures SerialOf(front[i]) != SerialOf(devices[n - 1])
        {
          assert front[i] in front;
          var j :| 0 <= j < n - 1 && devices[j] == front[i] && Accepted(devices, j);
          assert Reached(devices[j]);
        }
        assert AcceptedDevices(devices, n) == front + [devices[n - 1]];
      }
    }
  }

  predicate DistinctKeys(devices: seq<Device>) {
    forall i, j :: 0 <= i < j < |devices| ==> devices[i].key != devices[j].key
  }

  lemma DescribedUniqueIff(s: Env, devices: seq<Device>)
    requires Describes(s.connected, devices)
    requires forall i, j :: 0 <= i < j < |s.connected| && s.connected[i].serial.Some? ==>
                              s.connected[i].serial != s.connected[j].serial
    requires forall i :: 0 <= i < |s.connected| ==> s.connected[i].runtime < s.next
    requires forall i, j :: 0 <= i < j < |s.connected| ==> s.connected[i].runtime != s.connected[j].runtime
    ensures Unique(s) <==> DistinctKeys(devices)
  {
    if Unique(s) {
      forall i, j | 0 <= i < j < |devices| ensures devices[i].key != devices[j].key {
        assert DistinctEntries(s.connected[i], s.connected[j]);
      }
    }
    if DistinctKeys(devices) {
      forall i, j | 0 <= i < j < |s.connected| ensures DistinctEntries(s.connected[i], s.connected[j]) {
        assert devices[i].key != devices[j].key;
      }
    }
  }

  lemma DescribedSerials(s: Env, devices: seq<Device>)
    requires Describes(s.connected, devices) && DistinctSerials(devices)
    ensures forall i, j :: 0 <= i < j < |s.connected| && s.connected[i].serial.Some? ==>
                             s.connected[i].serial != s.connected[j].serial
  {
  }

  /** The initial list never holds a serial number twice, and is without duplicates exactly when the accepted
      sightings have distinct keys: the enumeration itself compares serial numbers only. */
  lemma InitialListUniqueIff(devices: seq<Device>)
    ensures var connected := EnumerateAll(devices).env.connected;
            forall i, j :: 0 <= i < j < |connected| && connected[i].serial.Some? ==>
                             connected[i].serial != connected[j].serial
    ensures Unique(EnumerateAll(devices).env) <==> DistinctKeys(AcceptedDevices(devices, |devices|))
  {
    hide EnumerateAll, AcceptedDevices, Accepted, SerialOf, Reached, Unique, Describes, DistinctSerials, DistinctKeys;
    EnumerationMeaning(devices);
    AcceptedSerialsDistinct(devices, |devices|);
    DescribedSerials(EnumerateAll(devices).env, AcceptedDevices(devices, |devices|));
    DescribedUniqueIff(EnumerateAll(devices).env, AcceptedDevices(devices, |devices|));
  }

  lemma EnumerateSnoc(front: seq<Device>, d: Device)
    ensures EnumerateAll([]) == Enumeration(Env([], 0), {})
    ensures EnumerateAll(front + [d]) == Enumerate(EnumerateAll(front), d)
  {
    assert (front + [d])[..|front|] == front;
  }

  /** What an entry made for a device carries: its key, and the serial number read before connecting or else the
      one read from the opened device. */
  predicate EntryFor(e: Entry, d: Device) {
    && e.key == d.key && (d.serialEarly.Some? || d.opens) && d.runtimeStarts
    && e.serial == if d.serialEarly.Some? then d.serialEarly else d.serialLate
  }

  lemma EnumerateOne(st: Enumeration, d: Device)
    ensures var next := Enumerate(st, d);
            && (forall sn :: sn in next.serials <==> sn in st.serials || Reads(d, sn))
            && (next.env.connected == st.env.connected ||
                exists e :: next.env.connected == st.env.connected + [e] && EntryFor(e, d))
  {
    if next :| next == Enumerate(st, d) && next.env.connected != st.env.connected {
      assert next.env.connected == st.env.connected + [Entry(st.env.next, d.key, SerialOf(d))];
    }
  }

  /** More sightings claim the serial numbers read from them, and only add entries, each made for one of them. */
  lemma {:induction false} EnumerateMore(before: seq<Device>, devices: seq<Device>)
    ensures var st, next := EnumerateAll(before), EnumerateAll(before + devices);
            && (forall sn :: sn in next.serials <==> sn in st.serials || exists d :: d in devices && Reads(d, sn))
            && st.env.connected <= next.env.connected
            && forall e :: e in next.env.connected ==>
                 e in st.env.connected || exists d :: d in devices && EntryFor(e, d)
  {
    hide EnumerateAll, Enumerate, Reads, EntryFor;
    if devices == [] {
      assert before + devices == before;
    } else {
      var front, last := devices[..|devices| - 1], devices[|devices| - 1];
      EnumerateMore(before, front);
      assert before + devices == (before + front) + [last];
      EnumerateSnoc(before + front, last);
      EnumerateOne(EnumerateAll(before + front), last);
      assert devices == front + [last];
    }
  }

  /** One device sighted by two backends, by one with its serial number and by one that must open it first to
      read it, is connected once, whichever comes first. */
  lemma SightedByTwoBackends(first: string, second: string, sn: string, opens: bool, late: Option<string>)
    ensures var early, unread :=
              Device(first, Some(sn), opens, late, true), Device(second, None, true, Some(sn), true);
            && EnumerateAll([early, unread]).env.connected == [Entry(0, first, Some(sn))]
            && EnumerateAll([unread, early]).env.connected == [Entry(0, second, Some(sn))]
  {
    var early, unread := Device(first, Some(sn), opens, late, true), Device(second, None, true, Some(sn), true);
    EnumerateSnoc([], early);
    EnumerateSnoc([], unread);
    EnumerateSnoc([early], unread);
    EnumerateSnoc([unread], early);
    assert [early] + [unread] == [early, unread] && [unread] + [early] == [unread, early];
    assert [] + [early] == [early] && [] + [unread] == [unread];
  }

  /** Two sightings with the same key both become connected unless they have the same serial number. A serial
      port's key joins its name and serial number by a colon, which either may contain, so two ports can share
      one. */
  lemma SameKeyTwice(key: string, a: Option<string>, b: Option<string>)
    requires a.None? || a != b
    ensures var first, second := Device(key, a, true, a, true), Device(key, b, true, b, true);
            EnumerateAll([first, second]).env.connected == [Entry(0, key, a), Entry(1, key, b)]
  {
    var first, second := Device(key, a, true, a, true), Device(key, b, true, b, true);
    assert [first, second][..1] == [first] && [first][..0] == [];
    assert EnumerateAll([first]).env == Env([Entry(0, key, a)], 1);
    assert EnumerateAll([first]).serials == if a.Some? then {a.value} else {};
  }
}
