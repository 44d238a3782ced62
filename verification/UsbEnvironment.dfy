// The USB environment as an object: the list its handlers update in place, the enumeration loop of the
// constructor and the loop that handles device events one at a time.
module UsbEnvironments {
  import opened Wrappers
  import opened UsbDiscovery

  /** The sightings of all backends that could enumerate, in priority order. */
  function AllSightings(backends: seq<Option<seq<Device>>>): seq<Device> {
    if backends == [] then []
    else
      AllSightings(backends[..|backends| - 1]) +
      match backends[|backends| - 1] case Some(devices) => devices case None => []
  }

  lemma AllSightingsOne(devices: seq<Device>)
    ensures AllSightings([]) == [] && AllSightings([None]) == [] && AllSightings([Some(devices)]) == devices
  {
    assert [Some(devices)][..0] == [];
  }

  lemma AllSightingsSnoc(front: seq<Option<seq<Device>>>, last: Option<seq<Device>>)
    ensures AllSightings(front + [last]) ==
            AllSightings(front) + match last case Some(devices) => devices case None => []
  {
    assert (front + [last])[..|front|] == front;
  }

  /** Backend by backend, and in the order of each: a backend that could not enumerate contributes nothing. */
  lemma {:induction false} AllSightingsConcat(a: seq<Option<seq<Device>>>, b: seq<Option<seq<Device>>>)
    ensures AllSightings(a + b) == AllSightings(a) + AllSightings(b)
  {
    hide AllSightings;
    if b == [] {
      assert a + b == a;
      AllSightingsOne([]);
    } else {
      var front, last := b[..|b| - 1], b[|b| - 1];
      AllSightingsConcat(a, front);
      AllSightingsSnoc(a + front, last);
      AllSightingsSnoc(front, last);
      assert a + b == (a + front) + [last] && b == front + [last];
    }
  }

  function Sent(event: Option<Event>): seq<Event> {
    match event case Some(e) => [e] case None => []
  }

  class UsbEnvironment {
    var connected: seq<Entry>
    var next: nat

    ghost function State(): Env
      reads this
    {
      Env(connected, next)
    }

    /** `None` stands for a backend that failed to enumerate. */
    constructor (backends: seq<Option<seq<Device>>>)
      ensures State() == EnumerateAll(AllSightings(backends)).env
      ensures forall e :: e in connected ==> exists d :: d in AllSightings(backends) && EntryFor(e, d)
    {
      connected := [];
      next := 0;
      new;
      var serials: set<string> := {};
      for b := 0 to |backends|
        invariant Enumeration(State(), serials) == EnumerateAll(AllSightings(backends[..b]))
      {
        assert backends[..b + 1][..b] == backends[..b] && backends[..b + 1][b] == backends[b];
        ghost var before := AllSightings(backends[..b]);
        if backends[b].None? {
          assert AllSightings(backends[..b + 1]) == before + [] == before;
          continue;
        }
        var devices := backends[b].value;
        serials := EnumerateBackend(devices, serials, before);
        assert AllSightings(backends[..b + 1]) == before + devices;
      }
      assert backends[..|backends|] == backends;
      EnumerateMore([], AllSightings(backends));
      assert [] + AllSightings(backends) == AllSightings(backends);
    }

    /** The sightings of one backend, after those of the backends before it. */
    method EnumerateBackend(devices: seq<Device>, attached: set<string>, ghost before: seq<Device>)
      returns (serials: set<string>)
      requires Enumeration(State(), attached) == EnumerateAll(before)
      modifies this
      ensures Enumeration(State(), serials) == EnumerateAll(before + devices)
      ensures forall sn :: sn in serials <==> sn in attached || exists d :: d in devices && Reads(d, sn)
      ensures old(connected) <= connected
      ensures forall e :: e in connected ==> e in old(connected) || exists d :: d in devices && EntryFor(e, d)
    {
      hide EnumerateAll, EntryFor, Reads;
      serials := attached;
      assert before + devices[..0] == before;
      for i := 0 to |devices|
        invariant Enumeration(State(), serials) == EnumerateAll(before + devices[..i])
      {
        var device := devices[i];
        EnumerateSnoc(before + devices[..i], device);
        assert before + devices[..i + 1] == before + devices[..i] + [device];
        var serial := device.serialEarly;
        if serial.None? {
          if !device.opens {
            continue;
          }
          serial := device.serialLate;
        }
        if serial.Some? {
          if serial.value in serials {
            continue;
          }
          serials := serials + {serial.value};
        }
        var runtime := next;
        next := next + 1;
        if device.runtimeStarts {
          connected := connected + [Entry(runtime, device.key, serial)];
        }
      }
      assert devices[..|devices|] == devices;
      EnumerateMore(before, devices);
    }

    method HandleDeviceArrived(device: Device) returns (event: Option<Event>)
      modifies this
      ensures State() == Handle(old(State()), Connected(device))
      ensures event == Emits(old(State()), Connected(device))
      ensures event.Some? <==>
              && (device.serialEarly.Some? || device.opens) && device.runtimeStarts
              && forall e :: e in old(connected) ==>
                   && e.key != device.key
                   && (device.serialEarly.Some? ==> e.serial != device.serialEarly)
                   && (device.serialEarly.None? && device.serialLate.Some? ==> e.serial != device.serialLate)
      ensures event.Some? ==>
                event.value == Arrived(old(next)) && |connected| == |old(connected)| + 1 &&
                connected[..|old(connected)|] == old(connected) && connected[|old(connected)|].runtime == old(next) &&
                EntryFor(connected[|old(connected)|], device)
      ensures event.None? ==> connected == old(connected)
    {
      ArrivalIsNews(State(), device);
      var serial := device.serialEarly;
      if serial.None? {
        if !device.opens {
          return None;
        }
        serial := device.serialLate;
      }
      if ContainsKey(connected, device.key, serial) {
        return None;
      }
      var runtime := next;
      next := next + 1;
      if !device.runtimeStarts {
        return None;
      }
      connected := connected + [Entry(runtime, device.key, serial)];
      event := Some(Arrived(runtime));
    }

    method HandleDeviceLeft(device: Device) returns (event: Option<Event>)
      modifies this
      ensures State() == Handle(old(State()), Disconnected(device))
      ensures event == Emits(old(State()), Disconnected(device))
    {
      var index := PositionOf(connected, device.key);
      if index == |connected| {
        return None;
      }
      event := Some(Left(connected[index].runtime));
      connected := connected[..index] + connected[index + 1..];
    }

    /** The event loop: device events are handled strictly one after the other. It may end after the list was
        changed for notice `stops` and before the event about it is sent, because it is aborted while it
        disconnects the runtime or sends the event, or because nobody receives any more; that event is then
        `unsent`. */
    method HandleEvents(notices: seq<Notice>, stops: Option<nat>)
      returns (events: seq<Event>, unsent: Option<Event>, ghost handled: nat)
      requires Unique(State())
      modifies this
      ensures handled <= |notices| && State() == Run(old(State()), notices[..handled]) && Unique(State())
      ensures events + Sent(unsent) == RunEvents(old(State()), notices[..handled])
      ensures Runtimes(connected) == Follow(old(Runtimes(connected)), events + Sent(unsent))
      ensures unsent.Some? <==>
              stops.Some? && stops.value < |notices| &&
              Emits(Run(old(State()), notices[..stops.value]), notices[stops.value]).Some?
      ensures handled == if unsent.Some? then stops.value + 1 else |notices|
      ensures unsent.Some? ==> unsent == Emits(Run(old(State()), notices[..stops.value]), notices[stops.value])
    {
      events, unsent, handled := [], None, 0;
      for i := 0 to |notices|
        invariant handled == i
        invariant State() == Run(old(State()), notices[..i]) && Unique(State())
        invariant events == RunEvents(old(State()), notices[..i])
        invariant unsent.None?
        invariant stops.Some? && stops.value < i ==>
                    Emits(Run(old(State()), notices[..stops.value]), notices[stops.value]).None?
      {
        assert notices[..i + 1][..i] == notices[..i];
        HandleKeepsUnique(State(), notices[i]);
        var event;
        match notices[i] {
          case Connected(device) => event := HandleDeviceArrived(device);
          case Disconnected(device) => event := HandleDeviceLeft(device);
        }
        handled := i + 1;
        if event.Some? {
          if stops == Some(i) {
            unsent := event;
            EventsReproduceList(old(State()), notices[..handled]);
            return;
          }
          events := events + [event.value];
        }
      }
      assert notices[..|notices|] == notices && events + Sent(unsent) == events;
      EventsReproduceList(old(State()), notices);
    }
  }
}
