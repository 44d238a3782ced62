// The serial polls drive the list of connected runtimes: what one poll does to it, and what a whole run does
// when the list and the poll's known map were enumerated at different times.
module SerialDriving {
  import opened Wrappers
  import opened SerialPolling
  import U = UsbDiscovery

  /** The notice carries the device built for the event's port; connecting to it may go either way. */
  predicate Reports(e: Event, n: U.Notice) {
    && n.device.key == ConnectionKey(e.port) && n.device.serialEarly == n.device.serialLate == e.port.serial
    && (e.Connected? <==> n.Connected?)
  }

  predicate IsNotices(events: seq<Event>, notices: seq<U.Notice>) {
    |events| == |notices| && forall i :: 0 <= i < |events| ==> Reports(events[i], notices[i])
  }

  predicate IsSerialKey(key: string) {
    KEY_PREFIX <= key
  }

  predicate Connects(s: U.Env, key: string) {
    exists e :: e in s.connected && e.key == key
  }

  lemma HandleAt(s: U.Env, e: Event, n: U.Notice, k: string)
    requires U.Unique(s) && Reports(e, n)
    ensures KeyOf(e) != k ==> (Connects(U.Handle(s, n), k) <==> Connects(s, k))
    ensures KeyOf(e) == k && e.Disconnected? ==> !Connects(U.Handle(s, n), k)
  {
    hide ConnectionKey, U.Unique;
    match e
    case Disconnected(_) => U.DepartureIsExact(s, n.device);
    case Connected(_) =>
      var s' := U.Handle(s, n);
      assert forall x :: x in s.connected ==> x in s'.connected;
      assert forall x :: x in s'.connected && x !in s.connected ==> x.key == KeyOf(e);
  }

  lemma {:induction false} NoticesAt(s: U.Env, events: seq<Event>, notices: seq<U.Notice>, k: string)
    requires U.Unique(s) && IsNotices(events, notices)
    requires forall i, j :: 0 <= i < j < |events| ==> KeyOf(events[i]) != KeyOf(events[j])
    ensures (forall e :: e in events ==> KeyOf(e) != k) ==> (Connects(U.Run(s, notices), k) <==> Connects(s, k))
    ensures (exists e :: e in events && e.Disconnected? && KeyOf(e) == k) ==> !Connects(U.Run(s, notices), k)
  {
    hide ConnectionKey, Reports, Connects, U.Unique, U.Handle;
    if events != [] {
      var n := |events| - 1;
      forall i | 0 <= i < n ensures Reports(events[..n][i], notices[..n][i]) {
        assert Reports(events[i], notices[i]);
      }
      NoticesAt(s, events[..n], notices[..n], k);
      U.RunKeepsUnique(s, notices[..n]);
      HandleAt(U.Run(s, notices[..n]), events[n], notices[n], k);
      assert forall e :: e in events[..n] ==> e in events;
    }
  }

  /** After the events of a poll are handled, a serial port that is connected and not attached was already both
      before and is unknown to the poll; ports that stayed are as they were, and runtimes of other backends
      are untouched. */
  lemma PollKeepsListInStep(s: U.Env, known: PortMap, current: PortMap, events: seq<Event>, notices: seq<U.Notice>)
    requires U.Unique(s) && Filed(known) && Filed(current)
    requires IsPoll(known, current, events) && IsNotices(events, notices)
    ensures forall k :: IsSerialKey(k) && k !in current ==>
                          (Connects(U.Run(s, notices), k) <==> Connects(s, k) && k !in known)
    ensures forall k :: k in known && k in current ==> (Connects(U.Run(s, notices), k) <==> Connects(s, k))
    ensures forall k :: !IsSerialKey(k) ==> (Connects(U.Run(s, notices), k) <==> Connects(s, k))
  {
    hide Connects, U.Unique, U.Run, IsNotices;
    forall k
      ensures IsSerialKey(k) && k !in current ==> (Connects(U.Run(s, notices), k) <==> Connects(s, k) && k !in known)
      ensures k in known && k in current ==> (Connects(U.Run(s, notices), k) <==> Connects(s, k))
      ensures !IsSerialKey(k) ==> (Connects(U.Run(s, notices), k) <==> Connects(s, k))
    {
      NoticesAt(s, events, notices, k);
      assert forall e :: e in events ==> IsSerialKey(KeyOf(e));
      if k in known && k !in current { assert Disconnected(known[k]) in events; }
    }
  }

  lemma {:induction false} LaterNotices(s: U.Env, events: seq<Event>, notices: seq<U.Notice>, i: nat, k: string)
    requires U.Unique(s) && IsNotices(events, notices) && i <= |events|
    requires forall j :: i <= j < |events| ==> KeyOf(events[j]) != k
    ensures Connects(U.Run(s, notices), k) <==> Connects(U.Run(s, notices[..i]), k)
    decreases |events|
  {
    hide ConnectionKey, Reports, Connects, U.Unique, U.Handle;
    var n := |events|;
    if i < n {
      var front := notices[..n - 1];
      forall j | 0 <= j < n - 1 ensures Reports(events[..n - 1][j], front[j]) { assert Reports(events[j], notices[j]); }
      LaterNotices(s, events[..n - 1], front, i, k);
      U.RunKeepsUnique(s, front);
      HandleAt(U.Run(s, front), events[n - 1], notices[n - 1], k);
      assert front[..i] == notices[..i];
    } else {
      assert notices[..i] == notices;
    }
  }

  lemma FirstNotices(s: U.Env, events: seq<Event>, notices: seq<U.Notice>, i: nat)
    requires U.Unique(s) && IsNotices(events, notices) && i <= |events|
    requires forall a, b :: 0 <= a < b < |events| ==> KeyOf(events[a]) != KeyOf(events[b])
    ensures IsNotices(events[..i], notices[..i])
    ensures i < |events| ==> (Connects(U.Run(s, notices[..i]), KeyOf(events[i])) <==> Connects(s, KeyOf(events[i])))
    ensures i < |events| ==>
              (Connects(U.Run(s, notices), KeyOf(events[i])) <==>
               Connects(U.Run(s, notices[..i + 1]), KeyOf(events[i])))
    decreases |events| - i
  {
    hide ConnectionKey, Reports, Connects, U.Unique, U.Run;
    forall j | 0 <= j < i ensures Reports(events[..i][j], notices[..i][j]) { assert Reports(events[j], notices[j]); }
    if i < |events| {
      var k := KeyOf(events[i]);
      forall e | e in events[..i] ensures KeyOf(e) != k {
        var j :| 0 <= j < i && events[j] == e;
      }
      NoticesAt(s, events[..i], notices[..i], k);
      LaterNotices(s, events, notices, i + 1, k);
    }
  }

  lemma RunLast(s: U.Env, notices: seq<U.Notice>)
    requires notices != []
    ensures U.Run(s, notices) == U.Handle(U.Run(s, notices[..|notices| - 1]), notices[|notices| - 1])
  {
  }

  lemma ArrivalConnectsIff(s: U.Env, d: U.Device)
    ensures Connects(U.Handle(s, U.Connected(d)), d.key) <==>
            Connects(s, d.key) ||
            (U.Reached(d) && d.runtimeStarts &&
             forall e :: e in s.connected ==> U.SerialOf(d).Some? ==> e.serial != U.SerialOf(d))
  {
    U.ArrivalIsNews(s, d);
    var after := U.Handle(s, U.Connected(d));
    if |after.connected| > |s.connected| {
      assert after.connected[|s.connected|].key == d.key;
      assert after.connected[|s.connected|] in after.connected;
    }
  }

  /** Exactly when a newly attached port ends up connected: it was connected all along, or its device is reached,
      its runtime starts, and no runtime connected when its turn comes has its serial number. */
  lemma NewPortConnectsIff(
      s: U.Env, known: PortMap, current: PortMap, events: seq<Event>, notices: seq<U.Notice>, i: nat)
    requires U.Unique(s) && Filed(known) && Filed(current) && IsPoll(known, current, events)
    requires IsNotices(events, notices)
    requires i < |events| && events[i].Connected?
    ensures var d, before := notices[i].device, U.Run(s, notices[..i]);
            Connects(U.Run(s, notices), KeyOf(events[i])) <==>
            Connects(s, KeyOf(events[i])) ||
            (U.Reached(d) && d.runtimeStarts &&
             forall e :: e in before.connected ==> U.SerialOf(d).Some? ==> e.serial != U.SerialOf(d))
  {
    hide Connects, U.Unique, U.Run, U.Reached, U.SerialOf, Filed;
    var k := KeyOf(events[i]);
    assert events[i] in events;
    FirstNotices(s, events, notices, i);
    assert Reports(events[i], notices[i]);
    U.RunKeepsUnique(s, notices[..i]);
    assert notices[..i + 1][..i] == notices[..i] && notices[..i + 1][i] == notices[i];
    RunLast(s, notices[..i + 1]);
    ArrivalConnectsIff(U.Run(s, notices[..i]), notices[i].device);
  }

  // ---------- Whole runs from any start ----------

  /** Successive polls whose events are all handled, starting from any list and any known map. */
  ghost predicate IsDriven(
      known: PortMap, maps: seq<PortMap>, polls: seq<seq<Event>>, handled: seq<seq<U.Notice>>)
  {
    && IsRun(known, maps, polls)
    && |handled| == |polls| && forall i :: 0 <= i < |polls| ==> IsNotices(polls[i], handled[i])
  }

  function RunPolls(s: U.Env, handled: seq<seq<U.Notice>>): U.Env {
    if handled == [] then s else U.Run(RunPolls(s, handled[..|handled| - 1]), handled[|handled| - 1])
  }

  lemma DrivenFront(known: PortMap, maps: seq<PortMap>, polls: seq<seq<Event>>, handled: seq<seq<U.Notice>>)
    requires Filed(known) && IsDriven(known, maps, polls, handled) && maps != []
    ensures var n := |maps| - 1;
            && |polls| == |handled| == |maps|
            && IsDriven(known, maps[..n], polls[..n], handled[..n]) && Filed(LastMap(known, maps[..n]))
            && Filed(maps[n]) && IsPoll(LastMap(known, maps[..n]), maps[n], polls[n]) && IsNotices(polls[n], handled[n])
  {
    hide IsPoll, Filed, PollAt, IsNotices;
    RunFront(known, maps, polls);
    LastIsFiled(known, maps[..|maps| - 1], polls[..|maps| - 1]);
  }

  lemma {:induction false} RunPollsKeepUnique(s: U.Env, handled: seq<seq<U.Notice>>)
    requires U.Unique(s)
    ensures U.Unique(RunPolls(s, handled))
  {
    hide U.Unique, U.Run;
    if handled != [] {
      var n := |handled| - 1;
      RunPollsKeepUnique(s, handled[..n]);
      U.RunKeepsUnique(RunPolls(s, handled[..n]), handled[n]);
    }
  }

  lemma DrivenNone(known: PortMap, polls: seq<seq<Event>>, handled: seq<seq<U.Notice>>)
    requires IsDriven(known, [], polls, handled)
    ensures polls == [] && handled == []
  {
  }

  /** Exactly which serial ports are connected without being attached after a run: those that were connected
      and unknown to the first poll, and have not turned up since. Their departure is never generated. */
  lemma {:induction false} StaleExactly(
      s: U.Env, known: PortMap, maps: seq<PortMap>, polls: seq<seq<Event>>, handled: seq<seq<U.Notice>>, k: string)
    requires U.Unique(s) && Filed(known) && IsDriven(known, maps, polls, handled) && IsSerialKey(k)
    ensures Connects(RunPolls(s, handled), k) && k !in LastMap(known, maps) <==>
            Connects(s, k) && k !in known && forall m :: m in maps ==> k !in m
    decreases |maps|
  {
    hide Connects, U.Unique, U.Run, IsPoll, Filed, IsNotices, IsDriven, IsSerialKey;
    if maps == [] {
      DrivenNone(known, polls, handled);
    } else {
      var n := |maps| - 1;
      DrivenFront(known, maps, polls, handled);
      StaleExactly(s, known, maps[..n], polls[..n], handled[..n], k);
      RunPollsKeepUnique(s, handled[..n]);
      PollKeepsListInStep(RunPolls(s, handled[..n]), LastMap(known, maps[..n]), maps[n], polls[n], handled[n]);
      assert maps == maps[..n] + [maps[n]];
    }
  }

  /** A port known to the first poll and attached ever since is connected exactly when it was to begin with: its
      arrival is never generated. */
  lemma {:induction false} UnannouncedExactly(
      s: U.Env, known: PortMap, maps: seq<PortMap>, polls: seq<seq<Event>>, handled: seq<seq<U.Notice>>, k: string)
    requires U.Unique(s) && Filed(known) && IsDriven(known, maps, polls, handled)
    requires k in known && forall m :: m in maps ==> k in m
    ensures k in LastMap(known, maps) && (Connects(RunPolls(s, handled), k) <==> Connects(s, k))
    decreases |maps|
  {
    hide Connects, U.Unique, U.Run, IsPoll, Filed, IsNotices, IsDriven;
    if maps == [] {
      DrivenNone(known, polls, handled);
    } else {
      var n := |maps| - 1;
      DrivenFront(known, maps, polls, handled);
      assert maps == maps[..n] + [maps[n]];
      UnannouncedExactly(s, known, maps[..n], polls[..n], handled[..n], k);
      RunPollsKeepUnique(s, handled[..n]);
      PollKeepsListInStep(RunPolls(s, handled[..n]), LastMap(known, maps[..n]), maps[n], polls[n], handled[n]);
    }
  }

  // ---------- Ports that come or go before polling starts ----------

  /** `n` polls that find the same ports. */
  function Same(m: PortMap, n: nat): (maps: seq<PortMap>)
    ensures |maps| == n && forall i :: 0 <= i < n ==> maps[i] == m
  {
    seq(n, _ => m)
  }

  function Silent<T>(n: nat): (r: seq<seq<T>>)
    ensures |r| == n && forall i :: 0 <= i < n ==> r[i] == []
  {
    seq(n, _ => [])
  }

  lemma QuietRun(m: PortMap, n: nat)
    requires Filed(m)
    ensures IsDriven(m, Same(m, n), Silent(n), Silent(n))
  {
    hide Filed;
    forall i | 0 <= i < n ensures PollAt(m, Same(m, n), Silent(n), i) {
      assert LastMap(m, Same(m, n)[..i]) == m;
    }
  }

  lemma SerialKeys(p: Port)
    ensures IsSerialKey(ConnectionKey(p))
  {
  }

  /** A port unplugged between the first enumeration and the start of discovery stays connected however long
      discovery runs. */
  lemma GoneBeforePolling(p: Port, n: nat)
    ensures var d := U.Device(ConnectionKey(p), p.serial, true, p.serial, true);
            var s := U.EnumerateAll([d]).env;
            && IsDriven(MapOf([]), Same(MapOf([]), n), Silent(n), Silent(n))
            && Connects(RunPolls(s, Silent(n)), ConnectionKey(p))
  {
    hide ConnectionKey, IsDriven;
    var k := ConnectionKey(p);
    var d := U.Device(k, p.serial, true, p.serial, true);
    var s := U.EnumerateAll([d]).env;
    assert [d][..0] == [] && U.EnumerateAll([d]) == U.Enumerate(U.EnumerateAll([]), d);
    assert s == U.Env([U.Entry(0, k, p.serial)], 1);
    assert s.connected[0].key == k && s.connected[0] in s.connected;
    QuietRun(MapOf([]), n);
    SerialKeys(p);
    StaleExactly(s, MapOf([]), Same(MapOf([]), n), Silent(n), Silent(n), k);
  }

  /** A port plugged in between the first enumeration and the start of discovery is not connected however long
      it stays. */
  lemma ComeBeforePolling(p: Port, n: nat)
    ensures var s := U.EnumerateAll([]).env;
            && IsDriven(MapOf([p]), Same(MapOf([p]), n), Silent(n), Silent(n))
            && !Connects(RunPolls(s, Silent(n)), ConnectionKey(p))
  {
    hide ConnectionKey, IsDriven;
    QuietRun(MapOf([p]), n);
    assert p in [p] && ConnectionKey(p) in MapOf([p]);
    UnannouncedExactly(
      U.EnumerateAll([]).env, MapOf([p]), Same(MapOf([p]), n), Silent(n), Silent(n), ConnectionKey(p));
  }
}
