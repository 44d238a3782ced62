// The WiFi environment as an object: the list and the exclusion set it updates in place, with the loops of
// its discovery round. Each method is proved against the functions of `WifiDiscovery`.
module WifiEnvironments {
  import opened Wrappers
  import opened WifiDiscovery

  lemma AgeStep(list: seq<Connected>, done: nat, seen: set<HostId>)
    requires done < |list|
    ensures list[..done + 1] == list[..done] + [list[done]] && list[done..] == [list[done]] + list[done + 1..]
    ensures Kept(list[..done + 1], seen) ==
            Kept(list[..done], seen) + match Aged(list[done], seen) case Some(c) => [c] case None => []
    ensures GivenUp(list[..done + 1], seen) ==
            GivenUp(list[..done], seen) + if Aged(list[done], seen).None? then [list[done].host] else []
  {
    AgeSnoc(list[..done], list[done], seen);
  }

  /** `after` is `before` with the entry at `index` aged: replaced, or taken out and then reported. */
  predicate EntryAged(
      before: seq<Connected>, index: nat, seen: set<HostId>, after: seq<Connected>, missing: Option<HostId>)
    requires index < |before|
  {
    match Aged(before[index], seen)
    case Some(c) => after == before[index := c] && missing == None
    case None => after == before[..index] + before[index + 1..] && missing == Some(before[index].host)
  }

  /** The walk has aged the first `done` entries of `list` and is at `index`. */
  ghost predicate Walked(
      list: seq<Connected>, done: nat, seen: set<HostId>, connected: seq<Connected>, index: nat, missing: seq<HostId>)
  {
    && done <= |list| && index == |Kept(list[..done], seen)|
    && connected == Kept(list[..done], seen) + list[done..]
    && missing == GivenUp(list[..done], seen)
  }

  lemma WalkStarts(list: seq<Connected>, seen: set<HostId>)
    ensures Walked(list, 0, seen, list, 0, [])
  {
    AgeSnoc(list, Connected(0, 0), seen);
    assert list[..0] == [] && [] + list[0..] == list;
  }

  /** One turn of the walk, on values. */
  lemma WalkStep(
      list: seq<Connected>, done: nat, seen: set<HostId>, before: seq<Connected>, index: nat, missing: seq<HostId>,
      after: seq<Connected>, gone: Option<HostId>)
    requires Walked(list, done, seen, before, index, missing) && index < |before|
    requires EntryAged(before, index, seen, after, gone)
    ensures done < |list|
    ensures match gone
            case Some(h) => Walked(list, done + 1, seen, after, index, missing + [h])
            case None => Walked(list, done + 1, seen, after, index + 1, missing)
  {
    hide Kept, GivenUp, Aged;
    AgeStep(list, done, seen);
    var aged, c, rest := Kept(list[..done], seen), list[done], list[done + 1..];
    assert before == aged + ([c] + rest) && before[index] == c;
    match Aged(c, seen)
    case Some(d) => assert after == (aged + [d]) + rest;
    case None => assert after == aged + rest;
  }

  lemma WalkEnds(
      list: seq<Connected>, done: nat, seen: set<HostId>, connected: seq<Connected>, index: nat, missing: seq<HostId>)
    requires Walked(list, done, seen, connected, index, missing) && index >= |connected|
    ensures connected == Kept(list, seen) && missing == GivenUp(list, seen)
  {
    assert list[..done] == list;
  }

  /** In the first round everything connected has been seen, so the first sighting of a host finds nothing to update. */
  lemma NothingToUpdate(sc: Scan, h: HostId)
    requires ScanInv([], sc) && h !in sc.seen
    ensures Position(sc.connected, h) == |sc.connected|
  {
  }

  lemma ConstructedBy(tokens: Tokens, excluded: set<HostId>, devices: seq<Device>)
    ensures ScanInv([], Scan([], {}, []))
    ensures Constructed(tokens, excluded, devices) ==
            var sc := SightAll(tokens, excluded, Scan([], {}, []), devices);
            Env(if tokens == map[] then [] else sc.connected, excluded)
  {
  }

  class WifiEnvironment {
    const tokens: Tokens
    var excluded: set<HostId>
    var connected: seq<Connected>
    /** Events sent and not yet received. */
    var channel: seq<Event>

    ghost function State(): Env
      reads this
    {
      Env(connected, excluded)
    }

    constructor (tokens: Tokens, excluded: set<HostId>, devices: seq<Device>)
      ensures this.tokens == tokens
      ensures State() == Constructed(tokens, excluded, devices) && EnvInv(State()) && channel == []
      ensures forall h :: Holds(connected, h) <==>
                h in tokens && h !in excluded && ConnectsFirst(devices, h, tokens[h])
    {
      this.tokens := tokens;
      this.excluded := excluded;
      this.connected := [];
      this.channel := [];
      new;
      hide ScanInv, SeenHosts, Constructed, ConnectsFirst;
      ConstructedBy(tokens, excluded, devices);
      assert forall h :: Holds(Constructed(tokens, excluded, devices).connected, h) <==>
                h in tokens && h !in excluded && ConnectsFirst(devices, h, tokens[h]) by {
        forall h { ConstructedIff(tokens, excluded, devices, h); }
      }
      ConstructedInv(tokens, excluded, devices);
      if tokens != map[] {
        var seen: set<HostId> := {};
        ghost var sc := Scan([], {}, []);
        for i := 0 to |devices|
          invariant this.tokens == tokens && this.excluded == excluded && channel == []
          invariant sc == SightAll(tokens, excluded, Scan([], {}, []), devices[..i])
          invariant connected == sc.connected && seen == sc.seen
          invariant ScanInv([], sc)
        {
          var d := devices[i];
          assert devices[..i + 1][..i] == devices[..i];
          SightKeeps(tokens, excluded, [], sc, d);
          ghost var before := sc;
          sc := Sight(tokens, excluded, sc, d);
          var token := TokenFor(tokens, d);
          if d.hostId.None? || d.hostId.value in excluded || token.None? || d.hostId.value in seen {
            continue;
          }
          seen := seen + {d.hostId.value};
          NothingToUpdate(before, d.hostId.value);
          if token.value in d.accepts {
            connected := connected + [Connected(d.hostId.value, 0)];
          }
        }
        assert devices[..|devices|] == devices;
      }
    }

    method ReconcileDiscoveredDevices(devices: seq<Device>) returns (events: seq<Event>)
      requires EnvInv(State())
      modifies this`connected
      ensures State() == ApplyOp(tokens, old(State()), Round(devices)) && EnvInv(State())
      ensures events == OpEvents(tokens, old(State()), Round(devices))
      ensures forall h :: Arrived(h) in events <==>
                && !Holds(old(connected), h)
                && h in tokens && h !in excluded && ConnectsFirst(devices, h, tokens[h])
    {
      hide ConnectsFirst, Holds, Position, Kept, GivenUp;
      OpKeepsInv(tokens, State(), Round(devices));
      forall h { ArrivedIff(tokens, excluded, connected, devices, h); }
      events := [];
      var seen: set<HostId> := {};
      ghost var start := Scan(connected, {}, []);
      for i := 0 to |devices|
        invariant Scan(connected, seen, events) == SightAll(tokens, excluded, start, devices[..i])
      {
        var d := devices[i];
        assert devices[..i + 1][..i] == devices[..i];
        var token := TokenFor(tokens, d);
        if d.hostId.None? || d.hostId.value in excluded || token.None? || d.hostId.value in seen {
          continue;
        }
        var h := d.hostId.value;
        seen := seen + {h};
        var k := Position(connected, h);
        if k < |connected| {
          connected := connected[k := connected[k].(missed := 0)];
          continue;
        }
        if token.value in d.accepts {
          connected := connected + [Connected(h, 0)];
          events := events + [Arrived(h)];
        }
      }
      assert devices[..|devices|] == devices;
      var missing := AgeAll(seen);
      ghost var arrivals := events;
      for i := 0 to |missing|
        invariant events == arrivals + Departures(missing[..i])
      {
        events := events + [Left(missing[i])];
        assert Departures(missing[..i + 1]) == Departures(missing[..i]) + [Left(missing[i])];
      }
      assert missing[..|missing|] == missing;
    }

    /** Ageing of the entry at `index`, which stays or is taken out. */
    method AgeEntry(index: nat, seen: set<HostId>) returns (missing: Option<HostId>)
      requires index < |connected|
      modifies this`connected
      ensures EntryAged(old(connected), index, seen, connected, missing)
    {
      var host := connected[index].host;
      if host in seen {
        connected := connected[index := connected[index].(missed := 0)];
        return None;
      }
      connected := connected[index := connected[index].(missed := SaturatingIncrement(connected[index].missed))];
      if connected[index].missed >= MISSES_BEFORE_LEFT {
        missing := Some(host);
        connected := connected[..index] + connected[index + 1..];
      } else {
        missing := None;
      }
    }

    /** The ageing pass: one critical section over the whole list, removing entries while walking it. */
    method AgeAll(seen: set<HostId>) returns (missing: seq<HostId>)
      modifies this`connected
      ensures connected == Kept(old(connected), seen)
      ensures missing == GivenUp(old(connected), seen)
    {
      hide Walked, EntryAged;
      missing := [];
      var index := 0;
      ghost var list := connected;
      ghost var done := 0;
      WalkStarts(list, seen);
      while index < |connected|
        invariant Walked(list, done, seen, connected, index, missing)
        decreases |list| - done
      {
        ghost var before := connected;
        var gone := AgeEntry(index, seen);
        WalkStep(list, done, seen, before, index, missing, connected, gone);
        done := done + 1;
        if gone.Some? {
          missing := missing + [gone.value];
        } else {
          index := index + 1;
        }
      }
      WalkEnds(list, done, seen, connected, index, missing);
    }

    method RemoveConnectedRuntime(host: HostId) returns (removed: Option<HostId>)
      modifies this`connected
      ensures connected == Without(old(connected), host)
      ensures removed == if Holds(old(connected), host) then Some(host) else None
    {
      var index := Position(connected, host);
      if index == |connected| {
        return None;
      }
      removed := Some(connected[index].host);
      connected := connected[..index] + connected[index + 1..];
    }

    /** The departure is sent when the channel has room, and dropped otherwise. */
    method ExcludeHostId(host: HostId)
      requires EnvInv(State())
      modifies this`connected, this`excluded, this`channel
      ensures State() == ApplyOp(tokens, old(State()), Exclude(host)) && EnvInv(State())
      ensures excluded == old(excluded) + {host} && !Holds(connected, host)
      ensures channel == if |old(channel)| < 16
                         then old(channel) + OpEvents(tokens, old(State()), Exclude(host)) else old(channel)
    {
      OpKeepsInv(tokens, State(), Exclude(host));
      assert channel + [] == channel;
      if host in excluded {
        return;
      }
      excluded := excluded + {host};
      var removed := RemoveConnectedRuntime(host);
      if removed.Some? && |channel| < RUNTIME_EVENT_CHANNEL_SIZE {
        channel := channel + [Left(removed.value)];
      }
    }

    method RemoveExcludedHostId(host: HostId)
      requires EnvInv(State())
      modifies this`excluded
      ensures State() == ApplyOp(tokens, old(State()), Unexclude(host)) && EnvInv(State())
      ensures excluded == old(excluded) - {host}
    {
      excluded := excluded - {host};
    }
  }
}
