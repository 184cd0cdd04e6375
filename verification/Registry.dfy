/** The device registry's entry table: sightings folded per address, stale entries expired. */
module Registry {
  import opened Arith
  import opened Bytes
  import opened Ordering

  datatype Protocol = AirPlayMirror | AirPlayVideo | Dlna | Miracast | Cast

  type v4 = x: int | 0 <= x < 0x1_0000_0000
  type v6 = x: int | 0 <= x < 0x1_0000_0000_0000_0000_0000_0000_0000_0000

  datatype IpAddr = V4(v4: v4) | V6(v6: v6)

  datatype Observation = Observation(
    address: IpAddr, port: u16, name: Option<string>, stableId: Option<string>,
    protocol: Protocol, controlUrl: Option<string>, location: Option<string>)

  datatype Entry = Entry(
    name: Option<string>, identities: set<string>, port: u16, protocols: seq<Protocol>,
    controlUrl: Option<string>, location: Option<string>, lastSeen: nat)

  /** A time is a number of nanoseconds since the scan began. */
  datatype Event = Seen(obs: Observation, at: nat) | Expired(at: nat)

  type Table = map<IpAddr, Entry>

  predicate NonEmpty(s: Option<string>) {
    s.Some? && s.value != ""
  }

  function BlankEntry(now: nat): Entry {
    Entry(None, {}, 0, [], None, None, now)
  }

  /** What one sighting adds to an entry. */
  function Merged(e: Entry, obs: Observation, now: nat): Entry {
    Entry(
      if NonEmpty(obs.name) && !NonEmpty(e.name) then obs.name else e.name,
      if NonEmpty(obs.stableId) then e.identities + {obs.stableId.value} else e.identities,
      if e.port == 0 && obs.port != 0 then obs.port else e.port,
      if obs.protocol in e.protocols then e.protocols else e.protocols + [obs.protocol],
      if e.controlUrl.None? && NonEmpty(obs.controlUrl) then obs.controlUrl else e.controlUrl,
      if e.location.None? && NonEmpty(obs.location) then obs.location else e.location,
      now)
  }

  function AfterEvent(ttl: nat, t: Table, event: Event): Table {
    match event
    case Seen(obs, at) =>
      t[obs.address := Merged(if obs.address in t then t[obs.address] else BlankEntry(at), obs, at)]
    case Expired(at) => map a | a in t && SaturatingSub(at, t[a].lastSeen) <= ttl :: t[a]
  }

  /** The table after a history of events. */
  function Replay(ttl: nat, events: seq<Event>): Table {
    if events == [] then map[]
    else AfterEvent(ttl, Replay(ttl, events[..|events| - 1]), events[|events| - 1])
  }

  class DeviceRegistry {
    const ttl: nat
    var entries: Table
    ghost var history: seq<Event>

    ghost predicate Valid()
      reads this
    {
      entries == Replay(ttl, history)
    }

    constructor (ttl: nat)
      ensures this.ttl == ttl && history == [] && entries == map[] && Valid()
    {
      this.ttl := ttl;
      entries := map[];
      history := [];
    }

    /** The field-by-field update of one entry. */
    static method Update(entry: Entry, obs: Observation, now: nat) returns (updated: Entry)
      ensures updated == Merged(entry, obs, now)
    {
      var port, name, controlUrl, location := entry.port, entry.name, entry.controlUrl, entry.location;
      var identities, protocols := entry.identities, entry.protocols;
      if port == 0 && obs.port != 0 {
        port := obs.port;
      }
      if obs.name.Some? && obs.name.value != "" && (name.None? || name.value == "") {
        name := obs.name;
      }
      if controlUrl.None? && obs.controlUrl.Some? && obs.controlUrl.value != "" {
        controlUrl := obs.controlUrl;
      }
      if location.None? && obs.location.Some? && obs.location.value != "" {
        location := obs.location;
      }
      if obs.stableId.Some? && obs.stableId.value != "" {
        identities := identities + {obs.stableId.value};
      }
      if obs.protocol !in protocols {
        protocols := protocols + [obs.protocol];
      }
      updated := Entry(name, identities, port, protocols, controlUrl, location, now);
    }

    method Observe(obs: Observation, now: nat)
      requires Valid()
      modifies this
      ensures Valid() && history == old(history) + [Seen(obs, now)]
      ensures obs.address in entries && entries - {obs.address} == old(entries) - {obs.address}
    {
      hide Replay, Merged;
      var entry := if obs.address in entries then entries[obs.address] else BlankEntry(now);
      entry := Update(entry, obs, now);
      ReplaySnoc(ttl, history, Seen(obs, now));
      entries := entries[obs.address := entry];
      history := history + [Seen(obs, now)];
    }

    method Expire(now: nat)
      requires Valid()
      modifies this
      ensures Valid() && history == old(history) + [Expired(now)]
      ensures forall a :: a in entries ==> a in old(entries) && entries[a] == old(entries[a])
    {
      ReplaySnoc(ttl, history, Expired(now));
      entries := map a | a in entries && SaturatingSub(now, entries[a].lastSeen) <= ttl :: entries[a];
      history := history + [Expired(now)];
    }
  }

  lemma ReplaySnoc(ttl: nat, events: seq<Event>, event: Event)
    ensures Replay(ttl, events + [event]) == AfterEvent(ttl, Replay(ttl, events), event)
  {
  }

  // ----- an entry is the fold of the sightings since it was created -----

  /** The sightings of `a` that are still alive: those since its entry last had to be created. */
  function Alive(ttl: nat, events: seq<Event>, a: IpAddr): seq<Event> {
    if events == [] then []
    else
      var before := Alive(ttl, events[..|events| - 1], a);
      match events[|events| - 1]
      case Seen(obs, at) => if obs.address == a then before + [Seen(obs, at)] else before
      case Expired(at) =>
        if before != [] && SaturatingSub(at, before[|before| - 1].at) <= ttl then before else []
  }

  function FirstNonEmpty(xs: seq<Option<string>>): Option<string> {
    if xs == [] then None else if NonEmpty(xs[0]) then xs[0] else FirstNonEmpty(xs[1..])
  }

  function FirstPort(xs: seq<u16>): u16 {
    if xs == [] then 0 else if xs[0] != 0 then xs[0] else FirstPort(xs[1..])
  }

  predicate Sightings(events: seq<Event>) {
    forall i :: 0 <= i < |events| ==> events[i].Seen?
  }

  function Observations(events: seq<Event>): (r: seq<Observation>)
    requires Sightings(events)
    ensures |r| == |events|
  {
    seq(|events|, i requires 0 <= i < |events| => events[i].obs)
  }

  function Map<A, B>(f: A -> B, s: seq<A>): (r: seq<B>)
    ensures |r| == |s|
    ensures forall i :: 0 <= i < |s| ==> r[i] == f(s[i])
  {
    seq(|s|, i requires 0 <= i < |s| => f(s[i]))
  }

  function Identities(obs: seq<Observation>): set<string> {
    set i | 0 <= i < |obs| && NonEmpty(obs[i].stableId) :: obs[i].stableId.value
  }

  /** What a list of sightings says about an address, field by field. */
  function Describe(sightings: seq<Event>): Entry
    requires sightings != [] && Sightings(sightings)
  {
    var obs := Observations(sightings);
    Entry(
      FirstNonEmpty(Map((o: Observation) => o.name, obs)),
      Identities(obs),
      FirstPort(Map((o: Observation) => o.port, obs)),
      Distinct(Map((o: Observation) => o.protocol, obs)),
      FirstNonEmpty(Map((o: Observation) => o.controlUrl, obs)),
      FirstNonEmpty(Map((o: Observation) => o.location, obs)),
      sightings[|sightings| - 1].at)
  }

  lemma {:induction false} FirstNonEmptySnoc(xs: seq<Option<string>>, x: Option<string>)
    ensures FirstNonEmpty(xs + [x])
            == if FirstNonEmpty(xs).Some? then FirstNonEmpty(xs) else if NonEmpty(x) then x else None
    ensures FirstNonEmpty(xs).Some? ==> NonEmpty(FirstNonEmpty(xs))
  {
    if xs == [] {
      assert [] + [x] == [x];
    } else {
      assert (xs + [x])[1..] == xs[1..] + [x];
      FirstNonEmptySnoc(xs[1..], x);
    }
  }

  lemma {:induction false} FirstPortSnoc(xs: seq<u16>, x: u16)
    ensures FirstPort(xs + [x]) == if FirstPort(xs) != 0 then FirstPort(xs) else x
  {
    if xs == [] {
      assert [] + [x] == [x];
    } else {
      assert (xs + [x])[1..] == xs[1..] + [x];
      FirstPortSnoc(xs[1..], x);
    }
  }

  lemma MapSnoc<A, B>(f: A -> B, s: seq<A>, x: A)
    ensures Map(f, s + [x]) == Map(f, s) + [f(x)]
  {
  }

  lemma DescribeSnoc(sightings: seq<Event>, obs: Observation, at: nat)
    requires sightings != [] && Sightings(sightings)
    ensures Describe(sightings + [Seen(obs, at)]) == Merged(Describe(sightings), obs, at)
  {
    hide FirstNonEmpty, FirstPort, Distinct, Identities, Map;
    var os := Observations(sightings);
    assert Observations(sightings + [Seen(obs, at)]) == os + [obs];
    var name, port := (o: Observation) => o.name, (o: Observation) => o.port;
    var protocol, url := (o: Observation) => o.protocol, (o: Observation) => o.controlUrl;
    var location := (o: Observation) => o.location;
    MapSnoc(name, os, obs);
    MapSnoc(port, os, obs);
    MapSnoc(protocol, os, obs);
    MapSnoc(url, os, obs);
    MapSnoc(location, os, obs);
    FirstNonEmptySnoc(Map(name, os), obs.name);
    FirstPortSnoc(Map(port, os), obs.port);
    DistinctSnoc(Map(protocol, os), obs.protocol);
    FirstNonEmptySnoc(Map(url, os), obs.controlUrl);
    FirstNonEmptySnoc(Map(location, os), obs.location);
    IdentitiesSnoc(os, obs);
  }

  lemma IdentitiesSnoc(obs: seq<Observation>, o: Observation)
    ensures Identities(obs + [o])
            == if NonEmpty(o.stableId) then Identities(obs) + {o.stableId.value} else Identities(obs)
  {
    var all := obs + [o];
    forall x ensures x in Identities(all) <==> x in Identities(obs) || (NonEmpty(o.stableId) && x == o.stableId.value) {
      if x in Identities(obs) {
        var i :| 0 <= i < |obs| && NonEmpty(obs[i].stableId) && obs[i].stableId.value == x;
        assert all[i] == obs[i];
      }
      if NonEmpty(o.stableId) && x == o.stableId.value {
        assert all[|obs|] == o;
      }
    }
  }

  lemma DescribeOne(obs: Observation, at: nat)
    ensures Describe([Seen(obs, at)]) == Merged(BlankEntry(at), obs, at)
  {
    hide FirstNonEmpty, FirstPort, Distinct, Map;
    assert Observations([Seen(obs, at)]) == [obs];
    FirstOfOne((o: Observation) => o.name, obs);
    FirstOfOne((o: Observation) => o.controlUrl, obs);
    FirstOfOne((o: Observation) => o.location, obs);
    PortOfOne(obs);
    ProtocolOfOne(obs);
    assert [] + [obs] == [obs];
    IdentitiesSnoc([], obs);
  }

  lemma FirstOfOne(f: Observation -> Option<string>, obs: Observation)
    ensures FirstNonEmpty(Map(f, [obs])) == if NonEmpty(f(obs)) then f(obs) else None
  {
  }

  lemma PortOfOne(obs: Observation)
    ensures FirstPort(Map((o: Observation) => o.port, [obs])) == obs.port
  {
  }

  lemma ProtocolOfOne(obs: Observation)
    ensures Distinct(Map((o: Observation) => o.protocol, [obs])) == [obs.protocol]
  {
  }

  /** For every history: an address has an entry exactly when it has sightings alive, and the entry
      is the first non-empty name, the first port, the first URLs, and the union of the identities
      and protocols of exactly those sightings. */
  lemma {:induction false} EntryIsFold(ttl: nat, events: seq<Event>, a: IpAddr)
    ensures Sightings(Alive(ttl, events, a))
    ensures a in Replay(ttl, events) <==> Alive(ttl, events, a) != []
    ensures a in Replay(ttl, events) ==> Replay(ttl, events)[a] == Describe(Alive(ttl, events, a))
  {
    if events == [] {
    } else {
      hide Describe, Merged;
      var front, last := events[..|events| - 1], events[|events| - 1];
      EntryIsFold(ttl, front, a);
      var alive := Alive(ttl, front, a);
      match last {
        case Seen(obs, at) =>
          if obs.address == a {
            if alive == [] {
              assert [] + [last] == [last];
              DescribeOne(obs, at);
            } else {
              DescribeSnoc(alive, obs, at);
            }
          }
        case Expired(at) =>
          if alive != [] {
            DescribeLastSeen(alive);
          }
      }
    }
  }

  lemma DescribeLastSeen(sightings: seq<Event>)
    requires sightings != [] && Sightings(sightings)
    ensures Describe(sightings).lastSeen == sightings[|sightings| - 1].at
  {
  }

  // ----- expiry -----

  predicate Nondecreasing(events: seq<Event>) {
    forall i, j :: 0 <= i <= j < |events| ==> events[i].at <= events[j].at
  }

  /** The time of the latest sighting of `a` in the whole history, expired or not. */
  function LastSighting(events: seq<Event>, a: IpAddr): Option<nat> {
    if events == [] then None
    else
      match events[|events| - 1]
      case Seen(obs, at) => if obs.address == a then Some(at) else LastSighting(events[..|events| - 1], a)
      case Expired(_) => LastSighting(events[..|events| - 1], a)
  }

  /** While times do not go back, an address without live sightings was last seen too long ago. */
  lemma {:induction false} AliveLast(ttl: nat, events: seq<Event>, a: IpAddr)
    requires Nondecreasing(events)
    ensures var alive, last := Alive(ttl, events, a), LastSighting(events, a);
            (alive != [] ==> last == Some(alive[|alive| - 1].at))
            && (alive == [] && last.Some? ==> events != [] && events[|events| - 1].at - last.value > ttl)
            && (last.Some? ==> events != [] && last.value <= events[|events| - 1].at)
  {
    if events == [] {
    } else {
      AliveLast(ttl, events[..|events| - 1], a);
    }
  }

  lemma NondecreasingFront(events: seq<Event>, last: Event)
    requires Nondecreasing(events + [last])
    ensures Nondecreasing(events)
    ensures events != [] ==> events[|events| - 1].at <= last.at
  {
    var all := events + [last];
    forall i, j | 0 <= i <= j < |events| ensures events[i].at <= events[j].at {
      assert all[i].at <= all[j].at;
    }
    if events != [] {
      assert all[|events| - 1].at <= all[|events|].at;
    }
  }

  lemma {:induction false} AliveExpired(ttl: nat, events: seq<Event>, t: nat, a: IpAddr)
    ensures var before := Alive(ttl, events, a);
            Alive(ttl, events + [Expired(t)], a)
            == if before != [] && SaturatingSub(t, before[|before| - 1].at) <= ttl then before else []
  {
    assert (events + [Expired(t)])[..|events|] == events;
  }

  /** Just after `expire(t)` an address is present exactly when its latest sighting, whatever came
      between, is at most `ttl` old. */
  lemma {:induction false} PresentIffRecent(ttl: nat, events: seq<Event>, t: nat, a: IpAddr)
    requires Nondecreasing(events + [Expired(t)])
    ensures a in Replay(ttl, events + [Expired(t)])
            <==> LastSighting(events, a).Some? && t - LastSighting(events, a).value <= ttl
  {
    hide Replay, Alive, LastSighting, Describe, Nondecreasing;
    NondecreasingFront(events, Expired(t));
    AliveLast(ttl, events, a);
    AliveExpired(ttl, events, t, a);
    EntryIsFold(ttl, events + [Expired(t)], a);
  }

  /** Every entry of every reachable table has a protocol, no protocol twice, and no empty strings. */
  predicate WellFormed(e: Entry) {
    && e.protocols != []
    && (forall i, j :: 0 <= i < j < |e.protocols| ==> e.protocols[i] != e.protocols[j])
    && "" !in e.identities
    && (e.name.Some? ==> NonEmpty(e.name))
    && (e.controlUrl.Some? ==> NonEmpty(e.controlUrl))
    && (e.location.Some? ==> NonEmpty(e.location))
  }

  lemma MergedWellFormed(e: Entry, obs: Observation, now: nat)
    requires WellFormed(e) || e == BlankEntry(e.lastSeen)
    ensures WellFormed(Merged(e, obs, now))
  {
  }

  lemma {:induction false} ReachableWellFormed(ttl: nat, events: seq<Event>)
    ensures forall a :: a in Replay(ttl, events) ==> WellFormed(Replay(ttl, events)[a])
  {
    if events == [] {
    } else {
      hide Merged, WellFormed;
      var before := Replay(ttl, events[..|events| - 1]);
      ReachableWellFormed(ttl, events[..|events| - 1]);
      match events[|events| - 1] {
        case Seen(obs, at) =>
          MergedWellFormed(if obs.address in before then before[obs.address] else BlankEntry(at), obs, at);
        case Expired(_) =>
      }
    }
  }
}
