/** Which sighting came first does not decide what the devices are. */
module OrderIndependence {
  import opened Bytes
  import opened Ordering
  import opened Registry
  import opened Coalesce
  import opened Devices

  /** Two histories of sightings, in any order and with any repetition, of the same observations. */
  ghost predicate SameObservations(xs: seq<Event>, ys: seq<Event>) {
    Sightings(xs) && Sightings(ys)
    && forall o :: o in Observations(xs) <==> o in Observations(ys)
  }

  /** Two tables that agree on everything the grouping and the transports depend on. */
  ghost predicate Alike(t: Table, u: Table) {
    t.Keys == u.Keys
    && (forall a :: a in t ==> t[a].identities == u[a].identities)
    && forall a, p :: a in t ==> (p in t[a].protocols <==> p in u[a].protocols)
  }

  lemma {:induction false} AliveSightings(ttl: nat, events: seq<Event>, a: IpAddr)
    requires Sightings(events)
    ensures forall e :: e in Alive(ttl, events, a) <==> e in events && e.obs.address == a
  {
    if events == [] {
    } else {
      var front := events[..|events| - 1];
      assert events == front + [events[|events| - 1]];
      AliveSightings(ttl, front, a);
    }
  }

  lemma ObservationOf(events: seq<Event>, o: Observation)
    requires Sightings(events)
    ensures o in Observations(events) <==> exists e :: e in events && e.obs == o
  {
    if o in Observations(events) {
      var i :| 0 <= i < |events| && Observations(events)[i] == o;
      assert events[i] in events;
    }
    if exists e :: e in events && e.obs == o {
      var e :| e in events && e.obs == o;
      var i :| 0 <= i < |events| && events[i] == e;
      assert Observations(events)[i] == o;
    }
  }

  /** The observations of `a` in a history without expiry. */
  lemma AliveObservations(ttl: nat, events: seq<Event>, a: IpAddr)
    requires Sightings(events)
    ensures Sightings(Alive(ttl, events, a))
    ensures forall o :: o in Observations(Alive(ttl, events, a)) <==> o in Observations(events) && o.address == a
  {
    EntryIsFold(ttl, events, a);
    AliveSightings(ttl, events, a);
    var alive := Alive(ttl, events, a);
    hide Alive, Observations;
    forall o ensures o in Observations(alive) <==> o in Observations(events) && o.address == a {
      ObservationOf(alive, o);
      ObservationOf(events, o);
    }
  }

  lemma DescribeElements(sightings: seq<Event>)
    requires sightings != [] && Sightings(sightings)
    ensures forall id :: id in Describe(sightings).identities
                         <==> exists o :: o in Observations(sightings) && o.stableId == Some(id) && id != ""
    ensures forall p :: p in Describe(sightings).protocols
                        <==> exists o :: o in Observations(sightings) && o.protocol == p
  {
  }

  lemma {:induction false} EntryElements(ttl: nat, xs: seq<Event>, a: IpAddr)
    requires Sightings(xs)
    ensures a in Replay(ttl, xs) <==> exists o :: o in Observations(xs) && o.address == a
    ensures a in Replay(ttl, xs) ==>
      forall id :: id in Replay(ttl, xs)[a].identities
                   <==> exists o :: o in Observations(xs) && o.address == a && o.stableId == Some(id) && id != ""
    ensures a in Replay(ttl, xs) ==>
      forall p :: p in Replay(ttl, xs)[a].protocols
                  <==> exists o :: o in Observations(xs) && o.address == a && o.protocol == p
  {
    hide Describe, Replay, Alive;
    EntryIsFold(ttl, xs, a);
    AliveObservations(ttl, xs, a);
    var alive := Alive(ttl, xs, a);
    if alive != [] {
      DescribeElements(alive);
      assert Observations(alive)[0] in Observations(alive);
    } else {
      assert Observations(alive) == [];
    }
  }

  lemma {:induction false} SameObservationsAlike(ttl: nat, xs: seq<Event>, ys: seq<Event>)
    requires SameObservations(xs, ys)
    ensures Alike(Replay(ttl, xs), Replay(ttl, ys))
  {
    hide Replay;
    var t, u := Replay(ttl, xs), Replay(ttl, ys);
    forall a ensures a in t <==> a in u {
      EntryElements(ttl, xs, a);
      EntryElements(ttl, ys, a);
    }
    forall a | a in t ensures t[a].identities == u[a].identities {
      EntryElements(ttl, xs, a);
      EntryElements(ttl, ys, a);
    }
    forall a, p | a in t ensures p in t[a].protocols <==> p in u[a].protocols {
      EntryElements(ttl, xs, a);
      EntryElements(ttl, ys, a);
    }
  }

  /** What the order of sightings cannot change about a device. */
  predicate SameIdentity(d: Device, e: Device) {
    d.id == e.id && d.address == e.address && d.protocols == e.protocols
  }

  lemma {:induction false} MergedAlike(t: Table, u: Table, group: seq<IpAddr>, text: IpAddr -> string)
    requires Alike(t, u) && group != [] && Tracked(t, group)
    ensures SameIdentity(MergeGroup(t, group, text), MergeGroup(u, group, text))
  {
    var sorted := Sort(IpLess, group);
    assert IdentitiesOf(t, sorted) == IdentitiesOf(u, sorted);
    var d, e := MergeGroup(t, group, text), MergeGroup(u, group, text);
    MergedDevice(t, group, text);
    MergedDevice(u, group, text);
    hide MergeGroup;
    PreferenceOrders();
    SortedUnique(Preferred, d.protocols, e.protocols);
  }

  lemma PreferenceOrders()
    ensures Transitive(Preferred) && Irreflexive(Preferred)
  {
  }

  /** Main result: however the same observations arrive, the device lists have the same groups, and
      each group the same id, primary address and protocol list. */
  lemma {:induction false} ArrivalOrderIrrelevant(ttl: nat, xs: seq<Event>, ys: seq<Event>, text: IpAddr -> string,
                               ds: seq<Device>, es: seq<Device>)
    requires SameObservations(xs, ys)
    requires IsDeviceList(Replay(ttl, xs), text, ds) && IsDeviceList(Replay(ttl, ys), text, es)
    ensures GraphOf(Replay(ttl, xs)) == GraphOf(Replay(ttl, ys))
    ensures forall d :: d in ds ==> exists e :: e in es && SameIdentity(d, e)
    ensures forall e :: e in es ==> exists d :: d in ds && SameIdentity(d, e)
  {
    hide Replay, MergeGroup, IsComponent, IsDeviceList, Alike, GraphOf;
    var t, u := Replay(ttl, xs), Replay(ttl, ys);
    SameObservationsAlike(ttl, xs, ys);
    SameObservationsAlike(ttl, ys, xs);
    AlikeGraphs(t, u);
    forall d | d in ds ensures exists e :: e in es && SameIdentity(d, e) {
      var e := Counterpart(t, u, text, ds, es, d);
    }
    forall e | e in es ensures exists d :: d in ds && SameIdentity(d, e) {
      var d := Counterpart(u, t, text, es, ds, e);
      assert SameIdentity(d, e);
    }
  }

  lemma AlikeGraphs(t: Table, u: Table)
    requires Alike(t, u)
    ensures GraphOf(t) == GraphOf(u)
  {
  }

  lemma {:induction false} Counterpart(t: Table, u: Table, text: IpAddr -> string,
                                      ds: seq<Device>, es: seq<Device>, d: Device)
      returns (e: Device)
    requires Alike(t, u) && GraphOf(t) == GraphOf(u)
    requires IsDeviceList(t, text, ds) && IsDeviceList(u, text, es)
    requires d in ds
    ensures e in es && SameIdentity(d, e)
  {
    hide MergeGroup, IsComponent;
    var group :| IsComponent(GraphOf(t), group) && d == MergedOf(t, group, text);
    MergedAddress(t, group, text);
    MergedAddress(u, group, text);
    MergedAlike(t, u, group, text);
    e := MergedOf(u, group, text);
  }

  function NamedSighting(a: IpAddr, name: string): Event {
    Seen(Observation(a, 0, Some(name), None, Dlna, None, None), 0)
  }

  lemma NameOfTwo(ttl: nat, a: IpAddr, first: string, second: string)
    requires first != ""
    ensures var t := Replay(ttl, [NamedSighting(a, first), NamedSighting(a, second)]);
            a in t && t[a].name == Some(first)
  {
    var x, y := NamedSighting(a, first), NamedSighting(a, second);
    assert [x, y] == [] + [x] + [y];
    ReplaySnoc(ttl, [] + [x], y);
    ReplaySnoc(ttl, [], x);
  }

  /** The name is left out of that on purpose: of two names for one address the first to arrive stays. */
  lemma NameFollowsArrival(ttl: nat, a: IpAddr, n: string, m: string)
    requires n != "" && m != "" && n != m
    ensures var xs, ys := [NamedSighting(a, n), NamedSighting(a, m)], [NamedSighting(a, m), NamedSighting(a, n)];
            && SameObservations(xs, ys)
            && a in Replay(ttl, xs) && a in Replay(ttl, ys)
            && Replay(ttl, xs)[a].name != Replay(ttl, ys)[a].name
  {
    hide Replay;
    NameOfTwo(ttl, a, n, m);
    NameOfTwo(ttl, a, m, n);
    var x, y := NamedSighting(a, n), NamedSighting(a, m);
    assert Observations([x, y]) == [x.obs, y.obs] && Observations([y, x]) == [y.obs, x.obs];
  }

  /** In a table of well-formed entries, and so in every reachable one, a listed device has a transport
      and sorts by its best: the catch-all rank is never used. */
  lemma {:induction false} ListedDevicesHaveTransports(t: Table, text: IpAddr -> string, ds: seq<Device>, d: Device)
    requires forall a :: a in t ==> WellFormed(t[a])
    requires IsDeviceList(t, text, ds) && d in ds
    ensures d.protocols != [] && ListRank(d) <= 4
    ensures forall p :: p in d.protocols ==> ListRank(d) <= PreferenceRank(p)
  {
    hide MergeGroup, IsComponent;
    var group :| IsComponent(GraphOf(t), group) && d == MergedOf(t, group, text);
    MergedAddress(t, group, text);
    MergedDevice(t, group, text);
    assert WellFormed(t[d.address]);
    assert t[d.address].protocols[0] in d.protocols;
  }
}
