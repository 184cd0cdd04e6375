/** Names, ports and URLs come from the first sighting that tells them: when the order of sightings can
    be seen in an entry, and when in the device list. */
module FirstSightings {
  import opened Bytes
  import opened Coalesce
  import opened Devices
  import opened OrderIndependence
  import opened Ordering
  import opened Registry

  /** The fields for which the first sighting to tell one wins. */
  datatype Field = Name | Port | ControlUrl | Location
  datatype Value = Text(text: string) | Number(number: u16)

  function TextOf(s: Option<string>): Option<Value> {
    if NonEmpty(s) then Some(Text(s.value)) else None
  }

  function NumberOf(n: u16): Option<Value> {
    if n != 0 then Some(Number(n)) else None
  }

  /** What a sighting tells of a field: an empty text and port zero tell nothing. */
  function Told(field: Field, o: Observation): Option<Value> {
    match field
    case Name => TextOf(o.name)
    case Port => NumberOf(o.port)
    case ControlUrl => TextOf(o.controlUrl)
    case Location => TextOf(o.location)
  }

  function Held(field: Field, e: Entry): Option<Value> {
    match field
    case Name => TextOf(e.name)
    case Port => NumberOf(e.port)
    case ControlUrl => TextOf(e.controlUrl)
    case Location => TextOf(e.location)
  }

  function FirstTold(field: Field, obs: seq<Observation>): Option<Value> {
    if obs == [] then None
    else if Told(field, obs[0]).Some? then Told(field, obs[0])
    else FirstTold(field, obs[1..])
  }

  lemma {:induction false} FirstTextTold(field: Field, f: Observation -> Option<string>, obs: seq<Observation>)
    requires forall o :: o in obs ==> Told(field, o) == TextOf(f(o))
    ensures TextOf(FirstNonEmpty(Map(f, obs))) == FirstTold(field, obs)
  {
    hide Told;
    if obs == [] {
    } else {
      assert Map(f, obs)[1..] == Map(f, obs[1..]);
      FirstTextTold(field, f, obs[1..]);
    }
  }

  lemma {:induction false} FirstPortTold(obs: seq<Observation>)
    ensures NumberOf(FirstPort(Map((o: Observation) => o.port, obs))) == FirstTold(Port, obs)
  {
    var f := (o: Observation) => o.port;
    if obs == [] {
    } else {
      assert Map(f, obs)[1..] == Map(f, obs[1..]);
      FirstPortTold(obs[1..]);
    }
  }

  lemma {:induction false} DescribedIsFirst(field: Field, sightings: seq<Event>)
    requires sightings != [] && Sightings(sightings)
    ensures Held(field, Describe(sightings)) == FirstTold(field, Observations(sightings))
  {
    hide FirstTold, FirstNonEmpty, FirstPort, Map, Identities, Distinct;
    var obs := Observations(sightings);
    match field {
      case Name => FirstTextTold(field, (o: Observation) => o.name, obs);
      case Port => FirstPortTold(obs);
      case ControlUrl => FirstTextTold(field, (o: Observation) => o.controlUrl, obs);
      case Location => FirstTextTold(field, (o: Observation) => o.location, obs);
    }
  }

  lemma {:induction false} FirstToldIn(field: Field, obs: seq<Observation>)
    ensures FirstTold(field, obs).Some? <==> exists o :: o in obs && Told(field, o).Some?
    ensures FirstTold(field, obs).Some? ==> exists o :: o in obs && Told(field, o) == FirstTold(field, obs)
  {
    hide Told;
    if obs == [] {
    } else {
      FirstToldIn(field, obs[1..]);
      assert obs == [obs[0]] + obs[1..];
    }
  }

  // ----- one field of one entry -----

  /** All sightings of `a` that tell the field tell the same. */
  predicate Unanimous(field: Field, obs: seq<Observation>, a: IpAddr) {
    forall o, q :: o in obs && q in obs && o.address == a && q.address == a ==>
      Told(field, o).Some? && Told(field, q).Some? ==> Told(field, o) == Told(field, q)
  }

  /** What an entry holds is told by some sighting of its address, if any tells it. */
  lemma {:induction false} HeldIsTold(ttl: nat, xs: seq<Event>, field: Field, a: IpAddr)
    requires Sightings(xs) && a in Replay(ttl, xs)
    ensures var v := Held(field, Replay(ttl, xs)[a]);
            && (v.Some? <==> exists o :: o in Observations(xs) && o.address == a && Told(field, o).Some?)
            && (v.Some? ==> exists o :: o in Observations(xs) && o.address == a && Told(field, o) == v)
  {
    hide Told, Held, Describe, Replay, Alive, Observations, FirstTold;
    EntryIsFold(ttl, xs, a);
    AliveObservations(ttl, xs, a);
    var alive := Alive(ttl, xs, a);
    DescribedIsFirst(field, alive);
    FirstToldIn(field, Observations(alive));
  }

  lemma {:induction false} AliveBehind(ttl: nat, first: Event, xs: seq<Event>, a: IpAddr)
    requires first.Seen? && first.obs.address == a && Sightings(xs)
    ensures Alive(ttl, [first] + xs, a) == [first] + Alive(ttl, xs, a)
  {
    var all := [first] + xs;
    if xs == [] {
      assert all == [first] && all[..0] == [];
      assert Alive(ttl, all, a) == [] + [first];
    } else {
      assert all[..|all| - 1] == [first] + xs[..|xs| - 1];
      AliveBehind(ttl, first, xs[..|xs| - 1], a);
    }
  }

  /** A sighting put in front of a history decides every field it tells. */
  lemma {:induction false} FrontDecides(ttl: nat, q: Observation, xs: seq<Event>, field: Field)
    requires Sightings(xs) && Told(field, q).Some?
    ensures var t := Replay(ttl, [Seen(q, 0)] + xs);
            q.address in t && Held(field, t[q.address]) == Told(field, q)
  {
    hide Told, Held, Describe, Replay, Alive;
    var ys := [Seen(q, 0)] + xs;
    EntryIsFold(ttl, ys, q.address);
    EntryIsFold(ttl, xs, q.address);
    AliveBehind(ttl, Seen(q, 0), xs, q.address);
    DescribedIsFirst(field, Alive(ttl, ys, q.address));
    assert Observations(Alive(ttl, ys, q.address))[0] == q;
  }

  lemma {:induction false} RepeatInFront(q: Observation, xs: seq<Event>)
    requires Sightings(xs) && q in Observations(xs)
    ensures SameObservations(xs, [Seen(q, 0)] + xs)
  {
    var ys := [Seen(q, 0)] + xs;
    assert Observations(ys) == [q] + Observations(xs);
  }

  /** Where sightings disagree, repeating one of them in front shows another value. */
  lemma {:induction false} Disagreement(ttl: nat, xs: seq<Event>, field: Field, a: IpAddr) returns (ys: seq<Event>)
    requires Sightings(xs) && a in Replay(ttl, xs) && !Unanimous(field, Observations(xs), a)
    ensures SameObservations(xs, ys)
    ensures a in Replay(ttl, ys) && Held(field, Replay(ttl, ys)[a]).Some?
    ensures Held(field, Replay(ttl, ys)[a]) != Held(field, Replay(ttl, xs)[a])
  {
    hide Told, Held, Replay, Observations;
    var obs := Observations(xs);
    var o, q :| o in obs && q in obs && o.address == a && q.address == a
      && Told(field, o).Some? && Told(field, q).Some? && Told(field, o) != Told(field, q);
    var z := if Told(field, o) == Held(field, Replay(ttl, xs)[a]) then q else o;
    ys := [Seen(z, 0)] + xs;
    RepeatInFront(z, xs);
    FrontDecides(ttl, z, xs, field);
  }

  lemma {:induction false} AgreementHolds(ttl: nat, xs: seq<Event>, ys: seq<Event>, field: Field, a: IpAddr)
    requires SameObservations(xs, ys) && a in Replay(ttl, xs)
    ensures a in Replay(ttl, ys)
    ensures Held(field, Replay(ttl, ys)[a]).Some? <==> Held(field, Replay(ttl, xs)[a]).Some?
    ensures Unanimous(field, Observations(xs), a) ==> Held(field, Replay(ttl, ys)[a]) == Held(field, Replay(ttl, xs)[a])
  {
    hide Told, Held, Replay, Observations;
    SameObservationsAlike(ttl, xs, ys);
    HeldIsTold(ttl, xs, field, a);
    HeldIsTold(ttl, ys, field, a);
  }

  /** However the sightings of a history arrive, an entry's field is the same. */
  ghost predicate Settled(ttl: nat, xs: seq<Event>, field: Field, a: IpAddr)
    requires a in Replay(ttl, xs)
  {
    forall ys :: SameObservations(xs, ys) ==>
      a in Replay(ttl, ys) && Held(field, Replay(ttl, ys)[a]) == Held(field, Replay(ttl, xs)[a])
  }

  /** Main result: for every history of sightings, a name, port or URL does not depend on their order
      exactly when all sightings of the address that tell it tell the same. */
  lemma {:induction false} FieldExact(ttl: nat, xs: seq<Event>, field: Field, a: IpAddr)
    requires Sightings(xs) && a in Replay(ttl, xs)
    ensures Settled(ttl, xs, field, a) <==> Unanimous(field, Observations(xs), a)
  {
    hide Held, Replay, Observations, SameObservations, Unanimous;
    if Unanimous(field, Observations(xs), a) {
      forall ys | SameObservations(xs, ys)
        ensures a in Replay(ttl, ys) && Held(field, Replay(ttl, ys)[a]) == Held(field, Replay(ttl, xs)[a])
      {
        AgreementHolds(ttl, xs, ys, field, a);
      }
    } else {
      var ys := Disagreement(ttl, xs, field, a);
    }
  }

  // ----- the whole list -----

  function Has(field: Field, t: Table): IpAddr -> bool {
    a => a in t && Held(field, t[a]).Some?
  }

  /** The address whose entry gives a device the field, if any does. */
  function Source(t: Table, group: seq<IpAddr>, field: Field): (r: Option<IpAddr>)
    requires group != [] && Tracked(t, group)
    ensures r.Some? ==> r.value in group
  {
    if field.Port? then Some(Primary(group)) else FirstWith(Sort(IpLess, group), Has(field, t))
  }

  lemma {:induction false} FirstWithAgrees(group: seq<IpAddr>, f: IpAddr -> bool, g: IpAddr -> bool)
    requires forall a :: a in group ==> f(a) == g(a)
    ensures FirstWith(group, f) == FirstWith(group, g)
  {
    if group == [] {
    } else {
      FirstWithAgrees(group[1..], f, g);
    }
  }

  ghost predicate AllWellFormed(t: Table) {
    forall a :: a in t ==> Registry.WellFormed(t[a])
  }

  /** The value a device shows. */
  function ShownBy(field: Field, d: Device): Option<Value> {
    match field
    case Name => Some(Text(d.name))
    case Port => NumberOf(d.port)
    case ControlUrl => TextOf(d.controlUrl)
    case Location => TextOf(d.location)
  }

  lemma {:induction false} ShownFromSource(t: Table, group: seq<IpAddr>, text: IpAddr -> string, field: Field)
    requires AllWellFormed(t) && group != [] && Tracked(t, group)
    ensures var d := MergeGroup(t, group, text);
            match Source(t, group, field)
            case Some(a) => ShownBy(field, d) == Held(field, t[a])
            case None =>
              ShownBy(field, d)
              == if field.Name? then Some(Text("Unknown device (" + text(Primary(group)) + ")")) else None
    ensures MergeGroup(t, group, text).controlUrl.Some? ==> NonEmpty(MergeGroup(t, group, text).controlUrl)
    ensures MergeGroup(t, group, text).location.Some? ==> NonEmpty(MergeGroup(t, group, text).location)
  {
    hide Sort, FirstWith, IpLess, Distinct, ProtocolsOf, IdentitiesOf, MinString;
    var sorted := Sort(IpLess, group);
    FirstWithAgrees(sorted, Has(Name, t), Named(t));
    FirstWithAgrees(sorted, Has(ControlUrl, t), Controlled(t));
    FirstWithAgrees(sorted, Has(Location, t), Located(t));
  }

  /** The sightings agree on everything the list shows: on each field at the address it is taken from. */
  ghost predicate ListUnanimous(ttl: nat, xs: seq<Event>)
    requires Sightings(xs)
  {
    forall group, field ::
      IsComponent(GraphOf(Replay(ttl, xs)), group) && SourceOf(Replay(ttl, xs), group, field).Some? ==>
        Unanimous(field, Observations(xs), SourceOf(Replay(ttl, xs), group, field).value)
  }

  ghost function SourceOf(t: Table, group: seq<IpAddr>, field: Field): Option<IpAddr>
    requires IsComponent(GraphOf(t), group)
  {
    Source(t, group, field)
  }

  lemma {:induction false} SourceStays(ttl: nat, xs: seq<Event>, ys: seq<Event>, group: seq<IpAddr>, field: Field)
    requires SameObservations(xs, ys) && group != [] && Tracked(Replay(ttl, xs), group)
    ensures Tracked(Replay(ttl, ys), group)
    ensures Source(Replay(ttl, ys), group, field) == Source(Replay(ttl, xs), group, field)
  {
    hide Held, Replay, Observations, SameObservations, FirstWith, Sort, IpLess;
    var t, u := Replay(ttl, xs), Replay(ttl, ys);
    SameObservationsAlike(ttl, xs, ys);
    forall a | a in group ensures Has(field, t)(a) == Has(field, u)(a) {
      AgreementHolds(ttl, xs, ys, field, a);
    }
    FirstWithAgrees(Sort(IpLess, group), Has(field, t), Has(field, u));
  }

  lemma {:induction false} ShownStays(ttl: nat, xs: seq<Event>, ys: seq<Event>, group: seq<IpAddr>,
                                      text: IpAddr -> string, field: Field)
    requires SameObservations(xs, ys) && group != [] && Tracked(Replay(ttl, xs), group)
    ensures Tracked(Replay(ttl, ys), group)
    ensures var source := Source(Replay(ttl, xs), group, field);
            var d, e := MergeGroup(Replay(ttl, xs), group, text), MergeGroup(Replay(ttl, ys), group, text);
            (source.Some? ==> Unanimous(field, Observations(xs), source.value)) ==>
              ShownBy(field, d) == ShownBy(field, e)
  {
    hide Held, Replay, Observations, SameObservations, MergeGroup, Source, Unanimous, ShownBy, Registry.WellFormed;
    ReachableWellFormed(ttl, xs);
    ReachableWellFormed(ttl, ys);
    SourceStays(ttl, xs, ys, group, field);
    ShownFromSource(Replay(ttl, xs), group, text, field);
    ShownFromSource(Replay(ttl, ys), group, text, field);
    var source := Source(Replay(ttl, xs), group, field);
    if source.Some? {
      AgreementHolds(ttl, xs, ys, field, source.value);
    }
  }

  lemma SameShown(d: Device, e: Device)
    requires SameIdentity(d, e) && forall field :: ShownBy(field, d) == ShownBy(field, e)
    requires (d.controlUrl.Some? ==> NonEmpty(d.controlUrl)) && (e.controlUrl.Some? ==> NonEmpty(e.controlUrl))
    requires (d.location.Some? ==> NonEmpty(d.location)) && (e.location.Some? ==> NonEmpty(e.location))
    ensures d == e
  {
    assert ShownBy(Name, d) == ShownBy(Name, e) && ShownBy(Port, d) == ShownBy(Port, e);
    assert ShownBy(ControlUrl, d) == ShownBy(ControlUrl, e) && ShownBy(Location, d) == ShownBy(Location, e);
  }

  lemma {:induction false} UnanimousDevice(ttl: nat, xs: seq<Event>, ys: seq<Event>, group: seq<IpAddr>,
                                           text: IpAddr -> string)
    requires SameObservations(xs, ys) && ListUnanimous(ttl, xs)
    requires IsComponent(GraphOf(Replay(ttl, xs)), group)
    ensures GraphOf(Replay(ttl, xs)) == GraphOf(Replay(ttl, ys))
    ensures MergedOf(Replay(ttl, xs), group, text) == MergedOf(Replay(ttl, ys), group, text)
  {
    hide Held, Replay, Observations, SameObservations, MergeGroup, Source, Unanimous, ShownBy, Registry.WellFormed;
    hide IsComponent, GraphOf, Alike;
    var t, u := Replay(ttl, xs), Replay(ttl, ys);
    SameObservationsAlike(ttl, xs, ys);
    AlikeGraphs(t, u);
    MergedAddress(t, group, text);
    MergedAddress(u, group, text);
    MergedAlike(t, u, group, text);
    forall field ensures ShownBy(field, MergeGroup(t, group, text)) == ShownBy(field, MergeGroup(u, group, text)) {
      assert SourceOf(t, group, field) == Source(t, group, field);
      ShownStays(ttl, xs, ys, group, text, field);
    }
    ReachableWellFormed(ttl, xs);
    ReachableWellFormed(ttl, ys);
    ShownFromSource(t, group, text, Name);
    ShownFromSource(u, group, text, Name);
    SameShown(MergeGroup(t, group, text), MergeGroup(u, group, text));
  }

  lemma {:induction false} UnanimousList(ttl: nat, xs: seq<Event>, ys: seq<Event>, text: IpAddr -> string,
                                         ds: seq<Device>)
    requires SameObservations(xs, ys) && ListUnanimous(ttl, xs) && IsDeviceList(Replay(ttl, xs), text, ds)
    ensures IsDeviceList(Replay(ttl, ys), text, ds)
  {
    hide Replay, Observations, SameObservations, MergedOf, ListUnanimous, IsComponent, GraphOf, ListedBefore, Alike;
    var t, u := Replay(ttl, xs), Replay(ttl, ys);
    SameObservationsAlike(ttl, xs, ys);
    AlikeGraphs(t, u);
    forall group | IsComponent(GraphOf(t), group) ensures MergedOf(t, group, text) == MergedOf(u, group, text) {
      UnanimousDevice(ttl, xs, ys, group, text);
    }
  }

  lemma {:induction false} DisagreementShows(ttl: nat, xs: seq<Event>, text: IpAddr -> string, ds: seq<Device>,
                                             group: seq<IpAddr>, field: Field)
      returns (ys: seq<Event>)
    requires Sightings(xs) && IsDeviceList(Replay(ttl, xs), text, ds)
    requires IsComponent(GraphOf(Replay(ttl, xs)), group) && SourceOf(Replay(ttl, xs), group, field).Some?
    requires !Unanimous(field, Observations(xs), SourceOf(Replay(ttl, xs), group, field).value)
    ensures SameObservations(xs, ys) && !IsDeviceList(Replay(ttl, ys), text, ds)
  {
    hide Held, Replay, Observations, SameObservations, MergeGroup, Source, Unanimous, ShownBy, Registry.WellFormed;
    hide IsComponent, GraphOf, Alike, ListedBefore;
    var t := Replay(ttl, xs);
    MergedAddress(t, group, text);
    var a := Source(t, group, field).value;
    ys := Disagreement(ttl, xs, field, a);
    var u := Replay(ttl, ys);
    SameObservationsAlike(ttl, xs, ys);
    AlikeGraphs(t, u);
    MergedAddress(u, group, text);
    MergedAlike(t, u, group, text);
    SourceStays(ttl, xs, ys, group, field);
    ReachableWellFormed(ttl, xs);
    ReachableWellFormed(ttl, ys);
    ShownFromSource(t, group, text, field);
    ShownFromSource(u, group, text, field);
    var d, e := MergedOf(t, group, text), MergedOf(u, group, text);
    assert d != e;
    if e in ds {
      var other :| IsComponent(GraphOf(t), other) && e == MergedOf(t, other, text);
      MergedAddress(t, other, text);
      ComponentUnique(GraphOf(t), group, other, e.address);
    }
  }

  /** Main result: the whole device list, its order included, does not depend on the order in which
      sightings arrived exactly when the sightings agree on each field at the address it is taken from. */
  lemma {:induction false} ListExact(ttl: nat, xs: seq<Event>, text: IpAddr -> string, ds: seq<Device>)
    requires Sightings(xs) && IsDeviceList(Replay(ttl, xs), text, ds)
    ensures (forall ys :: SameObservations(xs, ys) ==> IsDeviceList(Replay(ttl, ys), text, ds))
            <==> ListUnanimous(ttl, xs)
  {
    hide Replay, Observations, SameObservations, IsDeviceList, IsComponent, Unanimous, SourceOf, GraphOf;
    if ListUnanimous(ttl, xs) {
      forall ys | SameObservations(xs, ys) ensures IsDeviceList(Replay(ttl, ys), text, ds) {
        UnanimousList(ttl, xs, ys, text, ds);
      }
    } else {
      var group, field :| IsComponent(GraphOf(Replay(ttl, xs)), group)
        && SourceOf(Replay(ttl, xs), group, field).Some?
        && !Unanimous(field, Observations(xs), SourceOf(Replay(ttl, xs), group, field).value);
      var ys := DisagreementShows(ttl, xs, text, ds, group, field);
    }
  }
}
