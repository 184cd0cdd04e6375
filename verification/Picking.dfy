/** Devices picked by id: the app looks a listed device up by its id and takes the first match. */
module Picking {
  import opened Bytes
  import opened Coalesce
  import opened Devices
  import opened Ordering
  import opened Registry

  /** The first device of a list with a given id. */
  function FindDevice(ds: seq<Device>, id: string): Option<Device> {
    if ds == [] then None else if ds[0].id == id then Some(ds[0]) else FindDevice(ds[1..], id)
  }

  predicate DistinctIds(ds: seq<Device>) {
    forall d, e :: d in ds && e in ds && d.id == e.id ==> d == e
  }

  /** Looking every listed device up by its own id finds it exactly when the ids are distinct. */
  lemma {:induction false} PickingExact(ds: seq<Device>)
    ensures (forall d :: d in ds ==> FindDevice(ds, d.id) == Some(d)) <==> DistinctIds(ds)
  {
    forall d | d in ds ensures FindDevice(ds, d.id).Some? {
      FirstMatch(ds, d);
    }
    if DistinctIds(ds) {
      forall d | d in ds ensures FindDevice(ds, d.id) == Some(d) {
        FirstMatch(ds, d);
      }
    }
  }

  /** The device found is the first of that id. */
  lemma {:induction false} FirstMatch(ds: seq<Device>, d: Device)
    requires d in ds
    ensures var found := FindDevice(ds, d.id);
            found.Some? && found.value.id == d.id
            && exists i :: 0 <= i < |ds| && ds[i] == found.value && forall j :: 0 <= j < i ==> ds[j].id != d.id
  {
    if ds[0].id == d.id {
    } else {
      var later := ds[1..];
      assert ds == [ds[0]] + later;
      FirstMatch(later, d);
      var i :| 0 <= i < |later| && later[i] == FindDevice(later, d.id).value
        && forall j :: 0 <= j < i ==> later[j].id != d.id;
      forall j | 0 <= j < i + 1 ensures ds[j].id != d.id {
        assert j > 0 ==> ds[j] == later[j - 1];
      }
      assert ds[i + 1] == later[i];
    }
  }

  // ----- when two devices share an id -----

  ghost predicate Anonymous(t: Table, group: seq<IpAddr>) {
    forall a :: a in group && a in t ==> t[a].identities == {}
  }

  /** `id` is the least of the identities seen at the addresses of a group. */
  ghost predicate LeastIdentity(t: Table, group: seq<IpAddr>, id: string) {
    (exists a :: a in group && a in t && id in t[a].identities)
    && forall a, x :: a in group && a in t && x in t[a].identities ==> x == id || StringLess(id, x)
  }

  ghost predicate DistinctTexts(t: Table, text: IpAddr -> string) {
    forall a, b :: a in t && b in t && text(a) == text(b) ==> a == b
  }

  /** A device without identities has for its id the one by which another device is known. */
  ghost predicate Clash(t: Table, text: IpAddr -> string, x: seq<IpAddr>, y: seq<IpAddr>) {
    && IsComponent(GraphOf(t), x) && IsComponent(GraphOf(t), y)
    && Anonymous(t, x) && LeastIdentity(t, y, text(Primary(x)))
  }

  /** The id of a device: the least identity, or the text of the primary address if there is none. */
  lemma {:induction false} IdOf(t: Table, group: seq<IpAddr>, text: IpAddr -> string)
    requires IsComponent(GraphOf(t), group)
    ensures var d := MergedOf(t, group, text);
            if Anonymous(t, group) then d.id == text(d.address) && d.address == Primary(group)
            else LeastIdentity(t, group, d.id)
  {
    hide StringLess, IpLess, BetterPrimary, Connected;
    MergedAddress(t, group, text);
    MergedDevice(t, group, text);
    if !Anonymous(t, group) {
      var a :| a in group && a in t && t[a].identities != {};
      var id :| id in t[a].identities;
    }
  }

  lemma {:induction false} LeastIsOne(t: Table, x: seq<IpAddr>, y: seq<IpAddr>, id: string)
    requires IsComponent(GraphOf(t), x) && IsComponent(GraphOf(t), y)
    requires LeastIdentity(t, x, id) && LeastIdentity(t, y, id)
    ensures x == y
  {
    hide StringLess, IpLess, Connected;
    var a :| a in x && a in t && id in t[a].identities;
    var b :| b in y && b in t && id in t[b].identities;
    SharingConnects(GraphOf(t), a, b, id);
    assert b in x;
    ComponentUnique(GraphOf(t), x, y, b);
  }

  /** Two components give devices with one id exactly if they are one or clash. */
  lemma {:induction false} SameIdMeans(t: Table, text: IpAddr -> string, x: seq<IpAddr>, y: seq<IpAddr>)
    requires DistinctTexts(t, text) && IsComponent(GraphOf(t), x) && IsComponent(GraphOf(t), y)
    requires MergedOf(t, x, text).id == MergedOf(t, y, text).id
    ensures x == y || Clash(t, text, x, y) || Clash(t, text, y, x)
  {
    hide IsComponent, Anonymous, LeastIdentity, MergedOf;
    IdOf(t, x, text);
    IdOf(t, y, text);
    MergedAddress(t, x, text);
    MergedAddress(t, y, text);
    if Anonymous(t, x) && Anonymous(t, y) {
      ComponentUnique(GraphOf(t), x, y, Primary(x));
    } else if !Anonymous(t, x) && !Anonymous(t, y) {
      LeastIsOne(t, x, y, MergedOf(t, x, text).id);
    }
  }

  lemma {:induction false} ClashMeansSameId(t: Table, text: IpAddr -> string, x: seq<IpAddr>, y: seq<IpAddr>)
    requires Clash(t, text, x, y)
    ensures MergedOf(t, x, text).id == MergedOf(t, y, text).id && MergedOf(t, x, text) != MergedOf(t, y, text)
  {
    hide StringLess, IpLess, Connected;
    IdOf(t, x, text);
    IdOf(t, y, text);
    var id := text(Primary(x));
    var b :| b in y && b in t && id in t[b].identities;
    assert !Anonymous(t, y);
    LeastAgrees(t, y, id, MergedOf(t, y, text).id);
    MergedAddress(t, x, text);
    MergedAddress(t, y, text);
    if MergedOf(t, x, text).address == MergedOf(t, y, text).address {
      ComponentUnique(GraphOf(t), x, y, MergedOf(t, x, text).address);
      assert false;
    }
  }

  lemma {:induction false} LeastAgrees(t: Table, group: seq<IpAddr>, id: string, other: string)
    requires LeastIdentity(t, group, id) && LeastIdentity(t, group, other)
    ensures id == other
  {
    hide StringLess;
    StringLessOrders();
    assert StringLess(id, other) && StringLess(other, id) ==> StringLess(id, id);
  }

  /** Main result: where addresses have distinct texts, the listed ids are distinct exactly when no device
      without identities has its primary address for the identity another device is known by. */
  lemma {:induction false} IdsExact(t: Table, text: IpAddr -> string, ds: seq<Device>)
    requires DistinctTexts(t, text) && IsDeviceList(t, text, ds)
    ensures DistinctIds(ds) <==> !exists x, y :: Clash(t, text, x, y)
  {
    hide Clash, IsComponent, MergedOf, ListedBefore;
    if exists x, y :: Clash(t, text, x, y) {
      var x, y :| Clash(t, text, x, y);
      ClashMeansSameId(t, text, x, y);
      ClashComponents(t, text, x, y);
      assert MergedOf(t, x, text) in ds && MergedOf(t, y, text) in ds;
    } else {
      forall d, e | d in ds && e in ds && d.id == e.id ensures d == e {
        var x :| IsComponent(GraphOf(t), x) && d == MergedOf(t, x, text);
        var y :| IsComponent(GraphOf(t), y) && e == MergedOf(t, y, text);
        SameIdMeans(t, text, x, y);
      }
    }
  }

  lemma {:induction false} ClashComponents(t: Table, text: IpAddr -> string, x: seq<IpAddr>, y: seq<IpAddr>)
    requires Clash(t, text, x, y)
    ensures IsComponent(GraphOf(t), x) && IsComponent(GraphOf(t), y)
  {
  }

  /** What a caller can see to beforehand: while no stable identity is the text of a tracked address,
      every device of the list is found by its id. */
  lemma {:induction false} PickingFinds(t: Table, text: IpAddr -> string, ds: seq<Device>, d: Device)
    requires DistinctTexts(t, text) && IsDeviceList(t, text, ds) && d in ds
    requires forall a, b :: a in t && b in t ==> text(a) !in t[b].identities
    ensures FindDevice(ds, d.id) == Some(d)
  {
    hide IsComponent, MergedOf, IsDeviceList, FindDevice, DistinctIds;
    forall x, y ensures !Clash(t, text, x, y) {
      NoClash(t, text, x, y);
    }
    IdsExact(t, text, ds);
    PickingExact(ds);
  }

  lemma {:induction false} NoClash(t: Table, text: IpAddr -> string, x: seq<IpAddr>, y: seq<IpAddr>)
    requires forall a, b :: a in t && b in t ==> text(a) !in t[b].identities
    ensures !Clash(t, text, x, y)
  {
    hide Connected, IpLess, StringLess;
  }

  // ----- an input on which they collide -----

  function Sighting(a: IpAddr, id: Option<string>): Event {
    Seen(Observation(a, 0, None, id, Dlna, None, None), 0)
  }

  lemma {:induction false} TwoEntries(ttl: nat, a: IpAddr, b: IpAddr, id: string)
    requires a != b && id != ""
    ensures var t := Replay(ttl, [Sighting(a, None), Sighting(b, Some(id))]);
            t.Keys == {a, b} && t[a].identities == {} && t[b].identities == {id}
  {
    var x, y := Sighting(a, None), Sighting(b, Some(id));
    assert [x, y] == [] + [x] + [y];
    ReplaySnoc(ttl, [] + [x], y);
    ReplaySnoc(ttl, [], x);
  }

  lemma {:induction false} Alone(g: Graph, a: IpAddr)
    requires a in g && forall b, id :: b in g && id in g[a] && id in g[b] ==> b == a
    ensures IsComponent(g, [a])
  {
    ConnectedItself(g, a);
    forall b ensures b in [a] <==> Connected(g, a, b) {
      if Connected(g, a, b) {
        ConnectedTracked(g, a, b);
        var mark := map c | c in g :: if c == a then 0 else 1;
        LabelsFollowChains(g, mark, a, b);
      }
    }
  }

  /** One address without an identity, and another whose identity is the text of the first: two devices,
      one id, and the second cannot be picked, or the first cannot. */
  lemma {:induction false} IdsCollide(ttl: nat, a: IpAddr, b: IpAddr, text: IpAddr -> string, ds: seq<Device>)
    requires a != b && text(a) != "" && text(a) != text(b)
    requires IsDeviceList(Replay(ttl, [Sighting(a, None), Sighting(b, Some(text(a)))]), text, ds)
    ensures !DistinctIds(ds)
  {
    hide IsDeviceList, Replay, IpLess, Connected, StringLess;
    var t := Replay(ttl, [Sighting(a, None), Sighting(b, Some(text(a)))]);
    TwoEntries(ttl, a, b, text(a));
    Alone(GraphOf(t), a);
    Alone(GraphOf(t), b);
    assert LeastIdentity(t, [b], text(a));
    assert Clash(t, text, [a], [b]);
    IdsExact(t, text, ds);
  }
}
