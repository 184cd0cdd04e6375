/** The device list: one device for each connected component of addresses, in a fixed order. */
module Devices {
  import opened Bytes
  import opened Ordering
  import opened Registry
  import opened UnionFind
  import opened Coalesce

  datatype Device = Device(
    id: string, name: string, address: IpAddr, port: u16, protocols: seq<Protocol>,
    controlUrl: Option<string>, location: Option<string>)

  // ----- preferences -----

  /** Lower is preferred as the default transport. */
  function PreferenceRank(p: Protocol): nat {
    match p
    case AirPlayMirror => 0
    case AirPlayVideo => 1
    case Cast => 2
    case Miracast => 3
    case Dlna => 4
  }

  predicate Preferred(p: Protocol, q: Protocol) {
    PreferenceRank(p) < PreferenceRank(q)
  }

  /** IPv4 before IPv6, then by value. */
  predicate IpLess(a: IpAddr, b: IpAddr) {
    match (a, b)
    case (V4(x), V4(y)) => x < y
    case (V4(_), V6(_)) => true
    case (V6(_), V4(_)) => false
    case (V6(x), V6(y)) => x < y
  }

  /** Routable IPv4, global IPv6, IPv6 link-local (fe80::/10), loopback. */
  function AddressRank(a: IpAddr): nat {
    match a
    case V4(x) => if x / 0x100_0000 == 127 then 3 else 0
    case V6(x) =>
      if x == 1 then 3
      else if x / 0x40_0000_0000_0000_0000_0000_0000_0000 == 0xfe80 / 0x40 then 2
      else 1
  }

  predicate BetterPrimary(a: IpAddr, b: IpAddr) {
    AddressRank(a) < AddressRank(b) || (AddressRank(a) == AddressRank(b) && IpLess(a, b))
  }

  lemma AddressOrders()
    ensures Transitive(IpLess) && Irreflexive(IpLess)
    ensures forall a, b :: a == b || IpLess(a, b) || IpLess(b, a)
    ensures Transitive(BetterPrimary) && Irreflexive(BetterPrimary)
    ensures forall a, b :: a == b || BetterPrimary(a, b) || BetterPrimary(b, a)
  {
  }

  // ----- one device -----

  /** The best primary address of a group. */
  function Primary(group: seq<IpAddr>): (a: IpAddr)
    requires group != []
    ensures a in group
    ensures forall b :: b in group ==> b == a || BetterPrimary(a, b)
  {
    AddressOrders();
    assert group == [group[0]] + group[1..];
    if |group| == 1 then group[0]
    else
      var rest := Primary(group[1..]);
      if BetterPrimary(rest, group[0]) then rest else group[0]
  }

  predicate Tracked(t: Table, group: seq<IpAddr>) {
    forall a :: a in group ==> a in t
  }

  function ProtocolsOf(t: Table, group: seq<IpAddr>): (r: seq<Protocol>)
    requires Tracked(t, group)
    ensures forall p :: p in r <==> exists a :: a in group && p in t[a].protocols
  {
    if group == [] then []
    else
      assert group == [group[0]] + group[1..];
      t[group[0]].protocols + ProtocolsOf(t, group[1..])
  }

  function IdentitiesOf(t: Table, group: seq<IpAddr>): (r: set<string>)
    requires Tracked(t, group)
    ensures forall id :: id in r <==> exists a :: a in group && id in t[a].identities
  {
    if group == [] then {}
    else
      assert group == [group[0]] + group[1..];
      t[group[0]].identities + IdentitiesOf(t, group[1..])
  }

  /** The first address of a list that has some property. */
  function FirstWith(group: seq<IpAddr>, has: IpAddr -> bool): (r: Option<IpAddr>)
    ensures r.Some? ==> r.value in group && has(r.value)
  {
    if group == [] then None else if has(group[0]) then Some(group[0]) else FirstWith(group[1..], has)
  }

  /** The addresses with a name, with a control URL and with a description URL. */
  function Named(t: Table): IpAddr -> bool {
    a => a in t && NonEmpty(t[a].name)
  }

  function Controlled(t: Table): IpAddr -> bool {
    a => a in t && t[a].controlUrl.Some?
  }

  function Located(t: Table): IpAddr -> bool {
    a => a in t && t[a].location.Some?
  }

  /** One device from the addresses of one group; `text` renders an address. */
  function MergeGroup(t: Table, group: seq<IpAddr>, text: IpAddr -> string): Device
    requires group != [] && Tracked(t, group)
  {
    var primary := Primary(group);
    var sorted := Sort(IpLess, group);
    var identities := IdentitiesOf(t, sorted);
    var named := FirstWith(sorted, Named(t));
    var controlled := FirstWith(sorted, Controlled(t));
    var located := FirstWith(sorted, Located(t));
    Device(
      if identities == {} then text(primary) else MinString(identities),
      if named.Some? then t[named.value].name.value else "Unknown device (" + text(primary) + ")",
      primary,
      t[primary].port,
      Sort(Preferred, Distinct(ProtocolsOf(t, sorted))),
      if controlled.Some? then t[controlled.value].controlUrl else None,
      if located.Some? then t[located.value].location else None)
  }

  lemma PreferenceIsInjective(p: Protocol, q: Protocol)
    requires PreferenceRank(p) == PreferenceRank(q)
    ensures p == q
  {
  }

  /** A device lists each protocol of its addresses once, best first; its primary is the best of its
      addresses; its id is the least of its identities, or the primary's text if it has none. */
  lemma MergedDevice(t: Table, group: seq<IpAddr>, text: IpAddr -> string)
    requires group != [] && Tracked(t, group)
    ensures var d := MergeGroup(t, group, text);
            && StrictlySorted(Preferred, d.protocols)
            && (forall p :: p in d.protocols <==> exists a :: a in group && p in t[a].protocols)
            && d.address in group && (forall b :: b in group ==> b == d.address || BetterPrimary(d.address, b))
            && (if exists a, id :: a in group && id in t[a].identities
                then (exists a :: a in group && d.id in t[a].identities)
                     && forall a, id :: a in group && id in t[a].identities ==> id == d.id || StringLess(d.id, id)
                else d.id == text(d.address))
  {
    var d := MergeGroup(t, group, text);
    var sorted := Sort(IpLess, group);
    var all := Distinct(ProtocolsOf(t, sorted));
    forall i, j | 0 <= i < j < |all| ensures Preferred(all[i], all[j]) || Preferred(all[j], all[i]) {
      if PreferenceRank(all[i]) == PreferenceRank(all[j]) {
        PreferenceIsInjective(all[i], all[j]);
      }
    }
    SortSorted(Preferred, all);
    var ids := IdentitiesOf(t, sorted);
    if ids != {} {
      var id :| id in ids;
    }
  }

  /** `a` is the lowest address of `group` that has some property, if any address has it. */
  ghost predicate Lowest(group: seq<IpAddr>, has: IpAddr -> bool, found: Option<IpAddr>) {
    match found
    case None => forall b :: b in group ==> !has(b)
    case Some(a) => a in group && has(a) && forall b :: b in group && has(b) ==> b == a || IpLess(a, b)
  }

  lemma {:induction false} FirstIsLowest(group: seq<IpAddr>, has: IpAddr -> bool)
    requires StrictlySorted(IpLess, group)
    ensures Lowest(group, has, FirstWith(group, has))
  {
    hide IpLess;
    if group == [] {
    } else {
      FirstIsLowest(group[1..], has);
      assert group == [group[0]] + group[1..];
      forall b | b in group[1..] ensures IpLess(group[0], b) {
        var k :| 0 <= k < |group[1..]| && group[1..][k] == b;
        assert b == group[k + 1];
      }
    }
  }

  lemma LowestOfSorted(group: seq<IpAddr>, has: IpAddr -> bool, found: Option<IpAddr>)
    requires StrictlySorted(IpLess, group) && Lowest(group, has, found)
    ensures FirstWith(Sort(IpLess, group), has) == found
  {
    hide IpLess, Sort, FirstWith;
    AddressOrders();
    SortSorted(IpLess, group);
    FirstIsLowest(Sort(IpLess, group), has);
  }

  /** The device has its primary's port, and its name and URLs from the lowest address that has one;
      without any name it is named after its primary. */
  lemma {:induction false} MergedFields(t: Table, group: seq<IpAddr>, text: IpAddr -> string, found: Option<IpAddr>)
    requires group != [] && Tracked(t, group) && StrictlySorted(IpLess, group)
    ensures var d := MergeGroup(t, group, text);
            && d.address in t && d.port == t[d.address].port
            && (Lowest(group, Named(t), found) ==>
                  match found
                  case None => d.name == "Unknown device (" + text(d.address) + ")"
                  case Some(a) => a in t && t[a].name == Some(d.name))
            && (Lowest(group, Controlled(t), found) ==>
                  match found
                  case None => d.controlUrl == None
                  case Some(a) => a in t && d.controlUrl == t[a].controlUrl)
            && (Lowest(group, Located(t), found) ==>
                  match found
                  case None => d.location == None
                  case Some(a) => a in t && d.location == t[a].location)
  {
    hide Lowest, FirstWith, IpLess;
    forall has | has in {Named(t), Controlled(t), Located(t)} && Lowest(group, has, found)
      ensures FirstWith(Sort(IpLess, group), has) == found
    {
      LowestOfSorted(group, has, found);
    }
  }

  // ----- the order of the list -----

  function ListRank(d: Device): nat {
    if d.protocols == [] then 255 else PreferenceRank(d.protocols[0])
  }

  predicate ListedBefore(d: Device, e: Device) {
    ListRank(d) < ListRank(e)
    || (ListRank(d) == ListRank(e)
        && (StringLess(d.name, e.name) || (d.name == e.name && IpLess(d.address, e.address))))
  }

  lemma ListOrders()
    ensures Transitive(ListedBefore) && Irreflexive(ListedBefore)
    ensures forall d: Device, e: Device :: d.address == e.address || ListedBefore(d, e) || ListedBefore(e, d)
  {
    hide StringLess;
    StringLessOrders();
    AddressOrders();
  }

  // ----- components -----

  /** All the addresses connected to one another, in address order. */
  ghost predicate IsComponent(g: Graph, group: seq<IpAddr>) {
    group != [] && StrictlySorted(IpLess, group) && (forall a :: a in group ==> a in g)
    && forall a, b :: a in group ==> (b in group <==> Connected(g, a, b))
  }

  /** An address is in one component only. */
  lemma ComponentUnique(g: Graph, group: seq<IpAddr>, other: seq<IpAddr>, a: IpAddr)
    requires IsComponent(g, group) && IsComponent(g, other)
    requires a in group && a in other
    ensures group == other
  {
    hide Connected, IpLess;
    AddressOrders();
    forall b ensures b in group <==> b in other {
      assert b in group <==> Connected(g, a, b);
      assert b in other <==> Connected(g, a, b);
    }
    SortedUnique(IpLess, group, other);
  }

  /** The first `n` addresses with root `r`, in address order. */
  function Members(addrs: seq<IpAddr>, root: seq<nat>, r: nat, n: nat): seq<IpAddr>
    requires n <= |addrs| == |root|
  {
    if n == 0 then []
    else Members(addrs, root, r, n - 1) + if root[n - 1] == r then [addrs[n - 1]] else []
  }

  lemma {:induction false} MembersAre(addrs: seq<IpAddr>, root: seq<nat>, r: nat, n: nat)
    requires n <= |addrs| == |root| && StrictlySorted(IpLess, addrs)
    ensures forall a :: a in Members(addrs, root, r, n) <==> exists i :: 0 <= i < n && root[i] == r && addrs[i] == a
    ensures StrictlySorted(IpLess, Members(addrs, root, r, n))
  {
    hide IpLess;
    if n == 0 {
    } else {
      MembersAre(addrs, root, r, n - 1);
      var before := Members(addrs, root, r, n - 1);
      forall k | 0 <= k < |before| ensures IpLess(before[k], addrs[n - 1]) {
        assert before[k] in before;
      }
    }
  }

  lemma {:induction false} MembersNone(addrs: seq<IpAddr>, root: seq<nat>, r: nat, n: nat)
    requires n <= |addrs| == |root| && r !in root[..n]
    ensures Members(addrs, root, r, n) == []
  {
    if n == 0 {
    } else {
      assert root[..n] == root[..n - 1] + [root[n - 1]];
      MembersNone(addrs, root, r, n - 1);
    }
  }

  function IndexOf(addrs: seq<IpAddr>, a: IpAddr): (i: nat)
    requires a in addrs
    ensures i < |addrs| && addrs[i] == a
  {
    if addrs[0] == a then 0 else 1 + IndexOf(addrs[1..], a)
  }

  lemma SortedDistinct(addrs: seq<IpAddr>, i: nat, j: nat)
    requires StrictlySorted(IpLess, addrs) && i < |addrs| && j < |addrs| && addrs[i] == addrs[j]
    ensures i == j
  {
  }

  /** The roots tell apart exactly the addresses that no chain of shared identities connects. */
  lemma SameRootIffConnected(g: Graph, addrs: seq<IpAddr>, root: seq<nat>, i: nat, j: nat)
    requires Addresses(g, addrs) && StrictlySorted(IpLess, addrs) && |root| == |addrs|
    requires Justified(g, addrs, root)
    requires forall x, y :: 0 <= x < |addrs| && 0 <= y < |addrs| && Shares(g, addrs[x], addrs[y]) ==> root[x] == root[y]
    requires i < |addrs| && j < |addrs|
    ensures root[i] == root[j] <==> Connected(g, addrs[i], addrs[j])
  {
    hide Connected, Shares, IpLess;
    if Connected(g, addrs[i], addrs[j]) {
      var mark := map a | a in g :: root[IndexOf(addrs, a)];
      forall x, y | Shares(g, x, y) ensures x in g && y in g && mark[x] == mark[y] {
        SharesTracked(g, x, y);
        assert x == addrs[IndexOf(addrs, x)] && y == addrs[IndexOf(addrs, y)];
      }
      LabelsFollowChains(g, mark, addrs[i], addrs[j]);
      SortedDistinct(addrs, i, IndexOf(addrs, addrs[i]));
      SortedDistinct(addrs, j, IndexOf(addrs, addrs[j]));
    }
  }

  lemma SharesTracked(g: Graph, x: IpAddr, y: IpAddr)
    requires Shares(g, x, y)
    ensures x in g && y in g
  {
  }

  lemma {:induction false} MembersAreComponent(g: Graph, addrs: seq<IpAddr>, root: seq<nat>, r: nat)
    requires Addresses(g, addrs) && StrictlySorted(IpLess, addrs) && |root| == |addrs|
    requires forall i, j :: 0 <= i < |addrs| && 0 <= j < |addrs| ==>
               (root[i] == root[j] <==> Connected(g, addrs[i], addrs[j]))
    requires r in root
    ensures IsComponent(g, Members(addrs, root, r, |addrs|))
  {
    hide Connected, IpLess, Members;
    var group := Members(addrs, root, r, |addrs|);
    MembersAre(addrs, root, r, |addrs|);
    var k :| 0 <= k < |root| && root[k] == r;
    assert addrs[k] in group;
    forall a, b | a in group ensures a in g && (b in group <==> Connected(g, a, b)) {
      var i :| 0 <= i < |addrs| && root[i] == r && addrs[i] == a;
      if Connected(g, a, b) {
        ConnectedTracked(g, a, b);
        var j := IndexOf(addrs, b);
        assert root[i] == root[j];
      }
    }
  }

  lemma ConnectedTracked(g: Graph, a: IpAddr, b: IpAddr)
    requires Connected(g, a, b)
    ensures a in g && b in g
  {
  }

  // ----- the list -----

  /** Collects the addresses by component root, in address order. */
  method GroupByRoot(addrs: seq<IpAddr>, parent: array<nat>, ghost root: seq<nat>, ghost height: seq<nat>,
                     ghost bound: nat)
      returns (groups: map<nat, seq<IpAddr>>)
    requires parent.Length == |addrs| == |root| && Forest(parent[..], root, height, bound)
    modifies parent
    ensures forall r :: r in groups <==> r in root
    ensures forall r :: r in groups ==> groups[r] == Members(addrs, root, r, |addrs|)
  {
    hide Forest;
    groups := map[];
    for i := 0 to |addrs|
      invariant Forest(parent[..], root, height, bound)
      invariant forall r :: r in groups <==> r in root[..i]
      invariant forall r :: r in groups ==> groups[r] == Members(addrs, root, r, i)
    {
      var r := Find(parent, i, root, height, bound);
      assert root[..i + 1] == root[..i] + [r];
      if r !in groups {
        MembersNone(addrs, root, r, i);
      }
      groups := groups[r := (if r in groups then groups[r] else []) + [addrs[i]]];
    }
    assert root[..|addrs|] == root;
  }

  /** The device of a component. */
  ghost function MergedOf(t: Table, group: seq<IpAddr>, text: IpAddr -> string): Device
    requires IsComponent(GraphOf(t), group)
  {
    MergeGroup(t, group, text)
  }

  /** The list holds the device of every component and nothing else, in strict list order. */
  ghost predicate IsDeviceList(t: Table, text: IpAddr -> string, ds: seq<Device>) {
    && StrictlySorted(ListedBefore, ds)
    && (forall d :: d in ds ==> exists group :: IsComponent(GraphOf(t), group) && d == MergedOf(t, group, text))
    && (forall group :: IsComponent(GraphOf(t), group) ==> MergedOf(t, group, text) in ds)
  }

  /** The list is a function of the table: no hash order and no order of linking shows in it. */
  lemma DeviceListUnique(t: Table, text: IpAddr -> string, ds: seq<Device>, es: seq<Device>)
    requires IsDeviceList(t, text, ds) && IsDeviceList(t, text, es)
    ensures ds == es
  {
    hide MergeGroup, IsComponent, ListedBefore;
    ListOrders();
    SortedUnique(ListedBefore, ds, es);
  }

  /** `a` is one of the addresses of the listed device `d`. */
  ghost predicate Holds(t: Table, text: IpAddr -> string, d: Device, a: IpAddr) {
    exists group :: IsComponent(GraphOf(t), group) && a in group && d == MergedOf(t, group, text)
  }

  lemma SetAsList(all: set<IpAddr>) returns (s: seq<IpAddr>)
    ensures forall a :: a in s <==> a in all
    ensures forall i, j :: 0 <= i < j < |s| ==> s[i] != s[j]
  {
    if all == {} {
      s := [];
    } else {
      var a :| a in all;
      s := SetAsList(all - {a});
      s := s + [a];
    }
  }

  lemma ComponentOf(g: Graph, a: IpAddr) returns (group: seq<IpAddr>)
    requires a in g
    ensures IsComponent(g, group) && a in group
  {
    hide Connected, IpLess;
    AddressOrders();
    var unsorted := SetAsList(set b | b in g && Connected(g, a, b));
    SortSorted(IpLess, unsorted);
    group := Sort(IpLess, unsorted);
    ConnectedItself(g, a);
    forall b, c | b in group ensures c in group <==> Connected(g, b, c) {
      if c in group {
        ConnectedSymmetric(g, a, b);
        ConnectedTransitive(g, b, a, c);
      } else if Connected(g, b, c) {
        ConnectedTransitive(g, a, b, c);
        ConnectedTracked(g, a, c);
      }
    }
  }

  /** Every tracked address belongs to exactly one listed device. */
  lemma {:induction false} EveryAddressInOneDevice(t: Table, text: IpAddr -> string, ds: seq<Device>, a: IpAddr)
    requires IsDeviceList(t, text, ds) && a in t
    ensures exists d :: d in ds && Holds(t, text, d, a)
    ensures forall d, e :: Holds(t, text, d, a) && Holds(t, text, e, a) ==> d == e
  {
    hide IsComponent, MergeGroup;
    var group := ComponentOf(GraphOf(t), a);
    assert Holds(t, text, MergedOf(t, group, text), a);
    forall d, e | Holds(t, text, d, a) && Holds(t, text, e, a) ensures d == e {
      var x :| IsComponent(GraphOf(t), x) && a in x && d == MergedOf(t, x, text);
      var y :| IsComponent(GraphOf(t), y) && a in y && e == MergedOf(t, y, text);
      ComponentUnique(GraphOf(t), x, y, a);
    }
  }

  /** Main result: two tracked addresses belong to one listed device exactly when a chain of shared
      stable identities connects them. */
  lemma {:induction false} SameDeviceIffConnected(t: Table, text: IpAddr -> string, ds: seq<Device>,
                                                 a: IpAddr, b: IpAddr)
    requires IsDeviceList(t, text, ds) && a in t && b in t
    ensures (exists d :: d in ds && Holds(t, text, d, a) && Holds(t, text, d, b)) <==> Connected(GraphOf(t), a, b)
  {
    hide MergeGroup, Connected, IpLess;
    if exists d :: d in ds && Holds(t, text, d, a) && Holds(t, text, d, b) {
      var d :| d in ds && Holds(t, text, d, a) && Holds(t, text, d, b);
      var x :| IsComponent(GraphOf(t), x) && a in x && d == MergedOf(t, x, text);
      var y :| IsComponent(GraphOf(t), y) && b in y && d == MergedOf(t, y, text);
      MergedAddress(t, x, text);
      MergedAddress(t, y, text);
      ComponentUnique(GraphOf(t), x, y, d.address);
    }
    if Connected(GraphOf(t), a, b) {
      var group := ComponentOf(GraphOf(t), a);
      var d := MergedOf(t, group, text);
      assert Holds(t, text, d, a) && Holds(t, text, d, b);
    }
  }

  method SortedKeys(t: Table) returns (addrs: seq<IpAddr>)
    ensures Addresses(GraphOf(t), addrs) && StrictlySorted(IpLess, addrs)
  {
    hide IpLess;
    var todo := t.Keys;
    var keys := [];
    while todo != {}
      invariant todo <= t.Keys
      invariant forall a :: a in keys <==> a in t.Keys - todo
      invariant forall i, j :: 0 <= i < j < |keys| ==> keys[i] != keys[j]
      decreases todo
    {
      var a :| a in todo;
      forall i | 0 <= i < |keys| ensures keys[i] != a {
        assert keys[i] in keys;
      }
      keys := keys + [a];
      todo := todo - {a};
    }
    AddressOrders();
    SortSorted(IpLess, keys);
    addrs := Sort(IpLess, keys);
    forall i | 0 <= i < |addrs| ensures addrs[i] in GraphOf(t) {
      assert addrs[i] in addrs;
    }
  }

  /** The devices of the chosen groups, in the order chosen. */
  ghost predicate MergedFrom(t: Table, text: IpAddr -> string, groups: map<nat, seq<IpAddr>>, rs: seq<nat>,
                             ds: seq<Device>)
  {
    |ds| == |rs|
    && (forall k :: 0 <= k < |rs| ==>
          rs[k] in groups && IsComponent(GraphOf(t), groups[rs[k]]) && ds[k] == MergedOf(t, groups[rs[k]], text))
    && forall i, j :: 0 <= i < j < |rs| ==> rs[i] != rs[j]
  }

  lemma {:induction false} MergedAreComparable(t: Table, text: IpAddr -> string, groups: map<nat, seq<IpAddr>>,
                                              rs: seq<nat>, ds: seq<Device>)
    requires forall r, q :: r in groups && q in groups && groups[r] == groups[q] ==> r == q
    requires MergedFrom(t, text, groups, rs, ds)
    ensures Comparable(ListedBefore, ds)
  {
    hide IsComponent, ListedBefore, MergeGroup;
    ListOrders();
    forall i, j | 0 <= i < j < |ds| ensures ListedBefore(ds[i], ds[j]) || ListedBefore(ds[j], ds[i]) {
      var x, y := groups[rs[i]], groups[rs[j]];
      MergedAddress(t, x, text);
      MergedAddress(t, y, text);
      if ds[i].address == ds[j].address {
        ComponentUnique(GraphOf(t), x, y, ds[i].address);
      }
    }
  }

  lemma MergedAddress(t: Table, group: seq<IpAddr>, text: IpAddr -> string)
    requires IsComponent(GraphOf(t), group)
    ensures group != [] && Tracked(t, group) && MergedOf(t, group, text) == MergeGroup(t, group, text)
    ensures MergedOf(t, group, text).address in group
  {
  }

  method MergeAll(t: Table, groups: map<nat, seq<IpAddr>>, text: IpAddr -> string)
      returns (ds: seq<Device>, ghost rs: seq<nat>)
    requires forall r :: r in groups ==> IsComponent(GraphOf(t), groups[r])
    ensures MergedFrom(t, text, groups, rs, ds)
    ensures forall r :: r in groups ==> r in rs
  {
    hide MergeGroup, IsComponent;
    ds, rs := [], [];
    var todo := groups.Keys;
    while todo != {}
      invariant todo <= groups.Keys
      invariant MergedFrom(t, text, groups, rs, ds)
      invariant forall r :: r in rs <==> r in groups.Keys - todo
      decreases todo
    {
      var r :| r in todo;
      MergedAddress(t, groups[r], text);
      forall i | 0 <= i < |rs| ensures rs[i] != r {
        assert rs[i] in rs;
      }
      ds := ds + [MergeGroup(t, groups[r], text)];
      rs := rs + [r];
      todo := todo - {r};
    }
  }

  /** The registry's device list. The groups are visited in any order. */
  method ListDevices(t: Table, text: IpAddr -> string) returns (ds: seq<Device>)
    ensures IsDeviceList(t, text, ds)
  {
    hide Forest, Justified, Members, IsComponent, MergeGroup, ListedBefore, IpLess, IsDeviceList;
    ghost var g := GraphOf(t);
    var addrs := SortedKeys(t);
    var parent, root, height, bound := LinkShared(GraphOf(t), addrs);
    forall i, j | 0 <= i < |addrs| && 0 <= j < |addrs|
      ensures root[i] == root[j] <==> Connected(g, addrs[i], addrs[j])
    {
      SameRootIffConnected(g, addrs, root, i, j);
    }
    var groups := GroupByRoot(addrs, parent, root, height, bound);
    forall r | r in groups ensures IsComponent(g, groups[r]) {
      MembersAreComponent(g, addrs, root, r);
    }
    var merged, rs := MergeAll(t, groups, text);
    ds := Sort(ListedBefore, merged);
    ListIsComplete(t, text, addrs, root, groups, rs, merged);
  }

  lemma {:induction false} ListIsComplete(t: Table, text: IpAddr -> string, addrs: seq<IpAddr>, root: seq<nat>,
                       groups: map<nat, seq<IpAddr>>, rs: seq<nat>, merged: seq<Device>)
    requires Addresses(GraphOf(t), addrs) && StrictlySorted(IpLess, addrs) && |root| == |addrs|
    requires forall r :: r in groups <==> r in root
    requires forall r :: r in groups ==> groups[r] == Members(addrs, root, r, |addrs|)
    requires forall r :: r in groups ==> IsComponent(GraphOf(t), groups[r])
    requires MergedFrom(t, text, groups, rs, merged) && forall r :: r in groups ==> r in rs
    ensures IsDeviceList(t, text, Sort(ListedBefore, merged))
  {
    hide IsComponent, MergeGroup, ListedBefore, IpLess, Members, MergedFrom, GraphOf;
    forall r, q | r in groups && q in groups && groups[r] == groups[q] ensures r == q {
      MembersOfTwoRoots(addrs, root, r, q);
    }
    MergedAreComparable(t, text, groups, rs, merged);
    ListOrders();
    SortSorted(ListedBefore, merged);
    forall group | IsComponent(GraphOf(t), group)
      ensures MergedOf(t, group, text) in merged
    {
      ComponentListed(t, text, addrs, root, groups, rs, merged, group);
    }
    forall d | d in merged ensures exists group :: IsComponent(GraphOf(t), group) && d == MergedOf(t, group, text) {
      MergedIsDevice(t, text, groups, rs, merged, d);
    }
  }

  lemma {:induction false} MergedIsDevice(t: Table, text: IpAddr -> string, groups: map<nat, seq<IpAddr>>, rs: seq<nat>,
                       merged: seq<Device>, d: Device)
    requires MergedFrom(t, text, groups, rs, merged) && d in merged
    ensures exists group :: IsComponent(GraphOf(t), group) && d == MergedOf(t, group, text)
  {
    hide MergeGroup, IsComponent;
    var k :| 0 <= k < |merged| && merged[k] == d;
    MergedAddress(t, groups[rs[k]], text);
    assert IsComponent(GraphOf(t), groups[rs[k]]) && d == MergedOf(t, groups[rs[k]], text);
  }

  lemma MembersOfTwoRoots(addrs: seq<IpAddr>, root: seq<nat>, r: nat, q: nat)
    requires |root| == |addrs| && StrictlySorted(IpLess, addrs) && r in root
    requires Members(addrs, root, r, |addrs|) == Members(addrs, root, q, |addrs|)
    ensures r == q
  {
    hide Members, IpLess;
    MembersAre(addrs, root, r, |addrs|);
    MembersAre(addrs, root, q, |addrs|);
    var k :| 0 <= k < |root| && root[k] == r;
    assert addrs[k] in Members(addrs, root, q, |addrs|);
    var j :| 0 <= j < |addrs| && root[j] == q && addrs[j] == addrs[k];
    SortedDistinct(addrs, j, k);
  }

  lemma {:induction false} ComponentListed(t: Table, text: IpAddr -> string, addrs: seq<IpAddr>, root: seq<nat>,
                        groups: map<nat, seq<IpAddr>>, rs: seq<nat>, merged: seq<Device>, group: seq<IpAddr>)
    requires Addresses(GraphOf(t), addrs) && StrictlySorted(IpLess, addrs) && |root| == |addrs|
    requires forall r :: r in groups <==> r in root
    requires forall r :: r in groups ==> groups[r] == Members(addrs, root, r, |addrs|)
    requires forall r :: r in groups ==> IsComponent(GraphOf(t), groups[r])
    requires MergedFrom(t, text, groups, rs, merged) && forall r :: r in groups ==> r in rs
    requires IsComponent(GraphOf(t), group)
    ensures MergedOf(t, group, text) in merged
  {
    hide MergeGroup, IpLess, Members, Connected;
    var a := group[0];
    var i := IndexOf(addrs, a);
    var r := root[i];
    MembersAre(addrs, root, r, |addrs|);
    ComponentUnique(GraphOf(t), group, groups[r], a);
    var k :| 0 <= k < |rs| && rs[k] == r;
    assert merged[k] == MergedOf(t, group, text);
  }
}
