/** Which transport, address and device come first, said of the transports and addresses themselves. */
module Preferences {
  import opened Coalesce
  import opened Devices
  import opened Ordering
  import opened Registry

  // ----- transports -----

  ghost predicate Offers(t: Table, group: seq<IpAddr>, p: Protocol)
    requires Tracked(t, group)
  {
    exists a :: a in group && p in t[a].protocols
  }

  /** Low-latency mirroring first, plain playback last. */
  const PREFERENCE := [AirPlayMirror, AirPlayVideo, Cast, Miracast, Dlna]

  ghost function Offered(t: Table, group: seq<IpAddr>): set<Protocol>
    requires Tracked(t, group)
  {
    set p: Protocol | Offers(t, group, p)
  }

  /** The elements of `order` that are in a set. */
  function Chosen<T(==, !new)>(order: seq<T>, from: set<T>): (r: seq<T>)
    ensures forall x :: x in r <==> x in order && x in from
  {
    if order == [] then []
    else
      assert order == [order[0]] + order[1..];
      (if order[0] in from then [order[0]] else []) + Chosen(order[1..], from)
  }

  lemma {:induction false} ChosenSorted<T(!new)>(lt: (T, T) -> bool, order: seq<T>, from: set<T>)
    requires StrictlySorted(lt, order)
    ensures StrictlySorted(lt, Chosen(order, from))
  {
    if order == [] {
    } else {
      ChosenSorted(lt, order[1..], from);
      var rest := Chosen(order[1..], from);
      forall i | 0 <= i < |rest| ensures lt(order[0], rest[i]) {
        assert rest[i] in order[1..];
      }
    }
  }

  /** Main result: a device lists exactly the transports offered at its addresses, in that order. */
  lemma {:induction false} TransportsExact(t: Table, group: seq<IpAddr>, text: IpAddr -> string)
    requires group != [] && Tracked(t, group)
    ensures MergeGroup(t, group, text).protocols == Chosen(PREFERENCE, Offered(t, group))
  {
    hide MergeGroup, Chosen;
    MergedDevice(t, group, text);
    PreferenceSorted();
    ChosenSorted(Preferred, PREFERENCE, Offered(t, group));
    hide Preferred;
    PreferredOrders();
    SortedUnique(Preferred, MergeGroup(t, group, text).protocols, Chosen(PREFERENCE, Offered(t, group)));
  }

  lemma PreferenceSorted()
    ensures StrictlySorted(Preferred, PREFERENCE)
    ensures forall p: Protocol :: p in PREFERENCE
  {
    forall p: Protocol ensures p in PREFERENCE {
      assert PREFERENCE[PreferenceRank(p)] == p;
    }
  }

  lemma PreferredOrders()
    ensures Transitive(Preferred) && Irreflexive(Preferred)
  {
  }

  /** One of the first `k` transports of that order. */
  predicate HasAmong(d: Device, k: nat)
    requires k <= 5
  {
    exists p :: p in d.protocols && p in PREFERENCE[..k]
  }

  lemma {:induction false} AmongFirst(p: Protocol, k: nat)
    requires k <= 5
    ensures p in PREFERENCE[..k] <==> PreferenceRank(p) < k
  {
    if PreferenceRank(p) < k {
      assert PREFERENCE[PreferenceRank(p)] == p;
      assert PREFERENCE[..k][PreferenceRank(p)] == p;
    }
  }

  lemma {:induction false} RankOf(t: Table, group: seq<IpAddr>, text: IpAddr -> string, k: nat)
    requires group != [] && Tracked(t, group) && k <= 5
    ensures var d := MergeGroup(t, group, text);
            HasAmong(d, k) <==> ListRank(d) < k
  {
    hide MergeGroup;
    MergedDevice(t, group, text);
    var d := MergeGroup(t, group, text);
    forall p: Protocol ensures p in PREFERENCE[..k] <==> PreferenceRank(p) < k {
      AmongFirst(p, k);
    }
    if d.protocols != [] {
      assert d.protocols[0] in d.protocols;
      forall p | p in d.protocols ensures PreferenceRank(d.protocols[0]) <= PreferenceRank(p) {
        var i :| 0 <= i < |d.protocols| && d.protocols[i] == p;
        assert i > 0 ==> Preferred(d.protocols[0], d.protocols[i]);
      }
    }
  }

  /** Main result: of two listed devices, the later one offers none of the first `k` transports unless the
      earlier one does; so one that mirrors comes before all that do not, and so on down. Between devices
      with the same best transport the names decide, and between those with one name the addresses. */
  lemma {:induction false} ListedByTransport(t: Table, text: IpAddr -> string, ds: seq<Device>, i: nat, j: nat, k: nat)
    requires IsDeviceList(t, text, ds) && i < j < |ds| && 1 <= k <= 5
    ensures HasAmong(ds[j], k) ==> HasAmong(ds[i], k)
    ensures (forall n | 1 <= n <= 5 :: HasAmong(ds[i], n) == HasAmong(ds[j], n)) ==>
      StringLess(ds[i].name, ds[j].name) || (ds[i].name == ds[j].name && IpLess(ds[i].address, ds[j].address))
  {
    hide MergeGroup, IsComponent, StringLess, IpLess, HasAmong, ListRank;
    assert ListedBefore(ds[i], ds[j]);
    assert ds[i] in ds && ds[j] in ds;
    var x :| IsComponent(GraphOf(t), x) && ds[i] == MergedOf(t, x, text);
    var y :| IsComponent(GraphOf(t), y) && ds[j] == MergedOf(t, y, text);
    MergedAddress(t, x, text);
    MergedAddress(t, y, text);
    forall n: nat | n <= 5
      ensures (HasAmong(ds[i], n) <==> ListRank(ds[i]) < n) && (HasAmong(ds[j], n) <==> ListRank(ds[j]) < n)
    {
      RankOf(t, x, text, n);
      RankOf(t, y, text, n);
    }
    if forall n | 1 <= n <= 5 :: HasAmong(ds[i], n) == HasAmong(ds[j], n) {
      SameRank(ds[i], ds[j]);
    }
  }

  lemma {:induction false} SameRank(d: Device, e: Device)
    requires forall n: nat | n <= 5 :: (HasAmong(d, n) <==> ListRank(d) < n) && (HasAmong(e, n) <==> ListRank(e) < n)
    requires forall n | 1 <= n <= 5 :: HasAmong(d, n) == HasAmong(e, n)
    ensures ListRank(d) == ListRank(e)
  {
    hide HasAmong;
    assert HasAmong(d, 1) == HasAmong(e, 1) && HasAmong(d, 2) == HasAmong(e, 2) && HasAmong(d, 3) == HasAmong(e, 3);
    assert HasAmong(d, 4) == HasAmong(e, 4) && HasAmong(d, 5) == HasAmong(e, 5);
  }

  // ----- addresses -----

  /** 127.0.0.0/8 and ::1. */
  predicate Loopback(a: IpAddr) {
    match a
    case V4(x) => 0x7F00_0000 <= x <= 0x7FFF_FFFF
    case V6(x) => x == 1
  }

  predicate RoutableV4(a: IpAddr) {
    a.V4? && !Loopback(a)
  }

  /** fe80:: up to febf:ffff:... */
  predicate LinkLocal(a: IpAddr) {
    a.V6? && 0xFE80_0000_0000_0000_0000_0000_0000_0000 <= a.v6 <= 0xFEBF_FFFF_FFFF_FFFF_FFFF_FFFF_FFFF_FFFF
  }

  predicate GlobalV6(a: IpAddr) {
    a.V6? && !Loopback(a) && !LinkLocal(a)
  }

  predicate SameKind(a: IpAddr, b: IpAddr) {
    && (RoutableV4(a) <==> RoutableV4(b)) && (GlobalV6(a) <==> GlobalV6(b))
    && (LinkLocal(a) <==> LinkLocal(b)) && (Loopback(a) <==> Loopback(b))
  }

  lemma {:induction false} RankMeans(a: IpAddr)
    ensures RoutableV4(a) <==> AddressRank(a) == 0
    ensures GlobalV6(a) <==> AddressRank(a) == 1
    ensures LinkLocal(a) <==> AddressRank(a) == 2
    ensures Loopback(a) <==> AddressRank(a) == 3
  {
  }

  /** Numeric order: IPv4 first, each family by value. */
  predicate Lower(a: IpAddr, b: IpAddr) {
    (a.V4? && b.V6?) || (a.V4? && b.V4? && a.v4 < b.v4) || (a.V6? && b.V6? && a.v6 < b.v6)
  }

  lemma {:induction false} LowerExact(a: IpAddr, b: IpAddr)
    ensures IpLess(a, b) <==> Lower(a, b)
  {
  }

  /** Main result: a routable IPv4 address is primary whenever the group has one, then a global IPv6, then a
      link-local one; a loopback address only where there is nothing else; the lowest of its kind. */
  lemma {:induction false} PrimaryKind(group: seq<IpAddr>, b: IpAddr)
    requires b in group
    ensures var a := Primary(group);
            && (RoutableV4(b) ==> RoutableV4(a))
            && (GlobalV6(b) ==> RoutableV4(a) || GlobalV6(a))
            && (LinkLocal(b) ==> !Loopback(a))
            && (SameKind(a, b) ==> a == b || Lower(a, b))
  {
    hide Primary, AddressRank;
    RankMeans(Primary(group));
    RankMeans(b);
    LowerExact(Primary(group), b);
  }

  // ----- names -----

  /** The texts differ first at `k`, where `s` ends or has the smaller character. */
  predicate DecidedAt(s: string, t: string, k: nat) {
    k <= |s| && k < |t| && s[..k] == t[..k] && (k == |s| || s[k] < t[k])
  }

  lemma DecidedBehind(s: string, t: string, k: nat)
    requires DecidedAt(s, t, k)
    ensures k == 0 || (s != [] && t != [] && s[0] == t[0])
  {
    if k > 0 {
      assert s[..k][0] == t[..k][0];
    }
  }

  /** Text order is decided at the first difference. */
  lemma {:induction false} StringLessExact(s: string, t: string)
    ensures StringLess(s, t) <==> exists k: nat :: DecidedAt(s, t, k)
  {
    if s == [] || t == [] || s[0] != t[0] {
      assert DecidedAt(s, t, 0) <==> StringLess(s, t);
      forall k: nat | DecidedAt(s, t, k) ensures k == 0 {
        DecidedBehind(s, t, k);
      }
    } else {
      var x, y := s[1..], t[1..];
      StringLessExact(x, y);
      forall k: nat ensures DecidedAt(x, y, k) <==> DecidedAt(s, t, k + 1) {
        DecidedLater(s, t, k);
      }
      assert !DecidedAt(s, t, 0);
      if k: nat :| DecidedAt(s, t, k) {
        assert DecidedAt(x, y, k - 1);
      }
    }
  }

  lemma {:induction false} DecidedLater(s: string, t: string, k: nat)
    requires s != [] && t != [] && s[0] == t[0]
    ensures DecidedAt(s[1..], t[1..], k) <==> DecidedAt(s, t, k + 1)
  {
    if k + 1 <= |s| && k + 1 <= |t| {
      assert s[..k + 1] == [s[0]] + s[1..][..k] && t[..k + 1] == [t[0]] + t[1..][..k];
    }
  }
}
