/** Applying a configuration twice. The second application changes nothing exactly when every configured listener and
    interface carries its configured name after the first and no transient route is shadowed by a permanent one. */
module Idempotence {
  import opened Addresses
  import ArpTable
  import Device
  import opened Forwarding
  import opened Reconcile
  import opened ReconcileProofs
  import opened Registry
  import opened Sequences

  // ---------------------------------------------------------------- vocabulary

  ghost predicate DistinctVnis(ics: seq<InterfaceConfig>) {
    forall i, j :: 0 <= i < j < |ics| ==> ics[i].vni != ics[j].vni
  }

  /** Listener addresses are distinct, and VNIs are on each listener. */
  ghost predicate Canonical(cfg: Config) {
    && (forall i, j :: 0 <= i < j < |cfg| ==> cfg[i].address != cfg[j].address)
    && (forall lc :: lc in cfg ==> DistinctVnis(lc.interfaces))
  }

  /** Equal in everything, the ARP table being read as a map. */
  ghost predicate SameInterface(i: InterfaceState, j: InterfaceState) {
    ArpTable.Bindings(i.arp) == ArpTable.Bindings(j.arp) && j.(arp := i.arp) == i
  }

  ghost predicate SameInterfaces(s: seq<InterfaceState>, t: seq<InterfaceState>) {
    |s| == |t| && forall k :: 0 <= k < |s| ==> SameInterface(s[k], t[k])
  }

  ghost predicate SameState(l: ListenerState, m: ListenerState) {
    SameInterfaces(l.interfaces, m.interfaces) && m.(interfaces := l.interfaces) == l
  }

  ghost predicate SameNet(n: Net, m: Net) {
    |n| == |m| && forall k :: 0 <= k < |n| ==> SameState(n[k], m[k])
  }

  /** No transient route stands before a permanent one to the same destination and gateway. */
  ghost predicate Unshadowed(t: RouteTable) {
    forall k :: 0 <= k < |t| ==> !Shadowed(t, k)
  }

  /** Each configured interface is there under its configured name and with no route shadowed. */
  ghost predicate InterfacesAgree(s: seq<InterfaceState>, ics: seq<InterfaceConfig>) {
    forall ic, i :: ic in ics && i in s && i.vni == ic.vni ==> i.name == ic.name && Unshadowed(i.routes)
  }

  /** The condition, on the registry before the second application. */
  ghost predicate Agrees(net: Net, cfg: Config) {
    forall lc, l :: lc in cfg && l in net && l.address == lc.address ==> l.name == lc.name && InterfacesAgree(l.interfaces, lc.interfaces)
  }

  // ---------------------------------------------------------------- where each interface ends up

  lemma {:induction false} FindVniMember(s: seq<InterfaceState>, i: InterfaceState)
    requires UniqueVnis(s) && i in s
    ensures FindVni(s, i.vni) < |s| && s[FindVni(s, i.vni)] == i
  {
    var j :| 0 <= j < |s| && s[j] == i;
    var k := FindVni(s, i.vni);
    assert k <= j;
  }

  /** Where a VNI stands in a list does not depend on what is placed under another. */
  lemma PlaceElsewhere(s: seq<InterfaceState>, x: InterfaceState, v: nat)
    requires UniqueVnis(s) && x.vni != v
    ensures var t := Place(s, x); var k, m := FindVni(s, v), FindVni(t, v);
      (k < |s| <==> m < |t|) && (k < |s| ==> t[m] == s[k])
  {
    var t := Place(s, x);
    var k, m := FindVni(s, v), FindVni(t, v);
    PlaceMembers(s, x);
    if k < |s| {
      assert s[k] in t;
      FindVniMember(t, s[k]);
    } else if m < |t| {
      assert t[m] in t;
      FindVniMember(s, t[m]);
    }
  }

  /** Configuring starts from nothing but the listener's message size and the interface with the VNI. */
  lemma BaseDepends(l: ListenerState, m: ListenerState, ic: InterfaceConfig, host: Host)
    requires l.maxMessageSize == m.maxMessageSize
    requires var k, j := FindVni(l.interfaces, ic.vni), FindVni(m.interfaces, ic.vni);
      (k < |l.interfaces| <==> j < |m.interfaces|) && (k < |l.interfaces| ==> m.interfaces[j] == l.interfaces[k])
    ensures Base(l, ic, host) == Base(m, ic, host)
  {
  }

  /** Configuring the interface worked, and the outcome is among `s`. */
  ghost predicate Placed(l: ListenerState, s: seq<InterfaceState>, ic: InterfaceConfig, host: Host) {
    Configure(Base(l, ic, host), ic, host).0 && Result(l, ic, host) in s
  }

  lemma FirstPlaced(net: Net, k: nat, ics: seq<InterfaceConfig>, host: Host)
    requires ValidNet(net) && k < |net| && net[k].permanent && DistinctVnis(ics) && ics != []
    requires ApplyInterfaces(net, k, ics, host).ok
    ensures Placed(net[k], ApplyInterfaces(net, k, ics, host).net[k].interfaces, ics[0], host)
  {
    var net1, net2 := ApplyInterface(net, k, ics[0], host).net, ApplyInterfaces(net, k, ics, host).net;
    var x := Result(net[k], ics[0], host);
    assert net[k] in net;
    ResultShape(net[k], ics[0], host);
    PlaceMembers(net[k].interfaces, x);
    assert x in net1[k].interfaces;
    ApplyInterfaceEffect(net, k, ics[0], host);
    ApplyInterfacesApplied(net1, k, ics[1..], host);
    FilterMember(net1[k].interfaces, OutsideVnis(ics[1..]), x);
    FilterMember(net2[k].interfaces, OutsideVnis(ics[1..]), x);
  }

  /** After applying to one listener, every configured interface is there as configured from what it was before. */
  lemma {:induction false} AllPlaced(net: Net, k: nat, ics: seq<InterfaceConfig>, host: Host, ic: InterfaceConfig)
    requires ValidNet(net) && k < |net| && net[k].permanent && DistinctVnis(ics) && ic in ics
    requires ApplyInterfaces(net, k, ics, host).ok
    ensures Placed(net[k], ApplyInterfaces(net, k, ics, host).net[k].interfaces, ic, host)
    decreases |ics|
  {
    if ic == ics[0] {
      FirstPlaced(net, k, ics, host);
    } else {
      var net1 := ApplyInterface(net, k, ics[0], host).net;
      var x := Result(net[k], ics[0], host);
      assert net[k] in net;
      ResultShape(net[k], ics[0], host);
      ApplyInterfaceEffect(net, k, ics[0], host);
      AllPlaced(net1, k, ics[1..], host, ic);
      PlaceElsewhere(net[k].interfaces, x, ic.vni);
      BaseDepends(net[k], net1[k], ic, host);
    }
  }

  /** The listener as it stands when its interfaces are about to be applied. */
  function Ensured(net: Net, lc: ListenerConfig): ListenerState {
    var l := At(net, lc.address);
    if l.Some? then SetMaxMessageSize(l.value.(permanent := true), lc.maxMessageSize)
    else ListenerState(lc.name, lc.address, true, lc.maxMessageSize, [])
  }

  lemma EnsuredAt(net: Net, lc: ListenerConfig, host: Host)
    requires EnsureListener(net, lc, host).ok
    ensures var k := FindListener(net, lc.address); k < |EnsureListener(net, lc, host).net| && EnsureListener(net, lc, host).net[k] == Ensured(net, lc)
  {
    AtIsFound(net, lc.address);
  }

  /** The listener with the configured address is the ensured one with every configured interface placed. */
  ghost predicate Installed(net: Net, net': Net, lc: ListenerConfig, host: Host) {
    var l := At(net', lc.address);
    && l.Some?
    && SameListener(Ensured(net, lc), l.value)
    && forall ic :: ic in lc.interfaces ==> Placed(Ensured(net, lc), l.value.interfaces, ic, host)
  }

  lemma OneInstalled(net: Net, lc: ListenerConfig, host: Host)
    requires ValidNet(net) && DistinctVnis(lc.interfaces) && ApplyListener(net, lc, host).ok
    ensures Installed(net, ApplyListener(net, lc, host).net, lc, host)
  {
    var net1, k := EnsureListener(net, lc, host).net, FindListener(net, lc.address);
    var net2 := ApplyListener(net, lc, host).net;
    EnsuredAt(net, lc, host);
    EnsureEffect(net, lc, host);
    ApplyInterfacesOnlyAt(net1, k, lc.interfaces, host);
    assert net2[k] in net2;
    AtUnique(net2, net2[k]);
    forall ic | ic in lc.interfaces ensures Placed(net1[k], net2[k].interfaces, ic, host) {
      AllPlaced(net1, k, lc.interfaces, host, ic);
    }
  }

  lemma {:induction false} AllInstalled(net: Net, cfg: Config, host: Host, lc: ListenerConfig)
    requires ValidNet(net) && Canonical(cfg) && lc in cfg && ApplyListeners(net, cfg, host).ok
    ensures Installed(net, ApplyListeners(net, cfg, host).net, lc, host)
    decreases |cfg|
  {
    var net1, net2 := ApplyListener(net, cfg[0], host).net, ApplyListeners(net, cfg, host).net;
    ApplyListenerValid(net, cfg[0], host);
    ApplyListenersEffect(net1, cfg[1..], host);
    if lc == cfg[0] {
      OneInstalled(net, lc, host);
      assert !Mentions(cfg[1..], lc.address);
      assert AppliedAt(net1, net2, cfg[1..], lc.address);
    } else {
      AllInstalled(net1, cfg[1..], host, lc);
      ApplyListenerEffect(net, cfg[0], host);
      MentionsAppend(cfg[0], [], lc.address);
      assert AppliedAt(net, net1, [cfg[0]], lc.address);
    }
  }

  // ---------------------------------------------------------------- configuring one interface twice

  lemma {:induction false} AddMacsTransient(t: MacTable, cs: seq<MacConfig>)
    ensures Filter(AddMacs(t, cs), Not(PermanentMac())) == Filter(t, Not(PermanentMac()))
    decreases |cs|
  {
    if cs != [] {
      var t1 := AddMac(t, cs[0].mac, cs[0].dst, true);
      AddMacsTransient(t1, cs[1..]);
      FilterAppend(t, [MacEntry(cs[0].mac, cs[0].dst, true)], Not(PermanentMac()));
    }
  }

  lemma {:induction false} AddRoutesAppends(t: RouteTable, cs: seq<RouteConfig>, host: Host)
    ensures AddRoutes(t, cs, host) == t + AddRoutes([], cs, host)
    ensures Filter(AddRoutes([], cs, host), TransientRoute()) == []
    decreases |cs|
  {
    if cs != [] {
      var added := AddRoute([], RouteOf(cs[0]), host);
      assert AddRoute(t, RouteOf(cs[0]), host) == t + added;
      AddRoutesAppends(t + added, cs[1..], host);
      AddRoutesAppends(added, cs[1..], host);
      FilterAppend(added, AddRoutes([], cs[1..], host), TransientRoute());
    }
  }

  lemma RoutesAgain(t: RouteTable, cs: seq<RouteConfig>, host: Host)
    requires forall r :: r in t ==> !r.permanent
    ensures Filter(AddRoutes(t, cs, host), TransientRoute()) == t
  {
    AddRoutesAppends(t, cs, host);
    FilterAppend(t, AddRoutes([], cs, host), TransientRoute());
    FilterIdentity(t, TransientRoute());
  }

  /** The entry that the configured list leaves for an address: its last one. */
  function AskedArp(cs: seq<ArpConfig>, a: Addr): (e: Option<ArpTable.ArpEntry>)
    ensures e.Some? ==> e.value.permanent
  {
    if cs == [] then None
    else
      var later := AskedArp(cs[1..], a);
      if later.None? && cs[0].addr == a then Some(ArpTable.ArpEntry(a, SixBytes(cs[0].mac), None, true, false)) else later
  }

  lemma {:induction false} AddArpsFinds(t: ArpTable.Table, cs: seq<ArpConfig>, a: Addr)
    requires ArpTable.Valid(t)
    ensures ArpTable.Find(AddArps(t, cs), a) == if AskedArp(cs, a).Some? then AskedArp(cs, a) else ArpTable.Find(t, a)
    decreases |cs|
  {
    if cs != [] {
      ArpTable.AddStaticFinds(t, cs[0].addr, cs[0].mac, true, a);
      AddArpsFinds(ArpTable.AddStatic(t, cs[0].addr, cs[0].mac, true), cs[1..], a);
    }
  }

  lemma SameFindsSameBindings(t: ArpTable.Table, u: ArpTable.Table)
    requires forall a :: ArpTable.Find(t, a) == ArpTable.Find(u, a)
    ensures ArpTable.Bindings(t) == ArpTable.Bindings(u)
  {
    var m, n := ArpTable.Bindings(t), ArpTable.Bindings(u);
    forall a ensures (a in m <==> a in n) && (a in m ==> m[a] == n[a]) {
      ArpTable.BindingsAt(t, a);
      ArpTable.BindingsAt(u, a);
    }
  }

  /** Flushing the permanent ARP entries and entering the configured ones again gives the same map, though not always
      the same order. */
  lemma ArpsAgain(t: ArpTable.Table, cs: seq<ArpConfig>)
    requires ArpTable.Valid(t) && forall e :: e in t ==> !e.permanent
    ensures var u := AddArps(t, cs);
      ArpTable.Bindings(AddArps(Filter(u, Not(ArpTable.IsPermanent())), cs)) == ArpTable.Bindings(u)
  {
    var u := AddArps(t, cs);
    var rest := Filter(u, Not(ArpTable.IsPermanent()));
    AddArpsValid(t, cs);
    ArpTable.FilterValid(u, Not(ArpTable.IsPermanent()));
    forall a ensures ArpTable.Find(AddArps(rest, cs), a) == ArpTable.Find(u, a) {
      AddArpsFinds(t, cs, a);
      AddArpsFinds(rest, cs, a);
      ArpTable.FindFiltered(u, Not(ArpTable.IsPermanent()), a);
      ArpTable.FindIsMember(t, a);
    }
    SameFindsSameBindings(AddArps(rest, cs), u);
  }

  lemma AddressesAgain(kernel: seq<Prefix>, want: seq<Prefix>, budget: nat)
    requires Distinct(kernel) && Distinct(want)
    requires forall p :: p in kernel <==> p in want
    ensures Device.SetAddresses(kernel, want, budget).ok && Device.SetAddresses(kernel, want, budget).addresses == kernel
  {
    FilterNone(kernel, Device.NotIn(want));
    FilterNone(want, Device.NotIn(kernel));
    FilterIdentity(kernel, Device.In(want));
    Device.SetAddressesSucceedsIff(kernel, want, budget);
  }

  lemma SetAddressesTwice(i: InterfaceState, want: seq<Prefix>, host: Host)
    requires Distinct(i.kernel) && SetAddresses(i, want, host).0
    ensures var x := SetAddresses(i, want, host).1; SetAddresses(x, want, host) == (true, x)
  {
    Device.SetAddressesSucceedsIff(i.kernel, want, host.netlinkBudget(i.name));
    Device.ReaddressedIsRequested(i.kernel, want);
    AddressesAgain(Device.Readdressed(i.kernel, want), want, host.netlinkBudget(i.name));
  }

  /** The interface is as the configuration wants it; configuring it again could change nothing but its routes. */
  ghost predicate Holds(i: InterfaceState, ic: InterfaceConfig, size: int, host: Host) {
    && i.permanent
    && i.mac == ic.mac
    && SetMtu(i, ic.mtu, size, host) == i
    && (ic.addresses != [] ==> SetAddresses(i, ic.addresses, host) == (true, i))
    && ArpTable.Bindings(AddArps(Filter(i.arp, Not(ArpTable.IsPermanent())), ic.arps)) == ArpTable.Bindings(i.arp)
    && AddMacs(Filter(i.macs, Not(PermanentMac())), ic.macs) == i.macs
    && AddRoutes(Filter(i.routes, TransientRoute()), ic.routes, host) == i.routes
  }

  /** The three tables after configuring. */
  lemma RetabledHolds(j: InterfaceState, ic: InterfaceConfig, host: Host)
    requires ValidInterface(j)
    ensures var x := Retabled(j, ic, host);
      && ArpTable.Bindings(AddArps(Filter(x.arp, Not(ArpTable.IsPermanent())), ic.arps)) == ArpTable.Bindings(x.arp)
      && AddMacs(Filter(x.macs, Not(PermanentMac())), ic.macs) == x.macs
      && AddRoutes(Filter(x.routes, TransientRoute()), ic.routes, host) == x.routes
  {
    var arp, macs := Filter(j.arp, Not(ArpTable.IsPermanent())), Filter(j.macs, Not(PermanentMac()));
    ArpTable.FilterValid(j.arp, Not(ArpTable.IsPermanent()));
    FilterMembers(j.arp, Not(ArpTable.IsPermanent()));
    ArpsAgain(arp, ic.arps);
    AddMacsTransient(macs, ic.macs);
    FilterFilter(j.macs, Not(PermanentMac()), Not(PermanentMac()), Not(PermanentMac()));
    forall r | r in FlushRoutes(j.routes) ensures !r.permanent {
      FlushLeavesNoPermanent(j.routes, r);
    }
    RoutesAgain(FlushRoutes(j.routes), ic.routes, host);
  }

  lemma ConfiguredHolds(b: InterfaceState, ic: InterfaceConfig, size: int, host: Host)
    requires ValidInterface(b) && b.permanent && SetMtu(b, ic.mtu, size, host) == b
    requires Configure(b, ic, host).0
    ensures Holds(Configure(b, ic, host).1, ic, size, host)
  {
    var j := b.(mac := ic.mac);
    var addressed := if ic.addresses == [] then j else SetAddresses(j, ic.addresses, host).1;
    if ic.addresses != [] {
      SetAddressesTwice(j, ic.addresses, host);
      ReaddressedDistinct(j, ic.addresses, host);
    }
    RetabledHolds(addressed, ic, host);
  }

  /** Configuring an interface that is as configured changes at most its routes, and those exactly when one is
      shadowed. */
  lemma ConfigureAgain(i: InterfaceState, ic: InterfaceConfig, size: int, host: Host)
    requires Holds(i, ic, size, host)
    ensures SetMtu(i.(permanent := true), ic.mtu, size, host) == i
    ensures Configure(i, ic, host).0
    ensures SameInterface(i, Configure(i, ic, host).1) <==> Unshadowed(i.routes)
  {
    var x := Configure(i, ic, host).1;
    assert i.(mac := ic.mac) == i;
    assert x == Retabled(i, ic, host);
    var kept, transient := FlushRoutes(i.routes), Filter(i.routes, TransientRoute());
    AddRoutesAppends(kept, ic.routes, host);
    AddRoutesAppends(transient, ic.routes, host);
    var added := AddRoutes([], ic.routes, host);
    assert (kept + added)[..|kept|] == kept && (transient + added)[..|transient|] == transient;
    FlushIsExactIffUnshadowed(i.routes);
  }

  // ---------------------------------------------------------------- after the first application

  /** The interface with the configured VNI is there and as configured. */
  ghost predicate HeldIn(l: ListenerState, ic: InterfaceConfig, host: Host) {
    var k := FindVni(l.interfaces, ic.vni);
    k < |l.interfaces| && Holds(l.interfaces[k], ic, l.maxMessageSize, host)
  }

  /** The listener with the configured address is there, permanent, sized, and every interface is as configured. */
  ghost predicate HeldAt(net: Net, lc: ListenerConfig, host: Host) {
    var l := At(net, lc.address);
    && l.Some?
    && l.value == Ensured(net, lc)
    && forall ic :: ic in lc.interfaces ==> HeldIn(l.value, ic, host)
  }

  lemma PlacedHeld(l: ListenerState, l': ListenerState, ic: InterfaceConfig, host: Host)
    requires ValidListener(l) && ValidListener(l') && SameListener(l, l') && Placed(l, l'.interfaces, ic, host)
    ensures HeldIn(l', ic, host)
  {
    var b := Base(l, ic, host);
    var k := FindVni(l.interfaces, ic.vni);
    if k < |l.interfaces| {
      assert l.interfaces[k] in l.interfaces;
    } else {
      FreshIsValid(ic.name, ic.vni, ic.mtu, l.maxMessageSize, true, host);
    }
    ConfiguredHolds(b, ic, l.maxMessageSize, host);
    ResultShape(l, ic, host);
    FindVniMember(l'.interfaces, Result(l, ic, host));
  }

  lemma EnsuredIsValid(net: Net, lc: ListenerConfig)
    requires ValidNet(net)
    ensures ValidListener(Ensured(net, lc))
  {
    AtMember(net, lc.address);
  }

  lemma InstalledHeld(net: Net, net': Net, lc: ListenerConfig, host: Host)
    requires ValidNet(net) && ValidNet(net') && Installed(net, net', lc, host)
    ensures HeldAt(net', lc, host)
  {
    var l := At(net', lc.address).value;
    EnsuredIsValid(net, lc);
    AtMember(net', lc.address);
    forall ic | ic in lc.interfaces ensures HeldIn(l, ic, host) {
      PlacedHeld(Ensured(net, lc), l, ic, host);
    }
  }

  // ---------------------------------------------------------------- applying what already holds

  lemma SameNetItself(net: Net)
    ensures SameNet(net, net)
  {
  }

  lemma SameNetTransitive(a: Net, b: Net, c: Net)
    requires SameNet(a, b) && SameNet(b, c)
    ensures SameNet(a, c)
  {
    forall k | 0 <= k < |a| ensures SameState(a[k], c[k]) {
      assert SameState(a[k], b[k]) && SameState(b[k], c[k]);
      SameInterfacesTransitive(a[k].interfaces, b[k].interfaces, c[k].interfaces);
    }
  }

  lemma SameInterfacesTransitive(s: seq<InterfaceState>, t: seq<InterfaceState>, u: seq<InterfaceState>)
    requires SameInterfaces(s, t) && SameInterfaces(t, u)
    ensures SameInterfaces(s, u)
  {
    forall k | 0 <= k < |s| ensures SameInterface(s[k], u[k]) {
      assert SameInterface(s[k], t[k]) && SameInterface(t[k], u[k]);
    }
  }

  /** What the second application needs of one configured interface. */
  ghost predicate Ready(l: ListenerState, ic: InterfaceConfig, host: Host) {
    HeldIn(l, ic, host) && Unshadowed(l.interfaces[FindVni(l.interfaces, ic.vni)].routes)
  }

  lemma RepeatInterface(net: Net, k: nat, ic: InterfaceConfig, host: Host)
    requires ValidNet(net) && k < |net| && net[k].permanent && Ready(net[k], ic, host)
    ensures ApplyInterface(net, k, ic, host).ok
    ensures SameNet(net, ApplyInterface(net, k, ic, host).net)
  {
    var s := net[k].interfaces;
    var m := FindVni(s, ic.vni);
    ConfigureAgain(s[m], ic, net[k].maxMessageSize, host);
    var x := Result(net[k], ic, host);
    assert Base(net[k], ic, host) == s[m];
    assert Place(s, x) == s[m := x];
    assert SameInterfaces(s, s[m := x]);
  }

  lemma ReadyElsewhere(net: Net, k: nat, ic: InterfaceConfig, other: InterfaceConfig, host: Host)
    requires ValidNet(net) && k < |net| && Ready(net[k], other, host) && ic.vni != other.vni
    requires ApplyInterface(net, k, ic, host).ok
    ensures Ready(ApplyInterface(net, k, ic, host).net[k], other, host)
  {
    assert net[k] in net;
    ResultShape(net[k], ic, host);
    PlaceElsewhere(net[k].interfaces, Result(net[k], ic, host), other.vni);
  }

  lemma {:induction false} RepeatInterfaces(net: Net, k: nat, ics: seq<InterfaceConfig>, host: Host)
    requires ValidNet(net) && k < |net| && net[k].permanent && DistinctVnis(ics)
    requires forall ic :: ic in ics ==> Ready(net[k], ic, host)
    ensures ApplyInterfaces(net, k, ics, host).ok
    ensures SameNet(net, ApplyInterfaces(net, k, ics, host).net)
    decreases |ics|
  {
    if ics == [] {
      SameNetItself(net);
    } else {
      var net1 := ApplyInterface(net, k, ics[0], host).net;
      RepeatInterface(net, k, ics[0], host);
      ApplyInterfaceEffect(net, k, ics[0], host);
      forall ic | ic in ics[1..] ensures Ready(net1[k], ic, host) {
        ReadyElsewhere(net, k, ics[0], ic, host);
      }
      RepeatInterfaces(net1, k, ics[1..], host);
      SameNetTransitive(net, net1, ApplyInterfaces(net, k, ics, host).net);
    }
  }

  ghost predicate ReadyAt(net: Net, lc: ListenerConfig, host: Host) {
    HeldAt(net, lc, host) && forall ic :: ic in lc.interfaces ==> Ready(At(net, lc.address).value, ic, host)
  }

  lemma RepeatListener(net: Net, lc: ListenerConfig, host: Host)
    requires ValidNet(net) && DistinctVnis(lc.interfaces) && ReadyAt(net, lc, host)
    ensures ApplyListener(net, lc, host).ok
    ensures SameNet(net, ApplyListener(net, lc, host).net)
  {
    var k := FindListener(net, lc.address);
    AtIsFound(net, lc.address);
    assert EnsureListener(net, lc, host).net == net;
    RepeatInterfaces(net, k, lc.interfaces, host);
  }

  lemma {:induction false} RepeatListeners(net: Net, cfg: Config, host: Host)
    requires ValidNet(net) && Canonical(cfg)
    requires forall lc :: lc in cfg ==> ReadyAt(net, lc, host)
    ensures ApplyListeners(net, cfg, host).ok
    ensures SameNet(net, ApplyListeners(net, cfg, host).net)
    decreases |cfg|
  {
    if cfg == [] {
      SameNetItself(net);
    } else {
      var net1 := ApplyListener(net, cfg[0], host).net;
      RepeatListener(net, cfg[0], host);
      ApplyListenerValid(net, cfg[0], host);
      ApplyListenerEffect(net, cfg[0], host);
      forall lc | lc in cfg[1..] ensures ReadyAt(net1, lc, host) {
        MentionsAppend(cfg[0], [], lc.address);
        assert AppliedAt(net, net1, [cfg[0]], lc.address);
      }
      RepeatListeners(net1, cfg[1..], host);
      SameNetTransitive(net, net1, ApplyListeners(net, cfg, host).net);
    }
  }

  // ---------------------------------------------------------------- pruning what is already configured

  /** Every permanent listener and interface is configured, under the name it has. */
  ghost predicate OnlyConfigured(net: Net, cfg: Config) {
    forall l :: l in net && l.permanent ==>
      && FindConfig(cfg, l.address, l.name).Some?
      && forall i :: i in l.interfaces && i.permanent ==> Configured(FindConfig(cfg, l.address, l.name).value, i)
  }

  lemma {:induction false} PruneNothing(net: Net, cfg: Config)
    requires OnlyConfigured(net, cfg)
    ensures Prune(net, cfg) == net
  {
    if net != [] {
      PruneNothing(net[1..], cfg);
      assert net[0] in net;
      if net[0].permanent {
        FilterIdentity(net[0].interfaces, Stays(FindConfig(cfg, net[0].address, net[0].name).value));
      }
    }
  }

  /** The permanent listeners and interfaces are exactly those configured, as after a successful application. */
  ghost predicate PermanentsAreConfigured(net: Net, cfg: Config) {
    && (forall a: string :: PermanentAt(net, a) <==> Mentions(cfg, a))
    && (forall a: string, v: nat :: PermanentVni(InterfacesAt(net, a), v) <==> MentionsVni(cfg, a, v))
  }

  lemma FindConfigUnique(cfg: Config, lc: ListenerConfig, name: string)
    requires Canonical(cfg) && lc in cfg
    ensures FindConfig(cfg, lc.address, name) == if lc.name == name then Some(lc) else None
  {
    FindConfigSound(cfg, lc.address, name);
  }

  lemma MentionedVni(cfg: Config, lc: ListenerConfig, v: nat)
    requires Canonical(cfg) && lc in cfg
    ensures MentionsVni(cfg, lc.address, v) <==> AsksVni(lc.interfaces, v)
  {
  }

  lemma AgreeingIsConfigured(net: Net, cfg: Config)
    requires ValidNet(net) && Canonical(cfg) && PermanentsAreConfigured(net, cfg) && Agrees(net, cfg)
    ensures OnlyConfigured(net, cfg)
  {
    forall l | l in net && l.permanent
      ensures FindConfig(cfg, l.address, l.name).Some?
      ensures forall i :: i in l.interfaces && i.permanent ==> Configured(FindConfig(cfg, l.address, l.name).value, i)
    {
      AtUnique(net, l);
      assert PermanentAt(net, l.address);
      var lc :| lc in cfg && lc.address == l.address;
      FindConfigUnique(cfg, lc, l.name);
      forall i | i in l.interfaces && i.permanent ensures Configured(lc, i) {
        assert PermanentVni(InterfacesAt(net, l.address), i.vni);
        MentionedVni(cfg, lc, i.vni);
      }
    }
  }

  // ---------------------------------------------------------------- nothing changed, so the condition held

  lemma {:induction false} SameAt(n: Net, m: Net, a: string)
    requires SameNet(n, m)
    ensures At(n, a).Some? <==> At(m, a).Some?
    ensures At(n, a).Some? ==> SameState(At(n, a).value, At(m, a).value)
  {
    if n != [] {
      assert SameState(n[0], m[0]);
      forall k | 0 <= k < |n[1..]| ensures SameState(n[1..][k], m[1..][k]) {
        assert SameState(n[k + 1], m[k + 1]);
      }
      SameAt(n[1..], m[1..], a);
    }
  }

  /** Interfaces that agree position by position agree under every VNI. */
  lemma SameUnderVni(s: seq<InterfaceState>, t: seq<InterfaceState>, i: InterfaceState, x: InterfaceState)
    requires SameInterfaces(s, t) && UniqueVnis(s) && i in s && x in t && i.vni == x.vni
    ensures SameInterface(i, x)
  {
    var m :| 0 <= m < |t| && t[m] == x;
    assert SameInterface(s[m], t[m]);
    var k :| 0 <= k < |s| && s[k] == i;
    assert m == k;
  }

  /** A listener under a name that is not the configured one is pruned, and comes back under the configured name. */
  lemma ListenerNameForced(net: Net, cfg: Config, host: Host, lc: ListenerConfig, l: ListenerState)
    requires ValidNet(net) && Canonical(cfg) && PermanentsAreConfigured(net, cfg)
    requires ApplyConfig(net, cfg, host).ok && SameNet(net, ApplyConfig(net, cfg, host).net)
    requires lc in cfg && l in net && l.address == lc.address
    ensures l.name == lc.name
  {
    var net2 := ApplyConfig(net, cfg, host).net;
    AtUnique(net, l);
    SameAt(net, net2, lc.address);
    PruneValid(net, cfg);
    PruneAt(net, cfg, lc.address);
    ApplyListenersEffect(Prune(net, cfg), cfg, host);
    assert AppliedAt(Prune(net, cfg), net2, cfg, lc.address);
    FindConfigUnique(cfg, lc, l.name);
    assert PermanentAt(net, lc.address);
  }

  lemma AskedIn(cfg: Config, lc: ListenerConfig, ic: InterfaceConfig)
    requires Canonical(cfg) && lc in cfg
    ensures ic in AskedAt(cfg, lc.address) <==> ic in lc.interfaces
    decreases |cfg|
  {
    if lc == cfg[0] {
      NotAsked(cfg[1..], lc.address);
    } else {
      AskedIn(cfg[1..], lc, ic);
    }
  }

  lemma PrunedAway(lc: ListenerConfig, l: ListenerState, i: InterfaceState, ic: InterfaceConfig)
    requires UniqueVnis(l.interfaces) && DistinctVnis(lc.interfaces)
    requires i in l.interfaces && i.permanent && ic in lc.interfaces && i.vni == ic.vni && i.name != ic.name
    ensures forall j :: j in Filter(l.interfaces, Stays(lc)) ==> j.vni != ic.vni
  {
    forall j | j in Filter(l.interfaces, Stays(lc)) ensures j.vni != ic.vni {
      FilterMember(l.interfaces, Stays(lc), j);
      if j.vni == ic.vni {
        FindVniMember(l.interfaces, i);
        FindVniMember(l.interfaces, j);
        assert false;
      }
    }
  }

  /** The same for an interface. */
  lemma InterfaceNameForced(net: Net, cfg: Config, host: Host, lc: ListenerConfig, l: ListenerState, ic: InterfaceConfig, i: InterfaceState)
    requires ValidNet(net) && Canonical(cfg) && PermanentsAreConfigured(net, cfg)
    requires ApplyConfig(net, cfg, host).ok && SameNet(net, ApplyConfig(net, cfg, host).net)
    requires lc in cfg && l in net && l.address == lc.address && l.name == lc.name && l.permanent
    requires ic in lc.interfaces && i in l.interfaces && i.vni == ic.vni && i.permanent
    ensures i.name == ic.name
  {
    var net2, a := ApplyConfig(net, cfg, host).net, lc.address;
    AtUnique(net, l);
    SameAt(net, net2, a);
    PruneValid(net, cfg);
    PruneAt(net, cfg, a);
    ApplyListenersEffect(Prune(net, cfg), cfg, host);
    assert AppliedAt(Prune(net, cfg), net2, cfg, a);
    FindConfigUnique(cfg, lc, l.name);
    var s2 := At(net2, a).value.interfaces;
    var p :| 0 <= p < |l.interfaces| && l.interfaces[p] == i;
    assert SameInterface(l.interfaces[p], s2[p]);
    assert Known(InterfacesAt(Prune(net, cfg), a), AskedAt(cfg, a), s2[p]);
    if i.name != ic.name {
      PrunedAway(lc, l, i, ic);
      var c :| c in AskedAt(cfg, a) && c.vni == i.vni && c.name == i.name;
      AskedIn(cfg, lc, c);
    }
  }

  /** When the registry only has what is configured, every configured interface is configured once more where it is. */
  lemma RoutesForced(net: Net, cfg: Config, host: Host, lc: ListenerConfig, l: ListenerState, ic: InterfaceConfig, i: InterfaceState)
    requires ValidNet(net) && Canonical(cfg) && OnlyConfigured(net, cfg)
    requires ApplyConfig(net, cfg, host).ok && SameNet(net, ApplyConfig(net, cfg, host).net)
    requires lc in cfg && l in net && l.address == lc.address && HeldAt(net, lc, host)
    requires ic in lc.interfaces && i in l.interfaces && i.vni == ic.vni
    ensures Unshadowed(i.routes)
  {
    var net2 := ApplyConfig(net, cfg, host).net;
    PruneNothing(net, cfg);
    AllInstalled(net, cfg, host, lc);
    AtUnique(net, l);
    SameAt(net, net2, lc.address);
    FindVniMember(l.interfaces, i);
    assert HeldIn(l, ic, host);
    ConfigureAgain(i, ic, l.maxMessageSize, host);
    SameUnderVni(l.interfaces, At(net2, lc.address).value.interfaces, i, Result(l, ic, host));
  }

  lemma ChangelessAgreesInNames(net: Net, cfg: Config, host: Host)
    requires ValidNet(net) && Canonical(cfg) && PermanentsAreConfigured(net, cfg)
    requires ApplyConfig(net, cfg, host).ok && SameNet(net, ApplyConfig(net, cfg, host).net)
    ensures OnlyConfigured(net, cfg)
    ensures forall lc, l, ic, i :: lc in cfg && l in net && l.address == lc.address && ic in lc.interfaces && i in l.interfaces && i.vni == ic.vni
              ==> l.name == lc.name && i.name == ic.name
  {
    forall l | l in net && l.permanent
      ensures FindConfig(cfg, l.address, l.name).Some?
      ensures forall i :: i in l.interfaces && i.permanent ==> Configured(FindConfig(cfg, l.address, l.name).value, i)
    {
      AtUnique(net, l);
      assert PermanentAt(net, l.address);
      var lc :| lc in cfg && lc.address == l.address;
      ListenerNameForced(net, cfg, host, lc, l);
      FindConfigUnique(cfg, lc, l.name);
      forall i | i in l.interfaces && i.permanent ensures Configured(lc, i) {
        assert PermanentVni(InterfacesAt(net, l.address), i.vni);
        MentionedVni(cfg, lc, i.vni);
        var ic :| ic in lc.interfaces && ic.vni == i.vni;
        InterfaceNameForced(net, cfg, host, lc, l, ic, i);
      }
    }
    forall lc, l, ic, i | lc in cfg && l in net && l.address == lc.address && ic in lc.interfaces && i in l.interfaces && i.vni == ic.vni
      ensures l.name == lc.name && i.name == ic.name
    {
      PermanentlyThere(net, cfg, lc, l, ic, i);
      ListenerNameForced(net, cfg, host, lc, l);
      InterfaceNameForced(net, cfg, host, lc, l, ic, i);
    }
  }

  lemma PermanentlyThere(net: Net, cfg: Config, lc: ListenerConfig, l: ListenerState, ic: InterfaceConfig, i: InterfaceState)
    requires ValidNet(net) && Canonical(cfg) && PermanentsAreConfigured(net, cfg)
    requires lc in cfg && l in net && l.address == lc.address && ic in lc.interfaces && i in l.interfaces && i.vni == ic.vni
    ensures l.permanent && i.permanent
  {
    AtUnique(net, l);
    assert PermanentAt(net, l.address);
    MentionedVni(cfg, lc, ic.vni);
    assert PermanentVni(InterfacesAt(net, l.address), ic.vni);
    var j :| j in l.interfaces && j.vni == ic.vni && j.permanent;
    FindVniMember(l.interfaces, i);
    FindVniMember(l.interfaces, j);
  }

  // ---------------------------------------------------------------- the theorem

  /** What a successful application leaves, as the second one finds it. */
  lemma AfterFirst(net: Net, cfg: Config, host: Host)
    requires ValidNet(net) && Canonical(cfg) && ApplyConfig(net, cfg, host).ok
    ensures var net1 := ApplyConfig(net, cfg, host).net;
      && ValidNet(net1) && PermanentsAreConfigured(net1, cfg)
      && forall lc :: lc in cfg ==> HeldAt(net1, lc, host)
  {
    var net1 := ApplyConfig(net, cfg, host).net;
    Reconciles(net, cfg, host, "", 0);
    forall a: string ensures PermanentAt(net1, a) <==> Mentions(cfg, a) {
      Reconciles(net, cfg, host, a, 0);
    }
    forall a: string, v: nat ensures PermanentVni(InterfacesAt(net1, a), v) <==> MentionsVni(cfg, a, v) {
      Reconciles(net, cfg, host, a, v);
    }
    PruneValid(net, cfg);
    forall lc | lc in cfg ensures HeldAt(net1, lc, host) {
      AllInstalled(Prune(net, cfg), cfg, host, lc);
      InstalledHeld(Prune(net, cfg), net1, lc, host);
    }
  }

  lemma AgreeingIsFixed(net: Net, cfg: Config, host: Host)
    requires ValidNet(net) && Canonical(cfg) && PermanentsAreConfigured(net, cfg) && Agrees(net, cfg)
    requires forall lc :: lc in cfg ==> HeldAt(net, lc, host)
    ensures ApplyConfig(net, cfg, host).ok && SameNet(net, ApplyConfig(net, cfg, host).net)
  {
    AgreeingIsConfigured(net, cfg);
    PruneNothing(net, cfg);
    forall lc | lc in cfg ensures ReadyAt(net, lc, host) {
      AtMember(net, lc.address);
      var l := At(net, lc.address).value;
      assert InterfacesAgree(l.interfaces, lc.interfaces);
      forall ic | ic in lc.interfaces ensures Ready(l, ic, host) {
        assert HeldIn(l, ic, host);
        assert l.interfaces[FindVni(l.interfaces, ic.vni)] in l.interfaces;
      }
    }
    RepeatListeners(net, cfg, host);
  }

  lemma FixedAgrees(net: Net, cfg: Config, host: Host)
    requires ValidNet(net) && Canonical(cfg) && PermanentsAreConfigured(net, cfg)
    requires forall lc :: lc in cfg ==> HeldAt(net, lc, host)
    requires ApplyConfig(net, cfg, host).ok && SameNet(net, ApplyConfig(net, cfg, host).net)
    ensures Agrees(net, cfg)
  {
    ChangelessAgreesInNames(net, cfg, host);
    forall lc, l | lc in cfg && l in net && l.address == lc.address
      ensures l.name == lc.name && InterfacesAgree(l.interfaces, lc.interfaces)
    {
      ListenerNameForced(net, cfg, host, lc, l);
      forall ic, i | ic in lc.interfaces && i in l.interfaces && i.vni == ic.vni ensures Unshadowed(i.routes) {
        RoutesForced(net, cfg, host, lc, l, ic, i);
      }
    }
  }

  /** Idempotence. From every valid registry and for every canonical configuration that applies, applying it again
      succeeds and changes nothing exactly when, after the first time, every configured listener and interface bears
      its configured name and no transient route on a configured interface is shadowed by a permanent one. */
  lemma AppliesTwiceIff(net: Net, cfg: Config, host: Host)
    requires ValidNet(net) && Canonical(cfg) && ApplyConfig(net, cfg, host).ok
    ensures var net1 := ApplyConfig(net, cfg, host).net;
      var again := ApplyConfig(net1, cfg, host);
      again.ok && SameNet(net1, again.net) <==> Agrees(net1, cfg)
  {
    var net1 := ApplyConfig(net, cfg, host).net;
    var again := ApplyConfig(net1, cfg, host);
    AfterFirst(net, cfg, host);
    if Agrees(net1, cfg) {
      AgreeingIsFixed(net1, cfg, host);
    }
    if again.ok && SameNet(net1, again.net) {
      FixedAgrees(net1, cfg, host);
    }
  }
}
