/** What a configured interface holds once its configuration has been applied: contents, not just presence. */
module Contents {
  import opened Addresses
  import ArpTable
  import Device
  import opened Forwarding
  import opened Idempotence
  import opened Reconcile
  import opened ReconcileProofs
  import opened Registry
  import opened Sequences

  /** The ARP table has the configured entry for every configured address, and no other permanent one. */
  ghost predicate ArpsAsConfigured(t: ArpTable.Table, cs: seq<ArpConfig>) {
    && (forall a :: AskedArp(cs, a).Some? ==> ArpTable.Find(t, a) == AskedArp(cs, a))
    && (forall e :: e in t && e.permanent ==> AskedArp(cs, e.addr) == Some(e))
  }

  /** The MAC table has every configured pair, and no other permanent one. */
  ghost predicate MacsAsConfigured(t: MacTable, cs: seq<MacConfig>) {
    && (forall c :: c in cs ==> HasPair(t, c.mac, c.dst))
    && (forall e :: e in t && e.permanent ==> MacConfig(e.mac, e.dst) in cs)
  }

  function PermanentRoute(): Route -> bool {
    (r: Route) => r.permanent
  }

  /** The routes of a configuration that the kernel takes, with their default metrics, in order. */
  function AcceptedRoutes(cs: seq<RouteConfig>, host: Host): RouteTable {
    if cs == [] then []
    else
      var route := RouteOf(cs[0]).(metric := EffectiveMetric(cs[0].metric));
      (if host.routeOk(route) then [route] else []) + AcceptedRoutes(cs[1..], host)
  }

  /** The device has exactly the configured addresses, unless none are configured. */
  ghost predicate AddressesAsConfigured(i: InterfaceState, want: seq<Prefix>) {
    want != [] ==> i.addresses == want && Distinct(i.kernel) && forall p :: p in i.kernel <==> p in want
  }

  ghost predicate AsConfigured(i: InterfaceState, ic: InterfaceConfig, size: int, host: Host) {
    && i.permanent && i.mac == ic.mac
    && (host.mtuOk(EffectiveMtu(ic.mtu, size)) ==> i.deviceMtu == host.deviceMtu(EffectiveMtu(ic.mtu, size)))
    && AddressesAsConfigured(i, ic.addresses)
    && ArpsAsConfigured(i.arp, ic.arps)
    && MacsAsConfigured(i.macs, ic.macs)
    && Filter(i.routes, PermanentRoute()) == AcceptedRoutes(ic.routes, host)
  }

  // ---------------------------------------------------------------- the tables

  lemma ArpContents(t: ArpTable.Table, cs: seq<ArpConfig>)
    requires ArpTable.Valid(t)
    requires ArpTable.Bindings(AddArps(Filter(t, Not(ArpTable.IsPermanent())), cs)) == ArpTable.Bindings(t)
    ensures ArpsAsConfigured(t, cs)
  {
    var rest := Filter(t, Not(ArpTable.IsPermanent()));
    ArpTable.FilterValid(t, Not(ArpTable.IsPermanent()));
    forall a ensures ArpTable.Find(t, a) == if AskedArp(cs, a).Some? then AskedArp(cs, a) else ArpTable.Find(rest, a) {
      ArpTable.BindingsAt(t, a);
      ArpTable.BindingsAt(AddArps(rest, cs), a);
      AddArpsFinds(rest, cs, a);
    }
    forall e | e in t && e.permanent ensures AskedArp(cs, e.addr) == Some(e) {
      ArpTable.FindMember(t, e);
      ArpTable.FindFiltered(t, Not(ArpTable.IsPermanent()), e.addr);
    }
  }

  lemma {:induction false} AddMacsHas(t: MacTable, cs: seq<MacConfig>, c: MacConfig)
    requires c in cs || HasPair(t, c.mac, c.dst)
    ensures HasPair(AddMacs(t, cs), c.mac, c.dst)
    decreases |cs|
  {
    if cs != [] {
      var t1 := AddMac(t, cs[0].mac, cs[0].dst, true);
      if c == cs[0] && !HasPair(t, c.mac, c.dst) {
        assert SamePair(t1[|t|], c.mac, c.dst);
      } else if HasPair(t, c.mac, c.dst) {
        var i :| 0 <= i < |t| && SamePair(t[i], c.mac, c.dst);
        assert t1[i] == t[i];
      }
      AddMacsHas(t1, cs[1..], c);
    }
  }

  lemma {:induction false} AddMacsFrom(t: MacTable, cs: seq<MacConfig>, e: MacEntry)
    requires e in AddMacs(t, cs)
    ensures e in t || MacConfig(e.mac, e.dst) in cs
    decreases |cs|
  {
    if cs != [] {
      AddMacsFrom(AddMac(t, cs[0].mac, cs[0].dst, true), cs[1..], e);
      assert cs[0] in cs;
    }
  }

  lemma MacContents(t: MacTable, cs: seq<MacConfig>)
    requires AddMacs(Filter(t, Not(PermanentMac())), cs) == t
    ensures MacsAsConfigured(t, cs)
  {
    forall c | c in cs ensures HasPair(t, c.mac, c.dst) {
      AddMacsHas(Filter(t, Not(PermanentMac())), cs, c);
    }
    forall e | e in t && e.permanent ensures MacConfig(e.mac, e.dst) in cs {
      AddMacsFrom(Filter(t, Not(PermanentMac())), cs, e);
      FilterMember(t, Not(PermanentMac()), e);
    }
  }

  lemma {:induction false} AddRoutesPermanent(t: RouteTable, cs: seq<RouteConfig>, host: Host)
    ensures Filter(AddRoutes(t, cs, host), PermanentRoute()) == Filter(t, PermanentRoute()) + AcceptedRoutes(cs, host)
    decreases |cs|
  {
    if cs != [] {
      var route := RouteOf(cs[0]).(metric := EffectiveMetric(cs[0].metric));
      var head := if host.routeOk(route) then [route] else [];
      assert AddRoute(t, RouteOf(cs[0]), host) == t + head;
      AddRoutesPermanent(t + head, cs[1..], host);
      FilterAppend(t, head, PermanentRoute());
      Regroup(Filter(t, PermanentRoute()), head, AcceptedRoutes(cs[1..], host));
    }
  }

  lemma RouteContents(t: RouteTable, cs: seq<RouteConfig>, host: Host)
    requires AddRoutes(Filter(t, TransientRoute()), cs, host) == t
    ensures Filter(t, PermanentRoute()) == AcceptedRoutes(cs, host)
  {
    var rest := Filter(t, TransientRoute());
    AddRoutesPermanent(rest, cs, host);
    FilterMembers(t, TransientRoute());
    FilterNone(rest, PermanentRoute());
  }

  lemma AddressContents(i: InterfaceState, want: seq<Prefix>, host: Host)
    requires Distinct(i.kernel) && (want != [] ==> SetAddresses(i, want, host) == (true, i))
    ensures AddressesAsConfigured(i, want)
  {
    if want != [] {
      Device.SetAddressesSucceedsIff(i.kernel, want, host.netlinkBudget(i.name));
      Device.ReaddressedIsRequested(i.kernel, want);
    }
  }

  lemma HeldIsConfigured(i: InterfaceState, ic: InterfaceConfig, size: int, host: Host)
    requires ValidInterface(i) && Holds(i, ic, size, host)
    ensures AsConfigured(i, ic, size, host)
  {
    AddressContents(i, ic.addresses, host);
    ArpContents(i.arp, ic.arps);
    MacContents(i.macs, ic.macs);
    RouteContents(i.routes, ic.routes, host);
  }

  // ---------------------------------------------------------------- where code and intent part

  /** A pair added to a table is permanent in it exactly when it was already, or is asked for and was not there. */
  lemma {:induction false} AddMacsEntry(t: MacTable, cs: seq<MacConfig>, c: MacConfig)
    ensures MacEntry(c.mac, c.dst, true) in AddMacs(t, cs) <==>
            MacEntry(c.mac, c.dst, true) in t || (c in cs && !HasPair(t, c.mac, c.dst))
    decreases |cs|
  {
    if cs != [] {
      var d := cs[0];
      var t1 := AddMac(t, d.mac, d.dst, true);
      AddMacsEntry(t1, cs[1..], c);
      AddedPair(t, d, c);
    }
  }

  lemma AddedPair(t: MacTable, d: MacConfig, c: MacConfig)
    ensures HasPair(AddMac(t, d.mac, d.dst, true), c.mac, c.dst) <==> HasPair(t, c.mac, c.dst) || c == d
    ensures MacEntry(c.mac, c.dst, true) in AddMac(t, d.mac, d.dst, true) <==>
            MacEntry(c.mac, c.dst, true) in t || (c == d && !HasPair(t, c.mac, c.dst))
  {
    var t1 := AddMac(t, d.mac, d.dst, true);
    if HasPair(t, c.mac, c.dst) {
      var i :| 0 <= i < |t| && SamePair(t[i], c.mac, c.dst);
      assert t1[i] == t[i];
    }
    if c == d && !HasPair(t, c.mac, c.dst) {
      assert t1[|t|] == MacEntry(c.mac, c.dst, true) && SamePair(t1[|t|], c.mac, c.dst);
    }
  }

  /** A configured pair is permanent after configuring exactly when no transient entry for it was there: then adding it is
      an error, which is dropped, and the entry stays as it was. */
  lemma PairIsPermanentIff(b: InterfaceState, ic: InterfaceConfig, host: Host, c: MacConfig)
    requires Configure(b, ic, host).0 && c in ic.macs
    ensures MacEntry(c.mac, c.dst, true) in Configure(b, ic, host).1.macs <==> MacEntry(c.mac, c.dst, false) !in b.macs
  {
    var rest := Filter(b.macs, Not(PermanentMac()));
    AddMacsEntry(rest, ic.macs, c);
    FilterMember(b.macs, Not(PermanentMac()), MacEntry(c.mac, c.dst, true));
    FilterMember(b.macs, Not(PermanentMac()), MacEntry(c.mac, c.dst, false));
    if HasPair(rest, c.mac, c.dst) {
      var i :| 0 <= i < |rest| && SamePair(rest[i], c.mac, c.dst);
      FilterMember(b.macs, Not(PermanentMac()), rest[i]);
      assert rest[i] == MacEntry(c.mac, c.dst, false);
    }
    if MacEntry(c.mac, c.dst, false) in rest {
      var i :| 0 <= i < |rest| && rest[i] == MacEntry(c.mac, c.dst, false);
      assert SamePair(rest[i], c.mac, c.dst);
    }
  }

  /** The device lists exactly these addresses. */
  ghost predicate Lists(i: InterfaceState, want: seq<Prefix>) {
    forall p :: p in i.kernel <==> p in want
  }

  /** The device has exactly the configured addresses after configuring exactly when some are configured, or it had none:
      an empty list clears nothing. */
  lemma AddressesTakeHoldIff(b: InterfaceState, ic: InterfaceConfig, host: Host)
    requires Distinct(b.kernel) && Configure(b, ic, host).0
    ensures Lists(Configure(b, ic, host).1, ic.addresses) <==> ic.addresses != [] || b.kernel == []
  {
    if ic.addresses == [] {
      assert b.kernel != [] ==> b.kernel[0] in b.kernel;
    } else {
      Device.SetAddressesSucceedsIff(b.kernel, ic.addresses, host.netlinkBudget(b.name));
      Device.ReaddressedIsRequested(b.kernel, ic.addresses);
    }
  }

  // ---------------------------------------------------------------- the theorem

  /** The interface that stands at an address under a VNI when the removals are done. */
  function Before(net: Net, cfg: Config, a: string, v: nat): Option<InterfaceState> {
    var s := InterfacesAt(Prune(net, cfg), a);
    var k := FindVni(s, v);
    if k < |s| then Some(s[k]) else None
  }

  /** The pairs that end up permanent: all configured ones without a transient entry before. */
  ghost predicate PairsTakeHold(before: Option<InterfaceState>, i: InterfaceState, cs: seq<MacConfig>) {
    forall c :: c in cs ==>
      (MacEntry(c.mac, c.dst, true) in i.macs <==> before.None? || MacEntry(c.mac, c.dst, false) !in before.value.macs)
  }

  ghost predicate AddressesTakeHold(before: Option<InterfaceState>, i: InterfaceState, want: seq<Prefix>) {
    Lists(i, want) <==> want != [] || before.None? || before.value.kernel == []
  }

  /** The interface that configuring started from, before its permanence and MTU were set. */
  lemma BaseTables(net: Net, cfg: Config, lc: ListenerConfig, ic: InterfaceConfig, host: Host)
    requires ValidNet(net)
    ensures var b, before := Base(Ensured(Prune(net, cfg), lc), ic, host), Before(net, cfg, lc.address, ic.vni);
      && (before.Some? ==> b.macs == before.value.macs && b.kernel == before.value.kernel)
      && (before.None? ==> b.macs == [] && b.kernel == [])
      && Distinct(b.kernel)
  {
    var p := Prune(net, cfg);
    PruneValid(net, cfg);
    AtMember(p, lc.address);
    var s := InterfacesAt(p, lc.address);
    assert Ensured(p, lc).interfaces == s;
    var k := FindVni(s, ic.vni);
    if k < |s| {
      assert s[k] in s;
    }
  }

  /** A configuration takes hold. After a successful application of a canonical configuration to any valid registry,
      every configured interface is there, on its listener and under its VNI, with the configured hardware address,
      MTU, addresses and entries, and with no other permanent entries. A configured pair is permanent exactly when the
      interface had no transient entry for it, and the device has exactly the configured addresses exactly when there
      are some or it had none. */
  lemma ConfigurationTakesHold(net: Net, cfg: Config, host: Host, lc: ListenerConfig, ic: InterfaceConfig)
    requires ValidNet(net) && Canonical(cfg) && ApplyConfig(net, cfg, host).ok
    requires lc in cfg && ic in lc.interfaces
    ensures var l, before := At(ApplyConfig(net, cfg, host).net, lc.address), Before(net, cfg, lc.address, ic.vni);
      && l.Some?
      && exists i :: i in l.value.interfaces && i.vni == ic.vni && AsConfigured(i, ic, l.value.maxMessageSize, host)
                  && PairsTakeHold(before, i, ic.macs) && AddressesTakeHold(before, i, ic.addresses)
  {
    var net1, p := ApplyConfig(net, cfg, host).net, Prune(net, cfg);
    AfterFirst(net, cfg, host);
    assert HeldAt(net1, lc, host);
    AtMember(net1, lc.address);
    var l := At(net1, lc.address).value;
    PruneValid(net, cfg);
    AllInstalled(p, cfg, host, lc);
    var b := Base(Ensured(p, lc), ic, host);
    var i := Configure(b, ic, host).1;
    assert Placed(Ensured(p, lc), l.interfaces, ic, host) && i in l.interfaces && l in net1;
    EnsuredIsValid(p, lc);
    ResultShape(Ensured(p, lc), ic, host);
    FindVniMember(l.interfaces, i);
    assert HeldIn(l, ic, host);
    HeldIsConfigured(i, ic, l.maxMessageSize, host);
    BaseTables(net, cfg, lc, ic, host);
    forall c | c in ic.macs
      ensures MacEntry(c.mac, c.dst, true) in i.macs <==> MacEntry(c.mac, c.dst, false) !in b.macs
    {
      PairIsPermanentIff(b, ic, host, c);
    }
    AddressesTakeHoldIff(b, ic, host);
  }

  // ---------------------------------------------------------------- the listeners' sizes

  /** The listener at the configured address that the removals leave: a transient one, or one of the configured name. */
  function Survivor(net: Net, lc: ListenerConfig): Option<ListenerState> {
    var l := At(net, lc.address);
    if l.Some? && (!l.value.permanent || l.value.name == lc.name) then l else None
  }

  lemma SurvivorIsPruned(net: Net, cfg: Config, lc: ListenerConfig)
    requires ValidNet(net) && Canonical(cfg) && lc in cfg
    ensures var l, p := Survivor(net, lc), At(Prune(net, cfg), lc.address);
      && (p.Some? <==> l.Some?)
      && (p.Some? ==> p.value.maxMessageSize == l.value.maxMessageSize && p.value.name == l.value.name)
  {
    PruneAt(net, cfg, lc.address);
    AtMember(net, lc.address);
    if At(net, lc.address).Some? {
      var l := At(net, lc.address).value;
      FindConfigSound(cfg, l.address, l.name);
      FindConfigUnique(cfg, lc, l.name);
    }
  }

  /** A configured size takes hold. After a successful application of a canonical configuration to any valid registry,
      every configured listener is there and permanent, and its largest message is as configured, unless that is one
      byte or less and a listener was kept: then that one's is unchanged. A listener that was kept has its old name. */
  lemma SizesTakeHold(net: Net, cfg: Config, host: Host, lc: ListenerConfig)
    requires ValidNet(net) && Canonical(cfg) && ApplyConfig(net, cfg, host).ok && lc in cfg
    ensures var kept, l := Survivor(net, lc), At(ApplyConfig(net, cfg, host).net, lc.address);
      && l.Some? && l.value.permanent
      && l.value.maxMessageSize == (if lc.maxMessageSize > 1 || kept.None? then lc.maxMessageSize else kept.value.maxMessageSize)
      && l.value.name == (if kept.None? then lc.name else kept.value.name)
  {
    PruneValid(net, cfg);
    AllInstalled(Prune(net, cfg), cfg, host, lc);
    SurvivorIsPruned(net, cfg, lc);
  }
}
