/** Saving after applying gives the configuration back, order included; and a registry saved, restarted from what was
    saved and saved again saves the same. */
module SaveRoundTrip {
  import opened Addresses
  import ArpTable
  import Device
  import opened Forwarding
  import opened Reconcile
  import opened Registry
  import opened Sequences

  // ---------------------------------------------------------------- canonical configurations

  ghost predicate DistinctArps(cs: seq<ArpConfig>) {
    && (forall i, j :: 0 <= i < j < |cs| ==> cs[i].addr != cs[j].addr)
    && (forall c :: c in cs ==> |c.mac| == 6)
  }

  /** No listed interface repeats a table key or an address, leaves its metrics to the default or its MTU to the
      listener. */
  ghost predicate CanonicalInterface(ic: InterfaceConfig) {
    && DistinctArps(ic.arps)
    && Distinct(ic.macs)
    && Distinct(ic.addresses)
    && (forall c :: c in ic.routes ==> c.metric != 0)
    && ic.mtu > 1
  }

  ghost predicate CanonicalInterfaces(ics: seq<InterfaceConfig>) {
    && (forall i, j :: 0 <= i < j < |ics| ==> ics[i].vni != ics[j].vni && ics[i].name != ics[j].name)
    && (forall ic :: ic in ics ==> CanonicalInterface(ic))
  }

  ghost predicate NamesApart(lc: ListenerConfig, m: ListenerConfig) {
    forall i, j :: i in lc.interfaces && j in m.interfaces ==> i.name != j.name
  }

  ghost predicate ListenersApart(lc: ListenerConfig, m: ListenerConfig) {
    lc.address != m.address && lc.name != m.name && NamesApart(lc, m)
  }

  ghost predicate CanonicalConfig(cfg: Config) {
    && (forall i, j :: 0 <= i < j < |cfg| ==> ListenersApart(cfg[i], cfg[j]))
    && (forall lc :: lc in cfg ==> CanonicalInterfaces(lc.interfaces))
  }

  /** A machine on which what the configuration asks for can be had: sockets, devices, routes, the MTU asked for, and
      enough netlink calls for the addresses. */
  ghost predicate ProvidesInterface(host: Host, ic: InterfaceConfig) {
    && ic.name !in host.taken && host.canCreate(ic.name)
    && host.deviceMtu(ic.mtu) == ic.mtu
    && |ic.addresses| <= host.netlinkBudget(ic.name)
    && (forall c :: c in ic.routes ==> host.routeOk(RouteOf(c)))
  }

  ghost predicate ProvidesListener(host: Host, lc: ListenerConfig) {
    host.canBind(lc.address) && forall ic :: ic in lc.interfaces ==> ProvidesInterface(host, ic)
  }

  ghost predicate Provides(host: Host, cfg: Config) {
    forall lc :: lc in cfg ==> ProvidesListener(host, lc)
  }

  // ---------------------------------------------------------------- what is built

  function BuiltArps(cs: seq<ArpConfig>): ArpTable.Table {
    if cs == [] then [] else [ArpTable.ArpEntry(cs[0].addr, cs[0].mac, None, true, false)] + BuiltArps(cs[1..])
  }

  function BuiltMacs(cs: seq<MacConfig>): MacTable {
    if cs == [] then [] else [MacEntry(cs[0].mac, cs[0].dst, true)] + BuiltMacs(cs[1..])
  }

  function BuiltRoutes(cs: seq<RouteConfig>): RouteTable {
    if cs == [] then [] else [RouteOf(cs[0])] + BuiltRoutes(cs[1..])
  }

  function BuiltInterface(ic: InterfaceConfig): InterfaceState {
    InterfaceState(ic.name, ic.vni, true, ic.mtu, ic.mtu, ic.mac, ic.addresses, ic.addresses,
                   BuiltArps(ic.arps), BuiltMacs(ic.macs), BuiltRoutes(ic.routes))
  }

  function BuiltInterfaces(ics: seq<InterfaceConfig>): seq<InterfaceState> {
    if ics == [] then [] else [BuiltInterface(ics[0])] + BuiltInterfaces(ics[1..])
  }

  function BuiltListener(lc: ListenerConfig): ListenerState {
    ListenerState(lc.name, lc.address, true, lc.maxMessageSize, BuiltInterfaces(lc.interfaces))
  }

  function Built(cfg: Config): Net {
    if cfg == [] then []
    else [BuiltListener(cfg[0])] + Built(cfg[1..])
  }

  // ---------------------------------------------------------------- the tables

  ghost predicate NewTo(t: ArpTable.Table, a: Addr) {
    forall e :: e in t ==> e.addr != a
  }

  /** A static entry for an address the table does not have goes to the end. */
  lemma AddNewArp(t: ArpTable.Table, a: Addr, mac: Mac)
    requires |mac| == 6 && NewTo(t, a)
    ensures ArpTable.AddStatic(t, a, mac, true) == t + [ArpTable.ArpEntry(a, mac, None, true, false)]
  {
    ArpTable.FindIsMember(t, a);
    FilterIdentity(t, ArpTable.Elsewhere(a));
  }

  lemma StillNew(t: ArpTable.Table, e: ArpTable.ArpEntry, a: Addr)
    requires NewTo(t, a) && e.addr != a
    ensures NewTo(t + [e], a)
  {
  }

  lemma {:induction false} AddArpsBuilds(t: ArpTable.Table, cs: seq<ArpConfig>)
    requires DistinctArps(cs)
    requires forall c :: c in cs ==> NewTo(t, c.addr)
    ensures AddArps(t, cs) == t + BuiltArps(cs)
    decreases |cs|
  {
    if cs != [] {
      var c, rest := cs[0], cs[1..];
      var e := ArpTable.ArpEntry(c.addr, c.mac, None, true, false);
      AddNewArp(t, c.addr, c.mac);
      forall d | d in rest ensures NewTo(t + [e], d.addr) {
        StillNew(t, e, d.addr);
      }
      AddArpsBuilds(t + [e], rest);
      Regroup(t, [e], BuiltArps(rest));
    }
  }

  lemma AddNewMac(t: MacTable, c: MacConfig, d: MacConfig)
    requires !HasPair(t, d.mac, d.dst) && c != d
    ensures !HasPair(t + [MacEntry(c.mac, c.dst, true)], d.mac, d.dst)
  {
    var t1 := t + [MacEntry(c.mac, c.dst, true)];
    forall i | 0 <= i < |t1| ensures !SamePair(t1[i], d.mac, d.dst) {
      assert i < |t| ==> t1[i] == t[i];
    }
  }

  lemma BuiltMacsCons(t: MacTable, cs: seq<MacConfig>)
    requires cs != []
    ensures t + [MacEntry(cs[0].mac, cs[0].dst, true)] + BuiltMacs(cs[1..]) == t + BuiltMacs(cs)
  {
    Regroup(t, [MacEntry(cs[0].mac, cs[0].dst, true)], BuiltMacs(cs[1..]));
  }

  lemma {:induction false} AddMacsBuilds(t: MacTable, cs: seq<MacConfig>)
    requires Distinct(cs)
    requires forall c :: c in cs ==> !HasPair(t, c.mac, c.dst)
    ensures AddMacs(t, cs) == t + BuiltMacs(cs)
    decreases |cs|
  {
    if cs != [] {
      var t1 := t + [MacEntry(cs[0].mac, cs[0].dst, true)];
      forall d | d in cs[1..] ensures !HasPair(t1, d.mac, d.dst) {
        AddNewMac(t, cs[0], d);
      }
      AddMacsBuilds(t1, cs[1..]);
      BuiltMacsCons(t, cs);
    }
  }

  lemma {:induction false} AddRoutesBuilds(t: RouteTable, cs: seq<RouteConfig>, host: Host)
    requires forall c :: c in cs ==> c.metric != 0 && host.routeOk(RouteOf(c))
    ensures AddRoutes(t, cs, host) == t + BuiltRoutes(cs)
    decreases |cs|
  {
    if cs != [] {
      assert AddRoute(t, RouteOf(cs[0]), host) == t + [RouteOf(cs[0])];
      AddRoutesBuilds(t + [RouteOf(cs[0])], cs[1..], host);
      Regroup(t, [RouteOf(cs[0])], BuiltRoutes(cs[1..]));
    }
  }

  lemma AddressesBuild(want: seq<Prefix>, budget: nat)
    requires Distinct(want) && |want| <= budget
    ensures Device.SetAddresses([], want, budget).ok && Device.SetAddresses([], want, budget).addresses == want
  {
    var kernel: seq<Prefix> := [];
    FilterIdentity(want, Device.NotIn(kernel));
    Device.SetAddressesSucceedsIff(kernel, want, budget);
    assert Device.Readdressed(kernel, want) == [] + want;
  }

  lemma ConfigureBuilds(ic: InterfaceConfig, size: int, host: Host)
    requires CanonicalInterface(ic) && ProvidesInterface(host, ic)
    ensures Configure(FreshInterface(ic.name, ic.vni, ic.mtu, size, true, host), ic, host) == (true, BuiltInterface(ic))
  {
    AddArpsBuilds([], ic.arps);
    AddMacsBuilds([], ic.macs);
    AddRoutesBuilds([], ic.routes, host);
    assert [] + BuiltArps(ic.arps) == BuiltArps(ic.arps);
    assert [] + BuiltMacs(ic.macs) == BuiltMacs(ic.macs);
    assert [] + BuiltRoutes(ic.routes) == BuiltRoutes(ic.routes);
    if ic.addresses != [] {
      AddressesBuild(ic.addresses, host.netlinkBudget(ic.name));
    }
  }

  // ---------------------------------------------------------------- the registry

  /** The registry with more interfaces on listener k. */
  function Extended(net: Net, k: nat, more: seq<InterfaceState>): Net
    requires k < |net|
  {
    WithInterfaces(net, k, net[k].interfaces + more)
  }

  lemma ExtendedTwice(net: Net, k: nat, i: InterfaceState, more: seq<InterfaceState>)
    requires k < |net|
    ensures Extended(Extended(net, k, [i]), k, more) == Extended(net, k, [i] + more)
  {
    assert net[k].interfaces + [i] + more == net[k].interfaces + ([i] + more);
  }

  lemma ExtendedByNothing(net: Net, k: nat)
    requires k < |net|
    ensures Extended(net, k, []) == net
  {
    assert net[k].interfaces + [] == net[k].interfaces;
  }

  /** Neither the VNI on the listener nor the name on the machine is in use. */
  ghost predicate Available(net: Net, k: nat, ic: InterfaceConfig, host: Host)
    requires k < |net|
  {
    !HasVni(net[k].interfaces, ic.vni) && !NameTaken(net, ic.name, host)
  }

  lemma FindVniNone(s: seq<InterfaceState>, v: nat)
    requires !HasVni(s, v)
    ensures FindVni(s, v) == |s|
  {
  }

  lemma ApplyInterfaceBuilds(net: Net, k: nat, ic: InterfaceConfig, host: Host)
    requires k < |net| && net[k].permanent && Available(net, k, ic, host)
    requires CanonicalInterface(ic) && ProvidesInterface(host, ic)
    ensures ApplyInterface(net, k, ic, host) == Outcome(true, Extended(net, k, [BuiltInterface(ic)]))
  {
    FindVniNone(net[k].interfaces, ic.vni);
    ConfigureBuilds(ic, net[k].maxMessageSize, host);
  }

  lemma StillAvailable(net: Net, k: nat, ic: InterfaceConfig, other: InterfaceConfig, host: Host)
    requires k < |net| && Available(net, k, other, host) && ic.vni != other.vni && ic.name != other.name
    ensures Available(Extended(net, k, [BuiltInterface(ic)]), k, other, host)
  {
    var net1 := Extended(net, k, [BuiltInterface(ic)]);
    forall l, i | l in net1 && i in l.interfaces ensures i.name != other.name {
      assert net[k] in net;
      if l !in net {
        assert l == net1[k];
        assert i in net[k].interfaces || i == BuiltInterface(ic);
      }
    }
  }

  lemma {:induction false} ApplyInterfacesBuild(net: Net, k: nat, ics: seq<InterfaceConfig>, host: Host)
    requires k < |net| && net[k].permanent && CanonicalInterfaces(ics)
    requires forall ic :: ic in ics ==> Available(net, k, ic, host) && ProvidesInterface(host, ic)
    ensures ApplyInterfaces(net, k, ics, host) == Outcome(true, Extended(net, k, BuiltInterfaces(ics)))
    decreases |ics|
  {
    if ics == [] {
      ExtendedByNothing(net, k);
    } else {
      var ic, rest := ics[0], ics[1..];
      var net1 := Extended(net, k, [BuiltInterface(ic)]);
      assert CanonicalInterface(ic) && Available(net, k, ic, host) && ProvidesInterface(host, ic) by {
        assert ic in ics;
      }
      ApplyInterfaceBuilds(net, k, ic, host);
      forall other | other in rest ensures Available(net1, k, other, host) && ProvidesInterface(host, other) {
        assert other in ics;
        StillAvailable(net, k, ic, other, host);
      }
      ApplyInterfacesBuild(net1, k, rest, host);
      ExtendedTwice(net, k, BuiltInterface(ic), BuiltInterfaces(rest));
    }
  }

  /** The configuration meets nothing of what is there. */
  ghost predicate Apart(net: Net, lc: ListenerConfig, host: Host) {
    && !ListenerClash(net, lc.name, lc.address)
    && forall ic :: ic in lc.interfaces ==> !NameTaken(net, ic.name, host)
  }

  lemma ApplyListenerBuilds(net: Net, lc: ListenerConfig, host: Host)
    requires CanonicalInterfaces(lc.interfaces) && Apart(net, lc, host) && ProvidesListener(host, lc)
    ensures ApplyListener(net, lc, host) == Outcome(true, net + [BuiltListener(lc)])
  {
    var k := FindListener(net, lc.address);
    var empty := ListenerState(lc.name, lc.address, true, lc.maxMessageSize, []);
    var net1 := net + [empty];
    assert EnsureListener(net, lc, host) == Outcome(true, net1);
    forall ic | ic in lc.interfaces ensures Available(net1, k, ic, host) {
      forall l, i | l in net1 && i in l.interfaces ensures i.name != ic.name {
        assert l in net || l == empty;
      }
    }
    ApplyInterfacesBuild(net1, k, lc.interfaces, host);
    assert [] + BuiltInterfaces(lc.interfaces) == BuiltInterfaces(lc.interfaces);
    assert net1[k := BuiltListener(lc)] == net + [BuiltListener(lc)];
  }

  lemma {:induction false} BuiltNames(ics: seq<InterfaceConfig>, i: InterfaceState)
    requires i in BuiltInterfaces(ics)
    ensures exists ic :: ic in ics && ic.name == i.name && ic.vni == i.vni
  {
    if i == BuiltInterface(ics[0]) {
      assert ics[0] in ics;
    } else {
      BuiltNames(ics[1..], i);
      var ic :| ic in ics[1..] && ic.name == i.name && ic.vni == i.vni;
      assert ic in ics;
    }
  }

  lemma StillApart(net: Net, lc: ListenerConfig, other: ListenerConfig, host: Host)
    requires Apart(net, other, host) && ListenersApart(lc, other)
    ensures Apart(net + [BuiltListener(lc)], other, host)
  {
    var net1 := net + [BuiltListener(lc)];
    forall l | l in net1 ensures l.address != other.address && l.name != other.name {
      assert l in net || l == BuiltListener(lc);
    }
    forall ic, l, i | ic in other.interfaces && l in net1 && i in l.interfaces ensures i.name != ic.name {
      if l in net {
        assert !NameTaken(net, ic.name, host);
      } else {
        BuiltNames(lc.interfaces, i);
      }
    }
  }

  lemma CanonicalTail(cfg: Config)
    requires CanonicalConfig(cfg) && cfg != []
    ensures CanonicalConfig(cfg[1..]) && CanonicalInterfaces(cfg[0].interfaces)
    ensures forall other :: other in cfg[1..] ==> ListenersApart(cfg[0], other)
  {
  }

  lemma ApplyFirst(net: Net, cfg: Config, host: Host)
    requires cfg != [] && ApplyListener(net, cfg[0], host).ok
    ensures ApplyListeners(net, cfg, host) == ApplyListeners(ApplyListener(net, cfg[0], host).net, cfg[1..], host)
  {
  }

  lemma BuiltCons(net: Net, cfg: Config)
    requires cfg != []
    ensures net + [BuiltListener(cfg[0])] + Built(cfg[1..]) == net + Built(cfg)
  {
    Regroup(net, [BuiltListener(cfg[0])], Built(cfg[1..]));
  }

  lemma RestStillApart(net: Net, cfg: Config, host: Host)
    requires CanonicalConfig(cfg) && cfg != [] && forall lc :: lc in cfg ==> Apart(net, lc, host)
    ensures forall lc :: lc in cfg[1..] ==> Apart(net + [BuiltListener(cfg[0])], lc, host)
  {
    CanonicalTail(cfg);
    forall lc | lc in cfg[1..] ensures Apart(net + [BuiltListener(cfg[0])], lc, host) {
      StillApart(net, cfg[0], lc, host);
    }
  }

  lemma {:induction false} ApplyListenersBuild(net: Net, cfg: Config, host: Host)
    requires CanonicalConfig(cfg) && Provides(host, cfg)
    requires forall lc :: lc in cfg ==> Apart(net, lc, host)
    ensures ApplyListeners(net, cfg, host) == Outcome(true, net + Built(cfg))
    decreases |cfg|
  {
    if cfg == [] {
      assert net + [] == net;
    } else {
      var lc, rest := cfg[0], cfg[1..];
      CanonicalTail(cfg);
      ApplyListenerBuilds(net, lc, host);
      ApplyFirst(net, cfg, host);
      RestStillApart(net, cfg, host);
      ApplyListenersBuild(net + [BuiltListener(lc)], rest, host);
      BuiltCons(net, cfg);
    }
  }

  // ---------------------------------------------------------------- saving what was built

  lemma {:induction false} SaveArpsBuilt(cs: seq<ArpConfig>)
    ensures SaveArps(BuiltArps(cs)) == cs
  {
    if cs != [] {
      SaveArpsBuilt(cs[1..]);
    }
  }

  lemma {:induction false} SaveMacsBuilt(cs: seq<MacConfig>)
    ensures SaveMacs(BuiltMacs(cs)) == cs
  {
    if cs != [] {
      SaveMacsBuilt(cs[1..]);
    }
  }

  lemma {:induction false} SaveRoutesBuilt(cs: seq<RouteConfig>)
    ensures SaveRoutes(BuiltRoutes(cs)) == cs
  {
    if cs != [] {
      SaveRoutesBuilt(cs[1..]);
    }
  }

  lemma {:induction false} SaveInterfacesBuilt(ics: seq<InterfaceConfig>)
    ensures SaveInterfaces(BuiltInterfaces(ics)) == ics
  {
    if ics != [] {
      SaveArpsBuilt(ics[0].arps);
      SaveMacsBuilt(ics[0].macs);
      SaveRoutesBuilt(ics[0].routes);
      assert SaveInterface(BuiltInterface(ics[0])) == ics[0];
      SaveInterfacesBuilt(ics[1..]);
    }
  }

  lemma {:induction false} SaveBuilt(cfg: Config)
    ensures SaveConfig(Built(cfg)) == cfg
  {
    if cfg != [] {
      SaveInterfacesBuilt(cfg[0].interfaces);
      SaveBuilt(cfg[1..]);
    }
  }

  lemma {:induction false} SaveTransient(net: Net, more: Net)
    requires forall l :: l in net ==> !l.permanent
    ensures SaveConfig(net + more) == SaveConfig(more)
  {
    if net == [] {
      assert net + more == more;
    } else {
      assert (net + more)[1..] == net[1..] + more;
      SaveTransient(net[1..], more);
    }
  }

  lemma {:induction false} PruneTransient(net: Net, cfg: Config)
    requires forall l :: l in net ==> !l.permanent
    ensures Prune(net, cfg) == net
  {
    if net != [] {
      assert net[0] in net;
      PruneTransient(net[1..], cfg);
    }
  }

  /** Save after apply. Applying a canonical configuration where nothing is permanent yet, and nothing in the way,
      succeeds, and saving then gives that very configuration. */
  lemma SaveAfterApply(net: Net, cfg: Config, host: Host)
    requires forall l :: l in net ==> !l.permanent
    requires CanonicalConfig(cfg) && Provides(host, cfg)
    requires forall lc :: lc in cfg ==> Apart(net, lc, host)
    ensures ApplyConfig(net, cfg, host).ok
    ensures SaveConfig(ApplyConfig(net, cfg, host).net) == cfg
  {
    PruneTransient(net, cfg);
    ApplyListenersBuild(net, cfg, host);
    SaveTransient(net, Built(cfg));
    SaveBuilt(cfg);
  }

  /** From the empty registry of a program just started there is never anything in the way. */
  lemma SaveAfterStart(cfg: Config, host: Host)
    requires CanonicalConfig(cfg) && Provides(host, cfg)
    ensures ApplyConfig([], cfg, host).ok
    ensures SaveConfig(ApplyConfig([], cfg, host).net) == cfg
  {
    forall lc | lc in cfg ensures Apart([], lc, host) {
      forall ic | ic in lc.interfaces ensures !NameTaken([], ic.name, host) {
        assert ProvidesInterface(host, ic);
      }
    }
    SaveAfterApply([], cfg, host);
  }

  // ---------------------------------------------------------------- restarting from what was saved

  ghost predicate SavableInterface(i: InterfaceState) {
    i.permanent ==> i.mtu > 1 && forall r :: r in i.routes && r.permanent ==> r.metric != 0
  }

  /** Device names are unique on the machine, and what is permanent has an MTU and metrics that do not stand for a
      default. */
  ghost predicate Savable(net: Net) {
    && (forall l, i :: l in net && i in l.interfaces ==> SavableInterface(i))
    && (forall l :: l in net ==> NamesDiffer(l.interfaces))
    && (forall k, m :: 0 <= k < m < |net| ==> InterfaceNamesApart(net[k], net[m]))
  }

  lemma {:induction false} SavedArps(t: ArpTable.Table)
    requires ArpTable.Valid(t)
    ensures DistinctArps(SaveArps(t))
    ensures forall c :: c in SaveArps(t) ==> exists e :: e in t && e.addr == c.addr
  {
    if t != [] {
      SavedArps(t[1..]);
      assert t[0] in t;
    }
  }

  lemma {:induction false} SavedMacs(t: MacTable)
    requires UniquePairs(t)
    ensures Distinct(SaveMacs(t))
    ensures forall c :: c in SaveMacs(t) ==> HasPair(t, c.mac, c.dst)
  {
    if t != [] {
      SavedMacs(t[1..]);
      forall c | c in SaveMacs(t[1..]) ensures HasPair(t, c.mac, c.dst) && c != MacConfig(t[0].mac, t[0].dst) {
        var i :| 0 <= i < |t[1..]| && SamePair(t[1..][i], c.mac, c.dst);
        assert t[i + 1] == t[1..][i];
      }
      assert SamePair(t[0], t[0].mac, t[0].dst);
    }
  }

  lemma {:induction false} SavedRoutes(t: RouteTable)
    requires forall r :: r in t && r.permanent ==> r.metric != 0
    ensures forall c :: c in SaveRoutes(t) ==> c.metric != 0
  {
    if t != [] {
      SavedRoutes(t[1..]);
    }
  }

  lemma {:induction false} SavedInterfaces(s: seq<InterfaceState>)
    requires UniqueVnis(s) && forall i :: i in s ==> ValidInterface(i) && SavableInterface(i)
    requires NamesDiffer(s)
    ensures CanonicalInterfaces(SaveInterfaces(s))
    ensures forall ic :: ic in SaveInterfaces(s) ==> exists i :: i in s && i.name == ic.name && i.vni == ic.vni
  {
    if s != [] {
      SavedInterfaces(s[1..]);
      assert s[0] in s;
      if s[0].permanent {
        SavedArps(s[0].arp);
        SavedMacs(s[0].macs);
        SavedRoutes(s[0].routes);
        assert CanonicalInterface(SaveInterface(s[0]));
      }
    }
  }

  /** A saved listener comes from a listener, with interfaces of the same names. */
  ghost predicate SavedFrom(l: ListenerState, lc: ListenerConfig) {
    && l.name == lc.name && l.address == lc.address
    && forall ic :: ic in lc.interfaces ==> exists i :: i in l.interfaces && i.name == ic.name
  }

  lemma {:induction false} SavedListeners(net: Net)
    requires ValidNet(net) && Savable(net)
    ensures CanonicalConfig(SaveConfig(net))
    ensures forall lc :: lc in SaveConfig(net) ==> exists l :: l in net && SavedFrom(l, lc)
  {
    if net != [] {
      var l, rest := net[0], SaveConfig(net[1..]);
      assert forall m :: m in net[1..] ==> m in net;
      SavedListeners(net[1..]);
      assert l in net;
      SavedInterfaces(l.interfaces);
      var lc := ListenerConfig(l.name, l.address, l.maxMessageSize, SaveInterfaces(l.interfaces));
      assert SavedFrom(l, lc);
      forall m | m in rest ensures ListenersApart(lc, m) && exists x :: x in net && SavedFrom(x, m) {
        var x :| x in net[1..] && SavedFrom(x, m);
        assert InterfaceNamesApart(l, x);
      }
    }
  }

  /** Save, restart, save. What is saved from a valid registry is canonical, so a program started on it comes up with a
      registry that saves the same. */
  lemma SaveAfterRestart(net: Net, host: Host)
    requires ValidNet(net) && Savable(net) && Provides(host, SaveConfig(net))
    ensures CanonicalConfig(SaveConfig(net))
    ensures ApplyConfig([], SaveConfig(net), host).ok
    ensures SaveConfig(ApplyConfig([], SaveConfig(net), host).net) == SaveConfig(net)
  {
    SavedListeners(net);
    SaveAfterStart(SaveConfig(net), host);
  }
}
