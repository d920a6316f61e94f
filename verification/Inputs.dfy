/** Concrete registries and configurations on which ApplyConfig does not do what one would expect of it. Each of them
    shows the failing side of an exact condition proved elsewhere. */
module Inputs {
  import opened Addresses
  import Contents
  import opened Forwarding
  import opened Idempotence
  import opened Reconcile
  import opened ReconcileProofs
  import opened Registry
  import Returning
  import opened Sequences

  const ADDRESS := "10.0.0.1:4789"

  /** A registry of one permanent listener with one interface, and a configuration that asks for the same. */
  function Holding(i: InterfaceState): Net {
    [ListenerState("main", ADDRESS, true, 1500, [i])]
  }

  function Asking(ic: InterfaceConfig): Config {
    [ListenerConfig("main", ADDRESS, 1500, [ic])]
  }

  /** An interface of VNI 7 at the MTU that is configured, and the configuration of one. */
  function Seven(name: string, permanent: bool, mac: Mac, kernel: seq<Prefix>, macs: MacTable, routes: RouteTable, host: Host): InterfaceState {
    InterfaceState(name, 7, permanent, 1450, host.deviceMtu(1450), mac, kernel, kernel, [], macs, routes)
  }

  function AskSeven(name: string, mac: Mac, macs: seq<MacConfig>, routes: seq<RouteConfig>): InterfaceConfig {
    InterfaceConfig(name, 7, 1450, mac, [], [], macs, routes)
  }

  // ---------------------------------------------------------------- one listener, one interface

  lemma PruneOne(i: InterfaceState, ic: InterfaceConfig)
    requires i.vni == ic.vni
    ensures Prune(Holding(i), Asking(ic)) ==
            [ListenerState("main", ADDRESS, true, 1500, if !i.permanent || i.name == ic.name then [i] else [])]
  {
    var lc := Asking(ic)[0];
    assert Asking(ic)[1..] == [] && Holding(i)[1..] == [] && [i][1..] == [];
    assert FindConfig(Asking(ic), ADDRESS, "main") == Some(lc);
    assert ic in lc.interfaces;
    assert Configured(lc, i) <==> i.name == ic.name;
    assert Filter([i], Stays(lc)) == if Stays(lc)(i) then [i] else [];
  }

  /** Applying a configured listener without interfaces to a registry that ensuring it gives. */
  lemma ApplyEmpty(net: Net, lc: ListenerConfig, host: Host)
    requires lc.interfaces == [] && EnsureListener(net, lc, host).ok
    ensures ApplyListeners(net, [lc], host) == EnsureListener(net, lc, host)
  {
    var net1 := EnsureListener(net, lc, host).net;
    assert [lc][1..] == [];
    EnsuredIsThere(net, lc, host);
    assert ApplyInterfaces(net1, FindListener(net, lc.address), [], host) == Outcome(true, net1);
    assert ApplyListener(net, lc, host) == Outcome(true, net1);
    assert ApplyListeners(net1, [], host) == Outcome(true, net1);
  }

  /** Applying to one listener that has the configured address. */
  lemma ApplyToOne(s: seq<InterfaceState>, ic: InterfaceConfig, host: Host)
    ensures var net := [ListenerState("main", ADDRESS, true, 1500, s)];
      ApplyListeners(net, Asking(ic), host) == ApplyInterface(net, 0, ic, host)
  {
    var net := [ListenerState("main", ADDRESS, true, 1500, s)];
    var lc := Asking(ic)[0];
    assert Asking(ic)[1..] == [] && [ic][1..] == [];
    assert FindListener(net, ADDRESS) == 0;
    assert EnsureListener(net, lc, host).net == net;
    assert ApplyInterfaces(net, 0, [ic], host) == ApplyInterface(net, 0, ic, host);
  }

  /** An interface that is not removed is configured where it is. */
  lemma ApplyKept(i: InterfaceState, ic: InterfaceConfig, host: Host)
    requires i.vni == ic.vni && (!i.permanent || i.name == ic.name)
    ensures var (ok, x) := Configure(SetMtu(i.(permanent := true), ic.mtu, 1500, host), ic, host);
      ApplyConfig(Holding(i), Asking(ic), host) == Outcome(ok, Holding(x))
  {
    PruneOne(i, ic);
    ApplyToOne([i], ic, host);
    assert FindVni([i], ic.vni) == 0;
    var x := Configure(SetMtu(i.(permanent := true), ic.mtu, 1500, host), ic, host).1;
    assert Place([i], x) == [x];
    assert WithInterfaces(Holding(i), 0, [x]) == Holding(x);
  }

  /** One that is removed is made anew, when the name is free and the device can be created. */
  lemma ApplyRemade(i: InterfaceState, ic: InterfaceConfig, host: Host)
    requires i.vni == ic.vni && i.permanent && i.name != ic.name
    requires ic.name !in host.taken && host.canCreate(ic.name)
    ensures var (ok, x) := Configure(FreshInterface(ic.name, ic.vni, ic.mtu, 1500, true, host), ic, host);
      ApplyConfig(Holding(i), Asking(ic), host) == Outcome(ok, Holding(x))
  {
    PruneOne(i, ic);
    ApplyToOne([], ic, host);
    var net := [ListenerState("main", ADDRESS, true, 1500, [])];
    var x := Configure(FreshInterface(ic.name, ic.vni, ic.mtu, 1500, true, host), ic, host).1;
    assert !NameTaken(net, ic.name, host);
    assert Place([], x) == [x];
    assert WithInterfaces(net, 0, [x]) == Holding(x);
  }

  lemma HoldingIsValid(i: InterfaceState)
    requires ValidInterface(i)
    ensures ValidNet(Holding(i))
  {
  }

  lemma SaveOne(i: InterfaceState)
    requires i.permanent
    ensures SaveConfig(Holding(i)) == Asking(SaveInterface(i))
  {
    assert [i][1..] == [] && Holding(i)[1..] == [];
    assert SaveInterfaces([i]) == [SaveInterface(i)];
  }

  /** The hardware address and the MTU are set already, so configuring is up to the tables. */
  lemma OnlyTables(i: InterfaceState, ic: InterfaceConfig, host: Host)
    requires i.vni == ic.vni && (!i.permanent || i.name == ic.name)
    requires i.mac == ic.mac && ic.mtu == 1450 && i.deviceMtu == host.deviceMtu(1450)
    requires ic.addresses == []
    ensures ApplyConfig(Holding(i), Asking(ic), host) == Outcome(true, Holding(Retabled(i.(permanent := true), ic, host)))
  {
    ApplyKept(i, ic, host);
    var j := i.(permanent := true);
    assert SetMtu(j, ic.mtu, 1500, host) == j;
    assert j.(mac := ic.mac) == j;
  }

  // ---------------------------------------------------------------- the inputs

  /** A permanent listener under another name goes, and one under the configured name is started in its stead. */
  lemma OtherwiseNamed(l: ListenerState, lc: ListenerConfig, host: Host)
    requires l.permanent && l.address == lc.address && l.name != lc.name && lc.interfaces == [] && host.canBind(lc.address)
    ensures ApplyConfig([l], [lc], host) == Outcome(true, [ListenerState(lc.name, lc.address, true, lc.maxMessageSize, [])])
  {
    assert [lc][1..] == [] && [l][1..] == [];
    assert FindConfig([lc], l.address, l.name).None?;
    assert Prune([l], [lc]) == [];
    assert EnsureListener([], lc, host).net == [ListenerState(lc.name, lc.address, true, lc.maxMessageSize, [])];
    ApplyEmpty([], lc, host);
  }

  /** A transient one stays, whatever its name. */
  lemma TransientStays(l: ListenerState, lc: ListenerConfig, host: Host)
    requires !l.permanent && l.address == lc.address && l.maxMessageSize == lc.maxMessageSize && lc.interfaces == []
    ensures ApplyConfig([l], [lc], host) == Outcome(true, [l.(permanent := true)])
  {
    assert [l][1..] == [];
    assert Prune([l], [lc]) == [l];
    assert EnsureListener([l], lc, host).net == [l.(permanent := true)];
    ApplyEmpty([l], lc, host);
  }

  lemma BystanderAlone(i: InterfaceState, cfg: Config)
    ensures Bystanders(Holding(i), cfg, ADDRESS) == if UntouchedInterface(cfg, ADDRESS)(i) then [i] else []
  {
    var keep := UntouchedInterface(cfg, ADDRESS);
    assert InterfacesAt(Holding(i), ADDRESS) == [i] && [i][1..] == [];
    assert Filter([i], keep) == if keep(i) then [i] else [];
  }

  /** A permanent listener that the configuration names otherwise takes its transient interfaces with it, though the
      configuration does not mention them. */
  lemma BystanderIsLost(host: Host, mac: Mac)
    requires host.canBind(ADDRESS)
    ensures var i := Seven("tun7", false, mac, [], [], [], host);
      var net, cfg := Holding(i), [ListenerConfig("other", ADDRESS, 1500, [])];
      && ValidNet(net) && Canonical(cfg)
      && ApplyConfig(net, cfg, host) == Outcome(true, [ListenerState("other", ADDRESS, true, 1500, [])])
      && Bystanders(net, cfg, ADDRESS) == [i]
      && Bystanders(ApplyConfig(net, cfg, host).net, cfg, ADDRESS) == []
  {
    var i := Seven("tun7", false, mac, [], [], [], host);
    var net, lc := Holding(i), ListenerConfig("other", ADDRESS, 1500, []);
    HoldingIsValid(i);
    assert "other"[0] != "main"[0];
    OtherwiseNamed(net[0], lc, host);
    BystanderAlone(i, [lc]);
    assert !MentionsVni([lc], ADDRESS, 7);
  }

  /** A configured pair for which there is a transient entry stays transient: applying changes nothing at all, and what
      is saved lacks the pair. */
  lemma ConfiguredPairIsNotSaved(host: Host, mac: Mac, m: Mac, d: Addr)
    ensures var i := Seven("tun7", true, mac, [], [MacEntry(m, d, false)], [], host);
      var ic := AskSeven("tun7", mac, [MacConfig(m, d)], []);
      && ValidNet(Holding(i))
      && ApplyConfig(Holding(i), Asking(ic), host) == Outcome(true, Holding(i))
      && SaveConfig(Holding(i)) == Asking(ic.(macs := []))
  {
    var entry := MacEntry(m, d, false);
    var i := Seven("tun7", true, mac, [], [entry], [], host);
    var ic := AskSeven("tun7", mac, [MacConfig(m, d)], []);
    HoldingIsValid(i);
    OnlyTables(i, ic, host);
    SaveOne(i);
    assert [entry][1..] == [] && ic.macs[1..] == [];
    assert Filter([entry], Not(PermanentMac())) == [entry];
    assert SamePair([entry][0], m, d);
    assert AddMac([entry], m, d, true) == [entry];
    assert AddMacs([entry], ic.macs) == [entry];
    assert SaveMacs([entry]) == [];
  }

  /** A configured empty address list clears nothing. */
  lemma AddressIsNotCleared(host: Host, mac: Mac, p: Prefix)
    ensures var i := Seven("tun7", true, mac, [p], [], [], host);
      var ic := AskSeven("tun7", mac, [], []);
      && ValidNet(Holding(i))
      && ApplyConfig(Holding(i), Asking(ic), host) == Outcome(true, Holding(i))
      && SaveConfig(Holding(i)) == Asking(ic.(addresses := [p]))
  {
    var i := Seven("tun7", true, mac, [p], [], [], host);
    var ic := AskSeven("tun7", mac, [], []);
    HoldingIsValid(i);
    OnlyTables(i, ic, host);
    SaveOne(i);
  }

  /** A transient route to a configured destination and gateway survives the first application and not the second. */
  lemma ShadowedRouteIsLost(host: Host, mac: Mac, destination: Prefix, gateway: Addr)
    requires host.routeOk(Route(destination, gateway, 7, true))
    ensures var mine, ours := Route(destination, gateway, 5, false), Route(destination, gateway, 7, true);
      var cfg := Asking(AskSeven("tun7", mac, [], [RouteConfig(destination, gateway, 7)]));
      var net0 := Holding(Seven("tun7", true, mac, [], [], [mine], host));
      var net1 := Holding(Seven("tun7", true, mac, [], [], [mine, ours], host));
      var net2 := Holding(Seven("tun7", true, mac, [], [], [ours], host));
      && ValidNet(net0)
      && ApplyConfig(net0, cfg, host) == Outcome(true, net1)
      && ApplyConfig(net1, cfg, host) == Outcome(true, net2)
  {
    var mine, ours := Route(destination, gateway, 5, false), Route(destination, gateway, 7, true);
    var ic := AskSeven("tun7", mac, [], [RouteConfig(destination, gateway, 7)]);
    var i := Seven("tun7", true, mac, [], [], [mine], host);
    HoldingIsValid(i);
    RoutesOfBoth(host, destination, gateway);
    OnlyTables(i, ic, host);
    OnlyTables(i.(routes := [mine, ours]), ic, host);
  }

  lemma AskingIsCanonical(ic: InterfaceConfig)
    ensures Canonical(Asking(ic))
  {
  }

  lemma ConfiguredRouteStays(host: Host, mac: Mac, destination: Prefix, gateway: Addr)
    requires host.routeOk(Route(destination, gateway, 7, true))
    ensures var net := Holding(Seven("tun7", true, mac, [], [], [Route(destination, gateway, 7, true)], host));
      ApplyConfig(net, Asking(AskSeven("tun7", mac, [], [RouteConfig(destination, gateway, 7)])), host) == Outcome(true, net)
  {
    var i := Seven("tun7", true, mac, [], [], [Route(destination, gateway, 7, true)], host);
    RoutesOfBoth(host, destination, gateway);
    OnlyTables(i, AskSeven("tun7", mac, [], [RouteConfig(destination, gateway, 7)]), host);
  }

  lemma RouteHangs(i: InterfaceState, ic: InterfaceConfig, host: Host, r: Route, removable: (Prefix, Addr) -> bool)
    requires i.vni == ic.vni && i.name == ic.name && ValidInterface(i) && ApplyConfig(Holding(i), Asking(ic), host).ok
    requires r in i.routes && r.permanent
    ensures !Returning.Returns(Holding(i), Asking(ic), host, false, removable)
  {
    HoldingIsValid(i);
    AskingIsCanonical(ic);
    PruneOne(i, ic);
    Returning.AppliedReturnsIff(Holding(i), Asking(ic), host, false, removable);
    assert FindVni([i], i.vni) == 0;
    assert Contents.Before(Holding(i), Asking(ic), ADDRESS, i.vni) == Some(i);
    assert Asking(ic)[0] in Asking(ic) && ic in Asking(ic)[0].interfaces;
  }

  /** An interface with a permanent route, configured as it is: nothing would change, but with the program's lock applying
      never returns. */
  lemma ConfiguredRouteHangs(host: Host, mac: Mac, destination: Prefix, gateway: Addr, removable: (Prefix, Addr) -> bool)
    requires host.routeOk(Route(destination, gateway, 7, true))
    ensures var net := Holding(Seven("tun7", true, mac, [], [], [Route(destination, gateway, 7, true)], host));
      var cfg := Asking(AskSeven("tun7", mac, [], [RouteConfig(destination, gateway, 7)]));
      && ValidNet(net) && Canonical(cfg)
      && ApplyConfig(net, cfg, host) == Outcome(true, net)
      && !Returning.Returns(net, cfg, host, false, removable)
  {
    var ours := Route(destination, gateway, 7, true);
    var i := Seven("tun7", true, mac, [], [], [ours], host);
    var ic := AskSeven("tun7", mac, [], [RouteConfig(destination, gateway, 7)]);
    HoldingIsValid(i);
    AskingIsCanonical(ic);
    ConfiguredRouteStays(host, mac, destination, gateway);
    RouteHangs(i, ic, host, ours, removable);
  }

  lemma RoutesOfBoth(host: Host, destination: Prefix, gateway: Addr)
    requires host.routeOk(Route(destination, gateway, 7, true))
    ensures var mine, ours := Route(destination, gateway, 5, false), Route(destination, gateway, 7, true);
      var cs := [RouteConfig(destination, gateway, 7)];
      && AddRoutes(FlushRoutes([mine]), cs, host) == [mine, ours]
      && AddRoutes(FlushRoutes([mine, ours]), cs, host) == [ours]
      && AddRoutes(FlushRoutes([ours]), cs, host) == [ours]
  {
    var mine, ours := Route(destination, gateway, 5, false), Route(destination, gateway, 7, true);
    var cs := [RouteConfig(destination, gateway, 7)];
    assert cs[1..] == [] && [mine][1..] == [] && [mine, ours][1..] == [ours] && [ours][1..] == [];
    assert !PermanentTwin([mine], mine);
    assert [mine, ours][1] == ours && PermanentTwin([mine, ours], mine);
    assert [ours][0] == ours && PermanentTwin([ours], ours);
    assert FlushRoutes([ours]) == [];
    assert FlushRoutes([mine, ours]) == [];
    assert FlushRoutes([mine]) == [mine];
    assert AddRoute([mine], RouteOf(cs[0]), host) == [mine, ours];
    assert AddRoute([], RouteOf(cs[0]), host) == [ours];
  }

  lemma FreshIsPlain(name: string, ic: InterfaceConfig, host: Host)
    requires ic == AskSeven(name, ic.mac, [], [])
    ensures Configure(FreshInterface(name, 7, 1450, 1500, true, host), ic, host) ==
            (true, Seven(name, true, ic.mac, [], [], [], host).(mtu := host.deviceMtu(1450)))
  {
  }

  /** A transient interface with a configured VNI keeps its own name the first time, and is closed and made anew, under
      the configured name, the second. */
  lemma RenamedInterfaceIsRemade(host: Host, mac: Mac)
    requires "new" !in host.taken && host.canCreate("new")
    ensures var cfg := Asking(AskSeven("new", mac, [], []));
      var net0, net1 := Holding(Seven("old", false, mac, [], [], [], host)), Holding(Seven("old", true, mac, [], [], [], host));
      var remade := Seven("new", true, mac, [], [], [], host).(mtu := host.deviceMtu(1450));
      && ValidNet(net0)
      && ApplyConfig(net0, cfg, host) == Outcome(true, net1)
      && ApplyConfig(net1, cfg, host) == Outcome(true, Holding(remade))
  {
    var ic := AskSeven("new", mac, [], []);
    var i := Seven("old", false, mac, [], [], [], host);
    HoldingIsValid(i);
    assert "old"[0] != "new"[0];
    OnlyTables(i, ic, host);
    ApplyRemade(i.(permanent := true), ic, host);
    FreshIsPlain("new", ic, host);
  }

  /** A transient listener at a configured address keeps its own name the first time and is closed and started anew,
      under the configured name, the second. */
  lemma RenamedListenerIsRemade(host: Host)
    requires host.canBind(ADDRESS)
    ensures var net, cfg := [ListenerState("old", ADDRESS, false, 1500, [])], [ListenerConfig("new", ADDRESS, 1500, [])];
      && ValidNet(net) && Canonical(cfg)
      && ApplyConfig(net, cfg, host) == Outcome(true, [ListenerState("old", ADDRESS, true, 1500, [])])
      && ApplyConfig([ListenerState("old", ADDRESS, true, 1500, [])], cfg, host) ==
         Outcome(true, [ListenerState("new", ADDRESS, true, 1500, [])])
  {
    var l, lc := ListenerState("old", ADDRESS, false, 1500, []), ListenerConfig("new", ADDRESS, 1500, []);
    assert "old"[0] != "new"[0];
    TransientStays(l, lc, host);
    OtherwiseNamed(l.(permanent := true), lc, host);
  }
}
