/** ApplyConfig and SaveConfig on the registry as a value: remove what is permanent and no longer configured, then
    place and configure every listener and interface of the configuration; and project permanent state back. */
module Reconcile {
  import opened Addresses
  import ArpTable
  import opened Forwarding
  import opened Registry
  import opened Sequences

  // ---------------------------------------------------------------- configurations

  datatype ArpConfig = ArpConfig(addr: Addr, mac: Mac)

  datatype MacConfig = MacConfig(mac: Mac, dst: Addr)

  datatype RouteConfig = RouteConfig(destination: Prefix, gateway: Addr, metric: int)

  datatype InterfaceConfig = InterfaceConfig(
    name: string,
    vni: nat,
    mtu: int,
    mac: Mac,
    addresses: seq<Prefix>,
    arps: seq<ArpConfig>,
    macs: seq<MacConfig>,
    routes: seq<RouteConfig>)

  datatype ListenerConfig = ListenerConfig(
    name: string,
    address: string,
    maxMessageSize: int,
    interfaces: seq<InterfaceConfig>)

  type Config = seq<ListenerConfig>

  // ---------------------------------------------------------------- pruning

  /** The first listener of the configuration with this address and name. */
  function FindConfig(cfg: Config, address: string, name: string): Option<ListenerConfig> {
    if cfg == [] then None
    else if cfg[0].address == address && cfg[0].name == name then Some(cfg[0])
    else FindConfig(cfg[1..], address, name)
  }

  predicate ConfiguredAs(lc: ListenerConfig, name: string, vni: nat) {
    exists ic :: ic in lc.interfaces && ic.name == name && ic.vni == vni
  }

  predicate Configured(lc: ListenerConfig, i: InterfaceState) {
    ConfiguredAs(lc, i.name, i.vni)
  }

  /** An interface stays when it is transient or configured under its name and VNI. */
  function Stays(lc: ListenerConfig): InterfaceState -> bool {
    (i: InterfaceState) => !i.permanent || Configured(lc, i)
  }

  /** What becomes of a listener: a transient one is left alone, a permanent one not configured under its address and
      name goes, and any other loses its unconfigured permanent interfaces. */
  function PruneListener(cfg: Config, l: ListenerState): Option<ListenerState> {
    if !l.permanent then Some(l)
    else
      var found := FindConfig(cfg, l.address, l.name);
      if found.None? then None else Some(l.(interfaces := Filter(l.interfaces, Stays(found.value))))
  }

  function Prune(net: Net, cfg: Config): Net {
    if net == [] then []
    else
      var l := PruneListener(cfg, net[0]);
      (if l.Some? then [l.value] else []) + Prune(net[1..], cfg)
  }

  // ---------------------------------------------------------------- one interface

  function AddArps(t: ArpTable.Table, cs: seq<ArpConfig>): ArpTable.Table
    decreases |cs|
  {
    if cs == [] then t else AddArps(ArpTable.AddStatic(t, cs[0].addr, cs[0].mac, true), cs[1..])
  }

  function AddMacs(t: MacTable, cs: seq<MacConfig>): MacTable
    decreases |cs|
  {
    if cs == [] then t else AddMacs(AddMac(t, cs[0].mac, cs[0].dst, true), cs[1..])
  }

  function RouteOf(c: RouteConfig): Route {
    Route(c.destination, c.gateway, c.metric, true)
  }

  function AddRoutes(t: RouteTable, cs: seq<RouteConfig>, host: Host): RouteTable
    decreases |cs|
  {
    if cs == [] then t else AddRoutes(AddRoute(t, RouteOf(cs[0]), host), cs[1..], host)
  }

  /** Replace the permanent entries of the three tables by the configured ones. */
  function Retabled(i: InterfaceState, ic: InterfaceConfig, host: Host): InterfaceState {
    i.(arp := AddArps(Filter(i.arp, Not(ArpTable.IsPermanent())), ic.arps),
       macs := AddMacs(Filter(i.macs, Not(PermanentMac())), ic.macs),
       routes := AddRoutes(FlushRoutes(i.routes), ic.routes, host))
  }

  /** Configure an interface that is there; an empty address list leaves its addresses alone. */
  function Configure(i: InterfaceState, ic: InterfaceConfig, host: Host): (bool, InterfaceState) {
    var j := i.(mac := ic.mac);
    var (ok, addressed) := if ic.addresses == [] then (true, j) else SetAddresses(j, ic.addresses, host);
    if ok then (true, Retabled(addressed, ic, host)) else (false, addressed)
  }

  /** The position of the interface with a VNI, or the length. */
  function FindVni(s: seq<InterfaceState>, vni: nat): (k: nat)
    ensures k <= |s|
    ensures k < |s| ==> s[k].vni == vni
    ensures forall j :: 0 <= j < k ==> s[j].vni != vni
  {
    if s == [] then 0 else if s[0].vni == vni then 0 else 1 + FindVni(s[1..], vni)
  }

  /** Put an interface in the place of the one with its VNI, or at the end. */
  function Place(s: seq<InterfaceState>, x: InterfaceState): seq<InterfaceState> {
    var k := FindVni(s, x.vni);
    if k < |s| then s[k := x] else s + [x]
  }

  /** The interface to configure: the one with the VNI, made permanent and given its MTU, or a new one. */
  function Base(l: ListenerState, ic: InterfaceConfig, host: Host): InterfaceState {
    var k := FindVni(l.interfaces, ic.vni);
    if k < |l.interfaces| then SetMtu(l.interfaces[k].(permanent := true), ic.mtu, l.maxMessageSize, host)
    else FreshInterface(ic.name, ic.vni, ic.mtu, l.maxMessageSize, true, host)
  }

  datatype Outcome = Outcome(ok: bool, net: Net)

  function WithInterfaces(net: Net, k: nat, s: seq<InterfaceState>): Net
    requires k < |net|
  {
    net[k := net[k].(interfaces := s)]
  }

  /** There is no interface with the VNI and none can be made. */
  predicate Refused(net: Net, k: nat, ic: InterfaceConfig, host: Host)
    requires k < |net|
  {
    FindVni(net[k].interfaces, ic.vni) == |net[k].interfaces| && NewInterface(net, k, ic.name, ic.vni, ic.mtu, true, host).None?
  }

  function ApplyInterface(net: Net, k: nat, ic: InterfaceConfig, host: Host): (o: Outcome)
    requires k < |net|
    ensures |o.net| == |net|
  {
    if Refused(net, k, ic, host) then Outcome(false, net)
    else
      var (ok, x) := Configure(Base(net[k], ic, host), ic, host);
      Outcome(ok, WithInterfaces(net, k, Place(net[k].interfaces, x)))
  }

  function ApplyInterfaces(net: Net, k: nat, ics: seq<InterfaceConfig>, host: Host): (o: Outcome)
    requires k < |net|
    ensures |o.net| == |net|
    decreases |ics|
  {
    if ics == [] then Outcome(true, net)
    else
      var o := ApplyInterface(net, k, ics[0], host);
      if o.ok then ApplyInterfaces(o.net, k, ics[1..], host) else o
  }

  // ---------------------------------------------------------------- listeners

  /** The position of the listener with an address, or the length. */
  function FindListener(net: Net, address: string): (k: nat)
    ensures k <= |net|
    ensures k < |net| ==> net[k].address == address
    ensures forall j :: 0 <= j < k ==> net[j].address != address
  {
    if net == [] then 0 else if net[0].address == address then 0 else 1 + FindListener(net[1..], address)
  }

  /** Make the listener with the configured address permanent and size it, or start a new one at the end. */
  function EnsureListener(net: Net, lc: ListenerConfig, host: Host): Outcome {
    var k := FindListener(net, lc.address);
    if k < |net| then Outcome(true, net[k := SetMaxMessageSize(net[k].(permanent := true), lc.maxMessageSize)])
    else
      var r := NewListener(net, lc.name, lc.address, lc.maxMessageSize, true, host);
      if r.Some? then Outcome(true, r.value) else Outcome(false, net)
  }

  lemma EnsuredIsThere(net: Net, lc: ListenerConfig, host: Host)
    requires EnsureListener(net, lc, host).ok
    ensures FindListener(net, lc.address) < |EnsureListener(net, lc, host).net|
  {
  }

  function ApplyListener(net: Net, lc: ListenerConfig, host: Host): Outcome {
    var o := EnsureListener(net, lc, host);
    if o.ok then
      EnsuredIsThere(net, lc, host);
      ApplyInterfaces(o.net, FindListener(net, lc.address), lc.interfaces, host)
    else o
  }

  function ApplyListeners(net: Net, cfg: Config, host: Host): Outcome
    decreases |cfg|
  {
    if cfg == [] then Outcome(true, net)
    else
      var o := ApplyListener(net, cfg[0], host);
      if o.ok then ApplyListeners(o.net, cfg[1..], host) else o
  }

  /** The whole of ApplyConfig; on an error the changes made so far remain. */
  function ApplyConfig(net: Net, cfg: Config, host: Host): Outcome {
    ApplyListeners(Prune(net, cfg), cfg, host)
  }

  // ---------------------------------------------------------------- saving

  function SaveArps(t: ArpTable.Table): seq<ArpConfig> {
    if t == [] then [] else (if t[0].permanent then [ArpConfig(t[0].addr, t[0].mac)] else []) + SaveArps(t[1..])
  }

  function SaveMacs(t: MacTable): seq<MacConfig> {
    if t == [] then [] else (if t[0].permanent then [MacConfig(t[0].mac, t[0].dst)] else []) + SaveMacs(t[1..])
  }

  function SaveRoutes(t: RouteTable): seq<RouteConfig> {
    if t == [] then []
    else (if t[0].permanent then [RouteConfig(t[0].destination, t[0].gateway, t[0].metric)] else []) + SaveRoutes(t[1..])
  }

  /** The addresses saved are the kernel's, the MTU the packet reader's. */
  function SaveInterface(i: InterfaceState): InterfaceConfig {
    InterfaceConfig(i.name, i.vni, i.mtu, i.mac, i.kernel, SaveArps(i.arp), SaveMacs(i.macs), SaveRoutes(i.routes))
  }

  function SaveInterfaces(s: seq<InterfaceState>): seq<InterfaceConfig> {
    if s == [] then [] else (if s[0].permanent then [SaveInterface(s[0])] else []) + SaveInterfaces(s[1..])
  }

  /** SaveConfig: everything permanent, in order. */
  function SaveConfig(net: Net): Config {
    if net == [] then []
    else
      (if net[0].permanent
       then [ListenerConfig(net[0].name, net[0].address, net[0].maxMessageSize, SaveInterfaces(net[0].interfaces))]
       else []) + SaveConfig(net[1..])
  }
}
