/** The registry of listeners and their interfaces, as values: what NewListener, NewInterface, the Close methods and
    the table operations do to it, and the invariant that they all keep. */
module Registry {
  import opened Addresses
  import ArpTable
  import Device
  import opened Forwarding
  import opened Sequences

  /** An open interface. `mtu` is the value the packet reader works with, `deviceMtu` the one the device reports. */
  datatype InterfaceState = InterfaceState(
    name: string,
    vni: nat,
    permanent: bool,
    mtu: int,
    deviceMtu: int,
    mac: Mac,
    addresses: seq<Prefix>,
    kernel: seq<Prefix>,
    arp: ArpTable.Table,
    macs: MacTable,
    routes: RouteTable)

  datatype ListenerState = ListenerState(
    name: string,
    address: string,
    permanent: bool,
    maxMessageSize: int,
    interfaces: seq<InterfaceState>)

  type Net = seq<ListenerState>

  /** The machine: names of devices that are not ours, which sockets and devices can be opened, which MTUs a device
      takes and the one it reports when asked for one, the random hardware address of a new device, how many netlink address calls go
      through on it, and which routes the kernel accepts. */
  datatype Host = Host(
    taken: set<string>,
    canBind: string -> bool,
    canCreate: string -> bool,
    mtuOk: int -> bool,
    deviceMtu: int -> int,
    randomMac: string -> Mac,
    netlinkBudget: string -> nat,
    routeOk: Route -> bool)

  // ---------------------------------------------------------------- the invariant

  ghost predicate ValidInterface(i: InterfaceState) {
    ArpTable.Valid(i.arp) && UniquePairs(i.macs) && Distinct(i.kernel)
  }

  ghost predicate UniqueVnis(s: seq<InterfaceState>) {
    forall i, j :: 0 <= i < j < |s| ==> s[i].vni != s[j].vni
  }

  /** VNIs are unique on a listener, and a permanent interface sits on a permanent listener. */
  ghost predicate ValidListener(l: ListenerState) {
    && UniqueVnis(l.interfaces)
    && (forall i :: i in l.interfaces ==> ValidInterface(i) && (i.permanent ==> l.permanent))
  }

  ghost predicate UniqueListeners(net: Net) {
    forall i, j :: 0 <= i < j < |net| ==> net[i].address != net[j].address && net[i].name != net[j].name
  }

  /** Listeners are unique by address and by name. */
  ghost predicate ValidNet(net: Net) {
    UniqueListeners(net) && forall l :: l in net ==> ValidListener(l)
  }

  /** Device names on one listener, and on two. */
  ghost predicate NamesDiffer(s: seq<InterfaceState>) {
    forall i, j :: 0 <= i < j < |s| ==> s[i].name != s[j].name
  }

  ghost predicate InterfaceNamesApart(l: ListenerState, m: ListenerState) {
    forall i, j :: i in l.interfaces && j in m.interfaces ==> i.name != j.name
  }

  // ---------------------------------------------------------------- listeners

  predicate ListenerClash(net: Net, name: string, address: string) {
    exists l :: l in net && (l.address == address || l.name == name)
  }

  /** NewListener: refuse a duplicate address or name, or an address that cannot be bound. */
  function NewListener(net: Net, name: string, address: string, maxMessageSize: int, permanent: bool, host: Host): Option<Net> {
    if ListenerClash(net, name, address) || !host.canBind(address) then None
    else Some(net + [ListenerState(name, address, permanent, maxMessageSize, [])])
  }

  function SetMaxMessageSize(l: ListenerState, size: int): ListenerState {
    if size <= 1 then l else l.(maxMessageSize := size)
  }

  // ---------------------------------------------------------------- interfaces

  /** An MTU of at most one asks for the listener's maximum less the tunnel overhead. */
  function EffectiveMtu(mtu: int, maxMessageSize: int): int {
    if mtu <= 1 then maxMessageSize - 50 else mtu
  }

  predicate NameTaken(net: Net, name: string, host: Host) {
    name in host.taken || exists l :: l in net && exists i :: i in l.interfaces && i.name == name
  }

  predicate HasVni(s: seq<InterfaceState>, vni: nat) {
    exists i :: i in s && i.vni == vni
  }

  function FreshInterface(name: string, vni: nat, mtu: int, maxMessageSize: int, permanent: bool, host: Host): InterfaceState {
    var reported := host.deviceMtu(EffectiveMtu(mtu, maxMessageSize));
    InterfaceState(name, vni, permanent, reported, reported, host.randomMac(name), [], [], [], [], [])
  }

  /** NewInterface: refuse a permanent interface on a listener that is not, a VNI or device name in use, or a device
      that cannot be created. */
  function NewInterface(net: Net, k: nat, name: string, vni: nat, mtu: int, permanent: bool, host: Host): Option<Net>
    requires k < |net|
  {
    var l := net[k];
    if (!l.permanent && permanent) || HasVni(l.interfaces, vni) || NameTaken(net, name, host) || !host.canCreate(name) then None
    else Some(net[k := l.(interfaces := l.interfaces + [FreshInterface(name, vni, mtu, l.maxMessageSize, permanent, host)])])
  }

  /** SetMTU goes to the device alone, which may refuse; the packet reader's value follows with the device's event. */
  function SetMtu(i: InterfaceState, mtu: int, maxMessageSize: int, host: Host): InterfaceState {
    var m := EffectiveMtu(mtu, maxMessageSize);
    if host.mtuOk(m) then i.(deviceMtu := host.deviceMtu(m)) else i
  }

  /** The event reader's reaction to an MTU event: ignore a negative value, cap at what fits the tunnel. */
  function MtuEvent(i: InterfaceState, maxMessageSize: int): InterfaceState {
    if i.deviceMtu < 0 then i
    else i.(mtu := if i.deviceMtu > maxMessageSize - 50 then maxMessageSize - 50 else i.deviceMtu)
  }

  /** SetIPAddresses: the addresses the program works with change only when every kernel call succeeded. */
  function SetAddresses(i: InterfaceState, want: seq<Prefix>, host: Host): (bool, InterfaceState) {
    var o := Device.SetAddresses(i.kernel, want, host.netlinkBudget(i.name));
    (o.ok, if o.ok then i.(kernel := o.addresses, addresses := want) else i.(kernel := o.addresses))
  }

  function EffectiveMetric(metric: int): int {
    if metric == 0 then DEFAULT_METRIC else metric
  }

  /** AddStaticRoute: enter the route when the kernel accepted it. */
  function AddRoute(t: RouteTable, r: Route, host: Host): RouteTable {
    var route := r.(metric := EffectiveMetric(r.metric));
    if host.routeOk(route) then t + [route] else t
  }

  /** A route is entered at the end exactly when the kernel takes it with its metric, which is 256 where none is given. */
  lemma RouteIsEntered(t: RouteTable, r: Route, host: Host)
    ensures var route := Route(r.destination, r.gateway, if r.metric == 0 then 256 else r.metric, r.permanent);
      AddRoute(t, r, host) == if host.routeOk(route) then t + [route] else t
  {
  }

  /** A listener is refused exactly when its address or name is taken or it cannot be bound; otherwise it stands at the end,
      as asked for and without interfaces, and the others are as they were. */
  lemma AddedListener(net: Net, name: string, address: string, maxMessageSize: int, permanent: bool, host: Host)
    ensures var r := NewListener(net, name, address, maxMessageSize, permanent, host);
      && (r.None? <==> !host.canBind(address) || exists k :: 0 <= k < |net| && (net[k].address == address || net[k].name == name))
      && (r.Some? ==>
            && |r.value| == |net| + 1 && r.value[..|net|] == net
            && var l := r.value[|net|];
            && l.name == name && l.address == address && l.permanent == permanent && l.maxMessageSize == maxMessageSize
            && l.interfaces == [])
  {
    if ListenerClash(net, name, address) {
      var l :| l in net && (l.address == address || l.name == name);
      var k :| 0 <= k < |net| && net[k] == l;
      assert net[k].address == address || net[k].name == name;
    }
  }

  /** A new interface has the identity asked for, the MTU that the device makes of the one asked for or of the listener's
      maximum less 50, and neither addresses nor entries; nothing else in the registry changes. It is refused exactly when it
      would be permanent on a transient listener, its VNI is taken there, its name anywhere, or no device can be made. */
  lemma AddedInterface(net: Net, k: nat, name: string, vni: nat, mtu: int, permanent: bool, host: Host)
    requires k < |net|
    ensures var r, l := NewInterface(net, k, name, vni, mtu, permanent, host), net[k];
      && (r.None? <==>
            || (permanent && !l.permanent) || (exists i :: i in l.interfaces && i.vni == vni)
            || name in host.taken || (exists m :: m in net && exists i :: i in m.interfaces && i.name == name)
            || !host.canCreate(name))
      && (r.Some? ==>
            && |r.value| == |net| && r.value == net[k := r.value[k]] && r.value[k].(interfaces := l.interfaces) == l
            && |r.value[k].interfaces| == |l.interfaces| + 1 && r.value[k].interfaces[..|l.interfaces|] == l.interfaces
            && var i := r.value[k].interfaces[|l.interfaces|];
            && i.name == name && i.vni == vni && i.permanent == permanent
            && i.mtu == i.deviceMtu == host.deviceMtu(if mtu > 1 then mtu else l.maxMessageSize - 50)
            && i.mac == host.randomMac(name) && i.addresses == [] && i.kernel == []
            && i.arp == [] && i.macs == [] && i.routes == [])
  {
  }

  // ---------------------------------------------------------------- operations on one interface

  datatype InterfaceOp =
    | OpSetMac(mac: Mac)
    | OpSetMtu(mtu: int)
    | OpMtuEvent
    | OpSetAddresses(addresses: seq<Prefix>)
    | OpArp(op: ArpTable.Op, now: ArpTable.Time)
    | OpAddMac(mac: Mac, dst: Addr, permanent: bool)
    | OpRemoveMac(mac: Mac, dst: Addr)
    | OpFlushMacs
    | OpAddRoute(route: Route)
    | OpRemoveRoute(destination: Prefix, gateway: Addr)

  function EditInterface(i: InterfaceState, op: InterfaceOp, maxMessageSize: int, host: Host): InterfaceState {
    match op
    case OpSetMac(mac) => i.(mac := mac)
    case OpSetMtu(mtu) => SetMtu(i, mtu, maxMessageSize, host)
    case OpMtuEvent => MtuEvent(i, maxMessageSize)
    case OpSetAddresses(want) => SetAddresses(i, want, host).1
    case OpArp(op, now) => i.(arp := ArpTable.Apply(i.arp, op, now))
    case OpAddMac(mac, dst, permanent) => i.(macs := AddMac(i.macs, mac, dst, permanent))
    case OpRemoveMac(mac, dst) => i.(macs := RemoveMac(i.macs, mac, dst))
    case OpFlushMacs => i.(macs := [])
    case OpAddRoute(r) => i.(routes := AddRoute(i.routes, r, host))
    case OpRemoveRoute(destination, gateway) => i.(routes := RemoveRoute(i.routes, destination, gateway))
  }

  lemma ReaddressedDistinct(i: InterfaceState, want: seq<Prefix>, host: Host)
    requires Distinct(i.kernel)
    ensures Distinct(SetAddresses(i, want, host).1.kernel)
  {
    Device.ExecKeepsDistinct(i.kernel, Device.Calls(i.kernel, want), host.netlinkBudget(i.name));
  }

  lemma AddMacKeepsUnique(t: MacTable, mac: Mac, dst: Addr, permanent: bool)
    requires UniquePairs(t)
    ensures UniquePairs(AddMac(t, mac, dst, permanent))
  {
  }

  /** An operation on an interface keeps its tables sound, and never touches its identity. */
  lemma EditKeepsInterface(i: InterfaceState, op: InterfaceOp, maxMessageSize: int, host: Host)
    requires ValidInterface(i)
    ensures var i' := EditInterface(i, op, maxMessageSize, host);
      ValidInterface(i') && i'.vni == i.vni && i'.name == i.name && i'.permanent == i.permanent
  {
    match op
    case OpSetAddresses(want) => ReaddressedDistinct(i, want, host);
    case OpArp(op, now) => ArpTable.ApplyRefines(i.arp, op, now);
    case OpAddMac(mac, dst, permanent) => AddMacKeepsUnique(i.macs, mac, dst, permanent);
    case OpRemoveMac(mac, dst) => FilterKeepsPairsUnique(i.macs, OtherPair(mac, dst));
    case _ =>
  }

  // ---------------------------------------------------------------- keeping the invariant

  lemma NewListenerKeepsValid(net: Net, name: string, address: string, maxMessageSize: int, permanent: bool, host: Host)
    requires ValidNet(net)
    ensures var r := NewListener(net, name, address, maxMessageSize, permanent, host); r.Some? ==> ValidNet(r.value)
  {
    if !ListenerClash(net, name, address) {
      forall k | 0 <= k < |net| ensures net[k].address != address && net[k].name != name {
        assert net[k] in net;
      }
    }
  }

  lemma ReplaceListenerKeepsValid(net: Net, k: nat, l: ListenerState)
    requires ValidNet(net) && k < |net|
    requires ValidListener(l) && l.address == net[k].address && l.name == net[k].name
    ensures ValidNet(net[k := l])
  {
  }

  lemma RemoveListenerKeepsValid(net: Net, k: nat)
    requires ValidNet(net) && k < |net|
    ensures ValidNet(RemoveAt(net, k))
  {
  }

  lemma AppendInterfaceKeepsValid(l: ListenerState, i: InterfaceState)
    requires ValidListener(l) && ValidInterface(i) && !HasVni(l.interfaces, i.vni) && (i.permanent ==> l.permanent)
    ensures ValidListener(l.(interfaces := l.interfaces + [i]))
  {
    forall k | 0 <= k < |l.interfaces| ensures l.interfaces[k].vni != i.vni {
      assert l.interfaces[k] in l.interfaces;
    }
  }

  lemma ReplaceInterfaceKeepsValid(l: ListenerState, j: nat, i: InterfaceState)
    requires ValidListener(l) && j < |l.interfaces| && ValidInterface(i) && i.vni == l.interfaces[j].vni && (i.permanent ==> l.permanent)
    ensures ValidListener(l.(interfaces := l.interfaces[j := i]))
  {
  }

  lemma RemoveInterfaceKeepsValid(l: ListenerState, j: nat)
    requires ValidListener(l) && j < |l.interfaces|
    ensures ValidListener(l.(interfaces := RemoveAt(l.interfaces, j)))
  {
  }

  lemma FreshIsValid(name: string, vni: nat, mtu: int, maxMessageSize: int, permanent: bool, host: Host)
    ensures ValidInterface(FreshInterface(name, vni, mtu, maxMessageSize, permanent, host))
  {
  }

  lemma NewInterfaceKeepsValid(net: Net, k: nat, name: string, vni: nat, mtu: int, permanent: bool, host: Host)
    requires ValidNet(net) && k < |net|
    ensures var r := NewInterface(net, k, name, vni, mtu, permanent, host); r.Some? ==> ValidNet(r.value)
  {
    var l := net[k];
    var i := FreshInterface(name, vni, mtu, l.maxMessageSize, permanent, host);
    if NewInterface(net, k, name, vni, mtu, permanent, host).Some? {
      FreshIsValid(name, vni, mtu, l.maxMessageSize, permanent, host);
      AppendInterfaceKeepsValid(l, i);
      ReplaceListenerKeepsValid(net, k, l.(interfaces := l.interfaces + [i]));
    }
  }
}
