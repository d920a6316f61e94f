/** Histories of the whole registry: whatever is added, closed, edited and applied, in whatever order and on whatever
    machine, the invariants hold; and so every registry that can be reached saves what it would restart from. */
module Runs {
  import opened ArpProtocol
  import ArpTable
  import Delivery
  import opened Forwarding
  import Parsing
  import opened Reconcile
  import opened ReconcileProofs
  import opened Registry
  import SaveRoundTrip
  import opened Sequences
  import Tunnel
  import opened Wire

  /** Everything that changes the registry. Positions that are not there change nothing. */
  datatype Change =
    | StartListener(name: string, address: string, maxMessageSize: int, permanent: bool)
    | SizeListener(k: nat, size: int)
    | CloseListener(k: nat)
    | StartInterface(k: nat, name: string, vni: nat, mtu: int, permanent: bool)
    | EditInterfaceAt(k: nat, m: nat, op: InterfaceOp)
    | CloseInterface(k: nat, m: nat)
    | Apply(cfg: Config)

  function OrSame(net: Net, r: Option<Net>): Net {
    if r.Some? then r.value else net
  }

  function Changed(net: Net, c: Change, host: Host): Net {
    match c
    case StartListener(name, address, size, permanent) => OrSame(net, NewListener(net, name, address, size, permanent, host))
    case SizeListener(k, size) => if k < |net| then net[k := SetMaxMessageSize(net[k], size)] else net
    case CloseListener(k) => if k < |net| then RemoveAt(net, k) else net
    case StartInterface(k, name, vni, mtu, permanent) =>
      if k < |net| then OrSame(net, NewInterface(net, k, name, vni, mtu, permanent, host)) else net
    case EditInterfaceAt(k, m, op) =>
      if k < |net| && m < |net[k].interfaces|
      then WithInterfaces(net, k, net[k].interfaces[m := EditInterface(net[k].interfaces[m], op, net[k].maxMessageSize, host)])
      else net
    case CloseInterface(k, m) =>
      if k < |net| && m < |net[k].interfaces| then WithInterfaces(net, k, RemoveAt(net[k].interfaces, m)) else net
    case Apply(cfg) => ApplyConfig(net, cfg, host).net
  }

  /** A history, oldest change first, each with the machine as it was then; the registry starts empty. */
  function After(history: seq<(Change, Host)>): Net {
    if history == [] then []
    else var n := |history| - 1; Changed(After(history[..n]), history[n].0, history[n].1)
  }

  // ---------------------------------------------------------------- device names and metrics

  /** No route carries the metric that stands for the default. */
  ghost predicate MetricsSet(i: InterfaceState) {
    forall r :: r in i.routes ==> r.metric != 0
  }

  ghost predicate GoodListener(l: ListenerState) {
    NamesDiffer(l.interfaces) && forall i :: i in l.interfaces ==> MetricsSet(i)
  }

  /** Device names are unique over all listeners, and metrics are set. */
  ghost predicate GoodNet(net: Net) {
    && (forall l :: l in net ==> GoodListener(l))
    && (forall k, m :: 0 <= k < |net| && 0 <= m < |net| && k != m ==> InterfaceNamesApart(net[k], net[m]))
  }

  lemma ReplaceGood(net: Net, k: nat, l: ListenerState)
    requires GoodNet(net) && k < |net| && GoodListener(l)
    requires forall m :: 0 <= m < |net| && m != k ==> InterfaceNamesApart(l, net[m])
    ensures GoodNet(net[k := l])
  {
    forall m | 0 <= m < |net| && m != k ensures InterfaceNamesApart(net[m], l) {
      assert InterfaceNamesApart(l, net[m]);
    }
  }

  /** Fewer or renamed-from-among-themselves interfaces keep listeners apart. */
  lemma SubsetApart(l: ListenerState, l': ListenerState, m: ListenerState)
    requires InterfaceNamesApart(l, m) && forall i :: i in l'.interfaces ==> exists j :: j in l.interfaces && j.name == i.name
    ensures InterfaceNamesApart(l', m)
  {
  }

  lemma SubsetGood(net: Net, k: nat, l: ListenerState)
    requires GoodNet(net) && k < |net| && GoodListener(l)
    requires forall i :: i in l.interfaces ==> exists j :: j in net[k].interfaces && j.name == i.name
    ensures GoodNet(net[k := l])
  {
    forall m | 0 <= m < |net| && m != k ensures InterfaceNamesApart(l, net[m]) {
      SubsetApart(net[k], l, net[m]);
    }
    ReplaceGood(net, k, l);
  }

  /** An interface replaced by one of the same name. */
  lemma EditGood(net: Net, k: nat, m: nat, x: InterfaceState)
    requires GoodNet(net) && k < |net| && m < |net[k].interfaces|
    requires x.name == net[k].interfaces[m].name && MetricsSet(x)
    ensures GoodNet(WithInterfaces(net, k, net[k].interfaces[m := x]))
  {
    var s := net[k].interfaces;
    assert net[k] in net && s[m] in s;
    forall i | i in s[m := x] ensures exists j :: j in s && j.name == i.name {
      if i == x {
        assert s[m].name == i.name;
      } else {
        assert i in s;
      }
    }
    SubsetGood(net, k, net[k].(interfaces := s[m := x]));
  }

  lemma RemoveGood(net: Net, k: nat, m: nat)
    requires GoodNet(net) && k < |net| && m < |net[k].interfaces|
    ensures GoodNet(WithInterfaces(net, k, RemoveAt(net[k].interfaces, m)))
  {
    assert net[k] in net;
    forall i | i in RemoveAt(net[k].interfaces, m) ensures exists j :: j in net[k].interfaces && j.name == i.name {
      assert i in net[k].interfaces;
    }
    SubsetGood(net, k, net[k].(interfaces := RemoveAt(net[k].interfaces, m)));
  }

  /** An interface with a name that is not in use. */
  lemma AppendGood(net: Net, k: nat, x: InterfaceState, host: Host)
    requires GoodNet(net) && k < |net| && !NameTaken(net, x.name, host) && MetricsSet(x)
    ensures GoodNet(WithInterfaces(net, k, net[k].interfaces + [x]))
  {
    var s := net[k].interfaces;
    var l := net[k].(interfaces := s + [x]);
    assert net[k] in net;
    assert forall i :: i in s ==> i.name != x.name;
    forall m | 0 <= m < |net| && m != k ensures InterfaceNamesApart(l, net[m]) {
      assert InterfaceNamesApart(net[k], net[m]) && net[m] in net;
    }
    ReplaceGood(net, k, l);
  }

  lemma EditKeepsMetrics(i: InterfaceState, op: InterfaceOp, size: int, host: Host)
    requires MetricsSet(i)
    ensures MetricsSet(EditInterface(i, op, size, host))
  {
    if op.OpRemoveRoute? {
      forall r | r in RemoveRoute(i.routes, op.destination, op.gateway) ensures r in i.routes {
        RemoveRouteMembers(i.routes, op.destination, op.gateway, r);
      }
    }
  }

  lemma {:induction false} AddRoutesKeepsMetrics(t: RouteTable, cs: seq<RouteConfig>, host: Host)
    requires forall r :: r in t ==> r.metric != 0
    ensures forall r :: r in AddRoutes(t, cs, host) ==> r.metric != 0
    decreases |cs|
  {
    if cs != [] {
      AddRoutesKeepsMetrics(AddRoute(t, RouteOf(cs[0]), host), cs[1..], host);
    }
  }

  lemma ConfigureKeepsMetrics(i: InterfaceState, ic: InterfaceConfig, host: Host)
    requires MetricsSet(i)
    ensures MetricsSet(Configure(i, ic, host).1)
  {
    forall r | r in FlushRoutes(i.routes) ensures r.metric != 0 {
      FlushLeavesNoPermanent(i.routes, r);
    }
    AddRoutesKeepsMetrics(FlushRoutes(i.routes), ic.routes, host);
  }

  // ---------------------------------------------------------------- the reconciler

  lemma ApplyInterfaceGood(net: Net, k: nat, ic: InterfaceConfig, host: Host)
    requires ValidNet(net) && GoodNet(net) && k < |net|
    ensures GoodNet(ApplyInterface(net, k, ic, host).net)
  {
    var l := net[k];
    var x, m := Result(l, ic, host), FindVni(l.interfaces, ic.vni);
    assert l in net;
    ResultShape(l, ic, host);
    if m < |l.interfaces| {
      assert l.interfaces[m] in l.interfaces;
      ConfigureKeepsMetrics(Base(l, ic, host), ic, host);
      EditGood(net, k, m, x);
    } else if !Refused(net, k, ic, host) {
      ConfigureKeepsMetrics(Base(l, ic, host), ic, host);
      AppendGood(net, k, x, host);
    }
  }

  lemma {:induction false} ApplyInterfacesGood(net: Net, k: nat, ics: seq<InterfaceConfig>, host: Host)
    requires ValidNet(net) && GoodNet(net) && k < |net| && net[k].permanent
    ensures GoodNet(ApplyInterfaces(net, k, ics, host).net)
    decreases |ics|
  {
    if ics != [] {
      ApplyInterfaceGood(net, k, ics[0], host);
      ApplyInterfaceEffect(net, k, ics[0], host);
      if ApplyInterface(net, k, ics[0], host).ok {
        ApplyInterfacesGood(ApplyInterface(net, k, ics[0], host).net, k, ics[1..], host);
      }
    }
  }

  lemma AppendListenerGood(net: Net, l: ListenerState)
    requires GoodNet(net) && l.interfaces == []
    ensures GoodNet(net + [l])
  {
  }

  lemma EnsureGood(net: Net, lc: ListenerConfig, host: Host)
    requires GoodNet(net)
    ensures GoodNet(EnsureListener(net, lc, host).net)
  {
    var k := FindListener(net, lc.address);
    if k < |net| {
      var l := SetMaxMessageSize(net[k].(permanent := true), lc.maxMessageSize);
      assert net[k] in net;
      SubsetGood(net, k, l);
    } else {
      AppendListenerGood(net, ListenerState(lc.name, lc.address, true, lc.maxMessageSize, []));
    }
  }

  lemma {:induction false} ApplyListenersGood(net: Net, cfg: Config, host: Host)
    requires ValidNet(net) && GoodNet(net)
    ensures GoodNet(ApplyListeners(net, cfg, host).net)
    decreases |cfg|
  {
    if cfg != [] {
      var o := EnsureListener(net, cfg[0], host);
      EnsureGood(net, cfg[0], host);
      if o.ok {
        EnsureEffect(net, cfg[0], host);
        ApplyInterfacesGood(o.net, FindListener(net, cfg[0].address), cfg[0].interfaces, host);
        ApplyListenerValid(net, cfg[0], host);
        if ApplyListener(net, cfg[0], host).ok {
          ApplyListenersGood(ApplyListener(net, cfg[0], host).net, cfg[1..], host);
        }
      }
    }
  }

  lemma {:induction false} FilterKeepsNamesDiffer(s: seq<InterfaceState>, keep: InterfaceState -> bool)
    requires NamesDiffer(s)
    ensures NamesDiffer(Filter(s, keep))
  {
    if s != [] {
      FilterKeepsNamesDiffer(s[1..], keep);
      FilterMembers(s[1..], keep);
      var rest := Filter(s[1..], keep);
      forall j | 0 <= j < |rest| ensures rest[j].name != s[0].name {
        assert rest[j] in s[1..];
      }
    }
  }

  lemma PruneListenerGood(cfg: Config, l: ListenerState)
    requires GoodListener(l) && PruneListener(cfg, l).Some?
    ensures var l' := PruneListener(cfg, l).value; GoodListener(l') && forall i :: i in l'.interfaces ==> i in l.interfaces
  {
    if l.permanent {
      var keep := Stays(FindConfig(cfg, l.address, l.name).value);
      FilterKeepsNamesDiffer(l.interfaces, keep);
      FilterMembers(l.interfaces, keep);
    }
  }

  lemma {:induction false} PruneGood(net: Net, cfg: Config)
    requires GoodNet(net)
    ensures GoodNet(Prune(net, cfg))
  {
    if net != [] {
      var tail := net[1..];
      forall k, m | 0 <= k < |tail| && 0 <= m < |tail| && k != m ensures InterfaceNamesApart(tail[k], tail[m]) {
        assert InterfaceNamesApart(net[k + 1], net[m + 1]);
      }
      PruneGood(tail, cfg);
      var rest := Prune(tail, cfg);
      if PruneListener(cfg, net[0]).Some? {
        var l := PruneListener(cfg, net[0]).value;
        PruneListenerGood(cfg, net[0]);
        forall j | 0 <= j < |rest| ensures InterfaceNamesApart(l, rest[j]) && InterfaceNamesApart(rest[j], l) {
          PruneMembers(tail, cfg, rest[j]);
          var x :| x in tail && PruneListener(cfg, x) == Some(rest[j]);
          PruneListenerGood(cfg, x);
          var n :| 0 <= n < |tail| && tail[n] == x;
          assert InterfaceNamesApart(net[0], net[n + 1]);
        }
        ConsGood(l, rest);
      }
    }
  }

  lemma ConsGood(l: ListenerState, rest: Net)
    requires GoodListener(l) && GoodNet(rest)
    requires forall j :: 0 <= j < |rest| ==> InterfaceNamesApart(l, rest[j]) && InterfaceNamesApart(rest[j], l)
    ensures GoodNet([l] + rest)
  {
  }

  // ---------------------------------------------------------------- one change

  lemma ApplyKeeps(net: Net, cfg: Config, host: Host)
    requires ValidNet(net) && GoodNet(net)
    ensures ValidNet(ApplyConfig(net, cfg, host).net) && GoodNet(ApplyConfig(net, cfg, host).net)
  {
    PruneValid(net, cfg);
    PruneGood(net, cfg);
    ApplyListenersValid(Prune(net, cfg), cfg, host);
    ApplyListenersGood(Prune(net, cfg), cfg, host);
  }

  lemma EditKeeps(net: Net, k: nat, m: nat, op: InterfaceOp, host: Host)
    requires ValidNet(net) && GoodNet(net) && k < |net| && m < |net[k].interfaces|
    ensures ValidNet(Changed(net, EditInterfaceAt(k, m, op), host)) && GoodNet(Changed(net, EditInterfaceAt(k, m, op), host))
  {
    var l, i := net[k], net[k].interfaces[m];
    var x := EditInterface(i, op, l.maxMessageSize, host);
    assert l in net && i in l.interfaces;
    EditKeepsInterface(i, op, l.maxMessageSize, host);
    EditKeepsMetrics(i, op, l.maxMessageSize, host);
    ReplaceInterfaceKeepsValid(l, m, x);
    ReplaceListenerKeepsValid(net, k, l.(interfaces := l.interfaces[m := x]));
    EditGood(net, k, m, x);
  }

  lemma StartInterfaceKeeps(net: Net, k: nat, name: string, vni: nat, mtu: int, permanent: bool, host: Host)
    requires ValidNet(net) && GoodNet(net) && k < |net|
    ensures var net' := OrSame(net, NewInterface(net, k, name, vni, mtu, permanent, host)); ValidNet(net') && GoodNet(net')
  {
    NewInterfaceKeepsValid(net, k, name, vni, mtu, permanent, host);
    if NewInterface(net, k, name, vni, mtu, permanent, host).Some? {
      AppendGood(net, k, FreshInterface(name, vni, mtu, net[k].maxMessageSize, permanent, host), host);
    }
  }

  lemma StartListenerKeeps(net: Net, name: string, address: string, size: int, permanent: bool, host: Host)
    requires ValidNet(net) && GoodNet(net)
    ensures var net' := OrSame(net, NewListener(net, name, address, size, permanent, host)); ValidNet(net') && GoodNet(net')
  {
    NewListenerKeepsValid(net, name, address, size, permanent, host);
    AppendListenerGood(net, ListenerState(name, address, permanent, size, []));
  }

  lemma SizeKeeps(net: Net, k: nat, size: int)
    requires ValidNet(net) && GoodNet(net) && k < |net|
    ensures ValidNet(net[k := SetMaxMessageSize(net[k], size)]) && GoodNet(net[k := SetMaxMessageSize(net[k], size)])
  {
    assert net[k] in net;
    ReplaceListenerKeepsValid(net, k, SetMaxMessageSize(net[k], size));
    SubsetGood(net, k, SetMaxMessageSize(net[k], size));
  }

  lemma CloseInterfaceKeeps(net: Net, k: nat, m: nat)
    requires ValidNet(net) && GoodNet(net) && k < |net| && m < |net[k].interfaces|
    ensures var net' := WithInterfaces(net, k, RemoveAt(net[k].interfaces, m)); ValidNet(net') && GoodNet(net')
  {
    assert net[k] in net;
    RemoveInterfaceKeepsValid(net[k], m);
    ReplaceListenerKeepsValid(net, k, net[k].(interfaces := RemoveAt(net[k].interfaces, m)));
    RemoveGood(net, k, m);
  }

  lemma CloseListenerKeeps(net: Net, k: nat)
    requires ValidNet(net) && GoodNet(net) && k < |net|
    ensures ValidNet(RemoveAt(net, k)) && GoodNet(RemoveAt(net, k))
  {
    RemoveListenerKeepsValid(net, k);
  }

  /** Every change keeps the invariants. */
  lemma ChangeKeeps(net: Net, c: Change, host: Host)
    requires ValidNet(net) && GoodNet(net)
    ensures ValidNet(Changed(net, c, host)) && GoodNet(Changed(net, c, host))
  {
    match c
    case StartListener(name, address, size, permanent) => StartListenerKeeps(net, name, address, size, permanent, host);
    case SizeListener(k, size) => if k < |net| { SizeKeeps(net, k, size); }
    case CloseListener(k) => if k < |net| { CloseListenerKeeps(net, k); }
    case StartInterface(k, name, vni, mtu, permanent) =>
      if k < |net| { StartInterfaceKeeps(net, k, name, vni, mtu, permanent, host); }
    case EditInterfaceAt(k, m, op) => if k < |net| && m < |net[k].interfaces| { EditKeeps(net, k, m, op, host); }
    case CloseInterface(k, m) => if k < |net| && m < |net[k].interfaces| { CloseInterfaceKeeps(net, k, m); }
    case Apply(cfg) => ApplyKeeps(net, cfg, host);
  }

  // ---------------------------------------------------------------- every run

  /** Over every history: listeners are unique by address and by name, interfaces on a listener by VNI, device names
      over the whole registry; a permanent interface sits on a permanent listener; and every table is sound. */
  lemma {:induction false} RegistryInvariant(history: seq<(Change, Host)>)
    ensures ValidNet(After(history)) && GoodNet(After(history))
  {
    if history != [] {
      var n := |history| - 1;
      RegistryInvariant(history[..n]);
      ChangeKeeps(After(history[..n]), history[n].0, history[n].1);
    }
  }

  /** On every listener that any history leads to, a datagram disturbs at most one interface. */
  lemma ReachableDelivery(history: seq<(Change, Host)>, l: ListenerState, datagram: Bytes, parse: Parsing.Arp -> Packet, now: ArpTable.Time, j: nat, k: nat)
    requires l in After(history) && l.maxMessageSize >= 0 && j < |l.interfaces| && k < |l.interfaces|
    requires var f := Tunnel.Received(datagram, l.maxMessageSize);
      Delivery.Disturbs(l.interfaces[j], f, parse, now) && Delivery.Disturbs(l.interfaces[k], f, parse, now)
    ensures j == k
  {
    RegistryInvariant(history);
    Delivery.DeliveryIsExclusive(l.interfaces, Tunnel.Received(datagram, l.maxMessageSize), parse, now, k);
  }

  /** Restarting any reachable registry. Saved, read back by a program just started, and saved again, it gives the same
      configuration, provided no permanent interface has an MTU that stands for the default. */
  lemma ReachableRestarts(history: seq<(Change, Host)>, host: Host)
    requires forall l, i :: l in After(history) && i in l.interfaces && i.permanent ==> i.mtu > 1
    requires SaveRoundTrip.Provides(host, SaveConfig(After(history)))
    ensures ApplyConfig([], SaveConfig(After(history)), host).ok
    ensures SaveConfig(ApplyConfig([], SaveConfig(After(history)), host).net) == SaveConfig(After(history))
  {
    var net := After(history);
    RegistryInvariant(history);
    forall k, m | 0 <= k < m < |net| ensures InterfaceNamesApart(net[k], net[m]) {
      assert InterfaceNamesApart(net[k], net[m]);
    }
    forall l, i | l in net && i in l.interfaces ensures SaveRoundTrip.SavableInterface(i) {
      assert GoodListener(l) && MetricsSet(i);
    }
    forall l | l in net ensures NamesDiffer(l.interfaces) {
      assert GoodListener(l);
    }
    SaveRoundTrip.SaveAfterRestart(net, host);
  }
}
