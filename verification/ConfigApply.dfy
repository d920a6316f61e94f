/** ApplyConfig and SaveConfig as the program performs them on its listeners and interfaces, each proved to do what the
    reconciler on values does. */
module ConfigApply {
  import opened Addresses
  import ArpTable
  import opened Forwarding
  import Idempotence
  import opened Lifecycle
  import opened Reconcile
  import opened ReconcileProofs
  import opened Registry
  import opened Sequences
  import opened Switch

  // ---------------------------------------------------------------- one interface

  /** All interfaces but the one at m are as they were. */
  twostate predicate OthersUnchanged(s: seq<Interface>, m: int)
    reads s
  {
    forall j :: 0 <= j < |s| && j != m ==> unchanged(s[j])
  }

  /** The interface with a VNI, made permanent, or null; its position is found by the same scan on values. */
  method ClaimInterface(l: Listener, vni: nat) returns (i: Interface?)
    requires forall x, y :: 0 <= x < y < |l.interfaces| ==> l.interfaces[x].vni != l.interfaces[y].vni
    modifies l.interfaces
    ensures var m := FindVni(old(States(l.interfaces)), vni);
      && OthersUnchanged(l.interfaces, m)
      && if m < |l.interfaces| then
           i == l.interfaces[m] && l.interfaces[m].State() == old(l.interfaces[m].State()).(permanent := true) && StillOpen(l.interfaces[m])
         else i == null
  {
    i := null;
    ghost var m := FindVni(States(l.interfaces), vni);
    assert m < |l.interfaces| ==> States(l.interfaces)[m].vni == l.interfaces[m].vni == vni;
    assert forall j :: 0 <= j < m ==> States(l.interfaces)[j].vni == l.interfaces[j].vni != vni;
    var n := 0;
    while n < |l.interfaces|
      invariant 0 <= n <= |l.interfaces|
      invariant OthersUnchanged(l.interfaces, m)
      invariant if m < n then
           i == l.interfaces[m] && l.interfaces[m].State() == old(l.interfaces[m].State()).(permanent := true) && StillOpen(l.interfaces[m])
         else i == null
      invariant n <= m < |l.interfaces| ==> unchanged(l.interfaces[m])
    {
      if l.interfaces[n].vni == vni {
        assert n == m;
        i := l.interfaces[n];
        i.permanent := true;
      }
      n := n + 1;
    }
  }

  /** The registry with the interface at m on listener k replaced. */
  ghost function EditAt(net: Net, k: nat, m: nat, x: InterfaceState): Net
    requires k < |net| && m < |net[k].interfaces|
  {
    WithInterfaces(net, k, net[k].interfaces[m := x])
  }

  lemma EditValid(net: Net, k: nat, m: nat, x: InterfaceState)
    requires ValidNet(net) && k < |net| && m < |net[k].interfaces|
    requires ValidInterface(x) && x.vni == net[k].interfaces[m].vni && (x.permanent ==> net[k].permanent)
    ensures ValidNet(EditAt(net, k, m, x))
  {
    assert net[k] in net;
    ReplaceInterfaceKeepsValid(net[k], m, x);
    ReplaceListenerKeepsValid(net, k, net[k].(interfaces := net[k].interfaces[m := x]));
  }

  lemma KnownListener(app: App, k: nat)
    requires app.Valid() && k < |app.listeners|
    ensures app.listeners[k].Open() && ValidListener(app.listeners[k].State()) && app.State()[k] == app.listeners[k].State()
    ensures forall j :: 0 <= j < |app.listeners| && j != k ==>
      app.listeners[j] != app.listeners[k] && forall i :: i in app.listeners[j].interfaces ==> i !in app.listeners[k].interfaces
  {
    app.Listed(k);
    forall j | 0 <= j < |app.listeners| && j != k
      ensures app.listeners[j] != app.listeners[k] && forall i :: i in app.listeners[j].interfaces ==> i !in app.listeners[k].interfaces
    {
      app.ListedOnce(k, j);
    }
  }

  /** Configure the interface at m, where that is to give (done, x). */
  method ConfigureAt(app: App, l: Listener, i: Interface, ic: InterfaceConfig, host: Host,
                     ghost k: nat, ghost m: nat, ghost done: bool, ghost x: InterfaceState) returns (ok: bool)
    requires app.Valid() && k < |app.listeners| && app.listeners[k] == l
    requires m < |l.interfaces| && l.interfaces[m] == i && Configure(i.State(), ic, host) == (done, x)
    requires ValidNet(EditAt(app.State(), k, m, x))
    modifies i
    ensures app.Valid() && ok == done
    ensures app.State() == old(EditAt(app.State(), k, m, x))
  {
    ghost var goal := EditAt(app.State(), k, m, x);
    KnownListener(app, k);
    l.DistinctObjects();
    ok := i.Configure(ic, host);
    l.OneChanged(m);
    app.OneChanged(k);
    assert app.State() == goal;
    app.OneChangedValid(k);
  }

  lemma NewGoal(net: Net, k: nat, ic: InterfaceConfig, host: Host)
    requires ValidNet(net) && k < |net| && net[k].permanent && !HasVni(net[k].interfaces, ic.vni)
    ensures var made, goal := NewInterface(net, k, ic.name, ic.vni, ic.mtu, true, host), Reconcile.ApplyInterface(net, k, ic, host);
      if made.None? then goal == Outcome(false, net)
      else
        var s, m := made.value[k].interfaces, |net[k].interfaces|;
        && |s| == m + 1
        && var (ok, x) := Configure(s[m], ic, host);
           goal == Outcome(ok, WithInterfaces(made.value, k, s[m := x])) && ValidNet(goal.net)
  {
    var s := net[k].interfaces;
    var x := Result(net[k], ic, host);
    ApplyInterfaceEffect(net, k, ic, host);
    assert net[k] in net;
    ResultShape(net[k], ic, host);
    assert FindVni(s, ic.vni) == |s|;
    var begun := FreshInterface(ic.name, ic.vni, ic.mtu, net[k].maxMessageSize, true, host);
    assert (s + [begun])[|s| := x] == s + [x];
  }

  /** Create an interface and configure it. */
  method AddInterface(app: App, l: Listener, ic: InterfaceConfig, host: Host, ghost k: nat) returns (ok: bool)
    requires app.Valid() && k < |app.listeners| && app.listeners[k] == l && l.permanent
    requires !HasVni(l.State().interfaces, ic.vni)
    modifies l`interfaces
    ensures app.Valid()
    ensures Outcome(ok, app.State()) == old(Reconcile.ApplyInterface(app.State(), k, ic, host))
    ensures forall i :: i in l.interfaces ==> i in old(l.interfaces) || fresh(i)
  {
    NewGoal(app.State(), k, ic, host);
    ghost var m := |l.interfaces|;
    var i := app.NewInterface(ic.name, ic.vni, ic.mtu, l, true, host, k);
    if i == null {
      return false;
    }
    ghost var (done, x) := Configure(app.State()[k].interfaces[m], ic, host);
    ok := ConfigureAt(app, l, i, ic, host, k, m, done, x);
  }

  lemma EditTwice(net: Net, k: nat, m: nat, b: InterfaceState, x: InterfaceState)
    requires k < |net| && m < |net[k].interfaces|
    ensures EditAt(EditAt(net, k, m, b), k, m, x) == EditAt(net, k, m, x)
  {
    assert net[k].interfaces[m := b][m := x] == net[k].interfaces[m := x];
  }

  /** What ApplyInterface comes to when the VNI is there: the interface at m becomes x. */
  lemma UpdateGoal(net: Net, k: nat, m: nat, ic: InterfaceConfig, host: Host)
    requires ValidNet(net) && k < |net| && net[k].permanent && m == FindVni(net[k].interfaces, ic.vni) < |net[k].interfaces|
    ensures var (ok, x) := Configure(SetMtu(net[k].interfaces[m].(permanent := true), ic.mtu, net[k].maxMessageSize, host), ic, host);
      Reconcile.ApplyInterface(net, k, ic, host) == Outcome(ok, EditAt(net, k, m, x)) && ValidNet(EditAt(net, k, m, x))
  {
    ApplyInterfaceEffect(net, k, ic, host);
    assert net[k] in net;
    ResultShape(net[k], ic, host);
  }

  /** The registry with the interface of a VNI, if any, made permanent. */
  ghost function Marked(net: Net, k: nat, vni: nat): Net
    requires k < |net|
  {
    var m := FindVni(net[k].interfaces, vni);
    if m < |net[k].interfaces| then EditAt(net, k, m, net[k].interfaces[m].(permanent := true)) else net
  }

  lemma MarkedValid(net: Net, k: nat, vni: nat)
    requires ValidNet(net) && k < |net| && net[k].permanent
    ensures ValidNet(Marked(net, k, vni))
  {
    var m := FindVni(net[k].interfaces, vni);
    if m < |net[k].interfaces| {
      assert net[k] in net && net[k].interfaces[m] in net[k].interfaces;
      EditValid(net, k, m, net[k].interfaces[m].(permanent := true));
    }
  }

  /** Find the interface with a VNI and make it permanent. */
  method TakeInterface(app: App, l: Listener, vni: nat, ghost k: nat) returns (i: Interface?)
    requires app.Valid() && k < |app.listeners| && app.listeners[k] == l && l.permanent
    modifies l.interfaces
    ensures app.Valid()
    ensures app.State() == Marked(old(app.State()), k, vni)
    ensures var m := FindVni(old(app.State())[k].interfaces, vni);
      if m < |l.interfaces| then i == l.interfaces[m] else i == null
  {
    ghost var net := app.State();
    ghost var goal := Marked(net, k, vni);
    MarkedValid(net, k, vni);
    KnownListener(app, k);
    l.DistinctObjects();
    i := ClaimInterface(l, vni);
    if i != null {
      l.OneChanged(FindVni(net[k].interfaces, vni));
    } else {
      UntouchedState(l);
    }
    app.OneChanged(k);
    assert app.State() == goal;
    app.OneChangedValid(k);
  }

  /** Give the interface at m its MTU. */
  method SizeInterface(app: App, l: Listener, i: Interface, mtu: int, host: Host, ghost k: nat, ghost m: nat)
    requires app.Valid() && k < |app.listeners| && app.listeners[k] == l
    requires m < |l.interfaces| && l.interfaces[m] == i
    modifies i
    ensures app.Valid()
    ensures app.State() == old(EditAt(app.State(), k, m, SetMtu(i.State(), mtu, l.maxMessageSize, host)))
  {
    ghost var net, x := app.State(), SetMtu(i.State(), mtu, l.maxMessageSize, host);
    KnownListener(app, k);
    l.DistinctObjects();
    assert l.State().interfaces[m] in l.State().interfaces;
    EditValid(net, k, m, x);
    var _ := i.SetMTU(mtu, host);
    l.OneChanged(m);
    app.OneChanged(k);
    app.OneChangedValid(k);
  }

  /** Give the interface at m its MTU and configure it, where that is to give (done, x). */
  method UpdateInterface(app: App, l: Listener, i: Interface, ic: InterfaceConfig, host: Host,
                         ghost k: nat, ghost m: nat, ghost done: bool, ghost x: InterfaceState) returns (ok: bool)
    requires app.Valid() && k < |app.listeners| && app.listeners[k] == l
    requires m < |l.interfaces| && l.interfaces[m] == i
    requires Configure(SetMtu(i.State(), ic.mtu, l.maxMessageSize, host), ic, host) == (done, x)
    requires ValidNet(EditAt(app.State(), k, m, x))
    modifies i
    ensures app.Valid() && ok == done
    ensures app.State() == old(EditAt(app.State(), k, m, x))
  {
    EditTwice(app.State(), k, m, SetMtu(i.State(), ic.mtu, l.maxMessageSize, host), x);
    SizeInterface(app, l, i, ic.mtu, host, k, m);
    ok := ConfigureAt(app, l, i, ic, host, k, m, done, x);
  }

  /** One interface of the configuration: take the interface with the VNI and make it permanent, or create one; then
      configure it. */
  method ApplyInterface(app: App, l: Listener, ic: InterfaceConfig, host: Host, ghost k: nat) returns (ok: bool)
    requires app.Valid() && k < |app.listeners| && app.listeners[k] == l && l.permanent
    modifies l`interfaces, l.interfaces
    ensures app.Valid()
    ensures Outcome(ok, app.State()) == old(Reconcile.ApplyInterface(app.State(), k, ic, host))
    ensures forall i :: i in l.interfaces ==> i in old(l.interfaces) || fresh(i)
  {
    ghost var net := app.State();
    ghost var m := FindVni(net[k].interfaces, ic.vni);
    var i := TakeInterface(app, l, ic.vni, k);
    if i == null {
      ok := AddInterface(app, l, ic, host, k);
    } else {
      UpdateGoal(net, k, m, ic, host);
      ghost var b := net[k].interfaces[m].(permanent := true);
      ghost var (done, x) := Configure(SetMtu(b, ic.mtu, l.maxMessageSize, host), ic, host);
      EditTwice(net, k, m, b, x);
      ok := UpdateInterface(app, l, i, ic, host, k, m, done, x);
    }
  }

  /** The interfaces of one configured listener, in order, up to the first that fails. */
  method ApplyInterfaces(app: App, l: Listener, ics: seq<InterfaceConfig>, host: Host, ghost k: nat) returns (ok: bool)
    requires app.Valid() && k < |app.listeners| && app.listeners[k] == l && l.permanent
    modifies l`interfaces, set i | i in l.interfaces
    ensures app.Valid()
    ensures Outcome(ok, app.State()) == old(Reconcile.ApplyInterfaces(app.State(), k, ics, host))
    ensures forall i :: i in l.interfaces ==> i in old(l.interfaces) || fresh(i)
  {
    ghost var goal := Reconcile.ApplyInterfaces(app.State(), k, ics, host);
    assert ics[0..] == ics;
    var n := 0;
    while n < |ics|
      invariant 0 <= n <= |ics|
      invariant app.Valid()
      invariant Reconcile.ApplyInterfaces(app.State(), k, ics[n..], host) == goal
      invariant forall i :: i in l.interfaces ==> i in old(l.interfaces) || fresh(i)
    {
      assert ics[n..][0] == ics[n] && ics[n..][1..] == ics[n + 1..];
      ok := ApplyInterface(app, l, ics[n], host, k);
      if !ok {
        return;
      }
      n := n + 1;
    }
    return true;
  }

  // ---------------------------------------------------------------- one listener

  /** Find the listener with an address and make it permanent. */
  method ClaimListener(app: App, address: string) returns (l: Listener?)
    requires app.Valid()
    modifies app.listeners
    ensures app.Valid()
    ensures var k := FindListener(old(app.State()), address);
      if k < |app.listeners| then l == app.listeners[k] && app.State() == old(app.State())[k := old(app.State())[k].(permanent := true)]
      else l == null && app.State() == old(app.State())
    ensures forall x :: x in app.listeners ==> x.interfaces == old(x.interfaces)
  {
    ghost var net := app.State();
    var n := 0;
    while n < |app.listeners|
      invariant 0 <= n <= |app.listeners|
      invariant forall j :: 0 <= j < n ==> app.listeners[j].address != address
    {
      if app.listeners[n].address == address {
        l := app.listeners[n];
        assert FindListener(net, address) == n;
        KnownListener(app, n);
        PermanentIsValid(net, n);
        l.permanent := true;
        app.OneChanged(n);
        app.OneChangedValid(n);
        return;
      }
      n := n + 1;
    }
    l := null;
  }

  lemma PermanentIsValid(net: Net, k: nat)
    requires ValidNet(net) && k < |net|
    ensures ValidNet(net[k := net[k].(permanent := true)])
  {
    assert net[k] in net;
    ReplaceListenerKeepsValid(net, k, net[k].(permanent := true));
  }

  method SizeListener(app: App, l: Listener, size: int, ghost k: nat)
    requires app.Valid() && k < |app.listeners| && app.listeners[k] == l
    modifies l`maxMessageSize
    ensures app.Valid()
    ensures app.State() == old(app.State())[k := SetMaxMessageSize(old(app.State())[k], size)]
  {
    ghost var net := app.State();
    KnownListener(app, k);
    ReplaceListenerKeepsValid(net, k, SetMaxMessageSize(net[k], size));
    l.SetMaxMessageSize(size);
    app.OneChanged(k);
    app.OneChangedValid(k);
  }

  /** The listener of a configuration: the one with the address, made permanent and sized, or a new one. */
  method TakeListener(app: App, lc: ListenerConfig, host: Host) returns (l: Listener?, ghost k: nat)
    requires app.Valid()
    modifies app, app.listeners
    ensures app.Valid()
    ensures Outcome(l != null, app.State()) == old(EnsureListener(app.State(), lc, host))
    ensures l != null ==> k == old(FindListener(app.State(), lc.address)) < |app.listeners| && app.listeners[k] == l && l.permanent
    ensures forall x :: x in app.listeners ==> (x in old(app.listeners) && x.interfaces == old(x.interfaces)) || (fresh(x) && x.interfaces == [])
  {
    ghost var net := app.State();
    k := FindListener(net, lc.address);
    l := ClaimListener(app, lc.address);
    if l == null {
      l := app.NewListener(lc.name, lc.address, lc.maxMessageSize, true, host);
    } else {
      SizeListener(app, l, lc.maxMessageSize, k);
      assert app.State()[k].permanent;
    }
  }

  /** One listener of the configuration, then its interfaces. */
  method ApplyListener(app: App, lc: ListenerConfig, host: Host) returns (ok: bool)
    requires app.Valid()
    modifies app, app.listeners, app.Interfaces()
    ensures app.Valid()
    ensures Outcome(ok, app.State()) == old(Reconcile.ApplyListener(app.State(), lc, host))
    ensures forall l :: l in app.listeners ==> l in old(app.listeners) || fresh(l)
    ensures forall i :: i in app.Interfaces() ==> i in old(app.Interfaces()) || fresh(i)
  {
    EnsuredWhen(app.State(), lc, host);
    var l, k := TakeListener(app, lc, host);
    if l == null {
      return false;
    }
    ok := ApplyInterfaces(app, l, lc.interfaces, host, k);
  }

  lemma EnsuredWhen(net: Net, lc: ListenerConfig, host: Host)
    ensures var o := EnsureListener(net, lc, host);
      Reconcile.ApplyListener(net, lc, host) ==
      if o.ok then (EnsuredIsThere(net, lc, host); Reconcile.ApplyInterfaces(o.net, FindListener(net, lc.address), lc.interfaces, host)) else o
  {
  }

  lemma ApplyFrom(net: Net, cfg: Config, n: nat, host: Host)
    requires n < |cfg|
    ensures var o := Reconcile.ApplyListener(net, cfg[n], host);
      Reconcile.ApplyListeners(net, cfg[n..], host) == if o.ok then Reconcile.ApplyListeners(o.net, cfg[n + 1..], host) else o
  {
    assert cfg[n..][0] == cfg[n] && cfg[n..][1..] == cfg[n + 1..];
  }

  /** The second half of ApplyConfig: the listeners of the configuration, in order, up to the first that fails. */
  method ApplyListeners(app: App, cfg: Config, host: Host) returns (ok: bool)
    requires app.Valid()
    modifies app, (set l | l in app.listeners), app.Interfaces()
    ensures app.Valid()
    ensures Outcome(ok, app.State()) == old(Reconcile.ApplyListeners(app.State(), cfg, host))
  {
    ghost var goal := Reconcile.ApplyListeners(app.State(), cfg, host);
    assert cfg[0..] == cfg;
    var n := 0;
    while n < |cfg|
      invariant 0 <= n <= |cfg|
      invariant app.Valid()
      invariant Reconcile.ApplyListeners(app.State(), cfg[n..], host) == goal
      invariant forall l :: l in app.listeners ==> l in old(app.listeners) || fresh(l)
      invariant forall i :: i in app.Interfaces() ==> i in old(app.Interfaces()) || fresh(i)
    {
      ApplyFrom(app.State(), cfg, n, host);
      ok := ApplyListener(app, cfg[n], host);
      if !ok {
        return;
      }
      n := n + 1;
    }
    return true;
  }

  // ---------------------------------------------------------------- pruning

  /** The first listener of the configuration with this address and name. */
  method FindListenerConfig(cfg: Config, address: string, name: string) returns (found: Option<ListenerConfig>)
    ensures found == FindConfig(cfg, address, name)
  {
    var n := 0;
    assert cfg[0..] == cfg;
    while n < |cfg|
      invariant 0 <= n <= |cfg|
      invariant FindConfig(cfg, address, name) == FindConfig(cfg[n..], address, name)
    {
      if address == cfg[n].address && name == cfg[n].name {
        return Some(cfg[n]);
      }
      assert cfg[n..][1..] == cfg[n + 1..];
      n := n + 1;
    }
    return None;
  }

  /** Is the interface configured under its name and VNI? */
  method IsConfigured(lc: ListenerConfig, i: Interface) returns (found: bool)
    ensures found == ConfiguredAs(lc, i.name, i.vni)
  {
    found := false;
    var n := 0;
    while n < |lc.interfaces|
      invariant 0 <= n <= |lc.interfaces|
      invariant found <==> exists j :: 0 <= j < n && lc.interfaces[j].name == i.name && lc.interfaces[j].vni == i.vni
    {
      if lc.interfaces[n].name == i.name && lc.interfaces[n].vni == i.vni {
        found := true;
      }
      n := n + 1;
    }
  }

  /** A listener that has to go: permanent, and not configured under its address and name. */
  ghost predicate Dropped(cfg: Config, l: Listener)
    reads l
  {
    l.permanent && FindConfig(cfg, l.address, l.name).None?
  }

  /** An interface that has to go from a listener that stays. */
  ghost predicate Unwanted(cfg: Config, l: Listener, i: Interface)
    reads l, i
  {
    && l.permanent && FindConfig(cfg, l.address, l.name).Some?
    && i.permanent && !ConfiguredAs(FindConfig(cfg, l.address, l.name).value, i.name, i.vni)
  }

  ghost predicate NoRepeats(s: seq<object>) {
    forall x, y :: 0 <= x < y < |s| ==> s[x] != s[y]
  }

  /** The interfaces of one listener that have to go. */
  method CollectInterfaces(cfg: Config, l: Listener, found: ListenerConfig) returns (gone: seq<Interface>)
    requires l.permanent && FindConfig(cfg, l.address, l.name) == Some(found)
    requires NoRepeats(l.interfaces)
    ensures forall i :: i in l.interfaces ==> (i in gone <==> Unwanted(cfg, l, i))
    ensures forall i :: i in gone ==> i in l.interfaces
    ensures NoRepeats(gone)
  {
    gone := [];
    var n := 0;
    while n < |l.interfaces|
      invariant 0 <= n <= |l.interfaces|
      invariant forall j :: 0 <= j < n ==> (l.interfaces[j] in gone <==> Unwanted(cfg, l, l.interfaces[j]))
      invariant forall i :: i in gone ==> i in l.interfaces[..n]
      invariant NoRepeats(gone)
    {
      var i := l.interfaces[n];
      if i.permanent {
        var configured := IsConfigured(found, i);
        if !configured {
          gone := gone + [i];
        }
      }
      n := n + 1;
    }
  }

  /** Close one interface of a listener. */
  method CloseInterface(app: App, i: Interface, ghost k: nat, ghost m: nat)
    requires app.Valid() && k < |app.listeners| && m < |app.listeners[k].interfaces| && app.listeners[k].interfaces[m] == i
    modifies i`state, i`closed, i.listener`interfaces
    ensures app.Valid() && i.closed && i.state == Closed
    ensures app.listeners[k].interfaces == RemoveAt(old(app.listeners[k].interfaces), m)
    ensures app.State() == old(WithInterfaces(app.State(), k, RemoveAt(app.State()[k].interfaces, m)))
  {
    ghost var l, net := app.listeners[k], app.State();
    ghost var goal := WithInterfaces(net, k, RemoveAt(net[k].interfaces, m));
    assert ValidNet(goal) by {
      assert net[k] in net;
      RemoveInterfaceKeepsValid(net[k], m);
      ReplaceListenerKeepsValid(net, k, net[k].(interfaces := RemoveAt(net[k].interfaces, m)));
    }
    KnownListener(app, k);
    assert i in l.interfaces;
    l.DistinctObjects();
    RemoveFirstAt(l.interfaces, m);
    i.Close();
    l.OneRemoved(m);
    app.OneChanged(k);
    assert app.State() == goal;
    app.OneChangedValid(k);
  }

  lemma {:induction false} PruneWithout(net: Net, cfg: Config, k: nat)
    requires k < |net| && PruneListener(cfg, net[k]).None?
    ensures Prune(RemoveAt(net, k), cfg) == Prune(net, cfg)
  {
    if k == 0 {
      assert RemoveAt(net, 0) == net[1..];
    } else {
      PruneWithout(net[1..], cfg, k - 1);
      assert RemoveAt(net, k) == [net[0]] + RemoveAt(net[1..], k - 1);
    }
  }

  lemma {:induction false} PruneReplaced(net: Net, cfg: Config, k: nat, l: ListenerState)
    requires k < |net| && PruneListener(cfg, l) == PruneListener(cfg, net[k])
    ensures Prune(net[k := l], cfg) == Prune(net, cfg)
  {
    if k == 0 {
      assert net[0 := l] == [l] + net[1..];
    } else {
      PruneReplaced(net[1..], cfg, k - 1, l);
      assert net[k := l] == [net[0]] + net[1..][k - 1 := l];
    }
  }

  /** Closing what has to go does not change what pruning leaves. */
  lemma PruneWithoutInterface(net: Net, cfg: Config, k: nat, m: nat)
    requires k < |net| && m < |net[k].interfaces|
    requires net[k].permanent && FindConfig(cfg, net[k].address, net[k].name).Some?
    requires !Stays(FindConfig(cfg, net[k].address, net[k].name).value)(net[k].interfaces[m])
    ensures Prune(WithInterfaces(net, k, RemoveAt(net[k].interfaces, m)), cfg) == Prune(net, cfg)
  {
    FilterRemoveAt(net[k].interfaces, m, Stays(FindConfig(cfg, net[k].address, net[k].name).value));
    PruneReplaced(net, cfg, k, net[k].(interfaces := RemoveAt(net[k].interfaces, m)));
  }

  method CloseListener(app: App, cfg: Config, l: Listener)
    requires app.Valid() && l in app.listeners && Dropped(cfg, l)
    modifies app, l, set i | i in l.interfaces
    ensures app.Valid()
    ensures forall x :: x in app.listeners <==> x in old(app.listeners) && x != l
    ensures Prune(app.State(), cfg) == old(Prune(app.State(), cfg))
  {
    ghost var k :| 0 <= k < |app.listeners| && app.listeners[k] == l;
    KnownListener(app, k);
    app.Distinct();
    RemoveAtMembers(app.listeners, k);
    PruneWithout(app.State(), cfg, k);
    l.Close(app, k);
  }

  /** On the way through the listeners that have to go, with n of them closed. */
  ghost predicate Closing(app: App, cfg: Config, before: seq<Listener>, gone: seq<Listener>, n: nat)
    reads app, app.listeners, app.Interfaces(), gone
  {
    && app.Valid() && n <= |gone| && NoRepeats(gone)
    && (forall x :: x in app.listeners ==> x in before && x !in gone[..n])
    && (forall x :: x in before && x !in gone[..n] ==> x in app.listeners)
    && (forall j :: n <= j < |gone| ==> gone[j] in before && Dropped(cfg, gone[j]))
  }

  method CloseNext(app: App, cfg: Config, ghost before: seq<Listener>, gone: seq<Listener>, n: nat)
    requires n < |gone| && Closing(app, cfg, before, gone, n)
    modifies app, gone[n], set i | i in gone[n].interfaces
    ensures Closing(app, cfg, before, gone, n + 1)
    ensures Prune(app.State(), cfg) == old(Prune(app.State(), cfg))
  {
    assert gone[n] !in gone[..n] && gone[..n + 1] == gone[..n] + [gone[n]];
    CloseListener(app, cfg, gone[n]);
  }

  /** Close the listeners that have to go. */
  method CloseListeners(app: App, cfg: Config, gone: seq<Listener>)
    requires Closing(app, cfg, app.listeners, gone, 0)
    modifies app, (set x | x in gone), set x, i | x in gone && i in x.interfaces :: i
    ensures Closing(app, cfg, old(app.listeners), gone, |gone|)
    ensures Prune(app.State(), cfg) == old(Prune(app.State(), cfg))
  {
    ghost var before, goal := app.listeners, Prune(app.State(), cfg);
    var n := 0;
    while n < |gone|
      invariant 0 <= n <= |gone|
      invariant Closing(app, cfg, before, gone, n)
      invariant forall j :: n <= j < |gone| ==> gone[j].interfaces == old(gone[j].interfaces)
      invariant Prune(app.State(), cfg) == goal
    {
      CloseNext(app, cfg, before, gone, n);
      n := n + 1;
    }
  }

  /** A listed interface that has to go. */
  ghost predicate Due(app: App, cfg: Config, i: Interface)
    reads app, app.listeners, i
  {
    i.listener in app.listeners && i in i.listener.interfaces && Unwanted(cfg, i.listener, i)
  }

  /** On the way through the interfaces that have to go, with n of them closed. */
  ghost predicate Shedding(app: App, cfg: Config, gone: seq<Interface>, n: nat)
    reads app, app.listeners, app.Interfaces(), gone
  {
    && app.Valid() && n <= |gone| && NoRepeats(gone)
    && (forall j :: n <= j < |gone| ==> Due(app, cfg, gone[j]))
    && (forall l :: l in app.listeners ==> !Dropped(cfg, l))
    && (forall l :: l in app.listeners ==> forall i :: i in l.interfaces && Unwanted(cfg, l, i) ==> i in gone[n..])
  }

  lemma UnwantedIsPruned(app: App, cfg: Config, k: nat, m: nat)
    requires app.Valid() && k < |app.listeners| && m < |app.listeners[k].interfaces|
    requires Unwanted(cfg, app.listeners[k], app.listeners[k].interfaces[m])
    ensures var net := app.State(); Prune(WithInterfaces(net, k, RemoveAt(net[k].interfaces, m)), cfg) == Prune(net, cfg)
  {
    assert app.State()[k].interfaces[m] == app.listeners[k].interfaces[m].State();
    PruneWithoutInterface(app.State(), cfg, k, m);
  }

  lemma DistinctInterfaces(app: App, l: Listener)
    requires app.Valid() && l in app.listeners
    ensures NoRepeats(l.interfaces) && l.Open()
  {
    var k :| 0 <= k < |app.listeners| && app.listeners[k] == l;
    KnownListener(app, k);
    l.DistinctObjects();
  }

  /** Close one interface that has to go. */
  method ShedInterface(app: App, cfg: Config, i: Interface)
    requires app.Valid() && Due(app, cfg, i)
    modifies i`state, i`closed, i.listener`interfaces
    ensures app.Valid()
    ensures i !in i.listener.interfaces
    ensures forall x :: x in i.listener.interfaces ==> x in old(i.listener.interfaces)
    ensures forall x :: x in old(i.listener.interfaces) && x != i ==> x in i.listener.interfaces
    ensures Prune(app.State(), cfg) == old(Prune(app.State(), cfg))
  {
    ghost var k :| 0 <= k < |app.listeners| && app.listeners[k] == i.listener;
    ghost var m :| 0 <= m < |i.listener.interfaces| && i.listener.interfaces[m] == i;
    DistinctInterfaces(app, i.listener);
    RemoveAtMembers(i.listener.interfaces, m);
    UnwantedIsPruned(app, cfg, k, m);
    CloseInterface(app, i, k, m);
  }

  method ShedNext(app: App, cfg: Config, ghost gone: seq<Interface>, ghost n: nat, i: Interface)
    requires n < |gone| && gone[n] == i && Shedding(app, cfg, gone, n)
    modifies i`state, i`closed, i.listener`interfaces
    ensures Shedding(app, cfg, gone, n + 1)
    ensures Prune(app.State(), cfg) == old(Prune(app.State(), cfg))
    ensures forall x :: x in i.listener.interfaces ==> x in old(i.listener.interfaces)
  {
    assert gone[n..] == [gone[n]] + gone[n + 1..];
    ShedInterface(app, cfg, i);
    forall j | n + 1 <= j < |gone| ensures Due(app, cfg, gone[j]) {
      assert gone[j] != i && old(Due(app, cfg, gone[j]));
    }
    forall l, x | l in app.listeners && x in l.interfaces && Unwanted(cfg, l, x) ensures x in gone[n + 1..] {
      assert x in old(l.interfaces) && old(Unwanted(cfg, l, x));
      assert x != i;
    }
  }

  /** Close the interfaces that have to go; then pruning has nothing left to do. */
  method ShedInterfaces(app: App, cfg: Config, gone: seq<Interface>)
    requires Shedding(app, cfg, gone, 0)
    modifies gone, set i | i in gone :: i.listener
    ensures app.Valid()
    ensures forall l :: l in app.listeners ==> forall i :: i in l.interfaces ==> i in old(l.interfaces)
    ensures app.State() == old(Prune(app.State(), cfg))
  {
    ghost var goal := Prune(app.State(), cfg);
    var n := 0;
    while n < |gone|
      invariant 0 <= n <= |gone|
      invariant Shedding(app, cfg, gone, n)
      invariant Prune(app.State(), cfg) == goal
      invariant forall l :: l in app.listeners ==> forall i :: i in l.interfaces ==> i in old(l.interfaces)
    {
      ShedNext(app, cfg, gone, n, gone[n]);
      n := n + 1;
    }
    NothingToShed(app, cfg);
  }

  lemma NothingToShed(app: App, cfg: Config)
    requires app.Valid()
    requires forall l :: l in app.listeners ==> !Dropped(cfg, l) && forall i :: i in l.interfaces ==> !Unwanted(cfg, l, i)
    ensures Prune(app.State(), cfg) == app.State()
  {
    var net := app.State();
    forall l | l in net && l.permanent
      ensures FindConfig(cfg, l.address, l.name).Some?
      ensures forall i :: i in l.interfaces && i.permanent ==> Configured(FindConfig(cfg, l.address, l.name).value, i)
    {
      var k :| 0 <= k < |net| && net[k] == l;
      var x := app.listeners[k];
      assert x in app.listeners && l == x.State();
      forall i | i in l.interfaces && i.permanent ensures Configured(FindConfig(cfg, l.address, l.name).value, i) {
        var m :| 0 <= m < |l.interfaces| && l.interfaces[m] == i;
        assert x.interfaces[m] in x.interfaces && i == x.interfaces[m].State();
      }
    }
    Idempotence.PruneNothing(net, cfg);
  }

  // ---------------------------------------------------------------- the whole of it

  /** An interface is listed by its own listener only. */
  lemma Owned(app: App)
    requires app.Valid()
    ensures forall j :: 0 <= j < |app.listeners| ==> forall i :: i in app.listeners[j].interfaces ==> i.listener == app.listeners[j]
  {
    forall j | 0 <= j < |app.listeners| ensures forall i :: i in app.listeners[j].interfaces ==> i.listener == app.listeners[j] {
      app.Listed(j);
    }
  }

  lemma NoRepeatsAppend(a: seq<object>, b: seq<object>)
    requires NoRepeats(a) && NoRepeats(b) && forall x :: x in b ==> x !in a
    ensures NoRepeats(a + b)
  {
    forall i, j | 0 <= i < j < |a + b| ensures (a + b)[i] != (a + b)[j] {
      if i < |a| <= j {
        assert a[i] in a && b[j - |a|] in b;
      }
    }
  }

  /** Find what is permanent and no longer configured: listeners, and interfaces of listeners that stay. */
  method FindUnconfigured(app: App, cfg: Config) returns (listeners: seq<Listener>, interfaces: seq<Interface>)
    requires app.Valid()
    ensures Judged(app, cfg, listeners, interfaces)
  {
    listeners, interfaces := Scan(app, cfg);
  }

  method Scan(app: App, cfg: Config) returns (listeners: seq<Listener>, interfaces: seq<Interface>)
    requires app.Valid()
    ensures NoRepeats(listeners) && NoRepeats(interfaces)
    ensures forall j :: 0 <= j < |app.listeners| ==> (Dropped(cfg, app.listeners[j]) <==> app.listeners[j] in listeners)
    ensures forall x :: x in listeners ==> x in app.listeners
    ensures forall j :: 0 <= j < |app.listeners| ==>
      forall i :: i in app.listeners[j].interfaces ==> (Unwanted(cfg, app.listeners[j], i) <==> i in interfaces)
    ensures forall i :: i in interfaces ==> i.listener in app.listeners && i in i.listener.interfaces
  {
    listeners, interfaces := [], [];
    app.Distinct();
    Owned(app);
    var n := 0;
    while n < |app.listeners|
      invariant 0 <= n <= |app.listeners|
      invariant NoRepeats(listeners) && NoRepeats(interfaces)
      invariant forall j :: 0 <= j < n ==> (Dropped(cfg, app.listeners[j]) <==> app.listeners[j] in listeners)
      invariant forall x :: x in listeners ==> x in app.listeners[..n]
      invariant forall j :: 0 <= j < n ==>
        forall i :: i in app.listeners[j].interfaces ==> (Unwanted(cfg, app.listeners[j], i) <==> i in interfaces)
      invariant forall i :: i in interfaces ==> i.listener in app.listeners[..n] && i in i.listener.interfaces
    {
      var l := app.listeners[n];
      DistinctInterfaces(app, l);
      assert l !in app.listeners[..n];
      var gone, goes := Judge(cfg, l);
      if goes {
        NoRepeatsAppend(listeners, [l]);
        listeners := listeners + [l];
      }
      NoRepeatsAppend(interfaces, gone);
      interfaces := interfaces + gone;
      n := n + 1;
    }
  }

  /** One listener: does it go, and if it stays, which of its interfaces do? */
  method Judge(cfg: Config, l: Listener) returns (gone: seq<Interface>, goes: bool)
    requires NoRepeats(l.interfaces)
    ensures goes <==> Dropped(cfg, l)
    ensures NoRepeats(gone) && forall i :: i in gone ==> i in l.interfaces
    ensures forall i :: i in l.interfaces ==> (i in gone <==> Unwanted(cfg, l, i))
  {
    gone, goes := [], false;
    if l.permanent {
      var found := FindListenerConfig(cfg, l.address, l.name);
      if found.Some? {
        gone := CollectInterfaces(cfg, l, found.value);
      } else {
        goes := true;
      }
    }
  }

  /** What FindUnconfigured found, in one word. */
  ghost predicate Judged(app: App, cfg: Config, listeners: seq<Listener>, interfaces: seq<Interface>)
    reads app, app.listeners, app.Interfaces(), listeners, interfaces
  {
    && app.Valid() && NoRepeats(listeners) && NoRepeats(interfaces)
    && (forall x :: x in listeners ==> x in app.listeners && Dropped(cfg, x))
    && (forall x :: x in app.listeners && Dropped(cfg, x) ==> x in listeners)
    && (forall i :: i in interfaces ==> Due(app, cfg, i))
    && (forall l :: l in app.listeners ==> forall i :: i in l.interfaces && Unwanted(cfg, l, i) ==> i in interfaces)
  }

  /** Close the listeners that have to go; their closing touches nothing else. */
  method CloseDropped(app: App, cfg: Config, listeners: seq<Listener>, ghost interfaces: seq<Interface>)
    requires Judged(app, cfg, listeners, interfaces)
    modifies app, (set x | x in listeners), set x, i | x in listeners && i in x.interfaces :: i
    ensures app.Valid()
    ensures Prune(app.State(), cfg) == old(Prune(app.State(), cfg))
    ensures forall l :: l in app.listeners ==> l in old(app.listeners) && l !in listeners && Untouched(l)
    ensures forall l :: l in old(app.listeners) && l !in listeners ==> l in app.listeners
  {
    Owned(app);
    CloseListeners(app, cfg, listeners);
    assert listeners[..|listeners|] == listeners;
  }

  /** After that only interfaces are left to go. */
  method CloseFirst(app: App, cfg: Config, listeners: seq<Listener>, ghost interfaces: seq<Interface>)
    requires Judged(app, cfg, listeners, interfaces)
    modifies app, (set l | l in app.listeners), app.Interfaces()
    ensures Shedding(app, cfg, interfaces, 0)
    ensures Prune(app.State(), cfg) == old(Prune(app.State(), cfg))
    ensures forall l :: l in app.listeners ==> l in old(app.listeners) && l.interfaces == old(l.interfaces)
  {
    CloseDropped(app, cfg, listeners, interfaces);
    assert interfaces[0..] == interfaces;
    forall j | 0 <= j < |interfaces| ensures Due(app, cfg, interfaces[j]) {
      var i := interfaces[j];
      assert old(Due(app, cfg, i));
      assert i.listener in app.listeners;
      assert Untouched(i.listener);
    }
    forall l, i | l in app.listeners && i in l.interfaces && Unwanted(cfg, l, i) ensures i in interfaces {
      assert Untouched(l) && old(Unwanted(cfg, l, i));
    }
  }

  /** The first half of ApplyConfig: close what is permanent and no longer configured. */
  method CloseUnconfigured(app: App, cfg: Config)
    requires app.Valid()
    modifies app, (set l | l in app.listeners), app.Interfaces()
    ensures app.Valid()
    ensures app.State() == old(Prune(app.State(), cfg))
    ensures forall l :: l in app.listeners ==> l in old(app.listeners) && forall i :: i in l.interfaces ==> i in old(l.interfaces)
  {
    ghost var net := app.State();
    var listeners, interfaces := FindUnconfigured(app, cfg);
    assert app.State() == net;
    CloseFirst(app, cfg, listeners, interfaces);
    ShedInterfaces(app, cfg, interfaces);
  }

  /** ApplyConfig on the program's own registry does what the reconciler does on its value. */
  method ApplyConfig(app: App, cfg: Config, host: Host) returns (ok: bool)
    requires app.Valid()
    modifies app, (set l | l in app.listeners), app.Interfaces()
    ensures app.Valid()
    ensures Outcome(ok, app.State()) == old(Reconcile.ApplyConfig(app.State(), cfg, host))
  {
    CloseUnconfigured(app, cfg);
    ok := ApplyListeners(app, cfg, host);
  }

  // ---------------------------------------------------------------- saving

  lemma SaveArpsFrom(t: ArpTable.Table, n: nat, cs: seq<ArpConfig>)
    requires n < |t|
    ensures cs + SaveArps(t[n..]) == cs + (if t[n].permanent then [ArpConfig(t[n].addr, t[n].mac)] else []) + SaveArps(t[n + 1..])
  {
    assert t[n..][1..] == t[n + 1..];
  }

  method SaveArpConfigs(t: ArpTable.Table) returns (cs: seq<ArpConfig>)
    ensures cs == SaveArps(t)
  {
    ghost var goal := SaveArps(t);
    cs := [];
    var n := 0;
    assert t[0..] == t;
    while n < |t|
      invariant 0 <= n <= |t|
      invariant cs + SaveArps(t[n..]) == goal
    {
      SaveArpsFrom(t, n, cs);
      if t[n].permanent {
        cs := cs + [ArpConfig(t[n].addr, t[n].mac)];
      }
      n := n + 1;
    }
    assert t[n..] == [];
  }

  lemma SaveMacsFrom(t: MacTable, n: nat, cs: seq<MacConfig>)
    requires n < |t|
    ensures cs + SaveMacs(t[n..]) == cs + (if t[n].permanent then [MacConfig(t[n].mac, t[n].dst)] else []) + SaveMacs(t[n + 1..])
  {
    assert t[n..][1..] == t[n + 1..];
  }

  method SaveMacConfigs(t: MacTable) returns (cs: seq<MacConfig>)
    ensures cs == SaveMacs(t)
  {
    ghost var goal := SaveMacs(t);
    cs := [];
    var n := 0;
    assert t[0..] == t;
    while n < |t|
      invariant 0 <= n <= |t|
      invariant cs + SaveMacs(t[n..]) == goal
    {
      SaveMacsFrom(t, n, cs);
      if t[n].permanent {
        cs := cs + [MacConfig(t[n].mac, t[n].dst)];
      }
      n := n + 1;
    }
    assert t[n..] == [];
  }

  lemma SaveRoutesFrom(t: RouteTable, n: nat, cs: seq<RouteConfig>)
    requires n < |t|
    ensures cs + SaveRoutes(t[n..]) == cs + (if t[n].permanent then [RouteConfig(t[n].destination, t[n].gateway, t[n].metric)] else []) + SaveRoutes(t[n + 1..])
  {
    assert t[n..][1..] == t[n + 1..];
  }

  method SaveRouteConfigs(t: RouteTable) returns (cs: seq<RouteConfig>)
    ensures cs == SaveRoutes(t)
  {
    ghost var goal := SaveRoutes(t);
    cs := [];
    var n := 0;
    assert t[0..] == t;
    while n < |t|
      invariant 0 <= n <= |t|
      invariant cs + SaveRoutes(t[n..]) == goal
    {
      SaveRoutesFrom(t, n, cs);
      if t[n].permanent {
        cs := cs + [RouteConfig(t[n].destination, t[n].gateway, t[n].metric)];
      }
      n := n + 1;
    }
    assert t[n..] == [];
  }

  /** The configuration of one interface. */
  method SaveInterfaceConfig(i: Interface) returns (ic: InterfaceConfig)
    ensures ic == old(SaveInterface(i.State()))
  {
    var arps := SaveArpConfigs(i.arp);
    var macs := SaveMacConfigs(i.macs);
    var routes := SaveRouteConfigs(i.routes);
    ic := InterfaceConfig(i.name, i.vni, i.mtu, i.mac, i.kernel, arps, macs, routes);
  }

  lemma SaveInterfacesFrom(s: seq<InterfaceState>, n: nat, ics: seq<InterfaceConfig>)
    requires n < |s|
    ensures ics + SaveInterfaces(s[n..]) == ics + (if s[n].permanent then [SaveInterface(s[n])] else []) + SaveInterfaces(s[n + 1..])
  {
    assert s[n..][1..] == s[n + 1..];
  }

  method SaveInterfaceConfigs(l: Listener) returns (ics: seq<InterfaceConfig>)
    ensures ics == old(SaveInterfaces(l.State().interfaces))
  {
    ghost var s := States(l.interfaces);
    ghost var goal := SaveInterfaces(s);
    ics := [];
    var n := 0;
    assert s[0..] == s;
    while n < |l.interfaces|
      invariant 0 <= n <= |l.interfaces|
      invariant forall j :: n <= j < |s| ==> l.interfaces[j].State() == s[j]
      invariant ics + SaveInterfaces(s[n..]) == goal
    {
      SaveInterfacesFrom(s, n, ics);
      if l.interfaces[n].permanent {
        var ic := SaveInterfaceConfig(l.interfaces[n]);
        ics := ics + [ic];
      }
      n := n + 1;
    }
    assert s[n..] == [];
  }

  method SaveListenerConfig(l: Listener) returns (lc: ListenerConfig)
    ensures lc == old(SavedListener(l.State()))
  {
    var ics := SaveInterfaceConfigs(l);
    lc := ListenerConfig(l.name, l.address, l.maxMessageSize, ics);
  }

  function SavedListener(l: ListenerState): ListenerConfig {
    ListenerConfig(l.name, l.address, l.maxMessageSize, SaveInterfaces(l.interfaces))
  }

  lemma SaveFrom(net: Net, n: nat, cfg: Config)
    requires n < |net|
    ensures cfg + Reconcile.SaveConfig(net[n..]) ==
            cfg + (if net[n].permanent then [SavedListener(net[n])] else []) + Reconcile.SaveConfig(net[n + 1..])
  {
    assert net[n..][1..] == net[n + 1..];
  }

  /** SaveConfig: what is permanent, listener by listener and interface by interface. */
  method SaveConfig(app: App) returns (cfg: Config)
    ensures cfg == old(Reconcile.SaveConfig(app.State()))
  {
    ghost var net := app.State();
    ghost var goal := Reconcile.SaveConfig(net);
    cfg := [];
    var n := 0;
    assert net[0..] == net;
    while n < |app.listeners|
      invariant 0 <= n <= |app.listeners|
      invariant forall j :: n <= j < |net| ==> app.listeners[j].State() == net[j]
      invariant cfg + Reconcile.SaveConfig(net[n..]) == goal
    {
      SaveFrom(net, n, cfg);
      var l := app.listeners[n];
      if l.permanent {
        var lc := SaveListenerConfig(l);
        cfg := cfg + [lc];
      }
      n := n + 1;
    }
    assert net[n..] == [];
  }
}