/** When applying a configuration twice is applying it once, told from the registry before the first application. */
module AppliedTwice {
  import opened Contents
  import opened Forwarding
  import opened Idempotence
  import opened Reconcile
  import opened ReconcileProofs
  import opened Registry
  import opened Sequences

  /** A route of the one table goes where a route of the other goes. */
  predicate Meet(kept: RouteTable, added: RouteTable) {
    exists r, c :: r in kept && c in added && SameRoute(c, r.destination, r.gateway)
  }

  /** A listener that is there and transient bears the configured name. */
  predicate ListenerAgreed(net: Net, lc: ListenerConfig) {
    var l := At(net, lc.address);
    l.Some? && !l.value.permanent ==> l.value.name == lc.name
  }

  /** An interface that is there: if transient, it bears the configured name; and no route that the flush keeps on it goes
      where a configured route goes. */
  predicate InterfaceAgreed(before: Option<InterfaceState>, ic: InterfaceConfig, host: Host) {
    before.Some? ==>
      && (!before.value.permanent ==> before.value.name == ic.name)
      && !Meet(FlushRoutes(before.value.routes), AcceptedRoutes(ic.routes, host))
  }

  ghost predicate AgreedBefore(net: Net, cfg: Config, host: Host) {
    forall lc :: lc in cfg ==>
      && ListenerAgreed(net, lc)
      && forall ic :: ic in lc.interfaces ==> InterfaceAgreed(Before(net, cfg, lc.address, ic.vni), ic, host)
  }

  // ---------------------------------------------------------------- routes

  lemma {:induction false} AddRoutesIsAccepted(t: RouteTable, cs: seq<RouteConfig>, host: Host)
    ensures AddRoutes(t, cs, host) == t + AcceptedRoutes(cs, host)
    decreases |cs|
  {
    if cs != [] {
      var route := RouteOf(cs[0]).(metric := EffectiveMetric(cs[0].metric));
      var head := if host.routeOk(route) then [route] else [];
      assert AddRoute(t, RouteOf(cs[0]), host) == t + head;
      AddRoutesIsAccepted(t + head, cs[1..], host);
      Regroup(t, head, AcceptedRoutes(cs[1..], host));
    }
  }

  lemma {:induction false} AcceptedArePermanent(cs: seq<RouteConfig>, host: Host)
    ensures forall c :: c in AcceptedRoutes(cs, host) ==> c.permanent
  {
    if cs != [] {
      AcceptedArePermanent(cs[1..], host);
    }
  }

  /** Transient routes before permanent ones: one is shadowed exactly when two meet. */
  lemma UnshadowedIffApart(kept: RouteTable, added: RouteTable)
    requires (forall r :: r in kept ==> !r.permanent) && (forall c :: c in added ==> c.permanent)
    ensures Unshadowed(kept + added) <==> !Meet(kept, added)
  {
    var t := kept + added;
    if Meet(kept, added) {
      var r, c :| r in kept && c in added && SameRoute(c, r.destination, r.gateway);
      var k :| 0 <= k < |kept| && kept[k] == r;
      var m :| 0 <= m < |added| && added[m] == c;
      assert t[k] == r && t[k..][|kept| - k + m] == c;
      assert Shadowed(t, k);
    }
    if k :| 0 <= k < |t| && Shadowed(t, k) {
      var n :| 0 <= n < |t[k..]| && t[k..][n].permanent && SameRoute(t[k..][n], t[k].destination, t[k].gateway);
      assert t[k] in kept && t[k..][n] == t[k + n];
      assert t[k + n] in added;
    }
  }

  /** The routes of an interface after configuring are unshadowed exactly when those kept and those added are apart. */
  lemma RoutesAgreeIff(b: InterfaceState, ic: InterfaceConfig, host: Host)
    requires Configure(b, ic, host).0
    ensures Unshadowed(Configure(b, ic, host).1.routes) <==> !Meet(FlushRoutes(b.routes), AcceptedRoutes(ic.routes, host))
  {
    var kept := FlushRoutes(b.routes);
    forall r | r in kept ensures !r.permanent {
      FlushLeavesNoPermanent(b.routes, r);
    }
    AddRoutesIsAccepted(kept, ic.routes, host);
    AcceptedArePermanent(ic.routes, host);
    UnshadowedIffApart(kept, AcceptedRoutes(ic.routes, host));
  }

  // ---------------------------------------------------------------- names

  /** What survives the removals and is permanent is configured under its name. */
  lemma PermanentsAreNamed(net: Net, cfg: Config, lc: ListenerConfig, ic: InterfaceConfig)
    requires ValidNet(net) && Canonical(cfg) && lc in cfg && ic in lc.interfaces
    ensures var before := Before(net, cfg, lc.address, ic.vni);
      before.Some? && before.value.permanent ==> before.value.name == ic.name
  {
    var before := Before(net, cfg, lc.address, ic.vni);
    if before.Some? && before.value.permanent {
      PruneAt(net, cfg, lc.address);
      AtMember(net, lc.address);
      var l, i := At(net, lc.address).value, before.value;
      assert i in InterfacesAt(Prune(net, cfg), lc.address);
      FindConfigUnique(cfg, lc, l.name);
      assert l.permanent;
      FilterMember(l.interfaces, Stays(lc), i);
      var c :| c in lc.interfaces && c.name == i.name && c.vni == i.vni;
      assert c == ic;
    }
  }

  lemma ListenerAgreesIff(net: Net, cfg: Config, lc: ListenerConfig)
    requires ValidNet(net) && Canonical(cfg) && lc in cfg
    ensures Ensured(Prune(net, cfg), lc).name == lc.name <==> ListenerAgreed(net, lc)
  {
    PruneAt(net, cfg, lc.address);
    AtMember(net, lc.address);
    if At(net, lc.address).Some? {
      FindConfigUnique(cfg, lc, At(net, lc.address).value.name);
    }
  }

  lemma InterfaceAgreesIff(net: Net, cfg: Config, host: Host, lc: ListenerConfig, ic: InterfaceConfig)
    requires ValidNet(net) && Canonical(cfg) && lc in cfg && ic in lc.interfaces
    requires Configure(Base(Ensured(Prune(net, cfg), lc), ic, host), ic, host).0
    ensures var x := Result(Ensured(Prune(net, cfg), lc), ic, host);
      x.name == ic.name && Unshadowed(x.routes) <==> InterfaceAgreed(Before(net, cfg, lc.address, ic.vni), ic, host)
  {
    var l := Ensured(Prune(net, cfg), lc);
    var b := Base(l, ic, host);
    PermanentsAreNamed(net, cfg, lc, ic);
    RoutesAgreeIff(b, ic, host);
    assert l.interfaces == InterfacesAt(Prune(net, cfg), lc.address);
  }

  // ---------------------------------------------------------------- the theorem

  /** What is at a configured address after the first application. */
  lemma AgreesAtIff(net: Net, cfg: Config, host: Host, lc: ListenerConfig)
    requires ValidNet(net) && Canonical(cfg) && ApplyConfig(net, cfg, host).ok && lc in cfg
    ensures var l := At(ApplyConfig(net, cfg, host).net, lc.address);
      && l.Some? && l.value in ApplyConfig(net, cfg, host).net && UniqueVnis(l.value.interfaces)
      && (l.value.name == lc.name <==> ListenerAgreed(net, lc))
      && forall ic :: ic in lc.interfaces ==> Placed(Ensured(Prune(net, cfg), lc), l.value.interfaces, ic, host)
  {
    var net1, p := ApplyConfig(net, cfg, host).net, Prune(net, cfg);
    PruneValid(net, cfg);
    ApplyListenersValid(p, cfg, host);
    AllInstalled(p, cfg, host, lc);
    AtMember(net1, lc.address);
    ListenerAgreesIff(net, cfg, lc);
  }

  lemma InterfacesAgreeIff(net: Net, cfg: Config, host: Host, lc: ListenerConfig)
    requires ValidNet(net) && Canonical(cfg) && ApplyConfig(net, cfg, host).ok && lc in cfg
    ensures var l := At(ApplyConfig(net, cfg, host).net, lc.address);
      l.Some? && (InterfacesAgree(l.value.interfaces, lc.interfaces) <==>
        forall ic :: ic in lc.interfaces ==> InterfaceAgreed(Before(net, cfg, lc.address, ic.vni), ic, host))
  {
    AgreesAtIff(net, cfg, host, lc);
    var s, e := At(ApplyConfig(net, cfg, host).net, lc.address).value.interfaces, Ensured(Prune(net, cfg), lc);
    PruneValid(net, cfg);
    EnsuredIsValid(Prune(net, cfg), lc);
    forall ic | ic in lc.interfaces
      ensures InterfaceAgreed(Before(net, cfg, lc.address, ic.vni), ic, host) <==>
              forall i :: i in s && i.vni == ic.vni ==> i.name == ic.name && Unshadowed(i.routes)
    {
      var x := Result(e, ic, host);
      assert Placed(e, s, ic, host);
      ResultShape(e, ic, host);
      InterfaceAgreesIff(net, cfg, host, lc, ic);
      forall i | i in s && i.vni == ic.vni ensures i == x {
        FindVniMember(s, i);
        FindVniMember(s, x);
      }
    }
  }

  /** Idempotence, foreseen. Applying a canonical configuration once more will succeed and change nothing exactly when,
      before the first application, whatever is transient where the configuration places a listener or an interface
      bears the configured name, and no route that will be kept goes where a configured route goes. */
  lemma AppliesTwiceForeseen(net: Net, cfg: Config, host: Host)
    requires ValidNet(net) && Canonical(cfg) && ApplyConfig(net, cfg, host).ok
    ensures var net1 := ApplyConfig(net, cfg, host).net;
      var again := ApplyConfig(net1, cfg, host);
      again.ok && SameNet(net1, again.net) <==> AgreedBefore(net, cfg, host)
  {
    var net1 := ApplyConfig(net, cfg, host).net;
    AppliesTwiceIff(net, cfg, host);
    PruneValid(net, cfg);
    ApplyListenersValid(Prune(net, cfg), cfg, host);
    forall lc | lc in cfg
      ensures At(net1, lc.address).Some? && At(net1, lc.address).value in net1 && At(net1, lc.address).value.address == lc.address
      ensures forall l :: l in net1 && l.address == lc.address ==> l == At(net1, lc.address).value
      ensures At(net1, lc.address).value.name == lc.name <==> ListenerAgreed(net, lc)
      ensures InterfacesAgree(At(net1, lc.address).value.interfaces, lc.interfaces) <==>
        forall ic :: ic in lc.interfaces ==> InterfaceAgreed(Before(net, cfg, lc.address, ic.vni), ic, host)
    {
      AgreesAtIff(net, cfg, host, lc);
      InterfacesAgreeIff(net, cfg, host, lc);
      AtMember(net1, lc.address);
      forall l | l in net1 && l.address == lc.address ensures l == At(net1, lc.address).value {
        AtUnique(net1, l);
      }
    }
  }
}
