/** When ApplyConfig returns at all. It does not when the flush of permanent routes on some interface does not end; what
    the other modules say of its outcome is what it leaves when it does. */
module Returning {
  import opened Addresses
  import opened Contents
  import opened Flushing
  import opened Forwarding
  import opened Idempotence
  import opened Reconcile
  import opened ReconcileProofs
  import opened Registry
  import opened Sequences

  /** Configuring the interface returns: with an error before the flush, or because the flush ends. */
  ghost predicate InterfaceReturns(l: ListenerState, ic: InterfaceConfig, host: Host, again: bool, removable: (Prefix, Addr) -> bool) {
    var b := Base(l, ic, host);
    Configure(b, ic, host).0 ==> Ends(b.routes, again, removable)
  }

  ghost predicate InterfacesReturn(net: Net, k: nat, ics: seq<InterfaceConfig>, host: Host, again: bool, removable: (Prefix, Addr) -> bool)
    requires k < |net|
    decreases |ics|
  {
    ics != [] ==>
      && InterfaceReturns(net[k], ics[0], host, again, removable)
      && var o := ApplyInterface(net, k, ics[0], host); o.ok ==> InterfacesReturn(o.net, k, ics[1..], host, again, removable)
  }

  ghost predicate ListenerReturns(net: Net, lc: ListenerConfig, host: Host, again: bool, removable: (Prefix, Addr) -> bool) {
    var o := EnsureListener(net, lc, host);
    if o.ok then
      EnsuredIsThere(net, lc, host);
      InterfacesReturn(o.net, FindListener(net, lc.address), lc.interfaces, host, again, removable)
    else true
  }

  ghost predicate ListenersReturn(net: Net, cfg: Config, host: Host, again: bool, removable: (Prefix, Addr) -> bool)
    decreases |cfg|
  {
    cfg != [] ==>
      && ListenerReturns(net, cfg[0], host, again, removable)
      && var o := ApplyListener(net, cfg[0], host); o.ok ==> ListenersReturn(o.net, cfg[1..], host, again, removable)
  }

  /** Step by step, as ApplyConfig goes. */
  ghost predicate Returns(net: Net, cfg: Config, host: Host, again: bool, removable: (Prefix, Addr) -> bool) {
    ListenersReturn(Prune(net, cfg), cfg, host, again, removable)
  }

  // ---------------------------------------------------------------- one interface does not get in another's way

  lemma BaseElsewhere(net: Net, k: nat, first: InterfaceConfig, ic: InterfaceConfig, host: Host)
    requires ValidNet(net) && k < |net| && ApplyInterface(net, k, first, host).ok && ic.vni != first.vni
    ensures Base(ApplyInterface(net, k, first, host).net[k], ic, host) == Base(net[k], ic, host)
  {
    assert net[k] in net;
    ResultShape(net[k], first, host);
    PlaceElsewhere(net[k].interfaces, Result(net[k], first, host), ic.vni);
    BaseDepends(net[k], ApplyInterface(net, k, first, host).net[k], ic, host);
  }

  /** A beginning of the list applies. */
  predicate Reaches(net: Net, k: nat, ics: seq<InterfaceConfig>, host: Host, b: nat)
    requires k < |net| && b < |ics|
  {
    ApplyInterfaces(net, k, ics[..b + 1], host).ok
  }

  /** The flush on what stands where an interface is configured ends. */
  ghost predicate EndsOn(l: ListenerState, ic: InterfaceConfig, host: Host, again: bool, removable: (Prefix, Addr) -> bool) {
    Ends(Base(l, ic, host).routes, again, removable)
  }

  /** On every interface that is got to and whose addresses can be set, the flush ends. */
  ghost predicate ReachedEnd(net: Net, k: nat, ics: seq<InterfaceConfig>, host: Host, again: bool, removable: (Prefix, Addr) -> bool)
    requires k < |net|
  {
    forall b :: 0 <= b < |ics| && Reaches(net, k, ics, host, b) ==> EndsOn(net[k], ics[b], host, again, removable)
  }

  /** The first interface, and the later ones, as a beginning of the list gets to them. */
  lemma FirstReached(net: Net, k: nat, ics: seq<InterfaceConfig>, host: Host)
    requires k < |net| && ics != []
    ensures Reaches(net, k, ics, host, 0) == ApplyInterface(net, k, ics[0], host).ok
  {
    var o := ApplyInterface(net, k, ics[0], host);
    assert ics[..1] == [ics[0]] && ics[..1][1..] == [];
    assert ApplyInterfaces(o.net, k, [], host).ok;
  }

  lemma AppliesCons(net: Net, k: nat, ic: InterfaceConfig, ics: seq<InterfaceConfig>, host: Host)
    requires k < |net|
    ensures var o := ApplyInterface(net, k, ic, host);
      ApplyInterfaces(net, k, [ic] + ics, host).ok == (o.ok && ApplyInterfaces(o.net, k, ics, host).ok)
  {
    assert ([ic] + ics)[1..] == ics;
  }

  lemma BeginningCons(ics: seq<InterfaceConfig>, b: nat)
    requires 0 < b < |ics|
    ensures ics[..b + 1] == [ics[0]] + ics[1..][..b]
  {
  }

  lemma LaterReached(net: Net, k: nat, ics: seq<InterfaceConfig>, host: Host, b: nat)
    requires k < |net| && 0 < b < |ics|
    ensures var o := ApplyInterface(net, k, ics[0], host);
      Reaches(net, k, ics, host, b) == (o.ok && Reaches(o.net, k, ics[1..], host, b - 1))
  {
    BeginningCons(ics, b);
    AppliesCons(net, k, ics[0], ics[1..][..b], host);
  }

  /** An interface that cannot be had has nothing to flush. */
  lemma FirstReturns(net: Net, k: nat, ic: InterfaceConfig, host: Host, again: bool, removable: (Prefix, Addr) -> bool)
    requires k < |net|
    ensures InterfaceReturns(net[k], ic, host, again, removable) <==>
            (ApplyInterface(net, k, ic, host).ok ==> EndsOn(net[k], ic, host, again, removable))
  {
    if Refused(net, k, ic, host) {
      EndsIff(Base(net[k], ic, host).routes, again, removable);
    }
  }

  lemma {:induction false} InterfacesReturnIff(net: Net, k: nat, ics: seq<InterfaceConfig>, host: Host, again: bool, removable: (Prefix, Addr) -> bool)
    requires ValidNet(net) && k < |net| && net[k].permanent && DistinctVnis(ics)
    ensures InterfacesReturn(net, k, ics, host, again, removable) <==> ReachedEnd(net, k, ics, host, again, removable)
    decreases |ics|
  {
    if ics != [] {
      var o := ApplyInterface(net, k, ics[0], host);
      FirstReached(net, k, ics, host);
      FirstReturns(net, k, ics[0], host, again, removable);
      if o.ok {
        ApplyInterfaceEffect(net, k, ics[0], host);
        InterfacesReturnIff(o.net, k, ics[1..], host, again, removable);
      }
      ReachedEndCons(net, k, ics, host, again, removable);
    }
  }

  lemma LaterReturns(net: Net, k: nat, ics: seq<InterfaceConfig>, host: Host, again: bool, removable: (Prefix, Addr) -> bool, b: nat)
    requires ValidNet(net) && k < |net| && DistinctVnis(ics) && 0 < b < |ics|
    ensures var o := ApplyInterface(net, k, ics[0], host);
      && Reaches(net, k, ics, host, b) == (o.ok && Reaches(o.net, k, ics[1..], host, b - 1))
      && (o.ok ==> (EndsOn(o.net[k], ics[1..][b - 1], host, again, removable) <==> EndsOn(net[k], ics[b], host, again, removable)))
  {
    LaterReached(net, k, ics, host, b);
    if ApplyInterface(net, k, ics[0], host).ok {
      BaseElsewhere(net, k, ics[0], ics[b], host);
    }
  }

  lemma ReachedEndTail(net: Net, k: nat, ics: seq<InterfaceConfig>, host: Host, again: bool, removable: (Prefix, Addr) -> bool)
    requires ValidNet(net) && k < |net| && ics != [] && DistinctVnis(ics)
    requires ApplyInterface(net, k, ics[0], host).ok && ReachedEnd(net, k, ics, host, again, removable)
    ensures ReachedEnd(ApplyInterface(net, k, ics[0], host).net, k, ics[1..], host, again, removable)
  {
    var o := ApplyInterface(net, k, ics[0], host);
    forall c | 0 <= c < |ics[1..]| && Reaches(o.net, k, ics[1..], host, c)
      ensures EndsOn(o.net[k], ics[1..][c], host, again, removable)
    {
      LaterReturns(net, k, ics, host, again, removable, c + 1);
    }
  }

  lemma ReachedEndCons(net: Net, k: nat, ics: seq<InterfaceConfig>, host: Host, again: bool, removable: (Prefix, Addr) -> bool)
    requires ValidNet(net) && k < |net| && ics != [] && DistinctVnis(ics)
    ensures var o := ApplyInterface(net, k, ics[0], host);
      ReachedEnd(net, k, ics, host, again, removable) <==>
      (o.ok ==> EndsOn(net[k], ics[0], host, again, removable) && ReachedEnd(o.net, k, ics[1..], host, again, removable))
  {
    var o := ApplyInterface(net, k, ics[0], host);
    FirstReached(net, k, ics, host);
    if ReachedEnd(net, k, ics, host, again, removable) {
      if o.ok {
        ReachedEndTail(net, k, ics, host, again, removable);
      }
    } else {
      var b :| 0 <= b < |ics| && Reaches(net, k, ics, host, b) && !EndsOn(net[k], ics[b], host, again, removable);
      if b > 0 {
        LaterReturns(net, k, ics, host, again, removable, b);
      }
    }
  }

  // ---------------------------------------------------------------- nor one listener in another's

  /** A configuration up to and including one of its interfaces. */
  function Cut(lc: ListenerConfig, b: nat): ListenerConfig
    requires b < |lc.interfaces|
  {
    lc.(interfaces := lc.interfaces[..b + 1])
  }

  function Upto(cfg: Config, a: nat, b: nat): Config
    requires a < |cfg| && b < |cfg[a].interfaces|
  {
    cfg[..a] + [Cut(cfg[a], b)]
  }

  /** The flush on one configured interface ends, on what stands there when the removals are done. */
  ghost predicate EndsAt(net: Net, lc: ListenerConfig, ic: InterfaceConfig, host: Host, again: bool, removable: (Prefix, Addr) -> bool) {
    EndsOn(Ensured(net, lc), ic, host, again, removable)
  }

  lemma ListenerReturnsIff(net: Net, lc: ListenerConfig, host: Host, again: bool, removable: (Prefix, Addr) -> bool)
    requires ValidNet(net) && DistinctVnis(lc.interfaces)
    ensures ListenerReturns(net, lc, host, again, removable) <==>
            forall b :: 0 <= b < |lc.interfaces| && ApplyListener(net, Cut(lc, b), host).ok ==>
              EndsAt(net, lc, lc.interfaces[b], host, again, removable)
  {
    var o := EnsureListener(net, lc, host);
    if o.ok {
      var k := FindListener(net, lc.address);
      EnsuredAt(net, lc, host);
      EnsureEffect(net, lc, host);
      InterfacesReturnIff(o.net, k, lc.interfaces, host, again, removable);
      forall b | 0 <= b < |lc.interfaces|
        ensures ApplyListener(net, Cut(lc, b), host).ok == Reaches(o.net, k, lc.interfaces, host, b)
      {
        assert EnsureListener(net, Cut(lc, b), host) == o;
      }
    }
  }

  lemma EnsuredElsewhere(net: Net, first: ListenerConfig, lc: ListenerConfig, host: Host)
    requires ValidNet(net) && ApplyListener(net, first, host).ok && lc.address != first.address
    ensures Ensured(ApplyListener(net, first, host).net, lc) == Ensured(net, lc)
  {
    ApplyListenerEffect(net, first, host);
    MentionsAppend(first, [], lc.address);
    assert AppliedAt(net, ApplyListener(net, first, host).net, [first], lc.address);
  }

  lemma UptoFirst(net: Net, cfg: Config, host: Host, b: nat)
    requires cfg != [] && b < |cfg[0].interfaces|
    ensures ApplyListeners(net, Upto(cfg, 0, b), host).ok == ApplyListener(net, Cut(cfg[0], b), host).ok
  {
    var lc := Cut(cfg[0], b);
    assert Upto(cfg, 0, b) == [lc] && [lc][1..] == [];
    assert ApplyListeners(ApplyListener(net, lc, host).net, [], host).ok;
  }

  lemma UptoLater(net: Net, cfg: Config, host: Host, a: nat, b: nat)
    requires 0 < a < |cfg| && b < |cfg[a].interfaces|
    ensures var o := ApplyListener(net, cfg[0], host);
      ApplyListeners(net, Upto(cfg, a, b), host).ok == (o.ok && ApplyListeners(o.net, Upto(cfg[1..], a - 1, b), host).ok)
  {
    assert Upto(cfg, a, b)[0] == cfg[0] && Upto(cfg, a, b)[1..] == Upto(cfg[1..], a - 1, b);
  }

  /** Every flush that is got to ends. */
  ghost predicate AllEnd(net: Net, cfg: Config, host: Host, again: bool, removable: (Prefix, Addr) -> bool) {
    forall a, b :: 0 <= a < |cfg| && 0 <= b < |cfg[a].interfaces| && ApplyListeners(net, Upto(cfg, a, b), host).ok ==>
      EndsAt(net, cfg[a], cfg[a].interfaces[b], host, again, removable)
  }

  lemma AllEndCons(net: Net, cfg: Config, host: Host, again: bool, removable: (Prefix, Addr) -> bool)
    requires ValidNet(net) && cfg != [] && Canonical(cfg)
    ensures var o := ApplyListener(net, cfg[0], host);
      AllEnd(net, cfg, host, again, removable) <==>
      ListenerReturns(net, cfg[0], host, again, removable) && (o.ok ==> AllEnd(o.net, cfg[1..], host, again, removable))
  {
    var o := ApplyListener(net, cfg[0], host);
    ListenerReturnsIff(net, cfg[0], host, again, removable);
    forall b | 0 <= b < |cfg[0].interfaces|
      ensures ApplyListeners(net, Upto(cfg, 0, b), host).ok == ApplyListener(net, Cut(cfg[0], b), host).ok
    {
      UptoFirst(net, cfg, host, b);
    }
    if AllEnd(net, cfg, host, again, removable) && o.ok {
      forall a, b | 0 <= a < |cfg[1..]| && 0 <= b < |cfg[1..][a].interfaces| && ApplyListeners(o.net, Upto(cfg[1..], a, b), host).ok
        ensures EndsAt(o.net, cfg[1..][a], cfg[1..][a].interfaces[b], host, again, removable)
      {
        UptoLater(net, cfg, host, a + 1, b);
        EnsuredElsewhere(net, cfg[0], cfg[a + 1], host);
      }
    }
    if ListenerReturns(net, cfg[0], host, again, removable) && (o.ok ==> AllEnd(o.net, cfg[1..], host, again, removable)) {
      forall a, b | 0 <= a < |cfg| && 0 <= b < |cfg[a].interfaces| && ApplyListeners(net, Upto(cfg, a, b), host).ok
        ensures EndsAt(net, cfg[a], cfg[a].interfaces[b], host, again, removable)
      {
        if a > 0 {
          UptoLater(net, cfg, host, a, b);
          EnsuredElsewhere(net, cfg[0], cfg[a], host);
          assert cfg[1..][a - 1] == cfg[a];
        }
      }
    }
  }

  lemma {:induction false} ListenersReturnIff(net: Net, cfg: Config, host: Host, again: bool, removable: (Prefix, Addr) -> bool)
    requires ValidNet(net) && Canonical(cfg)
    ensures ListenersReturn(net, cfg, host, again, removable) <==> AllEnd(net, cfg, host, again, removable)
    decreases |cfg|
  {
    if cfg != [] {
      var o := ApplyListener(net, cfg[0], host);
      AllEndCons(net, cfg, host, again, removable);
      ApplyListenerValid(net, cfg[0], host);
      if o.ok {
        ListenersReturnIff(o.net, cfg[1..], host, again, removable);
      }
    }
  }

  // ---------------------------------------------------------------- the theorem

  /** Nothing permanent on the interface that cannot be removed. */
  ghost predicate Flushable(before: Option<InterfaceState>, again: bool, removable: (Prefix, Addr) -> bool) {
    before.Some? ==> forall r :: r in before.value.routes && r.permanent ==> Removable(r, again, removable)
  }

  lemma EndsAtIff(net: Net, cfg: Config, host: Host, lc: ListenerConfig, ic: InterfaceConfig, again: bool, removable: (Prefix, Addr) -> bool)
    ensures EndsAt(Prune(net, cfg), lc, ic, host, again, removable) <==>
            Flushable(Before(net, cfg, lc.address, ic.vni), again, removable)
  {
    var l := Ensured(Prune(net, cfg), lc);
    assert l.interfaces == InterfacesAt(Prune(net, cfg), lc.address);
    EndsIff(Base(l, ic, host).routes, again, removable);
  }

  /** The configuration applies as far as this interface, itself included. */
  predicate GetsTo(net: Net, cfg: Config, host: Host, a: nat, b: nat)
    requires a < |cfg| && b < |cfg[a].interfaces|
  {
    ApplyListeners(Prune(net, cfg), Upto(cfg, a, b), host).ok
  }

  /** ApplyConfig returns, be it with an error, exactly when, on every interface that stands where it gets to configuring
      one, every permanent route can be removed. */
  lemma ReturnsIff(net: Net, cfg: Config, host: Host, again: bool, removable: (Prefix, Addr) -> bool)
    requires ValidNet(net) && Canonical(cfg)
    ensures Returns(net, cfg, host, again, removable) <==>
            forall a, b :: 0 <= a < |cfg| && 0 <= b < |cfg[a].interfaces| && GetsTo(net, cfg, host, a, b) ==>
              Flushable(Before(net, cfg, cfg[a].address, cfg[a].interfaces[b].vni), again, removable)
  {
    var p := Prune(net, cfg);
    PruneValid(net, cfg);
    ListenersReturnIff(p, cfg, host, again, removable);
    forall a, b | 0 <= a < |cfg| && 0 <= b < |cfg[a].interfaces|
      ensures EndsAt(p, cfg[a], cfg[a].interfaces[b], host, again, removable) <==>
              Flushable(Before(net, cfg, cfg[a].address, cfg[a].interfaces[b].vni), again, removable)
    {
      EndsAtIff(net, cfg, host, cfg[a], cfg[a].interfaces[b], again, removable);
    }
  }

  // ---------------------------------------------------------------- a configuration that applies

  lemma {:induction false} FrontApplies(net: Net, k: nat, front: seq<InterfaceConfig>, back: seq<InterfaceConfig>, host: Host)
    requires k < |net| && ApplyInterfaces(net, k, front + back, host).ok
    ensures ApplyInterfaces(net, k, front, host).ok
    decreases |front|
  {
    if front != [] {
      var ic, rest := front[0], front[1..];
      var o := ApplyInterface(net, k, ic, host);
      ConsAppend(front, back);
      AppliesCons(net, k, ic, rest, host);
      AppliesCons(net, k, ic, rest + back, host);
      FrontApplies(o.net, k, rest, back, host);
    }
  }

  lemma BeginningApplies(net: Net, k: nat, ics: seq<InterfaceConfig>, host: Host, b: nat)
    requires k < |net| && b < |ics| && ApplyInterfaces(net, k, ics, host).ok
    ensures Reaches(net, k, ics, host, b)
  {
    assert ics == ics[..b + 1] + ics[b + 1..];
    FrontApplies(net, k, ics[..b + 1], ics[b + 1..], host);
  }

  lemma {:induction false} UptoApplies(net: Net, cfg: Config, host: Host, a: nat, b: nat)
    requires a < |cfg| && b < |cfg[a].interfaces| && ApplyListeners(net, cfg, host).ok
    ensures ApplyListeners(net, Upto(cfg, a, b), host).ok
    decreases |cfg|
  {
    if a == 0 {
      var lc := cfg[0];
      UptoFirst(net, cfg, host, b);
      EnsuredIsThere(net, lc, host);
      BeginningApplies(EnsureListener(net, lc, host).net, FindListener(net, lc.address), lc.interfaces, host, b);
      assert EnsureListener(net, Cut(lc, b), host) == EnsureListener(net, lc, host);
    } else {
      UptoLater(net, cfg, host, a, b);
      UptoApplies(ApplyListener(net, cfg[0], host).net, cfg[1..], host, a - 1, b);
    }
  }

  /** A configuration that applies gets everywhere. */
  lemma AppliedReturnsIff(net: Net, cfg: Config, host: Host, again: bool, removable: (Prefix, Addr) -> bool)
    requires ValidNet(net) && Canonical(cfg) && ApplyConfig(net, cfg, host).ok
    ensures Returns(net, cfg, host, again, removable) <==>
            forall lc, ic :: lc in cfg && ic in lc.interfaces ==> Flushable(Before(net, cfg, lc.address, ic.vni), again, removable)
  {
    ReturnsIff(net, cfg, host, again, removable);
    forall a, b | 0 <= a < |cfg| && 0 <= b < |cfg[a].interfaces| ensures GetsTo(net, cfg, host, a, b) {
      UptoApplies(Prune(net, cfg), cfg, host, a, b);
    }
    if Returns(net, cfg, host, again, removable) {
      forall lc, ic | lc in cfg && ic in lc.interfaces ensures Flushable(Before(net, cfg, lc.address, ic.vni), again, removable) {
        var a :| 0 <= a < |cfg| && cfg[a] == lc;
        var b :| 0 <= b < |lc.interfaces| && lc.interfaces[b] == ic;
        assert GetsTo(net, cfg, host, a, b);
      }
    }
  }

  /** A program just started returns from its first application, whatever the lock and the device. */
  lemma StartReturns(cfg: Config, host: Host, again: bool, removable: (Prefix, Addr) -> bool)
    requires Canonical(cfg)
    ensures Returns([], cfg, host, again, removable)
  {
    ReturnsIff([], cfg, host, again, removable);
  }

  // ---------------------------------------------------------------- the second time

  /** Where the first application left things as configured, what stands before the second is what is held. */
  lemma HeldBefore(net: Net, cfg: Config, host: Host, lc: ListenerConfig, ic: InterfaceConfig)
    requires ValidNet(net) && Canonical(cfg) && OnlyConfigured(net, cfg) && HeldAt(net, lc, host) && ic in lc.interfaces
    ensures var before := Before(net, cfg, lc.address, ic.vni);
      before.Some? && Filter(before.value.routes, PermanentRoute()) == AcceptedRoutes(ic.routes, host)
  {
    PruneNothing(net, cfg);
    AtMember(net, lc.address);
    var l := At(net, lc.address).value;
    assert HeldIn(l, ic, host);
    RouteContents(l.interfaces[FindVni(l.interfaces, ic.vni)].routes, ic.routes, host);
  }

  lemma NonePermanentIff(t: RouteTable)
    ensures Filter(t, PermanentRoute()) == [] <==> forall r :: r in t ==> !r.permanent
  {
    FilterMembers(t, PermanentRoute());
    if Filter(t, PermanentRoute()) != [] {
      assert Filter(t, PermanentRoute())[0] in Filter(t, PermanentRoute());
    }
  }

  /** With the program's lock, a configuration that holds is never applied once more, unless it asks for no route that the
      kernel takes: the second application hangs in the flush of what the first one entered. */
  lemma AgainReturnsIff(net: Net, cfg: Config, host: Host, removable: (Prefix, Addr) -> bool)
    requires ValidNet(net) && Canonical(cfg) && ApplyConfig(net, cfg, host).ok
    requires Agrees(ApplyConfig(net, cfg, host).net, cfg)
    ensures Returns(ApplyConfig(net, cfg, host).net, cfg, host, false, removable) <==>
            forall lc, ic :: lc in cfg && ic in lc.interfaces ==> AcceptedRoutes(ic.routes, host) == []
  {
    var net1 := ApplyConfig(net, cfg, host).net;
    AfterFirst(net, cfg, host);
    AgreeingIsConfigured(net1, cfg);
    AgreeingIsFixed(net1, cfg, host);
    AppliedReturnsIff(net1, cfg, host, false, removable);
    forall lc, ic | lc in cfg && ic in lc.interfaces
      ensures Flushable(Before(net1, cfg, lc.address, ic.vni), false, removable) <==> AcceptedRoutes(ic.routes, host) == []
    {
      HeldBefore(net1, cfg, host, lc, ic);
      NonePermanentIff(Before(net1, cfg, lc.address, ic.vni).value.routes);
    }
  }
}
