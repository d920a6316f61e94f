/** What applying a configuration achieves from any reachable registry: which listeners and interfaces are permanent
    afterwards, and what is left untouched. */
module ReconcileProofs {
  import opened Addresses
  import ArpTable
  import opened Forwarding
  import opened Reconcile
  import opened Registry
  import opened Sequences

  // ---------------------------------------------------------------- lookups by address

  /** The listener with an address. */
  function At(net: Net, a: string): Option<ListenerState> {
    if net == [] then None else if net[0].address == a then Some(net[0]) else At(net[1..], a)
  }

  /** The interfaces of the listener with an address; none if there is no such listener. */
  function InterfacesAt(net: Net, a: string): seq<InterfaceState> {
    var l := At(net, a);
    if l.Some? then l.value.interfaces else []
  }

  predicate PermanentAt(net: Net, a: string) {
    var l := At(net, a);
    l.Some? && l.value.permanent
  }

  predicate PermanentVni(s: seq<InterfaceState>, v: nat) {
    exists i :: i in s && i.vni == v && i.permanent
  }

  predicate Mentions(cfg: Config, a: string) {
    exists lc :: lc in cfg && lc.address == a
  }

  predicate AsksVni(ics: seq<InterfaceConfig>, v: nat) {
    exists ic :: ic in ics && ic.vni == v
  }

  /** Does the configuration ask for the VNI on the listener with this address? */
  predicate MentionsVni(cfg: Config, a: string, v: nat) {
    exists lc :: lc in cfg && lc.address == a && AsksVni(lc.interfaces, v)
  }

  lemma {:induction false} AtIsFound(net: Net, a: string)
    ensures var k := FindListener(net, a); At(net, a) == if k < |net| then Some(net[k]) else None
  {
    if net != [] {
      AtIsFound(net[1..], a);
    }
  }

  lemma {:induction false} AtMember(net: Net, a: string)
    ensures At(net, a).Some? ==> At(net, a).value in net && At(net, a).value.address == a
    ensures At(net, a).None? <==> forall l :: l in net ==> l.address != a
  {
    if net != [] {
      AtMember(net[1..], a);
    }
  }

  lemma AtUnique(net: Net, l: ListenerState)
    requires UniqueListeners(net) && l in net
    ensures At(net, l.address) == Some(l)
  {
    AtMember(net, l.address);
  }

  /** Replacing a listener by one with the same address changes what is at that address only. */
  lemma {:induction false} AtReplaced(net: Net, k: nat, l: ListenerState, a: string)
    requires UniqueListeners(net) && k < |net| && l.address == net[k].address
    ensures At(net[k := l], a) == if a == l.address then Some(l) else At(net, a)
  {
    if k == 0 {
      assert net[0 := l] == [l] + net[1..];
    } else {
      assert net[k := l] == [net[0]] + net[1..][k - 1 := l];
      AtReplaced(net[1..], k - 1, l, a);
    }
  }

  lemma {:induction false} AtAppended(net: Net, l: ListenerState, a: string)
    requires At(net, l.address).None?
    ensures At(net + [l], a) == if a == l.address then Some(l) else At(net, a)
  {
    if net == [] {
      assert net + [l] == [l];
    } else {
      assert (net + [l])[1..] == net[1..] + [l];
      AtAppended(net[1..], l, a);
    }
  }

  // ---------------------------------------------------------------- placing one interface

  function OutsideVnis(ics: seq<InterfaceConfig>): InterfaceState -> bool {
    (i: InterfaceState) => !AsksVni(ics, i.vni)
  }

  lemma PlaceMembers(s: seq<InterfaceState>, x: InterfaceState)
    requires UniqueVnis(s)
    ensures UniqueVnis(Place(s, x))
    ensures forall i :: i in Place(s, x) <==> i == x || (i in s && i.vni != x.vni)
  {
    var k, t := FindVni(s, x.vni), Place(s, x);
    if k < |s| {
      forall i | i in s && i.vni != x.vni ensures i in t {
        var j :| 0 <= j < |s| && s[j] == i;
        assert t[j] == i;
      }
      assert t[k] == x;
    } else {
      forall i | i in s ensures i.vni != x.vni {
        var j :| 0 <= j < |s| && s[j] == i;
      }
    }
  }

  /** Replacing an element that does not pass by another that does not. */
  lemma ReplaceUnkept<T>(s: seq<T>, k: nat, x: T, keep: T -> bool)
    requires k < |s| && !keep(s[k]) && !keep(x)
    ensures Filter(s[k := x], keep) == Filter(s, keep)
  {
    var front, back := s[..k], s[k + 1..];
    assert s == front + ([s[k]] + back);
    assert s[k := x] == front + ([x] + back);
    FilterDropsMiddle(front, s[k], back, keep);
    FilterDropsMiddle(front, x, back, keep);
  }

  lemma AppendUnkept<T>(s: seq<T>, x: T, keep: T -> bool)
    requires !keep(x)
    ensures Filter(s + [x], keep) == Filter(s, keep)
  {
    FilterAppend(s, [x], keep);
    assert Filter([x], keep) == [];
    assert Filter(s, keep) + [] == Filter(s, keep);
  }

  /** Placing an interface leaves the others, in order. */
  lemma PlaceKeepsOthers(s: seq<InterfaceState>, x: InterfaceState, keep: InterfaceState -> bool)
    requires forall i :: i in s && keep(i) ==> i.vni != x.vni
    requires !keep(x)
    ensures Filter(Place(s, x), keep) == Filter(s, keep)
  {
    var k := FindVni(s, x.vni);
    if k < |s| {
      assert s[k] in s;
      ReplaceUnkept(s, k, x, keep);
    } else {
      AppendUnkept(s, x, keep);
    }
  }

  lemma {:induction false} AddArpsValid(t: ArpTable.Table, cs: seq<ArpConfig>)
    requires ArpTable.Valid(t)
    ensures ArpTable.Valid(AddArps(t, cs))
    decreases |cs|
  {
    if cs != [] {
      ArpTable.AddStaticFinds(t, cs[0].addr, cs[0].mac, true, cs[0].addr);
      AddArpsValid(ArpTable.AddStatic(t, cs[0].addr, cs[0].mac, true), cs[1..]);
    }
  }

  lemma {:induction false} AddMacsUnique(t: MacTable, cs: seq<MacConfig>)
    requires UniquePairs(t)
    ensures UniquePairs(AddMacs(t, cs))
    decreases |cs|
  {
    if cs != [] {
      AddMacKeepsUnique(t, cs[0].mac, cs[0].dst, true);
      AddMacsUnique(AddMac(t, cs[0].mac, cs[0].dst, true), cs[1..]);
    }
  }

  /** Configuring keeps an interface sound, named, numbered and permanent. */
  lemma ConfigureKeeps(i: InterfaceState, ic: InterfaceConfig, host: Host)
    requires ValidInterface(i)
    ensures var x := Configure(i, ic, host).1;
      ValidInterface(x) && x.vni == i.vni && x.name == i.name && x.permanent == i.permanent
  {
    ReaddressedDistinct(i.(mac := ic.mac), ic.addresses, host);
    ArpTable.FilterValid(i.arp, Not(ArpTable.IsPermanent()));
    AddArpsValid(Filter(i.arp, Not(ArpTable.IsPermanent())), ic.arps);
    FilterKeepsPairsUnique(i.macs, Not(PermanentMac()));
    AddMacsUnique(Filter(i.macs, Not(PermanentMac())), ic.macs);
  }

  /** The interface that applying a configuration puts in place. */
  function Result(l: ListenerState, ic: InterfaceConfig, host: Host): InterfaceState {
    Configure(Base(l, ic, host), ic, host).1
  }

  lemma ResultShape(l: ListenerState, ic: InterfaceConfig, host: Host)
    requires ValidListener(l)
    ensures var x := Result(l, ic, host);
      && ValidInterface(x) && x.vni == ic.vni && x.permanent
      && x.name == (var k := FindVni(l.interfaces, ic.vni); if k < |l.interfaces| then l.interfaces[k].name else ic.name)
  {
    var k := FindVni(l.interfaces, ic.vni);
    if k < |l.interfaces| {
      assert l.interfaces[k] in l.interfaces;
    } else {
      FreshIsValid(ic.name, ic.vni, ic.mtu, l.maxMessageSize, true, host);
    }
    ConfigureKeeps(Base(l, ic, host), ic, host);
  }

  /** Two states of a listener before and after its interfaces are worked on. */
  ghost predicate SameListener(l: ListenerState, l': ListenerState) {
    l'.name == l.name && l'.address == l.address && l'.permanent == l.permanent && l'.maxMessageSize == l.maxMessageSize
  }

  /** An interface of this VNI and name is there, or asked for. */
  ghost predicate Known(s: seq<InterfaceState>, ics: seq<InterfaceConfig>, i: InterfaceState) {
    || (exists j :: j in s && j.vni == i.vni && j.name == i.name)
    || (exists ic :: ic in ics && ic.vni == i.vni && ic.name == i.name)
  }

  /** How the interfaces of a listener change when those of `ics` are applied: a VNI is permanent afterwards exactly
      when it was or is asked for, the interfaces not asked for stay as they are and in order, and names come from
      what was there or from the configuration. */
  ghost predicate Applied(s: seq<InterfaceState>, s': seq<InterfaceState>, ics: seq<InterfaceConfig>) {
    && (forall v: nat :: PermanentVni(s', v) <==> PermanentVni(s, v) || AsksVni(ics, v))
    && Filter(s', OutsideVnis(ics)) == Filter(s, OutsideVnis(ics))
    && (forall i :: i in s' ==> Known(s, ics, i))
  }

  lemma PlaceApplied(l: ListenerState, ic: InterfaceConfig, host: Host)
    requires ValidListener(l)
    ensures Applied(l.interfaces, Place(l.interfaces, Result(l, ic, host)), [ic])
  {
    var s, x := l.interfaces, Result(l, ic, host);
    ResultShape(l, ic, host);
    PlaceMembers(s, x);
    assert ic in [ic];
    PlaceKeepsOthers(s, x, OutsideVnis([ic]));
    var k := FindVni(s, ic.vni);
    assert k < |s| ==> s[k] in s;
    forall v: nat ensures PermanentVni(Place(s, x), v) <==> PermanentVni(s, v) || AsksVni([ic], v) {
      if v == ic.vni {
        assert x in Place(s, x);
      } else {
        assert !AsksVni([ic], v);
      }
    }
  }

  lemma AsksAppend(first: seq<InterfaceConfig>, rest: seq<InterfaceConfig>, v: nat)
    ensures AsksVni(first + rest, v) <==> AsksVni(first, v) || AsksVni(rest, v)
  {
    forall c ensures c in first + rest <==> c in first || c in rest {
    }
  }

  lemma AppliedComposes(s: seq<InterfaceState>, s1: seq<InterfaceState>, s2: seq<InterfaceState>,
                        first: seq<InterfaceConfig>, rest: seq<InterfaceConfig>)
    requires Applied(s, s1, first) && Applied(s1, s2, rest)
    ensures Applied(s, s2, first + rest)
  {
    var ics := first + rest;
    forall v: nat ensures AsksVni(ics, v) <==> AsksVni(first, v) || AsksVni(rest, v) {
      AsksAppend(first, rest, v);
    }
    OutsideTwice(s2, rest, first, ics);
    OutsideTwice(s1, rest, first, ics);
    OutsideTwice(s1, first, rest, ics);
    OutsideTwice(s, first, rest, ics);
    forall i | i in s2 ensures Known(s, ics, i) {
      assert Known(s1, rest, i);
      if exists j :: j in s1 && j.vni == i.vni && j.name == i.name {
        var j :| j in s1 && j.vni == i.vni && j.name == i.name;
        assert Known(s, first, j);
        assert forall c :: c in first ==> c in ics;
      } else {
        var c :| c in rest && c.vni == i.vni && c.name == i.name;
        assert c in ics;
      }
    }
  }

  lemma AppliedAfter(s: seq<InterfaceState>, s1: seq<InterfaceState>, s2: seq<InterfaceState>, ics: seq<InterfaceConfig>)
    requires ics != [] && Applied(s, s1, [ics[0]]) && Applied(s1, s2, ics[1..])
    ensures Applied(s, s2, ics)
  {
    AppliedComposes(s, s1, s2, [ics[0]], ics[1..]);
    assert [ics[0]] + ics[1..] == ics;
  }

  lemma OutsideTwice(s: seq<InterfaceState>, a: seq<InterfaceConfig>, b: seq<InterfaceConfig>, all: seq<InterfaceConfig>)
    requires all == a + b || all == b + a
    ensures Filter(Filter(s, OutsideVnis(a)), OutsideVnis(b)) == Filter(s, OutsideVnis(all))
  {
    forall i | i in s ensures OutsideVnis(all)(i) == (OutsideVnis(a)(i) && OutsideVnis(b)(i)) {
      AsksAppend(a, b, i.vni);
      AsksAppend(b, a, i.vni);
    }
    FilterFilter(s, OutsideVnis(a), OutsideVnis(b), OutsideVnis(all));
  }

  lemma AppliedNothing(s: seq<InterfaceState>)
    ensures Applied(s, s, [])
  {
  }

  // ---------------------------------------------------------------- applying interfaces to a listener

  /** A step of ApplyConfig at listener k: it stays sound, and nothing else changes. */
  ghost predicate OnlyAt(net: Net, net': Net, k: nat) {
    && |net'| == |net| && k < |net|
    && (forall m :: 0 <= m < |net| && m != k ==> net'[m] == net[m])
    && SameListener(net[k], net'[k])
    && ValidNet(net')
  }

  lemma ApplyInterfaceEffect(net: Net, k: nat, ic: InterfaceConfig, host: Host)
    requires ValidNet(net) && k < |net| && net[k].permanent
    ensures var o := ApplyInterface(net, k, ic, host);
      OnlyAt(net, o.net, k) && (o.ok ==> Applied(net[k].interfaces, o.net[k].interfaces, [ic]))
  {
    var l := net[k];
    assert l in net;
    if !Refused(net, k, ic, host) {
      var x := Result(l, ic, host);
      ResultShape(l, ic, host);
      PlaceMembers(l.interfaces, x);
      PlaceApplied(l, ic, host);
      var l' := l.(interfaces := Place(l.interfaces, x));
      assert ValidListener(l');
      ReplaceListenerKeepsValid(net, k, l');
    }
  }

  lemma {:induction false} ApplyInterfacesOnlyAt(net: Net, k: nat, ics: seq<InterfaceConfig>, host: Host)
    requires ValidNet(net) && k < |net| && net[k].permanent
    ensures OnlyAt(net, ApplyInterfaces(net, k, ics, host).net, k)
    decreases |ics|
  {
    if ics != [] {
      var o := ApplyInterface(net, k, ics[0], host);
      ApplyInterfaceEffect(net, k, ics[0], host);
      if o.ok {
        ApplyInterfacesOnlyAt(o.net, k, ics[1..], host);
      }
    }
  }

  lemma {:induction false} ApplyInterfacesApplied(net: Net, k: nat, ics: seq<InterfaceConfig>, host: Host)
    requires ValidNet(net) && k < |net| && net[k].permanent
    requires ApplyInterfaces(net, k, ics, host).ok
    ensures Applied(net[k].interfaces, ApplyInterfaces(net, k, ics, host).net[k].interfaces, ics)
    decreases |ics|
  {
    if ics == [] {
      AppliedNothing(net[k].interfaces);
    } else {
      var net1, net2 := ApplyInterface(net, k, ics[0], host).net, ApplyInterfaces(net, k, ics, host).net;
      ApplyInterfaceEffect(net, k, ics[0], host);
      ApplyInterfacesApplied(net1, k, ics[1..], host);
      AppliedAfter(net[k].interfaces, net1[k].interfaces, net2[k].interfaces, ics);
    }
  }

  // ---------------------------------------------------------------- applying listeners

  function OutsideAddresses(cfg: Config): ListenerState -> bool {
    (l: ListenerState) => !Mentions(cfg, l.address)
  }

  /** The interfaces a configuration asks for at an address. */
  function AskedAt(cfg: Config, a: string): seq<InterfaceConfig> {
    if cfg == [] then [] else (if cfg[0].address == a then cfg[0].interfaces else []) + AskedAt(cfg[1..], a)
  }

  /** The name at an address was there, or is the one configured for it. */
  ghost predicate NameFrom(net: Net, cfg: Config, a: string, name: string) {
    if At(net, a).Some? then name == At(net, a).value.name else exists lc :: lc in cfg && lc.address == a && lc.name == name
  }

  /** How the registry changes when the listeners of `cfg` are applied. */
  ghost predicate AppliedAt(net: Net, net': Net, cfg: Config, a: string) {
    if Mentions(cfg, a) then
      && PermanentAt(net', a)
      && Applied(InterfacesAt(net, a), InterfacesAt(net', a), AskedAt(cfg, a))
      && NameFrom(net, cfg, a, At(net', a).value.name)
    else At(net', a) == At(net, a)
  }

  ghost predicate AppliedNet(net: Net, net': Net, cfg: Config) {
    && ValidNet(net')
    && Filter(net', OutsideAddresses(cfg)) == Filter(net, OutsideAddresses(cfg))
    && forall a: string :: AppliedAt(net, net', cfg, a)
  }

  /** The listener the interfaces are applied to: its interfaces are those the address had, the rest is untouched. */
  lemma EnsureEffect(net: Net, lc: ListenerConfig, host: Host)
    requires ValidNet(net) && EnsureListener(net, lc, host).ok
    ensures var net1, k := EnsureListener(net, lc, host).net, FindListener(net, lc.address);
      && ValidNet(net1) && k < |net1| && net1[k].permanent && net1[k].address == lc.address
      && net1[k].interfaces == InterfacesAt(net, lc.address)
      && net1[k].name == (if At(net, lc.address).Some? then At(net, lc.address).value.name else lc.name)
      && (forall a: string :: a != lc.address ==> At(net1, a) == At(net, a))
      && Filter(net1, OutsideAddresses([lc])) == Filter(net, OutsideAddresses([lc]))
  {
    var k, net1 := FindListener(net, lc.address), EnsureListener(net, lc, host).net;
    AtIsFound(net, lc.address);
    assert lc in [lc];
    if k < |net| {
      var l := SetMaxMessageSize(net[k].(permanent := true), lc.maxMessageSize);
      assert net[k] in net;
      assert ValidListener(l);
      ReplaceListenerKeepsValid(net, k, l);
      forall a: string | a != lc.address ensures At(net1, a) == At(net, a) {
        AtReplaced(net, k, l, a);
      }
      ReplaceUnkept(net, k, l, OutsideAddresses([lc]));
    } else {
      NewListenerKeepsValid(net, lc.name, lc.address, lc.maxMessageSize, true, host);
      var l := ListenerState(lc.name, lc.address, true, lc.maxMessageSize, []);
      forall a: string | a != lc.address ensures At(net1, a) == At(net, a) {
        AtAppended(net, l, a);
      }
      AppendUnkept(net, l, OutsideAddresses([lc]));
    }
  }

  lemma ApplyListenerValid(net: Net, lc: ListenerConfig, host: Host)
    requires ValidNet(net)
    ensures ValidNet(ApplyListener(net, lc, host).net)
  {
    if EnsureListener(net, lc, host).ok {
      EnsureEffect(net, lc, host);
      ApplyInterfacesOnlyAt(EnsureListener(net, lc, host).net, FindListener(net, lc.address), lc.interfaces, host);
    }
  }

  lemma ApplyListenerEffect(net: Net, lc: ListenerConfig, host: Host)
    requires ValidNet(net) && ApplyListener(net, lc, host).ok
    ensures AppliedNet(net, ApplyListener(net, lc, host).net, [lc])
  {
    var net1, k := EnsureListener(net, lc, host).net, FindListener(net, lc.address);
    var net2 := ApplyListener(net, lc, host).net;
    EnsureEffect(net, lc, host);
    ApplyInterfacesOnlyAt(net1, k, lc.interfaces, host);
    ApplyInterfacesApplied(net1, k, lc.interfaces, host);
    assert net2 == net1[k := net2[k]];
    assert lc in [lc];
    ReplaceUnkept(net1, k, net2[k], OutsideAddresses([lc]));
    assert AskedAt([lc], lc.address) == lc.interfaces + [];
    assert lc.interfaces + [] == lc.interfaces;
    forall a: string ensures AppliedAt(net, net2, [lc], a) {
      AtReplaced(net1, k, net2[k], a);
    }
  }

  lemma MentionsAppend(lc: ListenerConfig, rest: Config, a: string)
    ensures Mentions([lc] + rest, a) <==> lc.address == a || Mentions(rest, a)
    ensures Mentions([lc], a) <==> lc.address == a
  {
    assert lc in [lc] && lc in [lc] + rest;
    forall c ensures c in [lc] + rest <==> c in [lc] || c in rest {
    }
  }

  lemma {:induction false} NotAsked(cfg: Config, a: string)
    requires !Mentions(cfg, a)
    ensures AskedAt(cfg, a) == []
  {
    if cfg != [] {
      assert cfg[0] in cfg;
      forall lc | lc in cfg[1..] ensures lc.address != a {
        assert lc in cfg;
      }
      NotAsked(cfg[1..], a);
    }
  }

  lemma AppliedAtComposes(net: Net, net1: Net, net2: Net, lc: ListenerConfig, rest: Config, a: string)
    requires AppliedAt(net, net1, [lc], a) && AppliedAt(net1, net2, rest, a)
    ensures AppliedAt(net, net2, [lc] + rest, a)
  {
    var cfg := [lc] + rest;
    MentionsAppend(lc, rest, a);
    assert cfg[1..] == rest;
    assert AskedAt([lc], a) == if lc.address == a then lc.interfaces else [] by {
      assert lc.interfaces + [] == lc.interfaces;
    }
    assert AskedAt(cfg, a) == AskedAt([lc], a) + AskedAt(rest, a);
    assert forall c :: c in [lc] || c in rest ==> c in cfg;
    if Mentions(rest, a) {
      if Mentions([lc], a) {
        AppliedComposes(InterfacesAt(net, a), InterfacesAt(net1, a), InterfacesAt(net2, a), AskedAt([lc], a), AskedAt(rest, a));
      } else {
        assert [] + AskedAt(rest, a) == AskedAt(rest, a);
      }
    } else {
      NotAsked(rest, a);
      assert AskedAt([lc], a) + [] == AskedAt([lc], a);
    }
  }

  lemma OutsideAddressesTwice(net: Net, lc: ListenerConfig, rest: Config)
    ensures Filter(Filter(net, OutsideAddresses([lc])), OutsideAddresses(rest)) == Filter(net, OutsideAddresses([lc] + rest))
    ensures Filter(Filter(net, OutsideAddresses(rest)), OutsideAddresses([lc])) == Filter(net, OutsideAddresses([lc] + rest))
  {
    forall l | l in net ensures OutsideAddresses([lc] + rest)(l) == (OutsideAddresses([lc])(l) && OutsideAddresses(rest)(l)) {
      MentionsAppend(lc, rest, l.address);
    }
    FilterFilter(net, OutsideAddresses([lc]), OutsideAddresses(rest), OutsideAddresses([lc] + rest));
    FilterFilter(net, OutsideAddresses(rest), OutsideAddresses([lc]), OutsideAddresses([lc] + rest));
  }

  lemma AppliedNetComposes(net: Net, net1: Net, net2: Net, lc: ListenerConfig, rest: Config)
    requires AppliedNet(net, net1, [lc]) && AppliedNet(net1, net2, rest)
    ensures AppliedNet(net, net2, [lc] + rest)
  {
    OutsideAddressesTwice(net, lc, rest);
    OutsideAddressesTwice(net1, lc, rest);
    OutsideAddressesTwice(net2, lc, rest);
    forall a: string ensures AppliedAt(net, net2, [lc] + rest, a) {
      AppliedAtComposes(net, net1, net2, lc, rest, a);
    }
  }

  lemma AppliedNetNothing(net: Net)
    requires ValidNet(net)
    ensures AppliedNet(net, net, [])
  {
  }

  lemma {:induction false} ApplyListenersValid(net: Net, cfg: Config, host: Host)
    requires ValidNet(net)
    ensures ValidNet(ApplyListeners(net, cfg, host).net)
    decreases |cfg|
  {
    if cfg != [] {
      ApplyListenerValid(net, cfg[0], host);
      if ApplyListener(net, cfg[0], host).ok {
        ApplyListenersValid(ApplyListener(net, cfg[0], host).net, cfg[1..], host);
      }
    }
  }

  lemma {:induction false} ApplyListenersEffect(net: Net, cfg: Config, host: Host)
    requires ValidNet(net) && ApplyListeners(net, cfg, host).ok
    ensures AppliedNet(net, ApplyListeners(net, cfg, host).net, cfg)
    decreases |cfg|
  {
    if cfg == [] {
      AppliedNetNothing(net);
    } else {
      var net1 := ApplyListener(net, cfg[0], host).net;
      ApplyListenerValid(net, cfg[0], host);
      ApplyListenerEffect(net, cfg[0], host);
      ApplyListenersEffect(net1, cfg[1..], host);
      AppliedNetComposes(net, net1, ApplyListeners(net, cfg, host).net, cfg[0], cfg[1..]);
      assert [cfg[0]] + cfg[1..] == cfg;
    }
  }

  // ---------------------------------------------------------------- pruning

  lemma {:induction false} PruneMembers(net: Net, cfg: Config, l': ListenerState)
    ensures l' in Prune(net, cfg) <==> exists l :: l in net && PruneListener(cfg, l) == Some(l')
  {
    if net != [] {
      PruneMembers(net[1..], cfg, l');
      if exists l :: l in net && PruneListener(cfg, l) == Some(l') {
        var l :| l in net && PruneListener(cfg, l) == Some(l');
        assert l == net[0] || l in net[1..];
      }
    }
  }

  lemma {:induction false} FindConfigSound(cfg: Config, a: string, name: string)
    ensures FindConfig(cfg, a, name).Some? ==>
              FindConfig(cfg, a, name).value in cfg && FindConfig(cfg, a, name).value.address == a && FindConfig(cfg, a, name).value.name == name
    ensures FindConfig(cfg, a, name).None? <==> forall lc :: lc in cfg ==> lc.address != a || lc.name != name
  {
    if cfg != [] {
      FindConfigSound(cfg[1..], a, name);
    }
  }

  lemma {:induction false} FilterKeepsVnisUnique(s: seq<InterfaceState>, keep: InterfaceState -> bool)
    requires UniqueVnis(s)
    ensures UniqueVnis(Filter(s, keep))
  {
    if s != [] {
      var rest := Filter(s[1..], keep);
      FilterKeepsVnisUnique(s[1..], keep);
      FilterMembers(s[1..], keep);
      forall j | 0 <= j < |rest| ensures rest[j].vni != s[0].vni {
        assert rest[j] in rest;
      }
    }
  }

  lemma PruneListenerValid(cfg: Config, l: ListenerState)
    requires ValidListener(l) && PruneListener(cfg, l).Some?
    ensures var l' := PruneListener(cfg, l).value; ValidListener(l') && SameListener(l, l')
  {
    if l.permanent {
      var lc := FindConfig(cfg, l.address, l.name).value;
      FilterKeepsVnisUnique(l.interfaces, Stays(lc));
      FilterMembers(l.interfaces, Stays(lc));
    }
  }

  lemma {:induction false} PruneValid(net: Net, cfg: Config)
    requires ValidNet(net)
    ensures ValidNet(Prune(net, cfg))
  {
    if net != [] {
      var rest := Prune(net[1..], cfg);
      assert forall l :: l in net[1..] ==> l in net;
      PruneValid(net[1..], cfg);
      if PruneListener(cfg, net[0]).Some? {
        var l := PruneListener(cfg, net[0]).value;
        PruneListenerValid(cfg, net[0]);
        forall k | 0 <= k < |rest| ensures rest[k].address != l.address && rest[k].name != l.name {
          assert rest[k] in rest;
          PruneMembers(net[1..], cfg, rest[k]);
        }
      }
    }
  }

  /** What is at an address after pruning: the pruned listener that was there, if any. */
  lemma PruneAt(net: Net, cfg: Config, a: string)
    requires ValidNet(net)
    ensures At(Prune(net, cfg), a) == if At(net, a).Some? then PruneListener(cfg, At(net, a).value) else None
  {
    var net' := Prune(net, cfg);
    PruneValid(net, cfg);
    AtMember(net, a);
    AtMember(net', a);
    if At(net, a).Some? && PruneListener(cfg, At(net, a).value).Some? {
      var l' := PruneListener(cfg, At(net, a).value).value;
      PruneMembers(net, cfg, l');
      AtUnique(net', l');
    } else {
      forall l' | l' in net' ensures l'.address != a {
        PruneMembers(net, cfg, l');
        var l :| l in net && PruneListener(cfg, l) == Some(l');
        AtUnique(net, l);
      }
    }
  }

  /** A transient listener that the configuration does not mention. */
  function UntouchedListener(cfg: Config): ListenerState -> bool {
    (l: ListenerState) => !Mentions(cfg, l.address) && !l.permanent
  }

  /** Pruning removes every unmentioned permanent listener and leaves the unmentioned transient ones as they are. */
  lemma {:induction false} PruneOutside(net: Net, cfg: Config)
    ensures Filter(Prune(net, cfg), OutsideAddresses(cfg)) == Filter(net, UntouchedListener(cfg))
  {
    if net != [] {
      var l, rest := net[0], Prune(net[1..], cfg);
      PruneOutside(net[1..], cfg);
      FindConfigSound(cfg, l.address, l.name);
      var p := PruneListener(cfg, l);
      if p.Some? {
        assert ([p.value] + rest)[1..] == rest;
        if l.permanent {
          assert Mentions(cfg, l.address);
        }
      } else {
        assert [] + rest == rest;
      }
    }
  }

  // ---------------------------------------------------------------- the reconciliation theorem

  lemma {:induction false} AskedIsMentioned(cfg: Config, a: string, v: nat)
    ensures AsksVni(AskedAt(cfg, a), v) <==> MentionsVni(cfg, a, v)
  {
    if cfg != [] {
      AskedIsMentioned(cfg[1..], a, v);
      var own := if cfg[0].address == a then cfg[0].interfaces else [];
      AsksAppend(own, AskedAt(cfg[1..], a), v);
      if MentionsVni(cfg, a, v) {
        var lc :| lc in cfg && lc.address == a && AsksVni(lc.interfaces, v);
        assert lc == cfg[0] || lc in cfg[1..];
      }
      if MentionsVni(cfg[1..], a, v) {
        var lc :| lc in cfg[1..] && lc.address == a && AsksVni(lc.interfaces, v);
        assert lc in cfg;
      }
    }
  }

  /** After pruning only configured interfaces are permanent. */
  lemma PrunedPermanents(net: Net, cfg: Config, a: string, v: nat)
    requires ValidNet(net) && PermanentVni(InterfacesAt(Prune(net, cfg), a), v)
    ensures MentionsVni(cfg, a, v)
  {
    PruneAt(net, cfg, a);
    AtMember(net, a);
    var l := At(net, a).value;
    assert l in net;
    var i :| i in InterfacesAt(Prune(net, cfg), a) && i.vni == v && i.permanent;
    FindConfigSound(cfg, l.address, l.name);
    if l.permanent {
      var lc := FindConfig(cfg, l.address, l.name).value;
      FilterMember(l.interfaces, Stays(lc), i);
      assert Configured(lc, i);
    }
  }

  /** Transient interfaces that the configuration does not mention. */
  function UntouchedInterface(cfg: Config, a: string): InterfaceState -> bool {
    (i: InterfaceState) => !MentionsVni(cfg, a, i.vni) && !i.permanent
  }

  /** The listener with an address survives pruning. */
  predicate Survives(net: Net, cfg: Config, a: string) {
    var l := At(net, a);
    l.Some? && PruneListener(cfg, l.value).Some?
  }

  lemma PrunedOthers(net: Net, cfg: Config, a: string)
    requires ValidNet(net) && Survives(net, cfg, a)
    ensures Filter(InterfacesAt(Prune(net, cfg), a), OutsideVnis(AskedAt(cfg, a))) == Filter(InterfacesAt(net, a), UntouchedInterface(cfg, a))
  {
    var l := At(net, a).value;
    PruneAt(net, cfg, a);
    AtMember(net, a);
    FindConfigSound(cfg, l.address, l.name);
    forall i | i in l.interfaces ensures OutsideVnis(AskedAt(cfg, a))(i) <==> !MentionsVni(cfg, a, i.vni) {
      AskedIsMentioned(cfg, a, i.vni);
    }
    if l.permanent {
      var lc := FindConfig(cfg, l.address, l.name).value;
      forall i | i in l.interfaces ensures UntouchedInterface(cfg, a)(i) == (Stays(lc)(i) && OutsideVnis(AskedAt(cfg, a))(i)) {
        if Configured(lc, i) {
          assert MentionsVni(cfg, a, i.vni);
        }
      }
      FilterFilter(l.interfaces, Stays(lc), OutsideVnis(AskedAt(cfg, a)), UntouchedInterface(cfg, a));
    } else {
      FilterCongruence(l.interfaces, OutsideVnis(AskedAt(cfg, a)), UntouchedInterface(cfg, a));
    }
  }

  /** Reconciliation. From every valid registry, a successful ApplyConfig leaves the permanent listeners, by address,
      and the permanent interfaces, by address and VNI, exactly those configured. Transient listeners that are not
      mentioned stay as they are, in order, and no others remain outside the configuration; on every listener that
      survives pruning the same holds of its interfaces. */
  lemma Reconciles(net: Net, cfg: Config, host: Host, a: string, v: nat)
    requires ValidNet(net) && ApplyConfig(net, cfg, host).ok
    ensures var net' := ApplyConfig(net, cfg, host).net;
      && ValidNet(net')
      && (PermanentAt(net', a) <==> Mentions(cfg, a))
      && (PermanentVni(InterfacesAt(net', a), v) <==> MentionsVni(cfg, a, v))
      && Filter(net', OutsideAddresses(cfg)) == Filter(net, UntouchedListener(cfg))
      && (Mentions(cfg, a) && Survives(net, cfg, a) ==>
            Filter(InterfacesAt(net', a), OutsideVnis(AskedAt(cfg, a))) == Filter(InterfacesAt(net, a), UntouchedInterface(cfg, a)))
  {
    var pruned, net' := Prune(net, cfg), ApplyConfig(net, cfg, host).net;
    PruneValid(net, cfg);
    ApplyListenersEffect(pruned, cfg, host);
    PruneOutside(net, cfg);
    assert AppliedAt(pruned, net', cfg, a);
    AskedIsMentioned(cfg, a, v);
    if PermanentVni(InterfacesAt(pruned, a), v) {
      PrunedPermanents(net, cfg, a, v);
    }
    if Survives(net, cfg, a) {
      PrunedOthers(net, cfg, a);
    }
    if PermanentAt(pruned, a) {
      PermanentsMentioned(net, cfg, a);
    }
  }

  lemma PermanentsMentioned(net: Net, cfg: Config, a: string)
    requires ValidNet(net) && PermanentAt(Prune(net, cfg), a)
    ensures Mentions(cfg, a)
  {
    PruneAt(net, cfg, a);
    AtMember(net, a);
    var l := At(net, a).value;
    FindConfigSound(cfg, l.address, l.name);
  }

  // ---------------------------------------------------------------- transient interfaces

  /** The transient interfaces at an address that the configuration does not mention. */
  function Bystanders(net: Net, cfg: Config, a: string): seq<InterfaceState> {
    Filter(InterfacesAt(net, a), UntouchedInterface(cfg, a))
  }

  /** What is outside the configuration and transient is found by either filter. */
  lemma BystandersOf(s: seq<InterfaceState>, cfg: Config, a: string)
    ensures Filter(s, UntouchedInterface(cfg, a)) == Filter(Filter(s, OutsideVnis(AskedAt(cfg, a))), UntouchedInterface(cfg, a))
  {
    forall i | i in s ensures UntouchedInterface(cfg, a)(i) == (OutsideVnis(AskedAt(cfg, a))(i) && UntouchedInterface(cfg, a)(i)) {
      AskedIsMentioned(cfg, a, i.vni);
    }
    FilterFilter(s, OutsideVnis(AskedAt(cfg, a)), UntouchedInterface(cfg, a), UntouchedInterface(cfg, a));
  }

  lemma FilterAgain(s: seq<InterfaceState>, keep: InterfaceState -> bool)
    ensures Filter(Filter(s, keep), keep) == Filter(s, keep)
  {
    FilterFilter(s, keep, keep, keep);
  }

  /** On a mentioned address that did not survive pruning, everything there afterwards is configured. */
  lemma NoBystanders(net: Net, cfg: Config, host: Host, a: string)
    requires ValidNet(net) && ApplyConfig(net, cfg, host).ok && !Survives(net, cfg, a)
    ensures Bystanders(ApplyConfig(net, cfg, host).net, cfg, a) == []
  {
    var pruned, net' := Prune(net, cfg), ApplyConfig(net, cfg, host).net;
    PruneValid(net, cfg);
    PruneAt(net, cfg, a);
    ApplyListenersEffect(pruned, cfg, host);
    assert AppliedAt(pruned, net', cfg, a);
    BystandersOf(InterfacesAt(net', a), cfg, a);
  }

  lemma SurvivorKeepsBystanders(net: Net, cfg: Config, host: Host, a: string)
    requires ValidNet(net) && ApplyConfig(net, cfg, host).ok && Survives(net, cfg, a)
    ensures Bystanders(ApplyConfig(net, cfg, host).net, cfg, a) == Bystanders(net, cfg, a)
  {
    var net' := ApplyConfig(net, cfg, host).net;
    Reconciles(net, cfg, host, a, 0);
    BystandersOf(InterfacesAt(net', a), cfg, a);
    FilterAgain(InterfacesAt(net, a), UntouchedInterface(cfg, a));
    if !Mentions(cfg, a) {
      UnmentionedSurvivor(net, cfg, host, a);
    }
  }

  /** A listener that survives without being mentioned is transient, and is left as it is. */
  lemma UnmentionedSurvivor(net: Net, cfg: Config, host: Host, a: string)
    requires ValidNet(net) && ApplyConfig(net, cfg, host).ok && Survives(net, cfg, a) && !Mentions(cfg, a)
    ensures At(ApplyConfig(net, cfg, host).net, a) == At(net, a)
  {
    var l := At(net, a).value;
    PruneValid(net, cfg);
    PruneAt(net, cfg, a);
    AtMember(net, a);
    FindConfigSound(cfg, l.address, l.name);
    ApplyListenersEffect(Prune(net, cfg), cfg, host);
    assert AppliedAt(Prune(net, cfg), ApplyConfig(net, cfg, host).net, cfg, a);
  }

  /** Transient interfaces that are not mentioned stay exactly when their listener survives the removals, or there are
      none: a permanent listener that is not configured under its address and name takes them with it. */
  lemma BystandersStayIff(net: Net, cfg: Config, host: Host, a: string)
    requires ValidNet(net) && ApplyConfig(net, cfg, host).ok
    ensures Bystanders(ApplyConfig(net, cfg, host).net, cfg, a) == Bystanders(net, cfg, a) <==>
            Survives(net, cfg, a) || Bystanders(net, cfg, a) == []
  {
    if Survives(net, cfg, a) {
      SurvivorKeepsBystanders(net, cfg, host, a);
    } else {
      NoBystanders(net, cfg, host, a);
    }
  }
}
