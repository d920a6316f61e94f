/** What a device's MTU events make of a configuration that was applied. An event caps the packet reader's MTU, which is the
    one that is saved, at what the listener's tunnel can carry. */
module Settling {
  import opened Reconcile
  import opened Registry
  import opened SaveRoundTrip

  /** An MTU event of interface m on listener k; one that is not there has none. */
  function AfterEvent(net: Net, k: nat, m: nat): Net {
    if k < |net| && m < |net[k].interfaces|
    then WithInterfaces(net, k, net[k].interfaces[m := MtuEvent(net[k].interfaces[m], net[k].maxMessageSize)])
    else net
  }

  /** Any number of them, oldest first. */
  function AfterEvents(net: Net, events: seq<(nat, nat)>): Net {
    if events == [] then net
    else var n := |events| - 1; AfterEvent(AfterEvents(net, events[..n]), events[n].0, events[n].1)
  }

  /** Every configured MTU is one that the tunnel of its listener can carry. */
  ghost predicate Carried(cfg: Config) {
    forall lc, ic :: lc in cfg && ic in lc.interfaces ==> ic.mtu <= lc.maxMessageSize - 50
  }

  // ---------------------------------------------------------------- carried MTUs stay

  lemma {:induction false} BuiltAt(cfg: Config, k: nat)
    requires k < |cfg|
    ensures |Built(cfg)| == |cfg| && Built(cfg)[k] == BuiltListener(cfg[k])
  {
    if k > 0 {
      BuiltAt(cfg[1..], k - 1);
    } else if |cfg| > 1 {
      BuiltAt(cfg[1..], 0);
    }
  }

  lemma {:induction false} BuiltInterfaceAt(ics: seq<InterfaceConfig>, m: nat)
    requires m < |ics|
    ensures |BuiltInterfaces(ics)| == |ics| && BuiltInterfaces(ics)[m] == BuiltInterface(ics[m])
  {
    if m > 0 {
      BuiltInterfaceAt(ics[1..], m - 1);
    } else if |ics| > 1 {
      BuiltInterfaceAt(ics[1..], 0);
    }
  }

  lemma {:induction false} BuiltLengths(cfg: Config, ics: seq<InterfaceConfig>)
    ensures |Built(cfg)| == |cfg| && |BuiltInterfaces(ics)| == |ics|
    decreases |cfg| + |ics|
  {
    if cfg != [] {
      BuiltLengths(cfg[1..], []);
    }
    if ics != [] {
      BuiltLengths([], ics[1..]);
    }
  }

  /** Nothing but what is transient can have changed. */
  ghost predicate Settled(net: Net, cfg: Config) {
    exists front: Net :: net == front + Built(cfg) && forall l :: l in front ==> !l.permanent
  }

  lemma {:induction false} EventSettles(net: Net, cfg: Config, k: nat, m: nat)
    requires Settled(net, cfg) && Carried(cfg) && forall lc, ic :: lc in cfg && ic in lc.interfaces ==> ic.mtu >= 0
    ensures Settled(AfterEvent(net, k, m), cfg)
  {
    var front: Net :| net == front + Built(cfg) && forall l :: l in front ==> !l.permanent;
    if k < |net| && m < |net[k].interfaces| {
      var net' := AfterEvent(net, k, m);
      if k < |front| {
        assert front[k] in front;
        var front' := front[k := net'[k]];
        assert net' == front' + Built(cfg);
        assert forall l :: l in front' ==> !l.permanent;
      } else {
        var a := k - |front|;
        BuiltLengths(cfg, []);
        BuiltAt(cfg, a);
        BuiltLengths([], cfg[a].interfaces);
        BuiltInterfaceAt(cfg[a].interfaces, m);
        assert cfg[a] in cfg && cfg[a].interfaces[m] in cfg[a].interfaces;
        assert net[k].interfaces[m := net[k].interfaces[m]] == net[k].interfaces;
        assert net' == net;
      }
    }
  }

  lemma {:induction false} EventsSettle(net: Net, cfg: Config, events: seq<(nat, nat)>)
    requires Settled(net, cfg) && Carried(cfg) && forall lc, ic :: lc in cfg && ic in lc.interfaces ==> ic.mtu >= 0
    ensures Settled(AfterEvents(net, events), cfg)
  {
    if events != [] {
      var n := |events| - 1;
      EventsSettle(net, cfg, events[..n]);
      EventSettles(AfterEvents(net, events[..n]), cfg, events[n].0, events[n].1);
    }
  }

  // ---------------------------------------------------------------- others do not

  lemma {:induction false} SavedInterfaceAt(s: seq<InterfaceState>, m: nat)
    requires m < |s| && forall i :: i in s ==> i.permanent
    ensures |SaveInterfaces(s)| == |s| && SaveInterfaces(s)[m] == SaveInterface(s[m])
  {
    assert s[0] in s;
    if m > 0 {
      SavedInterfaceAt(s[1..], m - 1);
    } else if |s| > 1 {
      SavedInterfaceAt(s[1..], 0);
    }
  }

  lemma {:induction false} SavedListenerAt(net: Net, k: nat)
    requires k < |net| && forall l :: l in net ==> l.permanent
    ensures |SaveConfig(net)| == |net| && SaveConfig(net)[k].interfaces == SaveInterfaces(net[k].interfaces)
  {
    assert net[0] in net;
    if k > 0 {
      SavedListenerAt(net[1..], k - 1);
    } else if |net| > 1 {
      SavedListenerAt(net[1..], 0);
    }
  }

  lemma {:induction false} AllBuiltPermanent(cfg: Config, ics: seq<InterfaceConfig>)
    ensures forall l :: l in Built(cfg) ==> l.permanent
    ensures forall i :: i in BuiltInterfaces(ics) ==> i.permanent
  {
    BuiltLengths(cfg, ics);
    forall l | l in Built(cfg) ensures l.permanent {
      var k :| 0 <= k < |Built(cfg)| && Built(cfg)[k] == l;
      BuiltAt(cfg, k);
    }
    forall i | i in BuiltInterfaces(ics) ensures i.permanent {
      var m :| 0 <= m < |BuiltInterfaces(ics)| && BuiltInterfaces(ics)[m] == i;
      BuiltInterfaceAt(ics, m);
    }
  }

  /** One event on an interface whose MTU is too large, and it is saved capped. */
  lemma {:induction false} CappedIsSaved(front: Net, cfg: Config, a: nat, m: nat)
    requires forall l :: l in front ==> !l.permanent
    requires a < |cfg| && m < |cfg[a].interfaces| && cfg[a].interfaces[m].mtu >= 0
    requires cfg[a].interfaces[m].mtu > cfg[a].maxMessageSize - 50
    ensures SaveConfig(AfterEvent(front + Built(cfg), |front| + a, m)) != cfg
  {
    var net, lc := front + Built(cfg), cfg[a];
    BuiltAt(cfg, a);
    BuiltInterfaceAt(lc.interfaces, m);
    var l := BuiltListener(lc);
    var s := l.interfaces[m := MtuEvent(l.interfaces[m], l.maxMessageSize)];
    var capped := Built(cfg)[a := l.(interfaces := s)];
    assert AfterEvent(net, |front| + a, m) == front + capped;
    AllBuiltPermanent(cfg, lc.interfaces);
    SaveTransient(front, capped);
    SavedListenerAt(capped, a);
    SavedInterfaceAt(s, m);
    assert SaveInterfaces(s)[m].mtu == lc.maxMessageSize - 50;
  }

  // ---------------------------------------------------------------- the theorem

  lemma {:induction false} SettledSaves(net: Net, cfg: Config)
    requires Settled(net, cfg)
    ensures SaveConfig(net) == cfg
  {
    var front: Net :| net == front + Built(cfg) && forall l :: l in front ==> !l.permanent;
    SaveTransient(front, Built(cfg));
    SaveBuilt(cfg);
  }

  ghost predicate SavesWhatever(net: Net, cfg: Config) {
    forall events: seq<(nat, nat)> :: SaveConfig(AfterEvents(net, events)) == cfg
  }

  lemma {:induction false} SavesWhateverIff(front: Net, cfg: Config)
    requires forall l :: l in front ==> !l.permanent
    requires forall lc, ic :: lc in cfg && ic in lc.interfaces ==> ic.mtu >= 0
    ensures SavesWhatever(front + Built(cfg), cfg) <==> Carried(cfg)
  {
    var net := front + Built(cfg);
    if Carried(cfg) {
      assert Settled(net, cfg);
      forall events: seq<(nat, nat)> ensures SaveConfig(AfterEvents(net, events)) == cfg {
        EventsSettle(net, cfg, events);
        SettledSaves(AfterEvents(net, events), cfg);
      }
    } else {
      var lc, ic :| lc in cfg && ic in lc.interfaces && ic.mtu > lc.maxMessageSize - 50;
      var a :| 0 <= a < |cfg| && cfg[a] == lc;
      var m :| 0 <= m < |lc.interfaces| && lc.interfaces[m] == ic;
      CappedIsSaved(front, cfg, a, m);
      OneEvent(net, |front| + a, m);
    }
  }

  lemma OneEvent(net: Net, k: nat, m: nat)
    ensures AfterEvents(net, [(k, m)]) == AfterEvent(net, k, m)
  {
    assert [(k, m)][..0] == [];
  }

  /** Saving after applying and any number of MTU events gives the configuration back exactly when every configured MTU is at
      most the listener's maximum less 50. */
  lemma {:induction false} SaveAfterEventsIff(net: Net, cfg: Config, host: Host)
    requires forall l :: l in net ==> !l.permanent
    requires CanonicalConfig(cfg) && Provides(host, cfg)
    requires forall lc :: lc in cfg ==> Apart(net, lc, host)
    ensures ApplyConfig(net, cfg, host).ok
    ensures SavesWhatever(ApplyConfig(net, cfg, host).net, cfg) <==> Carried(cfg)
  {
    PruneTransient(net, cfg);
    ApplyListenersBuild(net, cfg, host);
    MtusSet(cfg);
    SavesWhateverIff(net, cfg);
  }

  lemma MtusSet(cfg: Config)
    requires CanonicalConfig(cfg)
    ensures forall lc, ic :: lc in cfg && ic in lc.interfaces ==> ic.mtu >= 0
  {
    forall lc, ic | lc in cfg && ic in lc.interfaces ensures ic.mtu >= 0 {
      assert CanonicalInterface(ic);
    }
  }
}
