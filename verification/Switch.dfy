/** The switch as the program holds it: listeners with their interfaces, each updated in place. Every method is tied to
    the step of the value model that it performs. */
module Switch {
  import opened Addresses
  import opened ArpProtocol
  import ArpTable
  import opened Delivery
  import Device
  import opened Forwarding
  import opened Lifecycle
  import Parsing
  import opened Reconcile
  import opened Registry
  import Resolver
  import opened Sequences
  import Tunnel
  import opened Wire

  /** An interface: the TUN device and its tables. `kernel` is what the operating system lists on the device, `written`
      the packets handed to it, `closed` whether the closed channel has been closed. */
  class Interface {
    const listener: Listener
    const name: string
    const vni: nat
    var permanent: bool
    var state: DeviceState
    var closed: bool
    var mtu: int
    var deviceMtu: int
    var mac: Mac
    var addresses: seq<Prefix>
    var kernel: seq<Prefix>
    var written: seq<Bytes>
    var arp: ArpTable.Table
    var arpEvent: map<Addr, seq<Resolver.Chan>>
    var macs: MacTable
    var routes: RouteTable

    constructor (name: string, vni: nat, mtu: int, mac: Mac, l: Listener, permanent: bool)
      ensures listener == l
      ensures State() == InterfaceState(name, vni, permanent, mtu, mtu, mac, [], [], [], [], [])
      ensures state == Down && !closed && written == [] && arpEvent == map[]
    {
      listener, this.name, this.vni, this.permanent := l, name, vni, permanent;
      state, closed := Down, false;
      this.mtu, deviceMtu := mtu, mtu;
      this.mac, addresses, kernel, written := mac, [], [], [];
      arp, arpEvent, macs, routes := [], map[], [], [];
    }

    ghost function State(): InterfaceState
      reads this
    {
      InterfaceState(name, vni, permanent, mtu, deviceMtu, mac, addresses, kernel, arp, macs, routes)
    }

    /** The interface went through the edit, whatever its listener and the machine. */
    twostate predicate Edited(op: InterfaceOp)
      reads this
    {
      forall size: int, host: Host :: State() == EditInterface(old(State()), op, size, host)
    }

    // -------------------------------------------------------------- ARP table

    /** Add an ARP entry that is static. */
    method AddStaticARPEntry(addr: Addr, mac: Mac, perm: bool)
      requires ArpTable.Valid(arp)
      modifies this`arp
      ensures ArpTable.Valid(arp)
      ensures arp == ArpTable.AddStatic(old(arp), addr, mac, perm)
      ensures forall now :: Edited(OpArp(ArpTable.OpStatic(addr, mac, perm), now))
    {
      ghost var t := arp;
      ArpTable.AddStaticFinds(t, addr, mac, perm, addr);
      var updated, p := false, 0;
      while p < |arp|
        invariant 0 <= p <= |arp| && arp == t && !updated
        invariant forall j :: 0 <= j < p ==> t[j].addr != addr
      {
        if arp[p].addr == addr {
          ArpTable.FoundAt(t, p, addr);
          if arp[p].mac == mac {
            ArpTable.OverwriteAt(t, p, ArpTable.ArpEntry(addr, mac, None, perm, false));
            updated := true;
            arp := arp[p := arp[p].(expires := None, updating := false, permanent := perm)];
          } else {
            ArpTable.RemovedAt(t, p);
            arp := RemoveAt(arp, p);
          }
          break;
        }
        p := p + 1;
      }
      if p == |t| {
        ArpTable.FoundNowhere(t, addr);
      }
      if !updated {
        arp := arp + [ArpTable.ArpEntry(addr, SixBytes(mac), None, perm, false)];
      }
    }

    /** Add an ARP entry heard from the network, or renew the expiry of the one that is there. */
    method AddOrUpdateARP(addr: Addr, mac: Mac, now: ArpTable.Time)
      requires ArpTable.Valid(arp)
      modifies this`arp
      ensures ArpTable.Valid(arp)
      ensures arp == ArpTable.Learn(old(arp), addr, mac, now)
      ensures Edited(OpArp(ArpTable.OpLearn(addr, mac), now))
    {
      ghost var t := arp;
      ArpTable.LearnFinds(t, addr, mac, now, addr);
      var updated, p := false, 0;
      while p < |arp|
        invariant 0 <= p <= |arp| && arp == t && !updated
        invariant forall j :: 0 <= j < p ==> t[j].addr != addr
      {
        if arp[p].addr == addr {
          ArpTable.FoundAt(t, p, addr);
          if arp[p].mac == mac {
            ArpTable.OverwriteAt(t, p, ArpTable.ArpEntry(addr, mac, Some(now + ArpTable.LIFETIME), t[p].permanent, false));
            updated := true;
            arp := arp[p := arp[p].(expires := Some(now + ArpTable.LIFETIME), updating := false)];
          } else {
            ArpTable.RemovedAt(t, p);
            arp := RemoveAt(arp, p);
          }
          break;
        }
        p := p + 1;
      }
      if p == |t| {
        ArpTable.FoundNowhere(t, addr);
      }
      if !updated {
        arp := arp + [ArpTable.ArpEntry(addr, SixBytes(mac), Some(now + ArpTable.LIFETIME), false, false)];
      }
    }

    /** Remove the entry of an address: RemoveARPEntry, and a refresher that got no answer. */
    method RemoveARPEntry(addr: Addr) returns (ok: bool)
      requires ArpTable.Valid(arp)
      modifies this`arp
      ensures ArpTable.Valid(arp)
      ensures arp == ArpTable.Without(old(arp), addr)
      ensures ok <==> old(ArpTable.Find(arp, addr)).Some?
      ensures forall now :: Edited(OpArp(ArpTable.OpRemove(addr), now))
    {
      ArpTable.FilterValid(arp, ArpTable.Elsewhere(addr));
      var p := 0;
      while p < |arp|
        invariant 0 <= p <= |arp|
        invariant forall j :: 0 <= j < p ==> arp[j].addr != addr
      {
        if arp[p].addr == addr {
          ArpTable.FoundAt(arp, p, addr);
          ArpTable.RemovedAt(arp, p);
          arp := RemoveAt(arp, p);
          return true;
        }
        p := p + 1;
      }
      ArpTable.FoundNowhere(arp, addr);
      return false;
    }

    method FlushARPTable()
      modifies this`arp
      ensures arp == []
      ensures forall now :: Edited(OpArp(ArpTable.OpFlush, now))
    {
      arp := [];
    }

    /** One run of the expiry job. */
    method ExpireARP(now: ArpTable.Time)
      modifies this`arp
      ensures arp == Filter(old(arp), Not(ArpTable.Swept(now)))
      ensures Edited(OpArp(ArpTable.OpSweep, now))
    {
      arp := DeleteRestarting(arp, ArpTable.Swept(now));
    }

    // -------------------------------------------------------------- resolving an address

    /** The first half of GetMacFor: which address to resolve, whether its hardware address follows from the address
        alone, and which of our addresses to ask from. */
    method ChooseTarget(destination: Addr) returns (target: Addr, direct: Option<Mac>, source: Option<Addr>)
      ensures target == Resolver.Target(routes, destination)
      ensures direct == Resolver.DirectAnswer(addresses, target)
      ensures direct.None? ==> source == SourceAddress(addresses, target)
    {
      target, direct, source := destination, None, None;
      var gateway := GetGateway(routes, destination);
      if gateway.Some? {
        target := gateway.value;
      }
      if IsMulticast(target) {
        return target, Some(MulticastMac(target)), None;
      }
      var prefix := ChooseSource(addresses, target);
      PickSourceSound(addresses, target);
      if prefix.Some? {
        source := Some(prefix.value.addr);
        if target.V4? {
          var broadcast := IsDirectedBroadcast(prefix.value, target.ip);
          if broadcast {
            direct := Some(BROADCAST);
          }
        }
      }
    }

    /** The critical section of GetMacFor: an entry that is there answers, and past its expiry asks for a refresher;
        otherwise the channel is registered as a waiter. */
    method Consult(target: Addr, c: Resolver.Chan, now: ArpTable.Time) returns (hit: Option<ArpTable.ArpEntry>, refresh: bool)
      modifies this`arpEvent
      ensures hit == ArpTable.Find(arp, target)
      ensures refresh <==> hit.Some? && !hit.value.updating && hit.value.expires.Some? && now > hit.value.expires.value
      ensures arpEvent == if hit.Some? then old(arpEvent) else Resolver.Register(old(arpEvent), target, c)
    {
      var p := 0;
      while p < |arp|
        invariant 0 <= p <= |arp|
        invariant forall j :: 0 <= j < p ==> arp[j].addr != target
      {
        var ent := arp[p];
        if ent.addr == target {
          ArpTable.FoundAt(arp, p, target);
          refresh := false;
          if !ent.updating && ent.expires.Some? {
            refresh := now > ent.expires.value;
          }
          return Some(ent), refresh;
        }
        p := p + 1;
      }
      ArpTable.FoundNowhere(arp, target);
      Await(target, c);
      return None, false;
    }

    /** Register a channel for the replies from an address. */
    method Await(target: Addr, c: Resolver.Chan)
      modifies this`arpEvent
      ensures arpEvent == Resolver.Register(old(arpEvent), target, c)
    {
      arpEvent := arpEvent[target := Resolver.Waiters(arpEvent, target) + [c]];
    }

    /** The deferred deregistration: the first occurrence of the channel goes, which is its only one. */
    method Leave(target: Addr, c: Resolver.Chan)
      requires Distinct(Resolver.Waiters(arpEvent, target)) && c in Resolver.Waiters(arpEvent, target)
      modifies this`arpEvent
      ensures arpEvent == Resolver.Deregister(old(arpEvent), target, c)
    {
      var chs, p := Resolver.Waiters(arpEvent, target), 0;
      while p < |chs| && chs[p] != c
        invariant 0 <= p <= |chs|
        invariant forall j :: 0 <= j < p ==> chs[j] != c
      {
        p := p + 1;
      }
      assert c in chs[..p] + chs[p..];
      FilterIsRemoveAt(chs, p, Resolver.OtherChan(c));
      arpEvent := arpEvent[target := RemoveAt(chs, p)];
    }

    // -------------------------------------------------------------- ARP packets

    /** The waiters that a packet wakes. */
    ghost function Woken(p: Packet): seq<Resolver.Chan>
      reads this
    {
      WokenBy(mac, arpEvent, p)
    }

    /** What goes out and who is woken on a frame with our VNI. */
    ghost predicate Heard(f: Tunnel.Frame, parse: Parsing.Arp -> Packet, rolls: nat -> nat, sent: seq<(Addr, Packet)>, woken: seq<Resolver.Chan>)
      reads this
    {
      Answers(mac, addresses, macs, f.parsed, f.parsed.decoded, parse, rolls, sent) &&
      woken == WokenOver(mac, arpEvent, f.parsed, f.parsed.decoded, parse)
    }

    /** Process a received ARP packet: the replies sent with their endpoints, and the waiters handed the answer. Endpoint
        k is drawn with rolls(k). */
    method HandleARP(p: Packet, now: ArpTable.Time, rolls: nat -> nat)
      returns (sent: seq<(Addr, Packet)>, woken: seq<Resolver.Chan>)
      requires ArpTable.Valid(arp)
      modifies this`arp
      ensures ArpTable.Valid(arp)
      ensures arp == AfterPacket(old(arp), mac, addresses, macs, p, now)
      ensures Messages(sent) == RepliesTo(mac, addresses, macs, p)
      ensures forall k :: 0 <= k < |sent| ==> DestinationFor(macs, p.srcHw, rolls(k)) == Some(sent[k].0)
      ensures woken == Woken(p)
    {
      sent, woken := [], [];
      if !p.ethernet {
        return;
      }
      if p.operation == Request {
        sent := AnswerRequest(p, now, rolls);
      } else if p.operation == Reply {
        if mac != p.dstHw {
          return;
        }
        if p.srcProt.None? {
          return;
        }
        AddOrUpdateARP(p.srcProt.value, p.srcHw, now);
        woken := Resolver.Waiters(arpEvent, p.srcProt.value);
      }
    }

    /** The request half: one reply for each of our prefixes that carries the requested address. */
    method AnswerRequest(p: Packet, now: ArpTable.Time, rolls: nat -> nat) returns (sent: seq<(Addr, Packet)>)
      requires ArpTable.Valid(arp) && p.ethernet && p.operation == Request
      modifies this`arp
      ensures ArpTable.Valid(arp)
      ensures arp == AfterPacket(old(arp), mac, addresses, macs, p, now)
      ensures Messages(sent) == RepliesTo(mac, addresses, macs, p)
      ensures forall k :: 0 <= k < |sent| ==> DestinationFor(macs, p.srcHw, rolls(k)) == Some(sent[k].0)
    {
      sent := [];
      if p.dstProt.None? {
        return;
      }
      var addr := p.dstProt.value;
      ghost var t := arp;
      var n := 0;
      while n < |addresses|
        invariant 0 <= n <= |addresses|
        invariant ArpTable.Valid(arp)
        invariant |sent| == Matching(addresses[..n], addr)
        invariant |sent| > 0 ==> p.srcProt.Some? && Reachable(macs, p.srcHw)
        invariant arp == if |sent| > 0 then ArpTable.Learn(t, p.srcProt.value, p.srcHw, now) else t
        invariant forall k :: 0 <= k < |sent| ==> sent[k].1 == ReplyTo(p, mac)
        invariant forall k :: 0 <= k < |sent| ==> DestinationFor(macs, p.srcHw, rolls(k)) == Some(sent[k].0)
      {
        MatchingGrows(addresses, n, addr);
        if addresses[n].addr == addr {
          var dst := AnswerOnce(p, now, rolls(|sent|));
          if dst.None? {
            return;
          }
          LearnTwice(t, p.srcProt.value, p.srcHw, now);
          sent := sent + [(dst.value, ReplyTo(p, mac))];
        }
        n := n + 1;
      }
      assert addresses[..n] == addresses;
      AllReplied(sent, mac, addresses, macs, p);
    }

    /** Find where the requester is and learn its binding; nothing when it cannot be reached or does not parse. */
    method AnswerOnce(p: Packet, now: ArpTable.Time, roll: nat) returns (dst: Option<Addr>)
      requires ArpTable.Valid(arp)
      modifies this`arp
      ensures ArpTable.Valid(arp)
      ensures dst.Some? <==> Reachable(macs, p.srcHw) && p.srcProt.Some?
      ensures dst.Some? ==> dst == DestinationFor(macs, p.srcHw, roll) && arp == ArpTable.Learn(old(arp), p.srcProt.value, p.srcHw, now)
      ensures dst.None? ==> arp == old(arp)
    {
      DestinationIsDirectElseController(macs, p.srcHw, roll);
      dst := GetDestinationFor(macs, p.srcHw, roll);
      if dst.None? {
        return;
      }
      if p.srcProt.None? {
        return None;
      }
      AddOrUpdateARP(p.srcProt.value, p.srcHw, now);
    }

    // -------------------------------------------------------------- MAC table

    /** Enter a (hardware address, endpoint) pair, unless it is there. */
    method AddMACEntry(mac: Mac, dst: Addr, perm: bool) returns (ok: bool)
      modifies this`macs
      ensures macs == AddMac(old(macs), mac, dst, perm)
      ensures ok <==> !HasPair(old(macs), mac, dst)
      ensures Edited(OpAddMac(mac, dst, perm))
    {
      var n := 0;
      while n < |macs|
        invariant 0 <= n <= |macs|
        invariant forall j :: 0 <= j < n ==> !SamePair(macs[j], mac, dst)
      {
        if macs[n].mac == mac && macs[n].dst == dst {
          assert SamePair(macs[n], mac, dst);
          return false;
        }
        n := n + 1;
      }
      macs := macs + [MacEntry(mac, dst, perm)];
      return true;
    }

    /** Remove a pair, or report that it is not there. */
    method RemoveMACEntry(mac: Mac, dst: Addr) returns (ok: bool)
      requires UniquePairs(macs)
      modifies this`macs
      ensures macs == RemoveMac(old(macs), mac, dst)
      ensures ok <==> HasPair(old(macs), mac, dst)
      ensures Edited(OpRemoveMac(mac, dst))
    {
      var found := 0;
      while found < |macs| && !(macs[found].mac == mac && macs[found].dst == dst)
        invariant 0 <= found <= |macs|
        invariant forall j :: 0 <= j < found ==> !SamePair(macs[j], mac, dst)
      {
        found := found + 1;
      }
      if found == |macs| {
        FilterIdentity(macs, OtherPair(mac, dst));
        return false;
      }
      assert SamePair(macs[found], mac, dst);
      FilterIsRemoveAt(macs, found, OtherPair(mac, dst));
      macs := RemoveAt(macs, found);
      return true;
    }

    method FlushMACTable()
      modifies this`macs
      ensures macs == []
      ensures Edited(OpFlushMacs)
    {
      macs := [];
    }

    // -------------------------------------------------------------- route table

    /** Add a route to the device and, when that succeeds, to the table. */
    method AddStaticRoute(destination: Prefix, gateway: Addr, metric: int, perm: bool, host: Host) returns (ok: bool)
      modifies this`routes
      ensures routes == AddRoute(old(routes), Route(destination, gateway, metric, perm), host)
      ensures ok <==> routes != old(routes)
      ensures State() == EditInterface(old(State()), OpAddRoute(Route(destination, gateway, metric, perm)), listener.maxMessageSize, host)
    {
      var m := metric;
      if m == 0 {
        m := DEFAULT_METRIC;
      }
      ok := host.routeOk(Route(destination, gateway, m, perm));
      if !ok {
        return;
      }
      routes := routes + [Route(destination, gateway, m, perm)];
      assert |routes| == |old(routes)| + 1;
    }

    /** Remove a route from the device and, when that succeeds, its first match from the table. */
    method RemoveStaticRoute(destination: Prefix, gateway: Addr, deviceOk: bool) returns (ok: bool)
      modifies this`routes
      ensures ok == deviceOk
      ensures routes == if deviceOk then RemoveRoute(old(routes), destination, gateway) else old(routes)
      ensures deviceOk ==> Edited(OpRemoveRoute(destination, gateway))
    {
      if !deviceOk {
        return false;
      }
      var r := 0;
      while r < |routes| && !(routes[r].destination == destination && routes[r].gateway == gateway)
        invariant 0 <= r <= |routes|
        invariant forall j :: 0 <= j < r ==> !SameRoute(routes[j], destination, gateway)
      {
        r := r + 1;
      }
      if r < |routes| {
        RemoveRouteAt(routes, destination, gateway, r);
        routes := RemoveAt(routes, r);
      } else {
        RemoveRouteAbsent(routes, destination, gateway);
      }
      return true;
    }

    // -------------------------------------------------------------- the device

    method SetMTU(mtu: int, host: Host) returns (ok: bool)
      modifies this`deviceMtu
      ensures ok == host.mtuOk(EffectiveMtu(mtu, listener.maxMessageSize))
      ensures State() == SetMtu(old(State()), mtu, listener.maxMessageSize, host)
      ensures State() == EditInterface(old(State()), OpSetMtu(mtu), listener.maxMessageSize, host)
      ensures deviceMtu == if !ok then old(deviceMtu) else host.deviceMtu(if mtu > 1 then mtu else listener.maxMessageSize - 50)
    {
      var m := mtu;
      if m <= 1 {
        m := listener.maxMessageSize - 50;
      }
      ok := host.mtuOk(m);
      if ok {
        deviceMtu := host.deviceMtu(m);
      }
    }

    /** The event reader on an MTU event. */
    method UpdateMTU()
      modifies this`mtu
      ensures State() == MtuEvent(old(State()), listener.maxMessageSize)
      ensures forall host: Host :: State() == EditInterface(old(State()), OpMtuEvent, listener.maxMessageSize, host)
      ensures deviceMtu < 0 ==> mtu == old(mtu)
      ensures deviceMtu >= 0 ==> mtu <= deviceMtu && mtu <= listener.maxMessageSize - 50
      ensures deviceMtu >= 0 ==> mtu == deviceMtu || mtu == listener.maxMessageSize - 50
    {
      var m := deviceMtu;
      if m < 0 {
        return;
      }
      var maxMTU := listener.maxMessageSize - 50;
      if m > maxMTU {
        m := maxMTU;
      }
      mtu := m;
    }

    method SetMACAddress(mac: Mac)
      modifies this`mac
      ensures this.mac == mac
      ensures Edited(OpSetMac(mac))
    {
      this.mac := mac;
    }

    /** The addresses the program works with follow only when the device took them all. */
    method SetIPAddresses(addresses: seq<Prefix>, host: Host) returns (ok: bool)
      requires Distinct(kernel)
      modifies this`kernel, this`addresses
      ensures (ok, State()) == SetAddresses(old(State()), addresses, host)
      ensures State() == EditInterface(old(State()), OpSetAddresses(addresses), listener.maxMessageSize, host)
      ensures Distinct(kernel)
    {
      Device.ExecKeepsDistinct(kernel, Device.Calls(kernel, addresses), host.netlinkBudget(name));
      var o := Device.SetIPAddresses(kernel, addresses, host.netlinkBudget(name));
      kernel := o.addresses;
      if !o.ok {
        return false;
      }
      this.addresses := addresses;
      return true;
    }

    /** A decoded IPv4 packet goes to the device when its frame is for our hardware address. */
    method HandleIPv4(p: Parsing.Parsed)
      requires p.ip4.Some?
      modifies this`written
      ensures written == old(written) + if p.dst == mac then Tunnel.PacketOf(p, Parsing.IPv4Kind) else []
    {
      if p.dst != mac {
        return;
      }
      written := written + [p.ip4.value.contents + p.ip4.value.payload];
    }

    /** And so does an IPv6 packet. */
    method HandleIPv6(p: Parsing.Parsed)
      requires p.ip6.Some?
      modifies this`written
      ensures written == old(written) + if p.dst == mac then Tunnel.PacketOf(p, Parsing.IPv6Kind) else []
    {
      if p.dst != mac {
        return;
      }
      written := written + [p.ip6.value.contents + p.ip6.value.payload];
    }

    /** The packet reader on an IPv4 packet from the device: parse its headers, resolve the destination that this ends with,
        choose the endpoint and wrap the packet up for it. `resolve` stands for the resolution of an address given as
        octets, which may fail. */
    method ForwardIPv4(packet: Bytes, resolve: Bytes -> Option<Mac>, roll: nat) returns (dst: Option<Addr>, datagram: Bytes)
      requires vni < 0x1_0000_0000
      ensures var ip := Tunnel.Forwarded(packet);
        && (ip.None? || resolve(ip.value.dst).None? ==> dst.None?)
        && (ip.Some? && resolve(ip.value.dst).Some? ==>
              && dst == DestinationFor(macs, resolve(ip.value.dst).value, roll)
              && (dst.Some? ==> Some(datagram) == Tunnel.Outbound(vni, resolve(ip.value.dst).value, mac, packet)))
    {
      dst, datagram := None, [];
      var decoded := Tunnel.Forwarded(packet);
      if decoded.None? {
        return;
      }
      var ip := decoded.value;
      var resolved := resolve(ip.dst);
      if resolved.None? {
        return;
      }
      dst := GetDestinationFor(macs, resolved.value, roll);
      if dst.None? {
        return;
      }
      var layers := [Tunnel.EthernetLayer(resolved.value, mac, Parsing.ETHERTYPE_IPV4), Tunnel.IPv4Layer(ip), Tunnel.MasqueradeLayer(ip.payload)];
      var _, sent := Tunnel.SendLayers(vni, layers);
      assert [Tunnel.VxlanLayer(vni)] + layers == Tunnel.DataLayers(vni, resolved.value, mac, ip);
      datagram := sent;
    }

    /** One decoded layer: depending on its kind, an ARP packet or an IP packet. */
    method HandleLayer(p: Parsing.Parsed, kind: Parsing.Kind, parse: Parsing.Arp -> Packet, now: ArpTable.Time, rolls: nat -> nat)
      returns (sent: seq<(Addr, Packet)>, woken: seq<Resolver.Chan>)
      requires ArpTable.Valid(arp) && Parsing.Complete(p) && kind in p.decoded
      modifies this`arp, this`written
      ensures ArpTable.Valid(arp)
      ensures arp == if kind.ArpKind? then AfterPacket(old(arp), mac, addresses, macs, parse(p.arp.value), now) else old(arp)
      ensures written == old(written) + if p.dst == mac then Tunnel.PacketOf(p, kind) else []
      ensures Messages(sent) == if kind.ArpKind? then RepliesTo(mac, addresses, macs, parse(p.arp.value)) else []
      ensures kind.ArpKind? ==> Drawn(macs, parse(p.arp.value).srcHw, rolls, sent)
      ensures woken == if kind.ArpKind? then Woken(parse(p.arp.value)) else []
    {
      sent, woken := [], [];
      if kind.ArpKind? {
        sent, woken := HandleARP(parse(p.arp.value), now, rolls);
      } else if kind.IPv4Kind? {
        HandleIPv4(p);
      } else if kind.IPv6Kind? {
        HandleIPv6(p);
      }
    }

    /** Go through the decoded layers: depending on the kind of each, an ARP packet or an IP packet, whatever its variable
        holds in the end. */
    method Handle(f: Tunnel.Frame, parse: Parsing.Arp -> Packet, now: ArpTable.Time, rolls: nat -> nat)
      returns (sent: seq<(Addr, Packet)>, woken: seq<Resolver.Chan>)
      requires ArpTable.Valid(arp) && f.vni == vni && Parsing.Complete(f.parsed)
      modifies this`arp, this`written
      ensures State() == AfterFrame(old(State()), Some(f), parse, now)
      ensures written == old(written) + Delivered(old(State()), Some(f))
      ensures Heard(f, parse, rolls, sent, woken)
    {
      var p, n := f.parsed, 0;
      sent, woken := [], [];
      ghost var start, before := State(), written;
      while n < |p.decoded|
        invariant 0 <= n <= |p.decoded|
        invariant ArpTable.Valid(arp)
        invariant State() == AfterKinds(start, p, p.decoded[..n], parse, now)
        invariant written == before + TunWrites(mac, p, p.decoded[..n])
        invariant Answers(mac, addresses, macs, p, p.decoded[..n], parse, rolls, sent)
        invariant woken == WokenOver(mac, arpEvent, p, p.decoded[..n], parse)
      {
        AfterKindsGrow(start, p, p.decoded, n, parse, now);
        TunWritesGrow(mac, p, p.decoded, n);
        WokenGrow(mac, arpEvent, p, p.decoded, n, parse);
        var replies, chs := HandleLayer(p, p.decoded[n], parse, now, Shifted(rolls, |sent|));
        AnswersGrow(mac, addresses, macs, p, n, parse, rolls, sent, replies);
        Regroup(before, TunWrites(mac, p, p.decoded[..n]), if p.dst == mac then Tunnel.PacketOf(p, p.decoded[n]) else []);
        sent, woken := sent + replies, woken + chs;
        n := n + 1;
      }
      assert p.decoded[..n] == p.decoded;
    }

    /** The listener's packet reader at this interface: nothing happens unless the frame has our VNI. */
    method Visit(f: Tunnel.Frame, parse: Parsing.Arp -> Packet, now: ArpTable.Time, rolls: nat -> nat)
      returns (sent: seq<(Addr, Packet)>, woken: seq<Resolver.Chan>)
      requires ArpTable.Valid(arp) && Parsing.Complete(f.parsed)
      modifies this`arp, this`written
      ensures Served(this, Some(f), parse, now)
      ensures if vni == f.vni then Heard(f, parse, rolls, sent, woken) else sent == [] && woken == []
    {
      sent, woken := [], [];
      if vni == f.vni {
        sent, woken := Handle(f, parse, now, rolls);
      }
    }

    // -------------------------------------------------------------- life

    method ChangeState(want: DeviceState)
      modifies this`state
      ensures state == Changed(old(state), want)
    {
      if state == Closed {
        return;
      }
      if want == state {
        return;
      }
      if want == Up {
        state := Up;
        state := Down;
      } else if want == Down {
        state := Down;
      }
    }

    /** Leave the listener and close the channel; the second time nothing happens. */
    method Close()
      requires state == Closed <==> closed
      modifies this`state, this`closed, listener`interfaces
      ensures state == Closed && closed
      ensures listener.interfaces == if old(state) == Closed then old(listener.interfaces) else RemoveFirst(old(listener.interfaces), this)
    {
      if state == Closed {
        return;
      }
      state := Closed;
      var s, p := listener.interfaces, 0;
      while p < |s| && s[p] != this
        invariant 0 <= p <= |s|
        invariant forall j :: 0 <= j < p ==> s[j] != this
      {
        p := p + 1;
      }
      if p < |s| {
        RemoveFirstAt(s, p);
        listener.interfaces := RemoveAt(s, p);
      } else {
        RemoveFirstAbsent(s, this);
      }
      assert !closed;
      closed := true;
    }

    // -------------------------------------------------------------- configuration

    /** The part of ApplyConfig that works on one interface: its hardware address, its IP addresses unless none are
        configured, and the permanent entries of its three tables. */
    method Configure(ic: InterfaceConfig, host: Host) returns (ok: bool)
      requires ValidInterface(State())
      modifies this`mac, this`kernel, this`addresses, this`arp, this`macs, this`routes
      ensures (ok, State()) == Reconcile.Configure(old(State()), ic, host)
    {
      SetMACAddress(ic.mac);
      if |ic.addresses| != 0 {
        ok := SetIPAddresses(ic.addresses, host);
        if !ok {
          return;
        }
      }
      assert ic.addresses == [] ==> kernel == old(kernel) && addresses == old(addresses);
      ReplaceARP(ic.arps);
      ReplaceMACs(ic.macs);
      ReplaceRoutes(ic.routes, host);
      ok := true;
    }

    /** Flush the permanent ARP entries and add the configured ones. */
    method ReplaceARP(cs: seq<ArpConfig>)
      requires ArpTable.Valid(arp)
      modifies this`arp
      ensures arp == AddArps(Filter(old(arp), Not(ArpTable.IsPermanent())), cs)
    {
      ArpTable.FilterValid(arp, Not(ArpTable.IsPermanent()));
      arp := DeleteRestarting(arp, ArpTable.IsPermanent());
      ghost var goal := AddArps(arp, cs);
      var n := 0;
      assert cs[0..] == cs;
      while n < |cs|
        invariant 0 <= n <= |cs|
        invariant ArpTable.Valid(arp)
        invariant AddArps(arp, cs[n..]) == goal
      {
        AddStaticARPEntry(cs[n].addr, cs[n].mac, true);
        assert cs[n..][1..] == cs[n + 1..];
        n := n + 1;
      }
    }

    /** Flush the permanent MAC entries and add the configured ones; an error for a duplicate is dropped. */
    method ReplaceMACs(cs: seq<MacConfig>)
      modifies this`macs
      ensures macs == AddMacs(Filter(old(macs), Not(PermanentMac())), cs)
    {
      macs := DeleteRestarting(macs, PermanentMac());
      ghost var goal := AddMacs(macs, cs);
      var n := 0;
      assert cs[0..] == cs;
      while n < |cs|
        invariant 0 <= n <= |cs|
        invariant AddMacs(macs, cs[n..]) == goal
      {
        var _ := AddMACEntry(cs[n].mac, cs[n].dst, true);
        assert cs[n..][1..] == cs[n + 1..];
        n := n + 1;
      }
    }

    /** Flush the permanent routes and add the configured ones; an error is dropped. */
    method ReplaceRoutes(cs: seq<RouteConfig>, host: Host)
      modifies this`routes
      ensures routes == AddRoutes(FlushRoutes(old(routes)), cs, host)
    {
      routes := FlushPermanentRoutes(routes);
      ghost var goal := AddRoutes(routes, cs, host);
      var n := 0;
      assert cs[0..] == cs;
      while n < |cs|
        invariant 0 <= n <= |cs|
        invariant AddRoutes(routes, cs[n..], host) == goal
      {
        var _ := AddStaticRoute(cs[n].destination, cs[n].gateway, cs[n].metric, true, host);
        assert cs[n..][1..] == cs[n + 1..];
        n := n + 1;
      }
    }
  }

  function Messages(sent: seq<(Addr, Packet)>): seq<Packet> {
    seq(|sent|, k requires 0 <= k < |sent| => sent[k].1)
  }

  lemma AllReplied(sent: seq<(Addr, Packet)>, mac: Mac, addresses: seq<Prefix>, macs: MacTable, p: Packet)
    requires p.ethernet && p.operation == Request && p.dstProt.Some?
    requires |sent| == Matching(addresses, p.dstProt.value)
    requires |sent| > 0 ==> p.srcProt.Some? && Reachable(macs, p.srcHw)
    requires forall k :: 0 <= k < |sent| ==> sent[k].1 == ReplyTo(p, mac)
    ensures Messages(sent) == RepliesTo(mac, addresses, macs, p)
  {
  }

  lemma MatchingGrows(addresses: seq<Prefix>, n: nat, a: Addr)
    requires n < |addresses|
    ensures Matching(addresses[..n + 1], a) == Matching(addresses[..n], a) + (if addresses[n].addr == a then 1 else 0)
    ensures addresses[n].addr == a ==> Matching(addresses, a) > 0
  {
    assert addresses[..n + 1] == addresses[..n] + [addresses[n]];
    FilterAppend(addresses[..n], [addresses[n]], WithAddress(a));
    FilterMember(addresses, WithAddress(a), addresses[n]);
  }

  lemma {:induction false} RemoveRouteAbsent(t: RouteTable, destination: Prefix, gateway: Addr)
    requires forall j :: 0 <= j < |t| ==> !SameRoute(t[j], destination, gateway)
    ensures RemoveRoute(t, destination, gateway) == t
  {
    if t != [] {
      RemoveRouteAbsent(t[1..], destination, gateway);
    }
  }

  // ---------------------------------------------------------------- states of several objects

  ghost function States(s: seq<Interface>): (r: seq<InterfaceState>)
    reads s
    ensures |r| == |s| && forall k :: 0 <= k < |s| ==> r[k] == s[k].State()
  {
    seq(|s|, k requires 0 <= k < |s| reads s => s[k].State())
  }

  /** The interfaces of several listeners. */
  ghost function InterfacesOf(s: seq<Listener>): (r: set<Interface>)
    reads s
    ensures forall l :: l in s ==> forall i :: i in l.interfaces ==> i in r
  {
    set l, i | l in s && i in l.interfaces :: i
  }

  ghost function ListenerStates(s: seq<Listener>): (r: seq<ListenerState>)
    reads s, InterfacesOf(s)
    ensures |r| == |s| && forall k :: 0 <= k < |s| ==> r[k] == s[k].State()
  {
    seq(|s|, k requires 0 <= k < |s| reads s, InterfacesOf(s) => s[k].State())
  }

  class Listener {
    const name: string
    const address: string
    var permanent: bool
    var maxMessageSize: int
    var interfaces: seq<Interface>
    var closed: bool

    constructor (name: string, address: string, maxMessageSize: int, permanent: bool)
      ensures State() == ListenerState(name, address, permanent, maxMessageSize, [])
      ensures !closed && interfaces == []
    {
      this.name, this.address, this.permanent, this.maxMessageSize := name, address, permanent, maxMessageSize;
      interfaces, closed := [], false;
    }

    ghost function State(): ListenerState
      reads this, interfaces
    {
      ListenerState(name, address, permanent, maxMessageSize, States(interfaces))
    }

    /** Open, and every listed interface is ours and open. */
    ghost predicate Open()
      reads this, interfaces
    {
      !closed && forall i :: i in interfaces ==> i.listener == this && !i.closed && i.state != Closed
    }

    /** Is there an interface with this VNI? */
    method HasVNI(vni: nat) returns (found: bool)
      ensures found <==> HasVni(State().interfaces, vni)
    {
      var n := 0;
      while n < |interfaces|
        invariant 0 <= n <= |interfaces|
        invariant forall j :: 0 <= j < n ==> interfaces[j].vni != vni
      {
        if interfaces[n].vni == vni {
          assert States(interfaces)[n] in States(interfaces);
          return true;
        }
        n := n + 1;
      }
      return false;
    }

    /** Put a new interface at the end of the list. */
    method Attach(i: Interface)
      requires i.listener == this && i !in interfaces
      modifies this`interfaces
      ensures interfaces == old(interfaces) + [i]
      ensures State() == old(State()).(interfaces := old(State()).interfaces + [i.State()])
    {
      interfaces := interfaces + [i];
      assert States(interfaces) == old(States(interfaces)) + [i.State()];
    }

    method SetMaxMessageSize(size: int)
      modifies this`maxMessageSize
      ensures State() == Registry.SetMaxMessageSize(old(State()), size)
      ensures maxMessageSize == if size > 1 then size else old(maxMessageSize)
    {
      if size <= 1 {
        return;
      }
      maxMessageSize := size;
    }

    /** One turn of the packet reader: decode the datagram and hand its layers to the interface with the VNI, the only
        one that can change, write or answer. */
    method Receive(datagram: Bytes, bufferSize: nat, parse: Parsing.Arp -> Packet, now: ArpTable.Time, rolls: nat -> nat)
      returns (sent: seq<(Addr, Packet)>, woken: seq<Resolver.Chan>)
      requires ValidListener(State())
      modifies interfaces
      ensures forall i :: i in interfaces ==> Served(i, Tunnel.Received(datagram, bufferSize), parse, now)
      ensures forall i, j :: i in interfaces && j in interfaces && Affected(i) && Affected(j) ==> i == j
      ensures HeardFrom(Tunnel.Received(datagram, bufferSize), parse, rolls, sent, woken)
    {
      var f := Tunnel.Received(datagram, bufferSize);
      sent, woken := [], [];
      if f.Some? {
        Tunnel.ReceivedIsComplete(datagram, bufferSize);
        DistinctVnis();
        DistinctObjects();
        sent, woken := Dispatch(f.value, parse, now, rolls);
        forall i, j | i in interfaces && j in interfaces && Affected(i) && Affected(j) ensures i == j {
          SameVni(i, j);
        }
      }
    }

    /** The interface with the frame's VNI is the one that answers and wakes; without one, none does. */
    ghost predicate HeardFrom(f: Option<Tunnel.Frame>, parse: Parsing.Arp -> Packet, rolls: nat -> nat, sent: seq<(Addr, Packet)>, woken: seq<Resolver.Chan>)
      reads this, interfaces
    {
      && (forall i :: i in interfaces && Reached(i.State(), f) ==> i.Heard(f.value, parse, rolls, sent, woken))
      && ((forall i :: i in interfaces ==> !Reached(i.State(), f)) ==> sent == [] && woken == [])
    }

    lemma DistinctVnis()
      requires ValidListener(State())
      ensures forall i, j :: 0 <= i < j < |interfaces| ==> interfaces[i].vni != interfaces[j].vni
    {
      var s := States(interfaces);
      forall i, j | 0 <= i < j < |interfaces| ensures interfaces[i].vni != interfaces[j].vni {
        assert s[i].vni != s[j].vni;
      }
    }

    lemma SameVni(i: Interface, j: Interface)
      requires forall a, b :: 0 <= a < b < |interfaces| ==> interfaces[a].vni != interfaces[b].vni
      requires i in interfaces && j in interfaces && i.vni == j.vni
      ensures i == j
    {
    }

    /** One visit was to the interface with the VNI, if there is one. */
    lemma HeardFromOne(f: Tunnel.Frame, parse: Parsing.Arp -> Packet, rolls: nat -> nat, sent: seq<(Addr, Packet)>, woken: seq<Resolver.Chan>, at: int)
      requires -1 <= at < |interfaces|
      requires forall j :: 0 <= j < |interfaces| && j != at ==> interfaces[j].vni != f.vni
      requires if at < 0 then sent == [] && woken == [] else interfaces[at].vni == f.vni && interfaces[at].Heard(f, parse, rolls, sent, woken)
      ensures HeardFrom(Some(f), parse, rolls, sent, woken)
    {
    }

    method Dispatch(f: Tunnel.Frame, parse: Parsing.Arp -> Packet, now: ArpTable.Time, rolls: nat -> nat)
      returns (sent: seq<(Addr, Packet)>, woken: seq<Resolver.Chan>)
      requires forall i, j :: 0 <= i < j < |interfaces| ==> interfaces[i].vni != interfaces[j].vni
      requires Parsing.Complete(f.parsed) && forall i :: i in interfaces ==> ArpTable.Valid(i.arp)
      modifies interfaces
      ensures forall i :: i in interfaces ==> Served(i, Some(f), parse, now)
      ensures HeardFrom(Some(f), parse, rolls, sent, woken)
    {
      sent, woken := [], [];
      var n := 0;
      ghost var at := -1;
      while n < |interfaces|
        invariant 0 <= n <= |interfaces| && -1 <= at < n
        invariant forall j :: 0 <= j < n ==> Served(interfaces[j], Some(f), parse, now)
        invariant forall j :: n <= j < |interfaces| ==> unchanged(interfaces[j])
        invariant forall j :: 0 <= j < n && j != at ==> interfaces[j].vni != f.vni
        invariant at < 0 ==> sent == [] && woken == []
        invariant at >= 0 ==> interfaces[at].vni == f.vni && interfaces[at].Heard(f, parse, rolls, sent, woken)
      {
        var i := interfaces[n];
        assert forall j :: 0 <= j < |interfaces| && j != n ==> interfaces[j] != i;
        var replies, chs := i.Visit(f, parse, now, rolls);
        JoinEmpty(sent, replies);
        JoinEmpty(woken, chs);
        if i.vni == f.vni {
          at := n;
        }
        sent, woken := sent + replies, woken + chs;
        n := n + 1;
      }
      HeardFromOne(f, parse, rolls, sent, woken, at);
    }

    /** Close the listener and every interface on it, one by one from the front. */
    method Close(app: App, ghost k: nat)
      requires app.Valid() && k < |app.listeners| && app.listeners[k] == this
      modifies app, this`interfaces, this`closed, interfaces
      ensures app.Valid() && app.listeners == RemoveAt(old(app.listeners), k)
      ensures app.State() == RemoveAt(old(app.State()), k)
      ensures closed && interfaces == [] && forall i :: i in old(interfaces) ==> i.closed && i.state == Closed
    {
      app.Listed(k);
      forall j | 0 <= j < |app.listeners| && j != k
        ensures app.listeners[j] != this && forall i :: i in app.listeners[j].interfaces ==> i !in interfaces
      {
        app.ListedOnce(k, j);
      }
      DistinctObjects();
      assert !closed;
      closed := true;
      app.Remove(this, k);
      CloseInterfaces();
      app.OthersUntouched(k);
      app.StillValid(k);
    }

    method CloseInterfaces()
      requires forall i :: i in interfaces ==> i.listener == this && !i.closed && i.state != Closed
      requires forall i, j :: 0 <= i < j < |interfaces| ==> interfaces[i] != interfaces[j]
      modifies this`interfaces, interfaces
      ensures interfaces == [] && forall i :: i in old(interfaces) ==> i.closed && i.state == Closed
    {
      ghost var s, c := interfaces, 0;
      while |interfaces| >= 1
        invariant 0 <= c <= |s| && interfaces == s[c..]
        invariant forall j :: 0 <= j < c ==> s[j].closed && s[j].state == Closed
        invariant forall j :: c <= j < |s| ==> unchanged(s[j])
        decreases |interfaces|
      {
        RemoveFirstAt(interfaces, 0);
        interfaces[0].Close();
        c := c + 1;
      }
    }

    /** Only the interface at m changed. */
    twostate lemma OneChanged(m: nat)
      requires unchanged(this) && m < |interfaces|
      requires forall j :: 0 <= j < |interfaces| && j != m ==> unchanged(interfaces[j])
      requires StillOpen(interfaces[m])
      ensures State() == old(State()).(interfaces := old(State()).interfaces[m := interfaces[m].State()])
      ensures old(Open()) ==> Open()
    {
      assert States(interfaces) == old(States(interfaces))[m := interfaces[m].State()];
      if old(Open()) {
        forall j | 0 <= j < |interfaces|
          ensures interfaces[j].listener == this && !interfaces[j].closed && interfaces[j].state != Closed
        {
          assert interfaces[j] in old(interfaces);
        }
      }
    }

    /** The interface at m left the list. */
    twostate lemma OneRemoved(m: nat)
      requires permanent == old(permanent) && maxMessageSize == old(maxMessageSize) && closed == old(closed)
      requires m < |old(interfaces)| && interfaces == RemoveAt(old(interfaces), m)
      requires forall j :: 0 <= j < |interfaces| ==> unchanged(interfaces[j])
      ensures State() == old(State()).(interfaces := RemoveAt(old(State()).interfaces, m))
      ensures old(Open()) ==> Open()
    {
      forall j | 0 <= j < |interfaces| ensures States(interfaces)[j] == RemoveAt(old(States(interfaces)), m)[j] {
        assert interfaces[j] == old(interfaces)[if j < m then j else j + 1];
      }
      if old(Open()) {
        forall i | i in interfaces ensures i.listener == this && !i.closed && i.state != Closed {
          assert i in old(interfaces);
        }
      }
    }

    /** No interface is listed twice, and each has a sound ARP table. */
    lemma DistinctObjects()
      requires ValidListener(State())
      ensures forall i, j :: 0 <= i < j < |interfaces| ==> interfaces[i] != interfaces[j]
      ensures forall i :: i in interfaces ==> ValidInterface(i.State())
    {
      var s := States(interfaces);
      forall i, j | 0 <= i < j < |interfaces| ensures interfaces[i] != interfaces[j] {
        assert s[i].vni != s[j].vni;
      }
      forall i | i in interfaces ensures ValidInterface(i.State()) {
        var k :| 0 <= k < |interfaces| && interfaces[k] == i;
        assert s[k] in s;
      }
    }
  }

  /** What the receipt of a frame does to one interface. */
  twostate predicate Served(i: Interface, f: Option<Tunnel.Frame>, parse: Parsing.Arp -> Packet, now: ArpTable.Time)
    reads i
  {
    i.State() == AfterFrame(old(i.State()), f, parse, now) && i.written == old(i.written) + Delivered(old(i.State()), f)
  }

  /** The waiters that a packet wakes, of those registered in `events`. */
  function WokenBy(mac: Mac, events: map<Addr, seq<Resolver.Chan>>, p: Packet): seq<Resolver.Chan> {
    if AcceptsReply(mac, p) then Resolver.Waiters(events, p.srcProt.value) else []
  }

  /** They are the runs in flight for the sender of a reply to us, and whom the engine's handler hands that reply to when it
      takes its lock. */
  lemma WokenAreInFlight(cfg: Resolver.Config, s: Resolver.State, p: Packet)
    requires Resolver.Inv(s) && s.handler.Idle?
    ensures forall c: Resolver.Chan :: c in WokenBy(cfg.mac, s.events, p) <==>
              p.ethernet && p.operation == Reply && p.dstHw == cfg.mac && c in s.runs && p.srcProt == Some(s.runs[c].target)
    ensures var heard := Resolver.Next(cfg, s, Resolver.Receive(p));
      WokenBy(cfg.mac, s.events, p) ==
      if heard.handler.Learned? then Resolver.Next(cfg, heard, Resolver.Notify).handler.pending else []
  {
  }

  /** And those that these kinds of layer wake. */
  function WokenOver(mac: Mac, events: map<Addr, seq<Resolver.Chan>>, p: Parsing.Parsed, kinds: seq<Parsing.Kind>,
                     parse: Parsing.Arp -> Packet): seq<Resolver.Chan> {
    if kinds == [] then []
    else
      var n := |kinds| - 1;
      WokenOver(mac, events, p, kinds[..n], parse) +
      if kinds[n].ArpKind? && p.arp.Some? then WokenBy(mac, events, parse(p.arp.value)) else []
  }

  lemma WokenGrow(mac: Mac, events: map<Addr, seq<Resolver.Chan>>, p: Parsing.Parsed, kinds: seq<Parsing.Kind>, n: nat,
                  parse: Parsing.Arp -> Packet)
    requires n < |kinds| && Parsing.Complete(p) && kinds[n] in p.decoded
    ensures WokenOver(mac, events, p, kinds[..n + 1], parse) ==
            WokenOver(mac, events, p, kinds[..n], parse) +
            if kinds[n].ArpKind? then WokenBy(mac, events, parse(p.arp.value)) else []
  {
    assert kinds[..n + 1][..n] == kinds[..n];
    assert kinds[..n + 1][n] == kinds[n];
  }

  /** Each reply goes to an endpoint drawn for this hardware address. */
  ghost predicate Drawn(macs: MacTable, mac: Mac, rolls: nat -> nat, sent: seq<(Addr, Packet)>) {
    forall k :: 0 <= k < |sent| ==> DestinationFor(macs, mac, rolls(k)) == Some(sent[k].0)
  }

  /** The replies that these kinds of layer make an interface send, each to an endpoint drawn for the requester. */
  ghost predicate Answers(mac: Mac, addresses: seq<Prefix>, macs: MacTable, p: Parsing.Parsed, kinds: seq<Parsing.Kind>,
                          parse: Parsing.Arp -> Packet, rolls: nat -> nat, sent: seq<(Addr, Packet)>) {
    && Messages(sent) == RepliesOver(mac, addresses, macs, p, kinds, parse)
    && (p.arp.Some? ==> Drawn(macs, parse(p.arp.value).srcHw, rolls, sent))
  }

  /** The draws still to come after the first m. */
  function Shifted(rolls: nat -> nat, m: nat): nat -> nat {
    k => rolls(m + k)
  }

  lemma MessagesJoin(s: seq<(Addr, Packet)>, t: seq<(Addr, Packet)>)
    ensures Messages(s + t) == Messages(s) + Messages(t)
  {
  }

  lemma DrawnJoin(macs: MacTable, mac: Mac, rolls: nat -> nat, s: seq<(Addr, Packet)>, t: seq<(Addr, Packet)>)
    requires Drawn(macs, mac, rolls, s) && Drawn(macs, mac, Shifted(rolls, |s|), t)
    ensures Drawn(macs, mac, rolls, s + t)
  {
    forall k | 0 <= k < |s + t| ensures DestinationFor(macs, mac, rolls(k)) == Some((s + t)[k].0) {
      if k >= |s| {
        var m := k - |s|;
        assert (s + t)[k] == t[m] && Shifted(rolls, |s|)(m) == rolls(k);
      }
    }
  }

  /** The replies to one more layer. */
  lemma AnswersGrow(mac: Mac, addresses: seq<Prefix>, macs: MacTable, p: Parsing.Parsed, n: nat, parse: Parsing.Arp -> Packet,
                    rolls: nat -> nat, sent: seq<(Addr, Packet)>, more: seq<(Addr, Packet)>)
    requires n < |p.decoded| && Parsing.Complete(p)
    requires Answers(mac, addresses, macs, p, p.decoded[..n], parse, rolls, sent)
    requires Messages(more) == if p.decoded[n].ArpKind? then RepliesTo(mac, addresses, macs, parse(p.arp.value)) else []
    requires p.decoded[n].ArpKind? ==> Drawn(macs, parse(p.arp.value).srcHw, Shifted(rolls, |sent|), more)
    ensures Answers(mac, addresses, macs, p, p.decoded[..n + 1], parse, rolls, sent + more)
  {
    RepliesGrow(mac, addresses, macs, p, p.decoded, n, parse);
    MessagesJoin(sent, more);
    if p.decoded[n].ArpKind? {
      DrawnJoin(macs, parse(p.arp.value).srcHw, rolls, sent, more);
    } else {
      assert |more| == 0;
      JoinEmpty(sent, more);
    }
  }

  /** Something about the interface or what was written to its device is not as it was. */
  twostate predicate Affected(i: Interface)
    reads i
  {
    i.State() != old(i.State()) || i.written != old(i.written)
  }

  twostate predicate StillOpen(i: Interface)
    reads i
  {
    i.state == old(i.state) && i.closed == old(i.closed)
  }

  twostate predicate Untouched(l: Listener)
    reads l, l.interfaces
  {
    unchanged(l) && forall i :: i in l.interfaces ==> unchanged(i)
  }

  twostate lemma UntouchedState(l: Listener)
    requires Untouched(l)
    ensures l.State() == old(l.State())
    ensures l.Open() <==> old(l.Open())
  {
    forall k | 0 <= k < |l.interfaces| ensures States(l.interfaces)[k] == old(States(l.interfaces))[k] {
      assert l.interfaces[k] in l.interfaces;
    }
  }

  /** The program's registry of listeners. */
  class App {
    var listeners: seq<Listener>

    constructor ()
      ensures Valid() && State() == []
    {
      listeners := [];
    }

    ghost function Interfaces(): set<Interface>
      reads this, listeners
    {
      InterfacesOf(listeners)
    }

    ghost function State(): Net
      reads this, listeners, Interfaces()
    {
      ListenerStates(listeners)
    }

    /** The registry's invariant, and every listed listener and interface is open and on its list alone. */
    ghost predicate Valid()
      reads this, listeners, Interfaces()
    {
      ValidNet(State()) && forall l :: l in listeners ==> l.Open()
    }

    /** A listed listener is sound and open. */
    lemma Listed(k: nat)
      requires Valid() && k < |listeners|
      ensures ValidListener(listeners[k].State()) && listeners[k].Open()
    {
      assert State()[k] in State();
      assert listeners[k] in listeners;
    }

    /** It stands at its place alone, and no other listener has its interfaces. */
    lemma ListedOnce(k: nat, j: nat)
      requires Valid() && k < |listeners| && j < |listeners| && j != k
      ensures listeners[j] != listeners[k]
      ensures forall i :: i in listeners[j].interfaces ==> i !in listeners[k].interfaces
    {
      assert State()[j].address != State()[k].address;
      Listed(j);
      Listed(k);
    }

    lemma Distinct()
      requires Valid()
      ensures forall j, k :: 0 <= j < k < |listeners| ==> listeners[j] != listeners[k]
    {
      forall j, k | 0 <= j < k < |listeners| ensures listeners[j] != listeners[k] {
        ListedOnce(k, j);
      }
    }

    /** What happens to a listener that has been taken off the list concerns nobody else. */
    twostate lemma OthersUntouched(k: nat)
      requires k < |old(listeners)| && listeners == RemoveAt(old(listeners), k)
      requires forall l :: l in listeners ==> Untouched(l)
      ensures State() == RemoveAt(old(State()), k)
    {
      forall j | 0 <= j < |listeners| ensures State()[j] == old(State())[if j < k then j else j + 1] {
        assert listeners[j] == old(listeners)[if j < k then j else j + 1];
        assert listeners[j] in listeners;
        UntouchedState(listeners[j]);
      }
    }

    twostate lemma StillValid(k: nat)
      requires old(Valid()) && k < |old(listeners)| && listeners == RemoveAt(old(listeners), k)
      requires forall l :: l in listeners ==> Untouched(l)
      requires State() == RemoveAt(old(State()), k)
      ensures Valid()
    {
      RemoveListenerKeepsValid(old(State()), k);
      forall l | l in listeners ensures l.Open() {
        assert l in old(listeners);
        UntouchedState(l);
      }
    }

    /** Take a listener off the list. */
    method Remove(l: Listener, ghost k: nat)
      requires k < |listeners| && listeners[k] == l
      requires forall i, j :: 0 <= i < j < |listeners| ==> listeners[i] != listeners[j]
      modifies this
      ensures listeners == RemoveAt(old(listeners), k)
    {
      var i := 0;
      while listeners[i] != l
        invariant 0 <= i <= k
        decreases k - i
      {
        i := i + 1;
      }
      listeners := RemoveAt(listeners, i);
    }

    /** Only one listener, or its interfaces, changed. */
    twostate lemma OneChanged(k: nat)
      requires listeners == old(listeners) && k < |listeners|
      requires forall j :: 0 <= j < |listeners| && j != k ==> Untouched(listeners[j])
      ensures State() == old(State())[k := listeners[k].State()]
    {
      forall j | 0 <= j < |listeners| && j != k ensures State()[j] == old(State())[j] {
        UntouchedState(listeners[j]);
      }
    }

    twostate lemma OneChangedValid(k: nat)
      requires old(Valid()) && listeners == old(listeners) && k < |listeners|
      requires forall j :: 0 <= j < |listeners| && j != k ==> Untouched(listeners[j])
      requires ValidNet(State()) && listeners[k].Open()
      ensures Valid()
    {
      forall j | 0 <= j < |listeners| && j != k ensures listeners[j].Open() {
        assert listeners[j] in old(listeners);
        UntouchedState(listeners[j]);
      }
    }

    /** Is there a listener with this address or name? */
    method Clashes(name: string, address: string) returns (clash: bool)
      ensures clash <==> ListenerClash(State(), name, address)
    {
      var n := 0;
      while n < |listeners|
        invariant 0 <= n <= |listeners|
        invariant forall j :: 0 <= j < n ==> listeners[j].address != address && listeners[j].name != name
      {
        if listeners[n].address == address || listeners[n].name == name {
          assert State()[n] in State();
          return true;
        }
        n := n + 1;
      }
      return false;
    }

    /** Start a listener, unless its address or name is taken or its address cannot be bound. */
    method NewListener(name: string, address: string, maxMessageSize: int, perm: bool, host: Host) returns (l: Listener?)
      requires Valid()
      modifies this
      ensures Valid()
      ensures var r := Registry.NewListener(old(State()), name, address, maxMessageSize, perm, host);
        (l != null <==> r.Some?) && State() == (if r.Some? then r.value else old(State()))
      ensures l == null ==> listeners == old(listeners)
      ensures l != null ==> fresh(l) && l.interfaces == [] && listeners == old(listeners) + [l]
    {
      ghost var net := State();
      var clash := Clashes(name, address);
      if clash || !host.canBind(address) {
        return null;
      }
      ghost var net' := Registry.NewListener(net, name, address, maxMessageSize, perm, host).value;
      assert ValidNet(net') by {
        NewListenerKeepsValid(net, name, address, maxMessageSize, perm, host);
      }
      l := new Listener(name, address, maxMessageSize, perm);
      assert State() == net && net' == net + [l.State()];
      Append(l);
    }

    /** Put a new listener at the end of the list. */
    method Append(l: Listener)
      requires Valid() && l !in listeners && l.Open() && l.interfaces == []
      requires ValidNet(State() + [l.State()])
      modifies this
      ensures Valid() && listeners == old(listeners) + [l]
      ensures State() == old(State() + [l.State()])
    {
      ghost var net := State();
      listeners := listeners + [l];
      assert forall j :: 0 <= j < |net| ==> State()[j] == net[j];
      assert State() == net + [l.State()];
    }

    /** Does the machine have an interface of this name, ours or not? */
    method DeviceExists(name: string, host: Host) returns (taken: bool)
      ensures taken == NameTaken(State(), name, host)
    {
      if name in host.taken {
        return true;
      }
      ghost var net := State();
      var n := 0;
      while n < |listeners|
        invariant 0 <= n <= |listeners|
        invariant forall j :: 0 <= j < n ==> forall i :: i in net[j].interfaces ==> i.name != name
      {
        var m := 0;
        while m < |listeners[n].interfaces|
          invariant 0 <= m <= |listeners[n].interfaces|
          invariant forall j :: 0 <= j < m ==> net[n].interfaces[j].name != name
        {
          if listeners[n].interfaces[m].name == name {
            assert net[n] in net && net[n].interfaces[m] in net[n].interfaces;
            return true;
          }
          m := m + 1;
        }
        n := n + 1;
      }
      return false;
    }

    /** The checks of NewInterface, up to creating the device. */
    method MayCreate(name: string, vni: nat, mtu: int, l: Listener, perm: bool, host: Host, ghost k: nat) returns (ok: bool)
      requires k < |listeners| && listeners[k] == l
      ensures ok <==> Registry.NewInterface(State(), k, name, vni, mtu, perm, host).Some?
    {
      if !l.permanent && perm {
        return false;
      }
      var existing := l.HasVNI(vni);
      if existing {
        return false;
      }
      var taken := DeviceExists(name, host);
      return !taken && host.canCreate(name);
    }

    /** Create an interface on a listener, unless it would be permanent on one that is not, its VNI or name is taken, or
        its device cannot be created. */
    method NewInterface(name: string, vni: nat, mtu: int, l: Listener, perm: bool, host: Host, ghost k: nat) returns (i: Interface?)
      requires Valid() && k < |listeners| && listeners[k] == l
      modifies l`interfaces
      ensures Valid()
      ensures i != null <==> Registry.NewInterface(old(State()), k, name, vni, mtu, perm, host).Some?
      ensures i != null ==> State() == Registry.NewInterface(old(State()), k, name, vni, mtu, perm, host).value
      ensures i == null ==> l.interfaces == old(l.interfaces) && State() == old(State())
      ensures i != null ==> fresh(i) && i.listener == l && i.vni == vni && l.interfaces == old(l.interfaces) + [i]
    {
      var ok := MayCreate(name, vni, mtu, l, perm, host, k);
      if !ok {
        return null;
      }
      i := Create(name, vni, mtu, l, perm, host, k);
    }

    /** Create the device and set the interface up on the listener. */
    method Create(name: string, vni: nat, mtu: int, l: Listener, perm: bool, host: Host, ghost k: nat) returns (i: Interface)
      requires Valid() && k < |listeners| && listeners[k] == l
      requires Registry.NewInterface(State(), k, name, vni, mtu, perm, host).Some?
      modifies l`interfaces
      ensures Valid()
      ensures State() == Registry.NewInterface(old(State()), k, name, vni, mtu, perm, host).value
      ensures fresh(i) && i.listener == l && i.vni == vni && l.interfaces == old(l.interfaces) + [i]
    {
      ghost var net := State();
      ghost var net' := Registry.NewInterface(net, k, name, vni, mtu, perm, host).value;
      assert ValidNet(net') by {
        NewInterfaceKeepsValid(net, k, name, vni, mtu, perm, host);
      }
      var m := mtu;
      if m <= 1 {
        m := l.maxMessageSize - 50;
      }
      i := new Interface(name, vni, host.deviceMtu(m), host.randomMac(name), l, perm);
      assert State() == net && net' == WithInterfaces(net, k, net[k].interfaces + [i.State()]);
      AttachTo(i, l, k);
    }

    /** Put a new interface on a listener, where its VNI is new. */
    method AttachTo(i: Interface, l: Listener, ghost k: nat)
      requires Valid() && k < |listeners| && listeners[k] == l
      requires i.listener == l && i !in Interfaces() && !i.closed && i.state != Closed
      requires ValidNet(WithInterfaces(State(), k, State()[k].interfaces + [i.State()]))
      modifies l`interfaces
      ensures Valid()
      ensures l.interfaces == old(l.interfaces) + [i]
      ensures State() == old(WithInterfaces(State(), k, State()[k].interfaces + [i.State()]))
    {
      Listed(k);
      forall j | 0 <= j < |listeners| && j != k ensures listeners[j] != l {
        ListedOnce(k, j);
      }
      assert l in listeners;
      l.Attach(i);
      OneChanged(k);
      OneChangedValid(k);
    }
  }
}
