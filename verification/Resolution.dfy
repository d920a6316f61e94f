/** Resolution works: on every network there is a run on which one interface resolves another's address, end to end. */
module Resolution {
  import opened Addresses
  import opened ArpProtocol
  import opened ArpTable
  import opened Exchange
  import opened Forwarding
  import opened Handout
  import opened Network
  import opened Resolver
  import opened Sequences

  /** Some run of the network ends in this state. */
  ghost predicate NetReached(net: Topology, s: NetState) {
    exists states, steps :: NetBehaviour(net, states, steps) && states[|steps|] == s
  }

  /** Every interface's engine is sound. */
  ghost predicate Engines(net: Topology, s: NetState) {
    |s.states| == |net.interfaces| && forall k :: 0 <= k < |s.states| ==> Inv(s.states[k])
  }

  lemma NetReachedNext(net: Topology, s: NetState, n: NetStep)
    requires NetReached(net, s) && NetEnabled(net, s, n)
    ensures NetReached(net, NetNext(net, s, n))
  {
    var s' := NetNext(net, s, n);
    var states, steps :| NetBehaviour(net, states, steps) && states[|steps|] == s;
    var states', steps' := states + [s'], steps + [n];
    assert states'[0] == states[0];
    forall k | 0 <= k < |steps'|
      ensures NetEnabled(net, states'[k], steps'[k]) && states'[k + 1] == NetNext(net, states'[k], steps'[k])
    {
      if k < |steps| {
        assert states'[k] == states[k] && states'[k + 1] == states[k + 1] && steps'[k] == steps[k];
      }
    }
    assert NetBehaviour(net, states', steps') && states'[|steps'|] == s';
  }

  /** Interface i takes a step. */
  lemma Take(net: Topology, s: NetState, i: nat, step: Step) returns (s': NetState)
    requires NetReached(net, s) && Engines(net, s) && NetEnabled(net, s, NetStep(i, step))
    ensures NetReached(net, s') && Engines(net, s')
    ensures s' == NetNext(net, s, NetStep(i, step))
    ensures s'.states[i] == Next(net.interfaces[i], s.states[i], step)
    ensures forall k :: 0 <= k < |s.states| && k != i ==> s'.states[k] == s.states[k]
    ensures s.wire <= s'.wire && forall p :: p in Sent(net.interfaces[i], s.states[i], step) ==> p in s'.wire
  {
    s' := NetNext(net, s, NetStep(i, step));
    NetReachedNext(net, s, NetStep(i, step));
    NextKeepsInv(net.interfaces[i], s.states[i], step);
  }

  lemma Start(net: Topology) returns (s: NetState)
    ensures NetReached(net, s) && Engines(net, s) && s.wire == {}
    ensures forall k :: 0 <= k < |s.states| ==> s.states[k] == Initial(0)
  {
    s := NetState(seq(|net.interfaces|, _ => Initial(0)), {});
    var states, steps: seq<NetStep> := [s], [];
    assert NetBehaviour(net, states, steps) && states[|steps|] == s;
    forall k | 0 <= k < |s.states| ensures Inv(s.states[k]) {
      InitialTruth(net, k, 0);
    }
  }

  // ---------------------------------------------------------------- the asker's part, step by step

  /** A MAC table whose one entry is a default endpoint. */
  function DefaultOnly(): MacTable {
    [MacEntry(CONTROLLER, V4(0), false)]
  }

  lemma EverybodyIsReachable(mac: Mac)
    ensures Reachable(DefaultOnly(), mac)
  {
    assert DefaultOnly()[0] in DefaultOnly();
  }

  /** The interface has no routes, so it looks up what it is asked for. */
  lemma Looks(cfg: Config, s: State, target: Addr)
    requires s.routes == [] && DirectAnswer(cfg.addresses, target).None?
    ensures Next(cfg, s, ChooseTarget(target)) == s.(lookups := s.lookups + multiset{target})
  {
    assert GatewayFor(s.routes, target).None?;
  }

  lemma Misses(cfg: Config, s: State, target: Addr)
    requires Quiet(s) && target in s.lookups
    ensures var s' := Next(cfg, s, Consult(target));
      && Alone(s', target, 0, Registered) && s'.runs[0].source == SourceAddress(cfg.addresses, target)
      && s'.macs == s.macs && s'.routes == []
  {
  }

  lemma FindsEndpoint(cfg: Config, s: State, target: Addr)
    requires Alone(s, target, 0, Registered) && s.macs == DefaultOnly() && s.routes == []
    ensures var s' := Next(cfg, s, FindDestination(0));
      Alone(s', target, 0, Sending) && s'.runs[0].source == s.runs[0].source && s'.routes == []
  {
    EverybodyIsReachable(BROADCAST);
  }

  lemma Asks(cfg: Config, s: State, target: Addr)
    requires Alone(s, target, 0, Sending) && s.runs[0].source == SourceAddress(cfg.addresses, target) && s.routes == []
    requires exists q :: q in cfg.addresses && q.addr.V4? == target.V4?
    ensures var s' := Next(cfg, s, SendRequest(0)); Alone(s', target, 1, Waiting) && s'.routes == []
    ensures |Sent(cfg, s, SendRequest(0))| == 1
  {
    PickSourceSound(cfg.addresses, target);
  }

  /** The answer is in, and the run still waits for it. */
  ghost predicate Awaited(s: State, target: Addr) {
    && 0 in s.runs && s.runs[0].target == target && s.runs[0].kind == Resolution && s.runs[0].phase == Waiting
    && Waiters(s.events, target) == [0] && s.routes == []
  }

  lemma Hears(cfg: Config, s: State, reply: Packet, target: Addr, mac: Mac)
    requires Alone(s, target, 1, Waiting) && Answered(cfg, s, reply, target, mac) && s.routes == []
    ensures Awaited(Next(cfg, s, Receive(reply)), target)
  {
    HandlerShape(cfg, s, Receive(reply));
  }

  lemma HandsOut(cfg: Config, s: State, target: Addr, mac: Mac)
    requires s.handler == Learned(target, mac) && Awaited(s, target)
    ensures var s' := Next(cfg, s, Notify);
      s'.handler == Notifying(target, mac, [], [0]) && Awaited(s', target) && s'.table == s.table
  {
  }

  /** The run has been handed the answer. */
  ghost predicate Handed(s: State, target: Addr, mac: Mac) {
    && 0 in s.runs && s.runs[0].target == target && s.runs[0].kind == Resolution && s.runs[0].phase == Leaving(Some(mac))
    && s.routes == []
  }

  lemma Serves(cfg: Config, s: State, target: Addr, mac: Mac)
    requires s.handler == Notifying(target, mac, [], [0]) && Awaited(s, target)
    ensures Enabled(cfg, s, Serve)
    ensures var s' := Next(cfg, s, Serve);
      s'.handler == Notifying(target, mac, [0], []) && Handed(s', target, mac) && s'.table == s.table
  {
    assert [] + [0] == [0];
  }

  lemma Ends(cfg: Config, s: State)
    requires s.handler.Notifying? && s.handler.pending == []
    ensures Enabled(cfg, s, EndNotify) && Next(cfg, s, EndNotify) == s.(handler := Idle)
  {
  }

  lemma Leaves(cfg: Config, s: State, target: Addr, mac: Mac)
    requires s.handler == Idle && Handed(s, target, mac)
    ensures Enabled(cfg, s, Leave(0))
    ensures var s' := Next(cfg, s, Leave(0));
      Answer(target, Some(mac), false) in s'.answers && s'.table == s.table && s'.handler == Idle && s'.routes == []
  {
  }

  // ---------------------------------------------------------------- the run

  /** Interface i resolves an address of interface j: both know an endpoint, and i has a prefix of the family. */
  ghost predicate Resolvable(net: Topology, i: nat, j: nat, target: Addr) {
    && i < |net.interfaces| && j < |net.interfaces| && i != j
    && (exists q :: q in net.interfaces[j].addresses && q.addr == target)
    && (exists q :: q in net.interfaces[i].addresses && q.addr.V4? == target.V4?)
    && DirectAnswer(net.interfaces[i].addresses, target).None?
  }

  /** The network so far is one that can be gone on from. */
  ghost predicate Going(net: Topology, s: NetState, i: nat, j: nat) {
    && NetReached(net, s) && Engines(net, s) && i < |s.states| && j < |s.states|
    && s.states[j].handler == Idle && s.states[j].macs == DefaultOnly()
  }

  /** The table has the binding. */
  ghost predicate Knows(s: State, a: Option<Addr>, mac: Mac) {
    a.Some? && Find(s.table, a.value).Some? && Find(s.table, a.value).value.mac == SixBytes(mac)
  }

  lemma Equip(net: Topology, s: NetState, i: nat) returns (s': NetState)
    requires NetReached(net, s) && Engines(net, s) && i < |s.states| && s.states[i] == Initial(0)
    ensures NetReached(net, s') && Engines(net, s')
    ensures s'.states[i] == Initial(0).(macs := DefaultOnly())
    ensures forall k :: 0 <= k < |s.states| && k != i ==> s'.states[k] == s.states[k]
  {
    s' := Take(net, s, i, SetMacs(DefaultOnly()));
  }

  lemma Preparing(net: Topology, i: nat, j: nat, target: Addr) returns (s: NetState)
    requires Resolvable(net, i, j, target)
    ensures Going(net, s, i, j) && Quiet(s.states[i]) && s.states[i].macs == DefaultOnly()
  {
    s := Start(net);
    s := Equip(net, s, j);
    s := Equip(net, s, i);
  }

  lemma LookingUp(net: Topology, i: nat, j: nat, target: Addr) returns (s: NetState)
    requires Resolvable(net, i, j, target)
    ensures Going(net, s, i, j) && Alone(s.states[i], target, 0, Registered) && s.states[i].macs == DefaultOnly()
    ensures s.states[i].routes == [] && s.states[i].runs[0].source == SourceAddress(net.interfaces[i].addresses, target)
  {
    s := Preparing(net, i, j, target);
    Looks(net.interfaces[i], s.states[i], target);
    s := Take(net, s, i, ChooseTarget(target));
    Misses(net.interfaces[i], s.states[i], target);
    s := Take(net, s, i, Consult(target));
  }

  /** i is about to ask. */
  lemma Asking(net: Topology, i: nat, j: nat, target: Addr) returns (s: NetState, request: Packet)
    requires Resolvable(net, i, j, target)
    ensures Going(net, s, i, j) && Alone(s.states[i], target, 0, Sending) && s.states[i].routes == []
    ensures s.states[i].runs[0].source == SourceAddress(net.interfaces[i].addresses, target)
    ensures request in Sent(net.interfaces[i], s.states[i], SendRequest(0))
  {
    s := LookingUp(net, i, j, target);
    FindsEndpoint(net.interfaces[i], s.states[i], target);
    s := Take(net, s, i, FindDestination(0));
    Asks(net.interfaces[i], s.states[i], target);
    request := Sent(net.interfaces[i], s.states[i], SendRequest(0))[0];
  }

  /** j answers, and learns who asked. */
  lemma Answering(net: Topology, i: nat, j: nat, target: Addr) returns (s: NetState, reply: Packet)
    requires Resolvable(net, i, j, target)
    ensures Going(net, s, i, j) && Alone(s.states[i], target, 1, Waiting) && s.states[i].routes == []
    ensures reply in s.wire && Answered(net.interfaces[i], s.states[i], reply, target, net.interfaces[j].mac)
    ensures Knows(s.states[j], SourceAddress(net.interfaces[i].addresses, target), net.interfaces[i].mac)
  {
    var cfg, own := net.interfaces[i], net.interfaces[j];
    var request: Packet;
    s, request := Asking(net, i, j, target);
    EverybodyIsReachable(cfg.mac);
    OneExchange(cfg, s.states[i], 0, own, s.states[j], request);
    Asks(cfg, s.states[i], target);
    s := Take(net, s, i, SendRequest(0));
    reply := Sent(own, s.states[j], Receive(request))[0];
    s := Take(net, s, j, Receive(request));
  }

  /** The handler hands the answer to the waiter. */
  lemma HandingOver(net: Topology, s: NetState, i: nat, target: Addr, mac: Mac) returns (s': NetState)
    requires NetReached(net, s) && Engines(net, s) && i < |s.states|
    requires s.states[i].handler == Learned(target, mac) && Awaited(s.states[i], target)
    ensures NetReached(net, s') && Engines(net, s')
    ensures forall k :: 0 <= k < |s.states| && k != i ==> s'.states[k] == s.states[k]
    ensures s'.states[i].table == s.states[i].table && Handed(s'.states[i], target, mac)
    ensures s'.states[i].handler == Notifying(target, mac, [0], [])
  {
    HandsOut(net.interfaces[i], s.states[i], target, mac);
    s' := Take(net, s, i, Notify);
    Serves(net.interfaces[i], s'.states[i], target, mac);
    s' := Take(net, s', i, Serve);
  }

  lemma HavingHandedOver(net: Topology, s: NetState, i: nat, target: Addr, mac: Mac) returns (s': NetState)
    requires NetReached(net, s) && Engines(net, s) && i < |s.states|
    requires s.states[i].handler == Notifying(target, mac, [0], []) && Handed(s.states[i], target, mac)
    ensures NetReached(net, s') && Engines(net, s')
    ensures forall k :: 0 <= k < |s.states| && k != i ==> s'.states[k] == s.states[k]
    ensures s'.states[i].table == s.states[i].table && s'.states[i].handler == Idle && Handed(s'.states[i], target, mac)
  {
    Ends(net.interfaces[i], s.states[i]);
    s' := Take(net, s, i, EndNotify);
  }

  /** And the waiter returns it. */
  lemma Returning(net: Topology, s: NetState, i: nat, target: Addr, mac: Mac) returns (s': NetState)
    requires NetReached(net, s) && Engines(net, s) && i < |s.states|
    requires s.states[i].handler == Idle && Handed(s.states[i], target, mac)
    ensures NetReached(net, s') && Engines(net, s')
    ensures forall k :: 0 <= k < |s.states| && k != i ==> s'.states[k] == s.states[k]
    ensures s'.states[i].table == s.states[i].table && s'.states[i].routes == [] && s'.states[i].handler == Idle
    ensures Answer(target, Some(mac), false) in s'.states[i].answers
  {
    Leaves(net.interfaces[i], s.states[i], target, mac);
    s' := Take(net, s, i, Leave(0));
  }

  /** Looked up again, the address is in the table. */
  lemma LookingAgain(net: Topology, s: NetState, i: nat, target: Addr, mac: Mac) returns (s': NetState)
    requires NetReached(net, s) && Engines(net, s) && i < |s.states| && DirectAnswer(net.interfaces[i].addresses, target).None?
    requires s.states[i].handler == Idle && s.states[i].routes == [] && Knows(s.states[i], Some(target), mac)
    ensures NetReached(net, s') && Engines(net, s')
    ensures forall k :: 0 <= k < |s.states| && k != i ==> s'.states[k] == s.states[k]
    ensures s.states[i].answers <= s'.states[i].answers
    ensures Answer(target, Some(SixBytes(mac)), true) in s'.states[i].answers
  {
    var cfg := net.interfaces[i];
    Looks(cfg, s.states[i], target);
    s' := Take(net, s, i, ChooseTarget(target));
    HitIsReturned(cfg, s'.states[i], target, Find(s'.states[i].table, target).value);
    AnswersStay(cfg, s'.states[i], Consult(target));
    s' := Take(net, s', i, Consult(target));
  }

  lemma AnswersStay(cfg: Config, s: State, step: Step)
    requires Enabled(cfg, s, step)
    ensures s.answers <= Next(cfg, s, step).answers
  {
  }

  /** Resolution works. On every network in which one interface carries an address and another has a prefix of its family,
      and does not answer it without looking, some run ends with the other having returned the first one's hardware
      address, after asking and once more from its table, while the first one has learnt the other's. */
  lemma ResolutionIsReachable(net: Topology, i: nat, j: nat, target: Addr) returns (s: NetState)
    requires Resolvable(net, i, j, target)
    ensures NetReached(net, s) && |s.states| == |net.interfaces|
    ensures Answer(target, Some(net.interfaces[j].mac), false) in s.states[i].answers
    ensures Answer(target, Some(SixBytes(net.interfaces[j].mac)), true) in s.states[i].answers
    ensures Knows(s.states[j], SourceAddress(net.interfaces[i].addresses, target), net.interfaces[i].mac)
  {
    var cfg, mac := net.interfaces[i], net.interfaces[j].mac;
    var reply: Packet;
    s, reply := Answering(net, i, j, target);
    Hears(cfg, s.states[i], reply, target, mac);
    s := Take(net, s, i, Receive(reply));
    s := HandingOver(net, s, i, target, mac);
    s := HavingHandedOver(net, s, i, target, mac);
    s := Returning(net, s, i, target, mac);
    s := LookingAgain(net, s, i, target, mac);
  }
}
