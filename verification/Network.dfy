/** Interfaces on one VNI joined by a network that may lose, duplicate and reorder packets: a packet once sent may be
    received by any interface, any number of times, or never. */
module Network {
  import opened Addresses
  import opened ArpProtocol
  import opened ArpTable
  import opened Resolver
  import opened Sequences

  /** The interfaces, and which of them owns each IP address. */
  datatype Topology = Topology(interfaces: seq<Config>, owner: map<Addr, nat>)

  /** The hardware addresses are six bytes long and distinct, and every interface owns the addresses it carries. */
  ghost predicate Sound(net: Topology) {
    && (forall i :: 0 <= i < |net.interfaces| ==> |net.interfaces[i].mac| == 6)
    && (forall i, j :: 0 <= i < j < |net.interfaces| ==> net.interfaces[i].mac != net.interfaces[j].mac)
    && (forall a :: a in net.owner ==> net.owner[a] < |net.interfaces|)
    && (forall i, p :: 0 <= i < |net.interfaces| && p in net.interfaces[i].addresses ==> Owns(net, i, p.addr))
  }

  predicate Owns(net: Topology, i: nat, a: Addr) {
    a in net.owner && net.owner[a] == i
  }

  /** The binding is the true one: the hardware address of the address's owner. */
  predicate True(net: Topology, a: Addr, mac: Mac) {
    a in net.owner && net.owner[a] < |net.interfaces| && net.interfaces[net.owner[a]].mac == mac
  }

  datatype NetState = NetState(states: seq<State>, wire: set<Packet>)

  /** Interface i takes a step. */
  datatype NetStep = NetStep(i: nat, step: Step)

  ghost predicate NetInitial(net: Topology, s: NetState) {
    && |s.states| == |net.interfaces|
    && (forall i :: 0 <= i < |s.states| ==> exists now :: s.states[i] == Initial(now))
    && s.wire == {}
  }

  /** Received packets were sent, and static entries added by hand are true. */
  predicate NetEnabled(net: Topology, s: NetState, n: NetStep) {
    && n.i < |net.interfaces| == |s.states|
    && Enabled(net.interfaces[n.i], s.states[n.i], n.step)
    && (n.step.Receive? ==> n.step.packet in s.wire)
    && (n.step.Edit? && n.step.op.OpStatic? ==> True(net, n.step.op.addr, n.step.op.mac))
  }

  function NetNext(net: Topology, s: NetState, n: NetStep): NetState
    requires NetEnabled(net, s, n)
  {
    var cfg, local := net.interfaces[n.i], s.states[n.i];
    NetState(s.states[n.i := Next(cfg, local, n.step)], s.wire + set p | p in Sent(cfg, local, n.step))
  }

  // ---------------------------------------------------------------- the invariant

  ghost predicate TableTrue(net: Topology, t: Table) {
    forall e :: e in t ==> True(net, e.addr, e.mac)
  }

  ghost predicate HeardTrue(net: Topology, heard: set<(Addr, Mac)>) {
    forall a: Addr, mac: Mac :: (a, mac) in heard ==> True(net, a, mac)
  }

  ghost predicate AnswersTrue(net: Topology, answers: set<Answer>) {
    forall r :: r in answers && r.mac.Some? ==> True(net, r.target, r.mac.value)
  }

  ghost predicate WireTrue(net: Topology, wire: set<Packet>) {
    forall p :: p in wire && p.srcProt.Some? ==> True(net, p.srcProt.value, p.srcHw)
  }

  /** The source address of every run, started or about to start, is the interface's own. */
  ghost predicate SourcesOwn(net: Topology, i: nat, runs: map<Chan, Run>, spawned: multiset<(Addr, Option<Addr>)>) {
    && (forall c: Chan :: c in runs && runs[c].source.Some? ==> Owns(net, i, runs[c].source.value))
    && (forall job :: job in spawned && job.1.Some? ==> Owns(net, i, job.1.value))
  }

  ghost predicate LocalTruth(net: Topology, i: nat, s: State) {
    && Resolver.Inv(s)
    && TableTrue(net, s.table)
    && HeardTrue(net, s.heard)
    && AnswersTrue(net, s.answers)
    && SourcesOwn(net, i, s.runs, s.spawned)
  }

  ghost predicate NetInv(net: Topology, s: NetState) {
    && |s.states| == |net.interfaces|
    && (forall i :: 0 <= i < |s.states| ==> LocalTruth(net, i, s.states[i]))
    && WireTrue(net, s.wire)
  }

  /** What a step may take as true: the packet it receives and the static entry it adds. */
  ghost predicate Honest(net: Topology, step: Step) {
    && (step.Receive? && step.packet.srcProt.Some? ==> True(net, step.packet.srcProt.value, step.packet.srcHw))
    && (step.Edit? && step.op.OpStatic? ==> True(net, step.op.addr, step.op.mac))
  }

  lemma TrueIsSixBytes(net: Topology, a: Addr, mac: Mac)
    requires Sound(net) && True(net, a, mac)
    ensures SixBytes(mac) == mac
  {
  }

  lemma KeepsTableTrue(net: Topology, i: nat, s: State, step: Step)
    requires Sound(net) && i < |net.interfaces| && LocalTruth(net, i, s)
    requires Enabled(net.interfaces[i], s, step) && Honest(net, step)
    ensures TableTrue(net, Next(net.interfaces[i], s, step).table)
  {
    var cfg := net.interfaces[i];
    NextTable(cfg, s, step);
    var op := TableOp(cfg, s, step);
    if op.Some? {
      ApplyMembers(s.table, op.value, s.now);
      if op.value.OpLearn? || op.value.OpStatic? {
        assert True(net, op.value.addr, op.value.mac);
        TrueIsSixBytes(net, op.value.addr, op.value.mac);
      }
    }
  }

  lemma KeepsHeardTrue(net: Topology, i: nat, s: State, step: Step)
    requires i < |net.interfaces| && LocalTruth(net, i, s)
    requires Enabled(net.interfaces[i], s, step) && Honest(net, step)
    ensures HeardTrue(net, Next(net.interfaces[i], s, step).heard)
  {
    forall a: Addr, mac: Mac | (a, mac) in Next(net.interfaces[i], s, step).heard ensures True(net, a, mac) {
      HeardStep(net.interfaces[i], s, step, a, mac);
    }
  }

  lemma KeepsAnswersTrue(net: Topology, i: nat, s: State, step: Step)
    requires i < |net.interfaces| && LocalTruth(net, i, s)
    requires Enabled(net.interfaces[i], s, step)
    ensures AnswersTrue(net, Next(net.interfaces[i], s, step).answers)
  {
    var cfg := net.interfaces[i];
    if step.Consult? {
      ConsultAnswers(cfg, s, step.target);
      FindIsMember(s.table, step.target);
    } else if step.Leave? {
      LeaveAnswers(cfg, s, step.c);
    } else {
      OtherAnswers(cfg, s, step);
    }
  }

  lemma OwnSource(net: Topology, i: nat, target: Addr)
    requires Sound(net) && i < |net.interfaces|
    ensures var source := SourceAddress(net.interfaces[i].addresses, target);
      source.Some? ==> Owns(net, i, source.value)
  {
    RequestShape(net.interfaces[i].addresses, target);
  }

  lemma KeepsSpawnedOwn(net: Topology, i: nat, s: State, step: Step, job: (Addr, Option<Addr>))
    requires Sound(net) && i < |net.interfaces| && LocalTruth(net, i, s)
    requires Enabled(net.interfaces[i], s, step)
    requires job in Next(net.interfaces[i], s, step).spawned && job.1.Some?
    ensures Owns(net, i, job.1.value)
  {
    SpawnedStep(net.interfaces[i], s, step, job);
    if step.Consult? {
      OwnSource(net, i, step.target);
    }
  }

  lemma KeepsRunSourcesOwn(net: Topology, i: nat, s: State, step: Step)
    requires Sound(net) && i < |net.interfaces| && LocalTruth(net, i, s)
    requires Enabled(net.interfaces[i], s, step)
    ensures var s' := Next(net.interfaces[i], s, step); SourcesOwn(net, i, s'.runs, s.spawned)
  {
    var cfg := net.interfaces[i];
    match Moved(s, step)
    case Some(c) =>
      MovedShape(cfg, s, step, c);
      MovedSource(cfg, s, step, c);
    case None =>
      if Starts(s, step) {
        StartedShape(cfg, s, step);
        StartedSource(net, i, s, step);
      } else if step.Leave? {
        LeaveShape(cfg, s, step.c);
      } else {
        OtherShape(cfg, s, step);
      }
  }

  lemma KeepsSourcesOwn(net: Topology, i: nat, s: State, step: Step)
    requires Sound(net) && i < |net.interfaces| && LocalTruth(net, i, s)
    requires Enabled(net.interfaces[i], s, step)
    ensures var s' := Next(net.interfaces[i], s, step); SourcesOwn(net, i, s'.runs, s'.spawned)
  {
    var s' := Next(net.interfaces[i], s, step);
    KeepsRunSourcesOwn(net, i, s, step);
    forall job | job in s'.spawned && job.1.Some? ensures Owns(net, i, job.1.value) {
      KeepsSpawnedOwn(net, i, s, step, job);
    }
  }

  lemma StartedSource(net: Topology, i: nat, s: State, step: Step)
    requires Sound(net) && i < |net.interfaces| && LocalTruth(net, i, s)
    requires Enabled(net.interfaces[i], s, step) && Starts(s, step)
    ensures var r := Started(net.interfaces[i], step); r.source.Some? ==> Owns(net, i, r.source.value)
  {
    if step.Consult? {
      OwnSource(net, i, step.target);
    } else {
      assert (step.target, step.source) in s.spawned;
    }
  }

  /** Everything an interface sends names one of its own addresses with its own hardware address. */
  lemma SentIsTrue(net: Topology, i: nat, s: State, step: Step, p: Packet)
    requires Sound(net) && i < |net.interfaces| && LocalTruth(net, i, s)
    requires Enabled(net.interfaces[i], s, step) && p in Sent(net.interfaces[i], s, step)
    ensures p.srcProt.Some? ==> True(net, p.srcProt.value, p.srcHw)
  {
    var cfg := net.interfaces[i];
    match step
    case SendRequest(c) =>
    case Receive(q) =>
      FilterMembers(cfg.addresses, WithAddress(q.dstProt.value));
      var own := Filter(cfg.addresses, WithAddress(q.dstProt.value));
      assert own[0] in own;
      assert Owns(net, i, q.dstProt.value);
    case _ =>
  }

  lemma NetNextKeepsInv(net: Topology, s: NetState, n: NetStep)
    requires Sound(net) && NetInv(net, s) && NetEnabled(net, s, n)
    ensures NetInv(net, NetNext(net, s, n))
  {
    var cfg, local := net.interfaces[n.i], s.states[n.i];
    assert Honest(net, n.step);
    NextKeepsInv(cfg, local, n.step);
    KeepsTableTrue(net, n.i, local, n.step);
    KeepsHeardTrue(net, n.i, local, n.step);
    KeepsAnswersTrue(net, n.i, local, n.step);
    KeepsSourcesOwn(net, n.i, local, n.step);
    forall p | p in Sent(cfg, local, n.step) && p.srcProt.Some? ensures True(net, p.srcProt.value, p.srcHw) {
      SentIsTrue(net, n.i, local, n.step, p);
    }
  }

  // ---------------------------------------------------------------- behaviours

  ghost predicate NetBehaviour(net: Topology, states: seq<NetState>, steps: seq<NetStep>) {
    && |states| == |steps| + 1
    && NetInitial(net, states[0])
    && (forall k :: 0 <= k < |steps| ==> NetEnabled(net, states[k], steps[k]) && states[k + 1] == NetNext(net, states[k], steps[k]))
  }

  lemma InitialTruth(net: Topology, i: nat, now: Time)
    ensures LocalTruth(net, i, Initial(now))
  {
  }

  lemma {:induction false} NetInvHolds(net: Topology, states: seq<NetState>, steps: seq<NetStep>)
    requires Sound(net) && NetBehaviour(net, states, steps)
    ensures NetInv(net, states[|steps|])
  {
    if steps == [] {
      forall i | 0 <= i < |net.interfaces| ensures LocalTruth(net, i, states[0].states[i]) {
        var now :| states[0].states[i] == Initial(now);
        InitialTruth(net, i, now);
      }
    } else {
      var n := |steps| - 1;
      NetInvHolds(net, states[..n + 1], steps[..n]);
      NetNextKeepsInv(net, states[n], steps[n]);
    }
  }

  /** Network-wide truth. In every reachable state of every network of interfaces with distinct hardware addresses, in
      which each address has one owner and static entries are true: every table binding, every sender pair in a packet
      on the wire, every address GetMacFor returned and every address a waiter holds is the true hardware address of
      that IP address's owner. */
  lemma NetworkTruth(net: Topology, states: seq<NetState>, steps: seq<NetStep>, i: nat)
    requires Sound(net) && NetBehaviour(net, states, steps) && i < |net.interfaces|
    ensures |states[|steps|].states| == |net.interfaces|
    ensures var s := states[|steps|].states[i];
      && (forall e :: e in s.table ==> True(net, e.addr, e.mac))
      && (forall r :: r in s.answers && r.mac.Some? ==> True(net, r.target, r.mac.value))
      && (forall c: Chan :: c in s.runs && s.runs[c].phase.Leaving? && s.runs[c].phase.answer.Some? ==>
            True(net, s.runs[c].target, s.runs[c].phase.answer.value))
    ensures forall p :: p in states[|steps|].wire && p.srcProt.Some? ==> True(net, p.srcProt.value, p.srcHw)
  {
    NetInvHolds(net, states, steps);
    assert LocalTruth(net, i, states[|steps|].states[i]);
  }

  /** Hence no two interfaces ever disagree about an address. */
  lemma TablesAgree(net: Topology, states: seq<NetState>, steps: seq<NetStep>, i: nat, j: nat, e: ArpEntry, f: ArpEntry)
    requires Sound(net) && NetBehaviour(net, states, steps)
    requires i < |net.interfaces| == |states[|steps|].states| && j < |net.interfaces|
    requires e in states[|steps|].states[i].table && f in states[|steps|].states[j].table && e.addr == f.addr
    ensures e.mac == f.mac
  {
    NetworkTruth(net, states, steps, i);
    NetworkTruth(net, states, steps, j);
  }

  /** A frame sent to a resolved address passes the destination check of the address's owner and of no other. */
  lemma ResolvedFrameReachesOnlyOwner(net: Topology, states: seq<NetState>, steps: seq<NetStep>, i: nat, r: Answer, j: nat)
    requires Sound(net) && NetBehaviour(net, states, steps)
    requires i < |net.interfaces| == |states[|steps|].states| && j < |net.interfaces|
    requires r in states[|steps|].states[i].answers && r.mac.Some?
    ensures r.mac.value == net.interfaces[j].mac <==> Owns(net, j, r.target)
  {
    NetworkTruth(net, states, steps, i);
    var k := net.owner[r.target];
    assert k < j || k == j || j < k;
  }
}
