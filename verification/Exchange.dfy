/** What the ARP engine asks and answers: which address it looks up, what its requests and replies say, who can use them,
    and when it gives up. */
module Exchange {
  import opened Addresses
  import opened ArpProtocol
  import opened ArpTable
  import opened Forwarding
  import opened Resolver
  import opened Sequences

  // ---------------------------------------------------------------- what is looked up

  /** The address looked up for a destination is the gateway of the first least-metric route that contains it, and the
      destination itself where none with a metric below the largest integer does. */
  lemma TargetIs(routes: RouteTable, destination: Addr)
    ensures forall k :: IsFirstLeast(routes, EligibleFor(destination), k) ==> Target(routes, destination) == routes[k].gateway
    ensures (forall r :: r in routes && Contains(r.destination, destination) ==> r.metric >= 0x7FFF_FFFF_FFFF_FFFF) ==>
            Target(routes, destination) == destination
  {
    NoGatewayIffNoRoute(routes, destination);
    forall k | IsFirstLeast(routes, EligibleFor(destination), k) ensures Target(routes, destination) == routes[k].gateway {
      GatewayIsOfFirstLeast(routes, destination, k);
    }
  }

  /** The address is the directed broadcast of the first of our prefixes that contains it. */
  ghost predicate IsOurBroadcast(addresses: seq<Prefix>, target: Addr, k: int) {
    && 0 <= k < |addresses|
    && Contains(addresses[k], target)
    && (forall j :: 0 <= j < k ==> !Contains(addresses[j], target))
    && target.V4? && addresses[k].addr.V4? && target.ip == BroadcastOf(addresses[k])
  }

  lemma {:induction false} FirstCovering(addresses: seq<Prefix>, target: Addr) returns (k: nat)
    requires exists p :: p in addresses && Contains(p, target)
    ensures k < |addresses| && Contains(addresses[k], target)
    ensures forall j :: 0 <= j < k ==> !Contains(addresses[j], target)
  {
    if Contains(addresses[0], target) {
      k := 0;
    } else {
      k := FirstCovering(addresses[1..], target);
      k := k + 1;
    }
  }

  lemma BroadcastIsCovered(addresses: seq<Prefix>, target: Addr, k: int)
    requires IsOurBroadcast(addresses, target, k)
    ensures exists p :: p in addresses && Contains(p, target)
  {
    assert addresses[k] in addresses;
  }

  /** An address is answered without being looked up exactly when it is a group or the broadcast of the first of our
      prefixes that contains it, and the broadcast's answer is six bytes of ones. */
  lemma DirectAnswerIs(addresses: seq<Prefix>, target: Addr)
    ensures DirectAnswer(addresses, target) ==
      if IsMulticast(target) then Some(MulticastMac(target))
      else if exists k :: IsOurBroadcast(addresses, target, k) then Some([0xFF, 0xFF, 0xFF, 0xFF, 0xFF, 0xFF])
      else None
  {
    if j :| IsOurBroadcast(addresses, target, j) {
      BroadcastIsCovered(addresses, target, j);
    }
    if exists p :: p in addresses && Contains(p, target) {
      var k := FirstCovering(addresses, target);
      FirstCoveringIsPicked(addresses, target, k);
      if target.V4? && addresses[k].addr.V4? && target.ip == BroadcastOf(addresses[k]) {
        assert IsOurBroadcast(addresses, target, k);
      }
    } else {
      UncoveredIsNoBroadcast(addresses, target);
    }
  }

  lemma UncoveredIsNoBroadcast(addresses: seq<Prefix>, target: Addr)
    requires forall p :: p in addresses ==> !Contains(p, target)
    ensures var source := PickSource(addresses, target);
      source.Some? && source.value.addr.V4? && target.V4? ==> target.ip != BroadcastOf(source.value)
  {
    PickSourceSound(addresses, target);
    var source := PickSource(addresses, target);
    if source.Some? && source.value.addr.V4? {
      BroadcastIsMember(source.value);
    }
  }

  // ---------------------------------------------------------------- what is asked

  /** The step finds that this is the address to look up, and that its answer does not follow from the address alone. */
  ghost predicate Chosen(cfg: Config, s: State, step: Step, a: Addr) {
    step.ChooseTarget? && Target(s.routes, step.destination) == a && DirectAnswer(cfg.addresses, a).None?
  }

  /** One of the first n steps did. */
  ghost predicate Wanted(cfg: Config, states: seq<State>, steps: seq<Step>, n: nat, a: Addr)
    requires n <= |steps| && n <= |states|
  {
    exists i :: 0 <= i < n && Chosen(cfg, states[i], steps[i], a)
  }

  /** Somebody is about to consult the table for the address, is asking for it, or is about to refresh it. */
  ghost predicate Sought(s: State, a: Addr) {
    || a in s.lookups
    || (exists c: Chan :: c in s.runs && s.runs[c].target == a)
    || (exists job :: job in s.spawned && job.0 == a)
  }

  lemma LookupStep(cfg: Config, s: State, step: Step, a: Addr)
    requires Enabled(cfg, s, step) && a in Next(cfg, s, step).lookups
    ensures a in s.lookups || Chosen(cfg, s, step, a)
  {
  }

  lemma RunStep(cfg: Config, s: State, step: Step, c: Chan)
    requires Inv(s) && Enabled(cfg, s, step) && c in Next(cfg, s, step).runs
    ensures Sought(s, Next(cfg, s, step).runs[c].target)
  {
    match Moved(s, step)
    case Some(d) => MovedShape(cfg, s, step, d);
    case None =>
      if Starts(s, step) {
        StartedShape(cfg, s, step);
        if step.StartRefresh? && c == s.nextChan {
          assert (step.target, step.source) in s.spawned;
        }
      } else if step.Leave? {
        LeaveShape(cfg, s, step.c);
      } else {
        OtherShape(cfg, s, step);
      }
  }

  lemma SoughtStep(cfg: Config, s: State, step: Step, a: Addr)
    requires Inv(s) && Enabled(cfg, s, step) && Sought(Next(cfg, s, step), a)
    ensures Sought(s, a) || Chosen(cfg, s, step, a)
  {
    var s' := Next(cfg, s, step);
    if a in s'.lookups {
      LookupStep(cfg, s, step, a);
    } else if c: Chan :| c in s'.runs && s'.runs[c].target == a {
      RunStep(cfg, s, step, c);
    } else {
      var job :| job in s'.spawned && job.0 == a;
      SpawnedStep(cfg, s, step, job);
    }
  }

  /** Nobody seeks an address that was not chosen for some destination. */
  lemma {:induction false} SoughtWasWanted(cfg: Config, states: seq<State>, steps: seq<Step>, n: nat, a: Addr)
    requires Behaviour(cfg, states, steps) && n <= |steps| && Sought(states[n], a)
    ensures Wanted(cfg, states, steps, n, a)
  {
    if n > 0 {
      InvAlong(cfg, states, steps, n - 1);
      SoughtStep(cfg, states[n - 1], steps[n - 1], a);
      if Sought(states[n - 1], a) {
        SoughtWasWanted(cfg, states, steps, n - 1, a);
      } else {
        assert Chosen(cfg, states[n - 1], steps[n - 1], a);
      }
    }
  }

  lemma InvAlong(cfg: Config, states: seq<State>, steps: seq<Step>, n: nat)
    requires Behaviour(cfg, states, steps) && n <= |steps|
    ensures Inv(states[n])
  {
    assert Behaviour(cfg, states[..n + 1], steps[..n]);
    InvHolds(cfg, states[..n + 1], steps[..n]);
  }

  /** Every run, and every refresher about to start, asks from the source chosen for the address it asks for. */
  ghost predicate SourcesChosen(cfg: Config, s: State) {
    && (forall c: Chan :: c in s.runs ==> s.runs[c].source == SourceAddress(cfg.addresses, s.runs[c].target))
    && (forall job :: job in s.spawned ==> job.1 == SourceAddress(cfg.addresses, job.0))
  }

  lemma RunsKeepSources(cfg: Config, s: State, step: Step, c: Chan)
    requires SourcesChosen(cfg, s) && Inv(s) && Enabled(cfg, s, step) && c in Next(cfg, s, step).runs
    ensures var r := Next(cfg, s, step).runs[c]; r.source == SourceAddress(cfg.addresses, r.target)
  {
    match Moved(s, step)
    case Some(d) =>
      MovedShape(cfg, s, step, d);
      MovedSource(cfg, s, step, d);
    case None =>
      if Starts(s, step) {
        StartedShape(cfg, s, step);
        if step.StartRefresh? {
          assert (step.target, step.source) in s.spawned;
        }
      } else if step.Leave? {
        LeaveShape(cfg, s, step.c);
      } else {
        OtherShape(cfg, s, step);
      }
  }

  lemma KeepsSourcesChosen(cfg: Config, s: State, step: Step)
    requires SourcesChosen(cfg, s) && Inv(s) && Enabled(cfg, s, step)
    ensures SourcesChosen(cfg, Next(cfg, s, step))
  {
    var s' := Next(cfg, s, step);
    forall c: Chan | c in s'.runs ensures s'.runs[c].source == SourceAddress(cfg.addresses, s'.runs[c].target) {
      RunsKeepSources(cfg, s, step, c);
    }
    forall job | job in s'.spawned ensures job.1 == SourceAddress(cfg.addresses, job.0) {
      SpawnedStep(cfg, s, step, job);
    }
  }

  lemma {:induction false} SourcesAreChosen(cfg: Config, states: seq<State>, steps: seq<Step>, n: nat)
    requires Behaviour(cfg, states, steps) && n <= |steps|
    ensures SourcesChosen(cfg, states[n])
  {
    if n > 0 {
      SourcesAreChosen(cfg, states, steps, n - 1);
      InvAlong(cfg, states, steps, n - 1);
      KeepsSourcesChosen(cfg, states[n - 1], steps[n - 1]);
    }
  }

  /** The prefix is one of ours, of the address's family, and contains the address as soon as any of ours does. */
  ghost predicate BestOwn(addresses: seq<Prefix>, target: Addr, own: Prefix) {
    && own in addresses && own.addr.V4? == target.V4?
    && ((exists p :: p in addresses && Contains(p, target)) ==> Contains(own, target))
  }

  /** What is asked. Along every behaviour, what a run sends is an Ethernet request from our hardware address to the zero
      one. It asks for the address that the run is for, which an earlier step chose as the gateway of a destination or
      the destination itself, and names as its source one of our own addresses, of the same family and of a prefix that
      contains the address as soon as any of ours does. */
  lemma RequestsAsk(cfg: Config, states: seq<State>, steps: seq<Step>, n: nat, c: Chan, p: Packet)
    requires Behaviour(cfg, states, steps) && n < |steps|
    requires steps[n] == SendRequest(c) && p in Sent(cfg, states[n], steps[n])
    ensures p.ethernet && p.operation == Request && p.srcHw == cfg.mac && p.dstHw == [0, 0, 0, 0, 0, 0]
    ensures c in states[n].runs && p.dstProt == Some(states[n].runs[c].target)
    ensures Wanted(cfg, states, steps, n, states[n].runs[c].target)
    ensures exists own :: BestOwn(cfg.addresses, states[n].runs[c].target, own) && p.srcProt == Some(own.addr)
  {
    var r := states[n].runs[c];
    SourcesAreChosen(cfg, states, steps, n);
    SoughtWasWanted(cfg, states, steps, n, r.target);
    PickSourceSound(cfg.addresses, r.target);
    assert BestOwn(cfg.addresses, r.target, PickSource(cfg.addresses, r.target).value);
  }

  /** A request goes out exactly when some prefix of ours is of the address's family. */
  lemma RequestGoesOutIff(cfg: Config, states: seq<State>, steps: seq<Step>, n: nat, c: Chan)
    requires Behaviour(cfg, states, steps) && n < |steps| && steps[n] == SendRequest(c)
    ensures c in states[n].runs
    ensures |Sent(cfg, states[n], steps[n])| ==
            if exists q :: q in cfg.addresses && q.addr.V4? == states[n].runs[c].target.V4? then 1 else 0
  {
    SourcesAreChosen(cfg, states, steps, n);
    PickSourceSound(cfg.addresses, states[n].runs[c].target);
  }

  // ---------------------------------------------------------------- what is answered

  /** The request is for one of our addresses, its sender parses, and there is an endpoint to send an answer to. */
  ghost predicate Answerable(addresses: seq<Prefix>, macs: MacTable, p: Packet) {
    && p.ethernet && p.operation == Request
    && p.srcProt.Some? && p.dstProt.Some?
    && (exists q :: q in addresses && q.addr == p.dstProt.value)
    && (exists e :: e in macs && (e.mac == p.srcHw || e.mac == [0, 0, 0, 0, 0, 0]))
  }

  lemma AcceptsIffAnswerable(addresses: seq<Prefix>, macs: MacTable, p: Packet)
    ensures AcceptsRequest(addresses, macs, p) <==> Answerable(addresses, macs, p)
  {
    if p.dstProt.Some? {
      var own := Filter(addresses, WithAddress(p.dstProt.value));
      FilterMembers(addresses, WithAddress(p.dstProt.value));
      if own != [] {
        assert own[0] in own;
      }
      forall q | q in addresses && q.addr == p.dstProt.value ensures own != [] {
        assert q in own;
      }
    }
  }

  /** The answer to a request: from our hardware address and the address asked for, to the sender's. */
  ghost predicate IsAnswer(mac: Mac, request: Packet, reply: Packet) {
    && reply.ethernet && reply.operation == Reply
    && reply.srcHw == mac && reply.srcProt == request.dstProt
    && reply.dstHw == request.srcHw && reply.dstProt == request.srcProt
  }

  /** What is answered. A received packet is answered exactly when it is an answerable request, with one answer for each
      of our prefixes that carries the address. */
  lemma RepliesAnswer(cfg: Config, s: State, p: Packet)
    requires Enabled(cfg, s, Receive(p))
    ensures Sent(cfg, s, Receive(p)) != [] <==> Answerable(cfg.addresses, s.macs, p)
    ensures Answerable(cfg.addresses, s.macs, p) ==>
            |Sent(cfg, s, Receive(p))| == |Filter(cfg.addresses, WithAddress(p.dstProt.value))|
    ensures forall reply :: reply in Sent(cfg, s, Receive(p)) ==> IsAnswer(cfg.mac, p, reply)
  {
    AcceptsIffAnswerable(cfg.addresses, s.macs, p);
  }

  lemma AfterPacketLearns(t: Table, mac: Mac, addresses: seq<Prefix>, macs: MacTable, p: Packet, now: Time, a: Addr)
    requires Valid(t)
    ensures var t' := AfterPacket(t, mac, addresses, macs, p, now);
      if p.srcProt == Some(a) && (Answerable(addresses, macs, p) || (p.ethernet && p.operation == Reply && p.dstHw == mac))
      then Find(t', a).Some? && Find(t', a).value.mac == SixBytes(p.srcHw) && Find(t', a).value.expires == Some(now + 60)
      else Find(t', a) == Find(t, a)
  {
    AcceptsIffAnswerable(addresses, macs, p);
    if p.srcProt.Some? {
      LearnFinds(t, p.srcProt.value, p.srcHw, now, a);
    }
  }

  /** A packet is learnt from exactly when it is an answerable request or a reply to our hardware address whose sender
      parses: then its sender's binding is in the table, for sixty seconds, and no other address's changes. */
  lemma LearntIff(cfg: Config, s: State, p: Packet, a: Addr)
    requires Inv(s) && Enabled(cfg, s, Receive(p))
    ensures var t := Next(cfg, s, Receive(p)).table;
      if p.srcProt == Some(a) &&
         (Answerable(cfg.addresses, s.macs, p) || (p.ethernet && p.operation == Reply && p.dstHw == cfg.mac))
      then Find(t, a).Some? && Find(t, a).value.mac == SixBytes(p.srcHw) && Find(t, a).value.expires == Some(s.now + 60)
      else Find(t, a) == Find(s.table, a)
  {
    AfterPacketLearns(s.table, cfg.mac, cfg.addresses, s.macs, p, s.now, a);
  }

  /** Receiving the reply makes the interface learn the binding and hand it out next. */
  ghost predicate Answered(cfg: Config, s: State, reply: Packet, a: Addr, mac: Mac) {
    && Enabled(cfg, s, Receive(reply))
    && var s' := Next(cfg, s, Receive(reply));
    && s'.handler == Learned(a, mac)
    && (a, mac) in s'.heard
    && Find(s'.table, a).Some? && Find(s'.table, a).value.mac == SixBytes(mac)
  }

  /** One exchange. Whatever state the owner of an address is in between two packets, if it knows an endpoint for the
      sender of a request it answers; and whatever state the sender is in then, the answer is one to its hardware
      address, and makes it hand the owner's to everybody who waits for that address. Each ends up with the other's
      binding in its table. */
  lemma OneExchange(asker: Config, s: State, c: Chan, owner: Config, o: State, request: Packet)
    requires Enabled(asker, s, SendRequest(c)) && request in Sent(asker, s, SendRequest(c))
    requires Inv(o) && o.handler.Idle?
    requires exists q :: q in owner.addresses && q.addr == s.runs[c].target
    requires exists e :: e in o.macs && (e.mac == asker.mac || e.mac == [0, 0, 0, 0, 0, 0])
    ensures request.srcProt.Some? && Enabled(owner, o, Receive(request))
    ensures var o' := Next(owner, o, Receive(request));
      && Find(o'.table, request.srcProt.value).Some?
      && Find(o'.table, request.srcProt.value).value.mac == SixBytes(asker.mac)
    ensures Sent(owner, o, Receive(request)) != []
    ensures forall reply, t: State :: reply in Sent(owner, o, Receive(request)) && Inv(t) && t.handler.Idle? ==>
              Answered(asker, t, reply, s.runs[c].target, owner.mac)
  {
    RepliesAnswer(owner, o, request);
    LearntIff(owner, o, request, request.srcProt.value);
    forall reply, t: State | reply in Sent(owner, o, Receive(request)) && Inv(t) && t.handler.Idle?
      ensures Answered(asker, t, reply, s.runs[c].target, owner.mac)
    {
      LearntIff(asker, t, reply, s.runs[c].target);
    }
  }

  // ---------------------------------------------------------------- what is returned

  /** A table hit returns the entry's hardware address, and asks for a refresher exactly when the entry has expired; the
      runs in flight are not touched. */
  lemma HitIsReturned(cfg: Config, s: State, target: Addr, e: ArpEntry)
    requires Inv(s) && Enabled(cfg, s, Consult(target)) && Find(s.table, target) == Some(e)
    ensures var s' := Next(cfg, s, Consult(target));
      && Answer(target, Some(e.mac), true) in s'.answers
      && s'.runs == s.runs && s'.events == s.events && s'.table == s.table
      && |s'.spawned| == |s.spawned| + if e.expires.Some? && s.now > e.expires.value then 1 else 0
  {
    FindIsMember(s.table, target);
    HitShape(cfg, s, target);
  }

  /** A run that is on its way out stays as it is until it leaves. */
  lemma LeavingStays(cfg: Config, s: State, step: Step, c: Chan)
    requires Inv(s) && Enabled(cfg, s, step) && step != Leave(c)
    requires c in s.runs && s.runs[c].phase.Leaving?
    ensures c in Next(cfg, s, step).runs && Next(cfg, s, step).runs[c] == s.runs[c]
  {
    match Moved(s, step)
    case Some(d) => MovedShape(cfg, s, step, d);
    case None =>
      if Starts(s, step) {
        StartedShape(cfg, s, step);
      } else if step.Leave? {
        LeaveShape(cfg, s, step.c);
      } else {
        OtherShape(cfg, s, step);
      }
  }

  lemma {:induction false} HandedStays(cfg: Config, states: seq<State>, steps: seq<Step>, j: nat, k: nat, c: Chan)
    requires Behaviour(cfg, states, steps) && j < k <= |steps|
    requires steps[j] == Serve && states[j].handler.pending[0] == c
    requires forall i :: j < i < k ==> steps[i] != Leave(c)
    ensures c in states[j].runs && c in states[k].runs
    ensures states[k].runs[c] == states[j].runs[c].(phase := Leaving(Some(states[j].handler.mac)))
    decreases k
  {
    if j + 1 < k {
      HandedStays(cfg, states, steps, j, k - 1, c);
      InvAlong(cfg, states, steps, k - 1);
      LeavingStays(cfg, states[k - 1], steps[k - 1], c);
    }
  }

  lemma LeaveReturns(cfg: Config, s: State, c: Chan, a: Addr, mac: Option<Mac>)
    requires Enabled(cfg, s, Leave(c)) && s.runs[c].kind == Resolution
    requires s.runs[c].target == a && s.runs[c].phase == Leaving(mac)
    ensures Answer(a, mac, false) in Next(cfg, s, Leave(c)).answers
  {
  }

  /** What is handed to a waiter is what its resolution returns: the hardware address of the reply, for the address that
      the reply was about, whatever happens between the two. */
  lemma HandedIsReturned(cfg: Config, states: seq<State>, steps: seq<Step>, j: nat, k: nat, c: Chan)
    requires Behaviour(cfg, states, steps) && j < k < |steps|
    requires steps[j] == Serve && states[j].handler.pending[0] == c
    requires steps[k] == Leave(c) && forall i :: j < i < k ==> steps[i] != Leave(c)
    ensures c in states[j].runs && states[j].runs[c].target == states[j].handler.addr
    ensures states[j].runs[c].kind == Resolution ==>
            Answer(states[j].handler.addr, Some(states[j].handler.mac), false) in states[k + 1].answers
  {
    HandedStays(cfg, states, steps, j, k, c);
    InvAlong(cfg, states, steps, j);
    var h := states[j].handler;
    assert c in h.served + h.pending;
    assert c in Waiters(states[j].events, h.addr);
    if states[j].runs[c].kind == Resolution {
      LeaveReturns(cfg, states[k], c, h.addr, Some(h.mac));
    }
  }

  // ---------------------------------------------------------------- giving up

  predicate GivesUp(r: Run) {
    r.phase == Leaving(None) || r.phase == Exhausted
  }

  /** How many requests a run has behind it in each phase. */
  ghost predicate Tried(runs: map<Chan, Run>) {
    forall c: Chan :: c in runs ==>
      && (runs[c].phase.Registered? ==> runs[c].tries == 0)
      && (runs[c].phase.Waiting? ==> 1 <= runs[c].tries)
      && (GivesUp(runs[c]) ==> runs[c].tries == 3 || (runs[c].tries == 0 && !runs[c].phase.Exhausted?))
      && (runs[c].phase.Exhausted? ==> runs[c].kind == Refresh)
  }

  /** The interface knows no endpoint for requests: neither for the broadcast address nor a default one. */
  ghost predicate NobodyToAsk(s: State) {
    forall e :: e in s.macs ==> e.mac != [0xFF, 0xFF, 0xFF, 0xFF, 0xFF, 0xFF] && e.mac != [0, 0, 0, 0, 0, 0]
  }

  lemma MovedTried(cfg: Config, s: State, step: Step, c: Chan)
    requires Inv(s) && Tried(s.runs) && Enabled(cfg, s, step) && Moved(s, step) == Some(c) && c in s.runs
    ensures var s' := Next(cfg, s, step);
      && c in s'.runs
      && (s'.runs[c].phase.Registered? ==> s'.runs[c].tries == 0)
      && (s'.runs[c].phase.Waiting? ==> 1 <= s'.runs[c].tries)
      && (s'.runs[c].phase.Exhausted? ==> s'.runs[c].kind == Refresh)
      && (GivesUp(s'.runs[c]) ==>
            || s'.runs[c].tries == 3
            || (s'.runs[c].tries == 0 && s'.runs[c].phase == Leaving(None) && step == FindDestination(c) && NobodyToAsk(s)))
  {
    match step
    case FindDestination(_) =>
    case SendRequest(_) =>
    case TimeOut(_) =>
    case DeleteEntry(_) =>
    case Serve =>
    case _ =>
  }

  /** A step that moves no run leaves those in flight as they are, and a run that it starts has not tried. */
  lemma StillTried(cfg: Config, s: State, step: Step, c: Chan)
    requires Inv(s) && Enabled(cfg, s, step) && Moved(s, step).None? && c in Next(cfg, s, step).runs
    ensures var r := Next(cfg, s, step).runs[c];
      (c in s.runs && s.runs[c] == r) || (r.phase.Registered? && r.tries == 0)
  {
    if Starts(s, step) {
      StartedShape(cfg, s, step);
    } else if step.Leave? {
      LeaveShape(cfg, s, step.c);
    } else {
      OtherShape(cfg, s, step);
    }
  }

  lemma TriedStep(cfg: Config, s: State, step: Step, c: Chan)
    requires Inv(s) && Tried(s.runs) && Enabled(cfg, s, step)
    ensures Tried(Next(cfg, s, step).runs)
    ensures var s' := Next(cfg, s, step);
      c in s'.runs && GivesUp(s'.runs[c]) && s'.runs[c].tries == 0 ==>
        || (c in s.runs && s.runs[c] == s'.runs[c])
        || (step == FindDestination(c) && NobodyToAsk(s))
  {
    if d :| Moved(s, step) == Some(d) {
      MovedShape(cfg, s, step, d);
      MovedTried(cfg, s, step, d);
    } else {
      forall d: Chan | d in Next(cfg, s, step).runs
        ensures (d in s.runs && s.runs[d] == Next(cfg, s, step).runs[d]) ||
                (Next(cfg, s, step).runs[d].phase.Registered? && Next(cfg, s, step).runs[d].tries == 0)
      {
        StillTried(cfg, s, step, d);
      }
    }
  }

  /** One of the first n steps found that the run has nobody to ask. */
  ghost predicate FoundNobody(states: seq<State>, steps: seq<Step>, n: nat, c: Chan)
    requires n <= |steps| && n <= |states|
  {
    exists k :: 0 <= k < n && steps[k] == FindDestination(c) && NobodyToAsk(states[k])
  }

  lemma {:induction false} TriedAlong(cfg: Config, states: seq<State>, steps: seq<Step>, n: nat, c: Chan)
    requires Behaviour(cfg, states, steps) && n <= |steps|
    ensures Tried(states[n].runs)
    ensures c in states[n].runs && GivesUp(states[n].runs[c]) && states[n].runs[c].tries == 0 ==> FoundNobody(states, steps, n, c)
  {
    if n > 0 {
      TriedAlong(cfg, states, steps, n - 1, c);
      InvAlong(cfg, states, steps, n - 1);
      TriedStep(cfg, states[n - 1], steps[n - 1], c);
      if FoundNobody(states, steps, n - 1, c) {
        assert FoundNobody(states, steps, n, c);
      }
    }
  }

  /** Nobody gives up early. Along every behaviour, a resolution or refresh that goes without an answer, or is about to
      delete its entry, has sent exactly three requests, or it found nobody to ask and has sent none. */
  lemma GivesUpAfterThree(cfg: Config, states: seq<State>, steps: seq<Step>, c: Chan)
    requires Behaviour(cfg, states, steps) && c in states[|steps|].runs && GivesUp(states[|steps|].runs[c])
    ensures Requests(steps, c) == 3 || (Requests(steps, c) == 0 && FoundNobody(states, steps, |steps|, c))
  {
    InvHolds(cfg, states, steps);
    SentCountsRequests(cfg, states, steps, c);
    TriedAlong(cfg, states, steps, |steps|, c);
  }

  /** A refresher on its way out without an answer although it has asked. */
  predicate Unanswered(r: Run) {
    r.kind == Refresh && r.phase == Leaving(None) && r.tries > 0
  }

  lemma MovedUnanswered(cfg: Config, s: State, step: Step, c: Chan)
    requires Inv(s) && Tried(s.runs) && Enabled(cfg, s, step) && Moved(s, step) == Some(c) && c in s.runs
    requires c in Next(cfg, s, step).runs && Unanswered(Next(cfg, s, step).runs[c])
    ensures step == DeleteEntry(c)
  {
    match step
    case FindDestination(_) =>
    case SendRequest(_) =>
    case TimeOut(_) =>
    case DeleteEntry(_) =>
    case Serve =>
    case _ =>
  }

  /** A refresher that went without an answer after asking has deleted its entry on the way out. */
  lemma RefresherStep(cfg: Config, s: State, step: Step, c: Chan)
    requires Inv(s) && Tried(s.runs) && Enabled(cfg, s, step) && c in Next(cfg, s, step).runs
    requires Unanswered(Next(cfg, s, step).runs[c])
    ensures (c in s.runs && s.runs[c] == Next(cfg, s, step).runs[c]) || step == DeleteEntry(c)
  {
    if d :| Moved(s, step) == Some(d) {
      MovedShape(cfg, s, step, d);
      if d == c {
        MovedUnanswered(cfg, s, step, c);
      }
    } else {
      StillTried(cfg, s, step, c);
    }
  }

  lemma {:induction false} UnansweredHasDeleted(cfg: Config, states: seq<State>, steps: seq<Step>, n: nat, c: Chan)
    requires Behaviour(cfg, states, steps) && n <= |steps| && c in states[n].runs && Unanswered(states[n].runs[c])
    ensures exists k :: 0 <= k < n && steps[k] == DeleteEntry(c)
  {
    if n > 0 {
      InvAlong(cfg, states, steps, n - 1);
      TriedAlong(cfg, states, steps, n - 1, c);
      RefresherStep(cfg, states[n - 1], steps[n - 1], c);
      if steps[n - 1] != DeleteEntry(c) {
        UnansweredHasDeleted(cfg, states, steps, n - 1, c);
      }
    }
  }

  /** Who deletes. Along every behaviour a run that is about to delete an entry is a refresher that has sent three
      requests. */
  lemma DeletersHaveAsked(cfg: Config, states: seq<State>, steps: seq<Step>, c: Chan)
    requires Behaviour(cfg, states, steps) && Enabled(cfg, states[|steps|], DeleteEntry(c))
    ensures states[|steps|].runs[c].kind == Refresh && Requests(steps, c) == 3
  {
    InvHolds(cfg, states, steps);
    SentCountsRequests(cfg, states, steps, c);
    TriedAlong(cfg, states, steps, |steps|, c);
  }

  /** And every refresher that leaves without an answer after asking has deleted its own. */
  lemma UnansweredRefreshersDelete(cfg: Config, states: seq<State>, steps: seq<Step>, c: Chan)
    requires Behaviour(cfg, states, steps) && c in states[|steps|].runs
    requires states[|steps|].runs[c].kind == Refresh && states[|steps|].runs[c].phase == Leaving(None)
    requires Requests(steps, c) > 0
    ensures exists k :: 0 <= k < |steps| && steps[k] == DeleteEntry(c)
  {
    InvHolds(cfg, states, steps);
    SentCountsRequests(cfg, states, steps, c);
    assert Unanswered(states[|steps|].runs[c]);
    UnansweredHasDeleted(cfg, states, steps, |steps|, c);
  }

  /** A refresher that got no answer takes the entry of its address out of the table, and no other. */
  lemma ExhaustedDeletes(cfg: Config, s: State, c: Chan, a: Addr)
    requires Inv(s) && Enabled(cfg, s, DeleteEntry(c))
    ensures var t := Next(cfg, s, DeleteEntry(c)).table;
      Find(t, a) == if a == s.runs[c].target then None else Find(s.table, a)
  {
    FindFiltered(s.table, Elsewhere(s.runs[c].target), a);
    FindIsMember(s.table, a);
  }
}
