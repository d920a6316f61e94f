/** One interface's ARP engine as a state machine. Each section that the program runs under a lock is one atomic
    step: consulting the table and registering a waiter, sending a request, timing out, deregistering, learning from a
    packet, and handing a reply to the waiters one by one while the read lock keeps writers out. */
module Resolver {
  import opened Addresses
  import opened ArpProtocol
  import opened ArpTable
  import opened Forwarding
  import opened Sequences

  /** Waiter channels, numbered in the order in which they are made. */
  type Chan = nat

  const MAX_TRIES: nat := 3

  /** GetMacFor waits for an answer; updateARPFor refreshes an expired entry in the background. */
  datatype Kind = Resolution | Refresh

  datatype Phase =
    | Registered                  // the channel is registered, the broadcast destination not yet looked up
    | Sending                     // about to send a request
    | Waiting                     // in the select: a reply or the timer
    | Exhausted                   // a refresher whose tries are used up, about to delete the entry
    | Leaving(answer: Option<Mac>) // about to run the deferred deregistration

  datatype Run = Run(target: Addr, source: Option<Addr>, kind: Kind, tries: nat, phase: Phase)

  /** The reply handler: between its two critical sections, or inside the second one. */
  datatype Handler =
    | Idle
    | Learned(addr: Addr, mac: Mac)
    | Notifying(addr: Addr, mac: Mac, served: seq<Chan>, pending: seq<Chan>)

  /** What GetMacFor returned, and whether it found it in the table. */
  datatype Answer = Answer(target: Addr, mac: Option<Mac>, fromTable: bool)

  /** The interface's own hardware address and prefixes. */
  datatype Config = Config(mac: Mac, addresses: seq<Prefix>)

  datatype State = State(
    table: Table,
    events: map<Addr, seq<Chan>>,
    runs: map<Chan, Run>,
    lookups: multiset<Addr>,                       // GetMacFor past its gateway choice
    spawned: multiset<(Addr, Option<Addr>)>,       // refreshers started but not yet registered
    nextChan: Chan,
    handler: Handler,
    routes: RouteTable,
    macs: MacTable,
    now: Time,
    heard: set<(Addr, Mac)>,                       // history: bindings in replies sent to our hardware address
    sent: map<Chan, nat>,                          // history: requests sent by each run, finished or not
    answers: set<Answer>)                          // history: what GetMacFor returned

  datatype Step =
    | ChooseTarget(destination: Addr)
    | Consult(target: Addr)
    | StartRefresh(target: Addr, source: Option<Addr>)
    | FindDestination(c: Chan)
    | SendRequest(c: Chan)
    | TimeOut(c: Chan)
    | DeleteEntry(c: Chan)
    | Leave(c: Chan)
    | Receive(packet: Packet)
    | Notify
    | Serve
    | EndNotify
    | Tick(now: Time)
    | Edit(op: Op)
    | SetRoutes(routes: RouteTable)
    | SetMacs(macs: MacTable)

  function Initial(now: Time): State {
    State([], map[], map[], multiset{}, multiset{}, 0, Idle, [], [], now, {}, map[], {})
  }

  /** The channels registered for an address, in registration order. */
  function Waiters(events: map<Addr, seq<Chan>>, a: Addr): seq<Chan> {
    if a in events then events[a] else []
  }

  function Register(events: map<Addr, seq<Chan>>, a: Addr, c: Chan): map<Addr, seq<Chan>> {
    events[a := Waiters(events, a) + [c]]
  }

  function OtherChan(c: Chan): Chan -> bool {
    (d: Chan) => d != c
  }

  function Deregister(events: map<Addr, seq<Chan>>, a: Addr, c: Chan): map<Addr, seq<Chan>> {
    events[a := Filter(Waiters(events, a), OtherChan(c))]
  }

  function Ended(runs: map<Chan, Run>, c: Chan): map<Chan, Run> {
    map d | d in runs && d != c :: runs[d]
  }

  /** The write lock on the tables can be taken. */
  predicate Unlocked(s: State) {
    !s.handler.Notifying?
  }

  predicate InPhase(s: State, c: Chan, phase: Phase) {
    c in s.runs && s.runs[c].phase == phase
  }

  /** The hardware address GetMacFor returns without looking at the table: multicast and broadcast. */
  function DirectAnswer(addresses: seq<Prefix>, target: Addr): Option<Mac> {
    if IsMulticast(target) then Some(MulticastMac(target))
    else
      var source := PickSource(addresses, target);
      if target.V4? && source.Some? && source.value.addr.V4? && target.ip == BroadcastOf(source.value) then Some(BROADCAST)
      else None
  }

  function Target(routes: RouteTable, destination: Addr): Addr {
    var gateway := GatewayFor(routes, destination);
    if gateway.Some? then gateway.value else destination
  }

  predicate Enabled(cfg: Config, s: State, step: Step) {
    match step
    case ChooseTarget(_) => true
    case Consult(target) => target in s.lookups && Unlocked(s)
    case StartRefresh(target, source) => (target, source) in s.spawned && Unlocked(s)
    case FindDestination(c) => InPhase(s, c, Registered)
    case SendRequest(c) => InPhase(s, c, Sending)
    case TimeOut(c) => InPhase(s, c, Waiting)
    case DeleteEntry(c) => InPhase(s, c, Exhausted) && Unlocked(s)
    case Leave(c) => c in s.runs && s.runs[c].phase.Leaving? && Unlocked(s)
    case Receive(_) => s.handler.Idle?
    case Notify => s.handler.Learned?
    case Serve => s.handler.Notifying? && s.handler.pending != [] && InPhase(s, s.handler.pending[0], Waiting)
    case EndNotify => s.handler.Notifying? && s.handler.pending == []
    case Tick(now) => s.now <= now
    case Edit(op) => !op.OpLearn? && Unlocked(s)
    case SetRoutes(_) => Unlocked(s)
    case SetMacs(_) => Unlocked(s)
  }

  function SetPhase(s: State, c: Chan, phase: Phase): State
    requires c in s.runs
  {
    s.(runs := s.runs[c := s.runs[c].(phase := phase)])
  }

  /** Make a channel, register it for the target, and start a run on it. */
  function Begin(s: State, target: Addr, source: Option<Addr>, kind: Kind): State {
    s.(events := Register(s.events, target, s.nextChan),
       runs := s.runs[s.nextChan := Run(target, source, kind, 0, Registered)],
       sent := s.sent[s.nextChan := 0],
       nextChan := s.nextChan + 1)
  }

  /** A table hit answers at once; an entry past its expiry also starts a refresher. */
  function Hit(s: State, source: Option<Addr>, e: ArpEntry): State {
    var answered := s.(answers := s.answers + {Answer(e.addr, Some(e.mac), true)});
    if !e.updating && e.expires.Some? && s.now > e.expires.value
    then answered.(spawned := s.spawned + multiset{(e.addr, source)}) else answered
  }

  function Next(cfg: Config, s: State, step: Step): State
    requires Enabled(cfg, s, step)
  {
    match step
    case ChooseTarget(destination) =>
      var target := Target(s.routes, destination);
      var direct := DirectAnswer(cfg.addresses, target);
      if direct.Some? then s else s.(lookups := s.lookups + multiset{target})
    case Consult(target) =>
      var s' := s.(lookups := s.lookups - multiset{target});
      var found := Find(s.table, target);
      var source := SourceAddress(cfg.addresses, target);
      if found.Some? then Hit(s', source, found.value) else Begin(s', target, source, Resolution)
    case StartRefresh(target, source) =>
      Begin(s.(spawned := s.spawned - multiset{(target, source)}), target, source, Refresh)
    case FindDestination(c) =>
      SetPhase(s, c, if Reachable(s.macs, BROADCAST) then Sending else Leaving(None))
    case SendRequest(c) =>
      var r := s.runs[c];
      s.(runs := s.runs[c := r.(tries := r.tries + 1, phase := Waiting)],
         sent := s.sent[c := (if c in s.sent then s.sent[c] else 0) + 1])
    case TimeOut(c) =>
      var r := s.runs[c];
      SetPhase(s, c, if r.tries < MAX_TRIES then Sending else if r.kind == Refresh then Exhausted else Leaving(None))
    case DeleteEntry(c) =>
      SetPhase(s, c, Leaving(None)).(table := Without(s.table, s.runs[c].target))
    case Leave(c) =>
      var r := s.runs[c];
      s.(events := Deregister(s.events, r.target, c),
         runs := Ended(s.runs, c),
         answers := if r.kind == Resolution then s.answers + {Answer(r.target, r.phase.answer, false)} else s.answers)
    case Receive(p) =>
      var learnt := s.(table := AfterPacket(s.table, cfg.mac, cfg.addresses, s.macs, p, s.now));
      if AcceptsReply(cfg.mac, p)
      then learnt.(handler := Learned(p.srcProt.value, p.srcHw), heard := s.heard + {(p.srcProt.value, p.srcHw)})
      else learnt
    case Notify =>
      s.(handler := Notifying(s.handler.addr, s.handler.mac, [], Waiters(s.events, s.handler.addr)))
    case Serve =>
      var h, c := s.handler, s.handler.pending[0];
      SetPhase(s, c, Leaving(Some(h.mac))).(handler := h.(served := h.served + [c], pending := h.pending[1..]))
    case EndNotify => s.(handler := Idle)
    case Tick(now) => s.(now := now)
    case Edit(op) => s.(table := Apply(s.table, op, s.now))
    case SetRoutes(routes) => s.(routes := routes)
    case SetMacs(macs) => s.(macs := macs)
  }

  /** The packets a step puts on the wire. A request without a source address fails to serialize. */
  function Sent(cfg: Config, s: State, step: Step): seq<Packet>
    requires Enabled(cfg, s, step)
  {
    match step
    case SendRequest(c) =>
      var r := s.runs[c];
      if r.source.Some? then [RequestFor(cfg.mac, r.source.value, r.target)] else []
    case Receive(p) => RepliesTo(cfg.mac, cfg.addresses, s.macs, p)
    case _ => []
  }

  // ---------------------------------------------------------------- the invariant

  ghost predicate Increasing(s: seq<Chan>) {
    forall i, j :: 0 <= i < j < |s| ==> s[i] < s[j]
  }

  /** The channels registered for an address are exactly those of the runs in flight for it, in the order in which
      they registered. */
  ghost predicate WaitersExact(events: map<Addr, seq<Chan>>, runs: map<Chan, Run>) {
    && (forall a: Addr, c: Chan :: c in Waiters(events, a) <==> c in runs && runs[c].target == a)
    && (forall a: Addr :: Increasing(Waiters(events, a)))
  }

  /** No run, finished or not, sends more than three requests. */
  ghost predicate TriesBounded(runs: map<Chan, Run>, sent: map<Chan, nat>, nextChan: Chan) {
    && (forall c: Chan :: c in sent ==> c < nextChan && sent[c] <= MAX_TRIES)
    && (forall c: Chan :: c in runs ==> c in sent && sent[c] == runs[c].tries)
    && (forall c: Chan :: c in runs && (runs[c].phase.Registered? || runs[c].phase.Sending?) ==> runs[c].tries < MAX_TRIES)
  }

  /** An answer a run carries away was heard in a reply for its address sent to us. */
  ghost predicate RunsHeard(runs: map<Chan, Run>, heard: set<(Addr, Mac)>) {
    forall c: Chan :: c in runs && runs[c].phase.Leaving? && runs[c].phase.answer.Some? ==>
      (runs[c].target, runs[c].phase.answer.value) in heard
  }

  /** So was every address returned after a table miss. */
  ghost predicate AnswersHeard(answers: set<Answer>, heard: set<(Addr, Mac)>) {
    forall r :: r in answers && !r.fromTable && r.mac.Some? ==> (r.target, r.mac.value) in heard
  }

  ghost predicate HandlerHeard(h: Handler, heard: set<(Addr, Mac)>) {
    !h.Idle? ==> (h.addr, h.mac) in heard
  }

  /** While a reply is handed out, the waiters are those served, which all got it, and those still pending. */
  ghost predicate HandingOut(s: State) {
    s.handler.Notifying? ==>
      && s.handler.served + s.handler.pending == Waiters(s.events, s.handler.addr)
      && (forall c :: c in s.handler.served ==> InPhase(s, c, Leaving(Some(s.handler.mac))))
  }

  /** The table is a map, and the guard against a second refresher is never set on an entry. */
  ghost predicate TableSound(s: State) {
    Valid(s.table) && forall e :: e in s.table ==> !e.updating
  }

  ghost predicate Inv(s: State) {
    && TableSound(s)
    && WaitersExact(s.events, s.runs)
    && TriesBounded(s.runs, s.sent, s.nextChan)
    && RunsHeard(s.runs, s.heard)
    && AnswersHeard(s.answers, s.heard)
    && HandlerHeard(s.handler, s.heard)
    && HandingOut(s)
  }

  lemma {:induction false} OverwriteMembers(t: Table, e: ArpEntry)
    ensures forall x :: x in Overwrite(t, e) ==> x == e || x in t
  {
    if t != [] {
      OverwriteMembers(t[1..], e);
    }
  }

  /** Where the entries of the next table come from: they were there, or the operation wrote them. */
  lemma ApplyMembers(t: Table, op: Op, now: Time)
    requires Valid(t)
    ensures Valid(Apply(t, op, now))
    ensures forall x :: x in Apply(t, op, now) ==> x in t || (Writes(op, x.addr) && x.mac == SixBytes(op.mac) && !x.updating)
  {
    ApplyRefines(t, op, now);
    match op
    case OpStatic(a, mac, permanent) =>
      FindIsMember(t, a);
      FilterMembers(t, Elsewhere(a));
      OverwriteMembers(t, ArpEntry(a, mac, None, permanent, false));
    case OpLearn(a, mac) =>
      FindIsMember(t, a);
      FilterMembers(t, Elsewhere(a));
      if Binds(t, a, mac) {
        OverwriteMembers(t, ArpEntry(a, mac, Some(now + LIFETIME), Find(t, a).value.permanent, false));
      }
    case OpRemove(a) => FilterMembers(t, Elsewhere(a));
    case OpSweep => FilterMembers(t, Not(Swept(now)));
    case OpFlush =>
    case OpFlushPermanent => FilterMembers(t, Not(IsPermanent()));
  }

  /** Every step that changes the table performs one of its operations. */
  function TableOp(cfg: Config, s: State, step: Step): Option<Op> {
    match step
    case DeleteEntry(c) => if c in s.runs then Some(OpRemove(s.runs[c].target)) else None
    case Receive(p) =>
      if AcceptsRequest(cfg.addresses, s.macs, p) || AcceptsReply(cfg.mac, p) then Some(OpLearn(p.srcProt.value, p.srcHw)) else None
    case Edit(op) => Some(op)
    case _ => None
  }

  lemma NextTable(cfg: Config, s: State, step: Step)
    requires Enabled(cfg, s, step)
    ensures Next(cfg, s, step).table ==
            if TableOp(cfg, s, step).Some? then Apply(s.table, TableOp(cfg, s, step).value, s.now) else s.table
  {
  }

  lemma KeepsTableSound(cfg: Config, s: State, step: Step)
    requires TableSound(s) && Enabled(cfg, s, step)
    ensures TableSound(Next(cfg, s, step))
  {
    NextTable(cfg, s, step);
    if TableOp(cfg, s, step).Some? {
      ApplyMembers(s.table, TableOp(cfg, s, step).value, s.now);
    }
  }

  lemma RegisterKeepsWaiters(events: map<Addr, seq<Chan>>, runs: map<Chan, Run>, c: Chan, r: Run)
    requires WaitersExact(events, runs)
    requires forall d: Chan :: d in runs ==> d < c
    ensures WaitersExact(Register(events, r.target, c), runs[c := r])
  {
    var events', runs' := Register(events, r.target, c), runs[c := r];
    forall a: Addr ensures Increasing(Waiters(events', a)) {
      var w := Waiters(events, a);
      forall i | 0 <= i < |w| ensures w[i] < c {
        assert w[i] in w;
        assert w[i] in runs;
      }
    }
    forall a: Addr, d: Chan ensures d in Waiters(events', a) <==> d in runs' && runs'[d].target == a {
      assert d in Waiters(events, a) <==> d in runs && runs[d].target == a;
    }
  }

  lemma {:induction false} FilterKeepsIncreasing(s: seq<Chan>, keep: Chan -> bool)
    requires Increasing(s)
    ensures Increasing(Filter(s, keep))
  {
    if s != [] {
      var rest := Filter(s[1..], keep);
      FilterKeepsIncreasing(s[1..], keep);
      FilterMembers(s[1..], keep);
      forall j | 0 <= j < |rest| ensures s[0] < rest[j] {
        assert rest[j] in rest;
      }
    }
  }

  lemma DeregisteredWaiter(events: map<Addr, seq<Chan>>, a: Addr, c: Chan, b: Addr, d: Chan)
    ensures d in Waiters(Deregister(events, a, c), b) <==> d in Waiters(events, b) && (b == a ==> d != c)
  {
    FilterMember(Waiters(events, a), OtherChan(c), d);
  }

  lemma DeregisterKeepsOrder(events: map<Addr, seq<Chan>>, target: Addr, c: Chan, a: Addr)
    requires Increasing(Waiters(events, a)) && Increasing(Waiters(events, target))
    ensures Increasing(Waiters(Deregister(events, target, c), a))
  {
    FilterKeepsIncreasing(Waiters(events, target), OtherChan(c));
  }

  lemma DeregisterKeepsWaiters(events: map<Addr, seq<Chan>>, runs: map<Chan, Run>, c: Chan)
    requires WaitersExact(events, runs) && c in runs
    ensures WaitersExact(Deregister(events, runs[c].target, c), Ended(runs, c))
  {
    var target := runs[c].target;
    var events', runs' := Deregister(events, target, c), Ended(runs, c);
    forall a: Addr ensures Increasing(Waiters(events', a)) {
      DeregisterKeepsOrder(events, target, c, a);
    }
    forall a: Addr, d: Chan ensures d in Waiters(events', a) <==> d in runs' && runs'[d].target == a {
      DeregisteredWaiter(events, target, c, a, d);
      assert d in Waiters(events, a) <==> d in runs && runs[d].target == a;
    }
  }

  lemma RetargetlessKeepsWaiters(events: map<Addr, seq<Chan>>, runs: map<Chan, Run>, c: Chan, r: Run)
    requires WaitersExact(events, runs) && c in runs && r.target == runs[c].target
    ensures WaitersExact(events, runs[c := r])
  {
    forall a: Addr, d: Chan ensures d in Waiters(events, a) <==> d in runs[c := r] && runs[c := r][d].target == a {
      assert d in Waiters(events, a) <==> d in runs && runs[d].target == a;
    }
  }

  /** The run that a step moves to another phase, if it does no more than that to the runs. */
  function Moved(s: State, step: Step): Option<Chan> {
    match step
    case FindDestination(c) => Some(c)
    case SendRequest(c) => Some(c)
    case TimeOut(c) => Some(c)
    case DeleteEntry(c) => Some(c)
    case Serve => if s.handler.Notifying? && s.handler.pending != [] then Some(s.handler.pending[0]) else None
    case _ => None
  }

  /** Does the step start a run? */
  predicate Starts(s: State, step: Step) {
    step.StartRefresh? || (step.Consult? && Find(s.table, step.target).None?)
  }

  /** The run a step starts. */
  function Started(cfg: Config, step: Step): Run
    requires step.StartRefresh? || step.Consult?
  {
    if step.StartRefresh? then Run(step.target, step.source, Refresh, 0, Registered)
    else Run(step.target, SourceAddress(cfg.addresses, step.target), Resolution, 0, Registered)
  }

  /** A step that moves one run: registrations stay, the run keeps its target, and only a request costs a try. */
  lemma MovedShape(cfg: Config, s: State, step: Step, c: Chan)
    requires Enabled(cfg, s, step) && Moved(s, step) == Some(c)
    requires step.Serve? ==> c in s.runs
    ensures var s' := Next(cfg, s, step);
      && c in s.runs && s'.events == s.events && s'.nextChan == s.nextChan
      && c in s'.runs && s'.runs == s.runs[c := s'.runs[c]] && s'.runs[c].target == s.runs[c].target
  {
    match step
    case FindDestination(_) =>
    case SendRequest(_) =>
    case TimeOut(_) =>
    case DeleteEntry(_) =>
    case Serve =>
    case _ =>
  }

  lemma MovedTries(cfg: Config, s: State, step: Step, c: Chan)
    requires Enabled(cfg, s, step) && Moved(s, step) == Some(c) && c in s.runs
    ensures var s', r := Next(cfg, s, step), s.runs[c];
      && c in s'.runs
      && (if step.SendRequest? then
            && r.phase.Sending? && s'.runs[c].phase.Waiting? && s'.runs[c].tries == r.tries + 1
            && s'.sent == s.sent[c := (if c in s.sent then s.sent[c] else 0) + 1]
          else
            && s'.runs[c].tries == r.tries && s'.sent == s.sent
            && !s'.runs[c].phase.Registered?
            && (s'.runs[c].phase.Sending? ==> r.tries < MAX_TRIES || r.phase.Registered?))
  {
    match step
    case FindDestination(_) =>
    case SendRequest(_) =>
    case TimeOut(_) =>
    case DeleteEntry(_) =>
    case Serve =>
    case _ =>
  }

  lemma StartedShape(cfg: Config, s: State, step: Step)
    requires Enabled(cfg, s, step) && Starts(s, step)
    ensures var s' := Next(cfg, s, step);
      && s'.events == Register(s.events, step.target, s.nextChan)
      && s'.runs == s.runs[s.nextChan := Started(cfg, step)]
      && s'.sent == s.sent[s.nextChan := 0]
      && s'.nextChan == s.nextChan + 1
  {
  }

  lemma LeaveShape(cfg: Config, s: State, c: Chan)
    requires Enabled(cfg, s, Leave(c))
    ensures var s' := Next(cfg, s, Leave(c));
      && s'.events == Deregister(s.events, s.runs[c].target, c)
      && s'.runs == Ended(s.runs, c)
      && s'.sent == s.sent && s'.nextChan == s.nextChan
  {
  }

  /** The runs and their registrations are as before. */
  ghost predicate SameRuns(s: State, s': State) {
    s'.events == s.events && s'.runs == s.runs && s'.sent == s.sent && s'.nextChan == s.nextChan
  }

  lemma ChooseShape(cfg: Config, s: State, destination: Addr)
    requires Enabled(cfg, s, ChooseTarget(destination))
    ensures SameRuns(s, Next(cfg, s, ChooseTarget(destination)))
  {
  }

  lemma HitKeepsRuns(s: State, source: Option<Addr>, e: ArpEntry)
    ensures SameRuns(s, Hit(s, source, e))
  {
  }

  lemma HitShape(cfg: Config, s: State, target: Addr)
    requires Enabled(cfg, s, Consult(target)) && Find(s.table, target).Some?
    ensures SameRuns(s, Next(cfg, s, Consult(target)))
  {
    HitKeepsRuns(s.(lookups := s.lookups - multiset{target}), SourceAddress(cfg.addresses, target), Find(s.table, target).value);
  }

  lemma HandlerShape(cfg: Config, s: State, step: Step)
    requires Enabled(cfg, s, step) && (step.Receive? || step.Notify? || step.EndNotify?)
    ensures SameRuns(s, Next(cfg, s, step))
  {
  }

  lemma AdminShape(cfg: Config, s: State, step: Step)
    requires Enabled(cfg, s, step) && (step.Tick? || step.Edit? || step.SetRoutes? || step.SetMacs?)
    ensures SameRuns(s, Next(cfg, s, step))
  {
  }

  /** Every other step leaves the runs and their registrations alone. */
  lemma OtherShape(cfg: Config, s: State, step: Step)
    requires Enabled(cfg, s, step) && Moved(s, step).None? && !Starts(s, step) && !step.Leave?
    ensures SameRuns(s, Next(cfg, s, step))
  {
    if step.ChooseTarget? {
      ChooseShape(cfg, s, step.destination);
    } else if step.Consult? {
      HitShape(cfg, s, step.target);
    } else if step.Receive? || step.Notify? || step.EndNotify? {
      HandlerShape(cfg, s, step);
    } else {
      AdminShape(cfg, s, step);
    }
  }

  lemma KeepsWaitersExact(cfg: Config, s: State, step: Step)
    requires Inv(s) && Enabled(cfg, s, step)
    ensures var s' := Next(cfg, s, step); WaitersExact(s'.events, s'.runs)
  {
    var s' := Next(cfg, s, step);
    match Moved(s, step)
    case Some(c) =>
      MovedShape(cfg, s, step, c);
      RetargetlessKeepsWaiters(s.events, s.runs, c, s'.runs[c]);
    case None =>
      if Starts(s, step) {
        StartedShape(cfg, s, step);
        RegisterKeepsWaiters(s.events, s.runs, s.nextChan, s'.runs[s.nextChan]);
      } else if step.Leave? {
        LeaveShape(cfg, s, step.c);
        DeregisterKeepsWaiters(s.events, s.runs, step.c);
      } else {
        OtherShape(cfg, s, step);
      }
  }

  lemma MoveKeepsTries(runs: map<Chan, Run>, sent: map<Chan, nat>, nextChan: Chan, c: Chan, r: Run)
    requires TriesBounded(runs, sent, nextChan) && c in runs && r.tries == runs[c].tries
    requires r.phase.Registered? || r.phase.Sending? ==> r.tries < MAX_TRIES
    ensures TriesBounded(runs[c := r], sent, nextChan)
  {
  }

  lemma SendKeepsTries(runs: map<Chan, Run>, sent: map<Chan, nat>, nextChan: Chan, c: Chan, r: Run)
    requires TriesBounded(runs, sent, nextChan) && c in runs && runs[c].phase.Sending?
    requires r.tries == runs[c].tries + 1 && r.phase.Waiting?
    ensures TriesBounded(runs[c := r], sent[c := sent[c] + 1], nextChan)
  {
  }

  lemma StartKeepsTries(runs: map<Chan, Run>, sent: map<Chan, nat>, nextChan: Chan, r: Run)
    requires TriesBounded(runs, sent, nextChan) && r.tries == 0
    ensures TriesBounded(runs[nextChan := r], sent[nextChan := 0], nextChan + 1)
  {
  }

  lemma KeepsTriesBounded(cfg: Config, s: State, step: Step)
    requires Inv(s) && Enabled(cfg, s, step)
    ensures var s' := Next(cfg, s, step); TriesBounded(s'.runs, s'.sent, s'.nextChan)
  {
    var s' := Next(cfg, s, step);
    match Moved(s, step)
    case Some(c) =>
      MovedShape(cfg, s, step, c);
      MovedTries(cfg, s, step, c);
      if step.SendRequest? {
        SendKeepsTries(s.runs, s.sent, s.nextChan, c, s'.runs[c]);
      } else {
        MoveKeepsTries(s.runs, s.sent, s.nextChan, c, s'.runs[c]);
      }
    case None =>
      if Starts(s, step) {
        StartedShape(cfg, s, step);
        StartKeepsTries(s.runs, s.sent, s.nextChan, Started(cfg, step));
      } else if step.Leave? {
        LeaveShape(cfg, s, step.c);
      } else {
        OtherShape(cfg, s, step);
      }
  }

  /** The one step that gives a run an answer hands it the address of the reply, and the run waits for that address. */
  lemma MovedAnswer(cfg: Config, s: State, step: Step, c: Chan)
    requires Inv(s) && Enabled(cfg, s, step) && Moved(s, step) == Some(c)
    ensures var s' := Next(cfg, s, step);
      && s'.heard == s.heard && c in s'.runs
      && (s'.runs[c].phase.Leaving? && s'.runs[c].phase.answer.Some? ==> (s'.runs[c].target, s'.runs[c].phase.answer.value) in s.heard)
  {
    match step
    case Serve =>
      assert c in s.handler.served + s.handler.pending;
      assert c in Waiters(s.events, s.handler.addr);
      assert s.runs[c].target == s.handler.addr;
    case FindDestination(_) =>
    case SendRequest(_) =>
    case TimeOut(_) =>
    case DeleteEntry(_) =>
    case _ =>
  }

  lemma HeardGrows(cfg: Config, s: State, step: Step)
    requires Enabled(cfg, s, step)
    ensures s.heard <= Next(cfg, s, step).heard
  {
  }

  lemma StillRunsHeard(cfg: Config, s: State, step: Step)
    requires RunsHeard(s.runs, s.heard) && Enabled(cfg, s, step) && Moved(s, step).None?
    ensures RunsHeard(Next(cfg, s, step).runs, s.heard)
  {
    if Starts(s, step) {
      StartedShape(cfg, s, step);
    } else if step.Leave? {
      LeaveShape(cfg, s, step.c);
    } else {
      OtherShape(cfg, s, step);
    }
  }

  lemma MovedRunsHeard(cfg: Config, s: State, step: Step, c: Chan)
    requires Inv(s) && Enabled(cfg, s, step) && Moved(s, step) == Some(c)
    ensures RunsHeard(Next(cfg, s, step).runs, s.heard)
  {
    MovedShape(cfg, s, step, c);
    MovedAnswer(cfg, s, step, c);
  }

  lemma KeepsRunsHeard(cfg: Config, s: State, step: Step)
    requires Inv(s) && Enabled(cfg, s, step)
    ensures RunsHeard(Next(cfg, s, step).runs, Next(cfg, s, step).heard)
  {
    HeardGrows(cfg, s, step);
    match Moved(s, step)
    case Some(c) => MovedRunsHeard(cfg, s, step, c);
    case None => StillRunsHeard(cfg, s, step);
  }

  lemma ConsultAnswers(cfg: Config, s: State, target: Addr)
    requires Enabled(cfg, s, Consult(target))
    ensures forall r :: r in Next(cfg, s, Consult(target)).answers ==>
              || r in s.answers
              || (r.fromTable && Find(s.table, target).Some? && r == Answer(Find(s.table, target).value.addr, Some(Find(s.table, target).value.mac), true))
  {
  }

  lemma LeaveAnswers(cfg: Config, s: State, c: Chan)
    requires Enabled(cfg, s, Leave(c))
    ensures forall r :: r in Next(cfg, s, Leave(c)).answers ==>
              r in s.answers || r == Answer(s.runs[c].target, s.runs[c].phase.answer, false)
  {
  }

  lemma OtherAnswers(cfg: Config, s: State, step: Step)
    requires Enabled(cfg, s, step) && !step.Consult? && !step.Leave?
    ensures Next(cfg, s, step).answers == s.answers
  {
  }

  lemma KeepsAnswersHeard(cfg: Config, s: State, step: Step)
    requires Inv(s) && Enabled(cfg, s, step)
    ensures AnswersHeard(Next(cfg, s, step).answers, Next(cfg, s, step).heard)
  {
    HeardGrows(cfg, s, step);
    if step.Leave? {
      LeaveAnswers(cfg, s, step.c);
    } else if step.Consult? {
      ConsultAnswers(cfg, s, step.target);
    } else {
      OtherAnswers(cfg, s, step);
    }
  }

  lemma KeepsHandlerHeard(cfg: Config, s: State, step: Step)
    requires Inv(s) && Enabled(cfg, s, step)
    ensures HandlerHeard(Next(cfg, s, step).handler, Next(cfg, s, step).heard)
  {
    HeardGrows(cfg, s, step);
    match step
    case Receive(_) =>
    case Notify =>
    case Serve =>
    case EndNotify =>
    case _ => assert Next(cfg, s, step).handler == s.handler;
  }

  lemma KeepsHandingOut(cfg: Config, s: State, step: Step)
    requires HandingOut(s) && Enabled(cfg, s, step)
    ensures HandingOut(Next(cfg, s, step))
  {
    var s' := Next(cfg, s, step);
    if s'.handler.Notifying? {
      match step
      case Notify => assert [] + s'.handler.pending == s'.handler.pending;
      case Serve =>
        var h := s.handler;
        assert h.served + [h.pending[0]] + h.pending[1..] == h.served + h.pending;
      case _ =>
    }
  }

  lemma NextKeepsInv(cfg: Config, s: State, step: Step)
    requires Inv(s) && Enabled(cfg, s, step)
    ensures Inv(Next(cfg, s, step))
  {
    KeepsTableSound(cfg, s, step);
    KeepsWaitersExact(cfg, s, step);
    KeepsTriesBounded(cfg, s, step);
    KeepsRunsHeard(cfg, s, step);
    KeepsAnswersHeard(cfg, s, step);
    KeepsHandlerHeard(cfg, s, step);
    KeepsHandingOut(cfg, s, step);
  }

  // ---------------------------------------------------------------- where runs ask from

  /** A moved run keeps its source. */
  lemma MovedSource(cfg: Config, s: State, step: Step, c: Chan)
    requires Enabled(cfg, s, step) && Moved(s, step) == Some(c) && c in s.runs
    ensures c in Next(cfg, s, step).runs && Next(cfg, s, step).runs[c].source == s.runs[c].source
  {
    match step
    case FindDestination(_) =>
    case SendRequest(_) =>
    case TimeOut(_) =>
    case DeleteEntry(_) =>
    case Serve =>
    case _ =>
  }

  /** A refresher is spawned only by a table hit, for the address looked up and with the source chosen for it. */
  lemma SpawnedStep(cfg: Config, s: State, step: Step, job: (Addr, Option<Addr>))
    requires Enabled(cfg, s, step) && job in Next(cfg, s, step).spawned
    ensures job in s.spawned || (step.Consult? && job == (step.target, SourceAddress(cfg.addresses, step.target)))
  {
    if step.Consult? {
      ConsultSpawns(cfg, s, step.target, job);
    } else {
      OtherSpawns(cfg, s, step);
    }
  }

  lemma ConsultSpawns(cfg: Config, s: State, target: Addr, job: (Addr, Option<Addr>))
    requires Enabled(cfg, s, Consult(target)) && job in Next(cfg, s, Consult(target)).spawned
    ensures job in s.spawned || job == (target, SourceAddress(cfg.addresses, target))
  {
    FindIsMember(s.table, target);
  }

  lemma OtherSpawns(cfg: Config, s: State, step: Step)
    requires Enabled(cfg, s, step) && !step.Consult?
    ensures Next(cfg, s, step).spawned <= s.spawned
  {
  }

  // ---------------------------------------------------------------- behaviours

  /** A run of the interface: states and the steps between them, from an interface just created. */
  ghost predicate Behaviour(cfg: Config, states: seq<State>, steps: seq<Step>) {
    && |states| == |steps| + 1
    && (exists now :: states[0] == Initial(now))
    && (forall k :: 0 <= k < |steps| ==> Enabled(cfg, states[k], steps[k]) && states[k + 1] == Next(cfg, states[k], steps[k]))
  }

  lemma BehaviourPrefix(cfg: Config, states: seq<State>, steps: seq<Step>)
    requires Behaviour(cfg, states, steps) && steps != []
    ensures Behaviour(cfg, states[..|steps|], steps[..|steps| - 1])
  {
  }

  lemma {:induction false} InvHolds(cfg: Config, states: seq<State>, steps: seq<Step>)
    requires Behaviour(cfg, states, steps)
    ensures Inv(states[|steps|])
  {
    if steps != [] {
      var n := |steps| - 1;
      BehaviourPrefix(cfg, states, steps);
      InvHolds(cfg, states[..n + 1], steps[..n]);
      NextKeepsInv(cfg, states[n], steps[n]);
    }
  }

  /** How many requests a run sends along a series of steps. */
  function Requests(steps: seq<Step>, c: Chan): nat {
    if steps == [] then 0
    else Requests(steps[..|steps| - 1], c) + if steps[|steps| - 1] == SendRequest(c) then 1 else 0
  }

  lemma SentStep(cfg: Config, s: State, step: Step, c: Chan)
    requires Inv(s) && Enabled(cfg, s, step)
    ensures var s' := Next(cfg, s, step);
      (if c in s'.sent then s'.sent[c] else 0) == (if c in s.sent then s.sent[c] else 0) + if step == SendRequest(c) then 1 else 0
  {
    match Moved(s, step)
    case Some(d) => MovedTries(cfg, s, step, d);
    case None =>
      if Starts(s, step) {
        StartedShape(cfg, s, step);
      } else if step.Leave? {
        LeaveShape(cfg, s, step.c);
      } else {
        OtherShape(cfg, s, step);
      }
  }

  lemma {:induction false} SentCountsRequests(cfg: Config, states: seq<State>, steps: seq<Step>, c: Chan)
    requires Behaviour(cfg, states, steps)
    ensures var sent := states[|steps|].sent; Requests(steps, c) == if c in sent then sent[c] else 0
  {
    if steps != [] {
      var n := |steps| - 1;
      BehaviourPrefix(cfg, states, steps);
      SentCountsRequests(cfg, states[..n + 1], steps[..n], c);
      InvHolds(cfg, states[..n + 1], steps[..n]);
      SentStep(cfg, states[n], steps[n], c);
    }
  }

  /** Along every behaviour every resolution and every refresh sends at most three requests. */
  lemma AtMostThreeRequests(cfg: Config, states: seq<State>, steps: seq<Step>, c: Chan)
    requires Behaviour(cfg, states, steps)
    ensures Requests(steps, c) <= 3
  {
    SentCountsRequests(cfg, states, steps, c);
    InvHolds(cfg, states, steps);
  }

  /** A step that receives a reply, addressed to us, that binds the address. */
  ghost predicate HearsReply(cfg: Config, step: Step, a: Addr, mac: Mac) {
    step.Receive? && AcceptsReply(cfg.mac, step.packet) && step.packet.srcProt == Some(a) && step.packet.srcHw == mac
  }

  lemma HeardStep(cfg: Config, s: State, step: Step, a: Addr, mac: Mac)
    requires Enabled(cfg, s, step)
    ensures (a, mac) in Next(cfg, s, step).heard ==> (a, mac) in s.heard || HearsReply(cfg, step, a, mac)
  {
  }

  lemma {:induction false} HeardWasReceived(cfg: Config, states: seq<State>, steps: seq<Step>, a: Addr, mac: Mac)
    requires Behaviour(cfg, states, steps) && (a, mac) in states[|steps|].heard
    ensures exists k :: 0 <= k < |steps| && HearsReply(cfg, steps[k], a, mac)
  {
    if steps != [] {
      var n := |steps| - 1;
      HeardStep(cfg, states[n], steps[n], a, mac);
      if (a, mac) in states[n].heard {
        BehaviourPrefix(cfg, states, steps);
        HeardWasReceived(cfg, states[..n + 1], steps[..n], a, mac);
        var k :| 0 <= k < n && HearsReply(cfg, steps[..n][k], a, mac);
        assert HearsReply(cfg, steps[k], a, mac);
      }
    }
  }

  /** A hardware address returned after a table miss came from a reply for that very address sent to our own. */
  lemma ResolvedWasReplied(cfg: Config, states: seq<State>, steps: seq<Step>, target: Addr, mac: Mac)
    requires Behaviour(cfg, states, steps)
    requires Answer(target, Some(mac), false) in states[|steps|].answers
    ensures exists k :: 0 <= k < |steps| && HearsReply(cfg, steps[k], target, mac)
  {
    InvHolds(cfg, states, steps);
    HeardWasReceived(cfg, states, steps, target, mac);
  }

  /** In every reachable state the channels registered for an address are those of its runs in flight, each once and
      in registration order; and when the handler is done, each of them holds the answer. */
  lemma WaitersAreRunsInFlight(cfg: Config, states: seq<State>, steps: seq<Step>, a: Addr)
    requires Behaviour(cfg, states, steps)
    ensures var s := states[|steps|];
      && (forall c: Chan :: c in Waiters(s.events, a) <==> c in s.runs && s.runs[c].target == a)
      && Increasing(Waiters(s.events, a))
      && (s.handler.Notifying? && s.handler.pending == [] && s.handler.addr == a ==>
            forall c: Chan :: c in Waiters(s.events, a) ==> InPhase(s, c, Leaving(Some(s.handler.mac))))
  {
    InvHolds(cfg, states, steps);
    var s := states[|steps|];
    if s.handler.Notifying? && s.handler.pending == [] {
      assert s.handler.served + [] == s.handler.served;
    }
  }

  /** Some run of the interface ends in this state. */
  ghost predicate Reached(cfg: Config, s: State) {
    exists states, steps :: Behaviour(cfg, states, steps) && states[|steps|] == s
  }

  lemma ReachedNext(cfg: Config, s: State, step: Step)
    requires Reached(cfg, s) && Enabled(cfg, s, step)
    ensures Reached(cfg, Next(cfg, s, step))
  {
    var states, steps :| Behaviour(cfg, states, steps) && states[|steps|] == s;
    var states', steps' := states + [Next(cfg, s, step)], steps + [step];
    assert states'[0] == states[0];
    forall k | 0 <= k < |steps'| ensures Enabled(cfg, states'[k], steps'[k]) && states'[k + 1] == Next(cfg, states'[k], steps'[k]) {
      if k < |steps| {
        assert states'[k] == states[k] && states'[k + 1] == states[k + 1] && steps'[k] == steps[k];
      }
    }
    assert Behaviour(cfg, states', steps') && states'[|steps'|] == Next(cfg, s, step);
  }

  lemma ReachedInitial(cfg: Config, now: Time)
    ensures Reached(cfg, Initial(now))
  {
    var states, steps: seq<Step> := [Initial(now)], [];
    assert Behaviour(cfg, states, steps) && states[|steps|] == Initial(now);
  }
}
