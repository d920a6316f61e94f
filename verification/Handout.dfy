/** Handing out a reply. The handler serves the registered waiters one by one on unbuffered channels, with the tables
    locked for reading all the while: when it gets to the end, and when it never does. */
module Handout {
  import opened Addresses
  import opened ArpProtocol
  import opened ArpTable
  import opened Forwarding
  import opened Resolver
  import opened Sequences

  /** The run no longer waits for a reply and never will again. */
  ghost predicate GaveUp(s: State, c: Chan) {
    c in s.runs && (s.runs[c].phase.Leaving? || s.runs[c].phase.Exhausted?)
  }

  /** The run will not wait for a reply as long as the tables stay as they are: it gave up, or it is about to find that
      there is nobody to ask. */
  ghost predicate Doomed(s: State, c: Chan) {
    || GaveUp(s, c)
    || (c in s.runs && s.runs[c].phase.Registered? && !Reachable(s.macs, BROADCAST))
  }

  /** Some waiter still to be served is doomed. */
  ghost predicate Wedged(s: State) {
    s.handler.Notifying? && exists c :: c in s.handler.pending && Doomed(s, c)
  }

  // ---------------------------------------------------------------- a doomed waiter stays unserved

  lemma StaysDoomed(cfg: Config, s: State, step: Step, c: Chan)
    requires Enabled(cfg, s, step) && s.handler.Notifying? && c in s.handler.pending && Doomed(s, c)
    ensures var s' := Next(cfg, s, step);
      && s'.handler.Notifying? && c in s'.handler.pending && Doomed(s', c)
      && s'.handler.addr == s.handler.addr && s'.handler.mac == s.handler.mac
      && s'.table == s.table && s'.events == s.events && s'.macs == s.macs
  {
    match step
    case ChooseTarget(_) =>
    case FindDestination(_) =>
    case SendRequest(_) =>
    case TimeOut(_) =>
    case Tick(_) =>
    case Serve => assert c == s.handler.pending[0] || c in s.handler.pending[1..];
    case _ =>
  }

  /** While the first waiter in line is the doomed one, nobody else is served either. */
  lemma StaysBlocked(cfg: Config, s: State, step: Step)
    requires Enabled(cfg, s, step) && s.handler.Notifying? && s.handler.pending != [] && Doomed(s, s.handler.pending[0])
    ensures Next(cfg, s, step).handler == s.handler
  {
    match step
    case ChooseTarget(_) =>
    case FindDestination(_) =>
    case SendRequest(_) =>
    case TimeOut(_) =>
    case Tick(_) =>
    case _ =>
  }

  /** Any number of steps from a state. */
  ghost predicate Path(cfg: Config, states: seq<State>, steps: seq<Step>) {
    && |states| == |steps| + 1
    && forall k :: 0 <= k < |steps| ==> Enabled(cfg, states[k], steps[k]) && states[k + 1] == Next(cfg, states[k], steps[k])
  }

  /** Once a waiter in line is doomed, the handler keeps the read lock whatever happens: that waiter is never served and
      never deregisters, and the table and the waiters never change again. */
  lemma {:induction false} WedgedForEver(cfg: Config, states: seq<State>, steps: seq<Step>, j: nat, k: nat)
    requires Path(cfg, states, steps) && j <= k < |states| && Wedged(states[j])
    ensures Wedged(states[k])
    ensures states[k].handler.addr == states[j].handler.addr && states[k].handler.mac == states[j].handler.mac
    ensures states[k].table == states[j].table && states[k].events == states[j].events
    ensures forall c :: c in states[j].handler.pending && Doomed(states[j], c) ==> c in states[k].handler.pending && Doomed(states[k], c)
    decreases k
  {
    if j < k {
      WedgedForEver(cfg, states, steps, j, k - 1);
      var s, step := states[k - 1], steps[k - 1];
      var d :| d in s.handler.pending && Doomed(s, d);
      StaysDoomed(cfg, s, step, d);
      forall c | c in s.handler.pending && Doomed(s, c) ensures c in states[k].handler.pending && Doomed(states[k], c) {
        StaysDoomed(cfg, s, step, c);
      }
    }
  }

  /** And when it is the first in line, the hand-out stands still. */
  lemma {:induction false} BlockedForEver(cfg: Config, states: seq<State>, steps: seq<Step>, j: nat, k: nat)
    requires Path(cfg, states, steps) && j <= k < |states|
    requires states[j].handler.Notifying? && states[j].handler.pending != [] && Doomed(states[j], states[j].handler.pending[0])
    ensures states[k].handler == states[j].handler
    decreases k
  {
    if j < k {
      BlockedForEver(cfg, states, steps, j, k - 1);
      assert Wedged(states[j]);
      WedgedForEver(cfg, states, steps, j, k - 1);
      StaysBlocked(cfg, states[k - 1], steps[k - 1]);
    }
  }

  // ---------------------------------------------------------------- every other hand-out can complete

  /** Some path leads from here to the end of the hand-out. */
  ghost predicate Completes(cfg: Config, s: State) {
    exists states: seq<State>, steps: seq<Step> :: Path(cfg, states, steps) && states[0] == s && states[|steps|].handler.Idle?
  }

  /** One step in front of a path. */
  lemma PathFrom(cfg: Config, s: State, step: Step, states: seq<State>, steps: seq<Step>)
    requires Path(cfg, states, steps) && Enabled(cfg, s, step) && states[0] == Next(cfg, s, step)
    ensures Path(cfg, [s] + states, [step] + steps)
  {
    var states', steps' := [s] + states, [step] + steps;
    forall k | 0 <= k < |steps'| ensures Enabled(cfg, states'[k], steps'[k]) && states'[k + 1] == Next(cfg, states'[k], steps'[k]) {
      if k > 0 {
        assert Enabled(cfg, states[k - 1], steps[k - 1]);
      }
    }
  }

  lemma CompletesLater(cfg: Config, s: State, step: Step)
    requires Enabled(cfg, s, step) && Completes(cfg, Next(cfg, s, step))
    ensures Completes(cfg, s)
  {
    var states: seq<State>, steps: seq<Step> :|
      Path(cfg, states, steps) && states[0] == Next(cfg, s, step) && states[|steps|].handler.Idle?;
    PathFrom(cfg, s, step, states, steps);
    assert ([s] + states)[|[step] + steps|] == states[|steps|];
  }

  lemma CompletesNow(cfg: Config, s: State)
    requires s.handler.Idle?
    ensures Completes(cfg, s)
  {
    var states, steps: seq<Step> := [s], [];
    assert Path(cfg, states, steps) && states[|steps|] == s;
  }

  /** The waiters still to be served, none of them doomed and none in line twice. */
  ghost predicate Servable(s: State) {
    && s.handler.Notifying?
    && (forall i, j :: 0 <= i < j < |s.handler.pending| ==> s.handler.pending[i] != s.handler.pending[j])
    && (forall c :: c in s.handler.pending ==> c in s.runs && !Doomed(s, c))
  }

  /** How far the first waiter in line is from waiting. */
  function Distance(s: State): nat {
    if !s.handler.Notifying? || s.handler.pending == [] || s.handler.pending[0] !in s.runs then 0
    else match s.runs[s.handler.pending[0]].phase
      case Registered => 2
      case Sending => 1
      case _ => 0
  }

  /** The next step towards serving the first waiter in line. */
  lemma Approach(cfg: Config, s: State) returns (step: Step)
    requires Servable(s) && s.handler.pending != []
    ensures Enabled(cfg, s, step)
    ensures var s' := Next(cfg, s, step);
      && Servable(s')
      && (|s'.handler.pending| < |s.handler.pending| || (s'.handler.pending == s.handler.pending && Distance(s') < Distance(s)))
  {
    var c := s.handler.pending[0];
    assert c in s.handler.pending;
    match s.runs[c].phase
    case Registered => step := FindDestination(c);
    case Sending => step := SendRequest(c);
    case _ => step := Serve;
  }

  /** Let each waiter in turn find its destination, send and be served; then the handler is done. */
  lemma {:induction false} ServableCompletes(cfg: Config, s: State)
    requires Servable(s)
    ensures Completes(cfg, s)
    decreases |s.handler.pending|, Distance(s)
  {
    if s.handler.pending == [] {
      CompletesNow(cfg, Next(cfg, s, EndNotify));
      CompletesLater(cfg, s, EndNotify);
    } else {
      var step := Approach(cfg, s);
      ServableCompletes(cfg, Next(cfg, s, step));
      CompletesLater(cfg, s, step);
    }
  }

  lemma PendingAreRuns(s: State)
    requires Inv(s) && s.handler.Notifying?
    ensures forall c :: c in s.handler.pending ==> c in s.runs
    ensures forall i, j :: 0 <= i < j < |s.handler.pending| ==> s.handler.pending[i] != s.handler.pending[j]
  {
    var h, w := s.handler, Waiters(s.events, s.handler.addr);
    assert w == h.served + h.pending;
    forall i | 0 <= i < |h.pending| ensures h.pending[i] == w[|h.served| + i] {
    }
    forall c | c in h.pending ensures c in s.runs {
      assert c in w;
    }
  }

  /** When a hand-out can complete. From every state that the engine's invariant allows, some path leads to the end of
      the hand-out exactly when no waiter still in line is doomed. */
  lemma HandOutCompletesIff(cfg: Config, s: State)
    requires Inv(s) && s.handler.Notifying?
    ensures Completes(cfg, s) <==> forall c :: c in s.handler.pending ==> !Doomed(s, c)
  {
    PendingAreRuns(s);
    if forall c :: c in s.handler.pending ==> !Doomed(s, c) {
      ServableCompletes(cfg, s);
    } else {
      assert Wedged(s);
      forall states: seq<State>, steps: seq<Step> | Path(cfg, states, steps) && states[0] == s ensures !states[|steps|].handler.Idle? {
        WedgedForEver(cfg, states, steps, 0, |steps|);
      }
    }
  }

  // ---------------------------------------------------------------- it happens

  /** One run, on channel 0 and for one address, with an idle handler. */
  ghost predicate Alone(s: State, target: Addr, tries: nat, phase: Phase) {
    && s.handler == Idle
    && 0 in s.runs && s.runs[0] == Run(target, s.runs[0].source, Resolution, tries, phase)
    && Waiters(s.events, target) == [0]
  }

  /** Nothing has been asked yet. */
  ghost predicate Quiet(s: State) {
    && s.handler == Idle && s.nextChan == 0
    && s.routes == [] && s.table == [] && s.events == map[] && s.runs == map[]
  }

  lemma ReachQuiet(cfg: Config, now: Time) returns (s: State)
    ensures Reached(cfg, s) && Quiet(s) && Reachable(s.macs, BROADCAST)
  {
    var entry := MacEntry(CONTROLLER, V4(0), false);
    assert entry in [entry] && Reachable([entry], BROADCAST);
    ReachedInitial(cfg, now);
    ReachedNext(cfg, Initial(now), SetMacs([entry]));
    s := Next(cfg, Initial(now), SetMacs([entry]));
  }

  lemma LookUp(cfg: Config, s: State, target: Addr) returns (s': State)
    requires Reached(cfg, s) && Quiet(s) && DirectAnswer(cfg.addresses, target).None?
    ensures Reached(cfg, s') && Quiet(s') && target in s'.lookups && s'.macs == s.macs
  {
    assert GatewayFor(s.routes, target).None?;
    ReachedNext(cfg, s, ChooseTarget(target));
    s' := Next(cfg, s, ChooseTarget(target));
  }

  lemma Miss(cfg: Config, s: State, target: Addr) returns (s': State)
    requires Reached(cfg, s) && Quiet(s) && target in s.lookups
    ensures Reached(cfg, s') && Alone(s', target, 0, Registered) && s'.macs == s.macs
  {
    ReachedNext(cfg, s, Consult(target));
    s' := Next(cfg, s, Consult(target));
  }

  lemma Address(cfg: Config, s: State, target: Addr) returns (s': State)
    requires Reached(cfg, s) && Alone(s, target, 0, Registered) && Reachable(s.macs, BROADCAST)
    ensures Reached(cfg, s') && Alone(s', target, 0, Sending)
  {
    ReachedNext(cfg, s, FindDestination(0));
    s' := Next(cfg, s, FindDestination(0));
  }

  lemma Ask(cfg: Config, s: State, target: Addr, tries: nat) returns (s': State)
    requires Reached(cfg, s) && Alone(s, target, tries, Sending)
    ensures Reached(cfg, s') && Alone(s', target, tries + 1, Waiting)
  {
    ReachedNext(cfg, s, SendRequest(0));
    s' := Next(cfg, s, SendRequest(0));
  }

  lemma AskAgain(cfg: Config, s: State, target: Addr, tries: nat) returns (s': State)
    requires Reached(cfg, s) && Alone(s, target, tries, Waiting) && tries < MAX_TRIES
    ensures Reached(cfg, s') && Alone(s', target, tries + 1, Waiting)
  {
    ReachedNext(cfg, s, TimeOut(0));
    var again := Next(cfg, s, TimeOut(0));
    s' := Ask(cfg, again, target, tries);
  }

  /** A reply comes in for the run's address, and the handler takes its lock. */
  lemma Hear(cfg: Config, s: State, target: Addr, mac: Mac) returns (s': State)
    requires Reached(cfg, s) && s.handler == Idle && 0 in s.runs && Waiters(s.events, target) == [0]
    ensures Reached(cfg, s') && s'.runs == s.runs && s'.macs == s.macs
    ensures s'.handler == Notifying(target, mac, [], [0])
  {
    var reply := Receive(Packet(true, Reply, mac, Some(target), cfg.mac, None));
    ReachedNext(cfg, s, reply);
    var heard := Next(cfg, s, reply);
    ReachedNext(cfg, heard, Notify);
    s' := Next(cfg, heard, Notify);
  }

  lemma TooLate(cfg: Config, s: State, target: Addr) returns (s': State)
    requires Reached(cfg, s) && s.handler.Notifying? && s.handler.pending == [0]
    requires 0 in s.runs && s.runs[0].kind == Resolution && s.runs[0].tries == MAX_TRIES && s.runs[0].phase == Waiting
    ensures Reached(cfg, s') && Wedged(s')
  {
    ReachedNext(cfg, s, TimeOut(0));
    s' := Next(cfg, s, TimeOut(0));
    assert 0 in s'.handler.pending && GaveUp(s', 0);
  }

  /** And it happens: ask three times, let the reply come in and the handler take its lock, and only then time out. */
  lemma WedgeIsReachable(cfg: Config, now: Time, target: Addr, mac: Mac) returns (s: State)
    requires DirectAnswer(cfg.addresses, target).None?
    ensures Reached(cfg, s) && Wedged(s)
  {
    s := ReachQuiet(cfg, now);
    s := LookUp(cfg, s, target);
    s := Miss(cfg, s, target);
    s := Address(cfg, s, target);
    s := Ask(cfg, s, target, 0);
    s := AskAgain(cfg, s, target, 1);
    s := AskAgain(cfg, s, target, 2);
    s := Hear(cfg, s, target, mac);
    s := TooLate(cfg, s, target);
  }

  /** It happens without any timeout, too: where no endpoint is known, a reply that comes in right after the waiter was
      registered finds a waiter that is about to give up. */
  lemma NobodyToAskWedges(cfg: Config, now: Time, target: Addr, mac: Mac) returns (s: State)
    requires DirectAnswer(cfg.addresses, target).None?
    ensures Reached(cfg, s) && Wedged(s)
  {
    ReachedInitial(cfg, now);
    s := LookUp(cfg, Initial(now), target);
    s := Miss(cfg, s, target);
    s := Hear(cfg, s, target, mac);
    assert 0 in s.handler.pending && Doomed(s, 0);
  }
}
