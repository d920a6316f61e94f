/** Background refreshers. An entry found past its expiry is to be asked for once; the mark that says so is written to a
    copy, so it is never seen, and the number of refreshers in flight for an address grows with every look at it. */
module Refreshing {
  import opened Addresses
  import opened ArpProtocol
  import opened ArpTable
  import opened Forwarding
  import opened Resolver
  import opened Sequences

  /** The refresh runs of an address. */
  function Running(runs: map<Chan, Run>, a: Addr): set<Chan> {
    set c | c in runs && runs[c].kind == Refresh && runs[c].target == a
  }

  /** How many refreshers of an address are on their way: started and not yet registered, or running. */
  function InFlight(cfg: Config, s: State, a: Addr): nat {
    s.spawned[(a, SourceAddress(cfg.addresses, a))] + |Running(s.runs, a)|
  }

  /** Refreshers are all started with the source address that belongs to their target, so that InFlight misses none. */
  ghost predicate Sourced(cfg: Config, s: State) {
    forall job :: job in s.spawned ==> job.1 == SourceAddress(cfg.addresses, job.0)
  }

  /** Is the address in the table with an expiry that has passed? */
  predicate Expired(s: State, a: Addr) {
    var e := Find(s.table, a);
    e.Some? && e.value.expires.Some? && s.now > e.value.expires.value
  }

  // ---------------------------------------------------------------- what a step does to the refreshers

  lemma ConsultSpawned(cfg: Config, s: State, a: Addr)
    requires Inv(s) && Enabled(cfg, s, Consult(a))
    ensures Next(cfg, s, Consult(a)).spawned ==
            if Expired(s, a) then s.spawned + multiset{(a, SourceAddress(cfg.addresses, a))} else s.spawned
  {
    FindIsMember(s.table, a);
  }

  lemma OtherSpawned(cfg: Config, s: State, step: Step)
    requires Enabled(cfg, s, step) && !step.Consult?
    ensures Next(cfg, s, step).spawned ==
            if step.StartRefresh? then s.spawned - multiset{(step.target, step.source)} else s.spawned
  {
  }

  lemma MovedKind(cfg: Config, s: State, step: Step, c: Chan)
    requires Enabled(cfg, s, step) && Moved(s, step) == Some(c) && c in s.runs
    ensures c in Next(cfg, s, step).runs && Next(cfg, s, step).runs[c].kind == s.runs[c].kind
  {
    match step
    case FindDestination(_) =>
    case SendRequest(_) =>
    case TimeOut(_) =>
    case DeleteEntry(_) =>
    case Serve =>
    case _ =>
  }

  lemma RunningStarted(runs: map<Chan, Run>, c: Chan, r: Run, a: Addr)
    requires c !in runs
    ensures |Running(runs[c := r], a)| == |Running(runs, a)| + (if r.kind == Refresh && r.target == a then 1 else 0)
  {
    assert Running(runs[c := r], a) == Running(runs, a) + (if r.kind == Refresh && r.target == a then {c} else {});
  }

  lemma RunningEnded(runs: map<Chan, Run>, c: Chan, a: Addr)
    requires c in runs
    ensures |Running(Ended(runs, c), a)| == |Running(runs, a)| - (if runs[c].kind == Refresh && runs[c].target == a then 1 else 0)
  {
    assert Running(Ended(runs, c), a) == Running(runs, a) - {c};
  }

  lemma RunningMoved(runs: map<Chan, Run>, c: Chan, r: Run, a: Addr)
    requires c in runs && r.kind == runs[c].kind && r.target == runs[c].target
    ensures Running(runs[c := r], a) == Running(runs, a)
  {
  }

  /** The run that a step starts or ends, as a change in the number of refresh runs of an address. */
  function RunsDelta(s: State, step: Step, a: Addr): int {
    match step
    case StartRefresh(target, _) => if target == a then 1 else 0
    case Leave(c) => if c in s.runs && s.runs[c].kind == Refresh && s.runs[c].target == a then -1 else 0
    case _ => 0
  }

  lemma RunningAfter(cfg: Config, s: State, step: Step, a: Addr)
    requires Inv(s) && Enabled(cfg, s, step)
    ensures |Running(Next(cfg, s, step).runs, a)| == |Running(s.runs, a)| + RunsDelta(s, step, a)
  {
    match Moved(s, step)
    case Some(c) => MovedRunning(cfg, s, step, c, a);
    case None =>
      if Starts(s, step) {
        StartedRunning(cfg, s, step, a);
      } else if step.Leave? {
        LeaveShape(cfg, s, step.c);
        RunningEnded(s.runs, step.c, a);
      } else {
        OtherShape(cfg, s, step);
      }
  }

  lemma MovedRunning(cfg: Config, s: State, step: Step, c: Chan, a: Addr)
    requires Enabled(cfg, s, step) && Moved(s, step) == Some(c)
    ensures Running(Next(cfg, s, step).runs, a) == Running(s.runs, a)
  {
    MovedShape(cfg, s, step, c);
    MovedKind(cfg, s, step, c);
    RunningMoved(s.runs, c, Next(cfg, s, step).runs[c], a);
  }

  lemma StartedRunning(cfg: Config, s: State, step: Step, a: Addr)
    requires Inv(s) && Enabled(cfg, s, step) && Starts(s, step)
    ensures |Running(Next(cfg, s, step).runs, a)| == |Running(s.runs, a)| + RunsDelta(s, step, a)
  {
    StartedShape(cfg, s, step);
    RunningStarted(s.runs, s.nextChan, Started(cfg, step), a);
  }

  // ---------------------------------------------------------------- the law

  /** Every step accounted for: looking at an entry past its expiry adds a refresher for its address, whatever is in
      flight already; a refresher that leaves takes itself off; and nothing else changes the number. */
  lemma InFlightAfter(cfg: Config, s: State, step: Step, a: Addr)
    requires Inv(s) && Sourced(cfg, s) && Enabled(cfg, s, step)
    ensures InFlight(cfg, Next(cfg, s, step), a) ==
            InFlight(cfg, s, a)
            + (if step == Consult(a) && Expired(s, a) then 1 else 0)
            - (if step.Leave? && s.runs[step.c].kind == Refresh && s.runs[step.c].target == a then 1 else 0)
  {
    RunningAfter(cfg, s, step, a);
    if step.Consult? {
      ConsultSpawned(cfg, s, step.target);
    } else {
      OtherSpawned(cfg, s, step);
      if step.StartRefresh? {
        assert (step.target, step.source) in s.spawned;
      }
    }
  }

  /** So a look at an address that had at most one refresher leaves it with at most one exactly when its entry is not past
      its expiry, or there was none. */
  lemma AtMostOneSurvivesIff(cfg: Config, s: State, a: Addr)
    requires Inv(s) && Sourced(cfg, s) && Enabled(cfg, s, Consult(a)) && InFlight(cfg, s, a) <= 1
    ensures InFlight(cfg, Next(cfg, s, Consult(a)), a) <= 1 <==> !Expired(s, a) || InFlight(cfg, s, a) == 0
  {
    InFlightAfter(cfg, s, Consult(a), a);
  }

  lemma KeepsSourced(cfg: Config, s: State, step: Step)
    requires Inv(s) && Sourced(cfg, s) && Enabled(cfg, s, step)
    ensures Sourced(cfg, Next(cfg, s, step))
  {
    if step.Consult? {
      ConsultSpawned(cfg, s, step.target);
    } else {
      OtherSpawned(cfg, s, step);
    }
  }

  lemma {:induction false} SourcedHolds(cfg: Config, states: seq<State>, steps: seq<Step>)
    requires Behaviour(cfg, states, steps)
    ensures Sourced(cfg, states[|steps|])
  {
    if steps != [] {
      var n := |steps| - 1;
      BehaviourPrefix(cfg, states, steps);
      SourcedHolds(cfg, states[..n + 1], steps[..n]);
      InvHolds(cfg, states[..n + 1], steps[..n]);
      KeepsSourced(cfg, states[n], steps[n]);
    }
  }

  // ---------------------------------------------------------------- two refreshers for one address

  /** An entry that was learnt and is past its expiry, with the handler idle and nothing looked up yet. */
  ghost predicate Stale(s: State, a: Addr) {
    s.handler == Idle && s.routes == [] && s.runs == map[] && s.nextChan == 0 && Expired(s, a)
  }

  lemma LearnOne(cfg: Config, now: Time, a: Addr, mac: Mac) returns (s: State)
    ensures Reached(cfg, s) && s.handler == Idle && s.routes == [] && s.runs == map[] && s.nextChan == 0 && s.now == now
    ensures Find(s.table, a).Some? && Find(s.table, a).value.expires == Some(now + LIFETIME)
  {
    var s0 := Initial(now);
    ReachedInitial(cfg, now);
    LearnFinds([], a, mac, now, a);
    var reply := Receive(Packet(true, Reply, mac, Some(a), cfg.mac, None));
    ReachedNext(cfg, s0, reply);
    var s1 := Next(cfg, s0, reply);
    ReachedNext(cfg, s1, Notify);
    var s2 := Next(cfg, s1, Notify);
    ReachedNext(cfg, s2, EndNotify);
    s := Next(cfg, s2, EndNotify);
  }

  lemma GrowStale(cfg: Config, now: Time, a: Addr, mac: Mac) returns (s: State)
    ensures Reached(cfg, s) && Stale(s, a)
  {
    var young := LearnOne(cfg, now, a, mac);
    ReachedNext(cfg, young, Tick(now + LIFETIME + 1));
    s := Next(cfg, young, Tick(now + LIFETIME + 1));
  }

  /** One look at the address: from its choice to the start of its refresher. */
  lemma LookAgain(cfg: Config, s: State, a: Addr) returns (s': State)
    requires Reached(cfg, s) && s.handler == Idle && s.routes == [] && Expired(s, a) && DirectAnswer(cfg.addresses, a).None?
    ensures Reached(cfg, s') && s'.handler == Idle && s'.routes == [] && Expired(s', a)
    ensures InFlight(cfg, s', a) == InFlight(cfg, s, a) + 1
    ensures Running(s'.runs, a) == Running(s.runs, a) + {s.nextChan} && s'.nextChan == s.nextChan + 1
  {
    ReachedIsSound(cfg, s);
    var s1 := Chosen(cfg, s, a);
    var s2 := Consulted(cfg, s1, a);
    s' := Refreshed(cfg, s2, a);
  }

  lemma ReachedIsSound(cfg: Config, s: State)
    requires Reached(cfg, s)
    ensures Inv(s) && Sourced(cfg, s)
  {
    var states, steps :| Behaviour(cfg, states, steps) && states[|steps|] == s;
    InvHolds(cfg, states, steps);
    SourcedHolds(cfg, states, steps);
  }

  lemma Chosen(cfg: Config, s: State, a: Addr) returns (s': State)
    requires Reached(cfg, s) && s.routes == [] && DirectAnswer(cfg.addresses, a).None?
    ensures Reached(cfg, s') && a in s'.lookups && s' == s.(lookups := s'.lookups)
  {
    assert GatewayFor(s.routes, a).None?;
    ReachedNext(cfg, s, ChooseTarget(a));
    s' := Next(cfg, s, ChooseTarget(a));
  }

  lemma Consulted(cfg: Config, s: State, a: Addr) returns (s': State)
    requires Reached(cfg, s) && s.handler == Idle && a in s.lookups && Expired(s, a)
    ensures Reached(cfg, s') && s'.runs == s.runs && s'.nextChan == s.nextChan && s'.handler == Idle
    ensures s'.routes == s.routes && Expired(s', a)
    ensures s'.spawned == s.spawned + multiset{(a, SourceAddress(cfg.addresses, a))}
  {
    ReachedIsSound(cfg, s);
    ConsultSpawned(cfg, s, a);
    HitShape(cfg, s, a);
    ReachedNext(cfg, s, Consult(a));
    s' := Next(cfg, s, Consult(a));
  }

  lemma Refreshed(cfg: Config, s: State, a: Addr) returns (s': State)
    requires Reached(cfg, s) && s.handler == Idle && Expired(s, a)
    requires (a, SourceAddress(cfg.addresses, a)) in s.spawned
    ensures Reached(cfg, s') && s'.handler == Idle && s'.routes == s.routes && Expired(s', a)
    ensures s'.spawned == s.spawned - multiset{(a, SourceAddress(cfg.addresses, a))}
    ensures s'.runs == s.runs[s.nextChan := Run(a, SourceAddress(cfg.addresses, a), Refresh, 0, Registered)]
    ensures s'.nextChan == s.nextChan + 1 && InFlight(cfg, s', a) == InFlight(cfg, s, a)
  {
    var start := StartRefresh(a, SourceAddress(cfg.addresses, a));
    ReachedIsSound(cfg, s);
    InFlightAfter(cfg, s, start, a);
    ReachedNext(cfg, s, start);
    s' := Next(cfg, s, start);
  }

  /** Two refresh runs for one address: learn it, let it expire, and look at it twice. */
  lemma TwoRefreshersAreReachable(cfg: Config, now: Time, a: Addr, mac: Mac) returns (s: State)
    requires DirectAnswer(cfg.addresses, a).None?
    ensures Reached(cfg, s) && |Running(s.runs, a)| == 2
  {
    s := GrowStale(cfg, now, a, mac);
    assert Running(s.runs, a) == {};
    s := LookAgain(cfg, s, a);
    s := LookAgain(cfg, s, a);
    assert Running(s.runs, a) == {0, 1};
  }
}
