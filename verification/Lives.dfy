/** The program's interfaces live the lives of the Lifecycle module: what Close, a state change and the closing loop of a
    listener do to the objects is what the steps of that machine do, run through without interruption. */
module Lives {
  import opened Lifecycle
  import opened Sequences
  import opened Switch

  /** A listener and all interfaces that were ever put on it. */
  ghost function FleetOf(l: Listener, all: set<Interface>): Fleet<Interface>
    reads l, all
  {
    Fleet(l.interfaces, map i | i in all :: Member(i.state, Progress.Idle, i.closed), l.closed, false)
  }

  ghost predicate Tracked(l: Listener, all: set<Interface>)
    reads l, all
  {
    Sound(FleetOf(l, all)) && forall i :: i in all ==> i.listener == l
  }

  /** A Close from beginning to end. */
  ghost function ClosedThrough<T>(f: Fleet<T>, i: T): (r: Fleet<T>)
    requires Enabled(f, Mark(i))
  {
    var marked := Step(f, Mark(i));
    if f.members[i].state == Closed then marked else Step(Step(marked, Unlist(i)), Shut(i))
  }

  /** The closing loop of a listener: close the interface in front until there is none. */
  ghost function ClosedFronts<T>(f: Fleet<T>): Fleet<T>
    requires Quiet(f)
    decreases |f.list|
  {
    if f.list == [] then f
    else
      FrontCloses(f);
      ClosedFronts(ClosedThrough(f, f.list[0]))
  }

  /** No Close is under way. */
  ghost predicate Quiet<T>(f: Fleet<T>) {
    Sound(f) && !f.panicked && forall i :: i in f.members ==> f.members[i].progress == Progress.Idle
  }

  /** A whole Close of an open interface: off the list, closed, and nothing else. */
  lemma ClosedThroughShape<T>(f: Fleet<T>, i: T)
    requires Quiet(f) && i in f.members
    ensures Quiet(ClosedThrough(f, i))
    ensures ClosedThrough(f, i) ==
            if f.members[i].state == Closed then f
            else f.(list := RemoveFirst(f.list, i), members := f.members[i := Member(Closed, Progress.Idle, true)])
  {
    StepKeepsSound(f, Mark(i));
    if f.members[i].state != Closed {
      var marked := Step(f, Mark(i));
      StepKeepsSound(marked, Unlist(i));
      var unlisted := Step(marked, Unlist(i));
      StepKeepsSound(unlisted, Shut(i));
    }
  }

  lemma FrontCloses<T>(f: Fleet<T>)
    requires Quiet(f) && f.list != []
    ensures f.list[0] in f.members && Enabled(f, Mark(f.list[0]))
    ensures Quiet(ClosedThrough(f, f.list[0])) && ClosedThrough(f, f.list[0]).list == f.list[1..]
    ensures ClosedThrough(f, f.list[0]).members == f.members[f.list[0] := Member(Closed, Progress.Idle, true)]
  {
    assert f.list[0] in f.list;
    ClosedThroughShape(f, f.list[0]);
  }

  /** The loop ends with nothing listed, everything that was closed, and the rest as it was. */
  lemma {:induction false} ClosedFrontsShape<T>(f: Fleet<T>)
    requires Quiet(f)
    ensures var r := ClosedFronts(f);
      && Quiet(r) && r.list == [] && r.listenerClosed == f.listenerClosed
      && r.members.Keys == f.members.Keys
      && forall i :: i in f.members ==> r.members[i] == if i in f.list then Member(Closed, Progress.Idle, true) else f.members[i]
    decreases |f.list|
  {
    if f.list != [] {
      FrontCloses(f);
      var f1 := ClosedThrough(f, f.list[0]);
      ClosedFrontsShape(f1);
      forall i | i in f.members ensures i in f.list <==> i == f.list[0] || i in f1.list {
        assert f.list == [f.list[0]] + f.list[1..];
      }
    }
  }

  // ---------------------------------------------------------------- the objects

  lemma TrackedIsQuiet(l: Listener, all: set<Interface>)
    requires Tracked(l, all)
    ensures Quiet(FleetOf(l, all))
  {
  }

  /** Interface.Close is the whole Close. */
  method Close(l: Listener, i: Interface, ghost all: set<Interface>)
    requires Tracked(l, all) && i in all
    modifies i`state, i`closed, l`interfaces
    ensures Tracked(l, all)
    ensures FleetOf(l, all) == ClosedThrough(old(FleetOf(l, all)), i)
  {
    ghost var f := FleetOf(l, all);
    TrackedIsQuiet(l, all);
    ClosedThroughShape(f, i);
    assert f.members[i] == Member(i.state, Progress.Idle, i.closed);
    i.Close();
    assert FleetOf(l, all).members == ClosedThrough(f, i).members;
  }

  /** Interface.changeState is the state change. */
  method ChangeState(l: Listener, i: Interface, want: DeviceState, ghost all: set<Interface>)
    requires Tracked(l, all) && i in all
    modifies i`state
    ensures Tracked(l, all)
    ensures FleetOf(l, all) == Step(old(FleetOf(l, all)), ChangeTo(i, want))
  {
    ghost var f := FleetOf(l, all);
    assert f.members[i] == Member(i.state, Progress.Idle, i.closed);
    StepKeepsSound(f, ChangeTo(i, want));
    i.ChangeState(want);
    assert FleetOf(l, all).members == Step(f, ChangeTo(i, want)).members;
  }

  /** The loop at the end of Listener.Close is the closing loop. */
  method CloseInterfaces(l: Listener, ghost all: set<Interface>)
    requires Tracked(l, all)
    modifies l`interfaces, l.interfaces
    ensures Tracked(l, all)
    ensures FleetOf(l, all) == ClosedFronts(old(FleetOf(l, all)))
  {
    ghost var f := FleetOf(l, all);
    ClosedFrontsShape(f);
    forall i | i in l.interfaces ensures i in all && !i.closed && i.state != Closed {
      assert i in f.members && f.members[i] == Member(i.state, Progress.Idle, i.closed);
    }
    l.CloseInterfaces();
    assert FleetOf(l, all).members == ClosedFronts(f).members;
  }
}
