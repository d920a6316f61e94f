/** The life of a listener's interfaces. Any number of callers close and switch interfaces, and close the listener, in
    any interleaving. Close holds its interface's state lock throughout but takes the listener's lock in the middle, so
    it is three steps: mark the interface closed, take it off the list, close its channel. Closing a channel twice is a
    panic, which ends the program. */
module Lifecycle {
  import opened Sequences

  datatype DeviceState = Down | Up | Closed

  /** changeState: closed for ever once closed; a request for the current state does nothing; and a request for up falls
      through to down. */
  function Changed(current: DeviceState, want: DeviceState): DeviceState {
    if current == Closed || want == current || want == Closed then current else Down
  }

  /** How far the Close that holds the interface's lock has come, if there is one. */
  datatype Progress = Idle | Marked | Unlisted

  datatype Member = Member(state: DeviceState, progress: Progress, closed: bool)

  /** A listener's list, every interface ever put on it, and whether the listener's own channel is closed. */
  datatype Fleet<!T> = Fleet(list: seq<T>, members: map<T, Member>, listenerClosed: bool, panicked: bool)

  datatype Event<T> =
    | Start(i: T)
    | ChangeTo(i: T, want: DeviceState)
    | Mark(i: T)
    | Unlist(i: T)
    | Shut(i: T)
    | CloseListener

  function Launched<T>(): Fleet<T> {
    Fleet([], map[], false, false)
  }

  /** Nothing runs after a panic, and nobody else gets at an interface whose Close is under way. */
  predicate Enabled<T(==)>(f: Fleet<T>, e: Event<T>) {
    !f.panicked &&
    match e
    case Start(i) => i !in f.members
    case ChangeTo(i, _) => i in f.members && f.members[i].progress == Idle
    case Mark(i) => i in f.members && f.members[i].progress == Idle
    case Unlist(i) => i in f.members && f.members[i].progress == Marked
    case Shut(i) => i in f.members && f.members[i].progress == Unlisted
    case CloseListener => true
  }

  function Step<T(==)>(f: Fleet<T>, e: Event<T>): Fleet<T>
    requires Enabled(f, e)
  {
    match e
    case Start(i) => f.(list := f.list + [i], members := f.members[i := Member(Down, Idle, false)])
    case ChangeTo(i, want) => f.(members := f.members[i := f.members[i].(state := Changed(f.members[i].state, want))])
    case Mark(i) => if f.members[i].state == Closed then f else f.(members := f.members[i := f.members[i].(state := Closed, progress := Marked)])
    case Unlist(i) => f.(list := RemoveFirst(f.list, i), members := f.members[i := f.members[i].(progress := Unlisted)])
    case Shut(i) =>
      if f.members[i].closed then f.(panicked := true)
      else f.(members := f.members[i := f.members[i].(closed := true, progress := Idle)])
    case CloseListener => if f.listenerClosed then f.(panicked := true) else f.(listenerClosed := true)
  }

  // ---------------------------------------------------------------- the invariant

  /** Nothing is listed twice; an interface is listed exactly from its start until its Close took it off; and its channel
      is closed exactly when its Close is over. */
  ghost predicate Sound<T>(f: Fleet<T>) {
    && (forall j, k :: 0 <= j < k < |f.list| ==> f.list[j] != f.list[k])
    && (forall i :: i in f.list ==> i in f.members)
    && (forall i :: i in f.members ==> (i in f.list <==> f.members[i].state != Closed || f.members[i].progress == Marked))
    && (forall i :: i in f.members ==> (f.members[i].closed <==> f.members[i].state == Closed && f.members[i].progress == Idle))
    && (forall i :: i in f.members ==> f.members[i].state != Up && (f.members[i].progress != Idle ==> f.members[i].state == Closed))
  }

  lemma RemovedMembers<T>(s: seq<T>, x: T)
    requires forall j, k :: 0 <= j < k < |s| ==> s[j] != s[k]
    ensures forall y :: y in RemoveFirst(s, x) ==> y in s && y != x
    ensures forall y :: y in s && y != x ==> y in RemoveFirst(s, x)
    ensures forall j, k :: 0 <= j < k < |RemoveFirst(s, x)| ==> RemoveFirst(s, x)[j] != RemoveFirst(s, x)[k]
  {
    if x in s {
      var k :| 0 <= k < |s| && s[k] == x;
      RemoveFirstAt(s, k);
      RemoveAtMembers(s, k);
    } else {
      RemoveFirstAbsent(s, x);
    }
  }

  lemma UnlistKeepsSound<T>(f: Fleet<T>, i: T)
    requires Sound(f) && Enabled(f, Unlist(i))
    ensures Sound(Step(f, Unlist(i)))
  {
    var f' := Step(f, Unlist(i));
    RemovedMembers(f.list, i);
    assert f'.list == RemoveFirst(f.list, i);
  }

  lemma SwitchKeepsSound<T>(f: Fleet<T>, e: Event<T>)
    requires Sound(f) && Enabled(f, e) && (e.ChangeTo? || e.Mark? || e.Shut?)
    ensures Sound(Step(f, e)) && !Step(f, e).panicked
  {
  }

  lemma StepKeepsSound<T>(f: Fleet<T>, e: Event<T>)
    requires Sound(f) && Enabled(f, e)
    ensures Sound(Step(f, e))
    ensures Step(f, e).panicked <==> e.CloseListener? && f.listenerClosed
  {
    match e
    case Start(i) =>
    case Unlist(i) => UnlistKeepsSound(f, i);
    case CloseListener =>
    case _ => SwitchKeepsSound(f, e);
  }

  // ---------------------------------------------------------------- runs

  /** A run: fleets and the events between them. */
  ghost predicate Run<T>(fleets: seq<Fleet<T>>, events: seq<Event<T>>) {
    && |fleets| == |events| + 1
    && fleets[0] == Launched()
    && forall k :: 0 <= k < |events| ==> Enabled(fleets[k], events[k]) && fleets[k + 1] == Step(fleets[k], events[k])
  }

  lemma {:induction false} SoundThroughout<T>(fleets: seq<Fleet<T>>, events: seq<Event<T>>, k: nat)
    requires Run(fleets, events) && k < |fleets|
    ensures Sound(fleets[k])
  {
    if k > 0 {
      SoundThroughout(fleets, events, k - 1);
      StepKeepsSound(fleets[k - 1], events[k - 1]);
    }
  }

  /** How often the listener is closed. */
  function Closings<T>(events: seq<Event<T>>): nat {
    if events == [] then 0
    else Closings(events[..|events| - 1]) + if events[|events| - 1].CloseListener? then 1 else 0
  }

  lemma {:induction false} ClosingsSeen<T>(fleets: seq<Fleet<T>>, events: seq<Event<T>>, k: nat)
    requires Run(fleets, events) && k <= |events|
    ensures fleets[k].listenerClosed <==> Closings(events[..k]) >= 1
    ensures fleets[k].panicked <==> Closings(events[..k]) >= 2
  {
    if k > 0 {
      ClosingsSeen(fleets, events, k - 1);
      SoundThroughout(fleets, events, k - 1);
      StepKeepsSound(fleets[k - 1], events[k - 1]);
      assert events[..k][..k - 1] == events[..k - 1];
    }
  }

  /** No interleaving closes an interface's channel twice: the only panic comes from closing the listener twice, which
      nothing in the listener's Close prevents. */
  lemma PanicsIffListenerClosedTwice<T>(fleets: seq<Fleet<T>>, events: seq<Event<T>>)
    requires Run(fleets, events)
    ensures fleets[|events|].panicked <==> Closings(events) >= 2
  {
    ClosingsSeen(fleets, events, |events|);
    assert events[..|events|] == events;
  }

  /** How often an interface leaves the list. */
  function Removals<T(==)>(fleets: seq<Fleet<T>>, i: T): nat {
    if |fleets| < 2 then 0
    else
      var n := |fleets| - 1;
      Removals(fleets[..n], i) + if i in fleets[n - 1].list && i !in fleets[n].list then 1 else 0
  }

  lemma StepLists<T>(f: Fleet<T>, e: Event<T>, i: T)
    requires Sound(f) && Enabled(f, e)
    ensures var f' := Step(f, e);
      && (i in f.members ==> i in f'.members)
      && (i in f'.list && i !in f.list ==> i !in f.members)
      && (i in f'.members && i !in f.members ==> i in f'.list)
  {
    RemovedMembers(f.list, i);
    if e.Unlist? {
      RemovedMembers(f.list, e.i);
    }
  }

  lemma RunPrefix<T>(fleets: seq<Fleet<T>>, events: seq<Event<T>>, n: nat)
    requires Run(fleets, events) && n <= |events|
    ensures Run(fleets[..n + 1], events[..n])
  {
  }

  /** Whatever is interleaved, an interface leaves its listener at most once: once, when it was there and is no more. */
  lemma {:induction false} RemovedAtMostOnce<T>(fleets: seq<Fleet<T>>, events: seq<Event<T>>, i: T)
    requires Run(fleets, events)
    ensures Removals(fleets, i) == if i in fleets[|events|].members && i !in fleets[|events|].list then 1 else 0
    decreases |events|
  {
    if events != [] {
      var n := |events| - 1;
      RunPrefix(fleets, events, n);
      RemovedAtMostOnce(fleets[..n + 1], events[..n], i);
      SoundThroughout(fleets, events, n);
      StepLists(fleets[n], events[n], i);
    }
  }

  /** Has somebody called Close on the interface, and got as far as marking it? */
  ghost predicate CloseCalled<T>(events: seq<Event<T>>, i: T) {
    exists k :: 0 <= k < |events| && events[k] == Mark(i)
  }

  lemma StepState<T>(f: Fleet<T>, e: Event<T>, i: T)
    requires Sound(f) && Enabled(f, e)
    ensures i in Step(f, e).members <==> i in f.members || e == Start(i)
    ensures i in Step(f, e).members ==>
      (Step(f, e).members[i].state == Closed <==> (i in f.members && f.members[i].state == Closed) || e == Mark(i))
  {
  }

  /** An interface is closed exactly when Close was ever called on it. */
  lemma {:induction false} ClosedIffCloseCalled<T>(fleets: seq<Fleet<T>>, events: seq<Event<T>>, i: T)
    requires Run(fleets, events) && i in fleets[|events|].members
    ensures fleets[|events|].members[i].state == Closed <==> CloseCalled(events, i)
    decreases |events|
  {
    var n := |events| - 1;
    if n >= 0 {
      SoundThroughout(fleets, events, n);
      StepState(fleets[n], events[n], i);
      assert fleets[..n + 1][n] == fleets[n];
      if i in fleets[n].members {
        ClosedIffCloseCalled(fleets[..n + 1], events[..n], i);
        assert forall k :: 0 <= k < n ==> events[..n][k] == events[k];
      } else {
        forall k | 0 <= k < n ensures events[k] != Mark(i) {
          MembersStay(fleets, events, i, k, n);
        }
      }
    }
  }

  lemma {:induction false} MembersStay<T>(fleets: seq<Fleet<T>>, events: seq<Event<T>>, i: T, j: nat, k: nat)
    requires Run(fleets, events) && j <= k < |fleets|
    ensures i in fleets[j].members ==> i in fleets[k].members
    decreases k
  {
    if j < k {
      MembersStay(fleets, events, i, j, k - 1);
      SoundThroughout(fleets, events, k - 1);
      StepLists(fleets[k - 1], events[k - 1], i);
    }
  }

  function On<T(==)>(s: seq<T>): T -> bool {
    (x: T) => x in s
  }

  function OtherThan<T(==)>(i: T): T -> bool {
    (x: T) => x != i
  }

  lemma RemovedIsFilter<T>(s: seq<T>, x: T)
    requires forall j, k :: 0 <= j < k < |s| ==> s[j] != s[k]
    ensures RemoveFirst(s, x) == Filter(s, OtherThan(x))
  {
    if x in s {
      var k :| 0 <= k < |s| && s[k] == x;
      RemoveFirstAt(s, k);
      FilterIsRemoveAt(s, k, OtherThan(x));
    } else {
      RemoveFirstAbsent(s, x);
      FilterIdentity(s, OtherThan(x));
    }
  }

  /** One removal keeps what two lists have in common in one order. */
  lemma RemovalKeepsOrder<T>(s: seq<T>, t: seq<T>, x: T)
    requires Filter(t, On(s)) == Filter(s, On(t)) && forall j, k :: 0 <= j < k < |t| ==> t[j] != t[k]
    ensures Filter(RemoveFirst(t, x), On(s)) == Filter(s, On(RemoveFirst(t, x)))
  {
    RemovedMembers(t, x);
    RemovedIsFilter(t, x);
    var both := (y: T) => y in s && y != x;
    FilterFilter(t, OtherThan(x), On(s), both);
    FilterFilter(t, On(s), OtherThan(x), both);
    FilterFilter(s, On(t), OtherThan(x), On(RemoveFirst(t, x)));
  }

  lemma AdditionKeepsOrder<T>(s: seq<T>, t: seq<T>, x: T)
    requires Filter(t, On(s)) == Filter(s, On(t)) && x !in s
    ensures Filter(t + [x], On(s)) == Filter(s, On(t + [x]))
  {
    FilterAppend(t, [x], On(s));
    FilterCongruence(s, On(t), On(t + [x]));
    assert Filter([x], On(s)) == [];
    assert Filter(t, On(s)) + [] == Filter(t, On(s));
  }

  /** The interfaces that two moments of a run have in common are listed in the same order at both. */
  lemma {:induction false} OrderIsKept<T>(fleets: seq<Fleet<T>>, events: seq<Event<T>>, j: nat, k: nat)
    requires Run(fleets, events) && j <= k < |fleets|
    ensures Filter(fleets[k].list, On(fleets[j].list)) == Filter(fleets[j].list, On(fleets[k].list))
    decreases k
  {
    if j < k {
      var s, f, e := fleets[j].list, fleets[k - 1], events[k - 1];
      OrderIsKept(fleets, events, j, k - 1);
      SoundThroughout(fleets, events, k - 1);
      if e.Start? {
        NewToEarlierLists(fleets, events, e.i, j, k - 1);
        AdditionKeepsOrder(s, f.list, e.i);
      } else if e.Unlist? {
        RemovalKeepsOrder(s, f.list, e.i);
      } else {
        assert fleets[k].list == f.list;
      }
    }
  }

  lemma NewToEarlierLists<T>(fleets: seq<Fleet<T>>, events: seq<Event<T>>, i: T, j: nat, k: nat)
    requires Run(fleets, events) && j <= k < |fleets| && i !in fleets[k].members
    ensures i !in fleets[j].list
  {
    MembersStay(fleets, events, i, j, k);
    SoundThroughout(fleets, events, j);
  }

  /** Once closed, always closed: no later event changes the state of a closed interface, and its channel stays closed. */
  lemma {:induction false} ClosedIsForEver<T>(fleets: seq<Fleet<T>>, events: seq<Event<T>>, i: T, j: nat, k: nat)
    requires Run(fleets, events) && j <= k < |fleets|
    requires i in fleets[j].members && fleets[j].members[i].state == Closed
    ensures i in fleets[k].members && fleets[k].members[i].state == Closed
    ensures fleets[j].members[i].closed ==> fleets[k].members[i] == fleets[j].members[i]
    decreases k
  {
    if j < k {
      ClosedIsForEver(fleets, events, i, j, k - 1);
      SoundThroughout(fleets, events, k - 1);
      ClosedStays(fleets[k - 1], events[k - 1], i);
    }
  }

  lemma ClosedStays<T>(f: Fleet<T>, e: Event<T>, i: T)
    requires Sound(f) && Enabled(f, e) && i in f.members && f.members[i].state == Closed
    ensures i in Step(f, e).members && Step(f, e).members[i].state == Closed
    ensures f.members[i].closed ==> Step(f, e).members[i] == f.members[i]
  {
  }

  /** A request is honoured exactly when it asks for down and the interface is not closed, or for closed and it is; for
      up it never is. */
  lemma RequestHonouredIff<T>(fleets: seq<Fleet<T>>, events: seq<Event<T>>, i: T, want: DeviceState)
    requires Run(fleets, events) && Enabled(fleets[|events|], ChangeTo(i, want))
    ensures Step(fleets[|events|], ChangeTo(i, want)).members[i].state == want <==>
            if CloseCalled(events, i) then want == Closed else want == Down
  {
    SoundThroughout(fleets, events, |events|);
    ClosedIffCloseCalled(fleets, events, i);
  }
}
