/** When the flush of permanent routes ends. ApplyConfig holds the table lock during its scans, and RemoveStaticRoute asks
    for the same lock, asks the device, and changes the table only when the device agrees; the scan starts over either
    way. */
module Flushing {
  import opened Addresses
  import opened Forwarding
  import opened Sequences

  /** Scanning the table, inside RemoveStaticRoute for a route, or through. */
  datatype Phase = Scanning | Removing(route: Route) | Through

  datatype Flush = Flush(routes: RouteTable, phase: Phase)

  /** The first permanent route. */
  function FirstPermanent(t: RouteTable): (r: Option<Route>)
    ensures r.Some? ==> r.value in t && r.value.permanent
    ensures r.None? <==> forall x :: x in t ==> !x.permanent
  {
    if t == [] then None else if t[0].permanent then Some(t[0]) else FirstPermanent(t[1..])
  }

  /** One step; `again` says whether the holder of a lock gets it once more. Where nothing can happen, nothing does. */
  function Step(s: Flush, again: bool, removable: (Prefix, Addr) -> bool): Flush {
    match s.phase
    case Scanning =>
      var r := FirstPermanent(s.routes);
      s.(phase := if r.Some? then Removing(r.value) else Through)
    case Removing(r) =>
      if !again then s
      else if removable(r.destination, r.gateway) then Flush(RemoveRoute(s.routes, r.destination, r.gateway), Scanning)
      else s.(phase := Scanning)
    case Through => s
  }

  function Steps(s: Flush, again: bool, removable: (Prefix, Addr) -> bool, n: nat): Flush
    decreases n
  {
    if n == 0 then s else Steps(Step(s, again, removable), again, removable, n - 1)
  }

  ghost predicate Ends(t: RouteTable, again: bool, removable: (Prefix, Addr) -> bool) {
    exists n: nat :: Steps(Flush(t, Scanning), again, removable, n).phase.Through?
  }

  /** Removing the route works: the lock can be had and the device agrees. */
  predicate Removable(r: Route, again: bool, removable: (Prefix, Addr) -> bool) {
    again && removable(r.destination, r.gateway)
  }

  // ---------------------------------------------------------------- it ends

  lemma {:induction false} EndsWhenRemovable(t: RouteTable, again: bool, removable: (Prefix, Addr) -> bool)
    requires forall r :: r in t && r.permanent ==> Removable(r, again, removable)
    ensures Ends(t, again, removable)
    decreases |t|
  {
    var s, r := Flush(t, Scanning), FirstPermanent(t);
    if r.None? {
      assert Steps(s, again, removable, 1) == Steps(Step(s, again, removable), again, removable, 0);
    } else {
      var rest := RemoveRoute(t, r.value.destination, r.value.gateway);
      var i :| 0 <= i < |t| && t[i] == r.value;
      FlushAfterRemove(t, r.value);
      forall x | x in rest ensures x in t {
        RemoveRouteMembers(t, r.value.destination, r.value.gateway, x);
      }
      EndsWhenRemovable(rest, again, removable);
      var n: nat :| Steps(Flush(rest, Scanning), again, removable, n).phase.Through?;
      TwoSteps(s, again, removable, n);
      assert Steps(s, again, removable, n + 2).phase.Through?;
    }
  }

  lemma TwoSteps(s: Flush, again: bool, removable: (Prefix, Addr) -> bool, n: nat)
    ensures Steps(s, again, removable, n + 2) == Steps(Step(Step(s, again, removable), again, removable), again, removable, n)
  {
  }

  // ---------------------------------------------------------------- it does not

  /** A permanent route that cannot be removed is still there, and the flush is not through. */
  ghost predicate Held(s: Flush, r: Route, again: bool, removable: (Prefix, Addr) -> bool) {
    r in s.routes && r.permanent && !Removable(r, again, removable) && !s.phase.Through?
  }

  /** Removing a route leaves those to anywhere else. */
  lemma {:induction false} RemoveRouteLeaves(t: RouteTable, destination: Prefix, gateway: Addr, r: Route)
    requires r in t && !SameRoute(r, destination, gateway)
    ensures r in RemoveRoute(t, destination, gateway)
  {
    if !SameRoute(t[0], destination, gateway) && r != t[0] {
      RemoveRouteLeaves(t[1..], destination, gateway, r);
    }
  }

  lemma StepHolds(s: Flush, r: Route, again: bool, removable: (Prefix, Addr) -> bool)
    requires Held(s, r, again, removable)
    ensures Held(Step(s, again, removable), r, again, removable)
  {
    if s.phase.Removing? && Removable(s.phase.route, again, removable) {
      RemoveRouteLeaves(s.routes, s.phase.route.destination, s.phase.route.gateway, r);
    }
  }

  lemma {:induction false} NeverEnds(s: Flush, r: Route, again: bool, removable: (Prefix, Addr) -> bool, n: nat)
    requires Held(s, r, again, removable)
    ensures !Steps(s, again, removable, n).phase.Through?
    decreases n
  {
    if n > 0 {
      StepHolds(s, r, again, removable);
      NeverEnds(Step(s, again, removable), r, again, removable, n - 1);
    }
  }

  // ---------------------------------------------------------------- the theorem

  /** The flush ends exactly when every permanent route can be removed. */
  lemma EndsIff(t: RouteTable, again: bool, removable: (Prefix, Addr) -> bool)
    ensures Ends(t, again, removable) <==> forall r :: r in t && r.permanent ==> Removable(r, again, removable)
  {
    if r :| r in t && r.permanent && !Removable(r, again, removable) {
      forall n: nat ensures !Steps(Flush(t, Scanning), again, removable, n).phase.Through? {
        NeverEnds(Flush(t, Scanning), r, again, removable, n);
      }
    } else {
      EndsWhenRemovable(t, again, removable);
    }
  }

  /** The lock of the program is not given twice: its flush ends exactly when there was nothing to flush. */
  lemma LockedEndsIff(t: RouteTable, removable: (Prefix, Addr) -> bool)
    ensures Ends(t, false, removable) <==> forall r :: r in t ==> !r.permanent
  {
    EndsIff(t, false, removable);
  }

  /** What a step leaves to flush: the same, and a route in hand is a permanent one of the table. */
  ghost predicate OnCourse(s: Flush, t: RouteTable) {
    && FlushRoutes(s.routes) == FlushRoutes(t)
    && (s.phase.Removing? ==> s.phase.route in s.routes && s.phase.route.permanent)
    && (s.phase.Through? ==> FirstPermanent(s.routes).None?)
  }

  lemma {:induction false} StaysOnCourse(s: Flush, t: RouteTable, again: bool, removable: (Prefix, Addr) -> bool, n: nat)
    requires OnCourse(s, t)
    ensures OnCourse(Steps(s, again, removable, n), t)
    decreases n
  {
    if n > 0 {
      if s.phase.Removing? && Removable(s.phase.route, again, removable) {
        var i :| 0 <= i < |s.routes| && s.routes[i] == s.phase.route;
        FlushAfterRemove(s.routes, s.phase.route);
      }
      StaysOnCourse(Step(s, again, removable), t, again, removable, n - 1);
    }
  }

  /** Whenever it ends it has done the flush, whatever the device refused on the way. */
  lemma EndsFlushed(t: RouteTable, again: bool, removable: (Prefix, Addr) -> bool, n: nat)
    requires Steps(Flush(t, Scanning), again, removable, n).phase.Through?
    ensures Steps(Flush(t, Scanning), again, removable, n).routes == FlushRoutes(t)
  {
    StaysOnCourse(Flush(t, Scanning), t, again, removable, n);
    FlushOfTransient(Steps(Flush(t, Scanning), again, removable, n).routes);
  }
}
