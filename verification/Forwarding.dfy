/** The MAC table, which maps a hardware address to tunnel endpoints, and the static route table. */
module Forwarding {
  import opened Addresses
  import opened Sequences

  // ---------------------------------------------------------------- MAC table

  datatype MacEntry = MacEntry(mac: Mac, dst: Addr, permanent: bool)

  type MacTable = seq<MacEntry>

  predicate SamePair(e: MacEntry, mac: Mac, dst: Addr) {
    e.mac == mac && e.dst == dst
  }

  /** No (hardware address, endpoint) pair is entered twice. */
  ghost predicate UniquePairs(t: MacTable) {
    forall i, j :: 0 <= i < j < |t| ==> !SamePair(t[j], t[i].mac, t[i].dst)
  }

  predicate HasPair(t: MacTable, mac: Mac, dst: Addr) {
    exists i :: 0 <= i < |t| && SamePair(t[i], mac, dst)
  }

  /** AddMACEntry: a pair that is already entered, permanent or not, is an error and changes nothing. */
  function AddMac(t: MacTable, mac: Mac, dst: Addr, permanent: bool): MacTable {
    if HasPair(t, mac, dst) then t else t + [MacEntry(mac, dst, permanent)]
  }

  function OtherPair(mac: Mac, dst: Addr): MacEntry -> bool {
    (e: MacEntry) => !SamePair(e, mac, dst)
  }

  function RemoveMac(t: MacTable, mac: Mac, dst: Addr): MacTable {
    Filter(t, OtherPair(mac, dst))
  }

  function PermanentMac(): MacEntry -> bool {
    (e: MacEntry) => e.permanent
  }

  lemma {:induction false} FilterKeepsPairsUnique(t: MacTable, keep: MacEntry -> bool)
    requires UniquePairs(t)
    ensures UniquePairs(Filter(t, keep))
  {
    if t != [] {
      var rest := Filter(t[1..], keep);
      FilterKeepsPairsUnique(t[1..], keep);
      FilterMembers(t[1..], keep);
      forall j | 0 <= j < |rest| ensures !SamePair(rest[j], t[0].mac, t[0].dst) {
        assert rest[j] in rest;
      }
    }
  }

  /** Adding a new pair and removing it again restores the table, entry for entry. */
  lemma AddThenRemoveRestores(t: MacTable, mac: Mac, dst: Addr, permanent: bool)
    requires !HasPair(t, mac, dst)
    ensures UniquePairs(t) ==> UniquePairs(AddMac(t, mac, dst, permanent))
    ensures HasPair(AddMac(t, mac, dst, permanent), mac, dst)
    ensures RemoveMac(AddMac(t, mac, dst, permanent), mac, dst) == t
  {
    var added := AddMac(t, mac, dst, permanent);
    assert SamePair(added[|t|], mac, dst);
    FilterAppend(t, [MacEntry(mac, dst, permanent)], OtherPair(mac, dst));
    FilterIdentity(t, OtherPair(mac, dst));
  }

  // ---------------------------------------------------------------- endpoint choice

  function ForController(): MacEntry -> bool {
    (e: MacEntry) => e.mac == CONTROLLER
  }

  /** A direct match; an entry under the controller's address is never one. */
  function ForMac(mac: Mac): MacEntry -> bool {
    (e: MacEntry) => e.mac != CONTROLLER && e.mac == mac
  }

  function Endpoints(t: MacTable): seq<Addr> {
    if t == [] then [] else [t[0].dst] + Endpoints(t[1..])
  }

  lemma {:induction false} EndpointsAppend(s: MacTable, t: MacTable)
    ensures Endpoints(s + t) == Endpoints(s) + Endpoints(t)
  {
    if s == [] {
      assert s + t == t;
    } else {
      assert (s + t)[1..] == s[1..] + t;
      EndpointsAppend(s[1..], t);
    }
  }

  lemma {:induction false} EndpointsMember(t: MacTable, d: Addr)
    ensures d in Endpoints(t) <==> exists e :: e in t && e.dst == d
    ensures |Endpoints(t)| == |t|
  {
    if t != [] {
      EndpointsMember(t[1..], d);
      if d in Endpoints(t) && t[0].dst != d {
        var e :| e in t[1..] && e.dst == d;
        assert e in t;
      }
    }
  }

  /** The element a random index drawn below the length selects. */
  function Pick(s: seq<Addr>, roll: nat): Addr
    requires s != []
  {
    s[roll % |s|]
  }

  function DestinationFor(t: MacTable, mac: Mac, roll: nat): Option<Addr> {
    var matches := Endpoints(Filter(t, ForMac(mac)));
    var controllers := Endpoints(Filter(t, ForController()));
    if matches != [] then Some(Pick(matches, roll))
    else if controllers != [] then Some(Pick(controllers, roll))
    else None
  }

  /** GetDestinationFor, with the random draw as a parameter. */
  method GetDestinationFor(t: MacTable, mac: Mac, roll: nat) returns (dst: Option<Addr>)
    ensures dst == DestinationFor(t, mac, roll)
  {
    var controllers: seq<Addr>, matches: seq<Addr> := [], [];
    var n := 0;
    while n < |t|
      invariant 0 <= n <= |t|
      invariant controllers == Endpoints(Filter(t[..n], ForController()))
      invariant matches == Endpoints(Filter(t[..n], ForMac(mac)))
    {
      var ent := t[n];
      assert t[..n + 1] == t[..n] + [ent];
      FilterAppend(t[..n], [ent], ForController());
      FilterAppend(t[..n], [ent], ForMac(mac));
      EndpointsAppend(Filter(t[..n], ForController()), Filter([ent], ForController()));
      EndpointsAppend(Filter(t[..n], ForMac(mac)), Filter([ent], ForMac(mac)));
      if ent.mac == CONTROLLER {
        controllers := controllers + [ent.dst];
      } else if ent.mac == mac {
        matches := matches + [ent.dst];
      }
      n := n + 1;
    }
    assert t[..n] == t;
    if |matches| != 0 {
      return Some(Pick(matches, roll));
    }
    if |controllers| != 0 {
      return Some(Pick(controllers, roll));
    }
    return None;
  }

  ghost predicate DirectMatch(t: MacTable, mac: Mac, d: Addr) {
    mac != CONTROLLER && exists e :: e in t && e.mac == mac && e.dst == d
  }

  ghost predicate ControllerMatch(t: MacTable, d: Addr) {
    exists e :: e in t && e.mac == CONTROLLER && e.dst == d
  }

  /** Can a frame for this hardware address be sent anywhere? */
  predicate Reachable(t: MacTable, mac: Mac) {
    exists e :: e in t && (e.mac == mac || e.mac == CONTROLLER)
  }

  /** Whatever is drawn: a direct match when there is one, else a controller, else nothing. */
  lemma DestinationIsDirectElseController(t: MacTable, mac: Mac, roll: nat)
    ensures var r := DestinationFor(t, mac, roll);
      && (r.Some? <==> Reachable(t, mac))
      && ((exists d :: DirectMatch(t, mac, d)) ==> r.Some? && DirectMatch(t, mac, r.value))
      && (r.Some? && !(exists d :: DirectMatch(t, mac, d)) ==> ControllerMatch(t, r.value))
  {
    var direct, controllers := Filter(t, ForMac(mac)), Filter(t, ForController());
    FilterMembers(t, ForMac(mac));
    FilterMembers(t, ForController());
    forall d ensures (d in Endpoints(direct) <==> DirectMatch(t, mac, d)) && (d in Endpoints(controllers) <==> ControllerMatch(t, d)) {
      EndpointsMember(direct, d);
      EndpointsMember(controllers, d);
    }
    if Endpoints(direct) != [] {
      assert Endpoints(direct)[0] in Endpoints(direct);
      assert Pick(Endpoints(direct), roll) in Endpoints(direct);
    } else if Endpoints(controllers) != [] {
      assert Pick(Endpoints(controllers), roll) in Endpoints(controllers);
    }
    forall e | e in t && (e.mac == mac || e.mac == CONTROLLER) ensures DirectMatch(t, mac, e.dst) || ControllerMatch(t, e.dst) {
    }
  }

  lemma ModuloOfSmaller(k: nat, n: nat)
    requires k < n
    ensures k % n == k
  {
  }

  /** Every direct match can be drawn: no endpoint of a hardware address is starved. */
  lemma EveryDirectMatchIsDrawn(t: MacTable, mac: Mac, d: Addr)
    requires DirectMatch(t, mac, d)
    ensures exists roll: nat :: DestinationFor(t, mac, roll) == Some(d)
  {
    var direct := Filter(t, ForMac(mac));
    FilterMembers(t, ForMac(mac));
    EndpointsMember(direct, d);
    var matches := Endpoints(direct);
    assert d in matches;
    var roll :| 0 <= roll < |matches| && matches[roll] == d;
    ModuloOfSmaller(roll, |matches|);
    assert DestinationFor(t, mac, roll) == Some(Pick(matches, roll));
  }

  /** Nor is any default endpoint, as long as there is no direct match. */
  lemma EveryControllerIsDrawn(t: MacTable, mac: Mac, d: Addr)
    requires ControllerMatch(t, d) && forall a :: !DirectMatch(t, mac, a)
    ensures exists roll: nat :: DestinationFor(t, mac, roll) == Some(d)
  {
    var direct, controllers := Filter(t, ForMac(mac)), Filter(t, ForController());
    FilterMembers(t, ForMac(mac));
    FilterMembers(t, ForController());
    if direct != [] {
      assert direct[0] in direct && DirectMatch(t, mac, direct[0].dst);
    }
    EndpointsMember(controllers, d);
    var endpoints := Endpoints(controllers);
    assert d in endpoints;
    var roll :| 0 <= roll < |endpoints| && endpoints[roll] == d;
    ModuloOfSmaller(roll, |endpoints|);
    assert DestinationFor(t, mac, roll) == Some(Pick(endpoints, roll));
  }

  // ---------------------------------------------------------------- routes

  datatype Route = Route(destination: Prefix, gateway: Addr, metric: int, permanent: bool)

  type RouteTable = seq<Route>

  /** math.MaxInt on a 64-bit platform. */
  const MAX_INT: int := 0x7FFF_FFFF_FFFF_FFFF

  const DEFAULT_METRIC: int := 256

  /** A route that GetGateway can choose for the address. */
  predicate Eligible(r: Route, a: Addr) {
    Contains(r.destination, a) && r.metric < MAX_INT
  }

  function EligibleFor(a: Addr): Route -> bool {
    (r: Route) => Eligible(r, a)
  }

  /** The first route of least metric among the acceptable ones, by recursion on the last route. */
  function BestRoute(t: RouteTable, ok: Route -> bool): Option<Route> {
    if t == [] then None
    else
      var r, best := t[|t| - 1], BestRoute(t[..|t| - 1], ok);
      if ok(r) && (best.Some? ==> r.metric < best.value.metric) then Some(r) else best
  }

  function GatewayFor(t: RouteTable, a: Addr): Option<Addr> {
    var best := BestRoute(t, EligibleFor(a));
    if best.Some? then Some(best.value.gateway) else None
  }

  /** GetGateway: one pass that overwrites its candidate on a strictly smaller metric. */
  method GetGateway(t: RouteTable, destination: Addr) returns (gateway: Option<Addr>)
    ensures gateway == GatewayFor(t, destination)
  {
    var metric := MAX_INT;
    gateway := None;
    var n := 0;
    while n < |t|
      invariant 0 <= n <= |t|
      invariant var best := BestRoute(t[..n], EligibleFor(destination));
        && gateway == (if best.Some? then Some(best.value.gateway) else None)
        && metric == (if best.Some? then best.value.metric else MAX_INT)
      invariant metric <= MAX_INT
    {
      assert t[..n + 1][..n] == t[..n];
      if Contains(t[n].destination, destination) && t[n].metric < metric {
        gateway := Some(t[n].gateway);
        metric := t[n].metric;
      }
      n := n + 1;
    }
    assert t[..n] == t;
  }

  /** The chosen route, by position: acceptable, no acceptable route is better, and every earlier one is worse. */
  ghost predicate IsFirstLeast(t: RouteTable, ok: Route -> bool, k: int) {
    && 0 <= k < |t|
    && ok(t[k])
    && (forall j :: 0 <= j < |t| && ok(t[j]) ==> t[k].metric <= t[j].metric)
    && (forall j :: 0 <= j < k && ok(t[j]) ==> t[k].metric < t[j].metric)
  }

  lemma {:induction false} BestRouteIsFirstLeast(t: RouteTable, ok: Route -> bool)
    ensures BestRoute(t, ok).None? <==> forall r :: r in t ==> !ok(r)
    ensures BestRoute(t, ok).Some? ==> exists k :: IsFirstLeast(t, ok, k) && t[k] == BestRoute(t, ok).value
  {
    if t != [] {
      var n := |t| - 1;
      var init, r := t[..n], t[n];
      BestRouteIsFirstLeast(init, ok);
      assert t == init + [r];
      var best := BestRoute(init, ok);
      if best.Some? {
        var k :| IsFirstLeast(init, ok, k) && init[k] == best.value;
        if ok(r) && r.metric < best.value.metric {
          assert IsFirstLeast(t, ok, n);
        } else {
          assert IsFirstLeast(t, ok, k);
        }
      } else {
        forall j | 0 <= j < n ensures !ok(t[j]) {
          assert t[j] in init;
        }
        if ok(r) {
          assert IsFirstLeast(t, ok, n);
        }
      }
    }
  }

  /** The gateway handed out is the one of the first least-metric route that contains the address. */
  lemma GatewayIsOfFirstLeast(t: RouteTable, a: Addr, k: int)
    requires IsFirstLeast(t, EligibleFor(a), k)
    ensures GatewayFor(t, a) == Some(t[k].gateway)
  {
    var ok := EligibleFor(a);
    BestRouteIsFirstLeast(t, ok);
    assert t[k] in t;
    var j :| IsFirstLeast(t, ok, j) && t[j] == BestRoute(t, ok).value;
    assert j == k;
  }

  /** There is none exactly when no route with a metric below the largest integer contains the address. */
  lemma NoGatewayIffNoRoute(t: RouteTable, a: Addr)
    ensures GatewayFor(t, a).None? <==> forall r :: r in t && Contains(r.destination, a) ==> r.metric >= MAX_INT
  {
    BestRouteIsFirstLeast(t, EligibleFor(a));
    forall r ensures EligibleFor(a)(r) <==> Contains(r.destination, a) && r.metric < MAX_INT {
    }
  }

  // ---------------------------------------------------------------- removing routes

  predicate SameRoute(r: Route, destination: Prefix, gateway: Addr) {
    r.destination == destination && r.gateway == gateway
  }

  /** RemoveStaticRoute on the table: the first (destination, gateway) match goes, whatever its permanence. */
  function RemoveRoute(t: RouteTable, destination: Prefix, gateway: Addr): RouteTable {
    if t == [] then []
    else if SameRoute(t[0], destination, gateway) then t[1..]
    else [t[0]] + RemoveRoute(t[1..], destination, gateway)
  }

  lemma {:induction false} RemoveRouteMembers(t: RouteTable, destination: Prefix, gateway: Addr, r: Route)
    requires r in RemoveRoute(t, destination, gateway)
    ensures r in t
  {
    if !SameRoute(t[0], destination, gateway) && r != t[0] {
      RemoveRouteMembers(t[1..], destination, gateway, r);
    }
  }

  /** Is there a permanent route to the same destination and gateway? */
  predicate PermanentTwin(t: RouteTable, r: Route) {
    exists i :: 0 <= i < |t| && t[i].permanent && SameRoute(t[i], r.destination, r.gateway)
  }

  /** What the flush of permanent routes leaves: each permanent route costs every route to the same destination and
      gateway that stands at or before it. */
  function FlushRoutes(t: RouteTable): RouteTable {
    if t == [] then [] else (if PermanentTwin(t, t[0]) then [] else [t[0]]) + FlushRoutes(t[1..])
  }

  function TransientRoute(): Route -> bool {
    (r: Route) => !r.permanent
  }

  lemma {:induction false} RemoveRouteAt(t: RouteTable, destination: Prefix, gateway: Addr, k: nat)
    requires k < |t| && SameRoute(t[k], destination, gateway)
    requires forall j :: 0 <= j < k ==> !SameRoute(t[j], destination, gateway)
    ensures RemoveRoute(t, destination, gateway) == RemoveAt(t, k)
  {
    if k > 0 {
      RemoveRouteAt(t[1..], destination, gateway, k - 1);
      assert RemoveAt(t, k) == [t[0]] + RemoveAt(t[1..], k - 1);
    } else {
      assert RemoveAt(t, 0) == t[1..];
    }
  }

  /** Removing the first route that stands at or before a permanent twin does not change what the flush leaves. */
  lemma {:induction false} FlushAfterRemove(t: RouteTable, r: Route)
    requires PermanentTwin(t, r)
    ensures FlushRoutes(RemoveRoute(t, r.destination, r.gateway)) == FlushRoutes(t)
    ensures |RemoveRoute(t, r.destination, r.gateway)| < |t|
  {
    var shorter := RemoveRoute(t, r.destination, r.gateway);
    if SameRoute(t[0], r.destination, r.gateway) {
      assert FlushRoutes(t) == FlushRoutes(t[1..]);
    } else {
      var rest := t[1..];
      TwinInTail(t, r);
      FlushAfterRemove(rest, r);
      TwinAfterRemove(rest, r, t[0]);
      TwinInCons(t[0], rest, t[0]);
      TwinInCons(t[0], RemoveRoute(rest, r.destination, r.gateway), t[0]);
      assert shorter == [t[0]] + RemoveRoute(rest, r.destination, r.gateway);
      assert t == [t[0]] + rest;
      assert shorter[1..] == RemoveRoute(rest, r.destination, r.gateway);
    }
  }

  lemma TwinInTail(t: RouteTable, r: Route)
    requires PermanentTwin(t, r) && !SameRoute(t[0], r.destination, r.gateway)
    ensures PermanentTwin(t[1..], r)
  {
    var i :| 0 <= i < |t| && t[i].permanent && SameRoute(t[i], r.destination, r.gateway);
    assert t[1..][i - 1] == t[i];
  }

  lemma TwinInCons(head: Route, rest: RouteTable, r: Route)
    ensures PermanentTwin([head] + rest, r) <==>
            (head.permanent && SameRoute(head, r.destination, r.gateway)) || PermanentTwin(rest, r)
  {
    var t := [head] + rest;
    if PermanentTwin(t, r) {
      var i :| 0 <= i < |t| && t[i].permanent && SameRoute(t[i], r.destination, r.gateway);
      assert i > 0 ==> rest[i - 1] == t[i];
    }
    if PermanentTwin(rest, r) {
      var i :| 0 <= i < |rest| && rest[i].permanent && SameRoute(rest[i], r.destination, r.gateway);
      assert t[i + 1] == rest[i];
    }
    if head.permanent && SameRoute(head, r.destination, r.gateway) {
      assert t[0] == head;
    }
  }

  /** Removing a route leaves the twins of a route to somewhere else. */
  lemma {:induction false} TwinAfterRemove(t: RouteTable, r: Route, other: Route)
    requires !SameRoute(other, r.destination, r.gateway)
    ensures PermanentTwin(RemoveRoute(t, r.destination, r.gateway), other) <==> PermanentTwin(t, other)
  {
    if t != [] {
      assert t == [t[0]] + t[1..];
      TwinInCons(t[0], t[1..], other);
      if !SameRoute(t[0], r.destination, r.gateway) {
        TwinAfterRemove(t[1..], r, other);
        TwinInCons(t[0], RemoveRoute(t[1..], r.destination, r.gateway), other);
      }
    }
  }

  lemma {:induction false} FlushOfTransient(t: RouteTable)
    requires forall r :: r in t ==> !r.permanent
    ensures FlushRoutes(t) == t
  {
    if t != [] {
      FlushOfTransient(t[1..]);
    }
  }

  /** The flush loop of ApplyConfig, with the removal succeeding: find a permanent route, remove by destination and
      gateway, and start over. */
  method FlushPermanentRoutes(t: RouteTable) returns (rest: RouteTable)
    ensures rest == FlushRoutes(t)
  {
    rest := t;
    var found := true;
    while found
      invariant FlushRoutes(rest) == FlushRoutes(t)
      invariant !found ==> forall r :: r in rest ==> !r.permanent
      decreases |rest|, found
    {
      found := false;
      var n := 0;
      while n < |rest|
        invariant 0 <= n <= |rest|
        invariant !found
        invariant forall j :: 0 <= j < n ==> !rest[j].permanent
      {
        var ent := rest[n];
        if ent.permanent {
          found := true;
          assert PermanentTwin(rest, ent);
          FlushAfterRemove(rest, ent);
          rest := RemoveRoute(rest, ent.destination, ent.gateway);
          break;
        }
        n := n + 1;
      }
    }
    FlushOfTransient(rest);
  }

  /** The flush leaves a route exactly when no permanent route to the same destination and gateway stands at or
      after it; in particular no permanent route survives. */
  lemma {:induction false} FlushLeavesNoPermanent(t: RouteTable, r: Route)
    requires r in FlushRoutes(t)
    ensures r in t && !r.permanent
  {
    assert t[0].permanent ==> PermanentTwin(t, t[0]);
    if r in FlushRoutes(t[1..]) {
      FlushLeavesNoPermanent(t[1..], r);
    }
  }

  /** A transient route that a permanent route shadows: same destination and gateway, at or after it. */
  ghost predicate Shadowed(t: RouteTable, k: nat) {
    k < |t| && !t[k].permanent && PermanentTwin(t[k..], t[k])
  }

  /** The flush removes the permanent routes and nothing else exactly when no transient route is shadowed. */
  lemma {:induction false} FlushIsExactIffUnshadowed(t: RouteTable)
    ensures FlushRoutes(t) == Filter(t, TransientRoute()) <==> forall k :: 0 <= k < |t| ==> !Shadowed(t, k)
  {
    if t != [] {
      var rest := t[1..];
      FlushIsExactIffUnshadowed(rest);
      FlushIsNoLonger(rest);
      assert t[0..] == t;
      assert t[0].permanent ==> PermanentTwin(t, t[0]);
      forall k | 0 <= k < |rest| ensures Shadowed(rest, k) <==> Shadowed(t, k + 1) {
        assert rest[k..] == t[k + 1..];
      }
      assert Shadowed(t, 0) <==> !t[0].permanent && PermanentTwin(t, t[0]);
      if forall k :: 0 <= k < |t| ==> !Shadowed(t, k) {
        forall k | 0 <= k < |rest| ensures !Shadowed(rest, k) {
          assert !Shadowed(t, k + 1);
        }
      } else {
        var k :| 0 <= k < |t| && Shadowed(t, k);
        if PermanentTwin(t, t[0]) && !t[0].permanent {
          assert |FlushRoutes(t)| < |Filter(t, TransientRoute())|;
        } else {
          assert t[k..] == rest[k - 1..];
          assert Shadowed(rest, k - 1);
          var kept := if t[0].permanent then [] else [t[0]];
          assert FlushRoutes(t) == kept + FlushRoutes(rest);
          assert Filter(t, TransientRoute()) == kept + Filter(rest, TransientRoute());
          assert (kept + FlushRoutes(rest))[|kept|..] == FlushRoutes(rest);
          assert (kept + Filter(rest, TransientRoute()))[|kept|..] == Filter(rest, TransientRoute());
        }
      }
    }
  }

  lemma {:induction false} FlushIsNoLonger(t: RouteTable)
    ensures |FlushRoutes(t)| <= |Filter(t, TransientRoute())|
  {
    if t != [] {
      FlushIsNoLonger(t[1..]);
      assert t[0].permanent ==> PermanentTwin(t, t[0]);
    }
  }
}
