/** Bringing the kernel's address list of a TUN device in line with a requested list, one netlink call at a time. */
module Device {
  import opened Sequences

  /** A netlink call that changes the device's address list. */
  datatype Call<T> = Del(addr: T) | Add(addr: T)

  /** How far a series of calls got: success or failure, the resulting list, and the calls that took effect. */
  datatype Outcome<T> = Outcome(ok: bool, addresses: seq<T>, performed: seq<Call<T>>)

  function In<T(==)>(s: seq<T>): T -> bool {
    (p: T) => p in s
  }

  function NotIn<T(==)>(s: seq<T>): T -> bool {
    (p: T) => p !in s
  }

  function Except<T(==)>(q: T): T -> bool {
    (p: T) => p != q
  }

  /** The kernel deletes only an address it lists and adds only one it does not. */
  predicate Allowed<T(==)>(device: seq<T>, call: Call<T>) {
    call.Del? <==> call.addr in device
  }

  function Perform<T(==)>(device: seq<T>, call: Call<T>): seq<T> {
    match call
    case Del(p) => Filter(device, Except(p))
    case Add(p) => device + [p]
  }

  /** Run calls in order until one fails: the kernel refuses it, or it is the first beyond the budget. */
  function Exec<T(==)>(device: seq<T>, calls: seq<Call<T>>, budget: nat): Outcome<T>
    decreases budget
  {
    if calls == [] then Outcome(true, device, [])
    else if budget == 0 || !Allowed(device, calls[0]) then Outcome(false, device, [])
    else After([calls[0]], Exec(Perform(device, calls[0]), calls[1..], budget - 1))
  }

  function After<T(==)>(performed: seq<Call<T>>, o: Outcome<T>): Outcome<T> {
    Outcome(o.ok, o.addresses, performed + o.performed)
  }

  function Dels<T(==)>(s: seq<T>): seq<Call<T>> {
    if s == [] then [] else [Del(s[0])] + Dels(s[1..])
  }

  function Adds<T(==)>(s: seq<T>): seq<Call<T>> {
    if s == [] then [] else [Add(s[0])] + Adds(s[1..])
  }

  /** The work list without the last occurrence of p, which is the one a scan without an early exit remembers. */
  function DropLast<T(==)>(s: seq<T>, p: T): seq<T> {
    if s == [] then []
    else if s[|s| - 1] == p then s[..|s| - 1]
    else DropLast(s[..|s| - 1], p) + [s[|s| - 1]]
  }

  /** The work list after the scan of the kernel's list has struck what is already there. */
  function Remaining<T(==)>(kernel: seq<T>, want: seq<T>): seq<T> {
    if kernel == [] then want
    else var n := |kernel| - 1; DropLast(Remaining(kernel[..n], want), kernel[n])
  }

  function Calls<T(==)>(kernel: seq<T>, want: seq<T>): seq<Call<T>> {
    Dels(Filter(kernel, NotIn(want))) + Adds(Remaining(kernel, want))
  }

  /** What setting the addresses does when the call after the first `budget` ones fails. */
  function SetAddresses<T(==)>(kernel: seq<T>, want: seq<T>, budget: nat): Outcome<T> {
    Exec(kernel, Calls(kernel, want), budget)
  }

  // ---------------------------------------------------------------- the work list

  lemma RemoveAtInit<T>(s: seq<T>, k: nat)
    requires k < |s| - 1
    ensures RemoveAt(s, k) == RemoveAt(s[..|s| - 1], k) + [s[|s| - 1]]
  {
    var n := |s| - 1;
    assert s[k + 1..] == s[..n][k + 1..] + [s[n]];
    assert s[..n][..k] == s[..k];
  }

  lemma {:induction false} DropLastAt<T(!new)>(s: seq<T>, p: T, k: nat)
    requires k < |s| && s[k] == p
    requires forall j :: k < j < |s| ==> s[j] != p
    ensures DropLast(s, p) == RemoveAt(s, k)
  {
    var n := |s| - 1;
    if k < n {
      DropLastAt(s[..n], p, k);
      RemoveAtInit(s, k);
    } else {
      assert RemoveAt(s, k) == s[..n];
    }
  }

  lemma {:induction false} DropLastAbsent<T(!new)>(s: seq<T>, p: T)
    requires p !in s
    ensures DropLast(s, p) == s
  {
    if s != [] {
      var n := |s| - 1;
      assert s[n] in s;
      DropLastAbsent(s[..n], p);
      assert s == s[..n] + [s[n]];
    }
  }

  /** Dropping p once leaves the multiplicity of every other address alone. */
  lemma {:induction false} DropLastCounts<T(!new)>(s: seq<T>, p: T)
    ensures multiset(DropLast(s, p)) == multiset(s) - multiset{p}
  {
    if s != [] {
      var n := |s| - 1;
      assert s == s[..n] + [s[n]];
      if s[n] != p {
        DropLastCounts(s[..n], p);
      }
    }
  }

  /** Striking a list of distinct addresses takes each away once. */
  lemma {:induction false} RemainingCounts<T(!new)>(kernel: seq<T>, want: seq<T>)
    ensures multiset(Remaining(kernel, want)) == multiset(want) - multiset(kernel)
  {
    if kernel != [] {
      var n := |kernel| - 1;
      assert kernel == kernel[..n] + [kernel[n]];
      RemainingCounts(kernel[..n], want);
      DropLastCounts(Remaining(kernel[..n], want), kernel[n]);
    }
  }

  /** The next address of the kernel's list is still on the work list exactly when it was requested. */
  lemma StillListed<T(!new)>(kernel: seq<T>, want: seq<T>, n: nat)
    requires n < |kernel| && Distinct(kernel)
    ensures kernel[n] in Remaining(kernel[..n], want) <==> kernel[n] in want
  {
    RemainingCounts(kernel[..n], want);
    assert kernel[n] !in kernel[..n];
    assert kernel[n] !in multiset(kernel[..n]);
    assert kernel[n] in Remaining(kernel[..n], want) <==> kernel[n] in multiset(Remaining(kernel[..n], want));
    assert kernel[n] in want <==> kernel[n] in multiset(want);
  }

  // ---------------------------------------------------------------- the method

  lemma DelsCons<T(!new)>(p: T, s: seq<T>, calls: seq<Call<T>>)
    ensures Dels([p] + s) + calls == [Del(p)] + (Dels(s) + calls)
  {
    assert ([p] + s)[1..] == s;
  }

  lemma AddsCons<T(!new)>(p: T, s: seq<T>)
    ensures Adds([p] + s) == [Add(p)] + Adds(s)
  {
    assert ([p] + s)[1..] == s;
  }

  lemma AfterAfter<T(!new)>(a: seq<Call<T>>, b: seq<Call<T>>, o: Outcome<T>)
    ensures After(a, After(b, o)) == After(a + b, o)
  {
    assert a + (b + o.performed) == a + b + o.performed;
  }

  /** Having performed some calls, with `calls` still to come, we are on the way to `goal`. */
  ghost predicate OnTheWay<T(!new)>(goal: Outcome<T>, performed: seq<Call<T>>, device: seq<T>, calls: seq<Call<T>>, budget: nat) {
    |performed| <= budget && goal == After(performed, Exec(device, calls, budget - |performed|))
  }

  lemma StepOn<T(!new)>(goal: Outcome<T>, performed: seq<Call<T>>, device: seq<T>, call: Call<T>, rest: seq<Call<T>>, budget: nat)
    requires OnTheWay(goal, performed, device, [call] + rest, budget)
    ensures |performed| < budget && Allowed(device, call) ==> OnTheWay(goal, performed + [call], Perform(device, call), rest, budget)
    ensures |performed| == budget || !Allowed(device, call) ==> goal == Outcome(false, device, performed)
  {
    assert ([call] + rest)[1..] == rest;
    if |performed| < budget && Allowed(device, call) {
      AfterAfter(performed, [call], Exec(Perform(device, call), rest, budget - |performed| - 1));
    }
  }

  /** The inner scan: the last position of an address on the work list, or -1. */
  method LastPosition<T(!new, ==)>(setAddr: seq<T>, address: T) returns (found: int)
    ensures found == -1 ==> address !in setAddr
    ensures found != -1 ==> 0 <= found < |setAddr| && setAddr[found] == address
    ensures forall j :: found < j < |setAddr| ==> setAddr[j] != address
  {
    found := -1;
    var i := 0;
    while i < |setAddr|
      invariant 0 <= i <= |setAddr|
      invariant -1 <= found < i
      invariant found >= 0 ==> setAddr[found] == address
      invariant forall j :: found < j < i ==> setAddr[j] != address
    {
      if setAddr[i] == address {
        found := i;
      }
      i := i + 1;
    }
  }

  /** The deletions still to come when the scan stands at n. */
  function DelsFrom<T(==)>(kernel: seq<T>, n: nat, want: seq<T>): seq<Call<T>>
    requires n <= |kernel|
  {
    Dels(Filter(kernel[n..], NotIn(want)))
  }

  lemma DelsFromStep<T(!new)>(kernel: seq<T>, n: nat, want: seq<T>, tail: seq<Call<T>>)
    requires n < |kernel|
    ensures DelsFrom(kernel, n, want) + tail ==
            (if kernel[n] in want then [] else [Del(kernel[n])]) + (DelsFrom(kernel, n + 1, want) + tail)
  {
    assert kernel[n..] == [kernel[n]] + kernel[n + 1..];
    var later := Filter(kernel[n + 1..], NotIn(want));
    if kernel[n] in want {
      assert [] + later == later;
    } else {
      DelsCons(kernel[n], later, tail);
    }
  }

  lemma ScanStarts<T(!new)>(kernel: seq<T>, want: seq<T>, budget: nat)
    ensures OnTheWay(SetAddresses(kernel, want, budget), [], kernel, DelsFrom(kernel, 0, want) + Adds(Remaining(kernel, want)), budget)
    ensures Remaining(kernel[..0], want) == want
  {
    assert kernel[0..] == kernel;
    assert [] + SetAddresses(kernel, want, budget).performed == SetAddresses(kernel, want, budget).performed;
  }

  lemma ScanEnds<T(!new)>(kernel: seq<T>, want: seq<T>, tail: seq<Call<T>>)
    ensures DelsFrom(kernel, |kernel|, want) + tail == tail
    ensures Remaining(kernel[..|kernel|], want) == Remaining(kernel, want)
  {
    assert kernel[..|kernel|] == kernel;
  }

  /** What looking at one listed address brings. */
  lemma ScanStep<T(!new)>(goal: Outcome<T>, performed: seq<Call<T>>, device: seq<T>, kernel: seq<T>, want: seq<T>, n: nat, tail: seq<Call<T>>, budget: nat)
    requires n < |kernel| && kernel[n] in device
    requires OnTheWay(goal, performed, device, DelsFrom(kernel, n, want) + tail, budget)
    ensures var later := DelsFrom(kernel, n + 1, want) + tail;
      if kernel[n] in want then OnTheWay(goal, performed, device, later, budget)
      else if |performed| == budget then goal == Outcome(false, device, performed)
      else OnTheWay(goal, performed + [Del(kernel[n])], Filter(device, Except(kernel[n])), later, budget)
  {
    var later := DelsFrom(kernel, n + 1, want) + tail;
    DelsFromStep(kernel, n, want, tail);
    if kernel[n] in want {
      assert [] + later == later;
    } else {
      StepOn(goal, performed, device, Del(kernel[n]), later, budget);
    }
  }

  /** SetIPAddresses: scan the kernel's list, deleting what was not requested and striking from the work list what
      was, then add what is left of the work list; the first call that fails ends it. */
  method SetIPAddresses<T(!new, ==)>(kernel: seq<T>, want: seq<T>, budget: nat) returns (o: Outcome<T>)
    requires Distinct(kernel)
    ensures o == SetAddresses(kernel, want, budget)
  {
    var device, performed: seq<Call<T>>, setAddr := kernel, [], want;
    ghost var tail := Adds(Remaining(kernel, want));
    ghost var goal := SetAddresses(kernel, want, budget);
    ScanStarts(kernel, want, budget);
    var n := 0;
    while n < |kernel|
      invariant 0 <= n <= |kernel|
      invariant setAddr == Remaining(kernel[..n], want)
      invariant forall j :: n <= j < |kernel| ==> kernel[j] in device
      invariant OnTheWay(goal, performed, device, DelsFrom(kernel, n, want) + tail, budget)
    {
      var address := kernel[n];
      StillListed(kernel, want, n);
      ScanStep(goal, performed, device, kernel, want, n, tail, budget);
      RemainingStep(kernel, n, want);
      var found := LastPosition(setAddr, address);
      if found == -1 {
        if |performed| == budget {
          return Outcome(false, device, performed);
        }
        StillPresent(kernel, n, device);
        device := Filter(device, Except(address));
        performed := performed + [Del(address)];
        DropLastAbsent(setAddr, address);
      } else {
        DropLastAt(setAddr, address, found);
        setAddr := RemoveAt(setAddr, found);
      }
      n := n + 1;
    }
    ScanEnds(kernel, want, tail);
    o := AddAll(device, setAddr, budget, performed, goal);
  }

  lemma RemainingStep<T(!new)>(kernel: seq<T>, n: nat, want: seq<T>)
    requires n < |kernel|
    ensures Remaining(kernel[..n + 1], want) == DropLast(Remaining(kernel[..n], want), kernel[n])
  {
    assert kernel[..n + 1][..n] == kernel[..n];
  }

  lemma StillPresent<T(!new)>(kernel: seq<T>, n: nat, device: seq<T>)
    requires n < |kernel| && Distinct(kernel)
    requires forall j :: n <= j < |kernel| ==> kernel[j] in device
    ensures forall j :: n < j < |kernel| ==> kernel[j] in Filter(device, Except(kernel[n]))
  {
    FilterMembers(device, Except(kernel[n]));
  }

  /** The closing loop: add what is left of the work list. */
  method AddAll<T(!new, ==)>(present: seq<T>, setAddr: seq<T>, budget: nat, before: seq<Call<T>>, ghost goal: Outcome<T>) returns (o: Outcome<T>)
    requires OnTheWay(goal, before, present, Adds(setAddr), budget)
    ensures o == goal
  {
    var device, performed := present, before;
    assert setAddr[0..] == setAddr;
    var n := 0;
    while n < |setAddr|
      invariant 0 <= n <= |setAddr|
      invariant OnTheWay(goal, performed, device, Adds(setAddr[n..]), budget)
    {
      var addr := setAddr[n];
      assert setAddr[n..] == [addr] + setAddr[n + 1..];
      AddsCons(addr, setAddr[n + 1..]);
      StepOn(goal, performed, device, Add(addr), Adds(setAddr[n + 1..]), budget);
      if |performed| == budget || addr in device {
        return Outcome(false, device, performed);
      }
      device := device + [addr];
      performed := performed + [Add(addr)];
      n := n + 1;
    }
    assert performed + [] == performed;
    return Outcome(true, device, performed);
  }

  // ---------------------------------------------------------------- what it achieves

  /** The calls an execution can contain: deletions of listed addresses that were not requested, and additions of
      requested addresses that were not listed. */
  ghost predicate Useful<T(!new)>(kernel: seq<T>, want: seq<T>, call: Call<T>) {
    if call.Del? then call.addr in kernel && call.addr !in want else call.addr in want && call.addr !in kernel
  }

  lemma {:induction false} DelsMembers<T(!new)>(s: seq<T>)
    ensures |Dels(s)| == |s|
    ensures forall c :: c in Dels(s) <==> c.Del? && c.addr in s
  {
    if s != [] {
      DelsMembers(s[1..]);
    }
  }

  lemma {:induction false} AddsMembers<T(!new)>(s: seq<T>)
    ensures |Adds(s)| == |s|
    ensures forall c :: c in Adds(s) <==> c.Add? && c.addr in s
  {
    if s != [] {
      AddsMembers(s[1..]);
    }
  }

  /** A list that holds what is both listed and requested, and nothing that is neither. */
  ghost predicate Between<T(!new)>(kernel: seq<T>, want: seq<T>, list: seq<T>) {
    && (forall p :: p in kernel && p in want ==> p in list)
    && (forall p :: p in list ==> p in kernel || p in want)
  }

  /** A wanted call keeps the list between the intersection and the union. */
  lemma PerformBetween<T(!new)>(kernel: seq<T>, want: seq<T>, device: seq<T>, call: Call<T>)
    requires Between(kernel, want, device)
    requires if call.Del? then call.addr in kernel && call.addr !in want else call.addr in want
    ensures Between(kernel, want, Perform(device, call))
  {
    FilterMembers(device, Except(call.addr));
  }

  /** Whatever fails along the way: an address that is both listed and requested is never touched, only useful
      calls take effect, and the resulting list lies between the intersection and the union. */
  lemma {:induction false} ExecIsUseful<T(!new)>(kernel: seq<T>, want: seq<T>, device: seq<T>, calls: seq<Call<T>>, budget: nat)
    requires Between(kernel, want, device)
    requires forall c :: c in calls ==> if c.Del? then c.addr in kernel && c.addr !in want else c.addr in want
    ensures var o := Exec(device, calls, budget);
      (forall c :: c in o.performed ==> Useful(kernel, want, c)) && Between(kernel, want, o.addresses)
    decreases budget
  {
    if calls != [] && budget > 0 && Allowed(device, calls[0]) {
      var call := calls[0];
      assert call in calls;
      PerformBetween(kernel, want, device, call);
      ExecIsUseful(kernel, want, Perform(device, call), calls[1..], budget - 1);
    }
  }

  lemma SetAddressesIsUseful<T(!new)>(kernel: seq<T>, want: seq<T>, budget: nat)
    ensures var o := SetAddresses(kernel, want, budget);
      (forall c :: c in o.performed ==> Useful(kernel, want, c)) && Between(kernel, want, o.addresses)
  {
    var gone, left := Filter(kernel, NotIn(want)), Remaining(kernel, want);
    FilterMembers(kernel, NotIn(want));
    DelsMembers(gone);
    AddsMembers(left);
    RemainingMembers(kernel, want);
    ExecIsUseful(kernel, want, kernel, Calls(kernel, want), budget);
  }

  lemma RemainingMembers<T(!new)>(kernel: seq<T>, want: seq<T>)
    ensures forall p :: p in Remaining(kernel, want) ==> p in want
    ensures forall p :: p in want && p !in kernel ==> p in Remaining(kernel, want)
  {
    var left := Remaining(kernel, want);
    RemainingCounts(kernel, want);
    forall p ensures (p in left ==> p in want) && (p in want && p !in kernel ==> p in left) {
      assert p in left <==> p in multiset(left);
      assert p in want <==> p in multiset(want);
      assert p in kernel <==> p in multiset(kernel);
    }
  }

  lemma ExecFirst<T(!new)>(device: seq<T>, calls: seq<Call<T>>, budget: nat)
    requires calls != [] && budget > 0 && Allowed(device, calls[0])
    ensures Exec(device, calls, budget) == After([calls[0]], Exec(Perform(device, calls[0]), calls[1..], budget - 1))
  {
  }

  lemma ExecDelFirst<T(!new)>(device: seq<T>, gone: seq<T>, calls: seq<Call<T>>, budget: nat)
    requires gone != [] && gone[0] in device && budget > 0
    ensures Exec(device, Dels(gone) + calls, budget) ==
            After([Del(gone[0])], Exec(Filter(device, Except(gone[0])), Dels(gone[1..]) + calls, budget - 1))
  {
    var p, rest := gone[0], gone[1..];
    assert gone == [p] + rest;
    DelsCons(p, rest, calls);
    var all := Dels(gone) + calls;
    assert all[0] == Del(p) && all[1..] == Dels(rest) + calls;
    ExecFirst(device, all, budget);
  }

  lemma AfterDels<T(!new)>(gone: seq<T>, o: Outcome<T>)
    requires gone != []
    ensures After([Del(gone[0])], After(Dels(gone[1..]), o)) == After(Dels(gone), o)
  {
    AfterAfter([Del(gone[0])], Dels(gone[1..]), o);
  }

  lemma ExecNoDels<T(!new)>(device: seq<T>, calls: seq<Call<T>>, budget: nat)
    ensures Exec(device, Dels([]) + calls, budget) == After(Dels([]), Exec(Filter(device, NotIn([])), calls, budget))
  {
    assert Dels<T>([]) + calls == calls;
    FilterIdentity(device, NotIn([]));
    var o := Exec(device, calls, budget);
    assert [] + o.performed == o.performed;
  }

  lemma FilterGone<T(!new)>(device: seq<T>, gone: seq<T>)
    requires gone != []
    ensures Filter(Filter(device, Except(gone[0])), NotIn(gone[1..])) == Filter(device, NotIn(gone))
  {
    forall x | x in device ensures NotIn(gone)(x) == (Except(gone[0])(x) && NotIn(gone[1..])(x)) {
      assert gone == [gone[0]] + gone[1..];
    }
    FilterFilter(device, Except(gone[0]), NotIn(gone[1..]), NotIn(gone));
  }

  /** After the first deletion the others are still listed. */
  lemma RestListed<T(!new)>(device: seq<T>, gone: seq<T>)
    requires gone != [] && Distinct(gone) && forall p :: p in gone ==> p in device
    ensures Distinct(gone[1..]) && forall p :: p in gone[1..] ==> p in Filter(device, Except(gone[0]))
  {
    FilterMembers(device, Except(gone[0]));
    forall p | p in gone[1..] ensures p in gone && p != gone[0] {
      var j :| 0 <= j < |gone[1..]| && gone[1..][j] == p;
      assert gone[j + 1] == p;
    }
  }

  /** Deleting distinct listed addresses always goes through, as far as the budget lasts. */
  lemma {:induction false} ExecDels<T(!new)>(device: seq<T>, gone: seq<T>, calls: seq<Call<T>>, budget: nat)
    requires Distinct(gone) && |gone| <= budget
    requires forall p :: p in gone ==> p in device
    ensures Exec(device, Dels(gone) + calls, budget) == After(Dels(gone), Exec(Filter(device, NotIn(gone)), calls, budget - |gone|))
    decreases budget
  {
    if gone == [] {
      ExecNoDels(device, calls, budget);
    } else {
      var p, rest := gone[0], gone[1..];
      var first := Filter(device, Except(p));
      var o := Exec(Filter(first, NotIn(rest)), calls, budget - 1 - |rest|);
      RestListed(device, gone);
      FilterGone(device, gone);
      calc {
        Exec(device, Dels(gone) + calls, budget);
        { ExecDelFirst(device, gone, calls, budget); }
        After([Del(p)], Exec(first, Dels(rest) + calls, budget - 1));
        { ExecDels(first, rest, calls, budget - 1); }
        After([Del(p)], After(Dels(rest), o));
        { AfterDels(gone, o); }
        After(Dels(gone), o);
      }
    }
  }

  lemma ExecBlocked<T(!new)>(device: seq<T>, calls: seq<Call<T>>, budget: nat)
    requires calls != [] && (budget == 0 || !Allowed(device, calls[0]))
    ensures !Exec(device, calls, budget).ok
  {
  }

  lemma FirstDel<T(!new)>(gone: seq<T>, calls: seq<Call<T>>)
    requires gone != []
    ensures Dels(gone) + calls != [] && (Dels(gone) + calls)[0] == Del(gone[0])
  {
  }

  lemma {:induction false} ExecDelsShort<T(!new)>(device: seq<T>, gone: seq<T>, calls: seq<Call<T>>, budget: nat)
    requires budget < |gone|
    ensures !Exec(device, Dels(gone) + calls, budget).ok
    decreases budget
  {
    FirstDel(gone, calls);
    if budget > 0 && gone[0] in device {
      ExecDelFirst(device, gone, calls, budget);
      ExecDelsShort(Filter(device, Except(gone[0])), gone[1..], calls, budget - 1);
    } else {
      ExecBlocked(device, Dels(gone) + calls, budget);
    }
  }

  /** A series of additions succeeds exactly when the budget covers it and it names each new address once. */
  lemma {:induction false} ExecAdds<T(!new)>(device: seq<T>, extra: seq<T>, budget: nat)
    ensures Exec(device, Adds(extra), budget).ok <==>
            |extra| <= budget && Distinct(extra) && forall p :: p in extra ==> p !in device
    ensures Exec(device, Adds(extra), budget).ok ==>
            Exec(device, Adds(extra), budget) == Outcome(true, device + extra, Adds(extra))
    decreases budget
  {
    if extra == [] {
      assert device + [] == device;
    } else {
      var p, rest := extra[0], extra[1..];
      assert extra == [p] + rest;
      assert Adds(extra)[1..] == Adds(rest);
      if budget > 0 && p !in device {
        ExecAdds(device + [p], rest, budget - 1);
        assert device + [p] + rest == device + extra;
        if Distinct(extra) && forall q :: q in extra ==> q !in device {
          forall q | q in rest ensures q !in device + [p] {
            assert q in extra;
          }
        }
        if Distinct(rest) && forall q :: q in rest ==> q !in device + [p] {
          forall j | 0 <= j < |rest| ensures rest[j] != p {
            assert rest[j] in rest;
          }
        }
      } else if budget > 0 {
        assert p in extra;
      }
    }
  }

  lemma {:induction false} DropLastDistinct<T(!new)>(s: seq<T>, p: T)
    requires Distinct(s)
    ensures DropLast(s, p) == Filter(s, Except(p))
  {
    if s != [] {
      var n := |s| - 1;
      assert s == s[..n] + [s[n]];
      FilterAppend(s[..n], [s[n]], Except(p));
      if s[n] == p {
        FilterIdentity(s[..n], Except(p));
        assert s[..n] + [] == s[..n];
      } else {
        DropLastDistinct(s[..n], p);
      }
    }
  }

  /** With distinct requests, what is left of the work list is what the kernel does not have, in request order. */
  lemma {:induction false} RemainingOfDistinct<T(!new)>(kernel: seq<T>, want: seq<T>)
    requires Distinct(want)
    ensures Remaining(kernel, want) == Filter(want, NotIn(kernel))
  {
    if kernel == [] {
      FilterIdentity(want, NotIn(kernel));
    } else {
      var n := |kernel| - 1;
      RemainingOfDistinct(kernel[..n], want);
      FilterDistinct(want, NotIn(kernel[..n]));
      DropLastDistinct(Filter(want, NotIn(kernel[..n])), kernel[n]);
      assert kernel == kernel[..n] + [kernel[n]];
      FilterFilter(want, NotIn(kernel[..n]), Except(kernel[n]), NotIn(kernel));
    }
  }

  /** The list a successful run leaves: the requested addresses the kernel had, in its order, then the new ones in
      the order of the request. */
  function Readdressed<T(==)>(kernel: seq<T>, want: seq<T>): seq<T> {
    Filter(kernel, In(want)) + Filter(want, NotIn(kernel))
  }

  /** The number of addresses in exactly one of the two lists. */
  function SymmetricDifference<T(==)>(kernel: seq<T>, want: seq<T>): nat {
    |Filter(kernel, NotIn(want))| + |Filter(want, NotIn(kernel))|
  }

  /** When it succeeds: exactly for requests without duplicates, when at least as many calls go through as there are
      addresses in exactly one of the two lists. */
  lemma SetAddressesSucceedsIff<T(!new)>(kernel: seq<T>, want: seq<T>, budget: nat)
    requires Distinct(kernel)
    ensures SetAddresses(kernel, want, budget).ok <==> Distinct(want) && SymmetricDifference(kernel, want) <= budget
    ensures SetAddresses(kernel, want, budget).ok ==>
            && SetAddresses(kernel, want, budget).addresses == Readdressed(kernel, want)
            && |SetAddresses(kernel, want, budget).performed| == SymmetricDifference(kernel, want)
  {
    var gone, left := Filter(kernel, NotIn(want)), Remaining(kernel, want);
    FilterMembers(kernel, NotIn(want));
    FilterDistinct(kernel, NotIn(want));
    DelsMembers(gone);
    AddsMembers(left);
    if |gone| > budget {
      ExecDelsShort(kernel, gone, Adds(left), budget);
    } else {
      ExecDels(kernel, gone, Adds(left), budget);
      var device := Filter(kernel, NotIn(gone));
      ExecAdds(device, left, budget - |gone|);
      FilterMembers(kernel, NotIn(gone));
      FilterCongruence(kernel, NotIn(gone), In(want));
      FilterMembers(kernel, In(want));
      if Distinct(want) {
        RemainingOfDistinct(kernel, want);
        FilterDistinct(want, NotIn(kernel));
        FilterMembers(want, NotIn(kernel));
      } else {
        RepeatedRequestFails(kernel, want);
      }
    }
  }

  /** A request repeated is on the work list again after the scan: twice, or once although the kernel has it. */
  lemma RepeatedRequestFails<T(!new)>(kernel: seq<T>, want: seq<T>)
    requires Distinct(kernel) && !Distinct(want)
    ensures !Distinct(Remaining(kernel, want)) || exists p :: p in Remaining(kernel, want) && p in kernel && p in want
  {
    var left := Remaining(kernel, want);
    RemainingCounts(kernel, want);
    var i, j :| 0 <= i < j < |want| && want[i] == want[j];
    var p := want[i];
    CountTwice(want, i, j);
    CountAtMostOnce(kernel, p);
    assert p in multiset(left);
    assert p in left;
    if p !in kernel {
      assert p !in multiset(kernel);
      assert multiset(left)[p] >= 2;
      if Distinct(left) {
        CountAtMostOnce(left, p);
      }
    }
  }

  lemma CountTwice<T(!new)>(s: seq<T>, i: nat, j: nat)
    requires i < j < |s| && s[i] == s[j]
    ensures multiset(s)[s[i]] >= 2
  {
    assert s == s[..i] + [s[i]] + s[i + 1..j] + [s[j]] + s[j + 1..];
  }

  lemma {:induction false} CountAtMostOnce<T(!new)>(s: seq<T>, p: T)
    requires Distinct(s)
    ensures multiset(s)[p] <= 1
  {
    if s != [] {
      var rest := s[1..];
      assert s == [s[0]] + rest;
      CountAtMostOnce(rest, p);
      if s[0] == p {
        assert p !in rest;
        assert p !in multiset(rest);
      }
    }
  }

  /** A successful run leaves exactly the requested set, again without duplicates. */
  lemma ReaddressedIsRequested<T(!new)>(kernel: seq<T>, want: seq<T>)
    requires Distinct(kernel) && Distinct(want)
    ensures Distinct(Readdressed(kernel, want))
    ensures forall p :: p in Readdressed(kernel, want) <==> p in want
  {
    FilterMembers(kernel, In(want));
    FilterMembers(want, NotIn(kernel));
    FilterDistinct(kernel, In(want));
    FilterDistinct(want, NotIn(kernel));
    var a, b := Filter(kernel, In(want)), Filter(want, NotIn(kernel));
    forall i, j | 0 <= i < |a| && 0 <= j < |b| ensures a[i] != b[j] {
      assert a[i] in a && b[j] in b;
    }
  }

  /** Neither a deletion nor an allowed addition can repeat an address. */
  lemma PerformKeepsDistinct<T(!new)>(device: seq<T>, call: Call<T>)
    requires Distinct(device) && Allowed(device, call)
    ensures Distinct(Perform(device, call))
  {
    FilterDistinct(device, Except(call.addr));
  }

  lemma {:induction false} ExecKeepsDistinct<T(!new)>(device: seq<T>, calls: seq<Call<T>>, budget: nat)
    requires Distinct(device)
    ensures Distinct(Exec(device, calls, budget).addresses)
    decreases budget
  {
    if calls != [] && budget > 0 && Allowed(device, calls[0]) {
      ExecFirst(device, calls, budget);
      PerformKeepsDistinct(device, calls[0]);
      ExecKeepsDistinct(Perform(device, calls[0]), calls[1..], budget - 1);
    }
  }
}
