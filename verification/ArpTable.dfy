/** The ARP table as a sequence of entries, each operation on it as a pure step, and what the steps amount to:
    a finite map from address to entry with at most one entry per address. */
module ArpTable {
  import opened Addresses
  import opened Sequences

  /** Seconds on the interface's clock. */
  type Time = int

  /** An expiry of None is the zero time: a static entry. */
  datatype ArpEntry = ArpEntry(addr: Addr, mac: Mac, expires: Option<Time>, permanent: bool, updating: bool)

  type Table = seq<ArpEntry>

  const LIFETIME: Time := 60
  const GRACE: Time := 120

  /** At most one entry per address, and every hardware address six bytes long. */
  ghost predicate Valid(t: Table) {
    && (forall i, j :: 0 <= i < j < |t| ==> t[i].addr != t[j].addr)
    && (forall e :: e in t ==> |e.mac| == 6)
  }

  /** The first entry for an address, which is what a scan with an early exit finds. */
  function Find(t: Table, a: Addr): Option<ArpEntry> {
    if t == [] then None else if t[0].addr == a then Some(t[0]) else Find(t[1..], a)
  }

  /** The table read as a finite map. */
  ghost function Bindings(t: Table): map<Addr, ArpEntry> {
    map e: ArpEntry | e in t && Find(t, e.addr).Some? :: e.addr := Find(t, e.addr).value
  }

  function Elsewhere(a: Addr): ArpEntry -> bool {
    (e: ArpEntry) => e.addr != a
  }

  function Without(t: Table, a: Addr): Table {
    Filter(t, Elsewhere(a))
  }

  // ---------------------------------------------------------------- the operations

  /** Overwrite in place every entry that binds `e.addr` to `e.mac`. */
  function Overwrite(t: Table, e: ArpEntry): Table {
    if t == [] then []
    else [if t[0].addr == e.addr && t[0].mac == e.mac then e else t[0]] + Overwrite(t[1..], e)
  }

  /** Does the table already bind the address to exactly this hardware address? */
  predicate Binds(t: Table, a: Addr, mac: Mac) {
    var found := Find(t, a);
    found.Some? && found.value.mac == mac
  }

  /** AddStaticARPEntry: refresh the entry in place when the hardware address agrees, else replace it at the end. */
  function AddStatic(t: Table, a: Addr, mac: Mac, permanent: bool): Table {
    if Binds(t, a, mac) then Overwrite(t, ArpEntry(a, mac, None, permanent, false))
    else Without(t, a) + [ArpEntry(a, SixBytes(mac), None, permanent, false)]
  }

  /** AddOrUpdateARP: as above for a binding heard from the network; a refreshed entry keeps its permanence. */
  function Learn(t: Table, a: Addr, mac: Mac, now: Time): Table {
    if Binds(t, a, mac) then Overwrite(t, ArpEntry(a, mac, Some(now + LIFETIME), Find(t, a).value.permanent, false))
    else Without(t, a) + [ArpEntry(a, SixBytes(mac), Some(now + LIFETIME), false, false)]
  }

  /** What the expiry job drops, read off its condition: an entry with an expiry, as long as now lies before that
      expiry plus the grace period. */
  predicate SweptAt(now: Time, e: ArpEntry) {
    e.expires.Some? && now < e.expires.value + GRACE
  }

  function Swept(now: Time): ArpEntry -> bool {
    (e: ArpEntry) => SweptAt(now, e)
  }

  function IsPermanent(): ArpEntry -> bool {
    (e: ArpEntry) => e.permanent
  }

  /** Every way in which the table changes. */
  datatype Op =
    | OpStatic(addr: Addr, mac: Mac, permanent: bool)
    | OpLearn(addr: Addr, mac: Mac)
    | OpRemove(addr: Addr)
    | OpSweep
    | OpFlush
    | OpFlushPermanent

  function Apply(t: Table, op: Op, now: Time): Table {
    match op
    case OpStatic(a, mac, permanent) => AddStatic(t, a, mac, permanent)
    case OpLearn(a, mac) => Learn(t, a, mac, now)
    case OpRemove(a) => Without(t, a)
    case OpSweep => Filter(t, Not(Swept(now)))
    case OpFlush => []
    case OpFlushPermanent => Filter(t, Not(IsPermanent()))
  }

  // ---------------------------------------------------------------- the reference model: a map

  type Model = map<Addr, ArpEntry>

  predicate ModelBinds(m: Model, a: Addr, mac: Mac) {
    a in m && m[a].mac == mac
  }

  /** The same operations on a finite map, where order and position have no meaning. */
  ghost function ModelApply(m: Model, op: Op, now: Time): Model {
    match op
    case OpStatic(a, mac, permanent) => m[a := ArpEntry(a, SixBytes(mac), None, permanent, false)]
    case OpLearn(a, mac) =>
      m[a := ArpEntry(a, SixBytes(mac), Some(now + LIFETIME), ModelBinds(m, a, mac) && m[a].permanent, false)]
    case OpRemove(a) => m - {a}
    case OpSweep => map a | a in m && !SweptAt(now, m[a]) :: m[a]
    case OpFlush => map[]
    case OpFlushPermanent => map a | a in m && !m[a].permanent :: m[a]
  }

  // ---------------------------------------------------------------- lookups

  lemma {:induction false} FindIsMember(t: Table, a: Addr)
    ensures Find(t, a).Some? ==> Find(t, a).value in t && Find(t, a).value.addr == a
    ensures Find(t, a).None? <==> forall e :: e in t ==> e.addr != a
  {
    if t != [] {
      FindIsMember(t[1..], a);
    }
  }

  /** In a valid table every entry is the one found under its address. */
  lemma FindMember(t: Table, e: ArpEntry)
    requires Valid(t) && e in t
    ensures Find(t, e.addr) == Some(e)
  {
    FindIsMember(t, e.addr);
  }

  lemma {:induction false} FindAppend(s: Table, t: Table, a: Addr)
    ensures Find(s + t, a) == if Find(s, a).Some? then Find(s, a) else Find(t, a)
  {
    if s == [] {
      assert s + t == t;
    } else {
      assert (s + t)[1..] == s[1..] + t;
      FindAppend(s[1..], t, a);
    }
  }

  lemma BindingsAt(t: Table, a: Addr)
    ensures a in Bindings(t) <==> Find(t, a).Some?
    ensures a in Bindings(t) ==> Bindings(t)[a] == Find(t, a).value
  {
    FindIsMember(t, a);
    if Find(t, a).Some? {
      assert Find(t, a).value in t;
    }
  }

  /** Filtering a valid table keeps it valid and finds an entry exactly when it was there and passes. */
  lemma FindFiltered(t: Table, keep: ArpEntry -> bool, a: Addr)
    requires Valid(t)
    ensures Valid(Filter(t, keep))
    ensures Find(Filter(t, keep), a) == if Find(t, a).Some? && keep(Find(t, a).value) then Find(t, a) else None
  {
    FilterValid(t, keep);
    FilterMembers(t, keep);
    FindIsMember(t, a);
    FindIsMember(Filter(t, keep), a);
    if Find(t, a).Some? && keep(Find(t, a).value) {
      FindMember(Filter(t, keep), Find(t, a).value);
    } else {
      forall e | e in Filter(t, keep) ensures e.addr != a {
        FindMember(t, e);
      }
    }
  }

  lemma {:induction false} FilterValid(t: Table, keep: ArpEntry -> bool)
    requires Valid(t)
    ensures Valid(Filter(t, keep))
  {
    if t != [] {
      var rest := Filter(t[1..], keep);
      FilterValid(t[1..], keep);
      FilterMembers(t[1..], keep);
      forall i | 0 <= i < |rest| ensures rest[i].addr != t[0].addr {
        assert rest[i] in rest;
      }
    }
  }

  lemma {:induction false} OverwriteFinds(t: Table, e: ArpEntry, a: Addr)
    requires Valid(t) && |e.mac| == 6
    ensures Valid(Overwrite(t, e))
    ensures |Overwrite(t, e)| == |t| && forall i :: 0 <= i < |t| ==> Overwrite(t, e)[i].addr == t[i].addr
    ensures Find(Overwrite(t, e), a) == if a == e.addr && Binds(t, a, e.mac) then Some(e) else Find(t, a)
  {
    if t != [] {
      OverwriteFinds(t[1..], e, a);
      FindIsMember(t[1..], t[0].addr);
      var o := Overwrite(t[1..], e);
      assert forall i :: 0 <= i < |o| ==> o[i].addr == t[1..][i].addr;
    }
  }

  /** Replacing at the end: drop whatever the address had, then append. */
  lemma ReplaceFinds(t: Table, e: ArpEntry, a: Addr)
    requires Valid(t) && |e.mac| == 6
    ensures Valid(Without(t, e.addr) + [e])
    ensures Find(Without(t, e.addr) + [e], a) == if a == e.addr then Some(e) else Find(t, a)
  {
    var others := Without(t, e.addr);
    FindFiltered(t, Elsewhere(e.addr), a);
    FilterMembers(t, Elsewhere(e.addr));
    forall i | 0 <= i < |others| ensures others[i].addr != e.addr {
      assert others[i] in others;
    }
    FindAppend(Without(t, e.addr), [e], a);
    FindIsMember(t, a);
  }

  // ---------------------------------------------------------------- positions

  /** Overwriting the only entry for an address. */
  lemma OverwriteAt(t: Table, p: nat, e: ArpEntry)
    requires Valid(t) && p < |t| && t[p].addr == e.addr && t[p].mac == e.mac
    ensures Overwrite(t, e) == t[p := e]
  {
    OverwriteOnly(t, p, e);
  }

  lemma {:induction false} OverwriteOnly(t: Table, p: nat, e: ArpEntry)
    requires p < |t| && t[p].addr == e.addr && t[p].mac == e.mac
    requires forall j :: 0 <= j < |t| && j != p ==> t[j].addr != e.addr
    ensures Overwrite(t, e) == t[p := e]
  {
    if p == 0 {
      OverwriteNone(t[1..], e);
    } else {
      OverwriteOnly(t[1..], p - 1, e);
    }
  }

  lemma {:induction false} OverwriteNone(t: Table, e: ArpEntry)
    requires forall x :: x in t ==> x.addr != e.addr
    ensures Overwrite(t, e) == t
  {
    if t != [] {
      OverwriteNone(t[1..], e);
    }
  }

  lemma {:induction false} FoundAt(t: Table, p: nat, a: Addr)
    requires p < |t| && t[p].addr == a && forall j :: 0 <= j < p ==> t[j].addr != a
    ensures Find(t, a) == Some(t[p])
  {
    if p > 0 {
      FoundAt(t[1..], p - 1, a);
    }
  }

  lemma FoundNowhere(t: Table, a: Addr)
    requires forall j :: 0 <= j < |t| ==> t[j].addr != a
    ensures Find(t, a).None? && Without(t, a) == t
  {
    FindIsMember(t, a);
    FilterIdentity(t, Elsewhere(a));
  }

  lemma RemovedAt(t: Table, p: nat)
    requires Valid(t) && p < |t|
    ensures Without(t, t[p].addr) == RemoveAt(t, p)
  {
    FilterIsRemoveAt(t, p, Elsewhere(t[p].addr));
  }

  // ---------------------------------------------------------------- refinement

  /** One operation, seen through the map. */
  lemma ApplyRefines(t: Table, op: Op, now: Time)
    requires Valid(t)
    ensures Valid(Apply(t, op, now))
    ensures Bindings(Apply(t, op, now)) == ModelApply(Bindings(t), op, now)
  {
    var m, t', m' := Bindings(t), Apply(t, op, now), ModelApply(Bindings(t), op, now);
    assert Valid(t') by {
      ApplyFinds(t, op, now, V4(0));
    }
    forall a ensures (a in Bindings(t') <==> a in m') && (a in m' ==> Bindings(t')[a] == m'[a]) {
      ApplyFinds(t, op, now, a);
      BindingsAt(t, a);
      BindingsAt(t', a);
    }
    assert Bindings(t').Keys == m'.Keys;
  }

  ghost function At(m: Model, a: Addr): Option<ArpEntry> {
    if a in m then Some(m[a]) else None
  }

  lemma AddStaticFinds(t: Table, b: Addr, mac: Mac, permanent: bool, a: Addr)
    requires Valid(t)
    ensures Valid(AddStatic(t, b, mac, permanent))
    ensures Find(AddStatic(t, b, mac, permanent), a) ==
            if a == b then Some(ArpEntry(b, SixBytes(mac), None, permanent, false)) else Find(t, a)
  {
    FindIsMember(t, b);
    if Binds(t, b, mac) {
      OverwriteFinds(t, ArpEntry(b, mac, None, permanent, false), a);
    } else {
      ReplaceFinds(t, ArpEntry(b, SixBytes(mac), None, permanent, false), a);
    }
  }

  lemma LearnFinds(t: Table, b: Addr, mac: Mac, now: Time, a: Addr)
    requires Valid(t)
    ensures Valid(Learn(t, b, mac, now))
    ensures Find(Learn(t, b, mac, now), a) ==
            if a == b then Some(ArpEntry(b, SixBytes(mac), Some(now + LIFETIME), Binds(t, b, mac) && Find(t, b).value.permanent, false))
            else Find(t, a)
  {
    FindIsMember(t, b);
    if Binds(t, b, mac) {
      OverwriteFinds(t, ArpEntry(b, mac, Some(now + LIFETIME), Find(t, b).value.permanent, false), a);
    } else {
      ReplaceFinds(t, ArpEntry(b, SixBytes(mac), Some(now + LIFETIME), false, false), a);
    }
  }

  lemma KeepFinds(t: Table, keep: ArpEntry -> bool, m: Model, a: Addr)
    requires Valid(t)
    requires a in m <==> a in Bindings(t) && keep(Bindings(t)[a])
    requires a in m ==> m[a] == Bindings(t)[a]
    ensures Valid(Filter(t, keep))
    ensures Find(Filter(t, keep), a) == At(m, a)
  {
    BindingsAt(t, a);
    FindFiltered(t, keep, a);
  }

  lemma WriteFinds(t: Table, op: Op, now: Time, a: Addr)
    requires Valid(t) && (op.OpStatic? || op.OpLearn?)
    ensures Valid(Apply(t, op, now))
    ensures Find(Apply(t, op, now), a) == At(ModelApply(Bindings(t), op, now), a)
  {
    BindingsAt(t, a);
    BindingsAt(t, op.addr);
    if op.OpStatic? {
      AddStaticFinds(t, op.addr, op.mac, op.permanent, a);
    } else {
      LearnFinds(t, op.addr, op.mac, now, a);
    }
  }

  lemma ApplyFinds(t: Table, op: Op, now: Time, a: Addr)
    requires Valid(t)
    ensures Valid(Apply(t, op, now))
    ensures Find(Apply(t, op, now), a) == At(ModelApply(Bindings(t), op, now), a)
  {
    var m := ModelApply(Bindings(t), op, now);
    match op
    case OpStatic(_, _, _) => WriteFinds(t, op, now, a);
    case OpLearn(_, _) => WriteFinds(t, op, now, a);
    case OpRemove(b) =>
      BindingsAt(t, a);
      FindIsMember(t, a);
      KeepFinds(t, Elsewhere(b), m, a);
    case OpSweep => KeepFinds(t, Not(Swept(now)), m, a);
    case OpFlush =>
    case OpFlushPermanent => KeepFinds(t, Not(IsPermanent()), m, a);
  }

  // ---------------------------------------------------------------- runs

  /** An operation and the time at which it is performed. */
  datatype Event = Event(op: Op, now: Time)

  /** The table after a history of events, oldest first, from the empty table of a new interface. */
  function Run(history: seq<Event>): Table {
    if history == [] then []
    else var n := |history| - 1; Apply(Run(history[..n]), history[n].op, history[n].now)
  }

  ghost function ModelRun(history: seq<Event>): Model {
    if history == [] then map[]
    else var n := |history| - 1; ModelApply(ModelRun(history[..n]), history[n].op, history[n].now)
  }

  /** Over every history the slice is a finite map: one entry per address, six-byte hardware addresses, and each
      operation equal to its map update. */
  lemma {:induction false} RunRefinesMap(history: seq<Event>)
    ensures Valid(Run(history))
    ensures Bindings(Run(history)) == ModelRun(history)
  {
    if history != [] {
      var n := |history| - 1;
      RunRefinesMap(history[..n]);
      ApplyRefines(Run(history[..n]), history[n].op, history[n].now);
    }
  }

  predicate Writes(op: Op, a: Addr) {
    (op.OpStatic? || op.OpLearn?) && op.addr == a
  }

  /** The latest static add or learn of an address in a history. */
  function LastWrite(history: seq<Event>, a: Addr): (w: Option<Event>)
    ensures w.Some? ==> w.value in history && Writes(w.value.op, a)
  {
    if history == [] then None
    else
      var n := |history| - 1;
      if Writes(history[n].op, a) then Some(history[n]) else LastWrite(history[..n], a)
  }

  /** One operation: an entry it leaves was either written by it or there before. */
  lemma EntryAfter(before: Table, op: Op, now: Time, e: ArpEntry)
    requires Valid(before) && e in Apply(before, op, now)
    ensures if Writes(op, e.addr)
            then e.mac == SixBytes(op.mac) && e.expires == (if op.OpStatic? then None else Some(now + LIFETIME))
            else e in before
  {
    ApplyFinds(before, op, now, e.addr);
    FindMember(Apply(before, op, now), e);
    BindingsAt(before, e.addr);
    FindIsMember(before, e.addr);
  }

  /** The entry says what the write said: its hardware address, and an expiry of zero exactly for a static add, otherwise
      60 seconds after a learn. */
  predicate Says(e: ArpEntry, w: Event)
    requires w.op.OpStatic? || w.op.OpLearn?
  {
    e.mac == SixBytes(w.op.mac) && e.expires == (if w.op.OpStatic? then None else Some(w.now + 60))
  }

  lemma {:induction false} EntryBefore(history: seq<Event>, e: ArpEntry)
    requires e in Run(history)
    ensures history != []
    ensures var n := |history| - 1;
      if Writes(history[n].op, e.addr) then Says(e, history[n]) else e in Run(history[..n])
  {
    var n := |history| - 1;
    RunRefinesMap(history[..n]);
    EntryAfter(Run(history[..n]), history[n].op, history[n].now, e);
  }

  /** What an entry says was fixed by the latest write of its address. */
  lemma {:induction false} EntryIsLastWrite(history: seq<Event>, e: ArpEntry)
    requires e in Run(history)
    ensures LastWrite(history, e.addr).Some? && Says(e, LastWrite(history, e.addr).value)
    decreases |history|
  {
    EntryBefore(history, e);
    var n := |history| - 1;
    if Writes(history[n].op, e.addr) {
      assert LastWrite(history, e.addr) == Some(history[n]);
    } else {
      EntryIsLastWrite(history[..n], e);
      assert LastWrite(history, e.addr) == LastWrite(history[..n], e.addr);
    }
  }

  ghost predicate Chronological(history: seq<Event>) {
    forall i, j :: 0 <= i <= j < |history| ==> history[i].now <= history[j].now
  }

  /** With a clock that never runs backwards, no expiry lies more than 60 seconds ahead. */
  lemma {:induction false} ExpiryIsBounded(history: seq<Event>, now: Time, e: ArpEntry)
    requires Chronological(history) && e in Run(history)
    requires history != [] ==> history[|history| - 1].now <= now
    ensures e.expires.Some? ==> e.expires.value <= now + 60
  {
    EntryIsLastWrite(history, e);
  }

  // ---------------------------------------------------------------- the sweep against its comment

  /** What the job's comment asks for: drop the entries whose expiry lies the whole grace period in the past. */
  predicate StaleAt(now: Time, e: ArpEntry) {
    e.expires.Some? && e.expires.value + GRACE <= now
  }

  function Stale(now: Time): ArpEntry -> bool {
    (e: ArpEntry) => StaleAt(now, e)
  }

  /** An entry survives the sweep exactly when it is static or its expiry lies two minutes in the past. */
  lemma SurvivesSweepIff(t: Table, e: ArpEntry, now: Time)
    requires e in t
    ensures e in Apply(t, OpSweep, now) <==> e.expires.None? || e.expires.value + 120 <= now
  {
    FilterMember(t, Not(Swept(now)), e);
  }

  /** The sweep drops an entry learnt this very second. */
  lemma SweepDropsFreshEntry(now: Time)
    ensures var young := Learn([], V4(0x0A00_0001), [2, 0, 0, 0, 0, 1], now);
      |young| == 1 && Filter(young, Not(Stale(now))) == young && Filter(young, Not(Swept(now))) == []
  {
    var e := ArpEntry(V4(0x0A00_0001), [2, 0, 0, 0, 0, 1], Some(now + LIFETIME), false, false);
    assert Learn([], V4(0x0A00_0001), [2, 0, 0, 0, 0, 1], now) == [e];
    assert Not(Stale(now))(e) && !Not(Swept(now))(e);
    assert [e][1..] == [];
  }

  /** The sweep does what its comment says exactly on tables in which every entry is static. */
  lemma SweepMeetsIntentIffAllStatic(t: Table, now: Time)
    ensures Filter(t, Not(Swept(now))) == Filter(t, Not(Stale(now))) <==> forall e :: e in t ==> e.expires.None?
  {
    if forall e :: e in t ==> e.expires.None? {
      FilterCongruence(t, Not(Swept(now)), Not(Stale(now)));
    } else {
      var e :| e in t && e.expires.Some?;
      FilterMember(t, Not(Swept(now)), e);
      FilterMember(t, Not(Stale(now)), e);
      assert SweptAt(now, e) <==> !StaleAt(now, e);
    }
  }
}
