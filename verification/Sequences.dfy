/** Sequence vocabulary shared by every table of the switch: one-pass filtering, removal at an index, and the
    scan, delete, break and rescan loop that the repository uses to empty a table of the entries it no longer wants. */
module Sequences {

  datatype Option<+T> = None | Some(value: T)

  /** The elements satisfying `keep`, in their original order. */
  function Filter<T>(s: seq<T>, keep: T -> bool): seq<T>
  {
    if s == [] then [] else (if keep(s[0]) then [s[0]] else []) + Filter(s[1..], keep)
  }

  /** The sequence without the element at index k: Go's append(s[:k], s[k+1:]...). */
  function RemoveAt<T>(s: seq<T>, k: nat): (r: seq<T>)
    requires k < |s|
    ensures |r| == |s| - 1
  {
    s[..k] + s[k + 1..]
  }

  lemma Regroup<T>(a: seq<T>, b: seq<T>, c: seq<T>)
    ensures a + b + c == a + (b + c)
  {
  }

  lemma RemoveAtMembers<T>(s: seq<T>, k: nat)
    requires k < |s| && forall j :: 0 <= j < |s| && j != k ==> s[j] != s[k]
    ensures forall x :: x in RemoveAt(s, k) ==> x in s && x != s[k]
    ensures forall x :: x in s && x != s[k] ==> x in RemoveAt(s, k)
  {
    var r := RemoveAt(s, k);
    forall x | x in s && x != s[k] ensures x in r {
      var j :| 0 <= j < |s| && s[j] == x;
      assert r[if j < k then j else j - 1] == x;
    }
  }

  /** The sequence without its first occurrence of x. */
  function RemoveFirst<T(==)>(s: seq<T>, x: T): seq<T> {
    if s == [] then [] else if s[0] == x then s[1..] else [s[0]] + RemoveFirst(s[1..], x)
  }

  lemma RemoveAtCons<T>(s: seq<T>, k: nat)
    requires k < |s|
    ensures RemoveAt(s, k) == if k == 0 then s[1..] else [s[0]] + RemoveAt(s[1..], k - 1)
  {
  }

  lemma {:induction false} RemoveFirstAt<T>(s: seq<T>, k: nat)
    requires k < |s| && forall j :: 0 <= j < k ==> s[j] != s[k]
    ensures RemoveFirst(s, s[k]) == RemoveAt(s, k)
  {
    RemoveAtCons(s, k);
    if k > 0 {
      RemoveFirstAt(s[1..], k - 1);
    }
  }

  lemma {:induction false} RemoveFirstAbsent<T>(s: seq<T>, x: T)
    requires x !in s
    ensures RemoveFirst(s, x) == s
  {
    if s != [] {
      RemoveFirstAbsent(s[1..], x);
    }
  }

  ghost predicate Distinct<T(!new)>(s: seq<T>) {
    forall i, j :: 0 <= i < j < |s| ==> s[i] != s[j]
  }

  lemma {:induction false} FilterAppend<T>(a: seq<T>, b: seq<T>, keep: T -> bool)
    ensures Filter(a + b, keep) == Filter(a, keep) + Filter(b, keep)
  {
    if a == [] {
      assert a + b == b;
    } else {
      var head := if keep(a[0]) then [a[0]] else [];
      assert (a + b)[0] == a[0] && (a + b)[1..] == a[1..] + b;
      FilterAppend(a[1..], b, keep);
      assert head + (Filter(a[1..], keep) + Filter(b, keep)) == head + Filter(a[1..], keep) + Filter(b, keep);
    }
  }

  lemma {:induction false} FilterMember<T>(s: seq<T>, keep: T -> bool, x: T)
    ensures x in Filter(s, keep) <==> x in s && keep(x)
  {
    if s != [] {
      FilterMember(s[1..], keep, x);
    }
  }

  lemma FilterMembers<T>(s: seq<T>, keep: T -> bool)
    ensures forall x :: x in Filter(s, keep) <==> x in s && keep(x)
  {
    forall x ensures x in Filter(s, keep) <==> x in s && keep(x) {
      FilterMember(s, keep, x);
    }
  }

  lemma {:induction false} FilterIdentity<T>(s: seq<T>, keep: T -> bool)
    requires forall x :: x in s ==> keep(x)
    ensures Filter(s, keep) == s
  {
    if s != [] {
      FilterIdentity(s[1..], keep);
    }
  }

  lemma {:induction false} FilterNone<T>(s: seq<T>, keep: T -> bool)
    requires forall x :: x in s ==> !keep(x)
    ensures Filter(s, keep) == []
  {
    if s != [] {
      FilterNone(s[1..], keep);
    }
  }

  /** Filtering depends only on what the predicate says about the members. */
  lemma {:induction false} FilterCongruence<T>(s: seq<T>, p: T -> bool, q: T -> bool)
    requires forall x :: x in s ==> p(x) == q(x)
    ensures Filter(s, p) == Filter(s, q)
  {
    if s != [] {
      FilterCongruence(s[1..], p, q);
    }
  }

  /** Filtering twice is filtering by the conjunction. */
  lemma {:induction false} FilterFilter<T>(s: seq<T>, p: T -> bool, q: T -> bool, both: T -> bool)
    requires forall x :: x in s ==> both(x) == (p(x) && q(x))
    ensures Filter(Filter(s, p), q) == Filter(s, both)
  {
    if s != [] {
      FilterFilter(s[1..], p, q, both);
      var rest := Filter(s[1..], p);
      if p(s[0]) {
        assert ([s[0]] + rest)[1..] == rest;
      } else {
        assert [] + rest == rest;
      }
    }
  }

  lemma {:induction false} FilterDistinct<T(!new)>(s: seq<T>, keep: T -> bool)
    requires Distinct(s)
    ensures Distinct(Filter(s, keep))
  {
    if s != [] {
      FilterDistinct(s[1..], keep);
      FilterMember(s[1..], keep, s[0]);
    }
  }

  lemma FilterDropsMiddle<T>(front: seq<T>, x: T, back: seq<T>, keep: T -> bool)
    requires !keep(x)
    ensures Filter(front + ([x] + back), keep) == Filter(front + back, keep)
  {
    FilterAppend(front, back, keep);
    FilterAppend(front, [x] + back, keep);
    assert ([x] + back)[1..] == back;
  }

  /** Removing an element that fails the predicate does not change what passes it. */
  lemma FilterRemoveAt<T>(s: seq<T>, k: nat, keep: T -> bool)
    requires k < |s| && !keep(s[k])
    ensures Filter(RemoveAt(s, k), keep) == Filter(s, keep)
  {
    var front, x, back := s[..k], s[k], s[k + 1..];
    assert s == front + ([x] + back);
    assert !keep(x);
    FilterDropsMiddle(front, x, back, keep);
  }

  /** When only the element at k fails the predicate, filtering is removal at k. */
  lemma FilterIsRemoveAt<T>(s: seq<T>, k: nat, keep: T -> bool)
    requires k < |s| && !keep(s[k])
    requires forall j :: 0 <= j < |s| && j != k ==> keep(s[j])
    ensures Filter(s, keep) == RemoveAt(s, k)
  {
    FilterRemoveAt(s, k, keep);
    FilterIdentity(RemoveAt(s, k), keep);
  }

  /** The complement of a predicate. */
  function Not<T>(p: T -> bool): T -> bool {
    x => !p(x)
  }

  /** Restart-from-the-top deletion: scan for an entry to drop, delete it, leave the scan and start over, until a
      whole scan drops nothing. For every predicate the result is the one-pass filter. */
  method DeleteRestarting<T>(table: seq<T>, drop: T -> bool) returns (rest: seq<T>)
    ensures rest == Filter(table, Not(drop))
  {
    rest := table;
    var found := true;
    while found
      invariant Filter(rest, Not(drop)) == Filter(table, Not(drop))
      invariant !found ==> forall x :: x in rest ==> !drop(x)
      decreases |rest|, found
    {
      found := false;
      var p := 0;
      while p < |rest|
        invariant 0 <= p <= |rest|
        invariant !found
        invariant forall j :: 0 <= j < p ==> !drop(rest[j])
      {
        if drop(rest[p]) {
          found := true;
          FilterRemoveAt(rest, p, Not(drop));
          rest := RemoveAt(rest, p);
          break;
        }
        p := p + 1;
      }
    }
    FilterIdentity(rest, Not(drop));
  }

  lemma JoinEmpty<T>(s: seq<T>, t: seq<T>)
    ensures t == [] ==> s + t == s
    ensures s == [] ==> s + t == t
  {
  }

  lemma ConsAppend<T>(front: seq<T>, back: seq<T>)
    requires front != []
    ensures front == [front[0]] + front[1..] && front + back == [front[0]] + (front[1..] + back)
  {
  }
}
