/** Python's building blocks that several kernels share: an optional value, the ends of a list, the stable
    `sorted` and the insertion-ordered `dict`. */
module Options {
  datatype Option<+T> = None | Some(value: T) {
    function GetOr(default: T): T {
      if Some? then value else default
    }
  }
}

module Seqs {
  function Init<X>(xs: seq<X>): seq<X>
    requires xs != []
  {
    xs[..|xs| - 1]
  }

  function Last<X>(xs: seq<X>): X
    requires xs != []
  {
    xs[|xs| - 1]
  }
}

module Sorting {

  ghost predicate TotalPreorder<T(!new)>(le: (T, T) -> bool) {
    (forall x, y :: le(x, y) || le(y, x)) &&
    (forall x, y, z :: le(x, y) && le(y, z) ==> le(x, z))
  }

  ghost predicate IsSorted<T>(xs: seq<T>, le: (T, T) -> bool) {
    forall i, j :: 0 <= i < j < |xs| ==> le(xs[i], xs[j])
  }

  function InsertSorted<T>(x: T, xs: seq<T>, le: (T, T) -> bool): seq<T> {
    if xs == [] then [x]
    else if le(x, xs[0]) then [x] + xs
    else [xs[0]] + InsertSorted(x, xs[1..], le)
  }

  /** Equal elements keep their input order. */
  function Sorted<T>(xs: seq<T>, le: (T, T) -> bool): seq<T> {
    if xs == [] then [] else InsertSorted(xs[0], Sorted(xs[1..], le), le)
  }

  lemma {:induction false} InsertKeeps<T>(x: T, xs: seq<T>, le: (T, T) -> bool)
    ensures multiset(InsertSorted(x, xs, le)) == multiset{x} + multiset(xs)
  {
    if xs != [] {
      assert xs == [xs[0]] + xs[1..];
      InsertKeeps(x, xs[1..], le);
    }
  }

  lemma {:induction false} SortedKeeps<T>(xs: seq<T>, le: (T, T) -> bool)
    ensures multiset(Sorted(xs, le)) == multiset(xs)
    ensures |Sorted(xs, le)| == |xs|
  {
    if xs != [] {
      assert xs == [xs[0]] + xs[1..];
      SortedKeeps(xs[1..], le);
      InsertKeeps(xs[0], Sorted(xs[1..], le), le);
    }
    assert |multiset(Sorted(xs, le))| == |multiset(xs)|;
  }

  lemma SortedMembers<T>(xs: seq<T>, le: (T, T) -> bool)
    ensures forall x :: x in Sorted(xs, le) <==> x in xs
  {
    SortedKeeps(xs, le);
    forall x
      ensures x in Sorted(xs, le) <==> x in xs
    {
      assert x in Sorted(xs, le) <==> x in multiset(Sorted(xs, le));
      assert x in xs <==> x in multiset(xs);
    }
  }

  lemma {:induction false} InsertOrders<T(!new)>(x: T, xs: seq<T>, le: (T, T) -> bool)
    requires TotalPreorder(le) && IsSorted(xs, le)
    ensures IsSorted(InsertSorted(x, xs, le), le)
  {
    if xs != [] && !le(x, xs[0]) {
      InsertOrders(x, xs[1..], le);
      var tail := InsertSorted(x, xs[1..], le);
      forall y | y in tail
        ensures le(xs[0], y)
      {
        InsertKeeps(x, xs[1..], le);
        assert y in multiset(tail);
      }
    }
  }

  lemma {:induction false} SortedOrders<T(!new)>(xs: seq<T>, le: (T, T) -> bool)
    requires TotalPreorder(le)
    ensures IsSorted(Sorted(xs, le), le)
  {
    if xs != [] {
      SortedOrders(xs[1..], le);
      InsertOrders(xs[0], Sorted(xs[1..], le), le);
    }
  }

  function Only<T>(x: T, keep: T -> bool): seq<T> {
    if keep(x) then [x] else []
  }

  function Filter<T>(xs: seq<T>, keep: T -> bool): seq<T> {
    if xs == [] then [] else Only(xs[0], keep) + Filter(xs[1..], keep)
  }

  lemma {:induction false} FilterMembers<T>(xs: seq<T>, keep: T -> bool)
    ensures forall y :: y in Filter(xs, keep) <==> y in xs && keep(y)
  {
    if xs != [] {
      FilterMembers(xs[1..], keep);
      assert forall y :: y in xs <==> y == xs[0] || y in xs[1..];
    }
  }

  /** `ys` are the elements of `xs` at the positions `at`, which go up; all of them are to be kept. */
  ghost predicate Picks<T>(xs: seq<T>, ys: seq<T>, keep: T -> bool, at: seq<nat>) {
    && |at| == |ys|
    && (forall k :: 0 <= k < |at| ==> at[k] < |xs| && ys[k] == xs[at[k]] && keep(ys[k]))
    && (forall k, l :: 0 <= k < l < |at| ==> at[k] < at[l])
  }

  /** No position to be kept is missing. */
  ghost predicate PicksAll<T>(xs: seq<T>, keep: T -> bool, at: seq<nat>) {
    forall i :: 0 <= i < |xs| && keep(xs[i]) ==> i in at
  }

  /** `ys` is what is left of `xs`: exactly the elements to be kept, in order. */
  ghost predicate KeptInOrder<T(!new)>(xs: seq<T>, ys: seq<T>, keep: T -> bool) {
    exists at :: Picks(xs, ys, keep, at) && PicksAll(xs, keep, at)
  }

  function Shifted(at: seq<nat>): seq<nat> {
    seq(|at|, k requires 0 <= k < |at| => at[k] + 1)
  }

  lemma ShiftedHas(at: seq<nat>, i: nat)
    requires i in at
    ensures i + 1 in Shifted(at)
  {
    var k :| 0 <= k < |at| && at[k] == i;
    assert Shifted(at)[k] == i + 1;
  }

  lemma PicksBehind<T>(x: T, xs: seq<T>, ys: seq<T>, keep: T -> bool, at: seq<nat>)
    requires Picks(xs, ys, keep, at)
    ensures Picks([x] + xs, ys, keep, Shifted(at))
  {
  }

  lemma PicksFirst<T>(x: T, xs: seq<T>, ys: seq<T>, keep: T -> bool, at: seq<nat>)
    requires xs != [] && xs[0] == x && keep(x) && Picks(xs, ys, keep, at) && forall k :: 0 <= k < |at| ==> 0 < at[k]
    ensures Picks(xs, [x] + ys, keep, [0] + at)
  {
  }

  lemma PicksAllBehind<T>(x: T, xs: seq<T>, keep: T -> bool, at: seq<nat>)
    requires PicksAll(xs, keep, at)
    ensures !keep(x) ==> PicksAll([x] + xs, keep, Shifted(at))
    ensures PicksAll([x] + xs, keep, [0] + Shifted(at))
  {
    forall i | 0 < i < |xs| + 1 && keep(([x] + xs)[i])
      ensures i in Shifted(at)
    {
      assert xs[i - 1] == ([x] + xs)[i];
      ShiftedHas(at, i - 1);
    }
  }

  lemma {:induction false} FilterPositions<T>(xs: seq<T>, keep: T -> bool) returns (at: seq<nat>)
    ensures Picks(xs, Filter(xs, keep), keep, at) && PicksAll(xs, keep, at)
  {
    at := [];
    if xs != [] {
      hide Picks, PicksAll;
      var x, rest := xs[0], Filter(xs[1..], keep);
      var tail := FilterPositions(xs[1..], keep);
      assert xs == [x] + xs[1..] && [] + rest == rest;
      PicksBehind(x, xs[1..], rest, keep, tail);
      PicksAllBehind(x, xs[1..], keep, tail);
      at := Shifted(tail);
      if keep(x) {
        PicksFirst(x, xs, rest, keep, at);
        at := [0] + at;
      }
    }
  }

  /** A filter keeps exactly what it is to keep, in order. */
  lemma FilterKeeps<T(!new)>(xs: seq<T>, keep: T -> bool)
    ensures KeptInOrder(xs, Filter(xs, keep), keep)
  {
    var at := FilterPositions(xs, keep);
  }

  lemma {:induction false} NoneKept<T>(xs: seq<T>, keep: T -> bool)
    requires forall x :: x in xs ==> !keep(x)
    ensures Filter(xs, keep) == []
  {
    if xs != [] {
      NoneKept(xs[1..], keep);
    }
  }

  /** The last element kept is the last one that is to be kept. */
  lemma {:induction false} LastKeptAt<T>(xs: seq<T>, keep: T -> bool, k: nat)
    requires k < |xs| && keep(xs[k]) && forall m :: k < m < |xs| ==> !keep(xs[m])
    ensures Filter(xs, keep) != [] && Filter(xs, keep)[|Filter(xs, keep)| - 1] == xs[k]
  {
    if k == 0 {
      NoneKept(xs[1..], keep);
    } else {
      LastKeptAt(xs[1..], keep, k - 1);
    }
  }

  lemma FilterCons<T>(x: T, xs: seq<T>, keep: T -> bool)
    ensures Filter([x] + xs, keep) == Only(x, keep) + Filter(xs, keep)
  {
    assert ([x] + xs)[1..] == xs;
  }

  lemma {:induction false} FilterAppend<T>(xs: seq<T>, ys: seq<T>, keep: T -> bool)
    ensures Filter(xs + ys, keep) == Filter(xs, keep) + Filter(ys, keep)
  {
    if xs == [] {
      assert xs + ys == ys;
    } else {
      assert xs + ys == [xs[0]] + (xs[1..] + ys);
      FilterCons(xs[0], xs[1..] + ys, keep);
      FilterAppend(xs[1..], ys, keep);
    }
  }

  lemma {:induction false} InsertBelow<T>(x: T, a: seq<T>, b: seq<T>, le: (T, T) -> bool)
    requires forall y :: y in b ==> le(x, y)
    ensures InsertSorted(x, a + b, le) == InsertSorted(x, a, le) + b
  {
    if a == [] {
      assert a + b == b && [x] + b == InsertSorted(x, [], le) + b;
    } else {
      assert (a + b)[1..] == a[1..] + b;
      InsertBelow(x, a[1..], b, le);
    }
  }

  lemma {:induction false} InsertAbove<T>(x: T, a: seq<T>, b: seq<T>, le: (T, T) -> bool)
    requires forall y :: y in a ==> !le(x, y)
    ensures InsertSorted(x, a + b, le) == a + InsertSorted(x, b, le)
  {
    if a == [] {
      assert a + b == b;
    } else {
      assert (a + b)[1..] == a[1..] + b;
      InsertAbove(x, a[1..], b, le);
    }
  }

  /** Elements that come before all others are sorted among themselves. */
  lemma {:induction false} SortedSplits<T(!new)>(xs: seq<T>, le: (T, T) -> bool, early: T -> bool, late: T -> bool)
    requires forall x :: late(x) <==> !early(x)
    requires forall x, y :: early(x) && late(y) ==> le(x, y) && !le(y, x)
    ensures Sorted(xs, le) == Sorted(Filter(xs, early), le) + Sorted(Filter(xs, late), le)
  {
    if xs != [] {
      var x, rest := xs[0], xs[1..];
      var a, b := Filter(rest, early), Filter(rest, late);
      SortedSplits(rest, le, early, late);
      FilterMembers(rest, early);
      FilterMembers(rest, late);
      SortedMembers(a, le);
      SortedMembers(b, le);
      if early(x) {
        InsertBelow(x, Sorted(a, le), Sorted(b, le), le);
        assert ([x] + a)[1..] == a && [] + b == b;
      } else {
        InsertAbove(x, Sorted(a, le), Sorted(b, le), le);
        assert ([x] + b)[1..] == b && [] + a == a;
      }
    }
  }

  /** A class of equals under the order. */
  ghost predicate Tied<T(!new)>(keep: T -> bool, le: (T, T) -> bool) {
    forall x, y :: keep(x) && keep(y) ==> le(x, y)
  }

  lemma {:induction false} InsertStable<T(!new)>(x: T, xs: seq<T>, le: (T, T) -> bool, keep: T -> bool)
    requires Tied(keep, le)
    ensures Filter(InsertSorted(x, xs, le), keep) == Only(x, keep) + Filter(xs, keep)
  {
    if xs == [] || le(x, xs[0]) {
      FilterCons(x, xs, keep);
      assert [x] + xs == InsertSorted(x, xs, le);
    } else {
      var rest := InsertSorted(x, xs[1..], le);
      InsertStable(x, xs[1..], le, keep);
      FilterCons(xs[0], rest, keep);
      var a, b, tail := Only(x, keep), Only(xs[0], keep), Filter(xs[1..], keep);
      assert a == [] || b == [] by {
        assert !le(x, xs[0]);
      }
      assert b + (a + tail) == a + (b + tail);
    }
  }

  /** The sort is stable: within any class of ties the input order survives. */
  lemma {:induction false} SortedStable<T(!new)>(xs: seq<T>, le: (T, T) -> bool, keep: T -> bool)
    requires Tied(keep, le)
    ensures Filter(Sorted(xs, le), keep) == Filter(xs, keep)
  {
    if xs != [] {
      SortedStable(xs[1..], le, keep);
      InsertStable(xs[0], Sorted(xs[1..], le), le, keep);
    }
  }
}

/** A `dict`: a map that remembers the order in which its keys were first set. */
module Dicts {

  datatype Dict<!K(==), +V> = Dict(keys: seq<K>, vals: map<K, V>) {
    ghost predicate Valid() {
      && (forall i, j :: 0 <= i < j < |keys| ==> keys[i] != keys[j])
      && (forall k :: k in keys ==> k in vals)
      && (forall k :: k in vals ==> k in keys)
    }

    function Set(k: K, v: V): (d: Dict<K, V>)
      ensures Valid() ==> d.Valid()
      ensures d.vals == vals[k := v]
    {
      Dict(if k in vals then keys else keys + [k], vals[k := v])
    }

    function Values(): seq<V>
      requires Valid()
    {
      seq(|keys|, i requires 0 <= i < |keys| => assert keys[i] in keys; vals[keys[i]])
    }
  }

  function Empty<K(==), V>(): Dict<K, V> {
    Dict([], map[])
  }
}
