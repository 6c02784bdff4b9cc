/** Interval math over (start, end) pairs, in whole ticks of 0.1 ms.

    `Points` is the meaning of an interval list: the ticks it covers, each interval half-open.
    Every loop is proved equal to a function, and every function is proved exact on `Points`. */
module Intervals {
  import opened Seqs
  import opened Sorting

  datatype Interval = Interval(s: int, e: int) {
    predicate Proper() { s < e }
  }

  function Max(a: int, b: int): int { if a >= b then a else b }

  function Min(a: int, b: int): int { if a <= b then a else b }

  // ---------------------------------------------------------------- meaning and measure

  // Always true; it only names the ticks, so that `Range` has a term to quantify over.
  predicate Tick(t: int) { true }

  function Range(lo: int, hi: int): (r: set<int>)
    ensures forall t :: t in r <==> lo <= t < hi
  {
    set t: int | lo <= t < hi && Tick(t)
  }

  function Points(xs: seq<Interval>): set<int> {
    if xs == [] then {} else Points(Init(xs)) + Range(Last(xs).s, Last(xs).e)
  }

  function Total(xs: seq<Interval>): int {
    if xs == [] then 0 else Total(Init(xs)) + (Last(xs).e - Last(xs).s)
  }

  ghost predicate Covers(xs: seq<Interval>, t: int) {
    exists x :: x in xs && x.s <= t < x.e
  }

  lemma {:induction false} PointsAreCovered(xs: seq<Interval>)
    ensures forall t :: t in Points(xs) <==> Covers(xs, t)
  {
    if xs != [] {
      PointsAreCovered(Init(xs));
      assert xs == Init(xs) + [Last(xs)];
      forall t
        ensures t in Points(xs) <==> Covers(xs, t)
      {
        if t in Points(Init(xs)) {
          var x :| x in Init(xs) && x.s <= t < x.e;
          assert x in xs;
        } else if t in Range(Last(xs).s, Last(xs).e) {
          assert Last(xs) in xs;
        }
      }
    }
  }

  lemma {:induction false} PointsConcat(xs: seq<Interval>, ys: seq<Interval>)
    ensures Points(xs + ys) == Points(xs) + Points(ys)
  {
    if ys == [] {
      assert xs + ys == xs;
    } else {
      assert Init(xs + ys) == xs + Init(ys);
      PointsConcat(xs, Init(ys));
    }
  }

  lemma PointsOne(x: Interval)
    ensures Points([x]) == Range(x.s, x.e)
  {
    assert Init([x]) == [];
  }

  lemma PointsAppend(xs: seq<Interval>, x: Interval)
    ensures Points(xs + [x]) == Points(xs) + Range(x.s, x.e)
  {
    assert Init(xs + [x]) == xs;
  }

  lemma PointsHead(xs: seq<Interval>)
    requires xs != []
    ensures Points(xs) == Range(xs[0].s, xs[0].e) + Points(xs[1..])
  {
    assert xs == [xs[0]] + xs[1..];
    PointsConcat([xs[0]], xs[1..]);
    PointsOne(xs[0]);
  }

  /** The points depend only on which intervals occur, not on their order or number. */
  lemma PointsOfMembers(xs: seq<Interval>, ys: seq<Interval>)
    requires forall x :: x in xs <==> x in ys
    ensures Points(xs) == Points(ys)
  {
    PointsAreCovered(xs);
    PointsAreCovered(ys);
    forall t
      ensures t in Points(xs) <==> t in Points(ys)
    {
      assert Covers(xs, t) <==> Covers(ys, t);
    }
  }

  lemma {:induction false} RangeSize(lo: int, hi: int)
    ensures |Range(lo, hi)| == Max(0, hi - lo)
    decreases hi - lo
  {
    if lo < hi {
      RangeSize(lo, hi - 1);
      assert Range(lo, hi) == Range(lo, hi - 1) + {hi - 1};
    } else {
      assert Range(lo, hi) == {};
    }
  }

  /** In order, not overlapping, none inverted; neighbours may touch. */
  ghost predicate Disjoint(xs: seq<Interval>) {
    (forall i :: 0 <= i < |xs| ==> xs[i].s <= xs[i].e) &&
    (forall i, j :: 0 <= i < j < |xs| ==> xs[i].e <= xs[j].s)
  }

  ghost predicate NotInverted(xs: seq<Interval>) {
    forall x :: x in xs ==> x.s <= x.e
  }

  /** No interval starts before an earlier one starts or ends; some may be inverted. */
  ghost predicate Ordered(xs: seq<Interval>) {
    forall i, j :: 0 <= i < j < |xs| ==> xs[i].e <= xs[j].s && xs[i].s <= xs[j].s
  }

  /** On disjoint intervals the total length is the number of points covered. */
  lemma {:induction false} TotalIsMeasure(xs: seq<Interval>)
    requires Disjoint(xs)
    ensures Total(xs) == |Points(xs)|
  {
    if xs != [] {
      var p, x := Init(xs), Last(xs);
      TotalIsMeasure(p);
      RangeSize(x.s, x.e);
      PointsAreCovered(p);
      assert Points(p) * Range(x.s, x.e) == {};
    }
  }

  // ---------------------------------------------------------------- merge

  /** Tuple order. */
  predicate Lex(a: Interval, b: Interval) {
    a.s < b.s || (a.s == b.s && a.e <= b.e)
  }

  function Absorb(m: seq<Interval>, x: Interval): seq<Interval> {
    if m != [] && x.s <= Last(m).e then Init(m) + [Interval(Last(m).s, Max(Last(m).e, x.e))]
    else m + [x]
  }

  function Coalesced(xs: seq<Interval>): seq<Interval> {
    if xs == [] then [] else Absorb(Coalesced(Init(xs)), Last(xs))
  }

  function Merged(xs: seq<Interval>): seq<Interval> {
    Coalesced(Sorted(xs, Lex))
  }

  method Merge(intervals: seq<Interval>) returns (merged: seq<Interval>)
    ensures merged == Merged(intervals)
  {
    SortedKeeps(intervals, Lex);
    if intervals == [] {
      return [];
    }
    var ordered := Sorted(intervals, Lex);
    hide Sorted, Coalesced;
    merged := [ordered[0]];
    CoalescedOne(ordered);
    for k := 1 to |ordered|
      invariant merged != [] && merged == Coalesced(ordered[..k])
    {
      var x, top := ordered[k], merged[|merged| - 1];
      CoalescedMore(ordered, k);
      if x.s <= top.e {
        merged := merged[|merged| - 1 := Interval(top.s, Max(top.e, x.e))];
      } else {
        merged := merged + [x];
      }
    }
    assert ordered[..|ordered|] == ordered;
  }

  lemma CoalescedOne(xs: seq<Interval>)
    requires xs != []
    ensures Coalesced(xs[..1]) == [xs[0]]
  {
    assert Init(xs[..1]) == [] && Last(xs[..1]) == xs[0];
  }

  lemma CoalescedMore(xs: seq<Interval>, k: nat)
    requires k < |xs|
    ensures var m, x := Coalesced(xs[..k]), xs[k];
      && Coalesced(xs[..k + 1]) == Absorb(m, x)
      && (m != [] && x.s <= Last(m).e ==> Absorb(m, x) == m[|m| - 1 := Interval(Last(m).s, Max(Last(m).e, x.e))])
  {
    assert Init(xs[..k + 1]) == xs[..k] && Last(xs[..k + 1]) == xs[k];
  }

  /** Sorted by start, with a gap of at least one tick between neighbours. */
  ghost predicate Separated(m: seq<Interval>) {
    forall i, j :: 0 <= i < j < |m| ==> m[i].e < m[j].s && m[i].s <= m[j].s
  }

  ghost predicate AllProper(xs: seq<Interval>) {
    forall x :: x in xs ==> x.Proper()
  }

  ghost predicate Canonical(m: seq<Interval>) {
    Separated(m) && AllProper(m)
  }

  lemma AbsorbExact(m: seq<Interval>, x: Interval)
    requires Separated(m) && (m == [] || Last(m).s <= x.s)
    ensures Separated(Absorb(m, x)) && Points(Absorb(m, x)) == Points(m) + Range(x.s, x.e)
    ensures Last(Absorb(m, x)).s <= x.s
  {
    hide Points, Range;
    PointsAppend(m, x);
    if m != [] && x.s <= Last(m).e {
      PointsLast(m);
      var top := Interval(Last(m).s, Max(Last(m).e, x.e));
      PointsAppend(Init(m), top);
      assert Range(top.s, top.e) == Range(Last(m).s, Last(m).e) + Range(x.s, x.e);
    } else if m != [] {
      forall i | 0 <= i < |m|
        ensures m[i].e < x.s && m[i].s <= x.s
      {
        assert i < |m| - 1 ==> m[i].e < Last(m).s && m[i].s <= Last(m).s;
      }
    }
  }

  lemma PointsLast(xs: seq<Interval>)
    requires xs != []
    ensures Points(xs) == Points(Init(xs)) + Range(Last(xs).s, Last(xs).e)
  {
  }

  lemma {:induction false} CoalescedExact(xs: seq<Interval>)
    requires IsSorted(xs, Lex)
    ensures Separated(Coalesced(xs)) && Points(Coalesced(xs)) == Points(xs)
    ensures xs != [] ==> Coalesced(xs) != [] && Last(Coalesced(xs)).s <= Last(xs).s
  {
    if xs != [] {
      var p := Init(xs);
      CoalescedExact(p);
      if p != [] {
        assert Lex(Last(p), Last(xs));
      }
      hide Absorb, Points, Range, Separated, Lex;
      AbsorbExact(Coalesced(p), Last(xs));
      PointsLast(xs);
    }
  }

  lemma {:induction false} CoalescedKeeps(xs: seq<Interval>)
    ensures AllProper(xs) ==> AllProper(Coalesced(xs))
    ensures NotInverted(xs) ==> NotInverted(Coalesced(xs))
  {
    if xs != [] {
      CoalescedKeeps(Init(xs));
      assert forall x :: x in xs <==> x in Init(xs) || x == Last(xs);
    }
  }

  /** The merge covers exactly the points of its input, whatever the input; its intervals are
      sorted and strictly apart, and proper when the input's are. */
  lemma MergedExact(xs: seq<Interval>)
    ensures Points(Merged(xs)) == Points(xs)
    ensures Separated(Merged(xs))
    ensures AllProper(xs) ==> Canonical(Merged(xs))
    ensures NotInverted(xs) ==> NotInverted(Merged(xs))
    ensures NotInverted(Merged(xs)) ==> Disjoint(Merged(xs))
  {
    LexSorts(xs);
    CoalescedExact(Sorted(xs, Lex));
    PointsOfMembers(Sorted(xs, Lex), xs);
    CoalescedKeeps(Sorted(xs, Lex));
    assert NotInverted(xs) ==> NotInverted(Sorted(xs, Lex));
    assert AllProper(xs) ==> AllProper(Sorted(xs, Lex));
    if NotInverted(Merged(xs)) {
      SeparatedIsDisjoint(Merged(xs));
    }
  }

  lemma LexSorts(xs: seq<Interval>)
    ensures IsSorted(Sorted(xs, Lex), Lex)
    ensures forall x :: x in Sorted(xs, Lex) <==> x in xs
  {
    SortedOrders(xs, Lex);
    SortedMembers(xs, Lex);
  }

  lemma SeparatedIsDisjoint(m: seq<Interval>)
    requires Separated(m) && NotInverted(m)
    ensures Disjoint(m)
  {
    forall i | 0 <= i < |m|
      ensures m[i].s <= m[i].e
    {
      assert m[i] in m;
    }
  }

  lemma {:induction false} SortedAlready(xs: seq<Interval>)
    requires IsSorted(xs, Lex)
    ensures Sorted(xs, Lex) == xs
  {
    if xs != [] {
      SortedAlready(xs[1..]);
      assert xs == [xs[0]] + xs[1..];
    }
  }

  lemma {:induction false} CoalescedAlready(m: seq<Interval>)
    requires Separated(m)
    ensures Coalesced(m) == m
  {
    if m != [] {
      CoalescedAlready(Init(m));
      assert m == Init(m) + [Last(m)];
    }
  }

  /** The last interval of a coalesced list is the last one taken, or is not inverted. */
  ghost predicate LastIs(m: seq<Interval>, x: Interval) {
    m != [] && Last(m).s <= x.s && (Last(m) == x || Last(m).s <= Last(m).e)
  }

  lemma AbsorbInOrder(m: seq<Interval>, y: Interval, x: Interval)
    requires IsSorted(m, Lex) && LastIs(m, y) && Lex(y, x)
    ensures IsSorted(Absorb(m, x), Lex) && LastIs(Absorb(m, x), x)
  {
    assert forall i :: 0 <= i < |m| - 1 ==> Lex(m[i], m[|m| - 1]);
    if x.s > Last(m).e {
      assert Lex(Last(m), x);
    }
  }

  /** Coalescing keeps tuple order, also among inverted intervals. */
  lemma {:induction false} CoalescedInOrder(xs: seq<Interval>)
    requires IsSorted(xs, Lex)
    ensures IsSorted(Coalesced(xs), Lex)
    ensures xs != [] ==> LastIs(Coalesced(xs), Last(xs))
  {
    if xs != [] {
      hide Absorb, Lex, LastIs;
      var p, x := Init(xs), Last(xs);
      CoalescedInOrder(p);
      if p != [] {
        AbsorbInOrder(Coalesced(p), Last(p), x);
      } else {
        AbsorbFirst(x);
      }
    }
  }

  lemma AbsorbFirst(x: Interval)
    ensures Absorb([], x) == [x] && LastIs([x], x)
  {
  }

  /** Merging twice changes nothing, whatever the input. */
  lemma MergedTwice(xs: seq<Interval>)
    ensures Merged(Merged(xs)) == Merged(xs)
  {
    LexSorts(xs);
    CoalescedInOrder(Sorted(xs, Lex));
    MergedExact(xs);
    SortedAlready(Merged(xs));
    CoalescedAlready(Merged(xs));
  }

  lemma {:induction false} CanonicalEndsMeet(a: seq<Interval>, b: seq<Interval>)
    requires Canonical(a) && Canonical(b) && a != [] && b != [] && Points(a) == Points(b)
    ensures Last(a).e <= Last(b).e
    ensures Last(a).e == Last(b).e ==> Last(b).s <= Last(a).s
  {
    PointsAreCovered(b);
    assert Last(a) in a && Last(b) in b;
    assert Last(a).e - 1 in Range(Last(a).s, Last(a).e);
    assert Covers(b, Last(a).e - 1);
    var y :| y in b && y.s <= Last(a).e - 1 < y.e;
    assert y == Last(b) || y.e < Last(b).s;
    GapBeforeLast(b);
    assert Last(b).s - 1 !in Range(Last(a).s, Last(a).e);
  }

  lemma GapBeforeLast(b: seq<Interval>)
    requires Separated(b) && b != []
    ensures Last(b).s - 1 !in Points(b)
  {
    PointsAreCovered(b);
  }

  /** There is only one canonical list with given points, so merge has no choice. */
  lemma {:induction false} CanonicalUnique(a: seq<Interval>, b: seq<Interval>)
    requires Canonical(a) && Canonical(b) && Points(a) == Points(b)
    ensures a == b
  {
    hide Points, Range, Separated, AllProper;
    ProperHasPoints(a);
    ProperHasPoints(b);
    if a != [] && b != [] {
      CanonicalEndsMeet(a, b);
      CanonicalEndsMeet(b, a);
      InitPoints(a);
      InitPoints(b);
      CanonicalUnique(Init(a), Init(b));
      assert a == Init(a) + [Last(a)] && b == Init(b) + [Last(b)];
    }
  }

  lemma ProperHasPoints(a: seq<Interval>)
    requires AllProper(a)
    ensures a == [] <==> Points(a) == {}
  {
    if a != [] {
      assert Last(a) in a;
      assert Last(a).s in Range(Last(a).s, Last(a).e);
    }
  }

  lemma InitPoints(a: seq<Interval>)
    requires Canonical(a) && a != []
    ensures Canonical(Init(a)) && Points(Init(a)) == Points(a) - Range(Last(a).s, Last(a).e)
  {
    PointsAreCovered(Init(a));
    assert Points(Init(a)) * Range(Last(a).s, Last(a).e) == {};
  }

  // ---------------------------------------------------------------- intersect

  function Overlap(x: Interval, y: Interval): seq<Interval> {
    var lo, hi := Max(x.s, y.s), Min(x.e, y.e);
    if lo < hi then [Interval(lo, hi)] else []
  }

  function IntersectedFrom(a: seq<Interval>, b: seq<Interval>, i: nat, j: nat): seq<Interval>
    requires i <= |a| && j <= |b|
    decreases |a| - i + |b| - j
  {
    if i == |a| || j == |b| then []
    else
      Overlap(a[i], b[j]) +
      if a[i].e < b[j].e then IntersectedFrom(a, b, i + 1, j) else IntersectedFrom(a, b, i, j + 1)
  }

  function Intersected(a: seq<Interval>, b: seq<Interval>): seq<Interval> {
    IntersectedFrom(a, b, 0, 0)
  }

  lemma Associate<T>(x: seq<T>, y: seq<T>, z: seq<T>)
    ensures x + (y + z) == (x + y) + z
  {
  }

  lemma IntersectedMore(a: seq<Interval>, b: seq<Interval>, i: nat, j: nat, before: seq<Interval>)
    requires i < |a| && j < |b|
    ensures before + IntersectedFrom(a, b, i, j) == before + Overlap(a[i], b[j]) +
      if a[i].e < b[j].e then IntersectedFrom(a, b, i + 1, j) else IntersectedFrom(a, b, i, j + 1)
  {
    hide Overlap;
    Associate(before, Overlap(a[i], b[j]),
              if a[i].e < b[j].e then IntersectedFrom(a, b, i + 1, j) else IntersectedFrom(a, b, i, j + 1));
  }

  lemma IntersectedEnds(a: seq<Interval>, b: seq<Interval>, i: nat, j: nat)
    requires i <= |a| && j <= |b| && (i == |a| || j == |b|)
    ensures IntersectedFrom(a, b, i, j) == []
  {
  }

  method Intersect(a: seq<Interval>, b: seq<Interval>) returns (out: seq<Interval>)
    ensures out == Intersected(a, b)
  {
    hide IntersectedFrom;
    out := [];
    var i, j := 0, 0;
    assert out + IntersectedFrom(a, b, 0, 0) == Intersected(a, b);
    while i < |a| && j < |b|
      invariant i <= |a| && j <= |b|
      invariant out + IntersectedFrom(a, b, i, j) == Intersected(a, b)
      decreases |a| - i + |b| - j
    {
      var lo, hi := Max(a[i].s, b[j].s), Min(a[i].e, b[j].e);
      IntersectedMore(a, b, i, j, out);
      ghost var before := out;
      if lo < hi {
        out := out + [Interval(lo, hi)];
      }
      assert out == before + Overlap(a[i], b[j]);
      if a[i].e < b[j].e {
        i := i + 1;
      } else {
        j := j + 1;
      }
    }
    IntersectedEnds(a, b, i, j);
  }

  lemma OverlapPoints(x: Interval, y: Interval)
    ensures Points(Overlap(x, y)) == Range(x.s, x.e) * Range(y.s, y.e)
  {
    var lo, hi := Max(x.s, y.s), Min(x.e, y.e);
    if lo < hi {
      PointsOne(Interval(lo, hi));
    }
  }

  /** The head interval that ends first meets nothing beyond the other head. */
  lemma HeadMeetsHead(x: Interval, b: seq<Interval>)
    requires Ordered(b) && b != [] && x.e <= b[0].e
    ensures Range(x.s, x.e) !! Points(b[1..])
  {
    PointsAreCovered(b[1..]);
  }

  lemma Distribute(x: set<int>, xs: set<int>, y: set<int>, ys: set<int>)
    requires x !! ys
    ensures x * y + xs * (y + ys) == (x + xs) * (y + ys)
  {
  }

  lemma {:induction false} IntersectedFromPoints(a: seq<Interval>, b: seq<Interval>, i: nat, j: nat)
    requires Ordered(a) && Ordered(b) && i <= |a| && j <= |b|
    ensures Points(IntersectedFrom(a, b, i, j)) == Points(a[i..]) * Points(b[j..])
    decreases |a| - i + |b| - j
  {
    if i == |a| || j == |b| {
      assert a[i..] == [] || b[j..] == [];
    } else {
      hide Points, Range, Overlap, Ordered;
      assert a[i..][1..] == a[i + 1..] && b[j..][1..] == b[j + 1..];
      if a[i].e < b[j].e {
        IntersectedFromPoints(a, b, i + 1, j);
        HeadStep(a[i..], b[j..], IntersectedFrom(a, b, i + 1, j));
      } else {
        IntersectedFromPoints(a, b, i, j + 1);
        HeadStep(b[j..], a[i..], IntersectedFrom(a, b, i, j + 1));
        OverlapCommutes(a[i], b[j]);
      }
    }
  }

  lemma OverlapCommutes(x: Interval, y: Interval)
    ensures Overlap(x, y) == Overlap(y, x)
  {
  }

  /** Dropping the head that ends first: what it shares with the other list is its overlap with that head. */
  lemma HeadStep(a: seq<Interval>, b: seq<Interval>, rest: seq<Interval>)
    requires a != [] && b != [] && a[0].e <= b[0].e && Ordered(b)
    requires Points(rest) == Points(a[1..]) * Points(b)
    ensures Points(Overlap(a[0], b[0]) + rest) == Points(a) * Points(b)
  {
    hide Points, Range, Overlap, Ordered;
    OverlapPoints(a[0], b[0]);
    PointsHead(a);
    PointsHead(b);
    PointsConcat(Overlap(a[0], b[0]), rest);
    HeadMeetsHead(a[0], b);
    Distribute(Range(a[0].s, a[0].e), Points(a[1..]), Range(b[0].s, b[0].e), Points(b[1..]));
  }

  lemma IntersectedPoints(a: seq<Interval>, b: seq<Interval>)
    requires Ordered(a) && Ordered(b)
    ensures Points(Intersected(a, b)) == Points(a) * Points(b)
  {
    IntersectedFromPoints(a, b, 0, 0);
    assert a[0..] == a && b[0..] == b;
  }

  ghost predicate StartsFrom(xs: seq<Interval>, t: int) {
    forall x :: x in xs ==> t <= x.s
  }

  /** No empty interval comes out, whatever the lists. */
  lemma {:induction false} IntersectedProper(a: seq<Interval>, b: seq<Interval>, i: nat, j: nat)
    requires i <= |a| && j <= |b|
    ensures AllProper(IntersectedFrom(a, b, i, j))
    decreases |a| - i + |b| - j
  {
    if i < |a| && j < |b| {
      if a[i].e < b[j].e {
        IntersectedProper(a, b, i + 1, j);
      } else {
        IntersectedProper(a, b, i, j + 1);
      }
    }
  }

  lemma {:induction false} IntersectedDisjoint(a: seq<Interval>, b: seq<Interval>, i: nat, j: nat)
    requires Ordered(a) && Ordered(b) && i <= |a| && j <= |b|
    ensures Disjoint(IntersectedFrom(a, b, i, j))
    ensures i < |a| ==> StartsFrom(IntersectedFrom(a, b, i, j), a[i].s)
    ensures j < |b| ==> StartsFrom(IntersectedFrom(a, b, i, j), b[j].s)
    decreases |a| - i + |b| - j
  {
    hide Overlap, Disjoint, Ordered, StartsFrom;
    if i < |a| && j < |b| {
      if a[i].e < b[j].e {
        var rest := IntersectedFrom(a, b, i + 1, j);
        IntersectedDisjoint(a, b, i + 1, j);
        Onwards(a, i, rest);
        PrependDisjoint(a[i], b[j], rest, a[i].e);
      } else {
        var rest := IntersectedFrom(a, b, i, j + 1);
        IntersectedDisjoint(a, b, i, j + 1);
        Onwards(b, j, rest);
        PrependDisjoint(a[i], b[j], rest, b[j].e);
      }
    } else {
      NothingDisjoint();
    }
  }

  lemma NothingDisjoint()
    ensures Disjoint([]) && forall t: int :: StartsFrom([], t)
  {
  }

  /** What starts from the next interval starts from this one too, and after its end. */
  lemma Onwards(a: seq<Interval>, i: nat, rest: seq<Interval>)
    requires Ordered(a) && i < |a|
    requires if i + 1 < |a| then StartsFrom(rest, a[i + 1].s) else rest == []
    ensures StartsFrom(rest, a[i].s) && StartsFrom(rest, a[i].e)
  {
    assert i + 1 < |a| ==> a[i].e <= a[i + 1].s && a[i].s <= a[i + 1].s;
  }

  lemma PrependDisjoint(x: Interval, y: Interval, rest: seq<Interval>, cut: int)
    requires Min(x.e, y.e) <= cut && Disjoint(rest)
    requires StartsFrom(rest, cut) && StartsFrom(rest, x.s) && StartsFrom(rest, y.s)
    ensures Disjoint(Overlap(x, y) + rest)
    ensures StartsFrom(Overlap(x, y) + rest, x.s) && StartsFrom(Overlap(x, y) + rest, y.s)
  {
  }

  // ---------------------------------------------------------------- subtract

  function Pieces(x: Interval, c: Interval): seq<Interval> {
    if c.e <= x.s || c.s >= x.e then [x]
    else (if c.s > x.s then [Interval(x.s, c.s)] else []) + (if c.e < x.e then [Interval(c.e, x.e)] else [])
  }

  function CutAll(xs: seq<Interval>, c: Interval): seq<Interval> {
    if xs == [] then [] else CutAll(Init(xs), c) + Pieces(Last(xs), c)
  }

  function Carved(xs: seq<Interval>, cut: seq<Interval>): seq<Interval>
    decreases |cut|
  {
    if cut == [] then xs else CutAll(Carved(xs, Init(cut)), Last(cut))
  }

  function Subtracted(base: seq<Interval>, cut: seq<Interval>): seq<Interval> {
    if base == [] then [] else Subtracted(Init(base), cut) + Carved([Last(base)], cut)
  }

  method Subtract(base: seq<Interval>, cut: seq<Interval>) returns (out: seq<Interval>)
    ensures out == Subtracted(base, cut)
  {
    out := [];
    for i := 0 to |base|
      invariant out == Subtracted(base[..i], cut)
    {
      var segments := [base[i]];
      for j := 0 to |cut|
        invariant segments == Carved([base[i]], cut[..j])
      {
        var c := cut[j];
        var nxt := [];
        for k := 0 to |segments|
          invariant nxt == CutAll(segments[..k], c)
        {
          var x := segments[k];
          TakeOneMore(segments, k);
          if c.e <= x.s || c.s >= x.e {
            nxt := nxt + [x];
            continue;
          }
          ghost var before := nxt;
          if c.s > x.s {
            nxt := nxt + [Interval(x.s, c.s)];
          }
          if c.e < x.e {
            nxt := nxt + [Interval(c.e, x.e)];
          }
          assert nxt == before + Pieces(x, c);
        }
        TakeAll(segments);
        TakeOneMore(cut, j);
        segments := nxt;
      }
      TakeAll(cut);
      TakeOneMore(base, i);
      out := out + segments;
    }
    TakeAll(base);
  }

  lemma TakeOneMore<X>(xs: seq<X>, k: nat)
    requires k < |xs|
    ensures Init(xs[..k + 1]) == xs[..k] && Last(xs[..k + 1]) == xs[k]
  {
  }

  lemma TakeAll<X>(xs: seq<X>)
    ensures xs[..|xs|] == xs
  {
  }

  lemma PiecesPoints(x: Interval, c: Interval)
    ensures Points(Pieces(x, c)) == Range(x.s, x.e) - Range(c.s, c.e)
  {
    var l, r := Interval(x.s, c.s), Interval(c.e, x.e);
    PointsOne(x);
    PointsOne(l);
    PointsOne(r);
    PointsConcat([l], [r]);
    assert [l] + [r] == [l, r] && Points([]) == {};
    hide Points, Range;
  }

  lemma {:induction false} CutAllPoints(xs: seq<Interval>, c: Interval)
    ensures Points(CutAll(xs, c)) == Points(xs) - Range(c.s, c.e)
  {
    if xs != [] {
      CutAllPoints(Init(xs), c);
      PiecesPoints(Last(xs), c);
      PointsConcat(CutAll(Init(xs), c), Pieces(Last(xs), c));
    }
  }

  lemma {:induction false} CarvedPoints(xs: seq<Interval>, cut: seq<Interval>)
    ensures Points(Carved(xs, cut)) == Points(xs) - Points(cut)
    decreases |cut|
  {
    if cut != [] {
      CarvedPoints(xs, Init(cut));
      CutAllPoints(Carved(xs, Init(cut)), Last(cut));
    }
  }

  lemma {:induction false} CutPassesBy(xs: seq<Interval>, c: Interval, x: Interval)
    requires x in xs && (c.e <= x.s || x.e <= c.s)
    ensures x in CutAll(xs, c)
  {
    if x != Last(xs) {
      assert xs == Init(xs) + [Last(xs)];
      CutPassesBy(Init(xs), c, x);
    } else {
      assert x in Pieces(x, c);
    }
  }

  lemma {:induction false} CarvedPassBy(x: Interval, cut: seq<Interval>)
    requires forall c :: c in cut ==> c.e <= x.s || x.e <= c.s
    ensures x in Carved([x], cut)
  {
    if cut != [] {
      assert Last(cut) in cut && forall c :: c in Init(cut) ==> c in cut;
      CarvedPassBy(x, Init(cut));
      CutPassesBy(Carved([x], Init(cut)), Last(cut), x);
    }
  }

  /** A base interval with every cut before or after it, empty and inverted ones included, is left whole. */
  lemma {:induction false} PassedByKept(base: seq<Interval>, cut: seq<Interval>, x: Interval)
    requires x in base && forall c :: c in cut ==> c.e <= x.s || x.e <= c.s
    ensures x in Subtracted(base, cut)
  {
    if x != Last(base) {
      assert base == Init(base) + [Last(base)];
      PassedByKept(Init(base), cut, x);
    } else {
      CarvedPassBy(x, cut);
    }
  }

  /** Subtraction is set difference for every input: unsorted, overlapping, even inverted. */
  lemma {:induction false} SubtractedPoints(base: seq<Interval>, cut: seq<Interval>)
    ensures Points(Subtracted(base, cut)) == Points(base) - Points(cut)
  {
    if base != [] {
      SubtractedPoints(Init(base), cut);
      CarvedPoints([Last(base)], cut);
      PointsOne(Last(base));
      PointsConcat(Subtracted(Init(base), cut), Carved([Last(base)], cut));
    }
  }

  /** Within [lo, hi] and disjoint. */
  ghost predicate Within(xs: seq<Interval>, lo: int, hi: int) {
    Disjoint(xs) && forall x :: x in xs ==> lo <= x.s && x.e <= hi
  }

  lemma PiecesWithin(x: Interval, c: Interval)
    requires x.s <= x.e && c.s <= c.e
    ensures Within(Pieces(x, c), x.s, x.e)
  {
  }

  lemma AppendWithin(xs: seq<Interval>, ys: seq<Interval>, lo: int, mid: int, mid': int, hi: int)
    requires Within(xs, lo, mid) && Within(ys, mid', hi) && lo <= mid <= mid' <= hi
    ensures Within(xs + ys, lo, hi)
  {
  }

  lemma {:induction false} CutAllWithin(xs: seq<Interval>, c: Interval, lo: int, hi: int)
    requires Within(xs, lo, hi) && lo <= hi && c.s <= c.e
    ensures Within(CutAll(xs, c), lo, hi)
  {
    if xs != [] {
      var x := Last(xs);
      assert x in xs;
      assert Within(Init(xs), lo, x.s);
      CutAllWithin(Init(xs), c, lo, x.s);
      PiecesWithin(x, c);
      AppendWithin(CutAll(Init(xs), c), Pieces(x, c), lo, x.s, x.s, x.e);
    }
  }

  lemma {:induction false} CarvedWithin(x: Interval, cut: seq<Interval>)
    requires x.s <= x.e && forall c :: c in cut ==> c.s <= c.e
    ensures Within(Carved([x], cut), x.s, x.e)
    decreases |cut|
  {
    if cut != [] {
      CarvedWithin(x, Init(cut));
      assert Last(cut) in cut;
      CutAllWithin(Carved([x], Init(cut)), Last(cut), x.s, x.e);
    }
  }

  /** Cutting a disjoint list leaves a disjoint list. */
  lemma {:induction false} SubtractedWithin(base: seq<Interval>, cut: seq<Interval>, lo: int, hi: int)
    requires Within(base, lo, hi) && lo <= hi && forall c :: c in cut ==> c.s <= c.e
    ensures Within(Subtracted(base, cut), lo, hi)
  {
    if base != [] {
      var x := Last(base);
      assert x in base;
      assert Within(Init(base), lo, x.s);
      SubtractedWithin(Init(base), cut, lo, x.s);
      CarvedWithin(x, cut);
      AppendWithin(Subtracted(Init(base), cut), Carved([x], cut), lo, x.s, x.s, x.e);
    }
  }

  lemma {:induction false} CutAllForwards(xs: seq<Interval>, c: Interval)
    requires NotInverted(xs)
    ensures NotInverted(CutAll(xs, c))
  {
    if xs != [] {
      assert Last(xs) in xs && forall x :: x in Init(xs) ==> x in xs;
      CutAllForwards(Init(xs), c);
    }
  }

  lemma {:induction false} CarvedForwards(xs: seq<Interval>, cut: seq<Interval>)
    requires NotInverted(xs)
    ensures NotInverted(Carved(xs, cut))
    decreases |cut|
  {
    if cut != [] {
      CarvedForwards(xs, Init(cut));
      CutAllForwards(Carved(xs, Init(cut)), Last(cut));
    }
  }

  lemma {:induction false} SubtractedForwards(base: seq<Interval>, cut: seq<Interval>)
    requires NotInverted(base)
    ensures NotInverted(Subtracted(base, cut))
  {
    if base != [] {
      assert Last(base) in base && forall x :: x in Init(base) ==> x in base;
      SubtractedForwards(Init(base), cut);
      CarvedForwards([Last(base)], cut);
    }
  }

  lemma {:induction false} TotalAtLeast(xs: seq<Interval>)
    requires NotInverted(xs)
    ensures Total(xs) >= |Points(xs)|
  {
    if xs != [] {
      var p, x := Init(xs), Last(xs);
      assert x in xs && forall y :: y in p ==> y in xs;
      TotalAtLeast(p);
      RangeSize(x.s, x.e);
      assert |Points(p) + Range(x.s, x.e)| <= |Points(p)| + |Range(x.s, x.e)|;
    }
  }

  /** Cutting a disjoint list: the total is at least the measure of what is left, for every cut; the pieces are
      disjoint and the total exact if no cut is inverted. */
  lemma SubtractedDisjoint(base: seq<Interval>, cut: seq<Interval>)
    requires Disjoint(base)
    ensures NotInverted(Subtracted(base, cut)) && Total(Subtracted(base, cut)) >= |Points(base) - Points(cut)|
    ensures NotInverted(cut) ==>
      Disjoint(Subtracted(base, cut)) && Total(Subtracted(base, cut)) == |Points(base) - Points(cut)|
  {
    hide *;
    SubtractedPoints(base, cut);
    DisjointForwards(base);
    SubtractedForwards(base, cut);
    TotalAtLeast(Subtracted(base, cut));
    if NotInverted(cut) {
      SubtractedApart(base, cut);
      TotalIsMeasure(Subtracted(base, cut));
    }
  }

  lemma DisjointForwards(base: seq<Interval>)
    requires Disjoint(base)
    ensures NotInverted(base)
  {
  }

  lemma SubtractedApart(base: seq<Interval>, cut: seq<Interval>)
    requires Disjoint(base) && NotInverted(cut)
    ensures Disjoint(Subtracted(base, cut))
  {
    hide Subtracted;
    if base != [] {
      assert base[0] in base && Last(base) in base;
      assert Within(base, base[0].s, Last(base).e);
      SubtractedWithin(base, cut, base[0].s, Last(base).e);
    } else {
      NothingCut(cut);
    }
  }

  lemma NothingCut(cut: seq<Interval>)
    ensures Subtracted([], cut) == []
  {
  }

  /** An inverted cut inside an interval leaves two pieces that overlap. */
  lemma InvertedCutOverlaps()
    ensures Subtracted([Interval(0, 10)], [Interval(5, 3)]) == [Interval(0, 5), Interval(3, 10)]
  {
    var x, c := Interval(0, 10), Interval(5, 3);
    assert Init([x]) == [] && Init([c]) == [];
    assert CutAll([x], c) == [] + Pieces(x, c);
    assert Carved([x], [c]) == CutAll(Carved([x], []), c);
  }

  // ---------------------------------------------------------------- complement

  /** The gaps found so far and the cursor. */
  function Sweep(m: seq<Interval>): (seq<Interval>, int) {
    if m == [] then ([], 0)
    else
      var (gaps, cursor) := Sweep(Init(m));
      (if Last(m).s > cursor then gaps + [Interval(cursor, Last(m).s)] else gaps, Max(cursor, Last(m).e))
  }

  function Complemented(xs: seq<Interval>, duration: int): seq<Interval> {
    var (gaps, cursor) := Sweep(Merged(xs));
    if cursor < duration then gaps + [Interval(cursor, duration)] else gaps
  }

  method Complement(intervals: seq<Interval>, duration: int) returns (gaps: seq<Interval>)
    ensures gaps == Complemented(intervals, duration)
  {
    gaps := [];
    var cursor := 0;
    var merged := Merge(intervals);
    for k := 0 to |merged|
      invariant (gaps, cursor) == Sweep(merged[..k])
    {
      var x := merged[k];
      assert Init(merged[..k + 1]) == merged[..k];
      if x.s > cursor {
        gaps := gaps + [Interval(cursor, x.s)];
      }
      cursor := Max(cursor, x.e);
    }
    assert merged[..|merged|] == merged;
    if cursor < duration {
      gaps := gaps + [Interval(cursor, duration)];
    }
  }

  /** The last start after which the sweep sees no further interval. */
  function LastStart(m: seq<Interval>): int {
    if m == [] then 0 else Max(0, Last(m).s)
  }

  /** The cursor is the furthest end so far, never before zero. */
  lemma {:induction false} CursorIsFurthest(m: seq<Interval>)
    ensures Sweep(m).1 >= 0
    ensures forall i :: 0 <= i < |m| ==> m[i].e <= Sweep(m).1
    ensures forall t :: t in Points(m) ==> t < Sweep(m).1
  {
    if m != [] {
      CursorIsFurthest(Init(m));
      assert forall i :: 0 <= i < |Init(m)| ==> m[i] == Init(m)[i];
    }
  }

  lemma {:induction false} SweepExact(m: seq<Interval>)
    requires Separated(m)
    ensures Points(Sweep(m).0) == Range(0, LastStart(m)) - Points(m)
  {
    if m != [] {
      var p, x := Init(m), Last(m);
      SweepExact(p);
      CursorBeforeNext(m);
      SweepStep(Sweep(p).0, Sweep(p).1, Points(p), LastStart(p), x);
    }
  }

  /** Before the next start the cursor has passed the last start and covered all in between. */
  lemma CursorBeforeNext(m: seq<Interval>)
    requires Separated(m) && m != []
    ensures var p := Init(m); var c := Sweep(p).1;
      && 0 <= c && (c == 0 || c < Last(m).s) && LastStart(p) <= LastStart(m)
      && (forall t :: LastStart(p) <= t < c ==> t in Points(p))
      && (forall t :: t in Points(p) ==> t < c)
  {
    var p := Init(m);
    CursorIsFurthest(p);
    SweepCursor(p);
    assert forall i :: 0 <= i < |p| ==> p[i] == m[i];
    assert p != [] ==> m[|p| - 1] == Last(p) && Last(p).s <= Last(m).s;
    BehindCursor(p);
  }

  lemma BehindCursor(p: seq<Interval>)
    requires Separated(p)
    ensures forall t :: LastStart(p) <= t < Sweep(p).1 ==> t in Points(p)
  {
    SweepCursor(p);
    if p != [] && Sweep(p).1 > LastStart(p) {
      var i :| 0 <= i < |p| && p[i].e == Sweep(p).1;
      assert p[|p| - 1] == Last(p);
      assert i == |p| - 1;
    }
  }

  lemma SweepStep(gaps: seq<Interval>, cursor: int, covered: set<int>, from: int, x: Interval)
    requires Points(gaps) == Range(0, from) - covered
    requires 0 <= cursor && (cursor == 0 || cursor < x.s) && 0 <= from <= Max(0, x.s)
    requires forall t :: from <= t < cursor ==> t in covered
    requires forall t :: t in covered ==> t < cursor
    ensures Points(if x.s > cursor then gaps + [Interval(cursor, x.s)] else gaps)
         == Range(0, Max(0, x.s)) - (covered + Range(x.s, x.e))
  {
    PointsAppend(gaps, Interval(cursor, x.s));
  }

  lemma {:induction false} SweepCursor(m: seq<Interval>)
    ensures Sweep(m).1 == 0 || exists i :: 0 <= i < |m| && m[i].e == Sweep(m).1
  {
    if m != [] {
      SweepCursor(Init(m));
      if Sweep(m).1 == Last(m).e {
        assert m[|m| - 1].e == Sweep(m).1;
      } else if Sweep(m).1 != 0 {
        var i :| 0 <= i < |Init(m)| && Init(m)[i].e == Sweep(Init(m)).1;
        assert m[i].e == Sweep(m).1;
      }
    }
  }

  /** What complement really denotes: nothing clips a gap at `duration`, so the window runs to the
      last start when an interval begins past the duration. */
  lemma ComplementPoints(xs: seq<Interval>, duration: int)
    ensures Points(Complemented(xs, duration))
         == Range(0, Max(duration, LastStart(Merged(xs)))) - Points(xs)
  {
    var m := Merged(xs);
    MergedExact(xs);
    SweepExact(m);
    CursorIsFurthest(m);
    BehindCursor(m);
    var (gaps, cursor) := Sweep(m);
    PointsAppend(gaps, Interval(cursor, duration));
  }

  /** It is the gaps over [0, duration] exactly when the last merged interval starts inside. */
  lemma ComplementExactIff(xs: seq<Interval>, duration: int)
    ensures Points(Complemented(xs, duration)) == Range(0, duration) - Points(xs)
       <==> LastStart(Merged(xs)) <= Max(0, duration)
  {
    ComplementPoints(xs, duration);
    MergedExact(xs);
    hide Points, Complemented, Merged, Separated;
    var m, s := Merged(xs), LastStart(Merged(xs));
    if s > Max(0, duration) {
      GapBeforeLast(m);
      assert s - 1 in Points(Complemented(xs, duration));
      assert s - 1 !in Range(0, duration);
    } else {
      assert Range(0, Max(duration, s)) == Range(0, duration);
    }
  }

  /** Ordered, proper, and at or after zero. */
  ghost predicate Gaps(xs: seq<Interval>) {
    Disjoint(xs) && forall x :: x in xs ==> 0 <= x.s < x.e
  }

  lemma {:induction false} SweepGaps(m: seq<Interval>)
    requires Separated(m) && NotInverted(m)
    ensures Gaps(Sweep(m).0) && Sweep(m).1 >= 0
    ensures forall x :: x in Sweep(m).0 ==> x.e <= Sweep(m).1
  {
    if m != [] {
      SweepGaps(Init(m));
      assert Last(m) in m;
      OneMoreGap(Sweep(Init(m)).0, Sweep(Init(m)).1, Last(m).s);
    }
  }

  lemma OneMoreGap(gaps: seq<Interval>, cursor: int, end: int)
    requires Gaps(gaps) && cursor >= 0 && forall x :: x in gaps ==> x.e <= cursor
    ensures cursor < end ==> Gaps(gaps + [Interval(cursor, end)])
    ensures forall x :: x in gaps + [Interval(cursor, end)] ==> x.e <= cursor || x.e <= end
  {
  }

  /** Every gap is proper; the gaps are in order and apart if no inverted interval survives the merge. */
  lemma ComplementGaps(xs: seq<Interval>, duration: int)
    ensures AllProper(Complemented(xs, duration))
    ensures NotInverted(Merged(xs)) ==> Gaps(Complemented(xs, duration))
  {
    MergedExact(xs);
    SweepProper(Merged(xs));
    if NotInverted(Merged(xs)) {
      SweepGaps(Merged(xs));
      OneMoreGap(Sweep(Merged(xs)).0, Sweep(Merged(xs)).1, duration);
    }
  }

  lemma {:induction false} SweepProper(m: seq<Interval>)
    ensures AllProper(Sweep(m).0)
  {
    if m != [] {
      SweepProper(Init(m));
    }
  }

  // ---------------------------------------------------------------- measure laws

  lemma MergedTotal(xs: seq<Interval>)
    requires NotInverted(Merged(xs))
    ensures Total(Merged(xs)) == |Points(xs)|
  {
    MergedExact(xs);
    TotalIsMeasure(Merged(xs));
  }

  function Backwards(x: Interval): nat {
    Max(0, x.s - x.e)
  }

  /** What inverted intervals take off a total. */
  function Deficit(xs: seq<Interval>): nat {
    if xs == [] then 0 else Deficit(Init(xs)) + Backwards(Last(xs))
  }

  lemma {:induction false} DeficitNone(xs: seq<Interval>)
    ensures Deficit(xs) == 0 <==> NotInverted(xs)
  {
    if xs != [] {
      DeficitNone(Init(xs));
      assert forall x :: x in xs <==> x in Init(xs) || x == Last(xs);
    }
  }

  lemma {:induction false} DeficitConcat(xs: seq<Interval>, ys: seq<Interval>)
    ensures Deficit(xs + ys) == Deficit(xs) + Deficit(ys)
  {
    if ys == [] {
      assert xs + ys == xs;
    } else {
      assert Init(xs + ys) == xs + Init(ys);
      DeficitConcat(xs, Init(ys));
    }
  }

  lemma {:induction false} DeficitInsert(x: Interval, xs: seq<Interval>)
    ensures Deficit(InsertSorted(x, xs, Lex)) == Backwards(x) + Deficit(xs)
  {
    DeficitOne(x);
    if xs == [] || Lex(x, xs[0]) {
      DeficitConcat([x], xs);
      assert xs == [] ==> [x] + xs == [x];
    } else {
      DeficitInsert(x, xs[1..]);
      DeficitOne(xs[0]);
      DeficitConcat([xs[0]], InsertSorted(x, xs[1..], Lex));
      DeficitConcat([xs[0]], xs[1..]);
      assert xs == [xs[0]] + xs[1..];
    }
  }

  lemma DeficitOne(x: Interval)
    ensures Deficit([x]) == Backwards(x)
  {
    assert Init([x]) == [];
  }

  lemma {:induction false} DeficitSorted(xs: seq<Interval>)
    ensures Deficit(Sorted(xs, Lex)) == Deficit(xs)
  {
    if xs != [] {
      DeficitSorted(xs[1..]);
      DeficitInsert(xs[0], Sorted(xs[1..], Lex));
      DeficitOne(xs[0]);
      DeficitConcat([xs[0]], xs[1..]);
      assert xs == [xs[0]] + xs[1..];
    }
  }

  /** On a separated list the total is the number of points less what its inverted intervals take off. */
  lemma {:induction false} SeparatedTotal(m: seq<Interval>)
    requires Separated(m)
    ensures Total(m) == |Points(m)| - Deficit(m)
  {
    if m != [] {
      var p, x := Init(m), Last(m);
      SeparatedTotal(p);
      RangeSize(x.s, x.e);
      PointsAreCovered(p);
      assert Points(p) !! Range(x.s, x.e);
    }
  }

  /** With inverted windows in the input the total can fall short of the time covered; it is exact
      when and only when no inverted window survives the merge. */
  lemma MergedTotalIff(xs: seq<Interval>)
    ensures Total(Merged(xs)) <= |Points(xs)|
    ensures Total(Merged(xs)) == |Points(xs)| <==> NotInverted(Merged(xs))
  {
    MergedExact(xs);
    SeparatedTotal(Merged(xs));
    DeficitNone(Merged(xs));
  }

  lemma IntersectedTotal(a: seq<Interval>, b: seq<Interval>)
    requires Ordered(a) && Ordered(b)
    ensures Total(Intersected(a, b)) == |Points(a) * Points(b)|
  {
    IntersectedPoints(a, b);
    IntersectedDisjoint(a, b, 0, 0);
    TotalIsMeasure(Intersected(a, b));
  }

  /** Inclusion and exclusion: time is counted once, but for what inverted intervals take off. */
  lemma InclusionExclusion(a: seq<Interval>, b: seq<Interval>)
    ensures Total(Merged(a + b)) + Total(Intersected(Merged(a), Merged(b))) + Deficit(Merged(a + b))
         == Total(Merged(a)) + Total(Merged(b)) + Deficit(Merged(a)) + Deficit(Merged(b))
    ensures NotInverted(a) && NotInverted(b) ==>
      Deficit(Merged(a + b)) == Deficit(Merged(a)) == Deficit(Merged(b)) == 0
  {
    MergedExact(a);
    MergedExact(b);
    MergedExact(a + b);
    SeparatedTotal(Merged(a));
    SeparatedTotal(Merged(b));
    SeparatedTotal(Merged(a + b));
    IntersectedTotal(Merged(a), Merged(b));
    PointsConcat(a, b);
    DeficitNone(Merged(a));
    DeficitNone(Merged(b));
    DeficitNone(Merged(a + b));
    hide Merged, Separated, Disjoint, Total, Points, Deficit;
    assert NotInverted(a) && NotInverted(b) ==> NotInverted(a + b);
  }

  // ---------------------------------------------------------------- the measure of the gaps

  function Before(xs: seq<Interval>): set<int> {
    set t | t in Points(xs) && t < 0
  }

  /** What the sweep counts twice: from an inverted interval's start it goes back to its end, if no
      earlier end is further on. */
  function Excess(m: seq<Interval>): nat {
    if m == [] then 0 else Excess(Init(m)) + Max(0, Last(m).s - Max(Sweep(Init(m)).1, Last(m).e))
  }

  lemma TotalAppend(xs: seq<Interval>, x: Interval)
    ensures Total(xs + [x]) == Total(xs) + (x.e - x.s)
    ensures Total(xs + []) == Total(xs)
  {
    assert Init(xs + [x]) == xs && xs + [] == xs;
  }

  lemma {:induction false} SweepTotal(m: seq<Interval>)
    requires Separated(m)
    ensures Total(Sweep(m).0) == Sweep(m).1 - |Points(m)| + |Before(m)| + Excess(m)
  {
    if m != [] {
      hide Points, Before, Range, Total;
      var p, x := Init(m), Last(m);
      assert m == p + [x];
      SweepTotal(p);
      CursorBeforeNext(m);
      TotalAppend(Sweep(p).0, Interval(Sweep(p).1, x.s));
      OneMoreInterval(p, x);
      RangeSize(x.s, x.e);
      RangeSize(x.s, Min(x.e, 0));
    } else {
      assert Before(m) == {};
    }
  }

  lemma LastApart(p: seq<Interval>, x: Interval)
    requires Separated(p + [x])
    ensures Points(p) !! Range(x.s, x.e)
  {
    PointsAreCovered(p);
    assert forall i :: 0 <= i < |p| ==> (p + [x])[i] == p[i] && p[i].e < (p + [x])[|p|].s;
  }

  lemma OneMoreInterval(p: seq<Interval>, x: Interval)
    requires Separated(p + [x])
    ensures |Points(p + [x])| == |Points(p)| + |Range(x.s, x.e)|
    ensures |Before(p + [x])| == |Before(p)| + |Range(x.s, Min(x.e, 0))|
  {
    hide Points, Separated;
    PointsAppend(p, x);
    LastApart(p, x);
    assert Before(p + [x]) == Before(p) + Range(x.s, Min(x.e, 0));
    assert Before(p) !! Range(x.s, Min(x.e, 0));
  }

  lemma {:induction false} CoalescedEnds(xs: seq<Interval>, d: int)
    requires forall x :: x in xs ==> x.e <= d
    ensures forall x :: x in Coalesced(xs) ==> x.e <= d
  {
    if xs != [] {
      assert forall x :: x in Init(xs) ==> x in xs;
      assert Last(xs) in xs;
      CoalescedEnds(Init(xs), d);
    }
  }

  lemma MergedEnds(xs: seq<Interval>, d: int)
    requires forall x :: x in xs ==> x.e <= d
    ensures forall x :: x in Merged(xs) ==> x.e <= d
  {
    LexSorts(xs);
    CoalescedEnds(Sorted(xs, Lex), d);
  }

  lemma {:induction false} CursorBound(m: seq<Interval>, d: int)
    requires d >= 0 && forall x :: x in m ==> x.e <= d
    ensures Sweep(m).1 <= d
  {
    if m != [] {
      assert forall x :: x in Init(m) ==> x in m;
      assert Last(m) in m;
      CursorBound(Init(m), d);
    }
  }

  /** The gaps up to a duration that no end passes add up to what is not covered, and what is counted twice. */
  lemma ComplementTotal(xs: seq<Interval>, duration: int)
    requires duration >= 0 && forall x :: x in xs ==> x.e <= duration
    ensures Total(Complemented(xs, duration)) == duration - |Points(xs)| + |Before(xs)| + Excess(Merged(xs))
  {
    hide Total, Sweep, Points, Merged, Separated, Excess;
    var m := Merged(xs);
    MergedExact(xs);
    MergedEnds(xs, duration);
    SweepTotal(m);
    CursorBound(m, duration);
    TotalAppend(Sweep(m).0, Interval(Sweep(m).1, duration));
    assert Before(m) == Before(xs);
  }

  // ---------------------------------------------------------------- when inverted intervals cancel out

  /** No inverted interval ends before zero or before an end that comes earlier in order. */
  ghost predicate Harmless(xs: seq<Interval>) {
    forall y :: y in xs && y.e < y.s ==> 0 <= y.e && forall x :: x in xs && Lex(x, y) ==> x.e <= y.e
  }

  ghost predicate HarmlessSoFar(xs: seq<Interval>) {
    xs == [] || (HarmlessSoFar(Init(xs)) && (Last(xs).e < Last(xs).s ==> Sweep(Init(xs)).1 <= Last(xs).e))
  }

  lemma {:induction false} CoalescedCursor(xs: seq<Interval>)
    ensures Sweep(Coalesced(xs)).1 == Sweep(xs).1
  {
    if xs != [] {
      CoalescedCursor(Init(xs));
      var m, x := Coalesced(Init(xs)), Last(xs);
      if m != [] && x.s <= Last(m).e {
        var top := Interval(Last(m).s, Max(Last(m).e, x.e));
        assert Init(Init(m) + [top]) == Init(m) && Last(Init(m) + [top]) == top;
      } else {
        assert Init(m + [x]) == m && Last(m + [x]) == x;
      }
    }
  }

  lemma ExcessAppend(m: seq<Interval>, x: Interval)
    ensures Excess(m + [x]) == Excess(m) + Max(0, x.s - Max(Sweep(m).1, x.e))
  {
    assert Init(m + [x]) == m;
  }

  lemma LastEnd(m: seq<Interval>)
    requires m != []
    ensures Last(m).e <= Sweep(m).1
  {
  }

  /** One more interval into a coalesced list. */
  lemma AbsorbExcess(m: seq<Interval>, x: Interval)
    requires m == [] || Last(m).s <= x.s
    ensures var absorbed := m != [] && x.s <= Last(m).e;
      && Excess(Absorb(m, x)) == Excess(m) + (if absorbed then 0 else Max(0, x.s - Max(Sweep(m).1, x.e)))
      && (absorbed ==> x.s <= Sweep(m).1)
  {
    hide Sweep, Excess;
    if m != [] && x.s <= Last(m).e {
      var top := Interval(Last(m).s, Max(Last(m).e, x.e));
      LastEnd(m);
      ExcessAppend(Init(m), top);
      ExcessAppend(Init(m), Last(m));
      assert m == Init(m) + [Last(m)];
    } else {
      ExcessAppend(m, x);
    }
  }

  /** The same step on the bare quantities. */
  lemma ExcessStep(excess: int, deficit: int, harmless: bool, cursor: int, x: Interval, absorbed: bool)
    requires excess <= deficit && (excess == deficit <==> harmless)
    requires absorbed ==> x.s <= cursor
    ensures var excess' := excess + if absorbed then 0 else Max(0, x.s - Max(cursor, x.e));
      && excess' <= deficit + Backwards(x)
      && (excess' == deficit + Backwards(x) <==> harmless && (x.e < x.s ==> cursor <= x.e))
  {
  }

  lemma CoalescedLast(xs: seq<Interval>)
    requires xs != [] && IsSorted(xs, Lex)
    ensures var m := Coalesced(Init(xs));
      Coalesced(xs) == Absorb(m, Last(xs)) && (m == [] || Last(m).s <= Last(xs).s)
    ensures IsSorted(Init(xs), Lex) && |Init(xs)| < |xs|
    ensures Deficit(xs) == Deficit(Init(xs)) + Backwards(Last(xs))
    ensures HarmlessSoFar(xs) <==>
      HarmlessSoFar(Init(xs)) && (Last(xs).e < Last(xs).s ==> Sweep(Init(xs)).1 <= Last(xs).e)
  {
    hide Absorb, Sweep, Points, Separated;
    CoalescedExact(Init(xs));
    if Init(xs) != [] {
      assert Lex(Last(Init(xs)), Last(xs));
    } else {
      assert Coalesced(Init(xs)) == [];
    }
  }

  lemma NothingExcess(xs: seq<Interval>)
    requires xs == []
    ensures Excess(Coalesced(xs)) == Deficit(xs) == 0 && HarmlessSoFar(xs)
  {
    assert Coalesced(xs) == [];
  }

  /** What the sweep counts twice makes up for what inverted intervals take off at most, and exactly if they
      are harmless. */
  lemma {:induction false} CoalescedExcess(xs: seq<Interval>)
    requires IsSorted(xs, Lex)
    ensures Excess(Coalesced(xs)) <= Deficit(xs)
    ensures Excess(Coalesced(xs)) == Deficit(xs) <==> HarmlessSoFar(xs)
    decreases |xs|
  {
    hide *;
    if xs == [] {
      NothingExcess(xs);
    } else {
      var p, x := Init(xs), Last(xs);
      var m := Coalesced(p);
      CoalescedLast(xs);
      CoalescedExcess(p);
      CoalescedCursor(p);
      AbsorbExcess(m, x);
      ExcessStep(Excess(m), Deficit(p), HarmlessSoFar(p), Sweep(p).1, x, m != [] && x.s <= Last(m).e);
    }
  }

  lemma HarmlessMore(p: seq<Interval>, x: Interval)
    requires forall y :: y in p ==> Lex(y, x)
    ensures Harmless(p + [x]) <==> Harmless(p) && (x.e < x.s ==> 0 <= x.e && forall y :: y in p ==> y.e <= x.e)
  {
    var xs := p + [x];
    assert forall y :: y in xs <==> y in p || y == x;
    assert forall y :: y in p && Lex(x, y) ==> x == y;
  }

  lemma CursorWithin(p: seq<Interval>, e: int)
    ensures Sweep(p).1 <= e <==> 0 <= e && forall y :: y in p ==> y.e <= e
  {
    CursorIsFurthest(p);
    SweepCursor(p);
    if 0 <= e && (forall y :: y in p ==> y.e <= e) {
      CursorBound(p, e);
    }
    hide Points, Sweep;
    assert forall y :: y in p ==> y.e <= Sweep(p).1;
  }

  lemma {:induction false} HarmlessInOrder(xs: seq<Interval>)
    requires IsSorted(xs, Lex)
    ensures HarmlessSoFar(xs) <==> Harmless(xs)
  {
    if xs != [] {
      hide Sweep, Harmless, Lex;
      var p, x := Init(xs), Last(xs);
      HarmlessInOrder(p);
      CursorWithin(p, x.e);
      assert forall y :: y in p ==> Lex(y, x);
      assert xs == p + [x];
      HarmlessMore(p, x);
    } else {
      assert Harmless(xs);
    }
  }

  /** Over a merged list: what the sweep counts twice is at most what inverted intervals take off, and the
      same if and only if none of them ends before zero or before an earlier end. */
  lemma MergedExcess(xs: seq<Interval>)
    ensures Excess(Merged(xs)) <= Deficit(xs)
    ensures Excess(Merged(xs)) == Deficit(xs) <==> Harmless(xs)
  {
    LexSorts(xs);
    CoalescedExcess(Sorted(xs, Lex));
    HarmlessInOrder(Sorted(xs, Lex));
    DeficitSorted(xs);
  }

  /** Nothing is counted twice exactly when no inverted interval that starts after zero is left. */
  lemma {:induction false} ExcessNone(m: seq<Interval>)
    requires Separated(m)
    ensures Excess(m) == 0 <==> forall x :: x in m && 0 < x.s ==> x.s <= x.e
  {
    if m != [] {
      ExcessNone(Init(m));
      CursorBeforeNext(m);
      assert forall x :: x in m <==> x in Init(m) || x == Last(m);
    }
  }

  // ---------------------------------------------------------------- gaps outside a cut

  /** The total of some intervals, without the ticks of a set. */
  function TotalOutside(xs: seq<Interval>, cut: set<int>): nat {
    if xs == [] then 0 else TotalOutside(Init(xs), cut) + |Range(Last(xs).s, Last(xs).e) - cut|
  }

  lemma TotalOutsideMore(xs: seq<Interval>, x: Interval, cut: set<int>)
    ensures TotalOutside(xs + [x], cut) == TotalOutside(xs, cut) + |Range(x.s, x.e) - cut|
  {
    assert Init(xs + [x]) == xs;
  }

  lemma {:induction false} TotalConcat(xs: seq<Interval>, ys: seq<Interval>)
    ensures Total(xs + ys) == Total(xs) + Total(ys)
  {
    if ys == [] {
      assert xs + ys == xs;
    } else {
      assert Init(xs + ys) == xs + Init(ys);
      TotalConcat(xs, Init(ys));
    }
  }

  lemma CarvedTotal(x: Interval, cut: seq<Interval>)
    requires x.s <= x.e && NotInverted(cut)
    ensures Total(Carved([x], cut)) == |Range(x.s, x.e) - Points(cut)|
  {
    hide Points, Carved, Total, Range;
    CarvedWithin(x, cut);
    CarvedPoints([x], cut);
    PointsOne(x);
    TotalIsMeasure(Carved([x], cut));
  }

  /** Cutting any list of intervals, overlapping or not: interval by interval what lies outside the cut. */
  lemma {:induction false} SubtractedTotal(base: seq<Interval>, cut: seq<Interval>)
    requires NotInverted(base) && NotInverted(cut)
    ensures Total(Subtracted(base, cut)) == TotalOutside(base, Points(cut))
  {
    if base != [] {
      hide Carved, Points, Range;
      assert Last(base) in base && forall x :: x in Init(base) ==> x in base;
      SubtractedTotal(Init(base), cut);
      CarvedTotal(Last(base), cut);
      TotalConcat(Subtracted(Init(base), cut), Carved([Last(base)], cut));
    }
  }

  lemma {:induction false} CutAllProper(xs: seq<Interval>, c: Interval)
    requires AllProper(xs)
    ensures AllProper(CutAll(xs, c))
  {
    if xs != [] {
      assert Last(xs) in xs && forall x :: x in Init(xs) ==> x in xs;
      CutAllProper(Init(xs), c);
    }
  }

  lemma {:induction false} CarvedProper(xs: seq<Interval>, cut: seq<Interval>)
    requires AllProper(xs)
    ensures AllProper(Carved(xs, cut))
    decreases |cut|
  {
    if cut != [] {
      CarvedProper(xs, Init(cut));
      CutAllProper(Carved(xs, Init(cut)), Last(cut));
    }
  }

  /** Pieces of proper intervals are proper, whatever the cut. */
  lemma {:induction false} SubtractedProper(base: seq<Interval>, cut: seq<Interval>)
    requires AllProper(base)
    ensures AllProper(Subtracted(base, cut))
  {
    if base != [] {
      assert Last(base) in base && forall x :: x in Init(base) ==> x in base;
      SubtractedProper(Init(base), cut);
      CarvedProper([Last(base)], cut);
    }
  }

  /** The ticks the sweep goes over again: from an inverted interval's start back to its end, or to an earlier end
      that is further on. */
  function Retraced(m: seq<Interval>): set<int> {
    if m == [] then {} else Retraced(Init(m)) + Range(Max(Sweep(Init(m)).1, Last(m).e), Last(m).s)
  }

  /** The same with repetitions, and without the ticks of a set. */
  function ExcessOutside(m: seq<Interval>, cut: set<int>): nat {
    if m == [] then 0
    else ExcessOutside(Init(m), cut) + |Range(Max(Sweep(Init(m)).1, Last(m).e), Last(m).s) - cut|
  }

  lemma OutsideNone(a: set<int>, cut: set<int>)
    ensures |a - cut| == 0 <==> a <= cut
  {
    if a <= cut {
      assert a - cut == {};
    }
    if a - cut == {} {
      forall t | t in a
        ensures t in cut
      {
        assert t !in a - cut;
      }
    }
  }

  lemma {:induction false} ExcessOutsideNone(m: seq<Interval>, cut: set<int>)
    ensures ExcessOutside(m, cut) == 0 <==> Retraced(m) <= cut
  {
    if m != [] {
      ExcessOutsideNone(Init(m), cut);
      var more := Range(Max(Sweep(Init(m)).1, Last(m).e), Last(m).s);
      OutsideNone(more, cut);
    }
  }

  /** Where the cursor stands, what it has gone over is a gap, covered, or gone over again. */
  lemma GapSplits(c: int, x: Interval)
    requires 0 <= c && (c == 0 || c < x.s)
    ensures var extra, again := Range(c, Max(c, x.e)) - Range(x.s, x.e), Range(Max(c, x.e), x.s);
      Range(c, x.s) == extra + again && extra !! again
  {
  }

  lemma UncoveredGrows(p: set<int>, c: int, x: Interval)
    requires 0 <= c && (c == 0 || c < x.s) && forall t :: t in p ==> t < c
    ensures var was, extra := Range(0, c) - p, Range(c, Max(c, x.e)) - Range(x.s, x.e);
      Range(0, Max(c, x.e)) - (p + Range(x.s, x.e)) == was + extra && was !! extra
  {
  }

  lemma OutsideAdds(a: set<int>, b: set<int>, cut: set<int>)
    requires a !! b
    ensures |(a + b) - cut| == |a - cut| + |b - cut|
  {
    assert (a + b) - cut == (a - cut) + (b - cut);
  }

  /** One step of the sweep. */
  lemma SweepOutsideStep(p: set<int>, c: int, x: Interval, cut: set<int>)
    requires 0 <= c && (c == 0 || c < x.s) && forall t :: t in p ==> t < c
    ensures |Range(0, Max(c, x.e)) - (p + Range(x.s, x.e)) - cut| + |Range(Max(c, x.e), x.s) - cut|
         == |Range(0, c) - p - cut| + |Range(c, x.s) - cut|
  {
    var was, extra, again := Range(0, c) - p, Range(c, Max(c, x.e)) - Range(x.s, x.e), Range(Max(c, x.e), x.s);
    GapSplits(c, x);
    UncoveredGrows(p, c, x);
    OutsideAdds(extra, again, cut);
    OutsideAdds(was, extra, cut);
  }

  lemma {:induction false} SweepOutside(m: seq<Interval>, cut: set<int>)
    requires Separated(m)
    ensures TotalOutside(Sweep(m).0, cut) == |Range(0, Sweep(m).1) - Points(m) - cut| + ExcessOutside(m, cut)
  {
    if m != [] {
      hide Points, Range, TotalOutside;
      var p, x := Init(m), Last(m);
      SweepOutside(p, cut);
      CursorBeforeNext(m);
      PointsLast(m);
      SweepOutsideStep(Points(p), Sweep(p).1, x, cut);
      TotalOutsideMore(Sweep(p).0, Interval(Sweep(p).1, x.s), cut);
      if x.s <= Sweep(p).1 {
        assert Range(Sweep(p).1, x.s) - cut == {};
      }
    } else {
      assert Range(0, 0) - Points(m) - cut == {};
    }
  }

  /** The gaps up to a duration that no end passes, outside a cut: the uncovered ticks, and those gone over again. */
  lemma ComplementOutside(xs: seq<Interval>, duration: int, cut: set<int>)
    requires duration >= 0 && forall x :: x in xs ==> x.e <= duration
    ensures TotalOutside(Complemented(xs, duration), cut)
         == |Range(0, duration) - Points(xs) - cut| + ExcessOutside(Merged(xs), cut)
  {
    hide TotalOutside, Sweep, Points, Merged, Separated, ExcessOutside, Range;
    var m := Merged(xs);
    MergedExact(xs);
    MergedEnds(xs, duration);
    SweepOutside(m, cut);
    CursorBound(m, duration);
    CursorIsFurthest(m);
    var c := Sweep(m).1;
    TotalOutsideMore(Sweep(m).0, Interval(c, duration), cut);
    var was, rest := Range(0, c) - Points(m), Range(c, duration);
    assert Range(0, duration) - Points(m) == was + rest && was !! rest;
    OutsideAdds(was, rest, cut);
    if c == duration {
      assert rest - cut == {};
    }
  }
}
