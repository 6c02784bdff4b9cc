/** What the dead-air threshold measures: the ticks that lie in long stretches of silence. */
module DeadAir {
  import opened Options
  import opened Seqs
  import opened Sorting
  import opened Intervals
  import T = TimeMetrics

  // ---------------------------------------------------------------- where a list of gaps is parted

  /** One interval of the list holds both the tick before `t` and `t`. */
  ghost predicate Joined(xs: seq<Interval>, t: int) {
    exists x :: x in xs && x.s < t < x.e
  }

  lemma JoinedConcat(xs: seq<Interval>, ys: seq<Interval>, t: int)
    ensures Joined(xs + ys, t) <==> Joined(xs, t) || Joined(ys, t)
  {
    assert forall x :: x in xs + ys <==> x in xs || x in ys;
  }

  lemma JoinedOne(x: Interval, t: int)
    ensures Joined([x], t) <==> x.s < t < x.e
  {
    assert forall y :: y in [x] <==> y == x;
  }

  /** Off the cut, a cut parts an interval only where it is empty. */
  lemma PiecesJoined(x: Interval, c: Interval, t: int)
    requires c.s <= c.e && !(c.s <= t - 1 < c.e) && !(c.s <= t < c.e)
    ensures Joined(Pieces(x, c), t) <==> x.s < t < x.e && c != Interval(t, t)
  {
    var l, r := Interval(x.s, c.s), Interval(c.e, x.e);
    JoinedOne(x, t);
    JoinedOne(l, t);
    JoinedOne(r, t);
    JoinedConcat([l], [r], t);
    assert [l] + [r] == [l, r] && !Joined([], t);
    hide Joined;
    var ps := Pieces(x, c);
    assert ps == [x] || ps == [l, r] || ps == [l] || ps == [r] || ps == [];
  }

  lemma JoinedNone(t: int)
    ensures !Joined([], t)
  {
  }

  lemma JoinedLast(xs: seq<Interval>, t: int)
    requires xs != []
    ensures Joined(xs, t) <==> Joined(Init(xs), t) || Last(xs).s < t < Last(xs).e
  {
    assert forall x :: x in xs <==> x in Init(xs) || x == Last(xs);
  }

  lemma {:induction false} CutAllJoined(xs: seq<Interval>, c: Interval, t: int)
    requires c.s <= c.e && !(c.s <= t - 1 < c.e) && !(c.s <= t < c.e)
    ensures Joined(CutAll(xs, c), t) <==> Joined(xs, t) && c != Interval(t, t)
  {
    hide Joined, Pieces;
    JoinedNone(t);
    if xs != [] {
      CutAllJoined(Init(xs), c, t);
      PiecesJoined(Last(xs), c, t);
      JoinedConcat(CutAll(Init(xs), c), Pieces(Last(xs), c), t);
      JoinedLast(xs, t);
    }
  }

  /** Neither the tick before `t` nor `t` is covered. */
  ghost predicate Clear(xs: seq<Interval>, t: int) {
    t - 1 !in Points(xs) && t !in Points(xs)
  }

  lemma ClearInit(xs: seq<Interval>, t: int)
    requires xs != [] && Clear(xs, t)
    ensures Clear(Init(xs), t) && !(Last(xs).s <= t - 1 < Last(xs).e) && !(Last(xs).s <= t < Last(xs).e)
  {
  }

  lemma {:induction false} CarvedJoined(xs: seq<Interval>, cut: seq<Interval>, t: int)
    requires NotInverted(cut) && Clear(cut, t)
    ensures Joined(Carved(xs, cut), t) <==> Joined(xs, t) && Interval(t, t) !in cut
    decreases |cut|
  {
    hide Joined, Clear, CutAll;
    if cut != [] {
      assert Last(cut) in cut && forall c :: c in cut <==> c in Init(cut) || c == Last(cut);
      ClearInit(cut, t);
      CarvedJoined(xs, Init(cut), t);
      CutAllJoined(Carved(xs, Init(cut)), Last(cut), t);
    }
  }

  lemma {:induction false} SubtractedJoined(base: seq<Interval>, cut: seq<Interval>, t: int)
    requires NotInverted(cut) && Clear(cut, t)
    ensures Joined(Subtracted(base, cut), t) <==> Joined(base, t) && Interval(t, t) !in cut
  {
    hide Joined, Clear, Carved, NotInverted;
    JoinedNone(t);
    if base != [] {
      SubtractedJoined(Init(base), cut, t);
      CarvedJoined([Last(base)], cut, t);
      JoinedConcat(Subtracted(Init(base), cut), Carved([Last(base)], cut), t);
      JoinedOne(Last(base), t);
      JoinedLast(base, t);
    }
  }

  /** At the cursor the gaps are parted, and only an empty interval leaves both its sides uncovered. */
  lemma AtCursor(m: seq<Interval>, t: int)
    requires Separated(m) && NotInverted(m) && t == Sweep(m).1 && 0 < t && t - 1 !in Points(m)
    ensures Interval(t, t) in m
  {
    SweepCursor(m);
    NotCovered(m, t - 1);
    hide Points, Sweep;
    var i :| 0 <= i < |m| && m[i].e == t;
    assert m[i] in m;
  }

  lemma NotCovered(m: seq<Interval>, t: int)
    requires t !in Points(m)
    ensures forall y :: y in m ==> !(y.s <= t < y.e)
  {
    PointsAreCovered(m);
    assert !Covers(m, t);
  }

  lemma BeyondCursor(m: seq<Interval>, t: int)
    requires Sweep(m).1 < t
    ensures Interval(t, t) !in m
  {
    CursorIsFurthest(m);
  }

  lemma NotJoinedFrom(m: seq<Interval>, t: int)
    requires Separated(m) && NotInverted(m) && Sweep(m).1 <= t
    ensures !Joined(Sweep(m).0, t)
  {
    SweepGaps(m);
  }

  /** Before the cursor the gaps are parted exactly where an empty interval lies between two uncovered ticks. */
  lemma {:induction false} SweepJoined(m: seq<Interval>, t: int)
    requires Separated(m) && NotInverted(m) && 0 < t < Sweep(m).1 && Clear(m, t)
    ensures Joined(Sweep(m).0, t) <==> Interval(t, t) !in m
  {
    hide Joined, Clear, Points, NotInverted;
    if m != [] {
      var p, x := Init(m), Last(m);
      var c := Sweep(p).1;
      SweepLast(m);
      CursorBeforeNext(m);
      ClearInit(m, t);
      JoinedConcat(Sweep(p).0, [Interval(c, x.s)], t);
      JoinedOne(Interval(c, x.s), t);
      if t < c {
        SweepJoined(p, t);
      } else {
        NotJoinedFrom(p, t);
        if t == c {
          AtCursor(p, t) by { ClearBefore(p, t); }
        } else {
          BeyondCursor(p, t);
        }
      }
    }
  }

  lemma SweepLast(m: seq<Interval>)
    requires m != [] && Separated(m) && NotInverted(m)
    ensures Separated(Init(m)) && NotInverted(Init(m)) && Last(m).s <= Last(m).e
    ensures forall y :: y in m <==> y in Init(m) || y == Last(m)
  {
    assert Last(m) in m;
    assert forall y :: y in m <==> y in Init(m) || y == Last(m);
  }

  lemma ClearBefore(xs: seq<Interval>, t: int)
    requires Clear(xs, t)
    ensures t - 1 !in Points(xs)
  {
  }

  /** The gaps up to the duration are parted exactly where an empty interval lies between two uncovered ticks. */
  lemma ComplementJoined(xs: seq<Interval>, duration: int, t: int)
    requires NotInverted(Merged(xs)) && T.EndsBy(xs, duration) && 0 < t < duration && Clear(xs, t)
    ensures Joined(Complemented(xs, duration), t) <==> Interval(t, t) !in Merged(xs)
  {
    var m := Merged(xs);
    MergedExact(xs);
    MergedEnds(xs, duration);
    assert Clear(m, t);
    var c := Sweep(m).1;
    CursorBound(m, duration);
    JoinedConcat(Sweep(m).0, [Interval(c, duration)], t);
    JoinedOne(Interval(c, duration), t);
    hide Joined, Clear, Points, Merged, Separated, NotInverted;
    if t < c {
      SweepJoined(m, t);
    } else {
      NotJoinedFrom(m, t);
      if t == c {
        AtCursor(m, t) by { ClearBefore(m, t); }
      } else {
        BeyondCursor(m, t);
      }
    }
  }

  // ---------------------------------------------------------------- long stretches

  /** The ticks from `a` up to `b` all belong to the set, and `t` is one of them. */
  ghost predicate Stretch(ticks: set<int>, a: int, b: int, t: int) {
    a <= t < b && forall u :: a <= u < b ==> u in ticks
  }

  ghost predicate InLongStretch(ticks: set<int>, least: int, t: int) {
    exists a, b :: Stretch(ticks, a, b, t) && b - a >= least
  }

  /** The ticks of a set that lie in a run of at least `least` of its ticks. */
  ghost function LongStretches(ticks: set<int>, least: int): set<int> {
    set t | t in ticks && InLongStretch(ticks, least, t)
  }

  lemma {:induction false} LongOnesAre(xs: seq<Interval>, least: int)
    ensures forall x :: x in T.LongOnes(xs, least) <==> x in xs && x.e - x.s >= least
  {
    if xs != [] {
      LongOnesAre(Init(xs), least);
      assert forall x :: x in xs <==> x in Init(xs) || x == Last(xs);
    }
  }

  lemma {:induction false} LongOnesDisjoint(xs: seq<Interval>, least: int)
    requires Disjoint(xs)
    ensures Disjoint(T.LongOnes(xs, least))
  {
    if xs != [] {
      LongOnesDisjoint(Init(xs), least);
      LongOnesAre(Init(xs), least);
      DisjointMore(T.LongOnes(Init(xs), least), xs);
    }
  }

  lemma DisjointMore(ys: seq<Interval>, xs: seq<Interval>)
    requires xs != [] && Disjoint(xs) && Disjoint(ys) && forall y :: y in ys ==> y in Init(xs)
    ensures Disjoint(ys + [Last(xs)]) && Disjoint(ys + [])
  {
    forall k | 0 <= k < |ys|
      ensures ys[k].e <= Last(xs).s
    {
      assert ys[k] in ys;
      var i :| 0 <= i < |Init(xs)| && Init(xs)[i] == ys[k];
      assert xs[i] == ys[k] && xs[i].e <= xs[|xs| - 1].s;
    }
    assert ys + [] == ys;
  }

  /** Beyond either end of a piece there is a tick outside all pieces. */
  lemma PieceEnds(xs: seq<Interval>, x: Interval)
    requires Separated(xs) && AllProper(xs) && x in xs
    ensures x.s - 1 !in Points(xs) && x.e !in Points(xs)
  {
    PointsAreCovered(xs);
    var i :| 0 <= i < |xs| && xs[i] == x;
    forall y | y in xs
      ensures !(y.s <= x.s - 1 < y.e) && !(y.s <= x.e < y.e)
    {
      var j :| 0 <= j < |xs| && xs[j] == y;
      assert i < j || j < i || i == j;
    }
  }

  lemma PieceIsStretch(xs: seq<Interval>, x: Interval, t: int)
    requires x in xs && x.s <= t < x.e
    ensures Stretch(Points(xs), x.s, x.e, t)
  {
    PointsAreCovered(xs);
    assert forall u :: x.s <= u < x.e ==> Covers(xs, u);
  }

  /** What is in a long piece is in a long stretch. */
  lemma LongPieces(xs: seq<Interval>, least: int)
    ensures Points(T.LongOnes(xs, least)) <= LongStretches(Points(xs), least)
  {
    LongOnesAre(xs, least);
    PointsAreCovered(T.LongOnes(xs, least));
    PointsAreCovered(xs);
    hide Points, T.LongOnes;
    forall t | t in Points(T.LongOnes(xs, least))
      ensures t in LongStretches(Points(xs), least)
    {
      var x :| x in T.LongOnes(xs, least) && x.s <= t < x.e;
      PieceIsStretch(xs, x, t);
      assert Covers(xs, t);
    }
  }

  /** When the pieces lie apart, and only long pieces hold long stretches. */
  lemma LongStretchesArePieces(xs: seq<Interval>, least: int)
    requires Separated(xs) && AllProper(xs)
    ensures LongStretches(Points(xs), least) == Points(T.LongOnes(xs, least))
  {
    LongPieces(xs, least);
    LongOnesAre(xs, least);
    PointsAreCovered(T.LongOnes(xs, least));
    PointsAreCovered(xs);
    hide Points, T.LongOnes, Separated, AllProper;
    forall t | t in LongStretches(Points(xs), least)
      ensures t in Points(T.LongOnes(xs, least))
    {
      var a, b :| Stretch(Points(xs), a, b, t) && b - a >= least;
      var x :| x in xs && x.s <= t < x.e;
      PieceEnds(xs, x);
      assert x.s <= a && b <= x.e;
      assert Covers(T.LongOnes(xs, least), t);
    }
  }

  /** Two pieces that touch hide a stretch longer than the first. */
  lemma TouchingPieces(xs: seq<Interval>, i: nat, j: nat)
    requires Disjoint(xs) && AllProper(xs) && i < j < |xs| && xs[i].e == xs[j].s
    ensures var least := xs[i].e - xs[i].s + 1;
      Total(T.LongOnes(xs, least)) < |LongStretches(Points(xs), least)|
  {
    hide *;
    var x := xs[i];
    var least := x.e - x.s + 1;
    var long := T.LongOnes(xs, least);
    LongOnesDisjoint(xs, least);
    TotalIsMeasure(long);
    LongPieces(xs, least);
    TouchingStretch(xs, i, j);
    ApartFromLong(xs, i, least);
    ProperRange(xs, i);
    More(Points(long), Range(x.s, x.e), LongStretches(Points(xs), least));
  }

  lemma ProperRange(xs: seq<Interval>, i: nat)
    requires AllProper(xs) && i < |xs|
    ensures Range(xs[i].s, xs[i].e) != {}
  {
    assert xs[i] in xs && xs[i].s in Range(xs[i].s, xs[i].e);
  }

  lemma More(a: set<int>, b: set<int>, c: set<int>)
    requires a !! b && b != {} && a <= c && b <= c
    ensures |a| < |c|
  {
    assert c == a + (c - a);
    assert b <= c - a;
    assert |c - a| == 0 ==> c - a == {};
  }

  lemma ApartFromLong(xs: seq<Interval>, i: nat, least: int)
    requires Disjoint(xs) && i < |xs| && xs[i].e - xs[i].s < least
    ensures Points(T.LongOnes(xs, least)) !! Range(xs[i].s, xs[i].e)
  {
    LongOnesAre(xs, least);
    PointsAreCovered(T.LongOnes(xs, least));
    forall y | y in T.LongOnes(xs, least)
      ensures Range(y.s, y.e) !! Range(xs[i].s, xs[i].e)
    {
      var j :| 0 <= j < |xs| && xs[j] == y;
      assert i < j || j < i || i == j;
    }
  }

  lemma TouchingStretch(xs: seq<Interval>, i: nat, j: nat)
    requires AllProper(xs) && i < j < |xs| && xs[i].e == xs[j].s
    ensures Range(xs[i].s, xs[i].e) <= LongStretches(Points(xs), xs[i].e - xs[i].s + 1)
  {
    var x, y := xs[i], xs[j];
    assert x in xs && y in xs;
    PointsAreCovered(xs);
    forall t | t in Range(x.s, x.e)
      ensures t in LongStretches(Points(xs), x.e - x.s + 1)
    {
      assert Covers(xs, t) && Covers(xs, x.e);
      PieceIsStretch(xs, x, t);
      assert Stretch(Points(xs), x.s, x.e + 1, t);
    }
  }

  /** Disjoint pieces lie apart if and only if none is parted from the next between two of their ticks. */
  lemma ApartIffJoined(xs: seq<Interval>)
    requires Disjoint(xs) && AllProper(xs)
    ensures Separated(xs) <==> forall t :: t - 1 in Points(xs) && t in Points(xs) ==> Joined(xs, t)
  {
    PointsAreCovered(xs);
    if Separated(xs) {
      forall t | t - 1 in Points(xs) && t in Points(xs)
        ensures Joined(xs, t)
      {
        var x :| x in xs && x.s <= t < x.e;
        PieceEnds(xs, x);
        assert x.s < t;
      }
    } else {
      var i, j :| 0 <= i < j < |xs| && !(xs[i].e < xs[j].s && xs[i].s <= xs[j].s);
      NotJoinedBetween(xs, i, j);
    }
  }

  lemma NotJoinedBetween(xs: seq<Interval>, i: nat, j: nat)
    requires Disjoint(xs) && AllProper(xs) && i < j < |xs| && !(xs[i].e < xs[j].s && xs[i].s <= xs[j].s)
    ensures xs[i].e == xs[j].s && xs[i].e - 1 in Points(xs) && xs[i].e in Points(xs) && !Joined(xs, xs[i].e)
  {
    PointsAreCovered(xs);
    var t := xs[i].e;
    assert xs[i] in xs && xs[j] in xs;
    assert Covers(xs, t - 1) && Covers(xs, t);
    forall y | y in xs
      ensures !(y.s < t < y.e)
    {
      var k :| 0 <= k < |xs| && xs[k] == y;
      assert i < k || k < i || i == k;
    }
  }

  /** Pieces measure the long stretches, at every threshold, if and only if they lie apart. */
  lemma MeasuresIff(xs: seq<Interval>)
    requires Disjoint(xs) && AllProper(xs)
    ensures (forall least :: Total(T.LongOnes(xs, least)) == |LongStretches(Points(xs), least)|) <==> Separated(xs)
  {
    if Separated(xs) {
      forall least
        ensures Total(T.LongOnes(xs, least)) == |LongStretches(Points(xs), least)|
      {
        LongStretchesArePieces(xs, least);
        LongOnesDisjoint(xs, least);
        TotalIsMeasure(T.LongOnes(xs, least));
      }
    } else {
      var i, j :| 0 <= i < j < |xs| && !(xs[i].e < xs[j].s && xs[i].s <= xs[j].s);
      NotJoinedBetween(xs, i, j);
      TouchingPieces(xs, i, j);
    }
  }

  // ---------------------------------------------------------------- dead air

  /** The ticks of the duration at which nobody speaks, without padding. */
  function SilentTicks(caller: seq<Interval>, agentIv: seq<Interval>, duration: int, padding: seq<Interval>): set<int> {
    Range(0, duration) - (Points(caller) + Points(agentIv)) - Points(padding)
  }

  /** No empty interval of speech or padding lies between two of those ticks. */
  ghost predicate Unsplit(caller: seq<Interval>, agentIv: seq<Interval>, duration: int, padding: seq<Interval>) {
    var silent := SilentTicks(caller, agentIv, duration, padding);
    forall t :: t - 1 in silent && t in silent ==>
      Interval(t, t) !in Merged(T.Speech(caller, agentIv)) && Interval(t, t) !in Merged(padding)
  }

  lemma NothingCut(xs: seq<Interval>)
    ensures Subtracted(xs, []) == xs && Merged([]) == []
  {
    SubtractedNothing(xs);
  }

  lemma {:induction false} SubtractedNothing(xs: seq<Interval>)
    ensures Subtracted(xs, []) == xs
  {
    if xs != [] {
      SubtractedNothing(Init(xs));
      CarvedByNothing(Last(xs));
      hide Carved;
      assert xs == Init(xs) + [Last(xs)];
    }
  }

  lemma CarvedByNothing(x: Interval)
    ensures Carved([x], []) == [x]
  {
  }

  function Pieced(caller: seq<Interval>, agentIv: seq<Interval>, duration: int, padding: seq<Interval>): seq<Interval> {
    Subtracted(T.Silence(caller, agentIv, duration), Merged(padding))
  }

  lemma DeadAirIs(caller: seq<Interval>, agentIv: seq<Interval>, duration: int, padding: seq<Interval>, minGap: int)
    requires duration > 0
    ensures T.DeadAir(caller, agentIv, duration, minGap, padding) ==
            Total(T.LongOnes(Pieced(caller, agentIv, duration, padding), minGap))
  {
    hide Subtracted, Merged, Complemented, T.LongOnes, Total;
    if padding == [] {
      NothingCut(T.Silence(caller, agentIv, duration));
      T.DeadAirPlain(caller, agentIv, duration, minGap);
    } else {
      T.DeadAirPadded(caller, agentIv, duration, minGap, padding);
    }
  }

  lemma PiecesAre(caller: seq<Interval>, agentIv: seq<Interval>, duration: int, padding: seq<Interval>)
    requires T.Heard(caller, agentIv, duration) && duration > 0
    requires NotInverted(Merged(T.Speech(caller, agentIv))) && NotInverted(Merged(padding))
    ensures var pieces := Pieced(caller, agentIv, duration, padding);
      Disjoint(pieces) && AllProper(pieces) && Points(pieces) == SilentTicks(caller, agentIv, duration, padding)
  {
    hide Merged, Complemented, Points, Subtracted, T.Speech, Range, NotInverted, Disjoint, AllProper;
    var gaps := T.Silence(caller, agentIv, duration);
    T.SilencePoints(caller, agentIv, duration);
    ComplementGaps(Merged(T.Speech(caller, agentIv)), duration);
    T.SpeechPoints(caller, agentIv);
    MergedExact(padding);
    SubtractedPoints(gaps, Merged(padding));
    SubtractedDisjoint(gaps, Merged(padding));
    SubtractedProper(gaps, Merged(padding));
  }

  /** Two neighbouring silent ticks lie in one piece unless an empty interval lies between them. */
  lemma PieceJoined(caller: seq<Interval>, agentIv: seq<Interval>, duration: int, padding: seq<Interval>, t: int)
    requires T.Heard(caller, agentIv, duration) && duration > 0
    requires NotInverted(Merged(T.Speech(caller, agentIv))) && NotInverted(Merged(padding))
    requires var silent := SilentTicks(caller, agentIv, duration, padding); t - 1 in silent && t in silent
    ensures Joined(Pieced(caller, agentIv, duration, padding), t) <==>
      Interval(t, t) !in Merged(T.Speech(caller, agentIv)) && Interval(t, t) !in Merged(padding)
  {
    hide Merged, Complemented, Points, Subtracted, T.Speech, NotInverted, Joined;
    var speech := Merged(T.Speech(caller, agentIv));
    T.SpeechPoints(caller, agentIv);
    T.SpeechEnds(caller, agentIv, duration);
    MergedExact(padding);
    assert Clear(speech, t) && Clear(Merged(padding), t);
    SubtractedJoined(T.Silence(caller, agentIv, duration), Merged(padding), t);
    ComplementJoined(speech, duration, t);
  }

  /** What the threshold means. When no interval left of the merges is inverted: dead air is, at every threshold, the
      number of silent ticks in runs of at least that many, if and only if no empty interval, of speech or of padding,
      lies between two silent ticks. */
  lemma DeadAirIsLongSilence(caller: seq<Interval>, agentIv: seq<Interval>, duration: int, padding: seq<Interval>)
    requires T.Heard(caller, agentIv, duration) && duration > 0
    requires NotInverted(Merged(T.Speech(caller, agentIv))) && NotInverted(Merged(padding))
    ensures (forall minGap :: T.DeadAir(caller, agentIv, duration, minGap, padding) ==
              |LongStretches(SilentTicks(caller, agentIv, duration, padding), minGap)|) <==>
            Unsplit(caller, agentIv, duration, padding)
  {
    hide Merged, T.DeadAir, LongStretches, Points, Pieced, SilentTicks, T.Heard, Separated, T.LongOnes, NotInverted,
      Joined, T.Speech;
    var pieces := Pieced(caller, agentIv, duration, padding);
    var silent := SilentTicks(caller, agentIv, duration, padding);
    PiecesAre(caller, agentIv, duration, padding);
    MeasuresIff(pieces);
    ApartIffJoined(pieces);
    forall minGap
      ensures T.DeadAir(caller, agentIv, duration, minGap, padding) == Total(T.LongOnes(pieces, minGap))
    {
      DeadAirIs(caller, agentIv, duration, padding, minGap);
    }
    forall t | t - 1 in silent && t in silent
      ensures Joined(pieces, t) <==>
        Interval(t, t) !in Merged(T.Speech(caller, agentIv)) && Interval(t, t) !in Merged(padding)
    {
      PieceJoined(caller, agentIv, duration, padding, t);
    }
  }

  /** So at every threshold when every window is a proper one. */
  lemma ProperDeadAir(caller: seq<Interval>, agentIv: seq<Interval>, duration: int, padding: seq<Interval>, minGap: int)
    requires T.Heard(caller, agentIv, duration) && duration > 0
    requires AllProper(caller) && AllProper(agentIv) && AllProper(padding)
    ensures T.DeadAir(caller, agentIv, duration, minGap, padding) ==
            |LongStretches(SilentTicks(caller, agentIv, duration, padding), minGap)|
  {
    MergedExact(caller);
    MergedExact(T.Speech(caller, agentIv));
    MergedExact(padding);
    ProperOnly(Merged(T.Speech(caller, agentIv))) by { SpeechProper(caller, agentIv); }
    ProperOnly(Merged(padding));
    hide *;
    DeadAirIsLongSilence(caller, agentIv, duration, padding);
    NeverSplit(caller, agentIv, duration, padding);
  }

  lemma SpeechProper(caller: seq<Interval>, agentIv: seq<Interval>)
    requires AllProper(Merged(caller)) && AllProper(agentIv)
    ensures AllProper(T.Speech(caller, agentIv))
  {
    hide Merged;
  }

  lemma ProperOnly(xs: seq<Interval>)
    requires AllProper(xs)
    ensures NotInverted(xs) && forall t: int :: Interval(t, t) !in xs
  {
  }

  lemma NeverSplit(caller: seq<Interval>, agentIv: seq<Interval>, duration: int, padding: seq<Interval>)
    requires forall t: int :: Interval(t, t) !in Merged(T.Speech(caller, agentIv))
    requires forall t: int :: Interval(t, t) !in Merged(padding)
    ensures Unsplit(caller, agentIv, duration, padding)
  {
  }

  // ---------------------------------------------------------------- an empty window

  /** A TTS span of window (5, 5) in ten ticks of silence: at a threshold of six none of them counts. */
  lemma EmptyWindowSplitsSilence()
    ensures var agentIv := T.AgentIntervals([T.Window(T.Tts, Some(5), Some(5))], 0);
      && T.Heard([], agentIv, 10) && T.DeadAir([], agentIv, 10, 6, []) == 0
      && LongStretches(SilentTicks([], agentIv, 10, []), 6) == Range(0, 10)
  {
    var y := Interval(5, 5);
    EmptyWindow(y);
    EmptyGaps(y);
    T.DeadAirPlain([], [y], 10, 6);
    AllSilent(y);
  }

  lemma EmptyWindow(y: Interval)
    requires y == Interval(5, 5)
    ensures T.AgentIntervals([T.Window(T.Tts, Some(5), Some(5))], 0) == [y] && T.Heard([], [y], 10)
  {
    hide Merged;
    var w := T.Window(T.Tts, Some(5), Some(5));
    assert Init([w]) == [] && T.AgentSpans([w]) == [w];
    assert T.Windows([w], 0) == [y];
    T.MergedOne(y);
  }

  lemma EmptyGaps(y: Interval)
    requires y == Interval(5, 5)
    ensures T.Silence([], [y], 10) == [Interval(0, 5), Interval(5, 10)]
    ensures Total(T.LongOnes([Interval(0, 5), Interval(5, 10)], 6)) == 0
  {
    T.MergedEmpty();
    T.MergedOne(y);
    hide Merged;
    assert T.Speech([], [y]) == [] + [y] == [y];
    assert Init([y]) == [] && Sweep([]) == ([], 0);
    assert Sweep([y]) == ([] + [Interval(0, 5)], 5);
    assert Complemented([y], 10) == [Interval(0, 5)] + [Interval(5, 10)];
    var gaps := [Interval(0, 5), Interval(5, 10)];
    assert Init(gaps) == [Interval(0, 5)] && Init([Interval(0, 5)]) == [];
    assert T.LongOnes([Interval(0, 5)], 6) == [];
    assert T.LongOnes(gaps, 6) == [];
  }

  lemma AllSilent(y: Interval)
    requires y == Interval(5, 5)
    ensures LongStretches(SilentTicks([], [y], 10, []), 6) == Range(0, 10)
  {
    PointsOne(y);
    assert Points([]) == {} && Range(5, 5) == {};
    var silent := SilentTicks([], [y], 10, []);
    assert silent == Range(0, 10);
    forall t | t in silent
      ensures InLongStretch(silent, 6, t)
    {
      assert Stretch(silent, 0, 10, t);
    }
  }
}
