/** Run-length extraction by edge differencing, as array expressions: the padding mask of a channel
    to intervals, and the zero runs inside a signal to a dropout count and length. */
module Runs {
  import opened Intervals

  /** Positions [s, e). */
  datatype Run = Run(s: nat, e: nat)

  // ---------------------------------------------------------------- the array expressions

  function AsInt(b: bool): int { if b then 1 else 0 }

  function Diff(mask: seq<bool>): seq<int>
    requires mask != []
  {
    seq(|mask| - 1, i requires 0 <= i < |mask| - 1 => AsInt(mask[i + 1]) - AsInt(mask[i]))
  }

  /** `flatnonzero(edges == v) + 1` */
  function After(edges: seq<int>, v: int): seq<nat> {
    if edges == [] then []
    else After(edges[..|edges| - 1], v) + if edges[|edges| - 1] == v then [|edges|] else []
  }

  function Starts(mask: seq<bool>): seq<nat>
    requires mask != []
  {
    (if mask[0] then [0] else []) + After(Diff(mask), 1)
  }

  function Ends(mask: seq<bool>): seq<nat>
    requires mask != []
  {
    After(Diff(mask), -1) + if mask[|mask| - 1] then [|mask|] else []
  }

  function Zip(ss: seq<nat>, es: seq<nat>): seq<Run> {
    seq(if |ss| <= |es| then |ss| else |es|, i requires 0 <= i < |ss| && i < |es| => Run(ss[i], es[i]))
  }

  predicate Any(mask: seq<bool>) {
    exists i :: 0 <= i < |mask| && mask[i]
  }

  /** `_mask_to_intervals`, in samples. */
  function MaskToIntervals(mask: seq<bool>): seq<Run> {
    if !Any(mask) then [] else Zip(Starts(mask), Ends(mask))
  }

  // ---------------------------------------------------------------- reading left to right

  /** One more mask position: the last run grows while the mask holds. */
  function Grow(runs: seq<Run>, mask: seq<bool>): seq<Run>
    requires mask != []
  {
    var n := |mask| - 1;
    if !mask[n] then runs
    else if n > 0 && mask[n - 1] && runs != [] then runs[..|runs| - 1] + [Run(runs[|runs| - 1].s, n + 1)]
    else runs + [Run(n, n + 1)]
  }

  function Scan(mask: seq<bool>): seq<Run> {
    if mask == [] then [] else Grow(Scan(mask[..|mask| - 1]), mask)
  }

  lemma DiffGrows(mask: seq<bool>)
    requires |mask| > 1
    ensures var n := |mask| - 1; var e := AsInt(mask[n]) - AsInt(mask[n - 1]);
      && After(Diff(mask), 1) == After(Diff(mask[..n]), 1) + (if e == 1 then [n] else [])
      && After(Diff(mask), -1) == After(Diff(mask[..n]), -1) + (if e == -1 then [n] else [])
  {
    var d := Diff(mask);
    assert d[..|d| - 1] == Diff(mask[..|mask| - 1]);
  }

  /** Starts and ends pair up, and pairing them is the scan. */
  lemma {:induction false} EdgesPairUp(mask: seq<bool>)
    requires mask != []
    ensures |Starts(mask)| == |Ends(mask)| == |Scan(mask)|
    ensures Zip(Starts(mask), Ends(mask)) == Scan(mask)
    ensures mask[|mask| - 1] ==> Scan(mask) != []
  {
    var n := |mask| - 1;
    if n == 0 {
      assert Diff(mask) == [] && Scan(mask[..0]) == [];
    } else {
      EdgesPairUp(mask[..n]);
      DiffGrows(mask);
      ScanStep(mask);
    }
  }

  lemma ScanStep(mask: seq<bool>)
    requires |mask| > 1
    requires var p := mask[..|mask| - 1];
      && |Starts(p)| == |Ends(p)| == |Scan(p)| && Zip(Starts(p), Ends(p)) == Scan(p)
      && (p[|p| - 1] ==> Scan(p) != [])
    ensures |Starts(mask)| == |Ends(mask)| == |Scan(mask)|
    ensures Zip(Starts(mask), Ends(mask)) == Scan(mask)
    ensures mask[|mask| - 1] ==> Scan(mask) != []
  {
    hide After, Diff;
    var n := |mask| - 1;
    var p := mask[..n];
    DiffGrows(mask);
    assert p[0] == mask[0] && p[n - 1] == mask[n - 1];
    forall i | 0 <= i < |Scan(p)|
      ensures Scan(p)[i] == Run(Starts(p)[i], Ends(p)[i])
    {
      assert Zip(Starts(p), Ends(p))[i] == Scan(p)[i];
    }
    assert Starts(mask) == Starts(p) + (if mask[n] && !mask[n - 1] then [n] else []);
    if mask[n - 1] {
      assert Ends(p) == After(Diff(p), -1) + [n];
      assert Ends(mask) == if mask[n] then After(Diff(p), -1) + [n + 1] else Ends(p);
    }
  }

  // ---------------------------------------------------------------- exactness

  ghost predicate Maximal(mask: seq<bool>, r: Run) {
    && r.s < r.e <= |mask| && (forall k :: r.s <= k < r.e ==> mask[k])
    && (r.s > 0 ==> !mask[r.s - 1]) && (r.e < |mask| ==> !mask[r.e])
  }

  ghost predicate Apart(rs: seq<Run>) {
    forall i, j :: 0 <= i < j < |rs| ==> rs[i].e < rs[j].s
  }

  ghost predicate Inside(rs: seq<Run>, i: int, k: int) {
    0 <= i < |rs| && rs[i].s <= k < rs[i].e
  }

  ghost predicate Exact(mask: seq<bool>, rs: seq<Run>) {
    && Apart(rs)
    && (forall i :: 0 <= i < |rs| ==> Maximal(mask, rs[i]))
    && (forall k :: 0 <= k < |mask| && mask[k] ==> exists i :: Inside(rs, i, k))
  }

  lemma {:induction false} ScanExact(mask: seq<bool>)
    ensures Exact(mask, Scan(mask))
  {
    if mask != [] {
      ScanExact(mask[..|mask| - 1]);
      ExactGrows(mask, Scan(mask[..|mask| - 1]));
    }
  }

  lemma LastRunTouches(mask: seq<bool>, rs: seq<Run>)
    requires Exact(mask, rs) && mask != [] && mask[|mask| - 1]
    ensures rs != [] && rs[|rs| - 1].e == |mask|
  {
    var i :| Inside(rs, i, |mask| - 1);
    var last := rs[|rs| - 1];
    assert Maximal(mask, last) && Maximal(mask, rs[i]);
  }

  lemma ExactGrows(mask: seq<bool>, rs: seq<Run>)
    requires mask != [] && Exact(mask[..|mask| - 1], rs)
    ensures Exact(mask, Grow(rs, mask))
  {
    hide Exact;
    if !mask[|mask| - 1] {
      ExactKept(mask, rs);
    } else if |mask| > 1 && mask[|mask| - 2] {
      LastRunTouches(mask[..|mask| - 1], rs);
      ExactExtended(mask, rs);
    } else {
      ExactAppended(mask, rs);
    }
  }

  lemma ExactKept(mask: seq<bool>, rs: seq<Run>)
    requires mask != [] && Exact(mask[..|mask| - 1], rs) && !mask[|mask| - 1]
    ensures Exact(mask, rs)
  {
    hide Inside;
    forall i | 0 <= i < |rs|
      ensures Maximal(mask, rs[i])
    {
      assert Maximal(mask[..|mask| - 1], rs[i]);
    }
  }

  lemma ExactExtended(mask: seq<bool>, rs: seq<Run>)
    requires |mask| > 1 && Exact(mask[..|mask| - 1], rs) && mask[|mask| - 1]
    requires rs != [] && rs[|rs| - 1].e == |mask| - 1
    ensures Exact(mask, rs[..|rs| - 1] + [Run(rs[|rs| - 1].s, |mask|)])
  {
    var n := |mask| - 1;
    var vs := rs[..|rs| - 1] + [Run(rs[|rs| - 1].s, n + 1)];
    forall i | 0 <= i < |vs|
      ensures Maximal(mask, vs[i]) && vs[i].s == rs[i].s && vs[i].e >= rs[i].e
    {
      assert Maximal(mask[..n], rs[i]);
      assert i < |rs| - 1 ==> rs[i].e < rs[|rs| - 1].s;
    }
    hide Maximal;
    CoveredStill(mask, rs, vs, n);
  }

  lemma ExactAppended(mask: seq<bool>, rs: seq<Run>)
    requires mask != [] && Exact(mask[..|mask| - 1], rs) && mask[|mask| - 1]
    requires |mask| > 1 ==> !mask[|mask| - 2]
    ensures Exact(mask, rs + [Run(|mask| - 1, |mask|)])
  {
    var n := |mask| - 1;
    var vs := rs + [Run(n, n + 1)];
    forall i | 0 <= i < |rs|
      ensures Maximal(mask, vs[i]) && vs[i].e < n
    {
      assert Maximal(mask[..n], rs[i]);
      assert mask[..n][rs[i].e - 1];
    }
    assert Maximal(mask, vs[|rs|]);
    hide Maximal;
    CoveredStill(mask, rs, vs, n);
  }

  lemma CoveredStill(mask: seq<bool>, rs: seq<Run>, vs: seq<Run>, n: nat)
    requires |mask| == n + 1 && |rs| <= |vs| && vs != [] && vs[|vs| - 1].s <= n < vs[|vs| - 1].e
    requires forall i :: 0 <= i < |rs| ==> vs[i].s == rs[i].s && vs[i].e >= rs[i].e
    requires forall k :: 0 <= k < n && mask[k] ==> exists i :: Inside(rs, i, k)
    ensures forall k :: 0 <= k < n + 1 && mask[k] ==> exists i :: Inside(vs, i, k)
  {
    forall k | 0 <= k < n + 1 && mask[k]
      ensures exists i :: Inside(vs, i, k)
    {
      if k < n {
        var i :| Inside(rs, i, k);
        assert Inside(vs, i, k);
      } else {
        assert Inside(vs, |vs| - 1, k);
      }
    }
  }

  /** Every maximal run is listed, so the list is the sequence of all of them, left to right. */
  lemma MaximalIsListed(mask: seq<bool>, rs: seq<Run>, r: Run)
    requires Exact(mask, rs)
    ensures r in rs <==> Maximal(mask, r)
  {
    if Maximal(mask, r) {
      assert mask[r.s];
      var i :| Inside(rs, i, r.s);
    }
  }

  function Length(rs: seq<Run>): nat
    requires forall r :: r in rs ==> r.s <= r.e
  {
    if rs == [] then 0
    else
      assert rs[|rs| - 1] in rs;
      Length(rs[..|rs| - 1]) + (rs[|rs| - 1].e - rs[|rs| - 1].s)
  }

  function CountTrue(mask: seq<bool>): nat {
    if mask == [] then 0 else CountTrue(mask[..|mask| - 1]) + AsInt(mask[|mask| - 1])
  }

  lemma {:induction false} ScanLength(mask: seq<bool>)
    ensures forall r :: r in Scan(mask) ==> r.s <= r.e
    ensures Length(Scan(mask)) == CountTrue(mask)
  {
    if mask != [] {
      var p := mask[..|mask| - 1];
      ScanLength(p);
      ScanExact(p);
      GrowLength(Scan(p), mask);
    }
  }

  lemma GrowLength(runs: seq<Run>, mask: seq<bool>)
    requires mask != [] && Exact(mask[..|mask| - 1], runs) && forall r :: r in runs ==> r.s <= r.e <= |mask| - 1
    ensures forall r :: r in Grow(runs, mask) ==> r.s <= r.e
    ensures Length(Grow(runs, mask)) == Length(runs) + AsInt(mask[|mask| - 1])
  {
    hide Exact;
    var n := |mask| - 1;
    if mask[n] && n > 0 && mask[n - 1] && runs != [] {
      LastRunTouches(mask[..n], runs);
      ExtendLength(runs, n);
    }
  }

  lemma ExtendLength(runs: seq<Run>, n: nat)
    requires runs != [] && runs[|runs| - 1].e == n && forall r :: r in runs ==> r.s <= r.e <= n
    ensures var vs := runs[..|runs| - 1] + [Run(runs[|runs| - 1].s, n + 1)];
      (forall r :: r in vs ==> r.s <= r.e <= n + 1) && Length(vs) == Length(runs) + 1
  {
    var p, last := runs[..|runs| - 1], runs[|runs| - 1];
    assert last in runs && runs == p + [last];
  }

  /** The intervals are precisely the maximal true runs, in order, and their lengths add up to the
      number of true positions. */
  lemma MaskToIntervalsExact(mask: seq<bool>)
    ensures Apart(MaskToIntervals(mask))
    ensures forall r :: r in MaskToIntervals(mask) <==> Maximal(mask, r)
    ensures mask != [] && Any(mask) ==> |Starts(mask)| == |Ends(mask)|
    ensures forall r :: r in MaskToIntervals(mask) ==> r.s <= r.e
    ensures Length(MaskToIntervals(mask)) == CountTrue(mask)
  {
    ScanExact(mask);
    ScanLength(mask);
    if mask != [] {
      EdgesPairUp(mask);
    }
    if Scan(mask) != [] {
      assert Maximal(mask, Scan(mask)[0]);
      assert mask[Scan(mask)[0].s];
    }
    forall r
      ensures r in Scan(mask) <==> Maximal(mask, r)
    {
      MaximalIsListed(mask, Scan(mask), r);
    }
  }

  // ---------------------------------------------------------------- dropouts

  function NonZero(samples: seq<int>): seq<nat> {
    if samples == [] then []
    else
      NonZero(samples[..|samples| - 1])
      + if samples[|samples| - 1] != 0 then [|samples| - 1] else []
  }

  function IsZero(xs: seq<int>): seq<bool> {
    seq(|xs|, i requires 0 <= i < |xs| => xs[i] == 0)
  }

  function AtLeast(rs: seq<Run>, min: int): seq<Run> {
    if rs == [] then []
    else
      var r := rs[|rs| - 1];
      AtLeast(rs[..|rs| - 1], min) + if r.e - r.s >= min then [r] else []
  }

  lemma {:induction false} NonZeroExact(samples: seq<int>)
    ensures forall i :: i in NonZero(samples) <==> 0 <= i < |samples| && samples[i] != 0
    ensures forall a, b :: 0 <= a < b < |NonZero(samples)| ==> NonZero(samples)[a] < NonZero(samples)[b]
  {
    if samples != [] {
      var p := samples[..|samples| - 1];
      NonZeroExact(p);
      assert forall a :: 0 <= a < |NonZero(p)| ==> NonZero(p)[a] in NonZero(p);
    }
  }

  /** The stretch from the first to the last nonzero sample. */
  function Interior(samples: seq<int>): (r: (nat, seq<int>))
    requires |NonZero(samples)| >= 2
    ensures r.0 + |r.1| <= |samples| && r.1 == samples[r.0..r.0 + |r.1|]
  {
    var nz := NonZero(samples);
    NonZeroExact(samples);
    assert nz[0] in nz && nz[|nz| - 1] in nz;
    (nz[0], samples[nz[0]..nz[|nz| - 1] + 1])
  }

  /** The long runs, in positions of the interior. */
  function LongRuns(samples: seq<int>, minLen: int): seq<Run> {
    if |NonZero(samples)| < 2 then []
    else AtLeast(MaskToIntervals(IsZero(Interior(samples).1)), if minLen > 1 then minLen else 1)
  }

  /** `_interior_zero_runs`: how many, and their total length. */
  function InteriorZeroRuns(samples: seq<int>, minLen: int): (r: (nat, nat)) {
    LongRunsNotInverted(samples, minLen);
    (|LongRuns(samples, minLen)|, Length(LongRuns(samples, minLen)))
  }

  lemma {:induction false} AtLeastKeeps(rs: seq<Run>, min: int)
    requires Apart(rs) && forall r :: r in rs ==> r.s <= r.e
    ensures Apart(AtLeast(rs, min))
    ensures forall r :: r in AtLeast(rs, min) <==> r in rs && r.e - r.s >= min
  {
    if rs != [] {
      var p := rs[..|rs| - 1];
      AtLeastKeeps(p, min);
      assert rs == p + [rs[|rs| - 1]];
      forall i | 0 <= i < |AtLeast(p, min)|
        ensures AtLeast(p, min)[i].e < rs[|rs| - 1].s
      {
        assert AtLeast(p, min)[i] in p;
      }
    }
  }

  lemma LongRunsNotInverted(samples: seq<int>, minLen: int)
    ensures forall r :: r in LongRuns(samples, minLen) ==> r.s <= r.e
  {
    if |NonZero(samples)| >= 2 {
      var mask := IsZero(Interior(samples).1);
      MaskToIntervalsExact(mask);
      AtLeastKeeps(MaskToIntervals(mask), if minLen > 1 then minLen else 1);
    }
  }

  /** A maximal run of zeros with a nonzero sample on either side. */
  ghost predicate Dropout(samples: seq<int>, s: int, e: int) {
    && 0 < s < e < |samples| && samples[s - 1] != 0 && samples[e] != 0
    && forall k :: s <= k < e ==> samples[k] == 0
  }

  lemma InteriorEnds(samples: seq<int>)
    requires |NonZero(samples)| >= 2
    ensures var (lo, xs) := Interior(samples);
      && xs != [] && xs[0] != 0 && xs[|xs| - 1] != 0
      && forall k :: 0 <= k < |samples| && samples[k] != 0 ==> lo <= k < lo + |xs|
  {
    var nz := NonZero(samples);
    NonZeroExact(samples);
    assert nz[0] in nz && nz[|nz| - 1] in nz && nz[0] < nz[|nz| - 1];
    forall k | 0 <= k < |samples| && samples[k] != 0
      ensures nz[0] <= k <= nz[|nz| - 1]
    {
      assert k in nz;
      var a :| 0 <= a < |nz| && nz[a] == k;
      assert a > 0 ==> nz[0] < nz[a];
    }
  }

  /** `xs` is the stretch of `samples` from `lo`, nonzero at both ends and everywhere around it zero. */
  ghost predicate Stretch(samples: seq<int>, lo: nat, xs: seq<int>) {
    && lo + |xs| <= |samples| && xs == samples[lo..lo + |xs|]
    && xs != [] && xs[0] != 0 && xs[|xs| - 1] != 0
    && forall k :: 0 <= k < |samples| && samples[k] != 0 ==> lo <= k < lo + |xs|
  }

  lemma RunIsDropout(samples: seq<int>, lo: nat, xs: seq<int>, r: Run)
    requires Stretch(samples, lo, xs) && Maximal(IsZero(xs), r)
    ensures Dropout(samples, lo + r.s, lo + r.e)
  {
    var z := IsZero(xs);
    assert z[r.s] && z[r.e - 1];
    assert !z[r.s - 1] && !z[r.e];
    forall k | lo + r.s <= k < lo + r.e
      ensures samples[k] == 0
    {
      assert z[k - lo];
    }
  }

  lemma DropoutIsRun(samples: seq<int>, lo: nat, xs: seq<int>, s: int, e: int)
    requires Stretch(samples, lo, xs) && Dropout(samples, s, e)
    ensures s >= lo && e >= lo && Maximal(IsZero(xs), Run(s - lo, e - lo))
  {
    assert lo <= s - 1 && e < lo + |xs|;
    forall k | s - lo <= k < e - lo
      ensures IsZero(xs)[k]
    {
      assert samples[lo + k] == 0;
    }
  }

  /** A run of the interior mask is a dropout of the signal, shifted. */
  lemma InteriorRunIsDropout(samples: seq<int>, s: int, e: int)
    requires |NonZero(samples)| >= 2
    ensures var (lo, xs) := Interior(samples);
      Dropout(samples, s, e) <==> s >= lo && e >= lo && Maximal(IsZero(xs), Run(s - lo, e - lo))
  {
    var (lo, xs) := Interior(samples);
    InteriorEnds(samples);
    assert Stretch(samples, lo, xs);
    hide *;
    if Dropout(samples, s, e) {
      DropoutIsRun(samples, lo, xs, s, e);
    } else if s >= lo && e >= lo && Maximal(IsZero(xs), Run(s - lo, e - lo)) {
      RunIsDropout(samples, lo, xs, Run(s - lo, e - lo));
    }
  }

  predicate LongEnough(s: int, e: int, minLen: int) {
    e - s >= if minLen > 1 then minLen else 1
  }

  predicate Listed(rs: seq<Run>, lo: nat, s: int, e: int) {
    s >= lo && e >= lo && Run(s - lo, e - lo) in rs
  }

  /** The long runs are the dropouts of at least max(1, minLen) samples, shifted. */
  lemma LongRunsAreDropouts(samples: seq<int>, minLen: int, s: int, e: int)
    ensures Apart(LongRuns(samples, minLen))
    ensures Dropout(samples, s, e) && LongEnough(s, e, minLen)
       <==> |NonZero(samples)| >= 2 && Listed(LongRuns(samples, minLen), Interior(samples).0, s, e)
  {
    if |NonZero(samples)| >= 2 {
      var mask := IsZero(Interior(samples).1);
      MaskToIntervalsExact(mask);
      AtLeastKeeps(MaskToIntervals(mask), if minLen > 1 then minLen else 1);
      InteriorRunIsDropout(samples, s, e);
    } else {
      TwoNonZero(samples, s, e);
    }
  }

  lemma TwoNonZero(samples: seq<int>, s: int, e: int)
    ensures Dropout(samples, s, e) ==> |NonZero(samples)| >= 2
  {
    NonZeroExact(samples);
    if Dropout(samples, s, e) {
      var nz := NonZero(samples);
      assert s - 1 in nz && e in nz;
    }
  }

  // ---------------------------------------------------------------- their number and their length

  ghost function LongDropouts(samples: seq<int>, minLen: int): set<(int, int)> {
    set s, e | 0 <= s < |samples| && 0 <= e < |samples| && Dropout(samples, s, e) && LongEnough(s, e, minLen) :: (s, e)
  }

  ghost predicate InLongDropout(samples: seq<int>, minLen: int, k: int) {
    exists d :: d in LongDropouts(samples, minLen) && d.0 <= k < d.1
  }

  ghost function PositionsInDropouts(samples: seq<int>, minLen: int): set<int> {
    set k | 0 <= k < |samples| && InLongDropout(samples, minLen, k)
  }

  function EndPoints(rs: seq<Run>, lo: nat): set<(int, int)> {
    if rs == [] then {}
    else EndPoints(rs[..|rs| - 1], lo) + {(lo + rs[|rs| - 1].s, lo + rs[|rs| - 1].e)}
  }

  function Positions(rs: seq<Run>, lo: nat): set<int> {
    if rs == [] then {}
    else Positions(rs[..|rs| - 1], lo) + Range(lo + rs[|rs| - 1].s, lo + rs[|rs| - 1].e)
  }

  lemma {:induction false} EndPointsAre(rs: seq<Run>, lo: nat, d: (int, int))
    ensures d in EndPoints(rs, lo) <==> Listed(rs, lo, d.0, d.1)
  {
    if rs != [] {
      EndPointsAre(rs[..|rs| - 1], lo, d);
      assert forall r :: r in rs <==> r in rs[..|rs| - 1] || r == rs[|rs| - 1];
    }
  }

  lemma {:induction false} PositionsAre(rs: seq<Run>, lo: nat, k: int)
    ensures k in Positions(rs, lo) <==> exists r :: r in rs && lo + r.s <= k < lo + r.e
  {
    if rs != [] {
      PositionsAre(rs[..|rs| - 1], lo, k);
      assert forall r :: r in rs <==> r in rs[..|rs| - 1] || r == rs[|rs| - 1];
    }
  }

  lemma LastBeyond(rs: seq<Run>, lo: nat)
    requires rs != [] && Apart(rs) && rs[|rs| - 1].s <= rs[|rs| - 1].e
    ensures var p, r := rs[..|rs| - 1], rs[|rs| - 1];
      (lo + r.s, lo + r.e) !in EndPoints(p, lo) && Positions(p, lo) !! Range(lo + r.s, lo + r.e)
  {
    hide EndPoints, Positions;
    var p, r := rs[..|rs| - 1], rs[|rs| - 1];
    forall x | x in p
      ensures x.e < r.s
    {
      var i :| 0 <= i < |p| && p[i] == x;
      assert rs[i] == x;
    }
    EndPointsAre(p, lo, (lo + r.s, lo + r.e));
    forall k | k in Positions(p, lo)
      ensures k < lo + r.s
    {
      PositionsAre(p, lo, k);
    }
  }

  lemma InitApart(rs: seq<Run>)
    requires rs != [] && Apart(rs) && forall r :: r in rs ==> r.s <= r.e
    ensures Apart(rs[..|rs| - 1]) && (forall r :: r in rs[..|rs| - 1] ==> r.s <= r.e) && rs[|rs| - 1].s <= rs[|rs| - 1].e
  {
    assert rs[|rs| - 1] in rs;
  }

  /** Runs that lie apart are as many as their end points, and cover as many positions as they are long. */
  lemma {:induction false} ApartCounts(rs: seq<Run>, lo: nat)
    requires Apart(rs) && forall r :: r in rs ==> r.s <= r.e
    ensures |EndPoints(rs, lo)| == |rs| && |Positions(rs, lo)| == Length(rs)
  {
    hide Apart, Range;
    if rs != [] {
      var p, r := rs[..|rs| - 1], rs[|rs| - 1];
      InitApart(rs);
      ApartCounts(p, lo);
      LastBeyond(rs, lo);
      RangeSize(lo + r.s, lo + r.e);
    }
  }

  /** What is returned: the number of dropouts of at least max(1, minLen) samples, and the number of samples
      that lie in them. */
  lemma InteriorZeroRunsExact(samples: seq<int>, minLen: int)
    ensures InteriorZeroRuns(samples, minLen) ==
            (|LongDropouts(samples, minLen)|, |PositionsInDropouts(samples, minLen)|)
  {
    var rs, lo := LongRuns(samples, minLen), if |NonZero(samples)| >= 2 then Interior(samples).0 else 0;
    LongRunsAreDropouts(samples, minLen, 0, 0);
    LongRunsNotInverted(samples, minLen);
    ApartCounts(rs, lo);
    hide LongRuns, Dropout, LongEnough, NonZero, Interior, EndPoints, Positions, Length, Apart;
    forall d
      ensures d in LongDropouts(samples, minLen) <==> d in EndPoints(rs, lo)
    {
      DropoutListed(samples, minLen, lo, d);
    }
    assert LongDropouts(samples, minLen) == EndPoints(rs, lo);
    forall k
      ensures k in PositionsInDropouts(samples, minLen) <==> k in Positions(rs, lo)
    {
      PositionListed(samples, minLen, rs, lo, k);
    }
    assert PositionsInDropouts(samples, minLen) == Positions(rs, lo);
  }

  lemma LongDropoutIs(samples: seq<int>, minLen: int, d: (int, int))
    ensures d in LongDropouts(samples, minLen) <==> Dropout(samples, d.0, d.1) && LongEnough(d.0, d.1, minLen)
  {
    assert d == (d.0, d.1);
  }

  lemma DropoutListed(samples: seq<int>, minLen: int, lo: nat, d: (int, int))
    requires lo == if |NonZero(samples)| >= 2 then Interior(samples).0 else 0
    ensures d in LongDropouts(samples, minLen) <==> d in EndPoints(LongRuns(samples, minLen), lo)
  {
    hide LongDropouts, NonZero, Interior, EndPoints, Apart, Dropout, LongEnough, Listed;
    LongDropoutIs(samples, minLen, d);
    LongRunsAreDropouts(samples, minLen, d.0, d.1);
    EndPointsAre(LongRuns(samples, minLen), lo, d);
    NoneListed(samples, minLen, lo, d);
  }

  lemma NoneListed(samples: seq<int>, minLen: int, lo: nat, d: (int, int))
    ensures |NonZero(samples)| < 2 ==> !Listed(LongRuns(samples, minLen), lo, d.0, d.1)
  {
  }

  lemma PositionListed(samples: seq<int>, minLen: int, rs: seq<Run>, lo: nat, k: int)
    requires LongDropouts(samples, minLen) == EndPoints(rs, lo)
    ensures k in PositionsInDropouts(samples, minLen) <==> k in Positions(rs, lo)
  {
    hide EndPoints, Positions, LongDropouts;
    PositionsAre(rs, lo, k);
    if k in Positions(rs, lo) {
      var r :| r in rs && lo + r.s <= k < lo + r.e;
      EndPointsAre(rs, lo, (lo + r.s, lo + r.e));
      InSamples(samples, minLen, (lo + r.s, lo + r.e));
    }
    if d :| d in LongDropouts(samples, minLen) && d.0 <= k < d.1 {
      EndPointsAre(rs, lo, d);
      assert Run(d.0 - lo, d.1 - lo) in rs;
    }
  }

  lemma InSamples(samples: seq<int>, minLen: int, d: (int, int))
    requires d in LongDropouts(samples, minLen)
    ensures 0 < d.0 < d.1 < |samples|
  {
  }
}
