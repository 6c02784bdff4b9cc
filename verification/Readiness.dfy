/** When the consumer analyses a call: on the delivery that finds it ready, and in the grace flush. */
module Readiness {
  import opened Options
  import opened Sorting
  import opened Otlp
  import opened IngestStore
  import opened IngestSteps
  import opened IngestSafety

  // ---------------------------------------------------------------- on a delivery

  /** Row `i` is the one the record's id finds after assembly, and it is complete, has audio, is supported and has not
      been analysed at this version. */
  ghost predicate FoundRipe(st: Store, r: Rec, now: int, version: int, i: int) {
    var rows := Assembled(st, r, now).calls;
    && 0 <= i < |rows| && CallId(st.calls, r) == Some(rows[i].ext)
    && rows[i].spansComplete && rows[i].mediaReady
    && rows[i].status in {AwaitingMedia, Ingested} && rows[i].version != Some(version)
  }

  lemma RipeIsReadied(st: Store, r: Rec, now: int, version: int)
    requires RowsSafe(st) && !Dropped(st, r)
    ensures var found := Readied(Assembled(st, r, now), CallId(st.calls, r), version);
      && (found.Some? <==> exists i :: FoundRipe(st, r, now, version, i))
      && (forall i :: FoundRipe(st, r, now, version, i) ==> found == Some(Assembled(st, r, now).calls[i]))
  {
    AssembledSafe(st, r, now);
    hide Assembled, CallId, RowsSafe;
    var after := Assembled(st, r, now);
    var cid := CallId(st.calls, r);
    assert ExtsDistinct(after.calls) by { SafeExts(after); }
    if cid.Some? {
      var i := ByExtAt(after.calls, cid.value);
      forall j | 0 <= j < |after.calls| && after.calls[j].ext == cid.value
        ensures i == j
      {
        assert i < j || j < i || i == j;
      }
      if i < |after.calls| && ReadyNow(after.calls[i], version) {
        assert FoundRipe(st, r, now, version, i);
      }
    }
  }

  lemma SafeExts(st: Store)
    requires RowsSafe(st)
    ensures ExtsDistinct(st.calls) && PksDistinct(st)
  {
  }

  /** A delivery that is not dropped stores and assembles its batch, and does no more unless the row it finds is ripe.
      Then an analysis appends one run of that row and sets its version; an unsupported schema sets its status; and any
      other failure undoes the delivery. */
  lemma DeliveryAnalyses(st: Store, r: Rec, now: int, version: int, outcome: Outcome)
    requires RowsSafe(st) && !Dropped(st, r)
    ensures var after := Assembled(st, r, now); var st' := Handle(st, r, now, version, outcome);
      && after.runs == st.runs
      && ((forall i :: !FoundRipe(st, r, now, version, i)) ==> st' == after)
      && (forall i :: FoundRipe(st, r, now, version, i) ==>
            var c := after.calls[i];
            match outcome
            case Analysed =>
              st' == after.(calls := after.calls[i := c.(version := Some(version))],
                            runs := st.runs + [IngestRun(c.pk, version)])
            case NotSupported => st' == after.(calls := after.calls[i := c.(status := Unsupported)])
            case Failed => st' == st)
  {
    RipeIsReadied(st, r, now, version);
    AssembledSafe(st, r, now);
    SafeExts(st);
    SafeExts(Assembled(st, r, now));
    var st0 := AssembledIs(st, r, now);
    if CallId(st.calls, r).Some? {
      var k := UpsertPuts(st, r, CallId(st.calls, r).value, now);
    }
    hide Assembled, CallId, RowsSafe, Readied, Analyse, Upsert, Landing, FoundRipe;
    var after := Assembled(st, r, now);
    forall i: int | FoundRipe(st, r, now, version, i)
      ensures 0 <= i < |after.calls|
      ensures var c := after.calls[i];
        Analyse(after, c, version, outcome) ==
          if outcome == NotSupported then after.(calls := after.calls[i := c.(status := Unsupported)])
          else after.(calls := after.calls[i := c.(version := Some(version))],
                      runs := after.runs + [IngestRun(c.pk, version)])
    {
      RipeInRange(st, r, now, version, i);
      AnalysePuts(after, i, version, outcome);
    }
  }

  lemma RipeInRange(st: Store, r: Rec, now: int, version: int, i: int)
    requires FoundRipe(st, r, now, version, i)
    ensures 0 <= i < |Assembled(st, r, now).calls|
  {
  }

  /** So a delivery appends a run if and only if it is not dropped, is analysed, and finds a ripe row. */
  lemma RunAppendedIff(st: Store, r: Rec, now: int, version: int, outcome: Outcome)
    requires RowsSafe(st)
    ensures Handle(st, r, now, version, outcome).runs != st.runs <==>
      !Dropped(st, r) && outcome == Analysed && exists i :: FoundRipe(st, r, now, version, i)
  {
    if !Dropped(st, r) {
      DeliveryAnalyses(st, r, now, version, outcome);
      hide *;
      if i :| FoundRipe(st, r, now, version, i) {
        RipeInRange(st, r, now, version, i);
        if outcome == Analysed {
          var run := IngestRun(Assembled(st, r, now).calls[i].pk, version);
          assert |st.runs + [run]| == |st.runs| + 1;
        }
      }
    }
  }

  /** Over whole runs: what a delivery analyses is a row that is complete and has audio. */
  lemma OnlyRipeRowsAnalysed(steps: seq<Step>, k: nat)
    requires k < |steps| && steps[k].Deliver?
    requires Run(EMPTY, steps[..k + 1]).runs != Run(EMPTY, steps[..k]).runs
    ensures var before, after := Run(EMPTY, steps[..k]), Run(EMPTY, steps[..k + 1]);
      exists c :: c in after.calls && c.spansComplete && c.mediaReady && c.version == Some(steps[k].version)
                  && after.runs == before.runs + [IngestRun(c.pk, steps[k].version)]
  {
    var before, step := Run(EMPTY, steps[..k]), steps[k];
    RunSafe(steps[..k]);
    assert steps[..k + 1][..k] == steps[..k];
    var after := Handle(before, step.rec, step.now, step.version, step.outcome);
    assert Run(EMPTY, steps[..k + 1]) == after;
    hide Run, RowsSafe, Handle, Assembled;
    RunAppendedIff(before, step.rec, step.now, step.version, step.outcome);
    DeliveryAnalyses(before, step.rec, step.now, step.version, step.outcome);
    var i :| FoundRipe(before, step.rec, step.now, step.version, i);
    assert after.calls[i] in after.calls;
  }

  // ---------------------------------------------------------------- in the grace flush

  /** Complete, with audio or quiet since before the cutoff, supported, and not analysed at this version. */
  predicate Ripe(c: Call, cutoff: int, version: int) {
    && c.spansComplete && (c.mediaReady || c.lastActivity < cutoff)
    && c.status in {AwaitingMedia, Ingested} && c.version != Some(version)
  }

  lemma RipeIsDue(c: Call, cutoff: int, version: int)
    ensures IsDue(cutoff, version)(c) <==> Ripe(c, cutoff, version)
  {
  }

  ghost function RipeKeys(st: Store, cutoff: int, version: int): set<nat> {
    set k | 0 <= k < |st.calls| && Ripe(st.calls[k], cutoff, version) :: st.calls[k].pk
  }

  lemma RipeKeysAreDue(st: Store, cutoff: int, version: int)
    ensures RipeKeys(st, cutoff, version) == DueKeys(st, cutoff, version)
  {
  }

  /** What a flush takes: ripe rows only, in order of activity, as many as fit, and none that was active after a ripe row
      that it leaves. */
  lemma FlushTakes(st: Store, cutoff: int, version: int, batch: nat)
    requires PksDistinct(st)
    ensures var cs := Taken(st, cutoff, version, batch); var ripe := RipeKeys(st, cutoff, version);
      && (forall c :: c in cs ==> c in st.calls && Ripe(c, cutoff, version))
      && (forall i, j :: 0 <= i < j < |cs| ==> cs[i].lastActivity <= cs[j].lastActivity && cs[i].pk != cs[j].pk)
      && |cs| == (if batch < |ripe| then batch else |ripe|)
      && (forall c, d :: c in cs && d in st.calls && Ripe(d, cutoff, version) && d !in cs ==>
            c.lastActivity <= d.lastActivity)
  {
    var due := Filter(st.calls, IsDue(cutoff, version));
    FilterMembers(st.calls, IsDue(cutoff, version));
    TakenAreDue(st, cutoff, version, batch);
    SortedMembers(due, ByActivity);
    SortedOrders(due, ByActivity);
    DueKeysAre(st, cutoff, version);
    RipeKeysAreDue(st, cutoff, version);
    KeysCount(due);
    forall c: Call
      ensures IsDue(cutoff, version)(c) <==> Ripe(c, cutoff, version)
    {
      RipeIsDue(c, cutoff, version);
    }
    hide Sorted, Filter, IsDue, Ripe, Due, DueKeys, RipeKeys;
    LimitIsFirst(Sorted(due, ByActivity), batch);
  }

  /** What is left out of a sorted list by a limit comes after what is taken. */
  lemma LimitIsFirst(cs: seq<Call>, batch: nat)
    requires forall i, j :: 0 <= i < j < |cs| ==> ByActivity(cs[i], cs[j])
    ensures forall c, d :: c in Limit(cs, batch) && d in cs && d !in Limit(cs, batch) ==> c.lastActivity <= d.lastActivity
    ensures forall i, j :: 0 <= i < j < |Limit(cs, batch)| ==>
      Limit(cs, batch)[i].lastActivity <= Limit(cs, batch)[j].lastActivity
    ensures forall c :: c in Limit(cs, batch) ==> c in cs
  {
    forall c, d | c in Limit(cs, batch) && d in cs && d !in Limit(cs, batch)
      ensures c.lastActivity <= d.lastActivity
    {
      var i :| 0 <= i < |Limit(cs, batch)| && Limit(cs, batch)[i] == c;
      var j :| 0 <= j < |cs| && cs[j] == d;
      assert forall k :: 0 <= k < |Limit(cs, batch)| ==> cs[k] == Limit(cs, batch)[k] && cs[k] in Limit(cs, batch);
    }
  }

  /** How a row that a committed flush takes comes out of it, and the runs the flush appends. */
  function AfterAnalysis(c: Call, version: int, outcome: Outcome): Call {
    match outcome
    case Analysed => c.(version := Some(version))
    case NotSupported => c.(status := Unsupported)
    case Failed => c
  }

  function RunsOf(cs: seq<Call>, version: int, outcomes: nat -> Outcome): seq<IngestRun> {
    if cs == [] then []
    else
      var c := cs[|cs| - 1];
      RunsOf(cs[..|cs| - 1], version, outcomes) + if outcomes(c.pk) == Analysed then [IngestRun(c.pk, version)] else []
  }

  lemma {:induction false} AllAnalysed(st: Store, cs: seq<Call>, version: int, outcomes: nat -> Outcome)
    requires PksDistinct(st) && Separate(cs) && forall k :: 0 <= k < |cs| ==> cs[k] in st.calls
    requires !AnyFails(cs, outcomes)
    ensures var st' := AnalyseAll(st, cs, version, outcomes);
      && st'.runs == st.runs + RunsOf(cs, version, outcomes) && |st'.calls| == |st.calls|
      && (forall j :: 0 <= j < |st.calls| ==>
            st'.calls[j] == if st.calls[j] in cs then AfterAnalysis(st.calls[j], version, outcomes(st.calls[j].pk))
                            else st.calls[j])
  {
    hide AnalyseAll, Analyse;
    var i := AnalyseAllLast(st, cs, version, outcomes);
    if cs == [] {
      AnalyseNone(st, version, outcomes);
      assert st.runs + [] == st.runs;
    } else {
      var init, c := cs[..|cs| - 1], cs[|cs| - 1];
      BatchInit(st, cs);
      FailsFewer(cs, outcomes);
      AllAnalysed(st, init, version, outcomes);
      var prev := AnalyseAll(st, init, version, outcomes);
      AnalysePuts(prev, i, version, outcomes(c.pk));
      assert forall x :: x in cs <==> x == c || x in init;
      RowHolds(st, prev, init, c, i, version, outcomes);
    }
  }

  lemma FailsFewer(cs: seq<Call>, outcomes: nat -> Outcome)
    requires cs != [] && !AnyFails(cs, outcomes)
    ensures !AnyFails(cs[..|cs| - 1], outcomes) && outcomes(cs[|cs| - 1].pk) != Failed
  {
    assert forall i :: 0 <= i < |cs| - 1 ==> cs[..|cs| - 1][i] == cs[i];
  }

  /** The row about to be analysed is the one that was read. */
  lemma RowHolds(st: Store, prev: Store, init: seq<Call>, c: Call, i: nat, version: int, outcomes: nat -> Outcome)
    requires PksDistinct(st) && c in st.calls && c !in init && |prev.calls| == |st.calls| && i < |prev.calls|
    requires prev.calls[i] == c
    requires forall j :: 0 <= j < |st.calls| ==> prev.calls[j].pk == st.calls[j].pk
    ensures st.calls[i] == c
  {
    var k :| 0 <= k < |st.calls| && st.calls[k] == c;
    assert i < k || k < i || i == k;
  }

  /** A committed flush writes exactly the rows it takes, each by its outcome, and appends one run for each that is
      analysed, in the order taken; a flush in which one of them fails changes nothing. */
  lemma FlushWrites(st: Store, cutoff: int, version: int, batch: nat, outcomes: nat -> Outcome)
    requires PksDistinct(st)
    ensures var cs := Taken(st, cutoff, version, batch); var st' := Flush(st, cutoff, version, batch, outcomes);
      && ((exists c :: c in cs && outcomes(c.pk) == Failed) ==> st' == st)
      && ((forall c :: c in cs ==> outcomes(c.pk) != Failed) ==>
            && st'.frags == st.frags && st'.tombs == st.tombs && st'.nextPk == st.nextPk
            && st'.runs == st.runs + RunsOf(cs, version, outcomes) && |st'.calls| == |st.calls|
            && (forall j :: 0 <= j < |st.calls| ==>
                  st'.calls[j] == if st.calls[j] in cs then AfterAnalysis(st.calls[j], version, outcomes(st.calls[j].pk))
                                  else st.calls[j]))
  {
    var cs := Taken(st, cutoff, version, batch);
    TakenAreRows(st, cutoff, version, batch);
    hide Taken, AnalyseAll, RunsOf, AfterAnalysis;
    if c :| c in cs && outcomes(c.pk) == Failed {
      var i :| 0 <= i < |cs| && cs[i] == c;
    } else {
      var i := AnalyseAllLast(st, cs, version, outcomes);
      AllAnalysed(st, cs, version, outcomes);
    }
  }
}
