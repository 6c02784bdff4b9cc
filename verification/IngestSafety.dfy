/** What every run of the consumer keeps: row identity, tombstones, completeness, one analysis per
    version, and a grace flush that drains. */
module IngestSafety {
  import opened Options
  import opened Sorting
  import opened Otlp
  import opened IngestStore
  import opened IngestSteps

  // ---------------------------------------------------------------- identity and tombstones

  /** Rows have distinct keys and distinct, non-empty, live ids. */
  ghost predicate RowsSafe(st: Store) {
    && PksDistinct(st)
    && ExtsDistinct(st.calls)
    && (forall i :: 0 <= i < |st.calls| ==> st.calls[i].ext != "" && st.calls[i].ext !in st.tombs)
  }

  lemma SameRowsSafe(a: Store, b: Store)
    requires RowsSafe(a) && SameRows(a.calls, b.calls) && a.tombs == b.tombs && a.nextPk == b.nextPk
    ensures RowsSafe(b)
  {
  }

  lemma UpsertSafe(st: Store, r: Rec, cid: string, now: int)
    requires RowsSafe(st) && cid != "" && cid !in st.tombs
    ensures RowsSafe(Upsert(st, r, cid, now))
  {
    hide Landing, Upsert, HasRoot, TraceOf, ByExt, ByTrace;
    var i := UpsertPuts(st, r, cid, now);
  }

  lemma AssembledSafe(st: Store, r: Rec, now: int)
    requires RowsSafe(st) && !Dropped(st, r)
    ensures RowsSafe(Assembled(st, r, now))
  {
    hide Upsert, StoreFragment, Assembled, Hint, TraceOf;
    var cid := CallId(st.calls, r);
    var st' := AssembledIs(st, r, now);
    if cid.Some? {
      UpsertSafe(st, r, cid.value, now);
    }
    SameRowsSafe(st', Assembled(st, r, now));
  }

  lemma AnalyseSafe(st: Store, i: nat, version: int, outcome: Outcome)
    requires RowsSafe(st) && i < |st.calls|
    ensures RowsSafe(Analyse(st, st.calls[i], version, outcome))
  {
    AnalysePuts(st, i, version, outcome);
    SameRowsSafe(st, Analyse(st, st.calls[i], version, outcome));
  }

  lemma HandleSafe(st: Store, r: Rec, now: int, version: int, outcome: Outcome)
    requires RowsSafe(st)
    ensures RowsSafe(Handle(st, r, now, version, outcome))
  {
    hide Assembled, Analyse, Handle, Aborts, Pending, CallId;
    var st', i := HandleIs(st, r, now, version, outcome);
    if Commits(st, r, now, version, outcome) {
      AssembledSafe(st, r, now);
      if i < |st'.calls| {
        AnalyseSafe(st', i, version, outcome);
      }
    }
  }

  lemma FlushSafe(st: Store, cutoff: int, version: int, batch: nat, outcomes: nat -> Outcome)
    requires RowsSafe(st)
    ensures RowsSafe(Flush(st, cutoff, version, batch, outcomes))
  {
    hide Taken, AnalyseAll, AnyFails;
    TakenAreRows(st, cutoff, version, batch);
    var i := AnalyseAllLast(st, Taken(st, cutoff, version, batch), version, outcomes);
    SameRowsSafe(st, AnalyseAll(st, Taken(st, cutoff, version, batch), version, outcomes));
  }

  lemma EraseSafe(st: Store, id: string)
    requires RowsSafe(st)
    ensures RowsSafe(Erase(st, id))
  {
    var i := ByExtAt(st.calls, id);
    if i < |st.calls| {
      var pk := st.calls[i].pk;
      var kept := WithoutCall(st.calls, pk);
      FilterRows(st.calls, (c: Call) => c.pk != pk);
      forall k | 0 <= k < |kept|
        ensures kept[k].ext != id && kept[k].ext != "" && kept[k].ext !in st.tombs && kept[k].pk < st.nextPk
      {
        var j: nat :| j < |st.calls| && st.calls[j] == kept[k];
      }
      hide ByExt, Filter, WithoutCall;
    }
  }

  lemma NextSafe(st: Store, step: Step)
    requires RowsSafe(st)
    ensures RowsSafe(Next(st, step))
  {
    hide Handle, Flush, RegisterArtifact, Erase, RowsSafe;
    match step
    case Deliver(r, now, version, outcome) => HandleSafe(st, r, now, version, outcome);
    case Sweep(cutoff, version, batch, outcomes) => FlushSafe(st, cutoff, version, batch, outcomes);
    case Artifact(id, isAudio, now) =>
      assert PksDistinct(st) by { RowsPks(st); }
      RegisterKeepsRows(st, id, isAudio, now);
      SameRowsSafe(st, RegisterArtifact(st, id, isAudio, now));
    case Erasure(id) => EraseSafe(st, id);
  }

  lemma RowsPks(st: Store)
    requires RowsSafe(st)
    ensures PksDistinct(st) && ExtsDistinct(st.calls)
  {
  }

  lemma {:induction false} RunSafe(steps: seq<Step>)
    ensures RowsSafe(Run(EMPTY, steps))
  {
    if steps != [] {
      RunSafe(steps[..|steps| - 1]);
      NextSafe(Run(EMPTY, steps[..|steps| - 1]), steps[|steps| - 1]);
    }
  }

  /** In every run no row bears a tombstoned id, no two rows share an id, and an erasure that finds its
      call always writes a tombstone that is new. */
  lemma NoRowIsTombstoned(steps: seq<Step>)
    ensures var st := Run(EMPTY, steps);
      && (forall c :: c in st.calls ==> c.ext !in st.tombs)
      && (forall c, d :: c in st.calls && d in st.calls && c.ext == d.ext ==> c == d)
      && (forall id :: ByExt(st.calls, id).Some? ==> id !in st.tombs && id in Erase(st, id).tombs)
  {
    var st := Run(EMPTY, steps);
    RunSafe(steps);
    forall id | ByExt(st.calls, id).Some?
      ensures id !in st.tombs && id in Erase(st, id).tombs
    {
      var i := ByExtAt(st.calls, id);
    }
  }

  // ---------------------------------------------------------------- completeness

  /** Rows that survive a step keep a completeness once gained, and new rows have new keys. */
  ghost predicate Completing(st: Store, st': Store) {
    && st.nextPk <= st'.nextPk
    && (forall j :: 0 <= j < |st'.calls| && st'.calls[j].pk < st.nextPk ==>
          exists i :: 0 <= i < |st.calls| && Completes(st.calls[i], st'.calls[j]))
  }

  predicate Completes(c: Call, c': Call) {
    c.pk == c'.pk && (c.spansComplete ==> c'.spansComplete)
  }

  lemma SameRowsComplete(st: Store, st': Store)
    requires SameRows(st.calls, st'.calls) && st.nextPk == st'.nextPk
    ensures Completing(st, st')
  {
    assert forall i :: 0 <= i < |st.calls| ==> Completes(st.calls[i], st'.calls[i]);
  }

  lemma CompletingThen(a: Store, b: Store, c: Store)
    requires Completing(a, b) && SameRows(b.calls, c.calls) && b.nextPk == c.nextPk
    ensures Completing(a, c)
  {
    forall j | 0 <= j < |c.calls| && c.calls[j].pk < a.nextPk
      ensures exists i :: 0 <= i < |a.calls| && Completes(a.calls[i], c.calls[j])
    {
      var i :| 0 <= i < |a.calls| && Completes(a.calls[i], b.calls[j]);
      assert Completes(a.calls[i], c.calls[j]);
    }
  }

  lemma AssembledCompletes(st: Store, r: Rec, now: int)
    requires PksDistinct(st)
    ensures Completing(st, Assembled(st, r, now))
  {
    hide Upsert, StoreFragment, Assembled, Landing, CallId, ByExt, HasRoot, TraceOf;
    var cid := CallId(st.calls, r);
    var st' := AssembledIs(st, r, now);
    if cid.Some? {
      var i := UpsertPuts(st, r, cid.value, now);
      assert forall j :: 0 <= j < |st.calls| ==> Completes(st.calls[j], st'.calls[j]);
    } else {
      assert forall j :: 0 <= j < |st.calls| ==> Completes(st.calls[j], st'.calls[j]);
    }
  }

  lemma NextCompletes(st: Store, step: Step)
    requires PksDistinct(st)
    ensures Completing(st, Next(st, step))
  {
    hide Assembled, Analyse, Handle, Aborts, Pending, CallId, Completing, RegisterArtifact, AnalyseAll, Taken;
    match step
    case Deliver(r, now, version, outcome) =>
      var st', i := HandleIs(st, r, now, version, outcome);
      AssembledCompletes(st, r, now);
      SameRowsComplete(st, st);
      if i < |st'.calls| {
        AnalysePuts(st', i, version, outcome);
        CompletingThen(st, st', Analyse(st', st'.calls[i], version, outcome));
      }
    case Sweep(cutoff, version, batch, outcomes) =>
      TakenAreRows(st, cutoff, version, batch);
      var cs := Taken(st, cutoff, version, batch);
      var i := AnalyseAllLast(st, cs, version, outcomes);
      SameRowsComplete(st, st);
      SameRowsComplete(st, AnalyseAll(st, cs, version, outcomes));
    case Artifact(id, isAudio, now) =>
      RegisterKeepsRows(st, id, isAudio, now);
      SameRowsComplete(st, RegisterArtifact(st, id, isAudio, now));
    case Erasure(id) => EraseCompletes(st, id);
  }

  lemma EraseCompletes(st: Store, id: string)
    ensures Completing(st, Erase(st, id))
  {
    var st' := Erase(st, id);
    forall j | 0 <= j < |st'.calls|
      ensures exists i :: 0 <= i < |st.calls| && Completes(st.calls[i], st'.calls[j])
    {
      if ByExt(st.calls, id).Some? {
        var pk := ByExt(st.calls, id).value.pk;
        FilterRows(st.calls, (c: Call) => c.pk != pk);
      }
      assert st'.calls[j] in st.calls;
      var i :| 0 <= i < |st.calls| && st.calls[i] == st'.calls[j];
      assert Completes(st.calls[i], st'.calls[j]);
    }
  }

  /** Row keys are never reused: a row whose key had been given out by some point is a row of that point. */
  lemma {:induction false} KeysNeverReused(steps: seq<Step>, n: nat, c': Call) returns (c: Call)
    requires n <= |steps| && c' in Run(EMPTY, steps).calls && c'.pk < Run(EMPTY, steps[..n]).nextPk
    ensures c in Run(EMPTY, steps[..n]).calls && Completes(c, c')
    decreases |steps|
  {
    if n == |steps| {
      assert steps[..n] == steps;
      c := c';
    } else {
      var init := steps[..|steps| - 1];
      assert init[..n] == steps[..n];
      var prev := Run(EMPTY, init);
      RunSafe(init);
      NextCompletes(prev, steps[|steps| - 1]);
      KeysGrow(init, n);
      var b := Earlier(prev, Run(EMPTY, steps), c');
      c := KeysNeverReused(init, n, b);
    }
  }

  /** A row once complete stays complete for as long as it lives. */
  lemma CompleteForever(steps: seq<Step>, n: nat, c: Call, c': Call)
    requires n <= |steps| && c in Run(EMPTY, steps[..n]).calls && c' in Run(EMPTY, steps).calls && c.pk == c'.pk
    ensures c.spansComplete ==> c'.spansComplete
  {
    var st := Run(EMPTY, steps[..n]);
    RunSafe(steps[..n]);
    hide Run;
    var i :| 0 <= i < |st.calls| && st.calls[i] == c;
    assert c.pk < st.nextPk;
    var b := KeysNeverReused(steps, n, c');
    var j :| 0 <= j < |st.calls| && st.calls[j] == b;
    assert i < j || j < i || i == j;
  }

  lemma Earlier(st: Store, st': Store, c': Call) returns (b: Call)
    requires Completing(st, st') && c' in st'.calls && c'.pk < st.nextPk
    ensures b in st.calls && Completes(b, c')
  {
    var j :| 0 <= j < |st'.calls| && st'.calls[j] == c';
    var i :| 0 <= i < |st.calls| && Completes(st.calls[i], st'.calls[j]);
    b := st.calls[i];
  }

  lemma {:induction false} KeysGrow(steps: seq<Step>, n: nat)
    requires n <= |steps|
    ensures Run(EMPTY, steps[..n]).nextPk <= Run(EMPTY, steps).nextPk
    decreases |steps|
  {
    if n == |steps| {
      assert steps[..n] == steps;
    } else {
      var init := steps[..|steps| - 1];
      assert init[..n] == steps[..n];
      KeysGrow(init, n);
      RunSafe(init);
      NextCompletes(Run(EMPTY, init), steps[|steps| - 1]);
    }
  }

  // ---------------------------------------------------------------- one analysis per version

  /** The versions at which a row was analysed, oldest first. */
  function History(runs: seq<IngestRun>, pk: nat): seq<int> {
    if runs == [] then []
    else History(runs[..|runs| - 1], pk) +
         if runs[|runs| - 1].call == pk then [runs[|runs| - 1].version] else []
  }

  function LastOf(h: seq<int>): Option<int> {
    if h == [] then None else Some(h[|h| - 1])
  }

  /** No version twice in a row; and if a newest version is given, never downwards. */
  ghost predicate Progress(h: seq<int>, newest: Option<int>) {
    && (forall k :: 0 < k < |h| ==> h[k - 1] != h[k])
    && (newest.Some? ==> forall k :: 0 < k < |h| ==> h[k - 1] <= h[k])
    && (newest.Some? ==> forall k :: 0 <= k < |h| ==> h[k] <= newest.value)
  }

  /** A row's version is that of its last analysis. */
  ghost predicate Logged(st: Store, newest: Option<int>) {
    && (forall i :: 0 <= i < |st.calls| ==> st.calls[i].version == LastOf(History(st.runs, st.calls[i].pk)))
    && (forall pk: nat :: st.nextPk <= pk ==> History(st.runs, pk) == [])
    && (forall pk: nat :: Progress(History(st.runs, pk), newest))
  }

  lemma HistoryAppend(runs: seq<IngestRun>, x: IngestRun, pk: nat)
    ensures History(runs + [x], pk) == History(runs, pk) + if x.call == pk then [x.version] else []
  {
    assert (runs + [x])[..|runs|] == runs;
  }

  lemma WithoutRunsAppend(runs: seq<IngestRun>, x: IngestRun, pk: nat)
    ensures WithoutRuns(runs + [x], pk) ==
      if x.call == pk then WithoutRuns(runs, pk) else WithoutRuns(runs, pk) + [x]
  {
    var keep := (x: IngestRun) => x.call != pk;
    FilterAppend(runs, [x], keep);
    assert Filter([x], keep) == Only(x, keep);
  }

  lemma {:induction false} HistoryFilter(runs: seq<IngestRun>, pk: nat, q: nat)
    ensures History(WithoutRuns(runs, pk), q) == if q == pk then [] else History(runs, q)
  {
    if runs == [] {
      assert WithoutRuns(runs, pk) == [];
    } else {
      hide *;
      var init, x := runs[..|runs| - 1], runs[|runs| - 1];
      assert runs == init + [x];
      HistoryFilter(init, pk, q);
      WithoutRunsAppend(init, x, pk);
      HistoryAppend(WithoutRuns(init, pk), x, q);
      HistoryAppend(init, x, q);
    }
  }

  /** The newest version after a step. */
  function Newest(newest: Option<int>, version: int): Option<int> {
    if newest.Some? then Some(version) else None
  }

  predicate Reaches(newest: Option<int>, version: int) {
    newest.Some? ==> newest.value <= version
  }

  lemma ProgressMore(h: seq<int>, newest: Option<int>, version: int)
    requires Progress(h, newest) && Reaches(newest, version)
    ensures Progress(h, Newest(newest, version))
    ensures LastOf(h) != Some(version) ==> Progress(h + [version], Newest(newest, version))
  {
  }

  /** One more analysis of row `i`, as seen by key `pk`. */
  lemma GrowsHistory(st: Store, i: nat, newest: Option<int>, version: int, pk: nat)
    requires Logged(st, newest) && Reaches(newest, version)
    requires i < |st.calls| && st.calls[i].version != Some(version)
    ensures Progress(History(st.runs, pk), Newest(newest, version))
    ensures var runs := st.runs + [IngestRun(st.calls[i].pk, version)];
      && History(runs, pk) == (if st.calls[i].pk == pk then History(st.runs, pk) + [version] else History(st.runs, pk))
      && Progress(History(runs, pk), Newest(newest, version))
  {
    hide History, Progress, Newest, LastOf, Reaches;
    HistoryAppend(st.runs, IngestRun(st.calls[i].pk, version), pk);
    var h := History(st.runs, pk);
    assert h + [] == h;
    ProgressMore(h, newest, version);
  }

  lemma AnalyseLogged(st: Store, i: nat, version: int, outcome: Outcome, newest: Option<int>)
    requires PksDistinct(st) && Logged(st, newest) && Reaches(newest, version)
    requires i < |st.calls| && Pending(st.calls[i], version)
    ensures Logged(Analyse(st, st.calls[i], version, outcome), Newest(newest, version))
  {
    var c := st.calls[i];
    var st' := Analyse(st, c, version, outcome);
    AnalysePuts(st, i, version, outcome);
    hide Progress, History, Analyse, Newest, LastOf;
    forall pk: nat
      ensures Progress(History(st'.runs, pk), Newest(newest, version))
      ensures st.nextPk <= pk ==> History(st'.runs, pk) == []
    {
      GrowsHistory(st, i, newest, version, pk);
    }
    forall j | 0 <= j < |st'.calls|
      ensures st'.calls[j].version == LastOf(History(st'.runs, st'.calls[j].pk))
    {
      GrowsHistory(st, i, newest, version, st.calls[j].pk);
    }
  }

  lemma AssembledLogged(st: Store, r: Rec, now: int, newest: Option<int>)
    requires PksDistinct(st) && Logged(st, newest)
    ensures Logged(Assembled(st, r, now), newest)
  {
    hide Upsert, StoreFragment, Assembled, Landing, CallId, ByExt, HasRoot, TraceOf, History, Progress;
    var cid := CallId(st.calls, r);
    var st' := AssembledIs(st, r, now);
    if cid.Some? {
      var i := UpsertPuts(st, r, cid.value, now);
    }
  }

  lemma {:induction false} AnalyseAllLogged(st: Store, cs: seq<Call>, version: int, outcomes: nat -> Outcome,
                                            newest: Option<int>)
    requires PksDistinct(st) && Logged(st, newest) && Reaches(newest, version) && Separate(cs)
    requires forall k :: 0 <= k < |cs| ==> cs[k] in st.calls && Pending(cs[k], version)
    ensures Logged(AnalyseAll(st, cs, version, outcomes), Newest(newest, version))
  {
    if cs == [] {
      LoggedLater(st, newest, version);
      assert AnalyseAll(st, cs, version, outcomes) == st;
    } else {
      BatchInit(st, cs);
      assert Pending(cs[|cs| - 1], version);
      hide Logged, Pending, AnalyseAll, Analyse, PksDistinct, Separate;
      var i := AnalyseAllLast(st, cs, version, outcomes);
      AnalyseAllLogged(st, cs[..|cs| - 1], version, outcomes, newest);
      var prev := AnalyseAll(st, cs[..|cs| - 1], version, outcomes);
      AnalyseLogged(prev, i, version, outcomes(cs[|cs| - 1].pk), Newest(newest, version));
    }
  }

  lemma LoggedLater(st: Store, newest: Option<int>, version: int)
    requires Logged(st, newest) && Reaches(newest, version)
    ensures Logged(st, Newest(newest, version))
  {
    hide History;
  }

  lemma EraseHistory(st: Store, pk: nat, newest: Option<int>, runs: seq<IngestRun>, q: nat)
    requires Logged(st, newest) && runs == WithoutRuns(st.runs, pk)
    ensures History(runs, q) == if q == pk then [] else History(st.runs, q)
    ensures Progress(History(runs, q), newest)
  {
    HistoryFilter(st.runs, pk, q);
  }

  lemma EraseIs(st: Store, id: string)
    ensures var st' := Erase(st, id);
      match ByExt(st.calls, id)
      case None => st' == st
      case Some(c) =>
        st'.runs == WithoutRuns(st.runs, c.pk) && st'.calls == WithoutCall(st.calls, c.pk) && st'.nextPk == st.nextPk
  {
  }

  lemma EraseLogged(st: Store, id: string, newest: Option<int>)
    requires Logged(st, newest)
    ensures Logged(Erase(st, id), newest)
  {
    hide *;
    EraseIs(st, id);
    if ByExt(st.calls, id).Some? {
      var pk := ByExt(st.calls, id).value.pk;
      KeptRows(st.calls, pk);
      EraseHistories(st, pk, newest, Erase(st, id).runs);
      KeptLogged(st, Erase(st, id), pk, newest);
    }
  }

  lemma KeptLogged(st: Store, st': Store, pk: nat, newest: Option<int>)
    requires Logged(st, newest) && st'.nextPk == st.nextPk
    requires forall k :: 0 <= k < |st'.calls| ==> st'.calls[k] in st.calls && st'.calls[k].pk != pk
    requires forall q: nat :: History(st'.runs, q) == if q == pk then [] else History(st.runs, q)
    requires forall q: nat :: Progress(History(st'.runs, q), newest)
    ensures Logged(st', newest)
  {
    hide History, Progress, LastOf;
  }

  lemma EraseHistories(st: Store, pk: nat, newest: Option<int>, runs: seq<IngestRun>)
    requires Logged(st, newest) && runs == WithoutRuns(st.runs, pk)
    ensures forall q: nat :: History(runs, q) == if q == pk then [] else History(st.runs, q)
    ensures forall q: nat :: Progress(History(runs, q), newest)
  {
    hide *;
    forall q: nat
      ensures History(runs, q) == if q == pk then [] else History(st.runs, q)
      ensures Progress(History(runs, q), newest)
    {
      EraseHistory(st, pk, newest, runs, q);
    }
  }

  lemma KeptRows(calls: seq<Call>, pk: nat)
    ensures var kept := WithoutCall(calls, pk);
      forall k :: 0 <= k < |kept| ==> kept[k] in calls && kept[k].pk != pk
  {
    FilterRows(calls, (c: Call) => c.pk != pk);
  }

  function VersionOf(step: Step): Option<int> {
    match step
    case Deliver(_, _, version, _) => Some(version)
    case Sweep(_, version, _, _) => Some(version)
    case Artifact(_, _, _) => None
    case Erasure(_) => None
  }

  lemma NextLogged(st: Store, step: Step, newest: Option<int>)
    requires PksDistinct(st) && Logged(st, newest)
    requires VersionOf(step).Some? ==> Reaches(newest, VersionOf(step).value)
    ensures Logged(Next(st, step), if VersionOf(step).Some? then Newest(newest, VersionOf(step).value) else newest)
  {
    hide Assembled, Analyse, Handle, Aborts, Pending, CallId, RegisterArtifact, AnalyseAll, Taken, History, Progress;
    match step
    case Deliver(r, now, version, outcome) =>
      var st', i := HandleIs(st, r, now, version, outcome);
      AssembledLogged(st, r, now, newest);
      LoggedLater(st, newest, version);
      LoggedLater(st', newest, version);
      if i < |st'.calls| && Commits(st, r, now, version, outcome) {
        AnalyseLogged(st', i, version, outcome, newest);
      }
    case Sweep(cutoff, version, batch, outcomes) =>
      TakenAreRows(st, cutoff, version, batch);
      AnalyseAllLogged(st, Taken(st, cutoff, version, batch), version, outcomes, newest);
      LoggedLater(st, newest, version);
    case Artifact(id, isAudio, now) =>
      RegisterKeepsRows(st, id, isAudio, now);
    case Erasure(id) => EraseLogged(st, id, newest);
  }

  /** The worker's METRIC_VERSION only goes up. */
  ghost predicate Ascending(steps: seq<Step>) {
    forall i, j :: 0 <= i < j < |steps| && VersionOf(steps[i]).Some? && VersionOf(steps[j]).Some? ==>
      VersionOf(steps[i]).value <= VersionOf(steps[j]).value
  }

  lemma {:induction false} RunLogged(steps: seq<Step>, newest: Option<int>)
    requires newest.Some? ==> Ascending(steps)
    requires newest.Some? ==> forall k :: 0 <= k < |steps| ==> NotAbove(steps[k], newest.value)
    ensures Logged(Run(EMPTY, steps), newest)
  {
    if steps != [] {
      var init, step := steps[..|steps| - 1], steps[|steps| - 1];
      RunSafe(init);
      hide Logged, Next;
      var before := if newest.Some? && VersionOf(step).Some? then VersionOf(step) else newest;
      assert newest.Some? ==> forall k :: 0 <= k < |init| ==> NotAbove(init[k], before.value);
      RunLogged(init, before);
      NextLogged(Run(EMPTY, init), step, before);
      if newest.Some? && VersionOf(step).Some? {
        LoggedLater(Run(EMPTY, steps), VersionOf(step), newest.value);
      }
    }
  }

  predicate NotAbove(step: Step, version: int) {
    VersionOf(step).Some? ==> VersionOf(step).value <= version
  }

  /** Whatever the workers' versions, a row is never analysed twice in a row at the same one. */
  lemma NeverTwiceInARow(steps: seq<Step>, pk: nat, k: nat)
    requires 0 < k < |History(Run(EMPTY, steps).runs, pk)|
    ensures var h := History(Run(EMPTY, steps).runs, pk); h[k - 1] != h[k]
  {
    RunLogged(steps, None);
    assert Progress(History(Run(EMPTY, steps).runs, pk), None);
  }

  /** If versions only go up, each row is analysed at most once per version. */
  lemma OncePerVersion(steps: seq<Step>, newest: int, pk: nat, k: nat, l: nat)
    requires Ascending(steps) && forall k :: 0 <= k < |steps| ==> NotAbove(steps[k], newest)
    requires k < l < |History(Run(EMPTY, steps).runs, pk)|
    ensures var h := History(Run(EMPTY, steps).runs, pk); h[k] < h[l]
  {
    RunLogged(steps, Some(newest));
    var h := History(Run(EMPTY, steps).runs, pk);
    assert Progress(h, Some(newest));
    Climbs(h, newest, k, l);
  }

  lemma {:induction false} Climbs(h: seq<int>, newest: int, k: nat, l: nat)
    requires Progress(h, Some(newest)) && k < l < |h|
    ensures h[k] < h[l]
    decreases l
  {
    assert h[l - 1] <= h[l] && h[l - 1] != h[l];
    if k < l - 1 {
      Climbs(h, newest, k, l - 1);
    }
  }

  // ---------------------------------------------------------------- the grace flush drains

  function Keys(cs: seq<Call>): set<nat> {
    set k | 0 <= k < |cs| :: cs[k].pk
  }

  function DueKeys(st: Store, cutoff: int, version: int): set<nat> {
    set i | 0 <= i < |st.calls| && Due(st.calls[i], cutoff, version) :: st.calls[i].pk
  }

  lemma {:induction false} KeysCount(cs: seq<Call>)
    requires Separate(cs)
    ensures |Keys(cs)| == |cs|
  {
    if cs != [] {
      var init, c := cs[..|cs| - 1], cs[|cs| - 1];
      KeysCount(init);
      assert forall k :: 0 <= k < |init| ==> init[k] == cs[k];
      assert Keys(cs) == Keys(init) + {c.pk};
      assert c.pk !in Keys(init);
    }
  }

  lemma DueKeysAre(st: Store, cutoff: int, version: int)
    ensures DueKeys(st, cutoff, version) == Keys(Filter(st.calls, IsDue(cutoff, version)))
  {
    var due := Filter(st.calls, IsDue(cutoff, version));
    FilterMembers(st.calls, IsDue(cutoff, version));
    forall p | p in DueKeys(st, cutoff, version)
      ensures p in Keys(due)
    {
      var i :| 0 <= i < |st.calls| && Due(st.calls[i], cutoff, version) && st.calls[i].pk == p;
      assert st.calls[i] in due;
    }
    forall p | p in Keys(due)
      ensures p in DueKeys(st, cutoff, version)
    {
      var k :| 0 <= k < |due| && due[k].pk == p;
      assert due[k] in due;
      var i :| 0 <= i < |st.calls| && st.calls[i] == due[k];
    }
  }

  /** After the batch none of its rows is pending at the version. */
  lemma {:induction false} AnalyseAllSettles(st: Store, cs: seq<Call>, version: int, outcomes: nat -> Outcome)
    requires PksDistinct(st) && Separate(cs) && forall k :: 0 <= k < |cs| ==> cs[k] in st.calls
    ensures var st' := AnalyseAll(st, cs, version, outcomes);
      |st'.calls| == |st.calls| &&
      forall j :: 0 <= j < |st.calls| && st.calls[j] in cs ==> !Pending(st'.calls[j], version)
  {
    var i := AnalyseAllLast(st, cs, version, outcomes);
    if cs != [] {
      var init, c := cs[..|cs| - 1], cs[|cs| - 1];
      BatchInit(st, cs);
      AnalyseAllSettles(st, init, version, outcomes);
      var prev := AnalyseAll(st, init, version, outcomes);
      AnalysePuts(prev, i, version, outcomes(c.pk));
      hide AnalyseAll, Analyse;
      assert forall x :: x in cs <==> x == c || x in init;
    }
  }

  /** Row by row: what was taken is no longer due, at any cutoff, and nothing else changes. */
  ghost predicate DueExcept(a: seq<Call>, b: seq<Call>, later: int, version: int, keys: set<nat>) {
    |a| == |b| && forall j :: 0 <= j < |a| ==>
      b[j].pk == a[j].pk && (Due(b[j], later, version) <==> Due(a[j], later, version) && a[j].pk !in keys)
  }

  lemma FlushRows(st: Store, cs: seq<Call>, version: int, outcomes: nat -> Outcome, later: int)
    requires PksDistinct(st) && Separate(cs) && forall k :: 0 <= k < |cs| ==> cs[k] in st.calls
    ensures DueExcept(st.calls, AnalyseAll(st, cs, version, outcomes).calls, later, version, Keys(cs))
  {
    var st' := AnalyseAll(st, cs, version, outcomes);
    var i := AnalyseAllLast(st, cs, version, outcomes);
    AnalyseAllSettles(st, cs, version, outcomes);
    hide AnalyseAll, Due, Pending, Keys, PksDistinct, Separate;
    forall j | 0 <= j < |st.calls|
      ensures st'.calls[j].pk == st.calls[j].pk
      ensures Due(st'.calls[j], later, version) <==> Due(st.calls[j], later, version) && st.calls[j].pk !in Keys(cs)
    {
      if st.calls[j] in cs {
        TakenKey(cs, st.calls[j]);
        NotDue(st'.calls[j], later, version);
      } else {
        RowNotTaken(st, cs, j);
      }
    }
  }

  lemma DueMinus(a: Store, b: Store, later: int, version: int, keys: set<nat>)
    requires DueExcept(a.calls, b.calls, later, version, keys)
    ensures DueKeys(b, later, version) == DueKeys(a, later, version) - keys
  {
    hide Due;
  }

  /** A committed flush takes its rows off the due set, at this cutoff and at every other. */
  lemma FlushSettles(st: Store, cutoff: int, version: int, batch: nat, outcomes: nat -> Outcome, later: int)
    requires PksDistinct(st) && !AnyFails(Taken(st, cutoff, version, batch), outcomes)
    ensures DueKeys(Flush(st, cutoff, version, batch, outcomes), later, version) ==
      DueKeys(st, later, version) - Keys(Taken(st, cutoff, version, batch))
  {
    var cs := Taken(st, cutoff, version, batch);
    assert Flush(st, cutoff, version, batch, outcomes) == AnalyseAll(st, cs, version, outcomes);
    hide *;
    TakenAreRows(st, cutoff, version, batch);
    FlushRows(st, cs, version, outcomes, later);
    DueMinus(st, AnalyseAll(st, cs, version, outcomes), later, version, Keys(cs));
  }

  lemma TakenKey(cs: seq<Call>, c: Call)
    requires c in cs
    ensures c.pk in Keys(cs)
  {
  }

  lemma NotDue(c: Call, cutoff: int, version: int)
    requires !Pending(c, version)
    ensures !Due(c, cutoff, version)
  {
  }

  lemma RowNotTaken(st: Store, cs: seq<Call>, j: nat)
    requires PksDistinct(st) && j < |st.calls| && st.calls[j] !in cs
    requires forall k :: 0 <= k < |cs| ==> cs[k] in st.calls
    ensures st.calls[j].pk !in Keys(cs)
  {
    if st.calls[j].pk in Keys(cs) {
      var k :| 0 <= k < |cs| && cs[k].pk == st.calls[j].pk;
      var i :| 0 <= i < |st.calls| && st.calls[i] == cs[k];
    }
  }

  function Fewer(due: nat, batch: nat): nat {
    if batch < due then due - batch else 0
  }

  /** A committed flush shrinks the due set by `min(batch, due)` and adds nothing to it. */
  lemma FlushShrinks(st: Store, cutoff: int, version: int, batch: nat, outcomes: nat -> Outcome)
    requires PksDistinct(st) && !AnyFails(Taken(st, cutoff, version, batch), outcomes)
    ensures var due := DueKeys(st, cutoff, version);
      var due' := DueKeys(Flush(st, cutoff, version, batch, outcomes), cutoff, version);
      due' <= due && |due'| == Fewer(|due|, batch)
  {
    var cs := Taken(st, cutoff, version, batch);
    var due := Filter(st.calls, IsDue(cutoff, version));
    FlushSettles(st, cutoff, version, batch, outcomes, cutoff);
    TakenAreDue(st, cutoff, version, batch);
    DueKeysAre(st, cutoff, version);
    KeysCount(cs);
    KeysCount(due);
    hide Flush, Taken, DueKeys;
    forall p | p in Keys(cs)
      ensures p in Keys(due)
    {
      var k :| 0 <= k < |cs| && cs[k].pk == p;
      assert cs[k] in due;
    }
    assert |Keys(due) - Keys(cs)| == |Keys(due)| - |Keys(cs)|;
  }

  /** A flush with work to do gets somewhere exactly when none of its rows fails: one failing call at the
      head of the order stops every row behind it. */
  lemma FlushMovesIff(st: Store, cutoff: int, version: int, batch: nat, outcomes: nat -> Outcome)
    requires PksDistinct(st) && batch > 0 && DueKeys(st, cutoff, version) != {}
    ensures Flush(st, cutoff, version, batch, outcomes) != st <==>
      !AnyFails(Taken(st, cutoff, version, batch), outcomes)
  {
    if !AnyFails(Taken(st, cutoff, version, batch), outcomes) {
      FlushShrinks(st, cutoff, version, batch, outcomes);
      hide Flush, DueKeys;
      assert |DueKeys(st, cutoff, version)| > 0;
    }
  }

  /** The grace window of every row has passed at `base`. */
  ghost predicate Quiet(st: Store, base: int) {
    forall c :: c in st.calls ==> c.lastActivity < base
  }

  /** Later cutoffs make no more rows due. */
  ghost predicate Settled(st: Store, base: int, version: int) {
    forall later :: base <= later ==> DueKeys(st, later, version) == DueKeys(st, base, version)
  }

  lemma QuietSettled(st: Store, base: int, version: int)
    requires Quiet(st, base)
    ensures Settled(st, base, version)
  {
    forall later | base <= later
      ensures DueKeys(st, later, version) == DueKeys(st, base, version)
    {
      forall i | 0 <= i < |st.calls|
        ensures Due(st.calls[i], later, version) <==> Due(st.calls[i], base, version)
      {
        assert st.calls[i] in st.calls;
      }
    }
  }

  /** Flushes that commit, at the cutoffs of a clock that has reached `base`. */
  ghost predicate CommittedSweep(step: Step, base: int, version: int, batch: nat) {
    step.Sweep? && step.version == version && step.batch == batch && base <= step.cutoff &&
    forall pk :: step.outcomes(pk) != Failed
  }

  lemma SweepShrinks(st: Store, step: Step, base: int, version: int, batch: nat)
    requires PksDistinct(st) && Settled(st, base, version) && CommittedSweep(step, base, version, batch)
    ensures var st' := Next(st, step);
      Settled(st', base, version) &&
      |DueKeys(st', base, version)| == Fewer(|DueKeys(st, base, version)|, batch)
  {
    var cutoff, outcomes := step.cutoff, step.outcomes;
    var cs := Taken(st, cutoff, version, batch);
    FlushShrinks(st, cutoff, version, batch, outcomes);
    hide Flush, Taken, DueKeys, Keys, PksDistinct;
    forall later
      ensures DueKeys(Flush(st, cutoff, version, batch, outcomes), later, version) ==
        DueKeys(st, later, version) - Keys(cs)
    {
      FlushSettles(st, cutoff, version, batch, outcomes, later);
    }
  }

  /** Once arrivals have stopped and grace has passed, n flushes leave `due - n * batch` rows due, or none. */
  lemma {:induction false} Drains(st: Store, steps: seq<Step>, base: int, version: int, batch: nat)
    requires RowsSafe(st) && Quiet(st, base)
    requires forall k :: 0 <= k < |steps| ==> CommittedSweep(steps[k], base, version, batch)
    ensures RowsSafe(Run(st, steps)) && Settled(Run(st, steps), base, version)
    ensures var due := |DueKeys(st, base, version)|;
      |DueKeys(Run(st, steps), base, version)| == Fewer(due, |steps| * batch)
  {
    hide RowsSafe, Next, CommittedSweep, DueKeys, Settled, PksDistinct, Quiet;
    QuietSettled(st, base, version);
    if steps != [] {
      var n := |steps| - 1;
      Drains(st, steps[..n], base, version, batch);
      RowsPks(Run(st, steps[..n]));
      SweepShrinks(Run(st, steps[..n]), steps[n], base, version, batch);
      NextSafe(Run(st, steps[..n]), steps[n]);
      assert |steps| * batch == n * batch + batch;
    }
  }

  /** With a positive batch size, as many flushes as there are due rows always empty the queue. */
  lemma DrainsEmpty(st: Store, steps: seq<Step>, base: int, version: int, batch: nat)
    requires RowsSafe(st) && Quiet(st, base) && batch > 0
    requires forall k :: 0 <= k < |steps| ==> CommittedSweep(steps[k], base, version, batch)
    requires |DueKeys(st, base, version)| <= |steps|
    ensures forall later :: base <= later ==> DueKeys(Run(st, steps), later, version) == {}
  {
    hide Run, CommittedSweep, RowsSafe, Quiet, DueKeys;
    Drains(st, steps, base, version, batch);
    AtLeastAsMany(|steps|, batch);
    var left := DueKeys(Run(st, steps), base, version);
    assert |left| == 0 && left == {};
  }

  lemma AtLeastAsMany(n: nat, batch: nat)
    requires batch > 0
    ensures n <= n * batch
  {
  }

  /** New audio makes a call due at once, whatever the cutoff, if and only if its spans are complete and it was
      not analysed at this version: a call marked unsupported is taken up again. */
  lemma AudioMakesDueIff(st: Store, i: nat, now: int, cutoff: int, version: int)
    requires RowsSafe(st) && i < |st.calls|
    ensures var c := st.calls[i]; var after := RegisterArtifact(st, c.ext, true, now).calls;
      && |after| == |st.calls| && after[i].pk == c.pk
      && (Due(after[i], cutoff, version) <==> c.spansComplete && c.version != Some(version))
  {
    var c := st.calls[i];
    ByExtOf(st.calls, i);
    var ready := if c.spansComplete then Ingested else c.status;
    SaveIs(st, i, c.(mediaReady := true, status := ready, lastActivity := now));
  }
}
