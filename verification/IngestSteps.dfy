/** Runs of the analysis consumer's store: deliveries, grace flushes, artifact registrations and
    erasures, in any order and any number of times, and what each step does to the rows. */
module IngestSteps {
  import opened Options
  import opened Sorting
  import opened Otlp
  import opened IngestStore

  /** Each analysis runs at the METRIC_VERSION of the worker that performs the step. */
  datatype Step =
    | Deliver(rec: Rec, now: int, version: int, outcome: Outcome)
    | Sweep(cutoff: int, version: int, batch: nat, outcomes: nat -> Outcome)
    | Artifact(id: string, isAudio: bool, now: int)
    | Erasure(id: string)

  function Next(st: Store, step: Step): Store {
    match step
    case Deliver(r, now, version, outcome) => Handle(st, r, now, version, outcome)
    case Sweep(cutoff, version, batch, outcomes) => Flush(st, cutoff, version, batch, outcomes)
    case Artifact(id, isAudio, now) => RegisterArtifact(st, id, isAudio, now)
    case Erasure(id) => Erase(st, id)
  }

  function Run(st: Store, steps: seq<Step>): Store {
    if steps == [] then st else Next(Run(st, steps[..|steps| - 1]), steps[|steps| - 1])
  }

  // ---------------------------------------------------------------- rows

  ghost predicate PksDistinct(st: Store) {
    (forall i :: 0 <= i < |st.calls| ==> st.calls[i].pk < st.nextPk) &&
    (forall i, j :: 0 <= i < j < |st.calls| ==> st.calls[i].pk != st.calls[j].pk)
  }

  ghost predicate ExtsDistinct(calls: seq<Call>) {
    forall i, j :: 0 <= i < j < |calls| ==> calls[i].ext != calls[j].ext
  }

  /** One row replaced, or one row added at the end. */
  function Put(calls: seq<Call>, i: nat, c: Call): seq<Call>
    requires i <= |calls|
  {
    if i < |calls| then calls[i := c] else calls + [c]
  }

  /** The same rows, as far as identity and completeness go. */
  ghost predicate SameRows(a: seq<Call>, b: seq<Call>) {
    |a| == |b| && forall i :: 0 <= i < |a| ==>
      a[i].pk == b[i].pk && a[i].ext == b[i].ext && a[i].trace == b[i].trace &&
      a[i].spansComplete == b[i].spansComplete
  }

  lemma ByExtAt(calls: seq<Call>, ext: string) returns (i: nat)
    ensures i <= |calls|
    ensures i < |calls| ==> ByExt(calls, ext) == Some(calls[i]) && calls[i].ext == ext
    ensures i == |calls| ==> ByExt(calls, ext) == None && forall j :: 0 <= j < |calls| ==> calls[j].ext != ext
  {
    ByExtHas(calls, ext);
    if ByExt(calls, ext).Some? {
      i :| 0 <= i < |calls| && calls[i] == ByExt(calls, ext).value;
    } else {
      i := |calls|;
      assert forall j :: 0 <= j < |calls| ==> calls[j] in calls;
    }
  }

  lemma ByTraceAt(calls: seq<Call>, trace: string) returns (i: nat)
    ensures i <= |calls|
    ensures i < |calls| ==> ByTrace(calls, trace) == Some(calls[i]) && calls[i].trace == Some(trace)
    ensures i == |calls| ==>
      ByTrace(calls, trace) == None && forall j :: 0 <= j < |calls| ==> calls[j].trace != Some(trace)
  {
    ByTraceHas(calls, trace);
    if ByTrace(calls, trace).Some? {
      i :| 0 <= i < |calls| && calls[i] == ByTrace(calls, trace).value;
    } else {
      i := |calls|;
      assert forall j :: 0 <= j < |calls| ==> calls[j] in calls;
    }
  }

  /** A row is the one its external id finds. */
  lemma ByExtOf(calls: seq<Call>, i: nat)
    requires i < |calls| && ExtsDistinct(calls)
    ensures ByExt(calls, calls[i].ext) == Some(calls[i])
  {
    var j := ByExtAt(calls, calls[i].ext);
  }

  lemma HintResolves(st: Store, r: Rec)
    requires Hint(r).Some?
    ensures CallId(st.calls, r) == Hint(r)
  {
  }

  lemma SaveIs(st: Store, i: nat, c: Call)
    requires PksDistinct(st) && i < |st.calls| && c.pk == st.calls[i].pk
    ensures Save(st.calls, c) == st.calls[i := c]
  {
    assert forall j :: 0 <= j < |st.calls| && j != i ==> st.calls[j].pk != c.pk;
  }

  /** Where a batch lands: the row its id names, else the row of its trace, else a new one. */
  lemma UpsertPuts(st: Store, r: Rec, cid: string, now: int) returns (i: nat)
    requires PksDistinct(st)
    ensures i <= |st.calls|
    ensures var c := Landing(st, r, cid, now); var st' := Upsert(st, r, cid, now);
      && st' == st.(calls := Put(st.calls, i, c), nextPk := if i < |st.calls| then st.nextPk else st.nextPk + 1)
      && c.ext == cid
      && (i < |st.calls| ==>
            && c == Touch(st.calls[i].(ext := cid), r, now)
            && (st.calls[i].ext == cid || (TraceOf(r) != "" && st.calls[i].trace == Some(TraceOf(r)))))
      && (i == |st.calls| ==>
            && c.pk == st.nextPk && c.version == None && c.trace == TraceOption(TraceOf(r))
            && c.spansComplete == HasRoot(r)
            && (TraceOf(r) != "" ==> forall j :: 0 <= j < |st.calls| ==> st.calls[j].trace != Some(TraceOf(r))))
      && (i == |st.calls| || st.calls[i].ext != cid ==> forall j :: 0 <= j < |st.calls| ==> st.calls[j].ext != cid)
  {
    hide Save, HasRoot, TraceOf;
    var c := Landing(st, r, cid, now);
    i := ByExtAt(st.calls, cid);
    if i == |st.calls| && TraceOf(r) != "" {
      i := ByTraceAt(st.calls, TraceOf(r));
    }
    if i < |st.calls| {
      SaveIs(st, i, c);
    }
  }

  lemma AnalysePuts(st: Store, i: nat, version: int, outcome: Outcome)
    requires PksDistinct(st) && i < |st.calls|
    ensures var c := st.calls[i]; var st' := Analyse(st, c, version, outcome);
      && st' == (if outcome == NotSupported then st.(calls := st.calls[i := c.(status := Unsupported)])
                 else st.(calls := st.calls[i := c.(version := Some(version))],
                          runs := st.runs + [IngestRun(c.pk, version)]))
      && SameRows(st.calls, st'.calls)
  {
    SaveIs(st, i, st.calls[i].(status := Unsupported));
    SaveIs(st, i, st.calls[i].(version := Some(version)));
  }

  lemma RegisterKeepsRows(st: Store, id: string, isAudio: bool, now: int)
    requires PksDistinct(st)
    ensures var st' := RegisterArtifact(st, id, isAudio, now);
      && SameRows(st.calls, st'.calls) && st' == st.(calls := st'.calls)
      && (forall i :: 0 <= i < |st.calls| ==> st'.calls[i].version == st.calls[i].version)
  {
    var i := ByExtAt(st.calls, id);
    if i < |st.calls| {
      var c := st.calls[i];
      var ready := if isAudio && c.spansComplete then Ingested else c.status;
      SaveIs(st, i, c.(mediaReady := c.mediaReady || isAudio, status := ready, lastActivity := now));
    }
  }

  lemma StoreKeepsRows(st: Store, r: Rec, cid: Option<string>)
    ensures var st' := StoreFragment(st, r, cid); st' == st.(frags := st'.frags)
  {
  }

  lemma SameRowsDistinct(a: Store, b: Store)
    requires PksDistinct(a) && SameRows(a.calls, b.calls) && a.nextPk == b.nextPk
    ensures PksDistinct(b)
  {
  }

  lemma AssembledIs(st: Store, r: Rec, now: int) returns (st': Store)
    requires PksDistinct(st)
    ensures var cid := CallId(st.calls, r);
      && st' == (if cid.Some? then Upsert(st, r, cid.value, now) else st)
      && Assembled(st, r, now) == StoreFragment(st', r, cid)
      && Assembled(st, r, now) == st'.(frags := Assembled(st, r, now).frags)
      && st'.frags == st.frags
      && PksDistinct(st') && PksDistinct(Assembled(st, r, now))
  {
    hide Upsert, CallId, StoreFragment, Landing;
    var cid := CallId(st.calls, r);
    st' := if cid.Some? then Upsert(st, r, cid.value, now) else st;
    if cid.Some? {
      var i := UpsertPuts(st, r, cid.value, now);
    }
    StoreKeepsRows(st', r, cid);
  }

  /** A delivery whose analysis fails rolls back. */
  predicate Aborts(st: Store, r: Rec, now: int, version: int, outcome: Outcome) {
    outcome == Failed && Readied(Assembled(st, r, now), CallId(st.calls, r), version).Some?
  }

  predicate Commits(st: Store, r: Rec, now: int, version: int, outcome: Outcome) {
    !Dropped(st, r) && !Aborts(st, r, now, version, outcome)
  }

  /** A delivery is dropped, rolled back, or assembled and then perhaps analysed. */
  lemma HandleIs(st: Store, r: Rec, now: int, version: int, outcome: Outcome) returns (st': Store, i: nat)
    requires PksDistinct(st)
    ensures st' == Assembled(st, r, now) && i <= |st'.calls| && PksDistinct(st')
    ensures Handle(st, r, now, version, outcome) ==
      if !Commits(st, r, now, version, outcome) then st
      else if i < |st'.calls| then Analyse(st', st'.calls[i], version, outcome)
      else st'
    ensures i < |st'.calls| && Commits(st, r, now, version, outcome) ==>
      Pending(st'.calls[i], version) && outcome != Failed
  {
    hide Assembled, CallId, Analyse, Pending;
    var st0 := AssembledIs(st, r, now);
    st' := Assembled(st, r, now);
    i := |st'.calls|;
    var cid := CallId(st.calls, r);
    if Readied(st', cid, version).Some? {
      i := ByExtAt(st'.calls, cid.value);
    }
  }

  ghost predicate Separate(cs: seq<Call>) {
    forall k, l :: 0 <= k < l < |cs| ==> cs[k].pk != cs[l].pk
  }

  lemma {:induction false} FilterRows(cs: seq<Call>, keep: Call -> bool)
    ensures Separate(cs) ==> Separate(Filter(cs, keep))
    ensures ExtsDistinct(cs) ==> ExtsDistinct(Filter(cs, keep))
    ensures forall k :: 0 <= k < |Filter(cs, keep)| ==> Filter(cs, keep)[k] in cs && keep(Filter(cs, keep)[k])
  {
    if cs != [] {
      FilterRows(cs[1..], keep);
      ConsRows(cs, Filter(cs[1..], keep));
    }
  }

  lemma ConsRows(cs: seq<Call>, rest: seq<Call>)
    requires cs != [] && forall k :: 0 <= k < |rest| ==> rest[k] in cs[1..]
    ensures Separate(cs) && Separate(rest) ==> Separate([cs[0]] + rest)
    ensures ExtsDistinct(cs) && ExtsDistinct(rest) ==> ExtsDistinct([cs[0]] + rest)
  {
  }

  lemma {:induction false} InsertPks(c: Call, cs: seq<Call>)
    requires Separate(cs) && forall k :: 0 <= k < |cs| ==> cs[k].pk != c.pk
    ensures Separate(InsertSorted(c, cs, ByActivity))
    ensures forall x :: x in InsertSorted(c, cs, ByActivity) <==> x == c || x in cs
  {
    if cs != [] && !ByActivity(c, cs[0]) {
      InsertPks(c, cs[1..]);
      var rest := InsertSorted(c, cs[1..], ByActivity);
      forall k | 0 <= k < |rest|
        ensures rest[k].pk != cs[0].pk
      {
        assert rest[k] in rest;
      }
      assert forall x :: x in cs <==> x == cs[0] || x in cs[1..];
    }
  }

  lemma {:induction false} SortedPks(cs: seq<Call>)
    requires Separate(cs)
    ensures Separate(Sorted(cs, ByActivity))
    ensures forall x :: x in Sorted(cs, ByActivity) <==> x in cs
  {
    if cs != [] {
      SortedPks(cs[1..]);
      var rest := Sorted(cs[1..], ByActivity);
      forall k | 0 <= k < |rest|
        ensures rest[k].pk != cs[0].pk
      {
        assert rest[k] in rest && rest[k] in cs[1..];
      }
      InsertPks(cs[0], rest);
      assert forall x :: x in cs <==> x == cs[0] || x in cs[1..];
    }
  }

  /** The rows a flush takes are due rows, each at most once, and as many as fit. */
  lemma TakenAreDue(st: Store, cutoff: int, version: int, batch: nat)
    requires PksDistinct(st)
    ensures var cs := Taken(st, cutoff, version, batch); var due := Filter(st.calls, IsDue(cutoff, version));
      && Separate(cs) && Separate(due)
      && (forall k :: 0 <= k < |cs| ==> cs[k] in due)
      && |cs| == (if batch < |due| then batch else |due|)
  {
    var due := Filter(st.calls, IsDue(cutoff, version));
    FilterRows(st.calls, IsDue(cutoff, version));
    SortedPks(due);
    SortedKeeps(due, ByActivity);
    hide Sorted, Filter;
  }

  lemma TakenAreRows(st: Store, cutoff: int, version: int, batch: nat)
    requires PksDistinct(st)
    ensures var cs := Taken(st, cutoff, version, batch);
      Separate(cs) && forall k :: 0 <= k < |cs| ==> cs[k] in st.calls && Pending(cs[k], version)
  {
    TakenAreDue(st, cutoff, version, batch);
    FilterMembers(st.calls, IsDue(cutoff, version));
    hide Taken, Filter;
  }

  lemma AnalyseAllUnfold(st: Store, cs: seq<Call>, version: int, outcomes: nat -> Outcome)
    requires cs != []
    ensures var c := cs[|cs| - 1];
      AnalyseAll(st, cs, version, outcomes) ==
        Analyse(AnalyseAll(st, cs[..|cs| - 1], version, outcomes), c, version, outcomes(c.pk))
  {
  }

  /** Rows not in the batch are left as they were. */
  ghost predicate Untouched(a: seq<Call>, b: seq<Call>, cs: seq<Call>) {
    SameRows(a, b) && forall j :: 0 <= j < |a| && a[j] !in cs ==> b[j] == a[j]
  }

  lemma UntouchedStep(a: seq<Call>, b: seq<Call>, init: seq<Call>, i: nat, c: Call, b': seq<Call>)
    requires Untouched(a, b, init) && i < |a| && a[i] == c && SameRows(b, b')
    requires forall j :: 0 <= j < |b| && j != i ==> b'[j] == b[j]
    ensures Untouched(a, b', init + [c])
  {
    assert c in init + [c] && forall x :: x in init ==> x in init + [c];
  }

  /** The last analysis of a batch finds its row as the flush read it. */
  lemma {:induction false} AnalyseAllLast(st: Store, cs: seq<Call>, version: int, outcomes: nat -> Outcome)
      returns (i: nat)
    requires PksDistinct(st) && Separate(cs) && forall k :: 0 <= k < |cs| ==> cs[k] in st.calls
    ensures cs == [] ==> i == 0
    ensures cs != [] ==>
      var prev := AnalyseAll(st, cs[..|cs| - 1], version, outcomes); var c := cs[|cs| - 1];
      && PksDistinct(prev) && i < |prev.calls| && prev.calls[i] == c && c !in cs[..|cs| - 1]
      && AnalyseAll(st, cs, version, outcomes) == Analyse(prev, c, version, outcomes(c.pk))
    ensures var st' := AnalyseAll(st, cs, version, outcomes);
      && Untouched(st.calls, st'.calls, cs)
      && st' == st.(calls := st'.calls, runs := st'.runs)
  {
    hide *;
    i := 0;
    if cs == [] {
      AnalyseNone(st, version, outcomes);
    } else {
      var init, c := cs[..|cs| - 1], cs[|cs| - 1];
      BatchInit(st, cs);
      var i' := AnalyseAllLast(st, init, version, outcomes);
      var prev := AnalyseAll(st, init, version, outcomes);
      AnalyseAllUnfold(st, cs, version, outcomes);
      i := RowOf(st.calls, prev.calls, init, c);
      SameRowsDistinct(st, prev);
      AnalysePuts(prev, i, version, outcomes(c.pk));
      UntouchedStep(st.calls, prev.calls, init, i, c, AnalyseAll(st, cs, version, outcomes).calls);
    }
  }

  lemma AnalyseNone(st: Store, version: int, outcomes: nat -> Outcome)
    ensures AnalyseAll(st, [], version, outcomes) == st && Untouched(st.calls, st.calls, [])
  {
  }

  lemma BatchInit(st: Store, cs: seq<Call>)
    requires cs != [] && Separate(cs) && forall k :: 0 <= k < |cs| ==> cs[k] in st.calls
    ensures var init, c := cs[..|cs| - 1], cs[|cs| - 1];
      && init + [c] == cs && Separate(init) && c in st.calls
      && forall k :: 0 <= k < |init| ==> init[k] in st.calls
  {
  }

  lemma RowOf(a: seq<Call>, b: seq<Call>, init: seq<Call>, c: Call) returns (i: nat)
    requires Untouched(a, b, init) && Separate(init + [c]) && c in a
    ensures i < |b| && a[i] == c && b[i] == c && c !in init && SameRows(a, b)
  {
    i :| 0 <= i < |a| && a[i] == c;
    assert forall k :: 0 <= k < |init| ==> (init + [c])[k] == init[k] && init[k].pk != (init + [c])[|init|].pk;
  }
}
