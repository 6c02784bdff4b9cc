/** What an erasure leaves behind: nothing of the call, and everything else. */
module Erasure {
  import opened Options
  import opened Sorting
  import opened Otlp
  import opened IngestStore
  import opened IngestSteps
  import opened IngestSafety

  /** Nothing in the store bears the row's key, and no row can be given it any more. */
  ghost predicate Gone(st: Store, pk: nat) {
    && pk < st.nextPk
    && (forall c :: c in st.calls ==> c.pk != pk)
    && (forall f :: f in st.frags ==> f.call != Some(pk))
    && (forall x :: x in st.runs ==> x.call != pk)
  }

  /** Erasing a call removes its row, its fragments and its runs, and leaves every other in place and in order. */
  lemma ErasesExactly(st: Store, i: nat)
    requires RowsSafe(st) && i < |st.calls|
    ensures var c := st.calls[i]; var after := Erase(st, c.ext);
      && Gone(after, c.pk)
      && KeptInOrder(st.calls, after.calls, (d: Call) => d.pk != c.pk)
      && KeptInOrder(st.frags, after.frags, (f: Fragment) => f.call != Some(c.pk))
      && KeptInOrder(st.runs, after.runs, (x: IngestRun) => x.call != c.pk)
      && after.tombs == st.tombs + {c.ext} && after.nextPk == st.nextPk
      && after.calls == st.calls[..i] + st.calls[i + 1..]
  {
    hide *;
    var pk := st.calls[i].pk;
    EraseFields(st, i);
    FilterKeeps(st.calls, (d: Call) => d.pk != pk);
    FilterKeeps(st.frags, (f: Fragment) => f.call != Some(pk));
    FilterKeeps(st.runs, (x: IngestRun) => x.call != pk);
    OnlyRow(st, i);
    FilterOne(st.calls, i, (d: Call) => d.pk != pk);
    PurgedOf(st, i);
  }

  lemma EraseFields(st: Store, i: nat)
    requires RowsSafe(st) && i < |st.calls|
    ensures var c := st.calls[i]; var after := Erase(st, c.ext);
      && after.calls == Filter(st.calls, (d: Call) => d.pk != c.pk)
      && after.frags == Filter(st.frags, (f: Fragment) => f.call != Some(c.pk))
      && after.runs == Filter(st.runs, (x: IngestRun) => x.call != c.pk)
      && after.tombs == st.tombs + {c.ext} && after.nextPk == st.nextPk
  {
    ByExtOf(st.calls, i);
    hide Filter;
  }

  lemma OnlyRow(st: Store, i: nat)
    requires RowsSafe(st) && i < |st.calls|
    ensures forall k :: 0 <= k < |st.calls| ==> (st.calls[k].pk != st.calls[i].pk <==> k != i)
  {
    forall k | 0 <= k < |st.calls|
      ensures st.calls[k].pk != st.calls[i].pk <==> k != i
    {
      assert k < i || i < k || k == i;
    }
  }

  lemma PurgedOf(st: Store, i: nat)
    requires RowsSafe(st) && i < |st.calls|
    ensures Gone(Erase(st, st.calls[i].ext), st.calls[i].pk)
  {
    var pk := st.calls[i].pk;
    EraseFields(st, i);
    FilterMembers(st.calls, (d: Call) => d.pk != pk);
    FilterMembers(st.frags, (f: Fragment) => f.call != Some(pk));
    FilterMembers(st.runs, (x: IngestRun) => x.call != pk);
    hide Filter, Erase;
  }

  lemma {:induction false} FilterAll(xs: seq<Call>, keep: Call -> bool)
    requires forall k :: 0 <= k < |xs| ==> keep(xs[k])
    ensures Filter(xs, keep) == xs
  {
    if xs != [] {
      FilterAll(xs[1..], keep);
    }
  }

  lemma FilterOne(xs: seq<Call>, i: nat, keep: Call -> bool)
    requires i < |xs| && forall k :: 0 <= k < |xs| ==> (keep(xs[k]) <==> k != i)
    ensures Filter(xs, keep) == xs[..i] + xs[i + 1..]
  {
    hide *;
    var a, b := xs[..i], xs[i + 1..];
    assert xs == a + ([xs[i]] + b);
    FilterAppend(a, [xs[i]] + b, keep);
    FilterCons(xs[i], b, keep);
    FilterAll(a, keep);
    FilterAll(b, keep);
    OnlyNone(xs[i], keep);
    assert [] + b == b;
  }

  lemma OnlyNone(x: Call, keep: Call -> bool)
    requires !keep(x)
    ensures Only(x, keep) == []
  {
  }

  /** An unknown id leaves the store alone, without a tombstone. */
  lemma UnknownNotErased(st: Store, id: string)
    requires forall c :: c in st.calls ==> c.ext != id
    ensures Erase(st, id) == st
  {
    ByExtHas(st.calls, id);
  }

  // ---------------------------------------------------------------- for good

  lemma AssembledForgets(st: Store, r: Rec, now: int, pk: nat)
    requires PksDistinct(st) && Gone(st, pk)
    ensures Gone(Assembled(st, r, now), pk)
  {
    var st0 := AssembledIs(st, r, now);
    AssembledCompletes(st, r, now);
    hide Upsert, Assembled, CallId;
    var after := Assembled(st, r, now);
    forall c | c in after.calls
      ensures c.pk != pk
    {
      var j :| 0 <= j < |after.calls| && after.calls[j] == c;
    }
    if CallId(st.calls, r).Some? {
      var k := UpsertPuts(st, r, CallId(st.calls, r).value, now);
      ByExtHas(st0.calls, CallId(st.calls, r).value);
    }
  }

  lemma {:induction false} AnalyseAllRuns(st: Store, cs: seq<Call>, version: int, outcomes: nat -> Outcome)
    ensures AnalyseAll(st, cs, version, outcomes).frags == st.frags
    ensures forall x :: x in AnalyseAll(st, cs, version, outcomes).runs ==>
      x in st.runs || exists k :: 0 <= k < |cs| && x.call == cs[k].pk
  {
    if cs != [] {
      AnalyseAllRuns(st, cs[..|cs| - 1], version, outcomes);
    }
  }

  lemma FlushForgets(st: Store, cutoff: int, version: int, batch: nat, outcomes: nat -> Outcome, pk: nat)
    requires PksDistinct(st) && Gone(st, pk)
    ensures var st' := Flush(st, cutoff, version, batch, outcomes);
      (forall f :: f in st'.frags ==> f.call != Some(pk)) && forall x :: x in st'.runs ==> x.call != pk
  {
    TakenAreRows(st, cutoff, version, batch);
    AnalyseAllRuns(st, Taken(st, cutoff, version, batch), version, outcomes);
    hide AnalyseAll, Taken;
  }

  lemma DeliverForgets(st: Store, r: Rec, now: int, version: int, outcome: Outcome, pk: nat)
    requires RowsSafe(st) && Gone(st, pk)
    ensures var st' := Handle(st, r, now, version, outcome);
      (forall f :: f in st'.frags ==> f.call != Some(pk)) && forall x :: x in st'.runs ==> x.call != pk
  {
    RowsPks(st);
    hide Assembled, Analyse, Handle, Aborts, Pending, CallId, RowsSafe;
    var after, i := HandleIs(st, r, now, version, outcome);
    AssembledForgets(st, r, now, pk);
    if i < |after.calls| {
      AnalysePuts(after, i, version, outcome);
      assert after.calls[i] in after.calls;
    }
  }

  lemma EraseForgets(st: Store, id: string, pk: nat)
    requires Gone(st, pk)
    ensures var st' := Erase(st, id);
      (forall f :: f in st'.frags ==> f.call != Some(pk)) && forall x :: x in st'.runs ==> x.call != pk
  {
    hide Filter;
    var c := ByExt(st.calls, id);
    if c.Some? {
      FilterMembers(st.frags, (f: Fragment) => f.call != Some(c.value.pk));
      FilterMembers(st.runs, (x: IngestRun) => x.call != c.value.pk);
    }
  }

  lemma NextForgets(st: Store, step: Step, pk: nat)
    requires RowsSafe(st) && Gone(st, pk)
    ensures Gone(Next(st, step), pk)
  {
    RowsPks(st);
    NextCompletes(st, step);
    hide Handle, Flush, Erase, RegisterArtifact, RowsSafe;
    var st' := Next(st, step);
    forall c | c in st'.calls
      ensures c.pk != pk
    {
      var j :| 0 <= j < |st'.calls| && st'.calls[j] == c;
    }
    match step
    case Deliver(r, now, version, outcome) => DeliverForgets(st, r, now, version, outcome, pk);
    case Sweep(cutoff, version, batch, outcomes) => FlushForgets(st, cutoff, version, batch, outcomes, pk);
    case Artifact(id, isAudio, now) => RegisterKeepsRows(st, id, isAudio, now);
    case Erasure(id) => EraseForgets(st, id, pk);
  }

  /** Over whole runs: once a call is erased, nothing in the store ever bears its key again, whatever is delivered. */
  lemma {:induction false} ErasedForGood(steps: seq<Step>, n: nat, c: Call)
    requires n < |steps| && steps[n] == Erasure(c.ext) && c in Run(EMPTY, steps[..n]).calls
    ensures Gone(Run(EMPTY, steps), c.pk)
    decreases |steps|
  {
    var init, step := steps[..|steps| - 1], steps[|steps| - 1];
    var before := Run(EMPTY, init);
    RunSafe(init);
    hide *;
    RunLast(steps);
    if n == |init| {
      ErasedNow(before, c);
      NextErases(before, c.ext);
    } else {
      assert init[..n] == steps[..n];
      ErasedForGood(init, n, c);
      NextForgets(before, step, c.pk);
    }
  }

  lemma ErasedNow(st: Store, c: Call)
    requires RowsSafe(st) && c in st.calls
    ensures Gone(Erase(st, c.ext), c.pk)
  {
    hide *;
    var i :| 0 <= i < |st.calls| && st.calls[i] == c;
    ErasesExactly(st, i);
  }

  lemma RunLast(steps: seq<Step>)
    requires steps != []
    ensures Run(EMPTY, steps) == Next(Run(EMPTY, steps[..|steps| - 1]), steps[|steps| - 1])
  {
  }

  lemma NextErases(st: Store, id: string)
    ensures Next(st, Step.Erasure(id)) == Erase(st, id)
  {
  }
}
