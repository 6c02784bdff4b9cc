/** A call that fails in the grace flush: which rows it keeps waiting, and for how long. */
module FlushBlocked {
  import opened Sorting
  import opened IngestStore
  import opened IngestSteps

  function Early(at: int): Call -> bool {
    (c: Call) => c.lastActivity <= at
  }

  function Late(at: int): Call -> bool {
    (c: Call) => c.lastActivity > at
  }

  /** Rows quiet since before both cutoffs are due at both or at neither. */
  lemma {:induction false} SameEarlyDue(calls: seq<Call>, at: int, cutoff: int, later: int, version: int)
    requires at < cutoff <= later
    ensures Filter(Filter(calls, IsDue(cutoff, version)), Early(at))
         == Filter(Filter(calls, IsDue(later, version)), Early(at))
  {
    if calls != [] {
      var c := calls[0];
      SameEarlyDue(calls[1..], at, cutoff, later, version);
      FilterAppend(Only(c, IsDue(cutoff, version)), Filter(calls[1..], IsDue(cutoff, version)), Early(at));
      FilterAppend(Only(c, IsDue(later, version)), Filter(calls[1..], IsDue(later, version)), Early(at));
      OnlyEarly(c, at, cutoff, later, version);
    }
  }

  lemma OnlyEarly(c: Call, at: int, cutoff: int, later: int, version: int)
    requires at < cutoff <= later
    ensures Filter(Only(c, IsDue(cutoff, version)), Early(at)) == Filter(Only(c, IsDue(later, version)), Early(at))
  {
    assert [c][1..] == [];
    assert Filter([c], Early(at)) == Only(c, Early(at)) + [];
  }

  lemma LateRows(due: seq<Call>, at: int)
    ensures var rest := Sorted(Filter(due, Late(at)), ByActivity);
      forall k :: 0 <= k < |rest| ==> rest[k].lastActivity > at
  {
    var rest := Sorted(Filter(due, Late(at)), ByActivity);
    SortedMembers(Filter(due, Late(at)), ByActivity);
    FilterMembers(due, Late(at));
    hide Sorted, Filter;
    forall k | 0 <= k < |rest|
      ensures rest[k].lastActivity > at
    {
      assert rest[k] in rest;
    }
  }

  lemma InFirst(first: seq<Call>, rest: seq<Call>, at: int, i: nat)
    requires i < |first + rest| && (first + rest)[i].lastActivity <= at
    requires forall k :: 0 <= k < |rest| ==> rest[k].lastActivity > at
    ensures i < |first| && first[i] == (first + rest)[i]
  {
  }

  /** Where the rows quiet up to `at` stand in the order: first, and among themselves as if alone. */
  lemma EarlyFirst(due: seq<Call>, at: int, i: nat)
    requires i < |Sorted(due, ByActivity)| && Sorted(due, ByActivity)[i].lastActivity <= at
    ensures var first := Sorted(Filter(due, Early(at)), ByActivity);
      i < |first| && first[i] == Sorted(due, ByActivity)[i]
  {
    SortedSplits(due, ByActivity, Early(at), Late(at));
    LateRows(due, at);
    hide *;
    InFirst(Sorted(Filter(due, Early(at)), ByActivity), Sorted(Filter(due, Late(at)), ByActivity), at, i);
  }

  lemma FirstStays(due: seq<Call>, at: int, i: nat)
    requires i < |Sorted(Filter(due, Early(at)), ByActivity)|
    ensures i < |Sorted(due, ByActivity)|
    ensures Sorted(due, ByActivity)[i] == Sorted(Filter(due, Early(at)), ByActivity)[i]
  {
    SortedSplits(due, ByActivity, Early(at), Late(at));
    hide Sorted, Filter;
  }

  /** A row that has waited out the grace and is taken is taken by every later flush too, while nothing moves:
      what becomes due meanwhile stands behind it. */
  lemma TakenAgain(st: Store, c: Call, cutoff: int, later: int, version: int, batch: nat, batch': nat)
    requires c in Taken(st, cutoff, version, batch) && c.lastActivity < cutoff <= later && batch <= batch'
    ensures c in Taken(st, later, version, batch')
  {
    var due, due' := Filter(st.calls, IsDue(cutoff, version)), Filter(st.calls, IsDue(later, version));
    hide Sorted, Filter, IsDue;
    var i :| 0 <= i < |Taken(st, cutoff, version, batch)| && Taken(st, cutoff, version, batch)[i] == c;
    EarlyFirst(due, c.lastActivity, i);
    SameEarlyDue(st.calls, c.lastActivity, cutoff, later, version);
    FirstStays(due', c.lastActivity, i);
    assert Taken(st, later, version, batch')[i] == c;
  }

  /** One failing call that has waited out the grace and is within reach of a batch blocks the whole org's flush for
      as long as it fails: no later sweep changes anything. */
  lemma {:induction false} BlockedForever(st: Store, steps: seq<Step>, c: Call, cutoff: int, version: int, batch: nat)
    requires c in Taken(st, cutoff, version, batch) && c.lastActivity < cutoff
    requires forall k :: 0 <= k < |steps| ==> FailsOn(steps[k], c, cutoff, version, batch)
    ensures Run(st, steps) == st
  {
    if steps != [] {
      var init, step := steps[..|steps| - 1], steps[|steps| - 1];
      hide Taken, Flush;
      BlockedForever(st, init, c, cutoff, version, batch);
      TakenAgain(st, c, cutoff, step.cutoff, version, batch, step.batch);
      FailedFlush(st, c, step.cutoff, version, step.batch, step.outcomes);
    }
  }

  /** A sweep no earlier than `cutoff`, of batches no smaller, in which the call fails. */
  predicate FailsOn(step: Step, c: Call, cutoff: int, version: int, batch: nat) {
    step.Sweep? && cutoff <= step.cutoff && step.version == version && batch <= step.batch
    && step.outcomes(c.pk) == Failed
  }

  lemma FailedFlush(st: Store, c: Call, cutoff: int, version: int, batch: nat, outcomes: nat -> Outcome)
    requires c in Taken(st, cutoff, version, batch) && outcomes(c.pk) == Failed
    ensures Flush(st, cutoff, version, batch, outcomes) == st
  {
    hide Taken;
  }
}
