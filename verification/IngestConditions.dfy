/** Exactly when ingest keeps its promises: the sets of records over which every run stores each record once,
    and those over which the order of arrival does not matter. */
module IngestConditions {
  import opened Options
  import opened Otlp
  import opened IngestStore
  import opened IngestSteps
  import opened IngestSafety
  import opened ExactlyOnce
  import opened Confluence
  import opened IngestLimits

  // ---------------------------------------------------------------- deliveries

  lemma {:induction false} DeliveredAll(rs: seq<Rec>)
    ensures TakeIn(rs).tombs == {} && Delivered(Deliveries(rs)) == set r | r in rs
  {
    if rs == [] {
      assert Deliveries(rs) == [];
    } else {
      hide Handle, Commits, Run;
      var init, r := rs[..|rs| - 1], rs[|rs| - 1];
      DeliveredAll(init);
      assert rs == init + [r];
      TakeInMore(init, r);
      TakeCommits(TakeIn(init), r);
      var steps := Deliveries(rs);
      assert steps[..|init|] == Deliveries(init);
      assert Delivered(steps) == Delivered(Deliveries(init)) + {r};
    }
  }

  lemma TakeCommits(st: Store, r: Rec)
    requires st.tombs == {}
    ensures Commits(st, r, 0, 1, Analysed) && Take(st, r).tombs == {}
  {
    hide CallId, Landing, ByExt, Promoted;
  }

  lemma LawfulDeliveries(rs: seq<Rec>, recs: set<Rec>)
    requires forall k :: 0 <= k < |rs| ==> rs[k] in recs
    ensures Lawful(Deliveries(rs), recs)
  {
  }

  // ---------------------------------------------------------------- exactly once

  /** One fragment for each delivered record, and no others. */
  ghost predicate OnceEach(frags: seq<Fragment>, done: set<Rec>) {
    |frags| == |done| && forall r :: r in done ==> exists k :: OnlyFragment(frags, k, r)
  }

  ghost predicate AlwaysOnce(recs: set<Rec>) {
    forall steps :: Lawful(steps, recs) ==> OnceEach(Run(EMPTY, steps).frags, Delivered(steps))
  }

  /** For records that have a trace, with call ids that are no trace ids: every run stores each record once if
      and only if no trace has two call ids one of which occurs on another trace too. */
  lemma ExactlyOnceIff(recs: set<Rec>)
    requires Identified(recs) && KeysUnique(recs)
    ensures AlwaysOnce(recs) <==> NoneCross(recs)
  {
    hide Identified, KeysUnique, Run, Delivered, OnceEach, Cross, Lawful;
    if NoneCross(recs) {
      forall steps | Lawful(steps, recs)
        ensures OnceEach(Run(EMPTY, steps).frags, Delivered(steps))
      {
        StoresEachOnce(steps, recs);
      }
    } else {
      var r1, r2, r3 :| r1 in recs && r2 in recs && r3 in recs && Cross(r1, r2, r3);
      CrossStoresTwice(recs, r1, r2, r3);
    }
  }

  lemma StoresEachOnce(steps: seq<Step>, recs: set<Rec>)
    requires Identified(recs) && KeysUnique(recs) && NoneCross(recs) && Lawful(steps, recs)
    ensures OnceEach(Run(EMPTY, steps).frags, Delivered(steps))
  {
    hide Identified, KeysUnique, NoneCross, Lawful, Run, Delivered, OnlyFragment, WorldOf, Orderly, AllObey, Rows,
      HasOwner;
    WorldFits(recs);
    RunSound(steps, WorldOf(recs), recs);
    forall r | r in Delivered(steps)
      ensures exists k :: OnlyFragment(Run(EMPTY, steps).frags, k, r)
    {
      var k := OneFragmentEach(steps, recs, r);
    }
  }

  lemma CrossStoresTwice(recs: set<Rec>, r1: Rec, r2: Rec, r3: Rec)
    requires Identified(recs) && KeysUnique(recs) && r1 in recs && r2 in recs && r3 in recs && Cross(r1, r2, r3)
    ensures var steps := Deliveries([r1, r2, r3, r1]);
      Lawful(steps, recs) && !OnceEach(Run(EMPTY, steps).frags, Delivered(steps))
  {
    hide TraceOf, Hint, Run, Delivered, Lawful, Deliveries;
    TwoIdsOnOneTrace(r1, r2, r3, Hint(r1).value, Hint(r2).value, TraceOf(r1), TraceOf(r3));
    DeliveredAll([r1, r2, r3, r1]);
    LawfulDeliveries([r1, r2, r3, r1], recs);
    assert (set r | r in [r1, r2, r3, r1]) == {r1, r2, r3};
    assert |{r1, r2, r3}| <= 3;
  }

  // ---------------------------------------------------------------- order

  ghost predicate OrderNeverMatters(recs: set<Rec>) {
    forall steps, others :: Lawful(steps, recs) && Lawful(others, recs) && Delivered(steps) == Delivered(others) ==>
      Grouping(Run(EMPTY, steps)) == Grouping(Run(EMPTY, others))
  }

  /** For the same records: what the store holds is a function of the records delivered if and only if the call
      ids and the traces they occur on correspond one to one. */
  lemma OrderMattersIff(recs: set<Rec>)
    requires Identified(recs) && KeysUnique(recs)
    ensures OrderNeverMatters(recs) <==> Corresponding(recs)
  {
    hide Identified, KeysUnique, Run, Delivered, Grouping, Lawful, TraceOf, Hint;
    if Corresponding(recs) {
      forall steps, others | Lawful(steps, recs) && Lawful(others, recs) && Delivered(steps) == Delivered(others)
        ensures Grouping(Run(EMPTY, steps)) == Grouping(Run(EMPTY, others))
      {
        OrderDoesNotMatter(steps, others, recs);
      }
    } else {
      var r, s :| r in recs && s in recs && Hint(r).Some? && Hint(s).Some? &&
                  !(Hint(r) == Hint(s) <==> TraceOf(r) == TraceOf(s));
      TwoOrders(recs, r, s);
    }
  }

  lemma TwoOrders(recs: set<Rec>, r: Rec, s: Rec)
    requires Identified(recs) && KeysUnique(recs) && r in recs && s in recs && Hint(r).Some? && Hint(s).Some?
    requires !(Hint(r) == Hint(s) <==> TraceOf(r) == TraceOf(s))
    ensures Lawful(Deliveries([r, s]), recs) && Lawful(Deliveries([s, r]), recs)
    ensures Delivered(Deliveries([r, s])) == Delivered(Deliveries([s, r]))
    ensures Grouping(TakeIn([r, s])) != Grouping(TakeIn([s, r]))
  {
    hide TraceOf, Hint, Run, Delivered, Lawful, Deliveries, Grouping, TakeIn;
    LawfulDeliveries([r, s], recs);
    LawfulDeliveries([s, r], recs);
    DeliveredAll([r, s]);
    DeliveredAll([s, r]);
    assert (set x | x in [r, s]) == {r, s} == (set x | x in [s, r]);
    FirstThenSecond(r, s);
    FirstThenSecond(s, r);
    OnlyGroup(TakeIn([r, s]));
    OnlyGroup(TakeIn([s, r]));
  }

  /** The second record lands on the first one's row and renames it. */
  lemma FirstThenSecond(r: Rec, s: Rec)
    requires Hint(r).Some? && Hint(s).Some? && TraceOf(r) != "" && TraceOf(s) != ""
    requires Hint(r) == Hint(s) || TraceOf(r) == TraceOf(s)
    ensures |TakeIn([r, s]).calls| == 1 && IsRow(TakeIn([r, s]).calls[0], 0, Hint(s).value, TraceOf(r))
  {
    hide Hint, TraceOf, Take, CallId, TakeIn;
    HintResolves(EMPTY, r);
    TakeNew(EMPTY, r, Hint(r).value);
    var s1 := Take(EMPTY, r);
    HintResolves(s1, s);
    TakeOnto(s1, s, Hint(s).value, 0, TraceOf(r));
    TakeInTwo(r, s);
  }

  lemma OnlyGroup(st: Store)
    requires |st.calls| == 1
    ensures Grouping(st) == {GroupAt(st, 0)}
  {
  }
}
