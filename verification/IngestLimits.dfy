/** Where ingest's promises stop: what a redelivery needs, what a shared id costs, and which stragglers
    of an erased call get through. */
module IngestLimits {
  import opened Options
  import opened Sorting
  import opened Otlp
  import opened IngestStore
  import opened IngestSteps
  import opened IngestSafety

  // ---------------------------------------------------------------- a record with no identity

  /** `ByTrace` looks at traces only. */
  lemma {:induction false} ByTraceSame(a: seq<Call>, b: seq<Call>, t: string)
    requires |a| == |b| && forall k :: 0 <= k < |a| ==> a[k].trace == b[k].trace && a[k].ext == b[k].ext
    ensures ByTrace(a, t).Some? == ByTrace(b, t).Some?
    ensures ByTrace(a, t).Some? ==> ByTrace(a, t).value.ext == ByTrace(b, t).value.ext
  {
    if a != [] {
      ByTraceSame(a[1..], b[1..], t);
    }
  }

  lemma CallIdIs(calls: seq<Call>, r: Rec)
    requires forall k :: 0 <= k < |calls| ==> calls[k].ext != ""
    ensures Hint(r).Some? ==> CallId(calls, r) == Hint(r)
    ensures Hint(r).None? && TraceOf(r) == "" ==> CallId(calls, r) == None
    ensures Hint(r).None? && TraceOf(r) != "" && ByTrace(calls, TraceOf(r)).Some? ==>
      CallId(calls, r) == Some(ByTrace(calls, TraceOf(r)).value.ext)
    ensures Hint(r).None? && TraceOf(r) != "" && ByTrace(calls, TraceOf(r)).None? ==> CallId(calls, r) == Some(TraceOf(r))
  {
    hide Hint, TraceOf;
    ByTraceHas(calls, TraceOf(r));
    assert ByTrace(calls, TraceOf(r)).Some? ==> ByTrace(calls, TraceOf(r)).value in calls;
  }

  /** Straight after its delivery a record resolves to the same id. */
  lemma ResolvesAgain(st: Store, r: Rec, cid: string, now: int)
    requires RowsSafe(st) && CallId(st.calls, r) == Some(cid)
    ensures CallId(Upsert(st, r, cid, now).calls, r) == Some(cid)
  {
    var st' := Upsert(st, r, cid, now);
    var t := TraceOf(r);
    var i := UpsertPuts(st, r, cid, now);
    var c := Landing(st, r, cid, now);
    CallIdIs(st.calls, r);
    assert cid != "";
    CallIdIs(st'.calls, r);
    if Hint(r).None? {
      hide Upsert, Landing, Hint, CallId, HasRoot, TraceOf;
      assert t != "";
      var j := ByTraceAt(st.calls, t);
      if j < |st.calls| {
        ByExtOf(st.calls, j);
        assert i == j;
        ByTraceSame(st.calls, st'.calls, t);
      } else {
        var j' := ByTraceAt(st'.calls, t);
        assert j' < |st'.calls| ==> j' == i;
      }
    }
  }

  /** An id that already has a row keeps that row's key. */
  lemma KeyKept(st: Store, r: Rec, cid: string, now: int)
    requires RowsSafe(st) && cid != "" && cid !in st.tombs
    ensures var st' := Upsert(st, r, cid, now);
      && RowsSafe(st') && CallPk(st'.calls, Some(cid)).Some?
      && (CallPk(st.calls, Some(cid)).Some? ==> CallPk(st'.calls, Some(cid)) == CallPk(st.calls, Some(cid)))
  {
    var i := UpsertPuts(st, r, cid, now);
    UpsertSafe(st, r, cid, now);
    hide Upsert, Landing, HasRoot, TraceOf, ByExt;
    var st' := Upsert(st, r, cid, now);
    ByExtOf(st'.calls, i);
    var j := ByExtAt(st.calls, cid);
    assert j < |st.calls| ==> j == i;
  }

  lemma StoredOnce(st: Store, r: Rec, cid: string)
    requires CallPk(st.calls, Some(cid)).Some?
    ensures var st' := StoreFragment(st, r, Some(cid));
      && st'.calls == st.calls && st'.tombs == st.tombs && st'.nextPk == st.nextPk
      && HasFragment(st'.frags, CallPk(st.calls, Some(cid)), r.batch, r.seqNo)
  {
    hide CallPk;
    var pk := CallPk(st.calls, Some(cid));
    if !HasFragment(st.frags, pk, r.batch, r.seqNo) {
      var f := Fragment(pk, r.batch, r.seqNo, Slice(r.resource, r.spans));
      assert (st.frags + [f])[|st.frags|] == f;
    }
  }

  /** A redelivery adds no second fragment exactly when the record has an identity: a call id or a trace. */
  lemma RedeliveryIdempotentIff(st: Store, r: Rec, now: int, later: int)
    requires RowsSafe(st) && !Dropped(st, r)
    ensures var once := Assembled(st, r, now);
      Assembled(once, r, later).frags == once.frags <==> Hint(r).Some? || TraceOf(r) != ""
  {
    CallIdIs(st.calls, r);
    hide Hint, TraceOf, Upsert, RowsSafe, StoreFragment, CallId;
    var cid := CallId(st.calls, r);
    if cid.Some? {
      CallIdIsNot(st, r);
      var st1 := Upsert(st, r, cid.value, now);
      KeyKept(st, r, cid.value, now);
      ResolvesAgain(st, r, cid.value, now);
      StoredOnce(st1, r, cid.value);
      var once := StoreFragment(st1, r, cid);
      SameRowsSafe(st1, once);
      KeyKept(once, r, cid.value, later);
      StoredAgain(once, r, cid.value, later);
    } else {
      NoIdentity(st, r, now, later);
    }
  }

  lemma CallIdIsNot(st: Store, r: Rec)
    requires !Dropped(st, r) && CallId(st.calls, r).Some?
    ensures CallId(st.calls, r).value !in st.tombs && CallId(st.calls, r).value != ""
  {
  }

  lemma StoredAgain(once: Store, r: Rec, cid: string, later: int)
    requires PksDistinct(once)
    requires CallPk(once.calls, Some(cid)).Some?
    requires CallPk(Upsert(once, r, cid, later).calls, Some(cid)) == CallPk(once.calls, Some(cid))
    requires HasFragment(once.frags, CallPk(once.calls, Some(cid)), r.batch, r.seqNo)
    ensures StoreFragment(Upsert(once, r, cid, later), r, Some(cid)).frags == once.frags
  {
    var i := UpsertPuts(once, r, cid, later);
    hide Upsert, Landing, CallPk;
  }

  lemma NoIdentity(st: Store, r: Rec, now: int, later: int)
    requires CallId(st.calls, r) == None
    ensures var once := Assembled(st, r, now); |Assembled(once, r, later).frags| == |once.frags| + 1
  {
    hide CallId;
  }

  // ---------------------------------------------------------------- ids shared where they should not be

  function Take(st: Store, r: Rec): Store {
    Handle(st, r, 0, 1, Analysed)
  }

  /** Deliveries one after the other, with nothing in between. */
  function Deliveries(recs: seq<Rec>): seq<Step> {
    seq(|recs|, k requires 0 <= k < |recs| => Deliver(recs[k], 0, 1, Analysed))
  }

  function TakeIn(recs: seq<Rec>): Store {
    Run(EMPTY, Deliveries(recs))
  }

  lemma TakeInMore(recs: seq<Rec>, r: Rec)
    ensures TakeIn(recs + [r]) == Take(TakeIn(recs), r)
  {
    hide Handle;
    var steps := Deliveries(recs + [r]);
    assert steps[..|recs|] == Deliveries(recs);
  }

  predicate Carries(r: Rec, hint: Option<string>, trace: string) {
    Hint(r) == hint && TraceOf(r) == trace
  }

  /** Rows without audio, so that nothing is analysed yet. */
  ghost predicate Plain(st: Store) {
    PksDistinct(st) && st.tombs == {} && forall k :: 0 <= k < |st.calls| ==> !st.calls[k].mediaReady
  }

  predicate IsRow(c: Call, pk: nat, ext: string, trace: string) {
    c.pk == pk && c.ext == ext && c.trace == Some(trace)
  }

  function Part(r: Rec, pk: nat): Fragment {
    Fragment(Some(pk), r.batch, r.seqNo, Slice(r.resource, r.spans))
  }

  lemma PlainTake(st: Store, r: Rec, cid: string)
    requires Plain(st) && CallId(st.calls, r) == Some(cid)
    ensures Take(st, r) == StoreFragment(Upsert(st, r, cid, 0), r, Some(cid)) && Plain(Take(st, r))
  {
    hide Upsert, Landing, CallId, TraceOf, HasRoot, Hint;
    var i := UpsertPuts(st, r, cid, 0);
    PlainLanding(st, r, cid);
    StoreKeepsRows(Upsert(st, r, cid, 0), r, Some(cid));
    var st' := Assembled(st, r, 0);
    var j := ByExtAt(st'.calls, cid);
  }

  /** A record lands on row `i`, the row of its id or, when its id has none, the row of its trace. */
  lemma TakeOnto(st: Store, r: Rec, cid: string, i: nat, t: string)
    requires Plain(st) && ExtsDistinct(st.calls) && CallId(st.calls, r) == Some(cid)
    requires i < |st.calls| && st.calls[i].trace == Some(t)
    requires st.calls[i].ext == cid || (t == TraceOf(r) != "" && forall j :: 0 <= j < |st.calls| ==>
      st.calls[j].ext != cid && (j != i ==> st.calls[j].trace != Some(t)))
    ensures var st' := Take(st, r); var pk := st.calls[i].pk;
      && Plain(st') && ExtsDistinct(st'.calls) && |st'.calls| == |st.calls| && IsRow(st'.calls[i], pk, cid, t)
      && (forall j :: 0 <= j < |st.calls| && j != i ==> st'.calls[j] == st.calls[j])
      && st'.nextPk == st.nextPk
      && st'.frags == if HasFragment(st.frags, Some(pk), r.batch, r.seqNo) then st.frags else st.frags + [Part(r, pk)]
  {
    hide Upsert, Landing, CallId, TraceOf, HasRoot, Hint, Take;
    PlainTake(st, r, cid);
    var k := UpsertPuts(st, r, cid, 0);
    assert k == i;
    var st1 := Upsert(st, r, cid, 0);
    ByExtOf(st1.calls, i);
  }

  /** A record whose id and trace are both unknown gets a new row. */
  lemma TakeNew(st: Store, r: Rec, cid: string)
    requires Plain(st) && ExtsDistinct(st.calls) && CallId(st.calls, r) == Some(cid) && TraceOf(r) != ""
    requires forall j :: 0 <= j < |st.calls| ==> st.calls[j].ext != cid && st.calls[j].trace != Some(TraceOf(r))
    ensures var st' := Take(st, r); var n := |st.calls|;
      && Plain(st') && ExtsDistinct(st'.calls) && |st'.calls| == n + 1 && st'.calls[..n] == st.calls
      && IsRow(st'.calls[n], st.nextPk, cid, TraceOf(r)) && st'.nextPk == st.nextPk + 1
      && st'.frags == if HasFragment(st.frags, Some(st.nextPk), r.batch, r.seqNo) then st.frags
                      else st.frags + [Part(r, st.nextPk)]
  {
    hide Upsert, Landing, CallId, TraceOf, HasRoot, Hint, Take;
    PlainTake(st, r, cid);
    var k := UpsertPuts(st, r, cid, 0);
    var st1 := Upsert(st, r, cid, 0);
    ByExtOf(st1.calls, |st.calls|);
  }

  lemma PlainLanding(st: Store, r: Rec, cid: string)
    requires Plain(st)
    ensures !Landing(st, r, cid, 0).mediaReady
  {
    ByExtHas(st.calls, cid);
    ByTraceHas(st.calls, TraceOf(r));
  }

  predicate Differ(r: Rec, s: Rec) {
    r.batch != s.batch || r.seqNo != s.seqNo
  }

  /** Two call ids on one trace, the first of them on another trace too, break exactly-once: when the row has
      been renamed away and the first id has come back, a redelivery is filed a second time. */
  lemma TwoIdsOnOneTrace(r1: Rec, r2: Rec, r3: Rec, c1: string, c2: string, t: string, u: string)
    requires c1 != c2 && t != u && t != "" && u != ""
    requires Carries(r1, Some(c1), t) && Carries(r2, Some(c2), t) && Carries(r3, Some(c1), u)
    requires Differ(r1, r2) && Differ(r1, r3) && Differ(r2, r3)
    ensures TakeIn([r1, r2, r3, r1]).frags == [Part(r1, 0), Part(r2, 0), Part(r3, 1), Part(r1, 1)]
  {
    hide *;
    var s1, s2 := TwoIdsBefore(r1, r2, r3, c1, c2, t, u);
    TwoIdsAfter(s2, r1, r2, r3, c1, c2, t, u);
    TakeInFour(r1, r2, r3, r1);
  }

  lemma TwoIdsAfter(s2: Store, r1: Rec, r2: Rec, r3: Rec, c1: string, c2: string, t: string, u: string)
    requires c1 != c2 && t != u && t != "" && u != "" && Differ(r1, r3)
    requires Carries(r1, Some(c1), t) && Carries(r3, Some(c1), u)
    requires Plain(s2) && ExtsDistinct(s2.calls) && |s2.calls| == 1 && IsRow(s2.calls[0], 0, c2, t) && s2.nextPk == 1
    requires s2.frags == [Part(r1, 0), Part(r2, 0)]
    ensures Take(Take(s2, r3), r1).frags == [Part(r1, 0), Part(r2, 0), Part(r3, 1), Part(r1, 1)]
  {
    hide Hint, TraceOf, Take, CallId, Plain, ExtsDistinct;
    HintResolves(s2, r3);
    TakeNew(s2, r3, c1);
    var s3 := Take(s2, r3);
    HintResolves(s3, r1);
    TakeOnto(s3, r1, c1, 1, u);
  }

  lemma TwoIdsBefore(r1: Rec, r2: Rec, r3: Rec, c1: string, c2: string, t: string, u: string)
      returns (s1: Store, s2: Store)
    requires c1 != c2 && t != u && t != "" && u != "" && Differ(r1, r2)
    requires Carries(r1, Some(c1), t) && Carries(r2, Some(c2), t)
    ensures s1 == Take(EMPTY, r1) && s2 == Take(s1, r2)
    ensures Plain(s2) && ExtsDistinct(s2.calls) && |s2.calls| == 1 && IsRow(s2.calls[0], 0, c2, t) && s2.nextPk == 1
    ensures s2.frags == [Part(r1, 0), Part(r2, 0)]
  {
    hide Hint, TraceOf, Take, CallId;
    HintResolves(EMPTY, r1);
    TakeNew(EMPTY, r1, c1);
    s1 := Take(EMPTY, r1);
    HintResolves(s1, r2);
    TakeOnto(s1, r2, c2, 0, t);
    s2 := Take(s1, r2);
  }

  lemma TakeInFour(a: Rec, b: Rec, c: Rec, d: Rec)
    ensures TakeIn([a, b, c, d]) == Take(Take(Take(Take(EMPTY, a), b), c), d)
  {
    hide *;
    TakeInTwo(a, b);
    assert [a, b] + [c] == [a, b, c] && [a, b, c] + [d] == [a, b, c, d];
    TakeInMore([a, b], c);
    TakeInMore([a, b, c], d);
  }

  lemma TakeInTwo(a: Rec, b: Rec)
    ensures TakeIn([a, b]) == Take(Take(EMPTY, a), b)
  {
    hide *;
    TakeInNone();
    assert [] + [a] == [a] && [a] + [b] == [a, b];
    TakeInMore([], a);
    TakeInMore([a], b);
  }

  lemma TakeInNone()
    ensures TakeIn([]) == EMPTY
  {
  }

  /** Producers can send any combination of call id and trace. */
  lemma Sent(hint: Option<string>, trace: string, batch: string) returns (r: Rec)
    requires hint.Some? ==> hint.value != ""
    ensures Carries(r, hint, trace) && r.batch == batch
  {
    var attrs := if hint.Some? then [Attr(CALL_ID, StringValue(hint.value))] else [];
    var span := Span(trace, "a", "", attrs, 0);
    r := Rec(NoResource, [span], None, batch, 0);
    assert hint.Some? ==> LastValue(attrs, CALL_ID) == Some(StringValue(hint.value));
    assert PyAttr(attrs, CALL_ID) == hint;
    assert Root([span]) == Some(span);
    assert [span] + [span] == [span, span] && [span, span][1..] == [span] && [span][1..] == [];
    assert FirstHint([span]) == hint;
    assert FirstHint([span, span]) == hint;
    assert FirstTraceId([span][1..]) == "" && FirstTraceId([span]) == trace;
  }

  lemma TwoIdsExample() returns (r1: Rec, r2: Rec, r3: Rec)
    ensures var f := TakeIn([r1, r2, r3, r1]).frags;
      |f| == 4 && f[0] == Part(r1, 0) && f[3] == Part(r1, 1)
  {
    r1 := Sent(Some("c1"), "t", "x");
    r2 := Sent(Some("c2"), "t", "y");
    r3 := Sent(Some("c1"), "u", "z");
    hide *;
    assert "c1"[1] != "c2"[1] && "t"[0] != "u"[0] && "x"[0] != "y"[0] && "x"[0] != "z"[0] && "y"[0] != "z"[0];
    TwoIdsOnOneTrace(r1, r2, r3, "c1", "c2", "t", "u");
  }

  /** One call id on two traces makes the grouping depend on arrival order: one row or two. */
  lemma SharedIdOrderMatters(r1: Rec, r2: Rec, r3: Rec, c: string, t: string, u: string)
    requires t != u && t != "" && u != "" && c != t && c != u && c != ""
    requires Carries(r1, Some(c), t) && Carries(r2, None, u) && Carries(r3, Some(c), u)
    ensures |Take(Take(Take(EMPTY, r2), r1), r3).calls| == 2
    ensures |Take(Take(Take(EMPTY, r3), r2), r1).calls| == 1
  {
    SplitApart(r1, r2, r3, c, t, u);
    KeptTogether(r1, r2, r3, c, t, u);
  }

  lemma SplitApart(r1: Rec, r2: Rec, r3: Rec, c: string, t: string, u: string)
    requires t != u && t != "" && u != "" && c != t && c != u && c != ""
    requires Carries(r1, Some(c), t) && Carries(r2, None, u) && Carries(r3, Some(c), u)
    ensures |Take(Take(Take(EMPTY, r2), r1), r3).calls| == 2
  {
    TraceResolves(EMPTY, r2);
    hide Hint, TraceOf, Take, CallId;
    TakeNew(EMPTY, r2, u);
    var s1 := Take(EMPTY, r2);
    HintResolves(s1, r1);
    TakeNew(s1, r1, c);
    var s2 := Take(s1, r1);
    HintResolves(s2, r3);
    assert s2.calls[0] == s2.calls[..1][0];
    TakeOnto(s2, r3, c, 1, t);
  }

  lemma KeptTogether(r1: Rec, r2: Rec, r3: Rec, c: string, t: string, u: string)
    requires t != u && t != "" && u != "" && c != t && c != u && c != ""
    requires Carries(r1, Some(c), t) && Carries(r2, None, u) && Carries(r3, Some(c), u)
    ensures |Take(Take(Take(EMPTY, r3), r2), r1).calls| == 1
  {
    hide Hint, TraceOf, Take, CallId;
    HintResolves(EMPTY, r3);
    TakeNew(EMPTY, r3, c);
    var s1 := Take(EMPTY, r3);
    assert OnlyRowOf(s1.calls, 0, u);
    TraceResolves(s1, r2);
    TakeOnto(s1, r2, c, 0, u);
    var s2 := Take(s1, r2);
    HintResolves(s2, r1);
    TakeOnto(s2, r1, c, 0, u);
  }

  ghost predicate OnlyRowOf(calls: seq<Call>, i: nat, t: string)
    requires i < |calls|
  {
    calls[i].trace == Some(t) && forall j :: 0 <= j < |calls| && j != i ==> calls[j].trace != Some(t)
  }

  /** Without a call id a record goes by its trace. */
  lemma TraceResolves(st: Store, r: Rec)
    requires Hint(r).None? && TraceOf(r) != ""
    ensures (forall j :: 0 <= j < |st.calls| ==> st.calls[j].trace != Some(TraceOf(r))) ==>
      CallId(st.calls, r) == Some(TraceOf(r))
    ensures forall i :: 0 <= i < |st.calls| && OnlyRowOf(st.calls, i, TraceOf(r)) && st.calls[i].ext != "" ==>
      CallId(st.calls, r) == Some(st.calls[i].ext)
  {
    hide Hint, TraceOf;
    var k := ByTraceAt(st.calls, TraceOf(r));
  }

  // ---------------------------------------------------------------- stragglers of an erased call

  /** After an erasure a late record of the erased trace is dropped exactly when what it now resolves to, its
      call id or else its bare trace id, is tombstoned. Otherwise it brings the call back under that id. */
  lemma StragglerDroppedIff(st: Store, i: nat, r: Rec, now: int)
    requires RowsSafe(st) && i < |st.calls| && TraceOf(r) != "" && OnlyRowOf(st.calls, i, TraceOf(r))
    ensures var id := st.calls[i].ext; var after := Erase(st, id); var resolved := Hint(r).GetOr(TraceOf(r));
      && (Dropped(after, r) <==> resolved == id || resolved in st.tombs)
      && (!Dropped(after, r) ==>
            ByExt(Assembled(after, r, now).calls, resolved).Some? && resolved !in Assembled(after, r, now).tombs)
  {
    var id := st.calls[i].ext;
    var after := Erase(st, id);
    ByExtOf(st.calls, i);
    var pk := st.calls[i].pk;
    FilterRows(st.calls, (c: Call) => c.pk != pk);
    hide Hint, TraceOf, ByTrace, Upsert, StoreFragment, Filter;
    forall k | 0 <= k < |after.calls|
      ensures after.calls[k].trace != Some(TraceOf(r))
    {
      assert after.calls[k] in st.calls;
      var j: nat :| j < |st.calls| && st.calls[j] == after.calls[k];
    }
    if Hint(r).Some? {
      HintResolves(after, r);
    } else {
      TraceResolves(after, r);
    }
    EraseSafe(st, id);
    if !Dropped(after, r) {
      KeyKept(after, r, CallId(after.calls, r).value, now) by { CallIdIsNot(after, r); }
      var st0 := AssembledIs(after, r, now);
      var k := UpsertPuts(after, r, CallId(after.calls, r).value, now);
    }
  }

  /** An erased call comes back: it was assembled under its call id, and a late record of its trace has none. */
  lemma StragglerReturns() returns (r1: Rec, r2: Rec, c: Call)
    ensures Carries(r1, Some("c"), "t") && Carries(r2, None, "t")
    ensures var erased := Run(EMPTY, [Deliver(r1, 0, 1, Analysed), Erasure("c")]);
      && erased.calls == [] && erased.tombs == {"c"} && !Dropped(erased, r2)
      && c in Assembled(erased, r2, 0).calls && c.ext == "t"
  {
    r1 := Sent(Some("c"), "t", "x");
    r2 := Sent(None, "t", "y");
    assert "c" != "t" by { assert "c"[0] != "t"[0]; }
    hide Hint, TraceOf, Take, CallId, Filter, Assembled;
    HintResolves(EMPTY, r1);
    TakeNew(EMPTY, r1, "c");
    var st := Take(EMPTY, r1);
    ErasedAlone(st, r1);
    StragglerDroppedIff(st, 0, r2, 0);
    var again := Assembled(Erase(st, "c"), r2, 0).calls;
    ByExtHas(again, "t");
    c := ByExt(again, "t").value;
  }

  lemma WithoutOnly(calls: seq<Call>, pk: nat)
    requires forall c :: c in calls ==> c.pk == pk
    ensures WithoutCall(calls, pk) == []
  {
    NoneKept(calls, (c: Call) => c.pk != pk);
  }

  lemma ErasedAlone(st: Store, r: Rec)
    requires st == Take(EMPTY, r) && Plain(st) && |st.calls| == 1 && IsRow(st.calls[0], 0, "c", "t")
    ensures Run(EMPTY, [Deliver(r, 0, 1, Analysed), Erasure("c")]) == Erase(st, "c")
    ensures Erase(st, "c").calls == [] && Erase(st, "c").tombs == {"c"} && RowsSafe(st) && OnlyRowOf(st.calls, 0, "t")
  {
    hide Handle, Hint, TraceOf;
    var steps := [Deliver(r, 0, 1, Analysed), Erasure("c")];
    assert steps[..1] == [steps[0]] && steps[..1][..0] == [];
    assert Run(EMPTY, steps[..1]) == st;
    ByExtOf(st.calls, 0);
    assert st.calls == [st.calls[0]] && [st.calls[0]][1..] == [];
    WithoutOnly(st.calls, 0);
    assert "c" != "";
  }
}
