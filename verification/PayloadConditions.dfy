/** Exactly when what a call is analysed from does not depend on the order its records came in, and exactly when
    it is what was written last. */
module PayloadConditions {
  import opened Options
  import opened Seqs
  import opened Sorting
  import opened Dicts
  import opened Otlp
  import A = Assembly
  import opened IngestStore
  import opened IngestSteps
  import opened IngestSafety
  import opened ExactlyOnce
  import opened Confluence
  import opened IngestLimits
  import opened IngestConditions
  import opened CallPayloads

  // ---------------------------------------------------------------- two records of a trace

  lemma TwoOfOneTrace(r: Rec, q: Rec)
    requires TraceOf(r) == TraceOf(q) != "" && Differ(r, q)
    ensures var st := TakeIn([r, q]);
      && |st.calls| == 1 && st.calls[0].trace == Some(TraceOf(r)) && st.calls[0].pk == 0
      && st.frags == [Part(r, 0), Part(q, 0)]
  {
    hide Hint, TraceOf, Take, CallId, TakeIn;
    HasCallId(EMPTY, r);
    TakeNew(EMPTY, r, CallId(EMPTY.calls, r).value);
    var s1 := Take(EMPTY, r);
    HasCallId(s1, q);
    TakeOnto(s1, q, CallId(s1.calls, q).value, 0, TraceOf(r));
    TakeInTwo(r, q);
  }

  lemma HasCallId(st: Store, r: Rec)
    requires TraceOf(r) != ""
    ensures CallId(st.calls, r).Some?
  {
    hide Hint, TraceOf;
  }

  /** A call's fragments in the order they were stored. */
  function Arrived(st: Store, pk: nat): seq<Fragment> {
    Filter(st.frags, (f: Fragment) => f.call == Some(pk))
  }

  /** What the call would be analysed from if the last write won. */
  function ArrivalOf(st: Store, pk: nat): Dict<string, Span> {
    A.ByIdDict(A.AllSpans(Blobs(Arrived(st, pk))))
  }

  lemma LastWins(d: Dict<string, Span>, xs: seq<Span>, ys: seq<Span>, b: Span)
    requires A.Holds(d, xs + ys) && LastBody(ys, b)
    ensures b.spanId in d.vals && d.vals[b.spanId] == b
  {
    var all := xs + ys;
    var i :| A.LastOf(ys, i) && ys[i] == b;
    assert all[|xs| + i] == b;
    assert A.LastOf(all, |xs| + i) by {
      assert forall j :: |xs| + i < j < |all| ==> all[j] == ys[j - |xs|];
    }
    var k :| A.LastOf(all, k) && all[k].spanId == b.spanId && d.vals[b.spanId] == all[k];
    assert k < |xs| + i || |xs| + i < k || k == |xs| + i;
  }

  lemma SortTwo(f: Fragment, g: Fragment)
    ensures Sorted([f, g], BySeq) == if f.seqNo <= g.seqNo then [f, g] else [g, f]
  {
    assert [f, g][1..] == [g] && [g][1..] == [] && Sorted([g], BySeq) == [g];
    assert InsertSorted(f, [g][1..], BySeq) == [f];
  }

  lemma SpansOfPair(f: Fragment, g: Fragment, r: Rec, q: Rec)
    requires f.value == Slice(r.resource, r.spans) && g.value == Slice(q.resource, q.spans)
    ensures A.AllSpans(Blobs([f, g])) == r.spans + q.spans
  {
    A.OfSlice(r.resource, r.spans);
    A.OfSlice(q.resource, q.spans);
    var blobs := Blobs([f, g]);
    assert blobs == [f.value, g.value] && Init(blobs) == [f.value] && Init([f.value]) == [];
    assert A.AllSpans([f.value]) == [] + r.spans == r.spans;
  }

  /** The payload reads the record with the greater number last; in order of arrival `q` comes last. */
  lemma SpansOfTwo(st: Store, r: Rec, q: Rec)
    requires st.frags == [Part(r, 0), Part(q, 0)]
    ensures A.AllSpans(Blobs(FragmentsOf(st, 0))) == if r.seqNo <= q.seqNo then r.spans + q.spans else q.spans + r.spans
    ensures A.AllSpans(Blobs(Arrived(st, 0))) == r.spans + q.spans
  {
    var own := (f: Fragment) => f.call == Some(0);
    var f, g := Part(r, 0), Part(q, 0);
    assert [f, g] == [f] + [g] && [g] == [g] + [];
    FilterCons(f, [g], own);
    FilterCons(g, [], own);
    assert Filter([f, g], own) == [f, g];
    SortTwo(f, g);
    SpansOfPair(f, g, r, q);
    SpansOfPair(g, f, q, r);
  }

  predicate Bears(d: Dict<string, Span>, s: Span) {
    s.spanId in d.vals && d.vals[s.spanId] == s
  }

  /** Of two records of a trace the one with the greater number has the last word, whenever it came; only with
      equal numbers it is the later one. */
  lemma TwoPayload(r: Rec, q: Rec, b: Span)
    requires TraceOf(r) == TraceOf(q) != "" && Differ(r, q)
    ensures var st := TakeIn([r, q]); |st.calls| == 1 && st.calls[0].trace == Some(TraceOf(r)) && st.calls[0].pk == 0
    ensures r.seqNo <= q.seqNo && LastBody(q.spans, b) ==> Bears(PayloadOf(TakeIn([r, q]), 0), b)
    ensures r.seqNo > q.seqNo && LastBody(r.spans, b) ==> Bears(PayloadOf(TakeIn([r, q]), 0), b)
    ensures LastBody(q.spans, b) ==> Bears(ArrivalOf(TakeIn([r, q]), 0), b)
  {
    hide TraceOf, TakeIn, FragmentsOf, Arrived, A.AllSpans, Blobs, Part, A.ByIdDict, A.Holds, LastBody, Differ;
    TwoOfOneTrace(r, q);
    SpansOfTwo(TakeIn([r, q]), r, q);
    A.AssembledExactly(r.spans + q.spans);
    A.AssembledExactly(q.spans + r.spans);
    if LastBody(q.spans, b) {
      LastWins(A.ByIdDict(r.spans + q.spans), r.spans, q.spans, b);
    }
    if LastBody(r.spans, b) {
      LastWins(A.ByIdDict(q.spans + r.spans), q.spans, r.spans, b);
    }
  }

  // ---------------------------------------------------------------- the order of arrival

  /** Two stores analyse each trace's call from the same spans. */
  ghost predicate SamePayloads(a: Store, b: Store) {
    forall c, d :: c in a.calls && d in b.calls && c.trace == d.trace ==>
      PayloadOf(a, c.pk).vals == PayloadOf(b, d.pk).vals
  }

  ghost predicate PayloadsNeverDiffer(recs: set<Rec>) {
    forall steps, others :: Lawful(steps, recs) && Lawful(others, recs) && Delivered(steps) == Delivered(others) ==>
      SamePayloads(Run(EMPTY, steps), Run(EMPTY, others))
  }

  /** What a call is analysed from depends on the records alone if and only if no two records of its trace with
      one sequence number, each numbered in its own batch, disagree on a span's body. */
  lemma PayloadsDifferIff(recs: set<Rec>)
    requires Identified(recs) && Corresponding(recs) && KeysUnique(recs)
    ensures PayloadsNeverDiffer(recs) <==> TiesAgree(recs)
  {
    hide *;
    if TiesAgree(recs) {
      TiesSettle(recs);
    } else {
      var r, q, a, b := TieOf(recs);
      TieInTwoOrders(recs, r, q, a, b);
      TwoRunsDiffer(recs, [r, q], [q, r]);
    }
  }

  lemma TieOf(recs: set<Rec>) returns (r: Rec, q: Rec, a: Span, b: Span)
    requires !TiesAgree(recs)
    ensures Level(r, q, recs) && Rivals(r, q, a, b) && a != b
  {
    hide Level, Rivals;
    r, q, a, b :| Level(r, q, recs) && Rivals(r, q, a, b) && a != b;
  }

  lemma TiesSettle(recs: set<Rec>)
    requires Identified(recs) && Corresponding(recs) && KeysUnique(recs) && TiesAgree(recs)
    ensures PayloadsNeverDiffer(recs)
  {
    hide Identified, Corresponding, KeysUnique, TiesAgree, Lawful, Run, Delivered, SamePayloads;
    forall steps, others | Lawful(steps, recs) && Lawful(others, recs) && Delivered(steps) == Delivered(others)
      ensures SamePayloads(Run(EMPTY, steps), Run(EMPTY, others))
    {
      RunsAgree(steps, others, recs);
    }
  }

  lemma RunsAgree(steps: seq<Step>, others: seq<Step>, recs: set<Rec>)
    requires Identified(recs) && Corresponding(recs) && KeysUnique(recs) && TiesAgree(recs)
    requires Lawful(steps, recs) && Lawful(others, recs) && Delivered(steps) == Delivered(others)
    ensures SamePayloads(Run(EMPTY, steps), Run(EMPTY, others))
  {
    hide Identified, Corresponding, KeysUnique, TiesAgree, Lawful, Run, Delivered, PayloadOf, Sound, Orderly, WorldOf;
    var a, b := Run(EMPTY, steps), Run(EMPTY, others);
    CorrespondingWorld(recs);
    RunSound(steps, WorldOf(recs), recs);
    forall c, d | c in a.calls && d in b.calls && c.trace == d.trace
      ensures PayloadOf(a, c.pk).vals == PayloadOf(b, d.pk).vals
    {
      var i :| 0 <= i < |a.calls| && a.calls[i] == c;
      var j :| 0 <= j < |b.calls| && b.calls[j] == d;
      HasTrace(a, WorldOf(recs), Delivered(steps), i);
      PayloadsConfluent(steps, others, recs, i, j, c.trace.value);
    }
  }

  lemma HasTrace(st: Store, w: World, done: set<Rec>, i: nat)
    requires Sound(st, w, done) && i < |st.calls|
    ensures st.calls[i].trace.Some?
  {
    assert Named(st.calls[i], w);
  }

  lemma TwoRunsDiffer(recs: set<Rec>, a: seq<Rec>, b: seq<Rec>)
    requires Lawful(Deliveries(a), recs) && Lawful(Deliveries(b), recs)
    requires Delivered(Deliveries(a)) == Delivered(Deliveries(b))
    requires |TakeIn(a).calls| == 1 && |TakeIn(b).calls| == 1 && TakeIn(a).calls[0].trace == TakeIn(b).calls[0].trace
    requires PayloadOf(TakeIn(a), TakeIn(a).calls[0].pk).vals != PayloadOf(TakeIn(b), TakeIn(b).calls[0].pk).vals
    ensures !PayloadsNeverDiffer(recs)
  {
    hide Lawful, Run, Delivered, PayloadOf;
    assert TakeIn(a).calls[0] in Run(EMPTY, Deliveries(a)).calls;
    assert TakeIn(b).calls[0] in Run(EMPTY, Deliveries(b)).calls;
  }

  lemma TieInTwoOrders(recs: set<Rec>, r: Rec, q: Rec, a: Span, b: Span)
    requires Identified(recs) && KeysUnique(recs) && Level(r, q, recs)
    requires Rivals(r, q, a, b) && a != b
    ensures Lawful(Deliveries([r, q]), recs) && Lawful(Deliveries([q, r]), recs)
    ensures Delivered(Deliveries([r, q])) == Delivered(Deliveries([q, r]))
    ensures |TakeIn([r, q]).calls| == 1 && |TakeIn([q, r]).calls| == 1
    ensures TakeIn([r, q]).calls[0].trace == TakeIn([q, r]).calls[0].trace
    ensures PayloadOf(TakeIn([r, q]), TakeIn([r, q]).calls[0].pk).vals !=
            PayloadOf(TakeIn([q, r]), TakeIn([q, r]).calls[0].pk).vals
  {
    hide TraceOf, Hint, Run, Delivered, Lawful, Deliveries, TakeIn, PayloadOf, LastBody;
    LawfulDeliveries([r, q], recs);
    LawfulDeliveries([q, r], recs);
    DeliveredAll([r, q]);
    DeliveredAll([q, r]);
    assert (set x | x in [r, q]) == {r, q} == (set x | x in [q, r]);
    if r == q {
      OneLast(r.spans, a, b);
    }
    TwoPayload(r, q, b);
    TwoPayload(q, r, a);
  }

  lemma OneLast(spans: seq<Span>, a: Span, b: Span)
    requires LastBody(spans, a) && LastBody(spans, b) && a.spanId == b.spanId
    ensures a == b
  {
    var i :| A.LastOf(spans, i) && spans[i] == a;
    var j :| A.LastOf(spans, j) && spans[j] == b;
    assert i < j || j < i || i == j;
  }

  // ---------------------------------------------------------------- the last write

  /** What each call is analysed from is what was written last. */
  ghost predicate LastWriteWins(st: Store) {
    forall c :: c in st.calls ==> PayloadOf(st, c.pk).vals == ArrivalOf(st, c.pk).vals
  }

  ghost predicate LastWriteAlwaysWins(recs: set<Rec>) {
    forall steps :: Lawful(steps, recs) ==> LastWriteWins(Run(EMPTY, steps))
  }

  predicate Unequal(r: Rec, q: Rec, recs: set<Rec>) {
    r in recs && q in recs && TraceOf(r) == TraceOf(q) && r.seqNo != q.seqNo
  }

  /** Records of a trace with different sequence numbers agree on the bodies they share. */
  ghost predicate NumbersAgree(recs: set<Rec>) {
    forall r, q, a, b :: Unequal(r, q, recs) && Rivals(r, q, a, b) ==> a == b
  }

  /** The last write wins in every run if and only if no two records of a trace with different numbers disagree on
      a span's body. */
  lemma LastWriteWinsIff(recs: set<Rec>)
    requires Identified(recs) && Corresponding(recs) && KeysUnique(recs)
    ensures LastWriteAlwaysWins(recs) <==> NumbersAgree(recs)
  {
    hide *;
    if NumbersAgree(recs) {
      NumbersSettle(recs);
    } else {
      var r, q, a, b := ClashOf(recs);
      EarlierWriteWins(recs, r, q, a, b);
    }
  }

  /** Two records that clash, the one with the greater number first. */
  lemma ClashOf(recs: set<Rec>) returns (r: Rec, q: Rec, a: Span, b: Span)
    requires !NumbersAgree(recs)
    ensures Unequal(r, q, recs) && r.seqNo > q.seqNo
    ensures Rivals(r, q, a, b) && a != b
  {
    hide LastBody, TraceOf;
    r, q, a, b :| Unequal(r, q, recs) && Rivals(r, q, a, b) && a != b;
    if r.seqNo < q.seqNo {
      r, q, a, b := q, r, b, a;
    }
  }

  /** The input on which the last write loses: a record with a smaller number after one with a greater. */
  lemma EarlierWriteWins(recs: set<Rec>, r: Rec, q: Rec, a: Span, b: Span)
    requires Identified(recs) && Unequal(r, q, recs) && r.seqNo > q.seqNo
    requires Rivals(r, q, a, b) && a != b
    ensures var st := Run(EMPTY, Deliveries([r, q]));
      && Lawful(Deliveries([r, q]), recs)
      && Bears(PayloadOf(st, 0), a) && Bears(ArrivalOf(st, 0), b) && !LastWriteWins(st)
    ensures !LastWriteAlwaysWins(recs)
  {
    hide TraceOf, Run, Lawful, Deliveries, PayloadOf, ArrivalOf, LastBody, Hint;
    LawfulDeliveries([r, q], recs);
    TwoPayload(r, q, a);
    TwoPayload(r, q, b);
    var st := Run(EMPTY, Deliveries([r, q]));
    assert st == TakeIn([r, q]);
    assert st.calls[0] in st.calls;
  }

  /** Two concrete records: the body posted first, in a batch's second record, outlives the retry. */
  lemma RetryLoses() returns (r: Rec, q: Rec)
    ensures var first, retry := Span("t", "a", "", [], 1), Span("t", "a", "", [], 2);
      && r == Rec(NoResource, [first], None, "x", 1) && q == Rec(NoResource, [retry], None, "y", 0)
      && Bears(PayloadOf(TakeIn([r, q]), 0), first) && Bears(ArrivalOf(TakeIn([r, q]), 0), retry)
  {
    var first, retry := Span("t", "a", "", [], 1), Span("t", "a", "", [], 2);
    r, q := Rec(NoResource, [first], None, "x", 1), Rec(NoResource, [retry], None, "y", 0);
    assert A.LastOf(r.spans, 0) && A.LastOf(q.spans, 0) && r.spans[0] == first && q.spans[0] == retry;
    hide PayloadOf, ArrivalOf, TakeIn, Bears;
    TwoPayload(r, q, first);
    TwoPayload(r, q, retry);
  }

  lemma NumbersSettle(recs: set<Rec>)
    requires Identified(recs) && Corresponding(recs) && KeysUnique(recs) && NumbersAgree(recs)
    ensures LastWriteAlwaysWins(recs)
  {
    hide Identified, Corresponding, KeysUnique, NumbersAgree, Lawful, Run, Delivered, PayloadOf, ArrivalOf, Sound,
      Orderly, WorldOf, OneToOne;
    CorrespondingWorld(recs);
    forall steps | Lawful(steps, recs)
      ensures LastWriteWins(Run(EMPTY, steps))
    {
      RunSound(steps, WorldOf(recs), recs);
      forall c | c in Run(EMPTY, steps).calls
        ensures PayloadOf(Run(EMPTY, steps), c.pk).vals == ArrivalOf(Run(EMPTY, steps), c.pk).vals
      {
        var i :| 0 <= i < |Run(EMPTY, steps).calls| && Run(EMPTY, steps).calls[i] == c;
        RowLastWrite(Run(EMPTY, steps), WorldOf(recs), recs, Delivered(steps), i);
      }
    }
  }

  /** Fragments with different numbers agree on the bodies they share. */
  ghost predicate FragmentsAgree(frags: seq<Fragment>) {
    forall f, g, a, b :: f in frags && g in frags && f.seqNo != g.seqNo && Ends(f, a) && Ends(g, b) ==>
      a.spanId == b.spanId ==> a == b
  }

  ghost predicate Ends(f: Fragment, s: Span) {
    LastBody(A.OfPayload(f.value.contents), s)
  }

  lemma RowLastWrite(st: Store, w: World, recs: set<Rec>, done: set<Rec>, i: nat)
    requires Sound(st, w, done) && Orderly(w) && OneToOne(w) && done <= recs && NumbersAgree(recs) && i < |st.calls|
    ensures PayloadOf(st, st.calls[i].pk).vals == ArrivalOf(st, st.calls[i].pk).vals
  {
    hide *;
    var pk := st.calls[i].pk;
    var own := Arrived(st, pk);
    RowFragmentsAgree(st, w, recs, done, i);
    A.AssembledExactly(A.AllSpans(Blobs(own)));
    A.AssembledExactly(A.AllSpans(Blobs(Sorted(own, BySeq))));
    PayloadIs(st, pk);
    SameDicts(own);
  }

  lemma PayloadIs(st: Store, pk: nat)
    ensures PayloadOf(st, pk) == A.ByIdDict(A.AllSpans(Blobs(Sorted(Arrived(st, pk), BySeq))))
    ensures ArrivalOf(st, pk) == A.ByIdDict(A.AllSpans(Blobs(Arrived(st, pk))))
  {
  }

  lemma RowFragmentsAgree(st: Store, w: World, recs: set<Rec>, done: set<Rec>, i: nat)
    requires Sound(st, w, done) && Orderly(w) && OneToOne(w) && done <= recs && NumbersAgree(recs) && i < |st.calls|
    ensures FragmentsAgree(Arrived(st, st.calls[i].pk))
  {
    hide Sound, Orderly, OneToOne, NumbersAgree, LastBody, TraceOf, A.OfPayload;
    var own := Arrived(st, st.calls[i].pk);
    FilterMembers(st.frags, (f: Fragment) => f.call == Some(st.calls[i].pk));
    forall f, g, a, b | f in own && g in own && f.seqNo != g.seqNo && Ends(f, a) && Ends(g, b) && a.spanId == b.spanId
      ensures a == b
    {
      var r := RecordOfFragment(st, w, done, i, f);
      var q := RecordOfFragment(st, w, done, i, g);
      assert Unequal(r, q, recs);
      NumbersAgreeOn(recs, r, q, a, b);
    }
  }

  lemma NumbersAgreeOn(recs: set<Rec>, r: Rec, q: Rec, a: Span, b: Span)
    requires NumbersAgree(recs) && Unequal(r, q, recs)
    requires Rivals(r, q, a, b)
    ensures a == b
  {
  }

  lemma RecordOfFragment(st: Store, w: World, done: set<Rec>, i: nat, f: Fragment) returns (r: Rec)
    requires Sound(st, w, done) && Orderly(w) && OneToOne(w) && i < |st.calls|
    requires f in st.frags && f.call == Some(st.calls[i].pk)
    ensures r in done && st.calls[i].trace == Some(TraceOf(r)) && f.seqNo == r.seqNo
    ensures A.OfPayload(f.value.contents) == r.spans
  {
    hide Sound, Orderly, OneToOne, TraceOf, A.OfPayload;
    var k :| 0 <= k < |st.frags| && st.frags[k] == f;
    r := PartHasRecord(st, w, done, i, k);
    A.OfSlice(r.resource, r.spans);
  }

  lemma SameDicts(own: seq<Fragment>)
    requires FragmentsAgree(own)
    requires A.Holds(A.ByIdDict(A.AllSpans(Blobs(own))), A.AllSpans(Blobs(own)))
    requires A.Holds(A.ByIdDict(A.AllSpans(Blobs(Sorted(own, BySeq)))), A.AllSpans(Blobs(Sorted(own, BySeq))))
    ensures A.ByIdDict(A.AllSpans(Blobs(Sorted(own, BySeq)))).vals == A.ByIdDict(A.AllSpans(Blobs(own))).vals
  {
    hide A.AllSpans, Blobs, A.ByIdDict, FragmentsAgree;
    var d, e := A.ByIdDict(A.AllSpans(Blobs(Sorted(own, BySeq)))), A.ByIdDict(A.AllSpans(Blobs(own)));
    forall s
      ensures s in A.AllSpans(Blobs(Sorted(own, BySeq))) <==> s in A.AllSpans(Blobs(own))
    {
      AllSpansMembers(Sorted(own, BySeq), s);
      AllSpansMembers(own, s);
      SortedMembers(own, BySeq);
    }
    forall id
      ensures id in d.vals ==> id in e.vals && d.vals[id] == e.vals[id]
      ensures id in e.vals ==> id in d.vals
    {
      if id in d.vals {
        LastHeld(d, A.AllSpans(Blobs(Sorted(own, BySeq))), id);
        assert id in e.vals;
        LastHeld(e, A.AllSpans(Blobs(own)), id);
        BodiesMeet(own, d.vals[id], e.vals[id]);
      }
      if id in e.vals {
        LastHeld(e, A.AllSpans(Blobs(own)), id);
      }
    }
  }

  lemma LastHeld(d: Dict<string, Span>, spans: seq<Span>, id: string)
    requires A.Holds(d, spans) && id in d.vals
    ensures LastBody(spans, d.vals[id]) && d.vals[id].spanId == id && d.vals[id] in spans
    ensures forall s :: s in spans ==> s.spanId in d.vals
  {
    var i :| A.LastOf(spans, i) && spans[i].spanId == id && d.vals[id] == spans[i];
  }

  /** Of fragments that tie the sort keeps the order. */
  lemma TiesKeepOrder(own: seq<Fragment>, tie: Fragment -> bool, k: nat, j: nat)
    requires Sorting.Tied(tie, BySeq) && k < |Sorted(own, BySeq)| && j < |own|
    requires tie(Sorted(own, BySeq)[k]) && forall m :: k < m < |Sorted(own, BySeq)| ==> !tie(Sorted(own, BySeq)[m])
    requires tie(own[j]) && forall m :: j < m < |own| ==> !tie(own[m])
    ensures Sorted(own, BySeq)[k] == own[j]
  {
    hide *;
    SortedStable(own, BySeq, tie);
    LastKeptAt(Sorted(own, BySeq), tie, k);
    LastKeptAt(own, tie, j);
  }

  lemma LastWithId(frags: seq<Fragment>, k: nat, s: Span)
    requires LastFragment(frags, k, s)
    ensures k < |frags| && Ends(frags[k], s) && HasId(A.OfPayload(frags[k].value.contents), s.spanId)
    ensures forall m :: k < m < |frags| ==> !HasId(A.OfPayload(frags[m].value.contents), s.spanId)
  {
  }

  /** The body that sorting leaves last and the one that came last are the same: of equal numbers the sort keeps
      the order, and different numbers agree. */
  lemma BodiesMeet(own: seq<Fragment>, a: Span, b: Span)
    requires FragmentsAgree(own) && a.spanId == b.spanId
    requires LastBody(A.AllSpans(Blobs(Sorted(own, BySeq))), a) && LastBody(A.AllSpans(Blobs(own)), b)
    ensures a == b
  {
    hide *;
    var sorted := Sorted(own, BySeq);
    var k := LastComesFrom(sorted, a);
    var j := LastComesFrom(own, b);
    LastWithId(sorted, k, a);
    LastWithId(own, j, b);
    if sorted[k].seqNo == own[j].seqNo {
      var n, id := own[j].seqNo, a.spanId;
      var tie := (f: Fragment) => f.seqNo == n && HasId(A.OfPayload(f.value.contents), id);
      assert Sorting.Tied(tie, BySeq) by { SameNumberTies(tie, n); }
      TiesKeepOrder(own, tie, k, j);
      EndsOnce(own[j], a, b);
    } else {
      SortedMembers(own, BySeq);
      DifferentNumbers(own, sorted[k], own[j], a, b);
    }
  }

  lemma SameNumberTies(tie: Fragment -> bool, n: nat)
    requires forall f :: tie(f) ==> f.seqNo == n
    ensures Sorting.Tied(tie, BySeq)
  {
  }

  lemma EndsOnce(f: Fragment, a: Span, b: Span)
    requires Ends(f, a) && Ends(f, b) && a.spanId == b.spanId
    ensures a == b
  {
    hide A.OfPayload, LastBody;
    OneLast(A.OfPayload(f.value.contents), a, b);
  }

  lemma DifferentNumbers(own: seq<Fragment>, f: Fragment, g: Fragment, a: Span, b: Span)
    requires FragmentsAgree(own) && f in own && g in own && f.seqNo != g.seqNo
    requires Ends(f, a) && Ends(g, b) && a.spanId == b.spanId
    ensures a == b
  {
    hide Ends;
  }
}
