/** From the producer's post to the payload a call is analysed from: the call's fragments, ordered by their
    sequence number within a batch, assembled into one payload. */
module CallPayloads {
  import opened Options
  import opened Seqs
  import opened Sorting
  import opened Dicts
  import opened Otlp
  import opened Shard
  import A = Assembly
  import opened IngestStore
  import opened IngestSteps
  import opened ExactlyOnce
  import opened Confluence

  predicate BySeq(a: Fragment, b: Fragment) {
    a.seqNo <= b.seqNo
  }

  /** The query `process` makes for a call's fragments. */
  function FragmentsOf(st: Store, pk: nat): seq<Fragment> {
    Sorted(Filter(st.frags, (f: Fragment) => f.call == Some(pk)), BySeq)
  }

  function Blobs(frags: seq<Fragment>): seq<Blob> {
    seq(|frags|, i requires 0 <= i < |frags| => frags[i].value)
  }

  /** The assembled call, span by span id. */
  function PayloadOf(st: Store, pk: nat): Dict<string, Span> {
    A.ByIdDict(A.AllSpans(Blobs(FragmentsOf(st, pk))))
  }

  /** A span of one of the parts. */
  ghost predicate InParts(parts: set<(string, nat, Blob)>, s: Span) {
    exists x :: x in parts && s in A.OfPayload(x.2.contents)
  }

  lemma {:induction false} AllSpansMembers(frags: seq<Fragment>, s: Span)
    ensures s in A.AllSpans(Blobs(frags)) <==> exists f :: f in frags && s in A.OfPayload(f.value.contents)
  {
    if frags == [] {
      assert Blobs(frags) == [];
    } else {
      var init, f := Init(frags), Last(frags);
      assert Init(Blobs(frags)) == Blobs(init) && Last(Blobs(frags)) == f.value;
      AllSpansMembers(init, s);
      assert forall g :: g in frags <==> g in init || g == f;
    }
  }

  lemma FragmentsMembers(st: Store, pk: nat, f: Fragment)
    ensures f in FragmentsOf(st, pk) <==> f in st.frags && f.call == Some(pk)
  {
    var keep := (f: Fragment) => f.call == Some(pk);
    FilterMembers(st.frags, keep);
    SortedMembers(Filter(st.frags, keep), BySeq);
  }

  // ---------------------------------------------------------------- which body wins

  /** The body a list of spans ends up with under its id. */
  ghost predicate LastBody(spans: seq<Span>, s: Span) {
    exists i :: A.LastOf(spans, i) && spans[i] == s
  }

  ghost predicate HasId(spans: seq<Span>, id: string) {
    exists s :: s in spans && s.spanId == id
  }

  /** Fragment `k` has the body, and no later fragment has the id. */
  ghost predicate LastFragment(frags: seq<Fragment>, k: nat, s: Span) {
    && k < |frags| && LastBody(A.OfPayload(frags[k].value.contents), s)
    && forall m :: k < m < |frags| ==> !HasId(A.OfPayload(frags[m].value.contents), s.spanId)
  }

  lemma LastOfTwo(xs: seq<Span>, ys: seq<Span>, s: Span)
    requires LastBody(xs + ys, s)
    ensures LastBody(ys, s) || (LastBody(xs, s) && !HasId(ys, s.spanId))
  {
    var i :| A.LastOf(xs + ys, i) && (xs + ys)[i] == s;
    if i < |xs| {
      assert A.LastOf(xs, i) by {
        assert forall j :: i < j < |xs| ==> xs[j] == (xs + ys)[j];
      }
      forall x | x in ys
        ensures x.spanId != s.spanId
      {
        var j :| 0 <= j < |ys| && ys[j] == x;
        assert (xs + ys)[|xs| + j] == x;
      }
    } else {
      assert A.LastOf(ys, i - |xs|) by {
        assert forall j :: i - |xs| < j < |ys| ==> ys[j] == (xs + ys)[|xs| + j];
      }
    }
  }

  lemma {:induction false} LastComesFrom(frags: seq<Fragment>, s: Span) returns (k: nat)
    requires LastBody(A.AllSpans(Blobs(frags)), s)
    ensures LastFragment(frags, k, s)
  {
    var all := A.AllSpans(Blobs(frags));
    assert frags == [] ==> Blobs(frags) == [] && all == [];
    if frags != [] {
      var init, f := Init(frags), Last(frags);
      assert Init(Blobs(frags)) == Blobs(init) && Last(Blobs(frags)) == f.value;
      hide LastBody, HasId, A.OfPayload;
      LastOfTwo(A.AllSpans(Blobs(init)), A.OfPayload(f.value.contents), s);
      if LastBody(A.OfPayload(f.value.contents), s) {
        k := |frags| - 1;
      } else {
        k := LastComesFrom(init, s);
      }
    }
  }

  /** The body comes from a part with the greatest sequence number among those that have the id. */
  ghost predicate LatestIn(parts: set<(string, nat, Blob)>, s: Span) {
    exists x :: x in parts && LastBody(A.OfPayload(x.2.contents), s) && NoneLater(parts, s.spanId, x.1)
  }

  ghost predicate NoneLater(parts: set<(string, nat, Blob)>, id: string, seqNo: nat) {
    forall y :: y in parts && HasId(A.OfPayload(y.2.contents), id) ==> y.1 <= seqNo
  }

  lemma FragmentsInOrder(st: Store, pk: nat)
    ensures forall i, j :: 0 <= i < j < |FragmentsOf(st, pk)| ==>
      FragmentsOf(st, pk)[i].seqNo <= FragmentsOf(st, pk)[j].seqNo
  {
    var own := Filter(st.frags, (f: Fragment) => f.call == Some(pk));
    SortedOrders(own, BySeq);
    assert forall i, j :: 0 <= i < j < |Sorted(own, BySeq)| ==> BySeq(Sorted(own, BySeq)[i], Sorted(own, BySeq)[j]);
  }

  lemma PartOnRow(st: Store, pk: nat, x: (string, nat, Blob))
    ensures x in Parts(st.frags, pk) <==> exists f :: f in FragmentsOf(st, pk) && x == (f.batch, f.seqNo, f.value)
  {
    hide FragmentsOf;
    if x in Parts(st.frags, pk) {
      var k :| 0 <= k < |st.frags| && st.frags[k].call == Some(pk) &&
               x == (st.frags[k].batch, st.frags[k].seqNo, st.frags[k].value);
      FragmentsMembers(st, pk, st.frags[k]);
    }
    if f :| f in FragmentsOf(st, pk) && x == (f.batch, f.seqNo, f.value) {
      FragmentsMembers(st, pk, f);
      var k :| 0 <= k < |st.frags| && st.frags[k] == f;
    }
  }

  lemma LastIsLatest(st: Store, pk: nat, s: Span)
    requires LastBody(A.AllSpans(Blobs(FragmentsOf(st, pk))), s)
    ensures LatestIn(Parts(st.frags, pk), s)
  {
    hide A.AllSpans, A.OfPayload, FragmentsOf, LastBody, HasId, Parts;
    var fs, parts := FragmentsOf(st, pk), Parts(st.frags, pk);
    var k := LastComesFrom(fs, s);
    FragmentsInOrder(st, pk);
    forall y | y in parts && HasId(A.OfPayload(y.2.contents), s.spanId)
      ensures y.1 <= fs[k].seqNo
    {
      PartOnRow(st, pk, y);
      var f :| f in fs && y == (f.batch, f.seqNo, f.value);
      var m :| 0 <= m < |fs| && fs[m] == f;
      assert !(k < m);
    }
    var x := (fs[k].batch, fs[k].seqNo, fs[k].value);
    PartOnRow(st, pk, x);
    assert x in parts && NoneLater(parts, s.spanId, x.1);
  }

  /** A row's payload is made of the spans of its parts. */
  lemma PayloadSpans(st: Store, pk: nat, s: Span)
    ensures s in A.AllSpans(Blobs(FragmentsOf(st, pk))) <==> InParts(Parts(st.frags, pk), s)
  {
    hide A.AllSpans, A.OfPayload, FragmentsOf;
    AllSpansMembers(FragmentsOf(st, pk), s);
    if f :| f in FragmentsOf(st, pk) && s in A.OfPayload(f.value.contents) {
      FragmentsMembers(st, pk, f);
      var k :| 0 <= k < |st.frags| && st.frags[k] == f;
      assert (f.batch, f.seqNo, f.value) in Parts(st.frags, pk);
    }
    if InParts(Parts(st.frags, pk), s) {
      var x :| x in Parts(st.frags, pk) && s in A.OfPayload(x.2.contents);
      var k :| 0 <= k < |st.frags| && st.frags[k].call == Some(pk) &&
               x == (st.frags[k].batch, st.frags[k].seqNo, st.frags[k].value);
      FragmentsMembers(st, pk, st.frags[k]);
    }
  }

  /** The spans the delivered records of a trace carried. */
  ghost predicate Sent(done: set<Rec>, t: string, s: Span) {
    exists r :: r in done && TraceOf(r) == t && s in r.spans
  }

  lemma PartsSpans(done: set<Rec>, t: string, s: Span)
    ensures InParts(PartsOf(done, t), s) <==> Sent(done, t, s)
  {
    hide TraceOf, A.OfPayload;
    if InParts(PartsOf(done, t), s) {
      var x :| x in PartsOf(done, t) && s in A.OfPayload(x.2.contents);
      var r :| r in done && TraceOf(r) == t && x == PartOf(r);
      A.OfSlice(r.resource, r.spans);
    }
    if Sent(done, t, s) {
      var r :| r in done && TraceOf(r) == t && s in r.spans;
      A.OfSlice(r.resource, r.spans);
      assert PartOf(r) in PartsOf(done, t);
    }
  }

  /** A delivered record of the trace has the body last under its id, and none that has the id comes later
      in sequence. */
  ghost predicate Latest(done: set<Rec>, t: string, s: Span) {
    exists r :: r in done && TraceOf(r) == t && LastBody(r.spans, s) && NoneAfter(done, t, s.spanId, r.seqNo)
  }

  ghost predicate NoneAfter(done: set<Rec>, t: string, id: string, seqNo: nat) {
    forall q :: q in done && TraceOf(q) == t && HasId(q.spans, id) ==> q.seqNo <= seqNo
  }

  lemma LatestParts(done: set<Rec>, t: string, s: Span)
    requires LatestIn(PartsOf(done, t), s)
    ensures Latest(done, t, s)
  {
    hide TraceOf, A.OfPayload, LastBody, HasId;
    var parts := PartsOf(done, t);
    var x :| x in parts && LastBody(A.OfPayload(x.2.contents), s) && NoneLater(parts, s.spanId, x.1);
    var r :| r in done && TraceOf(r) == t && x == PartOf(r);
    A.OfSlice(r.resource, r.spans);
    forall q | q in done && TraceOf(q) == t && HasId(q.spans, s.spanId)
      ensures q.seqNo <= r.seqNo
    {
      A.OfSlice(q.resource, q.spans);
      assert PartOf(q) in parts;
    }
  }

  /** What a payload of the records of a trace holds: their span ids, each with its latest body. */
  ghost predicate HoldsSent(got: Dict<string, Span>, done: set<Rec>, t: string) {
    && got.Valid()
    && (forall s :: Sent(done, t, s) ==> s.spanId in got.vals)
    && (forall id :: id in got.vals ==> got.vals[id].spanId == id && Latest(done, t, got.vals[id]))
  }

  /** End to end: after any lawful run a call's payload has pairwise distinct span ids, exactly the ids its
      trace's delivered records carried, each with the last body in sequence order. */
  lemma PayloadIsWhatWasSent(steps: seq<Step>, recs: set<Rec>, i: nat, t: string)
    requires Identified(recs) && Corresponding(recs) && KeysUnique(recs) && Lawful(steps, recs)
    requires var st := Run(EMPTY, steps); i < |st.calls| && st.calls[i].trace == Some(t)
    ensures HoldsSent(PayloadOf(Run(EMPTY, steps), Run(EMPTY, steps).calls[i].pk), Delivered(steps), t)
    ensures forall id :: id in PayloadOf(Run(EMPTY, steps), Run(EMPTY, steps).calls[i].pk).vals ==>
      Sent(Delivered(steps), t, PayloadOf(Run(EMPTY, steps), Run(EMPTY, steps).calls[i].pk).vals[id])
  {
    hide *;
    var st, w := Run(EMPTY, steps), WorldOf(recs);
    CorrespondingWorld(recs);
    RunSound(steps, w, recs);
    PartsAre(st, w, recs, Delivered(steps), i, t);
    PayloadFrom(st, st.calls[i].pk, Delivered(steps), t);
  }

  lemma LatestIsSent(done: set<Rec>, t: string, s: Span)
    requires Latest(done, t, s)
    ensures Sent(done, t, s)
  {
    hide TraceOf;
  }

  lemma PayloadFrom(st: Store, pk: nat, done: set<Rec>, t: string)
    requires Parts(st.frags, pk) == PartsOf(done, t)
    ensures HoldsSent(PayloadOf(st, pk), done, t)
    ensures forall id :: id in PayloadOf(st, pk).vals ==> Sent(done, t, PayloadOf(st, pk).vals[id])
  {
    var spans := A.AllSpans(Blobs(FragmentsOf(st, pk)));
    A.AssembledExactly(spans);
    hide A.AllSpans, A.ByIdDict, FragmentsOf, Parts, PartsOf, InParts, Sent, Latest, LatestIn;
    var got := PayloadOf(st, pk);
    forall s | Sent(done, t, s)
      ensures s.spanId in got.vals
    {
      PartsSpans(done, t, s);
      PayloadSpans(st, pk, s);
    }
    forall id | id in got.vals
      ensures got.vals[id].spanId == id && Latest(done, t, got.vals[id]) && Sent(done, t, got.vals[id])
    {
      var k :| A.LastOf(spans, k) && spans[k].spanId == id && got.vals[id] == spans[k];
      LastIsLatest(st, pk, spans[k]);
      LatestParts(done, t, spans[k]);
      LatestIsSent(done, t, spans[k]);
    }
  }

  predicate Level(r: Rec, q: Rec, recs: set<Rec>) {
    r in recs && q in recs && TraceOf(r) == TraceOf(q) && r.seqNo == q.seqNo
  }

  /** Each of two records ends up with a body of its own under one span id. */
  ghost predicate Rivals(r: Rec, q: Rec, a: Span, b: Span) {
    LastBody(r.spans, a) && LastBody(q.spans, b) && a.spanId == b.spanId
  }

  /** Records of a trace with one sequence number agree on the bodies they share. */
  ghost predicate TiesAgree(recs: set<Rec>) {
    forall r, q, a, b :: Level(r, q, recs) && Rivals(r, q, a, b) ==> a == b
  }

  /** Confluence end to end: when no two records of a trace with one sequence number disagree on a body, runs
      that deliver the same records analyse each call from the same spans. */
  lemma PayloadsConfluent(steps: seq<Step>, others: seq<Step>, recs: set<Rec>, i: nat, j: nat, t: string)
    requires Identified(recs) && Corresponding(recs) && KeysUnique(recs) && TiesAgree(recs)
    requires Lawful(steps, recs) && Lawful(others, recs) && Delivered(steps) == Delivered(others)
    requires var st := Run(EMPTY, steps); i < |st.calls| && st.calls[i].trace == Some(t)
    requires var st := Run(EMPTY, others); j < |st.calls| && st.calls[j].trace == Some(t)
    ensures PayloadOf(Run(EMPTY, steps), Run(EMPTY, steps).calls[i].pk).vals ==
            PayloadOf(Run(EMPTY, others), Run(EMPTY, others).calls[j].pk).vals
  {
    hide *;
    PayloadIsWhatWasSent(steps, recs, i, t);
    PayloadIsWhatWasSent(others, recs, j, t);
    CorrespondingWorld(recs);
    RunSound(steps, WorldOf(recs), recs);
    SameHeld(PayloadOf(Run(EMPTY, steps), Run(EMPTY, steps).calls[i].pk),
             PayloadOf(Run(EMPTY, others), Run(EMPTY, others).calls[j].pk), Delivered(steps), recs, t);
  }

  lemma SameHeld(a: Dict<string, Span>, b: Dict<string, Span>, done: set<Rec>, recs: set<Rec>, t: string)
    requires HoldsSent(a, done, t) && HoldsSent(b, done, t) && done <= recs && TiesAgree(recs)
    ensures a.vals == b.vals
  {
    hide Latest, Sent, TiesAgree;
    forall id
      ensures id in a.vals ==> id in b.vals && a.vals[id] == b.vals[id]
      ensures id in b.vals ==> id in a.vals
    {
      if id in a.vals {
        LatestIsSent(done, t, a.vals[id]);
        OneLatest(done, recs, t, a.vals[id], b.vals[id]);
      }
      if id in b.vals {
        LatestIsSent(done, t, b.vals[id]);
      }
    }
  }

  lemma LatestRec(done: set<Rec>, t: string, s: Span) returns (r: Rec)
    requires Latest(done, t, s)
    ensures r in done && TraceOf(r) == t && LastBody(r.spans, s) && HasId(r.spans, s.spanId)
    ensures forall q :: q in done && TraceOf(q) == t && HasId(q.spans, s.spanId) ==> q.seqNo <= r.seqNo
  {
    hide TraceOf;
    r :| r in done && TraceOf(r) == t && LastBody(r.spans, s) && NoneAfter(done, t, s.spanId, r.seqNo);
  }

  lemma OneLatest(done: set<Rec>, recs: set<Rec>, t: string, a: Span, b: Span)
    requires Latest(done, t, a) && Latest(done, t, b) && a.spanId == b.spanId && done <= recs && TiesAgree(recs)
    ensures a == b
  {
    hide TraceOf, HasId, LastBody, Latest;
    var r := LatestRec(done, t, a);
    var q := LatestRec(done, t, b);
    assert Level(r, q, recs) && Rivals(r, q, a, b);
  }

  // ---------------------------------------------------------------- from the producer on

  /** A posted OTLP payload, under the batch id drawn for it. */
  datatype Post = Post(payload: Payload, org: string, agent: string, batch: string)

  function RecordsOf(p: Post): seq<Record> {
    GroupsNonEmpty(PyKey, Flatten(p.payload));
    Records(GroupBy(PyKey, Flatten(p.payload)), p.org, p.agent, p.batch)
  }

  /** `handle_record` reads the headers and decodes the value. */
  function RecOf(x: Record): Rec
    requires x.value.contents != []
  {
    var (resource, spans) := Decode(x.value);
    Rec(resource, spans, if x.agent == "" then None else Some(x.agent), x.batchId, x.seqNo)
  }

  /** The slice the consumer archives is the value that was on the wire. */
  lemma ArchiveIsWire(p: Post, n: nat)
    requires n < |RecordsOf(p)|
    ensures var x := RecordsOf(p)[n]; x.value.contents != [] && Slice(RecOf(x).resource, RecOf(x).spans) == x.value
  {
    hide GroupBy, Flatten;
    var gs := GroupBy(PyKey, Flatten(p.payload));
    GroupsNonEmpty(PyKey, Flatten(p.payload));
    assert gs.keys[n] in gs.keys;
    var g := gs.vals[gs.keys[n]];
    DecodeSlice(g.resource, g.spans);
  }

  /** The records of a post, as the consumer decodes them. */
  function Decoded(p: Post): (rs: seq<Rec>)
    ensures |rs| == |RecordsOf(p)|
  {
    seq(|RecordsOf(p)|, n requires 0 <= n < |RecordsOf(p)| => ArchiveIsWire(p, n); RecOf(RecordsOf(p)[n]))
  }

  function RecsOf(posts: set<Post>): set<Rec> {
    set p, r | p in posts && r in Decoded(p) :: r
  }

  ghost predicate BatchesApart(posts: set<Post>) {
    forall p, q :: p in posts && q in posts && p.batch == q.batch ==> p == q
  }

  /** The spans of a posted payload that share a call key, and the trace they go under. */
  ghost predicate PostedUnder(p: Post, key: string, t: string, s: Span) {
    var own := Spans(OfKey(PyKey, Flatten(p.payload), key));
    s in own && FirstTraceId(own) == t
  }

  ghost predicate Posted(posts: set<Post>, t: string, s: Span) {
    exists p, key :: p in posts && PostedUnder(p, key, t, s)
  }

  /** What a payload holds of the posts: the ids of the spans posted on a trace, each with its latest body. */
  ghost predicate HoldsPosted(got: Dict<string, Span>, posts: set<Post>, t: string) {
    && got.Valid()
    && (forall s :: Posted(posts, t, s) ==> s.spanId in got.vals)
    && (forall id :: id in got.vals ==>
         var s := got.vals[id]; s.spanId == id && Posted(posts, t, s) && Latest(RecsOf(posts), t, s))
  }

  /** The n-th record carries the spans of the n-th key. */
  lemma RecordIs(p: Post, n: nat)
    requires n < |RecordsOf(p)|
    ensures var keys := FirstSeen(KeysOf(PyKey, Flatten(p.payload)));
      && |RecordsOf(p)| == |keys|
      && Decoded(p)[n].spans == Spans(OfKey(PyKey, Flatten(p.payload), keys[n]))
      && OfKey(PyKey, Flatten(p.payload), keys[n]) != []
      && Decoded(p)[n].resource == OfKey(PyKey, Flatten(p.payload), keys[n])[0].resource
      && Decoded(p)[n].batch == p.batch && Decoded(p)[n].seqNo == n
      && (if p.agent == "" then Decoded(p)[n].agent == None else Decoded(p)[n].agent == Some(p.agent))
  {
    GroupByExact(PyKey, Flatten(p.payload));
    RecordCarriesItsSpans(p.payload, p.org, p.agent, p.batch, n);
    ArchiveIsWire(p, n);
    hide GroupBy, Flatten, KeysOf, OfKey, FirstSeen, Spans, Decode;
  }

  lemma KeySeen(p: Post, key: string) returns (n: nat)
    requires OfKey(PyKey, Flatten(p.payload), key) != []
    ensures n < |RecordsOf(p)| == |FirstSeen(KeysOf(PyKey, Flatten(p.payload)))|
    ensures FirstSeen(KeysOf(PyKey, Flatten(p.payload)))[n] == key
  {
    hide Flatten, OfKey, KeysOf, FirstSeen, OwnGroup;
    var items := Flatten(p.payload);
    OfKeyEmptyIff(PyKey, items, key);
    GroupByExact(PyKey, items);
    hide GroupBy;
    n :| 0 <= n < |FirstSeen(KeysOf(PyKey, items))| && FirstSeen(KeysOf(PyKey, items))[n] == key;
  }

  /** What the records of some posts carry on a trace is what was posted on it. */
  lemma SentIsPosted(posts: set<Post>, t: string, s: Span)
    ensures Sent(RecsOf(posts), t, s) <==> Posted(posts, t, s)
  {
    hide Flatten, OfKey, KeysOf, FirstSeen, RecordsOf, Spans, Decoded, FirstTraceId;
    if Sent(RecsOf(posts), t, s) {
      var r :| r in RecsOf(posts) && TraceOf(r) == t && s in r.spans;
      var p :| p in posts && r in Decoded(p);
      var n :| 0 <= n < |Decoded(p)| && r == Decoded(p)[n];
      RecordIs(p, n);
      assert PostedUnder(p, FirstSeen(KeysOf(PyKey, Flatten(p.payload)))[n], t, s);
    }
    if Posted(posts, t, s) {
      var p, key :| p in posts && PostedUnder(p, key, t, s);
      assert OfKey(PyKey, Flatten(p.payload), key) != [] by { NoSpans(OfKey(PyKey, Flatten(p.payload), key), s); }
      var n := KeySeen(p, key);
      RecordIs(p, n);
      assert Decoded(p)[n] in Decoded(p);
    }
  }

  lemma NoSpans(items: seq<Item>, s: Span)
    ensures s in Spans(items) ==> items != []
  {
  }

  lemma PostsApart(posts: set<Post>)
    requires BatchesApart(posts)
    ensures KeysUnique(RecsOf(posts))
  {
    hide RecordsOf, Decoded;
    forall r, q | r in RecsOf(posts) && q in RecsOf(posts) && r.batch == q.batch && r.seqNo == q.seqNo
      ensures r == q
    {
      var p :| p in posts && r in Decoded(p);
      var p' :| p' in posts && q in Decoded(p');
      var n :| 0 <= n < |Decoded(p)| && r == Decoded(p)[n];
      var m :| 0 <= m < |Decoded(p')| && q == Decoded(p')[m];
      RecordIs(p, n);
      RecordIs(p', m);
    }
  }

  /** From the producer to the analysis: when every record of some posts has been delivered, in any order and
      any number of times, each posted span is in the payload of the call of its group's trace, and each call's
      payload holds exactly what was posted on its trace, the last body in sequence order under each id. */
  lemma PostedIsAssembled(posts: set<Post>, steps: seq<Step>, t: string)
    requires BatchesApart(posts) && Identified(RecsOf(posts)) && Corresponding(RecsOf(posts))
    requires Lawful(steps, RecsOf(posts)) && Delivered(steps) == RecsOf(posts)
    ensures forall s :: Posted(posts, t, s) ==> HasRow(Run(EMPTY, steps).calls, t)
    ensures forall c :: c in Run(EMPTY, steps).calls && c.trace == Some(t) ==>
      HoldsPosted(PayloadOf(Run(EMPTY, steps), c.pk), posts, t)
  {
    hide *;
    var st, recs := Run(EMPTY, steps), RecsOf(posts);
    PostsApart(posts);
    forall s | Posted(posts, t, s)
      ensures HasRow(st.calls, t)
    {
      SentIsPosted(posts, t, s);
      SentHasRow(steps, recs, t, s);
    }
    forall c | c in st.calls && c.trace == Some(t)
      ensures HoldsPosted(PayloadOf(st, c.pk), posts, t)
    {
      var i :| 0 <= i < |st.calls| && st.calls[i] == c;
      PayloadIsWhatWasSent(steps, recs, i, t);
      HeldIsPosted(PayloadOf(st, c.pk), posts, t);
    }
  }

  lemma HeldIsPosted(got: Dict<string, Span>, posts: set<Post>, t: string)
    requires HoldsSent(got, RecsOf(posts), t)
    ensures HoldsPosted(got, posts, t)
  {
    hide Sent, Posted, Latest, RecsOf;
    forall s | Posted(posts, t, s)
      ensures s.spanId in got.vals
    {
      SentIsPosted(posts, t, s);
    }
    forall id | id in got.vals
      ensures Posted(posts, t, got.vals[id])
    {
      LatestIsSent(RecsOf(posts), t, got.vals[id]);
      SentIsPosted(posts, t, got.vals[id]);
    }
  }

  lemma SentHasRow(steps: seq<Step>, recs: set<Rec>, t: string, s: Span)
    requires Identified(recs) && Corresponding(recs) && KeysUnique(recs) && Lawful(steps, recs)
    requires Sent(Delivered(steps), t, s)
    ensures HasRow(Run(EMPTY, steps).calls, t)
  {
    hide Run, Delivered, Identified, Corresponding, KeysUnique, Lawful, HasRow, TraceOf, WorldOf, Sound, Orderly,
      OneToOne;
    CorrespondingWorld(recs);
    RunSound(steps, WorldOf(recs), recs);
    assert AnyRecord(Delivered(steps), t);
    RecordsHaveRows(Run(EMPTY, steps), WorldOf(recs), recs, Delivered(steps), t);
  }
}
