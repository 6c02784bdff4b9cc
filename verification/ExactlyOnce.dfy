/** Exactly-once effect over at-least-once delivery. Records may be delivered any number of times, in
    any order, interleaved with flushes and artifact registrations, and rows may be renamed by a late
    call id in between; each record still leaves one fragment, on one row. */
module ExactlyOnce {
  import opened Options
  import opened Otlp
  import opened IngestStore
  import opened IngestSteps
  import opened IngestSafety

  /** What a set of records says about traces: which there are, and the call ids that occur on each. */
  datatype World = World(traces: set<string>, ids: map<string, set<string>>)

  function Ids(w: World, t: string): set<string> {
    if t in w.ids then w.ids[t] else {}
  }

  ghost predicate Several(w: World, t: string) {
    exists c, d :: c in Ids(w, t) && d in Ids(w, t) && c != d
  }

  /** Call ids are never trace ids. */
  ghost predicate Apart(w: World) {
    "" !in w.traces && forall t, c :: c in Ids(w, t) ==> c !in w.traces
  }

  /** A trace with several call ids shares none of them with another trace. */
  ghost predicate Uncrossed(w: World) {
    forall t, u, c :: c in Ids(w, t) && c in Ids(w, u) && t != u ==> !Several(w, t)
  }

  ghost predicate Orderly(w: World) {
    Apart(w) && Uncrossed(w)
  }

  /** A record has a trace, and its call id, if it carries one, is among that trace's. */
  predicate Obeys(r: Rec, w: World) {
    TraceOf(r) in w.traces && (Hint(r).Some? ==> Hint(r).value in Ids(w, TraceOf(r)))
  }

  /** A batch id and sequence number name one record. */
  ghost predicate KeysUnique(recs: set<Rec>) {
    forall r, s :: r in recs && s in recs && r.batch == s.batch && r.seqNo == s.seqNo ==> r == s
  }

  // ---------------------------------------------------------------- rows

  /** A row is named by its trace or by one of its trace's call ids. */
  predicate Named(c: Call, w: World) {
    c.trace.Some? && c.trace.value in w.traces && (c.ext == c.trace.value || c.ext in Ids(w, c.trace.value))
  }

  ghost predicate Rows(st: Store, w: World) {
    && RowsSafe(st) && st.tombs == {}
    && (forall i :: 0 <= i < |st.calls| ==> Named(st.calls[i], w))
    && (forall i, j :: 0 <= i < j < |st.calls| ==> st.calls[i].trace != st.calls[j].trace)
  }

  /** The row a record belongs to: the row of its call id; but without one, or when its trace has several and
      the row keeps changing its name, the row of its trace. */
  ghost predicate Owns(c: Call, r: Rec, w: World) {
    if Hint(r).Some? && !Several(w, TraceOf(r)) then c.ext == Hint(r).value else c.trace == Some(TraceOf(r))
  }

  ghost predicate Home(calls: seq<Call>, pk: nat, r: Rec, w: World) {
    exists i :: 0 <= i < |calls| && calls[i].pk == pk && Owns(calls[i], r, w)
  }

  lemma HomeUnique(st: Store, w: World, r: Rec, p: nat, q: nat)
    requires Rows(st, w) && Home(st.calls, p, r, w) && Home(st.calls, q, r, w)
    ensures p == q
  {
    var i :| 0 <= i < |st.calls| && st.calls[i].pk == p && Owns(st.calls[i], r, w);
    var j :| 0 <= j < |st.calls| && st.calls[j].pk == q && Owns(st.calls[j], r, w);
    hide Hint, TraceOf;
    assert i < j || j < i || i == j;
  }

  /** Without a call id a record resolves to the current id of its home. */
  lemma HomeResolves(st: Store, w: World, r: Rec, i: nat)
    requires Rows(st, w) && Orderly(w) && Obeys(r, w) && Hint(r).None? && i < |st.calls| && Owns(st.calls[i], r, w)
    ensures CallId(st.calls, r) == Some(st.calls[i].ext)
  {
    hide Hint, TraceOf, Several;
    var j := ByTraceAt(st.calls, TraceOf(r));
    assert j == i by {
      assert st.calls[i].trace == Some(TraceOf(r));
      assert i < j || j < i || i == j;
    }
  }

  /** Without a call id and without a home a record resolves to its trace id, which names no row. */
  lemma NoHomeResolves(st: Store, w: World, r: Rec)
    requires Rows(st, w) && Orderly(w) && Obeys(r, w) && Hint(r).None?
    requires forall i :: 0 <= i < |st.calls| ==> !Owns(st.calls[i], r, w)
    ensures CallId(st.calls, r) == Some(TraceOf(r))
    ensures forall i :: 0 <= i < |st.calls| ==> st.calls[i].ext != TraceOf(r)
  {
    hide Hint, TraceOf, Several;
    var j := ByTraceAt(st.calls, TraceOf(r));
    assert j < |st.calls| ==> Owns(st.calls[j], r, w);
    forall i | 0 <= i < |st.calls|
      ensures st.calls[i].ext != TraceOf(r)
    {
      assert Named(st.calls[i], w) && !Owns(st.calls[i], r, w);
    }
  }

  /** A row that bears a record's call id, or that has its trace and takes its call id, is its home. */
  lemma HintOwns(w: World, c: Call, r: Rec)
    requires Orderly(w) && Obeys(r, w) && Hint(r).Some? && Named(c, w) && c.ext == Hint(r).value
    ensures Owns(c, r, w) && (Several(w, TraceOf(r)) ==> c.trace == Some(TraceOf(r)))
  {
    hide Hint, TraceOf, Several;
    assert c.ext in Ids(w, c.trace.value) && c.ext in Ids(w, TraceOf(r));
  }

  /** A row's id changes from the trace id to a call id, or among the ids of a trace that has several. */
  ghost predicate MayRename(was: Call, c: Call, w: World) {
    c.ext == was.ext || was.ext in w.traces || (was.trace.Some? && Several(w, was.trace.value))
  }

  /** The row a batch lands on: its home, if it has one, and from now on; the trace is kept and the id changed
      as it may be. */
  lemma Lands(st: Store, w: World, r: Rec, now: int) returns (i: nat, c: Call, cid: string)
    requires Rows(st, w) && Orderly(w) && Obeys(r, w)
    ensures i <= |st.calls| && CallId(st.calls, r) == Some(cid) && c == Landing(st, r, cid, now)
    ensures Upsert(st, r, cid, now) ==
      st.(calls := Put(st.calls, i, c), nextPk := if i < |st.calls| then st.nextPk else st.nextPk + 1)
    ensures Named(c, w) && Owns(c, r, w) && c.ext == cid
    ensures forall j :: 0 <= j < |st.calls| && Owns(st.calls[j], r, w) ==> i == j
    ensures Hint(r).None? ==> c.ext == if i < |st.calls| then st.calls[i].ext else TraceOf(r)
    ensures i < |st.calls| ==>
      && c == Touch(st.calls[i].(ext := cid), r, now) && c.pk == st.calls[i].pk
      && c.trace == st.calls[i].trace && MayRename(st.calls[i], c, w)
    ensures i == |st.calls| ==>
      && c.pk == st.nextPk && c.trace == Some(TraceOf(r)) && c.spansComplete == HasRoot(r)
      && forall j :: 0 <= j < |st.calls| ==> st.calls[j].trace != c.trace
  {
    hide Upsert, Landing, TraceOf, Hint, HasRoot, ByExt, ByTrace, RowsSafe, Several;
    assert PksDistinct(st) && ExtsDistinct(st.calls) by { RowsPks(st); }
    assert CallId(st.calls, r).Some?;
    cid := CallId(st.calls, r).value;
    i := UpsertPuts(st, r, cid, now);
    c := Landing(st, r, cid, now);
    hide CallId;
    if Hint(r).None? {
      if j: nat :| j < |st.calls| && Owns(st.calls[j], r, w) {
        HomeResolves(st, w, r, j);
        assert i < |st.calls|;
        assert i < j || j < i || i == j;
      } else {
        NoHomeResolves(st, w, r);
        assert i < |st.calls| ==> !Owns(st.calls[i], r, w);
      }
    } else {
      HintResolves(st, r);
      HintLands(st, w, r, i, c, cid);
    }
  }

  /** The case of a call id. */
  lemma HintLands(st: Store, w: World, r: Rec, i: nat, c: Call, cid: string)
    requires Rows(st, w) && Orderly(w) && Obeys(r, w) && Hint(r) == Some(cid) && i <= |st.calls| && c.ext == cid
    requires i < |st.calls| ==>
      && c.trace == st.calls[i].trace
      && (st.calls[i].ext == cid || st.calls[i].trace == Some(TraceOf(r)))
    requires i == |st.calls| ==>
      c.trace == Some(TraceOf(r)) && forall j :: 0 <= j < |st.calls| ==> st.calls[j].trace != Some(TraceOf(r))
    requires i == |st.calls| || st.calls[i].ext != cid ==> forall j :: 0 <= j < |st.calls| ==> st.calls[j].ext != cid
    ensures Named(c, w) && Owns(c, r, w) && (i < |st.calls| ==> MayRename(st.calls[i], c, w))
    ensures forall j :: 0 <= j < |st.calls| && Owns(st.calls[j], r, w) ==> i == j
  {
    hide Hint, TraceOf, RowsSafe;
    assert ExtsDistinct(st.calls) by { RowsPks(st); }
    if i < |st.calls| && st.calls[i].ext == cid {
      assert Named(st.calls[i], w);
      HintOwns(w, st.calls[i], r);
    } else if i < |st.calls| {
      assert Named(st.calls[i], w);
    }
    forall j | 0 <= j < |st.calls| && Owns(st.calls[j], r, w)
      ensures i == j
    {
      assert i < j || j < i || i == j;
    }
  }

  /** A record's home stays its home. */
  ghost predicate HomesKept(a: seq<Call>, b: seq<Call>, w: World) {
    forall pk: nat, r: Rec :: Obeys(r, w) && Home(a, pk, r, w) ==> Home(b, pk, r, w)
  }

  lemma CallIdNonEmpty(st: Store, r: Rec)
    ensures CallId(st.calls, r).Some? ==> CallId(st.calls, r).value != ""
  {
  }

  /** Landing a batch keeps the rows in order, keeps every home, and makes one for the record. */
  lemma UpsertRows(st: Store, w: World, r: Rec, now: int) returns (i: nat, c: Call)
    requires Rows(st, w) && Orderly(w) && Obeys(r, w)
    ensures CallId(st.calls, r).Some? && i <= |st.calls|
    ensures var cid := CallId(st.calls, r).value; var st' := Upsert(st, r, cid, now);
      && Rows(st', w) && HomesKept(st.calls, st'.calls, w)
      && Home(st'.calls, c.pk, r, w) && CallPk(st'.calls, Some(cid)) == Some(c.pk)
      && c == Landing(st, r, cid, now) && st'.calls == Put(st.calls, i, c)
  {
    hide Upsert, CallId, Landing, TraceOf, Hint, HasRoot, ByExt, RowsSafe, Home, HomesKept;
    var cid: string;
    i, c, cid := Lands(st, w, r, now);
    var st' := Upsert(st, r, cid, now);
    CallIdNonEmpty(st, r);
    UpsertSafe(st, r, cid, now);
    assert st'.calls[i] == c;
    RowsPks(st');
    ByExtOf(st'.calls, i);
    HomeIs(st'.calls, i, r, w);
    PutKeepsHomes(st.calls, i, c, w);
  }

  lemma HomeIs(calls: seq<Call>, i: nat, r: Rec, w: World)
    requires i < |calls| && Owns(calls[i], r, w)
    ensures Home(calls, calls[i].pk, r, w)
  {
  }

  lemma PutKeepsHomes(calls: seq<Call>, i: nat, c: Call, w: World)
    requires i <= |calls| && Orderly(w)
    requires i < |calls| ==>
      c.pk == calls[i].pk && c.trace == calls[i].trace && Named(calls[i], w) && MayRename(calls[i], c, w)
    ensures HomesKept(calls, Put(calls, i, c), w)
  {
    hide Hint, TraceOf;
    var calls' := Put(calls, i, c);
    forall pk: nat, s: Rec | Obeys(s, w) && Home(calls, pk, s, w)
      ensures Home(calls', pk, s, w)
    {
      var j :| 0 <= j < |calls| && calls[j].pk == pk && Owns(calls[j], s, w);
      if j == i {
        StillOwns(calls[i], c, s, w);
      }
      assert calls'[j].pk == pk && Owns(calls'[j], s, w);
    }
  }

  lemma StillOwns(was: Call, c: Call, s: Rec, w: World)
    requires Orderly(w) && Obeys(s, w) && Owns(was, s, w)
    requires c.trace == was.trace && Named(was, w) && MayRename(was, c, w)
    ensures Owns(c, s, w)
  {
    hide Hint, TraceOf, Several;
    assert Hint(s).Some? && !Several(w, TraceOf(s)) ==> was.ext in Ids(w, TraceOf(s));
    assert was.ext in w.traces || was.ext in Ids(w, was.trace.value);
  }

  // ---------------------------------------------------------------- fragments

  predicate SameKey(f: Fragment, r: Rec) {
    f.batch == r.batch && f.seqNo == r.seqNo
  }

  /** The record's slice, filed on its row. */
  ghost predicate FiledAt(calls: seq<Call>, f: Fragment, r: Rec, w: World) {
    SameKey(f, r) && f.value == Slice(r.resource, r.spans) && f.call.Some? && Home(calls, f.call.value, r, w)
  }

  ghost predicate HasOwner(calls: seq<Call>, f: Fragment, done: set<Rec>, w: World) {
    exists r :: r in done && FiledAt(calls, f, r, w)
  }

  ghost predicate Kept(frags: seq<Fragment>, r: Rec) {
    exists k :: 0 <= k < |frags| && SameKey(frags[k], r)
  }

  ghost predicate KeysApart(frags: seq<Fragment>) {
    forall k, l :: 0 <= k < l < |frags| ==> frags[k].batch != frags[l].batch || frags[k].seqNo != frags[l].seqNo
  }

  /** One fragment for each delivered record, and no others. */
  ghost predicate Buffered(calls: seq<Call>, frags: seq<Fragment>, done: set<Rec>, w: World) {
    && |frags| == |done|
    && KeysApart(frags)
    && (forall k :: 0 <= k < |frags| ==> HasOwner(calls, frags[k], done, w))
    && (forall r :: r in done ==> Kept(frags, r))
  }

  lemma StillBuffered(a: seq<Call>, b: seq<Call>, frags: seq<Fragment>, done: set<Rec>, w: World)
    requires Buffered(a, frags, done, w) && HomesKept(a, b, w) && forall r :: r in done ==> Obeys(r, w)
    ensures Buffered(b, frags, done, w)
  {
    hide Obeys, Home, SameKey, Kept, KeysApart;
    forall k | 0 <= k < |frags|
      ensures HasOwner(b, frags[k], done, w)
    {
      var r :| r in done && FiledAt(a, frags[k], r, w);
      assert Home(b, frags[k].call.value, r, w);
      assert FiledAt(b, frags[k], r, w);
    }
  }

  /** The fragment with a record's key is the record's. */
  lemma OwnerOf(calls: seq<Call>, frags: seq<Fragment>, done: set<Rec>, k: nat, r: Rec, w: World)
    requires Buffered(calls, frags, done, w) && KeysUnique(done + {r}) && k < |frags| && SameKey(frags[k], r)
    ensures r in done && FiledAt(calls, frags[k], r, w)
  {
    hide Kept, KeysApart, Home;
    assert HasOwner(calls, frags[k], done, w);
    var s :| s in done && FiledAt(calls, frags[k], s, w);
    assert s in done + {r} && r in done + {r};
  }

  lemma StoresOnce(st: Store, w: World, r: Rec, pk: nat, cid: string, done: set<Rec>)
    requires Rows(st, w) && Buffered(st.calls, st.frags, done, w) && KeysUnique(done + {r})
    requires Home(st.calls, pk, r, w) && CallPk(st.calls, Some(cid)) == Some(pk)
    ensures Buffered(st.calls, StoreFragment(st, r, Some(cid)).frags, done + {r}, w)
  {
    hide *;
    if r in done {
      var k := KeptAt(st.calls, st.frags, done, r, w);
      OwnerOf(st.calls, st.frags, done, k, r, w);
      FiledHome(st.calls, st.frags[k], r, w);
      HomeUnique(st, w, r, pk, st.frags[k].call.value);
      StoresAgain(st, r, cid, pk, k);
      assert done + {r} == done;
    } else {
      forall k | 0 <= k < |st.frags|
        ensures !SameKey(st.frags[k], r)
      {
        if SameKey(st.frags[k], r) {
          OwnerOf(st.calls, st.frags, done, k, r, w);
        }
      }
      StoresNew(st, r, cid, pk);
      BufferMore(st.calls, st.frags, done, r, Fragment(Some(pk), r.batch, r.seqNo, Slice(r.resource, r.spans)), w);
    }
  }

  lemma KeptAt(calls: seq<Call>, frags: seq<Fragment>, done: set<Rec>, r: Rec, w: World) returns (k: nat)
    requires Buffered(calls, frags, done, w) && r in done
    ensures k < |frags| && SameKey(frags[k], r)
  {
    assert Kept(frags, r);
    k :| 0 <= k < |frags| && SameKey(frags[k], r);
  }

  lemma FiledHome(calls: seq<Call>, f: Fragment, r: Rec, w: World)
    requires FiledAt(calls, f, r, w)
    ensures SameKey(f, r) && f.call.Some? && Home(calls, f.call.value, r, w)
  {
  }

  lemma StoresAgain(st: Store, r: Rec, cid: string, pk: nat, k: nat)
    requires CallPk(st.calls, Some(cid)) == Some(pk)
    requires k < |st.frags| && SameKey(st.frags[k], r) && st.frags[k].call == Some(pk)
    ensures StoreFragment(st, r, Some(cid)) == st
  {
  }

  lemma StoresNew(st: Store, r: Rec, cid: string, pk: nat)
    requires CallPk(st.calls, Some(cid)) == Some(pk)
    requires forall k :: 0 <= k < |st.frags| ==> !SameKey(st.frags[k], r)
    ensures var f := Fragment(Some(pk), r.batch, r.seqNo, Slice(r.resource, r.spans));
      SameKey(f, r) && StoreFragment(st, r, Some(cid)).frags == st.frags + [f]
  {
    hide CallPk;
  }

  lemma ApartMore(calls: seq<Call>, frags: seq<Fragment>, done: set<Rec>, r: Rec, f: Fragment, w: World)
    requires Buffered(calls, frags, done, w) && SameKey(f, r)
    requires forall k :: 0 <= k < |frags| ==> !SameKey(frags[k], r)
    ensures KeysApart(frags + [f])
  {
    hide Home, HasOwner, Kept;
  }

  lemma OwnerMore(calls: seq<Call>, f: Fragment, done: set<Rec>, r: Rec, w: World)
    requires HasOwner(calls, f, done, w) || FiledAt(calls, f, r, w)
    ensures HasOwner(calls, f, done + {r}, w)
  {
    hide FiledAt;
    if HasOwner(calls, f, done, w) {
      var s :| s in done && FiledAt(calls, f, s, w);
      assert s in done + {r};
    } else {
      assert r in done + {r};
    }
  }

  lemma KeptMore(frags: seq<Fragment>, f: Fragment, r: Rec)
    requires Kept(frags, r) || SameKey(f, r)
    ensures Kept(frags + [f], r)
  {
    hide SameKey;
    if Kept(frags, r) {
      var k :| 0 <= k < |frags| && SameKey(frags[k], r);
      assert SameKey((frags + [f])[k], r);
    } else {
      assert SameKey((frags + [f])[|frags|], r);
    }
  }

  lemma BufferMore(calls: seq<Call>, frags: seq<Fragment>, done: set<Rec>, r: Rec, f: Fragment, w: World)
    requires Buffered(calls, frags, done, w) && r !in done
    requires SameKey(f, r) && f.value == Slice(r.resource, r.spans) && f.call.Some? && Home(calls, f.call.value, r, w)
    requires forall k :: 0 <= k < |frags| ==> !SameKey(frags[k], r)
    ensures Buffered(calls, frags + [f], done + {r}, w)
  {
    var frags', done' := frags + [f], done + {r};
    ApartMore(calls, frags, done, r, f, w);
    assert FiledAt(calls, f, r, w);
    hide Home, KeysApart, FiledAt, HasOwner, Kept, SameKey;
    forall k | 0 <= k < |frags'|
      ensures HasOwner(calls, frags'[k], done', w)
    {
      OwnerMore(calls, frags'[k], done, r, w);
    }
    forall s | s in done'
      ensures Kept(frags', s)
    {
      KeptMore(frags, f, s);
    }
  }

  // ---------------------------------------------------------------- runs

  /** Runs without erasure that deliver records of a set. */
  ghost predicate Lawful(steps: seq<Step>, recs: set<Rec>) {
    forall k :: 0 <= k < |steps| ==> LawfulStep(steps[k], recs)
  }

  predicate LawfulStep(step: Step, recs: set<Rec>) {
    !step.Erasure? && (step.Deliver? ==> step.rec in recs)
  }

  ghost predicate AllObey(recs: set<Rec>, w: World) {
    forall r :: r in recs ==> Obeys(r, w)
  }

  /** The record a step delivers for good: its transaction commits. */
  function Landed(st: Store, step: Step): set<Rec> {
    if step.Deliver? && Commits(st, step.rec, step.now, step.version, step.outcome) then {step.rec} else {}
  }

  function Delivered(steps: seq<Step>): set<Rec> {
    if steps == [] then {}
    else Delivered(steps[..|steps| - 1]) + Landed(Run(EMPTY, steps[..|steps| - 1]), steps[|steps| - 1])
  }

  ghost predicate Sound(st: Store, w: World, done: set<Rec>) {
    Rows(st, w) && Buffered(st.calls, st.frags, done, w) && forall r :: r in done ==> Obeys(r, w)
  }

  lemma SameRowsSound(a: Store, b: Store, w: World, done: set<Rec>)
    requires Sound(a, w, done) && SameRows(a.calls, b.calls)
    requires a.tombs == b.tombs && a.nextPk == b.nextPk && a.frags == b.frags
    ensures Sound(b, w, done) && HomesKept(a.calls, b.calls, w)
  {
    hide Obeys, Buffered;
    StillBuffered(a.calls, b.calls, a.frags, done, w);
  }

  lemma AssembledSound(st: Store, w: World, r: Rec, now: int, done: set<Rec>)
    requires Sound(st, w, done) && Orderly(w) && Obeys(r, w) && KeysUnique(done + {r})
    ensures Sound(Assembled(st, r, now), w, done + {r})
    ensures HomesKept(st.calls, Assembled(st, r, now).calls, w)
    ensures exists pk: nat :: Home(Assembled(st, r, now).calls, pk, r, w)
  {
    hide Upsert, CallId, Landing, TraceOf, Hint, HasRoot, Home, HomesKept, Buffered, Obeys, StoreFragment, KeysUnique;
    var st0 := AssembledIs(st, r, now) by { RowsPks(st); }
    var i, c := UpsertRows(st, w, r, now);
    var cid := CallId(st.calls, r).value;
    StillBuffered(st.calls, st0.calls, st.frags, done, w);
    StoresOnce(st0, w, r, c.pk, cid, done);
  }

  /** Next to a committed delivery, every step leaves identities, fragments and homes alone. */
  lemma NextSound(st: Store, step: Step, w: World, recs: set<Rec>, done: set<Rec>)
    requires Sound(st, w, done) && Orderly(w) && KeysUnique(recs) && done <= recs
    requires AllObey(recs, w) && LawfulStep(step, recs)
    ensures Sound(Next(st, step), w, done + Landed(st, step))
    ensures HomesKept(st.calls, Next(st, step).calls, w)
  {
    hide Assembled, Analyse, Handle, Aborts, Pending, CallId, RegisterArtifact, AnalyseAll, Taken, Sound, Flush,
      HomesKept, PksDistinct, Obeys, SameRows;
    SoundPks(st, w, done);
    match step
    case Deliver(r, now, version, outcome) =>
      var st', i := HandleIs(st, r, now, version, outcome);
      if Commits(st, r, now, version, outcome) {
        assert KeysUnique(done + {r}) by { hide Commits; }
        AssembledSound(st, w, r, now, done);
        if i < |st'.calls| {
          AnalysePuts(st', i, version, outcome);
          SameRowsSound(st', Analyse(st', st'.calls[i], version, outcome), w, done + {r});
          HomesThen(st.calls, st'.calls, Analyse(st', st'.calls[i], version, outcome).calls, w);
        }
      } else {
        SameStore(st, w, done);
      }
    case Sweep(cutoff, version, batch, outcomes) =>
      FlushKeepsRows(st, cutoff, version, batch, outcomes);
      SameRowsSound(st, Flush(st, cutoff, version, batch, outcomes), w, done);
      assert done + {} == done;
    case Artifact(id, isAudio, now) =>
      RegisterKeepsRows(st, id, isAudio, now);
      SameRowsSound(st, RegisterArtifact(st, id, isAudio, now), w, done);
      assert done + {} == done;
    case Erasure(id) =>
  }

  lemma SoundPks(st: Store, w: World, done: set<Rec>)
    requires Sound(st, w, done)
    ensures PksDistinct(st)
  {
  }

  lemma SameStore(st: Store, w: World, done: set<Rec>)
    requires Sound(st, w, done)
    ensures Sound(st, w, done + {}) && HomesKept(st.calls, st.calls, w)
  {
    hide Rows, Buffered, Obeys, Home;
    assert done + {} == done;
  }

  lemma HomesThen(a: seq<Call>, b: seq<Call>, c: seq<Call>, w: World)
    requires HomesKept(a, b, w) && HomesKept(b, c, w)
    ensures HomesKept(a, c, w)
  {
    hide Obeys, Home;
  }

  lemma FlushKeepsRows(st: Store, cutoff: int, version: int, batch: nat, outcomes: nat -> Outcome)
    requires PksDistinct(st)
    ensures var st' := Flush(st, cutoff, version, batch, outcomes);
      SameRows(st.calls, st'.calls) && st' == st.(calls := st'.calls, runs := st'.runs)
  {
    TakenAreRows(st, cutoff, version, batch);
    var i := AnalyseAllLast(st, Taken(st, cutoff, version, batch), version, outcomes);
    hide Taken, AnalyseAll, AnyFails;
  }

  lemma {:induction false} RunSound(steps: seq<Step>, w: World, recs: set<Rec>)
    requires Orderly(w) && KeysUnique(recs) && AllObey(recs, w) && Lawful(steps, recs)
    ensures Sound(Run(EMPTY, steps), w, Delivered(steps)) && Delivered(steps) <= recs
  {
    if steps == [] {
      assert Sound(EMPTY, w, {});
    } else {
      hide *;
      var init, step := steps[..|steps| - 1], steps[|steps| - 1];
      LawfulInit(steps, recs);
      RunSound(init, w, recs);
      NextSound(Run(EMPTY, init), step, w, recs, Delivered(init));
      DeliveredUnfold(steps, recs);
    }
  }

  lemma DeliveredUnfold(steps: seq<Step>, recs: set<Rec>)
    requires steps != []
    ensures var init, step := steps[..|steps| - 1], steps[|steps| - 1];
      && Delivered(steps) == Delivered(init) + Landed(Run(EMPTY, init), step)
      && Landed(Run(EMPTY, init), step) <= (if step.Deliver? then {step.rec} else {})
  {
  }

  lemma LawfulInit(steps: seq<Step>, recs: set<Rec>)
    requires Lawful(steps, recs) && steps != []
    ensures var step := steps[|steps| - 1];
      Lawful(steps[..|steps| - 1], recs) && LawfulStep(step, recs) && (step.Deliver? ==> step.rec in recs)
  {
    assert LawfulStep(steps[|steps| - 1], recs);
  }

  /** The key of the row a delivery of the record would land on now, which may be a new one. */
  function ResolvesTo(st: Store, r: Rec): Option<nat> {
    var cid := CallId(st.calls, r);
    if cid.None? then None else Some(Landing(st, r, cid.value, 0).pk)
  }

  lemma HomeIffResolves(st: Store, w: World, r: Rec, pk: nat)
    requires Rows(st, w) && Orderly(w) && Obeys(r, w) && exists p: nat :: Home(st.calls, p, r, w)
    ensures Home(st.calls, pk, r, w) <==> ResolvesTo(st, r) == Some(pk)
  {
    hide CallId, Landing, Rows, Orderly, Obeys, Owns, Named, MayRename, Upsert;
    var p: nat :| Home(st.calls, p, r, w);
    var j :| 0 <= j < |st.calls| && st.calls[j].pk == p && Owns(st.calls[j], r, w);
    var i, c, cid := Lands(st, w, r, 0);
    if Home(st.calls, pk, r, w) {
      HomeUnique(st, w, r, pk, p);
    }
  }

  lemma DeliveredHome(st: Store, w: World, recs: set<Rec>, done: set<Rec>, r: Rec)
    requires Sound(st, w, done) && r in done && KeysUnique(recs) && done <= recs
    ensures exists p: nat :: Home(st.calls, p, r, w)
  {
    hide Home, Obeys, Rows, HasOwner;
    var k := KeptAt(st.calls, st.frags, done, r, w);
    assert done + {r} <= recs;
    OwnerOf(st.calls, st.frags, done, k, r, w);
    FiledHome(st.calls, st.frags[k], r, w);
  }

  lemma {:induction false} HomeForever(steps: seq<Step>, n: nat, w: World, recs: set<Rec>)
    requires Orderly(w) && KeysUnique(recs) && AllObey(recs, w) && Lawful(steps, recs) && n <= |steps|
    ensures HomesKept(Run(EMPTY, steps[..n]).calls, Run(EMPTY, steps).calls, w)
    decreases |steps|
  {
    hide Sound, Next, Commits, Orderly, KeysUnique, Obeys, Home;
    if n == |steps| {
      assert steps[..n] == steps;
    } else {
      var init, step := steps[..|steps| - 1], steps[|steps| - 1];
      assert init[..n] == steps[..n];
      LawfulInit(steps, recs);
      HomeForever(init, n, w, recs);
      RunSound(init, w, recs);
      NextSound(Run(EMPTY, init), step, w, recs, Delivered(init));
    }
  }

  // ---------------------------------------------------------------- the theorems

  /** Every record has a trace, and no call id is a trace id. */
  ghost predicate Identified(recs: set<Rec>) {
    && (forall r :: r in recs ==> TraceOf(r) != "")
    && (forall r, s :: r in recs && s in recs && Hint(s).Some? ==> Hint(s).value != TraceOf(r))
  }

  /** Two call ids on one trace, the first of which occurs on another trace as well. */
  predicate Cross(r1: Rec, r2: Rec, r3: Rec) {
    && Hint(r1).Some? && Hint(r2).Some? && Hint(r1) != Hint(r2) && TraceOf(r1) == TraceOf(r2)
    && Hint(r3) == Hint(r1) && TraceOf(r3) != TraceOf(r1)
  }

  ghost predicate NoneCross(recs: set<Rec>) {
    forall r1, r2, r3 :: r1 in recs && r2 in recs && r3 in recs ==> !Cross(r1, r2, r3)
  }

  function IdsOn(recs: set<Rec>, t: string): set<string> {
    set r | r in recs && TraceOf(r) == t && Hint(r).Some? :: Hint(r).value
  }

  function WorldOf(recs: set<Rec>): World {
    var traces := set r | r in recs :: TraceOf(r);
    World(traces, map t | t in traces :: IdsOn(recs, t))
  }

  lemma IdsOfWorld(recs: set<Rec>, t: string)
    ensures Ids(WorldOf(recs), t) == IdsOn(recs, t)
  {
    hide TraceOf, Hint;
    assert t in WorldOf(recs).traces || IdsOn(recs, t) == {};
  }

  lemma WorldFits(recs: set<Rec>)
    requires Identified(recs)
    ensures Apart(WorldOf(recs)) && AllObey(recs, WorldOf(recs))
    ensures NoneCross(recs) ==> Orderly(WorldOf(recs))
  {
    hide TraceOf, Hint;
    var w := WorldOf(recs);
    forall t
      ensures Ids(w, t) == IdsOn(recs, t)
    {
      IdsOfWorld(recs, t);
    }
    hide Ids, WorldOf;
    if NoneCross(recs) {
      forall t, u, c | c in Ids(w, t) && c in Ids(w, u) && t != u
        ensures !Several(w, t)
      {
        NotSeveral(recs, w, t, u, c);
      }
    }
  }

  lemma NotSeveral(recs: set<Rec>, w: World, t: string, u: string, c: string)
    requires NoneCross(recs) && t != u && c in IdsOn(recs, t) && c in IdsOn(recs, u) && Ids(w, t) == IdsOn(recs, t)
    ensures !Several(w, t)
  {
    hide TraceOf, Hint, Ids;
    var r1 :| r1 in recs && TraceOf(r1) == t && Hint(r1).Some? && Hint(r1).value == c;
    var r3 :| r3 in recs && TraceOf(r3) == u && Hint(r3).Some? && Hint(r3).value == c;
    forall d | d in IdsOn(recs, t)
      ensures d == c
    {
      var r2 :| r2 in recs && TraceOf(r2) == t && Hint(r2).Some? && Hint(r2).value == d;
      assert !Cross(r1, r2, r3);
    }
  }

  /** Fragment `k` is the record's, and the only one with its key. */
  ghost predicate OnlyFragment(frags: seq<Fragment>, k: int, r: Rec) {
    && 0 <= k < |frags| && SameKey(frags[k], r) && frags[k].value == Slice(r.resource, r.spans)
    && forall l :: 0 <= l < |frags| && SameKey(frags[l], r) ==> l == k
  }

  /** Exactly once: after any run each delivered record has one fragment with its key, holding its slice, on
      the row that a redelivery would land on; there are no other fragments; and ids and traces are unique. */
  lemma OneFragmentEach(steps: seq<Step>, recs: set<Rec>, r: Rec) returns (k: nat)
    requires Identified(recs) && NoneCross(recs) && KeysUnique(recs) && Lawful(steps, recs) && r in Delivered(steps)
    ensures var st := Run(EMPTY, steps);
      && OnlyFragment(st.frags, k, r)
      && st.frags[k].call.Some? && st.frags[k].call == ResolvesTo(st, r)
      && |st.frags| == |Delivered(steps)|
      && (forall c, d :: c in st.calls && d in st.calls && (c.ext == d.ext || c.trace == d.trace) ==> c == d)
  {
    hide Run, Delivered, Home, Obeys, HasOwner, Orderly, WorldOf, NoneCross, Identified, ResolvesTo;
    var w := WorldOf(recs);
    WorldFits(recs);
    RunSound(steps, w, recs);
    var st := Run(EMPTY, steps);
    k := KeptAt(st.calls, st.frags, Delivered(steps), r, w);
    assert Delivered(steps) + {r} <= recs;
    OwnerOf(st.calls, st.frags, Delivered(steps), k, r, w);
    HomeIffResolves(st, w, r, st.frags[k].call.value);
    forall l | 0 <= l < |st.frags| && SameKey(st.frags[l], r)
      ensures l == k
    {
      assert l < k || k < l || l == k;
    }
    forall c, d | c in st.calls && d in st.calls && (c.ext == d.ext || c.trace == d.trace)
      ensures c == d
    {
      var i :| 0 <= i < |st.calls| && st.calls[i] == c;
      var j :| 0 <= j < |st.calls| && st.calls[j] == d;
      assert i < j || j < i || i == j;
    }
  }

  /** Once delivered, a record resolves to the same row ever after, whatever arrives in between and
      whatever the row is renamed to. */
  lemma SameRowForever(steps: seq<Step>, n: nat, recs: set<Rec>, r: Rec)
    requires Identified(recs) && NoneCross(recs) && KeysUnique(recs) && Lawful(steps, recs)
    requires n <= |steps| && r in Delivered(steps[..n])
    ensures ResolvesTo(Run(EMPTY, steps[..n]), r).Some?
    ensures ResolvesTo(Run(EMPTY, steps), r) == ResolvesTo(Run(EMPTY, steps[..n]), r)
    ensures exists c :: c in Run(EMPTY, steps).calls && ResolvesTo(Run(EMPTY, steps), r) == Some(c.pk)
  {
    hide Run, Delivered, LawfulStep, KeysUnique, Orderly, Rows, Buffered, Home, ResolvesTo, WorldOf, NoneCross,
      Identified;
    var w := WorldOf(recs);
    WorldFits(recs);
    var now, later := Run(EMPTY, steps[..n]), Run(EMPTY, steps);
    assert forall k :: 0 <= k < n ==> steps[..n][k] == steps[k];
    RunSound(steps[..n], w, recs);
    RunSound(steps, w, recs);
    HomeForever(steps, n, w, recs);
    DeliveredHome(now, w, recs, Delivered(steps[..n]), r);
    var p: nat :| Home(now.calls, p, r, w);
    HomeIffResolves(now, w, r, p);
    assert Home(later.calls, p, r, w);
    HomeIffResolves(later, w, r, p);
    HomeIsRow(later.calls, p, r, w);
  }

  lemma HomeIsRow(calls: seq<Call>, pk: nat, r: Rec, w: World)
    requires Home(calls, pk, r, w)
    ensures exists i :: 0 <= i < |calls| && calls[i].pk == pk
  {
  }
}
