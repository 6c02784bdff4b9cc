/** Arrival order does not matter. When call ids and traces correspond one to one, what the store holds
    for each call is a function of the set of records delivered. */
module Confluence {
  import opened Options
  import opened Otlp
  import opened IngestStore
  import opened IngestSteps
  import opened IngestSafety
  import opened ExactlyOnce

  /** Call ids and traces correspond one to one: no trace has two ids and no id two traces. */
  ghost predicate OneToOne(w: World) {
    && (forall t :: !Several(w, t))
    && (forall t, u, c :: c in Ids(w, t) && c in Ids(w, u) ==> t == u)
  }

  /** A call as assembly leaves it: its trace, its id, whether its root has come, and its fragments. */
  datatype Group = Group(trace: Option<string>, ext: string, spansComplete: bool, parts: set<(string, nat, Blob)>)

  function Parts(frags: seq<Fragment>, pk: nat): set<(string, nat, Blob)> {
    set k | 0 <= k < |frags| && frags[k].call == Some(pk) :: (frags[k].batch, frags[k].seqNo, frags[k].value)
  }

  function GroupAt(st: Store, i: nat): Group
    requires i < |st.calls|
  {
    var c := st.calls[i];
    Group(c.trace, c.ext, c.spansComplete, Parts(st.frags, c.pk))
  }

  /** The grouping of records into calls. */
  function Grouping(st: Store): set<Group> {
    set i | 0 <= i < |st.calls| :: GroupAt(st, i)
  }

  // ---------------------------------------------------------------- what the records call for

  predicate AnyHint(done: set<Rec>, trace: string) {
    exists r :: r in done && TraceOf(r) == trace && Hint(r).Some?
  }

  predicate AnyRoot(done: set<Rec>, trace: string) {
    exists r :: r in done && TraceOf(r) == trace && HasRoot(r)
  }

  predicate AnyRecord(done: set<Rec>, trace: string) {
    exists r :: r in done && TraceOf(r) == trace
  }

  function PartOf(r: Rec): (string, nat, Blob) {
    (r.batch, r.seqNo, Slice(r.resource, r.spans))
  }

  function PartsOf(done: set<Rec>, trace: string): set<(string, nat, Blob)> {
    set r | r in done && TraceOf(r) == trace :: PartOf(r)
  }

  ghost function TheId(ids: set<string>): string
    requires ids != {}
  {
    var c :| c in ids;
    c
  }

  ghost function IdOf(done: set<Rec>, w: World, trace: string): string {
    if AnyHint(done, trace) && Ids(w, trace) != {} then TheId(Ids(w, trace)) else trace
  }

  /** A trace's group, from its records alone. */
  ghost function GroupOf(done: set<Rec>, w: World, trace: string): Group {
    Group(Some(trace), IdOf(done, w, trace), AnyRoot(done, trace), PartsOf(done, trace))
  }

  ghost function Expected(done: set<Rec>, w: World): set<Group> {
    set r | r in done :: GroupOf(done, w, TraceOf(r))
  }

  // ---------------------------------------------------------------- the invariant

  /** A row's marks are those its records call for. */
  ghost predicate Marked(c: Call, w: World, done: set<Rec>) {
    && c.trace.Some? && AnyRecord(done, c.trace.value)
    && c.ext == IdOf(done, w, c.trace.value)
    && c.spansComplete == AnyRoot(done, c.trace.value)
  }

  ghost predicate AllMarked(st: Store, w: World, done: set<Rec>) {
    forall i :: 0 <= i < |st.calls| ==> Marked(st.calls[i], w, done)
  }

  ghost predicate HasRow(calls: seq<Call>, trace: string) {
    exists j :: 0 <= j < |calls| && calls[j].trace == Some(trace)
  }

  /** Owning by call id is owning by trace. */
  lemma OwnsByTrace(c: Call, w: World, r: Rec)
    requires Orderly(w) && OneToOne(w) && Obeys(r, w) && Named(c, w) && Owns(c, r, w)
    ensures c.trace == Some(TraceOf(r))
  {
    hide Hint, TraceOf;
  }

  /** One more record changes what its own trace calls for, and no other trace. */
  lemma MarksGrow(done: set<Rec>, w: World, r: Rec, trace: string)
    ensures AnyHint(done + {r}, trace) == (AnyHint(done, trace) || (TraceOf(r) == trace && Hint(r).Some?))
    ensures AnyRoot(done + {r}, trace) == (AnyRoot(done, trace) || (TraceOf(r) == trace && HasRoot(r)))
    ensures AnyRecord(done + {r}, trace) == (AnyRecord(done, trace) || TraceOf(r) == trace)
  {
    hide TraceOf, Hint, HasRoot;
    assert forall s :: s in done + {r} <==> s in done || s == r;
    assert r in done + {r};
  }

  lemma NoRecordNoMarks(done: set<Rec>, trace: string)
    requires !AnyRecord(done, trace)
    ensures !AnyHint(done, trace) && !AnyRoot(done, trace)
  {
    hide TraceOf, Hint, HasRoot;
  }

  lemma OtherMarked(c: Call, w: World, done: set<Rec>, r: Rec)
    requires Marked(c, w, done) && c.trace != Some(TraceOf(r))
    ensures Marked(c, w, done + {r})
  {
    hide TraceOf, Hint, HasRoot, AnyHint, AnyRoot, AnyRecord;
    MarksGrow(done, w, r, c.trace.value);
  }

  /** The row a record lands on. */
  lemma LandedMarked(st: Store, w: World, done: set<Rec>, r: Rec, i: nat, c: Call, now: int)
    requires OneToOne(w) && Obeys(r, w) && AllMarked(st, w, done) && i <= |st.calls|
    requires forall t :: AnyRecord(done, t) ==> HasRow(st.calls, t)
    requires c.trace == Some(TraceOf(r)) && Owns(c, r, w)
    requires i < |st.calls| ==> c == Touch(st.calls[i].(ext := c.ext), r, now) && c.trace == st.calls[i].trace
    requires i < |st.calls| && Hint(r).None? ==> c.ext == st.calls[i].ext
    requires i == |st.calls| ==>
      c.spansComplete == HasRoot(r) && forall j :: 0 <= j < |st.calls| ==> st.calls[j].trace != c.trace
    requires i == |st.calls| && Hint(r).None? ==> c.ext == TraceOf(r)
    ensures Marked(c, w, done + {r})
  {
    hide TraceOf, Hint, HasRoot, AnyHint, AnyRoot, AnyRecord;
    var t := TraceOf(r);
    MarksGrow(done, w, r, t);
    if i == |st.calls| {
      assert !AnyRecord(done, t);
      NoRecordNoMarks(done, t);
    } else {
      assert Marked(st.calls[i], w, done);
    }
  }

  /** Every trace with a delivered record has its row. */
  lemma RecordsHaveRows(st: Store, w: World, recs: set<Rec>, done: set<Rec>, t: string)
    requires Sound(st, w, done) && Orderly(w) && OneToOne(w) && KeysUnique(recs) && done <= recs && AnyRecord(done, t)
    ensures HasRow(st.calls, t)
  {
    hide Home, TraceOf, Obeys, RowsSafe, Buffered, KeysUnique, Orderly, OneToOne, Named, Owns;
    var r :| r in done && TraceOf(r) == t;
    DeliveredHome(st, w, recs, done, r);
    var p: nat :| Home(st.calls, p, r, w);
    var j := OwnerRow(st.calls, p, r, w);
    OwnsByTrace(st.calls[j], w, r);
  }

  lemma OwnerRow(calls: seq<Call>, pk: nat, r: Rec, w: World) returns (i: nat)
    requires Home(calls, pk, r, w)
    ensures i < |calls| && calls[i].pk == pk && Owns(calls[i], r, w)
  {
    i :| 0 <= i < |calls| && calls[i].pk == pk && Owns(calls[i], r, w);
  }

  lemma AssembledMarked(st: Store, w: World, recs: set<Rec>, done: set<Rec>, r: Rec, now: int)
    requires Sound(st, w, done) && Orderly(w) && OneToOne(w) && KeysUnique(recs) && done <= recs
    requires Obeys(r, w) && AllMarked(st, w, done)
    ensures AllMarked(Assembled(st, r, now), w, done + {r})
  {
    hide *;
    SoundRows(st, w, done);
    var st0 := AssembledIs(st, r, now);
    var i, c, cid := Lands(st, w, r, now);
    OwnsByTrace(c, w, r);
    forall t | AnyRecord(done, t)
      ensures HasRow(st.calls, t)
    {
      RecordsHaveRows(st, w, recs, done, t);
    }
    LandedMarked(st, w, done, r, i, c, now);
    PutMarked(st, w, done, r, i, c);
    SameRowsSelf(Put(st.calls, i, c));
    MarkedRows(Put(st.calls, i, c), Assembled(st, r, now), w, done + {r});
  }

  lemma SoundRows(st: Store, w: World, done: set<Rec>)
    requires Sound(st, w, done)
    ensures Rows(st, w) && PksDistinct(st)
    ensures forall i, j :: 0 <= i < j < |st.calls| ==> st.calls[i].trace != st.calls[j].trace
    ensures forall i :: 0 <= i < |st.calls| ==> Named(st.calls[i], w)
    ensures forall r :: r in done ==> Obeys(r, w)
  {
  }

  lemma PutMarked(st: Store, w: World, done: set<Rec>, r: Rec, i: nat, c: Call)
    requires AllMarked(st, w, done) && i <= |st.calls| && Marked(c, w, done + {r}) && c.trace == Some(TraceOf(r))
    requires i < |st.calls| ==> c.trace == st.calls[i].trace
    requires forall i, j :: 0 <= i < j < |st.calls| ==> st.calls[i].trace != st.calls[j].trace
    requires i == |st.calls| ==> forall j :: 0 <= j < |st.calls| ==> st.calls[j].trace != c.trace
    ensures forall j :: 0 <= j < |Put(st.calls, i, c)| ==> Marked(Put(st.calls, i, c)[j], w, done + {r})
  {
    hide Marked, TraceOf;
    forall j | 0 <= j < |st.calls| && j != i
      ensures Marked(st.calls[j], w, done + {r})
    {
      OtherMarked(st.calls[j], w, done, r);
    }
  }

  lemma SameRowsSelf(rows: seq<Call>)
    ensures SameRows(rows, rows)
  {
  }

  lemma MarkedRows(rows: seq<Call>, st: Store, w: World, done: set<Rec>)
    requires SameRows(rows, st.calls) && forall j :: 0 <= j < |rows| ==> Marked(rows[j], w, done)
    ensures AllMarked(st, w, done)
  {
    hide AnyRecord, AnyRoot, IdOf;
    assert forall j :: 0 <= j < |rows| ==> Marked(rows[j], w, done);
  }

  lemma NextMarked(st: Store, step: Step, w: World, recs: set<Rec>, done: set<Rec>)
    requires Sound(st, w, done) && Orderly(w) && OneToOne(w) && KeysUnique(recs) && done <= recs
    requires AllObey(recs, w) && LawfulStep(step, recs) && AllMarked(st, w, done)
    ensures AllMarked(Next(st, step), w, done + Landed(st, step))
  {
    hide Assembled, Analyse, Handle, Aborts, Pending, CallId, RegisterArtifact, AnalyseAll, Taken, Sound, Flush,
      PksDistinct, Obeys, SameRows, Marked, AnyRecord, AnyRoot, Orderly, OneToOne, KeysUnique;
    SoundPks(st, w, done);
    assert done + {} == done;
    match step
    case Deliver(r, now, version, outcome) =>
      var st', i := HandleIs(st, r, now, version, outcome);
      if Commits(st, r, now, version, outcome) {
        AssembledMarked(st, w, recs, done, r, now);
        if i < |st'.calls| {
          AnalysePuts(st', i, version, outcome);
          MarkedRows(st'.calls, Analyse(st', st'.calls[i], version, outcome), w, done + {r});
        }
      }
    case Sweep(cutoff, version, batch, outcomes) =>
      FlushKeepsRows(st, cutoff, version, batch, outcomes);
      MarkedRows(st.calls, Flush(st, cutoff, version, batch, outcomes), w, done);
    case Artifact(id, isAudio, now) =>
      RegisterKeepsRows(st, id, isAudio, now);
      MarkedRows(st.calls, RegisterArtifact(st, id, isAudio, now), w, done);
    case Erasure(id) =>
  }

  lemma {:induction false} RunMarked(steps: seq<Step>, w: World, recs: set<Rec>)
    requires Orderly(w) && OneToOne(w) && KeysUnique(recs) && AllObey(recs, w) && Lawful(steps, recs)
    ensures AllMarked(Run(EMPTY, steps), w, Delivered(steps))
  {
    if steps == [] {
    } else {
      hide *;
      var init, step := steps[..|steps| - 1], steps[|steps| - 1];
      LawfulInit(steps, recs);
      RunMarked(init, w, recs);
      RunSound(init, w, recs);
      NextMarked(Run(EMPTY, init), step, w, recs, Delivered(init));
      DeliveredUnfold(steps, recs);
    }
  }

  // ---------------------------------------------------------------- the theorem

  /** A fragment sits on row `i` exactly when its record is of the row's trace. */
  lemma FiledByTrace(st: Store, w: World, i: nat, f: Fragment, r: Rec)
    requires Rows(st, w) && Orderly(w) && OneToOne(w) && Obeys(r, w) && i < |st.calls| && FiledAt(st.calls, f, r, w)
    ensures f.call == Some(st.calls[i].pk) <==> st.calls[i].trace == Some(TraceOf(r))
    ensures (f.batch, f.seqNo, f.value) == PartOf(r)
  {
    hide Home, TraceOf, Obeys, ExtsDistinct, Owns, Orderly, OneToOne;
    var j := OwnerRow(st.calls, f.call.value, r, w);
    assert Named(st.calls[j], w);
    hide Named;
    OwnsByTrace(st.calls[j], w, r);
    assert i < j || j < i || i == j;
  }

  lemma RecordHasPart(st: Store, w: World, recs: set<Rec>, done: set<Rec>, i: nat, r: Rec)
    requires Sound(st, w, done) && Orderly(w) && OneToOne(w) && KeysUnique(recs) && done <= recs
    requires i < |st.calls| && st.calls[i].trace == Some(TraceOf(r)) && r in done
    ensures PartOf(r) in Parts(st.frags, st.calls[i].pk)
  {
    hide TraceOf, Obeys, Rows, FiledAt, Orderly, OneToOne, KeysApart, HasOwner, PartOf;
    var k := KeptAt(st.calls, st.frags, done, r, w);
    assert done + {r} <= recs;
    OwnerOf(st.calls, st.frags, done, k, r, w);
    FiledByTrace(st, w, i, st.frags[k], r);
  }

  /** A part of a row is that of a delivered record of its trace. */
  lemma PartHasRecord(st: Store, w: World, done: set<Rec>, i: nat, k: nat) returns (r: Rec)
    requires Sound(st, w, done) && Orderly(w) && OneToOne(w) && i < |st.calls|
    requires k < |st.frags| && st.frags[k].call == Some(st.calls[i].pk)
    ensures r in done && st.calls[i].trace == Some(TraceOf(r))
    ensures (st.frags[k].batch, st.frags[k].seqNo, st.frags[k].value) == PartOf(r)
  {
    hide TraceOf, Obeys, Rows, FiledAt, Orderly, OneToOne, KeysApart, PartOf, Kept;
    assert HasOwner(st.calls, st.frags[k], done, w);
    r :| r in done && FiledAt(st.calls, st.frags[k], r, w);
    FiledByTrace(st, w, i, st.frags[k], r);
  }

  lemma PartsAre(st: Store, w: World, recs: set<Rec>, done: set<Rec>, i: nat, t: string)
    requires Sound(st, w, done) && Orderly(w) && OneToOne(w) && KeysUnique(recs) && done <= recs
    requires i < |st.calls| && st.calls[i].trace == Some(t)
    ensures Parts(st.frags, st.calls[i].pk) == PartsOf(done, t)
  {
    var pk := st.calls[i].pk;
    hide TraceOf, Sound, Orderly, OneToOne, KeysUnique, PartOf;
    forall x | x in Parts(st.frags, pk)
      ensures x in PartsOf(done, t)
    {
      var k :| 0 <= k < |st.frags| && st.frags[k].call == Some(pk) &&
               x == (st.frags[k].batch, st.frags[k].seqNo, st.frags[k].value);
      var r := PartHasRecord(st, w, done, i, k);
    }
    forall x | x in PartsOf(done, t)
      ensures x in Parts(st.frags, pk)
    {
      var r :| r in done && TraceOf(r) == t && x == PartOf(r);
      RecordHasPart(st, w, recs, done, i, r);
    }
  }

  lemma GroupsAre(st: Store, w: World, recs: set<Rec>, done: set<Rec>)
    requires Sound(st, w, done) && Orderly(w) && OneToOne(w) && KeysUnique(recs) && done <= recs
    requires AllMarked(st, w, done)
    ensures Grouping(st) == Expected(done, w)
  {
    hide Sound, TraceOf, Orderly, OneToOne, KeysUnique, Parts, PartsOf, AnyRoot, IdOf;
    forall i: nat | i < |st.calls|
      ensures st.calls[i].trace.Some? && AnyRecord(done, st.calls[i].trace.value)
      ensures GroupAt(st, i) == GroupOf(done, w, st.calls[i].trace.value)
    {
      assert Marked(st.calls[i], w, done);
      PartsAre(st, w, recs, done, i, st.calls[i].trace.value);
    }
    hide GroupAt, GroupOf;
    forall g | g in Grouping(st)
      ensures g in Expected(done, w)
    {
      var i :| 0 <= i < |st.calls| && g == GroupAt(st, i);
      var r :| r in done && TraceOf(r) == st.calls[i].trace.value;
    }
    forall g | g in Expected(done, w)
      ensures g in Grouping(st)
    {
      var r :| r in done && g == GroupOf(done, w, TraceOf(r));
      RecordsHaveRows(st, w, recs, done, TraceOf(r));
      var j :| 0 <= j < |st.calls| && st.calls[j].trace == Some(TraceOf(r));
      assert GroupAt(st, j) == g;
    }
  }

  /** In every record set the call ids and traces that occur together correspond one to one. */
  ghost predicate Corresponding(recs: set<Rec>) {
    forall r, s :: r in recs && s in recs && Hint(r).Some? && Hint(s).Some? ==>
      (Hint(r) == Hint(s) <==> TraceOf(r) == TraceOf(s))
  }

  lemma CorrespondingWorld(recs: set<Rec>)
    requires Identified(recs) && Corresponding(recs)
    ensures NoneCross(recs) && Orderly(WorldOf(recs)) && OneToOne(WorldOf(recs)) && AllObey(recs, WorldOf(recs))
  {
    hide TraceOf, Hint;
    assert NoneCross(recs);
    WorldFits(recs);
    var w := WorldOf(recs);
    forall t
      ensures Ids(w, t) == IdsOn(recs, t)
    {
      IdsOfWorld(recs, t);
    }
    hide Ids, WorldOf, Orderly, Identified;
    forall t, c, d | c in IdsOn(recs, t) && d in IdsOn(recs, t)
      ensures c == d
    {
      var r :| r in recs && TraceOf(r) == t && Hint(r).Some? && Hint(r).value == c;
      var s :| s in recs && TraceOf(s) == t && Hint(s).Some? && Hint(s).value == d;
    }
    forall t, u, c | c in IdsOn(recs, t) && c in IdsOn(recs, u)
      ensures t == u
    {
      var r :| r in recs && TraceOf(r) == t && Hint(r).Some? && Hint(r).value == c;
      var s :| s in recs && TraceOf(s) == u && Hint(s).Some? && Hint(s).value == c;
    }
  }

  /** After any run the calls are exactly those the delivered records call for: one per trace, under the
      call id if any record carried it, complete if any record had a root, with each record's slice once. */
  lemma AssemblyIsExact(steps: seq<Step>, recs: set<Rec>)
    requires Identified(recs) && Corresponding(recs) && KeysUnique(recs) && Lawful(steps, recs)
    ensures Grouping(Run(EMPTY, steps)) == Expected(Delivered(steps), WorldOf(recs))
  {
    hide *;
    var w := WorldOf(recs);
    CorrespondingWorld(recs);
    RunSound(steps, w, recs);
    RunMarked(steps, w, recs);
    GroupsAre(Run(EMPTY, steps), w, recs, Delivered(steps));
  }

  /** Confluence: two runs that deliver the same records, in whatever order, with whatever duplicates and
      other steps between, group them into the same calls. */
  lemma OrderDoesNotMatter(steps: seq<Step>, others: seq<Step>, recs: set<Rec>)
    requires Identified(recs) && Corresponding(recs) && KeysUnique(recs)
    requires Lawful(steps, recs) && Lawful(others, recs) && Delivered(steps) == Delivered(others)
    ensures Grouping(Run(EMPTY, steps)) == Grouping(Run(EMPTY, others))
  {
    hide *;
    AssemblyIsExact(steps, recs);
    AssemblyIsExact(others, recs);
  }
}
