/** The analysis consumer's store for one org: call rows, the raw-fragment buffer, tombstones and
    ingest runs, and the transactions that change them.

    Each transaction is one atomic step. The class changes its fields as the source changes rows;
    every method is proved equal to a function on `Store` values. */
module IngestStore {
  import opened Options
  import opened Sorting
  import opened Otlp

  datatype Status = AwaitingMedia | Ingested | Unsupported

  datatype Call = Call(pk: nat, ext: string, trace: Option<string>, agent: Option<string>,
                       spansComplete: bool, mediaReady: bool, status: Status,
                       version: Option<int>, lastActivity: int)

  datatype Fragment = Fragment(call: Option<nat>, batch: string, seqNo: nat, value: Blob)

  /** A successful analysis of a call at a metric version. */
  datatype IngestRun = IngestRun(call: nat, version: int)

  datatype Store = Store(calls: seq<Call>, frags: seq<Fragment>, tombs: set<string>,
                         runs: seq<IngestRun>, nextPk: nat)

  const EMPTY := Store([], [], {}, [], 0)

  /** A delivered record, decoded. */
  datatype Rec = Rec(resource: Resource, spans: seq<Span>, agent: Option<string>, batch: string, seqNo: nat)

  /** How `process` ends: rows written, UnsupportedSchema, or any other exception. */
  datatype Outcome = Analysed | NotSupported | Failed

  // ---------------------------------------------------------------- identity of a batch

  function Root(spans: seq<Span>): Option<Span> {
    if spans == [] then None
    else if spans[0].parentId == "" then Some(spans[0])
    else Root(spans[1..])
  }

  function HasRoot(r: Rec): bool {
    Root(r.spans).Some?
  }

  function TraceOf(r: Rec): string {
    FirstTraceId(r.spans)
  }

  function FirstHint(spans: seq<Span>): (h: Option<string>)
    ensures h.Some? ==> h.value != ""
  {
    if spans == [] then None
    else if PyAttr(spans[0].attributes, CALL_ID).Some? then PyAttr(spans[0].attributes, CALL_ID)
    else FirstHint(spans[1..])
  }

  /** The producer's call id: on the resource, else on the root span, else on the first span that has one. */
  function Hint(r: Rec): (h: Option<string>)
    ensures h.Some? ==> h.value != ""
  {
    var onResource := if r.resource.Resource? then PyAttr(r.resource.attributes, CALL_ID) else None;
    if onResource.Some? then onResource
    else FirstHint((if HasRoot(r) then [Root(r.spans).value] else []) + r.spans)
  }

  function ByExt(calls: seq<Call>, ext: string): Option<Call> {
    if calls == [] then None
    else if calls[0].ext == ext then Some(calls[0])
    else ByExt(calls[1..], ext)
  }

  function ByTrace(calls: seq<Call>, trace: string): Option<Call> {
    if calls == [] then None
    else if calls[0].trace == Some(trace) then Some(calls[0])
    else ByTrace(calls[1..], trace)
  }

  /** `identify`: the hint, else the id of the row that has the trace, else the trace id itself. */
  function CallId(calls: seq<Call>, r: Rec): Option<string> {
    var t := TraceOf(r);
    if Hint(r).Some? then Hint(r)
    else if t == "" then None
    else if ByTrace(calls, t).Some? && ByTrace(calls, t).value.ext != "" then Some(ByTrace(calls, t).value.ext)
    else Some(t)
  }

  // ---------------------------------------------------------------- upsert and store

  /** Write a row back by primary key. */
  function Save(calls: seq<Call>, c: Call): (r: seq<Call>)
    ensures |r| == |calls|
    ensures forall i :: 0 <= i < |calls| ==> r[i] == if calls[i].pk == c.pk then c else calls[i]
  {
    seq(|calls|, i requires 0 <= i < |calls| => if calls[i].pk == c.pk then c else calls[i])
  }

  function Promoted(calls: seq<Call>, trace: string): Option<Call> {
    if trace == "" then None else ByTrace(calls, trace)
  }

  function TraceOption(trace: string): Option<string> {
    if trace == "" then None else Some(trace)
  }

  /** The batch's marks on its row. */
  function Touch(c: Call, r: Rec, now: int): Call {
    c.(trace := if c.trace.None? then TraceOption(TraceOf(r)) else c.trace,
       agent := if c.agent.None? then r.agent else c.agent,
       spansComplete := c.spansComplete || HasRoot(r),
       lastActivity := now)
  }

  /** The row a batch lands on: found by id, else promoted from its trace, else new. */
  function Landing(st: Store, r: Rec, cid: string, now: int): Call {
    var found := ByExt(st.calls, cid);
    var promoted := Promoted(st.calls, TraceOf(r));
    var c := if found.Some? then found.value
             else if promoted.Some? then promoted.value.(ext := cid)
             else Call(st.nextPk, cid, TraceOption(TraceOf(r)), r.agent, false, false, AwaitingMedia, None, now);
    Touch(c, r, now)
  }

  function Upsert(st: Store, r: Rec, cid: string, now: int): Store {
    var c := Landing(st, r, cid, now);
    if ByExt(st.calls, cid).None? && Promoted(st.calls, TraceOf(r)).None? then
      st.(calls := st.calls + [c], nextPk := st.nextPk + 1)
    else
      st.(calls := Save(st.calls, c))
  }

  predicate HasFragment(frags: seq<Fragment>, call: Option<nat>, batch: string, seqNo: nat) {
    exists i :: 0 <= i < |frags| && frags[i].call == call && frags[i].batch == batch && frags[i].seqNo == seqNo
  }

  function CallPk(calls: seq<Call>, cid: Option<string>): Option<nat> {
    if cid.Some? && ByExt(calls, cid.value).Some? then Some(ByExt(calls, cid.value).value.pk) else None
  }

  function StoreFragment(st: Store, r: Rec, cid: Option<string>): Store {
    var pk := CallPk(st.calls, cid);
    if pk.Some? && HasFragment(st.frags, pk, r.batch, r.seqNo) then st
    else st.(frags := st.frags + [Fragment(pk, r.batch, r.seqNo, Slice(r.resource, r.spans))])
  }

  // ---------------------------------------------------------------- analysis

  predicate Pending(c: Call, version: int) {
    c.status != Unsupported && c.version != Some(version)
  }

  predicate ReadyNow(c: Call, version: int) {
    c.spansComplete && c.mediaReady && Pending(c, version)
  }

  /** `_analyse`, for an outcome that does not abort the transaction. */
  function Analyse(st: Store, c: Call, version: int, outcome: Outcome): Store {
    if outcome == NotSupported then st.(calls := Save(st.calls, c.(status := Unsupported)))
    else
      st.(calls := Save(st.calls, c.(version := Some(version))),
          runs := st.runs + [IngestRun(c.pk, version)])
  }

  function Assembled(st: Store, r: Rec, now: int): Store {
    var cid := CallId(st.calls, r);
    StoreFragment(if cid.Some? then Upsert(st, r, cid.value, now) else st, r, cid)
  }

  function Readied(st: Store, cid: Option<string>, version: int): Option<Call> {
    if cid.None? then None
    else
      var c := ByExt(st.calls, cid.value);
      if c.Some? && ReadyNow(c.value, version) then c else None
  }

  predicate Dropped(st: Store, r: Rec) {
    CallId(st.calls, r).Some? && CallId(st.calls, r).value in st.tombs
  }

  /** `handle_record`. A failed analysis rolls the whole transaction back. */
  function Handle(st: Store, r: Rec, now: int, version: int, outcome: Outcome): Store {
    if Dropped(st, r) then st
    else
      var st' := Assembled(st, r, now);
      var ready := Readied(st', CallId(st.calls, r), version);
      if ready.None? then st'
      else if outcome == Failed then st
      else Analyse(st', ready.value, version, outcome)
  }

  // ---------------------------------------------------------------- the grace flush

  predicate Due(c: Call, cutoff: int, version: int) {
    c.spansComplete && (c.mediaReady || c.lastActivity < cutoff) && Pending(c, version)
  }

  function IsDue(cutoff: int, version: int): Call -> bool {
    (c: Call) => Due(c, cutoff, version)
  }

  predicate ByActivity(a: Call, b: Call) {
    a.lastActivity <= b.lastActivity
  }

  function Limit<T>(xs: seq<T>, n: nat): seq<T> {
    if n < |xs| then xs[..n] else xs
  }

  /** The rows one flush takes: due, least recently active first, at most `batch`. */
  function Taken(st: Store, cutoff: int, version: int, batch: nat): seq<Call> {
    Limit(Sorted(Filter(st.calls, IsDue(cutoff, version)), ByActivity), batch)
  }

  function AnalyseAll(st: Store, cs: seq<Call>, version: int, outcomes: nat -> Outcome): Store {
    if cs == [] then st
    else
      var c := cs[|cs| - 1];
      Analyse(AnalyseAll(st, cs[..|cs| - 1], version, outcomes), c, version, outcomes(c.pk))
  }

  predicate AnyFails(cs: seq<Call>, outcomes: nat -> Outcome) {
    exists i :: 0 <= i < |cs| && outcomes(cs[i].pk) == Failed
  }

  /** `flush_due` for one org: one transaction. */
  function Flush(st: Store, cutoff: int, version: int, batch: nat, outcomes: nat -> Outcome): Store {
    var cs := Taken(st, cutoff, version, batch);
    if AnyFails(cs, outcomes) then st else AnalyseAll(st, cs, version, outcomes)
  }

  // ---------------------------------------------------------------- erasure and audio

  function WithoutCall(calls: seq<Call>, pk: nat): seq<Call> {
    Filter(calls, (c: Call) => c.pk != pk)
  }

  function WithoutRuns(runs: seq<IngestRun>, pk: nat): seq<IngestRun> {
    Filter(runs, (x: IngestRun) => x.call != pk)
  }

  function Erase(st: Store, id: string): Store {
    var c := ByExt(st.calls, id);
    if c.None? then st
    else
      st.(tombs := st.tombs + {id},
          frags := Filter(st.frags, (f: Fragment) => f.call != Some(c.value.pk)),
          runs := WithoutRuns(st.runs, c.value.pk),
          calls := WithoutCall(st.calls, c.value.pk))
  }

  /** `register_artifact`, for an artifact the call does not have yet. */
  function RegisterArtifact(st: Store, id: string, isAudio: bool, now: int): Store {
    var c := ByExt(st.calls, id);
    if c.None? then st
    else
      var ready := if isAudio && c.value.spansComplete then Ingested else c.value.status;
      st.(calls := Save(st.calls, c.value.(mediaReady := c.value.mediaReady || isAudio, status := ready,
                                           lastActivity := now)))
  }

  // ---------------------------------------------------------------- the class

  class OrgStore {
    var calls: seq<Call>
    var frags: seq<Fragment>
    var tombs: set<string>
    var runs: seq<IngestRun>
    var nextPk: nat

    function State(): Store
      reads this
    {
      Store(calls, frags, tombs, runs, nextPk)
    }

    constructor ()
      ensures State() == EMPTY
    {
      calls, frags, tombs, runs, nextPk := [], [], {}, [], 0;
    }

    method UpsertCall(r: Rec, cid: string, now: int)
      modifies this`calls, this`nextPk
      ensures State() == Upsert(old(State()), r, cid, now)
    {
      var t := TraceOf(r);
      var found := ByExt(calls, cid);
      var isNew := false;
      var call: Call;
      if found.Some? {
        call := found.value;
      } else {
        var promoted := Promoted(calls, t);
        if promoted.Some? {
          call := promoted.value.(ext := cid);
        } else {
          call := Call(nextPk, cid, TraceOption(t), r.agent, false, false, AwaitingMedia, None, now);
          isNew := true;
        }
      }
      if call.trace.None? && t != "" {
        call := call.(trace := Some(t));
      }
      if call.agent.None? && r.agent.Some? {
        call := call.(agent := r.agent);
      }
      if HasRoot(r) {
        call := call.(spansComplete := true);
      }
      call := call.(lastActivity := now);
      if isNew {
        calls := calls + [call];
        nextPk := nextPk + 1;
      } else {
        calls := Save(calls, call);
      }
    }

    method AddFragment(r: Rec, cid: Option<string>)
      modifies this`frags
      ensures State() == StoreFragment(old(State()), r, cid)
    {
      var pk := CallPk(calls, cid);
      if pk.Some? && HasFragment(frags, pk, r.batch, r.seqNo) {
        return;
      }
      frags := frags + [Fragment(pk, r.batch, r.seqNo, Slice(r.resource, r.spans))];
    }

    method AnalyseCall(c: Call, version: int, outcome: Outcome) returns (ok: bool)
      requires outcome != Failed
      modifies this`calls, this`runs
      ensures State() == Analyse(old(State()), c, version, outcome) && ok == (outcome == Analysed)
    {
      if outcome == NotSupported {
        calls := Save(calls, c.(status := Unsupported));
        return false;
      }
      calls := Save(calls, c.(version := Some(version)));
      runs := runs + [IngestRun(c.pk, version)];
      ok := true;
    }

    /** Returns the external id to queue for judging. */
    method HandleRecord(r: Rec, now: int, version: int, outcome: Outcome) returns (judge: Option<string>)
      modifies this
      ensures State() == Handle(old(State()), r, now, version, outcome)
      ensures judge.Some? <==> |runs| > |old(runs)|
      ensures judge.Some? ==> judge == CallId(old(calls), r)
    {
      hide Save, Hint, ByTrace;
      ghost var before := State();
      var cid := CallId(calls, r);
      if cid.Some? && cid.value in tombs {
        return None;
      }
      var calls0, frags0, nextPk0 := calls, frags, nextPk;
      if cid.Some? {
        UpsertCall(r, cid.value, now);
      }
      AddFragment(r, cid);
      assert State() == Assembled(before, r, now);
      judge := None;
      if cid.Some? {
        var call := ByExt(calls, cid.value);
        if call.Some? && ReadyNow(call.value, version) {
          if outcome == Failed {
            calls, frags, nextPk := calls0, frags0, nextPk0;
            return None;
          }
          var ok := AnalyseCall(call.value, version, outcome);
          judge := if ok then Some(call.value.ext) else None;
          ByExtHas(Assembled(before, r, now).calls, cid.value);
        }
      }
    }

    method FlushDue(cutoff: int, version: int, batch: nat, outcomes: nat -> Outcome) returns (total: nat)
      modifies this
      ensures State() == Flush(old(State()), cutoff, version, batch, outcomes)
      ensures var taken := Taken(old(State()), cutoff, version, batch);
        !AnyFails(taken, outcomes) ==> total == |taken|
    {
      ghost var before := State();
      var calls0, runs0 := calls, runs;
      var due := Limit(Sorted(Filter(calls, IsDue(cutoff, version)), ByActivity), batch);
      FlushIs(before, cutoff, version, batch, outcomes);
      hide Analyse, AnalyseAll, Taken, AnyFails, Flush, Sorted, Filter, Limit;
      NoneYet(before, due, version, outcomes);
      total := 0;
      for k := 0 to |due|
        invariant total == k && !AnyFails(due[..k], outcomes)
        invariant State() == AnalyseAll(before, due[..k], version, outcomes)
        invariant frags == before.frags && tombs == before.tombs && nextPk == before.nextPk
      {
        OneMore(before, due, k, version, outcomes);
        if outcomes(due[k].pk) == Failed {
          calls, runs := calls0, runs0;
          return;
        }
        var ok := AnalyseCall(due[k], version, outcomes(due[k].pk));
        total := total + 1;
      }
      assert due[..|due|] == due;
    }

    method EraseCall(id: string) returns (found: bool)
      modifies this
      ensures State() == Erase(old(State()), id) && found == ByExt(old(calls), id).Some?
    {
      var call := ByExt(calls, id);
      if call.None? {
        return false;
      }
      tombs := tombs + {id};
      var pk := call.value.pk;
      frags := Filter(frags, (f: Fragment) => f.call != Some(pk));
      runs := WithoutRuns(runs, pk);
      calls := WithoutCall(calls, pk);
      found := true;
    }

    method Register(id: string, isAudio: bool, now: int) returns (found: bool)
      modifies this`calls
      ensures State() == RegisterArtifact(old(State()), id, isAudio, now) && found == ByExt(old(calls), id).Some?
    {
      var call := ByExt(calls, id);
      if call.None? {
        return false;
      }
      var c := call.value;
      if isAudio {
        c := c.(mediaReady := true);
        if c.spansComplete {
          c := c.(status := Ingested);
        }
      }
      calls := Save(calls, c.(lastActivity := now));
      found := true;
    }
  }

  lemma FlushIs(st: Store, cutoff: int, version: int, batch: nat, outcomes: nat -> Outcome)
    ensures var cs := Limit(Sorted(Filter(st.calls, IsDue(cutoff, version)), ByActivity), batch);
      && Taken(st, cutoff, version, batch) == cs
      && Flush(st, cutoff, version, batch, outcomes) ==
           if AnyFails(cs, outcomes) then st else AnalyseAll(st, cs, version, outcomes)
  {
  }

  lemma NoneYet(st: Store, cs: seq<Call>, version: int, outcomes: nat -> Outcome)
    ensures AnalyseAll(st, cs[..0], version, outcomes) == st && !AnyFails(cs[..0], outcomes)
  {
  }

  /** One call further into the batch. */
  lemma OneMore(st: Store, cs: seq<Call>, k: nat, version: int, outcomes: nat -> Outcome)
    requires k < |cs| && !AnyFails(cs[..k], outcomes)
    ensures var st' := Analyse(AnalyseAll(st, cs[..k], version, outcomes), cs[k], version, outcomes(cs[k].pk));
      && AnalyseAll(st, cs[..k + 1], version, outcomes) == st'
      && st'.frags == AnalyseAll(st, cs[..k], version, outcomes).frags
      && st'.tombs == AnalyseAll(st, cs[..k], version, outcomes).tombs
      && st'.nextPk == AnalyseAll(st, cs[..k], version, outcomes).nextPk
    ensures outcomes(cs[k].pk) != Failed ==> !AnyFails(cs[..k + 1], outcomes)
    ensures outcomes(cs[k].pk) == Failed ==> AnyFails(cs, outcomes)
  {
    assert cs[..k + 1][..k] == cs[..k];
  }

  lemma {:induction false} ByExtHas(calls: seq<Call>, ext: string)
    ensures ByExt(calls, ext).Some? ==> ByExt(calls, ext).value in calls && ByExt(calls, ext).value.ext == ext
    ensures ByExt(calls, ext).None? ==> forall c :: c in calls ==> c.ext != ext
  {
    if calls != [] {
      ByExtHas(calls[1..], ext);
      assert forall c :: c in calls ==> c == calls[0] || c in calls[1..];
    }
  }

  lemma {:induction false} ByTraceHas(calls: seq<Call>, trace: string)
    ensures ByTrace(calls, trace).Some? ==>
      ByTrace(calls, trace).value in calls && ByTrace(calls, trace).value.trace == Some(trace)
    ensures ByTrace(calls, trace).None? ==> forall c :: c in calls ==> c.trace != Some(trace)
  {
    if calls != [] {
      ByTraceHas(calls[1..], trace);
      assert forall c :: c in calls ==> c == calls[0] || c in calls[1..];
    }
  }
}
