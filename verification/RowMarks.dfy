/** What a batch and an artifact leave on the rows, field by field. */
module RowMarks {
  import opened Options
  import opened Otlp
  import opened IngestStore
  import opened IngestSteps
  import opened IngestSafety
  import opened BatchIdentity

  ghost predicate HasParentless(spans: seq<Span>) {
    exists k :: 0 <= k < |spans| && spans[k].parentId == ""
  }

  /** The trace id of a batch: that of its first span that has one, or none. */
  ghost predicate TracedBy(spans: seq<Span>, t: Option<string>) {
    match t
    case Some(id) => exists k :: FirstTraced(spans, k) && spans[k].traceId == id
    case None => forall k :: 0 <= k < |spans| ==> spans[k].traceId == ""
  }

  lemma TracedIs(r: Rec)
    ensures TracedBy(r.spans, TraceOption(TraceOf(r)))
  {
    FirstTraceIs(r.spans);
    if TraceOf(r) != "" {
      FirstTracedExists(r.spans);
    }
  }

  lemma {:induction false} FirstTracedExists(spans: seq<Span>)
    requires FirstTraceId(spans) != ""
    ensures exists k :: FirstTraced(spans, k) && spans[k].traceId == FirstTraceId(spans)
  {
    if spans[0].traceId != "" {
      assert FirstTraced(spans, 0);
    } else {
      FirstTracedExists(spans[1..]);
      var k :| FirstTraced(spans[1..], k) && spans[1..][k].traceId == FirstTraceId(spans[1..]);
      assert forall j :: 0 < j < |spans| ==> spans[j] == spans[1..][j - 1];
      assert FirstTraced(spans, k + 1);
    }
  }

  /** A batch of a call, taken in, changes one row or adds one. The row takes the call's id; it keeps its key, version,
      audio flag and status; its trace and agent are set if they were missing; it is complete if it was or if some span
      has no parent; and it is active now. A new row has the next key, is awaiting media and was never analysed. */
  lemma BatchMarksRow(st: Store, r: Rec, cid: string, now: int) returns (i: nat, t: Option<string>)
    requires PksDistinct(st) && CallId(st.calls, r) == Some(cid)
    ensures TracedBy(r.spans, t)
    ensures var after := Assembled(st, r, now);
      && i < |after.calls| && after.calls[i].ext == cid && after.tombs == st.tombs && after.runs == st.runs
      && (forall j :: 0 <= j < |st.calls| && j != i ==> j < |after.calls| && after.calls[j] == st.calls[j])
      && (i < |st.calls| ==>
            var c := st.calls[i];
            && |after.calls| == |st.calls| && after.nextPk == st.nextPk
            && (c.ext == cid || (t.Some? && c.trace == t))
            && after.calls[i] == Call(c.pk, cid, if c.trace.Some? then c.trace else t,
                                      if c.agent.Some? then c.agent else r.agent,
                                      c.spansComplete || HasParentless(r.spans), c.mediaReady, c.status, c.version, now))
      && (i == |st.calls| ==>
            && |after.calls| == |st.calls| + 1 && after.nextPk == st.nextPk + 1
            && after.calls[i] == Call(st.nextPk, cid, t, r.agent, HasParentless(r.spans), false, AwaitingMedia, None,
                                      now))
  {
    t := TraceOption(TraceOf(r));
    TracedIs(r);
    RootIs(r.spans);
    var st0 := AssembledIs(st, r, now);
    i := UpsertPuts(st, r, cid, now);
    assert HasRoot(r) <==> HasParentless(r.spans);
    NewRowIs(st, r, cid, now, i);
    hide Upsert, Assembled, CallId, HasRoot, TraceOf, Landing, TracedBy, HasParentless, FirstTraceId;
  }

  lemma NewRowIs(st: Store, r: Rec, cid: string, now: int, i: nat)
    requires i == |st.calls| ==> ByExt(st.calls, cid).None? && Promoted(st.calls, TraceOf(r)).None?
    ensures i == |st.calls| ==>
      Landing(st, r, cid, now) ==
        Call(st.nextPk, cid, TraceOption(TraceOf(r)), r.agent, HasRoot(r), false, AwaitingMedia, None, now)
  {
  }

  /** An artifact of a known call: audio makes it ready for analysis and, once its spans are complete, ingested; any
      artifact makes it active now. Nothing else changes, and an unknown id changes nothing. */
  lemma ArtifactMarksRow(st: Store, i: nat, isAudio: bool, now: int)
    requires RowsSafe(st) && i < |st.calls|
    ensures var c := st.calls[i];
      RegisterArtifact(st, c.ext, isAudio, now) == st.(calls := st.calls[i :=
        Call(c.pk, c.ext, c.trace, c.agent, c.spansComplete, c.mediaReady || isAudio,
             if isAudio && c.spansComplete then Ingested else c.status, c.version, now)])
    ensures forall id :: (forall c :: c in st.calls ==> c.ext != id) ==> RegisterArtifact(st, id, isAudio, now) == st
  {
    var c := st.calls[i];
    ByExtOf(st.calls, i);
    var status := if isAudio && c.spansComplete then Ingested else c.status;
    SaveIs(st, i, c.(mediaReady := c.mediaReady || isAudio, status := status, lastActivity := now));
    forall id | forall c :: c in st.calls ==> c.ext != id
      ensures RegisterArtifact(st, id, isAudio, now) == st
    {
      ByExtHas(st.calls, id);
    }
  }
}
