/** Which call a batch belongs to, read off its attributes, spans and the rows. */
module BatchIdentity {
  import opened Options
  import opened Otlp
  import opened Shard
  import opened IngestStore
  import opened IngestSteps

  function ResourceAttributes(r: Rec): seq<Attr> {
    if r.resource.Resource? then r.resource.attributes else []
  }

  /** The last call id of an attribute list reads as `text`, which is not empty. */
  ghost predicate NamesCall(attrs: seq<Attr>, text: string) {
    text != "" && exists j :: IsLast(attrs, CALL_ID, j) && PyText(attrs[j].value) == text
  }

  ghost predicate NamesNone(attrs: seq<Attr>) {
    forall text :: !NamesCall(attrs, text)
  }

  lemma AttrNames(attrs: seq<Attr>)
    ensures PyAttr(attrs, CALL_ID).None? <==> NamesNone(attrs)
    ensures forall text :: PyAttr(attrs, CALL_ID) == Some(text) <==> NamesCall(attrs, text)
  {
    LastValueAt(attrs, CALL_ID);
    assert forall i, j :: IsLast(attrs, CALL_ID, i) && IsLast(attrs, CALL_ID, j) ==> i == j;
    hide PyText;
    forall text
      ensures PyAttr(attrs, CALL_ID) == Some(text) <==> NamesCall(attrs, text)
    {
    }
    if PyAttr(attrs, CALL_ID).Some? {
      assert NamesCall(attrs, PyAttr(attrs, CALL_ID).value);
    }
  }

  /** `spans[k]` is the first span without a parent. */
  ghost predicate IsRoot(spans: seq<Span>, k: int) {
    0 <= k < |spans| && spans[k].parentId == "" && forall j :: 0 <= j < k ==> spans[j].parentId != ""
  }

  /** `spans[k]` is the first span that names a call. */
  ghost predicate FirstToName(spans: seq<Span>, k: int, text: string) {
    && 0 <= k < |spans| && NamesCall(spans[k].attributes, text)
    && forall j :: 0 <= j < k ==> NamesNone(spans[j].attributes)
  }

  ghost predicate NoneNames(spans: seq<Span>) {
    forall k :: 0 <= k < |spans| ==> NamesNone(spans[k].attributes)
  }

  lemma {:induction false} RootIs(spans: seq<Span>)
    ensures Root(spans).None? <==> forall k :: 0 <= k < |spans| ==> spans[k].parentId != ""
    ensures Root(spans).Some? ==> exists k :: 0 <= k < |spans| && IsRoot(spans, k) && Root(spans) == Some(spans[k])
    ensures forall k :: IsRoot(spans, k) ==> Root(spans) == Some(spans[k])
  {
    if spans != [] && spans[0].parentId != "" {
      RootIs(spans[1..]);
      if Root(spans).Some? {
        var k :| IsRoot(spans[1..], k) && Root(spans[1..]) == Some(spans[1..][k]);
        assert IsRoot(spans, k + 1) by { ShiftRoot(spans, k); }
      }
      forall k | IsRoot(spans, k)
        ensures Root(spans) == Some(spans[k])
      {
        assert IsRoot(spans[1..], k - 1) by {
          assert forall j :: 0 <= j < k - 1 ==> spans[1..][j] == spans[j + 1];
        }
      }
      if Root(spans).None? {
        forall k | 0 <= k < |spans|
          ensures spans[k].parentId != ""
        {
          assert k > 0 ==> spans[k] == spans[1..][k - 1];
        }
      }
    } else if spans != [] {
      assert IsRoot(spans, 0);
    }
  }

  lemma ShiftRoot(spans: seq<Span>, k: int)
    requires spans != [] && spans[0].parentId != "" && IsRoot(spans[1..], k)
    ensures IsRoot(spans, k + 1)
  {
    assert forall j :: 0 < j <= k ==> spans[j] == spans[1..][j - 1];
  }

  lemma {:induction false} FirstHintIs(spans: seq<Span>)
    ensures FirstHint(spans).None? <==> NoneNames(spans)
    ensures forall k, text :: FirstToName(spans, k, text) ==> FirstHint(spans) == Some(text)
  {
    if spans != [] {
      hide PyAttr, NamesCall, NamesNone;
      AttrNames(spans[0].attributes);
      FirstHintIs(spans[1..]);
      assert forall k :: 0 < k < |spans| ==> spans[k] == spans[1..][k - 1];
      forall k, text | FirstToName(spans, k, text)
        ensures FirstHint(spans) == Some(text)
      {
        NotBoth(spans[k].attributes, text);
        if k > 0 {
          assert FirstToName(spans[1..], k - 1, text);
        }
      }
      if NoneNames(spans) {
        assert NoneNames(spans[1..]);
      }
    }
  }

  lemma NotBoth(attrs: seq<Attr>, text: string)
    requires NamesCall(attrs, text)
    ensures !NamesNone(attrs)
  {
  }

  /** The call id a batch gives: the resource's, else that of the first span without a parent, else that of the first
      span that has one. */
  ghost predicate Gives(r: Rec, text: string) {
    || NamesCall(ResourceAttributes(r), text)
    || (NamesNone(ResourceAttributes(r)) && RootNames(r.spans, text))
    || (NamesNone(ResourceAttributes(r)) && (forall other :: !RootNames(r.spans, other)) && SomeSpanNames(r.spans, text))
  }

  ghost predicate RootNames(spans: seq<Span>, text: string) {
    exists k :: 0 <= k < |spans| && IsRoot(spans, k) && NamesCall(spans[k].attributes, text)
  }

  ghost predicate SomeSpanNames(spans: seq<Span>, text: string) {
    exists k :: FirstToName(spans, k, text)
  }

  lemma RootNamesIff(spans: seq<Span>)
    ensures forall text :: RootNames(spans, text) <==>
      Root(spans).Some? && PyAttr(Root(spans).value.attributes, CALL_ID) == Some(text)
  {
    RootIs(spans);
    hide IsRoot, PyAttr, NamesCall, Root;
    if Root(spans).Some? {
      AttrNames(Root(spans).value.attributes);
    }
    forall text
      ensures RootNames(spans, text) <==>
        Root(spans).Some? && PyAttr(Root(spans).value.attributes, CALL_ID) == Some(text)
    {
      if k :| 0 <= k < |spans| && IsRoot(spans, k) && NamesCall(spans[k].attributes, text) {
        RootInRange(spans, k);
      }
    }
  }

  lemma RootInRange(spans: seq<Span>, k: int)
    requires IsRoot(spans, k)
    ensures Root(spans).Some?
  {
    RootIs(spans);
  }

  lemma SomeSpanNamesIff(spans: seq<Span>)
    ensures forall text :: SomeSpanNames(spans, text) <==> FirstHint(spans) == Some(text)
  {
    FirstHintIs(spans);
    hide NamesCall, NamesNone, FirstHint;
    if FirstHint(spans).Some? {
      FirstNamer(spans);
    }
  }

  lemma {:induction false} FirstNamer(spans: seq<Span>)
    requires FirstHint(spans).Some?
    ensures exists k :: FirstToName(spans, k, FirstHint(spans).value)
  {
    hide PyAttr, NamesCall, NamesNone;
    AttrNames(spans[0].attributes);
    if PyAttr(spans[0].attributes, CALL_ID).Some? {
      assert FirstToName(spans, 0, FirstHint(spans).value);
    } else {
      FirstNamer(spans[1..]);
      var k :| FirstToName(spans[1..], k, FirstHint(spans[1..]).value);
      assert forall j :: 0 < j < |spans| ==> spans[j] == spans[1..][j - 1];
      assert FirstToName(spans, k + 1, FirstHint(spans).value);
    }
  }

  lemma HintUnfolds(r: Rec)
    ensures PyAttr(ResourceAttributes(r), CALL_ID).Some? ==> Hint(r) == PyAttr(ResourceAttributes(r), CALL_ID)
    ensures PyAttr(ResourceAttributes(r), CALL_ID).None? ==>
      Hint(r) == if Root(r.spans).Some? && PyAttr(Root(r.spans).value.attributes, CALL_ID).Some?
                 then PyAttr(Root(r.spans).value.attributes, CALL_ID) else FirstHint(r.spans)
  {
    hide Root, LastValue;
    assert PyAttr([], CALL_ID) == None by { NoAttributes(); }
    if Root(r.spans).Some? {
      var root := Root(r.spans).value;
      assert ([root] + r.spans)[1..] == r.spans;
    } else {
      assert [] + r.spans == r.spans;
    }
  }

  lemma NoAttributes()
    ensures PyAttr([], CALL_ID) == None
  {
  }

  /** The hint is what the batch gives. */
  lemma HintIs(r: Rec)
    ensures forall text :: Hint(r) == Some(text) <==> Gives(r, text)
  {
    hide Hint, PyAttr, FirstHint, Root, NamesCall, NamesNone, RootNames, SomeSpanNames;
    HintUnfolds(r);
    AttrNames(ResourceAttributes(r));
    RootNamesIff(r.spans);
    SomeSpanNamesIff(r.spans);
    var own := PyAttr(ResourceAttributes(r), CALL_ID);
    var rooted := if Root(r.spans).Some? then PyAttr(Root(r.spans).value.attributes, CALL_ID) else None;
    assert rooted.Some? ==> RootNames(r.spans, rooted.value);
    assert own.Some? ==> NamesCall(ResourceAttributes(r), own.value);
  }

  /** The first row, in order of insertion, that has the trace. */
  ghost predicate FirstOfTrace(calls: seq<Call>, t: string, i: int) {
    0 <= i < |calls| && calls[i].trace == Some(t) && forall j :: 0 <= j < i ==> calls[j].trace != Some(t)
  }

  lemma {:induction false} ByTraceFirst(calls: seq<Call>, t: string)
    ensures forall i :: FirstOfTrace(calls, t, i) ==> ByTrace(calls, t) == Some(calls[i])
    ensures ByTrace(calls, t).Some? ==> exists i :: 0 <= i < |calls| && calls[i].trace == Some(t)
  {
    if calls != [] {
      ByTraceFirst(calls[1..], t);
      assert forall j :: 0 < j < |calls| ==> calls[j] == calls[1..][j - 1];
      forall i | FirstOfTrace(calls, t, i)
        ensures ByTrace(calls, t) == Some(calls[i])
      {
        if i > 0 {
          assert FirstOfTrace(calls[1..], t, i - 1);
        }
      }
    }
  }

  ghost predicate NoRowOf(calls: seq<Call>, t: string) {
    forall i :: 0 <= i < |calls| ==> calls[i].trace != Some(t)
  }

  /** Which call a batch belongs to: the one it gives; else, by the trace id of its first span that has one, the one
      whose row has the trace, or without such a row, or with a nameless one, the trace id itself; else none. */
  lemma CallIdExact(calls: seq<Call>, r: Rec)
    ensures forall text :: Gives(r, text) ==> CallId(calls, r) == Some(text)
    ensures (forall text :: !Gives(r, text)) ==>
      && ((forall k :: 0 <= k < |r.spans| ==> r.spans[k].traceId == "") ==> CallId(calls, r) == None)
      && (forall k, i :: FirstTraced(r.spans, k) && FirstOfTrace(calls, r.spans[k].traceId, i) ==>
            CallId(calls, r) == Some(if calls[i].ext != "" then calls[i].ext else r.spans[k].traceId))
      && (forall k :: FirstTraced(r.spans, k) && NoRowOf(calls, r.spans[k].traceId) ==>
            CallId(calls, r) == Some(r.spans[k].traceId))
  {
    HintIs(r);
    FirstTraceIs(r.spans);
    hide Hint, Gives, FirstTraceId, ByTrace;
    ByTraceFirst(calls, TraceOf(r));
    if Hint(r).Some? {
      assert Gives(r, Hint(r).value);
    }
  }
}
