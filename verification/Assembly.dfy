/** Fragments back to one payload per call. */
module Assembly {
  import opened Seqs
  import opened Dicts
  import opened Otlp

  function OfPayload(p: Payload): seq<Span> {
    if p == [] then [] else OfPayload(Init(p)) + Concat(Last(p).scopes)
  }

  /** All spans of the fragments, in fragment order. */
  function AllSpans(blobs: seq<Blob>): seq<Span> {
    if blobs == [] then [] else AllSpans(Init(blobs)) + OfPayload(Last(blobs).contents)
  }

  function AllBlocks(blobs: seq<Blob>): Payload {
    if blobs == [] then [] else AllBlocks(Init(blobs)) + Last(blobs).contents
  }

  function FirstResource(blocks: Payload): Resource {
    if blocks == [] then NoResource
    else if FirstResource(Init(blocks)) != NoResource then FirstResource(Init(blocks))
    else Last(blocks).resource
  }

  /** The dict by span id: a retry replaces the body and keeps the place. */
  function ByIdDict(spans: seq<Span>): Dict<string, Span> {
    if spans == [] then Empty() else ByIdDict(Init(spans)).Set(Last(spans).spanId, Last(spans))
  }

  datatype Assembled = Assembled(resource: Resource, spans: Dict<string, Span>)

  lemma ByIdStep(spans: seq<Span>, s: Span)
    ensures ByIdDict(spans + [s]) == ByIdDict(spans).Set(s.spanId, s)
  {
    assert Init(spans + [s]) == spans;
  }

  lemma ResourceStep(blocks: Payload, rs: ResourceSpans)
    ensures FirstResource(blocks + [rs])
         == if FirstResource(blocks) != NoResource then FirstResource(blocks) else rs.resource
  {
    assert Init(blocks + [rs]) == blocks;
  }

  /** `blocks[k]` is the first block whose resource is not empty. */
  ghost predicate FirstFull(blocks: seq<ResourceSpans>, k: int) {
    0 <= k < |blocks| && blocks[k].resource.Resource? && forall j :: 0 <= j < k ==> blocks[j].resource.NoResource?
  }

  /** The resource is that of the first block that has one, if there is one. */
  lemma {:induction false} FirstResourceIs(blocks: seq<ResourceSpans>)
    ensures forall k :: FirstFull(blocks, k) ==> FirstResource(blocks) == blocks[k].resource
    ensures (forall k :: 0 <= k < |blocks| ==> blocks[k].resource.NoResource?) ==> FirstResource(blocks) == NoResource
  {
    if blocks != [] {
      var p := Init(blocks);
      FirstResourceIs(p);
      assert forall j :: 0 <= j < |p| ==> p[j] == blocks[j];
      forall k | FirstFull(blocks, k)
        ensures FirstResource(blocks) == blocks[k].resource
      {
        if k < |p| {
          assert FirstFull(p, k);
        }
      }
    }
  }

  method Assemble(blobs: seq<Blob>) returns (r: Assembled)
    ensures r == Assembled(FirstResource(AllBlocks(blobs)), ByIdDict(AllSpans(blobs)))
  {
    hide FirstResource, ByIdDict;
    var resource := NoResource;
    var spans: Dict<string, Span> := Empty();
    Nothing();
    for b := 0 to |blobs|
      invariant resource == FirstResource(AllBlocks(blobs[..b]))
      invariant spans == ByIdDict(AllSpans(blobs[..b]))
    {
      assert Init(blobs[..b + 1]) == blobs[..b];
      resource, spans := AddPayload(blobs[b].contents, resource, spans, AllBlocks(blobs[..b]), AllSpans(blobs[..b]));
    }
    assert blobs[..|blobs|] == blobs;
    r := Assembled(resource, spans);
  }

  lemma Nothing()
    ensures FirstResource([]) == NoResource && ByIdDict([]) == Empty()
  {
  }

  /** The three inner loops of `assemble`: one fragment's blocks, scopes and spans. */
  method AddPayload(payload: Payload, resource: Resource, spans: Dict<string, Span>,
                    ghost blocks: Payload, ghost before: seq<Span>)
    returns (resource': Resource, spans': Dict<string, Span>)
    requires resource == FirstResource(blocks) && spans == ByIdDict(before)
    ensures resource' == FirstResource(blocks + payload) && spans' == ByIdDict(before + OfPayload(payload))
  {
    hide FirstResource, ByIdDict;
    resource', spans' := resource, spans;
    assert blocks + payload[..0] == blocks && before + OfPayload(payload[..0]) == before;
    for i := 0 to |payload|
      invariant resource' == FirstResource(blocks + payload[..i])
      invariant spans' == ByIdDict(before + OfPayload(payload[..i]))
    {
      var rs := payload[i];
      ghost var sofar := before + OfPayload(payload[..i]);
      assert Init(payload[..i + 1]) == payload[..i];
      assert blocks + payload[..i + 1] == blocks + payload[..i] + [rs];
      ResourceStep(blocks + payload[..i], rs);
      resource' := if resource' != NoResource then resource' else rs.resource;
      assert sofar + Concat(rs.scopes[..0]) == sofar;
      for j := 0 to |rs.scopes|
        invariant spans' == ByIdDict(sofar + Concat(rs.scopes[..j]))
      {
        ghost var done := sofar + Concat(rs.scopes[..j]);
        assert Init(rs.scopes[..j + 1]) == rs.scopes[..j];
        assert done + rs.scopes[j][..0] == done;
        for k := 0 to |rs.scopes[j]|
          invariant spans' == ByIdDict(done + rs.scopes[j][..k])
        {
          var span := rs.scopes[j][k];
          assert done + rs.scopes[j][..k + 1] == done + rs.scopes[j][..k] + [span];
          ByIdStep(done + rs.scopes[j][..k], span);
          spans' := spans'.Set(span.spanId, span);
        }
        assert done + rs.scopes[j][..|rs.scopes[j]|] == sofar + Concat(rs.scopes[..j + 1]);
      }
      assert rs.scopes[..|rs.scopes|] == rs.scopes;
      assert sofar + Concat(rs.scopes) == before + OfPayload(payload[..i + 1]);
    }
    assert payload[..|payload|] == payload;
  }

  // ---------------------------------------------------------------- what the assembled call holds

  ghost predicate LastOf(spans: seq<Span>, i: int) {
    0 <= i < |spans| && forall j :: i < j < |spans| ==> spans[j].spanId != spans[i].spanId
  }

  /** `d` has pairwise distinct ids, exactly the ids of `spans`, each with its last body. */
  ghost predicate Holds(d: Dict<string, Span>, spans: seq<Span>) {
    && d.Valid()
    && (forall i :: 0 <= i < |spans| ==> spans[i].spanId in d.vals)
    && (forall id :: id in d.vals ==> exists i :: LastOf(spans, i) && spans[i].spanId == id && d.vals[id] == spans[i])
  }

  lemma {:induction false} AssembledExactly(spans: seq<Span>)
    ensures Holds(ByIdDict(spans), spans)
  {
    if spans != [] {
      AssembledExactly(Init(spans));
      HoldsStep(ByIdDict(Init(spans)), spans);
    }
  }

  lemma HoldsStep(d: Dict<string, Span>, spans: seq<Span>)
    requires spans != [] && Holds(d, Init(spans))
    ensures Holds(d.Set(Last(spans).spanId, Last(spans)), spans)
  {
    var p, s := Init(spans), Last(spans);
    var d' := d.Set(s.spanId, s);
    assert forall i :: 0 <= i < |p| ==> spans[i] == p[i];
    forall id | id in d'.vals
      ensures exists i :: LastOf(spans, i) && spans[i].spanId == id && d'.vals[id] == spans[i]
    {
      if id == s.spanId {
        assert LastOf(spans, |spans| - 1);
      } else {
        var i :| LastOf(p, i) && p[i].spanId == id && d.vals[id] == p[i];
        assert LastOf(spans, i);
      }
    }
  }

  /** Later fragments override earlier ones, span by span. */
  lemma {:induction false} LaterOverrides(xs: seq<Span>, ys: seq<Span>)
    ensures ByIdDict(xs + ys).vals == ByIdDict(xs).vals + ByIdDict(ys).vals
  {
    if ys == [] {
      assert xs + ys == xs;
    } else {
      assert Init(xs + ys) == xs + Init(ys) && Last(xs + ys) == Last(ys);
      LaterOverrides(xs, Init(ys));
    }
  }

  ghost predicate SameBodies(spans: seq<Span>) {
    forall i, j :: 0 <= i < |spans| && 0 <= j < |spans| && spans[i].spanId == spans[j].spanId ==> spans[i] == spans[j]
  }

  lemma HeldIn(d: Dict<string, Span>, xs: seq<Span>, e: Dict<string, Span>, ys: seq<Span>, id: string)
    requires Holds(d, xs) && Holds(e, ys) && SameBodies(xs) && (forall s :: s in xs <==> s in ys)
    requires id in d.vals
    ensures id in e.vals && d.vals[id] == e.vals[id]
  {
    var i :| LastOf(xs, i) && xs[i].spanId == id && d.vals[id] == xs[i];
    assert xs[i] in ys;
    var j :| 0 <= j < |ys| && ys[j] == xs[i];
    var k :| LastOf(ys, k) && ys[k].spanId == id && e.vals[id] == ys[k];
    assert ys[k] in xs;
  }

  lemma AllHeldIn(d: Dict<string, Span>, xs: seq<Span>, e: Dict<string, Span>, ys: seq<Span>)
    requires Holds(d, xs) && Holds(e, ys) && SameBodies(xs) && forall s :: s in xs <==> s in ys
    ensures forall id :: id in d.vals ==> id in e.vals && d.vals[id] == e.vals[id]
  {
    hide *;
    forall id | id in d.vals
      ensures id in e.vals && d.vals[id] == e.vals[id]
    {
      HeldIn(d, xs, e, ys, id);
    }
  }

  lemma SameMaps(a: map<string, Span>, b: map<string, Span>)
    requires forall id :: id in a ==> id in b && a[id] == b[id]
    requires forall id :: id in b ==> id in a && a[id] == b[id]
    ensures a == b
  {
  }

  /** When equal ids carry equal bodies the fragment order does not matter. */
  lemma OrderIndependent(xs: seq<Span>, ys: seq<Span>)
    requires SameBodies(xs) && forall s :: s in xs <==> s in ys
    ensures ByIdDict(xs).vals == ByIdDict(ys).vals
  {
    hide *;
    AssembledExactly(xs);
    AssembledExactly(ys);
    SameBodiesCarry(xs, ys);
    AllHeldIn(ByIdDict(xs), xs, ByIdDict(ys), ys);
    AllHeldIn(ByIdDict(ys), ys, ByIdDict(xs), xs);
    SameMaps(ByIdDict(xs).vals, ByIdDict(ys).vals);
  }

  lemma SameBodiesCarry(xs: seq<Span>, ys: seq<Span>)
    requires SameBodies(xs) && forall s :: s in xs <==> s in ys
    ensures SameBodies(ys)
  {
    forall i, j | 0 <= i < |ys| && 0 <= j < |ys| && ys[i].spanId == ys[j].spanId
      ensures ys[i] == ys[j]
    {
      assert ys[i] in xs && ys[j] in xs;
    }
  }

  function MovedLast(xs: seq<Span>, i: nat): seq<Span>
    requires i < |xs|
  {
    xs[..i] + xs[i + 1..] + [xs[i]]
  }

  lemma MovedLastWins(xs: seq<Span>, i: nat)
    requires i < |xs|
    ensures multiset(MovedLast(xs, i)) == multiset(xs)
    ensures var d := ByIdDict(MovedLast(xs, i)).vals; xs[i].spanId in d && d[xs[i].spanId] == xs[i]
  {
    assert xs == xs[..i] + [xs[i]] + xs[i + 1..];
    ByIdStep(xs[..i] + xs[i + 1..], xs[i]);
  }

  lemma SameMembers(xs: seq<Span>, ys: seq<Span>)
    requires multiset(xs) == multiset(ys)
    ensures forall s :: s in xs <==> s in ys
  {
    forall s
      ensures s in xs <==> s in ys
    {
      assert s in xs <==> s in multiset(xs);
      assert s in ys <==> s in multiset(ys);
    }
  }

  /** The order of the spans does not matter if and only if equal ids carry equal bodies. */
  lemma OrderIndependentIff(xs: seq<Span>)
    ensures (forall ys :: multiset(ys) == multiset(xs) ==> ByIdDict(ys).vals == ByIdDict(xs).vals) <==> SameBodies(xs)
  {
    hide ByIdDict;
    if SameBodies(xs) {
      forall ys | multiset(ys) == multiset(xs)
        ensures ByIdDict(ys).vals == ByIdDict(xs).vals
      {
        SameMembers(xs, ys);
        OrderIndependent(xs, ys);
      }
    } else {
      var i, j :| 0 <= i < |xs| && 0 <= j < |xs| && xs[i].spanId == xs[j].spanId && xs[i] != xs[j];
      MovedLastWins(xs, i);
      MovedLastWins(xs, j);
      assert ByIdDict(MovedLast(xs, i)).vals != ByIdDict(MovedLast(xs, j)).vals;
    }
  }

  lemma OfSlice(resource: Resource, spans: seq<Span>)
    ensures OfPayload(Slice(resource, spans).contents) == spans
  {
    var block := ResourceSpans(resource, [spans]);
    assert Init([block]) == [] && Init([spans]) == [];
    assert Concat([spans]) == Concat([]) + spans == spans;
    assert OfPayload([block]) == OfPayload([]) + spans == spans;
  }

  lemma {:induction false} SpansOfSlices(slices: seq<(Resource, seq<Span>)>)
    ensures AllSpans(Blobs(slices)) == Concat(SpanLists(slices))
  {
    if slices != [] {
      SpansOfSlices(Init(slices));
      assert Init(Blobs(slices)) == Blobs(Init(slices));
      assert Init(SpanLists(slices)) == SpanLists(Init(slices));
      OfSlice(Last(slices).0, Last(slices).1);
    }
  }

  function Blobs(slices: seq<(Resource, seq<Span>)>): seq<Blob> {
    seq(|slices|, i requires 0 <= i < |slices| => Slice(slices[i].0, slices[i].1))
  }

  function SpanLists(slices: seq<(Resource, seq<Span>)>): seq<seq<Span>> {
    seq(|slices|, i requires 0 <= i < |slices| => slices[i].1)
  }

  /** Produce, archive and assemble round trip: the call comes back as the spans its records carried,
      each id with its last body in fragment order. */
  lemma RoundTrip(slices: seq<(Resource, seq<Span>)>, i: int)
    requires LastOf(Concat(SpanLists(slices)), i)
    ensures var sent := Concat(SpanLists(slices)); var got := ByIdDict(AllSpans(Blobs(slices)));
      && Holds(got, sent)
      && sent[i].spanId in got.vals && got.vals[sent[i].spanId] == sent[i]
  {
    var sent := Concat(SpanLists(slices));
    SpansOfSlices(slices);
    AssembledExactly(sent);
  }
}
