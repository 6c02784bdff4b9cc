/** Sharding an OTLP payload into one record per call, in Python and in Go. */
module Shard {
  import opened Options
  import opened Seqs
  import opened Dicts
  import opened Sorting
  import opened Otlp

  datatype Item = Item(resource: Resource, span: Span)

  function Items(resource: Resource, spans: seq<Span>): seq<Item> {
    seq(|spans|, i requires 0 <= i < |spans| => Item(resource, spans[i]))
  }

  /** The payload's spans in wire order, each with its resource. */
  function Flatten(payload: Payload): seq<Item> {
    if payload == [] then []
    else Flatten(Init(payload)) + Items(Last(payload).resource, Concat(Last(payload).scopes))
  }

  /** Where a span stands in a payload: its block, its scope there, its place in the scope. */
  datatype Place = Place(block: nat, scope: nat, n: nat)

  predicate Present(p: Payload, x: Place) {
    x.block < |p| && x.scope < |p[x.block].scopes| && x.n < |p[x.block].scopes[x.scope]|
  }

  function ItemAt(p: Payload, x: Place): Item
    requires Present(p, x)
  {
    Item(p[x.block].resource, p[x.block].scopes[x.scope][x.n])
  }

  predicate Precedes(x: Place, y: Place) {
    x.block < y.block || (x.block == y.block && (x.scope < y.scope || (x.scope == y.scope && x.n < y.n)))
  }

  ghost predicate Ascending(at: seq<Place>) {
    forall i, j :: 0 <= i < j < |at| ==> Precedes(at[i], at[j])
  }

  lemma {:induction false} ConcatPlaces(scopes: seq<seq<Span>>, block: nat) returns (at: seq<Place>)
    ensures |at| == |Concat(scopes)| && Ascending(at)
    ensures forall i :: 0 <= i < |at| ==>
      at[i].block == block && at[i].scope < |scopes| && at[i].n < |scopes[at[i].scope]|
    ensures forall i :: 0 <= i < |at| ==> Concat(scopes)[i] == scopes[at[i].scope][at[i].n]
    ensures forall x: Place :: x.block == block && x.scope < |scopes| && x.n < |scopes[x.scope]| ==> x in at
  {
    at := [];
    if scopes != [] {
      var before := ConcatPlaces(Init(scopes), block);
      var own := seq(|Last(scopes)|, n requires 0 <= n < |Last(scopes)| => Place(block, |scopes| - 1, n));
      at := before + own;
      assert Concat(scopes) == Concat(Init(scopes)) + Last(scopes);
      forall x: Place | x.block == block && x.scope < |scopes| && x.n < |scopes[x.scope]|
        ensures x in at
      {
        if x.scope == |scopes| - 1 {
          assert own[x.n] == x;
        } else {
          assert x in before;
        }
      }
    }
  }

  ghost predicate ReadAt(p: Payload, items: seq<Item>, at: seq<Place>) {
    |at| == |items| && forall i :: 0 <= i < |at| ==> Present(p, at[i]) && items[i] == ItemAt(p, at[i])
  }

  lemma ReadLonger(p: Payload, rs: ResourceSpans, items: seq<Item>, at: seq<Place>)
    requires ReadAt(p, items, at)
    ensures ReadAt(p + [rs], items, at) && forall i :: 0 <= i < |at| ==> at[i].block < |p|
  {
  }

  lemma ReadBlock(p: Payload, rs: ResourceSpans) returns (at: seq<Place>)
    ensures ReadAt(p + [rs], Items(rs.resource, Concat(rs.scopes)), at) && Ascending(at)
    ensures forall i :: 0 <= i < |at| ==> at[i].block == |p|
    ensures forall x :: Present(p + [rs], x) && x.block == |p| ==> x in at
  {
    at := ConcatPlaces(rs.scopes, |p|);
    hide Concat, Ascending;
    assert (p + [rs])[|p|] == rs;
  }

  /** The items are the spans of the payload in wire order, each once and with its own block's resource. */
  lemma {:induction false} FlattenIs(p: Payload) returns (at: seq<Place>)
    ensures ReadAt(p, Flatten(p), at) && Ascending(at)
    ensures forall x :: Present(p, x) ==> x in at
  {
    at := [];
    if p != [] {
      var init, rs := Init(p), Last(p);
      var before := FlattenIs(init);
      ReadLonger(init, rs, Flatten(init), before);
      var own := ReadBlock(init, rs);
      assert p == init + [rs];
      at := before + own;
      JoinRead(p, Flatten(init), Items(rs.resource, Concat(rs.scopes)), before, own);
      JoinAscending(before, own, |init|);
      hide ReadAt, Ascending, Items, Concat;
      AllBefore(init, rs, before);
    }
  }

  lemma AllBefore(p: Payload, rs: ResourceSpans, at: seq<Place>)
    requires forall x :: Present(p, x) ==> x in at
    ensures forall x :: Present(p + [rs], x) && x.block < |p| ==> x in at
  {
    assert forall x :: Present(p + [rs], x) && x.block < |p| ==> Present(p, x);
  }

  lemma JoinRead(p: Payload, a: seq<Item>, b: seq<Item>, at: seq<Place>, bt: seq<Place>)
    requires ReadAt(p, a, at) && ReadAt(p, b, bt)
    ensures ReadAt(p, a + b, at + bt)
  {
  }

  lemma JoinAscending(before: seq<Place>, own: seq<Place>, block: nat)
    requires Ascending(before) && Ascending(own)
    requires (forall i :: 0 <= i < |before| ==> before[i].block < block)
    requires (forall i :: 0 <= i < |own| ==> own[i].block == block)
    ensures Ascending(before + own)
  {
  }

  datatype Group = Group(resource: Resource, spans: seq<Span>)

  type Groups = Dict<string, Group>

  /** `setdefault(key, (resource, []))[1].append(span)` */
  function Append(gs: Groups, key: string, item: Item): Groups {
    if key in gs.vals then gs.Set(key, Group(gs.vals[key].resource, gs.vals[key].spans + [item.span]))
    else gs.Set(key, Group(item.resource, [item.span]))
  }

  function GroupBy(keyOf: Span -> string, items: seq<Item>): Groups {
    if items == [] then Empty() else Append(GroupBy(keyOf, Init(items)), keyOf(Last(items).span), Last(items))
  }

  lemma {:induction false} GroupByConcat(keyOf: Span -> string, a: seq<Item>, item: Item)
    ensures GroupBy(keyOf, a + [item]) == Append(GroupBy(keyOf, a), keyOf(item.span), item)
  {
    assert Init(a + [item]) == a;
  }

  lemma ItemsStep(resource: Resource, before: seq<Item>, done: seq<Span>, more: seq<Span>, k: nat)
    requires k < |more|
    ensures before + Items(resource, done + more[..k + 1])
         == before + Items(resource, done + more[..k]) + [Item(resource, more[k])]
  {
  }

  /** `shard` of the Python service. */
  method ShardPayload(payload: Payload) returns (out: Groups)
    ensures out == GroupBy(PyKey, Flatten(payload))
  {
    out := Empty();
    for i := 0 to |payload|
      invariant out == GroupBy(PyKey, Flatten(payload[..i]))
    {
      var rs := payload[i];
      ghost var before := Flatten(payload[..i]);
      assert Init(payload[..i + 1]) == payload[..i];
      assert before + Items(rs.resource, Concat([])) == before;
      for j := 0 to |rs.scopes|
        invariant out == GroupBy(PyKey, before + Items(rs.resource, Concat(rs.scopes[..j])))
      {
        var spans := rs.scopes[j];
        ghost var done := Concat(rs.scopes[..j]);
        assert Init(rs.scopes[..j + 1]) == rs.scopes[..j];
        assert done + spans[..0] == done;
        for k := 0 to |spans|
          invariant out == GroupBy(PyKey, before + Items(rs.resource, done + spans[..k]))
        {
          ItemsStep(rs.resource, before, done, spans, k);
          GroupByConcat(PyKey, before + Items(rs.resource, done + spans[..k]), Item(rs.resource, spans[k]));
          out := Append(out, PyKey(spans[k]), Item(rs.resource, spans[k]));
        }
        assert spans[..|spans|] == spans;
      }
      assert rs.scopes[..|rs.scopes|] == rs.scopes;
    }
    assert payload[..|payload|] == payload;
  }

  // ---------------------------------------------------------------- a stable group-by

  function KeysOf(keyOf: Span -> string, items: seq<Item>): seq<string> {
    seq(|items|, i requires 0 <= i < |items| => keyOf(items[i].span))
  }

  /** The distinct keys in the order they are first seen. */
  function FirstSeen(keys: seq<string>): seq<string> {
    if keys == [] then []
    else FirstSeen(Init(keys)) + if Last(keys) in Init(keys) then [] else [Last(keys)]
  }

  /** The items of one key, in wire order. */
  function OfKey(keyOf: Span -> string, items: seq<Item>, key: string): seq<Item> {
    if items == [] then []
    else OfKey(keyOf, Init(items), key) + if keyOf(Last(items).span) == key then [Last(items)] else []
  }

  function Spans(items: seq<Item>): seq<Span> {
    seq(|items|, i requires 0 <= i < |items| => items[i].span)
  }

  predicate IsFirstOf(keys: seq<string>, i: int) {
    0 <= i < |keys| && forall j :: 0 <= j < i ==> keys[j] != keys[i]
  }

  ghost predicate FirstOnes(keys: seq<string>, at: seq<nat>) {
    && (forall k, l :: 0 <= k < l < |at| ==> at[k] < at[l])
    && (forall k :: 0 <= k < |at| ==> IsFirstOf(keys, at[k]))
    && (forall i :: IsFirstOf(keys, i) ==> i in at)
  }

  /** One key for each position at which a key occurs for the first time, in that order. */
  lemma {:induction false} FirstSeenIs(keys: seq<string>) returns (at: seq<nat>)
    ensures FirstOnes(keys, at) && ReadsOff(keys, FirstSeen(keys), at)
  {
    at := [];
    if keys != [] {
      var init, key := Init(keys), Last(keys);
      at := FirstSeenIs(init);
      assert keys == init + [key];
      FirstOnesMore(init, key, at);
      ReadsOffMore(init, key, FirstSeen(init), at);
      hide FirstOnes, ReadsOff;
      if key !in init {
        at := at + [|init|];
      }
    }
  }

  ghost predicate ReadsOff(keys: seq<string>, out: seq<string>, at: seq<nat>) {
    |at| == |out| && forall k :: 0 <= k < |at| ==> at[k] < |keys| && out[k] == keys[at[k]]
  }

  lemma ReadsOffMore(init: seq<string>, key: string, out: seq<string>, at: seq<nat>)
    requires ReadsOff(init, out, at)
    ensures ReadsOff(init + [key], out, at) && ReadsOff(init + [key], out + [key], at + [|init|])
  {
  }

  lemma FirstOnesMore(init: seq<string>, key: string, at: seq<nat>)
    requires FirstOnes(init, at)
    ensures FirstOnes(init + [key], if key in init then at else at + [|init|])
  {
    var keys := init + [key];
    FirstOfMore(init, key);
    hide IsFirstOf;
    assert forall k :: 0 <= k < |at| ==> IsFirstOf(init, at[k]);
  }

  lemma FirstOfMore(init: seq<string>, key: string)
    ensures forall i :: IsFirstOf(init, i) ==> 0 <= i < |init|
    ensures forall i :: IsFirstOf(init + [key], i) <==> IsFirstOf(init, i) || (i == |init| && key !in init)
  {
    var keys := init + [key];
    assert forall i :: 0 <= i < |init| ==> keys[i] == init[i];
    if key !in init {
      assert IsFirstOf(keys, |init|);
    } else {
      var j :| 0 <= j < |init| && init[j] == key;
      assert keys[j] == keys[|init|];
    }
  }

  function HasKey(keyOf: Span -> string, key: string): Item -> bool {
    (x: Item) => keyOf(x.span) == key
  }

  lemma {:induction false} OfKeyFilters(keyOf: Span -> string, items: seq<Item>, key: string)
    ensures OfKey(keyOf, items, key) == Filter(items, HasKey(keyOf, key))
  {
    if items != [] {
      OfKeyFilters(keyOf, Init(items), key);
      FilterAppend(Init(items), [Last(items)], HasKey(keyOf, key));
      assert items == Init(items) + [Last(items)];
      assert Filter([Last(items)], HasKey(keyOf, key)) == Only(Last(items), HasKey(keyOf, key));
    }
  }

  /** The items of a key are those whose span has it, in their order. */
  lemma OfKeyPicks(keyOf: Span -> string, items: seq<Item>, key: string)
    ensures KeptInOrder(items, OfKey(keyOf, items, key), HasKey(keyOf, key))
  {
    OfKeyFilters(keyOf, items, key);
    FilterKeeps(items, HasKey(keyOf, key));
  }

  lemma {:induction false} OfKeyEmptyIff(keyOf: Span -> string, items: seq<Item>, key: string)
    ensures OfKey(keyOf, items, key) == [] <==> key !in KeysOf(keyOf, items)
  {
    if items != [] {
      OfKeyEmptyIff(keyOf, Init(items), key);
      assert KeysOf(keyOf, items) == KeysOf(keyOf, Init(items)) + [keyOf(Last(items).span)];
    }
  }

  ghost predicate GroupedExactly(keyOf: Span -> string, items: seq<Item>, gs: Groups) {
    && gs.Valid()
    && gs.keys == FirstSeen(KeysOf(keyOf, items))
    && (forall key :: key in gs.vals <==> key in KeysOf(keyOf, items))
    && (forall key :: key in gs.vals ==> OwnGroup(keyOf, items, key, gs.vals[key]))
  }

  /** For every payload and every key function: distinct keys in first-seen order, each group the
      subsequence of its spans under the resource that introduced it, nothing lost or duplicated. */
  lemma {:induction false} GroupByExact(keyOf: Span -> string, items: seq<Item>)
    ensures GroupedExactly(keyOf, items, GroupBy(keyOf, items))
  {
    if items == [] {
      assert GroupBy(keyOf, items) == Empty<string, Group>();
    } else {
      GroupByExact(keyOf, Init(items));
      AppendExact(keyOf, items, GroupBy(keyOf, Init(items)));
    }
  }

  ghost predicate OwnGroup(keyOf: Span -> string, items: seq<Item>, key: string, g: Group) {
    var own := OfKey(keyOf, items, key);
    own != [] && g == Group(own[0].resource, Spans(own))
  }

  lemma AppendExact(keyOf: Span -> string, items: seq<Item>, gs: Groups)
    requires items != [] && GroupedExactly(keyOf, Init(items), gs)
    ensures GroupedExactly(keyOf, items, Append(gs, keyOf(Last(items).span), Last(items)))
  {
    hide OwnGroup, KeysOf, FirstSeen, Append;
    AppendKeys(keyOf, items, gs);
    forall key | key in gs.vals || key == keyOf(Last(items).span)
      ensures OwnGroup(keyOf, items, key, Append(gs, keyOf(Last(items).span), Last(items)).vals[key])
    {
      AppendGroup(keyOf, items, gs, key);
    }
  }

  lemma AppendKeys(keyOf: Span -> string, items: seq<Item>, gs: Groups)
    requires items != [] && GroupedExactly(keyOf, Init(items), gs)
    ensures var k := keyOf(Last(items).span); var gs' := Append(gs, k, Last(items));
      && gs'.Valid() && gs'.keys == FirstSeen(KeysOf(keyOf, items))
      && gs'.vals.Keys == gs.vals.Keys + {k}
      && (forall key :: key in KeysOf(keyOf, items) <==> key in KeysOf(keyOf, Init(items)) || key == k)
  {
    hide OwnGroup;
    assert KeysOf(keyOf, items) == KeysOf(keyOf, Init(items)) + [keyOf(Last(items).span)];
    assert Init(KeysOf(keyOf, items)) == KeysOf(keyOf, Init(items));
  }

  lemma AppendGroup(keyOf: Span -> string, items: seq<Item>, gs: Groups, key: string)
    requires items != [] && GroupedExactly(keyOf, Init(items), gs)
    requires key in gs.vals || key == keyOf(Last(items).span)
    ensures var k := keyOf(Last(items).span); var gs' := Append(gs, k, Last(items));
      key in gs'.vals && OwnGroup(keyOf, items, key, gs'.vals[key])
  {
    var p, item := Init(items), Last(items);
    var gs' := Append(gs, keyOf(item.span), item);
    OfKeyEmptyIff(keyOf, p, key);
    AppendOwn(keyOf, items, key, if key in gs.vals then gs.vals[key] else gs'.vals[key]);
    assert key in gs.vals ==> OwnGroup(keyOf, p, key, gs.vals[key]);
    hide OwnGroup, KeysOf, FirstSeen, OfKey;
  }

  lemma AppendOwn(keyOf: Span -> string, items: seq<Item>, key: string, g: Group)
    requires items != []
    ensures var p, item := Init(items), Last(items);
      && (OwnGroup(keyOf, p, key, g) && keyOf(item.span) != key ==> OwnGroup(keyOf, items, key, g))
      && (OwnGroup(keyOf, p, key, g) && keyOf(item.span) == key ==>
            OwnGroup(keyOf, items, key, Group(g.resource, g.spans + [item.span])))
      && (OfKey(keyOf, p, key) == [] && keyOf(item.span) == key ==>
            OwnGroup(keyOf, items, key, Group(item.resource, [item.span])))
  {
    var was, item := OfKey(keyOf, Init(items), key), Last(items);
    assert Spans(was + [item]) == Spans(was) + [item.span] && was + [] == was;
  }

  // ---------------------------------------------------------------- producing records

  datatype Record = Record(key: string, value: Blob, org: string, agent: string, shardKey: string,
                           traceId: string, batchId: string, seqNo: nat)

  function RecordOf(key: string, g: Group, org: string, agent: string, batchId: string, n: nat): Record {
    var traceId := FirstTraceId(g.spans);
    Record(FirstNonEmpty(key, traceId, batchId), Slice(g.resource, g.spans), org, agent, key, traceId, batchId, n)
  }

  function Records(gs: Groups, org: string, agent: string, batchId: string): seq<Record>
    requires gs.Valid()
  {
    seq(|gs.keys|, n requires 0 <= n < |gs.keys| =>
      assert gs.keys[n] in gs.keys;
      RecordOf(gs.keys[n], gs.vals[gs.keys[n]], org, agent, batchId, n))
  }

  /** What a record says of itself: it is the n-th, of the n-th key, for the caller, agent and batch it was made for; its
      trace id is that of its first span that has one; and it is sent under its key, or without one under its trace id,
      or without that under its batch. */
  lemma RecordHeaders(gs: Groups, org: string, agent: string, batchId: string, n: nat)
    requires gs.Valid() && n < |gs.keys|
    ensures gs.keys[n] in gs.vals && |Records(gs, org, agent, batchId)| == |gs.keys|
    ensures var x := Records(gs, org, agent, batchId)[n]; var spans := gs.vals[gs.keys[n]].spans;
      && x.org == org && x.agent == agent && x.batchId == batchId && x.seqNo == n && x.shardKey == gs.keys[n]
      && (x.shardKey != "" ==> x.key == x.shardKey)
      && (x.shardKey == "" && x.traceId != "" ==> x.key == x.traceId)
      && (x.shardKey == "" && x.traceId == "" ==> x.key == batchId)
      && (forall k :: FirstTraced(spans, k) ==> x.traceId == spans[k].traceId)
      && ((forall k :: 0 <= k < |spans| ==> spans[k].traceId == "") ==> x.traceId == "")
  {
    assert gs.keys[n] in gs.keys;
    FirstTraceIs(gs.vals[gs.keys[n]].spans);
    hide FirstTraceId;
  }

  lemma GroupsNonEmpty(keyOf: Span -> string, items: seq<Item>)
    ensures GroupBy(keyOf, items).Valid()
    ensures forall key :: key in GroupBy(keyOf, items).vals ==> GroupBy(keyOf, items).vals[key].spans != []
  {
    GroupByExact(keyOf, items);
  }

  /** `produce`. The guard for an empty group never fires: a key is only set with a span. */
  method Produce(payload: Payload, org: string, agent: string, batchId: string) returns (sent: seq<Record>)
    ensures GroupBy(PyKey, Flatten(payload)).Valid()
    ensures sent == Records(GroupBy(PyKey, Flatten(payload)), org, agent, batchId)
  {
    var gs := ShardPayload(payload);
    GroupsNonEmpty(PyKey, Flatten(payload));
    hide GroupBy, Flatten;
    sent := [];
    for n := 0 to |gs.keys|
      invariant sent == Records(gs, org, agent, batchId)[..n]
    {
      var key := gs.keys[n];
      assert key in gs.keys;
      var g := gs.vals[key];
      if g.spans == [] {
        assert false;
      }
      sent := sent + [RecordOf(key, g, org, agent, batchId, n)];
    }
  }

  /** Decoding a record gives back the call's spans of the batch, in wire order. */
  lemma RecordCarriesItsSpans(payload: Payload, org: string, agent: string, batchId: string, n: nat)
    requires GroupBy(PyKey, Flatten(payload)).Valid()
    requires n < |Records(GroupBy(PyKey, Flatten(payload)), org, agent, batchId)|
    ensures var r := Records(GroupBy(PyKey, Flatten(payload)), org, agent, batchId)[n];
      var keys, own := FirstSeen(KeysOf(PyKey, Flatten(payload))), OfKey(PyKey, Flatten(payload), r.shardKey);
      && r.seqNo == n < |keys| && r.shardKey == keys[n]
      && own != [] && Decode(r.value) == (own[0].resource, Spans(own))
  {
    var items := Flatten(payload);
    GroupByExact(PyKey, items);
    var gs := GroupBy(PyKey, items);
    var key := gs.keys[n];
    assert key in gs.keys;
    DecodeSlice(gs.vals[key].resource, gs.vals[key].spans);
  }

  // ---------------------------------------------------------------- the Go service

  class ShardGroup {
    const key: string
    const resource: Resource
    var spans: seq<Span>

    constructor (key: string, resource: Resource)
      ensures this.key == key && this.resource == resource && spans == []
    {
      this.key, this.resource, spans := key, resource, [];
    }
  }

  ghost predicate Mirrors(order: seq<string>, byKey: map<string, ShardGroup>, gs: Groups)
    reads byKey.Values
  {
    && gs.Valid() && order == gs.keys && byKey.Keys == gs.vals.Keys
    && forall k :: k in byKey ==> byKey[k].key == k && gs.vals[k] == Group(byKey[k].resource, byKey[k].spans)
  }

  /** One span into the map of group pointers: `g := byKey[key]; if g == nil ...; append`. */
  method AppendSpan(order: seq<string>, byKey: map<string, ShardGroup>, item: Item, ghost gs: Groups)
    returns (order': seq<string>, byKey': map<string, ShardGroup>)
    requires Mirrors(order, byKey, gs)
    modifies byKey.Values
    ensures Mirrors(order', byKey', Append(gs, GoKey(item.span), item))
    ensures fresh(byKey'.Values - byKey.Values)
  {
    order', byKey' := order, byKey;
    var key := GoKey(item.span);
    if key !in byKey {
      var g := new ShardGroup(key, item.resource);
      byKey' := byKey[key := g];
      order' := order + [key];
    }
    var g := byKey'[key];
    assert g in byKey'.Values;
    g.spans := g.spans + [item.span];
  }

  datatype GoGroup = GoGroup(key: string, resource: Resource, spans: seq<Span>)

  function Listed(gs: Groups): seq<GoGroup>
    requires gs.Valid()
  {
    seq(|gs.keys|, n requires 0 <= n < |gs.keys| =>
      assert gs.keys[n] in gs.keys;
      GoGroup(gs.keys[n], gs.vals[gs.keys[n]].resource, gs.vals[gs.keys[n]].spans))
  }

  lemma MirrorsNothing()
    ensures Mirrors([], map[], Empty())
  {
  }

  /** `shard` of the Go service: a map of pointers plus the order of the keys. */
  method GoShard(payload: Payload) returns (out: seq<GoGroup>)
    ensures GroupBy(GoKey, Flatten(payload)).Valid()
    ensures out == Listed(GroupBy(GoKey, Flatten(payload)))
  {
    MirrorsNothing();
    hide Mirrors, Listed;
    var order: seq<string> := [];
    var byKey: map<string, ShardGroup> := map[];
    for i := 0 to |payload|
      invariant fresh(byKey.Values)
      invariant Mirrors(order, byKey, GroupBy(GoKey, Flatten(payload[..i])))
    {
      assert Init(payload[..i + 1]) == payload[..i];
      order, byKey := AddBlock(payload[i], order, byKey, Flatten(payload[..i]));
    }
    assert payload[..|payload|] == payload;
    out := Collect(order, byKey, GroupBy(GoKey, Flatten(payload)));
  }

  /** The two inner loops: one resource block's scopes and spans. */
  method AddBlock(rs: ResourceSpans, order: seq<string>, byKey: map<string, ShardGroup>, ghost before: seq<Item>)
    returns (order': seq<string>, byKey': map<string, ShardGroup>)
    requires Mirrors(order, byKey, GroupBy(GoKey, before))
    modifies byKey.Values
    ensures Mirrors(order', byKey', GroupBy(GoKey, before + Items(rs.resource, Concat(rs.scopes))))
    ensures fresh(byKey'.Values - byKey.Values)
  {
    hide Mirrors, GroupBy, Append, GoKey;
    order', byKey' := order, byKey;
    assert before + Items(rs.resource, Concat(rs.scopes[..0])) == before;
    for j := 0 to |rs.scopes|
      invariant fresh(byKey'.Values - byKey.Values)
      invariant Mirrors(order', byKey', GroupBy(GoKey, before + Items(rs.resource, Concat(rs.scopes[..j]))))
    {
      var spans := rs.scopes[j];
      ghost var done := Concat(rs.scopes[..j]);
      assert Init(rs.scopes[..j + 1]) == rs.scopes[..j];
      assert done + spans[..0] == done;
      for k := 0 to |spans|
        invariant fresh(byKey'.Values - byKey.Values)
        invariant Mirrors(order', byKey', GroupBy(GoKey, before + Items(rs.resource, done + spans[..k])))
      {
        ghost var sofar := before + Items(rs.resource, done + spans[..k]);
        ItemsStep(rs.resource, before, done, spans, k);
        GroupByConcat(GoKey, sofar, Item(rs.resource, spans[k]));
        order', byKey' := AppendSpan(order', byKey', Item(rs.resource, spans[k]), GroupBy(GoKey, sofar));
      }
      assert spans[..|spans|] == spans;
    }
    assert rs.scopes[..|rs.scopes|] == rs.scopes;
  }

  /** The closing loop: the groups' values in the order of the keys. */
  method Collect(order: seq<string>, byKey: map<string, ShardGroup>, ghost gs: Groups) returns (out: seq<GoGroup>)
    requires Mirrors(order, byKey, gs)
    ensures gs.Valid() && out == Listed(gs)
  {
    out := [];
    for n := 0 to |order|
      invariant out == Listed(gs)[..n]
    {
      assert order[n] in gs.keys;
      var g := byKey[order[n]];
      out := out + [GoGroup(g.key, g.resource, g.spans)];
    }
  }

  /** `buildRecords`. */
  method BuildRecords(payload: Payload, org: string, agent: string, batchId: string) returns (records: seq<Record>)
    ensures GroupBy(GoKey, Flatten(payload)).Valid()
    ensures records == Records(GroupBy(GoKey, Flatten(payload)), org, agent, batchId)
  {
    var groups := GoShard(payload);
    ghost var gs := GroupBy(GoKey, Flatten(payload));
    GroupsNonEmpty(GoKey, Flatten(payload));
    hide GroupBy, Flatten;
    records := [];
    for n := 0 to |groups|
      invariant records == Records(gs, org, agent, batchId)[..n]
    {
      var g := groups[n];
      assert gs.keys[n] in gs.keys;
      if g.spans == [] {
        assert false;
      }
      records := records + [RecordOf(g.key, Group(g.resource, g.spans), org, agent, batchId, n)];
    }
  }

  // ---------------------------------------------------------------- when the two services agree

  predicate IsFirst(attrs: seq<Attr>, key: string, i: int) {
    0 <= i < |attrs| && attrs[i].key == key && forall k :: 0 <= k < i ==> attrs[k].key != key
  }

  predicate IsLast(attrs: seq<Attr>, key: string, j: int) {
    0 <= j < |attrs| && attrs[j].key == key && forall k :: j < k < |attrs| ==> attrs[k].key != key
  }

  lemma {:induction false} LastValueAt(attrs: seq<Attr>, key: string)
    ensures LastValue(attrs, key).None? ==> forall k :: 0 <= k < |attrs| ==> attrs[k].key != key
    ensures LastValue(attrs, key).Some? ==>
      exists j :: IsLast(attrs, key, j) && LastValue(attrs, key) == Some(attrs[j].value)
  {
    if attrs != [] {
      LastValueAt(Init(attrs), key);
      if Last(attrs).key == key {
        assert IsLast(attrs, key, |attrs| - 1);
      } else if LastValue(attrs, key).Some? {
        var j :| IsLast(Init(attrs), key, j) && LastValue(Init(attrs), key) == Some(Init(attrs)[j].value);
        assert IsLast(attrs, key, j);
      }
    }
  }

  lemma {:induction false} FirstValueAt(attrs: seq<Attr>, key: string)
    ensures FirstValue(attrs, key).None? ==> forall k :: 0 <= k < |attrs| ==> attrs[k].key != key
    ensures FirstValue(attrs, key).Some? ==>
      exists i :: IsFirst(attrs, key, i) && FirstValue(attrs, key) == Some(attrs[i].value)
  {
    if attrs != [] {
      FirstValueAt(attrs[1..], key);
      if attrs[0].key == key {
        assert IsFirst(attrs, key, 0);
      } else if FirstValue(attrs, key).Some? {
        var i :| IsFirst(attrs[1..], key, i) && FirstValue(attrs[1..], key) == Some(attrs[1..][i].value);
        assert forall k :: 0 < k < i + 1 ==> attrs[k] == attrs[1..][k - 1];
        assert IsFirst(attrs, key, i + 1);
      } else {
        assert forall k :: 0 < k < |attrs| ==> attrs[k] == attrs[1..][k - 1];
      }
    }
  }

  function OrTrace(text: string, s: Span): string {
    if text == "" then s.traceId else text
  }

  /** The services key a span alike if and only if Python's rendering of its last call id and Go's of its
      first, each with the trace id in place of an empty one, are the same. */
  lemma KeysAgreeIff(s: Span)
    ensures PyKey(s) == GoKey(s) <==>
      forall i, j :: IsFirst(s.attributes, CALL_ID, i) && IsLast(s.attributes, CALL_ID, j) ==>
        OrTrace(PyText(s.attributes[j].value), s) == OrTrace(GoText(s.attributes[i].value), s)
  {
    hide PyText, GoText;
    LastValueAt(s.attributes, CALL_ID);
    FirstValueAt(s.attributes, CALL_ID);
    assert forall i, j :: IsFirst(s.attributes, CALL_ID, i) && IsFirst(s.attributes, CALL_ID, j) ==> i == j;
    assert forall i, j :: IsLast(s.attributes, CALL_ID, i) && IsLast(s.attributes, CALL_ID, j) ==> i == j;
  }

  lemma {:induction false} OfKeyMembers(keyOf: Span -> string, items: seq<Item>, key: string, s: Span)
    ensures s in Spans(OfKey(keyOf, items, key)) <==>
      keyOf(s) == key && exists i :: 0 <= i < |items| && items[i].span == s
  {
    if items != [] {
      var p, item := Init(items), Last(items);
      OfKeyMembers(keyOf, p, key, s);
      var own := OfKey(keyOf, p, key);
      assert Spans(own + [item]) == Spans(own) + [item.span] && own + [] == own;
      assert (exists i :: 0 <= i < |items| && items[i].span == s) <==>
        item.span == s || exists i :: 0 <= i < |p| && p[i].span == s;
    }
  }

  predicate KeyedAlike(items: seq<Item>) {
    forall i :: 0 <= i < |items| ==> PyKey(items[i].span) == GoKey(items[i].span)
  }

  lemma {:induction false} GroupsAgree(items: seq<Item>)
    requires KeyedAlike(items)
    ensures GroupBy(PyKey, items) == GroupBy(GoKey, items)
  {
    if items != [] {
      GroupsAgree(Init(items));
    }
  }

  /** The records name their keys, and each carries the spans of its key. */
  lemma RecordsTell(keyOf: Span -> string, items: seq<Item>, org: string, agent: string, batchId: string, s: Span)
    ensures GroupBy(keyOf, items).Valid()
    ensures (exists i :: 0 <= i < |items| && items[i].span == s) <==>
      exists n :: 0 <= n < |Records(GroupBy(keyOf, items), org, agent, batchId)| &&
        Carries(Records(GroupBy(keyOf, items), org, agent, batchId)[n], keyOf(s), s)
    ensures forall n :: 0 <= n < |Records(GroupBy(keyOf, items), org, agent, batchId)| ==>
      forall key :: Carries(Records(GroupBy(keyOf, items), org, agent, batchId)[n], key, s) ==> key == keyOf(s)
  {
    GroupByExact(keyOf, items);
    var gs := GroupBy(keyOf, items);
    var records := Records(gs, org, agent, batchId);
    hide GroupBy, OfKey, Spans, FirstSeen;
    forall n, key | 0 <= n < |records| && Carries(records[n], key, s)
      ensures key == keyOf(s) && exists i :: 0 <= i < |items| && items[i].span == s
    {
      assert gs.keys[n] in gs.keys;
      assert OwnGroup(keyOf, items, key, gs.vals[key]);
      OfKeyMembers(keyOf, items, key, s);
    }
    if i :| 0 <= i < |items| && items[i].span == s {
      assert KeysOf(keyOf, items)[i] == keyOf(s);
      assert keyOf(s) in gs.keys;
      var n :| 0 <= n < |gs.keys| && gs.keys[n] == keyOf(s);
      OfKeyMembers(keyOf, items, keyOf(s), s);
      assert OwnGroup(keyOf, items, keyOf(s), gs.vals[keyOf(s)]);
      assert Carries(records[n], keyOf(s), s);
    }
  }

  /** The record of a key, with a span among those it carries. */
  predicate Carries(x: Record, key: string, s: Span) {
    x.shardKey == key && x.value.contents != [] && |x.value.contents[0].scopes| == 1 && s in x.value.contents[0].scopes[0]
  }

  /** The Go service sends the very records the Python service sends if and only if the two key every span of
      the payload alike. */
  lemma ServicesAgreeIff(payload: Payload, org: string, agent: string, batchId: string)
    ensures GroupBy(PyKey, Flatten(payload)).Valid() && GroupBy(GoKey, Flatten(payload)).Valid()
    ensures var py, go := GroupBy(PyKey, Flatten(payload)), GroupBy(GoKey, Flatten(payload));
      Records(py, org, agent, batchId) == Records(go, org, agent, batchId) <==> KeyedAlike(Flatten(payload))
  {
    var items := Flatten(payload);
    GroupByExact(PyKey, items);
    GroupByExact(GoKey, items);
    hide GroupBy, Flatten, Records, PyKey, GoKey, Carries;
    if KeyedAlike(items) {
      GroupsAgree(items);
    }
    var py := Records(GroupBy(PyKey, items), org, agent, batchId);
    var go := Records(GroupBy(GoKey, items), org, agent, batchId);
    if py == go {
      forall i | 0 <= i < |items|
        ensures PyKey(items[i].span) == GoKey(items[i].span)
      {
        var s := items[i].span;
        RecordsTell(PyKey, items, org, agent, batchId, s);
        RecordsTell(GoKey, items, org, agent, batchId, s);
        var n :| 0 <= n < |py| && Carries(py[n], PyKey(s), s);
      }
    }
  }

  /** The call id is given at most once on a span, and then as a string. */
  predicate PlainCallId(s: Span) {
    forall i :: 0 <= i < |s.attributes| && s.attributes[i].key == CALL_ID ==>
      s.attributes[i].value.StringValue?
      && forall j :: 0 <= j < |s.attributes| && s.attributes[j].key == CALL_ID ==> i == j
  }

  /** A case in which they agree. */
  lemma PlainKeysAgree(s: Span)
    requires PlainCallId(s)
    ensures PyKey(s) == GoKey(s)
  {
    hide PyKey, GoKey;
    KeysAgreeIff(s);
  }

  /** Each kind of value as the only call id of a span: text and true are keyed alike; false counts as missing for Python
      alone; of any other value Python takes the text if it finds it true, and Go takes its own. */
  lemma OneValueKeys(traceId: string, v: AnyValue)
    ensures var s := Span(traceId, "s", "", [Attr(CALL_ID, v)], 0);
      match v
      case StringValue(text) => PyKey(s) == GoKey(s) == OrTrace(text, s)
      case BoolValue(true) => PyKey(s) == GoKey(s) == "True"
      case BoolValue(false) => PyKey(s) == traceId && GoKey(s) == "False"
      case OtherValue(true, pyText, goText) => PyKey(s) == OrTrace(pyText, s) && GoKey(s) == OrTrace(goText, s)
      case OtherValue(false, _, goText) => PyKey(s) == traceId && GoKey(s) == OrTrace(goText, s)
  {
    var attrs := [Attr(CALL_ID, v)];
    assert LastValue(attrs, CALL_ID) == Some(v) && FirstValue(attrs, CALL_ID) == Some(v);
  }

  /** Two ways to disagree: a call id given twice, and a call id that is the boolean false. */
  lemma ServicesCanDisagree(traceId: string)
    requires traceId != "False" && traceId != ""
    ensures var twice := Span(traceId, "s", "", [Attr(CALL_ID, StringValue("a")), Attr(CALL_ID, StringValue("b"))], 0);
      PyKey(twice) == "b" && GoKey(twice) == "a"
    ensures var no := Span(traceId, "s", "", [Attr(CALL_ID, BoolValue(false))], 0);
      PyKey(no) == traceId && GoKey(no) == "False"
  {
  }
}
