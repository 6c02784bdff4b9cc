/** The storage poller: grouping a store listing into calls, windowing it between watermark and cutoff,
    and one agent's sweep. Times are integers. */
module Poller {
  import opened Options
  import opened Sorting
  import opened Dicts

  /** An artifact rule: its regex, as the capture it yields on an object path. */
  datatype Rule = Rule(id: int, capture: string -> Option<string>)

  datatype Listed = Listed(uri: string, modified: int)

  datatype Found = Found(items: seq<(int, string)>, newest: int)

  /** A call to process: its objects with their rules, and its newest modified time. */
  datatype Work = Work(call: string, items: seq<(int, string)>, newest: int)

  function Later(a: int, b: int): int {
    if a < b then b else a
  }

  /** The first rule that matches wins. */
  function FirstMatch(rules: seq<Rule>, uri: string): Option<(int, string)> {
    if rules == [] then None
    else if rules[0].capture(uri).Some? then Some((rules[0].id, rules[0].capture(uri).value))
    else FirstMatch(rules[1..], uri)
  }

  /** The rule and call of an object; an empty capture belongs to no call. */
  function Match(rules: seq<Rule>, uri: string): (m: Option<(int, string)>)
    ensures m.Some? ==> m.value.1 != ""
  {
    var m := FirstMatch(rules, uri);
    if m.Some? && m.value.1 != "" then m else None
  }

  /** `rules[i]` is the first rule that matches, and what it captures. */
  ghost predicate FirstRule(rules: seq<Rule>, uri: string, i: int, captured: string) {
    && 0 <= i < |rules| && rules[i].capture(uri) == Some(captured)
    && forall j :: 0 <= j < i ==> rules[j].capture(uri).None?
  }

  /** An object belongs to the call that the first rule that matches it captures, under that rule, unless the capture is
      empty; later rules are not asked. */
  lemma {:induction false} MatchIs(rules: seq<Rule>, uri: string)
    ensures forall i, captured :: FirstRule(rules, uri, i, captured) ==>
      FirstMatch(rules, uri) == Some((rules[i].id, captured))
      && Match(rules, uri) == if captured != "" then Some((rules[i].id, captured)) else None
    ensures (forall i :: 0 <= i < |rules| ==> rules[i].capture(uri).None?) ==> FirstMatch(rules, uri) == None
    ensures FirstMatch(rules, uri) == None ==> Match(rules, uri) == None
  {
    if rules != [] {
      MatchIs(rules[1..], uri);
      assert forall i :: 0 < i < |rules| ==> rules[i] == rules[1..][i - 1];
      forall i, captured | FirstRule(rules, uri, i, captured)
        ensures FirstMatch(rules, uri) == Some((rules[i].id, captured))
      {
        if i > 0 {
          assert FirstRule(rules[1..], uri, i - 1, captured);
        }
      }
    }
  }

  predicate Owns(rules: seq<Rule>, call: string, uri: string) {
    Match(rules, uri).Some? && Match(rules, uri).value.1 == call
  }

  function Seen(d: Dict<string, Found>, o: Listed, m: (int, string)): Dict<string, Found> {
    var f := if m.1 in d.vals then d.vals[m.1] else Found([], o.modified);
    d.Set(m.1, Found(f.items + [(m.0, o.uri)], Later(f.newest, o.modified)))
  }

  function SeenBy(d: Dict<string, Found>, rules: seq<Rule>, o: Listed): Dict<string, Found> {
    var m := Match(rules, o.uri);
    if m.Some? then Seen(d, o, m.value) else d
  }

  function Grouped(objects: seq<Listed>, rules: seq<Rule>): Dict<string, Found> {
    if objects == [] then Empty()
    else SeenBy(Grouped(objects[..|objects| - 1], rules), rules, objects[|objects| - 1])
  }

  predicate InWindow(newest: int, since: Option<int>, cutoff: int) {
    newest <= cutoff && (since.None? || newest > since.value)
  }

  function Works(d: Dict<string, Found>, n: nat): seq<Work>
    requires d.Valid() && n <= |d.keys|
  {
    if n == 0 then [] else Works(d, n - 1) + [WorkOf(d, n - 1)]
  }

  function WorkOf(d: Dict<string, Found>, k: nat): Work
    requires d.Valid() && k < |d.keys|
  {
    assert d.keys[k] in d.keys;
    Work(d.keys[k], d.vals[d.keys[k]].items, d.vals[d.keys[k]].newest)
  }

  function Window(ws: seq<Work>, since: Option<int>, cutoff: int): seq<Work> {
    Filter(ws, (w: Work) => InWindow(w.newest, since, cutoff))
  }

  /** `discover_manifest_windowed`. */
  function Discovered(objects: seq<Listed>, rules: seq<Rule>, since: Option<int>, cutoff: int): seq<Work> {
    var d := Grouped(objects, rules);
    GroupedValid(objects, rules);
    Window(Works(d, |d.keys|), since, cutoff)
  }

  lemma {:induction false} GroupedValid(objects: seq<Listed>, rules: seq<Rule>)
    ensures Grouped(objects, rules).Valid()
  {
    if objects != [] {
      GroupedValid(objects[..|objects| - 1], rules);
    }
  }

  method DiscoverWindowed(objects: seq<Listed>, rules: seq<Rule>, since: Option<int>, cutoff: int)
      returns (found: seq<Work>)
    ensures found == Discovered(objects, rules, since, cutoff)
  {
    var grouped: Dict<string, Found> := Empty();
    for i := 0 to |objects|
      invariant grouped == Grouped(objects[..i], rules)
    {
      var o := objects[i];
      assert objects[..i + 1][..i] == objects[..i];
      var j := 0;
      while j < |rules| && rules[j].capture(o.uri).None?
        invariant j <= |rules| && FirstMatch(rules, o.uri) == FirstMatch(rules[j..], o.uri)
      {
        j := j + 1;
      }
      if j < |rules| {
        var call := rules[j].capture(o.uri).value;
        if call != "" {
          var f := if call in grouped.vals then grouped.vals[call] else Found([], o.modified);
          grouped := grouped.Set(call, Found(f.items + [(rules[j].id, o.uri)], Later(f.newest, o.modified)));
        }
      }
    }
    assert objects[..|objects|] == objects;
    GroupedValid(objects, rules);
    found := [];
    for k := 0 to |grouped.keys|
      invariant found == Window(Works(grouped, k), since, cutoff)
    {
      var w := WorkOf(grouped, k);
      WindowAppend(Works(grouped, k), w, since, cutoff);
      if InWindow(w.newest, since, cutoff) {
        found := found + [w];
      }
    }
  }

  lemma WindowAppend(ws: seq<Work>, w: Work, since: Option<int>, cutoff: int)
    ensures Window(ws + [w], since, cutoff) ==
      if InWindow(w.newest, since, cutoff) then Window(ws, since, cutoff) + [w] else Window(ws, since, cutoff)
  {
    var keep := (w: Work) => InWindow(w.newest, since, cutoff);
    FilterAppend(ws, [w], keep);
    assert Filter([w], keep) == Only(w, keep);
  }

  // ---------------------------------------------------------------- what discovery finds

  /** A call's objects in listing order. */
  function ItemsOf(objects: seq<Listed>, rules: seq<Rule>, call: string): seq<(int, string)> {
    if objects == [] then []
    else ItemsOf(objects[..|objects| - 1], rules, call) +
         if Owns(rules, call, objects[|objects| - 1].uri)
         then [(Match(rules, objects[|objects| - 1].uri).value.0, objects[|objects| - 1].uri)] else []
  }

  /** The newest modified time among a call's objects. */
  ghost predicate IsNewest(objects: seq<Listed>, rules: seq<Rule>, call: string, newest: int) {
    && (exists o :: o in objects && Owns(rules, call, o.uri) && o.modified == newest)
    && (forall o :: o in objects && Owns(rules, call, o.uri) ==> o.modified <= newest)
  }

  ghost predicate AnyOwned(objects: seq<Listed>, rules: seq<Rule>, call: string) {
    exists o :: o in objects && Owns(rules, call, o.uri)
  }

  ghost predicate FoundExactly(objects: seq<Listed>, rules: seq<Rule>, call: string, d: Dict<string, Found>) {
    && (call in d.vals <==> AnyOwned(objects, rules, call))
    && (call in d.vals ==> d.vals[call].items == ItemsOf(objects, rules, call)
                           && IsNewest(objects, rules, call, d.vals[call].newest))
  }

  /** Every call with an object is grouped, with all its objects in order and its newest time. */
  lemma {:induction false} GroupedExactly(objects: seq<Listed>, rules: seq<Rule>, call: string)
    ensures FoundExactly(objects, rules, call, Grouped(objects, rules))
  {
    if objects != [] {
      var init, o := objects[..|objects| - 1], objects[|objects| - 1];
      GroupedExactly(init, rules, call);
      assert objects == init + [o];
      SeenExactly(init, o, rules, call, Grouped(init, rules));
    }
  }

  lemma SeenExactly(init: seq<Listed>, o: Listed, rules: seq<Rule>, call: string, d: Dict<string, Found>)
    requires FoundExactly(init, rules, call, d)
    ensures FoundExactly(init + [o], rules, call, SeenBy(d, rules, o))
  {
    hide Match;
    assert (init + [o])[..|init|] == init;
    assert forall x :: x in init + [o] <==> x in init || x == o;
    if call !in d.vals {
      NoItems(init, rules, call);
    }
  }

  lemma {:induction false} NoItems(objects: seq<Listed>, rules: seq<Rule>, call: string)
    requires !AnyOwned(objects, rules, call)
    ensures ItemsOf(objects, rules, call) == []
  {
    if objects != [] {
      var init, o := objects[..|objects| - 1], objects[|objects| - 1];
      assert o in objects && forall x :: x in init ==> x in objects;
      NoItems(init, rules, call);
    }
  }

  /** A work item is a call's objects as listed, all of them, and its newest time. */
  ghost predicate IsWork(objects: seq<Listed>, rules: seq<Rule>, w: Work) {
    AnyOwned(objects, rules, w.call) && w.items == ItemsOf(objects, rules, w.call) &&
    IsNewest(objects, rules, w.call, w.newest)
  }

  ghost predicate CallsDistinct(ws: seq<Work>) {
    forall i, j :: 0 <= i < j < |ws| ==> ws[i].call != ws[j].call
  }

  lemma {:induction false} WorksAre(d: Dict<string, Found>, n: nat)
    requires d.Valid() && n <= |d.keys|
    ensures |Works(d, n)| == n && forall k :: 0 <= k < n ==> Works(d, n)[k] == WorkOf(d, k)
  {
    if n > 0 {
      WorksAre(d, n - 1);
    }
  }

  lemma {:induction false} FilterCalls(ws: seq<Work>, keep: Work -> bool)
    requires CallsDistinct(ws)
    ensures CallsDistinct(Filter(ws, keep))
    ensures forall k :: 0 <= k < |Filter(ws, keep)| ==> Filter(ws, keep)[k] in ws
  {
    if ws != [] {
      FilterCalls(ws[1..], keep);
      FirstCall(ws, Filter(ws[1..], keep));
    }
  }

  lemma FirstCall(ws: seq<Work>, rest: seq<Work>)
    requires ws != [] && CallsDistinct(ws) && CallsDistinct(rest) && forall k :: 0 <= k < |rest| ==> rest[k] in ws[1..]
    ensures CallsDistinct([ws[0]] + rest) && CallsDistinct(ws[1..])
  {
    forall k | 0 <= k < |rest|
      ensures rest[k].call != ws[0].call
    {
      var j :| 0 <= j < |ws[1..]| && ws[1..][j] == rest[k];
      assert ws[j + 1] == rest[k];
    }
  }

  lemma NewestUnique(objects: seq<Listed>, rules: seq<Rule>, call: string, a: int, b: int)
    requires IsNewest(objects, rules, call, a) && IsNewest(objects, rules, call, b)
    ensures a == b
  {
    hide Owns;
  }

  lemma WorksExactly(objects: seq<Listed>, rules: seq<Rule>, w: Work)
    ensures var d := Grouped(objects, rules);
      d.Valid() && CallsDistinct(Works(d, |d.keys|)) && (w in Works(d, |d.keys|) <==> IsWork(objects, rules, w))
  {
    var d := Grouped(objects, rules);
    GroupedValid(objects, rules);
    WorksAre(d, |d.keys|);
    var ws := Works(d, |d.keys|);
    hide Grouped, Works, ItemsOf, AnyOwned, IsNewest;
    forall i, j | 0 <= i < j < |ws|
      ensures ws[i].call != ws[j].call
    {
      assert ws[i] == WorkOf(d, i) && ws[j] == WorkOf(d, j);
    }
    GroupedExactly(objects, rules, w.call);
    if w in ws {
      var k :| 0 <= k < |ws| && ws[k] == w;
      assert w == WorkOf(d, k) && d.keys[k] in d.keys;
    }
    if IsWork(objects, rules, w) {
      NewestUnique(objects, rules, w.call, w.newest, d.vals[w.call].newest);
      var k :| 0 <= k < |d.keys| && d.keys[k] == w.call;
      assert ws[k] == WorkOf(d, k);
    }
  }

  /** Discovery returns exactly the calls whose newest object lies after the watermark and not after the
      cutoff, each once, with all of its objects. */
  lemma DiscoveredExactly(objects: seq<Listed>, rules: seq<Rule>, since: Option<int>, cutoff: int, w: Work)
    ensures var found := Discovered(objects, rules, since, cutoff);
      && CallsDistinct(found)
      && (w in found <==> IsWork(objects, rules, w) && InWindow(w.newest, since, cutoff))
  {
    var d := Grouped(objects, rules);
    WorksExactly(objects, rules, w);
    var keep := (w: Work) => InWindow(w.newest, since, cutoff);
    FilterMembers(Works(d, |d.keys|), keep);
    FilterCalls(Works(d, |d.keys|), keep);
    hide Filter, Works, Grouped;
  }

  // ---------------------------------------------------------------- one agent's sweep

  predicate ByNewest(a: Work, b: Work) {
    a.newest <= b.newest
  }

  /** The calls of a sweep in the order they are processed. */
  function Queue(objects: seq<Listed>, rules: seq<Rule>, since: Option<int>, cutoff: int): seq<Work> {
    Sorted(Discovered(objects, rules, since, cutoff), ByNewest)
  }

  lemma {:induction false} InsertCalls(w: Work, ws: seq<Work>)
    requires CallsDistinct(ws) && forall k :: 0 <= k < |ws| ==> ws[k].call != w.call
    ensures CallsDistinct(InsertSorted(w, ws, ByNewest))
    ensures forall x :: x in InsertSorted(w, ws, ByNewest) <==> x == w || x in ws
  {
    if ws != [] && !ByNewest(w, ws[0]) {
      InsertCalls(w, ws[1..]);
      var rest := InsertSorted(w, ws[1..], ByNewest);
      forall k | 0 <= k < |rest|
        ensures rest[k].call != ws[0].call
      {
        assert rest[k] in rest;
      }
      assert forall x :: x in ws <==> x == ws[0] || x in ws[1..];
    }
  }

  lemma {:induction false} SortedCalls(ws: seq<Work>)
    requires CallsDistinct(ws)
    ensures CallsDistinct(Sorted(ws, ByNewest))
    ensures forall x :: x in Sorted(ws, ByNewest) <==> x in ws
  {
    if ws != [] {
      SortedCalls(ws[1..]);
      var rest := Sorted(ws[1..], ByNewest);
      forall k | 0 <= k < |rest|
        ensures rest[k].call != ws[0].call
      {
        assert rest[k] in rest && rest[k] in ws[1..];
      }
      InsertCalls(ws[0], rest);
      assert forall x :: x in ws <==> x == ws[0] || x in ws[1..];
    }
  }

  /** The queue holds exactly the calls in the window, oldest newest-time first, each once. */
  lemma QueueExactly(objects: seq<Listed>, rules: seq<Rule>, since: Option<int>, cutoff: int)
    ensures var q := Queue(objects, rules, since, cutoff);
      && CallsDistinct(q)
      && (forall i, j :: 0 <= i < j < |q| ==> q[i].newest <= q[j].newest)
      && (forall w :: w in q <==> IsWork(objects, rules, w) && InWindow(w.newest, since, cutoff))
  {
    var found := Discovered(objects, rules, since, cutoff);
    forall w
      ensures CallsDistinct(found)
      ensures w in found <==> IsWork(objects, rules, w) && InWindow(w.newest, since, cutoff)
    {
      DiscoveredExactly(objects, rules, since, cutoff, w);
    }
    SortedCalls(found);
    SortedOrders(found, ByNewest);
    hide Discovered, Sorted, IsWork;
  }

  /** How processing one call ends: with a judgeable status, with another status, or with an exception. */
  datatype Status = Judgeable | Other | Raised

  function Advance(mark: Option<int>, w: Work): Option<int> {
    Some(if mark.None? then w.newest else Later(mark.value, w.newest))
  }

  /** The watermark after a stretch of the queue. */
  function MarkAfter(mark: Option<int>, queue: seq<Work>, status: string -> Status): Option<int> {
    if queue == [] then mark
    else
      var before := MarkAfter(mark, queue[..|queue| - 1], status);
      var w := queue[|queue| - 1];
      if status(w.call) == Raised then before else Advance(before, w)
  }

  function Judged(queue: seq<Work>, status: string -> Status): seq<string> {
    if queue == [] then []
    else
      var w := queue[|queue| - 1];
      Judged(queue[..|queue| - 1], status) + if status(w.call) == Judgeable then [w.call] else []
  }

  /** The agent's manifest row. */
  class AgentRow {
    var lastPolled: Option<int>

    constructor ()
      ensures lastPolled == None
    {
      lastPolled := None;
    }

    /** `_poll_agent`; returns the calls to queue for judging. */
    method PollAgent(objects: seq<Listed>, rules: seq<Rule>, cutoff: int, status: string -> Status)
        returns (n: nat, judge: seq<string>)
      modifies this
      ensures var queue := Queue(objects, rules, old(lastPolled), cutoff);
        lastPolled == MarkAfter(old(lastPolled), queue, status) && judge == Judged(queue, status) && n == |judge|
    {
      hide Discovered, Sorted;
      var found := DiscoverWindowed(objects, rules, lastPolled, cutoff);
      n, judge := 0, [];
      if found == [] {
        QueueOfNone(objects, rules, lastPolled, cutoff);
        return;
      }
      var high := lastPolled;
      var queue := Sorted(found, ByNewest);
      for k := 0 to |queue|
        invariant high == lastPolled == MarkAfter(old(lastPolled), queue[..k], status)
        invariant judge == Judged(queue[..k], status) && n == |judge|
      {
        var w := queue[k];
        assert queue[..k + 1][..k] == queue[..k];
        if status(w.call) == Raised {
          continue;
        }
        if status(w.call) == Judgeable {
          n := n + 1;
        }
        high := Some(if high.None? then w.newest else Later(high.value, w.newest));
        lastPolled := high;
        if status(w.call) == Judgeable {
          judge := judge + [w.call];
        }
      }
      assert queue[..|queue|] == queue;
    }
  }

  lemma QueueOfNone(objects: seq<Listed>, rules: seq<Rule>, since: Option<int>, cutoff: int)
    requires Discovered(objects, rules, since, cutoff) == []
    ensures Queue(objects, rules, since, cutoff) == []
  {
    hide Discovered;
  }

  /** In-order commits: each commit moves the watermark to exactly its own call's newest time. */
  lemma {:induction false} CommitMarks(objects: seq<Listed>, rules: seq<Rule>, since: Option<int>, cutoff: int,
                                       status: string -> Status, k: nat)
    requires var q := Queue(objects, rules, since, cutoff); k <= |q|
    ensures var q := Queue(objects, rules, since, cutoff);
      && (MarkAfter(since, q[..k], status) == since ||
            exists i :: 0 <= i < k && MarkAfter(since, q[..k], status) == Some(q[i].newest))
      && (k > 0 && status(q[k - 1].call) != Raised ==> MarkAfter(since, q[..k], status) == Some(q[k - 1].newest))
  {
    var q := Queue(objects, rules, since, cutoff);
    QueueExactly(objects, rules, since, cutoff);
    hide Queue, IsWork;
    if k > 0 {
      CommitMarks(objects, rules, since, cutoff, status, k - 1);
      assert q[..k][..k - 1] == q[..k - 1] && q[k - 1] in q;
    }
  }

  /** The calls to judge are those processed with a judgeable status, each once for each time in the queue and in its
      order. */
  lemma {:induction false} JudgedIs(queue: seq<Work>, status: string -> Status) returns (at: seq<nat>)
    ensures Picks(queue, Filter(queue, IsJudgeable(status)), IsJudgeable(status), at)
    ensures PicksAll(queue, IsJudgeable(status), at)
    ensures |Judged(queue, status)| == |at| && forall k :: 0 <= k < |at| ==>
      at[k] < |queue| && Judged(queue, status)[k] == queue[at[k]].call
  {
    at := FilterPositions(queue, IsJudgeable(status));
    JudgedFiltered(queue, status);
  }

  function IsJudgeable(status: string -> Status): Work -> bool {
    (w: Work) => status(w.call) == Judgeable
  }

  lemma {:induction false} JudgedFiltered(queue: seq<Work>, status: string -> Status)
    ensures var kept := Filter(queue, IsJudgeable(status));
      |Judged(queue, status)| == |kept| && forall k :: 0 <= k < |kept| ==> Judged(queue, status)[k] == kept[k].call
  {
    if queue != [] {
      var init, w := queue[..|queue| - 1], queue[|queue| - 1];
      JudgedFiltered(init, status);
      assert queue == init + [w];
      FilterAppend(init, [w], IsJudgeable(status));
      assert Filter([w], IsJudgeable(status)) == Only(w, IsJudgeable(status)) + Filter([w][1..], IsJudgeable(status));
    }
  }
}
