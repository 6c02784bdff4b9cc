/** Turn ids through the span tree: the generic adapter gives each span the id of its nearest turn
    ancestor; the LiveKit adapter first moves every agent_turn subtree to the user_turn before it.

    Parent links come from the producer: they may dangle and they may form cycles. */
module TurnIds {
  import opened Options
  import opened Seqs
  import opened Sorting

  datatype Stage = TurnStage | OtherStage

  datatype Span = Span(id: string, parent: Option<string>, name: string, stage: Stage, tStart: int,
                       turnId: Option<string>)

  // Python's `x or y` on an optional string: the empty string counts as missing.
  function OrElse(x: Option<string>, y: string): string {
    if x.Some? && x.value != "" then x.value else y
  }

  type Index = map<string, Span>

  /** `{s.span_id: s for s in spans}`: a later span replaces an earlier one of the same id. */
  function ById(spans: seq<Span>): (m: Index)
    ensures Keyed(m)
  {
    if spans == [] then map[] else ById(Init(spans))[Last(spans).id := Last(spans)]
  }

  predicate Keyed(m: Index) {
    forall k :: k in m ==> m[k].id == k
  }

  function Parent(m: Index, s: Span): Option<Span> {
    if s.parent.Some? && s.parent.value != "" && s.parent.value in m then Some(m[s.parent.value]) else None
  }

  // ---------------------------------------------------------------- climbing

  /** The climb from `cur`, giving up on a missing parent or on an id already seen. */
  function Walk(m: Index, cur: Option<Span>, seen: set<string>, ids: set<string>, stop: Span -> bool): Option<Span>
    requires Keyed(m) && m.Keys <= ids && seen <= ids && (cur.Some? ==> cur.value.id in ids)
    decreases |ids - seen|
  {
    if cur.None? || cur.value.id in seen then None
    else if stop(cur.value) then cur
    else
      assert ids - (seen + {cur.value.id}) < ids - seen;
      SubsetSize(ids - (seen + {cur.value.id}), ids - seen);
      Walk(m, Parent(m, cur.value), seen + {cur.value.id}, ids, stop)
  }

  lemma SubsetSize(a: set<string>, b: set<string>)
    requires a < b
    ensures |a| < |b|
  {
    assert b == a + (b - a);
    assert |b| == |a| + |b - a|;
  }

  function Climb(m: Index, s: Span, stop: Span -> bool): Option<Span>
    requires Keyed(m)
  {
    Walk(m, Some(s), {}, m.Keys + {s.id}, stop)
  }

  /** `turn_of` and `agent_turn_of`: the loop with `cur` and `seen`. */
  method ClimbLoop(m: Index, s: Span, stop: Span -> bool) returns (r: Option<Span>)
    requires Keyed(m)
    ensures r == Climb(m, s, stop)
  {
    ghost var ids := m.Keys + {s.id};
    var cur := Some(s);
    var seen: set<string> := {};
    while cur.Some? && cur.value.id !in seen
      invariant seen <= ids && (cur.Some? ==> cur.value.id in ids)
      invariant Walk(m, cur, seen, ids, stop) == Climb(m, s, stop)
      decreases ids - seen
    {
      seen := seen + {cur.value.id};
      if stop(cur.value) {
        return cur;
      }
      cur := Parent(m, cur.value);
    }
    r := None;
  }

  /** The k-th ancestor, with no memory of where the climb has been. */
  function Ancestor(m: Index, s: Span, k: nat): Option<Span> {
    if k == 0 then Some(s)
    else if Ancestor(m, s, k - 1).None? then None
    else Parent(m, Ancestor(m, s, k - 1).value)
  }

  ghost predicate Stops(m: Index, s: Span, k: nat, stop: Span -> bool) {
    Ancestor(m, s, k).Some? && stop(Ancestor(m, s, k).value)
  }

  ghost predicate Nearest(m: Index, s: Span, stop: Span -> bool, k: nat, t: Span) {
    Ancestor(m, s, k) == Some(t) && stop(t) && forall j :: 0 <= j < k ==> !Stops(m, s, j, stop)
  }

  /** The spans climbed through so far are exactly those seen, and none of them stops the climb. */
  ghost predicate Climbed(m: Index, s: Span, seen: set<string>, k: nat, stop: Span -> bool) {
    && (forall j :: 0 <= j < k ==> Ancestor(m, s, j).Some? && Ancestor(m, s, j).value.id in seen
                                   && !Stops(m, s, j, stop))
    && (forall x :: x in seen ==> exists j :: 0 <= j < k && Ancestor(m, s, j).Some? && Ancestor(m, s, j).value.id == x)
  }

  ghost predicate Indexed(m: Index, s: Span) {
    s.id in m && m[s.id] == s
  }

  /** Every ancestor was found in the index. */
  lemma AncestorIndexed(m: Index, s: Span, k: nat)
    requires Keyed(m) && k > 0 && Ancestor(m, s, k).Some?
    ensures Indexed(m, Ancestor(m, s, k).value)
  {
  }

  /** The chain comes back to the span's own id within `n` steps. */
  ghost predicate Returns(m: Index, s: Span, n: nat) {
    exists k :: 1 <= k <= n && Ancestor(m, s, k).Some? && Ancestor(m, s, k).value.id == s.id
  }

  lemma {:induction false} EndsHere(m: Index, s: Span, k: nat, j: nat)
    requires Ancestor(m, s, k).None? && k <= j
    ensures Ancestor(m, s, j).None?
  {
    if k < j {
      EndsHere(m, s, k, j - 1);
    }
  }

  /** Once an id comes round again the ancestors repeat, so nothing new is ever reached. */
  lemma {:induction false} Repeats(m: Index, s: Span, i: nat, k: nat, j: nat) returns (h: nat)
    requires i < k && Ancestor(m, s, i) == Ancestor(m, s, k)
    ensures h < k && Ancestor(m, s, h) == Ancestor(m, s, j)
  {
    if j < k {
      h := j;
    } else if j == k {
      h := i;
    } else {
      var g := Repeats(m, s, i, k, j - 1);
      if g + 1 < k {
        h := g + 1;
      } else {
        h := i;
      }
    }
  }

  lemma ClimbOneMore(m: Index, s: Span, seen: set<string>, k: nat, stop: Span -> bool)
    requires Climbed(m, s, seen, k, stop) && Ancestor(m, s, k).Some? && !Stops(m, s, k, stop)
    ensures Climbed(m, s, seen + {Ancestor(m, s, k).value.id}, k + 1, stop)
  {
    hide Stops, Ancestor;
    var seen' := seen + {Ancestor(m, s, k).value.id};
    forall x | x in seen'
      ensures exists j :: 0 <= j < k + 1 && Ancestor(m, s, j).Some? && Ancestor(m, s, j).value.id == x
    {
      if x in seen {
        var j :| 0 <= j < k && Ancestor(m, s, j).Some? && Ancestor(m, s, j).value.id == x;
      }
    }
  }

  /** A stop beyond a round trip is also met before its end. */
  lemma StopsEarlier(m: Index, s: Span, i: nat, k: nat, n: nat, stop: Span -> bool)
    requires i < k && Ancestor(m, s, i) == Ancestor(m, s, k) && Stops(m, s, n, stop)
    ensures exists h :: 0 <= h < k && Stops(m, s, h, stop)
  {
    hide Ancestor;
    var h := Repeats(m, s, i, k, n);
    assert Stops(m, s, h, stop);
  }

  lemma {:induction false} UpTo(m: Index, s: Span, k: nat, n: nat)
    requires k <= n && Ancestor(m, s, n).Some?
    ensures Ancestor(m, s, k).Some?
  {
    if Ancestor(m, s, k).None? {
      EndsHere(m, s, k, n);
    }
  }

  /** On the way to the nearest stop no id comes round again, unless it is the span's own. */
  lemma NoneSeen(m: Index, s: Span, seen: set<string>, k: nat, stop: Span -> bool, n: nat, t: Span)
    requires Keyed(m) && Climbed(m, s, seen, k, stop) && Nearest(m, s, stop, n, t) && k <= n && !Returns(m, s, n)
    ensures Ancestor(m, s, k).Some? && Ancestor(m, s, k).value.id !in seen
  {
    hide Ancestor;
    UpTo(m, s, k, n);
    if Ancestor(m, s, k).value.id in seen {
      var i :| 0 <= i < k && Ancestor(m, s, i).Some? && Ancestor(m, s, i).value.id == Ancestor(m, s, k).value.id;
      if i == 0 {
        AncestorZero(m, s);
      } else {
        AncestorIndexed(m, s, i);
        AncestorIndexed(m, s, k);
        StopsEarlier(m, s, i, k, n, stop);
      }
    }
  }

  lemma AncestorZero(m: Index, s: Span)
    ensures Ancestor(m, s, 0) == Some(s)
  {
  }

  lemma AncestorStep(m: Index, s: Span, k: nat)
    requires Ancestor(m, s, k).Some?
    ensures Ancestor(m, s, k + 1) == Parent(m, Ancestor(m, s, k).value)
  {
  }

  lemma {:induction false} WalkReaches(m: Index, s: Span, seen: set<string>, ids: set<string>, k: nat,
                                       stop: Span -> bool, n: nat, t: Span)
    requires Keyed(m) && m.Keys <= ids && seen <= ids && Climbed(m, s, seen, k, stop) && Nearest(m, s, stop, n, t)
    requires k <= n && !Returns(m, s, n) && (Ancestor(m, s, k).Some? ==> Ancestor(m, s, k).value.id in ids)
    ensures Walk(m, Ancestor(m, s, k), seen, ids, stop) == Some(t)
    decreases n - k
  {
    hide Ancestor, Returns;
    NoneSeen(m, s, seen, k, stop, n, t);
    if k < n {
      assert !Stops(m, s, k, stop);
      ClimbOneMore(m, s, seen, k, stop);
      AncestorStep(m, s, k);
      WalkReaches(m, s, seen + {Ancestor(m, s, k).value.id}, ids, k + 1, stop, n, t);
    }
  }

  lemma {:induction false} WalkBlocked(m: Index, s: Span, seen: set<string>, ids: set<string>, j: nat,
                                       stop: Span -> bool, n: nat, t: Span, k: nat)
    requires Keyed(m) && m.Keys <= ids && seen <= ids && Climbed(m, s, seen, j, stop) && Nearest(m, s, stop, n, t)
    requires 1 <= j <= k <= n && Ancestor(m, s, k).Some? && Ancestor(m, s, k).value.id == s.id
    requires Ancestor(m, s, j).Some? ==> Ancestor(m, s, j).value.id in ids
    ensures Walk(m, Ancestor(m, s, j), seen, ids, stop) == None
    decreases k - j
  {
    hide Ancestor;
    AncestorZero(m, s);
    UpTo(m, s, j, k);
    if j < k && Ancestor(m, s, j).value.id !in seen {
      assert !Stops(m, s, j, stop);
      ClimbOneMore(m, s, seen, j, stop);
      AncestorStep(m, s, j);
      WalkBlocked(m, s, seen + {Ancestor(m, s, j).value.id}, ids, j + 1, stop, n, t, k);
    }
  }

  lemma StopsHere(m: Index, s: Span, seen: set<string>, k: nat, stop: Span -> bool)
    requires Climbed(m, s, seen, k, stop) && Ancestor(m, s, k).Some?
    ensures if stop(Ancestor(m, s, k).value) then Nearest(m, s, stop, k, Ancestor(m, s, k).value)
            else !Stops(m, s, k, stop)
  {
    hide Ancestor;
  }

  lemma {:induction false} WalkOnlyNearest(m: Index, s: Span, seen: set<string>, ids: set<string>, k: nat,
                                           stop: Span -> bool)
    requires Keyed(m) && m.Keys <= ids && seen <= ids && Climbed(m, s, seen, k, stop)
    requires Ancestor(m, s, k).Some? ==> Ancestor(m, s, k).value.id in ids
    ensures var r := Walk(m, Ancestor(m, s, k), seen, ids, stop);
      r.Some? ==> exists n :: Nearest(m, s, stop, n, r.value)
    decreases |ids - seen|
  {
    hide Ancestor, Climbed, Nearest, Stops;
    var cur := Ancestor(m, s, k);
    if cur.Some? && cur.value.id !in seen {
      StopsHere(m, s, seen, k, stop);
      if !stop(cur.value) {
        ClimbOneMore(m, s, seen, k, stop);
        SubsetSize(ids - (seen + {cur.value.id}), ids - seen);
        AncestorStep(m, s, k);
        WalkOnlyNearest(m, s, seen + {cur.value.id}, ids, k + 1, stop);
      }
    }
  }

  /** For any span, cycles and dangling parents included: what the climb finds is the nearest stopping
      ancestor, and it finds that ancestor unless the chain comes back to the span's own id first. */
  lemma ClimbIsNearest(m: Index, s: Span, stop: Span -> bool)
    requires Keyed(m)
    ensures Climb(m, s, stop).Some? ==> exists n :: Nearest(m, s, stop, n, Climb(m, s, stop).value)
    ensures forall n: nat, t :: Nearest(m, s, stop, n, t) ==>
      Climb(m, s, stop) == if Returns(m, s, n) then None else Some(t)
  {
    var ids := m.Keys + {s.id};
    AncestorZero(m, s);
    WalkOnlyNearest(m, s, {}, ids, 0, stop);
    forall n: nat, t | Nearest(m, s, stop, n, t)
      ensures Climb(m, s, stop) == if Returns(m, s, n) then None else Some(t)
    {
      ClimbExact(m, s, stop, n, t);
    }
  }

  lemma ClimbExact(m: Index, s: Span, stop: Span -> bool, n: nat, t: Span)
    requires Keyed(m) && Nearest(m, s, stop, n, t)
    ensures Climb(m, s, stop) == if Returns(m, s, n) then None else Some(t)
  {
    var ids := m.Keys + {s.id};
    AncestorZero(m, s);
    if Returns(m, s, n) {
      var k :| 1 <= k <= n && Ancestor(m, s, k).Some? && Ancestor(m, s, k).value.id == s.id;
      assert !Stops(m, s, 0, stop);
      ClimbOneMore(m, s, {}, 0, stop);
      AncestorStep(m, s, 0);
      WalkBlocked(m, s, {} + {s.id}, ids, 1, stop, n, t, k);
    } else {
      WalkReaches(m, s, {}, ids, 0, stop, n, t);
    }
  }

  /** A span that its id finds never meets itself on the way to its nearest stop. */
  lemma IndexedNeverReturns(m: Index, s: Span, stop: Span -> bool, n: nat, t: Span)
    requires Keyed(m) && Indexed(m, s) && Nearest(m, s, stop, n, t)
    ensures !Returns(m, s, n)
  {
    if Returns(m, s, n) {
      var k :| 1 <= k <= n && Ancestor(m, s, k).Some? && Ancestor(m, s, k).value.id == s.id;
      AncestorZero(m, s);
      AncestorIndexed(m, s, k);
      hide Ancestor;
      StopsEarlier(m, s, 0, k, n, stop);
    }
  }

  // ---------------------------------------------------------------- generic propagation

  predicate IsTurn(s: Span) {
    s.stage == TurnStage
  }

  function Filled(m: Index, s: Span): Span
    requires Keyed(m)
  {
    if s.turnId.Some? then s
    else
      var t := Climb(m, s, IsTurn);
      if t.Some? then s.(turnId := Some(OrElse(t.value.turnId, t.value.id))) else s
  }

  function Propagated(spans: seq<Span>): (r: seq<Span>)
    ensures |r| == |spans|
  {
    seq(|spans|, i requires 0 <= i < |spans| => Filled(ById(spans), spans[i]))
  }

  method PropagateTurnIds(spans: seq<Span>) returns (out: seq<Span>)
    ensures out == Propagated(spans)
  {
    var byId := ById(spans);
    out := [];
    for k := 0 to |spans|
      invariant out == Propagated(spans)[..k]
    {
      var s := spans[k];
      if s.turnId.None? {
        var t := ClimbLoop(byId, s, IsTurn);
        if t.Some? {
          s := s.(turnId := Some(OrElse(t.value.turnId, t.value.id)));
        }
      }
      assert s == Propagated(spans)[k];
      out := out + [s];
    }
  }

  ghost predicate DistinctIds(spans: seq<Span>) {
    forall i, j :: 0 <= i < j < |spans| ==> spans[i].id != spans[j].id
  }

  /** With distinct ids, as assembly guarantees, every span is indexed. */
  lemma {:induction false} AllIndexed(spans: seq<Span>)
    requires DistinctIds(spans)
    ensures forall i :: 0 <= i < |spans| ==> Indexed(ById(spans), spans[i])
  {
    if spans != [] {
      AllIndexed(Init(spans));
      assert forall i :: 0 <= i < |Init(spans)| ==> Init(spans)[i] == spans[i];
    }
  }

  /** An id that was set stays. A missing one becomes the nearest turn ancestor's, except when the way up
      comes back to the span's own id, which takes a repeated span id: then, as when no ancestor is a turn, it
      stays missing. Nothing else about the span changes. */
  lemma PropagationFillsNearest(spans: seq<Span>, i: nat)
    requires i < |spans|
    ensures var m, s, r := ById(spans), spans[i], Propagated(spans)[i];
      && r == s.(turnId := r.turnId)
      && (s.turnId.Some? ==> r.turnId == s.turnId)
      && (s.turnId.None? ==> forall n: nat, t :: Nearest(m, s, IsTurn, n, t) ==>
            r.turnId == if Returns(m, s, n) then None else Some(OrElse(t.turnId, t.id)))
      && (s.turnId.None? && (forall n: nat :: !Stops(m, s, n, IsTurn)) ==> r.turnId.None?)
  {
    hide *;
    FilledExact(ById(spans), spans[i]);
    PropagatedAt(spans, i);
  }

  lemma PropagatedAt(spans: seq<Span>, i: nat)
    requires i < |spans|
    ensures Propagated(spans)[i] == Filled(ById(spans), spans[i])
  {
  }

  lemma FilledExact(m: Index, s: Span)
    requires Keyed(m)
    ensures var r := Filled(m, s);
      && r == s.(turnId := r.turnId)
      && (s.turnId.Some? ==> r.turnId == s.turnId)
      && (s.turnId.None? ==> forall n: nat, t :: Nearest(m, s, IsTurn, n, t) ==>
            r.turnId == if Returns(m, s, n) then None else Some(OrElse(t.turnId, t.id)))
      && (s.turnId.None? && (forall n: nat :: !Stops(m, s, n, IsTurn)) ==> r.turnId.None?)
  {
    hide Stops, Climb, Returns, Ancestor, Nearest, IsTurn, OrElse;
    forall n: nat, t | Nearest(m, s, IsTurn, n, t)
      ensures Climb(m, s, IsTurn) == if Returns(m, s, n) then None else Some(t)
    {
      ClimbExact(m, s, IsTurn, n, t);
    }
    if Climb(m, s, IsTurn).Some? {
      ClimbFound(m, s, IsTurn);
    }
  }

  lemma ClimbFound(m: Index, s: Span, stop: Span -> bool)
    requires Keyed(m) && Climb(m, s, stop).Some?
    ensures exists n: nat :: Stops(m, s, n, stop)
  {
    hide Stops, Climb, Ancestor;
    ClimbIsNearest(m, s, stop);
    var n :| Nearest(m, s, stop, n, Climb(m, s, stop).value);
    StopsAt(m, s, stop, n, Climb(m, s, stop).value);
  }

  lemma StopsAt(m: Index, s: Span, stop: Span -> bool, n: nat, t: Span)
    requires Nearest(m, s, stop, n, t)
    ensures Stops(m, s, n, stop)
  {
  }

  /** With distinct span ids every missing id with a turn above is filled. */
  lemma DistinctAlwaysFills(spans: seq<Span>, i: nat, n: nat, t: Span)
    requires DistinctIds(spans) && i < |spans| && Nearest(ById(spans), spans[i], IsTurn, n, t)
    ensures spans[i].turnId.None? ==> Propagated(spans)[i].turnId == Some(OrElse(t.turnId, t.id))
  {
    AllIndexed(spans);
    IndexedNeverReturns(ById(spans), spans[i], IsTurn, n, t);
    hide *;
    PropagationFillsNearest(spans, i);
  }

  /** With a repeated span id the walk can stop short of a turn that is there: a span whose parent's
      parent shares its id is taken for already seen. */
  lemma RepeatedIdHidesATurn()
    ensures var low := Span("x", Some("y"), "", OtherStage, 0, None);
      var mid := Span("y", Some("x"), "", OtherStage, 0, None);
      var top := Span("x", None, "", TurnStage, 0, None);
      var spans := [low, mid, top];
      Stops(ById(spans), low, 2, IsTurn) && Propagated(spans)[0].turnId.None?
  {
    var low := Span("x", Some("y"), "", OtherStage, 0, None);
    var mid := Span("y", Some("x"), "", OtherStage, 0, None);
    var top := Span("x", None, "", TurnStage, 0, None);
    var spans := [low, mid, top];
    var m := ById(spans);
    assert Init(spans) == [low, mid] && Init([low, mid]) == [low] && Init([low]) == [];
    assert ById([low]) == map["x" := low];
    assert ById([low, mid]) == map["x" := low, "y" := mid];
    assert m == map["x" := top, "y" := mid];
    assert Ancestor(m, low, 1) == Some(mid);
    assert Ancestor(m, low, 2) == Some(top);
    var ids := m.Keys + {"x"};
    assert Walk(m, Some(top), {"x"} + {"y"}, ids, IsTurn) == None;
    assert Walk(m, Some(mid), {} + {"x"}, ids, IsTurn) == None;
  }

  // ---------------------------------------------------------------- idempotence

  /** Equal but for the turn id. */
  ghost predicate Like(a: Span, b: Span) {
    a.(turnId := None) == b.(turnId := None)
  }

  ghost predicate LikeIndex(m: Index, n: Index) {
    m.Keys == n.Keys && forall k :: k in m ==> Like(m[k], n[k])
  }

  lemma {:induction false} LikeById(xs: seq<Span>, ys: seq<Span>)
    requires |xs| == |ys| && forall i :: 0 <= i < |xs| ==> Like(xs[i], ys[i])
    ensures LikeIndex(ById(xs), ById(ys))
  {
    if xs != [] {
      LikeById(Init(xs), Init(ys));
      assert Like(Last(xs), Last(ys));
    }
  }

  lemma {:induction false} LikeWalk(m: Index, n: Index, a: Option<Span>, b: Option<Span>, seen: set<string>,
                                    ids: set<string>)
    requires Keyed(m) && Keyed(n) && LikeIndex(m, n) && m.Keys <= ids && seen <= ids
    requires a.Some? == b.Some? && (a.Some? ==> Like(a.value, b.value) && a.value.id in ids)
    ensures Walk(m, a, seen, ids, IsTurn).Some? == Walk(n, b, seen, ids, IsTurn).Some?
    decreases |ids - seen|
  {
    if a.Some? && a.value.id !in seen && !IsTurn(a.value) {
      SubsetSize(ids - (seen + {a.value.id}), ids - seen);
      LikeWalk(m, n, Parent(m, a.value), Parent(n, b.value), seen + {a.value.id}, ids);
    }
  }

  /** Running the propagation again changes nothing, whatever the input. */
  lemma PropagationIdempotent(spans: seq<Span>)
    ensures Propagated(Propagated(spans)) == Propagated(spans)
  {
    var once := Propagated(spans);
    var m, n := ById(spans), ById(once);
    LikeById(spans, once);
    forall i | 0 <= i < |spans|
      ensures Filled(n, once[i]) == once[i]
    {
      if once[i].turnId.None? {
        LikeWalk(m, n, Some(spans[i]), Some(once[i]), {}, m.Keys + {spans[i].id});
      }
    }
  }

  // ---------------------------------------------------------------- LiveKit pairing

  predicate IsUserTurn(s: Span) {
    s.name == "user_turn"
  }

  predicate IsAgentTurn(s: Span) {
    s.name == "agent_turn"
  }

  predicate ByStart(a: Span, b: Span) {
    a.tStart <= b.tStart
  }

  function UserTurns(spans: seq<Span>): seq<Span> {
    Sorted(Filter(spans, IsUserTurn), ByStart)
  }

  function AgentRoots(spans: seq<Span>): set<string> {
    set s | s in spans && IsAgentTurn(s) :: s.id
  }

  function RootedIn(roots: set<string>): Span -> bool {
    (x: Span) => x.id in roots
  }

  function Until(t: int): Span -> bool {
    (u: Span) => u.tStart <= t
  }

  /** The user turn an agent turn starting at `t` answers. */
  function Preceding(users: seq<Span>, t: int): Span
    requires users != []
  {
    var prior := Filter(users, Until(t));
    if prior != [] then Last(prior) else Last(users)
  }

  function Paired(m: Index, users: seq<Span>, roots: set<string>, s: Span): Span
    requires Keyed(m) && users != []
  {
    var root := Climb(m, s, RootedIn(roots));
    if root.None? then s
    else
      var u := Preceding(users, root.value.tStart);
      s.(turnId := Some(OrElse(u.turnId, u.id)))
  }

  function PairedAll(spans: seq<Span>): (r: seq<Span>)
    requires UserTurns(spans) != []
    ensures |r| == |spans|
  {
    seq(|spans|, i requires 0 <= i < |spans| =>
      Paired(ById(spans), UserTurns(spans), AgentRoots(spans), spans[i]))
  }

  function PairAgentTurnsSpec(spans: seq<Span>): seq<Span> {
    if UserTurns(spans) == [] then spans else Propagated(PairedAll(spans))
  }

  method PairAgentTurns(spans: seq<Span>) returns (r: seq<Span>)
    ensures r == PairAgentTurnsSpec(spans)
  {
    hide Climb, Preceding, AgentRoots, ById, Propagated, UserTurns;
    var byId := ById(spans);
    var users := UserTurns(spans);
    if users == [] {
      return spans;
    }
    var roots := AgentRoots(spans);
    ghost var all := PairedAll(spans);
    var out := [];
    for k := 0 to |spans|
      invariant out == all[..k]
    {
      var s := spans[k];
      var root := ClimbLoop(byId, s, RootedIn(roots));
      if root.Some? {
        var u := Preceding(users, root.value.tStart);
        s := s.(turnId := Some(OrElse(u.turnId, u.id)));
      }
      assert s == Paired(byId, users, roots, spans[k]) == all[k];
      out := out + [s];
    }
    assert out == all;
    r := PropagateTurnIds(out);
  }

  lemma {:induction false} LastOfFilter(xs: seq<Span>, keep: Span -> bool) returns (i: nat)
    requires Filter(xs, keep) != []
    ensures i < |xs| && xs[i] == Last(Filter(xs, keep)) && keep(xs[i])
    ensures forall j :: i < j < |xs| ==> !keep(xs[j])
  {
    if Filter(xs[1..], keep) == [] {
      i := 0;
      forall j | 0 < j < |xs|
        ensures !keep(xs[j])
      {
        FilterMembers(xs[1..], keep);
        assert xs[j] in xs[1..];
      }
    } else {
      var h := LastOfFilter(xs[1..], keep);
      i := h + 1;
      forall j | i < j < |xs|
        ensures !keep(xs[j])
      {
        assert xs[j] == xs[1..][j - 1];
      }
    }
  }

  /** `spans[i]` is the latest user turn starting at or before `t`; among equal starts the last. */
  ghost predicate LatestBy(spans: seq<Span>, t: int, i: int) {
    && 0 <= i < |spans| && IsUserTurn(spans[i]) && spans[i].tStart <= t
    && forall j :: 0 <= j < |spans| && IsUserTurn(spans[j]) && spans[j].tStart <= t ==>
         spans[j].tStart < spans[i].tStart || (spans[j].tStart == spans[i].tStart && j <= i)
  }

  lemma {:induction false} FilterTwice(xs: seq<Span>, p: Span -> bool, q: Span -> bool)
    requires forall x :: q(x) ==> p(x)
    ensures Filter(Filter(xs, p), q) == Filter(xs, q)
  {
    if xs != [] {
      FilterTwice(xs[1..], p, q);
      if p(xs[0]) {
        FilterCons(xs[0], Filter(xs[1..], p), q);
        assert Filter(xs, p) == [xs[0]] + Filter(xs[1..], p);
      } else {
        assert Filter(xs, p) == Filter(xs[1..], p);
      }
    }
  }

  lemma {:induction false} FilterSorted(xs: seq<Span>, p: Span -> bool)
    requires IsSorted(xs, ByStart)
    ensures IsSorted(Filter(xs, p), ByStart)
  {
    if xs != [] {
      FilterSorted(xs[1..], p);
      FilterMembers(xs[1..], p);
      forall y | y in Filter(xs[1..], p)
        ensures ByStart(xs[0], y)
      {
        assert y in xs[1..];
      }
    }
  }

  lemma UserTurnsAre(spans: seq<Span>)
    ensures forall x :: x in UserTurns(spans) <==> x in spans && IsUserTurn(x)
    ensures IsSorted(UserTurns(spans), ByStart)
  {
    var raw := Filter(spans, IsUserTurn);
    FilterMembers(spans, IsUserTurn);
    SortedMembers(raw, ByStart);
    SortedOrders(raw, ByStart);
  }

  /** The last of the user turns up to `t` starts no earlier than any of them. */
  lemma PriorLatest(spans: seq<Span>, t: int, j: nat)
    requires j < |spans| && IsUserTurn(spans[j]) && spans[j].tStart <= t
    ensures Filter(UserTurns(spans), Until(t)) != []
    ensures spans[j].tStart <= Last(Filter(UserTurns(spans), Until(t))).tStart <= t
  {
    var users := UserTurns(spans);
    var prior := Filter(users, Until(t));
    UserTurnsAre(spans);
    FilterMembers(users, Until(t));
    FilterSorted(users, Until(t));
    hide UserTurns, Filter, IsSorted;
    assert spans[j] in prior && Last(prior) in prior;
  }

  /** When some user turn starts at or before `t`, `Preceding` is the latest such. */
  lemma PrecedingIsLatest(spans: seq<Span>, t: int) returns (i: nat)
    requires exists j :: 0 <= j < |spans| && IsUserTurn(spans[j]) && spans[j].tStart <= t
    ensures LatestBy(spans, t, i) && UserTurns(spans) != [] && Preceding(UserTurns(spans), t) == spans[i]
  {
    var users := UserTurns(spans);
    var j :| 0 <= j < |spans| && IsUserTurn(spans[j]) && spans[j].tStart <= t;
    PriorLatest(spans, t, j);
    var u := Last(Filter(users, Until(t)));
    i := LatestOfTies(spans, users, Until(t), u);
    forall k | 0 <= k < |spans| && IsUserTurn(spans[k]) && spans[k].tStart <= t
      ensures spans[k].tStart < u.tStart || (spans[k].tStart == u.tStart && k <= i)
    {
      PriorLatest(spans, t, k);
    }
  }

  /** Stability of the sort: the last of the early user turns is the last in the input among those
      with its start time. */
  lemma LatestOfTies(spans: seq<Span>, users: seq<Span>, early: Span -> bool, u: Span) returns (i: nat)
    requires users == UserTurns(spans) && Filter(users, early) != [] && u == Last(Filter(users, early))
    requires forall x: Span, y: Span :: x.tStart == y.tStart ==> early(x) == early(y)
    ensures i < |spans| && spans[i] == u && IsUserTurn(u)
    ensures forall k :: i < k < |spans| && IsUserTurn(spans[k]) ==> spans[k].tStart != u.tStart
  {
    var raw := Filter(spans, IsUserTurn);
    var tie := (x: Span) => x.tStart == u.tStart;
    var userTie := (x: Span) => IsUserTurn(x) && x.tStart == u.tStart;
    FilterMembers(users, early);
    assert u in Filter(users, early);
    FilterTwice(users, early, tie);
    SortedStable(raw, ByStart, tie);
    LastKept(Filter(users, early), tie);
    TieOfUsers(spans, tie, userTie);
    i := LastOfFilter(spans, userTie);
  }

  lemma {:induction false} TieOfUsers(spans: seq<Span>, tie: Span -> bool, userTie: Span -> bool)
    requires forall x :: userTie(x) <==> IsUserTurn(x) && tie(x)
    ensures Filter(Filter(spans, IsUserTurn), tie) == Filter(spans, userTie)
  {
    if spans != [] {
      TieOfUsers(spans[1..], tie, userTie);
      if IsUserTurn(spans[0]) {
        FilterCons(spans[0], Filter(spans[1..], IsUserTurn), tie);
        assert Filter(spans, IsUserTurn) == [spans[0]] + Filter(spans[1..], IsUserTurn);
      } else {
        assert Filter(spans, IsUserTurn) == Filter(spans[1..], IsUserTurn);
      }
    }
  }

  lemma LastKept(xs: seq<Span>, keep: Span -> bool)
    requires xs != [] && keep(Last(xs))
    ensures Filter(xs, keep) != [] && Last(Filter(xs, keep)) == Last(xs)
  {
    assert xs == Init(xs) + [Last(xs)];
    FilterAppend(Init(xs), [Last(xs)], keep);
    assert Filter([Last(xs)], keep) == [Last(xs)];
  }

  /** After pairing, a span under an agent_turn carries the id of the latest user_turn that starts at or
      before its nearest agent_turn; pairing passes over it only when its way up comes back to its own id. */
  lemma PairedToLatestUserTurn(spans: seq<Span>, i: nat, n: nat, root: Span) returns (u: nat)
    requires i < |spans| && Nearest(ById(spans), spans[i], RootedIn(AgentRoots(spans)), n, root)
    requires exists j :: 0 <= j < |spans| && IsUserTurn(spans[j]) && spans[j].tStart <= root.tStart
    ensures LatestBy(spans, root.tStart, u)
    ensures UserTurns(spans) != [] && |PairAgentTurnsSpec(spans)| == |spans|
    ensures Returns(ById(spans), spans[i], n) ==> PairedAll(spans)[i] == spans[i]
    ensures !Returns(ById(spans), spans[i], n) ==>
      PairAgentTurnsSpec(spans)[i] == spans[i].(turnId := Some(OrElse(spans[u].turnId, spans[u].id)))
    ensures DistinctIds(spans) ==> !Returns(ById(spans), spans[i], n)
  {
    hide *;
    var stop := RootedIn(AgentRoots(spans));
    u := PrecedingIsLatest(spans, root.tStart);
    ClimbExact(ById(spans), spans[i], stop, n, root);
    if DistinctIds(spans) {
      AllIndexed(spans);
      IndexedNeverReturns(ById(spans), spans[i], stop, n, root);
    }
    PairedAt(spans, i);
  }

  lemma PairedAt(spans: seq<Span>, i: nat)
    requires i < |spans| && UserTurns(spans) != []
    ensures |PairAgentTurnsSpec(spans)| == |spans|
    ensures var root := Climb(ById(spans), spans[i], RootedIn(AgentRoots(spans)));
      if root.None? then PairedAll(spans)[i] == spans[i]
      else
        var u := Preceding(UserTurns(spans), root.value.tStart);
        PairAgentTurnsSpec(spans)[i] == spans[i].(turnId := Some(OrElse(u.turnId, u.id)))
  {
    hide ById, Climb, AgentRoots, UserTurns, Preceding, OrElse;
    var paired := PairedAll(spans);
    assert paired[i] == Paired(ById(spans), UserTurns(spans), AgentRoots(spans), spans[i]);
  }

  /** `spans[i]` is the user turn with the greatest start; among equal starts the last. */
  ghost predicate LatestOfAll(spans: seq<Span>, i: int) {
    && 0 <= i < |spans| && IsUserTurn(spans[i])
    && forall j :: 0 <= j < |spans| && IsUserTurn(spans[j]) ==>
         spans[j].tStart < spans[i].tStart || (spans[j].tStart == spans[i].tStart && j <= i)
  }

  lemma {:induction false} AllKept(xs: seq<Span>, keep: Span -> bool)
    requires forall x :: keep(x)
    ensures Filter(xs, keep) == xs
  {
    if xs != [] {
      AllKept(xs[1..], keep);
    }
  }

  lemma PrecedingFallsBack(spans: seq<Span>, t: int) returns (i: nat)
    requires UserTurns(spans) != [] && forall j :: 0 <= j < |spans| && IsUserTurn(spans[j]) ==> t < spans[j].tStart
    ensures LatestOfAll(spans, i) && Preceding(UserTurns(spans), t) == spans[i]
  {
    var users := UserTurns(spans);
    UserTurnsAre(spans);
    NoneKept(users, Until(t)) by {
      assert forall x :: x in users ==> x in spans && IsUserTurn(x);
    }
    var any := (x: Span) => true;
    AllKept(users, any);
    i := LatestOfTies(spans, users, any, Last(users));
    hide UserTurns;
    forall j | 0 <= j < |spans| && IsUserTurn(spans[j])
      ensures spans[j].tStart < spans[i].tStart || (spans[j].tStart == spans[i].tStart && j <= i)
    {
      assert spans[j] in users;
      var k :| 0 <= k < |users| && users[k] == spans[j];
      assert k < |users| - 1 ==> ByStart(users[k], Last(users));
    }
  }

  /** A span under an agent_turn that starts before every user_turn is paired with the last of them, not the
      first: the fallback takes the end of the sorted list. */
  lemma EarlyAgentTurnGoesLast(spans: seq<Span>, i: nat, n: nat, root: Span) returns (u: nat)
    requires i < |spans| && Nearest(ById(spans), spans[i], RootedIn(AgentRoots(spans)), n, root)
    requires UserTurns(spans) != []
    requires forall j :: 0 <= j < |spans| && IsUserTurn(spans[j]) ==> root.tStart < spans[j].tStart
    ensures LatestOfAll(spans, u) && |PairAgentTurnsSpec(spans)| == |spans|
    ensures !Returns(ById(spans), spans[i], n) ==>
      PairAgentTurnsSpec(spans)[i] == spans[i].(turnId := Some(OrElse(spans[u].turnId, spans[u].id)))
    ensures DistinctIds(spans) ==> !Returns(ById(spans), spans[i], n)
  {
    hide *;
    var stop := RootedIn(AgentRoots(spans));
    u := PrecedingFallsBack(spans, root.tStart);
    ClimbExact(ById(spans), spans[i], stop, n, root);
    if DistinctIds(spans) {
      AllIndexed(spans);
      IndexedNeverReturns(ById(spans), spans[i], stop, n, root);
    }
    PairedAt(spans, i);
  }

  // ---------------------------------------------------------------- in the terms of the spans

  /** Of the spans with this id the last one. */
  ghost predicate LastNamed(spans: seq<Span>, k: int) {
    0 <= k < |spans| && forall j :: k < j < |spans| ==> spans[j].id != spans[k].id
  }

  lemma {:induction false} ByIdKeys(spans: seq<Span>, id: string)
    ensures id in ById(spans) <==> exists k :: 0 <= k < |spans| && spans[k].id == id
  {
    if spans != [] {
      var p := Init(spans);
      ByIdKeys(p, id);
      if k :| 0 <= k < |p| && p[k].id == id {
        assert spans[k].id == id;
      }
      assert spans[|p|] == Last(spans);
    }
  }

  lemma {:induction false} ByIdLast(spans: seq<Span>, k: nat)
    requires LastNamed(spans, k)
    ensures spans[k].id in ById(spans) && ById(spans)[spans[k].id] == spans[k]
  {
    var p := Init(spans);
    if k < |p| {
      assert LastNamed(p, k);
      ByIdLast(p, k);
      assert spans[|p|].id != spans[k].id;
    }
  }

  /** A way up from the span `path[0]`, each step to the span that its parent id names. */
  ghost predicate WayUp(spans: seq<Span>, path: seq<int>) {
    && path != [] && 0 <= path[0] < |spans|
    && (forall k :: 0 < k < |path| ==> LastNamed(spans, path[k]) && spans[path[k]].id != "")
    && (forall k :: 0 <= k < |path| - 1 ==> spans[path[k]].parent == Some(spans[path[k + 1]].id))
  }

  lemma {:induction false} WayUpIs(spans: seq<Span>, path: seq<int>, k: nat)
    requires WayUp(spans, path) && k < |path|
    ensures Ancestor(ById(spans), spans[path[0]], k) == Some(spans[path[k]])
  {
    if k > 0 {
      WayUpIs(spans, path, k - 1);
      ByIdLast(spans, path[k]);
      hide ById;
    }
  }

  /** The way up ends: its last span has no parent, or one that is not among the spans. */
  ghost predicate Ends(spans: seq<Span>, path: seq<int>)
    requires WayUp(spans, path)
  {
    var parent := spans[path[|path| - 1]].parent;
    parent.None? || parent.value == "" || forall k :: 0 <= k < |spans| ==> spans[k].id != parent.value
  }

  lemma WayUpEnds(spans: seq<Span>, path: seq<int>, j: nat)
    requires WayUp(spans, path) && Ends(spans, path) && j >= |path|
    ensures Ancestor(ById(spans), spans[path[0]], j).None?
  {
    WayUpIs(spans, path, |path| - 1);
    var parent := spans[path[|path| - 1]].parent;
    if parent.Some? {
      ByIdKeys(spans, parent.value);
    }
    hide ById;
    assert Ancestor(ById(spans), spans[path[0]], |path|).None?;
    EndsHere(ById(spans), spans[path[0]], |path|, j);
  }

  lemma FilledFrom(spans: seq<Span>, i: nat, n: nat, t: Span)
    requires i < |spans| && Nearest(ById(spans), spans[i], IsTurn, n, t) && !Returns(ById(spans), spans[i], n)
    ensures spans[i].turnId.None? ==> Propagated(spans)[i].turnId == Some(OrElse(t.turnId, t.id))
  {
    hide *;
    PropagationFillsNearest(spans, i);
  }

  predicate IsStage(s: Span, turn: bool) {
    if turn then s.stage == TurnStage else s.stage == OtherStage
  }

  /** A span without a turn id gets that of the first TURN span on its way up, itself included, or its id if it has
      none; if the way up ends without one it gets none; and a span with one keeps it. */
  lemma WayUpPropagates(spans: seq<Span>, path: seq<int>)
    requires WayUp(spans, path)
    requires forall k :: 0 <= k < |path| - 1 ==> IsStage(spans[path[k]], false)
    requires forall k :: 0 < k < |path| ==> spans[path[k]].id != spans[path[0]].id
    ensures |Propagated(spans)| == |spans|
    ensures var s, t, r := spans[path[0]], spans[path[|path| - 1]], Propagated(spans)[path[0]];
      && r == s.(turnId := r.turnId)
      && (s.turnId.Some? ==> r.turnId == s.turnId)
      && (s.turnId.None? && IsStage(t, true) ==>
            r.turnId == Some(if t.turnId.Some? && t.turnId.value != "" then t.turnId.value else t.id))
      && (s.turnId.None? && IsStage(t, false) && Ends(spans, path) ==> r.turnId == None)
  {
    var m, s, n := ById(spans), spans[path[0]], |path| - 1;
    PropagationFillsNearest(spans, path[0]);
    forall k: nat
      ensures k < |path| ==> Ancestor(m, s, k) == Some(spans[path[k]])
      ensures k >= |path| && Ends(spans, path) ==> Ancestor(m, s, k).None?
    {
      if k < |path| {
        WayUpIs(spans, path, k);
      } else if Ends(spans, path) {
        WayUpEnds(spans, path, k);
      }
    }
    hide Ancestor, Ends, ById;
    assert forall k :: 0 <= k < n ==> !Stops(m, s, k, IsTurn);
    assert !Returns(m, s, n);
    if IsStage(spans[path[n]], true) {
      var t := spans[path[n]];
      assert Nearest(m, s, IsTurn, n, t);
      FilledFrom(spans, path[0], n, t);
    } else if Ends(spans, path) {
      assert forall k: nat :: !Stops(m, s, k, IsTurn);
    }
  }

  ghost predicate IsAgentId(spans: seq<Span>, id: string) {
    exists k :: 0 <= k < |spans| && spans[k].name == "agent_turn" && spans[k].id == id
  }

  /** Of the user_turns that start by `t`, or of all if none does, `spans[u]` is the one that starts last, and the last
      of those in the list. */
  ghost predicate AnsweredBy(spans: seq<Span>, t: int, u: int) {
    && 0 <= u < |spans| && spans[u].name == "user_turn"
    && (spans[u].tStart <= t || forall j :: 0 <= j < |spans| && spans[j].name == "user_turn" ==> t < spans[j].tStart)
    && forall j :: 0 <= j < |spans| && spans[j].name == "user_turn" && (spans[j].tStart <= t || t < spans[u].tStart) ==>
         spans[j].tStart < spans[u].tStart || (spans[j].tStart == spans[u].tStart && j <= u)
  }

  lemma AnsweredOnce(spans: seq<Span>, t: int, u: int, v: int)
    requires AnsweredBy(spans, t, u) && AnsweredBy(spans, t, v)
    ensures u == v
  {
  }

  lemma AgentIdIs(spans: seq<Span>, s: Span)
    ensures RootedIn(AgentRoots(spans))(s) <==> IsAgentId(spans, s.id)
  {
    if s.id in AgentRoots(spans) {
      var r :| r in spans && IsAgentTurn(r) && r.id == s.id;
      var k :| 0 <= k < |spans| && spans[k] == r;
    }
  }

  lemma UsersAre(spans: seq<Span>)
    ensures UserTurns(spans) != [] <==> exists j :: 0 <= j < |spans| && spans[j].name == "user_turn"
  {
    UserTurnsAre(spans);
    hide UserTurns;
    if UserTurns(spans) != [] {
      var u := UserTurns(spans)[0];
      assert u in UserTurns(spans);
      var j :| 0 <= j < |spans| && spans[j] == u;
    }
    if j :| 0 <= j < |spans| && spans[j].name == "user_turn" {
      assert spans[j] in UserTurns(spans);
    }
  }

  /** A span whose way up leads to an agent_turn, itself included, gets the turn id, or without one the id, of the
      user_turn that the agent_turn answers. */
  lemma WayUpPairs(spans: seq<Span>, path: seq<int>, u: int)
    requires WayUp(spans, path)
    requires forall k :: 0 <= k < |path| - 1 ==> !IsAgentId(spans, spans[path[k]].id)
    requires forall k :: 0 < k < |path| ==> spans[path[k]].id != spans[path[0]].id
    requires var root := spans[path[|path| - 1]]; IsAgentId(spans, root.id) && AnsweredBy(spans, root.tStart, u)
    ensures |PairAgentTurnsSpec(spans)| == |spans|
    ensures PairAgentTurnsSpec(spans)[path[0]] == spans[path[0]].(turnId :=
              Some(if spans[u].turnId.Some? && spans[u].turnId.value != "" then spans[u].turnId.value else spans[u].id))
  {
    var m, s, n, root := ById(spans), spans[path[0]], |path| - 1, spans[path[|path| - 1]];
    var stop := RootedIn(AgentRoots(spans));
    forall k: nat | k < |path|
      ensures Ancestor(m, s, k) == Some(spans[path[k]]) && (stop(spans[path[k]]) <==> IsAgentId(spans, spans[path[k]].id))
    {
      WayUpIs(spans, path, k);
      AgentIdIs(spans, spans[path[k]]);
    }
    hide Ancestor, ById, IsAgentId, RootedIn, AgentRoots, UserTurns, PairAgentTurnsSpec;
    assert forall k :: 0 <= k < n ==> !Stops(m, s, k, stop);
    assert Nearest(m, s, stop, n, root) && !Returns(m, s, n);
    PairsWith(spans, path[0], n, root, u);
  }

  lemma PairsWith(spans: seq<Span>, i: nat, n: nat, root: Span, u: int)
    requires i < |spans| && Nearest(ById(spans), spans[i], RootedIn(AgentRoots(spans)), n, root)
    requires !Returns(ById(spans), spans[i], n) && AnsweredBy(spans, root.tStart, u)
    ensures |PairAgentTurnsSpec(spans)| == |spans|
    ensures PairAgentTurnsSpec(spans)[i] == spans[i].(turnId := Some(OrElse(spans[u].turnId, spans[u].id)))
  {
    UsersAre(spans);
    hide Ancestor, ById, Nearest, Returns, RootedIn, AgentRoots, UserTurns, PairAgentTurnsSpec, OrElse;
    assert IsUserTurn(spans[u]);
    if spans[u].tStart <= root.tStart {
      var v := PairedToLatestUserTurn(spans, i, n, root);
      assert AnsweredBy(spans, root.tStart, v);
      AnsweredOnce(spans, root.tStart, u, v);
    } else {
      var v := EarlyAgentTurnGoesLast(spans, i, n, root);
      assert AnsweredBy(spans, root.tStart, v);
      AnsweredOnce(spans, root.tStart, u, v);
    }
  }

  /** Without a user_turn nothing is paired. */
  lemma NoUserTurnNoPairs(spans: seq<Span>)
    requires forall j :: 0 <= j < |spans| ==> spans[j].name != "user_turn"
    ensures PairAgentTurnsSpec(spans) == spans
  {
    UsersAre(spans);
  }

  lemma NoAgentAbove(spans: seq<Span>, path: seq<int>, k: nat)
    requires WayUp(spans, path) && Ends(spans, path)
    requires forall j :: 0 <= j < |path| ==> !IsAgentId(spans, spans[path[j]].id)
    ensures !Stops(ById(spans), spans[path[0]], k, RootedIn(AgentRoots(spans)))
  {
    if k < |path| {
      WayUpIs(spans, path, k);
      AgentIdIs(spans, spans[path[k]]);
    } else {
      WayUpEnds(spans, path, k);
    }
    hide Ancestor, ById, IsAgentId, RootedIn, AgentRoots, Ends;
  }

  lemma ClimbsPast(m: Index, s: Span, stop: Span -> bool)
    requires Keyed(m) && forall k: nat :: !Stops(m, s, k, stop)
    ensures Climb(m, s, stop).None?
  {
    ClimbIsNearest(m, s, stop);
    hide Climb, Ancestor, Keyed;
    assert forall n, t :: Nearest(m, s, stop, n, t) ==> Stops(m, s, n, stop);
  }

  /** A span with nothing to stop the climb on its way up is passed over by the pairing. */
  lemma NotUnderAgent(spans: seq<Span>, path: seq<int>)
    requires UserTurns(spans) != [] && WayUp(spans, path) && Ends(spans, path)
    requires forall k :: 0 <= k < |path| ==> !IsAgentId(spans, spans[path[k]].id)
    ensures PairedAll(spans)[path[0]] == spans[path[0]]
  {
    hide *;
    var stop := RootedIn(AgentRoots(spans));
    InRange(spans, path);
    forall k: nat
      ensures !Stops(ById(spans), spans[path[0]], k, stop)
    {
      NoAgentAbove(spans, path, k);
    }
    ClimbsPast(ById(spans), spans[path[0]], stop);
    PairedAt(spans, path[0]);
  }

  lemma InRange(spans: seq<Span>, path: seq<int>)
    requires WayUp(spans, path)
    ensures path != [] && forall k :: 0 <= k < |path| ==> 0 <= path[k] < |spans|
  {
  }

  lemma PairedLike(spans: seq<Span>, i: nat)
    requires UserTurns(spans) != [] && i < |spans|
    ensures Like(PairedAll(spans)[i], spans[i])
  {
    hide Climb, Preceding, AgentRoots, ById, UserTurns;
  }

  lemma Further(spans: seq<Span>, path: seq<int>, n: nat)
    requires WayUp(spans, path) && Ends(spans, path) && n < |path|
    ensures WayUp(spans, path[n..]) && Ends(spans, path[n..])
  {
  }

  lemma NearPart(spans: seq<Span>, path: seq<int>, n: nat)
    requires WayUp(spans, path) && n < |path|
    ensures WayUp(spans, path[..n + 1])
  {
  }

  lemma LikeStages(spans: seq<Span>, other: seq<Span>)
    requires |spans| == |other| && forall i :: 0 <= i < |spans| ==> Like(other[i], spans[i])
    ensures forall i, turn :: 0 <= i < |spans| ==>
      other[i].id == spans[i].id && (IsStage(other[i], turn) <==> IsStage(spans[i], turn))
  {
  }

  lemma PairedThenFilled(spans: seq<Span>)
    requires UserTurns(spans) != []
    ensures PairAgentTurnsSpec(spans) == Propagated(PairedAll(spans))
  {
  }

  lemma WayUpLike(spans: seq<Span>, other: seq<Span>, path: seq<int>)
    requires |spans| == |other| && forall i :: 0 <= i < |spans| ==> Like(other[i], spans[i])
    requires WayUp(spans, path)
    ensures WayUp(other, path) && (Ends(other, path) <==> Ends(spans, path))
  {
  }

  /** A span with no agent_turn on its way up keeps the turn id it has; without one it gets that of the first TURN
      span on its way, or none if there is no such span, as in the generic propagation. */
  lemma UnpairedFilled(spans: seq<Span>, path: seq<int>, n: nat)
    requires (exists j :: 0 <= j < |spans| && spans[j].name == "user_turn") && WayUp(spans, path) && Ends(spans, path)
    requires forall k :: 0 <= k < |path| ==> !IsAgentId(spans, spans[path[k]].id)
    requires forall k :: 0 < k < |path| ==> spans[path[k]].id != spans[path[0]].id
    requires n <= |path| && forall k :: 0 <= k < n ==> IsStage(spans[path[k]], false)
    requires n < |path| ==> IsStage(spans[path[n]], true)
    ensures |PairAgentTurnsSpec(spans)| == |spans|
    ensures var s, r := spans[path[0]], PairAgentTurnsSpec(spans)[path[0]];
      && r == s.(turnId := r.turnId)
      && (s.turnId.Some? ==> r == s)
      && (s.turnId.None? && n == |path| ==> r.turnId == None)
      && (s.turnId.None? && n < |path| ==> var t := spans[path[n]];
            r.turnId == Some(if t.turnId.Some? && t.turnId.value != "" then t.turnId.value else t.id))
  {
    hide *;
    UsersAre(spans);
    InRange(spans, path);
    var paired, way := PairedAll(spans), if n < |path| then path[..n + 1] else path;
    NotUnderAgent(spans, path);
    if n < |path| {
      Further(spans, path, n);
      NotUnderAgent(spans, path[n..]);
      NearPart(spans, path, n);
    }
    forall i | 0 <= i < |spans|
      ensures Like(paired[i], spans[i])
    {
      PairedLike(spans, i);
    }
    WayUpLike(spans, paired, way);
    LikeStages(spans, paired);
    WayUpPropagates(paired, way);
    PairedThenFilled(spans);
  }
}
