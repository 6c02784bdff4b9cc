/** One turn span per exchange, in canonical call order. */
module TurnSpans {
  import opened Options
  import opened Sorting
  import opened Dicts

  datatype Stage = TurnStage | Stt | Speech | OtherStage

  /** `turnIndex` is the producer's turn.index read as an integer, None when it is not one. */
  datatype Span = Span(id: string, parent: Option<string>, stage: Stage, tStart: Option<int>,
                       sequence: Option<int>, turnId: Option<string>, turnIndex: Option<int>)

  const NO_INDEX := 1_000_000_000

  function Key(s: Span): string {
    if s.turnId.Some? && s.turnId.value != "" then s.turnId.value else s.id
  }

  function TurnIndex(s: Span): int {
    s.turnIndex.GetOr(NO_INDEX)
  }

  /** `order_key`: timed spans first by clock, then untimed ones by sequence, then the rest. */
  predicate OrderLt(a: Span, b: Span) {
    if a.tStart.Some? then b.tStart.None? || a.tStart.value < b.tStart.value
    else b.tStart.None? && a.sequence.Some? && (b.sequence.None? || a.sequence.value < b.sequence.value)
  }

  /** The parents of STT and SPEECH spans. */
  function CallerSide(spans: seq<Span>): set<string> {
    set s | s in spans && (s.stage == Stt || s.stage == Speech) && s.parent.Some? :: s.parent.value
  }

  /** Caller-side spans first, then `order_key`. */
  predicate RankLt(caller: set<string>, a: Span, b: Span) {
    var pa, pb := a.id in caller, b.id in caller;
    (pa && !pb) || (pa == pb && OrderLt(a, b))
  }

  function Consider(caller: set<string>, best: Dict<string, Span>, s: Span): Dict<string, Span> {
    if s.stage != TurnStage then best
    else if Key(s) !in best.vals || RankLt(caller, s, best.vals[Key(s)]) then best.Set(Key(s), s)
    else best
  }

  function Best(caller: set<string>, spans: seq<Span>): Dict<string, Span> {
    if spans == [] then Empty() else Consider(caller, Best(caller, spans[..|spans| - 1]), spans[|spans| - 1])
  }

  predicate Before(a: Span, b: Span) {
    TurnIndex(a) < TurnIndex(b) || (TurnIndex(a) == TurnIndex(b) && !OrderLt(b, a))
  }

  lemma {:induction false} BestValid(caller: set<string>, spans: seq<Span>)
    ensures Best(caller, spans).Valid()
  {
    if spans != [] {
      BestValid(caller, spans[..|spans| - 1]);
    }
  }

  function TurnSpansSpec(spans: seq<Span>): seq<Span> {
    BestValid(CallerSide(spans), spans);
    Sorted(Best(CallerSide(spans), spans).Values(), Before)
  }

  method TurnSpans(spans: seq<Span>) returns (r: seq<Span>)
    ensures r == TurnSpansSpec(spans)
  {
    var callerSide := CallerSide(spans);
    var best := Empty();
    for k := 0 to |spans|
      invariant best == Best(callerSide, spans[..k])
    {
      var s := spans[k];
      assert spans[..k + 1][..k] == spans[..k];
      if s.stage == TurnStage {
        var key := Key(s);
        if key !in best.vals {
          best := best.Set(key, s);
        } else {
          var cur := best.vals[key];
          var primary := s.id in callerSide;
          if (primary && cur.id !in callerSide) || (primary == (cur.id in callerSide) && OrderLt(s, cur)) {
            best := best.Set(key, s);
          }
        }
      }
    }
    assert spans[..|spans|] == spans;
    BestValid(callerSide, spans);
    r := Sorted(best.Values(), Before);
  }

  // ---------------------------------------------------------------- the minimum of each exchange

  ghost predicate InExchange(spans: seq<Span>, n: nat, key: string, i: int) {
    0 <= i < n <= |spans| && spans[i].stage == TurnStage && Key(spans[i]) == key
  }

  /** `spans[i]` is the least of its exchange among the first `n`: by caller side, then order, then
      input position. */
  ghost predicate Least(caller: set<string>, spans: seq<Span>, n: nat, key: string, i: int) {
    && InExchange(spans, n, key, i)
    && forall j :: InExchange(spans, n, key, j) ==>
         RankLt(caller, spans[i], spans[j]) || (!RankLt(caller, spans[j], spans[i]) && i <= j)
  }

  lemma RankTransitive(caller: set<string>, a: Span, b: Span, c: Span)
    requires RankLt(caller, a, b) && !RankLt(caller, c, b)
    ensures RankLt(caller, a, c)
  {
  }

  ghost predicate BestSoFar(caller: set<string>, spans: seq<Span>, n: nat, m: map<string, Span>) {
    && (forall key :: key in m ==> exists i :: Least(caller, spans, n, key, i) && m[key] == spans[i])
    && (forall j :: InExchange(spans, n, if 0 <= j < |spans| then Key(spans[j]) else "", j) ==> Key(spans[j]) in m)
  }

  lemma LeastStays(caller: set<string>, spans: seq<Span>, n: nat, key: string, i: int)
    requires n < |spans| && Least(caller, spans, n, key, i)
    requires InExchange(spans, n + 1, key, n) ==> !RankLt(caller, spans[n], spans[i])
    ensures Least(caller, spans, n + 1, key, i)
  {
    assert forall j :: InExchange(spans, n + 1, key, j) ==> InExchange(spans, n, key, j) || j == n;
  }

  lemma LeastMoves(caller: set<string>, spans: seq<Span>, n: nat, key: string, i: int)
    requires n < |spans| && Least(caller, spans, n, key, i)
    requires InExchange(spans, n + 1, key, n) && RankLt(caller, spans[n], spans[i])
    ensures Least(caller, spans, n + 1, key, n)
  {
    forall j | InExchange(spans, n + 1, key, j) && j != n
      ensures RankLt(caller, spans[n], spans[j])
    {
      assert InExchange(spans, n, key, j);
      RankTransitive(caller, spans[n], spans[i], spans[j]);
    }
  }

  lemma {:induction false} BestIsLeast(caller: set<string>, spans: seq<Span>, n: nat)
    requires n <= |spans|
    ensures BestSoFar(caller, spans, n, Best(caller, spans[..n]).vals)
  {
    if n > 0 {
      BestIsLeast(caller, spans, n - 1);
      assert spans[..n][..n - 1] == spans[..n - 1];
      hide Best;
      BestStep(caller, spans, n - 1, Best(caller, spans[..n - 1]));
      assert Best(caller, spans[..n]) == Consider(caller, Best(caller, spans[..n - 1]), spans[n - 1]) by {
        BestUnfolds(caller, spans[..n]);
      }
    }
  }

  lemma BestUnfolds(caller: set<string>, spans: seq<Span>)
    requires spans != []
    ensures Best(caller, spans) == Consider(caller, Best(caller, spans[..|spans| - 1]), spans[|spans| - 1])
  {
  }

  lemma BestStep(caller: set<string>, spans: seq<Span>, n: nat, best: Dict<string, Span>)
    requires n < |spans| && BestSoFar(caller, spans, n, best.vals)
    ensures BestSoFar(caller, spans, n + 1, Consider(caller, best, spans[n]).vals)
  {
    var m, s := Consider(caller, best, spans[n]).vals, spans[n];
    forall key | key in m
      ensures exists i :: Least(caller, spans, n + 1, key, i) && m[key] == spans[i]
    {
      StepKey(caller, spans, n, best, key);
    }
    forall j | InExchange(spans, n + 1, if 0 <= j < |spans| then Key(spans[j]) else "", j)
      ensures Key(spans[j]) in m
    {
      if j < n {
        assert InExchange(spans, n, Key(spans[j]), j);
      }
    }
  }

  lemma StepKey(caller: set<string>, spans: seq<Span>, n: nat, best: Dict<string, Span>, key: string)
    requires n < |spans| && BestSoFar(caller, spans, n, best.vals)
    requires key in Consider(caller, best, spans[n]).vals
    ensures exists i :: Least(caller, spans, n + 1, key, i) && Consider(caller, best, spans[n]).vals[key] == spans[i]
  {
    hide RankLt;
    var s := spans[n];
    if key in best.vals {
      var i :| Least(caller, spans, n, key, i) && best.vals[key] == spans[i];
      if s.stage == TurnStage && Key(s) == key && RankLt(caller, s, spans[i]) {
        LeastMoves(caller, spans, n, key, i);
      } else {
        LeastStays(caller, spans, n, key, i);
      }
    } else {
      FirstOfExchange(caller, spans, n, best.vals, key);
    }
  }

  lemma FirstOfExchange(caller: set<string>, spans: seq<Span>, n: nat, m: map<string, Span>, key: string)
    requires n < |spans| && BestSoFar(caller, spans, n, m) && key !in m
    requires spans[n].stage == TurnStage && Key(spans[n]) == key
    ensures Least(caller, spans, n + 1, key, n)
  {
    var upTo := n + 1;
    forall j | InExchange(spans, upTo, key, j)
      ensures j == n && InExchange(spans, upTo, key, j)
    {
      assert j < n ==> InExchange(spans, n, Key(spans[j]), j);
    }
  }

  ghost predicate Chosen(spans: seq<Span>, key: string, i: int) {
    Least(CallerSide(spans), spans, |spans|, key, i)
  }

  /** The result holds exactly the least span of every exchange, each once. */
  lemma OnePerExchange(spans: seq<Span>)
    ensures forall s :: s in TurnSpansSpec(spans) <==> exists i :: Chosen(spans, Key(s), i) && spans[i] == s
    ensures forall a, b :: 0 <= a < b < |TurnSpansSpec(spans)| ==>
      Key(TurnSpansSpec(spans)[a]) != Key(TurnSpansSpec(spans)[b])
    ensures forall j :: 0 <= j < |spans| && spans[j].stage == TurnStage ==>
      exists s :: s in TurnSpansSpec(spans) && Key(s) == Key(spans[j])
  {
    var caller := CallerSide(spans);
    var best := Best(caller, spans);
    BestValid(caller, spans);
    BestIsLeast(caller, spans, |spans|);
    assert spans[..|spans|] == spans;
    var vs := best.Values();
    SortedMembers(vs, Before);
    SortedKeeps(vs, Before);
    hide Best, CallerSide, Sorted;
    ValuesKeyed(caller, spans, best);
    DistinctKeysSurvive(vs, TurnSpansSpec(spans));
    forall s
      ensures s in TurnSpansSpec(spans) <==> exists i :: Chosen(spans, Key(s), i) && spans[i] == s
    {
      MemberIffLeast(caller, spans, best, s);
    }
    forall j | 0 <= j < |spans| && spans[j].stage == TurnStage
      ensures exists s :: s in TurnSpansSpec(spans) && Key(s) == Key(spans[j])
    {
      assert InExchange(spans, |spans|, Key(spans[j]), j);
      assert best.vals[Key(spans[j])] in vs by {
        ValueOf(best, Key(spans[j]));
      }
      KeyOfValue(caller, spans, best, Key(spans[j]));
    }
  }

  lemma ValueOf(best: Dict<string, Span>, key: string)
    requires best.Valid() && key in best.vals
    ensures best.vals[key] in best.Values()
  {
    var a :| 0 <= a < |best.keys| && best.keys[a] == key;
    assert best.Values()[a] == best.vals[key];
  }

  lemma KeyOfValue(caller: set<string>, spans: seq<Span>, best: Dict<string, Span>, key: string)
    requires BestSoFar(caller, spans, |spans|, best.vals) && key in best.vals
    ensures Key(best.vals[key]) == key
  {
    var i :| Least(caller, spans, |spans|, key, i) && best.vals[key] == spans[i];
  }

  lemma ValuesKeyed(caller: set<string>, spans: seq<Span>, best: Dict<string, Span>)
    requires best.Valid() && BestSoFar(caller, spans, |spans|, best.vals)
    ensures forall a :: 0 <= a < |best.keys| ==> Key(best.Values()[a]) == best.keys[a]
    ensures forall a, b :: 0 <= a < b < |best.Values()| ==> Key(best.Values()[a]) != Key(best.Values()[b])
  {
    forall a | 0 <= a < |best.keys|
      ensures Key(best.Values()[a]) == best.keys[a]
    {
      assert best.keys[a] in best.keys;
      KeyOfValue(caller, spans, best, best.keys[a]);
    }
  }

  lemma MemberIffLeast(caller: set<string>, spans: seq<Span>, best: Dict<string, Span>, s: Span)
    requires best.Valid() && BestSoFar(caller, spans, |spans|, best.vals)
    ensures s in best.Values() <==> exists i :: Least(caller, spans, |spans|, Key(s), i) && spans[i] == s
  {
    if s in best.Values() {
      var a :| 0 <= a < |best.keys| && best.Values()[a] == s;
      assert best.keys[a] in best.keys;
      var key := best.keys[a];
      var i :| Least(caller, spans, |spans|, key, i) && best.vals[key] == spans[i];
    }
    if i :| Least(caller, spans, |spans|, Key(s), i) && spans[i] == s {
      var key := Key(s);
      assert key in best.vals;
      var h :| Least(caller, spans, |spans|, key, h) && best.vals[key] == spans[h];
      LeastUnique(caller, spans, key, i, h);
      ValueOf(best, key);
    }
  }

  lemma LeastUnique(caller: set<string>, spans: seq<Span>, key: string, i: int, h: int)
    requires Least(caller, spans, |spans|, key, i) && Least(caller, spans, |spans|, key, h)
    ensures i == h
  {
  }

  lemma DistinctKeysSurvive(vs: seq<Span>, ws: seq<Span>)
    requires multiset(vs) == multiset(ws)
    requires forall a, b :: 0 <= a < b < |vs| ==> Key(vs[a]) != Key(vs[b])
    ensures forall a, b :: 0 <= a < b < |ws| ==> Key(ws[a]) != Key(ws[b])
  {
    forall a, b | 0 <= a < b < |ws|
      ensures Key(ws[a]) != Key(ws[b])
    {
      if Key(ws[a]) == Key(ws[b]) {
        assert ws[a] in multiset(vs) && ws[b] in multiset(vs);
        var x :| 0 <= x < |vs| && vs[x] == ws[a];
        var y :| 0 <= y < |vs| && vs[y] == ws[b];
        assert ws[a] == ws[b];
        TwiceCounted(ws, a, b);
        OnceCounted(vs, ws[a]);
        assert false;
      }
    }
  }

  lemma TwiceCounted(ws: seq<Span>, a: nat, b: nat)
    requires a < b < |ws| && ws[a] == ws[b]
    ensures multiset(ws)[ws[a]] >= 2
  {
    assert ws == ws[..b] + ws[b..];
    assert ws[..b][a] == ws[a] && ws[b..][0] == ws[b];
    assert multiset(ws) == multiset(ws[..b]) + multiset(ws[b..]);
    assert ws[a] in multiset(ws[..b]) && ws[b] in multiset(ws[b..]);
  }

  lemma {:induction false} OnceCounted(vs: seq<Span>, s: Span)
    requires forall a, b :: 0 <= a < b < |vs| ==> Key(vs[a]) != Key(vs[b])
    ensures multiset(vs)[s] <= 1
  {
    if vs != [] {
      var p, last := vs[..|vs| - 1], vs[|vs| - 1];
      OnceCounted(p, s);
      assert vs == p + [last];
      assert multiset(vs) == multiset(p) + multiset{last};
      if s == last {
        assert s !in p;
        assert multiset(p)[s] == 0;
      }
    }
  }

  /** In order: `x` may come before `y`. Timed spans go before untimed ones and by their times; of untimed ones those
      with a sequence number go first and by it. */
  predicate NotAfter(x: Span, y: Span) {
    && (y.tStart.Some? ==> x.tStart.Some? && x.tStart.value <= y.tStart.value)
    && (x.tStart.None? && y.tStart.None? && y.sequence.Some? ==>
          x.sequence.Some? && x.sequence.value <= y.sequence.value)
  }

  lemma OrderIs(x: Span, y: Span)
    ensures !OrderLt(y, x) <==> NotAfter(x, y)
  {
  }

  /** Sorted by turn index, those without one at a billion, and at equal index in order. */
  lemma ResultInOrder(spans: seq<Span>, a: nat, b: nat)
    requires a < b < |TurnSpansSpec(spans)|
    ensures var x, y := TurnSpansSpec(spans)[a], TurnSpansSpec(spans)[b];
      var i, j := x.turnIndex.GetOr(1_000_000_000), y.turnIndex.GetOr(1_000_000_000);
      && i <= j
      && (i == j ==> !OrderLt(y, x) && NotAfter(x, y))
  {
    BestValid(CallerSide(spans), spans);
    SortedOrders(Best(CallerSide(spans), spans).Values(), Before);
    assert Before(TurnSpansSpec(spans)[a], TurnSpansSpec(spans)[b]);
    OrderIs(TurnSpansSpec(spans)[a], TurnSpansSpec(spans)[b]);
  }

  // ---------------------------------------------------------------- what an exchange is

  predicate HasTurnId(s: Span) {
    s.turnId.Some? && s.turnId.value != ""
  }

  /** Two spans share an exchange: by their turn ids, or where one has none by its own id. */
  predicate SameExchange(a: Span, b: Span) {
    || (HasTurnId(a) && HasTurnId(b) && a.turnId == b.turnId)
    || (HasTurnId(a) && !HasTurnId(b) && a.turnId == Some(b.id))
    || (!HasTurnId(a) && HasTurnId(b) && b.turnId == Some(a.id))
    || (!HasTurnId(a) && !HasTurnId(b) && a.id == b.id)
  }

  /** Some STT or SPEECH span has it as its parent. */
  ghost predicate OnCallerSide(spans: seq<Span>, s: Span) {
    exists c :: c in spans && c.stage in {Stt, Speech} && c.parent == Some(s.id)
  }

  lemma CallerSideIs(spans: seq<Span>, s: Span)
    ensures s.id in CallerSide(spans) <==> OnCallerSide(spans, s)
  {
  }

  lemma KeysMeet(a: Span, b: Span)
    ensures Key(a) == Key(b) <==> SameExchange(a, b)
  {
  }

  /** No two spans of the result share an exchange. */
  lemma ExchangesApart(spans: seq<Span>, a: nat, b: nat)
    requires a < b < |TurnSpansSpec(spans)|
    ensures !SameExchange(TurnSpansSpec(spans)[a], TurnSpansSpec(spans)[b])
  {
    OnePerExchange(spans);
    KeysMeet(TurnSpansSpec(spans)[a], TurnSpansSpec(spans)[b]);
    hide TurnSpansSpec, Key, SameExchange;
  }

  lemma ChosenByKey(spans: seq<Span>, s: Span) returns (r: Span)
    requires s in spans && s.stage == TurnStage
    ensures r in TurnSpansSpec(spans) && Key(r) == Key(s)
  {
    OnePerExchange(spans);
    hide TurnSpansSpec, Key;
    var j :| 0 <= j < |spans| && spans[j] == s;
    r :| r in TurnSpansSpec(spans) && Key(r) == Key(s);
  }

  /** Every TURN span has one of its exchange in the result: a TURN span, on the caller's side if it is on that side
      itself, and if both or neither are, not after it. */
  lemma ExchangeKept(spans: seq<Span>, s: Span) returns (r: Span)
    requires s in spans && s.stage == TurnStage
    ensures r in TurnSpansSpec(spans) && r in spans && r.stage == TurnStage && SameExchange(s, r)
    ensures OnCallerSide(spans, s) ==> OnCallerSide(spans, r)
    ensures (OnCallerSide(spans, s) <==> OnCallerSide(spans, r)) ==> NotAfter(r, s)
  {
    hide *;
    r := ChosenByKey(spans, s);
    KeysMeet(s, r);
    ChosenIsUnbeaten(spans, r);
    Beats(spans, r, s);
    RankIs(spans, r, s);
  }

  lemma Beats(spans: seq<Span>, r: Span, s: Span)
    requires Unbeaten(spans, r) && s in spans && s.stage == TurnStage && Key(s) == Key(r)
    ensures r in spans && r.stage == TurnStage && !RankLt(CallerSide(spans), s, r)
  {
    hide RankLt, CallerSide;
  }

  lemma RankIs(spans: seq<Span>, r: Span, s: Span)
    ensures !RankLt(CallerSide(spans), s, r) <==>
      && (OnCallerSide(spans, s) ==> OnCallerSide(spans, r))
      && ((OnCallerSide(spans, s) <==> OnCallerSide(spans, r)) ==> NotAfter(r, s))
  {
    CallerSideIs(spans, r);
    CallerSideIs(spans, s);
    OrderIs(r, s);
    hide CallerSide, OnCallerSide, OrderLt, NotAfter;
  }

  /** In particular a turn id that no TURN span without one has as its own id is borne by exactly one span of the
      result, on the caller's side if any of its exchange is. */
  lemma TurnIdOnce(spans: seq<Span>, id: string, s: Span) returns (r: Span)
    requires id != "" && s in spans && s.stage == TurnStage && s.turnId == Some(id)
    requires forall o :: o in spans && o.stage == TurnStage && !HasTurnId(o) ==> o.id != id
    ensures r in TurnSpansSpec(spans) && r.turnId == Some(id) && (OnCallerSide(spans, s) ==> OnCallerSide(spans, r))
    ensures forall q :: q in TurnSpansSpec(spans) && q.turnId == Some(id) ==> q == r
  {
    hide TurnSpansSpec, OnCallerSide, NotAfter;
    r := ExchangeKept(spans, s);
    forall q | q in TurnSpansSpec(spans) && q.turnId == Some(id)
      ensures q == r
    {
      OneSpan(spans, q, r);
    }
  }

  lemma OneSpan(spans: seq<Span>, q: Span, r: Span)
    requires q in TurnSpansSpec(spans) && r in TurnSpansSpec(spans) && SameExchange(q, r)
    ensures q == r
  {
    hide TurnSpansSpec;
    var out := TurnSpansSpec(spans);
    var a :| 0 <= a < |out| && out[a] == q;
    var b :| 0 <= b < |out| && out[b] == r;
    if a < b {
      ExchangesApart(spans, a, b);
    } else if b < a {
      ExchangesApart(spans, b, a);
    }
  }

  /** And a TURN span that shares its exchange with no other is kept. */
  lemma LoneSpanKept(spans: seq<Span>, s: Span)
    requires s in spans && s.stage == TurnStage
    requires forall o :: o in spans && o.stage == TurnStage && SameExchange(s, o) ==> o == s
    ensures s in TurnSpansSpec(spans)
  {
    hide TurnSpansSpec, OnCallerSide, NotAfter, SameExchange;
    var r := ExchangeKept(spans, s);
  }

  // ---------------------------------------------------------------- independence of input order

  /** A span that no other of its exchange outranks. */
  ghost predicate Unbeaten(spans: seq<Span>, s: Span) {
    && s in spans && s.stage == TurnStage
    && forall s' :: s' in spans && s'.stage == TurnStage && Key(s') == Key(s) ==> !RankLt(CallerSide(spans), s', s)
  }

  /** Every exchange has one such span; those that are outranked may tie. */
  ghost predicate OneWinner(spans: seq<Span>) {
    forall a, b :: Unbeaten(spans, a) && Unbeaten(spans, b) && Key(a) == Key(b) ==> a == b
  }

  lemma LeastIsUnbeaten(spans: seq<Span>, i: int, s: Span, s': Span)
    requires Chosen(spans, Key(s), i) && spans[i] == s
    requires s' in spans && s'.stage == TurnStage && Key(s') == Key(s)
    ensures !RankLt(CallerSide(spans), s', s)
  {
    hide CallerSide;
    var j :| 0 <= j < |spans| && spans[j] == s';
    assert InExchange(spans, |spans|, Key(s), j);
  }

  /** What is chosen is unbeaten, ties or not. */
  lemma ChosenIsUnbeaten(spans: seq<Span>, s: Span)
    requires s in TurnSpansSpec(spans)
    ensures Unbeaten(spans, s)
  {
    OnePerExchange(spans);
    hide TurnSpansSpec, RankLt, CallerSide;
    var i :| Chosen(spans, Key(s), i) && spans[i] == s;
    forall s' | s' in spans && s'.stage == TurnStage && Key(s') == Key(s)
      ensures !RankLt(CallerSide(spans), s', s)
    {
      LeastIsUnbeaten(spans, i, s, s');
    }
  }

  /** With one winner an exchange, the chosen spans are those that no other span of their exchange outranks. */
  lemma ChosenIffUnbeaten(spans: seq<Span>, s: Span)
    requires OneWinner(spans)
    ensures s in TurnSpansSpec(spans) <==> Unbeaten(spans, s)
  {
    hide TurnSpansSpec, RankLt, CallerSide;
    if s in TurnSpansSpec(spans) {
      ChosenIsUnbeaten(spans, s);
    } else if Unbeaten(spans, s) {
      OnePerExchange(spans);
      var j :| 0 <= j < |spans| && spans[j] == s;
      var r :| r in TurnSpansSpec(spans) && Key(r) == Key(s);
      ChosenIsUnbeaten(spans, r);
    }
  }

  lemma SameUnbeaten(xs: seq<Span>, ys: seq<Span>)
    requires forall x :: x in xs <==> x in ys
    ensures forall s :: Unbeaten(xs, s) <==> Unbeaten(ys, s)
    ensures OneWinner(xs) <==> OneWinner(ys)
  {
    assert CallerSide(xs) == CallerSide(ys);
    hide CallerSide, RankLt;
  }

  ghost predicate SameChoice(xs: seq<Span>, ys: seq<Span>) {
    forall s :: s in TurnSpansSpec(xs) <==> s in TurnSpansSpec(ys)
  }

  /** Then reordering or repeating the input does not change the choice. */
  lemma ChoiceIgnoresOrder(xs: seq<Span>, ys: seq<Span>)
    requires OneWinner(xs) && forall x :: x in xs <==> x in ys
    ensures SameChoice(xs, ys)
  {
    hide TurnSpansSpec, Unbeaten, OneWinner;
    SameUnbeaten(xs, ys);
    forall s
      ensures s in TurnSpansSpec(xs) <==> s in TurnSpansSpec(ys)
    {
      ChosenIffUnbeaten(xs, s);
      ChosenIffUnbeaten(ys, s);
    }
  }

  function MovedUp(xs: seq<Span>, i: nat): seq<Span>
    requires i < |xs|
  {
    [xs[i]] + xs[..i] + xs[i + 1..]
  }

  lemma MovedUpIsReordering(xs: seq<Span>, i: nat)
    requires i < |xs|
    ensures multiset(MovedUp(xs, i)) == multiset(xs)
    ensures forall x :: x in xs <==> x in MovedUp(xs, i)
  {
    assert xs == xs[..i] + [xs[i]] + xs[i + 1..];
    SameMembers(xs, MovedUp(xs, i));
  }

  lemma SameMembers(xs: seq<Span>, ys: seq<Span>)
    requires multiset(xs) == multiset(ys)
    ensures forall x :: x in xs <==> x in ys
  {
    forall x
      ensures x in xs <==> x in ys
    {
      assert x in xs <==> x in multiset(xs);
      assert x in ys <==> x in multiset(ys);
    }
  }

  /** An unbeaten span that comes first is chosen. */
  lemma FirstUnbeatenIsChosen(spans: seq<Span>, s: Span)
    requires spans != [] && spans[0] == s && Unbeaten(spans, s)
    ensures s in TurnSpansSpec(spans)
  {
    OnePerExchange(spans);
    hide TurnSpansSpec, RankLt, CallerSide;
    assert Chosen(spans, Key(s), 0);
  }

  /** The choice does not depend on the order of the input if and only if no two unbeaten spans of an exchange
      differ. */
  lemma ChoiceIgnoresOrderIff(xs: seq<Span>)
    ensures (forall ys :: multiset(ys) == multiset(xs) ==> SameChoice(xs, ys)) <==> OneWinner(xs)
  {
    hide TurnSpansSpec, Unbeaten, SameChoice;
    if OneWinner(xs) {
      forall ys | multiset(ys) == multiset(xs)
        ensures SameChoice(xs, ys)
      {
        SameMembers(xs, ys);
        ChoiceIgnoresOrder(xs, ys);
      }
    } else {
      var a, b :| Unbeaten(xs, a) && Unbeaten(xs, b) && Key(a) == Key(b) && a != b;
      var ys := FirstWins(xs, a);
      var zs := FirstWins(xs, b);
      if SameChoice(xs, ys) && SameChoice(xs, zs) {
        BothChosen(xs, ys, zs, a, b);
      }
    }
  }

  lemma FirstWins(xs: seq<Span>, a: Span) returns (ys: seq<Span>)
    requires Unbeaten(xs, a)
    ensures multiset(ys) == multiset(xs) && a in TurnSpansSpec(ys)
  {
    hide TurnSpansSpec;
    var i :| 0 <= i < |xs| && xs[i] == a;
    ys := MovedUp(xs, i);
    MovedUpIsReordering(xs, i);
    SameUnbeaten(xs, ys);
    FirstUnbeatenIsChosen(ys, a);
  }

  lemma BothChosen(xs: seq<Span>, ys: seq<Span>, zs: seq<Span>, a: Span, b: Span)
    requires SameChoice(xs, ys) && SameChoice(xs, zs)
    requires a in TurnSpansSpec(ys) && b in TurnSpansSpec(zs) && Key(a) == Key(b)
    ensures a == b
  {
    OnePerExchange(xs);
    hide TurnSpansSpec;
    var r := TurnSpansSpec(xs);
    assert a in r && b in r;
    var i :| 0 <= i < |r| && r[i] == a;
    var j :| 0 <= j < |r| && r[j] == b;
    assert i < j || j < i || i == j;
  }
}
