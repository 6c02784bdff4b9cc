/** Word error rate: the two-row Levenshtein loop, and what the number it computes means.

    The loop is proved against `Dist`; `Dist` is proved to be the least cost of any edit script
    that rewrites the reference into the hypothesis, and so to be a metric on word lists. */
module EditDistance {
  import opened Seqs

  datatype Edit<T> =
    | Keep(x: T)
    | Substitute(x: T, y: T)
    | Insert(y: T)
    | Delete(x: T)
  {
    function Consumed(): seq<T> {
      match this
      case Keep(x) => [x]
      case Substitute(x, _) => [x]
      case Insert(_) => []
      case Delete(x) => [x]
    }

    function Produced(): seq<T> {
      match this
      case Keep(x) => [x]
      case Substitute(_, y) => [y]
      case Insert(y) => [y]
      case Delete(_) => []
    }

    function Price(): nat {
      if Keep? then 0 else 1
    }
  }

  type Script<T> = seq<Edit<T>>

  // The word list a script starts from, the one it ends with, and its number of errors.
  function Source<T>(s: Script<T>): seq<T> {
    if s == [] then [] else Source(Init(s)) + Last(s).Consumed()
  }

  function Target<T>(s: Script<T>): seq<T> {
    if s == [] then [] else Target(Init(s)) + Last(s).Produced()
  }

  function Cost<T>(s: Script<T>): nat {
    if s == [] then 0 else Cost(Init(s)) + Last(s).Price()
  }

  ghost predicate Rewrites<T>(s: Script<T>, a: seq<T>, b: seq<T>) {
    Source(s) == a && Target(s) == b
  }

  // ---------------------------------------------------------------- the recurrence

  /** One cell from the cells above, to the left and above-left. */
  function Cheapest(up: nat, left: nat, diagonal: nat, same: bool): nat {
    var cost := if same then 0 else 1;
    if up + 1 <= left + 1 && up + 1 <= diagonal + cost then up + 1
    else if left + 1 <= diagonal + cost then left + 1
    else diagonal + cost
  }

  /** The dynamic-programming table: the entry for the first `i` and the first `j` words. */
  function Table<T(==)>(a: seq<T>, b: seq<T>, i: nat, j: nat): nat
    requires i <= |a| && j <= |b|
  {
    if i == 0 then j
    else if j == 0 then i
    else
      Cheapest(Table(a, b, i - 1, j), Table(a, b, i, j - 1), Table(a, b, i - 1, j - 1), a[i - 1] == b[j - 1])
  }

  function Dist<T(==)>(a: seq<T>, b: seq<T>): nat {
    Table(a, b, |a|, |b|)
  }

  lemma {:induction false} TableOfPrefixes<T>(a: seq<T>, b: seq<T>, a': seq<T>, b': seq<T>, i: nat, j: nat)
    requires i <= |a'| && a' <= a && j <= |b'| && b' <= b
    ensures Table(a, b, i, j) == Table(a', b', i, j)
    decreases i + j
  {
    if i > 0 && j > 0 {
      TableOfPrefixes(a, b, a', b', i - 1, j);
      TableOfPrefixes(a, b, a', b', i, j - 1);
      TableOfPrefixes(a, b, a', b', i - 1, j - 1);
    }
  }

  /** The recurrence on whole lists. */
  lemma Unfold<T>(a: seq<T>, b: seq<T>)
    requires a != [] && b != []
    ensures Dist(a, b)
         == Cheapest(Dist(Init(a), b), Dist(a, Init(b)), Dist(Init(a), Init(b)), Last(a) == Last(b))
  {
    TableOfPrefixes(a, b, Init(a), b, |a| - 1, |b|);
    TableOfPrefixes(a, b, a, Init(b), |a|, |b| - 1);
    TableOfPrefixes(a, b, Init(a), Init(b), |a| - 1, |b| - 1);
  }

  ghost predicate IsRow<T>(row: seq<nat>, a: seq<T>, b: seq<T>, i: nat, n: nat)
    requires i <= |a| && n <= |b| + 1
  {
    |row| == n && forall j :: 0 <= j < n ==> row[j] == Table(a, b, i, j)
  }

  /** `wer` over normalized word lists: `prev` is always the table row of the words read so far. */
  method Wer<T(==)>(ref: seq<T>, hyp: seq<T>) returns (rate: real)
    ensures rate == WerSpec(ref, hyp)
  {
    if ref == [] {
      return if hyp == [] then 0.0 else 1.0;
    }
    var prev: seq<nat> := seq(|hyp| + 1, j requires 0 <= j => j);
    for i := 1 to |ref| + 1
      invariant IsRow(prev, ref, hyp, i - 1, |hyp| + 1)
    {
      var cur: seq<nat> := [i];
      for j := 1 to |hyp| + 1
        invariant IsRow(cur, ref, hyp, i, j)
      {
        cur := cur + [Cheapest(prev[j], cur[j - 1], prev[j - 1], ref[i - 1] == hyp[j - 1])];
      }
      prev := cur;
    }
    rate := prev[|prev| - 1] as real / |ref| as real;
  }

  function WerSpec<T(==)>(ref: seq<T>, hyp: seq<T>): real {
    if ref == [] then (if hyp == [] then 0.0 else 1.0)
    else Dist(ref, hyp) as real / |ref| as real
  }

  // ---------------------------------------------------------------- least cost over all scripts

  lemma OneMoreEdit<T>(a: seq<T>, b: seq<T>, e: Edit<T>)
    ensures Dist(a + e.Consumed(), b + e.Produced()) <= Dist(a, b) + e.Price()
  {
    var p, q := a + e.Consumed(), b + e.Produced();
    assert if e.Insert? then p == a else Init(p) == a;
    assert if e.Delete? then q == b else Init(q) == b;
    if p != [] && q != [] {
      Unfold(p, q);
    }
  }

  /** No script is cheaper than the recurrence says. */
  lemma {:induction false} NoCheaperScript<T>(s: Script<T>)
    ensures Cost(s) >= Dist(Source(s), Target(s))
  {
    if s != [] {
      NoCheaperScript(Init(s));
      OneMoreEdit(Source(Init(s)), Target(Init(s)), Last(s));
    }
  }

  /** The last edit of a cheapest script. */
  function FinalEdit<T(==)>(a: seq<T>, b: seq<T>): (e: Edit<T>)
    requires a != [] || b != []
    ensures e.Insert? || (a != [] && e.Consumed() == [Last(a)])
    ensures e.Delete? || (b != [] && e.Produced() == [Last(b)])
  {
    if a == [] then Insert(Last(b))
    else if b == [] then Delete(Last(a))
    else if Dist(a, b) == Dist(Init(a), b) + 1 then Delete(Last(a))
    else if Dist(a, b) == Dist(a, Init(b)) + 1 then Insert(Last(b))
    else if Last(a) == Last(b) then Keep(Last(a))
    else Substitute(Last(a), Last(b))
  }

  function Before<T(==)>(a: seq<T>, b: seq<T>): (r: (seq<T>, seq<T>))
    requires a != [] || b != []
    ensures |r.0| + |r.1| < |a| + |b|
    ensures r.0 + FinalEdit(a, b).Consumed() == a && r.1 + FinalEdit(a, b).Produced() == b
  {
    var e := FinalEdit(a, b);
    (if e.Insert? then a else Init(a), if e.Delete? then b else Init(b))
  }

  lemma FinalEditPays<T>(a: seq<T>, b: seq<T>)
    requires a != [] || b != []
    ensures Dist(a, b) == Dist(Before(a, b).0, Before(a, b).1) + FinalEdit(a, b).Price()
  {
    if a != [] && b != [] {
      Unfold(a, b);
    }
  }

  /** A script that attains it. */
  function Best<T(==)>(a: seq<T>, b: seq<T>): (s: Script<T>)
    decreases |a| + |b|
  {
    if a == [] && b == [] then []
    else Best(Before(a, b).0, Before(a, b).1) + [FinalEdit(a, b)]
  }

  lemma {:induction false} BestRewrites<T>(a: seq<T>, b: seq<T>)
    ensures Rewrites(Best(a, b), a, b)
    decreases |a| + |b|
  {
    if a != [] || b != [] {
      var (p, q) := Before(a, b);
      BestRewrites(p, q);
    }
  }

  lemma {:induction false} BestAttains<T>(a: seq<T>, b: seq<T>)
    ensures Rewrites(Best(a, b), a, b) && Cost(Best(a, b)) == Dist(a, b)
    decreases |a| + |b|
  {
    BestRewrites(a, b);
    if a != [] || b != [] {
      var (p, q) := Before(a, b);
      BestAttains(p, q);
      FinalEditPays(a, b);
    }
  }

  /** The distance is the minimum cost over every insert/delete/substitute script. */
  lemma {:induction false} LeastCost<T>(a: seq<T>, b: seq<T>)
    ensures exists s: Script<T> :: Rewrites(s, a, b) && Cost(s) == Dist(a, b)
    ensures forall s: Script<T> :: Rewrites(s, a, b) ==> Cost(s) >= Dist(a, b)
  {
    BestAttains(a, b);
    forall s: Script<T> | Rewrites(s, a, b)
      ensures Cost(s) >= Dist(a, b)
    {
      NoCheaperScript(s);
    }
  }

  // ---------------------------------------------------------------- a metric

  function Flip<T>(s: Script<T>): Script<T> {
    if s == [] then []
    else
      var e := match Last(s)
        case Keep(x) => Keep(x)
        case Substitute(x, y) => Substitute(y, x)
        case Insert(y) => Delete(y)
        case Delete(x) => Insert(x);
      Flip(Init(s)) + [e]
  }

  lemma {:induction false} FlipReverses<T>(s: Script<T>)
    ensures Rewrites(Flip(s), Target(s), Source(s)) && Cost(Flip(s)) == Cost(s)
  {
    if s != [] {
      FlipReverses(Init(s));
    }
  }

  lemma {:induction false} Symmetric<T>(a: seq<T>, b: seq<T>)
    ensures Dist(a, b) == Dist(b, a)
  {
    BestAttains(a, b);
    BestAttains(b, a);
    FlipReverses(Best(a, b));
    FlipReverses(Best(b, a));
    NoCheaperScript(Flip(Best(a, b)));
    NoCheaperScript(Flip(Best(b, a)));
  }

  /** One edit after another on the same middle word; `[]` when the word comes and goes. */
  function Fuse<T>(e: Edit<T>, f: Edit<T>): Script<T>
    requires !e.Delete? && !f.Insert?
  {
    match (e, f)
    case (Keep(_), _) => [f]
    case (Substitute(_, _), Keep(_)) => [e]
    case (Substitute(x, _), Substitute(_, z)) => [Substitute(x, z)]
    case (Substitute(x, _), Delete(_)) => [Delete(x)]
    case (Insert(_), Keep(_)) => [e]
    case (Insert(_), Substitute(_, z)) => [Insert(z)]
    case (Insert(_), _) => []
  }

  function Compose<T>(s: Script<T>, t: Script<T>): Script<T>
    decreases |s| + |t|
  {
    if t == [] then s
    else if s == [] then t
    else if Last(t).Insert? then Compose(s, Init(t)) + [Last(t)]
    else if Last(s).Delete? then Compose(Init(s), t) + [Last(s)]
    else Compose(Init(s), Init(t)) + Fuse(Last(s), Last(t))
  }

  lemma FuseFits<T>(c: Script<T>, e: Edit<T>, f: Edit<T>)
    requires !e.Delete? && !f.Insert? && e.Produced() == f.Consumed()
    ensures Source(c + Fuse(e, f)) == Source(c) + e.Consumed()
    ensures Target(c + Fuse(e, f)) == Target(c) + f.Produced()
    ensures Cost(c + Fuse(e, f)) <= Cost(c) + e.Price() + f.Price()
  {
    var g := Fuse(e, f);
    assert e.Produced()[0] == f.Consumed()[0];
    if g == [] {
      assert c + g == c;
    } else {
      assert g == [g[0]];
    }
  }

  /** The word that both scripts end on in the middle text is the same word. */
  lemma MiddleWord<T>(s: Script<T>, t: Script<T>)
    requires s != [] && t != [] && Target(s) == Source(t)
    requires !Last(s).Delete? && !Last(t).Insert?
    ensures Target(Init(s)) == Source(Init(t)) && Last(s).Produced() == Last(t).Consumed()
  {
    var p, q := Last(s).Produced(), Last(t).Consumed();
    assert |p| == 1 && |q| == 1;
    assert Last(Target(s)) == p[0] && Last(Source(t)) == q[0];
    assert Init(Target(s)) == Target(Init(s)) && Init(Source(t)) == Source(Init(t));
  }

  lemma {:induction false} ComposeChains<T>(s: Script<T>, t: Script<T>)
    requires Target(s) == Source(t)
    ensures Rewrites(Compose(s, t), Source(s), Target(t))
    ensures Cost(Compose(s, t)) <= Cost(s) + Cost(t)
    decreases |s| + |t|
  {
    if t == [] || s == [] {
    } else if Last(t).Insert? {
      ComposeChains(s, Init(t));
    } else if Last(s).Delete? {
      ComposeChains(Init(s), t);
    } else {
      MiddleWord(s, t);
      ComposeChains(Init(s), Init(t));
      FuseFits(Compose(Init(s), Init(t)), Last(s), Last(t));
    }
  }

  lemma {:induction false} Triangle<T>(a: seq<T>, b: seq<T>, c: seq<T>)
    ensures Dist(a, c) <= Dist(a, b) + Dist(b, c)
  {
    BestAttains(a, b);
    BestAttains(b, c);
    ComposeChains(Best(a, b), Best(b, c));
    NoCheaperScript(Compose(Best(a, b), Best(b, c)));
  }

  lemma {:induction false} ZeroIffEqual<T>(a: seq<T>, b: seq<T>)
    ensures Dist(a, b) == 0 <==> a == b
    decreases |a| + |b|
  {
    if a != [] && b != [] {
      assert a == Init(a) + [Last(a)] && b == Init(b) + [Last(b)];
      Unfold(a, b);
      ZeroIffEqual(Init(a), Init(b));
    }
  }

  /** At least the difference of the lengths, at most the longer length. */
  lemma {:induction false} Bounds<T>(a: seq<T>, b: seq<T>)
    ensures |a| - |b| <= Dist(a, b) && |b| - |a| <= Dist(a, b)
    ensures Dist(a, b) <= |a| || Dist(a, b) <= |b|
    decreases |a| + |b|
  {
    if a != [] && b != [] {
      Unfold(a, b);
      Bounds(Init(a), b);
      Bounds(a, Init(b));
      Bounds(Init(a), Init(b));
    }
  }

  /** The rate reads zero exactly for identical texts, empty ones included, and passes 1 only
      when the hypothesis is longer than the reference. */
  lemma {:induction false} WerZeroIffIdentical<T>(ref: seq<T>, hyp: seq<T>)
    ensures WerSpec(ref, hyp) >= 0.0
    ensures WerSpec(ref, hyp) == 0.0 <==> ref == hyp
    ensures WerSpec(ref, hyp) > 1.0 ==> |hyp| > |ref|
  {
    ZeroIffEqual(ref, hyp);
    Bounds(ref, hyp);
    if ref != [] {
      Ratio(Dist(ref, hyp), |ref|);
    }
  }

  lemma Ratio(d: nat, n: nat)
    requires n > 0
    ensures d as real / n as real >= 0.0
    ensures d as real / n as real == 0.0 <==> d == 0
    ensures d as real / n as real > 1.0 <==> d > n
  {
    var x, y := d as real, n as real;
    assert (x / y) * y == x;
  }

  /** The rate itself: the errors of a cheapest script over the words of the reference; without any, none for an empty
      hypothesis and one for any other. */
  lemma WerIsLeastErrors<T>(ref: seq<T>, hyp: seq<T>)
    ensures ref == [] ==> WerSpec(ref, hyp) == if hyp == [] then 0.0 else 1.0
    ensures var errors := WerSpec(ref, hyp) * |ref| as real;
      ref != [] ==>
        && (exists s: Script<T> :: Rewrites(s, ref, hyp) && errors == Cost(s) as real)
        && (forall s: Script<T> :: Rewrites(s, ref, hyp) ==> errors <= Cost(s) as real)
  {
    hide *;
    WerIs(ref, hyp);
    LeastCost(ref, hyp);
  }

  lemma WerIs<T>(ref: seq<T>, hyp: seq<T>)
    ensures ref == [] ==> WerSpec(ref, hyp) == if hyp == [] then 0.0 else 1.0
    ensures ref != [] ==> WerSpec(ref, hyp) * |ref| as real == Dist(ref, hyp) as real
  {
    hide Dist;
  }
}
