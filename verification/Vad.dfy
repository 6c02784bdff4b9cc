/** Voice activity to utterances: the hangover state machine over speech frames. */
module Vad {

  /** Frames [start, end). */
  datatype Utterance = Utterance(start: nat, end: nat)

  /** More than `hangover` silent frames in a row, starting at `a`. */
  ghost predicate LongSilence(speech: seq<bool>, hangover: nat, a: nat) {
    a + hangover < |speech| && forall k :: a <= k <= a + hangover ==> !speech[k]
  }

  /** Starts on speech, holds no long silence, and ends just after speech where a long silence
      begins, or else at the end of the buffer. */
  ghost predicate Whole(speech: seq<bool>, hangover: nat, u: Utterance) {
    && u.start < u.end <= |speech| && speech[u.start]
    && (forall a :: u.start <= a && a + hangover < u.end ==> !LongSilence(speech, hangover, a))
    && (u.end == |speech| || (speech[u.end - 1] && LongSilence(speech, hangover, u.end)))
  }

  ghost predicate InOrder(us: seq<Utterance>) {
    forall m, n :: 0 <= m < n < |us| ==> us[m].end <= us[n].start
  }

  ghost predicate Within(us: seq<Utterance>, n: int, k: int) {
    0 <= n < |us| && us[n].start <= k < us[n].end
  }

  ghost predicate CoversSpeech(speech: seq<bool>, us: seq<Utterance>, bound: nat)
    requires bound <= |speech|
  {
    forall k :: 0 <= k < bound && speech[k] ==> exists n :: Within(us, n, k)
  }

  /** What the detector returns before the length filter. */
  ghost predicate Segmentation(speech: seq<bool>, hangover: nat, us: seq<Utterance>) {
    && (forall n :: 0 <= n < |us| ==> Whole(speech, hangover, us[n]))
    && InOrder(us)
    && CoversSpeech(speech, us, |speech|)
  }

  function LongEnough(us: seq<Utterance>, minFrames: nat): seq<Utterance> {
    if us == [] then []
    else
      var u := us[|us| - 1];
      LongEnough(us[..|us| - 1], minFrames) + if u.end - u.start >= minFrames then [u] else []
  }

  /** An utterance under way: silent for the last `gap` frames, and never longer than that. */
  ghost predicate Underway(speech: seq<bool>, hangover: nat, s: nat, gap: nat, i: nat) {
    && s + gap < i <= |speech| && speech[s] && gap <= hangover && speech[i - gap - 1]
    && (forall k :: i - gap <= k < i ==> !speech[k])
    && (forall a :: s <= a && a + hangover < i ==> !LongSilence(speech, hangover, a))
  }

  ghost predicate Progress(speech: seq<bool>, hangover: nat, us: seq<Utterance>, start: int, gap: nat, i: nat) {
    && i <= |speech|
    && (forall n :: 0 <= n < |us| ==> Whole(speech, hangover, us[n]) && us[n].end <= i)
    && InOrder(us)
    && (start >= 0 ==>
          && Underway(speech, hangover, start, gap, i)
          && CoversSpeech(speech, us, start)
          && (forall n :: 0 <= n < |us| ==> us[n].end <= start))
    && (start < 0 ==> CoversSpeech(speech, us, i))
  }

  /** `detect_utterances` from the speech flags on; `start` is -1 where the source has None. */
  method DetectUtterances(speech: seq<bool>, hangover: nat, minFrames: nat) returns (kept: seq<Utterance>)
    ensures exists us :: Segmentation(speech, hangover, us) && kept == LongEnough(us, minFrames)
  {
    Begin(speech, hangover);
    hide Progress, Segmentation, LongEnough;
    var utterances: seq<Utterance> := [];
    var start, gap := -1, 0;
    for i := 0 to |speech|
      invariant gap <= i && start < i && (start >= 0 ==> gap <= hangover)
      invariant Progress(speech, hangover, utterances, start, gap, i)
    {
      if speech[i] {
        HearSpeech(speech, hangover, utterances, start, gap, i);
        if start < 0 {
          start := i;
        }
        gap := 0;
      } else {
        HearSilence(speech, hangover, utterances, start, gap, i);
        if start >= 0 {
          gap := gap + 1;
          if gap > hangover {
            var end := i - gap + 1;
            utterances := utterances + [Utterance(start, end)];
            start := -1;
            gap := 0;
          }
        }
      }
    }
    Finish(speech, hangover, utterances, start, gap);
    if start >= 0 {
      utterances := utterances + [Utterance(start, |speech|)];
    }
    kept := LongEnough(utterances, minFrames);
  }

  lemma Begin(speech: seq<bool>, hangover: nat)
    ensures Progress(speech, hangover, [], -1, 0, 0)
  {
  }

  lemma HearSpeech(speech: seq<bool>, hangover: nat, us: seq<Utterance>, start: int, gap: nat, i: nat)
    requires i < |speech| && speech[i] && Progress(speech, hangover, us, start, gap, i)
    ensures Progress(speech, hangover, us, if start < 0 then i else start, 0, i + 1)
  {
    assert start >= 0 ==> speech[i - gap - 1];
  }

  lemma HearSilence(speech: seq<bool>, hangover: nat, us: seq<Utterance>, start: int, gap: nat, i: nat)
    requires i < |speech| && !speech[i] && Progress(speech, hangover, us, start, gap, i)
    ensures start < 0 ==> Progress(speech, hangover, us, start, gap, i + 1)
    ensures start >= 0 && gap < hangover ==> Progress(speech, hangover, us, start, gap + 1, i + 1)
    ensures start >= 0 && gap == hangover ==>
      Progress(speech, hangover, us + [Utterance(start, i - gap)], -1, 0, i + 1)
  {
    hide *;
    if start < 0 {
      SilenceBetween(speech, hangover, us, start, gap, i);
    } else if gap < hangover {
      SilenceGoesOn(speech, hangover, us, start, gap, i);
    } else {
      GapBound(speech, hangover, us, start, gap, i);
      SilenceCloses(speech, hangover, us, start, i);
    }
  }

  lemma GapBound(speech: seq<bool>, hangover: nat, us: seq<Utterance>, start: int, gap: nat, i: nat)
    requires Progress(speech, hangover, us, start, gap, i) && start >= 0
    ensures gap <= hangover && start < i - gap
  {
  }

  lemma SilenceBetween(speech: seq<bool>, hangover: nat, us: seq<Utterance>, start: int, gap: nat, i: nat)
    requires i < |speech| && !speech[i] && Progress(speech, hangover, us, start, gap, i) && start < 0
    ensures Progress(speech, hangover, us, start, gap, i + 1)
  {
    hide Whole;
  }

  lemma SilenceGoesOn(speech: seq<bool>, hangover: nat, us: seq<Utterance>, start: int, gap: nat, i: nat)
    requires i < |speech| && !speech[i] && Progress(speech, hangover, us, start, gap, i)
    requires start >= 0 && gap < hangover
    ensures Progress(speech, hangover, us, start, gap + 1, i + 1)
  {
    hide Whole;
    assert speech[i - gap - 1];
  }

  /** The utterance that a full hangover of silence closes. */
  lemma ClosedIsWhole(speech: seq<bool>, hangover: nat, s: nat, i: nat)
    requires i < |speech| && !speech[i] && Underway(speech, hangover, s, hangover, i)
    ensures Whole(speech, hangover, Utterance(s, i - hangover))
  {
    assert LongSilence(speech, hangover, i - hangover);
    hide LongSilence;
  }

  lemma SilenceCloses(speech: seq<bool>, hangover: nat, us: seq<Utterance>, start: int, i: nat)
    requires i < |speech| && !speech[i] && Progress(speech, hangover, us, start, hangover, i) && start >= 0
    ensures Progress(speech, hangover, us + [Utterance(start, i - hangover)], -1, 0, i + 1)
  {
    hide Whole, LongSilence, CoversSpeech;
    ClosedIsWhole(speech, hangover, start, i);
    AppendCovers(speech, us, start, i - hangover, i + 1);
  }

  lemma AppendCovers(speech: seq<bool>, us: seq<Utterance>, start: nat, end: nat, bound: nat)
    requires start < end <= |speech| && start <= bound <= |speech| && CoversSpeech(speech, us, start)
    requires forall k :: end <= k < bound ==> !speech[k]
    ensures CoversSpeech(speech, us + [Utterance(start, end)], bound)
  {
    var vs := us + [Utterance(start, end)];
    forall k | 0 <= k < bound && speech[k]
      ensures exists n :: Within(vs, n, k)
    {
      if k < start {
        var n :| Within(us, n, k);
        assert Within(vs, n, k);
      } else {
        assert Within(vs, |us|, k);
      }
    }
  }

  lemma Finish(speech: seq<bool>, hangover: nat, us: seq<Utterance>, start: int, gap: nat)
    requires Progress(speech, hangover, us, start, gap, |speech|)
    ensures start < 0 ==> Segmentation(speech, hangover, us)
    ensures start >= 0 ==> Segmentation(speech, hangover, us + [Utterance(start, |speech|)])
  {
    if start >= 0 {
      AppendCovers(speech, us, start, |speech|, |speech|);
    }
  }

  // ---------------------------------------------------------------- what a segmentation says

  /** Every speech frame lies in exactly one utterance. */
  lemma InExactlyOne(speech: seq<bool>, hangover: nat, us: seq<Utterance>, k: nat)
    requires Segmentation(speech, hangover, us) && k < |speech| && speech[k]
    ensures exists n :: Within(us, n, k)
    ensures forall m, n :: Within(us, m, k) && Within(us, n, k) ==> m == n
  {
    assert forall m, n :: 0 <= m < n < |us| ==> us[m].end <= us[n].start;
  }

  /** Two speech frames share an utterance exactly when no long silence separates them. */
  lemma ShareIff(speech: seq<bool>, hangover: nat, us: seq<Utterance>, i: nat, j: nat)
    requires Segmentation(speech, hangover, us) && i < j < |speech| && speech[i] && speech[j]
    ensures (exists n :: Within(us, n, i) && Within(us, n, j))
       <==> forall a :: i < a && a + hangover < j ==> !LongSilence(speech, hangover, a)
  {
    InExactlyOne(speech, hangover, us, i);
    InExactlyOne(speech, hangover, us, j);
    var m :| Within(us, m, i);
    var n :| Within(us, n, j);
    forall p, q | 0 <= p < q < |us|
      ensures us[p].end <= us[q].start && LongSilence(speech, hangover, us[p].end)
    {
      assert Whole(speech, hangover, us[p]);
    }
  }

  /** Only the last utterance can end on silence, then at the end of the buffer and on at most
      `hangover` silent frames. */
  lemma EndsOnSpeech(speech: seq<bool>, hangover: nat, us: seq<Utterance>, n: nat)
    requires Segmentation(speech, hangover, us) && n < |us| && !speech[us[n].end - 1]
    ensures n == |us| - 1 && us[n].end == |speech|
    ensures exists k :: us[n].start <= k < |speech| && |speech| - 1 - k <= hangover && speech[k]
  {
    hide *;
    UtteranceWhole(speech, hangover, us, n);
    UtteranceWhole(speech, hangover, us, |us| - 1);
    SpokeRecently(speech, hangover, us[n]);
    LastInOrder(speech, hangover, us, n);
  }

  lemma UtteranceWhole(speech: seq<bool>, hangover: nat, us: seq<Utterance>, n: nat)
    requires Segmentation(speech, hangover, us) && n < |us|
    ensures Whole(speech, hangover, us[n])
  {
    hide Whole;
  }

  lemma LastInOrder(speech: seq<bool>, hangover: nat, us: seq<Utterance>, n: nat)
    requires Segmentation(speech, hangover, us) && n < |us| && us[n].end == |speech|
    requires Whole(speech, hangover, us[|us| - 1])
    ensures n == |us| - 1
  {
    hide LongSilence, CoversSpeech;
    assert forall k :: 0 <= k < |us| - 1 ==> us[k].end <= us[|us| - 1].start;
  }

  lemma SpokeRecently(speech: seq<bool>, hangover: nat, u: Utterance)
    requires Whole(speech, hangover, u) && !speech[u.end - 1]
    ensures u.end == |speech|
    ensures exists k :: u.start <= k < |speech| && |speech| - 1 - k <= hangover && speech[k]
  {
    if u.end > u.start + hangover {
      var a := u.end - 1 - hangover;
      assert !LongSilence(speech, hangover, a);
      var k :| a <= k <= a + hangover && speech[k];
    } else {
      assert speech[u.start];
    }
  }

  // ---------------------------------------------------------------- and that it is the only one

  /** The utterance of `vs` that holds the start of `us[n]` is not among the first `n`. */
  lemma HeldFromHere(us: seq<Utterance>, vs: seq<Utterance>, n: nat, m: int)
    requires InOrder(us) && InOrder(vs) && n < |us| && n <= |vs| && Within(vs, m, us[n].start)
    requires (forall k :: 0 <= k < n ==> us[k] == vs[k]) && (n < |vs| ==> vs[n].start < vs[n].end)
    ensures n < |vs| && vs[n].start <= us[n].start
  {
    assert forall k :: 0 <= k < n ==> vs[k] == us[k] && us[k].end <= us[n].start;
    assert m > n ==> vs[n].end <= vs[m].start;
  }

  lemma NoEarlierStart(speech: seq<bool>, hangover: nat, us: seq<Utterance>, vs: seq<Utterance>, n: nat)
    requires Segmentation(speech, hangover, us) && Segmentation(speech, hangover, vs)
    requires n < |us| && n <= |vs| && forall m :: 0 <= m < n ==> us[m] == vs[m]
    ensures n < |vs| && vs[n].start <= us[n].start
  {
    var m := Holder(speech, hangover, us, vs, n);
    assert n < |vs| ==> Whole(speech, hangover, vs[n]);
    hide InOrder, LongSilence, Within, CoversSpeech;
    HeldFromHere(us, vs, n, m);
  }

  lemma Holder(speech: seq<bool>, hangover: nat, us: seq<Utterance>, vs: seq<Utterance>, n: nat) returns (m: int)
    requires Segmentation(speech, hangover, us) && Segmentation(speech, hangover, vs) && n < |us|
    ensures Within(vs, m, us[n].start)
  {
    hide InOrder, LongSilence, Within;
    assert Whole(speech, hangover, us[n]);
    m :| Within(vs, m, us[n].start);
  }

  /** Of two utterances with one start neither ends before the other. */
  lemma NoEarlierEnd(speech: seq<bool>, hangover: nat, u: Utterance, v: Utterance)
    requires Whole(speech, hangover, u) && Whole(speech, hangover, v) && u.start == v.start
    ensures v.end <= u.end
  {
    hide LongSilence;
    if u.end < v.end {
      LongSilenceRunsOn(speech, hangover, u, v);
    }
  }

  lemma LongSilenceRunsOn(speech: seq<bool>, hangover: nat, u: Utterance, v: Utterance)
    requires Whole(speech, hangover, v) && u.start <= u.end < v.end && u.start == v.start
    ensures !LongSilence(speech, hangover, u.end)
  {
    assert v.end == |speech| || speech[v.end - 1];
  }

  lemma NextSame(speech: seq<bool>, hangover: nat, us: seq<Utterance>, vs: seq<Utterance>, n: nat)
    requires Segmentation(speech, hangover, us) && Segmentation(speech, hangover, vs)
    requires n < |us| && n <= |vs| && forall m :: 0 <= m < n ==> us[m] == vs[m]
    ensures n < |vs| && us[n] == vs[n]
  {
    NoEarlierStart(speech, hangover, us, vs, n);
    NoEarlierStart(speech, hangover, vs, us, n);
    assert Whole(speech, hangover, us[n]) && Whole(speech, hangover, vs[n]);
    hide Whole, InOrder, CoversSpeech;
    NoEarlierEnd(speech, hangover, us[n], vs[n]);
    NoEarlierEnd(speech, hangover, vs[n], us[n]);
  }

  lemma {:induction false} SamePrefix(speech: seq<bool>, hangover: nat, us: seq<Utterance>, vs: seq<Utterance>, n: nat)
    requires Segmentation(speech, hangover, us) && Segmentation(speech, hangover, vs) && n <= |us|
    ensures n <= |vs| && forall m :: 0 <= m < n ==> us[m] == vs[m]
  {
    hide *;
    if n > 0 {
      SamePrefix(speech, hangover, us, vs, n - 1);
      NextSame(speech, hangover, us, vs, n - 1);
    }
  }

  /** So the detector's output is a function of its input: the declarative segmentation, filtered. */
  lemma OnlySegmentation(speech: seq<bool>, hangover: nat, us: seq<Utterance>, vs: seq<Utterance>)
    requires Segmentation(speech, hangover, us) && Segmentation(speech, hangover, vs)
    ensures us == vs
  {
    SamePrefix(speech, hangover, us, vs, |us|);
    SamePrefix(speech, hangover, vs, us, |vs|);
  }

  /** The filter keeps exactly the utterances of at least `minFrames`, in order. */
  lemma {:induction false} LongEnoughKeeps(us: seq<Utterance>, minFrames: nat)
    requires InOrder(us)
    ensures InOrder(LongEnough(us, minFrames))
    ensures forall u :: u in LongEnough(us, minFrames) <==> u in us && u.end - u.start >= minFrames
  {
    if us != [] {
      var p, u := us[..|us| - 1], us[|us| - 1];
      LongEnoughKeeps(p, minFrames);
      assert us == p + [u];
    }
  }
}
