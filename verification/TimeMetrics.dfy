/** What the calculator computes from interval lists: the unexplained part of a turn's latency
    window, and the talk and silence metrics of a call. Times are whole ticks of 0.1 ms. */
module TimeMetrics {
  import opened Options
  import opened Seqs
  import opened Sorting
  import opened Intervals

  datatype Stage = Stt | Llm | Tts | Playout | OtherStage

  /** A span's stage and clock; either end of the clock may be missing. */
  datatype Window = Window(stage: Stage, tStart: Option<int>, tEnd: Option<int>)

  function ToAudio(t: Option<int>, offset: int): Option<int> {
    if t.None? then None else Some(t.value - offset)
  }

  function Closed(a: Option<int>, b: Option<int>): seq<Interval> {
    if a.Some? && b.Some? then [Interval(a.value, b.value)] else []
  }

  /** The audio-clock windows of the spans that have both ends. */
  function Windows(spans: seq<Window>, offset: int): seq<Interval> {
    if spans == [] then []
    else
      Windows(Init(spans), offset)
      + Closed(ToAudio(Last(spans).tStart, offset), ToAudio(Last(spans).tEnd, offset))
  }

  // ---------------------------------------------------------------- unexplained latency

  /** The number of ticks of [lo, hi) that no segment covers. */
  function Unexplained(lo: int, hi: int, segs: seq<Interval>): nat {
    |Range(lo, hi) - Points(segs)|
  }

  function Clip(lo: int, hi: int, x: Interval): seq<Interval> {
    if Min(hi, x.e) > Max(lo, x.s) then [Interval(Max(lo, x.s), Min(hi, x.e))] else []
  }

  function Clipped(lo: int, hi: int, segs: seq<Interval>): seq<Interval> {
    if segs == [] then [] else Clipped(lo, hi, Init(segs)) + Clip(lo, hi, Last(segs))
  }

  lemma {:induction false} ClippedExact(lo: int, hi: int, segs: seq<Interval>)
    ensures AllProper(Clipped(lo, hi, segs))
    ensures Points(Clipped(lo, hi, segs)) == Range(lo, hi) * Points(segs)
  {
    if segs != [] {
      var before, x := Init(segs), Last(segs);
      ClippedExact(lo, hi, before);
      ClipExact(lo, hi, x);
      hide Clip;
      PointsConcat(Clipped(lo, hi, before), Clip(lo, hi, x));
      assert Points(segs) == Points(before) + Range(x.s, x.e);
      hide Range, Points, Clipped;
      assert Range(lo, hi) * (Points(before) + Range(x.s, x.e))
          == Range(lo, hi) * Points(before) + Range(lo, hi) * Range(x.s, x.e);
    }
  }

  lemma ClipExact(lo: int, hi: int, x: Interval)
    ensures AllProper(Clip(lo, hi, x)) && Points(Clip(lo, hi, x)) == Range(lo, hi) * Range(x.s, x.e)
  {
  }

  method Uncovered(callerStop: Option<int>, agentOut: Option<int>, speechEnd: Option<int>,
                   sttStart: Option<int>, spans: seq<Window>, offset: int) returns (r: Option<int>)
    ensures r.Some? <==> callerStop.Some? && agentOut.Some? && callerStop.value < agentOut.value
    ensures r.Some? ==>
      r.value == Unexplained(callerStop.value, agentOut.value,
                             Closed(speechEnd, sttStart) + Windows(spans, offset))
  {
    if callerStop.None? || agentOut.None? || agentOut.value <= callerStop.value {
      return None;
    }
    var lo, hi := callerStop.value, agentOut.value;
    var segs := [];
    if speechEnd.Some? && sttStart.Some? {
      segs := [Interval(speechEnd.value, sttStart.value)];
    }
    ghost var hold := segs;
    for k := 0 to |spans|
      invariant segs == hold + Windows(spans[..k], offset)
    {
      var a, b := ToAudio(spans[k].tStart, offset), ToAudio(spans[k].tEnd, offset);
      assert Init(spans[..k + 1]) == spans[..k];
      if a.Some? && b.Some? {
        segs := segs + [Interval(a.value, b.value)];
      }
    }
    assert spans[..|spans|] == spans;
    var merged := Merge(Clipped(lo, hi, segs));
    UncoveredMeasure(lo, hi, segs);
    r := Some(Max(0, (hi - lo) - Total(merged)));
  }

  /** The subtraction is never negative, so clamping at zero changes nothing. */
  lemma UncoveredMeasure(lo: int, hi: int, segs: seq<Interval>)
    requires lo < hi
    ensures (hi - lo) - Total(Merged(Clipped(lo, hi, segs))) == Unexplained(lo, hi, segs)
  {
    hide Points, Range, Clipped, Merged, Total;
    ClippedExact(lo, hi, segs);
    MergedExact(Clipped(lo, hi, segs));
    MergedTotal(Clipped(lo, hi, segs));
    RangeSize(lo, hi);
    assert Range(lo, hi) - Points(segs) == Range(lo, hi) - Range(lo, hi) * Points(segs);
  }

  /** Between nothing and the whole window; nothing exactly when every tick is covered. */
  lemma UnexplainedBounds(lo: int, hi: int, segs: seq<Interval>)
    ensures Unexplained(lo, hi, segs) <= Max(0, hi - lo)
    ensures Unexplained(lo, hi, segs) == 0 <==> forall t :: t in Range(lo, hi) ==> Covers(segs, t)
  {
    RangeSize(lo, hi);
    PointsAreCovered(segs);
    Leftover(Points(segs), Range(lo, hi));
    Nothing(Range(lo, hi), Points(segs));
  }

  lemma Nothing(r: set<int>, p: set<int>)
    ensures |r - p| == 0 <==> forall t :: t in r ==> t in p
  {
    if forall t :: t in r ==> t in p {
      assert r - p == {};
    } else {
      var t :| t in r && t !in p;
      assert t in r - p;
    }
  }

  /** Order and repetition of the segments do not matter. */
  lemma UnexplainedOfMembers(lo: int, hi: int, segs: seq<Interval>, segs': seq<Interval>)
    requires forall x :: x in segs <==> x in segs'
    ensures Unexplained(lo, hi, segs) == Unexplained(lo, hi, segs')
  {
    PointsOfMembers(segs, segs');
  }

  /** Cutting a segment in two changes nothing. */
  lemma UnexplainedSplit(lo: int, hi: int, pre: seq<Interval>, x: Interval, m: int, post: seq<Interval>)
    requires x.s <= m <= x.e
    ensures Unexplained(lo, hi, pre + [x] + post)
         == Unexplained(lo, hi, pre + [Interval(x.s, m), Interval(m, x.e)] + post)
  {
    var l, r := Interval(x.s, m), Interval(m, x.e);
    PointsConcat(pre + [x], post);
    PointsAppend(pre, x);
    assert pre + [l, r] == (pre + [l]) + [r];
    PointsConcat(pre + [l, r], post);
    PointsAppend(pre + [l], r);
    PointsAppend(pre, l);
    assert Range(x.s, x.e) == Range(l.s, l.e) + Range(r.s, r.e);
    assert Points(pre + [x] + post) == Points(pre + [l, r] + post);
  }

  /** One more span never leaves more unexplained. */
  lemma UnexplainedShrinks(lo: int, hi: int, segs: seq<Interval>, x: Interval)
    ensures Unexplained(lo, hi, segs + [x]) <= Unexplained(lo, hi, segs)
    ensures Unexplained(lo, hi, segs + [x]) == Unexplained(lo, hi, segs)
       <==> forall t :: lo <= t < hi && x.s <= t < x.e ==> Covers(segs, t)
  {
    PointsAppend(segs, x);
    PointsAreCovered(segs);
    var big, small := Range(lo, hi) - Points(segs), Range(lo, hi) - Points(segs + [x]);
    assert small <= big && big == small + (big - small);
    assert |big| == |small| + |big - small|;
    assert big - small == {} <==> forall t :: t in Range(lo, hi) && t in Range(x.s, x.e) ==> t in Points(segs);
  }

  // ---------------------------------------------------------------- talk and silence

  datatype Channel = Caller | Agent

  datatype Utterance = Utterance(channel: Channel, tStart: int, tEnd: int)

  /** `_agent_intervals`. A window may be empty, or inverted when a span's end lies before its start. */
  function AgentIntervals(spans: seq<Window>, offset: int): seq<Interval> {
    Merged(Windows(AgentSpans(spans), offset))
  }

  function AgentSpans(spans: seq<Window>): seq<Window> {
    if spans == [] then []
    else
      AgentSpans(Init(spans)) + if Last(spans).stage in {Tts, Playout} then [Last(spans)] else []
  }

  function Spoken(utts: seq<Utterance>, channel: Channel): seq<Interval> {
    if utts == [] then []
    else
      var u := Last(utts);
      Spoken(Init(utts), channel) + if u.channel == channel then [Interval(u.tStart, u.tEnd)] else []
  }

  function Ends(utts: seq<Utterance>, agentIv: seq<Interval>): seq<int> {
    seq(|utts| + |agentIv|, i requires 0 <= i < |utts| + |agentIv| =>
      if i < |utts| then utts[i].tEnd else agentIv[i - |utts|].e)
  }

  function Largest(xs: seq<int>): (r: int)
    ensures forall x :: x in xs ==> x <= r
    ensures xs != [] ==> r in xs
  {
    if xs == [] then 0
    else if |xs| == 1 then xs[0]
    else
      assert xs == xs[..|xs| - 1] + [xs[|xs| - 1]];
      Max(Largest(xs[..|xs| - 1]), xs[|xs| - 1])
  }

  function Duration(utts: seq<Utterance>, agentIv: seq<Interval>): int {
    Largest(Ends(utts, agentIv))
  }

  datatype Talk = Unavailable | Talk(caller: real, agent: real, overlap: real)

  function TalkRatio(caller: seq<Interval>, agentIv: seq<Interval>, duration: int): Talk {
    if duration <= 0 then Unavailable
    else
      Talk(Total(Merged(caller)) as real / duration as real,
           Total(agentIv) as real / duration as real,
           Total(Intersected(Merged(caller), agentIv)) as real / duration as real)
  }

  function LongOnes(gaps: seq<Interval>, minGap: int): seq<Interval> {
    if gaps == [] then []
    else LongOnes(Init(gaps), minGap) + if Last(gaps).e - Last(gaps).s >= minGap then [Last(gaps)] else []
  }

  /** Silence where neither side speaks, in gaps of at least `minGap`; padding is not silence. */
  function DeadAir(caller: seq<Interval>, agentIv: seq<Interval>, duration: int, minGap: int,
                   padding: seq<Interval>): int
  {
    if duration <= 0 then 0
    else
      var gaps := Complemented(Merged(Merged(caller) + agentIv), duration);
      Total(LongOnes(if padding == [] then gaps else Subtracted(gaps, Merged(padding)), minGap))
  }

  /** At tick `t` some TTS or PLAYOUT window says the agent was speaking. */
  ghost predicate AgentSpeaks(spans: seq<Window>, offset: int, t: int) {
    exists k :: 0 <= k < |spans| && SpeaksAt(spans[k], offset, t)
  }

  predicate SpeaksAt(w: Window, offset: int, t: int) {
    w.stage in {Tts, Playout} && During(w, offset, t)
  }

  lemma {:induction false} AgentPoints(spans: seq<Window>, offset: int, t: int)
    ensures t in Points(Windows(AgentSpans(spans), offset)) <==> AgentSpeaks(spans, offset, t)
  {
    if spans != [] {
      hide Windows, AgentSpans, AgentSpeaks, Points, During;
      var init, w := Init(spans), Last(spans);
      AgentPoints(init, offset, t);
      AgentSpeaksMore(spans, offset, t);
      AgentSpansLast(spans);
      WindowsMore(AgentSpans(init), w, offset, t);
      assert AgentSpans(init) + [] == AgentSpans(init);
    }
  }

  lemma AgentSpeaksMore(spans: seq<Window>, offset: int, t: int)
    requires spans != []
    ensures AgentSpeaks(spans, offset, t) <==> AgentSpeaks(Init(spans), offset, t) || SpeaksAt(Last(spans), offset, t)
  {
    hide SpeaksAt;
    if k :| 0 <= k < |Init(spans)| && SpeaksAt(Init(spans)[k], offset, t) {
      assert SpeaksAt(spans[k], offset, t);
    }
    if SpeaksAt(Last(spans), offset, t) {
      assert SpeaksAt(spans[|spans| - 1], offset, t);
    }
  }

  lemma AgentSpansLast(spans: seq<Window>)
    requires spans != []
    ensures AgentSpans(spans) ==
      AgentSpans(Init(spans)) + (if Last(spans).stage in {Tts, Playout} then [Last(spans)] else [])
  {
  }

  predicate During(w: Window, offset: int, t: int) {
    w.tStart.Some? && w.tEnd.Some? && w.tStart.value - offset <= t < w.tEnd.value - offset
  }

  lemma WindowsMore(spans: seq<Window>, w: Window, offset: int, t: int)
    ensures t in Points(Windows(spans + [w], offset)) <==> t in Points(Windows(spans, offset)) || During(w, offset, t)
  {
    hide Points;
    var before, closed := Windows(spans, offset), Closed(ToAudio(w.tStart, offset), ToAudio(w.tEnd, offset));
    assert Init(spans + [w]) == spans && Last(spans + [w]) == w;
    assert Windows(spans + [w], offset) == before + closed;
    if w.tStart.Some? && w.tEnd.Some? {
      PointsAppend(before, Interval(w.tStart.value - offset, w.tEnd.value - offset));
    } else {
      assert before + closed == before;
    }
  }

  /** Whatever the spans, the agent's intervals are sorted and apart and cover what the windows cover. */
  lemma AgentIntervalsExact(spans: seq<Window>, offset: int)
    ensures Separated(AgentIntervals(spans, offset))
    ensures forall t :: t in Points(AgentIntervals(spans, offset)) <==> AgentSpeaks(spans, offset, t)
  {
    hide AgentSpeaks;
    MergedExact(Windows(AgentSpans(spans), offset));
    forall t
      ensures t in Points(AgentIntervals(spans, offset)) <==> AgentSpeaks(spans, offset, t)
    {
      AgentPoints(spans, offset, t);
    }
  }

  /** What `_audio_metrics` works on: the agent's intervals are merged ones, inverted or not, and nothing ends
      after the duration. */
  ghost predicate Heard(caller: seq<Interval>, agentIv: seq<Interval>, duration: int) {
    Separated(agentIv) && EndsBy(caller, duration) && EndsBy(agentIv, duration)
  }

  ghost predicate EndsBy(xs: seq<Interval>, d: int) {
    forall x :: x in xs ==> x.e <= d
  }

  /** `_audio_metrics` takes the duration as the last end of any utterance or agent interval. Live calls have
      the agent from any spans whatever, audio-only calls from the agent's utterances. */
  lemma DurationHears(utts: seq<Utterance>, spans: seq<Window>, offset: int)
    ensures var agentIv := AgentIntervals(spans, offset); Heard(Spoken(utts, Caller), agentIv, Duration(utts, agentIv))
    ensures var agentIv := Merged(Spoken(utts, Agent)); Heard(Spoken(utts, Caller), agentIv, Duration(utts, agentIv))
  {
    AgentIntervalsExact(spans, offset);
    MergedExact(Spoken(utts, Agent));
    hide Separated;
    EndsHeard(utts, AgentIntervals(spans, offset));
    EndsHeard(utts, Merged(Spoken(utts, Agent)));
  }

  lemma EndsHeard(utts: seq<Utterance>, agentIv: seq<Interval>)
    ensures EndsBy(Spoken(utts, Caller), Duration(utts, agentIv)) && EndsBy(agentIv, Duration(utts, agentIv))
  {
    var ends := Ends(utts, agentIv);
    forall x | x in agentIv
      ensures x.e <= Duration(utts, agentIv)
    {
      var i :| 0 <= i < |agentIv| && agentIv[i] == x;
      assert ends[|utts| + i] == x.e && x.e in ends;
    }
    SpokenEnds(utts, Caller);
    forall x | x in Spoken(utts, Caller)
      ensures x.e <= Duration(utts, agentIv)
    {
      var i :| 0 <= i < |utts| && utts[i].tEnd == x.e;
      assert ends[i] == x.e && x.e in ends;
    }
  }

  lemma {:induction false} SpokenEnds(utts: seq<Utterance>, channel: Channel)
    ensures forall x :: x in Spoken(utts, channel) ==> exists i :: 0 <= i < |utts| && utts[i].tEnd == x.e
  {
    if utts != [] {
      SpokenEnds(Init(utts), channel);
      forall x | x in Spoken(utts, channel)
        ensures exists i :: 0 <= i < |utts| && utts[i].tEnd == x.e
      {
        if x in Spoken(Init(utts), channel) {
          var i :| 0 <= i < |Init(utts)| && Init(utts)[i].tEnd == x.e;
          assert utts[i].tEnd == x.e;
        } else {
          assert utts[|utts| - 1].tEnd == x.e;
        }
      }
    }
  }

  /** The duration is the latest end of any utterance, of either channel, or agent interval; zero without any. */
  lemma DurationIsLastEnd(utts: seq<Utterance>, agentIv: seq<Interval>)
    ensures forall u :: u in utts ==> u.tEnd <= Duration(utts, agentIv)
    ensures forall x :: x in agentIv ==> x.e <= Duration(utts, agentIv)
    ensures utts == [] && agentIv == [] ==> Duration(utts, agentIv) == 0
    ensures utts != [] || agentIv != [] ==>
      || (exists u :: u in utts && u.tEnd == Duration(utts, agentIv))
      || (exists x :: x in agentIv && x.e == Duration(utts, agentIv))
  {
    var ends := Ends(utts, agentIv);
    forall u | u in utts
      ensures u.tEnd in ends
    {
      var i :| 0 <= i < |utts| && utts[i] == u;
      assert ends[i] == u.tEnd;
    }
    forall x | x in agentIv
      ensures x.e in ends
    {
      var i :| 0 <= i < |agentIv| && agentIv[i] == x;
      assert ends[|utts| + i] == x.e;
    }
    if ends != [] {
      var i :| 0 <= i < |ends| && ends[i] == Duration(utts, agentIv);
      if i < |utts| {
        assert utts[i] in utts;
      } else {
        assert agentIv[i - |utts|] in agentIv;
      }
    }
  }

  /** A channel's intervals are those of its utterances. */
  lemma {:induction false} SpokenIs(utts: seq<Utterance>, channel: Channel)
    ensures forall x :: x in Spoken(utts, channel) <==>
      exists u :: u in utts && u.channel == channel && x == Interval(u.tStart, u.tEnd)
  {
    if utts != [] {
      SpokenIs(Init(utts), channel);
      assert forall u :: u in utts <==> u in Init(utts) || u == Last(utts);
    }
  }

  function Speech(caller: seq<Interval>, agentIv: seq<Interval>): seq<Interval> {
    Merged(caller) + agentIv
  }

  function Silence(caller: seq<Interval>, agentIv: seq<Interval>, duration: int): seq<Interval> {
    Complemented(Merged(Speech(caller, agentIv)), duration)
  }

  lemma SpeechPoints(caller: seq<Interval>, agentIv: seq<Interval>)
    ensures Points(Speech(caller, agentIv)) == Points(caller) + Points(agentIv)
    ensures Points(Merged(Speech(caller, agentIv))) == Points(caller) + Points(agentIv)
    ensures Separated(Merged(Speech(caller, agentIv)))
    ensures Merged(Merged(Speech(caller, agentIv))) == Merged(Speech(caller, agentIv))
  {
    MergedExact(caller);
    MergedExact(Speech(caller, agentIv));
    MergedTwice(Speech(caller, agentIv));
    PointsConcat(Merged(caller), agentIv);
  }

  lemma SpeechEnds(caller: seq<Interval>, agentIv: seq<Interval>, duration: int)
    requires Heard(caller, agentIv, duration)
    ensures EndsBy(Merged(Speech(caller, agentIv)), duration)
  {
    hide Merged;
    MergedEnds(caller, duration);
    MergedEnds(Speech(caller, agentIv), duration);
  }

  /** The talk totals measure what is covered, less what inverted intervals take off; the overlap is exact. */
  lemma TalkTotals(caller: seq<Interval>, agentIv: seq<Interval>)
    requires Separated(agentIv)
    ensures Total(Merged(caller)) <= |Points(caller)| && Total(agentIv) <= |Points(agentIv)|
    ensures Total(Merged(caller)) == |Points(caller)| <==> NotInverted(Merged(caller))
    ensures Total(agentIv) == |Points(agentIv)| <==> NotInverted(agentIv)
    ensures Total(Merged(caller)) + Total(agentIv) ==
            |Points(caller)| + |Points(agentIv)| - Deficit(Speech(caller, agentIv))
    ensures Total(Intersected(Merged(caller), agentIv)) == |Points(caller) * Points(agentIv)|
  {
    MergedExact(caller);
    SeparatedTotal(Merged(caller));
    SeparatedTotal(agentIv);
    DeficitNone(Merged(caller));
    DeficitNone(agentIv);
    DeficitConcat(Merged(caller), agentIv);
    IntersectedTotal(Merged(caller), agentIv);
  }

  /** The silence covers what is left of the duration exactly when no merged interval starts past its end; and
      if none is inverted its total is the ticks left. */
  lemma SilencePoints(caller: seq<Interval>, agentIv: seq<Interval>, duration: int)
    requires Heard(caller, agentIv, duration) && duration > 0
    ensures Points(Silence(caller, agentIv, duration)) == Range(0, duration) - (Points(caller) + Points(agentIv))
       <==> LastStart(Merged(Speech(caller, agentIv))) <= duration
    ensures NotInverted(Merged(Speech(caller, agentIv))) ==>
      LastStart(Merged(Speech(caller, agentIv))) <= duration && Gaps(Silence(caller, agentIv, duration))
    ensures NotInverted(Merged(Speech(caller, agentIv))) ==>
      Total(Silence(caller, agentIv, duration)) == |Points(Silence(caller, agentIv, duration))|
  {
    hide Merged, Complemented, Points, Range, Speech, Separated;
    var m := Merged(Speech(caller, agentIv));
    SpeechPoints(caller, agentIv);
    SpeechEnds(caller, agentIv, duration);
    ComplementExactIff(m, duration);
    ComplementGaps(m, duration);
    if NotInverted(m) {
      if m != [] {
        assert Last(m) in m;
      }
      TotalIsMeasure(Silence(caller, agentIv, duration));
    }
  }

  // ---------------------------------------------------------------- time is conserved

  /** Caller and agent less overlap, and the silence. */
  function Accounted(caller: seq<Interval>, agentIv: seq<Interval>, duration: int): int {
    Total(Merged(caller)) + Total(agentIv) - Total(Intersected(Merged(caller), agentIv))
    + Total(Silence(caller, agentIv, duration))
  }

  /** In general the account is off by the ticks before zero and by what inverted intervals take off that the
      silence does not count twice. */
  lemma TimeAccounted(caller: seq<Interval>, agentIv: seq<Interval>, duration: int)
    requires Heard(caller, agentIv, duration) && duration > 0
    ensures var speech := Speech(caller, agentIv);
      Accounted(caller, agentIv, duration) == duration + |Before(speech)| + Excess(Merged(speech)) - Deficit(speech)
  {
    hide Merged, Total, Intersected, Complemented, Points, Excess, Deficit, Separated;
    var speech := Speech(caller, agentIv);
    TalkTotals(caller, agentIv);
    SpeechPoints(caller, agentIv);
    SpeechEnds(caller, agentIv, duration);
    ComplementTotal(Merged(speech), duration);
    assert Before(Merged(speech)) == Before(speech);
    var c, a := Points(caller), Points(agentIv);
    assert |c + a| == |c| + |a| - |c * a|;
  }

  /** No proper interval starts before zero. */
  ghost predicate NothingBefore(xs: seq<Interval>) {
    forall x :: x in xs && x.Proper() ==> 0 <= x.s
  }

  ghost predicate NonNegative(ticks: set<int>) {
    forall t :: t in ticks ==> 0 <= t
  }

  lemma BeforeNothing(xs: seq<Interval>)
    ensures NothingBefore(xs) <==> NonNegative(Points(xs))
  {
    hide NothingBefore, Points, NonNegative;
    if NothingBefore(xs) {
      NothingCovered(xs);
    }
    if NonNegative(Points(xs)) {
      StartsCovered(xs);
    }
  }

  lemma StartsCovered(xs: seq<Interval>)
    requires NonNegative(Points(xs))
    ensures NothingBefore(xs)
  {
    PointsAreCovered(xs);
    forall x | x in xs && x.Proper()
      ensures 0 <= x.s
    {
      assert Covers(xs, x.s) && x.s in Points(xs);
    }
  }

  lemma NothingCovered(xs: seq<Interval>)
    requires NothingBefore(xs)
    ensures NonNegative(Points(xs))
  {
    PointsAreCovered(xs);
    forall t | t in Points(xs)
      ensures 0 <= t
    {
      var x :| x in xs && x.s <= t < x.e;
      assert x.Proper();
    }
  }

  lemma NoneBefore(caller: seq<Interval>, agentIv: seq<Interval>)
    ensures |Before(Speech(caller, agentIv))| == 0 <==> NothingBefore(caller) && NothingBefore(agentIv)
  {
    hide NothingBefore, Points, Speech;
    SpeechPoints(caller, agentIv);
    BeforeNothing(caller);
    BeforeNothing(agentIv);
    var before := Before(Speech(caller, agentIv));
    assert |before| == 0 <==> before == {};
    assert forall t :: t in before <==> t in Points(caller) + Points(agentIv) && t < 0;
  }

  /** Time is conserved, caller + agent - overlap + silence is the whole duration: when no interval is inverted,
      exactly if none starts before zero; and when none that is not empty starts before zero, exactly if no
      inverted one ends before zero or before an earlier end. */
  lemma TimeConservedIff(caller: seq<Interval>, agentIv: seq<Interval>, duration: int)
    requires Heard(caller, agentIv, duration) && duration > 0
    ensures NotInverted(Speech(caller, agentIv)) ==>
      (Accounted(caller, agentIv, duration) == duration <==> NothingBefore(caller) && NothingBefore(agentIv))
    ensures NothingBefore(caller) && NothingBefore(agentIv) ==>
      (Accounted(caller, agentIv, duration) == duration <==> Harmless(Speech(caller, agentIv)))
  {
    hide *;
    var speech := Speech(caller, agentIv);
    TimeAccounted(caller, agentIv, duration);
    NoneBefore(caller, agentIv);
    MergedExcess(speech);
    DeficitNone(speech);
  }

  /** So for every call with any spans whatever. */
  lemma CallTimeConservedIff(utts: seq<Utterance>, spans: seq<Window>, offset: int)
    requires Duration(utts, AgentIntervals(spans, offset)) > 0
    ensures var caller, agentIv := Spoken(utts, Caller), AgentIntervals(spans, offset);
      var conserved := Accounted(caller, agentIv, Duration(utts, agentIv)) == Duration(utts, agentIv);
      && (NotInverted(Speech(caller, agentIv)) ==> (conserved <==> NothingBefore(caller) && NothingBefore(agentIv)))
      && (NothingBefore(caller) && NothingBefore(agentIv) ==> (conserved <==> Harmless(Speech(caller, agentIv))))
  {
    hide *;
    DurationHears(utts, spans, offset);
    TimeConservedIff(Spoken(utts, Caller), AgentIntervals(spans, offset), Duration(utts, AgentIntervals(spans, offset)));
  }

  lemma Leftover(p: set<int>, r: set<int>)
    ensures |p| + |r - p| == |r| <==> p <= r
    ensures |r - p| <= |r| && (p <= r ==> |p| <= |r|)
  {
    assert p + (r - p) == r + (p - r);
    assert |p| + |r - p| == |p + (r - p)|;
    assert |r| + |p - r| == |r + (p - r)|;
    assert |p - r| == 0 <==> p - r == {};
  }

  /** A TTS span of window (5, 3) beside a caller who speaks throughout: the agent's share is negative and two
      ticks are missing. */
  lemma InvertedWindowLosesTime()
    ensures var caller := [Interval(0, 10)]; var agentIv := AgentIntervals([Window(Tts, Some(5), Some(3))], 0);
      && Heard(caller, agentIv, 10) && NothingBefore(caller) && NothingBefore(agentIv)
      && Total(agentIv) == -2 && TalkRatio(caller, agentIv, 10).agent < 0.0
      && Accounted(caller, agentIv, 10) == 8
  {
    hide *;
    var x, y := Interval(0, 10), Interval(5, 3);
    InvertedWindow();
    InvertedHeard(x, y);
    MergedOne(x);
    MergedPair();
    SpeechOf([x], [y]);
    TimeAccounted([x], [y], 10);
    NoneBefore([x], [y]);
    assert [x] + [y] == [x, y];
    DeficitExcess(x, y);
  }

  lemma SpeechOf(caller: seq<Interval>, agentIv: seq<Interval>)
    ensures Speech(caller, agentIv) == Merged(caller) + agentIv
  {
  }

  lemma InvertedHeard(x: Interval, y: Interval)
    requires x == Interval(0, 10) && y == Interval(5, 3)
    ensures Heard([x], [y], 10) && NothingBefore([x]) && NothingBefore([y])
    ensures Total([y]) == -2 && TalkRatio([x], [y], 10).agent < 0.0
  {
    hide Merged, Intersected;
    assert Init([y]) == [] && Total([y]) == -2;
    assert TalkRatio([x], [y], 10).agent == -2 as real / 10 as real;
  }

  lemma DeficitExcess(x: Interval, y: Interval)
    requires x == Interval(0, 10) && y == Interval(5, 3)
    ensures Deficit([x, y]) == 2 && Excess([x]) == 0
  {
    BackwardsBy(x, y);
    hide Backwards;
    assert Init([x, y]) == [x] && Last([x, y]) == y && Init([x]) == [] && Last([x]) == x;
    assert Deficit([x]) == Deficit([]) + Backwards(x);
    assert Excess([]) == 0;
  }

  lemma BackwardsBy(x: Interval, y: Interval)
    requires x == Interval(0, 10) && y == Interval(5, 3)
    ensures Backwards(x) == 0 && Backwards(y) == 2
  {
  }

  lemma MergedOne(x: Interval)
    ensures Merged([x]) == [x]
  {
    assert [x][1..] == [] && Sorted([x], Lex) == [x];
    assert Init([x]) == [] && Coalesced([]) == [] && Coalesced([x]) == Absorb([], x) == [] + [x] == [x];
  }

  lemma InvertedWindow()
    ensures AgentIntervals([Window(Tts, Some(5), Some(3))], 0) == [Interval(5, 3)]
  {
    var w := Window(Tts, Some(5), Some(3));
    assert Init([w]) == [];
    assert AgentSpans([w]) == [w];
    assert Windows([w], 0) == [Interval(5, 3)];
    MergedOne(Interval(5, 3));
  }

  lemma MergedPair()
    ensures Merged([Interval(0, 10), Interval(5, 3)]) == [Interval(0, 10)]
  {
    var x, y := Interval(0, 10), Interval(5, 3);
    assert [x, y][1..] == [y];
    assert [y][1..] == [] && Sorted([y], Lex) == [y];
    assert Sorted([x, y], Lex) == [x, y];
    assert Init([x, y]) == [x] && Init([x]) == [];
    assert Coalesced([x]) == Absorb([], x) == [x];
    assert Coalesced([x, y]) == Absorb([x], y) == [] + [x];
  }

  // ---------------------------------------------------------------- ratios and dead air

  lemma SameSign(a: real, n: real)
    requires n > 0.0
    ensures a * n >= 0.0 <==> a >= 0.0
  {
    if a >= 0.0 {
      assert a * n >= 0.0;
    } else {
      assert a * n < 0.0;
    }
  }

  lemma Ratios(x: int, y: int, d: int)
    requires d > 0
    ensures x as real / d as real <= y as real / d as real <==> x <= y
    ensures x as real / d as real == y as real / d as real <==> x == y
    ensures x as real / d as real <= 1.0 <==> x <= d
    ensures 0.0 <= x as real / d as real <==> 0 <= x
  {
    var p, q, n := x as real / d as real, y as real / d as real, d as real;
    assert p * n == x as real && q * n == y as real;
    assert (q - p) * n == q * n - p * n && (p - q) * n == p * n - q * n && (1.0 - p) * n == n - p * n;
    SameSign(q - p, n);
    SameSign(p - q, n);
    SameSign(1.0 - p, n);
    SameSign(p, n);
  }

  /** The ticks of the duration outside some intervals. */
  function Outside(xs: seq<Interval>, duration: int): nat {
    |Range(0, duration) - Points(xs)|
  }

  lemma CoveredTicks(xs: seq<Interval>, duration: int)
    requires EndsBy(xs, duration) && duration > 0
    ensures |Points(xs)| == |Before(xs)| + duration - Outside(xs, duration)
    ensures NothingBefore(xs) <==> |Before(xs)| == 0
  {
    BeforeNothing(xs);
    EndsCover(xs, duration);
    RangeSize(0, duration);
    hide Points;
    var p, r := Points(xs), Range(0, duration);
    assert p == Before(xs) + p * r && r == p * r + (r - p);
    assert |p| == |Before(xs)| + |p * r| && |r| == |p * r| + |r - p|;
    assert |Before(xs)| == 0 <==> Before(xs) == {};
    assert Before(xs) == {} ==> forall t :: t in p ==> 0 <= t by {
      assert forall t :: t in p && t < 0 ==> t in Before(xs);
    }
  }

  /** For every call: each side has the share of the duration it covers exactly if no inverted interval is left on
      it, and then at least that of the overlap, which is never negative. A share exceeds one exactly if more is
      covered before zero than is left uncovered after it and taken off by inverted intervals; so never when nothing
      starts before zero. */
  lemma TalkRatioBounds(caller: seq<Interval>, agentIv: seq<Interval>, duration: int)
    requires Heard(caller, agentIv, duration) && duration > 0
    ensures var t := TalkRatio(caller, agentIv, duration); var d := duration as real; var merged := Merged(caller);
      && t.Talk? && 0.0 <= t.overlap
      && (t.caller == |Points(caller)| as real / d <==> NotInverted(merged))
      && (t.agent == |Points(agentIv)| as real / d <==> NotInverted(agentIv))
      && (NotInverted(merged) ==> t.overlap <= t.caller)
      && (NotInverted(agentIv) ==> t.overlap <= t.agent)
      && (t.caller <= 1.0 <==> |Before(merged)| <= Outside(merged, duration) + Deficit(merged))
      && (t.agent <= 1.0 <==> |Before(agentIv)| <= Outside(agentIv, duration) + Deficit(agentIv))
      && (NothingBefore(merged) ==> t.caller <= 1.0 && t.overlap <= 1.0)
      && (NothingBefore(agentIv) ==> t.agent <= 1.0 && t.overlap <= 1.0)
  {
    hide Points, Total, NothingBefore, Merged, Intersected, NotInverted, Separated, Deficit, Before, Outside;
    var c, a, merged := Points(caller), Points(agentIv), Merged(caller);
    TalkTotals(caller, agentIv);
    TotalsAre(caller, agentIv);
    MergedEnds(caller, duration);
    CoveredTicks(merged, duration);
    CoveredTicks(agentIv, duration);
    Leftover(c * a, c);
    Leftover(c * a, a);
    Ratios(Total(merged), |c|, duration);
    Ratios(Total(agentIv), |a|, duration);
    Ratios(|c * a|, Total(merged), duration);
    Ratios(|c * a|, Total(agentIv), duration);
  }

  lemma TotalsAre(caller: seq<Interval>, agentIv: seq<Interval>)
    requires Separated(agentIv)
    ensures Total(Merged(caller)) == |Points(Merged(caller))| - Deficit(Merged(caller))
    ensures Total(agentIv) == |Points(agentIv)| - Deficit(agentIv) && Points(Merged(caller)) == Points(caller)
  {
    MergedExact(caller);
    SeparatedTotal(Merged(caller));
    SeparatedTotal(agentIv);
  }

  /** A TTS window from -10 to 10 in a call that lasts 10 ticks: the agent speaks twice the whole time. */
  lemma EarlyWindowExceeds()
    ensures var agentIv := AgentIntervals([Window(Tts, Some(-10), Some(10))], 0);
      Duration([], agentIv) == 10 && TalkRatio([], agentIv, 10).agent == 2.0
  {
    hide *;
    var y := Interval(-10, 10);
    EarlyWindow(y);
    EarlyRatio(y);
  }

  lemma EarlyWindow(y: Interval)
    requires y == Interval(-10, 10)
    ensures AgentIntervals([Window(Tts, Some(-10), Some(10))], 0) == [y]
  {
    hide Merged;
    var w := Window(Tts, Some(-10), Some(10));
    assert Init([w]) == [] && AgentSpans([w]) == [w];
    assert Windows([w], 0) == [y];
    MergedOne(y);
  }

  lemma EarlyRatio(y: Interval)
    requires y == Interval(-10, 10)
    ensures Duration([], [y]) == 10 && TalkRatio([], [y], 10).agent == 2.0
  {
    hide Merged, Intersected;
    assert Ends([], [y]) == [10] && Largest([10]) == 10;
    assert Init([y]) == [] && Total([y]) == 20;
    assert TalkRatio([], [y], 10).agent == 20 as real / 10 as real;
  }

  lemma {:induction false} LongOnesTotal(gaps: seq<Interval>, minGap: int)
    requires forall x :: x in gaps ==> x.s <= x.e
    ensures 0 <= Total(LongOnes(gaps, minGap)) <= Total(gaps)
  {
    if gaps != [] {
      assert Last(gaps) in gaps;
      LongOnesTotal(Init(gaps), minGap);
      TotalAppend(LongOnes(Init(gaps), minGap), Last(gaps));
    }
  }

  lemma {:induction false} LongOnesAll(gaps: seq<Interval>, minGap: int)
    requires AllProper(gaps) && minGap <= 1
    ensures LongOnes(gaps, minGap) == gaps
  {
    if gaps != [] {
      assert Last(gaps) in gaps && gaps == Init(gaps) + [Last(gaps)];
      LongOnesAll(Init(gaps), minGap);
    }
  }

  /** A call without duration has no shares and no dead air. */
  lemma NothingWithoutDuration(caller: seq<Interval>, agentIv: seq<Interval>, duration: int, minGap: int,
                               padding: seq<Interval>)
    requires duration <= 0
    ensures TalkRatio(caller, agentIv, duration).Unavailable? && DeadAir(caller, agentIv, duration, minGap, padding) == 0
  {
  }

  /** The ticks of the duration at which nobody speaks. */
  function Silent(caller: seq<Interval>, agentIv: seq<Interval>, duration: int): nat {
    |Range(0, duration) - (Points(caller) + Points(agentIv))|
  }

  lemma SilenceTotal(caller: seq<Interval>, agentIv: seq<Interval>, duration: int)
    requires Heard(caller, agentIv, duration) && duration > 0
    ensures Total(Silence(caller, agentIv, duration)) ==
            Silent(caller, agentIv, duration) + Excess(Merged(Speech(caller, agentIv)))
  {
    hide Merged, Total, Complemented, Points, Range, Excess, Separated;
    var speech := Speech(caller, agentIv);
    SpeechPoints(caller, agentIv);
    SpeechEnds(caller, agentIv, duration);
    ComplementTotal(Merged(speech), duration);
    var p, r := Points(Merged(speech)), Range(0, duration);
    EndsCover(Merged(speech), duration);
    RangeSize(0, duration);
    assert r + Before(Merged(speech)) == p + (r - p);
    assert |r + Before(Merged(speech))| == |r| + |Before(Merged(speech))|;
    assert |p + (r - p)| == |p| + |r - p|;
  }

  lemma EndsCover(xs: seq<Interval>, d: int)
    requires EndsBy(xs, d)
    ensures forall t :: t in Points(xs) ==> t < d
  {
    PointsAreCovered(xs);
  }

  /** Dead air without padding is at most the ticks at which nobody speaks, at every threshold, exactly if no
      inverted interval that starts after zero is left; and then it is all of them when every gap counts. */
  lemma DeadAirBound(caller: seq<Interval>, agentIv: seq<Interval>, duration: int)
    requires Heard(caller, agentIv, duration) && duration > 0
    ensures var silent := Silent(caller, agentIv, duration);
      var sound := forall x :: x in Merged(Speech(caller, agentIv)) && 0 < x.s ==> x.s <= x.e;
      && (forall minGap :: 0 <= DeadAir(caller, agentIv, duration, minGap, []))
      && ((forall minGap :: DeadAir(caller, agentIv, duration, minGap, []) <= silent) <==> sound)
      && (forall minGap :: minGap <= 1 ==> (DeadAir(caller, agentIv, duration, minGap, []) == silent <==> sound))
  {
    hide Merged, Total, Complemented, LongOnes, Range, Points, Excess, Separated, Speech;
    var gaps := Silence(caller, agentIv, duration);
    SilenceTotal(caller, agentIv, duration);
    SpeechPoints(caller, agentIv);
    ComplementGaps(Merged(Speech(caller, agentIv)), duration);
    ExcessNone(Merged(Speech(caller, agentIv)));
    forall minGap
      ensures DeadAir(caller, agentIv, duration, minGap, []) == Total(LongOnes(gaps, minGap))
      ensures 0 <= Total(LongOnes(gaps, minGap)) <= Total(gaps)
      ensures minGap <= 1 ==> LongOnes(gaps, minGap) == gaps
    {
      DeadAirPlain(caller, agentIv, duration, minGap);
      LongOnesTotal(gaps, minGap);
      if minGap <= 1 {
        LongOnesAll(gaps, minGap);
      }
    }
    assert DeadAir(caller, agentIv, duration, 1, []) == Total(gaps);
  }

  /** The window (5, 3) alone: five ticks of dead air in a call of three. */
  lemma DeadAirExceedsDuration()
    ensures var agentIv := AgentIntervals([Window(Tts, Some(5), Some(3))], 0);
      && Duration([], agentIv) == 3 && Silent([], agentIv, 3) == 3 && DeadAir([], agentIv, 3, 1, []) == 5
  {
    hide *;
    var y := Interval(5, 3);
    InvertedWindow();
    InvertedAlone(y);
    SpeechOf([], [y]);
    assert [] + [y] == [y];
    MergedOne(y);
    SilenceTotal([], [y], 3);
    DeadAirPlain([], [y], 3, 1);
    ComplementGaps(Merged(Speech([], [y])), 3);
    LongOnesAll(Silence([], [y], 3), 1) by { SilenceIs([], [y], 3); }
  }

  lemma SilenceIs(caller: seq<Interval>, agentIv: seq<Interval>, duration: int)
    ensures Silence(caller, agentIv, duration) == Complemented(Merged(Speech(caller, agentIv)), duration)
  {
  }

  lemma InvertedAlone(y: Interval)
    requires y == Interval(5, 3)
    ensures Heard([], [y], 3) && Duration([], [y]) == 3 && Silent([], [y], 3) == 3
    ensures Excess([y]) == 2 && Merged([]) == []
  {
    hide Merged, Range;
    assert Ends([], [y]) == [3] && Largest([3]) == 3;
    PointsOne(y);
    RangeSize(0, 3);
    RangeSize(5, 3);
    assert Range(5, 3) == {} && Range(0, 3) - ({} + {}) == Range(0, 3);
    assert Init([y]) == [] && Excess([]) == 0;
    MergedEmpty();
  }

  lemma MergedEmpty()
    ensures Merged([]) == []
  {
  }

  lemma DeadAirPlain(caller: seq<Interval>, agentIv: seq<Interval>, duration: int, minGap: int)
    requires duration > 0
    ensures DeadAir(caller, agentIv, duration, minGap, []) == Total(LongOnes(Silence(caller, agentIv, duration), minGap))
  {
    var none: seq<Interval> := [];
  }

  /** Excluding padding lowers the ceiling to the silence outside the padding, at every threshold, exactly if every
      tick the sweep goes over again is padding; and then it is all of it when every gap counts. */
  lemma DeadAirWithPadding(caller: seq<Interval>, agentIv: seq<Interval>, duration: int, padding: seq<Interval>)
    requires Heard(caller, agentIv, duration) && duration > 0 && padding != [] && NotInverted(Merged(padding))
    ensures var silent := SilentOutside(caller, agentIv, duration, Points(padding));
      var sound := Retraced(Merged(Speech(caller, agentIv))) <= Points(padding);
      && (forall minGap :: 0 <= DeadAir(caller, agentIv, duration, minGap, padding))
      && ((forall minGap :: DeadAir(caller, agentIv, duration, minGap, padding) <= silent) <==> sound)
      && (forall minGap :: minGap <= 1 ==> (DeadAir(caller, agentIv, duration, minGap, padding) == silent <==> sound))
  {
    hide Merged, Total, Complemented, Subtracted, LongOnes, Range, Points, Separated, Speech, ExcessOutside, Retraced,
      SilentOutside, TotalOutside;
    var speech, cut := Merged(Speech(caller, agentIv)), Merged(padding);
    var pieces := Subtracted(Silence(caller, agentIv, duration), cut);
    PaddedTotal(caller, agentIv, duration, padding);
    ExcessOutsideNone(speech, Points(padding));
    forall minGap
      ensures DeadAir(caller, agentIv, duration, minGap, padding) == Total(LongOnes(pieces, minGap))
      ensures 0 <= Total(LongOnes(pieces, minGap)) <= Total(pieces)
      ensures minGap <= 1 ==> LongOnes(pieces, minGap) == pieces
    {
      DeadAirPadded(caller, agentIv, duration, minGap, padding);
      LongOnesTotal(pieces, minGap);
      if minGap <= 1 {
        LongOnesAll(pieces, minGap);
      }
    }
    assert DeadAir(caller, agentIv, duration, 1, padding) == Total(pieces);
  }

  /** The ticks of the duration, outside a set, at which nobody speaks. */
  function SilentOutside(caller: seq<Interval>, agentIv: seq<Interval>, duration: int, padded: set<int>): nat {
    |Range(0, duration) - (Points(caller) + Points(agentIv)) - padded|
  }

  lemma PaddedTotal(caller: seq<Interval>, agentIv: seq<Interval>, duration: int, padding: seq<Interval>)
    requires Heard(caller, agentIv, duration) && duration > 0 && NotInverted(Merged(padding))
    ensures var pieces := Subtracted(Silence(caller, agentIv, duration), Merged(padding));
      && AllProper(pieces)
      && Total(pieces) == SilentOutside(caller, agentIv, duration, Points(padding))
                          + ExcessOutside(Merged(Speech(caller, agentIv)), Points(padding))
  {
    hide Merged, Total, Complemented, Subtracted, Range, Points, Separated, Speech, ExcessOutside, TotalOutside;
    var gaps := Silence(caller, agentIv, duration);
    SpeechPoints(caller, agentIv);
    SpeechEnds(caller, agentIv, duration);
    ComplementGaps(Merged(Speech(caller, agentIv)), duration);
    ComplementOutside(Merged(Speech(caller, agentIv)), duration, Points(padding));
    MergedExact(padding);
    SubtractedProper(gaps, Merged(padding));
    SubtractedTotal(gaps, Merged(padding));
  }

  lemma DeadAirPadded(caller: seq<Interval>, agentIv: seq<Interval>, duration: int, minGap: int, padding: seq<Interval>)
    requires duration > 0 && padding != []
    ensures DeadAir(caller, agentIv, duration, minGap, padding) ==
      Total(LongOnes(Subtracted(Silence(caller, agentIv, duration), Merged(padding)), minGap))
  {
  }
}
