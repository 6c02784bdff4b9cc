/** Turns derived from an event timeline, for producers that send no turn spans.

    The loop with its open group is proved equal to: cut the sorted events into windows, read each
    window's anchors, keep the windows that say something. Times are microseconds. */
module EventTurns {
  import opened Options
  import opened Seqs
  import opened Sorting

  datatype Name =
    | SttFinal | TurnCommitted | LlmFirstToken | LlmRaw | LlmSpoken | TtsFirstAudio | BargeIn
    | OtherName(name: string)

  datatype Value = Text(s: string) | NotText

  datatype Event = Event(name: Name, t: Option<int>, content: seq<Value>)

  predicate AgentSide(e: Event) {
    e.name.LlmFirstToken? || e.name.LlmRaw? || e.name.LlmSpoken? || e.name.TtsFirstAudio?
  }

  // What `str.strip` strips.
  predicate IsSpace(c: char) {
    var k := c as int;
    9 <= k <= 13 || 28 <= k <= 32 || k == 133 || k == 160 || k == 5760 || 8192 <= k <= 8202
    || k == 8232 || k == 8233 || k == 8239 || k == 8287 || k == 12288
  }

  predicate Blank(s: string) {
    forall i :: 0 <= i < |s| ==> IsSpace(s[i])
  }

  /** The first content value that is a string with something in it. */
  function FirstText(content: seq<Value>): (r: Option<string>)
    ensures r.Some? ==> !Blank(r.value)
  {
    if content == [] then None
    else if content[0].Text? && !Blank(content[0].s) then Some(content[0].s)
    else FirstText(content[1..])
  }

  function TextOf(e: Event): Option<string> {
    FirstText(e.content)
  }

  function Ms(a: Option<int>, b: Option<int>): Option<int> {
    if a.None? || b.None? || b.value - a.value < 0 then None else Some(b.value - a.value)
  }

  /** The open group: a dict whose missing keys are None. */
  datatype Group = Group(
    sttFinal: Option<int>, committed: Option<int>, llmFirst: Option<int>, ttsFirst: Option<int>,
    transcript: Option<string>, llmRaw: Option<string>, llmSpoken: Option<string>,
    interrupted: bool, agentSeen: bool)

  const EMPTY_GROUP := Group(None, None, None, None, None, None, None, false, false)

  datatype Turn = Turn(
    index: nat, sttFinalAt: Option<int>, committedAt: Option<int>, llmFirstTokenAt: Option<int>,
    ttsFirstAudioAt: Option<int>, responseLatency: Option<int>, llmTtft: Option<int>,
    transcript: Option<string>, llmRaw: Option<string>, llmSpoken: Option<string>, interrupted: bool)

  function SetDefault<T>(current: Option<T>, v: Option<T>): Option<T> {
    if current.Some? then current else v
  }

  function AddText(transcript: Option<string>, text: Option<string>): Option<string> {
    if text.None? then transcript
    else
      var soFar := transcript.GetOr("");
      Some(soFar + (if soFar != "" then " " else "") + text.value)
  }

  function Note(g: Group, e: Event): Group {
    var g' := match e.name
      case SttFinal => g.(sttFinal := SetDefault(g.sttFinal, e.t), transcript := AddText(g.transcript, TextOf(e)))
      case TurnCommitted => g.(committed := SetDefault(g.committed, e.t))
      case LlmFirstToken => g.(llmFirst := SetDefault(g.llmFirst, e.t))
      case LlmRaw => g.(llmRaw := SetDefault(g.llmRaw, TextOf(e)))
      case LlmSpoken => g.(llmSpoken := SetDefault(g.llmSpoken, TextOf(e)))
      case TtsFirstAudio => g.(ttsFirst := SetDefault(g.ttsFirst, e.t))
      case BargeIn => g.(interrupted := true)
      case OtherName(_) => g;
    if AgentSide(e) then g'.(agentSeen := true) else g'
  }

  predicate Worth(g: Group) {
    g.sttFinal.Some? || g.llmSpoken.Some? || g.ttsFirst.Some?
  }

  function TurnFrom(index: nat, g: Group): Turn {
    Turn(index, g.sttFinal, g.committed, g.llmFirst, g.ttsFirst, Ms(g.sttFinal, g.ttsFirst),
         Ms(g.committed, g.llmFirst), g.transcript, g.llmRaw, g.llmSpoken, g.interrupted)
  }

  function Close(turns: seq<Turn>, g: Group): seq<Turn> {
    if Worth(g) then turns + [TurnFrom(|turns|, g)] else turns
  }

  // ---------------------------------------------------------------- the declarative form

  type Window = seq<Event>

  predicate Opens(ws: seq<Window>, e: Event) {
    ws == [] || (e.name.SttFinal? && exists i :: 0 <= i < |Last(ws)| && AgentSide(Last(ws)[i]))
  }

  function Place(ws: seq<Window>, e: Event): seq<Window> {
    if Opens(ws, e) then ws + [[e]] else Init(ws) + [Last(ws) + [e]]
  }

  /** A window opens at each stt.final once the agent has responded in the current one. */
  function Windows(es: seq<Event>): seq<Window> {
    if es == [] then [] else Place(Windows(Init(es)), Last(es))
  }

  function GroupOf(w: Window): Group {
    if w == [] then EMPTY_GROUP else Note(GroupOf(Init(w)), Last(w))
  }

  function TurnsOf(ws: seq<Window>): seq<Turn> {
    if ws == [] then [] else Close(TurnsOf(Init(ws)), GroupOf(Last(ws)))
  }

  predicate ByTime(a: Event, b: Event) {
    a.t.GetOr(0) <= b.t.GetOr(0)
  }

  function Timed(spans: seq<seq<Event>>): seq<Event> {
    if spans == [] then []
    else Timed(Init(spans)) + Filter(Last(spans), (e: Event) => e.t.Some?)
  }

  function Timeline(spans: seq<seq<Event>>): seq<Event> {
    Sorted(Timed(spans), ByTime)
  }

  method TurnsFromEvents(spans: seq<seq<Event>>) returns (turns: seq<Turn>)
    ensures turns == TurnsOf(Windows(Timeline(spans)))
  {
    var events := Timeline(spans);
    turns := [];
    if events == [] {
      return;
    }
    var cur: Option<Group> := None;
    for k := 0 to |events|
      invariant k == 0 ==> cur == None
      invariant Tracks(Windows(events[..k]), turns, cur)
    {
      var e := events[k];
      assert Init(events[..k + 1]) == events[..k];
      Follow(Windows(events[..k]), turns, cur, e);
      if e.name.SttFinal? && cur.Some? && cur.value.agentSeen {
        turns := Close(turns, cur.value);
        cur := None;
      }
      if cur.None? {
        cur := Some(EMPTY_GROUP);
      }
      cur := Some(Note(cur.value, e));
    }
    assert events[..|events|] == events;
    if cur.Some? {
      turns := Close(turns, cur.value);
    }
  }

  /** The loop's state: all windows but the last are closed, the last one is the open group. */
  ghost predicate Tracks(ws: seq<Window>, turns: seq<Turn>, cur: Option<Group>) {
    && (cur.None? <==> ws == [])
    && (ws == [] ==> turns == [])
    && (ws != [] ==> cur == Some(GroupOf(Last(ws))) && turns == TurnsOf(Init(ws)))
  }

  lemma {:induction false} AgentSeenIff(w: Window)
    ensures GroupOf(w).agentSeen <==> exists i :: 0 <= i < |w| && AgentSide(w[i])
  {
    if w != [] {
      AgentSeenIff(Init(w));
      if GroupOf(Init(w)).agentSeen {
        var i :| 0 <= i < |Init(w)| && AgentSide(Init(w)[i]);
        assert AgentSide(w[i]);
      }
      if AgentSide(Last(w)) {
        assert AgentSide(w[|w| - 1]);
      }
      if i :| 0 <= i < |w| && AgentSide(w[i]) {
        assert i < |w| - 1 ==> AgentSide(Init(w)[i]);
      }
    }
  }

  lemma Follow(ws: seq<Window>, turns: seq<Turn>, cur: Option<Group>, e: Event)
    requires Tracks(ws, turns, cur)
    ensures var cuts := e.name.SttFinal? && cur.Some? && cur.value.agentSeen;
      Tracks(Place(ws, e),
             if cuts then Close(turns, cur.value) else turns,
             Some(Note(if cuts || cur.None? then EMPTY_GROUP else cur.value, e)))
  {
    assert Init([e]) == [];
    if ws != [] {
      AgentSeenIff(Last(ws));
      assert Init(ws + [[e]]) == ws;
      assert Init(Last(ws) + [e]) == Last(ws);
      assert Init(Init(ws) + [Last(ws) + [e]]) == Init(ws);
    }
  }

  // ---------------------------------------------------------------- windows

  function Flatten(ws: seq<Window>): seq<Event> {
    if ws == [] then [] else Flatten(Init(ws)) + Last(ws)
  }

  /** The windows are consecutive and disjoint, and nothing is lost. */
  lemma {:induction false} WindowsPartition(es: seq<Event>)
    ensures Flatten(Windows(es)) == es
    ensures forall n :: 0 <= n < |Windows(es)| ==> Windows(es)[n] != []
    ensures es != [] ==> Windows(es) != []
  {
    if es != [] {
      WindowsPartition(Init(es));
      PlacePartition(Windows(Init(es)), Last(es));
      assert es == Init(es) + [Last(es)];
      hide Opens, Place, Flatten;
    }
  }

  lemma PlacePartition(ws: seq<Window>, e: Event)
    requires forall n :: 0 <= n < |ws| ==> ws[n] != []
    ensures Flatten(Place(ws, e)) == Flatten(ws) + [e]
    ensures Place(ws, e) != [] && forall n :: 0 <= n < |Place(ws, e)| ==> Place(ws, e)[n] != []
  {
    if Opens(ws, e) {
      assert Init(ws + [[e]]) == ws;
    } else {
      assert Init(Place(ws, e)) == Init(ws);
      assert Flatten(Init(ws)) + (Last(ws) + [e]) == Flatten(ws) + [e];
    }
  }

  /** What the agent does: it produces a token, a raw or a spoken reply, or audio. */
  predicate Responds(e: Event) {
    match e.name
    case LlmFirstToken | LlmRaw | LlmSpoken | TtsFirstAudio => true
    case SttFinal | TurnCommitted | BargeIn | OtherName(_) => false
  }

  /** No response of the agent comes before an stt.final. */
  ghost predicate CallerFirst(w: Window) {
    forall i, j :: 0 <= i < j < |w| && Responds(w[i]) ==> !w[j].name.SttFinal?
  }

  ghost predicate OpensOnStt(w: Window) {
    w != [] && w[0].name.SttFinal?
  }

  ghost predicate CallerLed(ws: seq<Window>) {
    && (forall n :: 0 <= n < |ws| ==> CallerFirst(ws[n]))
    && (forall n :: 0 < n < |ws| ==> OpensOnStt(ws[n]))
  }

  lemma PlaceKeepsOrder(ws: seq<Window>, e: Event)
    requires CallerLed(ws) && forall n :: 0 <= n < |ws| ==> ws[n] != []
    ensures CallerLed(Place(ws, e))
  {
    if !Opens(ws, e) {
      var w := Last(ws);
      assert CallerFirst(w) && (|ws| > 1 ==> OpensOnStt(w));
      assert CallerFirst(w + [e]);
      hide CallerFirst, Opens;
      assert Place(ws, e) == Init(ws) + [w + [e]] by {
        assert !Opens(ws, e);
      }
    }
  }

  lemma {:induction false} CallerSpeaksFirst(es: seq<Event>)
    ensures CallerLed(Windows(es))
  {
    if es != [] {
      CallerSpeaksFirst(Init(es));
      WindowsPartition(Init(es));
      hide CallerLed;
      PlaceKeepsOrder(Windows(Init(es)), Last(es));
    }
  }

  ghost predicate Answered(w: Window) {
    exists i :: 0 <= i < |w| && Responds(w[i])
  }

  /** Every window but the last holds the agent's answer. */
  ghost predicate CutWell(ws: seq<Window>) {
    && CallerLed(ws)
    && (forall n :: 0 <= n < |ws| ==> ws[n] != [])
    && (forall n :: 0 <= n < |ws| - 1 ==> Answered(ws[n]))
  }

  lemma {:induction false} WindowsCutWell(es: seq<Event>)
    ensures CutWell(Windows(es))
  {
    CallerSpeaksFirst(es);
    WindowsPartition(es);
    hide CallerLed;
    if es != [] {
      WindowsCutWell(Init(es));
      hide Windows;
    }
  }

  lemma {:induction false} FlattenHead(ws: seq<Window>)
    requires ws != []
    ensures Flatten(ws) == ws[0] + Flatten(ws[1..])
  {
    if |ws| == 1 {
      assert Flatten(Init(ws)) == [] && ws[1..] == [];
    } else {
      var p := Init(ws);
      FlattenHead(p);
      assert p[1..] == Init(ws[1..]) && Last(ws[1..]) == Last(ws) && p[0] == ws[0];
      assert ws[0] + Flatten(p[1..]) + Last(ws) == ws[0] + (Flatten(p[1..]) + Last(ws));
    }
  }

  lemma {:induction false} FlattenNonEmpty(ws: seq<Window>)
    requires ws != [] && CutWell(ws)
    ensures Flatten(ws) != []
  {
    assert Last(ws) == ws[|ws| - 1] != [];
  }

  /** Where the first of several windows ends: an event of it is a response, and the next one is an stt.final. */
  lemma FirstWindowEnds(ws: seq<Window>) returns (i: nat)
    requires CutWell(ws) && |ws| > 1
    ensures i < |ws[0]| < |Flatten(ws)| && Responds(Flatten(ws)[i]) && Flatten(ws)[|ws[0]|].name.SttFinal?
  {
    FlattenHead(ws);
    FlattenHead(ws[1..]);
    assert ws[1..][0] == ws[1];
    assert OpensOnStt(ws[1]);
    assert Answered(ws[0]);
    i :| 0 <= i < |ws[0]| && Responds(ws[0][i]);
  }

  /** No first window reaches over such a place. */
  lemma FirstWindowFits(vs: seq<Window>, i: nat, cut: nat)
    requires CutWell(vs) && vs != [] && i < cut < |Flatten(vs)|
    requires Responds(Flatten(vs)[i]) && Flatten(vs)[cut].name.SttFinal?
    ensures cut >= |vs[0]|
  {
    FlattenHead(vs);
    hide Responds;
    assert CallerFirst(vs[0]);
    assert forall k :: 0 <= k < |vs[0]| ==> Flatten(vs)[k] == vs[0][k];
  }

  /** A shorter first window would leave an answered caller in the middle of the other one. */
  lemma FirstWindowNoShorter(ws: seq<Window>, vs: seq<Window>)
    requires CutWell(ws) && CutWell(vs) && ws != [] && vs != [] && Flatten(ws) == Flatten(vs)
    ensures |ws[0]| >= |vs[0]|
  {
    FlattenHead(ws);
    FlattenHead(vs);
    hide CutWell, Responds, Flatten;
    if |ws| > 1 {
      var i := FirstWindowEnds(ws);
      FirstWindowFits(vs, i, |ws[0]|);
    } else {
      assert ws[1..] == [] && Flatten([]) == [] by { FlattenNothing(); }
    }
  }

  lemma FlattenNothing()
    ensures Flatten([]) == []
  {
  }

  lemma CutWellTail(ws: seq<Window>)
    requires CutWell(ws) && ws != []
    ensures CutWell(ws[1..])
  {
    hide CallerFirst, OpensOnStt, Answered;
  }

  /** There is only one way to cut an event list into such windows. */
  lemma {:induction false} WindowsUnique(ws: seq<Window>, vs: seq<Window>)
    requires CutWell(ws) && CutWell(vs) && Flatten(ws) == Flatten(vs)
    ensures ws == vs
    decreases |ws|
  {
    if ws == [] || vs == [] {
      if ws != [] {
        FlattenNonEmpty(ws);
      }
      if vs != [] {
        FlattenNonEmpty(vs);
      }
    } else {
      FirstWindowNoShorter(ws, vs);
      FirstWindowNoShorter(vs, ws);
      CutWellTail(ws);
      CutWellTail(vs);
      FlattenHead(ws);
      FlattenHead(vs);
      hide *;
      var es, n := Flatten(ws), |ws[0]|;
      assert ws[0] == es[..n] == vs[0];
      assert Flatten(ws[1..]) == es[n..] == Flatten(vs[1..]);
      WindowsUnique(ws[1..], vs[1..]);
      assert ws == [ws[0]] + ws[1..] && vs == [vs[0]] + vs[1..];
    }
  }

  // ---------------------------------------------------------------- anchors

  function TimeIf(e: Event, name: Name): Option<int> {
    if e.name == name then e.t else None
  }

  /** The time of the first event of that name, if there is one. */
  function FirstTime(w: Window, name: Name): Option<int> {
    if w == [] then None else SetDefault(FirstTime(Init(w), name), TimeIf(Last(w), name))
  }

  function SttText(e: Event): seq<string> {
    if e.name.SttFinal? && TextOf(e).Some? then [TextOf(e).value] else []
  }

  function Texts(w: Window): seq<string> {
    if w == [] then [] else Texts(Init(w)) + SttText(Last(w))
  }

  function Join(ss: seq<string>): string {
    if ss == [] then "" else if |ss| == 1 then ss[0] else Join(Init(ss)) + " " + Last(ss)
  }

  lemma NoteSets(g: Group, e: Event)
    ensures var g' := Note(g, e);
      && g'.sttFinal == SetDefault(g.sttFinal, TimeIf(e, SttFinal))
      && g'.committed == SetDefault(g.committed, TimeIf(e, TurnCommitted))
      && g'.llmFirst == SetDefault(g.llmFirst, TimeIf(e, LlmFirstToken))
      && g'.ttsFirst == SetDefault(g.ttsFirst, TimeIf(e, TtsFirstAudio))
      && g'.interrupted == (g.interrupted || e.name.BargeIn?)
  {
  }

  /** Each time anchor is the first such event of the window. */
  lemma {:induction false} Anchors(w: Window)
    ensures GroupOf(w).sttFinal == FirstTime(w, SttFinal)
    ensures GroupOf(w).committed == FirstTime(w, TurnCommitted)
    ensures GroupOf(w).llmFirst == FirstTime(w, LlmFirstToken)
    ensures GroupOf(w).ttsFirst == FirstTime(w, TtsFirstAudio)
  {
    if w != [] {
      Anchors(Init(w));
      NoteSets(GroupOf(Init(w)), Last(w));
      hide Note, SetDefault, TimeIf;
    }
  }

  lemma {:induction false} InterruptedIff(w: Window)
    ensures GroupOf(w).interrupted <==> exists i :: 0 <= i < |w| && w[i].name.BargeIn?
  {
    if w != [] {
      InterruptedIff(Init(w));
      NoteSets(GroupOf(Init(w)), Last(w));
      hide Note;
      assert Last(w) == w[|w| - 1];
      assert forall i :: 0 <= i < |Init(w)| ==> Init(w)[i] == w[i];
    }
  }

  ghost predicate AllTimed(w: Window) {
    forall i :: 0 <= i < |w| ==> w[i].t.Some?
  }

  lemma {:induction false} FirstTimeWitness(w: Window, name: Name) returns (i: nat)
    requires AllTimed(w) && FirstTime(w, name).Some?
    ensures i < |w| && w[i].name == name && w[i].t == FirstTime(w, name)
  {
    if FirstTime(Init(w), name).Some? {
      i := FirstTimeWitness(Init(w), name);
    } else {
      i := |w| - 1;
    }
  }

  lemma {:induction false} FirstTimeSome(w: Window, name: Name)
    requires AllTimed(w)
    ensures FirstTime(w, name).Some? <==> exists i :: 0 <= i < |w| && w[i].name == name
  {
    if w != [] {
      FirstTimeSome(Init(w), name);
      if FirstTime(Init(w), name).Some? {
        var i :| 0 <= i < |Init(w)| && Init(w)[i].name == name;
        assert w[i].name == name;
      }
      if Last(w).name == name {
        assert w[|w| - 1].name == name;
      }
      if i :| 0 <= i < |w| && w[i].name == name {
        assert i < |w| - 1 ==> Init(w)[i].name == name;
      }
    }
  }

  /** When a window has both anchors its latency is there and is not negative. */
  lemma LatencyPresent(w: Window)
    requires CallerFirst(w) && AllTimed(w) && IsSorted(w, ByTime)
    requires FirstTime(w, SttFinal).Some? && FirstTime(w, TtsFirstAudio).Some?
    ensures var t := TurnFrom(0, GroupOf(w));
      t.responseLatency.Some? && t.responseLatency.value >= 0
      && t.responseLatency.value == FirstTime(w, TtsFirstAudio).value - FirstTime(w, SttFinal).value
  {
    Anchors(w);
    var i := FirstTimeWitness(w, SttFinal);
    var j := FirstTimeWitness(w, TtsFirstAudio);
    assert AgentSide(w[j]);
    assert i < j;
    assert ByTime(w[i], w[j]);
  }

  // ---------------------------------------------------------------- turns and windows

  lemma SttIsWorthATurn(w: Window)
    requires OpensOnStt(w) && AllTimed(w)
    ensures GroupOf(w).sttFinal.Some? && Worth(GroupOf(w))
  {
    Anchors(w);
    FirstTimeSome(w, SttFinal);
    assert w[0].name == SttFinal;
  }

  function Skipped(ws: seq<Window>): nat {
    if ws != [] && !Worth(GroupOf(ws[0])) then 1 else 0
  }

  ghost predicate ReadOff(ts: seq<Turn>, ws: seq<Window>) {
    && |ts| == |ws| - Skipped(ws)
    && forall n :: 0 <= n < |ts| ==> ts[n] == TurnFrom(n, GroupOf(ws[n + Skipped(ws)]))
  }

  lemma ReadOffOneMore(ts: seq<Turn>, ws: seq<Window>)
    requires ws != [] && ReadOff(ts, Init(ws)) && (|ws| > 1 ==> Worth(GroupOf(Last(ws))))
    ensures ReadOff(Close(ts, GroupOf(Last(ws))), ws)
  {
    hide GroupOf, Worth, TurnFrom;
    if |ws| > 1 {
      assert Init(ws)[0] == ws[0];
    }
  }

  /** Only the first window can be dropped: turn n is window n, or window n + 1 when the first
      window held no anchor. */
  lemma {:induction false} TurnsAreWindows(ws: seq<Window>)
    requires forall n :: 0 < n < |ws| ==> OpensOnStt(ws[n]) && AllTimed(ws[n])
    ensures ReadOff(TurnsOf(ws), ws)
  {
    if ws != [] {
      TurnsAreWindows(Init(ws));
      if |ws| > 1 {
        SttIsWorthATurn(Last(ws));
      }
      hide GroupOf, OpensOnStt, AllTimed, ReadOff;
      ReadOffOneMore(TurnsOf(Init(ws)), ws);
    }
  }

  /** Every window is a stretch of the event list. */
  lemma {:induction false} WindowIsStretch(ws: seq<Window>, n: nat) returns (at: nat)
    requires n < |ws|
    ensures at + |ws[n]| <= |Flatten(ws)| && Flatten(ws)[at..at + |ws[n]|] == ws[n]
    decreases |ws|
  {
    var p := Flatten(Init(ws));
    if n == |ws| - 1 {
      at := |p|;
    } else {
      at := WindowIsStretch(Init(ws), n);
      assert Flatten(ws)[at..at + |ws[n]|] == p[at..at + |ws[n]|];
    }
  }

  lemma SubOfSorted(ws: seq<Window>, n: nat)
    requires n < |ws| && IsSorted(Flatten(ws), ByTime) && AllTimed(Flatten(ws))
    ensures IsSorted(ws[n], ByTime) && AllTimed(ws[n])
  {
    var at := WindowIsStretch(ws, n);
    var es := Flatten(ws);
    hide Flatten;
    assert forall i :: 0 <= i < |ws[n]| ==> ws[n][i] == es[at + i];
  }

  lemma {:induction false} TimedIsTimed(spans: seq<seq<Event>>)
    ensures forall e :: e in Timed(spans) ==> e.t.Some?
  {
    if spans != [] {
      TimedIsTimed(Init(spans));
      FilterMembers(Last(spans), (e: Event) => e.t.Some?);
    }
  }

  lemma TimelineSorted(spans: seq<seq<Event>>)
    ensures IsSorted(Timeline(spans), ByTime) && AllTimed(Timeline(spans))
    ensures multiset(Timeline(spans)) == multiset(Timed(spans))
  {
    SortedOrders(Timed(spans), ByTime);
    SortedKeeps(Timed(spans), ByTime);
    SortedMembers(Timed(spans), ByTime);
    TimedIsTimed(spans);
    forall i | 0 <= i < |Timeline(spans)|
      ensures Timeline(spans)[i].t.Some?
    {
      assert Timeline(spans)[i] in Timeline(spans);
    }
  }

  lemma TimelineWindows(spans: seq<seq<Event>>, m: nat)
    requires m < |Windows(Timeline(spans))|
    ensures var w := Windows(Timeline(spans))[m];
      && w != [] && IsSorted(w, ByTime) && AllTimed(w) && CallerFirst(w) && (m > 0 ==> OpensOnStt(w))
  {
    var ws := Windows(Timeline(spans));
    TimelineSorted(spans);
    WindowsPartition(Timeline(spans));
    CallerSpeaksFirst(Timeline(spans));
    SubOfSorted(ws, m);
  }

  /** For every input: indexes count up, every turn after the first has an stt_final, and a turn with
      both anchors has a non-negative latency. */
  lemma TurnsWellFormed(spans: seq<seq<Event>>, n: nat)
    requires n < |TurnsOf(Windows(Timeline(spans)))|
    ensures var t := TurnsOf(Windows(Timeline(spans)))[n];
      && t.index == n
      && (n > 0 ==> t.sttFinalAt.Some?)
      && (t.sttFinalAt.Some? && t.ttsFirstAudioAt.Some? ==>
            t.responseLatency == Some(t.ttsFirstAudioAt.value - t.sttFinalAt.value)
            && t.responseLatency.value >= 0)
  {
    var ws := Windows(Timeline(spans));
    forall m | 0 < m < |ws|
      ensures OpensOnStt(ws[m]) && AllTimed(ws[m])
    {
      TimelineWindows(spans, m);
    }
    TurnsAreWindows(ws);
    var m := n + Skipped(ws);
    TimelineWindows(spans, m);
    hide Windows, Timeline, TurnsOf, GroupOf, Skipped;
    WindowWellFormed(ws[m], m);
  }

  lemma WindowWellFormed(w: Window, m: nat)
    requires CallerFirst(w) && IsSorted(w, ByTime) && AllTimed(w)
    requires m > 0 ==> OpensOnStt(w)
    ensures m > 0 ==> GroupOf(w).sttFinal.Some?
    ensures var g := GroupOf(w); g.sttFinal.Some? && g.ttsFirst.Some? ==>
      Ms(g.sttFinal, g.ttsFirst) == Some(g.ttsFirst.value - g.sttFinal.value)
      && g.ttsFirst.value >= g.sttFinal.value
  {
    Anchors(w);
    if m > 0 {
      SttIsWorthATurn(w);
    }
    if GroupOf(w).sttFinal.Some? && GroupOf(w).ttsFirst.Some? {
      LatencyPresent(w);
    }
  }

  // ---------------------------------------------------------------- the caller's words

  lemma {:induction false} JoinPieces(a: seq<string>, b: seq<string>)
    ensures Join(a + b) == if a == [] then Join(b) else if b == [] then Join(a) else Join(a) + " " + Join(b)
  {
    if b == [] {
      assert a + b == a;
    } else if a == [] {
      assert a + b == b;
    } else {
      assert Init(a + b) == a + Init(b) && Last(a + b) == Last(b);
      JoinPieces(a, Init(b));
      if |b| == 1 {
        assert a + Init(b) == a;
      }
    }
  }

  function Joined(texts: seq<string>): Option<string> {
    if texts == [] then None else Some(Join(texts))
  }

  lemma NoteAddsText(g: Group, e: Event, texts: seq<string>)
    requires g.transcript == Joined(texts) && (texts != [] ==> Join(texts) != "")
    ensures Note(g, e).transcript == Joined(texts + SttText(e))
    ensures texts + SttText(e) != [] ==> Join(texts + SttText(e)) != ""
  {
    JoinPieces(texts, SttText(e));
    if SttText(e) == [] {
      assert texts + [] == texts;
    } else {
      var text := TextOf(e).value;
      assert text != "" && "" + "" + text == text;
      hide TextOf;
    }
  }

  /** A window's transcript is its non-blank stt texts, joined; None when there are none. */
  lemma {:induction false} TranscriptOf(w: Window)
    ensures GroupOf(w).transcript == Joined(Texts(w))
    ensures Texts(w) != [] ==> Join(Texts(w)) != ""
  {
    if w != [] {
      TranscriptOf(Init(w));
      NoteAddsText(GroupOf(Init(w)), Last(w), Texts(Init(w)));
      hide Note, Join, SttText;
    }
  }

  lemma {:induction false} TextsConcat(a: Window, b: Window)
    ensures Texts(a + b) == Texts(a) + Texts(b)
  {
    hide SttText;
    if b == [] {
      assert a + b == a;
    } else {
      assert Init(a + b) == a + Init(b) && Last(a + b) == Last(b);
      TextsConcat(a, Init(b));
      assert (Texts(a) + Texts(Init(b))) + SttText(Last(b)) == Texts(a) + (Texts(Init(b)) + SttText(Last(b)));
    }
  }

  function Said(turns: seq<Turn>): seq<string> {
    if turns == [] then []
    else
      Said(Init(turns)) + if Last(turns).transcript.Some? then [Last(turns).transcript.value] else []
  }

  lemma SaidClose(ts: seq<Turn>, g: Group)
    ensures Said(Close(ts, g)) == Said(ts) + if Worth(g) && g.transcript.Some? then [g.transcript.value] else []
  {
    assert Init(ts + [TurnFrom(|ts|, g)]) == ts;
  }

  lemma {:induction false} SaidOverWindows(ws: seq<Window>)
    requires forall n :: 0 <= n < |ws| ==> AllTimed(ws[n])
    ensures Join(Said(TurnsOf(ws))) == Join(Texts(Flatten(ws)))
    ensures Said(TurnsOf(ws)) == [] <==> Texts(Flatten(ws)) == []
  {
    if ws != [] {
      var p, w := Init(ws), Last(ws);
      SaidOverWindows(p);
      TextsConcat(Flatten(p), w);
      TranscriptOf(w);
      TextNeedsStt(w);
      SaidClose(TurnsOf(p), GroupOf(w));
      SaidStep(Said(TurnsOf(p)), Texts(Flatten(p)), Texts(w));
      hide GroupOf, Texts, Said, Join, AllTimed, Close;
    }
  }

  lemma SaidStep(said: seq<string>, before: seq<string>, texts: seq<string>)
    requires Join(said) == Join(before) && (said == [] <==> before == [])
    ensures var said' := said + if texts == [] then [] else [Join(texts)];
      Join(said') == Join(before + texts) && (said' == [] <==> before + texts == [])
  {
    JoinPieces(before, texts);
    JoinPieces(said, if texts == [] then [] else [Join(texts)]);
  }

  lemma {:induction false} TextNeedsStt(w: Window)
    requires AllTimed(w)
    ensures Texts(w) != [] ==> GroupOf(w).sttFinal.Some?
  {
    if w != [] {
      TextNeedsStt(Init(w));
      NoteSets(GroupOf(Init(w)), Last(w));
      hide Note, TextOf;
    }
  }

  /** The texts of the windows, window after window. */
  function WindowTexts(ws: seq<Window>): seq<string> {
    if ws == [] then [] else WindowTexts(Init(ws)) + Texts(Last(ws))
  }

  lemma {:induction false} TextsOfWindows(ws: seq<Window>)
    ensures Texts(Flatten(ws)) == WindowTexts(ws)
  {
    if ws != [] {
      TextsOfWindows(Init(ws));
      TextsConcat(Flatten(Init(ws)), Last(ws));
    }
  }

  lemma {:induction false} TextlessHead(ws: seq<Window>)
    requires ws != [] && Texts(ws[0]) == []
    ensures WindowTexts(ws[1..]) == WindowTexts(ws)
  {
    if |ws| == 1 {
      assert ws[1..] == [] && Init(ws) == [];
    } else {
      TextlessHead(Init(ws));
      assert Init(ws[1..]) == Init(ws)[1..] && Last(ws[1..]) == Last(ws);
    }
  }

  /** The windows that make a turn. */
  function Kept(ws: seq<Window>): seq<Window> {
    ws[Skipped(ws)..]
  }

  /** A window that makes no turn has no text. */
  lemma KeptTexts(ws: seq<Window>)
    requires forall n :: 0 <= n < |ws| ==> AllTimed(ws[n])
    ensures WindowTexts(Kept(ws)) == WindowTexts(ws)
  {
    if Skipped(ws) == 1 {
      TextNeedsStt(ws[0]);
      TextlessHead(ws);
    } else {
      assert ws[0..] == ws;
    }
  }

  ghost predicate WellTimed(ws: seq<Window>) {
    forall n :: 0 <= n < |ws| ==> AllTimed(ws[n]) && (n > 0 ==> OpensOnStt(ws[n]))
  }

  lemma WindowsWellTimed(spans: seq<seq<Event>>)
    ensures WellTimed(Windows(Timeline(spans))) && Flatten(Windows(Timeline(spans))) == Timeline(spans)
  {
    var ws := Windows(Timeline(spans));
    WindowsPartition(Timeline(spans));
    hide Windows, Timeline, AllTimed, OpensOnStt, Flatten, CallerFirst, IsSorted;
    forall m | 0 <= m < |ws|
      ensures AllTimed(ws[m]) && (m > 0 ==> OpensOnStt(ws[m]))
    {
      TimelineWindows(spans, m);
    }
  }

  /** Turn n is read off the n-th kept window, and so is its transcript. */
  lemma TurnTexts(ws: seq<Window>)
    requires WellTimed(ws)
    ensures |TurnsOf(ws)| == |Kept(ws)|
    ensures forall n :: 0 <= n < |TurnsOf(ws)| ==> TurnsOf(ws)[n].transcript == Joined(Texts(Kept(ws)[n]))
  {
    hide TurnsOf, GroupOf, Texts, AllTimed, OpensOnStt, Worth, Join, Joined;
    TurnsAreWindows(ws);
    forall n | 0 <= n < |Kept(ws)|
      ensures TurnsOf(ws)[n].transcript == Joined(Texts(Kept(ws)[n]))
    {
      TranscriptOf(ws[n + Skipped(ws)]);
    }
  }

  /** Nothing the caller said is lost, moved to another turn or reordered: turn n's transcript is the joined
      non-blank stt.final texts of its window, and those texts, turn after turn, are the timeline's. */
  lemma TranscriptsConserved(spans: seq<seq<Event>>)
    ensures var ws := Windows(Timeline(spans)); var ts := TurnsOf(ws);
      && |ts| == |Kept(ws)|
      && (forall n :: 0 <= n < |ts| ==> ts[n].transcript == Joined(Texts(Kept(ws)[n])))
      && WindowTexts(Kept(ws)) == Texts(Timeline(spans))
      && Join(Said(ts)) == Join(Texts(Timeline(spans)))
  {
    hide *;
    var ws := Windows(Timeline(spans));
    WindowsWellTimed(spans);
    assert forall n :: 0 <= n < |ws| ==> AllTimed(ws[n]) by { AllWellTimed(ws); }
    SaidOverWindows(ws);
    TextsOfWindows(ws);
    KeptTexts(ws);
    TurnTexts(ws);
  }

  lemma AllWellTimed(ws: seq<Window>)
    requires WellTimed(ws)
    ensures forall n :: 0 <= n < |ws| ==> AllTimed(ws[n])
  {
  }
}
