/** A derived turn field by field, read off the events of its window. */
module TurnFields {
  import opened Options
  import opened Seqs
  import opened Sorting
  import opened EventTurns

  /** `w[i]` is the window's first event of that name. */
  ghost predicate FirstOf(w: Window, name: Name, i: int) {
    0 <= i < |w| && w[i].name == name && forall j :: 0 <= j < i ==> w[j].name != name
  }

  ghost predicate NoneOf(w: Window, name: Name) {
    forall i :: 0 <= i < |w| ==> w[i].name != name
  }

  // The code points that `str.strip` strips.
  const STRIPPED: set<int> :=
    {9, 10, 11, 12, 13, 28, 29, 30, 31, 32, 133, 160, 5760, 8192, 8193, 8194, 8195, 8196, 8197, 8198, 8199, 8200, 8201,
     8202, 8232, 8233, 8239, 8287, 12288}

  /** A text that counts as nothing has no other characters. */
  lemma BlankIs(s: string)
    ensures Blank(s) <==> forall i :: 0 <= i < |s| ==> s[i] as int in STRIPPED
  {
  }

  /** The event's first content value that is a string with more than blanks in it. */
  ghost predicate Says(e: Event, text: string) {
    !Blank(text) && exists k :: TextAt(e.content, k, text)
  }

  ghost predicate SaysNothing(e: Event) {
    forall k :: 0 <= k < |e.content| ==> e.content[k].NotText? || Blank(e.content[k].s)
  }

  /** `w[i]` is the first event of that name that says something. */
  ghost predicate FirstSaying(w: Window, name: Name, i: int, text: string) {
    && 0 <= i < |w| && w[i].name == name && Says(w[i], text)
    && forall j :: 0 <= j < i && w[j].name == name ==> SaysNothing(w[j])
  }

  ghost predicate NoneSays(w: Window, name: Name) {
    forall i :: 0 <= i < |w| && w[i].name == name ==> SaysNothing(w[i])
  }

  ghost predicate TextAt(content: seq<Value>, k: int, text: string) {
    && 0 <= k < |content| && content[k] == Text(text)
    && forall j :: 0 <= j < k ==> content[j].NotText? || Blank(content[j].s)
  }

  lemma {:induction false} FirstTextIs(content: seq<Value>)
    ensures FirstText(content).None? <==> forall k :: 0 <= k < |content| ==> content[k].NotText? || Blank(content[k].s)
    ensures FirstText(content).Some? ==> exists k :: TextAt(content, k, FirstText(content).value)
  {
    hide Blank;
    if content != [] && !(content[0].Text? && !Blank(content[0].s)) {
      var rest := content[1..];
      FirstTextIs(rest);
      assert forall k :: 0 < k < |content| ==> content[k] == rest[k - 1];
      if FirstText(content).Some? {
        var k :| TextAt(rest, k, FirstText(rest).value);
        assert TextAt(content, k + 1, FirstText(content).value);
      }
    } else if content != [] {
      assert TextAt(content, 0, FirstText(content).value);
    }
  }

  lemma TextIs(e: Event)
    ensures TextOf(e).None? <==> SaysNothing(e)
    ensures forall text :: TextOf(e) == Some(text) <==> Says(e, text)
  {
    FirstTextIs(e.content);
    hide FirstText, Blank;
    forall text
      ensures TextOf(e) == Some(text) <==> Says(e, text)
    {
      if Says(e, text) {
        var k :| TextAt(e.content, k, text);
        if TextOf(e).Some? {
          var l :| TextAt(e.content, l, TextOf(e).value);
          assert l < k || k < l || k == l;
        }
      }
    }
  }

  lemma {:induction false} FirstTimeIs(w: Window, name: Name)
    requires AllTimed(w)
    ensures NoneOf(w, name) ==> FirstTime(w, name) == None
    ensures forall i :: FirstOf(w, name, i) ==> FirstTime(w, name) == w[i].t
  {
    if w != [] {
      var p := Init(w);
      FirstTimeIs(p, name);
      forall i | FirstOf(w, name, i)
        ensures FirstTime(w, name) == w[i].t
      {
        if i < |p| {
          assert FirstOf(p, name, i);
        } else {
          assert NoneOf(p, name);
        }
      }
    }
  }

  function Reply(g: Group, spoken: bool): Option<string> {
    if spoken then g.llmSpoken else g.llmRaw
  }

  function ReplyName(spoken: bool): Name {
    if spoken then LlmSpoken else LlmRaw
  }

  /** The raw reply comes from llm.raw events alone, the spoken one from llm.spoken, and of each the first that says
      something. */
  lemma {:induction false} RepliesAre(w: Window, spoken: bool)
    ensures NoneSays(w, ReplyName(spoken)) ==> Reply(GroupOf(w), spoken) == None
    ensures forall i, text :: FirstSaying(w, ReplyName(spoken), i, text) ==> Reply(GroupOf(w), spoken) == Some(text)
  {
    hide TextOf, Says, SaysNothing;
    if w != [] {
      var p, e, name := Init(w), Last(w), ReplyName(spoken);
      RepliesAre(p, spoken);
      TextIs(e);
      assert forall i :: 0 <= i < |p| ==> p[i] == w[i];
      forall i, text | FirstSaying(w, name, i, text)
        ensures Reply(GroupOf(w), spoken) == Some(text)
      {
        if i < |p| {
          assert FirstSaying(p, name, i, text);
        } else {
          assert NoneSays(p, name);
        }
      }
      if NoneSays(w, name) {
        assert NoneSays(p, name);
      }
    }
  }

  /** A time is that of the window's first event of the name, if it has one. */
  ghost predicate TimeOf(w: Window, name: Name, time: Option<int>) {
    (NoneOf(w, name) ==> time == None) && forall i :: FirstOf(w, name, i) ==> time == w[i].t
  }

  /** A reply is the text of the window's first event of the name that says something, if there is one. */
  ghost predicate ReplyOf(w: Window, name: Name, reply: Option<string>) {
    (NoneSays(w, name) ==> reply == None) && forall i, text :: FirstSaying(w, name, i, text) ==> reply == Some(text)
  }

  /** From one time to another, if both are known and in this order. */
  predicate Span(from: Option<int>, to: Option<int>, length: Option<int>) {
    length == if from.Some? && to.Some? && from.value <= to.value then Some(to.value - from.value) else None
  }

  /** The n-th turn of any trace, field by field: times and replies are those of its window's first events, the latency
      is from the caller's final word to the agent's audio and the other from the commit to the first token. */
  lemma TurnFieldsExact(spans: seq<seq<Event>>, n: nat)
    requires n < |TurnsOf(Windows(Timeline(spans)))|
    ensures |TurnsOf(Windows(Timeline(spans)))| == |Kept(Windows(Timeline(spans)))|
    ensures var t, w := TurnsOf(Windows(Timeline(spans)))[n], Kept(Windows(Timeline(spans)))[n];
      && t.index == n
      && TimeOf(w, SttFinal, t.sttFinalAt) && TimeOf(w, TurnCommitted, t.committedAt)
      && TimeOf(w, LlmFirstToken, t.llmFirstTokenAt) && TimeOf(w, TtsFirstAudio, t.ttsFirstAudioAt)
      && Span(t.sttFinalAt, t.ttsFirstAudioAt, t.responseLatency) && Span(t.committedAt, t.llmFirstTokenAt, t.llmTtft)
      && ReplyOf(w, LlmRaw, t.llmRaw) && ReplyOf(w, LlmSpoken, t.llmSpoken)
      && (t.interrupted <==> exists i :: 0 <= i < |w| && w[i].name.BargeIn?)
  {
    hide *;
    var ws := Windows(Timeline(spans));
    WindowsWellTimed(spans);
    TurnIs(ws, n);
    var w := Kept(ws)[n];
    GroupIs(w);
    FieldsAre(n, GroupOf(w));
  }

  lemma TurnIs(ws: seq<Window>, n: nat)
    requires WellTimed(ws) && n < |TurnsOf(ws)|
    ensures |TurnsOf(ws)| == |Kept(ws)| && TurnsOf(ws)[n] == TurnFrom(n, GroupOf(Kept(ws)[n])) && AllTimed(Kept(ws)[n])
  {
    hide TurnsOf, GroupOf, TurnFrom, AllTimed, OpensOnStt, Worth;
    TurnsAreWindows(ws);
  }

  lemma GroupIs(w: Window)
    requires AllTimed(w)
    ensures var g := GroupOf(w);
      && TimeOf(w, SttFinal, g.sttFinal) && TimeOf(w, TurnCommitted, g.committed)
      && TimeOf(w, LlmFirstToken, g.llmFirst) && TimeOf(w, TtsFirstAudio, g.ttsFirst)
      && ReplyOf(w, LlmRaw, g.llmRaw) && ReplyOf(w, LlmSpoken, g.llmSpoken)
      && (g.interrupted <==> exists i :: 0 <= i < |w| && w[i].name.BargeIn?)
  {
    Anchors(w);
    InterruptedIff(w);
    FirstTimeIs(w, SttFinal);
    FirstTimeIs(w, TurnCommitted);
    FirstTimeIs(w, LlmFirstToken);
    FirstTimeIs(w, TtsFirstAudio);
    RepliesAre(w, false);
    RepliesAre(w, true);
    hide GroupOf, FirstTime, FirstOf, NoneOf, FirstSaying, NoneSays;
  }

  lemma FieldsAre(n: nat, g: Group)
    ensures var t := TurnFrom(n, g);
      && t.index == n && t.sttFinalAt == g.sttFinal && t.committedAt == g.committed && t.llmFirstTokenAt == g.llmFirst
      && t.ttsFirstAudioAt == g.ttsFirst && t.llmRaw == g.llmRaw && t.llmSpoken == g.llmSpoken
      && t.interrupted == g.interrupted
      && Span(t.sttFinalAt, t.ttsFirstAudioAt, t.responseLatency) && Span(t.committedAt, t.llmFirstTokenAt, t.llmTtft)
  {
  }

  /** The first window makes no turn exactly when it has no stt.final, no audio and no spoken reply that says something;
      every other window makes one. */
  lemma FirstWindowDroppedIff(spans: seq<seq<Event>>)
    ensures var ws := Windows(Timeline(spans));
      Kept(ws) == if ws != [] && NoneOf(ws[0], SttFinal) && NoneOf(ws[0], TtsFirstAudio) && NoneSays(ws[0], LlmSpoken)
                  then ws[1..] else ws
  {
    hide *;
    var ws := Windows(Timeline(spans));
    WindowsWellTimed(spans);
    KeptIs(ws);
    if ws != [] {
      FirstTimed(ws);
      WorthIff(ws[0]);
    }
  }

  lemma KeptIs(ws: seq<Window>)
    ensures Kept(ws) == if ws != [] && !Worth(GroupOf(ws[0])) then ws[1..] else ws
  {
    hide Worth, GroupOf;
  }

  lemma FirstTimed(ws: seq<Window>)
    requires WellTimed(ws) && ws != []
    ensures AllTimed(ws[0])
  {
    hide AllTimed;
  }

  lemma WorthIff(w: Window)
    requires AllTimed(w)
    ensures Worth(GroupOf(w)) <==> !(NoneOf(w, SttFinal) && NoneOf(w, TtsFirstAudio) && NoneSays(w, LlmSpoken))
  {
    FirstTimeSome(w, SttFinal);
    FirstTimeSome(w, TtsFirstAudio);
    Anchors(w);
    SpokenIff(w);
    hide GroupOf, FirstTime, NoneOf, NoneSays, AllTimed;
  }

  lemma {:induction false} SpokenIff(w: Window)
    ensures GroupOf(w).llmSpoken.Some? <==> !NoneSays(w, LlmSpoken)
  {
    hide TextOf, SaysNothing;
    if w != [] {
      SpokenIff(Init(w));
      TextIs(Last(w));
      assert forall i :: 0 <= i < |Init(w)| ==> Init(w)[i] == w[i];
    }
  }
}
