/** Runs of writers and the poller over one agent's store: objects are written and rewritten at any
    moment, sweeps are cut off by crashes between commits, and processing a call may fail.

    `skipped` and `done` are history, not poller state: which calls' last attempt failed or was cut
    off, and what each call was last processed with. */
module PollerRuns {
  import opened Options
  import opened Poller

  /** A version identifies an object's content. */
  datatype Obj = Obj(modified: int, version: nat)

  datatype Processed = Processed(parts: set<(string, nat)>, newest: int)

  datatype Poll = Poll(now: int, objects: map<string, Obj>, nextVersion: nat, mark: Option<int>,
                       queue: seq<Work>, cutoff: int, done: map<string, Processed>, skipped: set<string>)

  const START := Poll(0, map[], 0, None, [], 0, map[], {})

  datatype Step =
    | Tick(seconds: nat)
    | Write(uri: string)
    | Begin(cutoff: int, listing: seq<Listed>)
    | Process(status: Status)
    | Crash

  /** The listing shows the store as it is. */
  ghost predicate Enumerates(listing: seq<Listed>, objects: map<string, Obj>) {
    && (forall o :: o in listing ==> o.uri in objects && objects[o.uri].modified == o.modified)
    && (forall u :: u in objects ==> Listed(u, objects[u].modified) in listing)
  }

  /** A sweep starts when the last one is over; its cutoff was computed no later than its listing. */
  ghost predicate Can(s: Poll, step: Step, grace: int) {
    match step
    case Begin(cutoff, listing) => s.queue == [] && cutoff <= s.now - grace && Enumerates(listing, s.objects)
    case Process(_) => s.queue != []
    case _ => true
  }

  function Uris(items: seq<(int, string)>): set<string> {
    set k | 0 <= k < |items| :: items[k].1
  }

  function Calls(queue: seq<Work>): set<string> {
    set k | 0 <= k < |queue| :: queue[k].call
  }

  /** Processing reads the listed objects as they are now. */
  function Fetched(objects: map<string, Obj>, items: seq<(int, string)>): set<(string, nat)> {
    set u | u in objects && u in Uris(items) :: (u, objects[u].version)
  }

  /** A step that is not enabled does nothing. */
  ghost function Next(s: Poll, rules: seq<Rule>, step: Step, grace: int): Poll {
    if Can(s, step, grace) then Effect(s, rules, step) else s
  }

  ghost function Effect(s: Poll, rules: seq<Rule>, step: Step): Poll
    requires step.Process? ==> s.queue != []
  {
    match step
    case Tick(n) => s.(now := s.now + n)
    case Write(uri) => s.(objects := s.objects[uri := Obj(s.now, s.nextVersion)], nextVersion := s.nextVersion + 1)
    case Begin(cutoff, listing) => s.(queue := Queue(listing, rules, s.mark, cutoff), cutoff := cutoff)
    case Process(status) => if status == Raised then Fail(s) else Commit(s)
    case Crash => s.(queue := [], skipped := s.skipped + Calls(s.queue))
  }

  function Fail(s: Poll): Poll
    requires s.queue != []
  {
    s.(queue := s.queue[1..], skipped := s.skipped + {s.queue[0].call})
  }

  function Commit(s: Poll): Poll
    requires s.queue != []
  {
    var w := s.queue[0];
    s.(queue := s.queue[1..], mark := Advance(s.mark, w), skipped := s.skipped - {w.call},
       done := s.done[w.call := Processed(Fetched(s.objects, w.items), w.newest)])
  }

  // ---------------------------------------------------------------- calls and their objects

  /** The newest modified time of a call's objects. */
  ghost predicate NewestIs(objects: map<string, Obj>, rules: seq<Rule>, call: string, newest: int) {
    && (exists u :: u in objects && Owns(rules, call, u) && objects[u].modified == newest)
    && (forall u :: u in objects && Owns(rules, call, u) ==> objects[u].modified <= newest)
  }

  function Current(objects: map<string, Obj>, rules: seq<Rule>, call: string): set<(string, nat)> {
    set u | u in objects && Owns(rules, call, u) :: (u, objects[u].version)
  }

  /** Last processed since its newest object was written, with exactly its current objects. */
  ghost predicate UpToDate(s: Poll, rules: seq<Rule>, call: string) {
    && call in s.done
    && NewestIs(s.objects, rules, call, s.done[call].newest)
    && s.done[call].parts == Current(s.objects, rules, call)
  }

  /** The call's newest object lies at or before the watermark. */
  ghost predicate Passed(s: Poll, rules: seq<Rule>, call: string) {
    exists m :: NewestIs(s.objects, rules, call, m) && s.mark.Some? && m <= s.mark.value
  }

  /** What the watermark is taken to mean: whatever it has passed has been dealt with. */
  ghost predicate Claim(s: Poll, rules: seq<Rule>) {
    forall call :: Passed(s, rules, call) && call !in Calls(s.queue) ==> UpToDate(s, rules, call)
  }

  /** Some object is newer than anything the call was processed with. */
  ghost predicate Stale(s: Poll, rules: seq<Rule>, call: string) {
    call in s.done ==> exists u :: u in s.objects && Owns(rules, call, u) && s.objects[u].modified > s.done[call].newest
  }

  /** Written to since the sweep's listing. */
  ghost predicate Rewritten(s: Poll, rules: seq<Rule>, call: string) {
    exists u :: u in s.objects && Owns(rules, call, u) && s.objects[u].modified > s.cutoff
  }

  /** A queued call is as listed, unless it was written to since. */
  ghost predicate AsListed(s: Poll, rules: seq<Rule>, w: Work) {
    NewestIs(s.objects, rules, w.call, w.newest) &&
    (forall u :: u in Uris(w.items) <==> u in s.objects && Owns(rules, w.call, u))
  }

  // ---------------------------------------------------------------- the invariant

  ghost predicate Timely(s: Poll, grace: int) {
    && (forall u :: u in s.objects ==> s.objects[u].modified <= s.now)
    && (s.mark.Some? ==> s.mark.value <= s.now - grace)
    && (s.queue != [] ==> s.cutoff <= s.now - grace)
    && (forall c :: c in s.done ==> s.mark.Some? && s.done[c].newest <= s.mark.value)
  }

  ghost predicate Queued(s: Poll, rules: seq<Rule>) {
    && CallsDistinct(s.queue)
    && (forall i, j :: 0 <= i < j < |s.queue| ==> s.queue[i].newest <= s.queue[j].newest)
    && (forall i :: 0 <= i < |s.queue| ==> QueuedWork(s, rules, s.queue[i]))
  }

  ghost predicate QueuedWork(s: Poll, rules: seq<Rule>, w: Work) {
    && w.newest <= s.cutoff && (s.mark.Some? ==> s.mark.value <= w.newest)
    && (Rewritten(s, rules, w.call) || AsListed(s, rules, w))
    && Stale(s, rules, w.call)
  }

  ghost predicate Behind(s: Poll, rules: seq<Rule>) {
    forall c :: c in s.skipped ==> Stale(s, rules, c)
  }

  /** In the middle of a sweep, everything still ahead of the watermark and settled is on the list. */
  ghost predicate Ahead(s: Poll, rules: seq<Rule>) {
    s.queue != [] ==>
      forall c, m :: NewestIs(s.objects, rules, c, m) && InWindow(m, s.mark, s.cutoff) ==>
        c in Calls(s.queue) || c in s.skipped
  }

  ghost predicate Covered(s: Poll, rules: seq<Rule>) {
    forall c :: Passed(s, rules, c) ==> c in Calls(s.queue) || c in s.skipped || UpToDate(s, rules, c)
  }

  ghost predicate Inv(s: Poll, rules: seq<Rule>, grace: int) {
    Timely(s, grace) && Queued(s, rules) && Behind(s, rules) && Ahead(s, rules) && Covered(s, rules)
  }

  lemma NewestOnce(objects: map<string, Obj>, rules: seq<Rule>, call: string, a: int, b: int)
    requires NewestIs(objects, rules, call, a) && NewestIs(objects, rules, call, b)
    ensures a == b
  {
    hide Owns;
  }

  lemma StaleNotUpToDate(s: Poll, rules: seq<Rule>, call: string)
    requires Stale(s, rules, call)
    ensures !UpToDate(s, rules, call)
  {
    hide Owns;
  }

  /** The exact condition, at every point of every run: the watermark keeps its claim if and only if it has
      not passed a call whose last attempt failed or was cut off. */
  lemma ClaimIff(s: Poll, rules: seq<Rule>, grace: int)
    requires Inv(s, rules, grace)
    ensures Claim(s, rules) <==> forall c :: c in s.skipped && c !in Calls(s.queue) ==> !Passed(s, rules, c)
  {
    hide Passed, UpToDate, Stale, Timely, Queued, Ahead, Calls;
    forall c | c in s.skipped
      ensures !UpToDate(s, rules, c)
    {
      StaleNotUpToDate(s, rules, c);
    }
  }

  // ---------------------------------------------------------------- writes

  function Written(s: Poll, uri: string): Poll {
    s.(objects := s.objects[uri := Obj(s.now, s.nextVersion)], nextVersion := s.nextVersion + 1)
  }

  lemma WriteElsewhere(s: Poll, rules: seq<Rule>, uri: string, call: string)
    requires !Owns(rules, call, uri)
    ensures var s' := Written(s, uri);
      && (forall m :: NewestIs(s'.objects, rules, call, m) <==> NewestIs(s.objects, rules, call, m))
      && Current(s'.objects, rules, call) == Current(s.objects, rules, call)
      && (Stale(s', rules, call) <==> Stale(s, rules, call))
      && (Rewritten(s', rules, call) <==> Rewritten(s, rules, call))
  {
    hide Owns;
    var s' := Written(s, uri);
    assert forall u :: u in s'.objects && Owns(rules, call, u) <==> u in s.objects && Owns(rules, call, u);
    assert forall u :: u in s.objects && Owns(rules, call, u) ==> s'.objects[u] == s.objects[u];
  }

  /** A call written to is newest now, so no watermark or cutoff has reached it. */
  lemma WriteHere(s: Poll, rules: seq<Rule>, grace: int, uri: string, call: string)
    requires Timely(s, grace) && grace > 0 && Owns(rules, call, uri)
    ensures var s' := Written(s, uri);
      && !Passed(s', rules, call)
      && (s.queue != [] ==> forall m :: NewestIs(s'.objects, rules, call, m) ==> !InWindow(m, s.mark, s.cutoff))
      && (Stale(s, rules, call) ==> Stale(s', rules, call))
      && (s.queue != [] ==> Rewritten(s', rules, call))
  {
    hide Owns;
    var s' := Written(s, uri);
    assert s'.objects[uri].modified == s.now;
    forall m | NewestIs(s'.objects, rules, call, m)
      ensures m >= s.now
    {
    }
    if Stale(s, rules, call) && call in s.done {
      var u :| u in s.objects && Owns(rules, call, u) && s.objects[u].modified > s.done[call].newest;
      assert u in s'.objects && s'.objects[u].modified > s.done[call].newest;
    }
  }

  lemma WriteKeepsWork(s: Poll, rules: seq<Rule>, grace: int, uri: string, w: Work)
    requires Timely(s, grace) && grace > 0 && s.queue != [] && QueuedWork(s, rules, w)
    ensures QueuedWork(Written(s, uri), rules, w)
  {
    if Owns(rules, w.call, uri) {
      hide NewestIs, Owns, AsListed;
      WriteHere(s, rules, grace, uri, w.call);
    } else {
      WriteElsewhere(s, rules, uri, w.call);
      hide NewestIs, Owns, Stale, Rewritten;
    }
  }

  lemma WriteInv(s: Poll, rules: seq<Rule>, grace: int, uri: string)
    requires Inv(s, rules, grace) && grace > 0
    ensures Inv(Written(s, uri), rules, grace)
  {
    hide QueuedWork, Owns, NewestIs, Current, Stale, Rewritten;
    var s' := Written(s, uri);
    forall i | 0 <= i < |s.queue|
      ensures QueuedWork(s', rules, s.queue[i])
    {
      WriteKeepsWork(s, rules, grace, uri, s.queue[i]);
    }
    forall c
      ensures Stale(s, rules, c) ==> Stale(s', rules, c)
      ensures Passed(s', rules, c) ==> Passed(s, rules, c) && (UpToDate(s, rules, c) ==> UpToDate(s', rules, c))
      ensures s.queue != [] ==> forall m :: NewestIs(s'.objects, rules, c, m) && InWindow(m, s.mark, s.cutoff) ==>
        NewestIs(s.objects, rules, c, m)
    {
      if Owns(rules, c, uri) {
        WriteHere(s, rules, grace, uri, c);
      } else {
        WriteElsewhere(s, rules, uri, c);
      }
    }
  }

  // ---------------------------------------------------------------- commits, failures and crashes

  lemma CallsRest(queue: seq<Work>)
    requires queue != [] && CallsDistinct(queue)
    ensures Calls(queue) == Calls(queue[1..]) + {queue[0].call}
    ensures queue[0].call !in Calls(queue[1..])
  {
    var rest := queue[1..];
    forall c | c in Calls(queue)
      ensures c in Calls(rest) + {queue[0].call}
    {
      var k :| 0 <= k < |queue| && queue[k].call == c;
      assert k > 0 ==> rest[k - 1].call == c;
    }
    forall c | c in Calls(rest)
      ensures c in Calls(queue) && c != queue[0].call
    {
      var k :| 0 <= k < |rest| && rest[k].call == c;
      assert queue[k + 1].call == c;
    }
  }

  /** The committed call, if not written to since the listing, is now up to date. */
  lemma CommitDoes(s: Poll, rules: seq<Rule>)
    requires s.queue != [] && QueuedWork(s, rules, s.queue[0])
    ensures var w := s.queue[0]; var s' := Commit(s);
      && s'.mark == Some(w.newest)
      && (forall m :: NewestIs(s.objects, rules, w.call, m) && m <= s.cutoff ==>
            m == w.newest && UpToDate(s', rules, w.call))
  {
    hide Owns, Stale;
    var w, s' := s.queue[0], Commit(s);
    forall m | NewestIs(s.objects, rules, w.call, m) && m <= s.cutoff
      ensures m == w.newest && UpToDate(s', rules, w.call)
    {
      assert !Rewritten(s, rules, w.call);
      assert AsListed(s, rules, w);
      NewestOnce(s.objects, rules, w.call, m, w.newest);
      assert Fetched(s.objects, w.items) == Current(s.objects, rules, w.call);
    }
  }

  /** Calls other than the committed one keep their record. */
  lemma CommitKeeps(s: Poll, rules: seq<Rule>, call: string)
    requires s.queue != [] && call != s.queue[0].call
    ensures Stale(Commit(s), rules, call) <==> Stale(s, rules, call)
    ensures UpToDate(Commit(s), rules, call) <==> UpToDate(s, rules, call)
  {
    hide Owns, NewestIs, Current;
  }

  lemma CommitInv(s: Poll, rules: seq<Rule>, grace: int)
    requires Inv(s, rules, grace) && s.queue != []
    ensures Inv(Commit(s), rules, grace)
  {
    var w, s' := s.queue[0], Commit(s);
    assert QueuedWork(s, rules, w);
    CommitDoes(s, rules);
    CallsRest(s.queue);
    assert Timely(s', grace);
    CommitQueued(s, rules, grace);
    hide QueuedWork, Owns, NewestIs, Current, Stale, UpToDate, Calls, Commit;
    assert s'.skipped == s.skipped - {w.call} && s'.queue == s.queue[1..] && s'.cutoff == s.cutoff
           && s'.objects == s.objects by { CommitIs(s); }
    forall c | c in s'.skipped
      ensures Stale(s', rules, c)
    {
      CommitKeeps(s, rules, c);
    }
    CommitAhead(s, rules, grace);
    CommitCovered(s, rules, grace);
  }

  lemma CommitIs(s: Poll)
    requires s.queue != []
    ensures var s' := Commit(s);
      && s'.skipped == s.skipped - {s.queue[0].call} && s'.queue == s.queue[1..]
      && s'.cutoff == s.cutoff && s'.objects == s.objects && s'.now == s.now
  {
  }

  lemma CommitQueued(s: Poll, rules: seq<Rule>, grace: int)
    requires Queued(s, rules) && s.queue != []
    ensures Queued(Commit(s), rules)
  {
    var w, s' := s.queue[0], Commit(s);
    assert QueuedWork(s, rules, w);
    hide Owns, NewestIs, Stale, AsListed, Rewritten;
    forall i | 0 <= i < |s'.queue|
      ensures QueuedWork(s', rules, s'.queue[i])
    {
      assert QueuedWork(s, rules, s.queue[i + 1]) && s.queue[i + 1].call != w.call;
      CommitKeeps(s, rules, s.queue[i + 1].call);
      SameObjects(s, s', rules, s.queue[i + 1]);
    }
  }

  lemma SameObjects(s: Poll, s': Poll, rules: seq<Rule>, w: Work)
    requires s.objects == s'.objects && s.cutoff == s'.cutoff
    ensures Rewritten(s', rules, w.call) <==> Rewritten(s, rules, w.call)
    ensures AsListed(s', rules, w) <==> AsListed(s, rules, w)
  {
  }

  lemma CommitAhead(s: Poll, rules: seq<Rule>, grace: int)
    requires Inv(s, rules, grace) && s.queue != []
    ensures Ahead(Commit(s), rules)
  {
    var w, s' := s.queue[0], Commit(s);
    assert QueuedWork(s, rules, w);
    CommitDoes(s, rules);
    CallsRest(s.queue);
    hide QueuedWork, Owns, NewestIs, Stale, UpToDate, Calls;
    forall c, m | NewestIs(s'.objects, rules, c, m) && InWindow(m, s'.mark, s'.cutoff)
      ensures c in Calls(s'.queue) || c in s'.skipped
    {
      assert InWindow(m, s.mark, s.cutoff);
    }
  }

  lemma CommitCovered(s: Poll, rules: seq<Rule>, grace: int)
    requires Inv(s, rules, grace) && s.queue != []
    ensures Covered(Commit(s), rules)
  {
    var w, s' := s.queue[0], Commit(s);
    assert QueuedWork(s, rules, w) && w.newest <= s.cutoff;
    CommitDoes(s, rules);
    CallsRest(s.queue);
    hide QueuedWork, Owns, NewestIs, Stale, UpToDate, Calls;
    forall c | Passed(s', rules, c)
      ensures c in Calls(s'.queue) || c in s'.skipped || UpToDate(s', rules, c)
    {
      var m :| NewestIs(s'.objects, rules, c, m) && m <= s'.mark.value;
      if c != w.call {
        CommitKeeps(s, rules, c);
        if s.mark.Some? && m <= s.mark.value {
          assert Passed(s, rules, c);
        } else {
          assert InWindow(m, s.mark, s.cutoff);
        }
      }
    }
  }

  /** Records, objects and watermark alike: nothing about any call changes. */
  lemma SameCalls(s: Poll, s': Poll, rules: seq<Rule>, c: string)
    requires s.objects == s'.objects && s.done == s'.done && s.mark == s'.mark
    ensures Stale(s', rules, c) <==> Stale(s, rules, c)
    ensures UpToDate(s', rules, c) <==> UpToDate(s, rules, c)
    ensures Passed(s', rules, c) <==> Passed(s, rules, c)
  {
  }

  lemma FailInv(s: Poll, rules: seq<Rule>, grace: int)
    requires Inv(s, rules, grace) && s.queue != []
    ensures Inv(Fail(s), rules, grace)
  {
    var w, s' := s.queue[0], Fail(s);
    assert QueuedWork(s, rules, w);
    CallsRest(s.queue);
    forall i | 0 <= i < |s'.queue|
      ensures QueuedWork(s', rules, s'.queue[i])
    {
      assert QueuedWork(s, rules, s.queue[i + 1]);
      SameObjects(s, s', rules, s.queue[i + 1]);
      SameCalls(s, s', rules, s.queue[i + 1].call);
      hide NewestIs, Stale, Rewritten, AsListed;
    }
    hide QueuedWork, Owns, NewestIs, Current, Stale, UpToDate, Calls, Passed;
    forall c
      ensures Stale(s', rules, c) <==> Stale(s, rules, c)
      ensures UpToDate(s', rules, c) <==> UpToDate(s, rules, c)
      ensures Passed(s', rules, c) <==> Passed(s, rules, c)
    {
      SameCalls(s, s', rules, c);
    }
  }

  function Crashed(s: Poll): Poll {
    s.(queue := [], skipped := s.skipped + Calls(s.queue))
  }

  lemma CrashInv(s: Poll, rules: seq<Rule>, grace: int)
    requires Inv(s, rules, grace)
    ensures Inv(Crashed(s), rules, grace)
  {
    var s' := Crashed(s);
    forall c
      ensures Stale(s', rules, c) <==> Stale(s, rules, c)
      ensures UpToDate(s', rules, c) <==> UpToDate(s, rules, c)
      ensures Passed(s', rules, c) <==> Passed(s, rules, c)
      ensures c in Calls(s.queue) ==> Stale(s, rules, c)
    {
      SameCalls(s, s', rules, c);
      hide Owns, NewestIs, Current, UpToDate, Stale, Passed;
      if c in Calls(s.queue) {
        var k :| 0 <= k < |s.queue| && s.queue[k].call == c;
        assert QueuedWork(s, rules, s.queue[k]);
      }
    }
    assert Calls(s'.queue) == {};
    hide Owns, NewestIs, Current, Stale, UpToDate, Calls, Passed;
  }

  // ---------------------------------------------------------------- the start of a sweep

  /** What the listing says of a call is what the store says. */
  lemma ListingNewest(listing: seq<Listed>, objects: map<string, Obj>, rules: seq<Rule>, call: string, m: int)
    requires Enumerates(listing, objects)
    ensures IsNewest(listing, rules, call, m) <==> NewestIs(objects, rules, call, m)
  {
    hide Owns;
    if IsNewest(listing, rules, call, m) {
      var o :| o in listing && Owns(rules, call, o.uri) && o.modified == m;
      forall u | u in objects && Owns(rules, call, u)
        ensures objects[u].modified <= m
      {
        assert Listed(u, objects[u].modified) in listing;
      }
    }
    if NewestIs(objects, rules, call, m) {
      var u :| u in objects && Owns(rules, call, u) && objects[u].modified == m;
      assert Listed(u, objects[u].modified) in listing;
    }
  }

  lemma {:induction false} ItemUris(listing: seq<Listed>, rules: seq<Rule>, call: string, u: string)
    ensures u in Uris(ItemsOf(listing, rules, call)) <==> Owns(rules, call, u) && exists o :: o in listing && o.uri == u
  {
    hide Owns;
    if listing == [] {
      assert ItemsOf(listing, rules, call) == [];
    } else {
      var init, o := listing[..|listing| - 1], listing[|listing| - 1];
      ItemUris(init, rules, call, u);
      assert forall x :: x in listing <==> x in init || x == o;
      var items := ItemsOf(init, rules, call);
      if Owns(rules, call, o.uri) {
        OwnsMatch(rules, call, o.uri);
        UrisMore(items, (Match(rules, o.uri).value.0, o.uri));
      } else {
        assert ItemsOf(listing, rules, call) == items;
      }
    }
  }

  lemma OwnsMatch(rules: seq<Rule>, call: string, uri: string)
    requires Owns(rules, call, uri)
    ensures Match(rules, uri).Some? && call != ""
  {
  }

  lemma UrisMore(items: seq<(int, string)>, x: (int, string))
    ensures Uris(items + [x]) == Uris(items) + {x.1}
  {
    var more := items + [x];
    forall u | u in Uris(items) + {x.1}
      ensures u in Uris(more)
    {
      if u == x.1 {
        assert more[|items|].1 == u;
      } else {
        var k :| 0 <= k < |items| && items[k].1 == u;
        assert more[k].1 == u;
      }
    }
  }

  lemma ListedWork(s: Poll, rules: seq<Rule>, listing: seq<Listed>, cutoff: int, w: Work)
    requires Enumerates(listing, s.objects) && IsWork(listing, rules, w) && InWindow(w.newest, s.mark, cutoff)
    requires forall c :: c in s.done ==> s.mark.Some? && s.done[c].newest <= s.mark.value
    ensures QueuedWork(s.(cutoff := cutoff), rules, w)
  {
    hide Owns, ItemsOf;
    ListingNewest(listing, s.objects, rules, w.call, w.newest);
    forall u
      ensures u in Uris(w.items) <==> u in s.objects && Owns(rules, w.call, u)
    {
      ItemUris(listing, rules, w.call, u);
      hide Uris;
      if u in s.objects {
        assert Listed(u, s.objects[u].modified) in listing;
      }
    }
    hide Uris;
    assert AsListed(s.(cutoff := cutoff), rules, w);
  }

  function Begun(s: Poll, rules: seq<Rule>, cutoff: int, listing: seq<Listed>): Poll {
    s.(queue := Queue(listing, rules, s.mark, cutoff), cutoff := cutoff)
  }

  lemma BeginInv(s: Poll, rules: seq<Rule>, grace: int, cutoff: int, listing: seq<Listed>)
    requires Inv(s, rules, grace) && s.queue == [] && cutoff <= s.now - grace && Enumerates(listing, s.objects)
    ensures Inv(Begun(s, rules, cutoff, listing), rules, grace)
  {
    var s' := Begun(s, rules, cutoff, listing);
    BeginQueued(s, rules, cutoff, listing);
    assert Calls(s.queue) == {};
    hide Queue, Owns, IsWork, NewestIs, Queued, QueuedWork, Calls, UpToDate, Stale, Enumerates;
    forall c
      ensures Stale(s', rules, c) <==> Stale(s, rules, c)
      ensures UpToDate(s', rules, c) <==> UpToDate(s, rules, c)
      ensures Passed(s', rules, c) <==> Passed(s, rules, c)
    {
      SameCalls(s, s', rules, c);
    }
    forall c, m | NewestIs(s.objects, rules, c, m) && InWindow(m, s.mark, cutoff)
      ensures c in Calls(s'.queue)
    {
      SettledIsQueued(s, rules, cutoff, listing, c, m);
    }
    hide Passed;
  }

  lemma BeginQueued(s: Poll, rules: seq<Rule>, cutoff: int, listing: seq<Listed>)
    requires Enumerates(listing, s.objects)
    requires forall c :: c in s.done ==> s.mark.Some? && s.done[c].newest <= s.mark.value
    ensures Queued(Begun(s, rules, cutoff, listing), rules)
  {
    var s' := Begun(s, rules, cutoff, listing);
    var t := s.(cutoff := cutoff);
    QueueExactly(listing, rules, s.mark, cutoff);
    hide Queue, Owns, IsWork, NewestIs, Enumerates, AsListed, Rewritten, Stale;
    forall i | 0 <= i < |s'.queue|
      ensures QueuedWork(s', rules, s'.queue[i])
    {
      assert s'.queue[i] in s'.queue;
      ListedWork(s, rules, listing, cutoff, s'.queue[i]);
      SameObjects(t, s', rules, s'.queue[i]);
      SameCalls(t, s', rules, s'.queue[i].call);
    }
  }

  /** A settled call ahead of the watermark is in the next sweep, whatever happened to it before. */
  lemma SettledIsQueued(s: Poll, rules: seq<Rule>, cutoff: int, listing: seq<Listed>, c: string, m: int)
    requires Enumerates(listing, s.objects) && NewestIs(s.objects, rules, c, m) && InWindow(m, s.mark, cutoff)
    ensures c in Calls(Queue(listing, rules, s.mark, cutoff))
  {
    var q := Queue(listing, rules, s.mark, cutoff);
    QueueExactly(listing, rules, s.mark, cutoff);
    ListingNewest(listing, s.objects, rules, c, m);
    hide Queue, Owns, Enumerates;
    var w := Work(c, ItemsOf(listing, rules, c), m);
    assert IsWork(listing, rules, w);
    var k :| 0 <= k < |q| && q[k] == w;
  }

  // ---------------------------------------------------------------- runs

  lemma TickInv(s: Poll, rules: seq<Rule>, grace: int, n: nat)
    requires Inv(s, rules, grace)
    ensures Inv(s.(now := s.now + n), rules, grace)
  {
    var s' := s.(now := s.now + n);
    forall c
      ensures Stale(s', rules, c) <==> Stale(s, rules, c)
      ensures UpToDate(s', rules, c) <==> UpToDate(s, rules, c)
      ensures Passed(s', rules, c) <==> Passed(s, rules, c)
    {
      SameCalls(s, s', rules, c);
    }
    forall i | 0 <= i < |s.queue|
      ensures QueuedWork(s', rules, s.queue[i])
    {
      assert QueuedWork(s, rules, s.queue[i]);
      SameObjects(s, s', rules, s.queue[i]);
      hide Stale, Rewritten, AsListed;
    }
    hide Owns, NewestIs, Stale, UpToDate, Calls, Passed, QueuedWork;
  }

  lemma NextInv(s: Poll, rules: seq<Rule>, grace: int, step: Step)
    requires Inv(s, rules, grace) && grace > 0
    ensures Inv(Next(s, rules, step, grace), rules, grace)
  {
    hide Inv, Fail, Commit, Enumerates, Queue;
    if Can(s, step, grace) {
      match step
      case Tick(n) => TickInv(s, rules, grace, n);
      case Write(uri) => WriteInv(s, rules, grace, uri);
      case Begin(cutoff, listing) => BeginInv(s, rules, grace, cutoff, listing);
      case Process(status) =>
        FailInv(s, rules, grace);
        CommitInv(s, rules, grace);
      case Crash => CrashInv(s, rules, grace);
    }
  }

  ghost function Run(s: Poll, steps: seq<Step>, rules: seq<Rule>, grace: int): Poll
    decreases |steps|
  {
    if steps == [] then s
    else Next(Run(s, steps[..|steps| - 1], rules, grace), rules, steps[|steps| - 1], grace)
  }

  lemma StartInv(rules: seq<Rule>, grace: int)
    ensures Inv(START, rules, grace)
  {
    assert Calls([]) == {};
  }

  lemma {:induction false} RunInv(steps: seq<Step>, rules: seq<Rule>, grace: int)
    requires grace > 0
    ensures Inv(Run(START, steps, rules, grace), rules, grace)
    decreases |steps|
  {
    hide Inv, Next;
    if steps == [] {
      StartInv(rules, grace);
    } else {
      RunInv(steps[..|steps| - 1], rules, grace);
      NextInv(Run(START, steps[..|steps| - 1], rules, grace), rules, grace, steps[|steps| - 1]);
    }
  }

  /** After every run, with failures and crashes anywhere: the watermark keeps its claim if and only if it
      has not passed a call whose last attempt failed or was cut off. */
  lemma WatermarkExact(steps: seq<Step>, rules: seq<Rule>, grace: int)
    requires grace > 0
    ensures var s := Run(START, steps, rules, grace);
      Claim(s, rules) <==> forall c :: c in s.skipped && c !in Calls(s.queue) ==> !Passed(s, rules, c)
  {
    hide *;
    RunInv(steps, rules, grace);
    ClaimIff(Run(START, steps, rules, grace), rules, grace);
  }

  predicate Clean(step: Step) {
    step != Crash && step != Process(Raised)
  }

  lemma {:induction false} NothingSkipped(steps: seq<Step>, rules: seq<Rule>, grace: int)
    requires forall k :: 0 <= k < |steps| ==> Clean(steps[k])
    ensures Run(START, steps, rules, grace).skipped == {}
    decreases |steps|
  {
    hide Enumerates, Queue;
    if steps != [] {
      var init, step := steps[..|steps| - 1], steps[|steps| - 1];
      assert Clean(step) && forall k :: 0 <= k < |init| ==> Clean(init[k]);
      NothingSkipped(init, rules, grace);
    }
  }

  /** No settled call is lost: without failures or crashes every call the watermark has passed was last
      processed with its current objects, during a sweep but for the calls still queued, and after it for all. */
  lemma NoSettledCallLost(steps: seq<Step>, rules: seq<Rule>, grace: int)
    requires grace > 0 && forall k :: 0 <= k < |steps| ==> Clean(steps[k])
    ensures Claim(Run(START, steps, rules, grace), rules)
  {
    hide Claim, Calls, Passed, Clean, Run;
    WatermarkExact(steps, rules, grace);
    NothingSkipped(steps, rules, grace);
  }

  // ---------------------------------------------------------------- crashes

  /** A queued call is passed only when it ties with the watermark. */
  lemma QueuedPassedIff(s: Poll, rules: seq<Rule>, k: nat)
    requires Queued(s, rules) && k < |s.queue|
    ensures Passed(s, rules, s.queue[k].call) <==>
      s.mark == Some(s.queue[k].newest) && !Rewritten(s, rules, s.queue[k].call)
  {
    var w := s.queue[k];
    assert QueuedWork(s, rules, w);
    hide Owns, Stale;
    if Passed(s, rules, w.call) {
      var m :| NewestIs(s.objects, rules, w.call, m) && m <= s.mark.value;
      assert !Rewritten(s, rules, w.call);
      NewestOnce(s.objects, rules, w.call, m, w.newest);
    }
    if s.mark == Some(w.newest) && !Rewritten(s, rules, w.call) {
      assert NewestIs(s.objects, rules, w.call, w.newest);
    }
  }

  /** A crash between two commits is safe exactly when no call still queued ties with the last commit (unless
      it was written to since); so always when newest-object times are distinct. */
  lemma CrashSafeIff(s: Poll, rules: seq<Rule>, grace: int)
    requires Inv(s, rules, grace) && Claim(s, rules)
    ensures Claim(Crashed(s), rules) <==>
      forall k :: 0 <= k < |s.queue| && s.mark == Some(s.queue[k].newest) ==> Rewritten(s, rules, s.queue[k].call)
  {
    var s' := Crashed(s);
    CrashInv(s, rules, grace);
    ClaimIff(s, rules, grace);
    ClaimIff(s', rules, grace);
    assert Calls(s'.queue) == {};
    forall c
      ensures Passed(s', rules, c) <==> Passed(s, rules, c)
    {
      SameCalls(s, s', rules, c);
      hide NewestIs, Stale, UpToDate;
    }
    forall k | 0 <= k < |s.queue|
      ensures s.queue[k].call in Calls(s.queue)
      ensures Passed(s, rules, s.queue[k].call) <==>
        s.mark == Some(s.queue[k].newest) && !Rewritten(s, rules, s.queue[k].call)
    {
      QueuedPassedIff(s, rules, k);
    }
    hide Passed, Rewritten, Claim, Inv;
  }

  // ---------------------------------------------------------------- failures

  function Processed1(s: Poll, status: string -> Status): Poll
    requires s.queue != []
  {
    if status(s.queue[0].call) == Raised then Fail(s) else Commit(s)
  }

  /** The first `n` calls of the queue, one after the other. */
  function Sweep(s: Poll, n: nat, status: string -> Status): (s': Poll)
    requires n <= |s.queue|
    ensures |s'.queue| == |s.queue| - n
  {
    if n == 0 then s else Processed1(Sweep(s, n - 1, status), status)
  }

  predicate RaisedBefore(s: Poll, n: nat, status: string -> Status, c: string)
    requires n <= |s.queue|
  {
    exists k :: 0 <= k < n && s.queue[k].call == c && status(c) == Raised
  }

  /** What a stretch of a sweep does; its watermark is the one `PollAgent` leaves in the row. A call is skipped
      after it that failed in it, or that was skipped before and did not come up. */
  lemma {:induction false} SweepIs(s: Poll, n: nat, status: string -> Status)
    requires n <= |s.queue| && CallsDistinct(s.queue)
    ensures var s' := Sweep(s, n, status);
      && s'.queue == s.queue[n..] && s'.objects == s.objects && s'.cutoff == s.cutoff && s'.now == s.now
      && s'.mark == MarkAfter(s.mark, s.queue[..n], status)
      && (forall c :: c in s'.skipped <==> SkippedBefore(s, n, status, c))
  {
    if n == 0 {
      assert s.queue[n..] == s.queue;
    } else {
      SweepIs(s, n - 1, status);
      var prev, s' := Sweep(s, n - 1, status), Sweep(s, n, status);
      assert prev.queue[0] == s.queue[n - 1] && prev.queue[1..] == s.queue[n..];
      assert s.queue[..n][..n - 1] == s.queue[..n - 1];
      hide Fetched, Advance, Sweep, SkippedBefore;
      var w := s.queue[n - 1];
      assert s'.skipped == if status(w.call) == Raised then prev.skipped + {w.call} else prev.skipped - {w.call};
      forall c
        ensures c in s'.skipped <==> SkippedBefore(s, n, status, c)
      {
        SkippedMore(s, n, status, c);
      }
    }
  }

  predicate SkippedBefore(s: Poll, n: nat, status: string -> Status, c: string)
    requires n <= |s.queue|
  {
    RaisedBefore(s, n, status, c) || (c in s.skipped && forall k :: 0 <= k < n ==> s.queue[k].call != c)
  }

  lemma SkippedMore(s: Poll, n: nat, status: string -> Status, c: string)
    requires 0 < n <= |s.queue| && CallsDistinct(s.queue)
    ensures var w := s.queue[n - 1];
      SkippedBefore(s, n, status, c) <==>
        if c == w.call then status(c) == Raised else SkippedBefore(s, n - 1, status, c)
  {
    RaisedMore(s, n, status, c);
    hide RaisedBefore;
  }

  lemma RaisedMore(s: Poll, n: nat, status: string -> Status, c: string)
    requires 0 < n <= |s.queue| && CallsDistinct(s.queue)
    ensures var w := s.queue[n - 1];
      RaisedBefore(s, n, status, c) <==>
        if c == w.call then status(c) == Raised else RaisedBefore(s, n - 1, status, c)
  {
  }

  lemma {:induction false} SweepInv(s: Poll, n: nat, status: string -> Status, rules: seq<Rule>, grace: int)
    requires Inv(s, rules, grace) && n <= |s.queue|
    ensures Inv(Sweep(s, n, status), rules, grace)
  {
    hide Inv, Fail, Commit;
    if n > 0 {
      SweepInv(s, n - 1, status, rules, grace);
      FailInv(Sweep(s, n - 1, status), rules, grace);
      CommitInv(Sweep(s, n - 1, status), rules, grace);
    }
  }

  lemma {:induction false} MarkWithin(mark: Option<int>, queue: seq<Work>, status: string -> Status, cutoff: int)
    requires forall k :: 0 <= k < |queue| ==> queue[k].newest <= cutoff
    requires mark.Some? ==> mark.value <= cutoff
    ensures MarkAfter(mark, queue, status).Some? ==> MarkAfter(mark, queue, status).value <= cutoff
  {
    if queue != [] {
      MarkWithin(mark, queue[..|queue| - 1], status, cutoff);
    }
  }

  /** The rest of a sweep, from any point of any run: the watermark keeps its claim exactly when every call that
      fails is newer than the watermark the sweep ends with or was written to since the listing, and every call
      skipped before that does not come up again lies ahead of that watermark. */
  lemma SweepClaimIff(s: Poll, status: string -> Status, rules: seq<Rule>, grace: int)
    requires Inv(s, rules, grace)
    ensures var mark := MarkAfter(s.mark, s.queue, status);
      Claim(Sweep(s, |s.queue|, status), rules) <==>
        && (forall k :: 0 <= k < |s.queue| && status(s.queue[k].call) == Raised ==>
              Rewritten(s, rules, s.queue[k].call) || mark.None? || s.queue[k].newest > mark.value)
        && (forall c :: c in s.skipped && c !in Calls(s.queue) ==> !Passed(s.(mark := mark), rules, c))
  {
    var n := |s.queue|;
    var s' := Sweep(s, n, status);
    assert s.queue[..n] == s.queue && s.queue[n..] == [];
    SweepIs(s, n, status);
    SweepInv(s, n, status, rules, grace);
    ClaimIff(s', rules, grace);
    assert Calls(s'.queue) == {};
    forall k | 0 <= k < n
      ensures Passed(s', rules, s.queue[k].call) <==>
        (!Rewritten(s, rules, s.queue[k].call) && s'.mark.Some? && s.queue[k].newest <= s'.mark.value)
    {
      RaisedPassedIff(s, s', rules, k, status);
    }
    forall c
      ensures Passed(s', rules, c) <==> Passed(s.(mark := s'.mark), rules, c)
    {
      hide NewestIs;
    }
    hide Passed, Rewritten, Claim, Inv, Sweep, MarkAfter;
    SkippedAfter(s, status);
  }

  lemma SkippedAfter(s: Poll, status: string -> Status)
    ensures forall c :: SkippedBefore(s, |s.queue|, status, c) <==>
      ((c in s.skipped && c !in Calls(s.queue)) ||
       exists k :: 0 <= k < |s.queue| && s.queue[k].call == c && status(s.queue[k].call) == Raised)
  {
  }

  /** A call skipped before a sweep that its queue leaves out lies after the cutoff. */
  lemma LeftOutIsAhead(s: Poll, rules: seq<Rule>, grace: int, cutoff: int, listing: seq<Listed>, c: string, m: int)
    requires Inv(s, rules, grace) && Claim(s, rules) && s.queue == [] && Enumerates(listing, s.objects)
    requires c in s.skipped && c !in Calls(Queue(listing, rules, s.mark, cutoff)) && NewestIs(s.objects, rules, c, m)
    ensures m > cutoff && (s.mark.Some? ==> m > s.mark.value)
  {
    hide Owns, NewestIs, Queue, Enumerates, Timely, Queued, Ahead, Covered, Stale;
    ClaimIff(s, rules, grace);
    assert Calls(s.queue) == {};
    assert !Passed(s, rules, c);
    if m <= cutoff {
      SettledIsQueued(s, rules, cutoff, listing, c, m);
    }
  }

  /** The calls of a fresh queue have not been written to since its listing. */
  lemma FreshNotRewritten(s: Poll, rules: seq<Rule>, cutoff: int, listing: seq<Listed>, k: nat)
    requires Enumerates(listing, s.objects) && k < |Queue(listing, rules, s.mark, cutoff)|
    ensures var b := Begun(s, rules, cutoff, listing);
      b.queue[k].newest <= cutoff && !Rewritten(b, rules, b.queue[k].call)
  {
    var w := Queue(listing, rules, s.mark, cutoff)[k];
    QueueExactly(listing, rules, s.mark, cutoff);
    assert w in Queue(listing, rules, s.mark, cutoff);
    hide Queue, Owns, IsNewest, Enumerates;
    ListingNewest(listing, s.objects, rules, w.call, w.newest);
  }

  /** A whole sweep with failures, after any run that has kept the claim, whatever failed or was cut off in it: the
      claim is kept exactly when every call that fails in the sweep is newer than the watermark it ends with. So a
      failed call is lost whenever a later call of the same sweep succeeds. */
  lemma SweepSafeIff(s: Poll, status: string -> Status, rules: seq<Rule>, grace: int, cutoff: int, listing: seq<Listed>)
    requires Inv(s, rules, grace) && Claim(s, rules)
    requires s.queue == [] && cutoff <= s.now - grace && Enumerates(listing, s.objects)
    ensures var b := Begun(s, rules, cutoff, listing); var mark := MarkAfter(s.mark, b.queue, status);
      Claim(Sweep(b, |b.queue|, status), rules) <==>
        forall k :: 0 <= k < |b.queue| && status(b.queue[k].call) == Raised ==>
          mark.None? || b.queue[k].newest > mark.value
  {
    var b := Begun(s, rules, cutoff, listing);
    var mark := MarkAfter(s.mark, b.queue, status);
    hide Inv, Claim, Owns, NewestIs, Queue, Enumerates, MarkAfter, Sweep, Rewritten, Calls, Begun;
    BeginInv(s, rules, grace, cutoff, listing);
    SweepClaimIff(b, status, rules, grace);
    BegunIs(s, rules, cutoff, listing);
    forall k | 0 <= k < |b.queue|
      ensures b.queue[k].newest <= cutoff && !Rewritten(b, rules, b.queue[k].call)
    {
      FreshNotRewritten(s, rules, cutoff, listing, k);
    }
    MarkReaches(s.mark, b.queue, status, cutoff);
    forall c | c in b.skipped && c !in Calls(b.queue)
      ensures !Passed(b.(mark := mark), rules, c)
    {
      forall m | NewestIs(s.objects, rules, c, m)
        ensures m > cutoff && (s.mark.Some? ==> m > s.mark.value)
      {
        LeftOutIsAhead(s, rules, grace, cutoff, listing, c, m);
      }
    }
  }

  lemma BegunIs(s: Poll, rules: seq<Rule>, cutoff: int, listing: seq<Listed>)
    ensures var b := Begun(s, rules, cutoff, listing);
      && b.queue == Queue(listing, rules, s.mark, cutoff) && b.mark == s.mark && b.objects == s.objects
      && b.skipped == s.skipped && b.cutoff == cutoff
  {
  }

  lemma {:induction false} MarkReaches(mark: Option<int>, queue: seq<Work>, status: string -> Status, cutoff: int)
    requires forall k :: 0 <= k < |queue| ==> queue[k].newest <= cutoff
    ensures var after := MarkAfter(mark, queue, status);
      after.Some? ==> after.value <= cutoff || (mark.Some? && after.value <= mark.value)
  {
    if queue != [] {
      MarkReaches(mark, queue[..|queue| - 1], status, cutoff);
    }
  }

  lemma RaisedPassedIff(s: Poll, s': Poll, rules: seq<Rule>, k: nat, status: string -> Status)
    requires Queued(s, rules) && k < |s.queue| && s'.objects == s.objects
    requires s'.mark == MarkAfter(s.mark, s.queue, status)
    ensures Passed(s', rules, s.queue[k].call) <==>
      (!Rewritten(s, rules, s.queue[k].call) && s'.mark.Some? && s.queue[k].newest <= s'.mark.value)
  {
    var w := s.queue[k];
    forall i | 0 <= i < |s.queue|
      ensures s.queue[i].newest <= s.cutoff
    {
      assert QueuedWork(s, rules, s.queue[i]);
    }
    assert QueuedWork(s, rules, w);
    MarkWithin(s.mark, s.queue, status, s.cutoff);
    hide Owns, Stale, MarkAfter;
    if Passed(s', rules, w.call) {
      var m :| NewestIs(s.objects, rules, w.call, m) && m <= s'.mark.value;
      assert !Rewritten(s, rules, w.call);
      NewestOnce(s.objects, rules, w.call, m, w.newest);
    }
  }

  /** A skipped call that the watermark has passed is out of the poller's sight: until some object of it is
      written again no run processes it. */
  lemma {:induction false} LostUntilRewritten(s: Poll, steps: seq<Step>, rules: seq<Rule>, grace: int, call: string)
    requires Passed(s, rules, call) && call !in Calls(s.queue)
    requires forall k :: 0 <= k < |steps| && steps[k].Write? ==> !Owns(rules, call, steps[k].uri)
    ensures var s' := Run(s, steps, rules, grace);
      && Passed(s', rules, call) && call !in Calls(s'.queue)
      && (call in s'.done <==> call in s.done) && (call in s.done ==> s'.done[call] == s.done[call])
    decreases |steps|
  {
    hide Passed, Calls, Next, Owns;
    if steps != [] {
      var init, step := steps[..|steps| - 1], steps[|steps| - 1];
      assert forall k :: 0 <= k < |init| ==> init[k] == steps[k];
      LostUntilRewritten(s, init, rules, grace, call);
      StaysLost(Run(s, init, rules, grace), step, rules, grace, call);
    }
  }

  lemma StaysLost(s: Poll, step: Step, rules: seq<Rule>, grace: int, call: string)
    requires Passed(s, rules, call) && call !in Calls(s.queue)
    requires step.Write? ==> !Owns(rules, call, step.uri)
    ensures var s' := Next(s, rules, step, grace);
      && Passed(s', rules, call) && call !in Calls(s'.queue)
      && (call in s'.done <==> call in s.done) && (call in s.done ==> s'.done[call] == s.done[call])
  {
    hide Owns, Enumerates, Queue, Fetched;
    if Can(s, step, grace) {
      match step
      case Tick(n) => SameCalls(s, s.(now := s.now + n), rules, call);
      case Write(uri) => WriteElsewhere(s, rules, uri, call);
      case Begin(cutoff, listing) =>
        SameCalls(s, Begun(s, rules, cutoff, listing), rules, call);
        PassedNotQueued(s, rules, cutoff, listing, call);
      case Process(status) =>
        assert s.queue[0].call != call;
        assert forall c :: c in Calls(s.queue[1..]) ==> c in Calls(s.queue) by { RestCalls(s.queue); }
        PassedMore(s, Commit(s), rules, call);
        PassedMore(s, Fail(s), rules, call);
      case Crash => SameCalls(s, Crashed(s), rules, call);
    }
  }

  lemma RestCalls(queue: seq<Work>)
    requires queue != []
    ensures forall c :: c in Calls(queue[1..]) ==> c in Calls(queue)
  {
    forall c | c in Calls(queue[1..])
      ensures c in Calls(queue)
    {
      var k :| 0 <= k < |queue[1..]| && queue[1..][k].call == c;
      assert queue[k + 1].call == c;
    }
  }

  lemma PassedMore(s: Poll, s': Poll, rules: seq<Rule>, call: string)
    requires Passed(s, rules, call) && s'.objects == s.objects
    requires s.mark.Some? ==> s'.mark.Some? && s.mark.value <= s'.mark.value
    ensures Passed(s', rules, call)
  {
    hide NewestIs;
  }

  lemma PassedNotQueued(s: Poll, rules: seq<Rule>, cutoff: int, listing: seq<Listed>, call: string)
    requires Passed(s, rules, call) && Enumerates(listing, s.objects)
    ensures call !in Calls(Queue(listing, rules, s.mark, cutoff))
  {
    var q := Queue(listing, rules, s.mark, cutoff);
    QueueExactly(listing, rules, s.mark, cutoff);
    hide Queue, NewestIs, IsNewest, Enumerates;
    var m :| NewestIs(s.objects, rules, call, m) && s.mark.Some? && m <= s.mark.value;
    forall k | 0 <= k < |q|
      ensures q[k].call != call
    {
      assert q[k] in q && IsWork(listing, rules, q[k]);
      if q[k].call == call {
        ListingNewest(listing, s.objects, rules, call, q[k].newest);
        NewestOnce(s.objects, rules, call, m, q[k].newest);
      }
    }
  }

  // ---------------------------------------------------------------- the settle grace

  /** The grace must be positive: with none, a write in the same tick as the sweep's listing is lost although
      nothing failed and nothing crashed. */
  lemma GraceNeeded(rules: seq<Rule>, call: string, uri: string) returns (steps: seq<Step>)
    requires Owns(rules, call, uri)
    ensures forall k :: 0 <= k < |steps| ==> Clean(steps[k])
    ensures !Claim(Run(START, steps, rules, 0), rules)
  {
    var listing := [Listed(uri, 0)];
    steps := [Write(uri), Begin(0, listing), Process(Judgeable), Write(uri)];
    var s1 := Written(START, uri);
    assert Enumerates(listing, s1.objects);
    var s2 := Begun(s1, rules, 0, listing);
    OneQueued(s1, rules, listing, call, uri);
    var s3 := Commit(s2);
    var s4 := Written(s3, uri);
    RunFour(steps, rules, s1, s2, s3, s4);
    assert NewestIs(s4.objects, rules, call, 0);
    assert (uri, 1) in Current(s4.objects, rules, call) && (uri, 1) !in s4.done[call].parts;
    assert Passed(s4, rules, call) && call !in Calls(s4.queue);
  }

  lemma OneQueued(s: Poll, rules: seq<Rule>, listing: seq<Listed>, call: string, uri: string)
    requires Owns(rules, call, uri) && listing == [Listed(uri, 0)] && s == Written(START, uri)
    ensures var q := Queue(listing, rules, None, 0); |q| == 1 && q[0].call == call && q[0].newest == 0
  {
    var q := Queue(listing, rules, None, 0);
    QueueExactly(listing, rules, None, 0);
    hide Queue;
    var w := Work(call, ItemsOf(listing, rules, call), 0);
    assert listing[0] in listing;
    assert IsWork(listing, rules, w);
    forall k | 0 <= k < |q|
      ensures q[k].call == call && q[k].newest == 0
    {
      assert q[k] in q && IsWork(listing, rules, q[k]);
    }
    OneCall(q, call);
  }

  lemma OneCall(q: seq<Work>, call: string)
    requires forall k :: 0 <= k < |q| ==> q[k].call == call
    ensures CallsDistinct(q) ==> |q| <= 1
  {
    if |q| > 1 {
      assert q[0].call == q[1].call;
    }
  }

  lemma RunFour(steps: seq<Step>, rules: seq<Rule>, s1: Poll, s2: Poll, s3: Poll, s4: Poll)
    requires |steps| == 4
    requires s1 == Next(START, rules, steps[0], 0) && s2 == Next(s1, rules, steps[1], 0)
    requires s3 == Next(s2, rules, steps[2], 0) && s4 == Next(s3, rules, steps[3], 0)
    ensures Run(START, steps, rules, 0) == s4
  {
    hide Next;
    assert steps[..4] == steps && steps[..3][..2] == steps[..2] && steps[..2][..1] == steps[..1] && steps[..1][..0] == [];
    assert Run(START, steps[..1], rules, 0) == s1;
    assert Run(START, steps[..2], rules, 0) == s2;
    assert Run(START, steps[..3], rules, 0) == s3;
  }

  // ---------------------------------------------------------------- runs that lose a call

  lemma RunMore(steps: seq<Step>, step: Step, rules: seq<Rule>, grace: int)
    ensures Run(START, steps + [step], rules, grace) == Next(Run(START, steps, rules, grace), rules, step, grace)
  {
    assert (steps + [step])[..|steps|] == steps;
  }

  function TwoListed(u1: string, u2: string, d: nat): seq<Listed> {
    [Listed(u1, 0), Listed(u2, d)]
  }

  /** An object of one call, `d` later an object of another, and after the grace a sweep of both. */
  function TwoWrites(u1: string, u2: string, d: nat, grace: nat): seq<Step> {
    [Write(u1)] + [Tick(d)] + [Write(u2)] + [Tick(grace)] + [Begin(d, TwoListed(u1, u2, d))]
  }

  function TwoObjects(u1: string, u2: string, d: nat): map<string, Obj> {
    map[u1 := Obj(0, 0), u2 := Obj(d, 1)]
  }

  lemma TwoEnumerated(u1: string, u2: string, d: nat)
    requires u1 != u2
    ensures Enumerates(TwoListed(u1, u2, d), TwoObjects(u1, u2, d))
  {
    var listing := TwoListed(u1, u2, d);
    assert listing[0] in listing && listing[1] in listing;
  }

  /** A sweep in progress over both calls. */
  function Sweeping(rules: seq<Rule>, u1: string, u2: string, d: nat, grace: nat): Poll {
    Poll(d + grace, TwoObjects(u1, u2, d), 2, None, Queue(TwoListed(u1, u2, d), rules, None, d), d, map[], {})
  }

  lemma TwoWritten(rules: seq<Rule>, u1: string, u2: string, d: nat, grace: nat)
    requires u1 != u2
    ensures Run(START, TwoWrites(u1, u2, d, grace), rules, grace) == Sweeping(rules, u1, u2, d, grace)
  {
    TwoEnumerated(u1, u2, d);
    hide Run, Queue, Enumerates;
    RunNone(rules, grace);
    assert [] + [Write(u1)] == [Write(u1)];
    RunMore([], Write(u1), rules, grace);
    RunMore([Write(u1)], Tick(d), rules, grace);
    RunMore([Write(u1)] + [Tick(d)], Write(u2), rules, grace);
    RunMore([Write(u1)] + [Tick(d)] + [Write(u2)], Tick(grace), rules, grace);
    RunMore([Write(u1)] + [Tick(d)] + [Write(u2)] + [Tick(grace)], Begin(d, TwoListed(u1, u2, d)), rules, grace);
    assert map[u1 := Obj(0, 0)][u2 := Obj(d, 1)] == TwoObjects(u1, u2, d);
  }

  lemma RunNone(rules: seq<Rule>, grace: int)
    ensures Run(START, [], rules, grace) == START
  {
  }

  lemma OneNewest(rules: seq<Rule>, c: string, c': string, u: string, u': string, m: int, listing: seq<Listed>, n: int)
    requires Owns(rules, c, u) && Owns(rules, c', u') && c != c'
    requires Listed(u, m) in listing && forall o :: o in listing ==> o == Listed(u, m) || o.uri == u'
    ensures IsNewest(listing, rules, c, n) <==> n == m
    ensures AnyOwned(listing, rules, c)
  {
    hide Match;
    assert Owns(rules, c, Listed(u, m).uri);
    assert !Owns(rules, c, u');
  }

  lemma OnlyTwoCalls(rules: seq<Rule>, c1: string, c2: string, u1: string, u2: string, d: nat, w: Work)
    requires Owns(rules, c1, u1) && Owns(rules, c2, u2) && IsWork(TwoListed(u1, u2, d), rules, w)
    ensures w.call == c1 || w.call == c2
  {
    hide Match, IsNewest, ItemsOf;
    var o :| o in TwoListed(u1, u2, d) && Owns(rules, w.call, o.uri);
  }

  /** The queue holds both calls, each with the time of its object, in order of time. */
  lemma BothQueued(rules: seq<Rule>, c1: string, c2: string, u1: string, u2: string, d: nat)
    requires c1 != c2 && Owns(rules, c1, u1) && Owns(rules, c2, u2)
    ensures var q := Queue(TwoListed(u1, u2, d), rules, None, d);
      && |q| == 2 && CallsDistinct(q) && q[0].newest == 0 && q[1].newest == d
      && ((q[0].call == c1 && q[1].call == c2) || (d == 0 && q[0].call == c2 && q[1].call == c1))
  {
    var listing := TwoListed(u1, u2, d);
    var q := Queue(listing, rules, None, d);
    QueueExactly(listing, rules, None, d);
    assert listing[0] in listing && listing[1] in listing;
    hide Queue, Owns, IsNewest, AnyOwned;
    forall n
      ensures IsNewest(listing, rules, c1, n) <==> n == 0
      ensures IsNewest(listing, rules, c2, n) <==> n == d
      ensures AnyOwned(listing, rules, c1) && AnyOwned(listing, rules, c2)
    {
      OneNewest(rules, c1, c2, u1, u2, 0, listing, n);
      OneNewest(rules, c2, c1, u2, u1, d, listing, n);
    }
    var w1, w2 := Work(c1, ItemsOf(listing, rules, c1), 0), Work(c2, ItemsOf(listing, rules, c2), d);
    forall w | w in q
      ensures w == w1 || w == w2
    {
      OnlyTwoCalls(rules, c1, c2, u1, u2, d, w);
    }
    assert w1 in q && w2 in q;
    hide IsWork, ItemsOf;
    TwoOf(q, w1, w2);
  }

  lemma TwoOf(q: seq<Work>, w1: Work, w2: Work)
    requires CallsDistinct(q) && w1 in q && w2 in q && w1.call != w2.call
    requires forall w :: w in q ==> w == w1 || w == w2
    ensures q == [w1, w2] || q == [w2, w1]
  {
    var i :| 0 <= i < |q| && q[i] == w1;
    var j :| 0 <= j < |q| && q[j] == w2;
    if |q| > 2 {
      IsEither(q, i, j, 0);
      IsEither(q, i, j, 1);
      IsEither(q, i, j, 2);
    }
    assert |q| == 2 && i != j;
  }

  lemma IsEither(q: seq<Work>, i: nat, j: nat, k: nat)
    requires CallsDistinct(q) && i < |q| && j < |q| && k < |q|
    requires forall w :: w in q ==> w == q[i] || w == q[j]
    ensures k == i || k == j
  {
    assert q[k] in q;
    assert k < i || i < k || k == i;
    assert k < j || j < k || k == j;
  }

  /** A call that the watermark has passed although it was never processed. */
  lemma NeverProcessed(s: Poll, rules: seq<Rule>, call: string, u: string, u': string, m: int)
    requires s.objects.Keys == {u, u'} && s.objects[u].modified == m && Owns(rules, call, u) && !Owns(rules, call, u')
    requires s.queue == [] && call !in s.done && s.mark.Some? && m <= s.mark.value
    ensures !Claim(s, rules)
  {
    hide Owns;
    assert NewestIs(s.objects, rules, call, m);
    assert Passed(s, rules, call);
  }

  /** A failure that is passed loses a call: the first call of a sweep fails, the second succeeds. */
  lemma FailureLosesCall(rules: seq<Rule>, c1: string, c2: string, u1: string, u2: string, grace: nat)
      returns (steps: seq<Step>)
    requires c1 != c2 && Owns(rules, c1, u1) && Owns(rules, c2, u2) && grace > 0
    ensures steps == TwoWrites(u1, u2, 1, grace) + [Process(Raised)] + [Process(Judgeable)]
    ensures !Claim(Run(START, steps, rules, grace), rules)
  {
    steps := TwoWrites(u1, u2, 1, grace) + [Process(Raised)] + [Process(Judgeable)];
    var s := Sweeping(rules, u1, u2, 1, grace);
    BothQueued(rules, c1, c2, u1, u2, 1);
    assert u1 != u2 && !Owns(rules, c1, u2);
    TwoWritten(rules, u1, u2, 1, grace);
    hide Run, Queue, Owns, Claim, TwoWrites, Fetched;
    RunMore(TwoWrites(u1, u2, 1, grace), Process(Raised), rules, grace);
    RunMore(TwoWrites(u1, u2, 1, grace) + [Process(Raised)], Process(Judgeable), rules, grace);
    var s' := Commit(Fail(s));
    assert Run(START, steps, rules, grace) == s';
    NeverProcessed(s', rules, c1, u1, u2, 0);
  }

  /** A crash that cuts a tie in two loses a call: of two calls with objects of the same time, one is
      committed before the crash. */
  lemma CrashLosesCall(rules: seq<Rule>, c1: string, c2: string, u1: string, u2: string, grace: nat)
      returns (steps: seq<Step>)
    requires c1 != c2 && Owns(rules, c1, u1) && Owns(rules, c2, u2) && grace > 0
    ensures steps == TwoWrites(u1, u2, 0, grace) + [Process(Judgeable)] + [Crash]
    ensures !Claim(Run(START, steps, rules, grace), rules)
  {
    steps := TwoWrites(u1, u2, 0, grace) + [Process(Judgeable)] + [Crash];
    var s := Sweeping(rules, u1, u2, 0, grace);
    BothQueued(rules, c1, c2, u1, u2, 0);
    assert u1 != u2 && !Owns(rules, c1, u2) && !Owns(rules, c2, u1);
    TwoWritten(rules, u1, u2, 0, grace);
    hide Run, Queue, Owns, Claim, TwoWrites, Fetched, Calls;
    RunMore(TwoWrites(u1, u2, 0, grace), Process(Judgeable), rules, grace);
    RunMore(TwoWrites(u1, u2, 0, grace) + [Process(Judgeable)], Crash, rules, grace);
    var s' := Crashed(Commit(s));
    assert Run(START, steps, rules, grace) == s';
    if s.queue[0].call == c1 {
      NeverProcessed(s', rules, c2, u2, u1, 0);
    } else {
      NeverProcessed(s', rules, c1, u1, u2, 0);
    }
  }

  /** Such runs exist at every grace: here each object is a call of its own. */
  lemma CallsGetLost(grace: nat) returns (rules: seq<Rule>, failing: seq<Step>, crashing: seq<Step>)
    requires grace > 0
    ensures !Claim(Run(START, failing, rules, grace), rules) && !Claim(Run(START, crashing, rules, grace), rules)
  {
    rules := [Rule(0, (uri: string) => Some(uri))];
    assert "a"[0] != "b"[0];
    assert Owns(rules, "a", "a") && Owns(rules, "b", "b");
    hide *;
    failing := FailureLosesCall(rules, "a", "b", "a", "b", grace);
    crashing := CrashLosesCall(rules, "a", "b", "a", "b", grace);
  }
}
