/** The verified-token cache: a map and a recency list that must agree, with a TTL and a capacity.

    The class is proved against operations on a plain list of slots, most recent first; what the
    cache promises is proved of every history of those operations. Times are clock ticks. */
module TokenCache {
  import opened Options
  import opened Seqs

  /** Who a verified token belongs to. */
  datatype Identity = Identity(org: string, agent: string)

  datatype Slot = Slot(key: string, id: Identity, expires: int)

  // ---------------------------------------------------------------- the list of slots

  function Keys(st: seq<Slot>): (ks: set<string>)
    ensures forall i :: 0 <= i < |st| ==> st[i].key in ks
  {
    set s | s in st :: s.key
  }

  ghost predicate DistinctKeys(st: seq<Slot>) {
    forall i, j :: 0 <= i < j < |st| ==> st[i].key != st[j].key
  }

  function Without(st: seq<Slot>, key: string): seq<Slot> {
    if st == [] then []
    else if st[0].key == key then Without(st[1..], key)
    else [st[0]] + Without(st[1..], key)
  }

  function Lookup(st: seq<Slot>, key: string): Option<Slot> {
    if st == [] then None
    else if st[0].key == key then Some(st[0])
    else Lookup(st[1..], key)
  }

  function Fresh(st: seq<Slot>, key: string, now: int): bool {
    Lookup(st, key).Some? && now <= Lookup(st, key).value.expires
  }

  /** An expired slot is dropped, a fresh one moves to the front. */
  function AfterGet(st: seq<Slot>, key: string, now: int): seq<Slot> {
    if Lookup(st, key).None? then st
    else if Fresh(st, key, now) then [Lookup(st, key).value] + Without(st, key)
    else Without(st, key)
  }

  function Answer(st: seq<Slot>, key: string, now: int): Option<Identity> {
    if Fresh(st, key, now) then Some(Lookup(st, key).value.id) else None
  }

  /** A known key is refreshed in place; a new one may push out the last. */
  function AfterPut(st: seq<Slot>, key: string, id: Identity, expires: int, cap: int): seq<Slot> {
    var front := [Slot(key, id, expires)];
    if Lookup(st, key).Some? then front + Without(st, key)
    else if |st| + 1 > cap then (front + st)[..|st|]
    else front + st
  }

  lemma {:induction false} LookupAt(st: seq<Slot>, i: nat)
    requires DistinctKeys(st) && i < |st|
    ensures Lookup(st, st[i].key) == Some(st[i])
    ensures Without(st, st[i].key) == st[..i] + st[i + 1..]
  {
    var key := st[i].key;
    if i == 0 {
      WithoutAbsent(st[1..], key);
    } else {
      LookupAt(st[1..], i - 1);
      assert st[..i] == [st[0]] + st[1..][..i - 1];
      assert st[0].key != key;
    }
  }

  lemma {:induction false} WithoutAbsent(st: seq<Slot>, key: string)
    requires forall i :: 0 <= i < |st| ==> st[i].key != key
    ensures Without(st, key) == st && Lookup(st, key).None?
  {
    if st != [] {
      WithoutAbsent(st[1..], key);
    }
  }

  lemma {:induction false} LookupSome(st: seq<Slot>, key: string) returns (i: nat)
    requires Lookup(st, key).Some?
    ensures i < |st| && st[i] == Lookup(st, key).value && st[i].key == key
  {
    if st[0].key == key {
      i := 0;
    } else {
      var h := LookupSome(st[1..], key);
      i := h + 1;
    }
  }

  // ---------------------------------------------------------------- the class

  class Entry {
    const key: string
    var id: Identity
    var expires: int

    constructor (key: string, id: Identity, expires: int)
      ensures this.key == key && this.id == id && this.expires == expires
    {
      this.key, this.id, this.expires := key, id, expires;
    }

    function AsSlot(): Slot
      reads this
    {
      Slot(key, id, expires)
    }
  }

  /** Map and list hold the same entries, one per key. */
  ghost predicate Linked(ll: seq<Entry>, m: map<string, Entry>) {
    && (forall i, j :: 0 <= i < j < |ll| ==> ll[i].key != ll[j].key)
    && (forall i :: 0 <= i < |ll| ==> ll[i].key in m && m[ll[i].key] == ll[i])
    && (forall k :: k in m ==> m[k] in ll && m[k].key == k)
  }

  lemma LinkedRemove(ll: seq<Entry>, m: map<string, Entry>, i: nat)
    requires Linked(ll, m) && i < |ll|
    ensures Linked(ll[..i] + ll[i + 1..], m - {ll[i].key})
  {
    var rest := ll[..i] + ll[i + 1..];
    forall j | 0 <= j < |rest|
      ensures rest[j].key != ll[i].key && rest[j] == ll[if j < i then j else j + 1]
    {
    }
    forall k | k in m && k != ll[i].key
      ensures m[k] in rest
    {
      var j :| 0 <= j < |ll| && ll[j] == m[k];
      assert rest[if j < i then j else j - 1] == m[k];
    }
  }

  lemma LinkedMove(ll: seq<Entry>, m: map<string, Entry>, i: nat)
    requires Linked(ll, m) && i < |ll|
    ensures Linked([ll[i]] + (ll[..i] + ll[i + 1..]), m)
  {
    LinkedRemove(ll, m, i);
    var rest := ll[..i] + ll[i + 1..];
    LinkedPush(rest, m - {ll[i].key}, ll[i]);
    assert (m - {ll[i].key})[ll[i].key := ll[i]] == m;
  }

  lemma LinkedPush(ll: seq<Entry>, m: map<string, Entry>, e: Entry)
    requires Linked(ll, m) && e.key !in m
    ensures Linked([e] + ll, m[e.key := e])
  {
  }

  ghost function Slots(ll: seq<Entry>): seq<Slot>
    reads ll
  {
    seq(|ll|, i requires 0 <= i < |ll| reads ll => ll[i].AsSlot())
  }

  lemma SlotsCons(e: Entry, rest: seq<Entry>)
    ensures Slots([e] + rest) == [e.AsSlot()] + Slots(rest)
  {
  }

  class Cache {
    var ll: seq<Entry>
    var m: map<string, Entry>
    const cap: int
    const ttl: int

    ghost predicate Valid()
      reads this
    {
      Linked(ll, m)
    }

    /** The slots, most recent first. */
    ghost function Contents(): seq<Slot>
      reads this, ll
    {
      Slots(ll)
    }

    constructor (capacity: int, ttl: int)
      ensures Valid() && Contents() == [] && cap == capacity && this.ttl == ttl
    {
      ll, m, cap, this.ttl := [], map[], capacity, ttl;
    }

    lemma Position(i: nat)
      requires Valid() && i < |ll|
      ensures DistinctKeys(Contents()) && Lookup(Contents(), ll[i].key) == Some(ll[i].AsSlot())
      ensures Without(Contents(), ll[i].key) == Slots(ll[..i] + ll[i + 1..])
    {
      assert Contents()[i] == ll[i].AsSlot();
      LookupAt(Contents(), i);
      assert Slots(ll[..i] + ll[i + 1..]) == Contents()[..i] + Contents()[i + 1..];
    }

    lemma NotThere(key: string)
      requires Valid() && key !in m
      ensures Lookup(Contents(), key).None?
    {
      WithoutAbsent(Contents(), key);
    }

    method RemoveElement(el: Entry)
      requires Valid() && el in ll
      modifies this`ll, this`m
      ensures Valid() && Contents() == Without(old(Contents()), el.key)
    {
      var i :| 0 <= i < |ll| && ll[i] == el;
      Position(i);
      LinkedRemove(ll, m, i);
      hide Linked, Without, Lookup;
      ll := ll[..i] + ll[i + 1..];
      m := m - {el.key};
    }

    method MoveToFront(el: Entry)
      requires Valid() && el in ll
      modifies this`ll
      ensures Valid() && Contents() == [el.AsSlot()] + Without(old(Contents()), el.key)
    {
      var i :| 0 <= i < |ll| && ll[i] == el;
      Position(i);
      LinkedMove(ll, m, i);
      hide Linked, Without, Lookup;
      ghost var rest := ll[..i] + ll[i + 1..];
      SlotsCons(el, rest);
      ll := [el] + (ll[..i] + ll[i + 1..]);
    }

    method Get(key: string, now: int) returns (r: Option<Identity>)
      requires Valid()
      modifies this`ll, this`m
      ensures Valid() && r == Answer(old(Contents()), key, now)
      ensures Contents() == AfterGet(old(Contents()), key, now)
    {
      if key !in m {
        NotThere(key);
        return None;
      }
      var ent := m[key];
      ghost var i :| 0 <= i < |ll| && ll[i] == ent;
      Position(i);
      if now > ent.expires {
        RemoveElement(ent);
        return None;
      }
      MoveToFront(ent);
      r := Some(ent.id);
    }

    method Put(key: string, id: Identity, now: int)
      requires Valid()
      modifies this`ll, this`m, ll
      ensures Valid() && Contents() == AfterPut(old(Contents()), key, id, now + ttl, cap)
    {
      if key in m {
        var ent := m[key];
        hide Linked, Lookup, Without;
        Refresh(ent, id, now + ttl);
        return;
      }
      NotThere(key);
      hide Linked, Lookup, Without;
      var el := new Entry(key, id, now + ttl);
      PushFront(el);
      if |ll| > cap {
        BackSlot();
        RemoveElement(ll[|ll| - 1]);
      }
    }

    /** Update the entry in place and move it to the front. */
    method Refresh(ent: Entry, id: Identity, expires: int)
      requires Valid() && ent in ll
      modifies this`ll, ent
      ensures Valid() && Lookup(old(Contents()), ent.key).Some?
      ensures Contents() == [Slot(ent.key, id, expires)] + Without(old(Contents()), ent.key)
    {
      ghost var i :| 0 <= i < |ll| && ll[i] == ent;
      Position(i);
      ghost var others := ll[..i] + ll[i + 1..];
      assert ent !in others;
      ent.id := id;
      ent.expires := expires;
      assert Slots(others) == old(Slots(ll[..i] + ll[i + 1..]));
      Position(i);
      hide Linked, Without, Lookup;
      MoveToFront(ent);
    }

    method PushFront(el: Entry)
      requires Valid() && el.key !in m
      modifies this`ll, this`m
      ensures Valid() && Contents() == [el.AsSlot()] + old(Contents())
    {
      LinkedPush(ll, m, el);
      SlotsCons(el, ll);
      hide Linked;
      ll := [el] + ll;
      m := m[el.key := el];
    }

    lemma BackSlot()
      requires Valid() && ll != []
      ensures Without(Contents(), ll[|ll| - 1].key) == Contents()[..|ll| - 1]
    {
      Position(|ll| - 1);
      assert ll[..|ll| - 1] + ll[|ll|..] == ll[..|ll| - 1];
      assert Slots(ll[..|ll| - 1]) == Contents()[..|ll| - 1];
    }
  }

  // ---------------------------------------------------------------- histories

  datatype Op = Put(key: string, id: Identity, at: int) | Get(key: string, at: int)

  datatype Config = Config(cap: int, ttl: int)

  function Step(c: Config, st: seq<Slot>, op: Op): seq<Slot> {
    match op
    case Put(k, id, at) => AfterPut(st, k, id, at + c.ttl, c.cap)
    case Get(k, at) => AfterGet(st, k, at)
  }

  function Run(c: Config, ops: seq<Op>): seq<Slot> {
    if ops == [] then [] else Step(c, Run(c, Init(ops)), Last(ops))
  }

  /** A put touches its key, a get only when it hits. */
  function Touches(st: seq<Slot>, op: Op): bool {
    op.Put? || Fresh(st, op.key, op.at)
  }

  /** The index of the last operation that touched the key, -1 if there is none. */
  function LastTouch(c: Config, ops: seq<Op>, key: string): int {
    if ops == [] then -1
    else if Last(ops).key == key && Touches(Run(c, Init(ops)), Last(ops)) then |ops| - 1
    else LastTouch(c, Init(ops), key)
  }

  function LastPut(ops: seq<Op>, key: string): int {
    if ops == [] then -1
    else if Last(ops).Put? && Last(ops).key == key then |ops| - 1
    else LastPut(Init(ops), key)
  }

  lemma {:induction false} LastPutIsPut(ops: seq<Op>, key: string)
    ensures var n := LastPut(ops, key);
      n < |ops| && (n >= 0 ==> ops[n].Put? && ops[n].key == key)
      && forall m :: 0 <= m < |ops| && m > n ==> !(ops[m].Put? && ops[m].key == key)
  {
    if ops != [] {
      LastPutIsPut(Init(ops), key);
      assert forall m :: 0 <= m < |ops| - 1 ==> Init(ops)[m] == ops[m];
    }
  }

  /** Every slot is the latest put of its key, whole. */
  ghost predicate SlotIsLatestPut(c: Config, ops: seq<Op>, s: Slot) {
    var n := LastPut(ops, s.key);
    0 <= n < |ops| && ops[n].Put? && s == Slot(s.key, ops[n].id, ops[n].at + c.ttl)
  }

  ghost predicate Recent(c: Config, ops: seq<Op>, st: seq<Slot>) {
    && (forall i :: 0 <= i < |st| ==> 0 <= LastTouch(c, ops, st[i].key) < |ops|)
    && (forall i, j :: 0 <= i < j < |st| ==> LastTouch(c, ops, st[j].key) < LastTouch(c, ops, st[i].key))
  }

  ghost predicate Coherent(c: Config, ops: seq<Op>, st: seq<Slot>) {
    && DistinctKeys(st)
    && |st| <= (if c.cap > 0 then c.cap else 0)
    && (forall i :: 0 <= i < |st| ==> SlotIsLatestPut(c, ops, st[i]))
    && Recent(c, ops, st)
  }

  /** `w` is part of `st`, in the same order. */
  ghost predicate PartOf(w: seq<Slot>, st: seq<Slot>) {
    && (forall i :: 0 <= i < |w| ==> w[i] in st)
    && (forall i, j :: 0 <= i < j < |w| ==> InOrderIn(st, w[i], w[j]))
  }

  ghost predicate InOrderIn(st: seq<Slot>, x: Slot, y: Slot) {
    exists a, b :: 0 <= a < b < |st| && st[a] == x && st[b] == y
  }

  lemma CutIsPart(st: seq<Slot>, p: nat)
    requires p < |st|
    ensures PartOf(st[..p] + st[p + 1..], st)
  {
    var w := st[..p] + st[p + 1..];
    forall i | 0 <= i < |w|
      ensures w[i] in st
    {
      assert w[i] == st[if i < p then i else i + 1];
    }
    forall i, j | 0 <= i < j < |w|
      ensures InOrderIn(st, w[i], w[j])
    {
      var a, b := if i < p then i else i + 1, if j < p then j else j + 1;
      assert st[a] == w[i] && st[b] == w[j];
    }
  }

  /** The slots of `st` other than `key`, in the same order. */
  lemma WithoutKeepsOrder(st: seq<Slot>, key: string)
    requires DistinctKeys(st)
    ensures PartOf(Without(st, key), st)
    ensures forall i :: 0 <= i < |Without(st, key)| ==> Without(st, key)[i].key != key
    ensures |Without(st, key)| == if Lookup(st, key).Some? then |st| - 1 else |st|
  {
    if Lookup(st, key).Some? {
      var p := LookupSome(st, key);
      LookupAt(st, p);
      CutIsPart(st, p);
      hide PartOf, Without, Lookup;
    } else {
      AbsentKey(st, key);
      WithoutAbsent(st, key);
      forall i, j | 0 <= i < j < |st|
        ensures InOrderIn(st, st[i], st[j])
      {
      }
    }
  }

  lemma {:induction false} AbsentKey(st: seq<Slot>, key: string)
    requires Lookup(st, key).None?
    ensures forall i :: 0 <= i < |st| ==> st[i].key != key
  {
    if st != [] {
      AbsentKey(st[1..], key);
    }
  }

  /** The old slots that stay, read against the longer history, when the new operation is on `key`. */
  lemma OthersUnmoved(c: Config, ops: seq<Op>, st: seq<Slot>)
    requires ops != [] && Coherent(c, Init(ops), st)
    requires forall i :: 0 <= i < |st| ==> st[i].key != Last(ops).key
    ensures forall i :: 0 <= i < |st| ==> SlotIsLatestPut(c, ops, st[i])
    ensures Recent(c, ops, st)
    ensures forall i :: 0 <= i < |st| ==> LastTouch(c, ops, st[i].key) < |ops| - 1
  {
  }

  lemma CoherentPart(c: Config, ops: seq<Op>, st: seq<Slot>, w: seq<Slot>)
    requires Coherent(c, ops, st) && PartOf(w, st) && |w| <= |st|
    ensures Coherent(c, ops, w)
  {
    hide LastTouch, SlotIsLatestPut;
    forall i | 0 <= i < |w|
      ensures SlotIsLatestPut(c, ops, w[i]) && 0 <= LastTouch(c, ops, w[i].key) < |ops|
    {
      var a :| 0 <= a < |st| && st[a] == w[i];
    }
    forall i, j | 0 <= i < j < |w|
      ensures LastTouch(c, ops, w[j].key) < LastTouch(c, ops, w[i].key) && w[i].key != w[j].key
    {
      assert InOrderIn(st, w[i], w[j]);
      var a, b :| 0 <= a < b < |st| && st[a] == w[i] && st[b] == w[j];
    }
  }

  /** A touched slot in front of a coherent rest. */
  lemma CoherentFront(c: Config, ops: seq<Op>, s: Slot, rest: seq<Slot>)
    requires ops != [] && s.key == Last(ops).key && LastTouch(c, ops, s.key) == |ops| - 1
    requires SlotIsLatestPut(c, ops, s)
    requires Coherent(c, Init(ops), rest) && forall i :: 0 <= i < |rest| ==> rest[i].key != s.key
    requires |rest| + 1 <= if c.cap > 0 then c.cap else 0
    ensures Coherent(c, ops, [s] + rest)
  {
    OthersUnmoved(c, ops, rest);
    hide LastTouch, SlotIsLatestPut;
  }

  /** Operations that drop slots or leave them: nothing in `w` is the current key. */
  lemma CoherentRest(c: Config, ops: seq<Op>, w: seq<Slot>)
    requires ops != [] && Coherent(c, Init(ops), w)
    requires forall i :: 0 <= i < |w| ==> w[i].key != Last(ops).key
    ensures Coherent(c, ops, w)
  {
    OthersUnmoved(c, ops, w);
    hide LastTouch, SlotIsLatestPut;
  }

  lemma LookupCoherent(c: Config, ops: seq<Op>, st: seq<Slot>, key: string)
    requires Coherent(c, ops, st) && Lookup(st, key).Some?
    ensures Lookup(st, key).value.key == key && SlotIsLatestPut(c, ops, Lookup(st, key).value)
    ensures |st| >= 1
  {
    var p := LookupSome(st, key);
  }

  lemma GetKeepsCoherent(c: Config, ops: seq<Op>)
    requires ops != [] && Last(ops).Get? && Coherent(c, Init(ops), Run(c, Init(ops)))
    ensures Coherent(c, ops, Run(c, ops))
  {
    var st, op := Run(c, Init(ops)), Last(ops);
    var w := Without(st, op.key);
    WithoutKeepsOrder(st, op.key);
    CoherentPart(c, Init(ops), st, w);
    if Lookup(st, op.key).None? {
      AbsentKey(st, op.key);
      CoherentRest(c, ops, st);
    } else if Fresh(st, op.key, op.at) {
      LookupCoherent(c, Init(ops), st, op.key);
      hide Coherent, Without, Lookup;
      CoherentSize(c, Init(ops), st);
      CoherentFront(c, ops, Lookup(st, op.key).value, w);
    } else {
      CoherentRest(c, ops, w);
    }
  }

  lemma CoherentSize(c: Config, ops: seq<Op>, st: seq<Slot>)
    requires Coherent(c, ops, st)
    ensures |st| <= if c.cap > 0 then c.cap else 0
  {
  }

  lemma PutTouches(c: Config, ops: seq<Op>)
    requires ops != [] && Last(ops).Put?
    ensures LastTouch(c, ops, Last(ops).key) == |ops| - 1
    ensures SlotIsLatestPut(c, ops, Slot(Last(ops).key, Last(ops).id, Last(ops).at + c.ttl))
  {
  }

  lemma PutKeepsCoherent(c: Config, ops: seq<Op>)
    requires ops != [] && Last(ops).Put? && Coherent(c, Init(ops), Run(c, Init(ops)))
    ensures Coherent(c, ops, Run(c, ops))
  {
    var st, op := Run(c, Init(ops)), Last(ops);
    var s := Slot(op.key, op.id, op.at + c.ttl);
    hide *;
    RunUnfolds(c, ops);
    if Lookup(st, op.key).Some? {
      PutKnown(c, ops, st, s);
    } else {
      AbsentKey(st, op.key);
      PutNew(c, ops, st, s);
    }
  }

  lemma PutKnown(c: Config, ops: seq<Op>, st: seq<Slot>, s: Slot)
    requires ops != [] && Last(ops).Put? && s == Slot(Last(ops).key, Last(ops).id, Last(ops).at + c.ttl)
    requires Coherent(c, Init(ops), st) && Lookup(st, s.key).Some?
    ensures Coherent(c, ops, [s] + Without(st, s.key))
  {
    PutTouches(c, ops);
    WithoutKeepsOrder(st, s.key);
    CoherentPart(c, Init(ops), st, Without(st, s.key));
    CoherentSize(c, Init(ops), st);
    hide *;
    CoherentFront(c, ops, s, Without(st, s.key));
  }

  lemma PutNew(c: Config, ops: seq<Op>, st: seq<Slot>, s: Slot)
    requires ops != [] && Last(ops).Put? && s == Slot(Last(ops).key, Last(ops).id, Last(ops).at + c.ttl)
    requires Coherent(c, Init(ops), st)
    requires forall i :: 0 <= i < |st| ==> st[i].key != s.key
    ensures Coherent(c, ops, if |st| + 1 > c.cap then ([s] + st)[..|st|] else [s] + st)
  {
    PutTouches(c, ops);
    hide LastTouch, SlotIsLatestPut;
    if |st| + 1 <= c.cap {
      CoherentFront(c, ops, s, st);
    } else if st == [] {
      assert ([s] + st)[..0] == [];
    } else {
      var kept := st[..|st| - 1];
      assert ([s] + st)[..|st|] == [s] + kept;
      assert PartOf(kept, st) by {
        forall i, j | 0 <= i < j < |kept|
          ensures InOrderIn(st, kept[i], kept[j])
        {
          assert st[i] == kept[i] && st[j] == kept[j];
        }
      }
      CoherentPart(c, Init(ops), st, kept);
      CoherentFront(c, ops, s, kept);
    }
  }

  /** After any history: one slot per key, never more than the capacity, each slot the latest put of
      its key, and the list in order of last touch, most recent first. */
  lemma {:induction false} RunCoherent(c: Config, ops: seq<Op>)
    ensures Coherent(c, ops, Run(c, ops))
  {
    if ops != [] {
      RunCoherent(c, Init(ops));
      if Last(ops).Put? {
        PutKeepsCoherent(c, ops);
      } else {
        GetKeepsCoherent(c, ops);
      }
    }
  }

  /** A hit returns the identity of the latest put of that key, made no longer than ttl ago. */
  lemma HitIsLatestPut(c: Config, ops: seq<Op>, key: string, now: int) returns (n: nat)
    requires Answer(Run(c, ops), key, now).Some?
    ensures n < |ops| && ops[n].Put? && ops[n].key == key
    ensures forall m :: n < m < |ops| ==> !(ops[m].Put? && ops[m].key == key)
    ensures Answer(Run(c, ops), key, now) == Some(ops[n].id) && now <= ops[n].at + c.ttl
  {
    RunCoherent(c, ops);
    LookupCoherent(c, ops, Run(c, ops), key);
    LastPutIsPut(ops, key);
    n := LastPut(ops, key);
  }

  // ---------------------------------------------------------------- how long a fresh key survives

  /** The keys touched after operation `l`. */
  function TouchedSince(c: Config, ops: seq<Op>, l: int): set<string> {
    if |ops| - 1 <= l || ops == [] then {}
    else
      TouchedSince(c, Init(ops), l)
      + if Touches(Run(c, Init(ops)), Last(ops)) then {Last(ops).key} else {}
  }

  lemma {:induction false} LaterTouchCounts(c: Config, ops: seq<Op>, l: int, key: string)
    requires LastTouch(c, ops, key) > l >= -1
    ensures key in TouchedSince(c, ops, l)
  {
    if !(Last(ops).key == key && Touches(Run(c, Init(ops)), Last(ops))) {
      LaterTouchCounts(c, Init(ops), l, key);
    }
  }

  ghost predicate MonotoneClock(ops: seq<Op>, now: int) {
    && (forall i, j :: 0 <= i < j < |ops| ==> ops[i].at <= ops[j].at)
    && (forall i :: 0 <= i < |ops| ==> ops[i].at <= now)
  }

  lemma {:induction false} ManyKeys(st: seq<Slot>, p: nat, ks: set<string>)
    requires p <= |st| && DistinctKeys(st) && forall i :: 0 <= i < p ==> st[i].key in ks
    ensures p <= |ks|
  {
    if p > 0 {
      ManyKeys(st, p - 1, ks - {st[p - 1].key});
    }
  }

  ghost predicate FreshUntil(c: Config, ops: seq<Op>, key: string, now: int) {
    var n := LastPut(ops, key);
    0 <= n < |ops| && ops[n].Put? && now <= ops[n].at + c.ttl
  }

  lemma {:induction false} LastTouchAtLeastPut(c: Config, ops: seq<Op>, key: string)
    ensures LastPut(ops, key) <= LastTouch(c, ops, key) < |ops|
  {
    if ops != [] {
      LastTouchAtLeastPut(c, Init(ops), key);
    }
  }

  /** A key put within ttl is still there unless at least `cap` other keys were touched since its own
      last touch. */
  lemma {:induction false} FreshKeySurvives(c: Config, ops: seq<Op>, key: string, now: int)
    requires MonotoneClock(ops, now) && FreshUntil(c, ops, key, now)
    requires |TouchedSince(c, ops, LastTouch(c, ops, key)) - {key}| < c.cap
    ensures Answer(Run(c, ops), key, now) == Some(ops[LastPut(ops, key)].id)
  {
    Survives(c, ops, key, now);
    RunCoherent(c, ops);
    LookupCoherent(c, ops, Run(c, ops), key);
  }

  /** Dropping a last operation that does not touch the key. */
  lemma ShorterHistory(c: Config, ops: seq<Op>, key: string, now: int)
    requires MonotoneClock(ops, now) && FreshUntil(c, ops, key, now)
    requires !(Last(ops).key == key && Touches(Run(c, Init(ops)), Last(ops)))
    ensures MonotoneClock(Init(ops), now) && FreshUntil(c, Init(ops), key, now)
    ensures LastTouch(c, ops, key) == LastTouch(c, Init(ops), key) < |ops| - 1
    ensures LastPut(ops, key) == LastPut(Init(ops), key)
    ensures TouchedSince(c, Init(ops), LastTouch(c, ops, key)) <= TouchedSince(c, ops, LastTouch(c, ops, key))
  {
    LastTouchAtLeastPut(c, Init(ops), key);
    hide Run;
    var n := LastPut(Init(ops), key);
    assert Init(ops)[n] == ops[n];
  }

  lemma {:induction false} Survives(c: Config, ops: seq<Op>, key: string, now: int)
    requires MonotoneClock(ops, now) && FreshUntil(c, ops, key, now)
    requires |TouchedSince(c, ops, LastTouch(c, ops, key)) - {key}| < c.cap
    ensures Lookup(Run(c, ops), key).Some?
  {
    var p, op := Init(ops), Last(ops);
    if op.key == key && Touches(Run(c, p), op) {
      Touched(c, ops);
    } else {
      ShorterHistory(c, ops, key, now);
      var l := LastTouch(c, ops, key);
      Fewer(TouchedSince(c, p, l) - {key}, TouchedSince(c, ops, l) - {key});
      hide Run, TouchedSince, LastTouch, FreshUntil, MonotoneClock, Touches, Lookup;
      Survives(c, p, key, now);
      StepKeeps(c, ops, key, now);
    }
  }

  lemma Fewer(a: set<string>, b: set<string>)
    requires a <= b
    ensures |a| <= |b|
  {
    assert b == a + (b - a);
  }

  lemma Touched(c: Config, ops: seq<Op>)
    requires ops != [] && Touches(Run(c, Init(ops)), Last(ops)) && c.cap > 0
    ensures Lookup(Run(c, ops), Last(ops).key).Some?
  {
    RunCoherent(c, Init(ops));
    var st := Run(c, Init(ops));
    if Last(ops).Get? {
      LookupCoherent(c, Init(ops), st, Last(ops).key);
    }
  }

  lemma {:induction false} LookupWithout(st: seq<Slot>, key: string, other: string)
    requires key != other
    ensures Lookup(Without(st, other), key) == Lookup(st, key)
  {
    if st != [] {
      LookupWithout(st[1..], key, other);
      assert st[0].key != other ==> ([st[0]] + Without(st[1..], other))[1..] == Without(st[1..], other);
    }
  }

  lemma LookupCons(s: Slot, st: seq<Slot>, key: string)
    requires s.key != key
    ensures Lookup([s] + st, key) == Lookup(st, key)
  {
    assert ([s] + st)[1..] == st;
  }

  /** While the key is there and fresh, any operation on it touches it. */
  lemma TouchIfThere(c: Config, ops: seq<Op>, key: string, now: int)
    requires ops != [] && MonotoneClock(ops, now) && FreshUntil(c, Init(ops), key, now)
    requires Lookup(Run(c, Init(ops)), key).Some? && Last(ops).key == key
    ensures Touches(Run(c, Init(ops)), Last(ops))
  {
    RunCoherent(c, Init(ops));
    LookupCoherent(c, Init(ops), Run(c, Init(ops)), key);
    assert ops[|ops| - 1] == Last(ops) && Last(ops).at <= now;
    hide Run, Coherent, LastPut;
  }

  /** One more operation on another key does not lose the key. */
  lemma StepKeeps(c: Config, ops: seq<Op>, key: string, now: int)
    requires ops != [] && MonotoneClock(ops, now) && FreshUntil(c, Init(ops), key, now)
    requires Lookup(Run(c, Init(ops)), key).Some?
    requires !(Last(ops).key == key && Touches(Run(c, Init(ops)), Last(ops)))
    requires |TouchedSince(c, ops, LastTouch(c, Init(ops), key)) - {key}| < c.cap
    ensures Lookup(Run(c, ops), key).Some?
  {
    hide *;
    var st, op := Run(c, Init(ops)), Last(ops);
    RunCoherent(c, Init(ops));
    RunUnfolds(c, ops);
    if op.key == key {
      TouchIfThere(c, ops, key, now);
    } else if op.Get? {
      GetSpares(st, op.key, op.at, key);
    } else if Lookup(st, op.key).Some? {
      RefreshSpares(st, Slot(op.key, op.id, op.at + c.ttl), key);
    } else {
      PutSpares(c, ops, st, Slot(op.key, op.id, op.at + c.ttl), key);
    }
  }

  lemma RunUnfolds(c: Config, ops: seq<Op>)
    requires ops != []
    ensures var st, op := Run(c, Init(ops)), Last(ops);
      && (op.Get? ==> Run(c, ops) == AfterGet(st, op.key, op.at))
      && (op.Put? ==>
            var s := Slot(op.key, op.id, op.at + c.ttl);
            Run(c, ops) == if Lookup(st, op.key).Some? then [s] + Without(st, op.key)
                           else if |st| + 1 > c.cap then ([s] + st)[..|st|] else [s] + st)
  {
    hide Lookup, Without;
    RunIs(c, ops);
    hide Run;
  }

  lemma RunIs(c: Config, ops: seq<Op>)
    requires ops != []
    ensures Run(c, ops) == Step(c, Run(c, Init(ops)), Last(ops))
  {
    hide Step;
  }

  lemma GetSpares(st: seq<Slot>, other: string, now: int, key: string)
    requires other != key && Lookup(st, key).Some?
    ensures Lookup(AfterGet(st, other, now), key).Some?
  {
    LookupWithout(st, key, other);
    if Lookup(st, other).Some? {
      var q := LookupSome(st, other);
      LookupCons(st[q], Without(st, other), key);
    }
  }

  lemma RefreshSpares(st: seq<Slot>, s: Slot, key: string)
    requires s.key != key && Lookup(st, key).Some?
    ensures Lookup([s] + Without(st, s.key), key).Some?
  {
    LookupWithout(st, key, s.key);
    LookupCons(s, Without(st, s.key), key);
  }

  /** A put of a new key evicts the last slot, and `key` is not that far back. */
  lemma PutSpares(c: Config, ops: seq<Op>, st: seq<Slot>, s: Slot, key: string)
    requires ops != [] && Last(ops).Put? && s.key == Last(ops).key != key
    requires st == Run(c, Init(ops)) && Coherent(c, Init(ops), st) && Lookup(st, key).Some?
    requires Lookup(st, s.key).None?
    requires |TouchedSince(c, ops, LastTouch(c, Init(ops), key)) - {key}| < c.cap
    ensures Lookup(if |st| + 1 > c.cap then ([s] + st)[..|st|] else [s] + st, key).Some?
  {
    var at := LookupSome(st, key);
    LookupCons(s, st, key);
    if |st| + 1 > c.cap {
      var full := [s] + st;
      var kept := full[..|st|];
      AbsentKey(st, s.key);
      FrontTouched(c, ops, st, s, at);
      assert at + 1 < |st|;
      assert kept[at + 1] == st[at];
      Found(kept, at + 1);
    }
  }

  lemma {:induction false} Found(st: seq<Slot>, i: nat)
    requires i < |st|
    ensures Lookup(st, st[i].key).Some?
  {
    if st[0].key != st[i].key {
      Found(st[1..], i - 1);
    }
  }

  /** The new key and everything in front of position `at` was touched since. */
  lemma FrontTouched(c: Config, ops: seq<Op>, st: seq<Slot>, s: Slot, at: nat)
    requires ops != [] && Last(ops).Put? && s.key == Last(ops).key
    requires st == Run(c, Init(ops)) && Coherent(c, Init(ops), st) && at < |st|
    requires forall i :: 0 <= i < |st| ==> st[i].key != s.key
    ensures at + 1 <= |TouchedSince(c, ops, LastTouch(c, Init(ops), st[at].key)) - {st[at].key}|
  {
    var l := LastTouch(c, Init(ops), st[at].key);
    var ks := TouchedSince(c, ops, l) - {st[at].key};
    var full := [s] + st;
    forall i | 0 <= i < at + 1
      ensures full[i].key in ks
    {
      if i > 0 {
        LaterTouchCounts(c, Init(ops), l, st[i - 1].key);
      }
    }
    hide TouchedSince, LastTouch;
    assert DistinctKeys(full);
    ManyKeys(full, at + 1, ks);
  }

  // ---------------------------------------------------------------- when a fresh key is lost

  /** The put of a new key into a full list whose last slot is the key's. */
  predicate PushesOut(c: Config, st: seq<Slot>, op: Op, key: string) {
    op.Put? && Lookup(st, op.key).None? && |st| + 1 > c.cap && st != [] && Last(st).key == key
  }

  ghost predicate NeverPushedOut(c: Config, ops: seq<Op>, key: string) {
    forall k :: 0 <= k < |ops| && LastPut(ops, key) < k ==> !PushesOut(c, Run(c, ops[..k]), ops[k], key)
  }

  /** A put of a new key drops the last slot of a full list and no other. */
  lemma PushedOutIff(st: seq<Slot>, s: Slot, key: string)
    requires DistinctKeys(st) && s.key != key && Lookup(st, key).Some? && Lookup(st, s.key).None?
    ensures Lookup(([s] + st)[..|st|], key).Some? <==> Last(st).key != key
  {
    var at := LookupSome(st, key);
    var kept := ([s] + st)[..|st|];
    if Last(st).key == key {
      assert forall i :: 0 <= i < |kept| ==> kept[i].key != key by {
        assert forall i :: 0 < i < |kept| ==> kept[i] == st[i - 1];
      }
      WithoutAbsent(kept, key);
    } else {
      assert kept[at + 1] == st[at];
      Found(kept, at + 1);
    }
  }

  /** One operation other than a put of the key: a key that is there stays there unless pushed out. */
  lemma StepLosesIff(c: Config, ops: seq<Op>, key: string)
    requires ops != [] && !(Last(ops).Put? && Last(ops).key == key)
    requires Lookup(Run(c, Init(ops)), key).Some?
    requires Last(ops).Get? && Last(ops).key == key ==> Fresh(Run(c, Init(ops)), key, Last(ops).at)
    ensures Lookup(Run(c, ops), key).Some? <==> !PushesOut(c, Run(c, Init(ops)), Last(ops), key)
  {
    hide Run, Without, Coherent, AfterGet;
    var st, op := Run(c, Init(ops)), Last(ops);
    RunCoherent(c, Init(ops));
    RunUnfolds(c, ops);
    CoherentKeys(c, Init(ops), st);
    if op.Get? {
      if op.key == key {
        GetKeeps(st, key, op.at);
      } else {
        GetSpares(st, op.key, op.at, key);
      }
    } else {
      var s := Slot(op.key, op.id, op.at + c.ttl);
      if Lookup(st, op.key).Some? {
        RefreshSpares(st, s, key);
      } else {
        LookupCons(s, st, key);
        PushedOutIff(st, s, key);
      }
    }
  }

  lemma CoherentKeys(c: Config, ops: seq<Op>, st: seq<Slot>)
    requires Coherent(c, ops, st)
    ensures DistinctKeys(st)
  {
  }

  lemma GetKeeps(st: seq<Slot>, key: string, now: int)
    requires Fresh(st, key, now)
    ensures Lookup(AfterGet(st, key, now), key).Some?
  {
    var i := LookupSome(st, key);
  }

  lemma GetLeavesOut(st: seq<Slot>, other: string, now: int, key: string)
    requires Lookup(st, key).None?
    ensures Lookup(AfterGet(st, other, now), key).None?
  {
    if Lookup(st, other).Some? {
      var i := LookupSome(st, other);
      LookupWithout(st, key, other);
      LookupCons(st[i], Without(st, other), key);
    }
  }

  lemma PutLeavesOut(st: seq<Slot>, s: Slot, key: string)
    requires Lookup(st, key).None? && s.key != key
    ensures Lookup([s] + Without(st, s.key), key).None? && Lookup([s] + st, key).None?
    ensures Lookup(([s] + st)[..|st|], key).None?
  {
    LookupWithout(st, key, s.key);
    LookupCons(s, Without(st, s.key), key);
    LookupCons(s, st, key);
    AbsentKey([s] + st, key);
    WithoutAbsent(([s] + st)[..|st|], key);
  }

  /** An operation other than a put of the key does not bring it back. */
  lemma StaysLost(c: Config, ops: seq<Op>, key: string)
    requires ops != [] && !(Last(ops).Put? && Last(ops).key == key) && Lookup(Run(c, Init(ops)), key).None?
    ensures Lookup(Run(c, ops), key).None?
  {
    hide *;
    var st, op := Run(c, Init(ops)), Last(ops);
    RunUnfolds(c, ops);
    if op.Get? {
      GetLeavesOut(st, op.key, op.at, key);
    } else {
      PutLeavesOut(st, Slot(op.key, op.id, op.at + c.ttl), key);
    }
  }

  lemma {:induction false} ThereIff(c: Config, ops: seq<Op>, key: string, now: int)
    requires c.cap > 0 && MonotoneClock(ops, now) && FreshUntil(c, ops, key, now)
    ensures Lookup(Run(c, ops), key).Some? <==> NeverPushedOut(c, ops, key)
  {
    var p, op := Init(ops), Last(ops);
    if op.Put? && op.key == key {
      Touched(c, ops);
    } else {
      EarlierHistory(c, ops, key, now);
      ThereIff(c, p, key, now);
      NeverPushedOutMore(c, ops, key);
      hide Run, NeverPushedOut, MonotoneClock, FreshUntil, PushesOut, Fresh;
      if Lookup(Run(c, p), key).Some? {
        StillFresh(c, ops, key, now);
        StepLosesIff(c, ops, key);
      } else {
        StaysLost(c, ops, key);
      }
    }
  }

  lemma EarlierHistory(c: Config, ops: seq<Op>, key: string, now: int)
    requires MonotoneClock(ops, now) && FreshUntil(c, ops, key, now) && !(Last(ops).Put? && Last(ops).key == key)
    ensures MonotoneClock(Init(ops), now) && FreshUntil(c, Init(ops), key, now)
    ensures LastPut(ops, key) == LastPut(Init(ops), key) < |ops| - 1
  {
    LastTouchAtLeastPut(c, Init(ops), key);
    var n := LastPut(Init(ops), key);
    assert Init(ops)[n] == ops[n];
  }

  lemma NeverPushedOutMore(c: Config, ops: seq<Op>, key: string)
    requires ops != [] && LastPut(ops, key) == LastPut(Init(ops), key) < |ops| - 1
    ensures NeverPushedOut(c, ops, key) <==>
      NeverPushedOut(c, Init(ops), key) && !PushesOut(c, Run(c, Init(ops)), Last(ops), key)
  {
    hide Run, PushesOut;
    var l := LastPut(ops, key);
    forall k | 0 <= k < |ops| - 1
      ensures PushesOut(c, Run(c, Init(ops)[..k]), Init(ops)[k], key) == PushesOut(c, Run(c, ops[..k]), ops[k], key)
    {
      assert Init(ops)[..k] == ops[..k];
    }
    assert ops[..|ops| - 1] == Init(ops);
    assert NeverPushedOut(c, ops, key) ==> !PushesOut(c, Run(c, ops[..|ops| - 1]), ops[|ops| - 1], key);
  }

  lemma StillFresh(c: Config, ops: seq<Op>, key: string, now: int)
    requires ops != [] && MonotoneClock(ops, now) && FreshUntil(c, Init(ops), key, now)
    requires Lookup(Run(c, Init(ops)), key).Some?
    ensures Fresh(Run(c, Init(ops)), key, Last(ops).at)
  {
    RunCoherent(c, Init(ops));
    LookupCoherent(c, Init(ops), Run(c, Init(ops)), key);
    assert ops[|ops| - 1] == Last(ops) && Last(ops).at <= now;
    hide Run, Coherent, LastPut;
  }

  /** The exact condition: a key within ttl of its last put is a hit, with that put's identity, if and only if no
      put of a new key into a full cache found it in last place since. */
  lemma FreshKeyHitIff(c: Config, ops: seq<Op>, key: string, now: int)
    requires c.cap > 0 && MonotoneClock(ops, now) && FreshUntil(c, ops, key, now)
    ensures Answer(Run(c, ops), key, now) == Some(ops[LastPut(ops, key)].id) <==> NeverPushedOut(c, ops, key)
    ensures Answer(Run(c, ops), key, now).Some? <==> NeverPushedOut(c, ops, key)
  {
    ThereIff(c, ops, key, now);
    RunCoherent(c, ops);
    hide NeverPushedOut, Run;
    if Lookup(Run(c, ops), key).Some? {
      LookupCoherent(c, ops, Run(c, ops), key);
    }
  }

  /** Touching `cap` other keys need not lose a key: with room for two, `x` outlives two others touched after
      it, because a get of the expired `y` gave its place to `z`. */
  lemma TouchesNeedNotEvict(who: Identity)
    ensures var c := Config(2, 10);
      var ops := [Put("y", who, 0), Put("x", who, 5), Get("y", 6), Get("y", 11), Put("z", who, 12)];
      MonotoneClock(ops, 13)
      && TouchedSince(c, ops, LastTouch(c, ops, "x")) == {"y", "z"} && Answer(Run(c, ops), "x", 13).Some?
  {
    var c := Config(2, 10);
    var y, x, z := Slot("y", who, 10), Slot("x", who, 15), Slot("z", who, 22);
    var o1 := [Put("y", who, 0)];
    var o2 := o1 + [Put("x", who, 5)];
    var o3 := o2 + [Get("y", 6)];
    var o4 := o3 + [Get("y", 11)];
    Grow(c, o1, Put("x", who, 5));
    Grow(c, o2, Get("y", 6));
    Grow(c, o3, Get("y", 11));
    Grow(c, o4, Put("z", who, 12));
    assert o4 + [Put("z", who, 12)]
        == [Put("y", who, 0), Put("x", who, 5), Get("y", 6), Get("y", 11), Put("z", who, 12)];
    TwoSlots(x, y);
    TwoSlots(y, x);
    TwoSlots(z, x);
    assert Init(o1) == [] && Run(c, o1) == [y];
    assert Run(c, o2) == [x, y];
    assert Run(c, o3) == [y, x];
    assert Run(c, o4) == [x];
  }

  lemma Grow(c: Config, ops: seq<Op>, op: Op)
    ensures Run(c, ops + [op]) == Step(c, Run(c, ops), op)
    ensures forall key :: LastTouch(c, ops + [op], key) ==
                          (if op.key == key && Touches(Run(c, ops), op) then |ops| else LastTouch(c, ops, key))
    ensures forall l :: l < |ops| ==>
              TouchedSince(c, ops + [op], l) ==
              TouchedSince(c, ops, l) + (if Touches(Run(c, ops), op) then {op.key} else {})
    ensures TouchedSince(c, ops + [op], |ops|) == {}
  {
    assert Init(ops + [op]) == ops;
  }

  lemma TwoSlots(s: Slot, t: Slot)
    requires s.key != t.key
    ensures Lookup([s, t], s.key) == Some(s) && Lookup([s, t], t.key) == Some(t)
    ensures Without([s, t], s.key) == [t] && Without([s, t], t.key) == [s]
    ensures forall key :: key != t.key ==> Lookup([t], key) == None
    ensures Lookup([t], t.key) == Some(t) && Without([t], t.key) == []
  {
    assert [s, t][1..] == [t] && [t][1..] == [];
    assert Without([t], s.key) == [t] + Without([], s.key) && Without([t], t.key) == Without([], t.key);
  }
}
