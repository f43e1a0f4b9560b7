/** The in-memory outbox: a log with monotone event ids, read by a subscriber that pages
    through it with a cursor while events are appended, marked delivered and deleted. */
module Outbox {
  import opened Common
  import Ordering

  datatype Body = Body(
    occurredAt: int, eventType: string, resourceType: string, resourceId: Option<string>,
    payload: Dict, schemaVersion: int, projectId: Option<string>)

  datatype OutboxEvent = OutboxEvent(id: string, eventId: nat, body: Body, deliveredAt: Option<int>)

  type Items = map<string, OutboxEvent>

  datatype Log = Log(items: Items, head: nat)

  // ---- What the operations do -----------------------------------------------------------

  /** The caller's event id is ignored; the log assigns the next one. */
  function Stored(l: Log, e: OutboxEvent): OutboxEvent {
    OutboxEvent(e.id, l.head + 1, e.body, e.deliveredAt)
  }

  function Appended(l: Log, e: OutboxEvent): Log {
    Log(l.items[e.id := Stored(l, e)], l.head + 1)
  }

  function MarkOne(items: Items, id: string, at: int): Items {
    if id in items && items[id].deliveredAt.None? then items[id := items[id].(deliveredAt := Some(at))] else items
  }

  function Mark(items: Items, ids: seq<string>, at: int): Items {
    if ids == [] then items else MarkOne(Mark(items, ids[..|ids| - 1], at), ids[|ids| - 1], at)
  }

  predicate Expired(e: OutboxEvent, cutoff: int) {
    e.deliveredAt.Some? && e.deliveredAt.value < cutoff
  }

  function DeleteBefore(items: Items, cutoff: int): Items {
    map k | k in items && !Expired(items[k], cutoff) :: items[k]
  }

  /** Python's `s[:limit]`: a negative limit counts from the end. */
  function Slice<T>(s: seq<T>, limit: int): seq<T> {
    if limit >= |s| then s else if limit >= 0 then s[..limit]
    else if -limit <= |s| then s[..|s| + limit] else []
  }

  predicate ByEventId(a: OutboxEvent, b: OutboxEvent) { a.eventId <= b.eventId }

  ghost predicate Increasing(s: seq<OutboxEvent>) {
    forall i, j | 0 <= i < j < |s| :: s[i].eventId < s[j].eventId
  }

  /** All stored events past `since`, in event-id order. */
  ghost predicate Pending(all: seq<OutboxEvent>, items: Items, since: int) {
    && Increasing(all)
    && forall e :: e in all <==> e.id in items && items[e.id] == e && e.eventId > since
  }

  ghost predicate IsPage(page: seq<OutboxEvent>, items: Items, since: int, limit: int) {
    exists all :: Pending(all, items, since) && page == Slice(all, limit)
  }

  /** Event ids identify events, and none is beyond the head. */
  ghost predicate Valid(l: Log) {
    && (forall k | k in l.items :: l.items[k].id == k && 1 <= l.items[k].eventId <= l.head)
    && forall j, k | j in l.items && k in l.items && j != k :: l.items[j].eventId != l.items[k].eventId
  }

  lemma {:induction false} MarkOnlyMarks(items: Items, ids: seq<string>, at: int)
    ensures Mark(items, ids, at).Keys == items.Keys
    ensures forall k | k in items :: Mark(items, ids, at)[k] ==
              (if k in ids && items[k].deliveredAt.None? then items[k].(deliveredAt := Some(at)) else items[k])
  {
    if ids == [] {
    } else {
      var n := |ids| - 1;
      MarkOnlyMarks(items, ids[..n], at);
      assert ids == ids[..n] + [ids[n]];
    }
  }

  /** Valid logs stay valid, whether or not appended ids are fresh. */
  lemma OperationsKeepValid(l: Log, e: OutboxEvent, ids: seq<string>, at: int, cutoff: int)
    requires Valid(l)
    ensures Valid(Appended(l, e))
    ensures Valid(l.(items := Mark(l.items, ids, at)))
    ensures Valid(l.(items := DeleteBefore(l.items, cutoff)))
  {
    MarkOnlyMarks(l.items, ids, at);
  }

  /** An append keeps every earlier event exactly when its id is fresh. */
  lemma AppendKeepsAllIffFresh(l: Log, e: OutboxEvent)
    requires Valid(l)
    ensures (forall k | k in l.items :: k in Appended(l, e).items && Appended(l, e).items[k] == l.items[k])
      <==> e.id !in l.items
  {
    if e.id in l.items {
      assert Appended(l, e).items[e.id].eventId == l.head + 1;
      assert Appended(l, e).items[e.id] != l.items[e.id];
    }
  }

  // ---- The repository ----------------------------------------------------------------

  class InMemoryOutboxRepository {
    var items: Items
    var seqNo: nat

    constructor ()
      ensures Value() == Log(map[], 0)
    { items, seqNo := map[], 0; }

    function Value(): Log
      reads this
    { Log(items, seqNo) }

    method Append(event: OutboxEvent) returns (stored: OutboxEvent)
      modifies this
      ensures Value() == Appended(old(Value()), event) && stored == Stored(old(Value()), event)
    {
      seqNo := seqNo + 1;
      stored := OutboxEvent(event.id, seqNo, event.body, event.deliveredAt);
      items := items[stored.id := stored];
    }

    method ListSince(since: int, limit: int) returns (page: seq<OutboxEvent>)
      requires Valid(Value())
      ensures IsPage(page, items, since, limit)
    {
      var ks := Keys(items);
      var found: seq<OutboxEvent> := [];
      for i := 0 to |ks|
        invariant forall a, b | 0 <= a < b < |found| :: found[a].eventId != found[b].eventId
        invariant forall e :: e in found <==> e.eventId > since && e.id in ks[..i] && e.id in items && items[e.id] == e
      {
        assert ks[i] in ks;
        assert ks[..i + 1] == ks[..i] + [ks[i]];
        var e := items[ks[i]];
        if e.eventId > since {
          forall a | 0 <= a < |found| ensures found[a].eventId != e.eventId {
            assert found[a] in found;
          }
          found := found + [e];
        }
      }
      assert ks[..|ks|] == ks;
      var sorted := Ordering.Sort(ByEventId, found);
      SortedPending(sorted, found, items, since);
      page := Slice(sorted, limit);
    }

    method MarkDelivered(ids: seq<string>, at: int)
      modifies this
      ensures Value() == old(Value()).(items := Mark(old(items), ids, at))
    {
      for i := 0 to |ids|
        invariant seqNo == old(seqNo) && items == Mark(old(items), ids[..i], at)
      {
        assert ids[..i + 1][..i] == ids[..i];
        if ids[i] in items && items[ids[i]].deliveredAt.None? {
          items := items[ids[i] := items[ids[i]].(deliveredAt := Some(at))];
        }
      }
      assert ids[..|ids|] == ids;
    }

    method HeadEventId() returns (head: nat)
      ensures head == Value().head
    {
      head := seqNo;
    }

    method DeleteDeliveredBefore(cutoff: int) returns (count: nat)
      modifies this
      ensures Value() == old(Value()).(items := DeleteBefore(old(items), cutoff))
      ensures count == |old(items)| - |items|
    {
      var victims := set k | k in items && Expired(items[k], cutoff);
      count := |victims|;
      var rest := victims;
      while rest != {}
        invariant rest <= victims && seqNo == old(seqNo)
        invariant items == Without(old(items), victims - rest)
        decreases |rest|
      {
        var k :| k in rest;
        WithoutMore(old(items), victims - rest, k);
        assert victims - rest + {k} == victims - (rest - {k});
        items := Drop(items, k);
        rest := rest - {k};
      }
      assert victims - rest == victims;
      WithoutVictims(old(items), victims, cutoff);
    }
  }

  function Without(items: Items, gone: set<string>): Items {
    map k | k in items && k !in gone :: items[k]
  }

  lemma WithoutMore(items: Items, gone: set<string>, k: string)
    ensures Drop(Without(items, gone), k) == Without(items, gone + {k})
    ensures Without(items, {}) == items
  {
  }

  lemma WithoutVictims(items: Items, victims: set<string>, cutoff: int)
    requires victims == set k | k in items && Expired(items[k], cutoff)
    ensures Without(items, victims) == DeleteBefore(items, cutoff)
    ensures |Without(items, victims)| == |items| - |victims|
  {
    assert Without(items, victims).Keys == items.Keys - victims;
    assert |items.Keys - victims| == |items.Keys| - |victims|;
  }

  lemma SortedPending(sorted: seq<OutboxEvent>, found: seq<OutboxEvent>, items: Items, since: int)
    requires sorted == Ordering.Sort(ByEventId, found)
    requires forall a, b | 0 <= a < b < |found| :: found[a].eventId != found[b].eventId
    requires forall e :: e in found <==> e.eventId > since && e.id in items && items[e.id] == e
    ensures Pending(sorted, items, since)
  {
    Ordering.SortSorts(ByEventId, found);
    StrictlySorted(sorted, found);
  }

  lemma StrictlySorted(sorted: seq<OutboxEvent>, found: seq<OutboxEvent>)
    requires Ordering.Sorted(ByEventId, sorted) && multiset(sorted) == multiset(found)
    requires forall a, b | 0 <= a < b < |found| :: found[a].eventId != found[b].eventId
    ensures Increasing(sorted)
  {
    forall i, j | 0 <= i < j < |sorted| ensures sorted[i].eventId < sorted[j].eventId {
      assert ByEventId(sorted[i], sorted[j]);
      if sorted[i].eventId == sorted[j].eventId {
        assert sorted[i] in multiset(found) && sorted[j] in multiset(found);
        SameEvent(found, sorted[i], sorted[j]);
        Ordering.Twice(sorted, i, j);
        Ordering.Once(found, (e: OutboxEvent) => e.eventId, sorted[i]);
      }
    }
  }

  lemma SameEvent(found: seq<OutboxEvent>, d: OutboxEvent, e: OutboxEvent)
    requires forall a, b | 0 <= a < b < |found| :: found[a].eventId != found[b].eventId
    requires d in found && e in found && d.eventId == e.eventId
    ensures d == e
  {
    var a :| 0 <= a < |found| && found[a] == d;
    var b :| 0 <= b < |found| && found[b] == e;
    assert a == b;
  }

  // ---- A reader among writers -----------------------------------------------------------

  // The reader asks for events past its cursor and moves the cursor to the last one received.
  // `appended` records every event as it was stored.
  datatype World = World(log: Log, cursor: nat, received: seq<OutboxEvent>, appended: seq<OutboxEvent>)

  datatype Action =
    | DoAppend(event: OutboxEvent)
    | DoMark(ids: seq<string>, at: int)
    | DoDelete(cutoff: int)
    | DoRead(limit: int)

  const START := World(Log(map[], 0), 0, [], [])

  ghost predicate Next(w: World, a: Action, v: World) {
    match a
    case DoAppend(e) =>
      e.id !in w.log.items &&
      v == w.(log := Appended(w.log, e), appended := w.appended + [Stored(w.log, e)])
    case DoMark(ids, at) => v == w.(log := w.log.(items := Mark(w.log.items, ids, at)))
    case DoDelete(cutoff) => v == w.(log := w.log.(items := DeleteBefore(w.log.items, cutoff)))
    case DoRead(limit) =>
      exists page :: IsPage(page, w.log.items, w.cursor, limit) && v == Receive(w, page)
  }

  function Receive(w: World, page: seq<OutboxEvent>): World {
    if page == [] then w
    else w.(cursor := page[|page| - 1].eventId, received := w.received + page)
  }

  ghost predicate Run(ws: seq<World>, actions: seq<Action>) {
    && |ws| == |actions| + 1 && ws[0] == START
    && forall i | 0 <= i < |actions| :: Next(ws[i], actions[i], ws[i + 1])
  }

  /** e is the event that was appended as number e.eventId, perhaps since marked delivered. */
  ghost predicate IsAppended(w: World, e: OutboxEvent) {
    1 <= e.eventId <= |w.appended| && w.appended[e.eventId - 1].(deliveredAt := e.deliveredAt) == e
  }

  ghost predicate WasReceived(w: World, e: OutboxEvent) {
    exists r :: r in w.received && r.eventId == e.eventId
  }

  /** What every run keeps: the reader has received, once each and in order, events that were
      really appended, and among them every event still stored at or below its cursor. */
  ghost predicate ExactlyOnce(w: World) {
    && Valid(w.log) && |w.appended| == w.log.head && w.cursor <= w.log.head
    && (forall i | 0 <= i < |w.appended| :: w.appended[i].eventId == i + 1)
    && (forall k | k in w.log.items :: IsAppended(w, w.log.items[k]))
    && Increasing(w.received)
    && (forall r | r in w.received :: IsAppended(w, r) && r.eventId <= w.cursor)
    && (forall k | k in w.log.items && w.log.items[k].eventId <= w.cursor :: WasReceived(w, w.log.items[k]))
  }

  lemma SliceIsPrefix(all: seq<OutboxEvent>, limit: int)
    ensures Slice(all, limit) <= all
  {
  }

  /** Pages continue the received sequence in order. */
  lemma PageContinues(received: seq<OutboxEvent>, page: seq<OutboxEvent>, cursor: nat)
    requires Increasing(received) && Increasing(page)
    requires forall r | r in received :: r.eventId <= cursor
    requires forall e | e in page :: e.eventId > cursor
    ensures Increasing(received + page)
  {
    var all := received + page;
    forall i, j | 0 <= i < j < |all| ensures all[i].eventId < all[j].eventId {
      if i < |received| { assert received[i] in received; }
      if j >= |received| { assert page[j - |received|] in page; }
    }
  }

  /** Whatever is pending up to the end of the page is on the page. */
  lemma PageCovers(all: seq<OutboxEvent>, page: seq<OutboxEvent>, e: OutboxEvent)
    requires Increasing(all) && page <= all && page != [] && e in all && e.eventId <= page[|page| - 1].eventId
    ensures e in page
  {
    var i :| 0 <= i < |all| && all[i] == e;
    var n := |page| - 1;
    assert page[n] == all[n];
    assert i <= n;
    assert page[i] == e;
  }

  /** A page is increasing, past the cursor, and made of appended events. */
  lemma PageFacts(w: World, limit: int, page: seq<OutboxEvent>)
    requires ExactlyOnce(w) && IsPage(page, w.log.items, w.cursor, limit)
    ensures Increasing(page) && forall e | e in page :: e.eventId > w.cursor && IsAppended(w, e)
    ensures page != [] ==>
              forall k | k in w.log.items && w.log.items[k].eventId <= page[|page| - 1].eventId ::
                WasReceived(Receive(w, page), w.log.items[k])
  {
    var all :| Pending(all, w.log.items, w.cursor) && page == Slice(all, limit);
    SliceIsPrefix(all, limit);
    forall e | e in page ensures e.eventId > w.cursor && IsAppended(w, e) {
      var i :| 0 <= i < |page| && page[i] == e;
      assert all[i] == e && e in all;
    }
    if page != [] { ReadCovers(w, all, page); }
  }

  lemma ReceiveKeeps(w: World, page: seq<OutboxEvent>)
    requires ExactlyOnce(w) && page != [] && Increasing(page)
    requires forall e | e in page :: e.eventId > w.cursor && IsAppended(w, e)
    requires forall k | k in w.log.items && w.log.items[k].eventId <= page[|page| - 1].eventId ::
               WasReceived(Receive(w, page), w.log.items[k])
    ensures ExactlyOnce(Receive(w, page))
  {
    var n := |page| - 1;
    assert page[n] in page;
    forall e | e in page ensures e.eventId <= page[n].eventId {
      var i :| 0 <= i < |page| && page[i] == e;
    }
    PageContinues(w.received, page, w.cursor);
    assert forall e | e in w.received + page :: e in w.received || e in page;
  }

  lemma ReadKeeps(w: World, limit: int, page: seq<OutboxEvent>)
    requires ExactlyOnce(w) && IsPage(page, w.log.items, w.cursor, limit)
    ensures ExactlyOnce(Receive(w, page))
  {
    PageFacts(w, limit, page);
    if page != [] { ReceiveKeeps(w, page); }
  }

  lemma ReadCovers(w: World, all: seq<OutboxEvent>, page: seq<OutboxEvent>)
    requires ExactlyOnce(w) && Pending(all, w.log.items, w.cursor) && page <= all && page != []
    ensures var v := Receive(w, page);
            forall k | k in v.log.items && v.log.items[k].eventId <= v.cursor :: WasReceived(v, v.log.items[k])
  {
    var v := Receive(w, page);
    forall k | k in v.log.items && v.log.items[k].eventId <= v.cursor ensures WasReceived(v, v.log.items[k]) {
      var e := w.log.items[k];
      if e.eventId <= w.cursor {
        var r :| r in w.received && r.eventId == e.eventId;
        assert r in v.received;
      } else {
        PageCovers(all, page, e);
        assert e in v.received;
      }
    }
  }

  lemma AppendKeeps(w: World, e: OutboxEvent)
    requires ExactlyOnce(w) && e.id !in w.log.items
    ensures ExactlyOnce(w.(log := Appended(w.log, e), appended := w.appended + [Stored(w.log, e)]))
  {
    var v := w.(log := Appended(w.log, e), appended := w.appended + [Stored(w.log, e)]);
    OperationsKeepValid(w.log, e, [], 0, 0);
    forall k | k in v.log.items
      ensures IsAppended(v, v.log.items[k])
      ensures v.log.items[k].eventId <= v.cursor ==> WasReceived(v, v.log.items[k])
    {
      if k != e.id {
        assert IsAppended(w, w.log.items[k]);
        if w.log.items[k].eventId <= w.cursor {
          var r :| r in w.received && r.eventId == w.log.items[k].eventId;
          assert r in v.received;
        }
      }
    }
    forall r | r in v.received ensures IsAppended(v, r) { assert IsAppended(w, r); }
  }

  /** Marking and deleting keep it too: each stored event keeps its number and body. */
  lemma ShrinkKeeps(w: World, items: Items)
    requires ExactlyOnce(w) && Valid(w.log.(items := items))
    requires forall k | k in items ::
      k in w.log.items && items[k] == w.log.items[k].(deliveredAt := items[k].deliveredAt)
    ensures ExactlyOnce(w.(log := w.log.(items := items)))
  {
    var v := w.(log := w.log.(items := items));
    forall k | k in items
      ensures IsAppended(v, items[k]) && (items[k].eventId <= v.cursor ==> WasReceived(v, items[k]))
    {
      assert IsAppended(w, w.log.items[k]);
      if items[k].eventId <= w.cursor {
        assert WasReceived(w, w.log.items[k]);
        var r :| r in w.received && r.eventId == items[k].eventId;
        assert r in v.received;
      }
    }
    forall r | r in v.received ensures IsAppended(v, r) { assert IsAppended(w, r); }
  }

  lemma NextKeeps(w: World, a: Action, v: World)
    requires ExactlyOnce(w) && Next(w, a, v)
    ensures ExactlyOnce(v)
  {
    match a
    case DoAppend(e) => AppendKeeps(w, e);
    case DoMark(ids, at) =>
      MarkOnlyMarks(w.log.items, ids, at);
      OperationsKeepValid(w.log, OutboxEvent("", 0, Body(0, "", "", None, map[], 0, None), None), ids, at, 0);
      ShrinkKeeps(w, Mark(w.log.items, ids, at));
    case DoDelete(cutoff) =>
      OperationsKeepValid(w.log, OutboxEvent("", 0, Body(0, "", "", None, map[], 0, None), None), [], 0, cutoff);
      ShrinkKeeps(w, DeleteBefore(w.log.items, cutoff));
    case DoRead(limit) =>
      var page :| IsPage(page, w.log.items, w.cursor, limit) && v == Receive(w, page);
      ReadKeeps(w, limit, page);
  }

  /** Over every interleaving: exactly once, in order, nothing visible skipped. */
  lemma {:induction false} ReaderIsExactlyOnce(ws: seq<World>, actions: seq<Action>, i: nat)
    requires Run(ws, actions) && i < |ws|
    ensures ExactlyOnce(ws[i])
  {
    if i == 0 {
    } else {
      ReaderIsExactlyOnce(ws, actions, i - 1);
      NextKeeps(ws[i - 1], actions[i - 1], ws[i]);
    }
  }

  // ---- Nothing is missed ---------------------------------------------------------------

  /** Only events the reader has passed are marked delivered, and none is born delivered. */
  ghost predicate Disciplined(w: World, a: Action) {
    match a
    case DoAppend(e) => e.deliveredAt.None?
    case DoMark(ids, _) => forall id | id in ids && id in w.log.items :: w.log.items[id].eventId <= w.cursor
    case _ => true
  }

  /** The reader has received precisely the first `cursor` events, as they were appended, and
      every later one is still stored, undelivered. */
  ghost predicate NothingMissed(w: World) {
    && ExactlyOnce(w)
    && w.received == w.appended[..w.cursor]
    && forall i | w.cursor <= i < |w.appended| ::
         w.appended[i].id in w.log.items && w.log.items[w.appended[i].id] == w.appended[i]
         && w.appended[i].deliveredAt.None?
  }

  /** Then a page is the next stretch of the log. */
  lemma PendingIsTheRest(w: World, all: seq<OutboxEvent>)
    requires NothingMissed(w) && Pending(all, w.log.items, w.cursor)
    ensures all == w.appended[w.cursor..]
  {
    var rest := w.appended[w.cursor..];
    RestIncreases(w);
    forall e ensures e in all <==> e in rest {
      if e in all { InRest(w, e); }
    }
    IncreasingUnique(all, rest);
  }

  lemma RestIncreases(w: World)
    requires NothingMissed(w)
    ensures Increasing(w.appended[w.cursor..])
    ensures forall e | e in w.appended[w.cursor..] ::
      e.id in w.log.items && w.log.items[e.id] == e && e.eventId > w.cursor
  {
    forall e | e in w.appended[w.cursor..]
      ensures e.id in w.log.items && w.log.items[e.id] == e && e.eventId > w.cursor
    {
      var i :| w.cursor <= i < |w.appended| && w.appended[i] == e;
      assert w.appended[i].eventId == i + 1;
    }
    assert forall i | 0 <= i < |w.appended| - w.cursor :: w.appended[w.cursor..][i].eventId == w.cursor + i + 1;
  }

  lemma InRest(w: World, e: OutboxEvent)
    requires NothingMissed(w) && e.id in w.log.items && w.log.items[e.id] == e && e.eventId > w.cursor
    ensures e in w.appended[w.cursor..]
  {
    assert IsAppended(w, e);
    var i := e.eventId - 1;
    assert w.appended[i].id == e.id;
    assert e == w.appended[i] == w.appended[w.cursor..][i - w.cursor];
  }

  lemma {:induction false} IncreasingUnique(a: seq<OutboxEvent>, b: seq<OutboxEvent>)
    requires Increasing(a) && Increasing(b) && forall e :: e in a <==> e in b
    ensures a == b
  {
    assert a != [] ==> a[0] in b;
    assert b != [] ==> b[0] in a;
    if a == [] {
    } else {
      assert a[0] == b[0];
      forall e ensures e in a[1..] <==> e in b[1..] {
        if e in a[1..] { InTail(a, b, e); }
        if e in b[1..] { InTail(b, a, e); }
      }
      IncreasingUnique(a[1..], b[1..]);
    }
  }

  lemma InTail(a: seq<OutboxEvent>, b: seq<OutboxEvent>, e: OutboxEvent)
    requires a != [] && b != [] && Increasing(a) && a[0] == b[0] && e in a[1..] && e in b
    ensures e in b[1..]
  {
    var i :| 0 <= i < |a[1..]| && a[1..][i] == e;
    assert a[i + 1] == e;
    var j :| 0 <= j < |b| && b[j] == e;
    assert b[1..][j - 1] == e;
  }

  lemma NextStretch(log: seq<OutboxEvent>, cursor: nat, page: seq<OutboxEvent>)
    requires cursor <= |log| && page <= log[cursor..]
    ensures cursor + |page| <= |log| && log[..cursor] + page == log[..cursor + |page|]
    ensures page != [] ==> page[|page| - 1] == log[cursor + |page| - 1]
  {
  }

  lemma PageIsNextStretch(w: World, limit: int, page: seq<OutboxEvent>)
    requires NothingMissed(w) && IsPage(page, w.log.items, w.cursor, limit)
    ensures page <= w.appended[w.cursor..]
    ensures limit >= 1 ==> |page| == (if w.cursor + limit < |w.appended| then limit else |w.appended| - w.cursor)
  {
    var all :| Pending(all, w.log.items, w.cursor) && page == Slice(all, limit);
    PendingIsTheRest(w, all);
    SliceIsPrefix(all, limit);
  }

  lemma ReadMissesNothing(w: World, limit: int, page: seq<OutboxEvent>)
    requires NothingMissed(w) && IsPage(page, w.log.items, w.cursor, limit)
    ensures NothingMissed(Receive(w, page))
  {
    var v := Receive(w, page);
    assert v.cursor >= w.cursor && v.received == v.appended[..v.cursor] by {
      PageIsNextStretch(w, limit, page);
      NextStretch(w.appended, w.cursor, page);
    }
    assert ExactlyOnce(v) by { ReadKeeps(w, limit, page); }
  }

  /** A read moves the cursor past the next `limit` events, or to the head: repeated reads
      reach the head. */
  lemma ReadAdvances(w: World, limit: int, page: seq<OutboxEvent>)
    requires NothingMissed(w) && IsPage(page, w.log.items, w.cursor, limit) && limit >= 1
    ensures Receive(w, page).cursor == (if w.cursor + limit < w.log.head then w.cursor + limit else w.log.head)
  {
    PageIsNextStretch(w, limit, page);
    NextStretch(w.appended, w.cursor, page);
  }

  lemma AppendMissesNothing(w: World, e: OutboxEvent, v: World)
    requires NothingMissed(w) && Next(w, DoAppend(e), v) && e.deliveredAt.None?
    ensures NothingMissed(v)
  {
    assert ExactlyOnce(v) by { AppendKeeps(w, e); }
    assert v.received == v.appended[..v.cursor] by { SamePrefix(w.appended, Stored(w.log, e), w.cursor); }
    forall i | v.cursor <= i < |v.appended|
      ensures v.appended[i].id in v.log.items && v.log.items[v.appended[i].id] == v.appended[i]
      ensures v.appended[i].deliveredAt.None?
    {
      AppendedStored(w, e, i);
    }
  }

  lemma SamePrefix<T>(s: seq<T>, x: T, k: nat)
    requires k <= |s|
    ensures (s + [x])[..k] == s[..k]
  {
  }

  lemma AppendedStored(w: World, e: OutboxEvent, i: nat)
    requires NothingMissed(w) && e.id !in w.log.items && e.deliveredAt.None?
    requires w.cursor <= i <= |w.appended|
    ensures var all := w.appended + [Stored(w.log, e)]; var items := Appended(w.log, e).items;
      all[i].id in items && items[all[i].id] == all[i] && all[i].deliveredAt.None?
  {
    if i < |w.appended| { assert w.appended[i].id in w.log.items; }
  }

  lemma NextMissesNothing(w: World, a: Action, v: World)
    requires NothingMissed(w) && Next(w, a, v) && Disciplined(w, a)
    ensures NothingMissed(v)
  {
    NextKeeps(w, a, v);
    match a
    case DoAppend(e) => AppendMissesNothing(w, e, v);
    case DoMark(ids, at) =>
      MarkOnlyMarks(w.log.items, ids, at);
      forall i | v.cursor <= i < |v.appended|
        ensures v.appended[i].id in v.log.items && v.log.items[v.appended[i].id] == v.appended[i]
      {
        assert w.appended[i].id in w.log.items && w.log.items[w.appended[i].id].eventId == i + 1;
      }
    case DoDelete(cutoff) =>
      forall i | v.cursor <= i < |v.appended|
        ensures v.appended[i].id in v.log.items && v.log.items[v.appended[i].id] == v.appended[i]
      {
        assert w.appended[i].id in w.log.items;
      }
    case DoRead(limit) =>
      var page :| IsPage(page, w.log.items, w.cursor, limit) && v == Receive(w, page);
      ReadMissesNothing(w, limit, page);
  }

  /** If only passed events are marked delivered, then whatever is interleaved the reader has
      received exactly the appended log up to its cursor. */
  lemma {:induction false} DisciplinedReaderMissesNothing(ws: seq<World>, actions: seq<Action>, i: nat)
    requires Run(ws, actions) && i < |ws|
    requires forall k | 0 <= k < |actions| :: Disciplined(ws[k], actions[k])
    ensures NothingMissed(ws[i])
    ensures ws[i].received == ws[i].appended[..ws[i].cursor]
  {
    if i == 0 {
    } else {
      DisciplinedReaderMissesNothing(ws, actions, i - 1);
      NextMissesNothing(ws[i - 1], actions[i - 1], ws[i]);
    }
  }

  // ---- Exactly which events are missed -----------------------------------------------------

  /** Event number m is in the log. */
  ghost predicate IsStored(w: World, m: nat) { exists k :: HasNumber(w.log.items, k, m) }

  predicate HasNumber(items: Items, k: string, m: nat) { k in items && items[k].eventId == m }

  ghost predicate IsReceived(w: World, m: nat) { exists r :: r in w.received && r.eventId == m }

  /** Step j is a retention delete that takes event m before the cursor has reached it. */
  ghost predicate LostAt(ws: seq<World>, actions: seq<Action>, j: int, m: nat)
    requires |ws| == |actions| + 1
  {
    && 0 <= j < |actions| && actions[j].DoDelete?
    && IsStored(ws[j], m) && !IsStored(ws[j + 1], m) && ws[j].cursor < m
  }

  ghost predicate Lost(ws: seq<World>, actions: seq<Action>, i: nat, m: nat)
    requires |ws| == |actions| + 1
  {
    exists j :: j < i && LostAt(ws, actions, j, m)
  }

  /** What one step does to event m. */
  ghost predicate Fate(w: World, a: Action, v: World, m: nat) {
    && (IsStored(v, m) ==> IsStored(w, m) || m == |w.appended| + 1)
    && (IsStored(w, m) && !IsStored(v, m) ==> a.DoDelete?)
    && (IsReceived(w, m) ==> IsReceived(v, m))
    && (IsReceived(v, m) ==> IsReceived(w, m) || IsStored(w, m))
    && (m <= |v.appended| ==> m <= |w.appended| || IsStored(v, m))
    && |w.appended| <= |v.appended|
  }

  lemma AppendFate(w: World, e: OutboxEvent, v: World, m: nat)
    requires ExactlyOnce(w) && Next(w, DoAppend(e), v)
    ensures Fate(w, DoAppend(e), v, m)
  {
    if k :| HasNumber(w.log.items, k, m) { assert HasNumber(v.log.items, k, m); }
    if k :| HasNumber(v.log.items, k, m) { assert k == e.id || HasNumber(w.log.items, k, m); }
    assert HasNumber(v.log.items, e.id, w.log.head + 1);
  }

  lemma MarkFate(w: World, ids: seq<string>, at: int, v: World, m: nat)
    requires Next(w, DoMark(ids, at), v)
    ensures Fate(w, DoMark(ids, at), v, m)
  {
    MarkOnlyMarks(w.log.items, ids, at);
    assert forall k :: HasNumber(v.log.items, k, m) <==> HasNumber(w.log.items, k, m);
  }

  lemma DeleteFate(w: World, cutoff: int, v: World, m: nat)
    requires Next(w, DoDelete(cutoff), v)
    ensures Fate(w, DoDelete(cutoff), v, m)
  {
    assert forall k :: HasNumber(v.log.items, k, m) ==> HasNumber(w.log.items, k, m);
  }

  lemma ReadFate(w: World, limit: int, v: World, m: nat)
    requires Next(w, DoRead(limit), v)
    ensures Fate(w, DoRead(limit), v, m)
  {
    var page :| IsPage(page, w.log.items, w.cursor, limit) && v == Receive(w, page);
    var all :| Pending(all, w.log.items, w.cursor) && page == Slice(all, limit);
    SliceIsPrefix(all, limit);
    if r :| r in w.received && r.eventId == m { assert r in v.received; }
    if r :| r in v.received && r.eventId == m {
      if r !in w.received {
        assert r in page && r in all;
        assert HasNumber(w.log.items, r.id, m);
      }
    }
  }

  lemma StepFate(w: World, a: Action, v: World, m: nat)
    requires ExactlyOnce(w) && Next(w, a, v)
    ensures Fate(w, a, v, m)
  {
    match a
    case DoAppend(e) => AppendFate(w, e, v, m);
    case DoMark(ids, at) => MarkFate(w, ids, at, v, m);
    case DoDelete(cutoff) => DeleteFate(w, cutoff, v, m);
    case DoRead(limit) => ReadFate(w, limit, v, m);
  }

  /** Below the cursor the log and the reader are never both without an event by a delete. */
  lemma StoredBelowCursor(w: World, m: nat)
    requires ExactlyOnce(w)
    ensures IsStored(w, m) && m <= w.cursor ==> IsReceived(w, m)
    ensures IsReceived(w, m) ==> m <= w.cursor
    ensures IsStored(w, m) ==> 1 <= m <= |w.appended|
  {
    if k :| HasNumber(w.log.items, k, m) {
      if m <= w.cursor {
        assert WasReceived(w, w.log.items[k]);
      }
    }
  }

  /** An appended event is gone unreceived exactly when a delete took it past the cursor. */
  lemma {:induction false} GoneIff(ws: seq<World>, actions: seq<Action>, i: nat, m: nat)
    requires Run(ws, actions) && i < |ws|
    ensures 1 <= m <= |ws[i].appended| && !IsStored(ws[i], m) && !IsReceived(ws[i], m) <==> Lost(ws, actions, i, m)
  {
    if i == 0 {
    } else {
      var w, a, v := ws[i - 1], actions[i - 1], ws[i];
      GoneIff(ws, actions, i - 1, m);
      ReaderIsExactlyOnce(ws, actions, i - 1);
      assert Next(w, a, v);
      StepFate(w, a, v, m);
      StoredBelowCursor(w, m);
      LostStep(ws, actions, i, m);
    }
  }

  lemma LostStep(ws: seq<World>, actions: seq<Action>, i: nat, m: nat)
    requires |ws| == |actions| + 1 && 0 < i < |ws|
    ensures Lost(ws, actions, i, m) <==> Lost(ws, actions, i - 1, m) || LostAt(ws, actions, i - 1, m)
  {
  }

  /** Over every interleaving: an event at or below the cursor was not received if and only if a
      delete took it while its number was still past the cursor. */
  lemma MissedIff(ws: seq<World>, actions: seq<Action>, i: nat, m: nat)
    requires Run(ws, actions) && i < |ws| && 1 <= m <= ws[i].cursor
    ensures !IsReceived(ws[i], m) <==> Lost(ws, actions, i, m)
  {
    GoneIff(ws, actions, i, m);
    ReaderIsExactlyOnce(ws, actions, i);
    StoredBelowCursor(ws[i], m);
  }

  // ---- What is stored is what was appended --------------------------------------------------

  /** The events handed to `append`, in order. */
  function AppendsOf(actions: seq<Action>): seq<OutboxEvent> {
    if actions == [] then []
    else
      var n := |actions| - 1;
      AppendsOf(actions[..n]) + (if actions[n].DoAppend? then [actions[n].event] else [])
  }

  /** The stored event carries the caller's id, body and delivery time under its own number. */
  ghost predicate Carries(stored: OutboxEvent, e: OutboxEvent, number: int) {
    stored.id == e.id && stored.body == e.body && stored.deliveredAt == e.deliveredAt && stored.eventId == number
  }

  /** The m-th event of the log is the m-th that was appended, numbered m. */
  lemma {:induction false} LogIsWhatWasAppended(ws: seq<World>, actions: seq<Action>, i: nat)
    requires Run(ws, actions) && i < |ws|
    ensures var given := AppendsOf(actions[..i]);
      && |ws[i].appended| == |given| == ws[i].log.head
      && forall m | 0 <= m < |given| :: Carries(ws[i].appended[m], given[m], m + 1)
  {
    if i == 0 {
    } else {
      LogIsWhatWasAppended(ws, actions, i - 1);
      assert actions[..i][..i - 1] == actions[..i - 1];
      assert Next(ws[i - 1], actions[i - 1], ws[i]);
    }
  }

  /** So every event that is stored, or that the reader has received, has the id and the body of
      the `append` its number says. */
  lemma EventsAreAppended(ws: seq<World>, actions: seq<Action>, i: nat, e: OutboxEvent)
    requires Run(ws, actions) && i < |ws|
    requires e in ws[i].received || exists k :: k in ws[i].log.items && ws[i].log.items[k] == e
    ensures var given := AppendsOf(actions[..i]);
      1 <= e.eventId <= |given| && e.id == given[e.eventId - 1].id && e.body == given[e.eventId - 1].body
  {
    ReaderIsExactlyOnce(ws, actions, i);
    LogIsWhatWasAppended(ws, actions, i);
    assert IsAppended(ws[i], e);
    assert Carries(ws[i].appended[e.eventId - 1], AppendsOf(actions[..i])[e.eventId - 1], e.eventId);
  }

  /** A retention delete takes exactly the events delivered before the cutoff. */
  lemma DeletesExactlyOld(items: Items, cutoff: int)
    ensures forall k | k in items ::
      (k !in DeleteBefore(items, cutoff) <==> exists t :: items[k].deliveredAt == Some(t) && t < cutoff)
      && (k in DeleteBefore(items, cutoff) ==> DeleteBefore(items, cutoff)[k] == items[k])
    ensures DeleteBefore(items, cutoff).Keys <= items.Keys
  {
    forall k | k in items
      ensures k !in DeleteBefore(items, cutoff) <==> exists t :: items[k].deliveredAt == Some(t) && t < cutoff
    {
      if items[k].deliveredAt.Some? { assert items[k].deliveredAt == Some(items[k].deliveredAt.value); }
    }
  }

  /** A limit takes that many from the front; a negative one leaves that many off the end. */
  lemma SliceTakes<T>(s: seq<T>, limit: int)
    ensures Slice(s, limit) <= s
    ensures limit >= 0 ==> |Slice(s, limit)| == if limit <= |s| then limit else |s|
    ensures limit < 0 ==> |Slice(s, limit)| == if |s| + limit >= 0 then |s| + limit else 0
  {
  }
}
