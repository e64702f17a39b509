/** The notifications feature: the query cache of server notifications that
    websocket frames extend, the latest-timestamp lookup used to ask the
    server for newer notifications, and the client-only read/new metadata
    slice. */
module Notifications {
  import opened Wrappers
  import opened StringOrder
  import opened Sorting
  import opened EntityAdapter

  /** One notification as the server sends it. */
  datatype ServerNotification = ServerNotification(id: Id, date: string, message: string, user: string)

  /** Client-only flags kept per notification id. */
  datatype NotificationMetadata = NotificationMetadata(id: Id, read: bool, isNew: bool)

  type MetadataState = EntityState<NotificationMetadata>

  /** A websocket message after `JSON.parse`: its `type` and its `payload`. */
  datatype Frame = Frame(kind: string, payload: seq<ServerNotification>)

  /** The only frame type the handler acts on. */
  const NotificationsFrame := "notifications"

  function DateOf(n: ServerNotification): string {
    n.date
  }

  /** The adapter invariant, and each metadata record sits under its own id. */
  predicate MetadataValid(s: MetadataState) {
    && Valid(s)
    && forall id :: id in s.entities ==> s.entities[id].id == id
  }

  /** The ids a batch of notifications carries. */
  function PayloadIds(payload: seq<ServerNotification>): set<Id> {
    set k | 0 <= k < |payload| :: payload[k].id
  }

  // ---------------------------------------------------------------------
  // Query cache

  /** `draft.push(...payload)` followed by the newest-first sort. Nothing is
      de-duplicated: a re-delivered notification appears twice. */
  function MergeIntoCache(cache: seq<ServerNotification>, payload: seq<ServerNotification>): (r: seq<ServerNotification>)
    ensures SortedDesc(r, DateOf)
    ensures multiset(r) == multiset(cache) + multiset(payload)
    ensures |r| == |cache| + |payload|
  {
    Sort(cache + payload, DateOf)
  }

  /** `selectNotificationsData` then the `latestNotification?.date ?? ''`
      lookup: the first cached notification's date, `""` when there is none. */
  function LatestTimestamp(data: Option<seq<ServerNotification>>): (r: string)
    ensures data.None? ==> r == ""
    ensures data.Some? && |data.value| == 0 ==> r == ""
    ensures data.Some? && |data.value| > 0 ==> r == data.value[0].date && r in set n | n in data.value :: n.date
    ensures data.Some? && SortedDesc(data.value, DateOf) ==> forall n :: n in data.value ==> Le(n.date, r)
  {
    var notifications := data.GetOr([]);
    if |notifications| == 0 then ""
    else
      HeadIsNewest(notifications, DateOf);
      notifications[0].date
  }

  // ---------------------------------------------------------------------
  // Metadata slice

  /** The slice's `initialState`: an empty adapter state, which satisfies
      the invariant every reducer preserves. */
  function InitialMetadata(): (r: MetadataState)
    ensures MetadataValid(r)
    ensures r.ids == [] && r.entities == map[]
  {
    Empty()
  }

  /** The `{read: false, isNew: true}` record built for each received notification. */
  function FreshMetadata(payload: seq<ServerNotification>): (r: seq<(Id, NotificationMetadata)>)
    ensures |r| == |payload|
    ensures BatchIds(r) == PayloadIds(payload)
    ensures forall k :: 0 <= k < |r| ==> r[k] == (payload[k].id, NotificationMetadata(payload[k].id, false, true))
  {
    var r := seq(|payload|, k requires 0 <= k < |payload| => (payload[k].id, NotificationMetadata(payload[k].id, false, true)));
    assert forall k :: 0 <= k < |r| ==> r[k].0 == payload[k].id;
    r
  }

  /** The demotion pass: every existing record gets `isNew := !read`. */
  function Demote(s: MetadataState): (r: MetadataState)
    ensures r.ids == s.ids && r.entities.Keys == s.entities.Keys
    ensures forall id :: id in s.entities ==>
              && r.entities[id].id == s.entities[id].id
              && r.entities[id].read == s.entities[id].read
              && r.entities[id].isNew == !s.entities[id].read
  {
    EntityState(s.ids, map id | id in s.entities :: s.entities[id].(isNew := !s.entities[id].read))
  }

  /** The reducer for a received batch: demote every existing record, then
      upsert `{read: false, isNew: true}` for every notification of the
      batch. The upsert overwrites both flags of an id already present. */
  function ReceiveBatch(s: MetadataState, payload: seq<ServerNotification>): (r: MetadataState)
    ensures r.entities.Keys == s.entities.Keys + PayloadIds(payload)
    ensures forall id :: id in PayloadIds(payload) ==> r.entities[id] == NotificationMetadata(id, false, true)
    ensures forall id :: id in s.entities && id !in PayloadIds(payload) ==>
              && r.entities[id].id == s.entities[id].id
              && r.entities[id].read == s.entities[id].read
              && r.entities[id].isNew == !s.entities[id].read
    ensures |s.ids| <= |r.ids| && r.ids[..|s.ids|] == s.ids
    ensures MetadataValid(s) ==> MetadataValid(r)
  {
    var batch := FreshMetadata(payload);
    FreshMetadataLast(payload);
    assert MetadataValid(s) ==> MetadataValid(Demote(s));
    UpsertMany(Demote(s), batch)
  }

  /** Every record of a fresh batch is unread and new under its own id. */
  lemma FreshMetadataLast(payload: seq<ServerNotification>)
    ensures forall id :: id in PayloadIds(payload) ==>
              LastFor(FreshMetadata(payload), id) == NotificationMetadata(id, false, true)
  {
  }

  /** The `allNotificationsRead` reducer: every record becomes read; `isNew`
      is left for the next demotion pass. */
  function MarkAllRead(s: MetadataState): (r: MetadataState)
    ensures r.ids == s.ids && r.entities.Keys == s.entities.Keys
    ensures forall id :: id in s.entities ==>
              && r.entities[id].read
              && r.entities[id].isNew == s.entities[id].isNew
              && r.entities[id].id == s.entities[id].id
    ensures MetadataValid(s) ==> MetadataValid(r)
  {
    EntityState(s.ids, map id | id in s.entities :: s.entities[id].(read := true))
  }

  /** The actions the metadata slice reacts to; anything else is `Unrelated`. */
  datatype NotificationsAction =
    | AllNotificationsRead
    | NotificationsReceived(payload: seq<ServerNotification>)
    | GetNotificationsFulfilled(payload: seq<ServerNotification>)
    | Unrelated

  /** The slice reducer. `matchNotificationsReceived` sends both a pushed
      batch and the initial fetch's result through the same case. */
  function NotificationsReducer(s: MetadataState, a: NotificationsAction): (r: MetadataState)
    ensures MetadataValid(s) ==> MetadataValid(r)
    ensures a.Unrelated? ==> r == s
    ensures a.AllNotificationsRead? ==> forall id :: id in r.entities ==> r.entities[id].read
    ensures a.NotificationsReceived? || a.GetNotificationsFulfilled? ==>
              r.entities.Keys == s.entities.Keys + PayloadIds(a.payload)
  {
    match a
    case AllNotificationsRead => MarkAllRead(s)
    case NotificationsReceived(payload) => ReceiveBatch(s, payload)
    case GetNotificationsFulfilled(payload) => ReceiveBatch(s, payload)
    case Unrelated => s
  }

  // ---------------------------------------------------------------------
  // Websocket frame handler

  /** The message listener: a `notifications` frame is merged into the cache
      and dispatched to the metadata slice; any other frame type is ignored. */
  function HandleFrame(cache: seq<ServerNotification>, meta: MetadataState, frame: Frame): (r: (seq<ServerNotification>, MetadataState))
    ensures frame.kind != NotificationsFrame ==> r == (cache, meta)
    ensures frame.kind == NotificationsFrame ==>
              && SortedDesc(r.0, DateOf)
              && multiset(r.0) == multiset(cache) + multiset(frame.payload)
              && |r.0| == |cache| + |frame.payload|
    ensures frame.kind == NotificationsFrame ==> r.1 == NotificationsReducer(meta, NotificationsReceived(frame.payload))
    ensures multiset(r.0) == multiset(cache) + multiset(Accepted(frame))
    ensures r.1.entities.Keys == meta.entities.Keys + PayloadIds(Accepted(frame))
    ensures MetadataValid(meta) ==> MetadataValid(r.1)
  {
    if frame.kind == NotificationsFrame then
      (MergeIntoCache(cache, frame.payload), NotificationsReducer(meta, NotificationsReceived(frame.payload)))
    else
      (cache, meta)
  }

  /** The notifications of a frame that the handler acts on. */
  function Accepted(frame: Frame): seq<ServerNotification> {
    if frame.kind == NotificationsFrame then frame.payload else []
  }

  /** All notifications the frames carry that the handler acts on, in order. */
  function AcceptedPayloads(frames: seq<Frame>): seq<ServerNotification> {
    if |frames| == 0 then []
    else AcceptedPayloads(frames[..|frames| - 1]) + Accepted(frames[|frames| - 1])
  }

  /** The frames of one connection handled in the order they arrive. */
  function HandleFrames(cache: seq<ServerNotification>, meta: MetadataState, frames: seq<Frame>): (r: (seq<ServerNotification>, MetadataState))
    decreases |frames|
  {
    if |frames| == 0 then (cache, meta)
    else
      var mid := HandleFrames(cache, meta, frames[..|frames| - 1]);
      HandleFrame(mid.0, mid.1, frames[|frames| - 1])
  }

  /** After any stream of frames the cache holds exactly the old entries and
      every accepted notification, and stays newest first. */
  lemma {:induction false} HandleFramesCache(cache: seq<ServerNotification>, meta: MetadataState, frames: seq<Frame>)
    ensures var r := HandleFrames(cache, meta, frames);
            && multiset(r.0) == multiset(cache) + multiset(AcceptedPayloads(frames))
            && (SortedDesc(cache, DateOf) ==> SortedDesc(r.0, DateOf))
    decreases |frames|
  {
    if |frames| > 0 {
      var n := |frames| - 1;
      HandleFramesCache(cache, meta, frames[..n]);
      var mid := HandleFrames(cache, meta, frames[..n]);
      assert HandleFrames(cache, meta, frames) == HandleFrame(mid.0, mid.1, frames[n]);
      assert AcceptedPayloads(frames) == AcceptedPayloads(frames[..n]) + Accepted(frames[n]);
    }
  }

  /** After any stream of frames the metadata covers the old ids and every
      accepted notification's id, and keeps its invariant. */
  lemma {:induction false} HandleFramesMetadata(cache: seq<ServerNotification>, meta: MetadataState, frames: seq<Frame>)
    ensures var r := HandleFrames(cache, meta, frames);
            && r.1.entities.Keys == meta.entities.Keys + PayloadIds(AcceptedPayloads(frames))
            && (MetadataValid(meta) ==> MetadataValid(r.1))
    decreases |frames|
  {
    if |frames| > 0 {
      var n := |frames| - 1;
      HandleFramesMetadata(cache, meta, frames[..n]);
      var mid := HandleFrames(cache, meta, frames[..n]);
      assert HandleFrames(cache, meta, frames) == HandleFrame(mid.0, mid.1, frames[n]);
      assert AcceptedPayloads(frames) == AcceptedPayloads(frames[..n]) + Accepted(frames[n]);
      PayloadIdsAppend(AcceptedPayloads(frames[..n]), Accepted(frames[n]));
    }
  }

  lemma PayloadIdsSingleton(n: ServerNotification)
    ensures PayloadIds([n]) == {n.id}
  {
    assert [n][0].id == n.id;
  }

  lemma PayloadIdsAppend(a: seq<ServerNotification>, b: seq<ServerNotification>)
    ensures PayloadIds(a + b) == PayloadIds(a) + PayloadIds(b)
  {
    forall id | id in PayloadIds(a + b)
      ensures id in PayloadIds(a) + PayloadIds(b)
    {
      var k :| 0 <= k < |a + b| && (a + b)[k].id == id;
      if k >= |a| {
        assert b[k - |a|].id == id;
      }
    }
    forall id | id in PayloadIds(a) + PayloadIds(b)
      ensures id in PayloadIds(a + b)
    {
      if id in PayloadIds(a) {
        var k :| 0 <= k < |a| && a[k].id == id;
        assert (a + b)[k].id == id;
      } else {
        var k :| 0 <= k < |b| && b[k].id == id;
        assert (a + b)[|a| + k].id == id;
      }
    }
  }

  // ---------------------------------------------------------------------
  // Properties across several operations

  /** After a `notifications` frame the latest timestamp is the newest date
      among the old cache and the frame's payload. */
  lemma LatestAfterFrame(cache: seq<ServerNotification>, meta: MetadataState, frame: Frame)
    requires frame.kind == NotificationsFrame
    requires |cache| + |frame.payload| > 0
    ensures var latest := LatestTimestamp(Some(HandleFrame(cache, meta, frame).0));
            && (forall n :: n in cache + frame.payload ==> Le(n.date, latest))
            && exists n :: n in cache + frame.payload && n.date == latest
  {
    var merged := HandleFrame(cache, meta, frame).0;
    assert merged[0] in multiset(cache + frame.payload);
    forall n | n in cache + frame.payload
      ensures n in merged
    {
      assert n in multiset(merged);
    }
  }

  /** A notification delivered again is not de-duplicated: the cache holds
      one more copy of it, and its metadata is reset to unread and new. */
  lemma RedeliveryDuplicatesAndResets(cache: seq<ServerNotification>, meta: MetadataState, n: ServerNotification)
    requires n in cache && n.id in meta.entities && meta.entities[n.id].read
    ensures var r := HandleFrame(cache, meta, Frame(NotificationsFrame, [n]));
            && multiset(r.0)[n] == multiset(cache)[n] + 1 >= 2
            && r.1.entities[n.id] == NotificationMetadata(n.id, false, true)
  {
    PayloadIdsSingleton(n);
  }

  /** After either received action, every record is new exactly when it is
      unread: the batch's records are unread and new, and the demotion pass
      gives every other record `isNew == !read`. */
  lemma ReceivedFlagsAgree(s: MetadataState, a: NotificationsAction)
    requires a.NotificationsReceived? || a.GetNotificationsFulfilled?
    ensures var r := NotificationsReducer(s, a);
            forall id :: id in r.entities ==> (r.entities[id].isNew <==> !r.entities[id].read)
  {
  }

  /** Marking everything read twice is the same as marking it read once. */
  lemma MarkAllReadIdempotent(s: MetadataState)
    ensures MarkAllRead(MarkAllRead(s)) == MarkAllRead(s)
  {
  }

  /** Once everything is marked read, the next batch clears the new flag of
      every notification it does not carry. */
  lemma ReadThenReceiveClearsNew(s: MetadataState, payload: seq<ServerNotification>)
    requires MetadataValid(s)
    ensures var r := ReceiveBatch(MarkAllRead(s), payload);
            forall id :: id in s.entities && id !in PayloadIds(payload) ==>
              r.entities[id] == NotificationMetadata(id, true, false)
  {
  }

  /** Worked example: receive "a", mark all read, receive "b". */
  lemma ReadThenReceiveScenario(a: ServerNotification, b: ServerNotification)
    requires a.id != b.id
    ensures var s1 := NotificationsReducer(InitialMetadata(), NotificationsReceived([a]));
            var s2 := NotificationsReducer(s1, AllNotificationsRead);
            var s3 := NotificationsReducer(s2, NotificationsReceived([b]));
            && s1.entities[a.id] == NotificationMetadata(a.id, false, true)
            && s2.entities[a.id] == NotificationMetadata(a.id, true, true)
            && s3.entities[a.id] == NotificationMetadata(a.id, true, false)
            && s3.entities[b.id] == NotificationMetadata(b.id, false, true)
            && s3.entities.Keys == {a.id, b.id}
  {
    PayloadIdsSingleton(a);
    PayloadIdsSingleton(b);
    var s1 := NotificationsReducer(InitialMetadata(), NotificationsReceived([a]));
    assert s1.entities.Keys == {a.id} && s1.entities[a.id] == NotificationMetadata(a.id, false, true);
    var s2 := NotificationsReducer(s1, AllNotificationsRead);
    assert s2.entities.Keys == {a.id} && s2.entities[a.id] == NotificationMetadata(a.id, true, true);
    var s3 := NotificationsReducer(s2, NotificationsReceived([b]));
    assert s3 == ReceiveBatch(s2, [b]);
    assert s3.entities[a.id] == NotificationMetadata(a.id, true, false);
  }

  /** The initial fetch's result and a pushed batch update the metadata alike. */
  lemma FetchAndPushAgree(s: MetadataState, payload: seq<ServerNotification>)
    ensures NotificationsReducer(s, GetNotificationsFulfilled(payload))
         == NotificationsReducer(s, NotificationsReceived(payload))
  {
  }
}
