# Notifications and posts slices: a Dafny model

This project models the client-side state transitions of two Redux slices
of the Redux Essentials example app, as pure functions over immutable
values.

- **Notifications.** Three parts are covered:
  - The query cache of server notifications. A websocket `notifications`
    frame appends its payload to this cache and re-sorts it newest first.
  - The latest-timestamp lookup. The app uses it to ask the server for
    newer notifications.
  - The client-only metadata slice. It keeps `{read, isNew}` per
    notification id.
- **Posts.** The model covers the date-sorted entity collection, the
  `fetchPosts` status machine, reaction counters, `addNewPost`, and the
  selectors.

Both slices keep their records in Redux Toolkit's entity adapter, which
stores an ordered `ids` array and an `entities` lookup table. The adapter
is modelled once, in `EntityAdapter`, and has the following semantics:
- `upsertMany` upserts each pair in order, so the last pair for an id wins.
- `addOne` ignores an id that is already present.
- The posts adapter's `sortComparer` puts `ids` back in newest-first order
  after every insert or update.

`localeCompare` on the ISO-8601 date strings is modelled as the
lexicographic order on character codes (`StringOrder`). Sorting is a
generic insertion sort over a string key (`Sorting`). Its contract says
that the result is newest first and is a permutation of the input. It does
not promise any order among equal dates.

Files:
- `wrappers.dfy`: `Option` (JavaScript's `null`/`undefined`) and `Result`.
- `string_order.dfy`: the string order and `Compare`.
- `sorting.dfy`: `SortedDesc`, `NoDuplicates` and the insertion sort.
- `entity_adapter.dfy`: the entity adapter.
- `notifications.dfy`: the notifications feature.
- `posts.dfy`: the posts feature.

The model follows the code in these places:
- **Re-delivered notifications are duplicated.** The cache merge
  (`notificationsSlice.ts:45-46`) pushes the payload without
  de-duplicating. A notification delivered twice is therefore in the cache
  twice (`RedeliveryDuplicatesAndResets`), and merging the same batch twice
  is not idempotent.
- **Re-delivery resets `read`/`isNew`.** The metadata upsert (line 120)
  merges `{read: false, isNew: true}` into an existing record. A
  re-delivered id therefore becomes unread and new again, whatever its
  flags were.

## Model

| member | source | states |
|---|---|---|
| StringOrder.Compare | src/features/posts/postsSlice.js:6 | `localeCompare` is negative exactly when the first string sorts strictly before the second, zero exactly on equal strings, positive otherwise. |
| Sorting.Insert | src/features/notifications/notificationsSlice.ts:46 | Inserting into a newest-first sequence keeps it newest first and adds exactly the one element. |
| Sorting.Sort | src/features/notifications/notificationsSlice.ts:46 | Sorting with the `b.date.localeCompare(a.date)` comparator yields a newest-first permutation of the input, of the same length. |
| EntityAdapter.UpsertOne | src/features/notifications/notificationsSlice.ts:120 | An upsert stores the entity under its id, leaves every other entity alone, appends the id only if it is new, and keeps `ids` listing every key exactly once. |
| EntityAdapter.UpsertMany | src/features/notifications/notificationsSlice.ts:120 | After `upsertMany`, the keys are the old keys plus the batch ids. Untouched ids keep their entity. Each batch id holds the last entity given for it. Existing ids keep their positions. The adapter invariant is preserved. |
| EntityAdapter.LastFor | src/features/notifications/notificationsSlice.ts:120 | The entity chosen for a batch id is one the batch actually pairs with that id. |
| EntityAdapter.LastForIsLast | src/features/notifications/notificationsSlice.ts:120 | A pair that no later pair overrides is the one stored for its id: last write wins. |
| EntityAdapter.AddOne | src/features/posts/postsSlice.js:63 | `addOne` is a no-op for an id already present and behaves like an upsert for a new id. |
| EntityAdapter.SelectAll | src/features/posts/postsSlice.js:71-75 | `selectAll` lists one entity per id, in `ids` order. |
| Notifications.MergeIntoCache | src/features/notifications/notificationsSlice.ts:45-46 | The cache after a push is a newest-first permutation of old cache ++ payload, with length the sum of the two (no de-duplication). |
| Notifications.LatestTimestamp | src/features/notifications/notificationsSlice.ts:77-85 | A missing or empty cache gives `""`. Otherwise the result is the first element's date, which is one of the cached dates. For a newest-first cache it is the greatest date. |
| Notifications.InitialMetadata | src/features/notifications/notificationsSlice.ts:92 | The slice's initial state has no ids and no records, and it satisfies the invariant that every reducer preserves. |
| Notifications.FreshMetadata | src/features/notifications/notificationsSlice.ts:109-113 | Each received notification yields a `{read: false, isNew: true}` record under its own id, and the batch mentions exactly the payload's ids. |
| Notifications.FreshMetadataLast | src/features/notifications/notificationsSlice.ts:109-113 | Whatever pair wins for an id of the batch is `{id, read: false, isNew: true}`. |
| Notifications.Demote | src/features/notifications/notificationsSlice.ts:115-118 | The demotion pass keeps ids and read flags and sets every `isNew` to the negation of `read`. |
| Notifications.ReceiveBatch | src/features/notifications/notificationsSlice.ts:107-121 | After a received batch, the ids are the old ids plus the batch ids. Every batch id, including one already present, is `{read: false, isNew: true}`. Every other id keeps `read` and has `isNew = !read`. The store invariant is preserved. |
| Notifications.ReceivedFlagsAgree | src/features/notifications/notificationsSlice.ts:107-121 | After a pushed batch or the initial fetch's result, every record is new exactly when it is unread. |
| Notifications.MarkAllRead | src/features/notifications/notificationsSlice.ts:100-104 | `allNotificationsRead` makes every record read and leaves ids, keys and every `isNew` unchanged. |
| Notifications.NotificationsReducer | src/features/notifications/notificationsSlice.ts:94-123 | The slice reducer preserves the store invariant. Unrelated actions are no-ops. After `allNotificationsRead` all records are read. Both matched actions add exactly the payload ids. |
| Notifications.FetchAndPushAgree | src/features/notifications/notificationsSlice.ts:94 | The initial fetch's fulfilment and a pushed batch update the metadata identically. |
| Notifications.HandleFrame | src/features/notifications/notificationsSlice.ts:38-55 | A frame whose type is not `notifications` changes neither store. A `notifications` frame makes the cache a newest-first permutation of old ++ payload and sends the payload through the metadata reducer. |
| Notifications.HandleFramesCache | src/features/notifications/notificationsSlice.ts:38-57 | After any sequence of frames, the cache is a permutation of the old cache plus every accepted payload, and it stays newest first. |
| Notifications.HandleFramesMetadata | src/features/notifications/notificationsSlice.ts:38-57 | After any sequence of frames, the metadata keys are the old keys plus every accepted payload id (nothing is removed), and the invariant holds. |
| Notifications.LatestAfterFrame | src/features/notifications/notificationsSlice.ts:83-85 | After a `notifications` frame, the latest timestamp is the greatest date among the old cache and the payload, and it is one of those dates. |
| Notifications.RedeliveryDuplicatesAndResets | src/features/notifications/notificationsSlice.ts:42-49 | Re-delivering a cached, read notification adds a second copy to the cache and resets its metadata to unread and new. |
| Notifications.MarkAllReadIdempotent | src/features/notifications/notificationsSlice.ts:100-104 | Marking all read a second time changes nothing. |
| Notifications.ReadThenReceiveClearsNew | src/features/notifications/notificationsSlice.ts:100-121 | Mark all read and then receive a batch. Every notification the batch does not carry ends up read and not new. |
| Notifications.ReadThenReceiveScenario | src/features/notifications/notificationsSlice.ts:100-121 | Receive a, mark all read, receive b. The result is a = {read, not new} and b = {unread, new}. |
| Posts.InitialState | src/features/posts/postsSlice.js:9-12 | The initial state is valid and empty, with status `idle` and no error. |
| Posts.Resort | src/features/posts/postsSlice.js:5-7 | Re-sorting keeps the entities, permutes the ids, orders them newest first by post date and keeps the adapter invariant. |
| Posts.Increment | src/features/posts/postsSlice.js:36 | `reactions[reaction]++` adds one to a numeric counter. A missing or NaN counter becomes NaN. |
| Posts.ReactionAdded | src/features/posts/postsSlice.js:32-38 | An unknown post id leaves the state unchanged. For a known post, exactly that post's one counter changes, to the incremented value of the old counter, and every other counter, field, post, status and error is unchanged. The invariant is preserved. |
| Posts.PostUpdated | src/features/posts/postsSlice.js:39-46 | The reducer as written throws a `ReferenceError` for `postId` on every call. |
| Posts.PostUpdatedNeverApplies | src/features/posts/postsSlice.js:40-41 | For an existing post with a different title, dispatching `postUpdated` fails, while the intended reducer would change the title. |
| Posts.PostUpdatedIntended | src/features/posts/postsSlice.js:39-46 | The corrected reducer replaces only the title and content of an existing post. An unknown id is a no-op, and the invariant is preserved. |
| Posts.FetchPending | src/features/posts/postsSlice.js:50-52 | Pending sets status `loading` and leaves the posts and the error untouched. |
| Posts.UpsertPosts | src/features/posts/postsSlice.js:55 | Upserting fetched posts adds exactly the payload ids and leaves posts outside the payload unchanged. Each id holds the last payload post with that id. The adapter invariant is preserved, and every post stays under its own id. |
| Posts.FetchFulfilled | src/features/posts/postsSlice.js:53-56 | Fulfilled sets status `succeeded`. Afterwards every payload id is present, and posts not in the payload are unchanged. Each id holds its last payload post. The invariant, including the date order, is preserved. |
| Posts.FetchRejected | src/features/posts/postsSlice.js:57-60 | Rejected sets status `failed`, records the error message and leaves the posts untouched. |
| Posts.AddNewPost | src/features/posts/postsSlice.js:63 | A post with an existing id leaves the state unchanged. A new post is stored under its id, its id is added once to `ids`, and the date order is kept. |
| Posts.PostsReducer | src/features/posts/postsSlice.js:28-65 | The reducer fails exactly on `postUpdated`. Otherwise it preserves the invariant. Unrelated actions are no-ops, and only fetch-fulfilled and add-post change the set of ids. |
| Posts.SelectAllPosts | src/features/posts/postsSlice.js:71-75 | `selectAllPosts` lists every stored post once (by id), newest first. |
| Posts.SelectPostById | src/features/posts/postsSlice.js:73 | `selectPostById` finds the post exactly when its id is stored. |
| Posts.ByIdAgreesWithAll | src/features/posts/postsSlice.js:71-75 | The two adapter selectors agree: a post is listed by `selectAllPosts` exactly when `selectPostById` finds it under its own id. |
| Posts.FilterByUser | src/features/posts/postsSlice.js:79 | The filter keeps only the user's posts, and only posts drawn from the input (as a sub-multiset). |
| Posts.FilterAppend | src/features/posts/postsSlice.js:79 | Filtering a concatenation is the concatenation of the filtered parts, so the kept posts stay in their input order. |
| Posts.FilterSingle | src/features/posts/postsSlice.js:79 | A single post is kept exactly when its `user` is the given id. |
| Posts.FilterKeepsOrder | src/features/posts/postsSlice.js:79 | Filtering a newest-first sequence leaves it newest first. |
| Posts.FilterKeepsUserPosts | src/features/posts/postsSlice.js:79 | The filter keeps every copy of every post by the user. |
| Posts.SelectPostsByUser | src/features/posts/postsSlice.js:77-80 | `selectPostsByUser` returns exactly the stored posts whose `user` is the given id, newest first, and it is the filter of `selectAllPosts`, so the user's posts keep `selectAllPosts`' order. |

## Findings

| source | as written | input that shows it | evidently intended | confidence | as-written member | corrected member |
|---|---|---|---|---|---|---|
| src/features/posts/postsSlice.js:40-41 | destructures `id` from the payload and then reads `state.entities[postId]`, but `postId` is not declared in that scope | any `postUpdated({id: "1", title: "t", content: "c"})`, e.g. with post "1" stored; reading the undeclared name throws a `ReferenceError` | look the post up with `state.entities[id]` and replace its title and content | high (not executed) | Posts.PostUpdated, Posts.PostUpdatedNeverApplies | Posts.PostUpdatedIntended |

`Posts.PostsReducer` keeps the as-written behaviour for `postUpdated` (a
failure outcome), because that is what the slice does. The corrected
reducer is stated and proved alongside it.

## Left out

- The websocket lifecycle in `onCacheEntryAdded` is left out because it is asynchronous I/O. This covers opening the socket, awaiting `cacheDataLoaded` and `cacheEntryRemoved`, the `catch` no-op and `ws.close()`. Only the message listener is modelled, as `HandleFrame` and `HandleFrames`.
- `JSON.parse` of a frame is left out. Frames arrive already decoded, as `Frame(kind, payload)`. A frame that fails to parse is not modelled.
- The network calls are left out because they are foreign calls: `client.get`, `client.post`, the `/notifications` query and `forceGenerateNotifications`. `LatestTimestamp` computes the value that would be passed to `forceGenerateNotifications`. The call itself is not modelled.
- RTK Query's replacement of the cached array on the initial fetch is not modelled. The same goes for Immer drafts and selector memoization (`createSelector`). Only the observable results are modelled.
- `console.log` in `fetchPosts` is left out.
- The cache-subscription state machine, reference counting and frame buffering are left out. They live in RTK Query and the socket's event timing, not in these slices.
- The React components that render notifications and a single post are not part of this model.
- Sorting.Sort: the relative order of equal dates is not stated. JavaScript's `sort` is stable, so the source keeps equal-dated notifications in push order, while this insertion sort reverses them. Only newest-first order and the permutation property are stated.
- StringOrder.Compare: ignores locale-specific collation and compares character codes, which orders ISO-8601 timestamps the same way.
- EntityAdapter.UpsertOne: models the adapter's shallow merge as replacement, because metadata records and fetched posts always carry every field, so the merge overwrites each of them.
- Posts.FetchRejected: takes the error message as an `Option`, so a missing `message` (`undefined`) and the initial `null` are both `None`.
- Posts.ReactionAdded: ids that name members of `Object.prototype`, such as `"constructor"` or `"__proto__"`, are not modelled. For those ids, `state.entities[postId]` finds an inherited value and the increment throws a `TypeError`. The model treats them as unknown ids and leaves the state unchanged. The entities table is modelled as a map holding only the stored posts.
- Posts.SelectPostById: ids that name members of `Object.prototype` are not modelled. For those ids the selector returns the inherited value, where the model returns `None`.
- Posts.PostsReducer: "fails exactly on `postUpdated`" does not cover `reactionAdded` with an id naming a member of `Object.prototype`, which throws in the slice. Such ids are not modelled.
- Posts.Increment: counters are unbounded integers. A JavaScript counter is a double, on which `++` stops being exact at 2^53. Reaction counts never come near that bound.
- Payload elements are assumed well-formed. A `null` element or a non-string `date` can make the comparator at `notificationsSlice.ts:46` throw, which leaves both the cache and the metadata unchanged. This is not modelled.
