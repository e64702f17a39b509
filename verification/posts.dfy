/** The posts slice: a date-sorted entity collection plus the status of the
    `fetchPosts` request, with its reducers and selectors. */
module Posts {
  import opened Wrappers
  import opened StringOrder
  import opened Sorting
  import opened EntityAdapter

  /** A reaction counter. `undefined++` on a reaction the post lacks yields NaN. */
  datatype Counter = Count(n: int) | NaN

  datatype Post = Post(id: Id, date: string, title: string, content: string, user: Id, reactions: map<string, Counter>)

  /** The `fetchPosts` request status. */
  datatype Status = Idle | Loading | Succeeded | Failed

  /** `postsAdapter.getInitialState({status, error})`: the adapter's ids and
      entities plus the two extra fields. */
  datatype PostsState = PostsState(posts: EntityState<Post>, status: Status, error: Option<string>)

  /** What a reducer throws. */
  datatype JsError = ReferenceError(identifier: string)

  function PostDate(p: Post): string {
    p.date
  }

  /** The `sortComparer` key of an id: the date of the post stored under it. */
  function DateOfId(entities: map<Id, Post>): Id -> string {
    id => if id in entities then entities[id].date else ""
  }

  /** The adapter invariant, each post under its own id, and `ids` ordered
      newest first by the posts' dates. */
  predicate PostsValid(s: PostsState) {
    && Valid(s.posts)
    && StoredUnderOwnId(s.posts.entities)
    && SortedDesc(s.posts.ids, DateOfId(s.posts.entities))
  }

  /** Each post sits under its own id. */
  predicate StoredUnderOwnId(entities: map<Id, Post>) {
    forall id :: id in entities ==> entities[id].id == id
  }

  /** A valid adapter state of posts under their own ids is valid once re-sorted. */
  lemma ResortValid(e: EntityState<Post>, status: Status, error: Option<string>)
    requires Valid(e) && StoredUnderOwnId(e.entities)
    ensures PostsValid(PostsState(Resort(e), status, error))
  {
  }

  function InitialState(): (r: PostsState)
    ensures PostsValid(r)
    ensures r.status == Idle && r.error == None && |r.posts.ids| == 0
  {
    PostsState(Empty(), Idle, None)
  }

  /** Replacing a post by one with the same id and date keeps the state valid. */
  lemma ReplaceKeepsValid(s: PostsState, id: Id, q: Post)
    requires id in s.posts.entities
    requires q.id == s.posts.entities[id].id && q.date == s.posts.entities[id].date
    ensures PostsValid(s) ==> PostsValid(s.(posts := EntityState(s.posts.ids, s.posts.entities[id := q])))
  {
  }

  /** The sorted adapter puts `ids` back in `sortComparer` order after an
      insert or update. */
  function Resort(e: EntityState<Post>): (r: EntityState<Post>)
    ensures r.entities == e.entities
    ensures multiset(r.ids) == multiset(e.ids)
    ensures SortedDesc(r.ids, DateOfId(r.entities))
    ensures Valid(e) ==> Valid(r)
  {
    var r := EntityState(Sort(e.ids, DateOfId(e.entities)), e.entities);
    assert Valid(e) ==> Valid(r) by {
      if Valid(e) {
        PermutedIdsValid(e, r.ids);
      }
    }
    r
  }

  // ---------------------------------------------------------------------
  // Reducers

  /** `reactions[reaction]++`. */
  function Increment(reactions: map<string, Counter>, reaction: string): (c: Counter)
    ensures reaction in reactions && reactions[reaction].Count? ==> c == Count(reactions[reaction].n + 1)
    ensures reaction !in reactions || reactions[reaction].NaN? ==> c == NaN
  {
    if reaction in reactions then
      match reactions[reaction]
      case Count(n) => Count(n + 1)
      case NaN => NaN
    else NaN
  }

  /** `reactionAdded`: bump one reaction counter of an existing post; an
      unknown post id changes nothing. */
  function ReactionAdded(s: PostsState, postId: Id, reaction: string): (r: PostsState)
    ensures postId !in s.posts.entities ==> r == s
    ensures postId in s.posts.entities ==>
              && r.status == s.status && r.error == s.error
              && r.posts.ids == s.posts.ids
              && r.posts.entities.Keys == s.posts.entities.Keys
              && (forall id :: id in s.posts.entities && id != postId ==> r.posts.entities[id] == s.posts.entities[id])
    ensures postId in s.posts.entities ==>
              var p := s.posts.entities[postId];
              var q := r.posts.entities[postId];
              && q == p.(reactions := q.reactions)
              && q.reactions.Keys == p.reactions.Keys + {reaction}
              && (forall k :: k in p.reactions && k != reaction ==> q.reactions[k] == p.reactions[k])
              && q.reactions[reaction] == Increment(p.reactions, reaction)
              && (reaction in p.reactions && p.reactions[reaction].Count? ==>
                    q.reactions[reaction] == Count(p.reactions[reaction].n + 1))
    ensures PostsValid(s) ==> PostsValid(r)
  {
    if postId in s.posts.entities then
      var p := s.posts.entities[postId];
      var q := p.(reactions := p.reactions[reaction := Increment(p.reactions, reaction)]);
      ReplaceKeepsValid(s, postId, q);
      s.(posts := EntityState(s.posts.ids, s.posts.entities[postId := q]))
    else
      s
  }

  /** `postUpdated` as written: it reads `postId`, which is not declared in
      the reducer, so every call throws before anything is updated. */
  function PostUpdated(s: PostsState, id: Id, title: string, content: string): (r: Result<PostsState, JsError>)
    ensures r == Failure(ReferenceError("postId"))
  {
    Failure(ReferenceError("postId"))
  }

  /** `postUpdated` as evidently intended: look the post up by `id` and
      replace its title and content. */
  function PostUpdatedIntended(s: PostsState, id: Id, title: string, content: string): (r: PostsState)
    ensures id !in s.posts.entities ==> r == s
    ensures id in s.posts.entities ==>
              && r.status == s.status && r.error == s.error
              && r.posts.ids == s.posts.ids
              && r.posts.entities.Keys == s.posts.entities.Keys
              && (forall other :: other in s.posts.entities && other != id ==> r.posts.entities[other] == s.posts.entities[other])
              && r.posts.entities[id] == s.posts.entities[id].(title := title, content := content)
    ensures PostsValid(s) ==> PostsValid(r)
  {
    if id in s.posts.entities then
      var q := s.posts.entities[id].(title := title, content := content);
      ReplaceKeepsValid(s, id, q);
      s.(posts := EntityState(s.posts.ids, s.posts.entities[id := q]))
    else
      s
  }

  /** Dispatching `postUpdated` for a post that exists throws and so never
      applies the edit that the intended reducer applies. */
  lemma PostUpdatedNeverApplies(s: PostsState, id: Id, title: string, content: string)
    requires id in s.posts.entities && s.posts.entities[id].title != title
    ensures PostsReducer(s, PostUpdatedAction(id, title, content)) == Failure(ReferenceError("postId"))
    ensures PostUpdatedIntended(s, id, title, content).posts.entities[id].title == title
    ensures PostUpdatedIntended(s, id, title, content) != s
  {
  }

  /** `fetchPosts.pending`. */
  function FetchPending(s: PostsState): (r: PostsState)
    ensures r.status == Loading
    ensures r.posts == s.posts && r.error == s.error
    ensures PostsValid(s) ==> PostsValid(r)
  {
    s.(status := Loading)
  }

  /** The posts of a payload keyed by their ids. */
  function PostPairs(payload: seq<Post>): (r: seq<(Id, Post)>)
    ensures |r| == |payload|
    ensures forall k :: 0 <= k < |r| ==> r[k] == (payload[k].id, payload[k])
  {
    seq(|payload|, k requires 0 <= k < |payload| => (payload[k].id, payload[k]))
  }

  function PostIds(payload: seq<Post>): set<Id> {
    set k | 0 <= k < |payload| :: payload[k].id
  }

  /** `postsAdapter.upsertMany(state, payload)` before the ids are re-sorted. */
  function UpsertPosts(e: EntityState<Post>, payload: seq<Post>): (r: EntityState<Post>)
    ensures r.entities.Keys == e.entities.Keys + PostIds(payload)
    ensures forall id :: id in e.entities && id !in PostIds(payload) ==> r.entities[id] == e.entities[id]
    ensures forall k :: 0 <= k < |payload| && (forall j :: k < j < |payload| ==> payload[j].id != payload[k].id) ==>
              r.entities[payload[k].id] == payload[k]
    ensures Valid(e) && StoredUnderOwnId(e.entities) ==> Valid(r) && StoredUnderOwnId(r.entities)
  {
    var batch := PostPairs(payload);
    assert BatchIds(batch) == PostIds(payload) by {
      assert forall k :: 0 <= k < |batch| ==> batch[k].0 == payload[k].id;
    }
    var r := UpsertMany(e, batch);
    forall k | 0 <= k < |payload| && (forall j :: k < j < |payload| ==> payload[j].id != payload[k].id)
      ensures r.entities[payload[k].id] == payload[k]
    {
      LastForIsLast(batch, k);
    }
    forall id | id in BatchIds(batch)
      ensures r.entities[id].id == id
    {
      var k :| 0 <= k < |batch| && batch[k] == (id, LastFor(batch, id));
    }
    r
  }

  /** `fetchPosts.fulfilled`: mark success and upsert every fetched post. */
  function FetchFulfilled(s: PostsState, payload: seq<Post>): (r: PostsState)
    ensures r.status == Succeeded && r.error == s.error
    ensures r.posts.entities.Keys == s.posts.entities.Keys + PostIds(payload)
    ensures forall id :: id in s.posts.entities && id !in PostIds(payload) ==>
              r.posts.entities[id] == s.posts.entities[id]
    ensures forall k :: 0 <= k < |payload| && (forall j :: k < j < |payload| ==> payload[j].id != payload[k].id) ==>
              r.posts.entities[payload[k].id] == payload[k]
    ensures PostsValid(s) ==> PostsValid(r)
  {
    var upserted := UpsertPosts(s.posts, payload);
    assert PostsValid(s) ==> PostsValid(PostsState(Resort(upserted), Succeeded, s.error)) by {
      if PostsValid(s) {
        ResortValid(upserted, Succeeded, s.error);
      }
    }
    PostsState(Resort(upserted), Succeeded, s.error)
  }

  /** `fetchPosts.rejected`: mark failure and keep the error's message. */
  function FetchRejected(s: PostsState, message: Option<string>): (r: PostsState)
    ensures r.status == Failed && r.error == message
    ensures r.posts == s.posts
    ensures PostsValid(s) ==> PostsValid(r)
  {
    s.(status := Failed, error := message)
  }

  /** `addNewPost.fulfilled` handled by `addOne`: a post whose id is already
      present is ignored. */
  function AddNewPost(s: PostsState, post: Post): (r: PostsState)
    ensures post.id in s.posts.entities ==> r == s
    ensures post.id !in s.posts.entities ==>
              && r.posts.entities == s.posts.entities[post.id := post]
              && multiset(r.posts.ids) == multiset(s.posts.ids) + multiset{post.id}
              && r.status == s.status && r.error == s.error
    ensures PostsValid(s) ==> PostsValid(r)
  {
    if post.id in s.posts.entities then s
    else
      var added := AddOne(s.posts, post.id, post);
      assert added.entities == s.posts.entities[post.id := post];
      assert added.ids == s.posts.ids + [post.id];
      AddKeepsValid(s, post);
      s.(posts := Resort(added))
  }

  /** Adding a post under its own new id and re-sorting keeps the state valid. */
  lemma AddKeepsValid(s: PostsState, post: Post)
    requires post.id !in s.posts.entities
    ensures PostsValid(s) ==> PostsValid(s.(posts := Resort(AddOne(s.posts, post.id, post))))
  {
  }

  /** The actions the posts slice handles; anything else is `Unrelated`. */
  datatype PostsAction =
    | ReactionAddedAction(postId: Id, reaction: string)
    | PostUpdatedAction(id: Id, title: string, content: string)
    | FetchPostsPending
    | FetchPostsFulfilled(payload: seq<Post>)
    | FetchPostsRejected(message: Option<string>)
    | AddNewPostFulfilled(post: Post)
    | Unrelated

  /** The slice reducer: a new state, or the error a case reducer throws. */
  function PostsReducer(s: PostsState, a: PostsAction): (r: Result<PostsState, JsError>)
    ensures r.Failure? <==> a.PostUpdatedAction?
    ensures r.Success? && PostsValid(s) ==> PostsValid(r.value)
    ensures a.Unrelated? ==> r == Success(s)
    ensures r.Success? && !a.FetchPostsFulfilled? && !a.AddNewPostFulfilled? ==>
              r.value.posts.entities.Keys == s.posts.entities.Keys
  {
    match a
    case ReactionAddedAction(postId, reaction) => Success(ReactionAdded(s, postId, reaction))
    case PostUpdatedAction(id, title, content) => PostUpdated(s, id, title, content)
    case FetchPostsPending => Success(FetchPending(s))
    case FetchPostsFulfilled(payload) => Success(FetchFulfilled(s, payload))
    case FetchPostsRejected(message) => Success(FetchRejected(s, message))
    case AddNewPostFulfilled(post) => Success(AddNewPost(s, post))
    case Unrelated => Success(s)
  }

  // ---------------------------------------------------------------------
  // Selectors

  /** `selectAllPosts`: the posts in the order of `ids`, newest first. */
  function SelectAllPosts(s: PostsState): (r: seq<Post>)
    requires PostsValid(s)
    ensures SortedDesc(r, PostDate)
    ensures |r| == |s.posts.ids|
    ensures forall id :: id in s.posts.entities ==> s.posts.entities[id] in r
    ensures forall p :: p in r ==> p.id in s.posts.entities && s.posts.entities[p.id] == p
  {
    var r := SelectAll(s.posts);
    SortedTransfer(s.posts.ids, DateOfId(s.posts.entities), r, PostDate);
    forall id | id in s.posts.entities
      ensures s.posts.entities[id] in r
    {
      var i :| 0 <= i < |s.posts.ids| && s.posts.ids[i] == id;
      assert r[i] == s.posts.entities[id];
    }
    r
  }

  /** `selectPostById`: the post stored under `id`, if any. */
  function SelectPostById(s: PostsState, id: Id): (r: Option<Post>)
    ensures r.Some? <==> id in s.posts.entities
    ensures r.Some? ==> r.value == s.posts.entities[id]
  {
    if id in s.posts.entities then Some(s.posts.entities[id]) else None
  }

  /** The two selectors agree: a post is listed by `selectAllPosts` exactly
      when `selectPostById` finds it under its own id. */
  lemma ByIdAgreesWithAll(s: PostsState, p: Post)
    requires PostsValid(s)
    ensures p in SelectAllPosts(s) <==> SelectPostById(s, p.id) == Some(p)
  {
  }

  /** `posts.filter(post => post.user === userId)`. */
  function FilterByUser(posts: seq<Post>, user: Id): (r: seq<Post>)
    ensures forall p :: p in r ==> p.user == user
    ensures multiset(r) <= multiset(posts)
  {
    if |posts| == 0 then []
    else
      assert posts == [posts[0]] + posts[1..];
      var rest := FilterByUser(posts[1..], user);
      if posts[0].user == user then [posts[0]] + rest else rest
  }

  /** The filter keeps every copy of every post by `user`. */
  lemma {:induction false} FilterKeepsUserPosts(posts: seq<Post>, user: Id, p: Post)
    requires p.user == user
    ensures multiset(FilterByUser(posts, user))[p] == multiset(posts)[p]
    decreases |posts|
  {
    if |posts| > 0 {
      assert posts == [posts[0]] + posts[1..];
      FilterKeepsUserPosts(posts[1..], user, p);
    }
  }

  /** Filtering a concatenation filters each part and keeps them in order:
      together with the one-post case, this pins the result down to the
      user's posts in their input order. */
  lemma {:induction false} FilterAppend(a: seq<Post>, b: seq<Post>, user: Id)
    ensures FilterByUser(a + b, user) == FilterByUser(a, user) + FilterByUser(b, user)
    decreases |a|
  {
    if |a| == 0 {
      assert a + b == b;
    } else {
      assert (a + b)[0] == a[0];
      assert (a + b)[1..] == a[1..] + b;
      FilterAppend(a[1..], b, user);
    }
  }

  /** The filter of a single post is that post exactly when it is by `user`. */
  lemma FilterSingle(p: Post, user: Id)
    ensures FilterByUser([p], user) == (if p.user == user then [p] else [])
  {
  }

  /** The filter keeps a newest-first sequence newest first. */
  lemma {:induction false} FilterKeepsOrder(posts: seq<Post>, user: Id)
    requires SortedDesc(posts, PostDate)
    ensures SortedDesc(FilterByUser(posts, user), PostDate)
    decreases |posts|
  {
    if |posts| > 0 {
      assert posts == [posts[0]] + posts[1..];
      var rest := FilterByUser(posts[1..], user);
      FilterKeepsOrder(posts[1..], user);
      if posts[0].user == user {
        DrawnFromTailBounded(posts, rest, PostDate);
        ConsSorted(posts[0], rest, PostDate);
      }
    }
  }

  /** `selectPostsByUser`: exactly the posts written by `user`, newest first. */
  function SelectPostsByUser(s: PostsState, user: Id): (r: seq<Post>)
    requires PostsValid(s)
    ensures forall p :: p in r ==> p.user == user && p.id in s.posts.entities && s.posts.entities[p.id] == p
    ensures forall id :: id in s.posts.entities && s.posts.entities[id].user == user ==> s.posts.entities[id] in r
    ensures SortedDesc(r, PostDate)
    ensures multiset(r) <= multiset(SelectAllPosts(s))
    ensures r == FilterByUser(SelectAllPosts(s), user)
  {
    var all := SelectAllPosts(s);
    var r := FilterByUser(all, user);
    FilterKeepsOrder(all, user);
    forall p | p in r
      ensures p.user == user && p in all
    {
      assert p in multiset(r);
    }
    forall id | id in s.posts.entities && s.posts.entities[id].user == user
      ensures s.posts.entities[id] in r
    {
      FilterKeepsUserPosts(all, user, s.posts.entities[id]);
      assert s.posts.entities[id] in multiset(all);
      assert s.posts.entities[id] in multiset(r);
    }
    r
  }
}
