/** The normalized state that Redux Toolkit's entity adapter keeps: an
    ordered array of ids plus a lookup table from id to entity, and the
    adapter's `upsertOne`, `upsertMany`, `addOne` and `selectAll`. The
    adapter's shallow merge of an upserted entity into an existing one is
    modelled as replacement, because every entity of this store is always
    delivered with all of its fields. */
module EntityAdapter {
  import opened Sorting

  type Id = string

  datatype EntityState<T> = EntityState(ids: seq<Id>, entities: map<Id, T>)

  /** `getInitialState()`: no ids, no entities. */
  function Empty<T>(): (r: EntityState<T>)
    ensures Valid(r)
    ensures r.ids == [] && r.entities == map[]
  {
    EntityState([], map[])
  }

  /** The adapter's invariant: `ids` lists every key of `entities` exactly once. */
  predicate Valid<T>(s: EntityState<T>) {
    && NoDuplicates(s.ids)
    && (forall i :: 0 <= i < |s.ids| ==> s.ids[i] in s.entities)
    && (forall id :: id in s.entities ==> id in s.ids)
  }

  /** Any permutation of a valid state's ids is again a valid `ids` array. */
  lemma PermutedIdsValid<T>(e: EntityState<T>, ids: seq<Id>)
    requires Valid(e) && multiset(ids) == multiset(e.ids)
    ensures Valid(EntityState(ids, e.entities))
  {
    PermutationNoDuplicates(e.ids, ids);
    forall i | 0 <= i < |ids|
      ensures ids[i] in e.entities
    {
      assert ids[i] in multiset(e.ids);
    }
    forall id | id in e.entities
      ensures id in ids
    {
      assert id in multiset(e.ids);
    }
  }

  /** The ids a batch of `(id, entity)` pairs mentions. */
  function BatchIds<T>(batch: seq<(Id, T)>): set<Id> {
    set k | 0 <= k < |batch| :: batch[k].0
  }

  /** The entity of the last pair in `batch` whose id is `id`. */
  function LastFor<T>(batch: seq<(Id, T)>, id: Id): (r: T)
    requires id in BatchIds(batch)
    ensures exists k :: 0 <= k < |batch| && batch[k] == (id, r)
    decreases |batch|
  {
    var n := |batch| - 1;
    if batch[n].0 == id then batch[n].1
    else
      BatchIdsSnoc(batch);
      var r := LastFor(batch[..n], id);
      assert forall k :: 0 <= k < n ==> batch[..n][k] == batch[k];
      r
  }

  /** A pair that no later pair overrides is the one `LastFor` picks. */
  lemma {:induction false} LastForIsLast<T>(batch: seq<(Id, T)>, k: nat)
    requires k < |batch|
    requires forall j :: k < j < |batch| ==> batch[j].0 != batch[k].0
    ensures batch[k].0 in BatchIds(batch)
    ensures LastFor(batch, batch[k].0) == batch[k].1
    decreases |batch|
  {
    var n := |batch| - 1;
    if k < n {
      BatchIdsSnoc(batch);
      assert batch[..n][k] == batch[k];
      LastForIsLast(batch[..n], k);
    }
  }

  lemma BatchIdsSnoc<T>(batch: seq<(Id, T)>)
    requires |batch| > 0
    ensures BatchIds(batch) == BatchIds(batch[..|batch| - 1]) + {batch[|batch| - 1].0}
  {
  }

  /** `upsertOne`: insert `e` under `id`, replacing any entity already there;
      a new id is appended to `ids`. */
  function UpsertOne<T>(s: EntityState<T>, id: Id, e: T): (r: EntityState<T>)
    ensures id in r.entities && r.entities[id] == e
    ensures r.entities.Keys == s.entities.Keys + {id}
    ensures forall other :: other in s.entities && other != id ==> r.entities[other] == s.entities[other]
    ensures id in s.entities ==> r.ids == s.ids
    ensures id !in s.entities ==> r.ids == s.ids + [id]
    ensures Valid(s) ==> Valid(r)
  {
    if id in s.entities then EntityState(s.ids, s.entities[id := e])
    else EntityState(s.ids + [id], s.entities[id := e])
  }

  /** `upsertMany`: upsert each pair of `batch` in order, so the last pair
      for an id wins; ids already present keep their place. */
  function UpsertMany<T>(s: EntityState<T>, batch: seq<(Id, T)>): (r: EntityState<T>)
    ensures r.entities.Keys == s.entities.Keys + BatchIds(batch)
    ensures forall id :: id in s.entities && id !in BatchIds(batch) ==> r.entities[id] == s.entities[id]
    ensures forall id :: id in BatchIds(batch) ==> r.entities[id] == LastFor(batch, id)
    ensures |s.ids| <= |r.ids| && r.ids[..|s.ids|] == s.ids
    ensures Valid(s) ==> Valid(r)
    decreases |batch|
  {
    if |batch| == 0 then s
    else
      var n := |batch| - 1;
      BatchIdsSnoc(batch);
      var mid := UpsertMany(s, batch[..n]);
      var r := UpsertOne(mid, batch[n].0, batch[n].1);
      assert r.ids[..|s.ids|] == mid.ids[..|s.ids|];
      r
  }

  /** `addOne`: insert `e` under `id` only when `id` is not yet present. */
  function AddOne<T>(s: EntityState<T>, id: Id, e: T): (r: EntityState<T>)
    ensures id in s.entities ==> r == s
    ensures id !in s.entities ==> r == UpsertOne(s, id, e)
  {
    if id in s.entities then s else EntityState(s.ids + [id], s.entities[id := e])
  }

  /** `selectAll`: the entities in the order of `ids`. */
  function SelectAll<T>(s: EntityState<T>): (r: seq<T>)
    requires forall i :: 0 <= i < |s.ids| ==> s.ids[i] in s.entities
    ensures |r| == |s.ids|
    ensures forall i :: 0 <= i < |r| ==> r[i] == s.entities[s.ids[i]]
  {
    seq(|s.ids|, i requires 0 <= i < |s.ids| => s.entities[s.ids[i]])
  }
}
