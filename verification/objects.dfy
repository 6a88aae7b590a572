/**
 * The Objective-C world the relation macros run in: object references,
 * the class of an object, its `objectId`, and the three collaborators the
 * single-relation getter consults (the cache manager's in-memory cache,
 * its disk store, and the class constructor `objectWithId:cached:`).
 * Their implementations are not part of this model, so they appear here
 * only as a map, a map and a function supplied by the caller.
 */
module Objects {
  import opened Wrappers

  type ClassName = string

  /**
   * An object reference. `ref` tells apart distinct instances that agree
   * on everything else; two `Obj` values are equal exactly when Objective-C
   * considers them the same object (`isEqual:`).
   * `objectId` is what the `objectId` message answers (`None` is `nil`),
   * and `conformsToIdProtocol` whether the object's class adopts
   * `ObjectIdProtocol`.
   */
  datatype Obj = Obj(ref: nat, cls: ClassName, objectId: Option<string>, conformsToIdProtocol: bool)

  /** The cache manager files objects under their class and id. */
  datatype Key = Key(cls: ClassName, id: string)

  /** One call into a collaborator, recorded so contracts can say which ones happen. */
  datatype Lookup =
    | CacheLookup(key: Key)                              // fetchObjectFromCacheWithClass:andId:
    | DiskLookup(key: Key)                               // fetchObjectFromDiskWithClass:andId:
    | CtorCall(cls: ClassName, id: string, cached: bool) // [cls objectWithId:id cached:cached]

  /**
   * The collaborators as seen from one read: what the in-memory cache and
   * the disk store hold, and what `objectWithId:cached:` answers for each
   * receiving class, id and caching flag.
   */
  datatype Env = Env(
    cache: map<Key, Obj>,
    disk: map<Key, Obj>,
    construct: (ClassName, string, bool) -> Option<Obj>)

  /** `[object objectId]`, where sending a message to `nil` answers `nil`. */
  function IdOf(x: Option<Obj>): (r: Option<string>)
    ensures r.Some? ==> x.Some? && x.value.objectId == r
    ensures x.Some? ==> r == x.value.objectId
  {
    match x
    case None => None
    case Some(o) => o.objectId
  }

  /** An id the macros accept as a reference: non-nil and of non-zero length. */
  predicate UsableId(id: Option<string>) {
    id.Some? && |id.value| > 0
  }

  /** An object that really is the entity with the given class and id. */
  predicate Is(o: Obj, cls: ClassName, id: string) {
    o.cls == cls && o.objectId == Some(id)
  }

  /**
   * The identity-map discipline the collaborators are meant to keep:
   * whatever is filed under (class, id), or constructed for them, is an
   * object of that class with that id.
   */
  ghost predicate Coherent(env: Env) {
    && (forall k :: k in env.cache ==> Is(env.cache[k], k.cls, k.id))
    && (forall k :: k in env.disk ==> Is(env.disk[k], k.cls, k.id))
    && (forall c, id, cached :: env.construct(c, id, cached).Some? ==> Is(env.construct(c, id, cached).value, c, id))
  }
}
