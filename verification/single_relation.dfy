/**
 * The accessor pair `MODEL_SINGLE_RELATION_M_IMPLEMENTATION` generates for
 * a to-one relation: a stored id (`<name>Id`) and a memoised handle (the
 * ivar `_<name>`). The setter records a target that has an id; the getter
 * resolves the id through the in-memory cache, then the disk store, then
 * the constructor `objectWithId:cached:`, and remembers what it found.
 */
module SingleRelation {
  import opened Wrappers
  import opened Objects

  /** The referencing object's state for one single relation. */
  datatype SingleRel = SingleRel(id: Option<string>, handle: Option<Obj>)

  /** What one read of the getter returns, the state it leaves, and the calls it made. */
  datatype SingleRead = SingleRead(rel: SingleRel, value: Option<Obj>, lookups: seq<Lookup>)

  /**
   * The setter: a target whose `objectId` is nil or empty (including a nil
   * target) is ignored; otherwise the id and the handle both take the
   * target's.
   */
  function Set(r: SingleRel, target: Option<Obj>): (r': SingleRel)
    ensures UsableId(IdOf(target)) ==> r'.id == target.value.objectId && r'.handle == target
    ensures !UsableId(IdOf(target)) ==> r' == r
    ensures UsableId(r'.id) || r' == r
  {
    if UsableId(IdOf(target)) then SingleRel(IdOf(target), target) else r
  }

  /**
   * The entity's own code writing the `<name>Id` property directly (it is
   * redeclared readwrite inside the implementation). The memoised handle
   * is not touched.
   */
  function SetId(r: SingleRel, id: Option<string>): SingleRel {
    r.(id := id)
  }

  /** What a collaborator answers for one lookup. */
  function Answer(env: Env, l: Lookup): Option<Obj> {
    match l
    case CacheLookup(k) => if k in env.cache then Some(env.cache[k]) else None
    case DiskLookup(k) => if k in env.disk then Some(env.disk[k]) else None
    case CtorCall(c, id, cached) => env.construct(c, id, cached)
  }

  /** The result of walking a chain of lookups: the first answer found and the lookups made. */
  datatype Hit = Hit(value: Option<Obj>, performed: seq<Lookup>)

  /**
   * Reference definition of a fall-through chain: try each lookup in turn,
   * stop at the first non-nil answer.
   */
  function FirstHit(env: Env, chain: seq<Lookup>): (h: Hit)
    ensures h.performed <= chain
    ensures h.value.Some? ==> |h.performed| > 0 && h.value == Answer(env, h.performed[|h.performed| - 1])
    ensures h.value.None? ==> h.performed == chain
    ensures forall i :: 0 <= i < |h.performed| - 1 ==> Answer(env, h.performed[i]).None?
    decreases |chain|
  {
    if |chain| == 0 then Hit(None, [])
    else if Answer(env, chain[0]).Some? then Hit(Answer(env, chain[0]), [chain[0]])
    else
      var rest := FirstHit(env, chain[1..]);
      Hit(rest.value, [chain[0]] + rest.performed)
  }

  /**
   * The getter's body, with the class that receives `objectWithId:cached:`
   * as a parameter (`ctorClass`); cache and disk are asked for `target`.
   * `cached` is the referencing object's `shouldCacheModelObject`.
   */
  function Read(r: SingleRel, env: Env, target: ClassName, ctorClass: ClassName, cached: bool): (out: SingleRead)
    // nil or empty id: nil, nothing consulted, nothing remembered
    ensures !UsableId(r.id) ==> out == SingleRead(r, None, [])
    // a remembered handle is returned as is, nothing consulted
    ensures UsableId(r.id) && r.handle.Some? ==> out == SingleRead(r, r.handle, [])
    // the id is never changed by reading, and the answer is remembered
    ensures out.rel.id == r.id
    ensures UsableId(r.id) ==> out.rel.handle == out.value
    // the resolution chain
    ensures UsableId(r.id) && r.handle.None? ==>
              var k := Key(target, r.id.value);
              && 1 <= |out.lookups| <= 3
              && out.lookups[0] == CacheLookup(k)
              && (DiskLookup(k) in out.lookups <==> k !in env.cache)
              && (CtorCall(ctorClass, r.id.value, cached) in out.lookups <==> k !in env.cache && k !in env.disk)
              && (k in env.cache ==> out.value == Some(env.cache[k]))
              && (k !in env.cache && k in env.disk ==> out.value == Some(env.disk[k]))
              && (k !in env.cache && k !in env.disk ==> out.value == env.construct(ctorClass, r.id.value, cached))
  {
    if !UsableId(r.id) then SingleRead(r, None, [])
    else if r.handle.Some? then SingleRead(r, r.handle, [])
    else
      var id := r.id.value;
      var k := Key(target, id);
      if k in env.cache then
        SingleRead(r.(handle := Some(env.cache[k])), Some(env.cache[k]), [CacheLookup(k)])
      else if k in env.disk then
        SingleRead(r.(handle := Some(env.disk[k])), Some(env.disk[k]), [CacheLookup(k), DiskLookup(k)])
      else
        var made := env.construct(ctorClass, id, cached);
        SingleRead(r.(handle := made), made, [CacheLookup(k), DiskLookup(k), CtorCall(ctorClass, id, cached)])
  }

  /**
   * The getter as the macro writes it: the placeholder is made by the
   * referencing object's own class (`owner`), not by the relation's target
   * class.
   */
  function GetAsWritten(r: SingleRel, env: Env, owner: ClassName, target: ClassName, cached: bool): (out: SingleRead)
    ensures UsableId(r.id) && r.handle.None? && Key(target, r.id.value) !in env.cache && Key(target, r.id.value) !in env.disk
            ==> CtorCall(owner, r.id.value, cached) in out.lookups && out.value == env.construct(owner, r.id.value, cached)
  {
    Read(r, env, target, owner, cached)
  }

  /** The getter as intended: the placeholder is made by the target class. */
  function Get(r: SingleRel, env: Env, target: ClassName, cached: bool): (out: SingleRead)
    ensures UsableId(r.id) && r.handle.None? && Key(target, r.id.value) !in env.cache && Key(target, r.id.value) !in env.disk
            ==> CtorCall(target, r.id.value, cached) in out.lookups && out.value == env.construct(target, r.id.value, cached)
  {
    Read(r, env, target, target, cached)
  }

  /**
   * An unresolved read is exactly the reference fall-through over the
   * chain cache, disk, constructor.
   */
  lemma ReadFollowsChain(r: SingleRel, env: Env, target: ClassName, ctorClass: ClassName, cached: bool)
    requires UsableId(r.id) && r.handle.None?
    ensures var k := Key(target, r.id.value);
            var h := FirstHit(env, [CacheLookup(k), DiskLookup(k), CtorCall(ctorClass, r.id.value, cached)]);
            var out := Read(r, env, target, ctorClass, cached);
            out.value == h.value && out.lookups == h.performed
  {
    var k := Key(target, r.id.value);
    var chain := [CacheLookup(k), DiskLookup(k), CtorCall(ctorClass, r.id.value, cached)];
    var tail := [DiskLookup(k), CtorCall(ctorClass, r.id.value, cached)];
    var last := [CtorCall(ctorClass, r.id.value, cached)];
    assert chain[1..] == tail && tail[1..] == last && last[1..] == [];
    if k !in env.cache {
      assert FirstHit(env, chain) == Hit(FirstHit(env, tail).value, [chain[0]] + FirstHit(env, tail).performed);
      if k !in env.disk {
        assert FirstHit(env, tail) == Hit(FirstHit(env, last).value, [tail[0]] + FirstHit(env, last).performed);
      }
    }
  }

  /**
   * Memoisation: once a read has produced a handle, every later read
   * returns that same handle and consults nobody, whatever the cache, the
   * disk or the constructor would now answer.
   */
  lemma ReadMemoises(r: SingleRel, env: Env, later: Env, target: ClassName, ctorClass: ClassName, cached: bool)
    ensures var first := Read(r, env, target, ctorClass, cached);
            first.value.Some? ==> Read(first.rel, later, target, ctorClass, cached) == SingleRead(first.rel, first.value, [])
  {
  }

  /**
   * A read that found nothing remembers nothing: the next read against the
   * same collaborators repeats exactly the same lookups.
   */
  lemma ReadDoesNotMemoiseNil(r: SingleRel, env: Env, target: ClassName, ctorClass: ClassName, cached: bool)
    ensures var first := Read(r, env, target, ctorClass, cached);
            first.value.None? ==> first.rel == r && Read(first.rel, env, target, ctorClass, cached) == first
  {
  }

  /**
   * Round trip: after setting a target that has an id, reading returns
   * that target without consulting anybody, whichever class the read
   * would ask to construct (so for the getter as written and as intended).
   */
  lemma SetThenRead(r: SingleRel, x: Obj, env: Env, target: ClassName, ctorClass: ClassName, cached: bool)
    requires UsableId(x.objectId)
    ensures Read(Set(r, Some(x)), env, target, ctorClass, cached) == SingleRead(Set(r, Some(x)), Some(x), [])
  {
  }

  /**
   * Setting a target without a usable id leaves the relation as it was, so
   * the next read behaves exactly as it would have before.
   */
  lemma SetWithoutIdIsIgnored(r: SingleRel, x: Option<Obj>, env: Env, target: ClassName, ctorClass: ClassName, cached: bool)
    requires !UsableId(IdOf(x))
    ensures Read(Set(r, x), env, target, ctorClass, cached) == Read(r, env, target, ctorClass, cached)
  {
  }

  /**
   * The memo is not invalidated when the id property is rewritten: a read
   * after the id changes still returns the old handle, even if that handle
   * carries a different id.
   */
  lemma StaleHandleAfterIdWrite(r: SingleRel, newId: string, env: Env, target: ClassName, ctorClass: ClassName, cached: bool)
    requires r.handle.Some? && |newId| > 0
    ensures Read(SetId(r, Some(newId)), env, target, ctorClass, cached).value == r.handle
    ensures Read(SetId(r, Some(newId)), env, target, ctorClass, cached).lookups == []
  {
  }

  /**
   * Under the identity-map discipline the intended getter only ever hands
   * out an object of the relation's class; a handle it resolves itself
   * also carries the stored id.
   */
  lemma GetResolvesTargetClass(r: SingleRel, env: Env, target: ClassName, cached: bool)
    requires Coherent(env)
    requires r.handle.Some? ==> r.handle.value.cls == target
    ensures var out := Get(r, env, target, cached);
            && (out.value.Some? ==> out.value.value.cls == target)
            && (out.value.Some? && r.handle.None? ==> out.value.value.objectId == r.id)
  {
    if UsableId(r.id) && r.handle.None? {
      var k := Key(target, r.id.value);
      if k in env.cache {
        assert Is(env.cache[k], k.cls, k.id);
      } else if k in env.disk {
        assert Is(env.disk[k], k.cls, k.id);
      }
    }
  }

  /**
   * The getter as written hands out an object of the referencing class:
   * when cache and disk miss and the constructor succeeds, the result is
   * not of the relation's class.
   */
  lemma AsWrittenPlaceholderHasOwnerClass(r: SingleRel, env: Env, owner: ClassName, target: ClassName, cached: bool)
    requires Coherent(env) && owner != target
    requires UsableId(r.id) && r.handle.None?
    requires Key(target, r.id.value) !in env.cache && Key(target, r.id.value) !in env.disk
    requires env.construct(owner, r.id.value, cached).Some?
    ensures var out := GetAsWritten(r, env, owner, target, cached);
            out.value.Some? && out.value.value.cls == owner && out.value.value.cls != target
  {
    assert Is(env.construct(owner, r.id.value, cached).value, owner, r.id.value);
  }

  /**
   * A concrete instance: a `Post` whose `author` relation (class `User`)
   * holds "u1", with nothing cached or on disk, reads back a `Post`.
   */
  lemma AsWrittenPostAuthorIsPost()
    ensures var env := Env(map[], map[], (c: ClassName, id: string, cached: bool) => Some(Obj(0, c, Some(id), true)));
            var out := GetAsWritten(SingleRel(Some("u1"), None), env, "Post", "User", true);
            && Coherent(env)
            && out.value == Some(Obj(0, "Post", Some("u1"), true))
            && Get(SingleRel(Some("u1"), None), env, "User", true).value == Some(Obj(0, "User", Some("u1"), true))
  {
  }
}
