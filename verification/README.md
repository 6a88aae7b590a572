# Relation accessors and guarded updates of CustomObjects, in Dafny

CustomObjects is an identity-mapped object cache for Objective-C model
objects. Entity classes declare their relations and defensive field updates
through the macros of `Model/ModelMacros.h`. This project models what those
macros expand to, as a functional state machine over one referencing object:

- **Single relation** (`MODEL_SINGLE_RELATION_M_IMPLEMENTATION`): a stored id
  and a memoised handle. The setter records only targets that have a
  non-empty id. The getter resolves the id through the cache manager's
  in-memory cache, then its disk store, then the class constructor
  `objectWithId:cached:`, and remembers the answer.
- **Multi relation** (`MODEL_MULTI_RELATION_M_IMPLEMENTATION`): an ordered
  set of ids and an ordered set of resolved handles. The getter rebuilds the
  handles when the two counts differ. `add`, `remove` and `set` edit both sets.
- **Guarded updates**: `SET_NONPRIMITIVE_IF_VAL_NOT_NIL`,
  `ADD_TO_DICT_IF_MISSING` and `DECODE_IF_CLASS_CONSISTENCY`.

Files:

- `wrappers.dfy`: `Option`, the stand-in for `nil`.
- `objects.dfy`: object references (`Obj`), cache keys, the record of
  collaborator calls (`Lookup`), and the collaborators themselves (`Env`).
- `ordered_set.dfy`: `NSMutableOrderedSet` as a duplicate-free sequence.
- `guarded_updates.dfy`: the three guarded-update macros.
- `single_relation.dfy`: the to-one accessors.
- `multi_relation.dfy`: the to-many accessors.

Modelling conventions:

- `nil` is `None`. A message sent to `nil` answers `nil`, `0` or `NO`.
- Objects are values. Two `Obj` values are equal exactly when Objective-C
  considers them the same object (`isEqual:`).
- The cache manager (`ModelManager shared`) and the class constructor are not
  modelled. They appear as parameters: `Env.cache` and `Env.disk` are maps
  from (class, id) to an object, and `Env.construct` is the answer of
  `objectWithId:cached:`. `isKindOfClass:` is a relation parameter `kindOf`.
  No behaviour is assumed of them, except in lemmas that say so through
  `Coherent`: whatever is filed under, or constructed for, a class and id is
  an object of that class with that id.
- Getters return the calls they made (`lookups`), so contracts can say
  which collaborators were consulted, in what order, and which were not.
- Exceptions (`addObject:nil`, the "Object Conformity" exception) are a
  `Raise` value returned next to the state the accessor leaves behind.

The model follows the code, which behaves as follows:

- Setting a single relation to a target without an id is silently ignored.
  It is not reported as an error.
- The multi-relation getter resolves each id with `[_class objectWithId:cached:]`
  only. It does not walk the cache → disk → constructor chain of the
  single-relation getter.
- `set<Name>:` does not clear the existing ids. It adds the members in order
  and raises at the first member it rejects, so the members before it stay
  added. It is not an all-or-nothing batch.
- `DECODE_IF_CLASS_CONSISTENCY` skips a mismatched value silently. It does not
  report a decode error.

## Model

| member | source | states |
|---|---|---|
| GuardedUpdates.SetIfKindOf | Model/ModelMacros.h:44-47 | The variable takes the value exactly when the value is an instance of the class. A nil or wrongly-typed value leaves it unchanged, so the variable can never become nil. |
| GuardedUpdates.MergeKeepsLastAccepted | Model/ModelMacros.h:44-47 | After a series of guarded assignments, the field holds the last value that passed the guard. If none passed, it keeps its original value. Nil values in between never clear it: merge, not replace. |
| GuardedUpdates.AddIfMissing | Model/ModelMacros.h:49-52 | Existing entries are never overwritten. The key set grows by the key only when the key was absent and the value is non-nil, and the new entry holds that value. |
| GuardedUpdates.AddIfMissingIdempotent | Model/ModelMacros.h:49-52 | Applying the insertion twice gives the same dictionary as applying it once. |
| GuardedUpdates.AddIfMissingFirstWins | Model/ModelMacros.h:49-52 | Once a non-nil value is stored under a key, later insertions under that key change nothing. |
| GuardedUpdates.AddIfMissingCommutes | Model/ModelMacros.h:49-52 | Insertions under different keys can be applied in either order with the same result. |
| GuardedUpdates.DecodeIfClassConsistent | Model/ModelMacros.h:159-162 | The variable becomes the decoded object only when both are non-nil and the current value is a kind of the decoded object's class. Otherwise it is unchanged. A nil variable stays nil. |
| GuardedUpdates.DecodeIdempotent | Model/ModelMacros.h:159-162 | Decoding the same key a second time changes nothing. |
| GuardedUpdates.DecodeRestoresArchivedIff | Model/ModelMacros.h:159-162 | Reading back an archived object succeeds if and only if the variable holds a non-nil default whose class is a kind of the archived object's class. |
| OrderedSet.Insert | Model/ModelMacros.h:134 | `addObject:` keeps the old sequence as a prefix, adds at most one element, keeps the elements distinct, and the result holds exactly the old elements plus the new one. |
| OrderedSet.Delete | Model/ModelMacros.h:138 | `removeObject:` leaves exactly the other elements, as a subsequence of the original (relative order kept). On a duplicate-free sequence that holds the element, it shortens it by exactly one. |
| OrderedSet.FromSeq | Model/ModelMacros.h:123-126 | Building an ordered set by adding elements one at a time gives a duplicate-free sequence with exactly the input's elements, no longer than the input. It is a subsequence of the input and lists the elements in the order of their first occurrence. |
| OrderedSet.FromSeqKeepsAllIffDistinct | Model/ModelMacros.h:123-126 | That set is the input itself when the input has no repeats. It is strictly shorter when the input has repeats, so its length equals the input's if and only if the input has no repeats. |
| OrderedSet.InsertAllAppends | Model/ModelMacros.h:145-152 | Adding distinct new elements one by one appends them after the existing ones, in their own order. |
| SingleRelation.Set | Model/ModelMacros.h:84-89 | A nil target, or a target whose id is nil or empty, leaves id and handle unchanged. Otherwise the id becomes the target's id and the handle becomes the target. |
| SingleRelation.Read | Model/ModelMacros.h:91-103 | A nil or empty id gives nil with no lookups. A remembered handle is returned with no lookups. Otherwise the cache is asked first. The disk is asked if and only if the cache missed. The constructor is called if and only if both missed. The result is the first non-nil answer, and it is remembered. The id never changes. |
| SingleRelation.ReadFollowsChain | Model/ModelMacros.h:93-101 | An unresolved read agrees exactly, in result and in the calls made, with a reference fall-through over the chain cache, disk, constructor. |
| SingleRelation.ReadMemoises | Model/ModelMacros.h:93-102 | Once a read has produced a handle, every later read returns the same handle with no lookups, whatever the collaborators now hold. |
| SingleRelation.ReadDoesNotMemoiseNil | Model/ModelMacros.h:93-102 | A read that found nothing leaves the state unchanged, so the next read repeats the same lookups. |
| SingleRelation.SetThenRead | Model/ModelMacros.h:84-93 | After setting a target that has a usable id, a read returns that target with no lookups and leaves the state as the setter left it. This holds whichever class the constructor is asked for, so for both getters. |
| SingleRelation.SetWithoutIdIsIgnored | Model/ModelMacros.h:84-89 | After setting a target without a usable id, a read behaves exactly as it did before, for both getters. |
| SingleRelation.StaleHandleAfterIdWrite | Model/ModelMacros.h:79-93 | Rewriting the readwrite id property does not invalidate the memo. The next read, by either getter, returns the old handle with no lookups, even if the handle carries a different id. |
| SingleRelation.GetAsWritten | Model/ModelMacros.h:99-101 | On a cache and disk miss, the getter as written calls the constructor on the referencing object's class (`self.class`) and returns its answer. |
| SingleRelation.Get | Model/ModelMacros.h:94-101 | On a cache and disk miss, the corrected getter calls the constructor on the relation's class and returns its answer. |
| SingleRelation.GetResolvesTargetClass | Model/ModelMacros.h:93-101 | With coherent collaborators, the corrected getter only returns objects of the relation's class. An object it resolves itself carries the stored id. |
| SingleRelation.AsWrittenPlaceholderHasOwnerClass | Model/ModelMacros.h:99-101 | With coherent collaborators, on a cache and disk miss the getter as written returns an object of the referencing class, not of the relation's class. |
| SingleRelation.AsWrittenPostAuthorIsPost | Model/ModelMacros.h:99-101 | Concrete case: a Post whose author relation (class User) holds "u1", with nothing cached or on disk, reads back a Post. The corrected getter reads back a User. |
| MultiRelation.Add | Model/ModelMacros.h:130-136 | An object without an id raises `addObject:nil` and changes nothing. Otherwise the id is appended only if absent, existing ids keep their order, and both sets stay duplicate-free. A nil handle set stays nil; an existing one becomes exactly `addObject:` of the object on it, gaining the object only if absent and nothing else. |
| MultiRelation.Remove | Model/ModelMacros.h:137-140 | Exactly that id leaves the ids, and exactly that object leaves the handles. The rest is a subsequence of the original, so order is kept. The ids shrink by one when the id was present. Both sets stay duplicate-free. |
| MultiRelation.SetAll | Model/ModelMacros.h:141-153 | Existing ids are never cleared: the old ids stay a prefix. The call raises if and only if some member does not conform to ObjectIdProtocol or has no id. Both sets stay duplicate-free. |
| MultiRelation.SetAllUpdatesHandles | Model/ModelMacros.h:141-153 | A nil handle set stays nil, because `addObject:` sent to nil does nothing. When every member is accepted, each member is added to an existing handle set in turn. |
| MultiRelation.SetAllStopsAtFirstRejected | Model/ModelMacros.h:145-149 | When member k is the first rejected, the outcome is the state after adding members 0..k-1, together with the exception for member k. The members before k stay applied. |
| MultiRelation.SetAllInsertsEachId | Model/ModelMacros.h:141-153 | When every member is accepted, the ids are those obtained by adding each member's id in turn to the existing ordered set. |
| MultiRelation.SetAllAppendsInOrder | Model/ModelMacros.h:141-153 | When the members' ids are new and distinct, they are appended after the existing ids, in the members' order. |
| MultiRelation.ResolveAll | Model/ModelMacros.h:124-126 | The ids are resolved in order through `objectWithId:cached:` on the relation's class. Resolution stops at the first nil answer, and every earlier answer is kept at its id's position. |
| MultiRelation.Rebuild | Model/ModelMacros.h:122-126 | On success: one constructor call per id, in id order; a duplicate-free result no longer than the ids, holding exactly the objects the ids resolved to. On a nil answer: `addObject:nil` is raised after the calls up to that id, and a handle set is left in place (its contents are stated by `RebuildKeepsPartialSet`). |
| MultiRelation.RebuildKeepsFirstOccurrenceOrder | Model/ModelMacros.h:123-126 | A successful rebuild keeps the resolved objects in id order: it is a subsequence of the answers, and each object sits where the first id resolving to it puts it. |
| MultiRelation.RebuildKeepsPartialSet | Model/ModelMacros.h:123-126 | After a nil answer, the handles are the ordered set built from the answers for the ids before the failing one, each added once, in first-occurrence order. |
| MultiRelation.Get | Model/ModelMacros.h:120-129 | No ids gives nil with no calls. A handle count equal to the id count returns the handles unchanged with no calls. Otherwise the handles are rebuilt. The ids never change, and both sets stay duplicate-free. |
| MultiRelation.RebuildIsStableIffDistinct | Model/ModelMacros.h:122-128 | After a successful rebuild, the next read makes no calls if and only if the ids resolved to pairwise distinct objects. Otherwise the next read rebuilds again, whatever the collaborators then hold. |
| MultiRelation.AlignedIsServedWithoutLookups | Model/ModelMacros.h:120-128 | Handles aligned with the ids, one per position carrying that id, are returned as they are. |
| MultiRelation.RebuildAligns | Model/ModelMacros.h:122-126 | With coherent collaborators, a successful rebuild of duplicate-free ids gives handles aligned with the ids: the resolved objects, in id order. |
| MultiRelation.AddKeepsAligned | Model/ModelMacros.h:130-136 | Adding an object that is the only instance carrying its id keeps ids and handles aligned. |
| MultiRelation.RemoveKeepsAligned | Model/ModelMacros.h:137-140 | Removing an object that is the only instance carrying its id keeps ids and handles aligned. |

## Findings

| source | as written | input that shows it | evidently intended | confidence | as-written member | corrected member |
|---|---|---|---|---|---|---|
| Model/ModelMacros.h:99-101 | The single-relation getter builds the placeholder with `[self.class objectWithId:… cached:…]`, using the class of the referencing object. | A `Post` whose `author` relation (class `User`) holds id `"u1"`, with `"u1"` neither cached nor on disk: the getter returns a `Post` with id `"u1"`, cast to `User *`. | `[_class objectWithId:… cached:…]`, the relation's class, as the cache and disk lookups at lines 94 and 97 and the multi-relation getter at line 125 do. | high; not executed | SingleRelation.AsWrittenPlaceholderHasOwnerClass | SingleRelation.GetResolvesTargetClass |

`SingleRelation.GetAsWritten` is the getter as written and `SingleRelation.Get`
is the corrected one. Both are instances of `SingleRelation.Read`, which
takes the constructor's receiving class as a parameter. The chain, memo
and setter-then-read properties are proved of `Read` for any receiving
class, so they hold for both getters.

## Left out

- `SHARED_SINGLETON_*` (lines 21-32): process-global initialisation through `dispatch_once`. The manager is an explicit `Env` parameter instead.
- `WEAK` and the property-declaration macros (lines 35-36, 55-80, 109-117): these only declare storage. The model keeps the state they declare: the id, the handle and the two ordered sets.
- Weak zeroing of the single-relation handle: under ARC the `weak` ivar may become nil whenever the target is deallocated. Deallocation is not modelled. A zeroed handle behaves like `handle == None` for the next read.
- INT/FLOAT/DOUBLE property macros, `ENCODE_OBJECT`, `ENCODE_INT` and `DECODE_INT` (lines 64-71, 164-171): declarations and one-line coder calls with no logic. Floating point is not modelled.
- Side effects of the collaborators: the cache manager may register what it loads from disk, and `objectWithId:cached:` may register the placeholder. Their implementations (`BaseModelObject`, `ModelManager`) are not part of this model, so each read sees a fixed `Env`.
- Cache manager internals: NSCache eviction, `persist`, `persistScheduled`, `wipeDiskCache`, `persistToPath:` and `loadFromPath:`. These are file I/O, an unspecified eviction policy and threading. Concurrency is not modelled.
- String length: `length` counts UTF-16 code units, and a Dafny `string` counts characters. The only use is the non-empty test, which agrees for both.
- `removeObject:nil` on an ordered set is taken to do nothing. Foundation's behaviour here is not part of this model.
- MultiRelation.Get: returns the handles as a value. The source returns `.array` of the mutable ordered set (line 128), which is a live proxy: a later `add`, `remove` or rebuild on the same object also changes an array the caller already holds. The model does not track aliasing.
- SingleRelation.Read: a placeholder built with `cached:NO` (line 100) may be held only by the weak ivar. Under ARC it can be released right after the assignment, so line 102 can return nil within the same read. The model returns the constructed object; it does not model reference counting.
- GuardedUpdates.DecodeIfClassConsistent: lines 160-161 call `decodeObjectForKey:` twice. The model assumes both calls return the same object, so the class that is checked is the class of the value assigned.
- MultiRelation.SetAll: its contract does not name the exception raised, nor the effect on the handles. `SetAllStopsAtFirstRejected` states the exception (the one for the first rejected member), and `SetAllUpdatesHandles` states the handles.
