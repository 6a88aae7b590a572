/**
 * The accessors `MODEL_MULTI_RELATION_M_IMPLEMENTATION` generates for a
 * to-many relation: an ordered set of ids (`<name>Ids`) and an ordered set
 * of resolved handles (`<name>OrderedMutableSet`). The getter rebuilds the
 * handles from the ids whenever the two counts differ; `add`, `remove` and
 * `set` edit both ordered sets in place.
 *
 * A nil id set and an empty one behave alike in every accessor (the
 * mutators create an empty set before inserting, `remove` on nil does
 * nothing, the getter answers nil for both), so the ids are a plain
 * sequence. The handle set is optional: adding to a nil handle set does
 * nothing, which is observable.
 */
module MultiRelation {
  import opened Wrappers
  import opened Objects
  import opened OrderedSet

  datatype MultiRel = MultiRel(ids: seq<string>, handles: Option<seq<Obj>>)

  /** Both ordered sets are sets: no id and no handle occurs twice. */
  ghost predicate Valid(m: MultiRel) {
    NoDups(m.ids) && (m.handles.Some? ==> NoDups(m.handles.value))
  }

  /** Exceptions the accessors raise. */
  datatype Raise =
    | NilInsertion                   // addObject:nil on an ordered set
    | ObjectConformity(cls: ClassName) // `set` given an object outside ObjectIdProtocol

  /** The state a mutator leaves, and the exception it raised, if any. */
  datatype Step = Step(rel: MultiRel, raised: Option<Raise>)

  /** `[handles addObject:o]`; a message to a nil set does nothing. */
  function AddHandle(handles: Option<seq<Obj>>, o: Obj): Option<seq<Obj>> {
    match handles
    case None => None
    case Some(hs) => Some(Insert(hs, o))
  }

  /**
   * `add<Name>Object:`. The object's id joins the ids unless it is already
   * there; an object without an id (or a nil object) makes `addObject:nil`
   * raise before anything changes.
   */
  function Add(m: MultiRel, x: Option<Obj>): (s: Step)
    ensures Valid(m) ==> Valid(s.rel)
    ensures s.raised.Some? <==> IdOf(x).None?
    ensures s.raised.Some? ==> s.raised == Some(NilInsertion) && s.rel == m
    ensures s.raised.None? ==>
              var oid := IdOf(x).value;
              && m.ids <= s.rel.ids
              && (forall y :: y in s.rel.ids <==> y in m.ids || y == oid)
              && |s.rel.ids| == |m.ids| + (if oid in m.ids then 0 else 1)
              && (m.handles.None? <==> s.rel.handles.None?)
              && (m.handles.Some? ==> m.handles.value <= s.rel.handles.value && x.value in s.rel.handles.value)
              && (m.handles.Some? ==> s.rel.handles == Some(Insert(m.handles.value, x.value)))
  {
    match IdOf(x)
    case None => Step(m, Some(NilInsertion))
    case Some(oid) => Step(MultiRel(Insert(m.ids, oid), AddHandle(m.handles, x.value)), None)
  }

  /**
   * `remove<Name>Object:`. The object's id leaves the ids and the object
   * leaves the handles; everything else keeps its relative order.
   * Removing nil, or an id that is absent, leaves the ids alone.
   */
  function Remove(m: MultiRel, x: Option<Obj>): (r: MultiRel)
    ensures Valid(m) ==> Valid(r)
    ensures forall y :: y in r.ids <==> y in m.ids && Some(y) != IdOf(x)
    ensures Subseq(r.ids, m.ids)
    ensures NoDups(m.ids) && IdOf(x).Some? && IdOf(x).value in m.ids ==> |r.ids| == |m.ids| - 1
    ensures m.handles.None? <==> r.handles.None?
    ensures m.handles.Some? ==>
              && Subseq(r.handles.value, m.handles.value)
              && forall o :: o in r.handles.value <==> o in m.handles.value && Some(o) != x
  {
    SubseqReflexive(m.ids);
    SubseqReflexive(m.handles.GetOr([]));
    var ids := match IdOf(x) case None => m.ids case Some(oid) => Delete(m.ids, oid);
    var handles := match m.handles
      case None => None
      case Some(hs) => (match x case None => Some(hs) case Some(o) => Some(Delete(hs, o)));
    MultiRel(ids, handles)
  }

  /** A member `set` accepts: it adopts ObjectIdProtocol and answers a non-nil id. */
  predicate Acceptable(o: Obj) {
    o.conformsToIdProtocol && o.objectId.Some?
  }

  /** Every member of `objects` is acceptable. */
  predicate AllAcceptable(objects: seq<Obj>) {
    forall i :: 0 <= i < |objects| ==> Acceptable(objects[i])
  }

  lemma AllAcceptableSnoc(objects: seq<Obj>)
    requires |objects| > 0
    ensures AllAcceptable(objects) <==> AllAcceptable(objects[..|objects| - 1]) && Acceptable(objects[|objects| - 1])
  {
    assert forall i :: 0 <= i < |objects| - 1 ==> objects[..|objects| - 1][i] == objects[i];
  }

  /** The exception `set` raises on a member it does not accept. */
  function RejectionOf(o: Obj): Raise {
    if !o.conformsToIdProtocol then ObjectConformity(o.cls) else NilInsertion
  }

  /** The ids of a run of accepted members, in order. */
  function IdsOf(objects: seq<Obj>): (ids: seq<string>)
    requires AllAcceptable(objects)
    ensures |ids| == |objects|
    ensures forall i :: 0 <= i < |objects| ==> objects[i].objectId == Some(ids[i])
    decreases |objects|
  {
    if |objects| == 0 then []
    else
      var last := objects[|objects| - 1];
      assert Acceptable(last);
      IdsOf(objects[..|objects| - 1]) + [last.objectId.value]
  }

  /** One iteration of `set`'s loop. */
  function AddMember(m: MultiRel, o: Obj): Step {
    if !o.conformsToIdProtocol then Step(m, Some(ObjectConformity(o.cls)))
    else Add(m, Some(o))
  }

  /**
   * `set<Name>:`. Each member is added in order, exactly as `add` does,
   * without first clearing the existing ids. The first member that does not
   * conform to ObjectIdProtocol (or answers a nil id) raises, and the
   * members before it stay added.
   */
  function SetAll(m: MultiRel, objects: seq<Obj>): (s: Step)
    ensures Valid(m) ==> Valid(s.rel)
    ensures m.ids <= s.rel.ids
    ensures s.raised.None? <==> AllAcceptable(objects)
    decreases |objects|
  {
    if |objects| == 0 then Step(m, None)
    else
      var n := |objects|;
      var before := SetAll(m, objects[..n - 1]);
      AllAcceptableSnoc(objects);
      if before.raised.Some? then before
      else
        AddMember(before.rel, objects[n - 1])
  }

  /** One more member: `set` stops if it raised already, and otherwise adds the member. */
  lemma SetAllSnoc(m: MultiRel, objects: seq<Obj>)
    requires |objects| > 0
    ensures var before := SetAll(m, objects[..|objects| - 1]);
            SetAll(m, objects) == if before.raised.Some? then before else AddMember(before.rel, objects[|objects| - 1])
  {
  }

  /**
   * `set`'s effect on the handles: a nil handle set stays nil, since
   * `addObject:` sent to nil does nothing; otherwise, when every member is
   * accepted, each member is added to the handles in order.
   */
  lemma {:induction false} SetAllUpdatesHandles(m: MultiRel, objects: seq<Obj>)
    ensures m.handles.None? ==> SetAll(m, objects).rel.handles.None?
    ensures AllAcceptable(objects) && m.handles.Some? ==>
              SetAll(m, objects).rel.handles == Some(InsertAll(m.handles.value, objects))
    decreases |objects|
  {
    if |objects| > 0 {
      AllAcceptableSnoc(objects);
      SetAllSnoc(m, objects);
      SetAllUpdatesHandles(m, objects[..|objects| - 1]);
    }
  }

  /**
   * `set` is not all-or-nothing: when member `k` is the first one rejected,
   * the outcome is the state after adding members `0..k-1`, together with
   * the exception for member `k`.
   */
  lemma {:induction false} SetAllStopsAtFirstRejected(m: MultiRel, objects: seq<Obj>, k: nat)
    requires k < |objects| && !Acceptable(objects[k])
    requires AllAcceptable(objects[..k])
    ensures SetAll(m, objects[..k]).raised.None?
    ensures SetAll(m, objects) == Step(SetAll(m, objects[..k]).rel, Some(RejectionOf(objects[k])))
    decreases |objects|
  {
    var n := |objects|;
    SetAllSnoc(m, objects);
    if n > k + 1 {
      var shorter := objects[..n - 1];
      assert shorter[..k] == objects[..k] && shorter[k] == objects[k];
      SetAllStopsAtFirstRejected(m, shorter, k);
    } else {
      assert objects[..n - 1] == objects[..k];
    }
  }

  /**
   * When every member is accepted, `set` leaves the ids that adding each
   * member's id in turn to the existing ordered set gives.
   */
  lemma {:induction false} SetAllInsertsEachId(m: MultiRel, objects: seq<Obj>)
    requires AllAcceptable(objects)
    ensures SetAll(m, objects).raised.None?
    ensures SetAll(m, objects).rel.ids == InsertAll(m.ids, IdsOf(objects))
    decreases |objects|
  {
    if |objects| > 0 {
      var n := |objects|;
      AllAcceptableSnoc(objects);
      SetAllSnoc(m, objects);
      SetAllInsertsEachId(m, objects[..n - 1]);
      assert IdsOf(objects) == IdsOf(objects[..n - 1]) + [objects[n - 1].objectId.value];
      assert IdsOf(objects)[..n - 1] == IdsOf(objects[..n - 1]);
    }
  }

  /**
   * Adding members whose ids are all new and distinct appends those ids
   * after the existing ones, in the members' order.
   */
  lemma SetAllAppendsInOrder(m: MultiRel, objects: seq<Obj>)
    requires AllAcceptable(objects)
    requires NoDups(m.ids + IdsOf(objects))
    ensures SetAll(m, objects).raised.None?
    ensures SetAll(m, objects).rel.ids == m.ids + IdsOf(objects)
  {
    SetAllInsertsEachId(m, objects);
    InsertAllAppends(m.ids, IdsOf(objects));
  }

  /** What one read of the getter returns, the state it leaves, its calls and exception. */
  datatype MultiRead = MultiRead(rel: MultiRel, value: Option<seq<Obj>>, lookups: seq<Lookup>, raised: Option<Raise>)

  /** The objects resolved for an id sequence, and whether resolution hit a nil. */
  datatype Resolution = Resolution(objs: seq<Obj>, failed: bool)

  /**
   * The rebuild loop's calls to `[target objectWithId:id cached:cached]`,
   * one per id in id order, stopping at the first nil answer.
   */
  function ResolveAll(env: Env, target: ClassName, cached: bool, ids: seq<string>): (res: Resolution)
    ensures |res.objs| <= |ids|
    ensures forall i :: 0 <= i < |res.objs| ==> env.construct(target, ids[i], cached) == Some(res.objs[i])
    ensures !res.failed ==> |res.objs| == |ids|
    ensures res.failed ==> |res.objs| < |ids| && env.construct(target, ids[|res.objs|], cached).None?
    decreases |ids|
  {
    if |ids| == 0 then Resolution([], false)
    else
      var before := ResolveAll(env, target, cached, ids[..|ids| - 1]);
      if before.failed then before
      else match env.construct(target, ids[|ids| - 1], cached)
        case None => Resolution(before.objs, true)
        case Some(o) => Resolution(before.objs + [o], false)
  }

  /** The constructor calls made for `ids`, in order. */
  function CtorCalls(target: ClassName, cached: bool, ids: seq<string>): (calls: seq<Lookup>)
    ensures |calls| == |ids|
    ensures forall i :: 0 <= i < |ids| ==> calls[i] == CtorCall(target, ids[i], cached)
  {
    seq(|ids|, i requires 0 <= i < |ids| => CtorCall(target, ids[i], cached))
  }

  /** The getter leaves the handles alone exactly when there are as many as ids. */
  predicate CountsAgree(m: MultiRel) {
    m.handles.Some? && |m.handles.value| == |m.ids|
  }

  /**
   * The rebuild in `MODEL_MULTI_RELATION_M_IMPLEMENTATION`'s getter: resolve every id, in id order,
   * through `objectWithId:cached:` and add each answer to a fresh ordered
   * set. A nil answer makes `addObject:` raise, leaving the partly rebuilt
   * set in place.
   */
  function Rebuild(ids: seq<string>, env: Env, target: ClassName, cached: bool): (out: MultiRead)
    ensures out.rel.ids == ids && out.rel.handles.Some? && NoDups(out.rel.handles.value)
    ensures out.raised.None? ==>
              && (forall i :: 0 <= i < |ids| ==> env.construct(target, ids[i], cached).Some?)
              && out.lookups == CtorCalls(target, cached, ids)
              && out.value == out.rel.handles
              && |out.value.value| <= |ids|
              && (forall o :: o in out.value.value <==>
                    exists i :: 0 <= i < |ids| && env.construct(target, ids[i], cached) == Some(o))
    ensures out.raised.Some? ==>
              && out.raised == Some(NilInsertion) && out.value.None?
              && 0 < |out.lookups| <= |ids|
              && out.lookups == CtorCalls(target, cached, ids[..|out.lookups|])
              && env.construct(target, ids[|out.lookups| - 1], cached).None?
              && (forall i :: 0 <= i < |out.lookups| - 1 ==> env.construct(target, ids[i], cached).Some?)
  {
    var res := ResolveAll(env, target, cached, ids);
    var rebuilt := FromSeq(res.objs);
    if res.failed then
      MultiRead(MultiRel(ids, Some(rebuilt)), None, CtorCalls(target, cached, ids[..|res.objs| + 1]), Some(NilInsertion))
    else
      ResolvedMembers(env, target, cached, ids);
      MultiRead(MultiRel(ids, Some(rebuilt)), Some(rebuilt), CtorCalls(target, cached, ids), None)
  }

  /**
   * A complete rebuild lists each resolved object once, in the order in
   * which the ids first resolve to it.
   */
  lemma RebuildKeepsFirstOccurrenceOrder(ids: seq<string>, env: Env, target: ClassName, cached: bool)
    ensures var out := Rebuild(ids, env, target, cached);
            var objs := ResolveAll(env, target, cached, ids).objs;
            out.raised.None? ==> Subseq(out.value.value, objs) && InFirstOccurrenceOrder(out.value.value, objs)
  {
  }

  /**
   * A rebuild interrupted by a nil answer keeps the ordered set built so
   * far: the answers for the ids before the failing one, each added once,
   * in first-occurrence order.
   */
  lemma RebuildKeepsPartialSet(ids: seq<string>, env: Env, target: ClassName, cached: bool)
    ensures var out := Rebuild(ids, env, target, cached);
            out.raised.Some? ==>
              var n := |out.lookups| - 1;
              && (forall i :: 0 <= i < n ==> env.construct(target, ids[i], cached).Some?)
              && out.rel.handles ==
                 Some(FromSeq(seq(n, i requires 0 <= i < n && env.construct(target, ids[i], cached).Some? =>
                                    env.construct(target, ids[i], cached).value)))
  {
    var out := Rebuild(ids, env, target, cached);
    var res := ResolveAll(env, target, cached, ids);
    if out.raised.Some? {
      var n := |out.lookups| - 1;
      var answers := seq(n, i requires 0 <= i < n && env.construct(target, ids[i], cached).Some? =>
                          env.construct(target, ids[i], cached).value);
      assert answers == res.objs;
    }
  }

  /** A complete resolution holds exactly the objects the constructor answers for the ids. */
  lemma ResolvedMembers(env: Env, target: ClassName, cached: bool, ids: seq<string>)
    requires !ResolveAll(env, target, cached, ids).failed
    ensures forall o :: o in FromSeq(ResolveAll(env, target, cached, ids).objs) <==>
              exists i :: 0 <= i < |ids| && env.construct(target, ids[i], cached) == Some(o)
  {
    var objs := ResolveAll(env, target, cached, ids).objs;
    assert |objs| == |ids|;
    forall o | o in objs
      ensures exists i :: 0 <= i < |ids| && env.construct(target, ids[i], cached) == Some(o)
    {
      var i :| 0 <= i < |objs| && objs[i] == o;
    }
    forall o | exists i :: 0 <= i < |ids| && env.construct(target, ids[i], cached) == Some(o)
      ensures o in objs
    {
      var i :| 0 <= i < |ids| && env.construct(target, ids[i], cached) == Some(o);
      assert objs[i] == o;
    }
  }

  /**
   * The getter. No ids: nil, nothing resolved. As many handles as ids: the
   * handles, untouched, nothing resolved. Otherwise a rebuild.
   */
  function Get(m: MultiRel, env: Env, target: ClassName, cached: bool): (out: MultiRead)
    ensures out.rel.ids == m.ids
    ensures Valid(m) ==> Valid(out.rel)
    ensures |m.ids| == 0 ==> out == MultiRead(m, None, [], None)
    ensures |m.ids| > 0 && CountsAgree(m) ==> out == MultiRead(m, m.handles, [], None)
    ensures |m.ids| > 0 && !CountsAgree(m) ==> out == Rebuild(m.ids, env, target, cached)
  {
    if |m.ids| == 0 then MultiRead(m, None, [], None)
    else if CountsAgree(m) then MultiRead(m, m.handles, [], None)
    else Rebuild(m.ids, env, target, cached)
  }

  /**
   * The count check is only an approximation of staleness: after a
   * successful rebuild, the next read is served from the handles exactly
   * when the ids resolved to pairwise distinct objects. When two ids resolve
   * to the same object the ordered set keeps one copy, the counts differ
   * again, and the next read rebuilds again, whatever the collaborators
   * then hold.
   */
  lemma RebuildIsStableIffDistinct(m: MultiRel, env: Env, later: Env, target: ClassName, cached: bool)
    requires |m.ids| > 0 && !CountsAgree(m)
    requires Get(m, env, target, cached).raised.None?
    ensures var first := Get(m, env, target, cached);
            var res := ResolveAll(env, target, cached, m.ids);
            (Get(first.rel, later, target, cached).lookups == [] <==> NoDups(res.objs))
  {
    var res := ResolveAll(env, target, cached, m.ids);
    FromSeqKeepsAllIffDistinct(res.objs);
    var first := Get(m, env, target, cached);
    if !NoDups(res.objs) {
      assert !CountsAgree(first.rel);
      assert |Get(first.rel, later, target, cached).lookups| > 0;
    }
  }

  /**
   * Handles in step with ids: one handle per id, at the same position,
   * carrying that id.
   */
  ghost predicate Aligned(m: MultiRel) {
    m.handles.Some? && InStep(m.ids, m.handles.value)
  }

  /** The identity-map discipline for one object: no other handle carries its id. */
  ghost predicate Canonical(x: Obj, hs: seq<Obj>) {
    forall i :: 0 <= i < |hs| && hs[i].objectId == x.objectId ==> hs[i] == x
  }

  /** Aligned handles are served by the getter as they are. */
  lemma AlignedIsServedWithoutLookups(m: MultiRel, env: Env, target: ClassName, cached: bool)
    requires Aligned(m) && |m.ids| > 0
    ensures Get(m, env, target, cached) == MultiRead(m, m.handles, [], None)
  {
  }

  /**
   * With coherent collaborators, a successful rebuild of a valid id set
   * yields handles aligned with the ids: the resolved objects, in id order.
   */
  lemma RebuildAligns(m: MultiRel, env: Env, target: ClassName, cached: bool)
    requires Coherent(env) && NoDups(m.ids)
    requires |m.ids| > 0 && !CountsAgree(m)
    requires Get(m, env, target, cached).raised.None?
    ensures Aligned(Get(m, env, target, cached).rel)
    ensures Get(m, env, target, cached).value == Some(ResolveAll(env, target, cached, m.ids).objs)
  {
    var res := ResolveAll(env, target, cached, m.ids);
    forall i | 0 <= i < |res.objs|
      ensures res.objs[i].objectId == Some(m.ids[i])
    {
      assert env.construct(target, m.ids[i], cached).Some?;
      assert Is(env.construct(target, m.ids[i], cached).value, target, m.ids[i]);
    }
    assert NoDups(res.objs) by {
      forall i, j | 0 <= i < j < |res.objs|
        ensures res.objs[i] != res.objs[j]
      {
        assert m.ids[i] != m.ids[j];
      }
    }
    FromSeqKeepsAllIffDistinct(res.objs);
  }

  /**
   * Adding a canonical object to aligned handles keeps them aligned: the id
   * and the object are both already present, or both appended.
   */
  lemma AddKeepsAligned(m: MultiRel, x: Obj)
    requires Aligned(m) && x.objectId.Some? && Canonical(x, m.handles.value)
    ensures Add(m, Some(x)).raised.None?
    ensures Aligned(Add(m, Some(x)).rel)
  {
    var hs := m.handles.value;
    var oid := x.objectId.value;
    if oid in m.ids {
      var i :| 0 <= i < |m.ids| && m.ids[i] == oid;
      assert hs[i] == x;
    } else {
      forall j | 0 <= j < |hs|
        ensures hs[j] != x
      {
        assert m.ids[j] != oid;
      }
    }
  }

  /**
   * Removing a canonical object from aligned handles keeps them aligned:
   * the id and the object leave from the same position.
   */
  lemma RemoveKeepsAligned(m: MultiRel, x: Obj)
    requires Aligned(m) && x.objectId.Some? && Canonical(x, m.handles.value)
    ensures Aligned(Remove(m, Some(x)))
  {
    DeleteInStep(m.ids, m.handles.value, x.objectId.value, x);
  }

  /** `hs` holds, position by position, an object carrying each id of `ids`. */
  ghost predicate InStep(ids: seq<string>, hs: seq<Obj>) {
    |hs| == |ids| && forall i :: 0 <= i < |ids| ==> hs[i].objectId == Some(ids[i])
  }

  lemma InStepCons(id: string, h: Obj, ids: seq<string>, hs: seq<Obj>)
    ensures InStep([id] + ids, [h] + hs) <==> h.objectId == Some(id) && InStep(ids, hs)
  {
    var a, b := [id] + ids, [h] + hs;
    assert a[0] == id && b[0] == h;
    assert forall i :: 0 <= i < |ids| ==> a[i + 1] == ids[i];
    assert forall i :: 0 <= i < |hs| ==> b[i + 1] == hs[i];
    if h.objectId == Some(id) && InStep(ids, hs) {
      forall i | 0 <= i < |a|
        ensures b[i].objectId == Some(a[i])
      {
        if i > 0 {
          assert b[i] == hs[i - 1] && a[i] == ids[i - 1];
        }
      }
    }
  }

  lemma {:induction false} DeleteInStep(ids: seq<string>, hs: seq<Obj>, oid: string, x: Obj)
    requires InStep(ids, hs) && x.objectId == Some(oid) && Canonical(x, hs)
    ensures InStep(Delete(ids, oid), Delete(hs, x))
    decreases |ids|
  {
    if |ids| > 0 {
      assert ids == [ids[0]] + ids[1..] && hs == [hs[0]] + hs[1..];
      InStepCons(ids[0], hs[0], ids[1..], hs[1..]);
      DeleteInStep(ids[1..], hs[1..], oid, x);
      if ids[0] == oid {
        assert hs[0] == x;
      } else {
        InStepCons(ids[0], hs[0], Delete(ids[1..], oid), Delete(hs[1..], x));
      }
    }
  }
}
