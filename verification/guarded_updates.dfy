/**
 * The defensive assignment helpers the entity classes use when merging a
 * dictionary into an existing object and when decoding an archive:
 * `SET_NONPRIMITIVE_IF_VAL_NOT_NIL`, `ADD_TO_DICT_IF_MISSING` and
 * `DECODE_IF_CLASS_CONSISTENCY`. Each is a guarded assignment that leaves
 * its target alone when the guard fails.
 *
 * `kindOf(c, k)` is the runtime's answer to `isKindOfClass:`: is class `c`
 * the class `k` or one of its subclasses. The class table is not part of
 * this model, so the relation is a parameter.
 */
module GuardedUpdates {
  import opened Wrappers
  import opened Objects

  /** `[value isKindOfClass:cls]`; a message to `nil` answers NO. */
  predicate IsKindOf(kindOf: (ClassName, ClassName) -> bool, value: Option<Obj>, cls: ClassName) {
    value.Some? && kindOf(value.value.cls, cls)
  }

  /**
   * `SET_NONPRIMITIVE_IF_VAL_NOT_NIL(cls, var, value)`: the variable takes
   * the value only when the value is an instance of `cls`; a nil or
   * wrongly-typed value leaves the variable as it was.
   */
  function SetIfKindOf(kindOf: (ClassName, ClassName) -> bool, cls: ClassName,
                       current: Option<Obj>, value: Option<Obj>): (r: Option<Obj>)
    ensures IsKindOf(kindOf, value, cls) ==> r == value
    ensures !IsKindOf(kindOf, value, cls) ==> r == current
    ensures value.None? ==> r == current
    ensures r.Some? ==> current.Some? || r == value
  {
    if IsKindOf(kindOf, value, cls) then value else current
  }

  /** A field merged with `SetIfKindOf` from each value of `values`, first to last. */
  function MergeAll(kindOf: (ClassName, ClassName) -> bool, cls: ClassName,
                    current: Option<Obj>, values: seq<Option<Obj>>): Option<Obj>
    decreases |values|
  {
    if |values| == 0 then current
    else MergeAll(kindOf, cls, SetIfKindOf(kindOf, cls, current, values[0]), values[1..])
  }

  /** The last value of `values` that passes the class guard, if any. */
  function LastAccepted(kindOf: (ClassName, ClassName) -> bool, cls: ClassName,
                        values: seq<Option<Obj>>): (r: Option<Obj>)
    ensures r.Some? ==> r in values && IsKindOf(kindOf, r, cls)
    decreases |values|
  {
    if |values| == 0 then None
    else if IsKindOf(kindOf, values[|values| - 1], cls) then values[|values| - 1]
    else LastAccepted(kindOf, cls, values[..|values| - 1])
  }

  /**
   * Merge, not replace: after a series of updates the field holds the last
   * value that passed the guard, and holds its original value when none did.
   * Nil and wrongly-typed values in between never clear it.
   */
  lemma {:induction false} MergeKeepsLastAccepted(kindOf: (ClassName, ClassName) -> bool, cls: ClassName,
                                                  current: Option<Obj>, values: seq<Option<Obj>>)
    ensures LastAccepted(kindOf, cls, values).Some? ==> MergeAll(kindOf, cls, current, values) == LastAccepted(kindOf, cls, values)
    ensures LastAccepted(kindOf, cls, values).None? ==> MergeAll(kindOf, cls, current, values) == current
    decreases |values|
  {
    if |values| > 0 {
      var n := |values|;
      var next := SetIfKindOf(kindOf, cls, current, values[0]);
      MergeKeepsLastAccepted(kindOf, cls, next, values[1..]);
      if n > 1 {
        var tail := values[1..];
        assert tail[..|tail| - 1] == values[1..n - 1];
        assert values[..n - 1][1..] == values[1..n - 1];
        MergeKeepsLastAcceptedStep(kindOf, cls, values);
      }
    }
  }

  /** `LastAccepted` over `values` equals it over `values[1..]`, unless only `values[0]` passes. */
  lemma {:induction false} MergeKeepsLastAcceptedStep(kindOf: (ClassName, ClassName) -> bool, cls: ClassName,
                                                      values: seq<Option<Obj>>)
    requires |values| > 0
    ensures LastAccepted(kindOf, cls, values[1..]).Some? ==> LastAccepted(kindOf, cls, values) == LastAccepted(kindOf, cls, values[1..])
    ensures LastAccepted(kindOf, cls, values[1..]).None? ==>
              LastAccepted(kindOf, cls, values) == (if IsKindOf(kindOf, values[0], cls) then values[0] else None)
    decreases |values|
  {
    var n := |values|;
    if n > 1 {
      assert values[1..][..n - 2] == values[..n - 1][1..];
      MergeKeepsLastAcceptedStep(kindOf, cls, values[..n - 1]);
    }
  }

  /**
   * `ADD_TO_DICT_IF_MISSING(dict, key, value)`: the key is added only when
   * the dictionary has no object for it and the value is not nil.
   */
  function AddIfMissing(d: map<string, Obj>, key: string, value: Option<Obj>): (r: map<string, Obj>)
    ensures forall k :: k in d ==> k in r && r[k] == d[k]
    ensures r.Keys == if key !in d && value.Some? then d.Keys + {key} else d.Keys
    ensures key !in d && value.Some? ==> r[key] == value.value
  {
    if key !in d && value.Some? then d[key := value.value] else d
  }

  /** Applying `ADD_TO_DICT_IF_MISSING` twice is the same as applying it once. */
  lemma AddIfMissingIdempotent(d: map<string, Obj>, key: string, value: Option<Obj>)
    ensures AddIfMissing(AddIfMissing(d, key, value), key, value) == AddIfMissing(d, key, value)
  {
  }

  /** The first non-nil value added under a key wins over every later one. */
  lemma AddIfMissingFirstWins(d: map<string, Obj>, key: string, first: Obj, later: Option<Obj>)
    ensures AddIfMissing(AddIfMissing(d, key, Some(first)), key, later) == AddIfMissing(d, key, Some(first))
    ensures key in AddIfMissing(AddIfMissing(d, key, Some(first)), key, later)
  {
  }

  /** Additions under different keys do not interfere: their order does not matter. */
  lemma AddIfMissingCommutes(d: map<string, Obj>, k1: string, v1: Option<Obj>, k2: string, v2: Option<Obj>)
    requires k1 != k2
    ensures AddIfMissing(AddIfMissing(d, k1, v1), k2, v2) == AddIfMissing(AddIfMissing(d, k2, v2), k1, v1)
  {
  }

  /**
   * `DECODE_IF_CLASS_CONSISTENCY(var, key)`: the variable takes the decoded
   * object only when the variable's current value is an instance of the
   * decoded object's class. A nil variable is never assigned (a message to
   * nil answers NO), and neither is a variable when the key decodes to nil
   * (`isKindOfClass:` of a nil class answers NO).
   */
  function DecodeIfClassConsistent(kindOf: (ClassName, ClassName) -> bool, current: Option<Obj>,
                                   archive: map<string, Obj>, key: string): (r: Option<Obj>)
    ensures r == current || (key in archive && r == Some(archive[key]))
    ensures r.None? <==> current.None?
    ensures r != current ==> kindOf(current.value.cls, r.value.cls)
    ensures current.Some? && key in archive && kindOf(current.value.cls, archive[key].cls) ==> r == Some(archive[key])
  {
    var decoded := if key in archive then Some(archive[key]) else None;
    if current.Some? && decoded.Some? && kindOf(current.value.cls, decoded.value.cls) then decoded else current
  }

  /** Decoding the same key twice changes nothing the first decode did not. */
  lemma DecodeIdempotent(kindOf: (ClassName, ClassName) -> bool, current: Option<Obj>,
                         archive: map<string, Obj>, key: string)
    ensures var once := DecodeIfClassConsistent(kindOf, current, archive, key);
            DecodeIfClassConsistent(kindOf, once, archive, key) == once
  {
  }

  /**
   * Reading back what an encoder wrote: a variable holding a default of a
   * kind of the archived object's class ends up with the archived object;
   * any other variable (nil, or of an unrelated class) keeps its value.
   */
  lemma DecodeRestoresArchivedIff(kindOf: (ClassName, ClassName) -> bool, current: Option<Obj>,
                                  key: string, v: Obj)
    requires current != Some(v)
    ensures DecodeIfClassConsistent(kindOf, current, map[key := v], key) == Some(v)
            <==> current.Some? && kindOf(current.value.cls, v.cls)
  {
  }
}
