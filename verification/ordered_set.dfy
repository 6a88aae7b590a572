/**
 * NSMutableOrderedSet as the relation macros use it: a sequence without
 * repeated elements, where `addObject:` appends only an absent element
 * and `removeObject:` takes the element out, leaving the rest in order.
 */
module OrderedSet {

  /** No element occurs twice. */
  ghost predicate NoDups<T>(s: seq<T>) {
    forall i, j :: 0 <= i < j < |s| ==> s[i] != s[j]
  }

  /** `a` can be obtained from `b` by dropping elements: `b`'s order survives in `a`. */
  predicate Subseq<T(==)>(a: seq<T>, b: seq<T>)
    decreases |b|
  {
    if |b| == 0 then |a| == 0
    else (|a| > 0 && a[0] == b[0] && Subseq(a[1..], b[1..])) || Subseq(a, b[1..])
  }

  lemma {:induction false} SubseqReflexive<T>(s: seq<T>)
    ensures Subseq(s, s)
    decreases |s|
  {
    if |s| > 0 {
      SubseqReflexive(s[1..]);
    }
  }

  /** `addObject:` on an ordered set. */
  function Insert<T(==,!new)>(s: seq<T>, x: T): (r: seq<T>)
    ensures forall y :: y in r <==> y in s || y == x
    ensures s <= r && |r| <= |s| + 1
    ensures NoDups(s) ==> NoDups(r)
  {
    if x in s then s else s + [x]
  }

  /** `removeObject:` on an ordered set. */
  function Delete<T(==,!new)>(s: seq<T>, x: T): (r: seq<T>)
    ensures forall y :: y in r <==> y in s && y != x
    ensures Subseq(r, s)
    ensures |r| <= |s|
    ensures NoDups(s) ==> NoDups(r)
    ensures NoDups(s) && x in s ==> |r| == |s| - 1
    ensures x !in s ==> r == s
  {
    if |s| == 0 then []
    else if s[0] == x then Delete(s[1..], x)
    else
      var rest := Delete(s[1..], x);
      NoDupsCons(s[0], s[1..]);
      NoDupsCons(s[0], rest);
      [s[0]] + rest
  }

  /** Repeated `addObject:` of every element of `xs`, in order, starting from `s`. */
  function InsertAll<T(==,!new)>(s: seq<T>, xs: seq<T>): (r: seq<T>)
    ensures forall y :: y in r <==> y in s || y in xs
    ensures s <= r && |r| <= |s| + |xs|
    ensures NoDups(s) ==> NoDups(r)
    decreases |xs|
  {
    if |xs| == 0 then s
    else Insert(InsertAll(s, xs[..|xs| - 1]), xs[|xs| - 1])
  }

  /**
   * The ordered set built by adding the elements of `xs` one by one to an
   * empty one: every element of `xs` once, in the order of its first
   * occurrence in `xs`.
   */
  function FromSeq<T(==,!new)>(xs: seq<T>): (r: seq<T>)
    ensures NoDups(r)
    ensures forall y :: y in r <==> y in xs
    ensures |r| <= |xs|
    ensures Subseq(r, xs)
    ensures InFirstOccurrenceOrder(r, xs)
  {
    InsertAllFromEmptyIsSubseq(xs);
    InsertAllFromEmptyKeepsFirstOrder(xs);
    InsertAll([], xs)
  }

  /** The position of the first occurrence of `y` in `s`. */
  ghost function FirstIndex<T>(s: seq<T>, y: T): (k: nat)
    requires y in s
    ensures k < |s| && s[k] == y
    ensures forall i :: 0 <= i < k ==> s[i] != y
  {
    if s[0] == y then 0 else 1 + FirstIndex(s[1..], y)
  }

  /** Every element of `r` occurs in `xs`, and `r` lists them in the order they first occur there. */
  ghost predicate InFirstOccurrenceOrder<T>(r: seq<T>, xs: seq<T>) {
    (forall i :: 0 <= i < |r| ==> r[i] in xs) &&
    forall i, j :: 0 <= i < j < |r| ==> FirstIndex(xs, r[i]) < FirstIndex(xs, r[j])
  }

  /** Appending an element does not move the first occurrence of one already present. */
  lemma FirstIndexSnoc<T>(s: seq<T>, x: T, y: T)
    requires y in s
    ensures FirstIndex(s + [x], y) == FirstIndex(s, y)
  {
    var a := FirstIndex(s + [x], y);
    var b := FirstIndex(s, y);
    assert (s + [x])[b] == y;
  }

  lemma {:induction false} SubseqSnoc<T>(a: seq<T>, b: seq<T>, x: T)
    requires Subseq(a, b)
    ensures Subseq(a + [x], b + [x]) && Subseq(a, b + [x])
    decreases |b|
  {
    if |b| == 0 {
      assert (a + [x])[1..] == [];
      assert (b + [x])[1..] == [];
    } else {
      assert (b + [x])[1..] == b[1..] + [x];
      if |a| > 0 && a[0] == b[0] && Subseq(a[1..], b[1..]) {
        SubseqSnoc(a[1..], b[1..], x);
        assert (a + [x])[1..] == a[1..] + [x];
      } else {
        SubseqSnoc(a, b[1..], x);
      }
    }
  }

  lemma {:induction false} InsertAllFromEmptyIsSubseq<T(!new)>(xs: seq<T>)
    ensures Subseq(InsertAll([], xs), xs)
    decreases |xs|
  {
    if |xs| > 0 {
      var p := xs[..|xs| - 1];
      var x := xs[|xs| - 1];
      assert xs == p + [x];
      InsertAllFromEmptyIsSubseq(p);
      SubseqSnoc(InsertAll([], p), p, x);
    }
  }

  /** Appending `x` to `p` keeps `q` in order; appending it to both, when it is new, does too. */
  lemma FirstOccurrenceOrderSnoc<T>(q: seq<T>, p: seq<T>, x: T)
    requires InFirstOccurrenceOrder(q, p)
    ensures InFirstOccurrenceOrder(q, p + [x])
    ensures x !in p ==> InFirstOccurrenceOrder(q + [x], p + [x])
  {
    forall i | 0 <= i < |q|
      ensures FirstIndex(p + [x], q[i]) == FirstIndex(p, q[i]) < |p|
    {
      FirstIndexSnoc(p, x, q[i]);
    }
    if x !in p {
      var r := q + [x];
      assert FirstIndex(p + [x], x) == |p|;
      forall i | 0 <= i < |r|
        ensures r[i] in p + [x]
        ensures i < |q| ==> r[i] == q[i] && FirstIndex(p + [x], r[i]) < |p|
        ensures i == |q| ==> FirstIndex(p + [x], r[i]) == |p|
      {
      }
    }
  }

  lemma {:induction false} InsertAllFromEmptyKeepsFirstOrder<T(!new)>(xs: seq<T>)
    ensures InFirstOccurrenceOrder(InsertAll([], xs), xs)
    decreases |xs|
  {
    if |xs| > 0 {
      var p := xs[..|xs| - 1];
      var x := xs[|xs| - 1];
      assert xs == p + [x];
      InsertAllFromEmptyKeepsFirstOrder(p);
      FirstOccurrenceOrderSnoc(InsertAll([], p), p, x);
    }
  }

  lemma NoDupsSnoc<T>(s: seq<T>, x: T)
    ensures NoDups(s + [x]) <==> NoDups(s) && x !in s
  {
    forall i | 0 <= i < |s|
      ensures (s + [x])[i] == s[i] && (NoDups(s + [x]) ==> s[i] != x)
    {
      assert (s + [x])[|s|] == x;
    }
  }

  lemma NoDupsCons<T>(x: T, s: seq<T>)
    ensures NoDups([x] + s) <==> NoDups(s) && x !in s
  {
    forall i | 0 <= i < |s|
      ensures ([x] + s)[i + 1] == s[i] && (NoDups([x] + s) ==> s[i] != x)
    {
      assert ([x] + s)[0] == x;
    }
  }

  /**
   * Adding distinct elements that are all new appends them in their own
   * order: nothing is dropped and nothing is reordered.
   */
  lemma {:induction false} InsertAllAppends<T(!new)>(s: seq<T>, xs: seq<T>)
    requires NoDups(s + xs)
    ensures InsertAll(s, xs) == s + xs
    decreases |xs|
  {
    if |xs| > 0 {
      var p := xs[..|xs| - 1];
      var x := xs[|xs| - 1];
      assert s + xs == (s + p) + [x];
      NoDupsSnoc(s + p, x);
      InsertAllAppends(s, p);
    }
  }

  /**
   * Building an ordered set from `xs` loses nothing exactly when `xs`
   * holds no repeated element; otherwise the set is strictly shorter.
   */
  lemma {:induction false} FromSeqKeepsAllIffDistinct<T(!new)>(xs: seq<T>)
    ensures NoDups(xs) ==> FromSeq(xs) == xs
    ensures !NoDups(xs) ==> |FromSeq(xs)| < |xs|
    ensures |FromSeq(xs)| == |xs| <==> NoDups(xs)
    decreases |xs|
  {
    if |xs| > 0 {
      var p := xs[..|xs| - 1];
      var x := xs[|xs| - 1];
      assert xs == p + [x];
      NoDupsSnoc(p, x);
      FromSeqKeepsAllIffDistinct(p);
      assert FromSeq(xs) == Insert(FromSeq(p), x);
    }
  }
}
