/** Sequence operations that stand for the document store's primitives:
    `findOne` (first match in natural order), `deleteOne` (removal of one
    position), `deleteMany` and `find` (filtering), and the uniqueness of a
    key across a collection (a unique index). */
module Collections {
  import opened Wrappers

  /** The position of the first element satisfying `p`, if any. */
  function FirstIndex<T>(xs: seq<T>, p: T -> bool): (r: Option<nat>)
    ensures r.Some? ==> r.value < |xs| && p(xs[r.value])
    ensures r.Some? ==> forall j :: 0 <= j < r.value ==> !p(xs[j])
    ensures r.None? <==> forall j :: 0 <= j < |xs| ==> !p(xs[j])
  {
    if xs == [] then None
    else if p(xs[0]) then Some(0)
    else match FirstIndex(xs[1..], p)
      case None => None
      case Some(k) => Some(k + 1)
  }

  /** `xs` without its element at position `i`; everything else keeps its order. */
  function RemoveAt<T>(xs: seq<T>, i: nat): (r: seq<T>)
    requires i < |xs|
    ensures |r| == |xs| - 1
    ensures forall j :: 0 <= j < i ==> r[j] == xs[j]
    ensures forall j :: i <= j < |r| ==> r[j] == xs[j + 1]
    ensures multiset(r) == multiset(xs) - multiset{xs[i]}
  {
    assert xs == xs[..i] + [xs[i]] + xs[i + 1..];
    xs[..i] + xs[i + 1..]
  }

  /** Removing position `i` keeps every element other than `xs[i]` and
      adds none. */
  lemma RemoveAtMembers<T>(xs: seq<T>, i: nat)
    requires i < |xs|
    ensures forall x :: x in xs && x != xs[i] ==> x in RemoveAt(xs, i)
    ensures forall x :: x in RemoveAt(xs, i) ==> x in xs
  {
    var r := RemoveAt(xs, i);
    forall x | x in xs && x != xs[i] ensures x in r {
      assert x in multiset(xs);
    }
    forall x | x in r ensures x in xs {
      assert x in multiset(r);
    }
  }

  /** `f` applied to each element, in order. */
  function Map<A, B>(xs: seq<A>, f: A -> B): (ys: seq<B>)
    ensures |ys| == |xs|
    ensures forall i :: 0 <= i < |xs| ==> ys[i] == f(xs[i])
  {
    seq(|xs|, i requires 0 <= i < |xs| => f(xs[i]))
  }

  /** The elements satisfying `p`, in their original order. */
  function Filter<T(!new)>(xs: seq<T>, p: T -> bool): (r: seq<T>)
    ensures |r| <= |xs|
    ensures forall x :: multiset(r)[x] == if p(x) then multiset(xs)[x] else 0
    ensures forall x :: x in r <==> x in xs && p(x)
  {
    if xs == [] then []
    else
      var rest := Filter(xs[1..], p);
      assert xs == [xs[0]] + xs[1..];
      if p(xs[0]) then [xs[0]] + rest else rest
  }

  /** No two positions of `xs` carry the same key. */
  ghost predicate KeysDistinct<T, K>(xs: seq<T>, key: T -> K) {
    forall i, j :: 0 <= i < j < |xs| ==> key(xs[i]) != key(xs[j])
  }

  /** Appending an element whose key is new keeps the keys distinct. */
  lemma AppendKeepsDistinct<T, K>(xs: seq<T>, key: T -> K, x: T)
    requires KeysDistinct(xs, key)
    requires forall i :: 0 <= i < |xs| ==> key(xs[i]) != key(x)
    ensures KeysDistinct(xs + [x], key)
  {
    var ys := xs + [x];
    forall i, j | 0 <= i < j < |ys| ensures key(ys[i]) != key(ys[j]) {
      assert ys[i] == xs[i];
      if j < |xs| { assert ys[j] == xs[j]; }
    }
  }

  /** Removing one position keeps the keys distinct. */
  lemma RemoveAtKeepsDistinct<T, K>(xs: seq<T>, key: T -> K, i: nat)
    requires i < |xs| && KeysDistinct(xs, key)
    ensures KeysDistinct(RemoveAt(xs, i), key)
  {
    var r := RemoveAt(xs, i);
    forall a, b | 0 <= a < b < |r| ensures key(r[a]) != key(r[b]) {
      var a' := if a < i then a else a + 1;
      var b' := if b < i then b else b + 1;
      assert r[a] == xs[a'] && r[b] == xs[b'];
    }
  }

  /** Replacing the element at one position by one with the same key keeps
      the keys distinct. */
  lemma ReplaceKeepsDistinct<T, K>(xs: seq<T>, key: T -> K, i: nat, x: T)
    requires i < |xs| && KeysDistinct(xs, key) && key(x) == key(xs[i])
    ensures KeysDistinct(xs[i := x], key)
  {
    var r := xs[i := x];
    forall a, b | 0 <= a < b < |r| ensures key(r[a]) != key(r[b]) {
      assert key(r[a]) == key(xs[a]) && key(r[b]) == key(xs[b]);
    }
  }

  /** Dropping the first element keeps the keys distinct. */
  lemma TailKeepsDistinct<T, K>(xs: seq<T>, key: T -> K)
    requires xs != [] && KeysDistinct(xs, key)
    ensures KeysDistinct(xs[1..], key)
    ensures forall y :: y in xs[1..] ==> key(y) != key(xs[0])
  {
    var tail := xs[1..];
    forall a, b | 0 <= a < b < |tail| ensures key(tail[a]) != key(tail[b]) {
      assert tail[a] == xs[a + 1] && tail[b] == xs[b + 1];
    }
    forall y | y in tail ensures key(y) != key(xs[0]) {
      var m :| 0 <= m < |tail| && tail[m] == y;
      assert xs[m + 1] == y;
    }
  }

  /** Putting an element with a new key in front keeps the keys distinct. */
  lemma ConsKeepsDistinct<T, K>(x: T, ys: seq<T>, key: T -> K)
    requires KeysDistinct(ys, key)
    requires forall y :: y in ys ==> key(y) != key(x)
    ensures KeysDistinct([x] + ys, key)
  {
    var r := [x] + ys;
    forall a, b | 0 <= a < b < |r| ensures key(r[a]) != key(r[b]) {
      assert r[b] == ys[b - 1];
      if a > 0 { assert r[a] == ys[a - 1]; }
    }
  }

  /** Filtering keeps the keys distinct. */
  lemma {:induction false} FilterKeepsDistinct<T(!new), K>(xs: seq<T>, key: T -> K, p: T -> bool)
    requires KeysDistinct(xs, key)
    ensures KeysDistinct(Filter(xs, p), key)
  {
    if xs != [] {
      var tail := xs[1..];
      TailKeepsDistinct(xs, key);
      FilterKeepsDistinct(tail, key, p);
      if p(xs[0]) {
        ConsKeepsDistinct(xs[0], Filter(tail, p), key);
      }
    }
  }

  /** Every element of a filtered sequence satisfies a property all elements
      of the original sequence had. */
  lemma FilterKeepsAll<T(!new)>(xs: seq<T>, p: T -> bool, q: T -> bool)
    requires forall i :: 0 <= i < |xs| ==> q(xs[i])
    ensures forall i :: 0 <= i < |Filter(xs, p)| ==> q(Filter(xs, p)[i])
  {
    var r := Filter(xs, p);
    forall i | 0 <= i < |r| ensures q(r[i]) {
      assert r[i] in xs;
    }
  }

  /** Filtering keeps everything when everything passes. */
  lemma {:induction false} FilterKeepsEverything<T(!new)>(xs: seq<T>, p: T -> bool)
    requires forall i :: 0 <= i < |xs| ==> p(xs[i])
    ensures Filter(xs, p) == xs
  {
    if xs != [] {
      FilterKeepsEverything(xs[1..], p);
    }
  }

  /** Filtering distributes over concatenation. */
  lemma {:induction false} FilterAppend<T(!new)>(xs: seq<T>, ys: seq<T>, p: T -> bool)
    ensures Filter(xs + ys, p) == Filter(xs, p) + Filter(ys, p)
  {
    if xs == [] {
      assert xs + ys == ys;
    } else {
      assert (xs + ys)[0] == xs[0];
      assert (xs + ys)[1..] == xs[1..] + ys;
      FilterAppend(xs[1..], ys, p);
    }
  }

  /** The first match depends only on which positions match. */
  lemma FirstIndexSameMatches<T, U>(xs: seq<T>, p: T -> bool, ys: seq<U>, q: U -> bool)
    requires |xs| == |ys|
    requires forall j :: 0 <= j < |xs| ==> p(xs[j]) == q(ys[j])
    ensures FirstIndex(xs, p) == FirstIndex(ys, q)
  {
    var a, b := FirstIndex(xs, p), FirstIndex(ys, q);
    if a.Some? { assert q(ys[a.value]); }
    if b.Some? { assert p(xs[b.value]); }
  }
}
