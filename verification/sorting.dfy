/** The ordering stages of the store's aggregation pipelines: `$sort` on one
    or two fields, descending, and `$limit`. A record is ranked by a `Key`;
    ties on the first field are broken by the second. */
module Sorting {

  datatype Key = Key(major: int, minor: int)

  /** `a` ranks at or above `b` in a descending sort on (major, minor). */
  predicate AtLeast(a: Key, b: Key) {
    a.major > b.major || (a.major == b.major && a.minor >= b.minor)
  }

  /** Every element ranks at or above every later one. */
  ghost predicate SortedBy<T>(key: T -> Key, xs: seq<T>) {
    forall i, j :: 0 <= i < j < |xs| ==> AtLeast(key(xs[i]), key(xs[j]))
  }

  /** An element ranking at or above every element of a sorted sequence
      can go in front of it. */
  lemma ConsKeepsSorted<T>(key: T -> Key, y: T, rest: seq<T>)
    requires SortedBy(key, rest)
    requires forall k :: 0 <= k < |rest| ==> AtLeast(key(y), key(rest[k]))
    ensures SortedBy(key, [y] + rest)
  {
    var r := [y] + rest;
    forall i, j | 0 <= i < j < |r| ensures AtLeast(key(r[i]), key(r[j])) {
      assert r[j] == rest[j - 1];
      if i > 0 { assert r[i] == rest[i - 1]; }
    }
  }

  /** The head of a sorted sequence ranks at or above everything after it
      and at or above any `x` that does not rank at or above it. */
  lemma HeadRanksAbove<T>(key: T -> Key, x: T, ys: seq<T>, rest: seq<T>)
    requires ys != [] && SortedBy(key, ys) && !AtLeast(key(x), key(ys[0]))
    requires multiset(rest) == multiset(ys[1..]) + multiset{x}
    ensures forall k :: 0 <= k < |rest| ==> AtLeast(key(ys[0]), key(rest[k]))
  {
    forall k | 0 <= k < |rest| ensures AtLeast(key(ys[0]), key(rest[k])) {
      assert rest[k] in multiset(rest);
      if rest[k] != x {
        assert rest[k] in multiset(ys[1..]);
        var m :| 0 <= m < |ys[1..]| && ys[1..][m] == rest[k];
        assert ys[1..][m] == ys[m + 1];
      }
    }
  }

  /** Puts `x` into the sorted `ys` before the first element it ranks at or
      above. */
  function Insert<T>(key: T -> Key, x: T, ys: seq<T>): (r: seq<T>)
    requires SortedBy(key, ys)
    ensures multiset(r) == multiset(ys) + multiset{x}
    ensures SortedBy(key, r)
  {
    if ys == [] then [x]
    else if AtLeast(key(x), key(ys[0])) then
      assert forall k :: 0 <= k < |ys| ==> AtLeast(key(x), key(ys[k]));
      ConsKeepsSorted(key, x, ys);
      [x] + ys
    else
      assert SortedBy(key, ys[1..]);
      var rest := Insert(key, x, ys[1..]);
      assert ys == [ys[0]] + ys[1..];
      HeadRanksAbove(key, x, ys, rest);
      ConsKeepsSorted(key, ys[0], rest);
      [ys[0]] + rest
  }

  /** A descending sort of `xs` by `key`: a permutation of `xs` in which
      every element ranks at or above every later one. */
  function Sort<T>(key: T -> Key, xs: seq<T>): (r: seq<T>)
    ensures multiset(r) == multiset(xs)
    ensures SortedBy(key, r)
  {
    if xs == [] then []
    else
      assert xs == [xs[0]] + xs[1..];
      Insert(key, xs[0], Sort(key, xs[1..]))
  }

  /** `$limit: n`: the first `n` elements, or all of them when there are fewer. */
  function Take<T>(xs: seq<T>, n: nat): (r: seq<T>)
    ensures |r| == if |xs| < n then |xs| else n
    ensures r == xs[..|r|]
  {
    if |xs| <= n then xs else xs[..n]
  }

  /** A limit keeps the order of what it keeps. */
  lemma TakeKeepsOrder<T>(key: T -> Key, xs: seq<T>, n: nat)
    requires SortedBy(key, xs)
    ensures SortedBy(key, Take(xs, n))
  {
    var r := Take(xs, n);
    forall i, j | 0 <= i < j < |r| ensures AtLeast(key(r[i]), key(r[j])) {
      assert r[i] == xs[i] && r[j] == xs[j];
    }
  }

  /** A limit keeps nothing that was not there. */
  lemma TakeIsSubmultiset<T>(xs: seq<T>, n: nat)
    ensures multiset(Take(xs, n)) <= multiset(xs)
  {
    var r := Take(xs, n);
    assert xs == r + xs[|r|..];
  }

  /** After a descending sort and a limit, nothing left out ranks strictly
      above anything kept. */
  lemma {:induction false} TakeKeepsBest<T>(key: T -> Key, xs: seq<T>, n: nat, y: T, z: T)
    requires SortedBy(key, xs)
    requires y in Take(xs, n)
    requires z in multiset(xs) - multiset(Take(xs, n))
    ensures AtLeast(key(y), key(z))
  {
    var kept := Take(xs, n);
    var k := |kept|;
    var rest := xs[k..];
    assert xs == kept + rest;
    assert multiset(xs) == multiset(kept) + multiset(rest);
    assert z in multiset(rest);
    var j :| 0 <= j < |rest| && rest[j] == z;
    var i :| 0 <= i < k && kept[i] == y;
    assert xs[i] == y;
    assert xs[k + j] == z;
  }
}
