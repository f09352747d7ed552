/** Stable sorting by an integer key. The source sorts with the engine's
    `Array.prototype.sort`, which is stable; `SortBy` is the functional
    specification of such a sort and `SortInPlace` sorts an array in place
    to exactly that result. */
module Sorting {

  predicate SortedBy<T>(xs: seq<T>, key: T -> int)
  {
    forall i, j :: 0 <= i < j < |xs| ==> key(xs[i]) <= key(xs[j])
  }

  predicate StrictlySortedBy<T>(xs: seq<T>, key: T -> int)
  {
    forall i, j :: 0 <= i < j < |xs| ==> key(xs[i]) < key(xs[j])
  }

  predicate Distinct<T(==)>(xs: seq<T>)
  {
    forall i, j :: 0 <= i < j < |xs| ==> xs[i] != xs[j]
  }

  /** Where `x` goes in `xs`: after the last element whose key is not
      greater than its own, found by scanning from the right. */
  function InsertPos<T>(xs: seq<T>, x: T, key: T -> int): nat
  {
    if |xs| == 0 || key(xs[|xs| - 1]) <= key(x) then |xs|
    else InsertPos(xs[..|xs| - 1], x, key)
  }

  function Insert<T>(xs: seq<T>, x: T, key: T -> int): seq<T>
  {
    var p := InsertPos(xs, x, key);
    if p <= |xs| then xs[..p] + [x] + xs[p..] else xs + [x]
  }

  /** The scan stops at the first element from the right that is not
      greater than `x`, and every element it passed is greater. */
  lemma {:induction false} InsertPosBounds<T>(xs: seq<T>, x: T, key: T -> int)
    ensures InsertPos(xs, x, key) <= |xs|
    ensures forall k :: InsertPos(xs, x, key) <= k < |xs| ==> key(x) < key(xs[k])
    ensures InsertPos(xs, x, key) == 0 || key(xs[InsertPos(xs, x, key) - 1]) <= key(x)
  {
    if |xs| > 0 && key(x) < key(xs[|xs| - 1]) {
      var front := xs[..|xs| - 1];
      InsertPosBounds(front, x, key);
    }
  }

  lemma InsertPermutes<T>(xs: seq<T>, x: T, key: T -> int)
    ensures multiset(Insert(xs, x, key)) == multiset(xs) + multiset{x}
  {
    InsertPosBounds(xs, x, key);
    var p := InsertPos(xs, x, key);
    assert xs == xs[..p] + xs[p..];
  }

  lemma InsertKeepsSorted<T>(xs: seq<T>, x: T, key: T -> int)
    requires SortedBy(xs, key)
    ensures SortedBy(Insert(xs, x, key), key)
  {
    InsertPosBounds(xs, x, key);
    var p := InsertPos(xs, x, key);
    var r := Insert(xs, x, key);
    assert r == xs[..p] + [x] + xs[p..];
    forall i, j | 0 <= i < j < |r| ensures key(r[i]) <= key(r[j]) {
      if i < p && j == p {
        assert key(xs[i]) <= key(xs[p - 1]);
      }
    }
  }

  /** Insertion sort: the result is ordered by `key` and a permutation of `xs`. */
  function SortBy<T>(xs: seq<T>, key: T -> int): (r: seq<T>)
    ensures multiset(r) == multiset(xs)
    ensures SortedBy(r, key)
  {
    if |xs| == 0 then []
    else
      var front := xs[..|xs| - 1];
      assert xs == front + [xs[|xs| - 1]];
      InsertPermutes(SortBy(front, key), xs[|xs| - 1], key);
      InsertKeepsSorted(SortBy(front, key), xs[|xs| - 1], key);
      Insert(SortBy(front, key), xs[|xs| - 1], key)
  }

  lemma {:induction false} DistinctSameSize<T>(xs: seq<T>)
    requires Distinct(xs)
    ensures |multiset(xs)| == |xs|
    ensures forall x :: x in multiset(xs) ==> multiset(xs)[x] == 1
  {
    if |xs| > 0 {
      var front := xs[..|xs| - 1];
      assert xs == front + [xs[|xs| - 1]];
      DistinctSameSize(front);
      assert xs[|xs| - 1] !in front;
    }
  }

  /** A sequence is duplicate-free exactly when its multiset is a set. */
  lemma DistinctIffMultiplicityOne<T>(xs: seq<T>)
    ensures Distinct(xs) <==> forall x :: x in multiset(xs) ==> multiset(xs)[x] == 1
  {
    if Distinct(xs) {
      DistinctSameSize(xs);
    } else {
      var i, j :| 0 <= i < j < |xs| && xs[i] == xs[j];
      assert xs == xs[..i] + [xs[i]] + xs[i + 1..j] + [xs[j]] + xs[j + 1..];
      assert multiset(xs)[xs[i]] >= 2;
    }
  }

  /** No two different elements of `xs` share a key. */
  predicate KeyInjective<T(==)>(xs: seq<T>, key: T -> int)
  {
    forall i, j :: 0 <= i < |xs| && 0 <= j < |xs| && key(xs[i]) == key(xs[j]) ==> xs[i] == xs[j]
  }

  /** A sorted duplicate-free sequence over an injective key is strictly sorted. */
  lemma SortedDistinctIsStrict<T>(xs: seq<T>, key: T -> int)
    requires SortedBy(xs, key) && Distinct(xs) && KeyInjective(xs, key)
    ensures StrictlySortedBy(xs, key)
  {
  }

  /** A permutation has the same length and the same elements. */
  lemma PermutationElems<T>(xs: seq<T>, ys: seq<T>)
    requires multiset(xs) == multiset(ys)
    ensures |xs| == |ys|
    ensures forall x :: x in xs <==> x in ys
  {
    assert |xs| == |multiset(xs)| == |multiset(ys)| == |ys|;
    forall x ensures x in xs <==> x in ys {
      assert x in xs <==> x in multiset(xs);
      assert x in ys <==> x in multiset(ys);
    }
  }

  /** A permutation of a duplicate-free sequence is duplicate-free. */
  lemma PermutationDistinct<T>(xs: seq<T>, ys: seq<T>)
    requires multiset(xs) == multiset(ys) && Distinct(xs)
    ensures Distinct(ys)
  {
    DistinctIffMultiplicityOne(xs);
    DistinctIffMultiplicityOne(ys);
  }

  lemma PermutationKeyInjective<T>(xs: seq<T>, ys: seq<T>, key: T -> int)
    requires multiset(xs) == multiset(ys)
    requires KeyInjective(xs, key)
    ensures KeyInjective(ys, key)
  {
    PermutationElems(xs, ys);
    forall i, j | 0 <= i < |ys| && 0 <= j < |ys| && key(ys[i]) == key(ys[j]) ensures ys[i] == ys[j] {
      assert ys[i] in xs && ys[j] in xs;
      var p :| 0 <= p < |xs| && xs[p] == ys[i];
      var q :| 0 <= q < |xs| && xs[q] == ys[j];
    }
  }

  /** Sorting a duplicate-free sequence by a key injective on it gives the
      same elements in strictly ascending key order. */
  lemma SortDistinct<T>(xs: seq<T>, key: T -> int)
    requires Distinct(xs) && KeyInjective(xs, key)
    ensures StrictlySortedBy(SortBy(xs, key), key)
    ensures Distinct(SortBy(xs, key))
    ensures |SortBy(xs, key)| == |xs|
    ensures forall x :: x in SortBy(xs, key) <==> x in xs
  {
    var r := SortBy(xs, key);
    PermutationElems(xs, r);
    PermutationDistinct(xs, r);
    PermutationKeyInjective(xs, r, key);
    SortedDistinctIsStrict(r, key);
  }

  lemma TailsSameMultiset<T>(xs: seq<T>, ys: seq<T>)
    requires |xs| > 0 && |ys| > 0 && xs[0] == ys[0]
    requires multiset(xs) == multiset(ys)
    ensures multiset(xs[1..]) == multiset(ys[1..])
  {
    assert xs == [xs[0]] + xs[1..] && ys == [ys[0]] + ys[1..];
    forall z ensures multiset(xs[1..])[z] == multiset(ys[1..])[z] {
      assert multiset(xs)[z] == multiset{xs[0]}[z] + multiset(xs[1..])[z];
      assert multiset(ys)[z] == multiset{ys[0]}[z] + multiset(ys[1..])[z];
    }
  }

  /** Two sequences sorted by a key that is injective on their elements and
      holding the same multiset are equal: when no two elements tie, the
      order of a stable sort is the only sorted order. */
  lemma {:induction false} SortedUnique<T>(xs: seq<T>, ys: seq<T>, key: T -> int)
    requires SortedBy(xs, key) && SortedBy(ys, key)
    requires multiset(xs) == multiset(ys)
    requires KeyInjective(xs, key)
    ensures xs == ys
  {
    assert |xs| == |multiset(xs)| == |multiset(ys)| == |ys|;
    if |xs| > 0 {
      var x, y := xs[0], ys[0];
      assert x == y by {
        assert y in multiset(xs) && x in multiset(ys);
        var i :| 0 <= i < |xs| && xs[i] == y;
        var j :| 0 <= j < |ys| && ys[j] == x;
        assert key(x) <= key(y) <= key(x);
      }
      var xt, yt := xs[1..], ys[1..];
      TailsSameMultiset(xs, ys);
      assert KeyInjective(xt, key) by {
        forall i, j | 0 <= i < |xt| && 0 <= j < |xt| && key(xt[i]) == key(xt[j])
          ensures xt[i] == xt[j]
        {
          assert xt[i] == xs[i + 1] && xt[j] == xs[j + 1];
        }
      }
      SortedUnique(xt, yt, key);
      assert xs == [x] + xt && ys == [y] + yt;
    }
  }

  /** One step of the right-to-left scan of `InsertPos`. */
  lemma InsertPosStep<T>(xs: seq<T>, x: T, key: T -> int, j: nat)
    requires 0 < j <= |xs| && key(x) < key(xs[j - 1])
    ensures InsertPos(xs[..j], x, key) == InsertPos(xs[..j - 1], x, key)
  {
    assert xs[..j][..j - 1] == xs[..j - 1];
  }

  lemma SortByStep<T>(xs: seq<T>, i: nat, key: T -> int)
    requires i < |xs|
    ensures SortBy(xs[..i + 1], key) == Insert(SortBy(xs[..i], key), xs[i], key)
  {
    assert xs[..i + 1][..i] == xs[..i];
  }

  /** Moves `a[i]` left past every larger element of the sorted prefix
      `a[..i]`, shifting those one place right. */
  method InsertInPlace<T>(a: array<T>, i: nat, key: T -> int)
    requires i < a.Length
    modifies a
    ensures a[..i + 1] == Insert(old(a[..i]), old(a[i]), key)
    ensures forall k :: i < k < a.Length ==> a[k] == old(a[k])
  {
    var x := a[i];
    ghost var sorted := a[..i];
    var j := i;
    assert sorted[..j] == sorted;
    while j > 0 && key(x) < key(a[j - 1])
      invariant 0 <= j <= i
      invariant forall k :: 0 <= k < j ==> a[k] == sorted[k]
      invariant forall k :: j < k <= i ==> a[k] == sorted[k - 1]
      invariant forall k :: i < k < a.Length ==> a[k] == old(a[k])
      invariant InsertPos(sorted, x, key) == InsertPos(sorted[..j], x, key)
    {
      InsertPosStep(sorted, x, key, j);
      a[j] := a[j - 1];
      j := j - 1;
    }
    assert InsertPos(sorted, x, key) == j;
    a[j] := x;
    assert a[..i + 1] == sorted[..j] + [x] + sorted[j..];
  }

  /** Sorts `a` in place by insertion; the result is exactly `SortBy` of the
      original contents. */
  method SortInPlace<T>(a: array<T>, key: T -> int)
    modifies a
    ensures a[..] == SortBy(old(a[..]), key)
  {
    ghost var input := a[..];
    var i := 0;
    while i < a.Length
      invariant 0 <= i <= a.Length
      invariant a[..i] == SortBy(input[..i], key)
      invariant forall k :: i <= k < a.Length ==> a[k] == input[k]
    {
      SortByStep(input, i, key);
      InsertInPlace(a, i, key);
      i := i + 1;
    }
    assert input[..a.Length] == input;
  }

  /** A fresh array holding `xs`, sorted in place by `key`. */
  method SortedArray<T>(xs: seq<T>, key: T -> int) returns (a: array<T>)
    ensures fresh(a)
    ensures a[..] == SortBy(xs, key)
  {
    a := new T[|xs|](i requires 0 <= i < |xs| => xs[i]);
    assert a[..] == xs;
    SortInPlace(a, key);
  }
}
