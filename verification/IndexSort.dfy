/** Python's sorted(xs, key=..): the stable order of the positions by their keys. */
module IndexSort {

  /** Inserts position p after every position with a key not greater. */
  function InsertIndex(keys: seq<int>, order: seq<nat>, p: nat): (r: seq<nat>)
    requires p < |keys| && forall i :: 0 <= i < |order| ==> order[i] < |keys|
    ensures |r| == |order| + 1 && multiset(r) == multiset(order) + multiset{p}
    ensures forall i :: 0 <= i < |r| ==> r[i] < |keys|
  {
    if order == [] || keys[order[|order| - 1]] <= keys[p] then order + [p]
    else
      var last := order[|order| - 1];
      assert order == order[..|order| - 1] + [last];
      InsertIndex(keys, order[..|order| - 1], p) + [last]
  }

  function SortFirst(keys: seq<int>, k: nat): (r: seq<nat>)
    requires k <= |keys|
    ensures |r| == k && forall i :: 0 <= i < k ==> r[i] < |keys|
    ensures forall p: nat :: multiset(r)[p] == if p < k then 1 else 0
  {
    if k == 0 then [] else InsertIndex(keys, SortFirst(keys, k - 1), k - 1)
  }

  function SortIndex(keys: seq<int>): (r: seq<nat>)
    ensures |r| == |keys| && forall i :: 0 <= i < |r| ==> r[i] < |keys|
    ensures forall p: nat :: multiset(r)[p] == if p < |keys| then 1 else 0
  {
    SortFirst(keys, |keys|)
  }

  predicate SortedBy(keys: seq<int>, order: seq<nat>) {
    && (forall i :: 0 <= i < |order| ==> order[i] < |keys|)
    && (forall i, j :: 0 <= i < j < |order| ==> keys[order[i]] <= keys[order[j]])
  }

  lemma {:induction false} InsertBelow(keys: seq<int>, order: seq<nat>, p: nat, m: int)
    requires p < |keys| && keys[p] <= m
    requires forall i :: 0 <= i < |order| ==> order[i] < |keys| && keys[order[i]] <= m
    ensures forall i :: 0 <= i <= |order| ==> keys[InsertIndex(keys, order, p)[i]] <= m
  {
    if order != [] && keys[order[|order| - 1]] > keys[p] {
      InsertBelow(keys, order[..|order| - 1], p, m);
    }
  }

  lemma {:induction false} InsertSorted(keys: seq<int>, order: seq<nat>, p: nat)
    requires SortedBy(keys, order) && p < |keys|
    ensures SortedBy(keys, InsertIndex(keys, order, p))
  {
    if order != [] && keys[order[|order| - 1]] > keys[p] {
      InsertSorted(keys, order[..|order| - 1], p);
      InsertBelow(keys, order[..|order| - 1], p, keys[order[|order| - 1]]);
    }
  }

  lemma {:induction false} SortFirstSorted(keys: seq<int>, k: nat)
    requires k <= |keys|
    ensures SortedBy(keys, SortFirst(keys, k))
  {
    if k > 0 {
      SortFirstSorted(keys, k - 1);
      InsertSorted(keys, SortFirst(keys, k - 1), k - 1);
    }
  }

  function Permute<T>(xs: seq<T>, order: seq<nat>): (r: seq<T>)
    requires forall i :: 0 <= i < |order| ==> order[i] < |xs|
    ensures |r| == |order| && forall i :: 0 <= i < |r| ==> r[i] == xs[order[i]]
  {
    seq(|order|, i requires 0 <= i < |order| => xs[order[i]])
  }

  function Keys<T>(key: T -> int, xs: seq<T>): (ks: seq<int>)
    ensures |ks| == |xs| && forall i :: 0 <= i < |ks| ==> ks[i] == key(xs[i])
  {
    seq(|xs|, i requires 0 <= i < |xs| => key(xs[i]))
  }

  /** sorted(xs, key). */
  function Sort<T>(key: T -> int, xs: seq<T>): (r: seq<T>)
    ensures |r| == |xs|
  {
    Permute(xs, SortIndex(Keys(key, xs)))
  }

  predicate DistinctKeys<T>(key: T -> int, xs: seq<T>) {
    forall i, j :: 0 <= i < j < |xs| ==> key(xs[i]) != key(xs[j])
  }

  predicate StrictlyIncreasing<T>(key: T -> int, xs: seq<T>) {
    forall i, j :: 0 <= i < j < |xs| ==> key(xs[i]) < key(xs[j])
  }

  lemma Twice<T>(xs: seq<T>, i: nat, j: nat)
    requires i < j < |xs| && xs[i] == xs[j]
    ensures multiset(xs)[xs[i]] >= 2
  {
    assert xs == xs[..j] + xs[j..];
    assert xs[i] == xs[..j][i] && xs[j] == xs[j..][0];
    assert xs[i] in xs[..j] && xs[j] in xs[j..];
    assert multiset(xs) == multiset(xs[..j]) + multiset(xs[j..]);
  }

  /** Sorting by distinct keys gives a strictly increasing sequence .. */
  lemma SortIncreasing<T>(key: T -> int, xs: seq<T>)
    requires DistinctKeys(key, xs)
    ensures StrictlyIncreasing(key, Sort(key, xs))
  {
    var keys := Keys(key, xs);
    var order := SortIndex(keys);
    SortFirstSorted(keys, |keys|);
    forall i, j | 0 <= i < j < |xs|
      ensures key(Sort(key, xs)[i]) < key(Sort(key, xs)[j])
    {
      if order[i] == order[j] { Twice(order, i, j); }
      assert keys[order[i]] != keys[order[j]];
    }
  }

  /** .. of the same elements. */
  lemma SortElements<T>(key: T -> int, xs: seq<T>)
    ensures forall x :: x in Sort(key, xs) <==> x in xs
  {
    var order := SortIndex(Keys(key, xs));
    forall x | x in xs
      ensures x in Sort(key, xs)
    {
      var p :| 0 <= p < |xs| && xs[p] == x;
      assert multiset(order)[p] == 1;
      assert p in order;
      var i :| 0 <= i < |order| && order[i] == p;
      assert Sort(key, xs)[i] == x;
    }
  }

  /** A strictly increasing sequence is determined by its elements. */
  lemma {:induction false} StrictUnique<T>(key: T -> int, a: seq<T>, b: seq<T>)
    requires StrictlyIncreasing(key, a) && StrictlyIncreasing(key, b)
    requires forall x :: x in a <==> x in b
    ensures a == b
  {
    if b != [] { assert b[0] in b && b[0] in a; }
    if a != [] {
      assert a[0] in a && a[0] in b;
      FirstLeast(key, a, b[0]);
      FirstLeast(key, b, a[0]);
      TailElements(key, a);
      TailElements(key, b);
      StrictUnique(key, a[1..], b[1..]);
      assert a == [a[0]] + a[1..] && b == [b[0]] + b[1..];
    }
  }

  lemma FirstLeast<T>(key: T -> int, a: seq<T>, x: T)
    requires StrictlyIncreasing(key, a) && x in a
    ensures key(a[0]) <= key(x) && (key(a[0]) == key(x) ==> a[0] == x)
  {
  }

  lemma TailElements<T>(key: T -> int, a: seq<T>)
    requires StrictlyIncreasing(key, a) && a != []
    ensures forall x :: x in a[1..] <==> x in a && x != a[0]
  {
    forall x | x in a && x != a[0]
      ensures x in a[1..]
    {
      var i :| 0 <= i < |a| && a[i] == x;
      assert a[1..][i - 1] == x;
    }
  }

  lemma DistinctPermuted<T>(key: T -> int, xs: seq<T>, ys: seq<T>)
    requires DistinctKeys(key, xs) && multiset(xs) == multiset(ys)
    ensures DistinctKeys(key, ys) && forall x :: x in xs <==> x in ys
  {
    forall x
      ensures x in xs <==> x in ys
    {
      assert x in xs <==> x in multiset(xs);
      assert x in ys <==> x in multiset(ys);
    }
    forall i, j | 0 <= i < j < |ys|
      ensures key(ys[i]) != key(ys[j])
    {
      assert ys[i] in ys && ys[j] in ys;
      var p :| 0 <= p < |xs| && xs[p] == ys[i];
      var q :| 0 <= q < |xs| && xs[q] == ys[j];
      if ys[i] == ys[j] {
        Twice(ys, i, j);
        AtMostOnce(key, xs, ys[i]);
      } else {
        assert p != q;
      }
    }
  }

  lemma {:induction false} AtMostOnce<T>(key: T -> int, xs: seq<T>, x: T)
    requires DistinctKeys(key, xs)
    ensures multiset(xs)[x] <= 1
  {
    if xs != [] {
      assert xs == [xs[0]] + xs[1..];
      AtMostOnce(key, xs[1..], x);
      if x in xs[1..] {
        var i :| 0 <= i < |xs[1..]| && xs[1..][i] == x;
        assert key(xs[0]) != key(xs[i + 1]);
      }
    }
  }

  /** With pairwise distinct keys the input order is forgotten. */
  lemma SortPermutationInvariant<T>(key: T -> int, xs: seq<T>, ys: seq<T>)
    requires DistinctKeys(key, xs) && multiset(xs) == multiset(ys)
    ensures Sort(key, xs) == Sort(key, ys)
  {
    DistinctPermuted(key, xs, ys);
    SortIncreasing(key, xs);
    SortIncreasing(key, ys);
    SortElements(key, xs);
    SortElements(key, ys);
    StrictUnique(key, Sort(key, xs), Sort(key, ys));
  }

  lemma {:induction false} InsertElements<T>(keys: seq<int>, xs: seq<T>, order: seq<nat>, p: nat)
    requires |keys| == |xs| && p < |xs| && forall i :: 0 <= i < |order| ==> order[i] < |xs|
    ensures multiset(Permute(xs, InsertIndex(keys, order, p))) == multiset(Permute(xs, order)) + multiset{xs[p]}
  {
    if order == [] || keys[order[|order| - 1]] <= keys[p] {
      assert Permute(xs, order + [p]) == Permute(xs, order) + [xs[p]];
    } else {
      var before, last := order[..|order| - 1], order[|order| - 1];
      InsertElements(keys, xs, before, p);
      var inserted := InsertIndex(keys, before, p);
      assert Permute(xs, inserted + [last]) == Permute(xs, inserted) + [xs[last]];
      assert Permute(xs, order) == Permute(xs, before) + [xs[last]];
    }
  }

  lemma NextElement<T>(keys: seq<int>, xs: seq<T>, order: seq<nat>, k: nat)
    requires |keys| == |xs| && k < |xs| && forall i :: 0 <= i < |order| ==> order[i] < |xs|
    requires multiset(Permute(xs, order)) == multiset(xs[..k])
    ensures multiset(Permute(xs, InsertIndex(keys, order, k))) == multiset(xs[..k + 1])
  {
    hide InsertIndex, Permute;
    InsertElements(keys, xs, order, k);
    assert xs[..k + 1] == xs[..k] + [xs[k]];
  }

  lemma {:induction false} SortFirstElements<T>(keys: seq<int>, xs: seq<T>, k: nat)
    requires |keys| == |xs| && k <= |xs|
    ensures multiset(Permute(xs, SortFirst(keys, k))) == multiset(xs[..k])
  {
    hide InsertIndex, Permute;
    if k > 0 {
      SortFirstElements(keys, xs, k - 1);
      NextElement(keys, xs, SortFirst(keys, k - 1), k - 1);
    } else {
      assert Permute(xs, SortFirst(keys, k)) == xs[..k];
    }
  }

  /** Sorting permutes. */
  lemma SortMultiset<T>(key: T -> int, xs: seq<T>)
    ensures multiset(Sort(key, xs)) == multiset(xs)
  {
    SortFirstElements(Keys(key, xs), xs, |xs|);
    assert xs[..|xs|] == xs;
  }

  // ----- sorted(xs) of integers, repeats allowed -----

  const itself: int -> int := (k: int) => k

  predicate Increasing(a: seq<int>) {
    forall i, j :: 0 <= i < j < |a| ==> a[i] <= a[j]
  }

  lemma SortsUp(xs: seq<int>)
    ensures Increasing(Sort(itself, xs))
  {
    SortFirstSorted(Keys(itself, xs), |xs|);
  }

  lemma HeadNotAbove(a: seq<int>, b: seq<int>)
    requires Increasing(b) && a != [] && b != [] && multiset(a) == multiset(b)
    ensures b[0] <= a[0]
  {
    assert a[0] in multiset(a);
    assert a[0] in b;
  }

  lemma TailMultiset<T>(a: seq<T>)
    requires a != []
    ensures multiset(a[1..]) == multiset(a) - multiset{a[0]}
  {
    assert a == [a[0]] + a[1..];
  }

  lemma {:induction false} IncreasingUnique(a: seq<int>, b: seq<int>)
    requires Increasing(a) && Increasing(b) && multiset(a) == multiset(b)
    ensures a == b
  {
    assert |multiset(a)| == |a| && |multiset(b)| == |b|;
    if a != [] {
      HeadNotAbove(a, b);
      HeadNotAbove(b, a);
      TailMultiset(a);
      TailMultiset(b);
      IncreasingUnique(a[1..], b[1..]);
    }
  }

  /** Sorted integer lists are equal exactly when the lists are permutations. */
  lemma SortedExactly(a: seq<int>, b: seq<int>)
    ensures Sort(itself, a) == Sort(itself, b) <==> multiset(a) == multiset(b)
  {
    hide Sort;
    SortMultiset(itself, a);
    SortMultiset(itself, b);
    SortsUp(a);
    SortsUp(b);
    if multiset(a) == multiset(b) {
      IncreasingUnique(Sort(itself, a), Sort(itself, b));
    }
  }

  // ----- what sorting keeps when keys repeat -----

  /** The elements with key k, in order. */
  function OfKey<T>(key: T -> int, k: int, xs: seq<T>): seq<T> {
    if xs == [] then [] else (if key(xs[0]) == k then [xs[0]] else []) + OfKey(key, k, xs[1..])
  }

  lemma {:induction false} OfKeyMembers<T>(key: T -> int, k: int, xs: seq<T>, x: T)
    ensures x in OfKey(key, k, xs) <==> x in xs && key(x) == k
  {
    if xs != [] {
      OfKeyMembers(key, k, xs[1..], x);
      assert xs == [xs[0]] + xs[1..];
    }
  }

  lemma {:induction false} OfKeyJoin<T>(key: T -> int, k: int, a: seq<T>, b: seq<T>)
    ensures OfKey(key, k, a + b) == OfKey(key, k, a) + OfKey(key, k, b)
  {
    if a == [] {
      assert a + b == b;
    } else {
      OfKeyJoin(key, k, a[1..], b);
      assert (a + b)[1..] == a[1..] + b;
    }
  }

  lemma OfKeySnoc<T>(key: T -> int, k: int, a: seq<T>, x: T)
    ensures OfKey(key, k, a + [x]) == OfKey(key, k, a) + if key(x) == k then [x] else []
  {
    OfKeyJoin(key, k, a, [x]);
    assert [x][1..] == [];
  }

  lemma {:induction false} InsertStable<T>(key: T -> int, k: int, xs: seq<T>, order: seq<nat>, p: nat)
    requires p < |xs| && forall i :: 0 <= i < |order| ==> order[i] < |xs|
    ensures OfKey(key, k, Permute(xs, InsertIndex(Keys(key, xs), order, p)))
         == OfKey(key, k, Permute(xs, order)) + if key(xs[p]) == k then [xs[p]] else []
  {
    hide OfKey, Permute;
    var keys := Keys(key, xs);
    if order == [] || keys[order[|order| - 1]] <= keys[p] {
      OfKeyLast(key, k, xs, order, p);
    } else {
      var before, last := order[..|order| - 1], order[|order| - 1];
      assert order == before + [last];
      InsertStable(key, k, xs, before, p);
      OfKeyLast(key, k, xs, InsertIndex(keys, before, p), last);
      OfKeyLast(key, k, xs, before, last);
    }
  }

  lemma OfKeyLast<T>(key: T -> int, k: int, xs: seq<T>, order: seq<nat>, p: nat)
    requires p < |xs| && forall i :: 0 <= i < |order| ==> order[i] < |xs|
    ensures OfKey(key, k, Permute(xs, order + [p]))
         == OfKey(key, k, Permute(xs, order)) + if key(xs[p]) == k then [xs[p]] else []
  {
    hide OfKey;
    assert Permute(xs, order + [p]) == Permute(xs, order) + [xs[p]];
    OfKeySnoc(key, k, Permute(xs, order), xs[p]);
  }

  lemma {:induction false} SortFirstStable<T>(key: T -> int, k: int, xs: seq<T>, n: nat)
    requires n <= |xs|
    ensures OfKey(key, k, Permute(xs, SortFirst(Keys(key, xs), n))) == OfKey(key, k, xs[..n])
  {
    hide InsertIndex, Permute, OfKey;
    if n == 0 {
      assert Permute(xs, SortFirst(Keys(key, xs), 0)) == xs[..0];
    } else {
      SortFirstStable(key, k, xs, n - 1);
      InsertStable(key, k, xs, SortFirst(Keys(key, xs), n - 1), n - 1);
      assert xs[..n] == xs[..n - 1] + [xs[n - 1]];
      OfKeySnoc(key, k, xs[..n - 1], xs[n - 1]);
    }
  }

  predicate NotDecreasing<T>(key: T -> int, a: seq<T>) {
    forall i, j :: 0 <= i < j < |a| ==> key(a[i]) <= key(a[j])
  }

  lemma SortNotDecreasing<T>(key: T -> int, xs: seq<T>)
    ensures NotDecreasing(key, Sort(key, xs))
  {
    SortFirstSorted(Keys(key, xs), |xs|);
  }

  lemma HeadKeyNotAbove<T>(key: T -> int, a: seq<T>, b: seq<T>)
    requires NotDecreasing(key, b) && a != [] && b != []
    requires forall k :: OfKey(key, k, a) == OfKey(key, k, b)
    ensures key(b[0]) <= key(a[0])
  {
    OfKeyMembers(key, key(a[0]), a, a[0]);
    OfKeyMembers(key, key(a[0]), b, a[0]);
  }

  /** A sorted sequence is determined by its elements of each key. */
  lemma {:induction false} SortedByKeys<T>(key: T -> int, a: seq<T>, b: seq<T>)
    requires NotDecreasing(key, a) && NotDecreasing(key, b)
    requires forall k :: OfKey(key, k, a) == OfKey(key, k, b)
    ensures a == b
  {
    if a != [] {
      OfKeyMembers(key, key(a[0]), a, a[0]);
      OfKeyMembers(key, key(a[0]), b, a[0]);
    }
    if b != [] {
      OfKeyMembers(key, key(b[0]), b, b[0]);
      OfKeyMembers(key, key(b[0]), a, b[0]);
    }
    if a != [] {
      HeadKeyNotAbove(key, a, b);
      HeadKeyNotAbove(key, b, a);
      var k := key(a[0]);
      assert OfKey(key, k, a)[0] == a[0] && OfKey(key, k, b)[0] == b[0];
      forall j
        ensures OfKey(key, j, a[1..]) == OfKey(key, j, b[1..])
      {
        TailOfKey(key, j, a);
        TailOfKey(key, j, b);
        assert OfKey(key, j, a) == OfKey(key, j, b);
      }
      SortedByKeys(key, a[1..], b[1..]);
      assert a == [a[0]] + a[1..] && b == [b[0]] + b[1..];
    }
  }

  lemma TailOfKey<T>(key: T -> int, k: int, a: seq<T>)
    requires a != []
    ensures OfKey(key, k, a[1..]) == if key(a[0]) == k then OfKey(key, k, a)[1..] else OfKey(key, k, a)
  {
  }

  /** For every key, the elements of that key are the same in the same order. */
  ghost predicate SameTies<T>(key: T -> int, xs: seq<T>, ys: seq<T>) {
    forall k :: OfKey(key, k, xs) == OfKey(key, k, ys)
  }

  lemma SortStable<T>(key: T -> int, k: int, xs: seq<T>)
    ensures OfKey(key, k, Sort(key, xs)) == OfKey(key, k, xs)
  {
    SortFirstStable(key, k, xs, |xs|);
    assert xs[..|xs|] == xs;
  }

  lemma SameSortTies<T>(key: T -> int, xs: seq<T>, ys: seq<T>)
    requires Sort(key, xs) == Sort(key, ys)
    ensures SameTies(key, xs, ys)
  {
    hide OfKey, Sort;
    forall k
      ensures OfKey(key, k, xs) == OfKey(key, k, ys)
    {
      SortStable(key, k, xs);
      SortStable(key, k, ys);
    }
  }

  lemma SameTiesSort<T>(key: T -> int, xs: seq<T>, ys: seq<T>)
    requires SameTies(key, xs, ys)
    ensures Sort(key, xs) == Sort(key, ys)
  {
    hide OfKey, Sort, NotDecreasing;
    forall k
      ensures OfKey(key, k, Sort(key, xs)) == OfKey(key, k, Sort(key, ys))
    {
      SortStable(key, k, xs);
      SortStable(key, k, ys);
      assert OfKey(key, k, xs) == OfKey(key, k, ys);
    }
    SortNotDecreasing(key, xs);
    SortNotDecreasing(key, ys);
    SortedByKeys(key, Sort(key, xs), Sort(key, ys));
  }

  /** Two lists sort alike exactly when, for every key, their elements of that key are the
      same in the same order. */
  lemma SortAlikeExactly<T>(key: T -> int, xs: seq<T>, ys: seq<T>)
    ensures Sort(key, xs) == Sort(key, ys) <==> SameTies(key, xs, ys)
  {
    hide Sort, SameTies;
    if Sort(key, xs) == Sort(key, ys) { SameSortTies(key, xs, ys); }
    if SameTies(key, xs, ys) { SameTiesSort(key, xs, ys); }
  }

  /** Distinct keys leave nothing to keep: any permutation sorts alike. */
  lemma DistinctSortAlike<T>(key: T -> int, xs: seq<T>, ys: seq<T>)
    requires DistinctKeys(key, xs) && multiset(xs) == multiset(ys)
    ensures SameTies(key, xs, ys)
  {
    SortPermutationInvariant(key, xs, ys);
    SortAlikeExactly(key, xs, ys);
  }
}
