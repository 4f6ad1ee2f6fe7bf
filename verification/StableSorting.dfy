/** A stable sort by an integer key, as `slice::sort_by_key` and an SQL
    `ORDER BY stamp, rowid` perform it. */
module StableSorting {

  ghost predicate Sorted<T>(key: T -> int, s: seq<T>) {
    forall i, j :: 0 <= i < j < |s| ==> key(s[i]) <= key(s[j])
  }

  /** The elements of `s` whose key is `k`, in order. */
  function WithKey<T>(key: T -> int, s: seq<T>, k: int): seq<T> {
    if s == [] then []
    else
      var front := WithKey(key, s[..|s| - 1], k);
      if key(s[|s| - 1]) == k then front + [s[|s| - 1]] else front
  }

  /** Put `x` behind the last element whose key does not exceed its own. */
  function Place<T>(key: T -> int, s: seq<T>, x: T): (r: seq<T>)
    ensures multiset(r) == multiset(s) + multiset{x}
    ensures |r| == |s| + 1
  {
    if s == [] then [x]
    else
      var front, last := s[..|s| - 1], s[|s| - 1];
      assert s == front + [last];
      if key(last) <= key(x) then s + [x] else Place(key, front, x) + [last]
  }

  function StableSort<T>(key: T -> int, s: seq<T>): (r: seq<T>)
    ensures multiset(r) == multiset(s)
    ensures |r| == |s|
  {
    if s == [] then []
    else
      assert s == s[..|s| - 1] + [s[|s| - 1]];
      Place(key, StableSort(key, s[..|s| - 1]), s[|s| - 1])
  }

  lemma SpliceSnoc<T>(s: seq<T>, x: T, k: nat)
    requires k < |s|
    ensures s[..|s| - 1][..k] + [x] + s[..|s| - 1][k..] + [s[|s| - 1]] == s[..k] + [x] + s[k..]
  {
    assert s[..|s| - 1][k..] + [s[|s| - 1]] == s[k..];
  }

  /** Into a sorted sequence, `Place` splits at the one position that keeps
      equal keys in arrival order. */
  lemma {:induction false} PlaceSplits<T>(key: T -> int, s: seq<T>, x: T) returns (k: nat)
    requires Sorted(key, s)
    ensures k <= |s|
    ensures Place(key, s, x) == s[..k] + [x] + s[k..]
    ensures forall i :: 0 <= i < k ==> key(s[i]) <= key(x)
    ensures forall i :: k <= i < |s| ==> key(x) < key(s[i])
  {
    if s == [] {
      k := 0;
    } else if key(s[|s| - 1]) <= key(x) {
      k := |s|;
      assert s[..k] + [x] + s[k..] == s + [x];
    } else {
      k := PlaceSplits(key, s[..|s| - 1], x);
      SpliceSnoc(s, x, k);
      forall i | k <= i < |s| ensures key(x) < key(s[i]) {
        if i < |s| - 1 {
          assert s[i] == s[..|s| - 1][i];
        }
      }
    }
  }

  lemma {:induction false} PlaceSorted<T>(key: T -> int, s: seq<T>, x: T)
    requires Sorted(key, s)
    ensures Sorted(key, Place(key, s, x))
  {
    var k := PlaceSplits(key, s, x);
  }

  lemma WithKeySnoc<T>(key: T -> int, s: seq<T>, x: T, k: int)
    ensures WithKey(key, s + [x], k) == WithKey(key, s, k) + (if key(x) == k then [x] else [])
  {
    assert (s + [x])[..|s + [x]| - 1] == s;
  }

  lemma {:induction false} PlaceStable<T>(key: T -> int, s: seq<T>, x: T, k: int)
    requires Sorted(key, s)
    ensures WithKey(key, Place(key, s, x), k) == WithKey(key, s + [x], k)
  {
    if s != [] && key(x) < key(s[|s| - 1]) {
      var front, last := s[..|s| - 1], s[|s| - 1];
      PlaceStable(key, front, x, k);
      WithKeySnoc(key, Place(key, front, x), last, k);
      WithKeySnoc(key, front, x, k);
      WithKeySnoc(key, s, x, k);
    } else if s == [] {
      assert s + [x] == [x];
    }
  }

  lemma SortKeepsKey<T>(key: T -> int, front: seq<T>, last: T, k: int)
    requires Sorted(key, StableSort(key, front))
    requires WithKey(key, StableSort(key, front), k) == WithKey(key, front, k)
    ensures WithKey(key, StableSort(key, front + [last]), k) == WithKey(key, front + [last], k)
  {
    var sorted := StableSort(key, front);
    SortSnoc(key, front, last);
    PlaceStable(key, sorted, last, k);
    WithKeySnoc(key, sorted, last, k);
    WithKeySnoc(key, front, last, k);
  }

  /** `StableSort` sorts, and among equal keys keeps the original order: for
      every key the subsequence carrying it is unchanged. */
  lemma {:induction false} StableSortCorrect<T>(key: T -> int, s: seq<T>)
    ensures Sorted(key, StableSort(key, s))
    ensures forall k :: WithKey(key, StableSort(key, s), k) == WithKey(key, s, k)
  {
    if s != [] {
      var front, last := s[..|s| - 1], s[|s| - 1];
      StableSortCorrect(key, front);
      var sorted := StableSort(key, front);
      PlaceSorted(key, sorted, last);
      assert s == front + [last];
      forall k ensures WithKey(key, StableSort(key, s), k) == WithKey(key, s, k) {
        SortKeepsKey(key, front, last, k);
      }
    }
  }

  lemma PlaceLast<T>(key: T -> int, front: seq<T>, last: T)
    requires front != [] ==> key(front[|front| - 1]) <= key(last)
    ensures Place(key, front, last) == front + [last]
  {
  }

  lemma SortedFront<T>(key: T -> int, s: seq<T>)
    requires s != [] && Sorted(key, s)
    ensures Sorted(key, s[..|s| - 1])
    ensures |s| >= 2 ==> key(s[|s| - 2]) <= key(s[|s| - 1])
  {
  }

  lemma {:induction false} SortedFixed<T>(key: T -> int, s: seq<T>)
    requires Sorted(key, s)
    ensures StableSort(key, s) == s
  {
    if s != [] {
      hide Sorted, Place;
      var front, last := s[..|s| - 1], s[|s| - 1];
      SortedFront(key, s);
      SortedFixed(key, front);
      PlaceLast(key, front, last);
    }
  }

  lemma SortSnoc<T>(key: T -> int, s: seq<T>, x: T)
    ensures StableSort(key, s + [x]) == Place(key, StableSort(key, s), x)
  {
    assert (s + [x])[..|s + [x]| - 1] == s;
  }

  lemma SortMembers<T>(key: T -> int, s: seq<T>)
    ensures forall x :: x in StableSort(key, s) <==> x in s
  {
    forall x ensures x in StableSort(key, s) <==> x in s {
      assert x in StableSort(key, s) <==> x in multiset(StableSort(key, s));
      assert x in s <==> x in multiset(s);
    }
  }
}
