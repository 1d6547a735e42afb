/**
 * The stable sort that `List.sort` and `Stream.sorted` perform in the solvers,
 * on an integer key. Stability matters: the falling-brick pass visits bricks
 * of equal lowest z in the order in which they were added.
 */
module Sorting {

  ghost predicate SortedBy<T>(s: seq<T>, key: T -> int) {
    forall i, j :: 0 <= i < j < |s| ==> key(s[i]) <= key(s[j])
  }

  /** The elements of `s` whose key is `k`, in their order in `s`. */
  function WithKey<T>(s: seq<T>, key: T -> int, k: int): seq<T> {
    if s == [] then []
    else (if key(s[0]) == k then [s[0]] else []) + WithKey(s[1..], key, k)
  }

  lemma WithKeyCons<T>(x: T, s: seq<T>, key: T -> int, k: int)
    ensures WithKey([x] + s, key, k) == (if key(x) == k then [x] else []) + WithKey(s, key, k)
  {
    var t := [x] + s;
    assert t[0] == x && t[1..] == s;
  }

  lemma {:induction false} WithKeyAppend<T>(a: seq<T>, b: seq<T>, key: T -> int, k: int)
    ensures WithKey(a + b, key, k) == WithKey(a, key, k) + WithKey(b, key, k)
  {
    if a == [] {
      assert a + b == b;
    } else {
      WithKeyAppend(a[1..], b, key, k);
      WithKeyCons(a[0], a[1..] + b, key, k);
      WithKeyCons(a[0], a[1..], key, k);
      assert a == [a[0]] + a[1..] && a + b == [a[0]] + (a[1..] + b);
    }
  }

  /** No element with key `k` lies in a sequence whose keys all exceed `k`. */
  lemma {:induction false} WithKeyAbove<T>(s: seq<T>, key: T -> int, k: int)
    requires forall i :: 0 <= i < |s| ==> key(s[i]) > k
    ensures WithKey(s, key, k) == []
  {
    if s != [] {
      WithKeyAbove(s[1..], key, k);
    }
  }

  /** Inserts `x` behind every element whose key is not larger than its own. */
  function InsertBy<T>(x: T, s: seq<T>, key: T -> int): (r: seq<T>)
    requires SortedBy(s, key)
    ensures SortedBy(r, key)
    ensures multiset(r) == multiset(s) + multiset{x}
    ensures |r| == |s| + 1
    ensures key(r[0]) == key(x) || (|s| > 0 && key(r[0]) == key(s[0]))
  {
    if s == [] then [x]
    else if key(x) < key(s[0]) then [x] + s
    else
      var tail := InsertBy(x, s[1..], key);
      assert s == [s[0]] + s[1..];
      assert key(s[0]) <= key(tail[0]);
      var r := [s[0]] + tail;
      assert forall i, j :: 0 <= i < j < |r| ==> key(r[i]) <= key(r[j]) by {
        forall i, j | 0 <= i < j < |r|
          ensures key(r[i]) <= key(r[j])
        {
          if i == 0 {
            assert key(tail[0]) <= key(tail[j - 1]);
          }
        }
      }
      r
  }

  /** Placing `x` in front of larger keys adds it behind the (absent) elements of its key. */
  lemma InsertFrontKeepsOrder<T>(x: T, s: seq<T>, key: T -> int, k: int)
    requires SortedBy(s, key) && (s == [] || key(x) < key(s[0]))
    ensures WithKey([x] + s, key, k) == WithKey(s, key, k) + (if key(x) == k then [x] else [])
  {
    WithKeyCons(x, s, key, k);
    if key(x) == k {
      assert forall i :: 0 <= i < |s| ==> key(s[i]) > k by {
        assert forall i :: 0 <= i < |s| ==> s == [] || key(s[0]) <= key(s[i]);
      }
      WithKeyAbove(s, key, k);
    } else {
      assert [] + WithKey(s, key, k) == WithKey(s, key, k) + [];
    }
  }

  /** Placing `s[0]` in front of a sequence keeps it in front of that sequence's elements of its key. */
  lemma InsertBehindKeepsOrder<T>(x: T, s: seq<T>, tail: seq<T>, key: T -> int, k: int)
    requires s != []
    requires WithKey(tail, key, k) == WithKey(s[1..], key, k) + (if key(x) == k then [x] else [])
    ensures WithKey([s[0]] + tail, key, k) == WithKey(s, key, k) + (if key(x) == k then [x] else [])
  {
    WithKeyCons(s[0], tail, key, k);
    WithKeyCons(s[0], s[1..], key, k);
    assert s == [s[0]] + s[1..];
  }

  /** Inserting `x` puts it behind every element of its key and keeps the order of each key. */
  lemma {:induction false} InsertByKeepsOrder<T>(x: T, s: seq<T>, key: T -> int, k: int)
    requires SortedBy(s, key)
    ensures WithKey(InsertBy(x, s, key), key, k) == WithKey(s, key, k) + (if key(x) == k then [x] else [])
  {
    if s == [] || key(x) < key(s[0]) {
      assert InsertBy(x, s, key) == [x] + s;
      InsertFrontKeepsOrder(x, s, key, k);
    } else {
      InsertByKeepsOrder(x, s[1..], key, k);
      InsertBehindKeepsOrder(x, s, InsertBy(x, s[1..], key), key, k);
    }
  }

  /** A stable insertion sort: each element is inserted behind its equals. */
  function SortBy<T>(s: seq<T>, key: T -> int): (r: seq<T>)
    ensures SortedBy(r, key)
    ensures multiset(r) == multiset(s)
    ensures |r| == |s|
  {
    if s == [] then []
    else
      var init := s[..|s| - 1];
      assert s == init + [s[|s| - 1]];
      InsertBy(s[|s| - 1], SortBy(init, key), key)
  }

  /** The elements of key `k` in `s` are those of all but its last element, then the last one if its key is `k`. */
  lemma WithKeyLast<T>(s: seq<T>, key: T -> int, k: int)
    requires s != []
    ensures WithKey(s, key, k) ==
      WithKey(s[..|s| - 1], key, k) + (if key(s[|s| - 1]) == k then [s[|s| - 1]] else [])
  {
    var last := s[|s| - 1];
    assert s == s[..|s| - 1] + [last];
    WithKeyAppend(s[..|s| - 1], [last], key, k);
    assert WithKey([last], key, k) == (if key(last) == k then [last] else []) + WithKey([last][1..], key, k);
    assert [last][1..] == [];
  }

  /** The sort is stable: the elements of any one key keep their order in `s`. */
  lemma {:induction false} SortByIsStable<T>(s: seq<T>, key: T -> int, k: int)
    ensures WithKey(SortBy(s, key), key, k) == WithKey(s, key, k)
  {
    if s != [] {
      var init := s[..|s| - 1];
      SortByIsStable(init, key, k);
      InsertByKeepsOrder(s[|s| - 1], SortBy(init, key), key, k);
      WithKeyLast(s, key, k);
    }
  }

  /** Inserting an element whose key is at least every key appends it. */
  lemma {:induction false} InsertLargestAppends<T>(x: T, s: seq<T>, key: T -> int)
    requires SortedBy(s, key)
    requires forall i :: 0 <= i < |s| ==> key(s[i]) <= key(x)
    ensures InsertBy(x, s, key) == s + [x]
  {
    if s != [] {
      InsertLargestAppends(x, s[1..], key);
    }
  }

  /** Sorting a sequence that is already sorted changes nothing. */
  lemma {:induction false} SortSortedIsIdentity<T>(s: seq<T>, key: T -> int)
    requires SortedBy(s, key)
    ensures SortBy(s, key) == s
  {
    if s != [] {
      var init := s[..|s| - 1];
      SortSortedIsIdentity(init, key);
      InsertLargestAppends(s[|s| - 1], init, key);
      assert init + [s[|s| - 1]] == s;
    }
  }

  ghost predicate StrictlyIncreasing(s: seq<int>) {
    forall i, j :: 0 <= i < j < |s| ==> s[i] < s[j]
  }

  function Identity(x: int): int { x }

  /** Drops repeated neighbours from a sorted sequence. */
  function DedupSorted(s: seq<int>): (r: seq<int>)
    requires SortedBy(s, Identity)
    ensures StrictlyIncreasing(r)
    ensures forall v :: v in r <==> v in s
    ensures |s| > 0 ==> |r| > 0 && r[0] == s[0]
  {
    if |s| <= 1 then s
    else
      var rest := DedupSorted(s[1..]);
      assert s == [s[0]] + s[1..];
      if s[0] == s[1] then rest else [s[0]] + rest
  }

  /** `stream().sorted().distinct().toList()` on integers. */
  function SortedDistinct(s: seq<int>): (r: seq<int>)
    ensures StrictlyIncreasing(r)
    ensures forall v :: v in r <==> v in s
  {
    var sorted := SortBy(s, Identity);
    assert forall v :: v in sorted <==> v in multiset(sorted);
    assert forall v :: v in s <==> v in multiset(s);
    DedupSorted(sorted)
  }
}
