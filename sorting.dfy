/**
 * A stable sort by an integer key, smallest key first: what
 * `Array.prototype.sort` does with a comparator `(a, b) => key(a) - key(b)`.
 * The result is characterised by three lemmas: it is sorted, it is a
 * permutation of the input, and elements with equal keys keep their order.
 */
module Sorting {
  predicate SortedBy<T>(s: seq<T>, key: T -> int) {
    forall i, j :: 0 <= i < j < |s| ==> key(s[i]) <= key(s[j])
  }

  /** `x` placed after every element whose key is not larger: before the first strictly larger one. */
  function InsertByKey<T(==)>(sorted: seq<T>, x: T, key: T -> int): (r: seq<T>)
    ensures |r| == |sorted| + 1
    ensures multiset(r) == multiset(sorted) + multiset{x}
    decreases |sorted|
  {
    if |sorted| == 0 then [x]
    else if key(sorted[0]) <= key(x) then
      assert sorted == [sorted[0]] + sorted[1..];
      [sorted[0]] + InsertByKey(sorted[1..], x, key)
    else [x] + sorted
  }

  /** Insertion sort: each element is inserted into the sorted elements before it. */
  function SortByKey<T(==)>(s: seq<T>, key: T -> int): (r: seq<T>)
    ensures |r| == |s|
    decreases |s|
  {
    if |s| == 0 then [] else InsertByKey(SortByKey(s[..|s| - 1], key), s[|s| - 1], key)
  }

  lemma {:induction false} InsertSorted<T>(sorted: seq<T>, x: T, key: T -> int)
    requires SortedBy(sorted, key)
    ensures SortedBy(InsertByKey(sorted, x, key), key)
    decreases |sorted|
  {
    if |sorted| > 0 && key(sorted[0]) <= key(x) {
      var rest := InsertByKey(sorted[1..], x, key);
      InsertSorted(sorted[1..], x, key);
      var r := [sorted[0]] + rest;
      forall j | 0 < j < |r| ensures key(r[0]) <= key(r[j]) {
        assert r[j] in multiset(rest);
        assert r[j] in multiset(sorted[1..]) + multiset{x};
        if r[j] != x {
          var k :| 0 <= k < |sorted[1..]| && sorted[1..][k] == r[j];
          assert sorted[k + 1] == r[j];
        }
      }
      forall i, j | 0 <= i < j < |r| ensures key(r[i]) <= key(r[j]) {
        if i > 0 {
          assert r[i] == rest[i - 1] && r[j] == rest[j - 1];
        }
      }
    }
  }

  /** The result is sorted by the key. */
  lemma {:induction false} SortSorted<T>(s: seq<T>, key: T -> int)
    ensures SortedBy(SortByKey(s, key), key)
    decreases |s|
  {
    if |s| > 0 {
      SortSorted(s[..|s| - 1], key);
      InsertSorted(SortByKey(s[..|s| - 1], key), s[|s| - 1], key);
    }
  }

  /** Sorting loses and invents no element. */
  lemma {:induction false} SortPermutes<T>(s: seq<T>, key: T -> int)
    ensures multiset(SortByKey(s, key)) == multiset(s)
    decreases |s|
  {
    if |s| > 0 {
      SortPermutes(s[..|s| - 1], key);
      assert s == s[..|s| - 1] + [s[|s| - 1]];
    }
  }

  /** So the sorted sequence holds exactly the elements of the input. */
  lemma SortMembers<T>(s: seq<T>, key: T -> int)
    ensures forall x :: x in SortByKey(s, key) <==> x in s
  {
    SortPermutes(s, key);
    forall x ensures x in SortByKey(s, key) <==> x in s {
      assert x in s <==> x in multiset(s);
      assert x in SortByKey(s, key) <==> x in multiset(SortByKey(s, key));
    }
  }

  /** The elements with key `k`, in order. */
  function WithKey<T>(s: seq<T>, key: T -> int, k: int): seq<T>
    decreases |s|
  {
    if |s| == 0 then []
    else WithKey(s[..|s| - 1], key, k) + Own(s[|s| - 1], key, k)
  }

  /** `x` if its key is `k`. */
  function Own<T>(x: T, key: T -> int, k: int): seq<T> {
    if key(x) == k then [x] else []
  }

  lemma {:induction false} WithKeyCons<T>(x: T, s: seq<T>, key: T -> int, k: int)
    ensures WithKey([x] + s, key, k) == Own(x, key, k) + WithKey(s, key, k)
    decreases |s|
  {
    if |s| == 0 {
      assert [x] + s == [x];
      assert [x][..0] == [];
    } else {
      var l := [x] + s;
      assert l[..|l| - 1] == [x] + s[..|s| - 1];
      WithKeyCons(x, s[..|s| - 1], key, k);
    }
  }

  lemma {:induction false} WithKeyNone<T>(s: seq<T>, key: T -> int, k: int)
    requires forall i :: 0 <= i < |s| ==> key(s[i]) != k
    ensures WithKey(s, key, k) == []
    decreases |s|
  {
    if |s| > 0 {
      WithKeyNone(s[..|s| - 1], key, k);
    }
  }

  lemma Regroup<T>(a: seq<T>, b: seq<T>, c: seq<T>)
    ensures a + (b + c) == (a + b) + c
  {
  }

  lemma InsertAfterHead<T>(h: T, rest: seq<T>, x: T, key: T -> int, k: int)
    requires key(h) <= key(x)
    requires WithKey(InsertByKey(rest, x, key), key, k) == WithKey(rest, key, k) + Own(x, key, k)
    ensures WithKey(InsertByKey([h] + rest, x, key), key, k) == WithKey([h] + rest, key, k) + Own(x, key, k)
  {
    var ins := InsertByKey(rest, x, key);
    assert InsertByKey([h] + rest, x, key) == [h] + ins by {
      assert ([h] + rest)[1..] == rest;
    }
    WithKeyCons(h, ins, key, k);
    WithKeyCons(h, rest, key, k);
    Regroup(Own(h, key, k), WithKey(rest, key, k), Own(x, key, k));
  }

  /** Inserting `x` adds it after the elements of its own key already there. */
  lemma {:induction false} InsertStable<T>(sorted: seq<T>, x: T, key: T -> int, k: int)
    requires SortedBy(sorted, key)
    ensures WithKey(InsertByKey(sorted, x, key), key, k) == WithKey(sorted, key, k) + Own(x, key, k)
    decreases |sorted|
  {
    if |sorted| == 0 {
      InsertIntoEmpty(x, key, k);
    } else if key(sorted[0]) <= key(x) {
      var rest := sorted[1..];
      assert SortedBy(rest, key);
      InsertStable(rest, x, key, k);
      InsertAfterHead(sorted[0], rest, x, key, k);
      assert [sorted[0]] + rest == sorted;
    } else {
      InsertInFront(sorted, x, key, k);
    }
  }

  lemma InsertIntoEmpty<T>(x: T, key: T -> int, k: int)
    ensures WithKey(InsertByKey([], x, key), key, k) == WithKey([], key, k) + Own(x, key, k)
  {
    assert [x][..0] == [];
  }

  lemma InsertInFront<T>(sorted: seq<T>, x: T, key: T -> int, k: int)
    requires SortedBy(sorted, key) && |sorted| > 0 && key(x) < key(sorted[0])
    ensures WithKey(InsertByKey(sorted, x, key), key, k) == WithKey(sorted, key, k) + Own(x, key, k)
  {
    assert InsertByKey(sorted, x, key) == [x] + sorted;
    WithKeyCons(x, sorted, key, k);
    if key(x) == k {
      WithKeyNone(sorted, key, k);
    }
  }

  /** Elements with equal keys keep their relative order: the sort is stable. */
  lemma {:induction false} SortStable<T>(s: seq<T>, key: T -> int, k: int)
    ensures WithKey(SortByKey(s, key), key, k) == WithKey(s, key, k)
    decreases |s|
  {
    if |s| > 0 {
      var pre := s[..|s| - 1];
      SortStable(pre, key, k);
      SortSorted(pre, key);
      InsertStable(SortByKey(pre, key), s[|s| - 1], key, k);
    }
  }
}
