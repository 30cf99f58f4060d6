/**
 * Python's `list.sort(key=...)` on integer keys: a stable sort. It is given as insertion
 * sort, and stability is stated as "the elements of each key keep their relative order".
 */
module PySort {
  /** `s` is in ascending order of `key`. */
  predicate SortedBy<T>(s: seq<T>, key: T -> int) {
    forall i, j :: 0 <= i < j < |s| ==> key(s[i]) <= key(s[j])
  }

  /** The elements of `s` whose key is `k`, in their order in `s`. */
  function WithKey<T>(s: seq<T>, key: T -> int, k: int): seq<T> {
    if s == [] then []
    else (if key(s[0]) == k then [s[0]] else []) + WithKey(s[1..], key, k)
  }

  /** Insert `x` after every element whose key is not larger than its own. */
  function InsertBy<T>(s: seq<T>, x: T, key: T -> int): (r: seq<T>)
    ensures multiset(r) == multiset(s) + multiset{x}
    ensures |r| == |s| + 1
  {
    if s == [] then [x]
    else if key(x) < key(s[0]) then [x] + s
    else
      assert s == [s[0]] + s[1..];
      [s[0]] + InsertBy(s[1..], x, key)
  }

  /** `sorted(s, key=key)`. */
  function SortBy<T>(s: seq<T>, key: T -> int): (r: seq<T>)
    ensures multiset(r) == multiset(s)
    ensures |r| == |s|
  {
    if s == [] then []
    else
      var n := |s| - 1;
      assert s == s[..n] + [s[n]];
      InsertBy(SortBy(s[..n], key), s[n], key)
  }

  lemma {:induction false} InsertSorted<T>(s: seq<T>, x: T, key: T -> int)
    requires SortedBy(s, key)
    ensures SortedBy(InsertBy(s, x, key), key)
  {
    if s != [] && key(x) >= key(s[0]) {
      var rest := InsertBy(s[1..], x, key);
      InsertSorted(s[1..], x, key);
      forall y | y in rest
        ensures key(s[0]) <= key(y)
      {
        InsertMember(s[1..], x, key, y);
        if y != x {
          var k :| 0 <= k < |s[1..]| && s[1..][k] == y;
          assert s[k + 1] == y;
        }
      }
      ConsSorted(s[0], rest, key);
    }
  }

  /** What `InsertBy` returns holds the inserted element and the old ones, nothing else. */
  lemma InsertMember<T>(s: seq<T>, x: T, key: T -> int, y: T)
    requires y in InsertBy(s, x, key)
    ensures y == x || y in s
  {
    assert y in multiset(InsertBy(s, x, key));
  }

  /** A sorted sequence stays sorted with an element in front that no key undercuts. */
  lemma ConsSorted<T>(a: T, rest: seq<T>, key: T -> int)
    requires SortedBy(rest, key)
    requires forall y :: y in rest ==> key(a) <= key(y)
    ensures SortedBy([a] + rest, key)
  {
    var r := [a] + rest;
    forall i, j | 0 <= i < j < |r|
      ensures key(r[i]) <= key(r[j])
    {
      if i == 0 {
        assert r[j] == rest[j - 1];
        assert rest[j - 1] in rest;
      } else {
        assert r[i] == rest[i - 1] && r[j] == rest[j - 1];
      }
    }
  }

  /** The result of `SortBy` is in ascending key order. */
  lemma {:induction false} SortSorted<T>(s: seq<T>, key: T -> int)
    ensures SortedBy(SortBy(s, key), key)
  {
    if s != [] {
      var n := |s| - 1;
      SortSorted(s[..n], key);
      InsertSorted(SortBy(s[..n], key), s[n], key);
    }
  }

  lemma {:induction false} WithKeyAppend<T>(a: seq<T>, b: seq<T>, key: T -> int, k: int)
    ensures WithKey(a + b, key, k) == WithKey(a, key, k) + WithKey(b, key, k)
  {
    if a == [] {
      assert a + b == b;
    } else {
      var h := if key(a[0]) == k then [a[0]] else [];
      assert (a + b)[0] == a[0];
      assert (a + b)[1..] == a[1..] + b;
      assert WithKey(a + b, key, k) == h + WithKey(a[1..] + b, key, k);
      WithKeyAppend(a[1..], b, key, k);
      assert h + (WithKey(a[1..], key, k) + WithKey(b, key, k)) == (h + WithKey(a[1..], key, k)) + WithKey(b, key, k);
    }
  }

  lemma {:induction false} WithKeyNone<T>(s: seq<T>, key: T -> int, k: int)
    requires forall i :: 0 <= i < |s| ==> key(s[i]) > k
    ensures WithKey(s, key, k) == []
  {
    if s != [] {
      WithKeyNone(s[1..], key, k);
    }
  }

  /** Inserting into a sorted sequence puts `x` after the elements that share its key. */
  lemma {:induction false} InsertKeepsTies<T>(s: seq<T>, x: T, key: T -> int, k: int)
    requires SortedBy(s, key)
    ensures WithKey(InsertBy(s, x, key), key, k) == WithKey(s, key, k) + (if key(x) == k then [x] else [])
  {
    if s == [] {
    } else if key(x) < key(s[0]) {
      if key(x) == k {
        WithKeyNone(s, key, k);
      }
      assert ([x] + s)[1..] == s;
    } else {
      InsertKeepsTies(s[1..], x, key, k);
      assert ([s[0]] + InsertBy(s[1..], x, key))[1..] == InsertBy(s[1..], x, key);
    }
  }

  /** The sort is stable: the elements of each key come out in the order they went in. */
  lemma {:induction false} SortKeepsTies<T>(s: seq<T>, key: T -> int, k: int)
    ensures WithKey(SortBy(s, key), key, k) == WithKey(s, key, k)
  {
    if s != [] {
      var n := |s| - 1;
      var sorted := SortBy(s[..n], key);
      assert SortBy(s, key) == InsertBy(sorted, s[n], key);
      SortKeepsTies(s[..n], key, k);
      SortSorted(s[..n], key);
      InsertKeepsTies(sorted, s[n], key, k);
      WithKeySnoc(s, key, k);
    }
  }

  /** Filtering by key takes the last element along when its key matches. */
  lemma WithKeySnoc<T>(s: seq<T>, key: T -> int, k: int)
    requires s != []
    ensures WithKey(s, key, k) == WithKey(s[..|s| - 1], key, k) + (if key(s[|s| - 1]) == k then [s[|s| - 1]] else [])
  {
    var n := |s| - 1;
    assert s == s[..n] + [s[n]];
    WithKeyAppend(s[..n], [s[n]], key, k);
    assert WithKey([s[n]], key, k) == (if key(s[n]) == k then [s[n]] else []) + WithKey([], key, k);
  }

  /** The first element of the sorted sequence has the smallest key. */
  lemma SortedFirstIsLeast<T>(s: seq<T>, key: T -> int)
    requires s != []
    ensures var r := SortBy(s, key);
      r != [] && forall x :: x in s ==> key(r[0]) <= key(x)
  {
    var r := SortBy(s, key);
    SortSorted(s, key);
    forall x | x in s
      ensures key(r[0]) <= key(x)
    {
      assert x in multiset(s);
      assert x in multiset(r);
      var j :| 0 <= j < |r| && r[j] == x;
      if j > 0 {
        assert key(r[0]) <= key(r[j]);
      }
    }
  }
}
