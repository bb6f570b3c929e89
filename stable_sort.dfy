/** Python's `list.sort(key=..., reverse=True)` and `sorted(..., reverse=True)`:
    a stable sort into non-increasing key order. Python documents that
    `reverse=True` keeps equal-keyed elements in their original order; the
    model is a stable insertion sort on values, and `StableSortIsUnique`
    shows that any sort with those two properties gives the same list. */
module StableSort {

  /** A two-part sort key, compared lexicographically as Python compares
      tuples. A one-part key `x` is `Key(x, 0)`. */
  datatype Key = Key(major: int, minor: int)

  /** `a` is strictly greater than `b`, so it comes first in a descending order. */
  predicate Above(a: Key, b: Key) {
    a.major > b.major || (a.major == b.major && a.minor > b.minor)
  }

  /** Non-increasing by key. */
  ghost predicate Descending<T>(s: seq<T>, key: T -> Key) {
    forall i, j :: 0 <= i < j < |s| ==> !Above(key(s[j]), key(s[i]))
  }

  /** The elements of `s` whose key is `k`, in their order in `s`. */
  function WithKey<T>(s: seq<T>, key: T -> Key, k: Key): seq<T> {
    if s == [] then [] else (if key(s[0]) == k then [s[0]] else []) + WithKey(s[1..], key, k)
  }

  /** Equal-keyed elements appear in the same relative order in `r` and `s`. */
  ghost predicate SameTies<T>(r: seq<T>, s: seq<T>, key: T -> Key) {
    forall k :: WithKey(r, key, k) == WithKey(s, key, k)
  }

  /** Places `x` before the first element whose key it is not above, so
      that it stays ahead of the elements with its own key. */
  function Insert<T>(x: T, s: seq<T>, key: T -> Key): (r: seq<T>)
    ensures multiset(r) == multiset(s) + multiset{x}
  {
    if s == [] || !Above(key(s[0]), key(x)) then [x] + s
    else
      assert s == [s[0]] + s[1..];
      [s[0]] + Insert(x, s[1..], key)
  }

  lemma {:induction false} InsertTies<T>(x: T, s: seq<T>, key: T -> Key, k: Key)
    ensures WithKey(Insert(x, s, key), key, k) == (if key(x) == k then [x] else []) + WithKey(s, key, k)
  {
    if s == [] || !Above(key(s[0]), key(x)) {
      assert ([x] + s)[1..] == s;
    } else {
      var rest := Insert(x, s[1..], key);
      assert ([s[0]] + rest)[1..] == rest;
      InsertTies(x, s[1..], key, k);
    }
  }

  lemma {:induction false} InsertDescending<T>(x: T, s: seq<T>, key: T -> Key)
    requires Descending(s, key)
    ensures Descending(Insert(x, s, key), key)
  {
    if s == [] || !Above(key(s[0]), key(x)) {
    } else {
      var rest := Insert(x, s[1..], key);
      InsertDescending(x, s[1..], key);
      forall y | y in rest ensures !Above(key(y), key(s[0])) {
        assert y in multiset(rest);
        if y != x {
          assert y in multiset(s[1..]);
          var j :| 0 <= j < |s[1..]| && s[1..][j] == y;
          assert s[j + 1] == y;
        }
      }
      var r := [s[0]] + rest;
      forall i, j | 0 <= i < j < |r| ensures !Above(key(r[j]), key(r[i])) {
        if i == 0 {
          assert r[j] == rest[j - 1] && r[j] in rest;
        } else {
          assert r[i] == rest[i - 1] && r[j] == rest[j - 1];
        }
      }
    }
  }

  /** The stable descending sort: a permutation of its input, non-increasing
      by key, and with every group of equal keys in input order. */
  function SortDescending<T>(s: seq<T>, key: T -> Key): (r: seq<T>)
    ensures multiset(r) == multiset(s)
    ensures Descending(r, key)
    ensures SameTies(r, s, key)
  {
    if s == [] then []
    else
      var rest := SortDescending(s[1..], key);
      assert s == [s[0]] + s[1..];
      InsertDescending(s[0], rest, key);
      assert SameTies(Insert(s[0], rest, key), s, key) by {
        forall k ensures WithKey(Insert(s[0], rest, key), key, k) == WithKey(s, key, k) {
          InsertTies(s[0], rest, key, k);
        }
      }
      Insert(s[0], rest, key)
  }

  lemma {:induction false} WithKeyAppend<T>(a: seq<T>, b: seq<T>, key: T -> Key, k: Key)
    ensures WithKey(a + b, key, k) == WithKey(a, key, k) + WithKey(b, key, k)
  {
    if a == [] {
      assert a + b == b;
    } else {
      assert (a + b)[1..] == a[1..] + b;
      WithKeyAppend(a[1..], b, key, k);
    }
  }

  lemma {:induction false} WithKeyEmpty<T>(s: seq<T>, key: T -> Key, k: Key)
    requires forall i :: 0 <= i < |s| ==> key(s[i]) != k
    ensures WithKey(s, key, k) == []
  {
    if s != [] {
      WithKeyEmpty(s[1..], key, k);
    }
  }

  /** In a descending list the first element carries the largest key. */
  lemma {:induction false} HeadIsLargest<T>(r: seq<T>, s: seq<T>, key: T -> Key)
    requires r != [] && Descending(r, key) && multiset(r) == multiset(s)
    ensures forall y :: y in s ==> !Above(key(y), key(r[0]))
  {
    forall y | y in s ensures !Above(key(y), key(r[0])) {
      assert y in multiset(r);
      var j :| 0 <= j < |r| && r[j] == y;
      if j > 0 {
        assert !Above(key(r[j]), key(r[0]));
      }
    }
  }

  /** Two descending permutations of `s` that both keep the ties of `s`
      in order start with the same element. */
  lemma HeadsAgree<T>(r1: seq<T>, r2: seq<T>, s: seq<T>, key: T -> Key)
    requires multiset(r1) == multiset(s) && Descending(r1, key) && SameTies(r1, s, key)
    requires multiset(r2) == multiset(s) && Descending(r2, key) && SameTies(r2, s, key)
    requires r1 != []
    ensures r2 != [] && r1[0] == r2[0]
  {
    assert |multiset(r2)| == |multiset(r1)| > 0;
    var a, b := r1[0], r2[0];
    HeadIsLargest(r1, s, key);
    HeadIsLargest(r2, s, key);
    assert a in multiset(s) && b in multiset(s);
    var k := key(a);
    assert key(b) == k;
    assert r1 == [a] + r1[1..] && r2 == [b] + r2[1..];
    assert WithKey(r1, key, k) == [a] + WithKey(r1[1..], key, k);
    assert WithKey(r2, key, k) == [b] + WithKey(r2[1..], key, k);
    assert WithKey(r1, key, k) == WithKey(s, key, k) == WithKey(r2, key, k);
    assert WithKey(r1, key, k)[0] == a && WithKey(r2, key, k)[0] == b;
  }

  lemma TailTies<T>(r1: seq<T>, r2: seq<T>, key: T -> Key)
    requires r1 != [] && r2 != [] && r1[0] == r2[0] && SameTies(r1, r2, key)
    ensures SameTies(r1[1..], r2[1..], key)
  {
    forall k ensures WithKey(r1[1..], key, k) == WithKey(r2[1..], key, k) {
      var head := if key(r1[0]) == k then [r1[0]] else [];
      assert WithKey(r1, key, k) == head + WithKey(r1[1..], key, k);
      assert WithKey(r2, key, k) == head + WithKey(r2[1..], key, k);
      assert WithKey(r1, key, k) == WithKey(r2, key, k);
      assert WithKey(r1[1..], key, k) == WithKey(r1, key, k)[|head|..];
      assert WithKey(r2[1..], key, k) == WithKey(r2, key, k)[|head|..];
    }
  }

  /** Dropping the first element keeps a list descending. */
  lemma DescendingTail<T>(r: seq<T>, key: T -> Key)
    requires r != [] && Descending(r, key)
    ensures Descending(r[1..], key)
  {
    var t := r[1..];
    forall i, j | 0 <= i < j < |t| ensures !Above(key(t[j]), key(t[i])) {
      assert t[i] == r[i + 1] && t[j] == r[j + 1];
    }
  }

  /** Removing the same first element from two permutations of each other
      leaves permutations of each other. */
  lemma TailPermutation<T>(r1: seq<T>, r2: seq<T>)
    requires r1 != [] && r2 != [] && r1[0] == r2[0] && multiset(r1) == multiset(r2)
    ensures multiset(r2[1..]) == multiset(r1[1..])
  {
    assert r1 == [r1[0]] + r1[1..] && r2 == [r2[0]] + r2[1..];
    assert multiset(r1[1..]) == multiset(r1) - multiset{r1[0]};
    assert multiset(r2[1..]) == multiset(r2) - multiset{r2[0]};
  }

  lemma SameTiesThrough<T>(r1: seq<T>, r2: seq<T>, s: seq<T>, key: T -> Key)
    requires SameTies(r1, s, key) && SameTies(r2, s, key)
    ensures SameTies(r2, r1, key)
  {
    forall k ensures WithKey(r2, key, k) == WithKey(r1, key, k) {
      assert WithKey(r2, key, k) == WithKey(s, key, k);
    }
  }

  /** What remains after removing the common first element. */
  lemma TailsAgree<T>(r1: seq<T>, r2: seq<T>, s: seq<T>, key: T -> Key)
    requires multiset(r1) == multiset(s) && Descending(r1, key) && SameTies(r1, s, key)
    requires multiset(r2) == multiset(s) && Descending(r2, key) && SameTies(r2, s, key)
    requires r1 != [] && r2 != [] && r1[0] == r2[0]
    ensures multiset(r2[1..]) == multiset(r1[1..]) && |r1[1..]| < |s|
    ensures Descending(r1[1..], key) && Descending(r2[1..], key)
    ensures SameTies(r2[1..], r1[1..], key)
  {
    assert |multiset(r1)| == |multiset(s)|;
    TailPermutation(r1, r2);
    DescendingTail(r1, key);
    DescendingTail(r2, key);
    SameTiesThrough(r1, r2, s, key);
    TailTies(r2, r1, key);
  }

  /** Two lists that are both descending permutations of `s` with the ties
      of `s` in the same order are the same list: the result of a stable
      descending sort does not depend on the algorithm. */
  lemma {:induction false} StableSortIsUnique<T>(r1: seq<T>, r2: seq<T>, s: seq<T>, key: T -> Key)
    requires multiset(r1) == multiset(s) && Descending(r1, key) && SameTies(r1, s, key)
    requires multiset(r2) == multiset(s) && Descending(r2, key) && SameTies(r2, s, key)
    ensures r1 == r2
    decreases |s|
  {
    if r1 == [] {
      assert |multiset(r2)| == 0;
    } else {
      HeadsAgree(r1, r2, s, key);
      TailsAgree(r1, r2, s, key);
      StableSortIsUnique(r1[1..], r2[1..], r1[1..], key);
      assert r1 == [r1[0]] + r1[1..] && r2 == [r2[0]] + r2[1..];
    }
  }
}
