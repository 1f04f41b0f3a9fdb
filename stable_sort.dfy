/** The ordering that List.sort gives the dictionary, the anagram ranking and
    the scraper output: largest key first, and stable, so elements with equal
    keys keep their order. Modelled as insertion from the back. */
module StableSort {

  /** Keys never increase from one element to the next. */
  ghost predicate SortedDesc<T>(s: seq<T>, key: T -> int) {
    forall i :: 0 < i < |s| ==> key(s[i - 1]) >= key(s[i])
  }

  /** The elements of s whose key is k, in the order of s. */
  function WithKey<T>(s: seq<T>, key: T -> int, k: int): seq<T>
    decreases |s|
  {
    if s == [] then []
    else (if key(s[0]) == k then [s[0]] else []) + WithKey(s[1..], key, k)
  }

  /** Puts x in front of the first element whose key is not larger than x's. */
  function Insert<T>(x: T, s: seq<T>, key: T -> int): seq<T>
    decreases |s|
  {
    if s == [] || key(x) >= key(s[0]) then [x] + s
    else [s[0]] + Insert(x, s[1..], key)
  }

  lemma {:induction false} InsertSorted<T>(x: T, s: seq<T>, key: T -> int)
    requires SortedDesc(s, key)
    ensures SortedDesc(Insert(x, s, key), key)
    ensures Insert(x, s, key)[0] == x || (s != [] && Insert(x, s, key)[0] == s[0])
    decreases |s|
  {
    if s != [] && key(x) < key(s[0]) {
      InsertSorted(x, s[1..], key);
      var t := Insert(x, s[1..], key);
      var r := [s[0]] + t;
      assert Insert(x, s, key) == r;
      forall i | 0 < i < |r| ensures key(r[i - 1]) >= key(r[i]) {
        if i > 1 {
          assert r[i - 1] == t[i - 2] && r[i] == t[i - 1];
        }
      }
    }
  }

  lemma {:induction false} InsertPermutes<T>(x: T, s: seq<T>, key: T -> int)
    ensures multiset(Insert(x, s, key)) == multiset(s) + multiset{x}
    decreases |s|
  {
    if s != [] && key(x) < key(s[0]) {
      InsertPermutes(x, s[1..], key);
      assert s == [s[0]] + s[1..];
    }
  }

  /** Stable sort by non-increasing key. */
  function SortDesc<T>(s: seq<T>, key: T -> int): seq<T>
    decreases |s|
  {
    if s == [] then [] else Insert(s[0], SortDesc(s[1..], key), key)
  }

  /** The sort puts the keys in non-increasing order. */
  lemma {:induction false} SortDescSorted<T>(s: seq<T>, key: T -> int)
    ensures SortedDesc(SortDesc(s, key), key)
    decreases |s|
  {
    if s != [] {
      SortDescSorted(s[1..], key);
      InsertSorted(s[0], SortDesc(s[1..], key), key);
    }
  }

  /** The sort keeps every element as often as it occurs. */
  lemma {:induction false} SortDescPermutes<T>(s: seq<T>, key: T -> int)
    ensures multiset(SortDesc(s, key)) == multiset(s)
    decreases |s|
  {
    if s != [] {
      SortDescPermutes(s[1..], key);
      InsertPermutes(s[0], SortDesc(s[1..], key), key);
      assert s == [s[0]] + s[1..];
    }
  }

  lemma {:induction false} InsertStable<T>(x: T, s: seq<T>, key: T -> int, k: int)
    requires SortedDesc(s, key)
    ensures WithKey(Insert(x, s, key), key, k)
         == (if key(x) == k then [x] else []) + WithKey(s, key, k)
    decreases |s|
  {
    var xs := if key(x) == k then [x] else [];
    if s == [] || key(x) >= key(s[0]) {
      WithKeyCons(x, s, key, k);
    } else {
      var t := Insert(x, s[1..], key);
      SortedTail(s, key);
      InsertStable(x, s[1..], key, k);
      WithKeyCons(s[0], t, key, k);
      WithKeyCons(s[0], s[1..], key, k);
      assert [s[0]] + s[1..] == s;
      var hs := if key(s[0]) == k then [s[0]] else [];
      SwapEmpty(hs, xs, WithKey(s[1..], key, k));
    }
  }

  /** When one of two prefixes is empty, their order does not matter. */
  lemma SwapEmpty<T>(a: seq<T>, b: seq<T>, w: seq<T>)
    requires a == [] || b == []
    ensures a + (b + w) == b + (a + w)
  {
    if a == [] {
      assert a + (b + w) == b + w == b + (a + w);
    } else {
      assert b + (a + w) == a + w == a + (b + w);
    }
  }

  /** WithKey of a list with x in front. */
  lemma WithKeyCons<T>(x: T, s: seq<T>, key: T -> int, k: int)
    ensures WithKey([x] + s, key, k) == (if key(x) == k then [x] else []) + WithKey(s, key, k)
  {
    assert ([x] + s)[1..] == s;
  }

  lemma SortedTail<T>(s: seq<T>, key: T -> int)
    requires SortedDesc(s, key) && s != []
    ensures SortedDesc(s[1..], key)
  {
    forall i | 0 < i < |s[1..]| ensures key(s[1..][i - 1]) >= key(s[1..][i]) {
      assert s[1..][i - 1] == s[i] && s[1..][i] == s[i + 1];
    }
  }

  /** Stability: for every key, the elements with that key come out in the order they went in. */
  lemma {:induction false} SortDescStable<T>(s: seq<T>, key: T -> int, k: int)
    ensures WithKey(SortDesc(s, key), key, k) == WithKey(s, key, k)
    decreases |s|
  {
    if s != [] {
      SortDescStable(s[1..], key, k);
      SortDescSorted(s[1..], key);
      InsertStable(s[0], SortDesc(s[1..], key), key, k);
    }
  }

  /** Sorting keeps exactly the elements it was given. */
  lemma SortDescMembers<T>(s: seq<T>, key: T -> int)
    ensures forall x :: x in SortDesc(s, key) <==> x in s
  {
    var r := SortDesc(s, key);
    SortDescPermutes(s, key);
    forall x ensures x in r <==> x in s {
      assert x in r <==> x in multiset(r);
      assert x in s <==> x in multiset(s);
    }
  }
}
