/**
 * LINQ's `OrderByDescending` on an integer key: a stable sort from the
 * highest key to the lowest.
 *
 * `SortDescending` inserts the elements one at a time, in input order, each
 * after every element already placed whose key is at least its own. The
 * lemmas prove what `OrderByDescending` promises: the result is a
 * permutation of the input, its keys never increase, and elements with equal
 * keys keep their input order (for every key, the elements with that key form
 * the same sequence before and after sorting).
 */
module StableSort {

  /** The keys of `s` never increase. */
  ghost predicate Descending<T>(s: seq<T>, key: T -> int)
  {
    forall i, j :: 0 <= i < j < |s| ==> key(s[i]) >= key(s[j])
  }

  /** The elements of `s` whose key is `k`, in order. */
  function WithKey<T>(s: seq<T>, key: T -> int, k: int): seq<T>
  {
    if s == [] then [] else (if key(s[0]) == k then [s[0]] else []) + WithKey(s[1..], key, k)
  }

  /** `x` placed after every leading element whose key is at least `key(x)`. */
  function Insert<T>(x: T, s: seq<T>, key: T -> int): (r: seq<T>)
  {
    if s == [] then [x]
    else if key(s[0]) >= key(x) then [s[0]] + Insert(x, s[1..], key)
    else [x] + s
  }

  /** `moves.OrderByDescending(key)`. */
  function SortDescending<T>(s: seq<T>, key: T -> int): (r: seq<T>)
  {
    if s == [] then [] else Insert(s[|s| - 1], SortDescending(s[..|s| - 1], key), key)
  }

  lemma {:induction false} InsertPermutes<T>(x: T, s: seq<T>, key: T -> int)
    ensures multiset(Insert(x, s, key)) == multiset(s) + multiset{x}
  {
    if s != [] && key(s[0]) >= key(x) {
      InsertPermutes(x, s[1..], key);
      assert s == [s[0]] + s[1..];
    }
  }

  /** Putting `a` in front of a descending sequence keeps it descending when `a`'s key is at least the first one's. */
  lemma ConsDescending<T>(a: T, r: seq<T>, key: T -> int)
    requires Descending(r, key) && (r == [] || key(a) >= key(r[0]))
    ensures Descending([a] + r, key)
  {
    forall i, j | 0 <= i < j < |[a] + r| ensures key(([a] + r)[i]) >= key(([a] + r)[j]) {
      if i == 0 {
        assert key(a) >= key(r[0]) >= key(r[j - 1]);
      }
    }
  }

  lemma {:induction false} InsertDescending<T>(x: T, s: seq<T>, key: T -> int)
    requires Descending(s, key)
    ensures Descending(Insert(x, s, key), key)
    ensures Insert(x, s, key)[0] == (if s != [] && key(s[0]) >= key(x) then s[0] else x)
  {
    if s == [] {
    } else if key(s[0]) >= key(x) {
      InsertDescending(x, s[1..], key);
      ConsDescending(s[0], Insert(x, s[1..], key), key);
    } else {
      ConsDescending(x, s, key);
    }
  }

  /** Inserting into a descending sequence appends `x` to the elements sharing its key and leaves every other key's elements alone. */
  lemma {:induction false} InsertWithKey<T>(x: T, s: seq<T>, key: T -> int, k: int)
    requires Descending(s, key)
    ensures WithKey(Insert(x, s, key), key, k) == WithKey(s, key, k) + (if key(x) == k then [x] else [])
  {
    if s == [] {
    } else if key(s[0]) >= key(x) {
      InsertWithKey(x, s[1..], key, k);
      assert Insert(x, s, key)[1..] == Insert(x, s[1..], key);
    } else {
      assert Insert(x, s, key)[1..] == s;
      if key(x) == k {
        WithKeyBelow(s, key, k);
      }
    }
  }

  /** No element of a descending sequence whose first key is below `k` has key `k`. */
  lemma {:induction false} WithKeyBelow<T>(s: seq<T>, key: T -> int, k: int)
    requires Descending(s, key) && s != [] && key(s[0]) < k
    ensures WithKey(s, key, k) == []
  {
    if |s| > 1 {
      assert key(s[1]) <= key(s[0]);
      WithKeyBelow(s[1..], key, k);
    }
  }

  /** `WithKey` of a sequence with one element appended. */
  lemma {:induction false} WithKeySnoc<T>(s: seq<T>, x: T, key: T -> int, k: int)
    ensures WithKey(s + [x], key, k) == WithKey(s, key, k) + (if key(x) == k then [x] else [])
  {
    if s != [] {
      WithKeySnoc(s[1..], x, key, k);
      assert (s + [x])[1..] == s[1..] + [x];
    }
  }

  /** The sort returns a permutation of its input. */
  lemma {:induction false} SortPermutes<T>(s: seq<T>, key: T -> int)
    ensures multiset(SortDescending(s, key)) == multiset(s)
  {
    if s != [] {
      var n := |s|;
      SortPermutes(s[..n - 1], key);
      InsertPermutes(s[n - 1], SortDescending(s[..n - 1], key), key);
      assert s == s[..n - 1] + [s[n - 1]];
    }
  }

  /** The keys of the result never increase. */
  lemma {:induction false} SortDescends<T>(s: seq<T>, key: T -> int)
    ensures Descending(SortDescending(s, key), key)
  {
    if s != [] {
      SortDescends(s[..|s| - 1], key);
      InsertDescending(s[|s| - 1], SortDescending(s[..|s| - 1], key), key);
    }
  }

  /** Stability: for every key, the elements with that key appear in the result in their input order. */
  lemma {:induction false} SortStable<T>(s: seq<T>, key: T -> int, k: int)
    ensures WithKey(SortDescending(s, key), key, k) == WithKey(s, key, k)
  {
    if s != [] {
      var n := |s|;
      SortStable(s[..n - 1], key, k);
      SortDescends(s[..n - 1], key);
      InsertWithKey(s[n - 1], SortDescending(s[..n - 1], key), key, k);
      WithKeySnoc(s[..n - 1], s[n - 1], key, k);
      assert s == s[..n - 1] + [s[n - 1]];
    }
  }

  /** Two keys that compare the elements alike place `x` alike. */
  lemma {:induction false} InsertSameOrder<T>(x: T, s: seq<T>, key1: T -> int, key2: T -> int)
    requires forall a :: a in s ==> (key1(a) >= key1(x) <==> key2(a) >= key2(x))
    ensures Insert(x, s, key1) == Insert(x, s, key2)
  {
    if s != [] {
      assert s[0] in s;
      if key1(s[0]) >= key1(x) {
        InsertSameOrder(x, s[1..], key1, key2);
      }
    }
  }

  /**
   * The sort looks at the keys only through comparisons: two keys that order
   * every pair of elements alike give the same result.
   */
  lemma {:induction false} SortSameOrder<T>(s: seq<T>, key1: T -> int, key2: T -> int)
    requires forall a, b :: a in s && b in s ==> (key1(a) >= key1(b) <==> key2(a) >= key2(b))
    ensures SortDescending(s, key1) == SortDescending(s, key2)
  {
    if s != [] {
      var n := |s|;
      var prefix := s[..n - 1];
      forall a, b | a in prefix && b in prefix ensures key1(a) >= key1(b) <==> key2(a) >= key2(b) {
        assert a in s && b in s;
      }
      SortSameOrder(prefix, key1, key2);
      SortPermutes(prefix, key1);
      forall a | a in SortDescending(prefix, key1)
        ensures key1(a) >= key1(s[n - 1]) <==> key2(a) >= key2(s[n - 1])
      {
        assert a in multiset(prefix);
        assert a in s;
      }
      InsertSameOrder(s[n - 1], SortDescending(prefix, key1), key1, key2);
    }
  }
}
