/** Python's `list.sort(key=..., reverse=...)` on string keys: a stable
    sort, including when `reverse` is set, where elements with equal keys
    still keep their original order. Written as an insertion sort; what the
    lemmas pin down (ordered, a permutation, equal keys in their original
    order) determines the result whatever algorithm computes it. */
module Sorting {
  import opened PyStrings

  /** `a` may stand before `b` in the sorted list. */
  predicate InOrder<T>(key: T -> string, reverse: bool, a: T, b: T)
  {
    if reverse then StrLe(key(b), key(a)) else StrLe(key(a), key(b))
  }

  predicate Sorted<T>(key: T -> string, reverse: bool, s: seq<T>)
  {
    forall i, j :: 0 <= i < j < |s| ==> InOrder(key, reverse, s[i], s[j])
  }

  lemma InOrderTotal<T>(key: T -> string, reverse: bool, a: T, b: T)
    ensures InOrder(key, reverse, a, b) || InOrder(key, reverse, b, a)
  {
    StrLeTotal(key(a), key(b));
  }

  lemma InOrderTransitive<T>(key: T -> string, reverse: bool, a: T, b: T, c: T)
    requires InOrder(key, reverse, a, b) && InOrder(key, reverse, b, c)
    ensures InOrder(key, reverse, a, c)
  {
    if reverse {
      StrLeTransitive(key(c), key(b), key(a));
    } else {
      StrLeTransitive(key(a), key(b), key(c));
    }
  }

  /** Elements that may not stand before each other have different keys. */
  lemma OutOfOrderDifferentKeys<T>(key: T -> string, reverse: bool, a: T, b: T)
    requires !InOrder(key, reverse, a, b)
    ensures key(a) != key(b)
  {
    StrLeReflexive(key(a));
  }

  /** Puts `x` in front of the first element it may precede. */
  function Insert<T>(key: T -> string, reverse: bool, x: T, s: seq<T>): (r: seq<T>)
    ensures multiset(r) == multiset(s) + multiset{x}
  {
    if s == [] || InOrder(key, reverse, x, s[0]) then [x] + s
    else
      assert s == [s[0]] + s[1..];
      [s[0]] + Insert(key, reverse, x, s[1..])
  }

  /** `sorted(s, key=key, reverse=reverse)`. */
  function SortBy<T>(key: T -> string, reverse: bool, s: seq<T>): (r: seq<T>)
    ensures multiset(r) == multiset(s)
  {
    if s == [] then []
    else
      assert s == [s[0]] + s[1..];
      Insert(key, reverse, s[0], SortBy(key, reverse, s[1..]))
  }

  lemma {:induction false} InsertSorted<T>(key: T -> string, reverse: bool, x: T, s: seq<T>)
    requires Sorted(key, reverse, s)
    ensures Sorted(key, reverse, Insert(key, reverse, x, s))
  {
    var r := Insert(key, reverse, x, s);
    if s == [] || InOrder(key, reverse, x, s[0]) {
      forall i, j | 0 <= i < j < |r|
        ensures InOrder(key, reverse, r[i], r[j])
      {
        if i == 0 {
          if j > 1 {
            InOrderTransitive(key, reverse, x, s[0], s[j - 1]);
          }
        }
      }
    } else {
      InOrderTotal(key, reverse, x, s[0]);
      var t := Insert(key, reverse, x, s[1..]);
      InsertSorted(key, reverse, x, s[1..]);
      forall i, j | 0 <= i < j < |r|
        ensures InOrder(key, reverse, r[i], r[j])
      {
        if i == 0 {
          var y := r[j];
          assert y in multiset(t);
          if y != x {
            assert y in multiset(s[1..]);
            var m :| 0 <= m < |s[1..]| && s[1..][m] == y;
            assert s[m + 1] == y;
          }
        }
      }
    }
  }

  /** The result is ordered by key. */
  lemma {:induction false} SortBySorted<T>(key: T -> string, reverse: bool, s: seq<T>)
    ensures Sorted(key, reverse, SortBy(key, reverse, s))
  {
    if s != [] {
      SortBySorted(key, reverse, s[1..]);
      InsertSorted(key, reverse, s[0], SortBy(key, reverse, s[1..]));
    }
  }

  /** The elements of `s` whose key is `k`, in their order in `s`. */
  function WithKey<T>(key: T -> string, k: string, s: seq<T>): (r: seq<T>)
    ensures |r| <= |s|
  {
    if s == [] then []
    else (if key(s[0]) == k then [s[0]] else []) + WithKey(key, k, s[1..])
  }

  lemma WithKeyCons<T>(key: T -> string, k: string, x: T, s: seq<T>)
    ensures WithKey(key, k, [x] + s) == (if key(x) == k then [x] else []) + WithKey(key, k, s)
  {
    assert ([x] + s)[1..] == s;
  }

  lemma InsertFront<T>(key: T -> string, reverse: bool, x: T, s: seq<T>)
    requires s == [] || InOrder(key, reverse, x, s[0])
    ensures Insert(key, reverse, x, s) == [x] + s
  {
  }

  lemma InsertPass<T>(key: T -> string, reverse: bool, x: T, s: seq<T>)
    requires s != [] && !InOrder(key, reverse, x, s[0])
    ensures Insert(key, reverse, x, s) == [s[0]] + Insert(key, reverse, x, s[1..])
  {
  }

  /** Inserting `x` passes only elements with a different key. */
  lemma {:induction false} InsertStable<T>(key: T -> string, reverse: bool, x: T, s: seq<T>, k: string)
    ensures WithKey(key, k, Insert(key, reverse, x, s))
            == (if key(x) == k then [x] else []) + WithKey(key, k, s)
  {
    if s == [] || InOrder(key, reverse, x, s[0]) {
      InsertFront(key, reverse, x, s);
      WithKeyCons(key, k, x, s);
    } else {
      OutOfOrderDifferentKeys(key, reverse, x, s[0]);
      InsertPass(key, reverse, x, s);
      InsertStable(key, reverse, x, s[1..], k);
      WithKeyPass(key, k, x, s, Insert(key, reverse, x, s[1..]));
    }
  }

  /** The bookkeeping step of `InsertStable` when `x` passes `s[0]`. */
  lemma WithKeyPass<T>(key: T -> string, k: string, x: T, s: seq<T>, t: seq<T>)
    requires s != [] && key(x) != key(s[0])
    requires WithKey(key, k, t) == (if key(x) == k then [x] else []) + WithKey(key, k, s[1..])
    ensures WithKey(key, k, [s[0]] + t) == (if key(x) == k then [x] else []) + WithKey(key, k, s)
  {
    WithKeyCons(key, k, s[0], t);
    var w := WithKey(key, k, s[1..]);
    assert s == [s[0]] + s[1..];
    WithKeyCons(key, k, s[0], s[1..]);
    if key(x) == k {
      assert WithKey(key, k, t) == [x] + w;
      assert WithKey(key, k, s) == w;
    } else if key(s[0]) == k {
      assert WithKey(key, k, t) == w;
      assert WithKey(key, k, s) == [s[0]] + w;
    } else {
      assert WithKey(key, k, t) == w;
      assert WithKey(key, k, s) == w;
    }
  }

  /** Stability: for every key, the elements carrying it appear in the
      result in the order they had in the input. */
  lemma {:induction false} SortByStable<T>(key: T -> string, reverse: bool, s: seq<T>, k: string)
    ensures WithKey(key, k, SortBy(key, reverse, s)) == WithKey(key, k, s)
  {
    if s != [] {
      SortByStable(key, reverse, s[1..], k);
      InsertStable(key, reverse, s[0], SortBy(key, reverse, s[1..]), k);
    }
  }
}
