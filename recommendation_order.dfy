/**
 * The order of the recommendation list: descending by (priority rank, gap
 * size), stable, so records with equal keys keep their relative order, as a
 * stable sort with `reverse=True` does.
 */
module RecommendationOrder {

  /** (priority rank, gap size), compared lexicographically. */
  type SortKey = (int, int)

  /** `a` sorts no later than `b`: its key is at least `b`'s. */
  predicate KeyAtLeast(a: SortKey, b: SortKey)
  {
    a.0 > b.0 || (a.0 == b.0 && a.1 >= b.1)
  }

  /** Keys never increase along the sequence. */
  predicate SortedDesc<T>(s: seq<T>, key: T -> SortKey)
  {
    forall i, j | 0 <= i < j < |s| :: KeyAtLeast(key(s[i]), key(s[j]))
  }

  /** The elements with key `k`, in order. */
  function WithKey<T>(s: seq<T>, key: T -> SortKey, k: SortKey): (r: seq<T>)
    ensures |r| <= |s|
  {
    if s == [] then []
    else (if key(s[0]) == k then [s[0]] else []) + WithKey(s[1..], key, k)
  }

  /** Put `x` after every element with a greater key and before the rest. */
  function Insert<T>(x: T, s: seq<T>, key: T -> SortKey): (r: seq<T>)
    ensures |r| == |s| + 1
  {
    if s == [] then [x]
    else if KeyAtLeast(key(x), key(s[0])) then [x] + s
    else [s[0]] + Insert(x, s[1..], key)
  }

  /** Stable sort by descending key. */
  function SortDesc<T>(s: seq<T>, key: T -> SortKey): (r: seq<T>)
    ensures |r| == |s|
  {
    if s == [] then [] else Insert(s[0], SortDesc(s[1..], key), key)
  }

  lemma {:induction false} InsertMultiset<T>(x: T, s: seq<T>, key: T -> SortKey)
    ensures multiset(Insert(x, s, key)) == multiset(s) + multiset{x}
  {
    if s != [] && !KeyAtLeast(key(x), key(s[0])) {
      InsertMultiset(x, s[1..], key);
      assert s == [s[0]] + s[1..];
    }
  }

  lemma {:induction false} InsertSorted<T>(x: T, s: seq<T>, key: T -> SortKey)
    requires SortedDesc(s, key)
    ensures SortedDesc(Insert(x, s, key), key)
  {
    if s != [] {
      var r := Insert(x, s, key);
      if KeyAtLeast(key(x), key(s[0])) {
        forall i, j | 0 <= i < j < |r| ensures KeyAtLeast(key(r[i]), key(r[j])) {
          if i == 0 {
            assert r[j] == s[j - 1];
          } else {
            assert r[i] == s[i - 1] && r[j] == s[j - 1];
          }
        }
      } else {
        var t := s[1..];
        assert SortedDesc(t, key);
        InsertSorted(x, t, key);
        InsertMultiset(x, t, key);
        var rest := Insert(x, t, key);
        assert r == [s[0]] + rest;
        forall i, j | 0 <= i < j < |r| ensures KeyAtLeast(key(r[i]), key(r[j])) {
          if i == 0 {
            assert r[j] == rest[j - 1];
            assert r[j] in multiset(rest);
            if r[j] != x {
              assert r[j] in multiset(t);
              var m :| 0 <= m < |t| && t[m] == r[j];
              assert s[m + 1] == t[m];
            }
          } else {
            assert r[i] == rest[i - 1] && r[j] == rest[j - 1];
          }
        }
      }
    }
  }

  lemma WithKeyCons<T>(x: T, s: seq<T>, key: T -> SortKey, k: SortKey)
    ensures WithKey([x] + s, key, k) == (if key(x) == k then [x] else []) + WithKey(s, key, k)
  {
    assert ([x] + s)[0] == x;
    assert ([x] + s)[1..] == s;
  }

  /** Inserting into a sorted sequence puts `x` first among the elements with
      its key and leaves the order of the others alone. */
  lemma {:induction false} InsertWithKey<T>(x: T, s: seq<T>, key: T -> SortKey, k: SortKey)
    requires SortedDesc(s, key)
    ensures WithKey(Insert(x, s, key), key, k) == (if key(x) == k then [x] else []) + WithKey(s, key, k)
  {
    if s == [] {
      WithKeyCons(x, [], key, k);
    } else if KeyAtLeast(key(x), key(s[0])) {
      WithKeyCons(x, s, key, k);
    } else {
      var t := s[1..];
      assert SortedDesc(t, key);
      InsertWithKey(x, t, key, k);
      var rest := Insert(x, t, key);
      var cx: seq<T> := if key(x) == k then [x] else [];
      var c0: seq<T> := if key(s[0]) == k then [s[0]] else [];
      WithKeyCons(s[0], rest, key, k);
      WithKeyCons(s[0], t, key, k);
      assert s == [s[0]] + t;
      // s[0] has a strictly greater key than x, so at most one of them has key k.
      assert c0 == [] || cx == [];
      assert c0 + (cx + WithKey(t, key, k)) == cx + (c0 + WithKey(t, key, k));
    }
  }

  /** The sorted list is in descending key order. */
  lemma {:induction false} SortDescSorted<T>(s: seq<T>, key: T -> SortKey)
    ensures SortedDesc(SortDesc(s, key), key)
  {
    if s != [] {
      SortDescSorted(s[1..], key);
      InsertSorted(s[0], SortDesc(s[1..], key), key);
    }
  }

  /** The sorted list is a permutation of the input. */
  lemma {:induction false} SortDescPermutation<T>(s: seq<T>, key: T -> SortKey)
    ensures multiset(SortDesc(s, key)) == multiset(s)
  {
    if s != [] {
      SortDescPermutation(s[1..], key);
      InsertMultiset(s[0], SortDesc(s[1..], key), key);
      assert s == [s[0]] + s[1..];
    }
  }

  /** Stability: for every key, the elements with that key appear in the
      sorted list in the same order as in the input. */
  lemma {:induction false} SortDescStable<T>(s: seq<T>, key: T -> SortKey, k: SortKey)
    ensures WithKey(SortDesc(s, key), key, k) == WithKey(s, key, k)
  {
    if s != [] {
      SortDescStable(s[1..], key, k);
      SortDescSorted(s[1..], key);
      InsertWithKey(s[0], SortDesc(s[1..], key), key, k);
    }
  }
}
