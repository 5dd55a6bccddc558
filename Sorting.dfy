/**
 * A stable sort on an integer key: what `Array.prototype.sort` does with a
 * comparator `(a, b) => key(a) - key(b)`. The sort is an insertion sort;
 * it is characterised by being ordered, a permutation and stable, and any
 * ordered and stable rearrangement equals it.
 */
module Sorting {

  predicate SortedBy<T(!new)>(s: seq<T>, key: T -> int) {
    forall i, j :: 0 <= i < j < |s| ==> key(s[i]) <= key(s[j])
  }

  /** The elements of `s` whose key is `k`, in their order in `s`. */
  function WithKey<T(!new)>(s: seq<T>, key: T -> int, k: int): seq<T>
  {
    if s == [] then []
    else (if key(s[0]) == k then [s[0]] else []) + WithKey(s[1..], key, k)
  }

  /** `s` keeps the relative order of the elements of `t` that share a key. */
  ghost predicate Stable<T(!new)>(s: seq<T>, t: seq<T>, key: T -> int) {
    forall k :: WithKey(s, key, k) == WithKey(t, key, k)
  }

  /** Places `x` before the first element whose key is not smaller than its own. */
  function Insert<T(!new)>(x: T, s: seq<T>, key: T -> int): (r: seq<T>)
    ensures multiset(r) == multiset(s) + multiset{x}
  {
    if s == [] || key(x) <= key(s[0]) then [x] + s
    else
      assert s == [s[0]] + s[1..];
      [s[0]] + Insert(x, s[1..], key)
  }

  lemma SortedCons<T(!new)>(h: T, t: seq<T>, key: T -> int)
    requires SortedBy(t, key)
    requires forall y :: y in t ==> key(h) <= key(y)
    ensures SortedBy([h] + t, key)
  {
    var r := [h] + t;
    forall i, j | 0 <= i < j < |r| ensures key(r[i]) <= key(r[j]) {
      assert r[j] == t[j - 1];
      if i > 0 {
        assert r[i] == t[i - 1];
      }
    }
  }

  lemma {:induction false} InsertSorted<T(!new)>(x: T, s: seq<T>, key: T -> int)
    requires SortedBy(s, key)
    ensures SortedBy(Insert(x, s, key), key)
  {
    if s == [] || key(x) <= key(s[0]) {
      SortedCons(x, s, key);
    } else {
      var t := Insert(x, s[1..], key);
      InsertSorted(x, s[1..], key);
      forall y | y in t ensures key(s[0]) <= key(y) {
        assert y in multiset(t);
        if y != x {
          assert y in multiset(s[1..]);
          var j :| 0 <= j < |s[1..]| && s[1..][j] == y;
          assert s[j + 1] == y;
        }
      }
      SortedCons(s[0], t, key);
    }
  }

  /** `s` sorted by `key`, elements with equal keys in their original order. */
  function SortByKey<T(!new)>(s: seq<T>, key: T -> int): (r: seq<T>)
    ensures multiset(r) == multiset(s)
    ensures |r| == |s|
    ensures SortedBy(r, key)
  {
    if s == [] then []
    else
      assert s == [s[0]] + s[1..];
      var t := SortByKey(s[1..], key);
      InsertSorted(s[0], t, key);
      Insert(s[0], t, key)
  }

  lemma {:induction false} InsertWithKey<T(!new)>(x: T, s: seq<T>, key: T -> int, k: int)
    ensures WithKey(Insert(x, s, key), key, k)
         == (if key(x) == k then [x] else []) + WithKey(s, key, k)
  {
    if s == [] || key(x) <= key(s[0]) {
      assert ([x] + s)[1..] == s;
    } else {
      var t := Insert(x, s[1..], key);
      var h := if key(s[0]) == k then [s[0]] else [];
      assert WithKey([s[0]] + t, key, k) == h + WithKey(t, key, k) by {
        assert ([s[0]] + t)[1..] == t;
      }
      InsertWithKey(x, s[1..], key, k);
      assert WithKey(s, key, k) == h + WithKey(s[1..], key, k);
      var xk := if key(x) == k then [x] else [];
      var w := WithKey(s[1..], key, k);
      // `x` has a larger key than `s[0]`, so at most one of them has key `k`.
      assert h + (xk + w) == xk + (h + w) by {
        if h == [] {
          assert h + (xk + w) == xk + w == xk + (h + w);
        } else {
          assert xk == [];
          assert h + (xk + w) == h + w == xk + (h + w);
        }
      }
    }
  }

  /** The sort is stable: for every key, the elements with that key come out in input order. */
  lemma {:induction false} SortByKeyStable<T(!new)>(s: seq<T>, key: T -> int)
    ensures Stable(SortByKey(s, key), s, key)
  {
    if s != [] {
      SortByKeyStable(s[1..], key);
      forall k ensures WithKey(SortByKey(s, key), key, k) == WithKey(s, key, k) {
        InsertWithKey(s[0], SortByKey(s[1..], key), key, k);
      }
    }
  }

  lemma {:induction false} InWithKey<T(!new)>(s: seq<T>, key: T -> int, x: T)
    requires x in s
    ensures x in WithKey(s, key, key(x))
  {
    if s[0] != x {
      InWithKey(s[1..], key, x);
    }
  }

  lemma {:induction false} WithKeyIn<T(!new)>(s: seq<T>, key: T -> int, k: int, x: T)
    requires x in WithKey(s, key, k)
    ensures x in s && key(x) == k
  {
    if s != [] && !(key(s[0]) == k && x == s[0]) {
      WithKeyIn(s[1..], key, k, x);
    }
  }

  /** Every element of a non-empty sequence shows up under its own key. */
  lemma NoKeysEmpty<T(!new)>(s: seq<T>, key: T -> int)
    requires forall k :: WithKey(s, key, k) == []
    ensures s == []
  {
    if s != [] {
      InWithKey(s, key, s[0]);
      assert false;
    }
  }

  lemma SortedHeadLeast<T(!new)>(s: seq<T>, key: T -> int, y: T)
    requires SortedBy(s, key) && y in s
    ensures key(s[0]) <= key(y)
  {
  }

  /**
   * A stable sort has only one possible result: two ordered sequences that
   * agree, key by key, on the order of their elements are equal.
   */
  lemma {:induction false} StableSortUnique<T(!new)>(r1: seq<T>, r2: seq<T>, key: T -> int)
    requires SortedBy(r1, key) && SortedBy(r2, key)
    requires Stable(r1, r2, key)
    ensures r1 == r2
    decreases |r1|
  {
    if r1 == [] {
      NoKeysEmpty(r2, key);
    } else if r2 == [] {
      NoKeysEmpty(r1, key);
    } else {
      var k1, k2 := key(r1[0]), key(r2[0]);
      assert r1[0] in WithKey(r2, key, k1) by {
        InWithKey(r1, key, r1[0]);
      }
      WithKeyIn(r2, key, k1, r1[0]);
      SortedHeadLeast(r2, key, r1[0]);
      assert r2[0] in WithKey(r1, key, k2) by {
        InWithKey(r2, key, r2[0]);
      }
      WithKeyIn(r1, key, k2, r2[0]);
      SortedHeadLeast(r1, key, r2[0]);
      assert r1[0] == r2[0] by {
        assert WithKey(r1, key, k1)[0] == r1[0];
        assert WithKey(r2, key, k1)[0] == r2[0];
      }
      forall k ensures WithKey(r1[1..], key, k) == WithKey(r2[1..], key, k) {
        var h := if key(r1[0]) == k then [r1[0]] else [];
        var w1, w2 := WithKey(r1[1..], key, k), WithKey(r2[1..], key, k);
        assert h + w1 == h + w2 by {
          assert WithKey(r1, key, k) == h + w1;
          assert WithKey(r2, key, k) == h + w2;
        }
        assert (h + w1)[|h|..] == w1 && (h + w2)[|h|..] == w2;
      }
      StableSortUnique(r1[1..], r2[1..], key);
      assert r1 == [r1[0]] + r1[1..] && r2 == [r2[0]] + r2[1..];
    }
  }

  /** Hence whatever ordered, stable rearrangement a library sort returns is `SortByKey`. */
  lemma StableSortIsSortByKey<T(!new)>(s: seq<T>, r: seq<T>, key: T -> int)
    requires SortedBy(r, key) && Stable(r, s, key)
    ensures r == SortByKey(s, key)
  {
    SortByKeyStable(s, key);
    StableSortUnique(r, SortByKey(s, key), key);
  }
}
