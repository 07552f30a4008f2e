/**
 * The `Array.prototype` operations the system uses on its collections:
 * `filter`, `findIndex`, `find`, and the stable `sort` with a numeric
 * comparator.
 */
module Arrays {

  import opened Wrappers

  /** `s.filter(p)`: the elements satisfying `p`, in their order. */
  function Filter<T(!new)>(s: seq<T>, p: T -> bool): (r: seq<T>)
    ensures |r| <= |s|
    ensures forall x :: x in r <==> x in s && p(x)
    ensures forall i :: 0 <= i < |r| ==> p(r[i])
  {
    if s == [] then [] else (if p(s[0]) then [s[0]] else []) + Filter(s[1..], p)
  }

  /** Filtering distributes over concatenation: `filter` keeps the survivors in their order. */
  lemma {:induction false} FilterConcat<T(!new)>(a: seq<T>, b: seq<T>, p: T -> bool)
    ensures Filter(a + b, p) == Filter(a, p) + Filter(b, p)
  {
    if a == [] {
      assert a + b == b;
    } else {
      assert (a + b)[0] == a[0];
      assert (a + b)[1..] == a[1..] + b;
      FilterConcat(a[1..], b, p);
    }
  }

  /** A filter that rejects nothing returns its input. */
  lemma {:induction false} FilterKeepsAll<T(!new)>(s: seq<T>, p: T -> bool)
    requires forall x :: x in s ==> p(x)
    ensures Filter(s, p) == s
  {
    if s != [] {
      FilterKeepsAll(s[1..], p);
    }
  }

  /** `s.findIndex(p)`, with `|s|` for "not found": the first index whose element satisfies `p`. */
  function FirstIndex<T>(s: seq<T>, p: T -> bool): (i: nat)
    ensures i <= |s|
    ensures forall j :: 0 <= j < i ==> !p(s[j])
    ensures i < |s| ==> p(s[i])
  {
    if s == [] then 0 else if p(s[0]) then 0 else 1 + FirstIndex(s[1..], p)
  }

  /** `s.find(p)`: the first element satisfying `p`, if any. */
  function Find<T(!new)>(s: seq<T>, p: T -> bool): (r: Option<T>)
    ensures r.None? <==> forall x :: x in s ==> !p(x)
    ensures r.Some? ==> r.value in s && p(r.value)
  {
    var i := FirstIndex(s, p);
    if i < |s| then Some(s[i]) else None
  }

  /** Elements of `s` whose key is `k`, in their order: what a stable sort must not reorder. */
  function WithKey<T>(s: seq<T>, key: T -> int, k: int): seq<T>
  {
    if s == [] then [] else WithKey(s[..|s| - 1], key, k) + (if key(s[|s| - 1]) == k then [s[|s| - 1]] else [])
  }

  ghost predicate SortedBy<T>(s: seq<T>, key: T -> int) {
    forall i, j :: 0 <= i < j < |s| ==> key(s[i]) <= key(s[j])
  }

  /** Inserts `x` after every element whose key is at most `key(x)`. */
  function InsertByKey<T>(x: T, s: seq<T>, key: T -> int): (r: seq<T>)
    ensures multiset(r) == multiset(s) + multiset{x}
  {
    if s == [] then [x]
    else if key(s[|s| - 1]) <= key(x) then s + [x]
    else
      var r := InsertByKey(x, s[..|s| - 1], key) + [s[|s| - 1]];
      assert s == s[..|s| - 1] + [s[|s| - 1]];
      r
  }

  lemma {:induction false} InsertByKeySorted<T>(x: T, s: seq<T>, key: T -> int)
    requires SortedBy(s, key)
    ensures SortedBy(InsertByKey(x, s, key), key)
  {
    if s != [] && key(s[|s| - 1]) > key(x) {
      var init, last := s[..|s| - 1], s[|s| - 1];
      InsertByKeySorted(x, init, key);
      var ins := InsertByKey(x, init, key);
      forall y | y in init ensures key(y) <= key(last) {
        var k :| 0 <= k < |init| && init[k] == y;
        assert s[k] == y;
      }
      InsertedStaysBelow(x, init, key, key(last));
      SnocSorted(ins, last, key);
    }
  }

  /** Inserting `x` keeps every key at most `bound` when `x` and all of `s` are. */
  lemma InsertedStaysBelow<T>(x: T, s: seq<T>, key: T -> int, bound: int)
    requires key(x) <= bound && forall y :: y in s ==> key(y) <= bound
    ensures forall y :: y in InsertByKey(x, s, key) ==> key(y) <= bound
  {
    forall y | y in InsertByKey(x, s, key) ensures key(y) <= bound {
      assert y in multiset(InsertByKey(x, s, key));
      assert y == x || y in multiset(s);
    }
  }

  lemma SnocSorted<T>(s: seq<T>, last: T, key: T -> int)
    requires SortedBy(s, key) && forall y :: y in s ==> key(y) <= key(last)
    ensures SortedBy(s + [last], key)
  {
    var r := s + [last];
    forall i, j | 0 <= i < j < |r| ensures key(r[i]) <= key(r[j]) {
      assert r[i] == s[i] && s[i] in s;
      if j < |s| {
        assert r[j] == s[j];
      }
    }
  }

  /**
   * `Array.prototype.sort` with the comparator `(a, b) => key(a) - key(b)`: a
   * stable sort (ECMAScript 2019), so the result is the unique sorted
   * permutation that keeps equal keys in their original order (SortIsStable).
   */
  function SortByKey<T(!new)>(s: seq<T>, key: T -> int): (r: seq<T>)
    ensures multiset(r) == multiset(s)
    ensures forall x :: x in r <==> x in s
    ensures SortedBy(r, key)
  {
    if s == [] then []
    else
      var sorted := SortByKey(s[..|s| - 1], key);
      SortStep(s, sorted, key);
      InsertByKey(s[|s| - 1], sorted, key)
  }

  /** One step of the sort: inserting the last element into the sorted rest sorts the whole. */
  lemma SortStep<T>(s: seq<T>, sorted: seq<T>, key: T -> int)
    requires s != [] && multiset(sorted) == multiset(s[..|s| - 1]) && SortedBy(sorted, key)
    ensures var r := InsertByKey(s[|s| - 1], sorted, key);
            multiset(r) == multiset(s) && SortedBy(r, key) && forall x :: x in r <==> x in s
  {
    var init, last := s[..|s| - 1], s[|s| - 1];
    InsertByKeySorted(last, sorted, key);
    assert s == init + [last];
    SameMultisetSameElements(InsertByKey(last, sorted, key), s);
  }

  lemma SameMultisetSameElements<T>(a: seq<T>, b: seq<T>)
    requires multiset(a) == multiset(b)
    ensures forall x :: x in a <==> x in b
  {
    forall x ensures x in a <==> x in b {
      assert x in a <==> x in multiset(a);
      assert x in b <==> x in multiset(b);
    }
  }

  lemma WithKeySnoc<T>(t: seq<T>, y: T, key: T -> int, k: int)
    ensures WithKey(t + [y], key, k) == WithKey(t, key, k) + (if key(y) == k then [y] else [])
  {
    assert (t + [y])[..|t|] == t;
  }

  lemma {:induction false} InsertKeepsEqualKeys<T>(x: T, s: seq<T>, key: T -> int, k: int)
    requires SortedBy(s, key)
    ensures WithKey(InsertByKey(x, s, key), key, k) == WithKey(s, key, k) + (if key(x) == k then [x] else [])
  {
    if s == [] {
    } else if key(s[|s| - 1]) <= key(x) {
      WithKeySnoc(s, x, key, k);
    } else {
      var init, last := s[..|s| - 1], s[|s| - 1];
      assert SortedBy(init, key);
      InsertKeepsEqualKeys(x, init, key, k);
      assert s == init + [last];
      InsertPastLast(x, init, last, key, k);
    }
  }

  lemma InsertByKeySnoc<T>(x: T, init: seq<T>, last: T, key: T -> int)
    requires key(last) > key(x)
    ensures InsertByKey(x, init + [last], key) == InsertByKey(x, init, key) + [last]
  {
    var s := init + [last];
    assert s[..|s| - 1] == init && s[|s| - 1] == last;
  }

  /** Inserting before a last element with a larger key: `x` and that element never share the key `k`. */
  lemma InsertPastLast<T>(x: T, init: seq<T>, last: T, key: T -> int, k: int)
    requires key(last) > key(x)
    requires WithKey(InsertByKey(x, init, key), key, k) == WithKey(init, key, k) + (if key(x) == k then [x] else [])
    ensures WithKey(InsertByKey(x, init + [last], key), key, k) == WithKey(init + [last], key, k) + (if key(x) == k then [x] else [])
  {
    var ins := InsertByKey(x, init, key);
    InsertByKeySnoc(x, init, last, key);
    WithKeySnoc(ins, last, key, k);
    WithKeySnoc(init, last, key, k);
    SwapPastEmpty(WithKey(init, key, k), WithKey(ins, key, k),
                  if key(x) == k then [x] else [], if key(last) == k then [last] else []);
  }

  lemma SwapPastEmpty<T>(w: seq<T>, a: seq<T>, xs: seq<T>, ls: seq<T>)
    requires a == w + xs && (xs == [] || ls == [])
    ensures a + ls == (w + ls) + xs
  {
    if xs == [] {
      assert a + ls == w + ls && (w + ls) + xs == w + ls;
    } else {
      assert a + ls == a && w + ls == w;
    }
  }

  /** Sorting keeps the elements of each key in their original order. */
  lemma {:induction false} SortIsStable<T(!new)>(s: seq<T>, key: T -> int, k: int)
    ensures WithKey(SortByKey(s, key), key, k) == WithKey(s, key, k)
  {
    if s != [] {
      var init, last := s[..|s| - 1], s[|s| - 1];
      var sorted := SortByKey(init, key);
      assert SortByKey(s, key) == InsertByKey(last, sorted, key);
      SortIsStable(init, key, k);
      InsertKeepsEqualKeys(last, sorted, key, k);
      assert WithKey(s, key, k) == WithKey(init, key, k) + (if key(last) == k then [last] else []);
    }
  }

}
