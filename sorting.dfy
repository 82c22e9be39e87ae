/**
 * Python's `list.sort(key=...)` on an integer key: a stable sort. SortBy is
 * the specification (insertion from the right, after every element whose key
 * is not greater); SortInPlace is the in-place algorithm proved equal to it.
 */
module Sorting {

  /** Non-decreasing in the key. */
  predicate SortedBy<T>(s: seq<T>, key: T -> int) {
    forall i, j :: 0 <= i < j < |s| ==> key(s[i]) <= key(s[j])
  }

  /** `t` with `x` placed after the last element whose key is at most key(x). */
  function InsertBy<T>(t: seq<T>, x: T, key: T -> int): seq<T>
    decreases |t|
  {
    if t == [] then [x]
    else if key(t[|t| - 1]) <= key(x) then t + [x]
    else InsertBy(t[..|t| - 1], x, key) + [t[|t| - 1]]
  }

  /** InsertBy adds x and loses nothing. */
  lemma {:induction false} InsertByPermutes<T>(t: seq<T>, x: T, key: T -> int)
    ensures multiset(InsertBy(t, x, key)) == multiset(t) + multiset{x}
    decreases |t|
  {
    if t != [] && key(t[|t| - 1]) > key(x) {
      InsertByPermutes(t[..|t| - 1], x, key);
      assert t == t[..|t| - 1] + [t[|t| - 1]];
    }
  }

  lemma {:induction false} InsertBySorted<T>(t: seq<T>, x: T, key: T -> int)
    requires SortedBy(t, key)
    ensures SortedBy(InsertBy(t, x, key), key)
    decreases |t|
  {
    if t != [] && key(t[|t| - 1]) > key(x) {
      var init, last := t[..|t| - 1], t[|t| - 1];
      InsertBySorted(init, x, key);
      InsertByPermutes(init, x, key);
      var r := InsertBy(init, x, key);
      forall y | y in r ensures key(y) <= key(last) {
        assert y in multiset(r);
        if y != x {
          var k :| 0 <= k < |init| && init[k] == y;
          assert t[k] == y;
        }
      }
    }
  }

  /** The stable sort: each element in turn is inserted into the sorted prefix. */
  function SortBy<T>(s: seq<T>, key: T -> int): (r: seq<T>)
    ensures multiset(r) == multiset(s)
    ensures SortedBy(r, key)
    decreases |s|
  {
    if s == [] then []
    else
      var sorted := SortBy(s[..|s| - 1], key);
      InsertBySorted(sorted, s[|s| - 1], key);
      InsertByPermutes(sorted, s[|s| - 1], key);
      assert s == s[..|s| - 1] + [s[|s| - 1]];
      InsertBy(sorted, s[|s| - 1], key)
  }

  /** `[y for y in s if key(y) == v]` */
  function WithKey<T>(s: seq<T>, key: T -> int, v: int): seq<T>
    decreases |s|
  {
    if s == [] then []
    else WithKey(s[..|s| - 1], key, v) + (if key(s[|s| - 1]) == v then [s[|s| - 1]] else [])
  }

  lemma {:induction false} InsertByWithKey<T>(t: seq<T>, x: T, key: T -> int, v: int)
    ensures WithKey(InsertBy(t, x, key), key, v) == WithKey(t, key, v) + (if key(x) == v then [x] else [])
    decreases |t|
  {
    if t == [] {
      assert [x][..0] == [];
    } else if key(t[|t| - 1]) <= key(x) {
      assert (t + [x])[..|t|] == t;
    } else {
      var init, last := t[..|t| - 1], t[|t| - 1];
      InsertByWithKey(init, x, key, v);
      var r := InsertBy(init, x, key);
      assert (r + [last])[..|r|] == r;
    }
  }

  /**
   * Stability: for every key value, the elements carrying it appear in the
   * sorted sequence in the same order as in the input.
   */
  lemma {:induction false} SortByStable<T>(s: seq<T>, key: T -> int, v: int)
    ensures WithKey(SortBy(s, key), key, v) == WithKey(s, key, v)
    decreases |s|
  {
    if s != [] {
      SortByStable(s[..|s| - 1], key, v);
      InsertByWithKey(SortBy(s[..|s| - 1], key), s[|s| - 1], key, v);
    }
  }

  /** Every element carrying key v shows up in WithKey. */
  lemma {:induction false} WithKeyHas<T>(s: seq<T>, key: T -> int, v: int, i: nat)
    requires i < |s| && key(s[i]) == v
    ensures s[i] in WithKey(s, key, v)
    decreases |s|
  {
    if i < |s| - 1 {
      WithKeyHas(s[..|s| - 1], key, v, i);
    }
  }

  /** WithKey only keeps elements of s. */
  lemma {:induction false} WithKeyFrom<T>(s: seq<T>, key: T -> int, v: int, p: nat)
    requires p < |WithKey(s, key, v)|
    ensures WithKey(s, key, v)[p] in s
    decreases |s|
  {
    var init := s[..|s| - 1];
    if p < |WithKey(init, key, v)| {
      WithKeyFrom(init, key, v, p);
    }
  }

  /** Two elements with key v keep their relative order in WithKey. */
  lemma {:induction false} WithKeyKeepsOrder<T>(s: seq<T>, key: T -> int, v: int, i: nat, j: nat)
    requires i < j < |s| && key(s[i]) == v && key(s[j]) == v
    ensures exists p, q ::
              && 0 <= p < q < |WithKey(s, key, v)|
              && WithKey(s, key, v)[p] == s[i] && WithKey(s, key, v)[q] == s[j]
    decreases |s|
  {
    var init := s[..|s| - 1];
    if j == |s| - 1 {
      WithKeyHas(init, key, v, i);
      var w := WithKey(init, key, v);
      var p :| 0 <= p < |w| && w[p] == s[i];
      assert WithKey(s, key, v) == w + [s[j]];
      assert WithKey(s, key, v)[p] == s[i] && WithKey(s, key, v)[|w|] == s[j];
    } else {
      WithKeyKeepsOrder(init, key, v, i, j);
      var w := WithKey(init, key, v);
      var p, q :| 0 <= p < q < |w| && w[p] == init[i] && w[q] == init[j];
      assert WithKey(s, key, v)[..|w|] == w;
      assert WithKey(s, key, v)[p] == s[i] && WithKey(s, key, v)[q] == s[j];
    }
  }

  /** Two positions of WithKey come from positions of s in the same order. */
  lemma {:induction false} WithKeyFromInOrder<T>(s: seq<T>, key: T -> int, v: int, p: nat, q: nat)
    requires p < q < |WithKey(s, key, v)|
    ensures exists i, j :: 0 <= i < j < |s| && s[i] == WithKey(s, key, v)[p] && s[j] == WithKey(s, key, v)[q]
    decreases |s|
  {
    var init := s[..|s| - 1];
    var w := WithKey(init, key, v);
    assert WithKey(s, key, v)[..|w|] == w;
    if q < |w| {
      WithKeyFromInOrder(init, key, v, p, q);
      var i, j :| 0 <= i < j < |init| && init[i] == w[p] && init[j] == w[q];
      assert s[i] == init[i] && s[j] == init[j];
    } else {
      WithKeyFrom(init, key, v, p);
      var i :| 0 <= i < |init| && init[i] == w[p];
      assert s[i] == init[i];
      assert WithKey(s, key, v)[q] == s[|s| - 1];
    }
  }

  /** WithKey(s, key, v) holds elements of s whose key is v. */
  lemma {:induction false} WithKeyMembers<T>(s: seq<T>, key: T -> int, v: int)
    ensures forall x :: x in WithKey(s, key, v) ==> x in s && key(x) == v
    decreases |s|
  {
    if s != [] {
      WithKeyMembers(s[..|s| - 1], key, v);
      assert s == s[..|s| - 1] + [s[|s| - 1]];
    }
  }

  /** Sequences with the same filters for every key are both empty or both non-empty. */
  lemma SameFiltersEmpty<T>(r: seq<T>, t: seq<T>, key: T -> int)
    requires forall v :: WithKey(r, key, v) == WithKey(t, key, v)
    ensures r == [] <==> t == []
  {
    if r != [] {
      assert WithKey(r, key, key(r[|r| - 1])) != [];
    }
    if t != [] {
      assert WithKey(t, key, key(t[|t| - 1])) != [];
    }
  }

  /** Dropping the last element keeps a sequence sorted. */
  lemma SortedInit<T>(s: seq<T>, key: T -> int)
    requires s != [] && SortedBy(s, key)
    ensures SortedBy(s[..|s| - 1], key)
  {
  }

  /** In a sequence sorted by key, no element has a key above the last one's. */
  lemma SortedLastMax<T>(s: seq<T>, key: T -> int, z: T)
    requires SortedBy(s, key) && z in s
    ensures key(z) <= key(s[|s| - 1])
  {
    var i :| 0 <= i < |s| && s[i] == z;
    if i < |s| - 1 {
      assert key(s[i]) <= key(s[|s| - 1]);
    }
  }

  /** Two sorted non-empty sequences with the same filters end in elements of the same key. */
  lemma SameLastKey<T>(r: seq<T>, t: seq<T>, key: T -> int)
    requires r != [] && t != [] && SortedBy(r, key) && SortedBy(t, key)
    requires forall v :: WithKey(r, key, v) == WithKey(t, key, v)
    ensures key(r[|r| - 1]) == key(t[|t| - 1])
  {
    var x, y := r[|r| - 1], t[|t| - 1];
    var kr, kt := key(x), key(y);
    assert WithKey(r, key, kr) == WithKey(r[..|r| - 1], key, kr) + [x];
    assert WithKey(t, key, kt) == WithKey(t[..|t| - 1], key, kt) + [y];
    assert x in WithKey(t, key, kr) && y in WithKey(r, key, kt) by {
      assert WithKey(r, key, kr) == WithKey(t, key, kr);
      assert WithKey(t, key, kt) == WithKey(r, key, kt);
    }
    WithKeyMembers(t, key, kr);
    WithKeyMembers(r, key, kt);
    SortedLastMax(t, key, x);
    SortedLastMax(r, key, y);
  }

  /** Filtering s + [x] filters s, then keeps x when it carries the key. */
  lemma WithKeySnoc<T>(s: seq<T>, x: T, key: T -> int, v: int)
    ensures WithKey(s + [x], key, v) == WithKey(s, key, v) + (if key(x) == v then [x] else [])
  {
    assert (s + [x])[..|s|] == s;
  }

  /** Removing last elements that share a key keeps the filters equal, and the removed elements are equal. */
  lemma DropLastSameFilters<T>(ri: seq<T>, x: T, ti: seq<T>, y: T, key: T -> int)
    requires key(x) == key(y)
    requires forall v :: WithKey(ri + [x], key, v) == WithKey(ti + [y], key, v)
    ensures x == y
    ensures forall v :: WithKey(ri, key, v) == WithKey(ti, key, v)
  {
    var k := key(x);
    WithKeySnoc(ri, x, key, k);
    WithKeySnoc(ti, y, key, k);
    var a, b := WithKey(ri, key, k), WithKey(ti, key, k);
    assert a + [x] == b + [y];
    assert |a| == |b|;
    assert (a + [x])[|a|] == x && (b + [y])[|b|] == y;
    assert a == (a + [x])[..|a|] == (b + [y])[..|b|] == b;
    forall v ensures WithKey(ri, key, v) == WithKey(ti, key, v) {
      if v != k {
        WithKeySnoc(ri, x, key, v);
        WithKeySnoc(ti, y, key, v);
        assert WithKey(ri + [x], key, v) == WithKey(ti + [y], key, v);
        assert WithKey(ri, key, v) + [] == WithKey(ri, key, v);
        assert WithKey(ti, key, v) + [] == WithKey(ti, key, v);
      }
    }
  }

  /**
   * Sortedness and stability pin the result down: two sequences sorted by
   * key, with the same elements in the same order for every key value, are
   * equal. So SortBy is the stable sort, not just some sorted permutation.
   */
  lemma {:induction false} StableSortUnique<T>(r: seq<T>, t: seq<T>, key: T -> int)
    requires SortedBy(r, key) && SortedBy(t, key)
    requires forall v :: WithKey(r, key, v) == WithKey(t, key, v)
    ensures r == t
    decreases |r|
  {
    SameFiltersEmpty(r, t, key);
    if r != [] {
      SameLastKey(r, t, key);
      var ri, x, ti, y := r[..|r| - 1], r[|r| - 1], t[..|t| - 1], t[|t| - 1];
      assert r == ri + [x] && t == ti + [y];
      DropLastSameFilters(ri, x, ti, y, key);
      SortedInit(r, key);
      SortedInit(t, key);
      StableSortUnique(ri, ti, key);
    }
  }

  /** `[f(y) for y in s]` */
  function MapSeq<T, U>(f: T -> U, s: seq<T>): (r: seq<U>)
    ensures |r| == |s|
    ensures forall i :: 0 <= i < |s| ==> r[i] == f(s[i])
    decreases |s|
  {
    if s == [] then [] else MapSeq(f, s[..|s| - 1]) + [f(s[|s| - 1])]
  }

  lemma {:induction false} InsertByMap<T, U>(t: seq<T>, x: T, f: T -> U, key: T -> int, key': U -> int)
    requires forall y :: key'(f(y)) == key(y)
    ensures InsertBy(MapSeq(f, t), f(x), key') == MapSeq(f, InsertBy(t, x, key))
    decreases |t|
  {
    if t != [] {
      var init := t[..|t| - 1];
      assert MapSeq(f, t)[..|t| - 1] == MapSeq(f, init);
      if key(t[|t| - 1]) > key(x) {
        InsertByMap(init, x, f, key, key');
        var r := InsertBy(init, x, key);
        assert (r + [t[|t| - 1]])[..|r|] == r;
      } else {
        assert (t + [x])[..|t|] == t;
      }
    }
  }

  /**
   * Sorting two lists that correspond element-wise, by keys that agree,
   * keeps them corresponding element-wise.
   */
  lemma {:induction false} SortByMap<T, U>(s: seq<T>, f: T -> U, key: T -> int, key': U -> int)
    requires forall y :: key'(f(y)) == key(y)
    ensures SortBy(MapSeq(f, s), key') == MapSeq(f, SortBy(s, key))
    decreases |s|
  {
    if s != [] {
      var init := s[..|s| - 1];
      assert MapSeq(f, s)[..|s| - 1] == MapSeq(f, init);
      SortByMap(init, f, key, key');
      InsertByMap(SortBy(init, key), s[|s| - 1], f, key, key');
    }
  }

  /**
   * Where InsertBy puts x: just after the last element whose key is at most
   * key(x), every element after that position having a larger key.
   */
  lemma {:induction false} InsertByAt<T>(t: seq<T>, x: T, key: T -> int, j: nat)
    requires j <= |t|
    requires j == 0 || key(t[j - 1]) <= key(x)
    requires forall k :: j <= k < |t| ==> key(t[k]) > key(x)
    ensures InsertBy(t, x, key) == t[..j] + [x] + t[j..]
    decreases |t|
  {
    if j < |t| {
      var init := t[..|t| - 1];
      InsertByAt(init, x, key, j);
      assert init[..j] == t[..j];
      assert t[j..] == init[j..] + [t[|t| - 1]];
    }
  }

  /** A sequence that agrees with t before j, holds x at j and t shifted by one after j. */
  lemma Shifted<T>(s: seq<T>, t: seq<T>, j: nat, x: T)
    requires |s| == |t| + 1 && j <= |t|
    requires forall k :: 0 <= k < j ==> s[k] == t[k]
    requires s[j] == x
    requires forall k :: j < k < |s| ==> s[k] == t[k - 1]
    ensures s == t[..j] + [x] + t[j..]
  {
    var r := t[..j] + [x] + t[j..];
    forall k | 0 <= k < |s| ensures s[k] == r[k] {
      if k < j {
        assert r[k] == t[k];
      } else if k > j {
        assert r[k] == t[k - 1];
      }
    }
  }

  /** Insertion of a[i] into the sorted prefix a[..i], shifting larger elements right by one. */
  method InsertInPlace<T>(a: array<T>, i: nat, key: T -> int)
    requires i < a.Length
    modifies a
    ensures a[..i + 1] == InsertBy(old(a[..i]), old(a[i]), key)
    ensures a[i + 1..] == old(a[i + 1..])
  {
    var x := a[i];
    ghost var t := a[..i];
    var j := i;
    while j > 0 && key(a[j - 1]) > key(x)
      invariant 0 <= j <= i
      invariant forall k :: 0 <= k < j ==> a[k] == t[k]
      invariant forall k :: j < k <= i ==> a[k] == t[k - 1]
      invariant forall k :: i < k < a.Length ==> a[k] == old(a[k])
      invariant forall k :: j <= k < i ==> key(t[k]) > key(x)
    {
      a[j] := a[j - 1];
      j := j - 1;
    }
    a[j] := x;
    InsertByAt(t, x, key, j);
    Shifted(a[..i + 1], t, j, x);
  }

  /** Sorting one more element of s inserts it into the sorted shorter prefix. */
  lemma SortByNext<T>(s: seq<T>, i: nat, key: T -> int)
    requires i < |s|
    ensures SortBy(s[..i + 1], key) == InsertBy(SortBy(s[..i], key), s[i], key)
  {
    assert s[..i + 1][..i] == s[..i];
  }

  /** Two sequences with the same suffix from i agree at i and from i + 1. */
  lemma SuffixParts<T>(s: seq<T>, t: seq<T>, i: nat)
    requires i < |s| == |t| && s[i..] == t[i..]
    ensures s[i] == t[i] && s[i + 1..] == t[i + 1..]
  {
    assert s[i..][0] == s[i] && s[i..][1..] == s[i + 1..];
    assert t[i..][0] == t[i] && t[i..][1..] == t[i + 1..];
  }

  /** `lst.sort(key=key)` in place: insertion sort. */
  method SortInPlace<T>(a: array<T>, key: T -> int)
    modifies a
    ensures a[..] == SortBy(old(a[..]), key)
  {
    ghost var input := a[..];
    var i := 0;
    while i < a.Length
      invariant 0 <= i <= a.Length
      invariant a[..i] == SortBy(input[..i], key)
      invariant a[i..] == input[i..]
    {
      SuffixParts(a[..], input, i);
      InsertInPlace(a, i, key);
      SortByNext(input, i, key);
      i := i + 1;
    }
    assert input[..a.Length] == input;
  }
}
