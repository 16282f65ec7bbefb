/** A stable sort by descending integer key, and the sequence facts it is specified with.
    `Array.prototype.sort` is stable, so with a comparator `(a, b) => key(b) - key(a)` it
    produces exactly the sequence `SortDesc` defines: the keys are non-increasing, the result is
    a permutation, and elements with equal keys keep their relative order. */
module Sorting {

  // ---------------------------------------------------------------------------------------------
  // Filtering and positions

  function Filter<T>(s: seq<T>, p: T -> bool): (r: seq<T>)
    ensures |r| <= |s|
    ensures forall k :: 0 <= k < |r| ==> p(r[k])
    ensures forall k :: 0 <= k < |r| ==> r[k] in s
    ensures forall k :: 0 <= k < |s| && p(s[k]) ==> s[k] in r
  {
    if s == [] then [] else (if p(s[0]) then [s[0]] else []) + Filter(s[1..], p)
  }

  /** The predicate "has key `c`". */
  function HasKey<T>(key: T -> int, c: int): T -> bool {
    x => key(x) == c
  }

  ghost predicate Distinct<T>(s: seq<T>) {
    forall i, j :: 0 <= i < j < |s| ==> s[i] != s[j]
  }

  /** Index of the first occurrence of `x` in `s`. */
  function IndexOf<T(==)>(s: seq<T>, x: T): (i: nat)
    requires x in s
    ensures i < |s| && s[i] == x
    ensures forall k :: 0 <= k < i ==> s[k] != x
  {
    if s[0] == x then 0 else 1 + IndexOf(s[1..], x)
  }

  /** Appending an element does not move the first occurrence of one already present. */
  lemma {:induction false} IndexOfAppend<T>(s: seq<T>, y: T, x: T)
    requires x in s
    ensures x in s + [y] && IndexOf(s + [y], x) == IndexOf(s, x)
  {
    if s[0] != x {
      assert (s + [y])[1..] == s[1..] + [y];
      IndexOfAppend(s[1..], y, x);
    }
  }

  /** A new element appended at the end is first found there. */
  lemma {:induction false} IndexOfLast<T>(s: seq<T>, x: T)
    requires x !in s
    ensures IndexOf(s + [x], x) == |s|
  {
    if s != [] {
      assert (s + [x])[1..] == s[1..] + [x];
      IndexOfLast(s[1..], x);
    }
  }

  /** `x` occurs in `s` before `y` does. */
  ghost predicate Precedes<T>(s: seq<T>, x: T, y: T)
    requires x in s && y in s
  {
    IndexOf(s, x) < IndexOf(s, y)
  }

  lemma {:induction false} FilterPrecedes<T>(s: seq<T>, p: T -> bool, x: T, y: T)
    requires x in s && y in s && x != y && p(x) && p(y)
    ensures x in Filter(s, p) && y in Filter(s, p)
    ensures Precedes(Filter(s, p), x, y) == Precedes(s, x, y)
  {
    var f := Filter(s, p);
    if s[0] != x && s[0] != y {
      FilterPrecedes(s[1..], p, x, y);
      var f' := Filter(s[1..], p);
      if p(s[0]) {
        assert f == [s[0]] + f';
        assert IndexOf(f, x) == 1 + IndexOf(f', x);
        assert IndexOf(f, y) == 1 + IndexOf(f', y);
      } else {
        assert f == f';
      }
    } else {
      assert f[0] == s[0];
    }
  }

  lemma {:induction false} FilterDistinct<T>(s: seq<T>, p: T -> bool)
    requires Distinct(s)
    ensures Distinct(Filter(s, p))
  {
    if s != [] {
      FilterDistinct(s[1..], p);
      assert s[0] !in s[1..];
    }
  }

  lemma {:induction false} MultisetDistinct<T>(s: seq<T>, x: T)
    requires Distinct(s)
    ensures multiset(s)[x] <= 1
  {
    if s != [] {
      assert s == [s[0]] + s[1..];
      MultisetDistinct(s[1..], x);
      if s[0] == x { assert x !in s[1..]; }
    }
  }

  /** A permutation of a sequence without repetitions has none either. */
  lemma PermutationDistinct<T>(s: seq<T>, t: seq<T>)
    requires Distinct(s) && multiset(s) == multiset(t)
    ensures Distinct(t)
  {
    forall i, j | 0 <= i < j < |t| ensures t[i] != t[j] {
      if t[i] == t[j] {
        var x := t[i];
        assert t == t[..i] + [x] + t[i + 1..j] + [x] + t[j + 1..];
        assert multiset(t)[x] >= 2;
        MultisetDistinct(s, x);
        assert false;
      }
    }
  }

  // ---------------------------------------------------------------------------------------------
  // The sort

  ghost predicate NonIncreasing<T>(s: seq<T>, key: T -> int) {
    forall i, j :: 0 <= i < j < |s| ==> key(s[i]) >= key(s[j])
  }

  /** Places `x` before the first element of `s` whose key is not greater than its own. */
  function Insert<T>(x: T, s: seq<T>, key: T -> int): (r: seq<T>)
    ensures multiset(r) == multiset{x} + multiset(s)
    ensures |r| == |s| + 1
  {
    if s == [] || key(s[0]) <= key(x) then [x] + s
    else
      var r := [s[0]] + Insert(x, s[1..], key);
      assert s == [s[0]] + s[1..];
      r
  }

  lemma {:induction false} InsertSorted<T>(x: T, s: seq<T>, key: T -> int)
    requires NonIncreasing(s, key)
    ensures NonIncreasing(Insert(x, s, key), key)
  {
    if s != [] && key(s[0]) > key(x) {
      var r' := Insert(x, s[1..], key);
      InsertSorted(x, s[1..], key);
      forall k | 0 <= k < |r'| ensures key(r'[k]) <= key(s[0]) {
        assert r'[k] in multiset(r');
        if r'[k] != x {
          assert r'[k] in multiset(s[1..]);
          var j :| 0 <= j < |s[1..]| && s[1..][j] == r'[k];
          assert s[1..][j] == s[j + 1];
        }
      }
      assert Insert(x, s, key) == [s[0]] + r';
    }
  }

  /** Stable insertion sort by descending key. */
  function SortDesc<T>(s: seq<T>, key: T -> int): (r: seq<T>)
    ensures multiset(r) == multiset(s)
    ensures |r| == |s|
    ensures NonIncreasing(r, key)
  {
    if s == [] then []
    else
      assert s == [s[0]] + s[1..];
      InsertSorted(s[0], SortDesc(s[1..], key), key);
      Insert(s[0], SortDesc(s[1..], key), key)
  }

  lemma {:induction false} InsertTies<T>(x: T, s: seq<T>, key: T -> int, c: int)
    ensures Filter(Insert(x, s, key), HasKey(key, c))
         == (if key(x) == c then [x] else []) + Filter(s, HasKey(key, c))
  {
    var p := HasKey(key, c);
    if s == [] || key(s[0]) <= key(x) {
      assert ([x] + s)[1..] == s;
    } else {
      InsertTies(x, s[1..], key, c);
      var r := [s[0]] + Insert(x, s[1..], key);
      assert r[1..] == Insert(x, s[1..], key);
    }
  }

  /** Stability: for every key value, the elements with that key appear in the sorted sequence in
      the same order as in the input. */
  lemma {:induction false} SortDescStable<T>(s: seq<T>, key: T -> int, c: int)
    ensures Filter(SortDesc(s, key), HasKey(key, c)) == Filter(s, HasKey(key, c))
  {
    if s != [] {
      InsertTies(s[0], SortDesc(s[1..], key), key, c);
      SortDescStable(s[1..], key, c);
    }
  }

  /** Stability, stated on pairs: of two distinct elements with equal keys, the one that comes
      first in the input comes first in the result. */
  lemma SortDescKeepsTieOrder<T>(s: seq<T>, key: T -> int, x: T, y: T)
    requires x in s && y in s && x != y && key(x) == key(y)
    ensures x in SortDesc(s, key) && y in SortDesc(s, key)
    ensures Precedes(SortDesc(s, key), x, y) == Precedes(s, x, y)
  {
    var r := SortDesc(s, key);
    var p := HasKey(key, key(x));
    assert multiset(r) == multiset(s);
    assert x in multiset(r) && y in multiset(r);
    SortDescStable(s, key, key(x));
    FilterPrecedes(s, p, x, y);
    FilterPrecedes(r, p, x, y);
  }
}
