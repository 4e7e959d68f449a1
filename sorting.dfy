/** The two sorts of the circle screen call `Array.prototype.sort` with a
    comparator `key(b) - key(a)`: a stable sort, largest key first. Modelled
    as insertion sort, proved to permute its input, to order it by key and to
    keep the input order among equal keys. */
module Sorting {

  /** Places `x` before the first element whose key is not larger than its own. */
  function Insert<T>(x: T, s: seq<T>, key: T -> int): (r: seq<T>)
    ensures |r| == |s| + 1
  {
    if s == [] || key(x) >= key(s[0]) then [x] + s
    else [s[0]] + Insert(x, s[1..], key)
  }

  /** `[...xs].sort((a, b) => key(b) - key(a))`. */
  function SortDesc<T>(xs: seq<T>, key: T -> int): (r: seq<T>)
    ensures |r| == |xs|
  {
    if xs == [] then [] else Insert(xs[0], SortDesc(xs[1..], key), key)
  }

  predicate SortedDesc<T>(xs: seq<T>, key: T -> int)
  {
    forall i, j :: 0 <= i < j < |xs| ==> key(xs[i]) >= key(xs[j])
  }

  /** The elements whose key is `c`, in their order. */
  function Select<T>(xs: seq<T>, key: T -> int, c: int): (r: seq<T>)
    ensures |r| <= |xs|
  {
    if xs == [] then []
    else (if key(xs[0]) == c then [xs[0]] else []) + Select(xs[1..], key, c)
  }

  /** Nothing is selected when no key is `c`. */
  lemma {:induction false} SelectNone<T>(xs: seq<T>, key: T -> int, c: int)
    requires forall j :: 0 <= j < |xs| ==> key(xs[j]) != c
    ensures Select(xs, key, c) == []
  {
    if xs != [] {
      SelectNone(xs[1..], key, c);
    }
  }

  /** Everything is selected when every key is `c`. */
  lemma {:induction false} SelectAll<T>(xs: seq<T>, key: T -> int, c: int)
    requires forall j :: 0 <= j < |xs| ==> key(xs[j]) == c
    ensures Select(xs, key, c) == xs
  {
    if xs != [] {
      SelectAll(xs[1..], key, c);
      assert xs == [xs[0]] + xs[1..];
    }
  }

  /** No two elements share a `k2` value. */
  predicate DistinctBy<T, K(==)>(xs: seq<T>, k2: T -> K)
  {
    forall i, j :: 0 <= i < j < |xs| ==> k2(xs[i]) != k2(xs[j])
  }

  lemma {:induction false} InsertPermutes<T>(x: T, s: seq<T>, key: T -> int)
    ensures multiset(Insert(x, s, key)) == multiset(s) + multiset{x}
  {
    if s != [] && key(x) < key(s[0]) {
      InsertPermutes(x, s[1..], key);
      assert s == [s[0]] + s[1..];
    }
  }

  lemma {:induction false} InsertSorted<T>(x: T, s: seq<T>, key: T -> int)
    requires SortedDesc(s, key)
    ensures SortedDesc(Insert(x, s, key), key)
    ensures key(Insert(x, s, key)[0]) == key(x) || (s != [] && key(Insert(x, s, key)[0]) == key(s[0]))
  {
    if s != [] && key(x) < key(s[0]) {
      InsertSorted(x, s[1..], key);
      var t := Insert(x, s[1..], key);
      var r := Insert(x, s, key);
      assert r == [s[0]] + t;
      assert key(s[0]) >= key(t[0]);
      forall i, j | 0 <= i < j < |r| ensures key(r[i]) >= key(r[j]) {
        if i == 0 {
          assert r[j] == t[j - 1];
        } else {
          assert r[i] == t[i - 1] && r[j] == t[j - 1];
        }
      }
    }
  }

  /** Inserting keeps the other elements' order within every key. */
  lemma {:induction false} InsertSelect<T>(x: T, s: seq<T>, key: T -> int, c: int)
    ensures Select(Insert(x, s, key), key, c) == (if key(x) == c then [x] else []) + Select(s, key, c)
  {
    if s != [] && key(x) < key(s[0]) {
      InsertSelect(x, s[1..], key, c);
      var t := Insert(x, s[1..], key);
      assert Insert(x, s, key) == [s[0]] + t;
      assert ([s[0]] + t)[0] == s[0] && ([s[0]] + t)[1..] == t;
      assert s == [s[0]] + s[1..];
    }
  }

  lemma {:induction false} InsertElements<T>(x: T, s: seq<T>, key: T -> int)
    ensures forall y :: y in Insert(x, s, key) ==> y == x || y in s
  {
    if s != [] && key(x) < key(s[0]) {
      InsertElements(x, s[1..], key);
      assert s == [s[0]] + s[1..];
    }
  }

  lemma {:induction false} InsertDistinct<T, K>(x: T, s: seq<T>, key: T -> int, k2: T -> K)
    requires DistinctBy(s, k2)
    requires forall y :: y in s ==> k2(y) != k2(x)
    ensures DistinctBy(Insert(x, s, key), k2)
  {
    if s != [] && key(x) < key(s[0]) {
      InsertDistinct(x, s[1..], key, k2);
      InsertElements(x, s[1..], key);
      var t := Insert(x, s[1..], key);
      TailDiffers(s, k2);
      assert forall j :: 0 <= j < |t| ==> t[j] in t;
      ConsDistinct(s[0], t, k2);
      assert Insert(x, s, key) == [s[0]] + t;
    }
  }

  /** In a list without repeated `k2`, the head's value is not repeated in the tail. */
  lemma TailDiffers<T, K>(s: seq<T>, k2: T -> K)
    requires s != [] && DistinctBy(s, k2)
    ensures forall y :: y in s[1..] ==> k2(y) != k2(s[0])
  {
    forall y | y in s[1..] ensures k2(y) != k2(s[0]) {
      var m :| 0 <= m < |s[1..]| && s[1..][m] == y;
      assert s[1..][m] == s[m + 1];
    }
  }

  lemma ConsDistinct<T, K>(h: T, t: seq<T>, k2: T -> K)
    requires DistinctBy(t, k2)
    requires forall j :: 0 <= j < |t| ==> k2(t[j]) != k2(h)
    ensures DistinctBy([h] + t, k2)
  {
    var r := [h] + t;
    forall i, j | 0 <= i < j < |r| ensures k2(r[i]) != k2(r[j]) {
      assert r[j] == t[j - 1];
      if i > 0 {
        assert r[i] == t[i - 1];
      }
    }
  }

  /** The result holds the same elements, as many times each. */
  lemma {:induction false} SortPermutes<T>(xs: seq<T>, key: T -> int)
    ensures multiset(SortDesc(xs, key)) == multiset(xs)
  {
    if xs != [] {
      SortPermutes(xs[1..], key);
      InsertPermutes(xs[0], SortDesc(xs[1..], key), key);
      assert xs == [xs[0]] + xs[1..];
    }
  }

  /** Larger keys come first. */
  lemma {:induction false} SortSorted<T>(xs: seq<T>, key: T -> int)
    ensures SortedDesc(SortDesc(xs, key), key)
  {
    if xs != [] {
      SortSorted(xs[1..], key);
      InsertSorted(xs[0], SortDesc(xs[1..], key), key);
    }
  }

  /** Stability: among equal keys the input order is kept. */
  lemma {:induction false} SortStable<T>(xs: seq<T>, key: T -> int, c: int)
    ensures Select(SortDesc(xs, key), key, c) == Select(xs, key, c)
  {
    if xs != [] {
      SortStable(xs[1..], key, c);
      InsertSelect(xs[0], SortDesc(xs[1..], key), key, c);
    }
  }

  /** Elements that differ in some field stay different after sorting. */
  lemma {:induction false} SortDistinct<T, K>(xs: seq<T>, key: T -> int, k2: T -> K)
    requires DistinctBy(xs, k2)
    ensures DistinctBy(SortDesc(xs, key), k2)
  {
    if xs != [] {
      SortDistinct(xs[1..], key, k2);
      SortPermutes(xs[1..], key);
      var s := SortDesc(xs[1..], key);
      forall y | y in s ensures k2(y) != k2(xs[0]) {
        assert y in multiset(s);
        var m :| 0 <= m < |xs[1..]| && xs[1..][m] == y;
        assert xs[1..][m] == xs[m + 1];
      }
      InsertDistinct(xs[0], s, key, k2);
    }
  }

  /** Among elements with equal keys, lower `rank` comes first. */
  predicate TiesByRank<T>(s: seq<T>, key: T -> int, rank: T -> int)
  {
    forall i, j :: 0 <= i < j < |s| && key(s[i]) == key(s[j]) ==> rank(s[i]) < rank(s[j])
  }

  lemma ConsTies<T>(h: T, t: seq<T>, key: T -> int, rank: T -> int)
    requires TiesByRank(t, key, rank)
    requires forall j :: 0 <= j < |t| && key(t[j]) == key(h) ==> rank(h) < rank(t[j])
    ensures TiesByRank([h] + t, key, rank)
  {
    var r := [h] + t;
    forall i, j | 0 <= i < j < |r| && key(r[i]) == key(r[j]) ensures rank(r[i]) < rank(r[j]) {
      assert r[j] == t[j - 1];
      if i > 0 {
        assert r[i] == t[i - 1];
      }
    }
  }

  lemma {:induction false} InsertTies<T>(x: T, s: seq<T>, key: T -> int, rank: T -> int)
    requires TiesByRank(s, key, rank)
    requires forall y :: y in s ==> rank(x) < rank(y)
    ensures TiesByRank(Insert(x, s, key), key, rank)
  {
    if s == [] || key(x) >= key(s[0]) {
      assert forall j :: 0 <= j < |s| ==> s[j] in s;
      ConsTies(x, s, key, rank);
    } else {
      InsertTies(x, s[1..], key, rank);
      InsertElements(x, s[1..], key);
      var t := Insert(x, s[1..], key);
      forall j | 0 <= j < |t| && key(t[j]) == key(s[0]) ensures rank(s[0]) < rank(t[j]) {
        assert t[j] in t && t[j] != x;
        var m :| 0 <= m < |s[1..]| && s[1..][m] == t[j];
        assert s[m + 1] == t[j];
      }
      ConsTies(s[0], t, key, rank);
    }
  }

  /** The sort is stable: when the input is in increasing `rank`, elements
      with equal keys come out in increasing `rank`, that is in input order. */
  lemma {:induction false} SortTies<T>(xs: seq<T>, key: T -> int, rank: T -> int)
    requires forall i, j :: 0 <= i < j < |xs| ==> rank(xs[i]) < rank(xs[j])
    ensures TiesByRank(SortDesc(xs, key), key, rank)
  {
    if xs != [] {
      SortTies(xs[1..], key, rank);
      SortPermutes(xs[1..], key);
      var s := SortDesc(xs[1..], key);
      forall y | y in s ensures rank(xs[0]) < rank(y) {
        assert y in multiset(s);
        var m :| 0 <= m < |xs[1..]| && xs[1..][m] == y;
        assert xs[1..][m] == xs[m + 1];
      }
      InsertTies(xs[0], s, key, rank);
    }
  }

  /** With keys 1 and 0 only, a list ordered by key is its 1s followed by its 0s. */
  lemma {:induction false} TwoKeysSplit<T>(r: seq<T>, key: T -> int)
    requires SortedDesc(r, key)
    requires forall j :: 0 <= j < |r| ==> key(r[j]) == 0 || key(r[j]) == 1
    ensures r == Select(r, key, 1) + Select(r, key, 0)
  {
    if r != [] {
      if key(r[0]) == 1 {
        TwoKeysSplit(r[1..], key);
        assert r == [r[0]] + r[1..];
      } else {
        assert forall j :: 0 <= j < |r| ==> key(r[j]) == 0;
        SelectNone(r, key, 1);
        SelectAll(r, key, 0);
      }
    }
  }

  /** When one element has key 1 and every other key 0, selecting 1 gives just that element. */
  lemma {:induction false} SelectSingleHigh<T>(xs: seq<T>, key: T -> int, i: nat)
    requires i < |xs| && key(xs[i]) == 1
    requires forall j :: 0 <= j < |xs| && j != i ==> key(xs[j]) == 0
    ensures Select(xs, key, 1) == [xs[i]]
  {
    if i == 0 {
      assert forall j :: 0 <= j < |xs[1..]| ==> key(xs[1..][j]) == 0;
      SelectNone(xs[1..], key, 1);
    } else {
      SelectSingleHigh(xs[1..], key, i - 1);
    }
  }

  /** In the same case, selecting 0 gives all the others, in order. */
  lemma {:induction false} SelectRestLow<T>(xs: seq<T>, key: T -> int, i: nat)
    requires i < |xs| && key(xs[i]) == 1
    requires forall j :: 0 <= j < |xs| && j != i ==> key(xs[j]) == 0
    ensures Select(xs, key, 0) == xs[..i] + xs[i + 1..]
  {
    if i == 0 {
      assert forall j :: 0 <= j < |xs[1..]| ==> key(xs[1..][j]) == 0;
      SelectAll(xs[1..], key, 0);
      assert xs[..0] + xs[1..] == xs[1..];
    } else {
      SelectRestLow(xs[1..], key, i - 1);
      assert xs[..i] + xs[i + 1..] == [xs[0]] + (xs[1..][..i - 1] + xs[1..][i..]);
    }
  }
}
