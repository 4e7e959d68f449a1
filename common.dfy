/** Shared building blocks: optional values, the errors the mock backend
    throws, and the array searches (`find`/`findIndex`, `filter`) that every
    operation of the backend is built from. */
module Common {

  datatype Option<+T> = None | Some(value: T)

  /** The exceptions the backend throws, one per distinct message. */
  datatype Error =
    | UserNotFound           // "User not found"
    | PrayerNotFound         // "Prayer not found"
    | CirculoNotFound        // "Circulo not found"
    | UserOrCirculoNotFound  // "User or Circulo not found"
    | Denied                 // "Denied"

  /** Outcome of a backend call: a value, or the exception it throws. */
  datatype Result<+T> = Ok(value: T) | Err(error: Error)

  /** Index of the first element whose key is `k`, or -1 when there is none:
      `xs.findIndex(x => key(x) === k)`; `find` is the element at that index. */
  function IndexOf<T, K(==)>(xs: seq<T>, key: T -> K, k: K): (i: int)
    ensures -1 <= i < |xs|
    ensures i == -1 <==> forall j :: 0 <= j < |xs| ==> key(xs[j]) != k
    ensures 0 <= i ==> key(xs[i]) == k && forall j :: 0 <= j < i ==> key(xs[j]) != k
  {
    if xs == [] then -1
    else if key(xs[0]) == k then 0
    else
      var i := IndexOf(xs[1..], key, k);
      if i == -1 then -1 else i + 1
  }

  /** A search over a concatenation finds the first part's match, else the second's, shifted. */
  lemma IndexOfConcat<T, K>(a: seq<T>, b: seq<T>, key: T -> K, k: K)
    ensures IndexOf(a + b, key, k) ==
      if IndexOf(a, key, k) != -1 then IndexOf(a, key, k)
      else if IndexOf(b, key, k) == -1 then -1
      else |a| + IndexOf(b, key, k)
  {
    var ia, ib := IndexOf(a, key, k), IndexOf(b, key, k);
    var ab := a + b;
    if ia != -1 {
      assert key(ab[ia]) == k;
      assert forall j :: 0 <= j < ia ==> ab[j] == a[j];
    } else if ib == -1 {
      forall j | 0 <= j < |ab| ensures key(ab[j]) != k {
        if j < |a| { assert ab[j] == a[j]; } else { assert ab[j] == b[j - |a|]; }
      }
    } else {
      assert key(ab[|a| + ib]) == k;
      forall j | 0 <= j < |a| + ib ensures key(ab[j]) != k {
        if j < |a| { assert ab[j] == a[j]; } else { assert ab[j] == b[j - |a|]; }
      }
    }
  }

  /** Two lists with the same keys, position by position, have the same search results. */
  lemma IndexOfSameKeys<T, U, K>(xs: seq<T>, ys: seq<U>, kx: T -> K, ky: U -> K, k: K)
    requires |xs| == |ys|
    requires forall j :: 0 <= j < |xs| ==> kx(xs[j]) == ky(ys[j])
    ensures IndexOf(xs, kx, k) == IndexOf(ys, ky, k)
  {
  }

  /** Removing an element that does not match leaves the first match in place,
      one step earlier when it came after the removed element. */
  lemma {:induction false} IndexOfRemoveAt<T, K>(xs: seq<T>, i: nat, key: T -> K, k: K)
    requires i < |xs| && key(xs[i]) != k
    ensures var j := IndexOf(xs, key, k);
      IndexOf(xs[..i] + xs[i + 1..], key, k) == if j == -1 || j < i then j else j - 1
  {
    if i == 0 {
      assert xs[..0] + xs[1..] == xs[1..];
    } else {
      assert xs[..i] + xs[i + 1..] == [xs[0]] + (xs[1..][..i - 1] + xs[1..][i..]);
      if key(xs[0]) != k {
        IndexOfRemoveAt(xs[1..], i - 1, key, k);
      }
    }
  }

  /** The scanning loop behind `findIndex`. */
  method FindIndex<T, K(==)>(xs: seq<T>, key: T -> K, k: K) returns (i: int)
    ensures i == IndexOf(xs, key, k)
  {
    i := 0;
    while i < |xs|
      invariant 0 <= i <= |xs|
      invariant forall j :: 0 <= j < i ==> key(xs[j]) != k
    {
      if key(xs[i]) == k {
        return;
      }
      i := i + 1;
    }
    i := -1;
  }

  /** `xs.filter(x => key(x) !== k)`: drops every element whose key is `k`
      and keeps the others in order. */
  function FilterOut<T(!new), K(==)>(xs: seq<T>, key: T -> K, k: K): (r: seq<T>)
    ensures |r| <= |xs|
    ensures forall j :: 0 <= j < |r| ==> key(r[j]) != k
    ensures (forall j :: 0 <= j < |xs| ==> key(xs[j]) != k) ==> r == xs
    ensures forall x :: x in xs && key(x) != k ==> x in r
    ensures forall x :: x in r ==> x in xs
  {
    if xs == [] then []
    else if key(xs[0]) == k then FilterOut(xs[1..], key, k)
    else [xs[0]] + FilterOut(xs[1..], key, k)
  }

  function Identity(x: string): string { x }

  /** `ids.filter(id => id !== x)`. */
  function Without(xs: seq<string>, x: string): (r: seq<string>)
    ensures x !in r
    ensures forall y :: y in r <==> y in xs && y != x
    ensures x !in xs ==> r == xs
  {
    FilterOut(xs, Identity, x)
  }

  /** `FilterOut` distributes over concatenation. */
  lemma {:induction false} FilterOutAppend<T(!new), K>(a: seq<T>, b: seq<T>, key: T -> K, k: K)
    ensures FilterOut(a + b, key, k) == FilterOut(a, key, k) + FilterOut(b, key, k)
  {
    if a == [] {
      assert a + b == b;
    } else {
      assert (a + b)[1..] == a[1..] + b;
      FilterOutAppend(a[1..], b, key, k);
    }
  }

  /** Filtering by the same key twice is filtering once. */
  lemma {:induction false} FilterOutIdempotent<T(!new), K>(xs: seq<T>, key: T -> K, k: K)
    ensures FilterOut(FilterOut(xs, key, k), key, k) == FilterOut(xs, key, k)
  {
    var r := FilterOut(xs, key, k);
    assert forall j :: 0 <= j < |r| ==> key(r[j]) != k;
  }

  /** Two lists that agree everywhere except at elements both drop filter to the same list. */
  lemma {:induction false} FilterOutIgnoresDropped<T(!new), K>(a: seq<T>, b: seq<T>, key: T -> K, k: K)
    requires |a| == |b|
    requires forall j :: 0 <= j < |a| ==> a[j] == b[j] || (key(a[j]) == k && key(b[j]) == k)
    ensures FilterOut(a, key, k) == FilterOut(b, key, k)
  {
    if a != [] {
      FilterOutIgnoresDropped(a[1..], b[1..], key, k);
    }
  }

  /** No element occurs twice. */
  predicate NoDup<T(==)>(xs: seq<T>)
  {
    forall i, j :: 0 <= i < j < |xs| ==> xs[i] != xs[j]
  }

  /** Filtering never introduces a duplicate. */
  lemma {:induction false} FilterOutKeepsNoDup<T(!new), K>(xs: seq<T>, key: T -> K, k: K)
    requires NoDup(xs)
    ensures NoDup(FilterOut(xs, key, k))
  {
    if xs != [] {
      FilterOutKeepsNoDup(xs[1..], key, k);
      var r := FilterOut(xs[1..], key, k);
      assert forall y :: y in r ==> y in xs[1..];
      assert xs[0] !in xs[1..];
    }
  }
}
