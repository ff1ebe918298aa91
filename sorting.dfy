/**
 * Python's `sorted(xs, key=key, reverse=True)`: a stable sort into
 * non-increasing key order. Modelled as an insertion sort; the lemma
 * `SortDescUnique` shows that any stable descending sort gives the same
 * sequence, so the choice of algorithm does not matter.
 */
module Sorting {

  /** Keys never increase along `xs`. */
  predicate SortedDesc<T>(xs: seq<T>, key: T -> int) {
    forall i, j :: 0 <= i < j < |xs| ==> key(xs[i]) >= key(xs[j])
  }

  /** The elements of `xs` whose key is `k`, in their order in `xs`. */
  function WithKey<T>(xs: seq<T>, key: T -> int, k: int): seq<T> {
    if xs == [] then []
    else (if key(xs[0]) == k then [xs[0]] else []) + WithKey(xs[1..], key, k)
  }

  /** `x` placed after every element of `xs` whose key is at least its own. */
  function Insert<T>(x: T, xs: seq<T>, key: T -> int): seq<T> {
    if xs == [] then [x]
    else if key(xs[0]) >= key(x) then [xs[0]] + Insert(x, xs[1..], key)
    else [x] + xs
  }

  /** The stable sort: each element is inserted into the sorted prefix before it. */
  function SortDesc<T>(xs: seq<T>, key: T -> int): seq<T> {
    if xs == [] then []
    else Insert(xs[|xs| - 1], SortDesc(xs[..|xs| - 1], key), key)
  }

  /** The sort is a permutation of its input in non-increasing key order. */
  lemma {:induction false} SortDescFacts<T>(xs: seq<T>, key: T -> int)
    ensures |SortDesc(xs, key)| == |xs| && multiset(SortDesc(xs, key)) == multiset(xs)
    ensures SortedDesc(SortDesc(xs, key), key)
  {
    if xs != [] {
      var init := xs[..|xs| - 1];
      SortDescFacts(init, key);
      InsertFacts(xs[|xs| - 1], SortDesc(init, key), key);
      assert xs == init + [xs[|xs| - 1]];
    }
  }

  lemma {:induction false} InsertFacts<T>(x: T, xs: seq<T>, key: T -> int)
    requires SortedDesc(xs, key)
    ensures multiset(Insert(x, xs, key)) == multiset(xs) + multiset{x}
    ensures |Insert(x, xs, key)| == |xs| + 1
    ensures SortedDesc(Insert(x, xs, key), key)
  {
    InsertCount(x, xs, key);
    InsertSorted(x, xs, key);
  }

  lemma {:induction false} InsertCount<T>(x: T, xs: seq<T>, key: T -> int)
    ensures multiset(Insert(x, xs, key)) == multiset(xs) + multiset{x}
    ensures |Insert(x, xs, key)| == |xs| + 1
  {
    if xs != [] && key(xs[0]) >= key(x) {
      InsertCount(x, xs[1..], key);
      assert xs == [xs[0]] + xs[1..];
    }
  }

  lemma ConsSorted<T>(y: T, ys: seq<T>, key: T -> int)
    requires SortedDesc(ys, key)
    requires ys != [] ==> key(y) >= key(ys[0])
    ensures SortedDesc([y] + ys, key)
  {
    var r := [y] + ys;
    forall i, j | 0 <= i < j < |r| ensures key(r[i]) >= key(r[j]) {
      assert r[j] == ys[j - 1];
      if i > 0 {
        assert r[i] == ys[i - 1];
      } else {
        assert key(ys[0]) >= key(ys[j - 1]);
      }
    }
  }

  lemma {:induction false} InsertSorted<T>(x: T, xs: seq<T>, key: T -> int)
    requires SortedDesc(xs, key)
    ensures SortedDesc(Insert(x, xs, key), key)
    ensures Insert(x, xs, key) != []
    ensures key(Insert(x, xs, key)[0]) == if xs != [] && key(xs[0]) >= key(x) then key(xs[0]) else key(x)
  {
    if xs == [] {
    } else if key(xs[0]) >= key(x) {
      var tail := xs[1..];
      SortedTail(xs, key);
      InsertSorted(x, tail, key);
      var rest := Insert(x, tail, key);
      if tail != [] && key(tail[0]) >= key(x) {
        assert key(xs[0]) >= key(tail[0]);
      }
      ConsSorted(xs[0], rest, key);
    } else {
      ConsSorted(x, xs, key);
    }
  }

  lemma {:induction false} WithKeyAppend<T>(xs: seq<T>, ys: seq<T>, key: T -> int, k: int)
    ensures WithKey(xs + ys, key, k) == WithKey(xs, key, k) + WithKey(ys, key, k)
  {
    if xs == [] {
      assert xs + ys == ys;
    } else {
      var h := if key(xs[0]) == k then [xs[0]] else [];
      var a, b := WithKey(xs[1..], key, k), WithKey(ys, key, k);
      calc {
        WithKey(xs + ys, key, k);
        { assert (xs + ys)[0] == xs[0] && (xs + ys)[1..] == xs[1..] + ys; }
        h + WithKey(xs[1..] + ys, key, k);
        { WithKeyAppend(xs[1..], ys, key, k); }
        h + (a + b);
        (h + a) + b;
      }
    }
  }

  lemma {:induction false} WithKeyNone<T>(xs: seq<T>, key: T -> int, k: int)
    requires forall y :: y in xs ==> key(y) != k
    ensures WithKey(xs, key, k) == []
  {
    if xs != [] {
      WithKeyNone(xs[1..], key, k);
    }
  }

  /** Inserting `x` into a sorted sequence puts it after all elements of equal key. */
  lemma {:induction false} InsertStable<T>(x: T, xs: seq<T>, key: T -> int, k: int)
    requires SortedDesc(xs, key)
    ensures WithKey(Insert(x, xs, key), key, k)
         == WithKey(xs, key, k) + (if key(x) == k then [x] else [])
  {
    if xs == [] {
    } else if key(xs[0]) >= key(x) {
      var rest := Insert(x, xs[1..], key);
      assert Insert(x, xs, key) == [xs[0]] + rest;
      SortedTail(xs, key);
      InsertStable(x, xs[1..], key, k);
      WithKeyCons([xs[0]] + rest, key, k);
      assert ([xs[0]] + rest)[1..] == rest;
      WithKeyCons(xs, key, k);
    } else {
      assert Insert(x, xs, key) == [x] + xs;
      WithKeyCons([x] + xs, key, k);
      assert ([x] + xs)[1..] == xs;
      if key(x) == k {
        forall y | y in xs ensures key(y) != k {
          var j :| 0 <= j < |xs| && xs[j] == y;
        }
        WithKeyNone(xs, key, k);
      }
    }
  }

  /** Stability: for every key, the elements with that key keep their input order. */
  lemma {:induction false} SortDescStable<T>(xs: seq<T>, key: T -> int, k: int)
    ensures WithKey(SortDesc(xs, key), key, k) == WithKey(xs, key, k)
  {
    if xs != [] {
      var init := xs[..|xs| - 1];
      var last := xs[|xs| - 1];
      SortDescStable(init, key, k);
      SortDescFacts(init, key);
      InsertStable(last, SortDesc(init, key), key, k);
      assert xs == init + [last];
      WithKeyAppend(init, [last], key, k);
    }
  }

  lemma {:induction false} WithKeyMember<T>(xs: seq<T>, key: T -> int, y: T)
    requires y in xs
    ensures y in WithKey(xs, key, key(y))
  {
    if xs[0] != y {
      WithKeyMember(xs[1..], key, y);
    }
  }

  lemma {:induction false} WithKeyElements<T>(xs: seq<T>, key: T -> int, k: int)
    ensures forall y :: y in WithKey(xs, key, k) ==> y in xs && key(y) == k
  {
    if xs != [] {
      WithKeyElements(xs[1..], key, k);
    }
  }

  /** In a descending sequence, the first key bounds every key present. */
  lemma HeadKeyIsMax<T>(a: seq<T>, key: T -> int, k: int)
    requires SortedDesc(a, key) && WithKey(a, key, k) != []
    ensures a != [] && key(a[0]) >= k
  {
    WithKeyElements(a, key, k);
    var y := WithKey(a, key, k)[0];
    assert y in WithKey(a, key, k);
    var i :| 0 <= i < |a| && a[i] == y;
  }

  /**
   * A sorted sequence is determined by its per-key subsequences: two
   * descending sequences that agree on `WithKey` for every key are equal.
   */
  lemma {:induction false} SortedByKeysUnique<T>(a: seq<T>, b: seq<T>, key: T -> int)
    requires SortedDesc(a, key) && SortedDesc(b, key)
    requires forall k :: WithKey(a, key, k) == WithKey(b, key, k)
    ensures a == b
    decreases |a| + |b|
  {
    if a != [] {
      WithKeyMember(a, key, a[0]);
      HeadKeyIsMax(b, key, key(a[0]));
      WithKeyMember(b, key, b[0]);
      HeadKeyIsMax(a, key, key(b[0]));
      var k0 := key(a[0]);
      WithKeyCons(a, key, k0);
      WithKeyCons(b, key, k0);
      assert WithKey(a, key, k0)[0] == a[0];
      assert WithKey(b, key, k0)[0] == b[0];
      TailsAgree(a, b, key);
      SortedTail(a, key);
      SortedTail(b, key);
      SortedByKeysUnique(a[1..], b[1..], key);
      assert a == [a[0]] + a[1..] && b == [b[0]] + b[1..];
    } else if b != [] {
      assert false;
    }
  }

  lemma SortedTail<T>(a: seq<T>, key: T -> int)
    requires SortedDesc(a, key) && a != []
    ensures SortedDesc(a[1..], key)
  {
    forall i, j | 0 <= i < j < |a| - 1 ensures key(a[1..][i]) >= key(a[1..][j]) {
      assert a[1..][i] == a[i + 1] && a[1..][j] == a[j + 1];
    }
  }

  lemma WithKeyCons<T>(a: seq<T>, key: T -> int, k: int)
    requires a != []
    ensures WithKey(a, key, k) == (if key(a[0]) == k then [a[0]] else []) + WithKey(a[1..], key, k)
  {
  }

  lemma TailsAgree<T>(a: seq<T>, b: seq<T>, key: T -> int)
    requires a != [] && b != [] && a[0] == b[0]
    requires forall k :: WithKey(a, key, k) == WithKey(b, key, k)
    ensures forall k :: WithKey(a[1..], key, k) == WithKey(b[1..], key, k)
  {
    forall k ensures WithKey(a[1..], key, k) == WithKey(b[1..], key, k) {
      WithKeyCons(a, key, k);
      WithKeyCons(b, key, k);
      var h := if key(a[0]) == k then [a[0]] else [];
      assert h + WithKey(a[1..], key, k) == h + WithKey(b[1..], key, k);
      assert WithKey(a[1..], key, k) == (h + WithKey(a[1..], key, k))[|h|..];
    }
  }

  /** Any stable descending ordering of `xs` is `SortDesc(xs)`. */
  lemma SortDescUnique<T>(xs: seq<T>, ys: seq<T>, key: T -> int)
    requires SortedDesc(ys, key)
    requires forall k :: WithKey(ys, key, k) == WithKey(xs, key, k)
    ensures ys == SortDesc(xs, key)
  {
    forall k ensures WithKey(ys, key, k) == WithKey(SortDesc(xs, key), key, k) {
      SortDescStable(xs, key, k);
    }
    SortDescFacts(xs, key);
    SortedByKeysUnique(ys, SortDesc(xs, key), key);
  }
}
