/**
 The stable sort that the chat client relies on (`Array.prototype.sort`,
 section 23.1.3.30 of ECMA-262).

 A stable sort of `s` is the only sequence that is sorted and that keeps, for
 every key, the elements with that key in their order in `s`. That relation,
 `IsStableSort`, is the specification; `Sort` is a function that meets it, and
 `SortInPlace` the array algorithm.
 */
module StableSort {

  ghost predicate SortedBy<T>(s: seq<T>, key: T -> int) {
    forall i, j :: 0 <= i < j < |s| ==> key(s[i]) <= key(s[j])
  }

  /** The elements of `s` whose key is `k`, in order. */
  function WithKey<T>(s: seq<T>, key: T -> int, k: int): seq<T> {
    if |s| == 0 then [] else
      WithKey(s[..|s| - 1], key, k) + if key(s[|s| - 1]) == k then [s[|s| - 1]] else []
  }

  ghost predicate SameOrder<T>(a: seq<T>, b: seq<T>, key: T -> int) {
    forall k :: WithKey(a, key, k) == WithKey(b, key, k)
  }

  ghost predicate IsStableSort<T>(out: seq<T>, s: seq<T>, key: T -> int) {
    SortedBy(out, key) && SameOrder(out, s, key)
  }

  /** Puts `x` after the elements of `s` that do not exceed it. */
  function Insert<T>(s: seq<T>, x: T, key: T -> int): seq<T> {
    if |s| == 0 || key(s[|s| - 1]) <= key(x) then s + [x]
    else Insert(s[..|s| - 1], x, key) + [s[|s| - 1]]
  }

  function Sort<T>(s: seq<T>, key: T -> int): seq<T> {
    if |s| == 0 then [] else Insert(Sort(s[..|s| - 1], key), s[|s| - 1], key)
  }

  // ---- WithKey --------------------------------------------------------------

  lemma {:induction false} WithKeyConcat<T>(a: seq<T>, b: seq<T>, key: T -> int, k: int)
    ensures WithKey(a + b, key, k) == WithKey(a, key, k) + WithKey(b, key, k)
  {
    if |b| == 0 {
      assert a + b == a;
    } else {
      assert (a + b)[..|a + b| - 1] == a + b[..|b| - 1];
      WithKeyConcat(a, b[..|b| - 1], key, k);
    }
  }

  /** Appending one element at a time, the way every log in the client grows. */
  lemma WithKeyAppend<T>(s: seq<T>, x: T, key: T -> int, k: int)
    ensures WithKey(s + [x], key, k) == WithKey(s, key, k) + if key(x) == k then [x] else []
  {
  }

  lemma WithKeyOne<T>(x: T, key: T -> int, k: int)
    ensures WithKey([x], key, k) == if key(x) == k then [x] else []
  {
  }

  lemma {:induction false} WithKeyAbsent<T>(s: seq<T>, key: T -> int, k: int)
    requires forall x :: x in s ==> key(x) != k
    ensures WithKey(s, key, k) == []
  {
    if |s| > 0 {
      WithKeyAbsent(s[..|s| - 1], key, k);
    }
  }

  lemma {:induction false} WithKeyPresent<T>(s: seq<T>, key: T -> int, i: nat)
    requires i < |s|
    ensures WithKey(s, key, key(s[i])) != []
  {
    if i < |s| - 1 {
      WithKeyPresent(s[..|s| - 1], key, i);
    }
  }

  lemma {:induction false} WithKeySound<T>(s: seq<T>, key: T -> int, k: int)
    ensures forall x :: x in WithKey(s, key, k) ==> x in s && key(x) == k
  {
    if |s| > 0 {
      WithKeySound(s[..|s| - 1], key, k);
    }
  }

  // ---- Uniqueness -----------------------------------------------------------

  /** A sorted sequence is determined by its order within each key. */
  lemma {:induction false} StableSortUnique<T>(a: seq<T>, b: seq<T>, key: T -> int)
    requires SortedBy(a, key) && SortedBy(b, key) && SameOrder(a, b, key)
    ensures a == b
    decreases |a|
  {
    if |a| == 0 {
      if |b| > 0 { SameOrderNonempty(b, a, key); }
    } else if |b| == 0 {
      SameOrderNonempty(a, b, key);
    } else {
      var x, y := a[|a| - 1], b[|b| - 1];
      LastKeyBound(a, b, key);
      LastKeyBound(b, a, key);
      assert WithKey(a, key, key(x)) == WithKey(b, key, key(x));
      assert x == WithKey(a, key, key(x))[|WithKey(a, key, key(x))| - 1];
      assert x == y;
      var a', b' := a[..|a| - 1], b[..|b| - 1];
      forall k ensures WithKey(a', key, k) == WithKey(b', key, k) {
        assert WithKey(a, key, k) == WithKey(b, key, k);
        var tail := if key(x) == k then [x] else [];
        assert WithKey(a', key, k) + tail == WithKey(b', key, k) + tail;
        assert WithKey(a', key, k) == (WithKey(a', key, k) + tail)[..|WithKey(a', key, k) + tail| - |tail|];
      }
      StableSortUnique(a', b', key);
      assert a == a' + [x] && b == b' + [y];
    }
  }

  lemma SameOrderAt<T>(a: seq<T>, b: seq<T>, key: T -> int, k: int)
    requires SameOrder(a, b, key)
    ensures WithKey(a, key, k) == WithKey(b, key, k)
  {
  }

  lemma SameOrderNonempty<T>(a: seq<T>, b: seq<T>, key: T -> int)
    requires SameOrder(a, b, key) && |a| > 0
    ensures |b| > 0
  {
    WithKeyPresent(a, key, 0);
    assert WithKey(b, key, key(a[0])) == WithKey(a, key, key(a[0]));
  }

  lemma LastKeyBound<T>(a: seq<T>, b: seq<T>, key: T -> int)
    requires SortedBy(b, key) && SameOrder(a, b, key) && |a| > 0 && |b| > 0
    ensures key(a[|a| - 1]) <= key(b[|b| - 1])
  {
    var k := key(a[|a| - 1]);
    WithKeyPresent(a, key, |a| - 1);
    assert WithKey(a, key, k) == WithKey(b, key, k);
    WithKeySound(b, key, k);
    assert WithKey(b, key, k)[0] in b;
  }

  // ---- Sort meets the specification -----------------------------------------

  lemma {:induction false} InsertKeepsOrder<T>(s: seq<T>, x: T, key: T -> int, k: int)
    ensures WithKey(Insert(s, x, key), key, k) == WithKey(s, key, k) + if key(x) == k then [x] else []
  {
    if |s| == 0 || key(s[|s| - 1]) <= key(x) {
      WithKeyAppend(s, x, key, k);
    } else {
      var last := s[|s| - 1];
      InsertKeepsOrder(s[..|s| - 1], x, key, k);
      WithKeyAppend(Insert(s[..|s| - 1], x, key), last, key, k);
    }
  }

  lemma SortedByAppend<T>(s: seq<T>, x: T, key: T -> int)
    requires SortedBy(s, key)
    ensures (forall y :: y in s ==> key(y) <= key(x)) ==> SortedBy(s + [x], key)
  {
  }

  lemma {:induction false} InsertSorted<T>(s: seq<T>, x: T, key: T -> int)
    requires SortedBy(s, key)
    ensures SortedBy(Insert(s, x, key), key)
    ensures forall y :: y in Insert(s, x, key) ==> y in s || y == x
  {
    if !(|s| == 0 || key(s[|s| - 1]) <= key(x)) {
      var r := Insert(s[..|s| - 1], x, key);
      InsertSorted(s[..|s| - 1], x, key);
      forall i | 0 <= i < |r| ensures key(r[i]) <= key(s[|s| - 1]) {
        assert r[i] in r;
      }
    }
  }

  lemma {:induction false} SortIsStable<T>(s: seq<T>, key: T -> int)
    ensures IsStableSort(Sort(s, key), s, key)
  {
    if |s| > 0 {
      var s', x := s[..|s| - 1], s[|s| - 1];
      SortIsStable(s', key);
      InsertSorted(Sort(s', key), x, key);
      forall k ensures WithKey(Sort(s, key), key, k) == WithKey(s, key, k) {
        InsertKeepsOrder(Sort(s', key), x, key, k);
        assert WithKey(Sort(s', key), key, k) == WithKey(s', key, k);
      }
    }
  }

  /** The specification in both directions: `Sort` is the one stable sort. */
  lemma SortExact<T>(out: seq<T>, s: seq<T>, key: T -> int)
    ensures IsStableSort(out, s, key) <==> out == Sort(s, key)
  {
    SortIsStable(s, key);
    if IsStableSort(out, s, key) {
      SameOrderJoin(out, Sort(s, key), s, key);
      StableSortUnique(out, Sort(s, key), key);
    }
  }

  lemma SameOrderJoin<T>(a: seq<T>, b: seq<T>, s: seq<T>, key: T -> int)
    requires SameOrder(a, s, key) && SameOrder(b, s, key)
    ensures SameOrder(a, b, key)
  {
  }

  lemma SortSame<T>(a: seq<T>, b: seq<T>, key: T -> int)
    requires SameOrder(a, b, key)
    ensures Sort(a, key) == Sort(b, key)
  {
    SortIsStable(a, key);
    SortIsStable(b, key);
    forall k ensures WithKey(Sort(a, key), key, k) == WithKey(b, key, k) {
      assert WithKey(Sort(a, key), key, k) == WithKey(a, key, k);
      assert WithKey(a, key, k) == WithKey(b, key, k);
    }
    SortExact(Sort(a, key), b, key);
  }

  lemma SameOrderConcat<T>(a: seq<T>, b: seq<T>, tail: seq<T>, key: T -> int)
    requires SameOrder(a, b, key)
    ensures SameOrder(a + tail, b + tail, key)
  {
    forall k ensures WithKey(a + tail, key, k) == WithKey(b + tail, key, k) {
      WithKeyConcat(a, tail, key, k);
      WithKeyConcat(b, tail, key, k);
      assert WithKey(a, key, k) == WithKey(b, key, k);
    }
  }

  /** Sorting early changes nothing: sorting a sorted prefix plus later arrivals sorts them all. */
  lemma SortAbsorbsEarlierSort<T>(prefix: seq<T>, suffix: seq<T>, key: T -> int)
    ensures Sort(Sort(prefix, key) + suffix, key) == Sort(prefix + suffix, key)
  {
    SortIsStable(prefix, key);
    SameOrderConcat(Sort(prefix, key), prefix, suffix, key);
    SortSame(Sort(prefix, key) + suffix, prefix + suffix, key);
  }

  /** Sorting leaves a sequence as it is exactly when it is sorted already. */
  lemma {:induction false} SortFixpoint<T>(s: seq<T>, key: T -> int)
    ensures Sort(s, key) == s <==> SortedBy(s, key)
  {
    hide Sort, SortedBy;
    SortExact(s, s, key);
  }

  lemma {:induction false} InsertPermutes<T>(s: seq<T>, x: T, key: T -> int)
    ensures multiset(Insert(s, x, key)) == multiset(s) + multiset{x}
  {
    if !(|s| == 0 || key(s[|s| - 1]) <= key(x)) {
      InsertPermutes(s[..|s| - 1], x, key);
      assert s == s[..|s| - 1] + [s[|s| - 1]];
    }
  }

  lemma {:induction false} SortPermutes<T>(s: seq<T>, key: T -> int)
    ensures multiset(Sort(s, key)) == multiset(s)
    ensures |Sort(s, key)| == |s|
  {
    if |s| > 0 {
      SortPermutes(s[..|s| - 1], key);
      InsertPermutes(Sort(s[..|s| - 1], key), s[|s| - 1], key);
      assert s == s[..|s| - 1] + [s[|s| - 1]];
    }
    assert |Sort(s, key)| == |multiset(Sort(s, key))|;
    assert |s| == |multiset(s)|;
  }

  // ---- The array algorithm --------------------------------------------------

  /** Exchanging neighbours with different keys keeps the order within each key. */
  lemma SwapKeepsOrder<T>(s: seq<T>, j: nat, key: T -> int)
    requires j + 1 < |s| && key(s[j]) != key(s[j + 1])
    ensures SameOrder(s[j := s[j + 1]][j + 1 := s[j]], s, key)
  {
    var x, y := s[j], s[j + 1];
    var t := s[j := y][j + 1 := x];
    var before, after := s[..j], s[j + 2..];
    assert s == before + ([x, y] + after);
    assert t == before + ([y, x] + after);
    forall k ensures WithKey(t, key, k) == WithKey(s, key, k) {
      PairInEitherOrder(x, y, key, k);
      WithKeyConcat(before, [x, y] + after, key, k);
      WithKeyConcat(before, [y, x] + after, key, k);
      WithKeyConcat([x, y], after, key, k);
      WithKeyConcat([y, x], after, key, k);
    }
  }

  lemma PairInEitherOrder<T>(x: T, y: T, key: T -> int, k: int)
    requires key(x) != key(y)
    ensures WithKey([x, y], key, k) == WithKey([y, x], key, k)
  {
  }

  method SortInPlace<T>(a: array<T>, key: T -> int)
    modifies a
    ensures a[..] == Sort(old(a[..]), key)
  {
    hide WithKey, Sort;
    ghost var was := a[..];
    var i := 0;
    while i < a.Length
      invariant 0 <= i <= a.Length
      invariant forall p, q :: 0 <= p < q < i ==> key(a[p]) <= key(a[q])
      invariant SameOrder(a[..], was, key)
    {
      var j := i;
      while j > 0 && key(a[j - 1]) > key(a[j])
        invariant 0 <= j <= i
        invariant forall p, q :: 0 <= p < q <= i && q != j ==> key(a[p]) <= key(a[q])
        invariant SameOrder(a[..], was, key)
      {
        ghost var before := a[..];
        SwapKeepsOrder(before, j - 1, key);
        a[j - 1], a[j] := a[j], a[j - 1];
        assert a[..] == before[j - 1 := before[j]][j := before[j - 1]];
        SameOrderChain(a[..], before, was, key);
        j := j - 1;
      }
      i := i + 1;
    }
    SortExact(a[..], was, key);
  }

  lemma SameOrderChain<T>(a: seq<T>, b: seq<T>, c: seq<T>, key: T -> int)
    requires SameOrder(a, b, key) && SameOrder(b, c, key)
    ensures SameOrder(a, c, key)
  {
  }

  /** Sorts a list the way the array algorithm does; the source's arrays grow, Dafny's do not. */
  method SortedCopy<T>(s: seq<T>, key: T -> int) returns (r: seq<T>)
    ensures r == Sort(s, key)
  {
    var a := new T[|s|](i requires 0 <= i < |s| => s[i]);
    assert a[..] == s;
    SortInPlace(a, key);
    r := a[..];
  }
}
