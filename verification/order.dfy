/**
 * Python's ordering of int tuples and of strings (lexicographic, a proper
 * prefix first) and the sorting the generator applies with it.  Values are
 * compared through a key of type `seq<int>`: `(cx, cy)` for a chunk, the code
 * points for a string.
 */
module Order {

  /** Lexicographic `<=` on integer sequences. */
  predicate LexLe(a: seq<int>, b: seq<int>)
    decreases |a|
  {
    |a| == 0 || (|b| > 0 && (a[0] < b[0] || (a[0] == b[0] && LexLe(a[1..], b[1..]))))
  }

  lemma {:induction false} LexLeTotal(a: seq<int>, b: seq<int>)
    ensures LexLe(a, b) || LexLe(b, a)
    decreases |a|
  {
    if |a| > 0 && |b| > 0 && a[0] == b[0] {
      LexLeTotal(a[1..], b[1..]);
    }
  }

  lemma {:induction false} LexLeTransitive(a: seq<int>, b: seq<int>, c: seq<int>)
    requires LexLe(a, b) && LexLe(b, c)
    ensures LexLe(a, c)
    decreases |a|
  {
    if |a| > 0 && a[0] == b[0] && b[0] == c[0] {
      LexLeTransitive(a[1..], b[1..], c[1..]);
    }
  }

  lemma {:induction false} LexLeAntisymmetric(a: seq<int>, b: seq<int>)
    requires LexLe(a, b) && LexLe(b, a)
    ensures a == b
    decreases |a|
  {
    if |a| > 0 {
      LexLeAntisymmetric(a[1..], b[1..]);
      assert a == [a[0]] + a[1..] && b == [b[0]] + b[1..];
    }
  }

  predicate SortedBy<T>(xs: seq<T>, key: T -> seq<int>) {
    forall i, j :: 0 <= i < j < |xs| ==> LexLe(key(xs[i]), key(xs[j]))
  }

  predicate Distinct<T(==)>(xs: seq<T>) {
    forall i, j :: 0 <= i < j < |xs| ==> xs[i] != xs[j]
  }

  /** Places `x` in front of the first element it does not follow. */
  function Insert<T>(x: T, xs: seq<T>, key: T -> seq<int>): (r: seq<T>)
    requires SortedBy(xs, key)
    ensures SortedBy(r, key)
    ensures multiset(r) == multiset(xs) + multiset{x}
  {
    if xs == [] then [x]
    else if LexLe(key(x), key(xs[0])) then
      assert forall j :: 0 <= j < |xs| ==> LexLe(key(x), key(xs[j])) by {
        forall j | 0 <= j < |xs|
          ensures LexLe(key(x), key(xs[j]))
        {
          if j > 0 { LexLeTransitive(key(x), key(xs[0]), key(xs[j])); }
        }
      }
      [x] + xs
    else
      LexLeTotal(key(x), key(xs[0]));
      var rest := Insert(x, xs[1..], key);
      assert xs == [xs[0]] + xs[1..];
      assert forall y :: y in multiset(rest) ==> LexLe(key(xs[0]), key(y)) by {
        forall y | y in multiset(rest)
          ensures LexLe(key(xs[0]), key(y))
        {
          assert y == x || y in multiset(xs[1..]);
        }
      }
      assert forall j :: 0 <= j < |rest| ==> LexLe(key(xs[0]), key(rest[j])) by {
        forall j | 0 <= j < |rest|
          ensures LexLe(key(xs[0]), key(rest[j]))
        {
          assert rest[j] in multiset(rest);
        }
      }
      [xs[0]] + rest
  }

  /** Insertion sort: the sorted permutation of `xs`. */
  function Sort<T>(xs: seq<T>, key: T -> seq<int>): (r: seq<T>)
    ensures SortedBy(r, key)
    ensures multiset(r) == multiset(xs)
  {
    if xs == [] then []
    else
      assert xs == xs[..|xs| - 1] + [xs[|xs| - 1]];
      Insert(xs[|xs| - 1], Sort(xs[..|xs| - 1], key), key)
  }

  /** A sorted sequence with no repeated element is strictly increasing. */
  lemma SortedDistinctIsStrict<T>(xs: seq<T>, key: T -> seq<int>)
    requires SortedBy(xs, key) && Distinct(xs)
    requires forall a, b :: key(a) == key(b) ==> a == b
    ensures forall i, j :: 0 <= i < j < |xs| ==> key(xs[i]) != key(xs[j])
  {
  }

  /** Membership in a sequence split before its last element. */
  lemma InFrontOrLast<T>(xs: seq<T>, x: T)
    requires xs != []
    ensures x in xs <==> x in xs[..|xs| - 1] || x == xs[|xs| - 1]
  {
    assert xs == xs[..|xs| - 1] + [xs[|xs| - 1]];
  }

  lemma MultisetTail<T>(xs: seq<T>)
    requires xs != []
    ensures multiset(xs[1..]) == multiset(xs) - multiset{xs[0]}
  {
    assert xs == [xs[0]] + xs[1..];
  }

  /** Two sorted permutations of one sequence start with the same element,
      provided the key tells elements apart. */
  lemma SortedHeadsAgree<T>(xs: seq<T>, ys: seq<T>, key: T -> seq<int>)
    requires xs != [] && ys != []
    requires SortedBy(xs, key) && SortedBy(ys, key)
    requires multiset(xs) == multiset(ys)
    requires forall a, b :: key(a) == key(b) ==> a == b
    ensures xs[0] == ys[0]
  {
    assert xs[0] in multiset(ys) && ys[0] in multiset(xs);
    var i :| 0 <= i < |ys| && ys[i] == xs[0];
    var j :| 0 <= j < |xs| && xs[j] == ys[0];
    if i > 0 && j > 0 {
      assert LexLe(key(ys[0]), key(ys[i]));
      assert LexLe(key(xs[0]), key(xs[j]));
      LexLeAntisymmetric(key(xs[0]), key(ys[0]));
    }
  }

  /** Sorting is canonical: two sorted permutations of one sequence agree,
      provided the key tells elements apart. */
  lemma {:induction false} SortedPermutationsAgree<T>(xs: seq<T>, ys: seq<T>, key: T -> seq<int>)
    requires SortedBy(xs, key) && SortedBy(ys, key)
    requires multiset(xs) == multiset(ys)
    requires forall a, b :: key(a) == key(b) ==> a == b
    ensures xs == ys
    decreases |xs|
  {
    assert |xs| == |multiset(xs)| == |multiset(ys)| == |ys|;
    if xs != [] {
      SortedHeadsAgree(xs, ys, key);
      MultisetTail(xs);
      MultisetTail(ys);
      SortedPermutationsAgree(xs[1..], ys[1..], key);
      assert xs == [xs[0]] + xs[1..] && ys == [ys[0]] + ys[1..];
    }
  }

  /** Lists the elements of a finite set, each once, in some order. */
  method ListSet<T(==)>(s: set<T>) returns (xs: seq<T>)
    ensures Distinct(xs)
    ensures forall x :: x in xs <==> x in s
    ensures |xs| == |s|
  {
    xs := [];
    var rest := s;
    while rest != {}
      invariant Distinct(xs)
      invariant forall x :: x in s <==> x in xs || x in rest
      invariant forall x :: x in xs ==> x !in rest
      invariant |xs| + |rest| == |s|
      decreases |rest|
    {
      var x :| x in rest;
      xs := xs + [x];
      rest := rest - {x};
    }
  }

  /** The elements of `s` in increasing key order, each once. */
  method SortedElements<T(==)>(s: set<T>, key: T -> seq<int>) returns (xs: seq<T>)
    ensures SortedBy(xs, key) && Distinct(xs)
    ensures forall x :: x in xs <==> x in s
  {
    var listed := ListSet(s);
    xs := Sort(listed, key);
    assert forall x :: x in xs <==> x in multiset(listed);
    DistinctPermutation(listed, xs);
  }

  lemma DistinctPermutation<T>(xs: seq<T>, ys: seq<T>)
    requires Distinct(xs) && multiset(xs) == multiset(ys)
    ensures Distinct(ys)
  {
    forall x | x in multiset(ys)
      ensures multiset(ys)[x] == 1
    {
      DistinctCountsOne(xs, x);
    }
    forall i, j | 0 <= i < j < |ys|
      ensures ys[i] != ys[j]
    {
      if ys[i] == ys[j] {
        TwoPositionsCountTwice(ys, i, j);
        assert false;
      }
    }
  }

  lemma {:induction false} DistinctCountsOne<T>(xs: seq<T>, x: T)
    requires Distinct(xs) && x in multiset(xs)
    ensures multiset(xs)[x] == 1
    decreases |xs|
  {
    var n := |xs| - 1;
    assert xs == xs[..n] + [xs[n]];
    if xs[n] == x {
      assert x !in xs[..n];
    } else {
      DistinctCountsOne(xs[..n], x);
    }
  }

  lemma TwoPositionsCountTwice<T>(ys: seq<T>, i: int, j: int)
    requires 0 <= i < j < |ys| && ys[i] == ys[j]
    ensures multiset(ys)[ys[i]] >= 2
  {
    assert ys == ys[..j] + [ys[j]] + ys[j + 1..];
    assert ys[i] in ys[..j];
  }
}
