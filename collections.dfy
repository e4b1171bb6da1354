/** The three Kotlin collection operations the home screen relies on, stated over
    sequences: `filter`/`filterTo`, `sumOf` and the stable `sortedWith(compareBy { key })`. */
module Collections {

  /** The elements of `s` that satisfy `p`, in the order in which they occur in `s`. */
  function Filter<T>(s: seq<T>, p: T -> bool): (r: seq<T>)
    ensures |r| <= |s|
  {
    if |s| == 0 then [] else if p(s[0]) then [s[0]] + Filter(s[1..], p) else Filter(s[1..], p)
  }

  /** What a filter keeps: only elements of `s` that satisfy `p`, and every one of them. */
  lemma {:induction false} FilterMembers<T>(s: seq<T>, p: T -> bool)
    ensures forall i :: 0 <= i < |Filter(s, p)| ==> Filter(s, p)[i] in s && p(Filter(s, p)[i])
    ensures forall i :: 0 <= i < |s| && p(s[i]) ==> s[i] in Filter(s, p)
  {
    if |s| > 0 {
      FilterMembers(s[1..], p);
      forall i | 0 <= i < |s| && p(s[i]) ensures s[i] in Filter(s, p) {
        if i > 0 {
          assert s[i] == s[1..][i - 1];
        }
      }
    }
  }

  /** Filtering distributes over concatenation: what comes from `a` precedes what comes from `b`,
      which is what "keeps the input order" means. */
  lemma {:induction false} FilterConcat<T>(a: seq<T>, b: seq<T>, p: T -> bool)
    ensures Filter(a + b, p) == Filter(a, p) + Filter(b, p)
  {
    if |a| == 0 {
      assert a + b == b;
    } else {
      assert (a + b)[1..] == a[1..] + b;
      FilterConcat(a[1..], b, p);
    }
  }

  lemma FilterOne<T>(x: T, p: T -> bool)
    ensures Filter([x], p) == if p(x) then [x] else []
  {
    assert [x][1..] == [];
  }

  /** Each element occurs in the filtered sequence exactly as often as in the input when it
      satisfies `p`, and never otherwise. */
  lemma {:induction false} FilterCount<T>(s: seq<T>, p: T -> bool, x: T)
    ensures multiset(Filter(s, p))[x] == if p(x) then multiset(s)[x] else 0
  {
    if |s| > 0 {
      FilterCount(s[1..], p, x);
      assert s == [s[0]] + s[1..];
    }
  }

  /** Filtering by `p` and by its complement splits the input: together the two results hold
      every element of `s` exactly once. */
  lemma {:induction false} FilterSplit<T>(s: seq<T>, p: T -> bool, q: T -> bool)
    requires forall x :: q(x) == !p(x)
    ensures multiset(Filter(s, p)) + multiset(Filter(s, q)) == multiset(s)
    ensures |Filter(s, p)| + |Filter(s, q)| == |s|
  {
    if |s| > 0 {
      FilterSplit(s[1..], p, q);
      assert s == [s[0]] + s[1..];
    }
  }

  /** Filters by pointwise-equal predicates agree. */
  lemma {:induction false} FilterCongruent<T>(s: seq<T>, p: T -> bool, q: T -> bool)
    requires forall x :: p(x) == q(x)
    ensures Filter(s, p) == Filter(s, q)
  {
    if |s| > 0 {
      FilterCongruent(s[1..], p, q);
    }
  }

  /** Kotlin's `filterTo`: appends to `destination`, one element at a time, every element of
      `source` that satisfies `p`, and returns the extended destination. */
  method FilterTo<T>(source: seq<T>, destination: seq<T>, p: T -> bool) returns (result: seq<T>)
    ensures result == destination + Filter(source, p)
  {
    result := destination;
    for i := 0 to |source|
      invariant result == destination + Filter(source[..i], p)
    {
      assert source[..i + 1] == source[..i] + [source[i]];
      FilterConcat(source[..i], [source[i]], p);
      if p(source[i]) {
        result := result + [source[i]];
      }
    }
    assert source[..|source|] == source;
  }

  /** `f` is non-negative on every element of `s`. */
  predicate NonNegativeOn<T>(s: seq<T>, f: T -> int)
  {
    forall i :: 0 <= i < |s| ==> f(s[i]) >= 0
  }

  /** Kotlin's `sumOf`: the sum of `f` over the elements of `s`. */
  function SumOf<T>(s: seq<T>, f: T -> int): (r: int)
  {
    if |s| == 0 then 0 else f(s[0]) + SumOf(s[1..], f)
  }

  /** A sum of non-negative terms is non-negative. */
  lemma {:induction false} SumOfNonNegative<T>(s: seq<T>, f: T -> int)
    requires NonNegativeOn(s, f)
    ensures SumOf(s, f) >= 0
  {
    if |s| > 0 {
      assert NonNegativeOn(s[1..], f) by {
        forall i | 0 <= i < |s| - 1 ensures f(s[1..][i]) >= 0 {
          assert s[1..][i] == s[i + 1];
        }
      }
      SumOfNonNegative(s[1..], f);
    }
  }

  lemma {:induction false} SumOfConcat<T>(a: seq<T>, b: seq<T>, f: T -> int)
    ensures SumOf(a + b, f) == SumOf(a, f) + SumOf(b, f)
  {
    if |a| == 0 {
      assert a + b == b;
    } else {
      assert (a + b)[1..] == a[1..] + b;
      SumOfConcat(a[1..], b, f);
    }
  }

  /** Taking one term out of a sum lowers it by exactly that term. */
  lemma SumOfWithout<T>(b: seq<T>, i: int, f: T -> int)
    requires 0 <= i < |b|
    ensures SumOf(b, f) == SumOf(b[..i] + b[i + 1..], f) + f(b[i])
  {
    var front, back := b[..i], b[i + 1..];
    assert b == front + [b[i]] + back;
    SumOfConcat(front + [b[i]], back, f);
    SumOfConcat(front, [b[i]], f);
    SumOfConcat(front, back, f);
  }

  /** Taking out the element at `i` leaves the multiset without one copy of it. */
  lemma MultisetWithout<T>(b: seq<T>, i: int)
    requires 0 <= i < |b|
    ensures multiset(b[..i] + b[i + 1..]) == multiset(b) - multiset{b[i]}
  {
    assert b == b[..i] + [b[i]] + b[i + 1..];
  }

  /** A sum does not depend on the order of its terms. */
  lemma {:induction false} SumOfPermutation<T>(a: seq<T>, b: seq<T>, f: T -> int)
    requires multiset(a) == multiset(b)
    ensures SumOf(a, f) == SumOf(b, f)
  {
    if |a| > 0 {
      assert a[0] in multiset(b);
      var i :| 0 <= i < |b| && b[i] == a[0];
      var rest := b[..i] + b[i + 1..];
      assert multiset(a[1..]) == multiset(rest) by {
        assert a == [a[0]] + a[1..];
        MultisetWithout(b, i);
      }
      SumOfPermutation(a[1..], rest, f);
      SumOfWithout(b, i, f);
    }
  }

  /** `s` is in non-decreasing order of `key`. */
  predicate SortedBy<T>(s: seq<T>, key: T -> int)
  {
    forall i, j :: 0 <= i < j < |s| ==> key(s[i]) <= key(s[j])
  }

  /** The test "has key `k`", as a predicate that filters can share. */
  function HasKey<T>(key: T -> int, k: int): (p: T -> bool)
  {
    x => key(x) == k
  }

  /** Inserts `x` in front of the first element whose key is not smaller than its own. */
  function Insert<T>(x: T, s: seq<T>, key: T -> int): (r: seq<T>)
    ensures multiset(r) == multiset(s) + multiset{x}
    ensures |r| == |s| + 1
  {
    if |s| == 0 then [x]
    else if key(x) <= key(s[0]) then [x] + s
    else
      assert s == [s[0]] + s[1..];
      [s[0]] + Insert(x, s[1..], key)
  }

  /** A lower bound on every key, including that of `x`, is a lower bound after inserting `x`. */
  lemma {:induction false} InsertBounded<T>(x: T, s: seq<T>, key: T -> int, b: int)
    requires b <= key(x)
    requires forall j :: 0 <= j < |s| ==> b <= key(s[j])
    ensures forall i :: 0 <= i < |Insert(x, s, key)| ==> b <= key(Insert(x, s, key)[i])
  {
    if |s| > 0 && key(s[0]) < key(x) {
      InsertBounded(x, s[1..], key, b);
      assert Insert(x, s, key) == [s[0]] + Insert(x, s[1..], key);
    }
  }

  /** Inserting into a sorted sequence keeps it sorted. */
  lemma {:induction false} InsertSorted<T>(x: T, s: seq<T>, key: T -> int)
    requires SortedBy(s, key)
    ensures SortedBy(Insert(x, s, key), key)
  {
    if |s| > 0 && key(s[0]) < key(x) {
      var tail := Insert(x, s[1..], key);
      InsertSorted(x, s[1..], key);
      InsertBounded(x, s[1..], key, key(s[0]));
      assert Insert(x, s, key) == [s[0]] + tail;
    }
  }

  /** Kotlin's `sortedWith(compareBy(key))`: a stable insertion sort. Each element goes in front
      of the already sorted rest at the first element whose key is not smaller, so of two
      elements with equal keys the earlier one in `s` stays first. */
  function StableSort<T>(s: seq<T>, key: T -> int): (r: seq<T>)
    ensures multiset(r) == multiset(s)
    ensures |r| == |s|
    ensures SortedBy(r, key)
  {
    if |s| == 0 then []
    else
      assert s == [s[0]] + s[1..];
      InsertSorted(s[0], StableSort(s[1..], key), key);
      Insert(s[0], StableSort(s[1..], key), key)
  }

  lemma JoinEitherEmpty<T>(a: seq<T>, b: seq<T>, c: seq<T>)
    requires |a| == 0 || |b| == 0
    ensures a + (b + c) == b + (a + c)
  {
    if |a| == 0 {
      assert a + (b + c) == b + c;
      assert a + c == c;
    } else {
      assert b + (a + c) == a + c;
      assert b + c == c;
    }
  }

  /** Inserting `x` puts it in front of every element with the same key. */
  lemma {:induction false} InsertKeyClass<T>(x: T, s: seq<T>, key: T -> int, k: int)
    ensures Filter(Insert(x, s, key), HasKey(key, k)) == Filter([x], HasKey(key, k)) + Filter(s, HasKey(key, k))
  {
    var p := HasKey(key, k);
    if |s| == 0 {
      assert Insert(x, s, key) == [x];
      assert [x] + s == [x];
    } else if key(x) <= key(s[0]) {
      assert Insert(x, s, key) == [x] + s;
      FilterConcat([x], s, p);
    } else {
      var tail := Insert(x, s[1..], key);
      var a0, xs, rs := Filter([s[0]], p), Filter([x], p), Filter(s[1..], p);
      assert Filter(tail, p) == xs + rs by {
        InsertKeyClass(x, s[1..], key, k);
      }
      assert Filter(Insert(x, s, key), p) == a0 + Filter(tail, p) by {
        assert Insert(x, s, key) == [s[0]] + tail;
        FilterConcat([s[0]], tail, p);
      }
      assert Filter(s, p) == a0 + rs by {
        FilterConcat([s[0]], s[1..], p);
        assert s == [s[0]] + s[1..];
      }
      assert |a0| == 0 || |xs| == 0 by {
        FilterOne(x, p);
        FilterOne(s[0], p);
      }
      JoinEitherEmpty(a0, xs, rs);
    }
  }

  /** Stability: the elements of every key class appear in the output in the same order as in
      the input. */
  lemma {:induction false} StableSortIsStable<T>(s: seq<T>, key: T -> int, k: int)
    ensures Filter(StableSort(s, key), HasKey(key, k)) == Filter(s, HasKey(key, k))
  {
    if |s| > 0 {
      var p := HasKey(key, k);
      var rest := StableSort(s[1..], key);
      assert Filter(rest, p) == Filter(s[1..], p) by {
        StableSortIsStable(s[1..], key, k);
      }
      assert Filter(StableSort(s, key), p) == Filter([s[0]], p) + Filter(rest, p) by {
        InsertKeyClass(s[0], rest, key, k);
      }
      assert Filter(s, p) == Filter([s[0]], p) + Filter(s[1..], p) by {
        FilterConcat([s[0]], s[1..], p);
        assert s == [s[0]] + s[1..];
      }
    }
  }

  /** If `b` has an element, so does every sequence with the same key classes. */
  lemma SameKeyClassesNonEmpty<T>(a: seq<T>, b: seq<T>, key: T -> int)
    requires |b| > 0
    requires forall k :: Filter(a, HasKey(key, k)) == Filter(b, HasKey(key, k))
    ensures |a| > 0
  {
    var p := HasKey(key, key(b[0]));
    FilterMembers(b, p);
    assert b[0] in Filter(b, p);
    assert Filter(a, p) == Filter(b, p);
  }

  /** The first key of a sorted sequence is at most the first key of any sequence with the
      same key classes. */
  lemma FirstKeyAtMost<T>(a: seq<T>, b: seq<T>, key: T -> int)
    requires |a| > 0 && |b| > 0 && SortedBy(b, key)
    requires forall k :: Filter(a, HasKey(key, k)) == Filter(b, HasKey(key, k))
    ensures key(b[0]) <= key(a[0])
  {
    var p := HasKey(key, key(a[0]));
    FilterMembers(a, p);
    FilterMembers(b, p);
    assert a[0] in Filter(a, p);
    assert Filter(a, p) == Filter(b, p);
    var i :| 0 <= i < |Filter(b, p)| && Filter(b, p)[i] == a[0];
    assert a[0] in b;
    var j :| 0 <= j < |b| && b[j] == a[0];
    assert j == 0 || key(b[0]) <= key(b[j]);
  }

  /** Two non-empty sorted sequences with the same key classes start with the same element. */
  lemma SameFirst<T>(a: seq<T>, b: seq<T>, key: T -> int)
    requires |a| > 0 && |b| > 0
    requires SortedBy(a, key) && SortedBy(b, key)
    requires forall k :: Filter(a, HasKey(key, k)) == Filter(b, HasKey(key, k))
    ensures a[0] == b[0]
  {
    assert key(a[0]) == key(b[0]) by {
      FirstKeyAtMost(a, b, key);
      FirstKeyAtMost(b, a, key);
    }
    var p := HasKey(key, key(a[0]));
    assert |Filter(a, p)| > 0 && Filter(a, p)[0] == a[0] by {
      assert p(a[0]);
      assert Filter(a, p) == [a[0]] + Filter(a[1..], p);
    }
    assert |Filter(b, p)| > 0 && Filter(b, p)[0] == b[0] by {
      assert p(b[0]);
      assert Filter(b, p) == [b[0]] + Filter(b[1..], p);
    }
    assert Filter(a, p) == Filter(b, p);
  }

  /** Removing equal first elements keeps the key classes equal. */
  lemma SameKeyClassesTail<T>(a: seq<T>, b: seq<T>, key: T -> int)
    requires |a| > 0 && |b| > 0 && a[0] == b[0]
    requires forall k :: Filter(a, HasKey(key, k)) == Filter(b, HasKey(key, k))
    ensures forall k :: Filter(a[1..], HasKey(key, k)) == Filter(b[1..], HasKey(key, k))
  {
    forall k ensures Filter(a[1..], HasKey(key, k)) == Filter(b[1..], HasKey(key, k)) {
      var p := HasKey(key, k);
      assert Filter(a, p) == Filter(b, p);
      if p(a[0]) {
        assert Filter(a, p) == [a[0]] + Filter(a[1..], p);
        assert Filter(b, p) == [b[0]] + Filter(b[1..], p);
        assert Filter(a[1..], p) == Filter(a, p)[1..];
      } else {
        assert Filter(a, p) == Filter(a[1..], p);
        assert Filter(b, p) == Filter(b[1..], p);
      }
    }
  }

  /** Two sorted sequences with the same key classes are equal. */
  lemma {:induction false} SortedKeyClassesDetermine<T>(a: seq<T>, b: seq<T>, key: T -> int)
    requires SortedBy(a, key) && SortedBy(b, key)
    requires forall k :: Filter(a, HasKey(key, k)) == Filter(b, HasKey(key, k))
    ensures a == b
  {
    if |b| > 0 {
      SameKeyClassesNonEmpty(a, b, key);
    }
    if |a| > 0 {
      assert |b| > 0 by {
        SameKeyClassesNonEmpty(b, a, key);
      }
      assert a[0] == b[0] by {
        SameFirst(a, b, key);
      }
      assert a[1..] == b[1..] by {
        SameKeyClassesTail(a, b, key);
        SortedKeyClassesDetermine(a[1..], b[1..], key);
      }
      assert a == [a[0]] + a[1..];
      assert b == [b[0]] + b[1..];
    }
  }

  /** The stable sort is the only ordering that is sorted by `key` and keeps every key class in
      input order: any such `r` is the result of `StableSort`. */
  lemma StableSortUnique<T>(s: seq<T>, r: seq<T>, key: T -> int)
    requires SortedBy(r, key)
    requires forall k :: Filter(r, HasKey(key, k)) == Filter(s, HasKey(key, k))
    ensures r == StableSort(s, key)
  {
    forall k ensures Filter(r, HasKey(key, k)) == Filter(StableSort(s, key), HasKey(key, k)) {
      StableSortIsStable(s, key, k);
    }
    SortedKeyClassesDetermine(r, StableSort(s, key), key);
  }

  function Reverse<T>(s: seq<T>): (r: seq<T>)
    ensures |r| == |s|
  {
    if |s| == 0 then [] else Reverse(s[1..]) + [s[0]]
  }

  /** Position `i` of the reversed sequence holds the element `i` places from the end. */
  lemma {:induction false} ReverseAt<T>(s: seq<T>, i: int)
    requires 0 <= i < |s|
    ensures Reverse(s)[i] == s[|s| - 1 - i]
  {
    if i < |s| - 1 {
      ReverseAt(s[1..], i);
    }
  }

  lemma {:induction false} FilterReverse<T>(s: seq<T>, p: T -> bool)
    ensures Filter(Reverse(s), p) == Reverse(Filter(s, p))
  {
    if |s| > 0 {
      var rs := Filter(s[1..], p);
      assert Filter(Reverse(s), p) == Reverse(rs) + Filter([s[0]], p) by {
        FilterReverse(s[1..], p);
        FilterConcat(Reverse(s[1..]), [s[0]], p);
      }
      assert Filter(s, p) == Filter([s[0]], p) + rs by {
        FilterConcat([s[0]], s[1..], p);
        assert s == [s[0]] + s[1..];
      }
      FilterOne(s[0], p);
      if p(s[0]) {
        assert Reverse([s[0]] + rs) == Reverse(rs) + [s[0]] by {
          assert ([s[0]] + rs)[1..] == rs;
        }
      } else {
        assert Filter(s, p) == rs;
        assert Reverse(rs) + [] == Reverse(rs);
      }
    }
  }

  /** A sequence sorted by `key` is, read backwards, sorted by the negated key. */
  lemma ReverseSortedNegated<T>(s: seq<T>, key: T -> int, negated: T -> int)
    requires forall x :: negated(x) == -key(x)
    requires SortedBy(s, key)
    ensures SortedBy(Reverse(s), negated)
  {
    var r := Reverse(s);
    forall i, j | 0 <= i < j < |r| ensures negated(r[i]) <= negated(r[j]) {
      ReverseAt(s, i);
      ReverseAt(s, j);
    }
  }

  lemma ReverseShort<T>(u: seq<T>)
    requires |u| <= 1
    ensures Reverse(u) == u
  {
    if |u| == 1 {
      ReverseAt(u, 0);
    }
  }

  /** Every key class of `s` reads the same backwards: a class of at most one element, or one
      such as `[a, b, a]`. */
  ghost predicate KeyClassesSymmetric<T>(s: seq<T>, key: T -> int)
  {
    forall k :: Reverse(Filter(s, HasKey(key, k))) == Filter(s, HasKey(key, k))
  }

  /** Read backwards, a sequence with the same `k` key class as `s` has as its class of the
      negated key `-k` that class of `s` read backwards. */
  lemma NegatedKeyClass<T>(s: seq<T>, t: seq<T>, key: T -> int, negated: T -> int, k: int)
    requires forall x :: negated(x) == -key(x)
    requires Filter(t, HasKey(key, k)) == Filter(s, HasKey(key, k))
    ensures Filter(Reverse(t), HasKey(negated, -k)) == Reverse(Filter(s, HasKey(key, k)))
  {
    FilterCongruent(Reverse(t), HasKey(negated, -k), HasKey(key, k));
    FilterReverse(t, HasKey(key, k));
  }

  /** The class of the negated key `-k` is the class of the key `k`. */
  lemma NegatedKeySameClass<T>(s: seq<T>, key: T -> int, negated: T -> int, k: int)
    requires forall x :: negated(x) == -key(x)
    ensures Filter(s, HasKey(negated, -k)) == Filter(s, HasKey(key, k))
  {
    FilterCongruent(s, HasKey(negated, -k), HasKey(key, k));
  }

  /** Read backwards, a sequence with the same `-j` key class as `s`, when that class reads the
      same backwards, has the same class of the negated key `j` as `s`. */
  lemma SymmetricClassReversed<T>(s: seq<T>, t: seq<T>, key: T -> int, negated: T -> int, j: int)
    requires forall x :: negated(x) == -key(x)
    requires Filter(t, HasKey(key, -j)) == Filter(s, HasKey(key, -j))
    requires Reverse(Filter(s, HasKey(key, -j))) == Filter(s, HasKey(key, -j))
    ensures Filter(Reverse(t), HasKey(negated, j)) == Filter(s, HasKey(negated, j))
  {
    var p := HasKey(key, -j);
    FilterCongruent(Reverse(t), HasKey(negated, j), p);
    FilterReverse(t, p);
    FilterCongruent(s, HasKey(negated, j), p);
  }

  /** Read backwards, a sequence with the key classes of `s`, all reading the same backwards,
      has every class of the negated key as `s` does. */
  lemma SymmetricClassesReversed<T>(s: seq<T>, t: seq<T>, key: T -> int, negated: T -> int)
    requires forall x :: negated(x) == -key(x)
    requires forall k :: Filter(t, HasKey(key, k)) == Filter(s, HasKey(key, k))
    requires KeyClassesSymmetric(s, key)
    ensures forall j :: Filter(Reverse(t), HasKey(negated, j)) == Filter(s, HasKey(negated, j))
  {
    forall j ensures Filter(Reverse(t), HasKey(negated, j)) == Filter(s, HasKey(negated, j)) {
      SymmetricClassReversed(s, t, key, negated, j);
    }
  }

  /** When every key class reads the same backwards, sorting by the negated key gives the
      reverse of sorting by the key. */
  lemma SymmetricClassesReverse<T>(s: seq<T>, key: T -> int, negated: T -> int)
    requires forall x :: negated(x) == -key(x)
    requires KeyClassesSymmetric(s, key)
    ensures StableSort(s, negated) == Reverse(StableSort(s, key))
  {
    var t := StableSort(s, key);
    forall k ensures Filter(t, HasKey(key, k)) == Filter(s, HasKey(key, k)) {
      StableSortIsStable(s, key, k);
    }
    SymmetricClassesReversed(s, t, key, negated);
    ReverseSortedNegated(t, key, negated);
    StableSortUnique(s, Reverse(t), negated);
  }

  /** If `n`, the reverse of `t`, has the `-k` class of the negated key and `t` the `k` class of
      the key as `s` does, that key class of `s` reads the same backwards. */
  lemma ReversedClassSymmetric<T>(s: seq<T>, t: seq<T>, n: seq<T>, key: T -> int, negated: T -> int, k: int)
    requires forall x :: negated(x) == -key(x)
    requires n == Reverse(t)
    requires Filter(t, HasKey(key, k)) == Filter(s, HasKey(key, k))
    requires Filter(n, HasKey(negated, -k)) == Filter(s, HasKey(negated, -k))
    ensures Reverse(Filter(s, HasKey(key, k))) == Filter(s, HasKey(key, k))
  {
    NegatedKeyClass(s, t, key, negated, k);
    NegatedKeySameClass(s, key, negated, k);
  }

  /** When `n`, the reverse of `t`, has the classes of the negated key of `s` and `t` the
      classes of the key of `s`, every key class of `s` reads the same backwards. */
  lemma ReverseSymmetricClasses<T>(s: seq<T>, t: seq<T>, n: seq<T>, key: T -> int, negated: T -> int)
    requires forall x :: negated(x) == -key(x)
    requires n == Reverse(t)
    requires forall k :: Filter(t, HasKey(key, k)) == Filter(s, HasKey(key, k))
    requires forall k :: Filter(n, HasKey(negated, k)) == Filter(s, HasKey(negated, k))
    ensures KeyClassesSymmetric(s, key)
  {
    forall k ensures Reverse(Filter(s, HasKey(key, k))) == Filter(s, HasKey(key, k)) {
      ReversedClassSymmetric(s, t, n, key, negated, k);
    }
  }

  /** Sorting by the negated key gives the reverse of sorting by the key exactly when every key
      class reads the same backwards. */
  lemma NegatedKeyReversesExactly<T>(s: seq<T>, key: T -> int, negated: T -> int)
    requires forall x :: negated(x) == -key(x)
    ensures StableSort(s, negated) == Reverse(StableSort(s, key)) <==> KeyClassesSymmetric(s, key)
  {
    if KeyClassesSymmetric(s, key) {
      SymmetricClassesReverse(s, key, negated);
    }
    var t, n := StableSort(s, key), StableSort(s, negated);
    if n == Reverse(t) {
      forall k ensures Filter(t, HasKey(key, k)) == Filter(s, HasKey(key, k)) {
        StableSortIsStable(s, key, k);
      }
      forall k ensures Filter(n, HasKey(negated, k)) == Filter(s, HasKey(negated, k)) {
        StableSortIsStable(s, negated, k);
      }
      ReverseSymmetricClasses(s, t, n, key, negated);
    }
  }

  /** Without ties, sorting by the negated key gives the reverse of sorting by the key. */
  lemma NegatedKeyReverses<T>(s: seq<T>, key: T -> int, negated: T -> int)
    requires forall x :: negated(x) == -key(x)
    requires forall k :: |Filter(s, HasKey(key, k))| <= 1
    ensures StableSort(s, negated) == Reverse(StableSort(s, key))
  {
    forall k ensures Reverse(Filter(s, HasKey(key, k))) == Filter(s, HasKey(key, k)) {
      ReverseShort(Filter(s, HasKey(key, k)));
    }
    NegatedKeyReversesExactly(s, key, negated);
  }

  /** A key class of two different elements does not read the same backwards. */
  lemma TiedPairAsymmetric<T>(s: seq<T>, key: T -> int, k: int)
    requires |Filter(s, HasKey(key, k))| == 2
    requires Filter(s, HasKey(key, k))[0] != Filter(s, HasKey(key, k))[1]
    ensures !KeyClassesSymmetric(s, key)
  {
    ReverseAt(Filter(s, HasKey(key, k)), 0);
  }
}
