/** A stable sort by a three-way comparator, as `Array.prototype.sort(compareFn)`
    behaves for a consistent comparator: a spec function, its properties, and an
    in-place insertion sort on an array proved equal to it. */
module Sorting {
  import opened Seqs

  /** Swapping the arguments negates the comparison. */
  ghost predicate Antisymmetric<T(!new)>(cmp: (T, T) -> int)
  {
    forall a, b :: cmp(a, b) == -cmp(b, a)
  }

  /** "Not after" (`cmp(a, b) <= 0`) is transitive. */
  ghost predicate Transitive<T(!new)>(cmp: (T, T) -> int)
  {
    forall a, b, c :: cmp(a, b) <= 0 && cmp(b, c) <= 0 ==> cmp(a, c) <= 0
  }

  /** The comparator is consistent in the sense of ECMAScript's `sort`. */
  ghost predicate Consistent<T(!new)>(cmp: (T, T) -> int)
  {
    Antisymmetric(cmp) && Transitive(cmp)
  }

  /** Every element is placed no later than every element after it. */
  predicate Sorted<T>(cmp: (T, T) -> int, s: seq<T>)
  {
    forall i, j :: 0 <= i < j < |s| ==> cmp(s[i], s[j]) <= 0
  }

  /** Inserts `x` in front of `t`, passing over every element that `x` compares
      strictly after, so that `x` stays ahead of the elements it ties with. */
  function Insert<T>(cmp: (T, T) -> int, x: T, t: seq<T>): (r: seq<T>)
    ensures |r| == |t| + 1
  {
    if t == [] || cmp(x, t[0]) <= 0 then [x] + t
    else
      assert t == [t[0]] + t[1..];
      [t[0]] + Insert(cmp, x, t[1..])
  }

  /** The stable sort of `s` by `cmp`. */
  function SortBy<T>(cmp: (T, T) -> int, s: seq<T>): (r: seq<T>)
    ensures |r| == |s|
  {
    if s == [] then []
    else
      assert s == [s[0]] + s[1..];
      Insert(cmp, s[0], SortBy(cmp, s[1..]))
  }

  lemma {:induction false} InsertPermutes<T>(cmp: (T, T) -> int, x: T, t: seq<T>)
    ensures multiset(Insert(cmp, x, t)) == multiset{x} + multiset(t)
  {
    if t != [] && cmp(x, t[0]) > 0 {
      InsertPermutes(cmp, x, t[1..]);
      assert t == [t[0]] + t[1..];
    }
  }

  /** The sort returns a permutation of its input. */
  lemma {:induction false} SortByPermutes<T>(cmp: (T, T) -> int, s: seq<T>)
    ensures multiset(SortBy(cmp, s)) == multiset(s)
  {
    if s != [] {
      SortByPermutes(cmp, s[1..]);
      InsertPermutes(cmp, s[0], SortBy(cmp, s[1..]));
      assert s == [s[0]] + s[1..];
    }
  }

  /** The elements of `Insert(cmp, x, t)` are `x` and the elements of `t`. */
  lemma {:induction false} InsertElements<T>(cmp: (T, T) -> int, x: T, t: seq<T>, e: T)
    ensures e in Insert(cmp, x, t) <==> e == x || e in t
  {
    if t != [] && cmp(x, t[0]) > 0 {
      InsertElements(cmp, x, t[1..], e);
      assert t == [t[0]] + t[1..];
    }
  }

  lemma {:induction false} InsertSorted<T(!new)>(cmp: (T, T) -> int, x: T, t: seq<T>)
    requires Consistent(cmp)
    requires Sorted(cmp, t)
    ensures Sorted(cmp, Insert(cmp, x, t))
  {
    if t == [] || cmp(x, t[0]) <= 0 {
      assert Insert(cmp, x, t) == [x] + t;
    } else {
      var rest := t[1..];
      InsertSorted(cmp, x, rest);
      var u := Insert(cmp, x, rest);
      assert Insert(cmp, x, t) == [t[0]] + u;
      forall i | 0 <= i < |u|
        ensures cmp(t[0], u[i]) <= 0
      {
        var e := u[i];
        InsertElements(cmp, x, rest, e);
        if e != x {
          var k :| 0 <= k < |rest| && rest[k] == e;
          assert t[k + 1] == e;
        }
      }
    }
  }

  /** The result of the sort is ordered by the comparator. */
  lemma {:induction false} SortBySorted<T(!new)>(cmp: (T, T) -> int, s: seq<T>)
    requires Consistent(cmp)
    ensures Sorted(cmp, SortBy(cmp, s))
  {
    if s != [] {
      SortBySorted(cmp, s[1..]);
      InsertSorted(cmp, s[0], SortBy(cmp, s[1..]));
    }
  }

  /** An input that is already in order comes back unchanged. */
  lemma {:induction false} SortByKeepsSorted<T>(cmp: (T, T) -> int, s: seq<T>)
    requires Sorted(cmp, s)
    ensures SortBy(cmp, s) == s
  {
    if s != [] {
      assert Sorted(cmp, s[1..]);
      SortByKeepsSorted(cmp, s[1..]);
      assert s[1..] == [] || cmp(s[0], s[1..][0]) <= 0;
      assert s == [s[0]] + s[1..];
    }
  }

  /** Sorting twice is sorting once. */
  lemma SortByIdempotent<T(!new)>(cmp: (T, T) -> int, s: seq<T>)
    requires Consistent(cmp)
    ensures SortBy(cmp, SortBy(cmp, s)) == SortBy(cmp, s)
  {
    SortBySorted(cmp, s);
    SortByKeepsSorted(cmp, SortBy(cmp, s));
  }

  /** The elements that compare equal to `z`. */
  function TiedWith<T>(cmp: (T, T) -> int, z: T): T -> bool
  {
    y => cmp(z, y) == 0
  }

  lemma {:induction false} InsertKeepsTies<T(!new)>(cmp: (T, T) -> int, x: T, t: seq<T>, z: T)
    requires Consistent(cmp)
    ensures Filter(Insert(cmp, x, t), TiedWith(cmp, z)) == Filter([x], TiedWith(cmp, z)) + Filter(t, TiedWith(cmp, z))
  {
    var p := TiedWith(cmp, z);
    if t == [] || cmp(x, t[0]) <= 0 {
      FilterConcat([x], t, p);
    } else {
      var rest := t[1..];
      InsertKeepsTies(cmp, x, rest, z);
      FilterConcat([t[0]], Insert(cmp, x, rest), p);
      FilterConcat([t[0]], rest, p);
      assert t == [t[0]] + rest;
      // x and t[0] cannot both tie with z: they would tie with each other
      assert !(p(x) && p(t[0]));
    }
  }

  /** Stability: the elements that tie with any `z` leave the sort in the order
      they entered it. */
  lemma {:induction false} SortByStable<T(!new)>(cmp: (T, T) -> int, s: seq<T>, z: T)
    requires Consistent(cmp)
    ensures Filter(SortBy(cmp, s), TiedWith(cmp, z)) == Filter(s, TiedWith(cmp, z))
  {
    if s != [] {
      SortByStable(cmp, s[1..], z);
      InsertKeepsTies(cmp, s[0], SortBy(cmp, s[1..]), z);
      FilterConcat([s[0]], s[1..], TiedWith(cmp, z));
      assert s == [s[0]] + s[1..];
    }
  }

  /** Every element ties with itself, so it heads the list of its ties. */
  lemma FilterHeadTies<T(!new)>(cmp: (T, T) -> int, r: seq<T>)
    requires Antisymmetric(cmp) && r != []
    ensures Filter(r, TiedWith(cmp, r[0])) == [r[0]] + Filter(r[1..], TiedWith(cmp, r[0]))
  {
    assert cmp(r[0], r[0]) == -cmp(r[0], r[0]);
  }

  /** The first element of a sorted list comes no later than any other element. */
  lemma SortedHeadFirst<T>(cmp: (T, T) -> int, r: seq<T>, x: T)
    requires Sorted(cmp, r) && x in r && cmp(r[0], r[0]) <= 0
    ensures cmp(r[0], x) <= 0
  {
    var k :| 0 <= k < |r| && r[k] == x;
  }

  /** Lists that agree on every group of tied elements are empty together. */
  lemma SameTiesBothEmpty<T(!new)>(cmp: (T, T) -> int, r1: seq<T>, r2: seq<T>)
    requires Antisymmetric(cmp)
    requires forall z :: Filter(r1, TiedWith(cmp, z)) == Filter(r2, TiedWith(cmp, z))
    ensures r1 == [] <==> r2 == []
  {
    if r1 != [] {
      FilterHeadTies(cmp, r1);
      assert Filter(r1, TiedWith(cmp, r1[0])) == Filter(r2, TiedWith(cmp, r1[0]));
    }
    if r2 != [] {
      FilterHeadTies(cmp, r2);
      assert Filter(r1, TiedWith(cmp, r2[0])) == Filter(r2, TiedWith(cmp, r2[0]));
    }
  }

  /** Two sorted lists that agree on every group of tied elements start alike:
      each head occurs in the other list, so the heads tie, and each heads the
      group of the other. */
  lemma SameTiesSameHead<T(!new)>(cmp: (T, T) -> int, r1: seq<T>, r2: seq<T>)
    requires Consistent(cmp) && Sorted(cmp, r1) && Sorted(cmp, r2) && r1 != [] && r2 != []
    requires forall z :: Filter(r1, TiedWith(cmp, z)) == Filter(r2, TiedWith(cmp, z))
    ensures r1[0] == r2[0]
  {
    var a, b := r1[0], r2[0];
    FilterHeadTies(cmp, r1);
    FilterHeadTies(cmp, r2);
    assert Filter(r1, TiedWith(cmp, a)) == Filter(r2, TiedWith(cmp, a));
    assert Filter(r1, TiedWith(cmp, b)) == Filter(r2, TiedWith(cmp, b));
    assert a in Filter(r2, TiedWith(cmp, a));
    assert b in Filter(r1, TiedWith(cmp, b));
    assert cmp(a, a) == -cmp(a, a) && cmp(b, b) == -cmp(b, b);
    SortedHeadFirst(cmp, r1, b);
    SortedHeadFirst(cmp, r2, a);
    assert cmp(a, b) == -cmp(b, a);
    assert TiedWith(cmp, a)(b);
  }

  /** A common head drops out of two equal filterings. */
  lemma DropCommonHead<T(!new)>(r1: seq<T>, r2: seq<T>, p: T -> bool)
    requires r1 != [] && r2 != [] && r1[0] == r2[0] && Filter(r1, p) == Filter(r2, p)
    ensures Filter(r1[1..], p) == Filter(r2[1..], p)
  {
    if p(r1[0]) {
      assert Filter(r1[1..], p) == Filter(r1, p)[1..];
      assert Filter(r2[1..], p) == Filter(r2, p)[1..];
    }
  }

  /** Past a common head, the lists still agree on every group of tied elements. */
  lemma SameTiesTails<T(!new)>(cmp: (T, T) -> int, r1: seq<T>, r2: seq<T>)
    requires r1 != [] && r2 != [] && r1[0] == r2[0]
    requires forall z :: Filter(r1, TiedWith(cmp, z)) == Filter(r2, TiedWith(cmp, z))
    ensures forall z :: Filter(r1[1..], TiedWith(cmp, z)) == Filter(r2[1..], TiedWith(cmp, z))
  {
    forall z
      ensures Filter(r1[1..], TiedWith(cmp, z)) == Filter(r2[1..], TiedWith(cmp, z))
    {
      DropCommonHead(r1, r2, TiedWith(cmp, z));
    }
  }

  /** Two sorted lists that agree on the order of every group of tied elements
      are the same list. */
  lemma {:induction false} SortedTiesDetermine<T(!new)>(cmp: (T, T) -> int, r1: seq<T>, r2: seq<T>)
    requires Consistent(cmp) && Sorted(cmp, r1) && Sorted(cmp, r2)
    requires forall z :: Filter(r1, TiedWith(cmp, z)) == Filter(r2, TiedWith(cmp, z))
    ensures r1 == r2
    decreases |r1|
  {
    SameTiesBothEmpty(cmp, r1, r2);
    if r1 != [] {
      SameTiesSameHead(cmp, r1, r2);
      SameTiesTails(cmp, r1, r2);
      SortedTiesDetermine(cmp, r1[1..], r2[1..]);
      assert r1 == [r1[0]] + r1[1..] && r2 == [r2[0]] + r2[1..];
    }
  }

  /** The stable sort is the only result a sort may give: a sorted list that keeps
      every group of tied elements of `s` in their order in `s` is `SortBy(cmp, s)`. */
  lemma StableSortUnique<T(!new)>(cmp: (T, T) -> int, s: seq<T>, r: seq<T>)
    requires Consistent(cmp) && Sorted(cmp, r)
    requires forall z :: Filter(r, TiedWith(cmp, z)) == Filter(s, TiedWith(cmp, z))
    ensures r == SortBy(cmp, s)
  {
    SortBySorted(cmp, s);
    forall z
      ensures Filter(r, TiedWith(cmp, z)) == Filter(SortBy(cmp, s), TiedWith(cmp, z))
    {
      SortByStable(cmp, s, z);
    }
    SortedTiesDetermine(cmp, r, SortBy(cmp, s));
  }

  /** `Insert` as the shifting loop computes it: `x` lands after the first `m`
      elements, which it compares strictly after, and before the rest. */
  lemma {:induction false} InsertAt<T>(cmp: (T, T) -> int, x: T, t: seq<T>, m: int)
    requires 0 <= m <= |t|
    requires forall k :: 0 <= k < m ==> cmp(x, t[k]) > 0
    requires m == |t| || cmp(x, t[m]) <= 0
    ensures Insert(cmp, x, t) == t[..m] + [x] + t[m..]
  {
    if m == 0 {
      assert t[..m] == [] && t[m..] == t;
    } else {
      var rest := t[1..];
      assert Insert(cmp, x, t) == [t[0]] + Insert(cmp, x, rest);
      InsertAt(cmp, x, rest, m - 1);
      assert t[..m] == [t[0]] + rest[..m - 1];
      assert t[m..] == rest[m - 1..];
    }
  }

  /** One step of the in-place sort: `a[i + 1..]` is sorted already, and `a[i]`
      is moved right past every element it compares strictly after. */
  method InsertInPlace<T>(a: array<T>, i: nat, cmp: (T, T) -> int)
    requires i < a.Length
    modifies a
    ensures a[..i] == old(a[..i])
    ensures a[i..] == Insert(cmp, old(a[i]), old(a[i + 1..]))
  {
    var n := a.Length;
    var x := a[i];
    ghost var sorted := a[i + 1..];
    var j := i;
    while j + 1 < n && cmp(x, a[j + 1]) > 0
      invariant i <= j < n
      invariant forall k :: 0 <= k < i ==> a[k] == old(a[k])
      invariant forall k :: i <= k < j ==> a[k] == sorted[k - i]
      invariant forall k :: j < k < n ==> a[k] == sorted[k - i - 1]
      invariant forall k :: 0 <= k < j - i ==> cmp(x, sorted[k]) > 0
    {
      a[j] := a[j + 1];
      j := j + 1;
    }
    a[j] := x;
    InsertAt(cmp, x, sorted, j - i);
    Placed(a[..], i, j, x, sorted);
  }

  /** The array contents after the shifting loop, read as a sequence. */
  lemma Placed<T>(b: seq<T>, i: nat, j: nat, x: T, sorted: seq<T>)
    requires i <= j < |b| && |sorted| == |b| - i - 1
    requires forall k :: i <= k < j ==> b[k] == sorted[k - i]
    requires b[j] == x
    requires forall k :: j < k < |b| ==> b[k] == sorted[k - i - 1]
    ensures b[i..] == sorted[..j - i] + [x] + sorted[j - i..]
  {
  }

  /** The library sort, done in place as an insertion sort that grows a sorted
      suffix from the right. */
  method SortInPlace<T>(a: array<T>, cmp: (T, T) -> int)
    modifies a
    ensures a[..] == SortBy(cmp, old(a[..]))
  {
    ghost var input := a[..];
    var i := a.Length;
    while i > 0
      invariant 0 <= i <= a.Length
      invariant a[i..] == SortBy(cmp, input[i..])
      invariant a[..i] == input[..i]
    {
      i := i - 1;
      assert input[i..] == [input[i]] + input[i + 1..];
      InsertInPlace(a, i, cmp);
    }
    assert input[0..] == input;
  }
}
