/** A stable sort, as Python's `list.sort` and JavaScript's `Array.sort` are. */
module Sorting {

  /** `leq` is a total preorder: it may hold both ways between different items. */
  ghost predicate Preorder<T(!new)>(leq: (T, T) -> bool) {
    && (forall a, b :: leq(a, b) || leq(b, a))
    && (forall a, b, c :: leq(a, b) && leq(b, c) ==> leq(a, c))
  }

  ghost predicate Sorted<T>(items: seq<T>, leq: (T, T) -> bool) {
    forall i, j :: 0 <= i < j < |items| ==> leq(items[i], items[j])
  }

  /** Puts `x` before the items that it is not greater than. */
  function Insert<T>(x: T, sorted: seq<T>, leq: (T, T) -> bool): seq<T> {
    if sorted == [] || leq(x, sorted[0]) then [x] + sorted else [sorted[0]] + Insert(x, sorted[1..], leq)
  }

  function Sort<T>(items: seq<T>, leq: (T, T) -> bool): seq<T> {
    if items == [] then [] else Insert(items[0], Sort(items[1..], leq), leq)
  }

  lemma {:induction false} InsertPermutes<T>(x: T, sorted: seq<T>, leq: (T, T) -> bool)
    ensures multiset(Insert(x, sorted, leq)) == multiset([x] + sorted)
  {
    if sorted != [] && !leq(x, sorted[0]) {
      InsertPermutes(x, sorted[1..], leq);
      assert sorted == [sorted[0]] + sorted[1..];
    }
  }

  lemma {:induction false} SortPermutes<T>(items: seq<T>, leq: (T, T) -> bool)
    ensures multiset(Sort(items, leq)) == multiset(items)
    ensures |Sort(items, leq)| == |items|
  {
    if items != [] {
      SortPermutes(items[1..], leq);
      InsertPermutes(items[0], Sort(items[1..], leq), leq);
      assert items == [items[0]] + items[1..];
    }
    assert |Sort(items, leq)| == |multiset(Sort(items, leq))|;
  }

  /** Sorting keeps the members. */
  lemma SortMember<T>(items: seq<T>, leq: (T, T) -> bool, x: T)
    ensures x in Sort(items, leq) <==> x in items
  {
    SortPermutes(items, leq);
    assert x in Sort(items, leq) <==> x in multiset(Sort(items, leq));
  }

  lemma {:induction false} InsertSorts<T(!new)>(x: T, sorted: seq<T>, leq: (T, T) -> bool)
    requires Preorder(leq) && Sorted(sorted, leq)
    ensures Sorted(Insert(x, sorted, leq), leq)
  {
    if sorted != [] && !leq(x, sorted[0]) {
      var rest := Insert(x, sorted[1..], leq);
      InsertSorts(x, sorted[1..], leq);
      InsertPermutes(x, sorted[1..], leq);
      forall j | 0 <= j < |rest| ensures leq(sorted[0], rest[j]) {
        assert rest[j] in multiset([x] + sorted[1..]);
        assert rest[j] == x || rest[j] in sorted[1..];
      }
    }
  }

  lemma {:induction false} SortSorts<T(!new)>(items: seq<T>, leq: (T, T) -> bool)
    requires Preorder(leq)
    ensures Sorted(Sort(items, leq), leq)
  {
    if items != [] {
      SortSorts(items[1..], leq);
      InsertSorts(items[0], Sort(items[1..], leq), leq);
    }
  }

  /** Sorting a sorted list changes nothing. */
  lemma {:induction false} SortOfSorted<T>(items: seq<T>, leq: (T, T) -> bool)
    requires Sorted(items, leq)
    ensures Sort(items, leq) == items
  {
    if items != [] {
      SortOfSorted(items[1..], leq);
      assert items == [items[0]] + items[1..];
      assert |items| > 1 ==> leq(items[0], items[1]);
    }
  }

  ghost predicate NoDuplicates<T>(items: seq<T>) {
    forall i, j :: 0 <= i < j < |items| ==> items[i] != items[j]
  }

  lemma {:induction false} NoDuplicatesIff<T>(items: seq<T>)
    ensures NoDuplicates(items) <==> forall x :: multiset(items)[x] <= 1
  {
    if items != [] {
      var rest := items[1..];
      NoDuplicatesIff(rest);
      assert items == [items[0]] + rest;
      if NoDuplicates(items) {
        assert items[0] !in rest;
        assert NoDuplicates(rest);
      }
      if forall x :: multiset(items)[x] <= 1 {
        assert multiset(items)[items[0]] == 1 + multiset(rest)[items[0]];
        assert items[0] !in multiset(rest);
        forall x ensures multiset(rest)[x] <= 1 {
          assert multiset(rest)[x] <= multiset(items)[x];
        }
        forall i, j | 0 <= i < j < |items| ensures items[i] != items[j] {
          if i == 0 {
            assert items[j] == rest[j - 1];
          } else {
            assert items[i] == rest[i - 1] && items[j] == rest[j - 1];
          }
        }
      }
    }
  }

  lemma SortDistinct<T>(items: seq<T>, leq: (T, T) -> bool)
    requires NoDuplicates(items)
    ensures NoDuplicates(Sort(items, leq))
  {
    SortPermutes(items, leq);
    NoDuplicatesIff(items);
    NoDuplicatesIff(Sort(items, leq));
  }

  lemma HeadsAgree<T(!new)>(a: seq<T>, b: seq<T>, leq: (T, T) -> bool)
    requires a != [] && b != [] && Sorted(a, leq) && Sorted(b, leq) && multiset(a) == multiset(b)
    requires forall x, y :: x in a && y in a && leq(x, y) && leq(y, x) ==> x == y
    ensures a[0] == b[0]
  {
    assert a[0] in multiset(b) && b[0] in multiset(a);
    var i :| 0 <= i < |b| && b[i] == a[0];
    var j :| 0 <= j < |a| && a[j] == b[0];
    assert i == 0 || leq(b[0], b[i]);
    assert j == 0 || leq(a[0], a[j]);
  }

  lemma DropHeads<T>(a: seq<T>, b: seq<T>)
    requires a != [] && b != [] && a[0] == b[0] && multiset(a) == multiset(b)
    ensures multiset(a[1..]) == multiset(b[1..])
  {
    assert a == [a[0]] + a[1..] && b == [b[0]] + b[1..];
    assert multiset(a[1..]) == multiset(a) - multiset{a[0]};
    assert multiset(b[1..]) == multiset(b) - multiset{b[0]};
  }

  /** If equivalent members are equal, there is only one sorted order. */
  lemma {:induction false} SortedUnique<T(!new)>(a: seq<T>, b: seq<T>, leq: (T, T) -> bool)
    requires Sorted(a, leq) && Sorted(b, leq) && multiset(a) == multiset(b)
    requires forall x, y :: x in a && y in a && leq(x, y) && leq(y, x) ==> x == y
    ensures a == b
  {
    assert |multiset(a)| == |a| && |multiset(b)| == |b|;
    if a != [] {
      HeadsAgree(a, b, leq);
      DropHeads(a, b);
      SortedUnique(a[1..], b[1..], leq);
      assert a == [a[0]] + a[1..] && b == [b[0]] + b[1..];
    }
  }

  /** Sorting forgets the order of its input, as far as `leq` tells the items apart. */
  lemma SortIgnoresOrder<T(!new)>(a: seq<T>, b: seq<T>, leq: (T, T) -> bool)
    requires Preorder(leq) && multiset(a) == multiset(b)
    requires forall x, y :: x in a && y in a && leq(x, y) && leq(y, x) ==> x == y
    ensures Sort(a, leq) == Sort(b, leq)
  {
    SortSorts(a, leq);
    SortSorts(b, leq);
    SortPermutes(a, leq);
    SortPermutes(b, leq);
    forall x ensures x in Sort(a, leq) <==> x in a {
      SortMember(a, leq, x);
    }
    SortedUnique(Sort(a, leq), Sort(b, leq), leq);
  }
}
