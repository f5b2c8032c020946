/** Filtering a list, and sorting its items into buckets by a text key as `dict.setdefault` does. */
module Grouping {
  import opened Wrappers

  /** The items for which `p` holds, in order. */
  function Where<T(!new)>(items: seq<T>, p: T -> bool): (kept: seq<T>)
    ensures forall x :: x in kept <==> x in items && p(x)
  {
    if items == [] then []
    else
      var last := items[|items| - 1];
      assert items == items[..|items| - 1] + [last];
      Where(items[..|items| - 1], p) + if p(last) then [last] else []
  }

  lemma WhereSnoc<T(!new)>(items: seq<T>, x: T, p: T -> bool)
    ensures Where(items + [x], p) == Where(items, p) + if p(x) then [x] else []
  {
    assert (items + [x])[..|items|] == items;
  }

  lemma Snoc<T>(items: seq<T>)
    requires items != []
    ensures items == items[..|items| - 1] + [items[|items| - 1]]
  {
  }

  lemma Associative<T>(a: seq<T>, b: seq<T>, c: seq<T>)
    ensures (a + b) + c == a + (b + c)
  {
  }

  lemma {:induction false} WhereConcat<T(!new)>(a: seq<T>, b: seq<T>, p: T -> bool)
    ensures Where(a + b, p) == Where(a, p) + Where(b, p)
  {
    if b == [] {
      assert a + b == a;
    } else {
      hide Where;
      var front, last := b[..|b| - 1], b[|b| - 1];
      WhereConcat(a, front, p);
      WhereSnoc(a + front, last, p);
      WhereSnoc(front, last, p);
      Snoc(b);
      Associative(a, front, [last]);
      Associative(Where(a, p), Where(front, p), if p(last) then [last] else []);
    }
  }

  lemma {:induction false} WhereAll<T(!new)>(items: seq<T>, p: T -> bool)
    requires forall x :: x in items ==> p(x)
    ensures Where(items, p) == items
  {
    if items != [] {
      assert items == items[..|items| - 1] + [items[|items| - 1]];
      WhereAll(items[..|items| - 1], p);
    }
  }

  lemma WhereNone<T(!new)>(items: seq<T>, p: T -> bool)
    requires forall x :: x in items ==> !p(x)
    ensures Where(items, p) == []
  {
    if Where(items, p) != [] {
      assert Where(items, p)[0] in Where(items, p);
    }
  }

  lemma {:induction false} WhereShorter<T(!new)>(items: seq<T>, p: T -> bool)
    ensures |Where(items, p)| <= |items|
  {
    if items != [] {
      WhereShorter(items[..|items| - 1], p);
    }
  }

  /** What is kept is a slice, if exactly the items of that slice pass. */
  lemma WhereSlice<T(!new)>(items: seq<T>, p: T -> bool, i: nat, j: nat)
    requires i <= j <= |items|
    requires forall k :: 0 <= k < |items| ==> (p(items[k]) <==> i <= k < j)
    ensures Where(items, p) == items[i..j]
  {
    hide Where;
    var a, b, c := items[..i], items[i..j], items[j..];
    forall x | x in a ensures !p(x) {
      var k :| 0 <= k < i && a[k] == x == items[k];
    }
    forall x | x in b ensures p(x) {
      var k :| 0 <= k < j - i && b[k] == x == items[i + k];
    }
    forall x | x in c ensures !p(x) {
      var k :| 0 <= k < |items| - j && c[k] == x == items[j + k];
    }
    WhereConcat(a + b, c, p);
    WhereConcat(a, b, p);
    WhereNone(a, p);
    WhereAll(b, p);
    WhereNone(c, p);
    ThreeSlices(items, i, j);
  }

  lemma ThreeSlices<T>(items: seq<T>, i: nat, j: nat)
    requires i <= j <= |items|
    ensures items[..i] + items[i..j] + items[j..] == items
  {
  }

  /** Filtering twice keeps what passes both tests. */
  lemma {:induction false} WhereTwice<T(!new)>(items: seq<T>, p: T -> bool, q: T -> bool)
    requires forall x :: x in items && q(x) ==> p(x)
    ensures Where(Where(items, p), q) == Where(items, q)
  {
    if items != [] {
      var front, last := items[..|items| - 1], items[|items| - 1];
      assert items == front + [last];
      assert last in items;
      WhereTwice(front, p, q);
      if p(last) {
        WhereSnoc(Where(front, p), last, q);
      } else {
        assert Where(items, p) == Where(front, p);
        assert Where(items, q) == Where(front, q);
      }
    }
  }

  /** Filtering counts every item that passes as often as before. */
  lemma {:induction false} WhereCounts<T(!new)>(items: seq<T>, p: T -> bool, x: T)
    ensures multiset(Where(items, p))[x] == if p(x) then multiset(items)[x] else 0
  {
    if items != [] {
      assert items == items[..|items| - 1] + [items[|items| - 1]];
      WhereCounts(items[..|items| - 1], p, x);
    }
  }

  lemma WhereSameMultiset<T(!new)>(a: seq<T>, b: seq<T>, p: T -> bool)
    requires multiset(a) == multiset(b)
    ensures multiset(Where(a, p)) == multiset(Where(b, p))
  {
    forall x ensures multiset(Where(a, p))[x] == multiset(Where(b, p))[x] {
      WhereCounts(a, p, x);
      WhereCounts(b, p, x);
    }
  }

  /** The position of the first pair with that key. */
  function Find<K(==), V>(pairs: seq<(K, V)>, key: K): (i: Option<nat>)
    ensures i.Some? ==> i.value < |pairs| && pairs[i.value].0 == key
    ensures i.None? ==> forall k :: 0 <= k < |pairs| ==> pairs[k].0 != key
  {
    if pairs == [] then None
    else if pairs[0].0 == key then Some(0)
    else
      var i :- Find(pairs[1..], key);
      Some(i + 1)
  }

  /** The parts, one after the other. */
  function Concat<T>(parts: seq<seq<T>>): seq<T> {
    if parts == [] then [] else parts[0] + Concat(parts[1..])
  }

  /** The items with key `k`. */
  function OfKey<T(!new)>(items: seq<T>, key: T -> string, k: string): seq<T> {
    Where(items, x => key(x) == k)
  }

  lemma OfKeySnoc<T(!new)>(items: seq<T>, x: T, key: T -> string, k: string)
    ensures OfKey(items + [x], key, k) == OfKey(items, key, k) + if key(x) == k then [x] else []
  {
    WhereSnoc(items, x, y => key(y) == k);
  }

  lemma OfNoKey<T(!new)>(items: seq<T>, key: T -> string, k: string)
    requires k !in Keys(items, key)
    ensures OfKey(items, key, k) == []
  {
    WhereNone(items, y => key(y) == k);
  }

  lemma OfKeyIs<T(!new)>(items: seq<T>, key: T -> string, k: string)
    ensures |OfKey(items, key, k)| <= |items|
    ensures forall x :: x in OfKey(items, key, k) <==> x in items && key(x) == k
    ensures multiset(OfKey(items, key, k)) <= multiset(items)
  {
    WhereShorter(items, x => key(x) == k);
    forall x ensures multiset(OfKey(items, key, k))[x] <= multiset(items)[x] {
      WhereCounts(items, y => key(y) == k, x);
    }
  }

  /** Filtering the items of one key with a test that only those items can pass. */
  lemma OfKeyWhere<T(!new)>(items: seq<T>, key: T -> string, k: string, p: T -> bool)
    requires forall x :: x in items && p(x) ==> key(x) == k
    ensures Where(OfKey(items, key, k), p) == Where(items, p)
  {
    WhereTwice(items, x => key(x) == k, p);
  }

  /** The keys in use, in the order of their first use. */
  function Keys<T(!new)>(items: seq<T>, key: T -> string): (keys: seq<string>)
    ensures forall x :: x in items ==> key(x) in keys
    ensures forall k :: k in keys ==> exists x :: x in items && key(x) == k
  {
    if items == [] then []
    else
      var front, last := items[..|items| - 1], items[|items| - 1];
      assert items == front + [last];
      var keys := Keys(front, key);
      if key(last) in keys then keys else keys + [key(last)]
  }

  lemma KeysSnoc<T(!new)>(items: seq<T>, x: T, key: T -> string)
    ensures Keys(items + [x], key)
            == if key(x) in Keys(items, key) then Keys(items, key) else Keys(items, key) + [key(x)]
  {
    assert (items + [x])[..|items|] == items;
  }

  /** An insertion-ordered dictionary from each key to its items. */
  ghost predicate IsGrouping<T(!new)>(items: seq<T>, key: T -> string, keys: seq<string>, groups: map<string, seq<T>>) {
    && keys == Keys(items, key)
    && (forall k :: k in groups <==> k in keys)
    && (forall k :: k in groups ==> groups[k] == OfKey(items, key, k))
  }

  lemma GroupingStep<T(!new)>(items: seq<T>, x: T, key: T -> string, keys: seq<string>, groups: map<string, seq<T>>)
    requires IsGrouping(items, key, keys, groups)
    ensures IsGrouping(items + [x], key,
                       if key(x) in groups then keys else keys + [key(x)],
                       groups[key(x) := (if key(x) in groups then groups[key(x)] else []) + [x]])
  {
    hide Where, Keys, OfKey;
    KeysSnoc(items, x, key);
    forall k ensures OfKey(items + [x], key, k) == OfKey(items, key, k) + if key(x) == k then [x] else [] {
      OfKeySnoc(items, x, key, k);
    }
    if key(x) !in groups {
      OfNoKey(items, key, key(x));
    }
  }

  lemma GroupingNext<T(!new)>(items: seq<T>, i: nat, key: T -> string, keys: seq<string>, groups: map<string, seq<T>>)
    requires i < |items| && IsGrouping(items[..i], key, keys, groups)
    ensures var k := key(items[i]);
            if k in groups then IsGrouping(items[..i + 1], key, keys, groups[k := groups[k] + [items[i]]])
            else IsGrouping(items[..i + 1], key, keys + [k], groups[k := [items[i]]])
  {
    hide IsGrouping;
    assert items[..i] + [items[i]] == items[..i + 1];
    GroupingStep(items[..i], items[i], key, keys, groups);
    assert [] + [items[i]] == [items[i]];
  }

  method GroupBy<T(!new)>(items: seq<T>, key: T -> string) returns (keys: seq<string>, groups: map<string, seq<T>>)
    ensures IsGrouping(items, key, keys, groups)
  {
    keys, groups := [], map[];
    assert IsGrouping(items[..0], key, keys, groups);
    hide IsGrouping;
    for i := 0 to |items|
      invariant IsGrouping(items[..i], key, keys, groups)
    {
      var k := key(items[i]);
      GroupingNext(items, i, key, keys, groups);
      if k !in groups {
        keys := keys + [k];
        groups := groups[k := [items[i]]];
      } else {
        groups := groups[k := groups[k] + [items[i]]];
      }
    }
    assert items[..|items|] == items;
  }
}
