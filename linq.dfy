/** The framework operators the extension methods are written with:
    `Enumerable.Any()`, `Enumerable.Any(predicate)` and
    `Enumerable.OrderBy(keySelector)` followed by `ToList()`. Each validates
    its arguments before enumerating, as the framework does, and reports a
    null one by its parameter name. */
module Linq {
  import opened Runtime

  /** Enumerates `xs` front to back and stops at the first element that
      satisfies `p`. */
  function Exists<T>(xs: seq<T>, p: T -> bool): (b: bool)
    ensures b <==> exists i :: 0 <= i < |xs| && p(xs[i])
  {
    if xs == [] then false
    else if p(xs[0]) then true
    else
      var b := Exists(xs[1..], p);
      assert forall i :: 1 <= i < |xs| ==> xs[i] == xs[1..][i - 1];
      b
  }

  /** `source.Any()`: true when enumerating the source yields a first element. */
  function Any<T>(source: Arg<Enumerable<T>>): (r: Result<bool>)
    ensures source.Null? <==> r == ArgumentNull("source")
    ensures source.NonNull? ==> r == Ok(|source.value.items| > 0)
  {
    match source
    case Null => ArgumentNull("source")
    case NonNull(e) => Ok(e.items != [])
  }

  /** `source.Any(predicate)`: the source is checked before the predicate, and
      the result says whether some element satisfies the predicate. */
  function AnyWhere<T>(source: Arg<Enumerable<T>>, pred: Arg<T -> bool>): (r: Result<bool>)
    ensures source.Null? ==> r == ArgumentNull("source")
    ensures source.NonNull? && pred.Null? ==> r == ArgumentNull("predicate")
    ensures source.NonNull? && pred.NonNull? ==>
      r.Ok? && (r.value <==> exists i :: 0 <= i < |source.value.items| && pred.value(source.value.items[i]))
  {
    match source
    case Null => ArgumentNull("source")
    case NonNull(e) =>
      match pred
      case Null => ArgumentNull("predicate")
      case NonNull(p) => Ok(Exists(e.items, p))
  }

  // ---------------------------------------------------------------------------
  // OrderBy: a stable sort by a key computed once per element.

  /** An element together with the key the key selector produced for it and
      its position in the source; the position is what makes the sort stable. */
  datatype Keyed<T> = Keyed(key: int, index: nat, item: T)

  /** The order OrderBy promises: by key, and by source position among equal keys. */
  predicate Precedes<T>(a: Keyed<T>, b: Keyed<T>) {
    a.key < b.key || (a.key == b.key && a.index < b.index)
  }

  predicate StablyOrdered<T>(ts: seq<Keyed<T>>) {
    forall i, j :: 0 <= i < j < |ts| ==> Precedes(ts[i], ts[j])
  }

  predicate IndicesIncreasing<T>(ts: seq<Keyed<T>>) {
    forall i, j :: 0 <= i < j < |ts| ==> ts[i].index < ts[j].index
  }

  /** Pairs each element with its key and its position. */
  function Tag<T>(items: seq<T>, keys: seq<int>): (ts: seq<Keyed<T>>)
    requires |keys| == |items|
    ensures |ts| == |items|
    ensures forall i :: 0 <= i < |ts| ==> ts[i] == Keyed(keys[i], i, items[i])
  {
    seq(|items|, i requires 0 <= i < |items| => Keyed(keys[i], i, items[i]))
  }

  /** The elements of a keyed sequence, in its order. */
  function Items<T>(ts: seq<Keyed<T>>): (xs: seq<T>)
    ensures |xs| == |ts|
    ensures forall i :: 0 <= i < |ts| ==> xs[i] == ts[i].item
  {
    if ts == [] then [] else [ts[0].item] + Items(ts[1..])
  }

  /** Places `t` before the first element whose key is not smaller. */
  function Insert<T>(t: Keyed<T>, s: seq<Keyed<T>>): (r: seq<Keyed<T>>)
    ensures |r| == |s| + 1
    ensures multiset(r) == multiset{t} + multiset(s)
  {
    if s == [] || t.key <= s[0].key then [t] + s
    else
      assert s == [s[0]] + s[1..];
      [s[0]] + Insert(t, s[1..])
  }

  /** Insertion sort by key; each element is inserted in front of the equal
      keys of the elements that follow it in the source. */
  function SortByKey<T>(ts: seq<Keyed<T>>): (r: seq<Keyed<T>>)
    ensures |r| == |ts|
    ensures multiset(r) == multiset(ts)
  {
    if ts == [] then []
    else
      assert ts == [ts[0]] + ts[1..];
      Insert(ts[0], SortByKey(ts[1..]))
  }

  /** `source.OrderBy(keySelector).ToList()` where the key selector, called
      once per element in source order, returned `keys`. */
  function OrderBy<T>(source: Arg<Enumerable<T>>, keys: seq<int>): (r: Result<seq<T>>)
    requires source.NonNull? ==> |keys| == |source.value.items|
    ensures source.Null? ==> r == ArgumentNull("source")
    ensures source.NonNull? ==> r.Ok? && |r.value| == |source.value.items|
    ensures source.NonNull? ==> multiset(r.value) == multiset(source.value.items)
  {
    match source
    case Null => ArgumentNull("source")
    case NonNull(e) =>
      var ts := Tag(e.items, keys);
      ItemsOfSort(ts);
      assert Items(ts) == e.items;
      Ok(Items(SortByKey(ts)))
  }

  // ---------------------------------------------------------------------------
  // Lemmas

  lemma {:induction false} ItemsOfInsert<T>(t: Keyed<T>, s: seq<Keyed<T>>)
    ensures multiset(Items(Insert(t, s))) == multiset{t.item} + multiset(Items(s))
  {
    if s == [] || t.key <= s[0].key {
      assert Items([t] + s) == [t.item] + Items(s);
    } else {
      ItemsOfInsert(t, s[1..]);
      assert Items([s[0]] + Insert(t, s[1..])) == [s[0].item] + Items(Insert(t, s[1..]));
      assert Items(s) == [s[0].item] + Items(s[1..]);
    }
  }

  /** Sorting only reorders: the sorted elements are the source's elements. */
  lemma {:induction false} ItemsOfSort<T>(ts: seq<Keyed<T>>)
    ensures multiset(Items(SortByKey(ts))) == multiset(Items(ts))
  {
    if ts != [] {
      ItemsOfSort(ts[1..]);
      ItemsOfInsert(ts[0], SortByKey(ts[1..]));
      assert Items(ts) == [ts[0].item] + Items(ts[1..]);
    }
  }

  lemma {:induction false} InsertKeepsOrder<T>(t: Keyed<T>, s: seq<Keyed<T>>)
    requires StablyOrdered(s)
    requires forall k :: 0 <= k < |s| ==> t.index < s[k].index
    ensures StablyOrdered(Insert(t, s))
  {
    if s == [] || t.key <= s[0].key {
      var r := [t] + s;
      forall i, j | 0 <= i < j < |r| ensures Precedes(r[i], r[j]) {
        if i == 0 && j > 1 {
          assert Precedes(s[0], s[j - 1]);
        }
      }
    } else {
      var rest := Insert(t, s[1..]);
      InsertKeepsOrder(t, s[1..]);
      var r := [s[0]] + rest;
      forall j | 0 <= j < |rest| ensures Precedes(s[0], rest[j]) {
        assert rest[j] in multiset(rest);
        if rest[j] != t {
          assert rest[j] in multiset(s[1..]);
          var k :| 0 <= k < |s[1..]| && s[1..][k] == rest[j];
          assert Precedes(s[0], s[k + 1]);
        }
      }
      forall i, j | 0 <= i < j < |r| ensures Precedes(r[i], r[j]) {
        if i == 0 {
          assert r[j] == rest[j - 1];
        } else {
          assert r[i] == rest[i - 1] && r[j] == rest[j - 1];
        }
      }
    }
  }

  /** The insertion sort orders by key and keeps source order among equal
      keys, provided the positions it is given are increasing. */
  lemma {:induction false} SortIsStable<T>(ts: seq<Keyed<T>>)
    requires IndicesIncreasing(ts)
    ensures StablyOrdered(SortByKey(ts))
  {
    if ts != [] {
      var tail := ts[1..];
      var sorted := SortByKey(tail);
      SortIsStable(tail);
      forall k | 0 <= k < |sorted| ensures ts[0].index < sorted[k].index {
        assert sorted[k] in multiset(tail);
        var m :| 0 <= m < |tail| && tail[m] == sorted[k];
        assert ts[m + 1] == tail[m];
      }
      InsertKeepsOrder(ts[0], sorted);
    }
  }

  /** The first element of a stably ordered sequence precedes every other
      element of it. */
  lemma FirstPrecedesAll<T>(a: seq<Keyed<T>>, x: Keyed<T>)
    requires StablyOrdered(a)
    requires x in multiset(a)
    ensures x == a[0] || Precedes(a[0], x)
  {
    var m :| 0 <= m < |a| && a[m] == x;
    if m > 0 {
      assert Precedes(a[0], a[m]);
    }
  }

  /** A stable order of a multiset of keyed elements is unique: two stably
      ordered sequences with the same elements are equal. So "stably
      ordered permutation of the input" describes OrderBy's result exactly. */
  lemma {:induction false} StableOrderIsUnique<T>(a: seq<Keyed<T>>, b: seq<Keyed<T>>)
    requires StablyOrdered(a) && StablyOrdered(b)
    requires multiset(a) == multiset(b)
    ensures a == b
  {
    if a == [] {
      assert |b| == |multiset(b)|;
    } else {
      assert |b| == |multiset(b)| == |multiset(a)| == |a|;
      assert a[0] in multiset(b) && b[0] in multiset(a);
      FirstPrecedesAll(a, b[0]);
      FirstPrecedesAll(b, a[0]);
      assert a[0] == b[0];
      DropFirst(a);
      DropFirst(b);
      StableOrderIsUnique(a[1..], b[1..]);
      assert a == [a[0]] + a[1..] && b == [b[0]] + b[1..];
    }
  }

  /** Dropping the first element keeps a sequence stably ordered and removes
      one occurrence of that element from its multiset. */
  lemma DropFirst<T>(a: seq<Keyed<T>>)
    requires a != []
    requires StablyOrdered(a)
    ensures StablyOrdered(a[1..])
    ensures multiset(a[1..]) == multiset(a) - multiset{a[0]}
  {
    assert a == [a[0]] + a[1..];
  }

  /** OrderBy's result is the elements of the one stably ordered permutation
      of the keyed source: non-decreasing keys, and source order among equal
      keys. */
  lemma OrderByIsStableSort<T>(items: seq<T>, keys: seq<int>)
    requires |keys| == |items|
    ensures var ts := SortByKey(Tag(items, keys));
      && StablyOrdered(ts)
      && multiset(ts) == multiset(Tag(items, keys))
      && OrderBy(NonNull(Deferred(items)), keys) == Ok(Items(ts))
      && OrderBy(NonNull(Collection(items)), keys) == Ok(Items(ts))
  {
    SortIsStable(Tag(items, keys));
  }
}
