/** The static class IEnumerableExtensions: ForEach, IsEmpty, IsNullOrEmpty,
    the two None overloads and the key-sort Shuffle. */
module IEnumerableExtensions {
  import opened Runtime
  import Linq

  // ---------------------------------------------------------------------------
  // ForEach

  /** The state an action leaves behind after it has been applied to each
      element of `xs`, first to last, starting from `s`. An Action<T> that
      works by side effect is modelled as a transformer of the state it
      touches. */
  function Run<S, T>(action: (S, T) -> S, s: S, xs: seq<T>): S
    decreases |xs|
  {
    if xs == [] then s else action(Run(action, s, xs[..|xs| - 1]), xs[|xs| - 1])
  }

  /** `source.ForEach(action)`: the source is checked before the action, then
      the action runs once per element, in source order. */
  method ForEach<T, S>(source: Arg<Enumerable<T>>, action: Arg<(S, T) -> S>, state: S) returns (r: Result<S>)
    ensures source.Null? ==> r == ArgumentNull("source")
    ensures source.NonNull? && action.Null? ==> r == ArgumentNull("action")
    ensures source.NonNull? && action.NonNull? ==> r == Ok(Run(action.value, state, source.value.items))
  {
    if source.Null? {
      return ArgumentNull("source");
    }
    if action.Null? {
      return ArgumentNull("action");
    }
    var items := source.value.items;
    var s := state;
    for i := 0 to |items|
      invariant s == Run(action.value, state, items[..i])
    {
      assert items[..i + 1][..i] == items[..i];
      s := action.value(s, items[i]);
    }
    assert items[..|items|] == items;
    return Ok(s);
  }

  /** Running over a concatenation runs over the first part, then the second:
      no element is skipped, repeated or reordered. */
  lemma {:induction false} RunConcat<S, T>(action: (S, T) -> S, s: S, xs: seq<T>, ys: seq<T>)
    ensures Run(action, s, xs + ys) == Run(action, Run(action, s, xs), ys)
    decreases |ys|
  {
    if ys == [] {
      assert xs + ys == xs;
    } else {
      var n := |ys| - 1;
      assert (xs + ys)[..|xs + ys| - 1] == xs + ys[..n];
      RunConcat(action, s, xs, ys[..n]);
    }
  }

  /** The action `x => list.Add(g(x))` of the tests, as a state transformer
      of the list it appends to. */
  function Appending<S, T>(g: T -> S): (seq<S>, T) -> seq<S> {
    (list: seq<S>, x: T) => list + [g(x)]
  }

  /** An appending action leaves the list it started with, followed by `g`
      of each element in source order: one entry per element, none for an
      empty source. */
  lemma {:induction false} RunAppending<S, T>(g: T -> S, list: seq<S>, xs: seq<T>)
    ensures |Run(Appending(g), list, xs)| == |list| + |xs|
    ensures Run(Appending(g), list, xs)[..|list|] == list
    ensures forall i :: 0 <= i < |xs| ==> Run(Appending(g), list, xs)[|list| + i] == g(xs[i])
    decreases |xs|
  {
    if xs != [] {
      var n := |xs| - 1;
      RunAppending(g, list, xs[..n]);
      assert Run(Appending(g), list, xs) == Run(Appending(g), list, xs[..n]) + [g(xs[n])];
    }
  }

  function Identity<T>(x: T): T { x }

  /** The call log: an action that records its argument sees exactly the
      source, element by element, in order. */
  lemma CallLogIsSource<T>(xs: seq<T>)
    ensures Run(Appending(Identity), [], xs) == xs
  {
    RunAppending(Identity, [], xs);
  }

  // ---------------------------------------------------------------------------
  // IsEmpty, IsNullOrEmpty, None

  /** `source.IsEmpty()`: an ICollection<T> answers from its Count, any other
      source from `!Any()`; both say whether the source has no elements. */
  function IsEmpty<T>(source: Arg<Enumerable<T>>): (r: Result<bool>)
    ensures source.Null? ==> r == ArgumentNull("source")
    ensures source.NonNull? ==> r.Ok? && (r.value <==> |source.value.items| == 0)
  {
    match source
    case Null => ArgumentNull("source")
    case NonNull(Collection(xs)) => Ok(|xs| == 0)
    case NonNull(Deferred(_)) => Ok(!Linq.Any(source).value)
  }

  /** `source.IsNullOrEmpty()`: never fails; null counts as empty. */
  function IsNullOrEmpty<T>(source: Arg<Enumerable<T>>): (b: bool)
    ensures b <==> source.Null? || |source.value.items| == 0
    ensures source.NonNull? ==> IsEmpty(source) == Ok(b)
  {
    source.Null? || !Linq.Any(source).value
  }

  /** `source.None()`, written as `!source.Any()`. */
  function None<T>(source: Arg<Enumerable<T>>): (r: Result<bool>)
    ensures source.Null? ==> r == ArgumentNull("source")
    ensures source.NonNull? ==> r.Ok? && (r.value <==> |source.value.items| == 0)
  {
    match Linq.Any(source)
    case Ok(any) => Ok(!any)
    case ArgumentNull(name) => ArgumentNull(name)
  }

  /** `source.None(predicate)`, written as `!source.Any(predicate)`. */
  function NoneWhere<T>(source: Arg<Enumerable<T>>, pred: Arg<T -> bool>): (r: Result<bool>)
    ensures source.Null? ==> r == ArgumentNull("source")
    ensures source.NonNull? && pred.Null? ==> r == ArgumentNull("predicate")
    ensures source.NonNull? && pred.NonNull? ==>
      r.Ok? && (r.value <==> forall i :: 0 <= i < |source.value.items| ==> !pred.value(source.value.items[i]))
  {
    match Linq.AnyWhere(source, pred)
    case Ok(any) => Ok(!any)
    case ArgumentNull(name) => ArgumentNull(name)
  }

  /** The ICollection<T> fast path and the `!Any()` path of IsEmpty agree. */
  lemma IsEmptyBranchesAgree<T>(xs: seq<T>)
    ensures IsEmpty(NonNull(Collection(xs))) == IsEmpty(NonNull(Deferred(xs)))
  {
  }

  /** `None()` and `IsEmpty()` are the same question, null included. */
  lemma NoneIsIsEmpty<T>(source: Arg<Enumerable<T>>)
    ensures None(source) == IsEmpty(source)
  {
  }

  /** `None(predicate)` with a predicate that accepts everything is `None()`. */
  lemma NoneWhereAcceptAllIsNone<T>(source: Arg<Enumerable<T>>, accept: T -> bool)
    requires forall x :: accept(x)
    ensures NoneWhere(source, NonNull(accept)) == None(source)
  {
    if source.NonNull? && source.value.items != [] {
      assert accept(source.value.items[0]);
    }
  }

  // ---------------------------------------------------------------------------
  // Shuffle (key sort)

  /** `source.Shuffle()`, written as `OrderBy(_ => Guid.NewGuid()).ToList()`;
      `keys` are the GUIDs drawn for the elements, in source order, and only
      their order matters. The result is a new List<T>. */
  function Shuffle<T>(source: Arg<Enumerable<T>>, keys: seq<int>): (r: Result<Enumerable<T>>)
    requires source.NonNull? ==> |keys| == |source.value.items|
    ensures source.Null? ==> r == ArgumentNull("source")
    ensures source.NonNull? ==> r.Ok? && r.value.Collection?
    ensures source.NonNull? ==> |r.value.items| == |source.value.items|
    ensures source.NonNull? ==> multiset(r.value.items) == multiset(source.value.items)
  {
    match Linq.OrderBy(source, keys)
    case Ok(sorted) => Ok(Collection(sorted))
    case ArgumentNull(name) => ArgumentNull(name)
  }

  /** Every element of the source is in the shuffled list. */
  lemma ShuffleKeepsEveryElement<T>(items: seq<T>, keys: seq<int>, x: T)
    requires |keys| == |items|
    requires x in items
    ensures x in Shuffle(NonNull(Deferred(items)), keys).value.items
  {
    var r := Shuffle(NonNull(Deferred(items)), keys).value.items;
    assert x in multiset(items);
    assert x in multiset(r);
  }

  /** The shuffled list is the element sequence of any stable sort of the
      source by the drawn keys: whichever stable sort OrderBy uses, the
      result is the same. */
  lemma {:induction false} ShuffleIsStableSortByKeys<T>(items: seq<T>, keys: seq<int>, sorted: seq<Linq.Keyed<T>>)
    requires |keys| == |items|
    requires Linq.StablyOrdered(sorted)
    requires multiset(sorted) == multiset(Linq.Tag(items, keys))
    ensures Shuffle(NonNull(Deferred(items)), keys) == Ok(Collection(Linq.Items(sorted)))
    ensures Shuffle(NonNull(Collection(items)), keys) == Ok(Collection(Linq.Items(sorted)))
  {
    Linq.OrderByIsStableSort(items, keys);
    Linq.StableOrderIsUnique(Linq.SortByKey(Linq.Tag(items, keys)), sorted);
  }

  /** Stability: when the drawn keys happen to be non-decreasing, the list
      comes back in source order (so the identity is a legal outcome). */
  lemma {:induction false} ShuffleWithOrderedKeysKeepsOrder<T>(items: seq<T>, keys: seq<int>)
    requires |keys| == |items|
    requires forall i, j :: 0 <= i < j < |keys| ==> keys[i] <= keys[j]
    ensures Shuffle(NonNull(Deferred(items)), keys) == Ok(Collection(items))
  {
    var tagged := Linq.Tag(items, keys);
    assert Linq.StablyOrdered(tagged);
    ShuffleIsStableSortByKeys(items, keys, tagged);
    assert Linq.Items(tagged) == items;
  }
}
