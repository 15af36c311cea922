/** The unit tests' adapter `ToEnumerable` and the test scenarios stated
    against the model. The adapter hides the runtime type of its source
    behind an iterator, so every call routed through it takes the
    enumerating (`!Any()`) path rather than the ICollection<T> one. */
module IEnumerableTestHelper {
  import opened Runtime
  import opened IEnumerableExtensions

  /** `source.ToEnumerable()`: an iterator that yields nothing for a null
      source and otherwise yields the source's elements in order. It never
      fails. */
  function ToEnumerable<T>(source: Arg<Enumerable<T>>): (r: Enumerable<T>)
    ensures r.Deferred?
    ensures source.Null? ==> r.items == []
    ensures source.NonNull? ==> r.items == source.value.items
  {
    match source
    case Null => Deferred([])
    case NonNull(e) => Deferred(e.items)
  }

  /** Wrapping twice yields what wrapping once does. */
  lemma ToEnumerableIsIdempotent<T>(source: Arg<Enumerable<T>>)
    ensures ToEnumerable(NonNull(ToEnumerable(source))) == ToEnumerable(source)
    ensures |ToEnumerable(source).items| == if source.Null? then 0 else |source.value.items|
  {
  }

  /** Wrapping a null source gives an empty sequence, which IsNullOrEmpty,
      IsEmpty and None all report as empty. */
  lemma WrappedNullIsEmpty<T>()
    ensures IsNullOrEmpty(NonNull(ToEnumerable<T>(Null)))
    ensures IsEmpty(NonNull(ToEnumerable<T>(Null))) == Ok(true)
    ensures None(NonNull(ToEnumerable<T>(Null))) == Ok(true)
  {
  }

  /** On a present source, the queries give the same answer with or without
      the wrapper, whichever branch of IsEmpty the unwrapped source takes. */
  lemma WrappingPreservesQueries<T>(e: Enumerable<T>, pred: Arg<T -> bool>)
    ensures IsEmpty(NonNull(ToEnumerable(NonNull(e)))) == IsEmpty(NonNull(e))
    ensures IsNullOrEmpty(NonNull(ToEnumerable(NonNull(e)))) == IsNullOrEmpty(NonNull(e))
    ensures None(NonNull(ToEnumerable(NonNull(e)))) == None(NonNull(e))
    ensures NoneWhere(NonNull(ToEnumerable(NonNull(e))), pred) == NoneWhere(NonNull(e), pred)
  {
  }

  // ---------------------------------------------------------------------------
  // ForEach scenarios

  function Double(x: int): int { x * 2 }

  /** `source.ToEnumerable().ForEach(i => result.Add(i * 2))` on {1, 2, 3, 4, 5}
      leaves {2, 4, 6, 8, 10} in the list, and on an empty source leaves the
      list empty. */
  method ForEachAppendsDoubles() returns (doubled: Result<seq<int>>, none: Result<seq<int>>)
    ensures doubled == Ok([2, 4, 6, 8, 10])
    ensures none == Ok([])
  {
    var source := NonNull(ToEnumerable(NonNull(Collection([1, 2, 3, 4, 5]))));
    doubled := ForEach(source, NonNull(Appending(Double)), []);
    var xs := [1, 2, 3, 4, 5];
    var log := Run(Appending(Double), [], xs);
    RunAppending(Double, [], xs);
    forall i | 0 <= i < 5 ensures log[i] == 2 * (i + 1) {
      assert log[0 + i] == Double(xs[i]);
    }
    assert log == [2, 4, 6, 8, 10];
    var empty := NonNull(ToEnumerable(NonNull(Collection([]))));
    none := ForEach(empty, NonNull(Appending(Double)), []);
  }

  /** A null source is reported as "source", with an action present and
      also when the action is null too; a null action on a present source is
      reported as "action". */
  method ForEachReportsNullArguments() returns (nullSource: Result<seq<int>>, bothNull: Result<seq<int>>, nullAction: Result<seq<int>>)
    ensures nullSource == ArgumentNull("source")
    ensures bothNull == ArgumentNull("source")
    ensures nullAction == ArgumentNull("action")
  {
    nullSource := ForEach<int, seq<int>>(Null, NonNull(Appending(Double)), []);
    bothNull := ForEach<int, seq<int>>(Null, Null, []);
    var source := NonNull(ToEnumerable(NonNull(Collection([1, 2, 3]))));
    nullAction := ForEach<int, seq<int>>(source, Null, []);
  }

  /** ForEach over the wrapped source leaves the same state, and reports the
      same errors, as ForEach over the source itself: the wrapper yields the
      same elements in the same order. */
  method ForEachIgnoresWrapper<T, S>(e: Enumerable<T>, action: Arg<(S, T) -> S>, state: S) returns (wrapped: Result<S>, direct: Result<S>)
    ensures wrapped == direct
    ensures action.Null? ==> wrapped == ArgumentNull("action")
    ensures action.NonNull? ==> wrapped == Ok(Run(action.value, state, e.items))
  {
    wrapped := ForEach(NonNull(ToEnumerable(NonNull(e))), action, state);
    direct := ForEach(NonNull(e), action, state);
  }

  // ---------------------------------------------------------------------------
  // None, IsEmpty and Shuffle scenarios

  function DivisibleBy3(n: int): bool { n % 3 == 0 }

  /** The expectations of the None tests on integer sources. */
  lemma NoneScenarios()
    ensures None<int>(Null) == ArgumentNull("source")
    ensures None(NonNull(ToEnumerable(NonNull(Collection([3, 6, 9, 12]))))) == Ok(false)
    ensures None(NonNull(ToEnumerable(NonNull(Enumerable<int>.Collection([]))))) == Ok(true)
    ensures NoneWhere(Null, NonNull(DivisibleBy3)) == ArgumentNull("source")
    ensures NoneWhere(NonNull(ToEnumerable(NonNull(Collection([3, 6, 9, 12])))), Null) == ArgumentNull("predicate")
    ensures NoneWhere(NonNull(ToEnumerable(NonNull(Collection([3, 6, 9, 12])))), NonNull(DivisibleBy3)) == Ok(false)
    ensures NoneWhere(NonNull(ToEnumerable(NonNull(Collection([1, 2, 3, 4])))), NonNull(DivisibleBy3)) == Ok(false)
    ensures NoneWhere(NonNull(ToEnumerable(NonNull(Collection([1, 2, 4, 5])))), NonNull(DivisibleBy3)) == Ok(true)
  {
    var some := [1, 2, 3, 4];
    assert DivisibleBy3(some[2]);
  }

  /** The array {0, 1, ..., n - 1}. */
  function Range(n: nat): (r: seq<int>)
    ensures |r| == n && forall i :: 0 <= i < n ==> r[i] == i
  {
    seq(n, i => i)
  }

  /** `Shuffle()` of {0, ..., 9}: whatever keys are drawn, the result has ten
      elements and contains each of 0 to 9. */
  lemma {:induction false} ShuffleScenario(keys: seq<int>)
    requires |keys| == 10
    ensures var r := Shuffle(NonNull(Collection(Range(10))), keys);
      && r.Ok?
      && |r.value.items| == 10
      && forall n :: 0 <= n < 10 ==> n in r.value.items
  {
    var source := Range(10);
    var r := Shuffle(NonNull(Collection(source)), keys).value.items;
    forall n | 0 <= n < 10 ensures n in r {
      assert source[n] == n;
      assert n in multiset(source);
      assert n in multiset(r);
    }
  }

  /** A null source is reported as "source" by IsEmpty and Shuffle; IsEmpty
      answers the two array tests. */
  lemma IsEmptyAndShuffleScenarios()
    ensures IsEmpty<int>(Null) == ArgumentNull("source")
    ensures IsEmpty(NonNull(Enumerable<int>.Collection([]))) == Ok(true)
    ensures IsEmpty(NonNull(Collection([1, 2, 3]))) == Ok(false)
    ensures Shuffle<int>(Null, []) == ArgumentNull("source")
  {
  }
}
