# IEnumerable extensions, modelled in Dafny

This project models the sequence helpers of the static class
`IEnumerableExtensions`:

- `ForEach`, `IsEmpty`, `IsNullOrEmpty`, `None()`, `None(predicate)`, and the
  key-sort `Shuffle`.
- The Fisher–Yates shuffle that the benchmark project sets against the key
  sort (Knuth's Algorithm P, *The Art of Computer Programming*, Vol. 2,
  section 3.4.2).
- The unit tests' adapter `ToEnumerable`. The test expectations are then
  stated as lemmas and methods against the model.

Modules:

- `Runtime` (runtime.dfy) holds the .NET notions everything uses:
  - A reference that may be null (`Arg`).
  - `ArgumentNullException` with its `ParamName` (`Result.ArgumentNull`).
  - The runtime shape of a finite `IEnumerable<T>` (`Enumerable`).
    - `Collection` is a source that implements `ICollection<T>` (an array, a `List<T>`).
    - `Deferred` is any other enumerable (an iterator block, a query).
- `Linq` (linq.dfy) holds the framework operators the helpers are written with:
  - `Any()` and `Any(predicate)`, with their argument checks.
  - `OrderBy(keySelector).ToList()`, modelled as a stable insertion sort on elements tagged with key and source position.
  - OrderBy's result is proved to be the one stably ordered permutation of the tagged input.
- `IEnumerableExtensions` (extensions.dfy) holds the helpers.
  - `ForEach` is a method with a loop. The `Action<T>` is a state transformer, and `Run` specifies the state after each element has been acted on in order.
  - The other helpers are functions.
  - `Shuffle` takes the keys the GUID generator would have produced as a parameter.
- `ShuffleBenchmarks` (shuffle_benchmarks.dfy) holds `ShuffleFisherYates`.
  - It is a method that copies the source into a fresh array and swaps in place in a descending loop.
  - `Random.Shared.Next(i + 1)` is replaced by the sequence of values it returns (`draws`).
  - The method is proved against the functions `Steps`, the buffer after k iterations, and `FisherYates`, the buffer after the last one, which is returned.
  - Lemmas prove that this buffer is a permutation, that positions already passed are final, and that distinct draw sequences give distinct orderings of distinct elements.
- `IEnumerableTestHelper` (test_helper.dfy) holds `ToEnumerable` and the test scenarios.

A null argument is reported as `ArgumentNull(name)` where the code or the
framework throws `ArgumentNullException(name)`. Absent sources and the
absent action or predicate are accepted as inputs, never excluded by a
precondition. Sources are finite sequence values. The caller's sequence is
therefore untouched by `Shuffle` by construction. `ShuffleFisherYates`
takes its source as an array and has no `modifies` clause, so Dafny checks
that it writes only the copy it allocates.

ToEnumerableTests.cs:8-15 expects an `IEnumerableExtensions.ToEnumerable`
that throws on null. The only `ToEnumerable` in the code, the test helper at
IEnumerableTestHelper.cs:8-19, yields nothing for a null source instead, and
the model follows the helper. The benchmark sets the library's key-sort
`Shuffle` against a Fisher–Yates shuffle; the model has both, each as the
code writes it.

## Model

| member | source | states |
|---|---|---|
| Linq.Exists | src/Wolfgang.Extensions.IEnumerable/IEnumerableExtensions.cs:124-125 | the enumeration inside `Any(predicate)` answers true exactly when some element satisfies the predicate |
| Linq.Any | src/Wolfgang.Extensions.IEnumerable/IEnumerableExtensions.cs:60 | a null source, and only a null source, fails with "source"; otherwise the answer is whether the source has an element |
| Linq.AnyWhere | src/Wolfgang.Extensions.IEnumerable/IEnumerableExtensions.cs:124-125 | "source" is checked before "predicate"; with both present the answer is whether some element satisfies the predicate |
| Linq.Tag | src/Wolfgang.Extensions.IEnumerable/IEnumerableExtensions.cs:138 | the key selector is called once per element, in source order: element i is paired with the i-th drawn key and its position i |
| Linq.Items | src/Wolfgang.Extensions.IEnumerable/IEnumerableExtensions.cs:137-139 | `ToList()` keeps the sorted elements, one per tagged element, in the sorted order |
| Linq.Insert | src/Wolfgang.Extensions.IEnumerable/IEnumerableExtensions.cs:137-139 | inserting a tagged element lengthens the list by one and adds exactly that element |
| Linq.SortByKey | src/Wolfgang.Extensions.IEnumerable/IEnumerableExtensions.cs:137-139 | the sort keeps the length and the multiset of the tagged elements |
| Linq.OrderBy | src/Wolfgang.Extensions.IEnumerable/IEnumerableExtensions.cs:137-139 | a null source fails with "source"; otherwise the list has the source's length and exactly its elements |
| Linq.ItemsOfInsert | src/Wolfgang.Extensions.IEnumerable/IEnumerableExtensions.cs:137-139 | inserting a tagged element adds exactly its element to the untagged elements |
| Linq.ItemsOfSort | src/Wolfgang.Extensions.IEnumerable/IEnumerableExtensions.cs:137-139 | sorting by key only reorders the source's elements |
| Linq.InsertKeepsOrder | src/Wolfgang.Extensions.IEnumerable/IEnumerableExtensions.cs:137-139 | inserting an element from an earlier source position keeps a list ordered by key, then by position |
| Linq.SortIsStable | src/Wolfgang.Extensions.IEnumerable/IEnumerableExtensions.cs:137-139 | the sort orders by key and keeps source order among equal keys |
| Linq.StableOrderIsUnique | src/Wolfgang.Extensions.IEnumerable/IEnumerableExtensions.cs:137-139 | two stably ordered lists with the same elements are equal, so stability determines OrderBy's result |
| Linq.OrderByIsStableSort | src/Wolfgang.Extensions.IEnumerable/IEnumerableExtensions.cs:137-139 | OrderBy returns the elements of a stably ordered permutation of the tagged source, whatever the source's runtime type |
| IEnumerableExtensions.ForEach | src/Wolfgang.Extensions.IEnumerable/IEnumerableExtensions.cs:20-36 | a null source fails with "source" before the action is checked; a null action fails with "action"; otherwise the action is applied once per element, in source order |
| IEnumerableExtensions.Run | src/Wolfgang.Extensions.IEnumerable/IEnumerableExtensions.cs:32-35 | the state the `foreach` leaves: the action applied to each element, first to last; ForEach is proved against it |
| IEnumerableExtensions.Appending | tests/Wolfgang.Extensions.IEnumerable.Tests.Unit/ForEachTests.cs:32 | the test action `i => result.Add(i * 2)`, as a function that appends `g(x)` to the list it is given |
| IEnumerableExtensions.RunConcat | src/Wolfgang.Extensions.IEnumerable/IEnumerableExtensions.cs:32-35 | acting on a concatenation acts on the first part, then on the second: nothing is skipped, repeated or reordered |
| IEnumerableExtensions.RunAppending | src/Wolfgang.Extensions.IEnumerable/IEnumerableExtensions.cs:32-35 | an action that appends `g(x)` to a list adds one entry per element, `g` of the i-th element at the i-th new place, and keeps what was there |
| IEnumerableExtensions.CallLogIsSource | src/Wolfgang.Extensions.IEnumerable/IEnumerableExtensions.cs:32-35 | an action that logs its argument logs exactly the source, in order |
| IEnumerableExtensions.IsEmpty | src/Wolfgang.Extensions.IEnumerable/IEnumerableExtensions.cs:48-61 | a null source fails with "source"; otherwise the answer is true exactly when the source has no elements |
| IEnumerableExtensions.IsNullOrEmpty | src/Wolfgang.Extensions.IEnumerable/IEnumerableExtensions.cs:73-76 | never fails; true exactly when the source is null or empty, and equal to IsEmpty on a present source |
| IEnumerableExtensions.None | src/Wolfgang.Extensions.IEnumerable/IEnumerableExtensions.cs:100-101 | a null source fails with "source"; otherwise true exactly when the source is empty |
| IEnumerableExtensions.NoneWhere | src/Wolfgang.Extensions.IEnumerable/IEnumerableExtensions.cs:124-125 | "source" is checked before "predicate"; otherwise true exactly when no element satisfies the predicate |
| IEnumerableExtensions.IsEmptyBranchesAgree | src/Wolfgang.Extensions.IEnumerable/IEnumerableExtensions.cs:55-60 | the `Count == 0` branch and the `!Any()` branch give the same answer on the same elements |
| IEnumerableExtensions.NoneIsIsEmpty | src/Wolfgang.Extensions.IEnumerable/IEnumerableExtensions.cs:100-101 | `None()` equals `IsEmpty()` on every source, null included |
| IEnumerableExtensions.NoneWhereAcceptAllIsNone | src/Wolfgang.Extensions.IEnumerable/IEnumerableExtensions.cs:124-125 | `None(predicate)` with a predicate that accepts everything equals `None()` |
| IEnumerableExtensions.Shuffle | src/Wolfgang.Extensions.IEnumerable/IEnumerableExtensions.cs:136-139 | a null source fails with "source"; otherwise the result is a materialised list with the source's length and exactly its elements |
| IEnumerableExtensions.ShuffleKeepsEveryElement | src/Wolfgang.Extensions.IEnumerable/IEnumerableExtensions.cs:136-139 | every element of the source is in the shuffled list |
| IEnumerableExtensions.ShuffleIsStableSortByKeys | src/Wolfgang.Extensions.IEnumerable/IEnumerableExtensions.cs:137-139 | the shuffled list is the element sequence of any permutation of the source ordered by the drawn keys, with equal keys in source order |
| IEnumerableExtensions.ShuffleWithOrderedKeysKeepsOrder | src/Wolfgang.Extensions.IEnumerable/IEnumerableExtensions.cs:137-139 | with non-decreasing keys the source order comes back, so the identity is a legal outcome |
| ShuffleBenchmarks.ShuffleFisherYates | benchmarks/Wolfgang.Extensions.IEnumerable.Benchmarks/ShuffleBenchmarks.cs:53-71 | a null source fails with "source" before copying; otherwise every index is in bounds, the result is the buffer after all swaps and a permutation of the source, and the loop keeps the passed suffix final |
| ShuffleBenchmarks.Swap | benchmarks/Wolfgang.Extensions.IEnumerable.Benchmarks/ShuffleBenchmarks.cs:67 | the tuple swap: positions i and j exchange their elements and every other position keeps its element |
| ShuffleBenchmarks.Steps | benchmarks/Wolfgang.Extensions.IEnumerable.Benchmarks/ShuffleBenchmarks.cs:64-67 | the buffer after k iterations of the loop: iteration k swaps index Count - 1 - k with the k-th draw; the length never changes |
| ShuffleBenchmarks.FisherYates | benchmarks/Wolfgang.Extensions.IEnumerable.Benchmarks/ShuffleBenchmarks.cs:60-70 | the list returned, the buffer after the last iteration, has the source's length and exactly its elements |
| ShuffleBenchmarks.SwapPermutes | benchmarks/Wolfgang.Extensions.IEnumerable.Benchmarks/ShuffleBenchmarks.cs:67 | a tuple swap keeps the multiset of the list |
| ShuffleBenchmarks.StepsPermute | benchmarks/Wolfgang.Extensions.IEnumerable.Benchmarks/ShuffleBenchmarks.cs:64-67 | after any number of iterations the buffer is a permutation of the source |
| ShuffleBenchmarks.FrozenSuffix | benchmarks/Wolfgang.Extensions.IEnumerable.Benchmarks/ShuffleBenchmarks.cs:64-67 | a position the loop has passed is not written by any later iteration |
| ShuffleBenchmarks.SuffixIsFinal | benchmarks/Wolfgang.Extensions.IEnumerable.Benchmarks/ShuffleBenchmarks.cs:64-67 | after k iterations the last k positions already hold the returned values |
| ShuffleBenchmarks.ShortListsUnchanged | benchmarks/Wolfgang.Extensions.IEnumerable.Benchmarks/ShuffleBenchmarks.cs:64 | lists of zero or one element come back unchanged |
| ShuffleBenchmarks.StepsKeepDistinct | benchmarks/Wolfgang.Extensions.IEnumerable.Benchmarks/ShuffleBenchmarks.cs:64-67 | the swaps keep the elements of a list of distinct elements distinct |
| ShuffleBenchmarks.StepsDependOnPrefix | benchmarks/Wolfgang.Extensions.IEnumerable.Benchmarks/ShuffleBenchmarks.cs:64-66 | the buffer after k iterations depends only on the first k draws |
| ShuffleBenchmarks.DistinctDrawsGiveDistinctShuffles | benchmarks/Wolfgang.Extensions.IEnumerable.Benchmarks/ShuffleBenchmarks.cs:50-67 | on distinct elements, different draw sequences give different results, so each draw sequence yields its own ordering |
| IEnumerableTestHelper.ToEnumerable | tests/Wolfgang.Extensions.IEnumerable.Tests.Unit/IEnumerableTestHelper.cs:8-19 | never fails; a null source yields nothing, a present one its elements in order, behind a non-collection enumerable |
| IEnumerableTestHelper.ToEnumerableIsIdempotent | tests/Wolfgang.Extensions.IEnumerable.Tests.Unit/IEnumerableTestHelper.cs:15-18 | wrapping twice equals wrapping once, and the length is the source's |
| IEnumerableTestHelper.WrappedNullIsEmpty | tests/Wolfgang.Extensions.IEnumerable.Tests.Unit/IsNullOrEmptyTests.cs:8-13 | a wrapped null source counts as empty for IsNullOrEmpty, IsEmpty and None |
| IEnumerableTestHelper.WrappingPreservesQueries | tests/Wolfgang.Extensions.IEnumerable.Tests.Unit/IEnumerableTestHelper.cs:15-18 | IsEmpty, IsNullOrEmpty, None and None(predicate) answer the same with or without the wrapper |
| IEnumerableTestHelper.ForEachAppendsDoubles | tests/Wolfgang.Extensions.IEnumerable.Tests.Unit/ForEachTests.cs:26-46 | appending `i * 2` over {1, ..., 5} gives {2, 4, 6, 8, 10}, and over an empty source gives nothing |
| IEnumerableTestHelper.ForEachReportsNullArguments | tests/Wolfgang.Extensions.IEnumerable.Tests.Unit/ForEachTests.cs:6-22 | a null source with a present action is reported as "source", and so it is when the action is null too; a null action on a present source as "action" |
| IEnumerableTestHelper.ForEachIgnoresWrapper | tests/Wolfgang.Extensions.IEnumerable.Tests.Unit/ForEachTests.cs:26-35 | ForEach over the wrapped source gives what ForEach over the source gives: the same errors, and the action applied to the same elements in the same order |
| IEnumerableTestHelper.NoneScenarios | tests/Wolfgang.Extensions.IEnumerable.Tests.Unit/NoneTests.cs:7-86 | the None tests on integer sources: the null cases and the true/false answers for `n % 3 == 0` |
| IEnumerableTestHelper.ShuffleScenario | tests/Wolfgang.Extensions.IEnumerable.Tests.Unit/ShuffleTests.cs:19-33 | whatever keys are drawn, shuffling {0, ..., 9} gives ten elements containing each of 0 to 9 |
| IEnumerableTestHelper.IsEmptyAndShuffleScenarios | tests/Wolfgang.Extensions.IEnumerable.Tests.Unit/IsEmptyTest.cs:7-33 | IsEmpty fails on null and answers the empty and non-empty arrays; Shuffle fails on null with "source" |

## Left out

- Randomness. `Guid.NewGuid()` and `Random.Shared.Next` become parameters: `keys` for `Shuffle` and `draws` for `ShuffleFisherYates`. Uniformity and GUID collisions are not modelled.
- IEnumerableExtensions.Shuffle: GUID keys are modelled as integers. Only their order matters to `OrderBy`.
- ShuffleBenchmarks.DistinctDrawsGiveDistinctShuffles: proves that different draw sequences give different orderings, not that the n! draw sequences cover all n! orderings by counting.
- The probabilistic assertion that a shuffle differs from its source (ShuffleTests.cs:26). The identity permutation is a legal outcome; see `ShuffleWithOrderedKeysKeepsOrder`.
- Lazy and deferred enumeration. Iterator blocks, re-enumeration and side effects of enumerating a source are out of scope; every source is a finite sequence value.
- The deferred-execution, multi-pass and type-hiding tests of ToEnumerableTests.cs are not modelled, for the same reason.
- The `ToEnumerable` called in ToEnumerableTests.cs, which throws on null. It belongs to a class that is not part of this model, and the throwing behaviour is not attributed to any modelled function.
- IEnumerableExtensions.ForEach: the action is a pure state transformer. An action that throws, or that changes the source while it is enumerated, is not modelled.
- ShuffleBenchmarks.ShuffleFisherYates: the source is an array, standing for a materialised `IEnumerable<T>`. The result is the contents of the list, not the `List<T>` object.
- `List<T>.ForEach`, which a `List<T>` receiver binds to instead of the extension (ForEachTests.cs:50-58). It is framework code.
- The benchmark harness: BenchmarkDotNet attributes, `Setup`, the `*_Small`/`*_Medium`/`*_Large` methods and `Consumer`. It is measurement plumbing only.
- Object-valued test data (the `Balloon` class of NoneTests.cs). The same None scenarios are stated on integers, and `None(predicate)` is proved for every element type.
- C#'s `%` truncates toward zero where Dafny's is Euclidean. The scenario predicate `n % 3 == 0` is applied only to positive numbers, where the two agree.
