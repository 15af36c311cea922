/** The Fisher–Yates shuffle of the shuffle benchmarks (Knuth's Algorithm P,
    The Art of Computer Programming, Vol. 2, section 3.4.2): copy the source
    into a new list, then for i from Count - 1 down to 1 swap positions i and
    j, where j is drawn from [0, i]. The random generator is replaced by the
    sequence of values it returns. */
module ShuffleBenchmarks {
  import opened Runtime

  /** `draws` are the values `rng.Next(i + 1)` returns, in the order the loop
      asks for them: draws[k] is drawn at index i = n - 1 - k, so it lies in
      [0, n - 1 - k], and a list of n elements consumes n - 1 of them (none
      when it is empty). */
  predicate ValidDraws(draws: seq<int>, n: nat) {
    && |draws| == (if n == 0 then 0 else n - 1)
    && forall k :: 0 <= k < |draws| ==> 0 <= draws[k] <= n - 1 - k
  }

  /** The tuple swap `(list[i], list[j]) = (list[j], list[i])`. */
  function Swap<T>(s: seq<T>, i: nat, j: nat): (r: seq<T>)
    requires i < |s| && j < |s|
    ensures |r| == |s|
    ensures r[i] == s[j] && r[j] == s[i]
    ensures forall p :: 0 <= p < |s| && p != i && p != j ==> r[p] == s[p]
  {
    seq(|s|, p requires 0 <= p < |s| => if p == i then s[j] else if p == j then s[i] else s[p])
  }

  /** The list after the first k iterations of the loop; iteration k (from 0)
      swaps index |s| - 1 - k with draws[k]. */
  function Steps<T>(s: seq<T>, draws: seq<int>, k: nat): (r: seq<T>)
    requires ValidDraws(draws, |s|) && k <= |draws|
    ensures |r| == |s|
  {
    if k == 0 then s else Swap(Steps(s, draws, k - 1), |s| - k, draws[k - 1])
  }

  /** The list the shuffle returns: the buffer after the last iteration, a
      permutation of the source. */
  function FisherYates<T>(s: seq<T>, draws: seq<int>): (r: seq<T>)
    requires ValidDraws(draws, |s|)
    ensures |r| == |s|
    ensures multiset(r) == multiset(s)
  {
    StepsPermute(s, draws, |draws|);
    Steps(s, draws, |draws|)
  }

  /** `ShuffleFisherYates(source)`. A null source fails before anything is
      copied; otherwise the loop swaps in place in a fresh copy (the List<T>
      that `ToList()` builds), which is returned. The method has no
      `modifies` clause: the caller's storage is never written. */
  method ShuffleFisherYates<T>(source: array?<T>, draws: seq<int>) returns (r: Result<Enumerable<T>>)
    requires source != null ==> ValidDraws(draws, source.Length)
    ensures source == null ==> r == ArgumentNull("source")
    ensures source != null ==> r.Ok? && r.value.Collection?
    ensures source != null ==> r.value.items == FisherYates(source[..], draws)
    ensures source != null ==> multiset(r.value.items) == multiset(source[..])
  {
    if source == null {
      return ArgumentNull("source");
    }
    var list := new T[source.Length](p requires 0 <= p < source.Length reads source => source[p]);
    ghost var s := source[..];
    assert list[..] == s;
    ghost var shuffled := FisherYates(s, draws);
    ghost var k: nat := 0;
    var n := list.Length;
    var i := n - 1;
    while i > 0
      invariant n == 0 ==> i == -1
      invariant n > 0 ==> 0 <= i < n
      invariant k == n - 1 - i
      invariant list[..] == Steps(s, draws, k)
      invariant forall p :: i < p < n ==> list[p] == shuffled[p]
    {
      ghost var before := list[..];
      var j := draws[n - 1 - i];
      list[i], list[j] := list[j], list[i];
      assert list[..] == Swap(before, i, j);
      k := k + 1;
      SuffixIsFinal(s, draws, k);
      i := i - 1;
    }
    return Ok(Collection(list[..]));
  }

  // ---------------------------------------------------------------------------
  // Lemmas

  /** A swap only reorders the list. */
  lemma SwapPermutes<T>(s: seq<T>, i: nat, j: nat)
    requires i < |s| && j < |s|
    ensures multiset(Swap(s, i, j)) == multiset(s)
  {
    var t := s[i := s[j]];
    assert Swap(s, i, j) == t[j := s[i]];
    assert multiset(t) == multiset(s) - multiset{s[i]} + multiset{s[j]};
    assert multiset(t[j := s[i]]) == multiset(t) - multiset{t[j]} + multiset{s[i]};
  }

  /** Every prefix of the loop only reorders the list: the buffer is always
      a permutation of the source. */
  lemma {:induction false} StepsPermute<T>(s: seq<T>, draws: seq<int>, k: nat)
    requires ValidDraws(draws, |s|) && k <= |draws|
    ensures multiset(Steps(s, draws, k)) == multiset(s)
  {
    if k > 0 {
      var before := Steps(s, draws, k - 1);
      StepsPermute(s, draws, k - 1);
      SwapPermutes(before, |s| - k, draws[k - 1]);
      assert Steps(s, draws, k) == Swap(before, |s| - k, draws[k - 1]);
    }
  }

  /** Once the loop has passed index i, nothing writes position i again: every
      later i' and every later draw is smaller than i. */
  lemma {:induction false} FrozenSuffix<T>(s: seq<T>, draws: seq<int>, k: nat, later: nat, p: nat)
    requires ValidDraws(draws, |s|)
    requires k <= later <= |draws|
    requires |s| - k <= p < |s|
    ensures Steps(s, draws, later)[p] == Steps(s, draws, k)[p]
    decreases later
  {
    if later > k {
      FrozenSuffix(s, draws, k, later - 1, p);
    }
  }

  /** The positions the first k iterations have passed already hold their
      final values. */
  lemma SuffixIsFinal<T>(s: seq<T>, draws: seq<int>, k: nat)
    requires ValidDraws(draws, |s|) && k <= |draws|
    ensures forall p :: |s| - k <= p < |s| ==> Steps(s, draws, k)[p] == FisherYates(s, draws)[p]
  {
    forall p | |s| - k <= p < |s| {
      FrozenSuffix(s, draws, k, |draws|, p);
    }
  }

  /** Lists of zero or one element come back unchanged: the loop guard
      `i > 0` never holds. */
  lemma ShortListsUnchanged<T>(s: seq<T>, draws: seq<int>)
    requires |s| <= 1
    requires ValidDraws(draws, |s|)
    ensures FisherYates(s, draws) == s
  {
  }

  ghost predicate Distinct<T>(s: seq<T>) {
    forall a, b :: 0 <= a < |s| && 0 <= b < |s| && a != b ==> s[a] != s[b]
  }

  lemma {:induction false} StepsKeepDistinct<T>(s: seq<T>, draws: seq<int>, k: nat)
    requires ValidDraws(draws, |s|) && k <= |draws|
    requires Distinct(s)
    ensures Distinct(Steps(s, draws, k))
  {
    if k > 0 {
      StepsKeepDistinct(s, draws, k - 1);
      var before := Steps(s, draws, k - 1);
      var i, j := |s| - k, draws[k - 1];
      var after := Swap(before, i, j);
      forall a, b | 0 <= a < |s| && 0 <= b < |s| && a != b ensures after[a] != after[b] {
        var a' := if a == i then j else if a == j then i else a;
        var b' := if b == i then j else if b == j then i else b;
        assert after[a] == before[a'] && after[b] == before[b'];
      }
    }
  }

  /** The list after k iterations depends only on the first k draws. */
  lemma {:induction false} StepsDependOnPrefix<T>(s: seq<T>, d1: seq<int>, d2: seq<int>, k: nat)
    requires ValidDraws(d1, |s|) && ValidDraws(d2, |s|)
    requires k <= |d1| && d1[..k] == d2[..k]
    ensures Steps(s, d1, k) == Steps(s, d2, k)
  {
    if k > 0 {
      assert d1[..k - 1] == d1[..k][..k - 1] && d2[..k - 1] == d2[..k][..k - 1];
      assert d1[k - 1] == d1[..k][k - 1] && d2[k - 1] == d2[..k][k - 1];
      StepsDependOnPrefix(s, d1, d2, k - 1);
    }
  }

  lemma {:induction false} FirstDifference(d1: seq<int>, d2: seq<int>) returns (k: nat)
    requires |d1| == |d2| && d1 != d2
    ensures k < |d1| && d1[k] != d2[k] && d1[..k] == d2[..k]
  {
    k := 0;
    while d1[k] == d2[k]
      invariant k < |d1|
      invariant d1[..k] == d2[..k]
      invariant exists m :: k <= m < |d1| && d1[m] != d2[m]
      decreases |d1| - k
    {
      assert d1[..k + 1] == d1[..k] + [d1[k]] && d2[..k + 1] == d2[..k] + [d2[k]];
      k := k + 1;
    }
  }

  /** Completeness: on a list of distinct elements, different draw
      sequences give different results, so each of the n! draw sequences the
      generator can produce yields its own ordering. */
  lemma DistinctDrawsGiveDistinctShuffles<T>(s: seq<T>, d1: seq<int>, d2: seq<int>)
    requires Distinct(s)
    requires ValidDraws(d1, |s|) && ValidDraws(d2, |s|)
    requires d1 != d2
    ensures FisherYates(s, d1) != FisherYates(s, d2)
  {
    var k := FirstDifference(d1, d2);
    StepsDependOnPrefix(s, d1, d2, k);
    StepsKeepDistinct(s, d1, k);
    var i := |s| - 1 - k;
    FrozenSuffix(s, d1, k + 1, |d1|, i);
    FrozenSuffix(s, d2, k + 1, |d2|, i);
    assert FisherYates(s, d1)[i] != FisherYates(s, d2)[i];
  }
}
