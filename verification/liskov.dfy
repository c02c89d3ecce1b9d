/**
 * The Liskov-substitution example: `isEven`, `isOdd` and
 * `printFiltered(arr, filterFunc)`, which logs, in array order, every
 * element the filter accepts.  The logged lines are modelled as the
 * returned sequence of numbers; numbers are integers.
 */
module Liskov {
  import opened JsNumber

  /** `isEven = x => x % 2 == 0` with JavaScript's truncated `%`. */
  predicate IsEven(x: int)
    ensures IsEven(x) <==> x % 2 == 0
  {
    JsRem(x, 2) == 0
  }

  /**
   * `isOdd = x => x % 2 == 1` with JavaScript's truncated `%`: a negative odd
   * number leaves remainder -1, so only the non-negative odd numbers pass.
   */
  predicate IsOdd(x: int)
    ensures IsOdd(x) <==> x >= 0 && x % 2 == 1
  {
    JsRem(x, 2) == 1
  }

  /** On non-negative numbers exactly one of the two predicates holds. */
  lemma ParityComplementNonNegative(x: int)
    requires x >= 0
    ensures IsEven(x) != IsOdd(x)
  {
  }

  /** A negative odd number satisfies neither predicate. */
  lemma NegativeOddIsNeither(x: int)
    requires x < 0 && x % 2 == 1
    ensures JsRem(x, 2) == -1
    ensures !IsEven(x) && !IsOdd(x)
  {
  }

  /** The concrete witness: `isEven(-3)` and `isOdd(-3)` are both false. */
  lemma MinusThreeIsNeither()
    ensures !IsEven(-3) && !IsOdd(-3)
  {
    NegativeOddIsNeither(-3);
  }

  /** `printFiltered([-3], isEven)` and `printFiltered([-3], isOdd)` both log nothing. */
  lemma MinusThreeDropped()
    ensures Filtered([-3], IsEven) == [] && Filtered([-3], IsOdd) == []
  {
    MinusThreeIsNeither();
  }

  /** `isOdd` as evidently intended: any non-zero remainder is odd. */
  predicate IsOddCorrected(x: int)
    ensures IsOddCorrected(x) <==> x % 2 == 1
  {
    JsRem(x, 2) != 0
  }

  /** The corrected predicate is the exact complement of `isEven`. */
  lemma CorrectedParityComplement(x: int)
    ensures IsEven(x) != IsOddCorrected(x)
  {
  }

  /** The corrected predicate agrees with `isOdd` on non-negative numbers. */
  lemma CorrectedAgreesNonNegative(x: int)
    requires x >= 0
    ensures IsOddCorrected(x) == IsOdd(x)
  {
  }

  /**
   * Reference definition of what `printFiltered` logs: the elements of `arr`
   * that `keep` accepts, in their original order and multiplicity.
   */
  function Filtered(arr: seq<int>, keep: int -> bool): (out: seq<int>)
    ensures |out| <= |arr|
    ensures forall i :: 0 <= i < |out| ==> keep(out[i])
    decreases |arr|
  {
    if arr == [] then []
    else
      var rest := Filtered(arr[1..], keep);
      if keep(arr[0]) then [arr[0]] + rest else rest
  }

  /**
   * Exactly the accepted elements are logged, each as often as it occurs:
   * nothing accepted is lost and nothing rejected appears.
   */
  lemma {:induction false} FilteredCounts(arr: seq<int>, keep: int -> bool)
    ensures forall x :: multiset(Filtered(arr, keep))[x] == if keep(x) then multiset(arr)[x] else 0
    decreases |arr|
  {
    if arr != [] {
      FilteredCounts(arr[1..], keep);
      assert arr == [arr[0]] + arr[1..];
    }
  }

  /** Filtering distributes over concatenation, which is what keeps the order. */
  lemma {:induction false} FilteredAppend(a: seq<int>, b: seq<int>, keep: int -> bool)
    ensures Filtered(a + b, keep) == Filtered(a, keep) + Filtered(b, keep)
    decreases |a|
  {
    if a == [] {
      assert a + b == b;
    } else {
      assert (a + b)[1..] == a[1..] + b;
      FilteredAppend(a[1..], b, keep);
    }
  }

  /** A one-element array logs its element exactly when the filter accepts it. */
  lemma FilteredSingleton(x: int, keep: int -> bool)
    ensures Filtered([x], keep) == if keep(x) then [x] else []
  {
  }

  /** A filter and its negation split the array between them. */
  lemma {:induction false} FilteredPartition(arr: seq<int>, keep: int -> bool)
    ensures multiset(Filtered(arr, keep)) + multiset(Filtered(arr, x => !keep(x))) == multiset(arr)
  {
    var drop := x => !keep(x);
    FilteredCounts(arr, keep);
    FilteredCounts(arr, drop);
    var both := multiset(Filtered(arr, keep)) + multiset(Filtered(arr, drop));
    forall x
      ensures both[x] == multiset(arr)[x]
    {
      assert drop(x) == !keep(x);
    }
    assert both == multiset(arr);
  }

  /** `printFiltered(arr, filterFunc)`: the `forEach` loop, logging into `logged`. */
  method PrintFiltered(arr: seq<int>, filterFunc: int -> bool) returns (logged: seq<int>)
    ensures logged == Filtered(arr, filterFunc)
    ensures forall i :: 0 <= i < |logged| ==> filterFunc(logged[i])
    ensures forall x :: multiset(logged)[x] == if filterFunc(x) then multiset(arr)[x] else 0
  {
    logged := [];
    var i := 0;
    while i < |arr|
      invariant 0 <= i <= |arr|
      invariant logged == Filtered(arr[..i], filterFunc)
    {
      var item := arr[i];
      FilteredAppend(arr[..i], [item], filterFunc);
      FilteredSingleton(item, filterFunc);
      assert arr[..i + 1] == arr[..i] + [item];
      if filterFunc(item) {
        logged := logged + [item];
      }
      i := i + 1;
    }
    assert arr[..i] == arr;
    FilteredCounts(arr, filterFunc);
  }

  /** On arrays of non-negative numbers, `isEven` and `isOdd` split the array. */
  lemma {:induction false} ParityPartitionNonNegative(arr: seq<int>)
    requires forall i :: 0 <= i < |arr| ==> arr[i] >= 0
    ensures multiset(Filtered(arr, IsEven)) + multiset(Filtered(arr, IsOdd)) == multiset(arr)
  {
    FilteredCounts(arr, IsEven);
    FilteredCounts(arr, IsOdd);
    var both := multiset(Filtered(arr, IsEven)) + multiset(Filtered(arr, IsOdd));
    forall x
      ensures both[x] == multiset(arr)[x]
    {
      if x in multiset(arr) {
        var k :| 0 <= k < |arr| && arr[k] == x;
        ParityComplementNonNegative(x);
      }
    }
    assert both == multiset(arr);
  }

  /** With the corrected `isOdd` the split holds for every array. */
  lemma {:induction false} CorrectedParityPartition(arr: seq<int>)
    ensures multiset(Filtered(arr, IsEven)) + multiset(Filtered(arr, IsOddCorrected)) == multiset(arr)
  {
    FilteredCounts(arr, IsEven);
    FilteredCounts(arr, IsOddCorrected);
    var both := multiset(Filtered(arr, IsEven)) + multiset(Filtered(arr, IsOddCorrected));
    forall x
      ensures both[x] == multiset(arr)[x]
    {
      CorrectedParityComplement(x);
    }
    assert both == multiset(arr);
  }

  /** The array of the sample calls. */
  const SampleArray: seq<int> := [1, 2, 3, 4, 5, 6]

  /** Filtering the sample array by `isEven`. */
  lemma SampleEvens()
    ensures Filtered(SampleArray, IsEven) == [2, 4, 6]
  {
  }

  /** Filtering the sample array by `isOdd`. */
  lemma SampleOdds()
    ensures Filtered(SampleArray, IsOdd) == [1, 3, 5]
  {
  }

  /** Together the two sample outputs hold every element of the sample array once. */
  lemma SamplePartition()
    ensures multiset(Filtered(SampleArray, IsEven)) + multiset(Filtered(SampleArray, IsOdd)) == multiset(SampleArray)
  {
    var evens := Filtered(SampleArray, IsEven);
    var odds := Filtered(SampleArray, IsOdd);
    SampleEvens();
    SampleOdds();
    SampleListsSplit();
    assert evens == [2, 4, 6];
    assert odds == [1, 3, 5];
  }

  /** `[2, 4, 6]` and `[1, 3, 5]` together hold each element of the sample array once. */
  lemma SampleListsSplit()
    ensures multiset([2, 4, 6]) + multiset([1, 3, 5]) == multiset(SampleArray)
  {
    assert multiset([2, 4, 6]) == multiset{2, 4, 6};
    assert multiset([1, 3, 5]) == multiset{1, 3, 5};
    assert multiset(SampleArray) == multiset{1, 2, 3, 4, 5, 6};
  }

  /**
   * The sample calls `printFiltered(array, isEven)` and
   * `printFiltered(array, isOdd)`: the even numbers, then the odd ones.
   */
  method SampleCalls() returns (evens: seq<int>, odds: seq<int>)
    ensures evens == [2, 4, 6]
    ensures odds == [1, 3, 5]
    ensures multiset(evens) + multiset(odds) == multiset(SampleArray)
  {
    SampleEvens();
    SampleOdds();
    evens := PrintFiltered(SampleArray, IsEven);
    odds := PrintFiltered(SampleArray, IsOdd);
    SamplePartition();
  }
}
