/**
 * The math crate: a binomial coefficient "n choose k" that is validated when
 * it is built and then evaluated with the factorial formula.
 */
module BinomialCoefficients {
  import opened Machine
  import opened Factorials

  /** Why `New` refused its arguments; each variant carries the offending values. */
  datatype CreationError =
    | NumberOfElementsInSetTooLarge(n: U64)
    | NoElementsInSet(n: U64)
    | ChosenLessThanZero(k: U64)
    | ChosenGreaterThanNumberOfElementsInSet(n: U64, k: U64)

  /** "n choose k"; the fields are private, so values come from `New`. */
  datatype BinomialCoefficient = BinomialCoefficient(n: U64, k: U64)

  datatype Result<+T, +E> = Ok(value: T) | Err(error: E)

  /** The constructor: checks n == 0, then n > 20, then k > n, in that order. */
  function New(n: U64, k: U64): Result<BinomialCoefficient, CreationError>
  {
    if n == 0 then Err(NoElementsInSet(n))
    else if n > 20 then Err(NumberOfElementsInSetTooLarge(n))
    else if k > n then Err(ChosenGreaterThanNumberOfElementsInSet(n, k))
    else Ok(BinomialCoefficient(n, k))
  }

  /** n! / (k! (n-k)!) with the fold-built factorial; `None` is a panic. */
  function GetNumUnorderedSubsets(b: BinomialCoefficient): Option<U64>
  {
    FactorialQuotient(b.n, b.k)
  }

  /** Each failed check reports its own variant, and the first failing check wins. */
  lemma NewErrors(n: U64, k: U64)
    ensures n == 0 ==> New(n, k) == Err(NoElementsInSet(n))
    ensures n > 20 ==> New(n, k) == Err(NumberOfElementsInSetTooLarge(n))
    ensures 1 <= n <= 20 && k > n ==> New(n, k) == Err(ChosenGreaterThanNumberOfElementsInSet(n, k))
    ensures New(0, 5) == Err(NoElementsInSet(0))
    ensures New(21, 30) == Err(NumberOfElementsInSetTooLarge(21))
  {
  }

  /** `New` succeeds exactly on 1 <= n <= 20 and k <= n, and keeps both arguments. */
  lemma NewSucceedsIff(n: U64, k: U64)
    ensures New(n, k).Ok? <==> 1 <= n <= 20 && k <= n
    ensures New(n, k).Ok? ==> New(n, k).value == BinomialCoefficient(n, k)
  {
  }

  /** The variant `ChosenLessThanZero` is declared but no input produces it. */
  lemma NewNeverChosenLessThanZero(n: U64, k: U64)
    ensures !(New(n, k).Err? && New(n, k).error.ChosenLessThanZero?)
  {
  }

  /**
   * On every value `New` builds, the computation does not panic: the three
   * factorials and the denominator k! (n-k)! fit in `u64`, the denominator
   * divides n! exactly, and the result is the binomial coefficient.
   */
  lemma NumUnorderedSubsetsIsChoose(n: U64, k: U64)
    requires New(n, k).Ok?
    ensures 1 <= n <= 20 && k <= n
    ensures Factorial(n) == Some(Fact(n))
    ensures Factorial(k) == Some(Fact(k))
    ensures Factorial(n - k) == Some(Fact(n - k))
    ensures Fact(k) * Fact(n - k) < TWO_TO_THE_64
    ensures Fact(n) % (Fact(k) * Fact(n - k)) == 0
    ensures GetNumUnorderedSubsets(New(n, k).value) == Some(Choose(n, k))
  {
    NewSucceedsIff(n, k);
    FactorialInRange(n);
    FactorialInRange(k);
    FactorialInRange(n - k);
    DenominatorAtMostFact(n, k);
    DivisionIsExact(n, k);
    QuotientInRange(n, k);
  }

  /** The examples of the documentation: 4 choose 3, 5 choose 3 and 9 choose 4. */
  lemma DocExamples()
    ensures New(4, 3) == Ok(BinomialCoefficient(4, 3))
    ensures New(5, 3) == Ok(BinomialCoefficient(5, 3))
    ensures New(9, 4) == Ok(BinomialCoefficient(9, 4))
    ensures GetNumUnorderedSubsets(BinomialCoefficient(4, 3)) == Some(4)
    ensures GetNumUnorderedSubsets(BinomialCoefficient(5, 3)) == Some(10)
    ensures GetNumUnorderedSubsets(BinomialCoefficient(9, 4)) == Some(126)
  {
    ChooseDocExamples();
    QuotientInRange(4, 3);
    QuotientInRange(5, 3);
    QuotientInRange(9, 4);
  }

  /** Choosing k is choosing the n-k left out. */
  lemma NumUnorderedSubsetsSymmetric(n: U64, k: U64)
    requires New(n, k).Ok?
    ensures New(n, n - k).Ok?
    ensures GetNumUnorderedSubsets(New(n, k).value) == GetNumUnorderedSubsets(New(n, n - k).value)
  {
    ChooseSymmetric(n, k);
    FactorialQuotientIsChoose(n, k);
    FactorialQuotientIsChoose(n, n - k);
  }

  /** Pascal's rule on the computed values: C(n, k) = C(n-1, k-1) + C(n-1, k). */
  lemma NumUnorderedSubsetsPascal(n: U64, k: U64)
    requires 1 <= k < n <= 20
    ensures New(n, k).Ok? && New(n - 1, k - 1).Ok? && New(n - 1, k).Ok?
    ensures GetNumUnorderedSubsets(New(n, k).value).Some?
    ensures GetNumUnorderedSubsets(New(n - 1, k - 1).value).Some?
    ensures GetNumUnorderedSubsets(New(n - 1, k).value).Some?
    ensures GetNumUnorderedSubsets(New(n, k).value).value
         == GetNumUnorderedSubsets(New(n - 1, k - 1).value).value
          + GetNumUnorderedSubsets(New(n - 1, k).value).value
  {
    FactorialQuotientIsChoose(n, k);
    FactorialQuotientIsChoose(n - 1, k - 1);
    FactorialQuotientIsChoose(n - 1, k);
  }
}
