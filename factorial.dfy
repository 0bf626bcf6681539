/**
 * The factorial closure and the quotient n! / (k! (n-k)!) that both the math
 * crate and the top-level crate compute, on `u64` with every overflow made
 * explicit, together with the reference definitions they are proved against:
 * the factorial `Fact` and the binomial coefficient `Choose` given by
 * Pascal's rule.
 */
module Factorials {
  import opened Machine

  /** n!, the reference definition. */
  function Fact(n: nat): (r: nat)
    ensures r >= 1
  {
    if n == 0 then 1 else n * Fact(n - 1)
  }

  /**
   * The number of ways of choosing k elements of an n-element set, defined
   * by Pascal's rule: either the last element is chosen or it is not.
   */
  function Choose(n: nat, k: nat): nat
  {
    if k == 0 then 1
    else if n == 0 then 0
    else Choose(n - 1, k - 1) + Choose(n - 1, k)
  }

  /**
   * `(i..=x).fold(acc, |prev, j| prev * j)` on `u64`: each step multiplies the
   * accumulator by the next element of the range, and a step whose product
   * leaves `u64` panics.
   */
  function FoldProduct(i: nat, x: U64, acc: U64): Option<U64>
    decreases x + 1 - i
  {
    if i > x then Some(acc)
    else
      match CheckedMul(acc, i)
      case None => None
      case Some(p) => FoldProduct(i + 1, x, p)
  }

  /** The closure `|x| (1..=x).fold(1, |prev, x| prev * x)`. */
  function Factorial(x: U64): Option<U64>
  {
    FoldProduct(1, x, 1)
  }

  /**
   * `factorial(n) / (factorial(k) * factorial(n - k))`, evaluated in Rust's
   * order; any panic along the way (an overflowing factorial, the `u64`
   * subtraction `n - k` when k > n, the product, a division by zero) makes
   * the whole expression `None`.
   */
  function FactorialQuotient(n: U64, k: U64): Option<U64>
  {
    match Factorial(n)
    case None => None
    case Some(factN) =>
      (match Factorial(k)
       case None => None
       case Some(factK) =>
         (match CheckedSub(n, k)
          case None => None
          case Some(rest) =>
            (match Factorial(rest)
             case None => None
             case Some(factRest) =>
               (match CheckedMul(factK, factRest)
                case None => None
                case Some(denominator) => CheckedDiv(factN, denominator)))))
  }

  // ----- the factorial -----

  lemma {:induction false} FactMonotone(a: nat, b: nat)
    requires a <= b
    ensures Fact(a) <= Fact(b)
    decreases b - a
  {
    if a < b {
      FactMonotone(a, b - 1);
      assert Fact(b) == b * Fact(b - 1);
    }
  }

  /**
   * Started at i with the accumulator holding (i-1)!, the checked fold ends
   * with x! exactly when x! fits in `u64`, and panics otherwise.
   */
  lemma {:induction false} FoldProductIsFact(i: nat, x: U64)
    requires 1 <= i <= x + 1
    requires Fact(i - 1) < TWO_TO_THE_64
    ensures FoldProduct(i, x, Fact(i - 1))
            == if Fact(x) < TWO_TO_THE_64 then Some(Fact(x)) else None
    decreases x + 1 - i
  {
    if i <= x {
      assert Fact(i) == Fact(i - 1) * i;
      if Fact(i) < TWO_TO_THE_64 {
        FoldProductIsFact(i + 1, x);
      } else {
        FactMonotone(i, x);
      }
    }
  }

  /** The closure computes the factorial, and panics exactly when it overflows. */
  lemma FactorialIsFact(x: U64)
    ensures Factorial(x) == if Fact(x) < TWO_TO_THE_64 then Some(Fact(x)) else None
  {
    FoldProductIsFact(1, x);
  }

  /** 20! and 21! written out. */
  lemma FactTwentyAndTwentyOne()
    ensures Fact(20) == 2432902008176640000
    ensures Fact(21) == 51090942171709440000
  {
    assert Fact(1) == 1;
    assert Fact(2) == 2;
    assert Fact(3) == 6;
    assert Fact(4) == 24;
    assert Fact(5) == 120;
    assert Fact(6) == 720;
    assert Fact(7) == 5040;
    assert Fact(8) == 40320;
    assert Fact(9) == 362880;
    assert Fact(10) == 3628800;
    assert Fact(11) == 39916800;
    assert Fact(12) == 479001600;
    assert Fact(13) == 6227020800;
    assert Fact(14) == 87178291200;
    assert Fact(15) == 1307674368000;
    assert Fact(16) == 20922789888000;
    assert Fact(17) == 355687428096000;
    assert Fact(18) == 6402373705728000;
    assert Fact(19) == 121645100408832000;
  }

  /** 20 is the largest argument whose factorial fits in `u64`. */
  lemma FactFitsU64(x: nat)
    ensures Fact(x) < TWO_TO_THE_64 <==> x <= 20
  {
    FactTwentyAndTwentyOne();
    if x <= 20 {
      FactMonotone(x, 20);
    } else {
      FactMonotone(21, x);
    }
  }

  // ----- the binomial coefficient -----

  lemma {:induction false} ChooseAbove(n: nat, k: nat)
    requires n < k
    ensures Choose(n, k) == 0
  {
    if n > 0 {
      ChooseAbove(n - 1, k - 1);
      ChooseAbove(n - 1, k);
    }
  }

  lemma {:induction false} ChooseDiagonal(n: nat)
    ensures Choose(n, n) == 1
  {
    if n > 0 {
      ChooseDiagonal(n - 1);
      ChooseAbove(n - 1, n);
    }
  }

  lemma {:induction false} ChoosePositive(n: nat, k: nat)
    requires k <= n
    ensures Choose(n, k) >= 1
  {
    if k > 0 {
      ChoosePositive(n - 1, k - 1);
    }
  }

  /** k! (n-k)! C(n, k) = n!: the counting definition meets the factorial formula. */
  lemma {:induction false} ChooseTimesFactorials(n: nat, k: nat)
    requires k <= n
    ensures Choose(n, k) * (Fact(k) * Fact(n - k)) == Fact(n)
  {
    if k == 0 {
    } else if k == n {
      ChooseDiagonal(n);
    } else {
      ChooseTimesFactorials(n - 1, k - 1);
      ChooseTimesFactorials(n - 1, k);
      assert n - 1 - (k - 1) == n - k;
      assert Fact(k) == k * Fact(k - 1);
      assert Fact(n - k) == (n - k) * Fact(n - 1 - k);
      assert Fact(n) == n * Fact(n - 1);
      PascalStep(Choose(n - 1, k - 1), Choose(n - 1, k), k, n - k,
                 Fact(k - 1), Fact(n - 1 - k), Fact(n - 1));
    }
  }

  /**
   * The arithmetic step of the induction above, with fk = (k-1)!,
   * fr = (m-1)! and f = (k+m-1)!: from the two smaller instances
   * a (k-1)! m! = f and b k! (m-1)! = f it follows that (a+b) k! m! = (k+m) f.
   */
  lemma PascalStep(a: nat, b: nat, k: nat, m: nat, fk: nat, fr: nat, f: nat)
    requires a * (fk * (m * fr)) == f
    requires b * ((k * fk) * fr) == f
    ensures (a + b) * ((k * fk) * (m * fr)) == (k + m) * f
  {
    var x := (k * fk) * (m * fr);
    assert (a + b) * x == a * x + b * x;
    assert a * x == k * (a * (fk * (m * fr))) by {
      assert x == k * (fk * (m * fr));
    }
    assert b * x == m * (b * ((k * fk) * fr)) by {
      assert x == m * ((k * fk) * fr);
    }
  }

  /** k! (n-k)! divides n! exactly, and the quotient is C(n, k). */
  lemma DivisionIsExact(n: nat, k: nat)
    requires k <= n
    ensures Fact(n) % (Fact(k) * Fact(n - k)) == 0
    ensures Fact(n) / (Fact(k) * Fact(n - k)) == Choose(n, k)
  {
    ChooseTimesFactorials(n, k);
    DivideProduct(Choose(n, k), Fact(k) * Fact(n - k));
  }

  lemma DivideProduct(c: nat, d: nat)
    requires d > 0
    ensures (c * d) % d == 0 && (c * d) / d == c
  {
    var q, r := (c * d) / d, (c * d) % d;
    assert c * d == q * d + r && 0 <= r < d;
    assert (c - q) * d == r;
    if c > q {
      AtLeastDivisor(c - q, d);
    } else if c < q {
      AtLeastDivisor(q - c, d);
    }
  }

  lemma AtLeastDivisor(m: int, d: nat)
    requires m >= 1
    ensures m * d >= d
  {
  }

  /** For k <= n, the denominator k! (n-k)! is at most n!. */
  lemma DenominatorAtMostFact(n: nat, k: nat)
    requires k <= n
    ensures Fact(k) * Fact(n - k) <= Fact(n)
  {
    ChooseTimesFactorials(n, k);
    ChoosePositive(n, k);
    AtMostMultiple(Choose(n, k), Fact(k) * Fact(n - k));
  }

  lemma AtMostMultiple(c: nat, d: nat)
    requires c >= 1
    ensures d <= c * d
  {
  }

  /** C(n, k) = C(n, n-k). */
  lemma ChooseSymmetric(n: nat, k: nat)
    requires k <= n
    ensures Choose(n, k) == Choose(n, n - k)
  {
    ChooseTimesFactorials(n, k);
    ChooseTimesFactorials(n, n - k);
    assert n - (n - k) == k;
    var d := Fact(k) * Fact(n - k);
    assert Fact(n - k) * Fact(k) == d;
    CancelFactor(Choose(n, k), Choose(n, n - k), d);
  }

  lemma CancelFactor(c1: nat, c2: nat, d: nat)
    requires d > 0 && c1 * d == c2 * d
    ensures c1 == c2
  {
    DivideProduct(c1, d);
    DivideProduct(c2, d);
  }

  /** The values the documentation of both crates quotes. */
  lemma ChooseDocExamples()
    ensures Choose(4, 3) == 4
    ensures Choose(5, 3) == 10
    ensures Choose(9, 4) == 126
  {
    assert Fact(1) == 1 && Fact(2) == 2 && Fact(3) == 6 && Fact(4) == 24;
    assert Fact(5) == 120 && Fact(6) == 720 && Fact(7) == 5040;
    assert Fact(8) == 40320 && Fact(9) == 362880;
    ChooseTimesFactorials(4, 3);
    ChooseTimesFactorials(5, 3);
    ChooseTimesFactorials(9, 4);
  }

  /**
   * The shared quotient succeeds exactly when k <= n <= 20, and then it is
   * C(n, k); in particular every intermediate value fits in `u64`.
   */
  lemma FactorialQuotientIsChoose(n: U64, k: U64)
    ensures FactorialQuotient(n, k) == if k <= n <= 20 then Some(Choose(n, k)) else None
  {
    FactorialIsFact(n);
    FactFitsU64(n);
    if n <= 20 {
      FactorialIsFact(k);
      FactFitsU64(k);
      if k <= n {
        QuotientInRange(n, k);
      }
    }
  }

  lemma QuotientInRange(n: U64, k: U64)
    requires k <= n <= 20
    ensures FactorialQuotient(n, k) == Some(Choose(n, k))
  {
    FactorialInRange(n);
    FactorialInRange(k);
    FactorialInRange(n - k);
    DenominatorAtMostFact(n, k);
    ChooseTimesFactorials(n, k);
    QuotientOfValues(n, k, Fact(n), Fact(k), Fact(n - k), Choose(n, k));
  }

  lemma FactorialInRange(x: U64)
    requires x <= 20
    ensures Fact(x) < TWO_TO_THE_64 && Factorial(x) == Some(Fact(x))
  {
    FactFitsU64(x);
    FactorialIsFact(x);
  }

  /**
   * The quotient's steps on given values: when the three factorials come out
   * as fn, fk and fr, and c (fk fr) = fn with fk fr <= fn, the result is c.
   */
  lemma QuotientOfValues(n: U64, k: U64, fn: U64, fk: U64, fr: U64, c: nat)
    requires k <= n
    requires Factorial(n) == Some(fn) && Factorial(k) == Some(fk) && Factorial(n - k) == Some(fr)
    requires fk >= 1 && fr >= 1 && fk * fr <= fn && c * (fk * fr) == fn
    ensures FactorialQuotient(n, k) == Some(c)
  {
    var d := fk * fr;
    assert CheckedMul(fk, fr) == Some(d);
    AtLeastDivisor(fk, fr);
    DivideProduct(c, d);
  }
}
