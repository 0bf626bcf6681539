# rusty-gists in Dafny

This project models three small pieces of the rusty-gists repository, written
in Rust, and proves properties about them:

- **The memoising cache** of the `my_cache` crate. `Cacher` wraps a
  computation of two `u64` arguments. It keeps a `HashMap<String, u64>` of
  earlier results, keyed by `n.to_string() + &k.to_string()`.
  - The Dafny class `MyCache.Cacher` keeps the same fields.
  - It also holds a ghost log of its requests and a ghost count of how often
    the computation ran. That count is the `count` of the documentation
    example.
  - Its invariant ties the real store to `MyCache.Replay` of the log.
    `Replay` is the reference definition of the store that serving the
    requests in order builds.
  - The key is not injective: (1, 23) and (12, 3) both become "123". The
    model keeps that behaviour exactly as written. The lemmas prove the
    collision, show that it is systematic, and show what it does to a
    client: the second request is served the first one's result.
- **The math crate's binomial coefficient.** This covers the validating
  constructor `new`, with its four-variant error enum, and
  `get_num_unordered_subsets`. The latter computes
  n! / (k! (n-k)!) with a factorial built from a fold.
- **The top-level crate's** `strlen` and `binom`. `binom` uses the same
  formula with no validation.

Machine arithmetic is modelled on `u64` (`Machine.U64`). Each operation that
panics in a debug build becomes `None` in `Machine.Option`:

- an overflowing multiplication;
- the subtraction `n - k` with k > n;
- a division by zero.

The factorial closure is modelled step by step as the checked fold
`Factorials.FoldProduct`. The factorial quotient `Factorials.FactorialQuotient`
is shared by both crates and evaluates in Rust's order.

These are proved against two reference definitions: the factorial
`Factorials.Fact`, and the binomial coefficient `Factorials.Choose` given by
Pascal's rule. `ChoosingSubsets` connects `Choose` to what the documentation
says the coefficient counts: the ways of choosing k distinct integers from
{1, ..., n}.

`DecimalText` models `u64::to_string`: decimal digits, no sign and no leading
zero. It also provides the parser that undoes it. The cache's lemmas about
keys rest on these.

Files:

- `machine.dfy`: `u64`, `Option` and the checked operations.
- `factorial.dfy`: the fold-built factorial, the shared quotient, and the
  reference definitions with their lemmas.
- `binomial_coefficient.dfy`: the math crate.
- `rusty_gists.dfy`: `strlen` and `binom`.
- `subsets.dfy`: the k-element subsets of {1, ..., n}, and their count.
- `decimal_text.dfy`: decimal text.
- `my_cache.dfy`: the reference store, the key, the `Cacher` class and the
  documentation's scenario as client methods.

## Model

| member | source | states |
|---|---|---|
| Machine.CheckedMul | crates/math/src/lib.rs:45-46 | The debug-build `u64` `*`: the product, or a panic (None) when it reaches 2^64; used by Factorials.FoldProduct and Factorials.FactorialQuotient, whose lemmas carry the contract |
| Machine.CheckedSub | crates/math/src/lib.rs:46 | The debug-build `u64` `-` in `n - k`: the difference, or a panic (None) when k > n; carried by Factorials.FactorialQuotientIsChoose |
| Machine.CheckedDiv | crates/math/src/lib.rs:46 | The `u64` `/`: the truncating quotient, or a panic (None) on a zero divisor; carried by Factorials.FactorialQuotientIsChoose |
| Factorials.FoldProduct | crates/math/src/lib.rs:45 | The fold step by step with checked multiplication; its contract is carried by Factorials.FoldProductIsFact |
| Factorials.Factorial | crates/math/src/lib.rs:45 | The closure `\|x\| (1..=x).fold(1, \|prev, x\| prev * x)`, also at src/lib.rs:93; its contract is carried by Factorials.FactorialIsFact |
| Factorials.FactorialQuotient | crates/math/src/lib.rs:46 | `factorial(n) / (factorial(k) * factorial(n - k))` in Rust's order, also at src/lib.rs:94; its contract is carried by Factorials.FactorialQuotientIsChoose |
| Factorials.FoldProductIsFact | crates/math/src/lib.rs:45 | Started at i with (i-1)! in the accumulator, the checked fold over i..=x returns x! when x! fits in u64, and panics otherwise |
| Factorials.FactorialIsFact | crates/math/src/lib.rs:45 | The closure `(1..=x).fold(1, \|prev, x\| prev * x)` returns Some(x!) exactly when x! < 2^64, else None (a panic) |
| Factorials.FactTwentyAndTwentyOne | crates/math/src/lib.rs:35-36 | 20! = 2432902008176640000 fits in u64 and 21! = 51090942171709440000 does not |
| Factorials.FactFitsU64 | crates/math/src/lib.rs:35-36 | x! fits in u64 if and only if x <= 20, which is why `new` rejects n > 20 |
| Factorials.ChooseTimesFactorials | crates/math/src/lib.rs:46 | C(n, k) · k! · (n-k)! = n! for k <= n: the factorial formula computes the count defined by Pascal's rule |
| Factorials.DivisionIsExact | crates/math/src/lib.rs:46 | k! (n-k)! divides n! exactly (remainder 0), and the integer quotient is C(n, k), so the truncating `/` loses nothing |
| Factorials.DenominatorAtMostFact | crates/math/src/lib.rs:46 | k! (n-k)! <= n!, so the denominator fits in u64 whenever n! does |
| Factorials.ChooseSymmetric | crates/math/src/lib.rs:2-3 | C(n, k) = C(n, n-k) for k <= n |
| Factorials.ChooseDocExamples | crates/math/src/lib.rs:14-16 | C(4, 3) = 4, C(5, 3) = 10 and C(9, 4) = 126 |
| Factorials.FactorialQuotientIsChoose | crates/math/src/lib.rs:44-47 | The shared quotient is Some(C(n, k)) if k <= n <= 20 and None (a panic) otherwise, on every pair of u64 arguments |
| Factorials.QuotientInRange | crates/math/src/lib.rs:46 | For k <= n <= 20 none of the expression's steps panics, and the result is C(n, k) |
| BinomialCoefficients.New | crates/math/src/lib.rs:32-42 | `new` with its three checks in order, returning the variants of `BinomialCoefficientCreationError` (lines 20-25, the datatype BinomialCoefficients.CreationError); its contract is carried by BinomialCoefficients.NewSucceedsIff and BinomialCoefficients.NewErrors |
| BinomialCoefficients.GetNumUnorderedSubsets | crates/math/src/lib.rs:44-47 | `get_num_unordered_subsets`; its contract is carried by BinomialCoefficients.NumUnorderedSubsetsIsChoose |
| BinomialCoefficients.NewErrors | crates/math/src/lib.rs:32-42 | n = 0 gives NoElementsInSet(n); n > 20 gives NumberOfElementsInSetTooLarge(n); 1 <= n <= 20 with k > n gives ChosenGreaterThanNumberOfElementsInSet(n, k); the first failing check wins, e.g. new(0, 5) and new(21, 30) |
| BinomialCoefficients.NewSucceedsIff | crates/math/src/lib.rs:32-42 | `new` returns Ok exactly when 1 <= n <= 20 and k <= n, and the value holds both arguments unchanged |
| BinomialCoefficients.NewNeverChosenLessThanZero | crates/math/src/lib.rs:20-25 | No input makes `new` return the declared variant ChosenLessThanZero |
| BinomialCoefficients.NumUnorderedSubsetsIsChoose | crates/math/src/lib.rs:44-47 | On every value `new` builds, n!, k! and (n-k)! come out of the fold, their product fits in u64, it divides n!, and `get_num_unordered_subsets` returns C(n, k) without panicking |
| BinomialCoefficients.DocExamples | crates/math/src/lib.rs:9-16 | new(4, 3), new(5, 3) and new(9, 4) succeed, and their values give 4, 10 and 126 |
| BinomialCoefficients.NumUnorderedSubsetsSymmetric | crates/math/src/lib.rs:44-47 | If new(n, k) succeeds, so does new(n, n-k), and both compute the same count |
| BinomialCoefficients.NumUnorderedSubsetsPascal | crates/math/src/lib.rs:44-47 | For 1 <= k < n <= 20 the computed counts satisfy Pascal's rule: (n, k) gives the sum of (n-1, k-1) and (n-1, k) |
| RustyGists.Strlen | src/lib.rs:76-78 | `strlen` as the byte length of the string's UTF-8 text; its contract is carried by RustyGists.StrlenBounds and RustyGists.Utf8Concat |
| RustyGists.Utf8Char | src/lib.rs:76-78 | Each character takes one to four bytes of UTF-8, and exactly one when it is ASCII |
| RustyGists.Utf8Concat | src/lib.rs:76-78 | Encoding a concatenation gives the concatenation of the encodings, so byte lengths add up |
| RustyGists.StrlenBounds | src/lib.rs:76-78 | `strlen` counts bytes: it lies between the number of characters and four times that number, and equals the number of characters exactly when every character is ASCII (both directions) |
| RustyGists.StrlenDocExamples | src/lib.rs:63-69 | strlen("a") = 1, strlen("bc") = 2 and strlen("def") = 3, and the two-byte "é" gives 2 |
| RustyGists.Binom | src/lib.rs:92-95 | `binom`, the same quotient without validation; its contract is carried by RustyGists.BinomIsChoose |
| RustyGists.BinomIsChoose | src/lib.rs:92-95 | Without validation, `binom` panics exactly when k > n or n > 20, and otherwise returns C(n, k) |
| RustyGists.BinomDocExamples | src/lib.rs:87-89 | binom(4, 3) = 4, binom(5, 3) = 10 and binom(9, 4) = 126 |
| RustyGists.BinomEnds | src/lib.rs:92-95 | The empty fold yields 1, so binom(n, 0) = binom(n, n) = 1 for n <= 20, including binom(0, 0), which the math crate's `new` refuses |
| RustyGists.BinomAgreesWithMathCrate | src/lib.rs:92-95 | On every input the math crate's `new` accepts, `binom` succeeds and equals `get_num_unordered_subsets` |
| ChoosingSubsets.SubsetsSound | crates/math/src/lib.rs:2-3 | Every set in Subsets(n, k) is a set of k distinct integers from {1, ..., n} |
| ChoosingSubsets.SubsetsComplete | crates/math/src/lib.rs:2-3 | Every set of k distinct integers from {1, ..., n} is in Subsets(n, k) |
| ChoosingSubsets.SubsetsAreChoices | crates/math/src/lib.rs:2-3 | Subsets(n, k) holds exactly the k-element subsets of {1, ..., n} (both directions) |
| ChoosingSubsets.SubsetsPascal | crates/math/src/lib.rs:2-3 | The number of k-element choices from {1, ..., n} is the number that leave n out plus the number of (k-1)-element choices from {1, ..., n-1}, to which n is added |
| ChoosingSubsets.SubsetsCount | src/lib.rs:80-81 | There are exactly C(n, k) ways of choosing k distinct integers from {1, ..., n}, which is the number the documentation says binom returns |
| DecimalText.Decimal | crates/my_cache/src/lib.rs:64 | `to_string` on a u64 gives non-empty decimal digits with no leading zero, and starts with '0' only for zero |
| DecimalText.ParseDecimalOfDecimal | crates/my_cache/src/lib.rs:64 | Reading back the decimal text of n gives n |
| DecimalText.DecimalInjective | crates/my_cache/src/lib.rs:64 | Different numbers have different decimal texts |
| DecimalText.DecimalOfParseDecimal | crates/my_cache/src/lib.rs:64 | Every canonical digit string is the decimal text of the number it denotes |
| MyCache.Key | crates/my_cache/src/lib.rs:64 | `n.to_string() + &k.to_string()`; its contract is carried by MyCache.KeyCollision, MyCache.KeyNotInjective and MyCache.KeyEqualSplit |
| MyCache.KeyCollision | crates/my_cache/src/lib.rs:64 | The keys of (1, 23) and (12, 3) are both "123" |
| MyCache.KeyNotInjective | crates/my_cache/src/lib.rs:64 | For n >= 1 and digits d >= 1 and e, the different requests (n, 10d + e) and (10n + d, e) get the same key |
| MyCache.KeyEqualSplit | crates/my_cache/src/lib.rs:64 | Two requests whose first arguments have decimal texts of the same length share a key only if they are the same request |
| MyCache.ReplayKeys | crates/my_cache/src/lib.rs:63-73 | The store's keys are exactly the keys of the requests served |
| MyCache.MissesCountKeys | crates/my_cache/src/lib.rs:63-73 | The computation runs once per distinct key requested |
| MyCache.ReplaySize | crates/my_cache/src/lib.rs:63-73 | The store's size, the number of computation runs and the number of distinct keys requested are equal |
| MyCache.ReplayGrowth | crates/my_cache/src/lib.rs:65-71 | A request never removes a key and adds at most one entry |
| MyCache.ReplayKeepsEntries | crates/my_cache/src/lib.rs:66-67 | Later requests never remove an entry or change a stored value |
| MyCache.FirstRequestWins | crates/my_cache/src/lib.rs:63-73 | The value stored under a key is the result of the first request that asked for that key, whatever came after |
| MyCache.ServedOwnResult | crates/my_cache/src/lib.rs:38 | When every earlier request sharing r's key had r's own arguments, serving r leaves the computation's result for r in the store: the memoisation returns "the value of calculation T" |
| MyCache.RepeatIsHit | crates/my_cache/src/lib.rs:56-59 | Asking for the same arguments twice in a row leaves the same store and the same number of runs as asking once |
| MyCache.OrderIndependent | crates/my_cache/src/lib.rs:63-73 | Two requests with different keys give the same store in either order |
| MyCache.CollidingRequestServedStale | crates/my_cache/src/lib.rs:64-67 | After (n, 10d + e), the request (10n + d, e) does not run the computation and is served the earlier request's result |
| MyCache.Cacher.constructor | crates/my_cache/src/lib.rs:30-36 | `new` stores the computation, starts with an empty store, and nothing has run |
| MyCache.Cacher.Value | crates/my_cache/src/lib.rs:63-73 | On a hit, returns the stored value and changes nothing. On a miss, runs the computation once on (n, k), stores the result under the key and returns it. Preserves store == Replay(log) and calls == Misses(log) |
| MyCache.Cacher.StoreCountsDistinctKeys | crates/my_cache/src/lib.rs:63-73 | At every point, the store's size equals the number of computation runs and the number of distinct keys requested |
| MyCache.AddExample | crates/my_cache/src/lib.rs:48-61 | The documentation scenario with an adding computation returns 5, 5, 6, and the call counter reads 0, 1, 1, 2 |
| MyCache.CollisionExample | crates/my_cache/src/lib.rs:64-67 | value(1, 23) then value(12, 3) both return 23001, the result for (1, 23): the second call is served the stale entry and the computation ran once |

## Left out

- `size_and_align_of` (src/lib.rs:43-45): it reports the compiler's type layout, which has no counterpart in Dafny.
- src/memory_size_and_alignment.rs, src/as_ref_for_more_generic_fns.rs and crates/collections/src/interfaces.rs are not part of this model. They are demonstrations and interfaces outside the cache and the binomial code.
- `strlen` takes a Dafny `string`, a sequence of Unicode scalar values, and counts the bytes of its UTF-8 encoding. The `AsRef<str>` conversion from `&str`, `String` and `Box<str>` is not modelled; all three give the same `str`.
- Panics are modelled as `None`. This is what a debug build does with these operations. A release build wraps `u64` overflow silently instead, and that wrapped behaviour is not modelled.
- The cache's `HashMap` is modelled as a Dafny `map` from strings to `u64`. Hashing, capacity and iteration order are left out; `get` and `insert` behave the same.
- The computation a `Cacher` wraps is modelled as a pure, total function of two `u64` values. Rust allows any `FnMut`, including closures that update captured state. The documentation example's counter in `Rc<RefCell<_>>` is therefore replaced by the ghost field `calls`, which counts the runs the same way. A closure that panics, or that returns different results for the same arguments, is not modelled.
- MyCache.AddExample: the adding computation is written as (x + y) mod 2^64 so that it is total on `u64`. The Rust closure `x + y` would panic on overflow. The inputs 2, 3 and 4 of the scenario never overflow, so the results are the same.
- The math crate's documentation example builds values with struct-literal syntax and imports them from `rusty_gists`. The fields are private and the crate is another one, so that example does not compile as written. BinomialCoefficients.DocExamples obtains the same three values through `New` instead.
- The type parameter and the `where` bounds of `Cacher<T>` are not modelled. The class holds the computation as a Dafny function value.
