/**
 * The top-level crate: `strlen`, the byte length of a string's UTF-8 text, and `binom`,
 * the binomial coefficient by the factorial formula with no validation of
 * its arguments.
 */
module RustyGists {
  import opened Machine
  import opened Factorials
  import BinomialCoefficients

  type Byte = b: int | 0 <= b < 256

  /**
   * The UTF-8 encoding of one Unicode scalar value: one byte below U+0080,
   * two below U+0800, three below U+10000 and four above, each continuation
   * byte carrying six bits.
   */
  function Utf8Char(c: char): (bytes: seq<Byte>)
    ensures 1 <= |bytes| <= 4
    ensures |bytes| == 1 <==> c as int < 0x80
  {
    var cp := c as int;
    if cp < 0x80 then [cp]
    else if cp < 0x800 then [0xC0 + cp / 0x40, 0x80 + cp % 0x40]
    else if cp < 0x1_0000 then [0xE0 + cp / 0x1000, 0x80 + (cp / 0x40) % 0x40, 0x80 + cp % 0x40]
    else [0xF0 + cp / 0x4_0000, 0x80 + (cp / 0x1000) % 0x40, 0x80 + (cp / 0x40) % 0x40, 0x80 + cp % 0x40]
  }

  /** The UTF-8 text of a string, the bytes a Rust `str` holds. */
  function Utf8(s: string): seq<Byte>
  {
    if s == [] then [] else Utf8Char(s[0]) + Utf8(s[1..])
  }

  /** `strlen`: `s.as_ref().len()`, the number of bytes of the string's UTF-8 text. */
  function Strlen(s: string): nat
  {
    |Utf8(s)|
  }

  /** Encoding a concatenation concatenates the encodings. */
  lemma {:induction false} Utf8Concat(s: string, t: string)
    ensures Utf8(s + t) == Utf8(s) + Utf8(t)
  {
    if s != [] {
      assert (s + t)[0] == s[0];
      assert (s + t)[1..] == s[1..] + t;
      Utf8Concat(s[1..], t);
    } else {
      assert s + t == t;
    }
  }

  /**
   * `strlen` counts bytes, not characters: every character takes one to four
   * bytes, and the two counts agree exactly when every character is ASCII.
   */
  lemma {:induction false} StrlenBounds(s: string)
    ensures |s| <= Strlen(s) <= 4 * |s|
    ensures Strlen(s) == |s| <==> forall i :: 0 <= i < |s| ==> s[i] as int < 0x80
  {
    if s != [] {
      StrlenBounds(s[1..]);
      var rest := s[1..];
      if Strlen(s) == |s| {
        forall i | 0 <= i < |s| ensures s[i] as int < 0x80 {
          if i > 0 {
            assert s[i] == rest[i - 1];
          }
        }
      }
      if forall i :: 0 <= i < |s| ==> s[i] as int < 0x80 {
        forall i | 0 <= i < |rest| ensures rest[i] as int < 0x80 {
          assert rest[i] == s[i + 1];
        }
      }
    }
  }

  /** The documentation's examples, and a character outside ASCII. */
  lemma StrlenDocExamples()
    ensures Strlen("a") == 1
    ensures Strlen("bc") == 2
    ensures Strlen("def") == 3
    ensures Strlen("\U{e9}") == 2
  {
    StrlenBounds("a");
    StrlenBounds("bc");
    StrlenBounds("def");
    assert "\U{e9}"[1..] == [];
  }

  /** `binom`: n! / (k! (n-k)!) with the fold-built factorial; `None` is a panic. */
  function Binom(n: U64, k: U64): Option<U64>
  {
    FactorialQuotient(n, k)
  }

  /**
   * Without validation, `binom` panics exactly when k > n (the `u64`
   * subtraction n - k) or n > 20 (n! overflows `u64`); otherwise it returns
   * the binomial coefficient.
   */
  lemma BinomIsChoose(n: U64, k: U64)
    ensures Binom(n, k).Some? <==> k <= n <= 20
    ensures Binom(n, k).Some? ==> Binom(n, k).value == Choose(n, k)
  {
    FactorialQuotientIsChoose(n, k);
  }

  /** The documentation's examples. */
  lemma BinomDocExamples()
    ensures Binom(4, 3) == Some(4)
    ensures Binom(5, 3) == Some(10)
    ensures Binom(9, 4) == Some(126)
  {
    ChooseDocExamples();
    BinomIsChoose(4, 3);
    BinomIsChoose(5, 3);
    BinomIsChoose(9, 4);
  }

  /**
   * The empty fold returns its seed, so 0! = 1 and both ends of every row are
   * 1, including binom(0, 0), which the math crate's constructor refuses.
   */
  lemma BinomEnds(n: U64)
    requires n <= 20
    ensures Factorial(0) == Some(1)
    ensures Binom(n, 0) == Some(1)
    ensures Binom(n, n) == Some(1)
    ensures Binom(0, 0) == Some(1)
    ensures BinomialCoefficients.New(0, 0) == BinomialCoefficients.Err(BinomialCoefficients.NoElementsInSet(0))
  {
    BinomIsChoose(n, 0);
    BinomIsChoose(n, n);
    ChooseDiagonal(n);
    BinomIsChoose(0, 0);
  }

  /** On every input the math crate accepts, `binom` computes the same value. */
  lemma BinomAgreesWithMathCrate(n: U64, k: U64)
    requires BinomialCoefficients.New(n, k).Ok?
    ensures Binom(n, k).Some?
    ensures Binom(n, k) == BinomialCoefficients.GetNumUnorderedSubsets(BinomialCoefficients.New(n, k).value)
  {
    BinomialCoefficients.NumUnorderedSubsetsIsChoose(n, k);
    BinomIsChoose(n, k);
  }
}
