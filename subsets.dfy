/**
 * What "n choose k" counts, in the words of both crates' documentation: the
 * ways of choosing k distinct integers from {1, ..., n}. `Subsets(n, k)` is
 * the set of those choices, and its size is `Choose(n, k)`.
 */
module ChoosingSubsets {
  import opened Factorials

  /** s is a choice of k distinct integers from {1, ..., n}. */
  predicate IsChoice(s: set<nat>, n: nat, k: nat)
  {
    (forall x :: x in s ==> 1 <= x <= n) && |s| == k
  }

  /** Every set of `family` with `x` added. */
  function AddToEach(family: set<set<nat>>, x: nat): set<set<nat>>
  {
    set s | s in family :: s + {x}
  }

  /** A set of `AddToEach(family, x)` comes from a set of `family`. */
  lemma AddedTo(family: set<set<nat>>, x: nat, s: set<nat>) returns (t: set<nat>)
    requires s in AddToEach(family, x)
    ensures t in family && s == t + {x}
  {
    t :| t in family && s == t + {x};
  }

  /** The k-element subsets of {1, ..., n}, split on whether n is chosen. */
  function Subsets(n: nat, k: nat): set<set<nat>>
  {
    if k == 0 then {{}}
    else if n == 0 then {}
    else Subsets(n - 1, k) + AddToEach(Subsets(n - 1, k - 1), n)
  }

  /** Every set in `Subsets(n, k)` is a choice of k integers from {1, ..., n}. */
  lemma {:induction false} SubsetsSound(n: nat, k: nat, s: set<nat>)
    requires s in Subsets(n, k)
    ensures IsChoice(s, n, k)
  {
    if k == 0 {
      assert s == {};
    } else if n > 0 {
      if s in Subsets(n - 1, k) {
        SubsetsSound(n - 1, k, s);
      } else {
        var t := AddedTo(Subsets(n - 1, k - 1), n, s);
        SubsetsSound(n - 1, k - 1, t);
        ExtendChoice(t, n, k);
      }
    }
  }

  lemma ExtendChoice(t: set<nat>, n: nat, k: nat)
    requires n >= 1 && k >= 1
    requires IsChoice(t, n - 1, k - 1)
    ensures IsChoice(t + {n}, n, k)
  {
    assert n !in t;
  }

  /** Every choice of k integers from {1, ..., n} is in `Subsets(n, k)`. */
  lemma {:induction false} SubsetsComplete(n: nat, k: nat, s: set<nat>)
    requires IsChoice(s, n, k)
    ensures s in Subsets(n, k)
  {
    if k == 0 {
      assert s == {};
    } else if n == 0 {
    } else {
      var m, j := n - 1, k - 1;
      if n in s {
        var t := s - {n};
        assert |t| == j;
        SubsetsComplete(m, j, t);
        assert t + {n} == s;
        TakenIn(n, k, m, j, t);
      } else {
        SubsetsComplete(m, k, s);
        LeftOutIn(n, k, m, s);
      }
    }
  }

  lemma TakenIn(n: nat, k: nat, m: nat, j: nat, t: set<nat>)
    requires n > 0 && k > 0 && m == n - 1 && j == k - 1
    requires t in Subsets(m, j)
    ensures t + {n} in Subsets(n, k)
  {
    assert t + {n} in AddToEach(Subsets(m, j), n);
  }

  lemma LeftOutIn(n: nat, k: nat, m: nat, s: set<nat>)
    requires n > 0 && k > 0 && m == n - 1
    requires s in Subsets(m, k)
    ensures s in Subsets(n, k)
  {
  }

  /** `Subsets(n, k)` holds exactly the choices of k distinct integers from {1, ..., n}. */
  lemma SubsetsAreChoices(n: nat, k: nat, s: set<nat>)
    ensures s in Subsets(n, k) <==> IsChoice(s, n, k)
  {
    if s in Subsets(n, k) {
      SubsetsSound(n, k, s);
    }
    if IsChoice(s, n, k) {
      SubsetsComplete(n, k, s);
    }
  }

  /** Adding an element that no set of the family holds keeps the sets apart. */
  lemma {:induction false} AddToEachSize(family: set<set<nat>>, x: nat)
    requires forall s :: s in family ==> x !in s
    ensures |AddToEach(family, x)| == |family|
    decreases |family|
  {
    if family != {} {
      var e :| e in family;
      var rest := family - {e};
      AddToEachSize(rest, x);
      assert AddToEach(family, x) == AddToEach(rest, x) + {e + {x}};
      forall t | t in rest ensures t + {x} != e + {x} {
        assert (t + {x}) - {x} == t;
        assert (e + {x}) - {x} == e;
      }
      assert e + {x} !in AddToEach(rest, x);
    }
  }

  /** There are C(n, k) ways of choosing k distinct integers from {1, ..., n}. */
  lemma {:induction false} SubsetsCount(n: nat, k: nat)
    ensures |Subsets(n, k)| == Choose(n, k)
  {
    if k == 0 {
      assert Subsets(n, k) == {{}};
    } else if n == 0 {
      assert Subsets(n, k) == {};
    } else {
      var m, j := n - 1, k - 1;
      SubsetsCount(m, k);
      SubsetsCount(m, j);
      SubsetsPascal(n, k, m, j);
      ChoosePascal(n, k, m, j);
    }
  }

  /**
   * Pascal's rule for the choices: those that leave n out and those that take
   * it are apart, and adding n to a choice from {1, ..., n-1} loses nothing.
   */
  lemma SubsetsPascal(n: nat, k: nat, m: nat, j: nat)
    requires n > 0 && k > 0 && m == n - 1 && j == k - 1
    ensures |Subsets(n, k)| == |Subsets(m, k)| + |Subsets(m, j)|
  {
    SplitSize(n, k);
  }

  lemma ChoosePascal(n: nat, k: nat, m: nat, j: nat)
    requires n > 0 && k > 0 && m == n - 1 && j == k - 1
    ensures Choose(n, k) == Choose(m, k) + Choose(m, j)
  {
  }

  lemma SplitSize(n: nat, k: nat)
    requires n > 0 && k > 0
    ensures |Subsets(n - 1, k) + AddToEach(Subsets(n - 1, k - 1), n)|
         == |Subsets(n - 1, k)| + |Subsets(n - 1, k - 1)|
  {
    SubsetsAvoid(n - 1, k);
    SubsetsAvoid(n - 1, k - 1);
    UnionSize(Subsets(n - 1, k), Subsets(n - 1, k - 1), n);
  }

  lemma UnionSize(without: set<set<nat>>, family: set<set<nat>>, x: nat)
    requires forall s :: s in without ==> x !in s
    requires forall s :: s in family ==> x !in s
    ensures |without + AddToEach(family, x)| == |without| + |family|
  {
    AddToEachSize(family, x);
    AddToEachContains(family, x);
    DisjointUnionSize(without, AddToEach(family, x), x);
  }

  /** No set of `Subsets(n, k)` holds n + 1. */
  lemma SubsetsAvoid(n: nat, k: nat)
    ensures forall s :: s in Subsets(n, k) ==> n + 1 !in s
  {
    forall s | s in Subsets(n, k) ensures n + 1 !in s {
      SubsetsSound(n, k, s);
    }
  }

  lemma AddToEachContains(family: set<set<nat>>, x: nat)
    ensures forall s :: s in AddToEach(family, x) ==> x in s
  {
  }

  lemma DisjointUnionSize(a: set<set<nat>>, b: set<set<nat>>, x: nat)
    requires forall s :: s in a ==> x !in s
    requires forall s :: s in b ==> x in s
    ensures |a + b| == |a| + |b|
  {
    assert a * b == {};
  }
}
