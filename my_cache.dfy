/**
 * The memoising cache of the my_cache crate: a computation of two `u64`
 * arguments together with a store from string keys to earlier results.
 *
 * `Replay` is the reference definition: the store that serving a sequence of
 * requests in order builds from an empty one. The class `Cacher` keeps a
 * ghost log of its requests and a ghost count of computation calls, and its
 * invariant ties the real store to `Replay` of that log.
 *
 * The key of a request is the decimal text of `n` immediately followed by
 * that of `k`. Two different requests can produce the same key, and then the
 * second is served the result the first one computed; the lemmas below state
 * exactly when that happens.
 */
module MyCache {
  import opened Machine
  import opened DecimalText

  /** The arguments `(n, k)` of one call of `value`. */
  type Request = (U64, U64)

  /** The lookup key: `n.to_string() + &k.to_string()`. */
  function Key(n: U64, k: U64): string
  {
    Decimal(n) + Decimal(k)
  }

  function KeyOf(r: Request): string
  {
    Key(r.0, r.1)
  }

  /**
   * The store after the requests of `log` have been served in order, starting
   * from an empty store: a request whose key is present leaves it as it is,
   * any other adds its key with the computation's result.
   */
  function Replay(f: (U64, U64) -> U64, log: seq<Request>): map<string, U64>
    decreases |log|
  {
    if log == [] then map[]
    else
      var store := Replay(f, log[..|log| - 1]);
      var (n, k) := log[|log| - 1];
      if Key(n, k) in store then store else store[Key(n, k) := f(n, k)]
  }

  /** The keys the requests of `log` ask for. */
  function RequestedKeys(log: seq<Request>): set<string>
  {
    set i | 0 <= i < |log| :: KeyOf(log[i])
  }

  /**
   * How many requests of `log` run the computation: those whose key no
   * earlier request asked for.
   */
  function Misses(log: seq<Request>): nat
    decreases |log|
  {
    if log == [] then 0
    else
      var earlier := log[..|log| - 1];
      Misses(earlier) + if KeyOf(log[|log| - 1]) in RequestedKeys(earlier) then 0 else 1
  }

  // ----- the key -----

  /** The collision: (1, 23) and (12, 3) both become "123". */
  lemma KeyCollision()
    ensures Key(1, 23) == Key(12, 3) == "123"
  {
    assert Decimal(23) == Decimal(2) + [DigitChar(3)];
    assert Decimal(12) == Decimal(1) + [DigitChar(2)];
  }

  /**
   * The collision is not an isolated case: for every n >= 1 and digits d >= 1
   * and e, the different requests (n, 10d + e) and (10n + d, e) share a key.
   */
  lemma KeyNotInjective(n: U64, d: nat, e: nat)
    requires 1 <= n && 1 <= d <= 9 && e <= 9
    requires 10 * n + d < TWO_TO_THE_64
    ensures (n, 10 * d + e) != (10 * n + d, e)
    ensures Key(n, 10 * d + e) == Key(10 * n + d, e)
  {
    assert (10 * d + e) / 10 == d && (10 * d + e) % 10 == e;
    assert (10 * n + d) / 10 == n && (10 * n + d) % 10 == d;
    calc {
      Key(n, 10 * d + e);
      Decimal(n) + (Decimal(d) + [DigitChar(e)]);
      (Decimal(n) + Decimal(d)) + Decimal(e);
      Key(10 * n + d, e);
    }
  }

  /**
   * Two requests whose first arguments have decimal texts of the same length
   * share a key only if they are the same request: all the key forgets is
   * where the first number's text ends.
   */
  lemma KeyEqualSplit(a: U64, b: U64, c: U64, d: U64)
    requires Key(a, b) == Key(c, d)
    requires |Decimal(a)| == |Decimal(c)|
    ensures a == c && b == d
  {
    var s, len := Key(a, b), |Decimal(a)|;
    assert Decimal(a) == s[..len] == Decimal(c);
    assert Decimal(b) == s[len..] == Decimal(d);
    DecimalInjective(a, c);
    DecimalInjective(b, d);
  }

  // ----- the reference store -----

  lemma RequestedKeysSnoc(log: seq<Request>, r: Request)
    ensures RequestedKeys(log + [r]) == RequestedKeys(log) + {KeyOf(r)}
  {
    var extended := log + [r];
    assert forall i :: 0 <= i < |log| ==> extended[i] == log[i];
    assert extended[|log|] == r;
  }

  /** Serving one more request: the step `Replay` takes. */
  lemma ReplayStep(f: (U64, U64) -> U64, log: seq<Request>, r: Request)
    ensures Replay(f, log + [r])
         == if KeyOf(r) in Replay(f, log) then Replay(f, log)
            else Replay(f, log)[KeyOf(r) := f(r.0, r.1)]
  {
    assert (log + [r])[..|log|] == log;
  }

  /** Serving one more request: the step `Misses` takes. */
  lemma MissesStep(log: seq<Request>, r: Request)
    ensures Misses(log + [r]) == Misses(log) + if KeyOf(r) in RequestedKeys(log) then 0 else 1
  {
    assert (log + [r])[..|log|] == log;
  }

  /** The store holds exactly the keys that were requested. */
  lemma {:induction false} ReplayKeys(f: (U64, U64) -> U64, log: seq<Request>)
    ensures Replay(f, log).Keys == RequestedKeys(log)
    decreases |log|
  {
    if log != [] {
      var earlier := log[..|log| - 1];
      ReplayKeys(f, earlier);
      RequestedKeysSnoc(earlier, log[|log| - 1]);
      assert earlier + [log[|log| - 1]] == log;
    }
  }

  /** The computation runs once per distinct key requested. */
  lemma {:induction false} MissesCountKeys(log: seq<Request>)
    ensures Misses(log) == |RequestedKeys(log)|
    decreases |log|
  {
    if log != [] {
      var earlier, last := log[..|log| - 1], log[|log| - 1];
      assert earlier + [last] == log;
      MissesCountKeys(earlier);
      MissesStep(earlier, last);
      RequestedKeysSnoc(earlier, last);
      var keys := RequestedKeys(earlier);
      if KeyOf(last) in keys {
        assert keys + {KeyOf(last)} == keys;
      } else {
        assert |keys + {KeyOf(last)}| == |keys| + 1;
      }
    }
  }

  /**
   * After any sequence of requests the store's size, the number of computation
   * calls and the number of distinct keys requested are the same.
   */
  lemma ReplaySize(f: (U64, U64) -> U64, log: seq<Request>)
    ensures |Replay(f, log)| == |RequestedKeys(log)| == Misses(log)
  {
    ReplayKeys(f, log);
    MissesCountKeys(log);
    assert |Replay(f, log)| == |Replay(f, log).Keys|;
  }

  /** Each request adds at most one entry, and no entry is ever removed. */
  lemma ReplayGrowth(f: (U64, U64) -> U64, log: seq<Request>, r: Request)
    ensures Replay(f, log).Keys <= Replay(f, log + [r]).Keys
    ensures |Replay(f, log + [r])| <= |Replay(f, log)| + 1
  {
    assert (log + [r])[..|log|] == log;
  }

  /** Later requests never remove an entry nor change a stored value. */
  lemma {:induction false} ReplayKeepsEntries(f: (U64, U64) -> U64, log: seq<Request>, more: seq<Request>)
    ensures forall key :: key in Replay(f, log) ==>
              key in Replay(f, log + more) && Replay(f, log + more)[key] == Replay(f, log)[key]
    decreases |more|
  {
    if more != [] {
      var shorter := more[..|more| - 1];
      ReplayKeepsEntries(f, log, shorter);
      assert (log + more)[..|log + more| - 1] == log + shorter;
    } else {
      assert log + more == log;
    }
  }

  /**
   * The value stored under a key is the result of the first request that
   * asked for that key, whatever requests came after it.
   */
  lemma FirstRequestWins(f: (U64, U64) -> U64, log: seq<Request>, i: nat)
    requires i < |log|
    requires forall j :: 0 <= j < i ==> KeyOf(log[j]) != KeyOf(log[i])
    ensures KeyOf(log[i]) in Replay(f, log)
    ensures Replay(f, log)[KeyOf(log[i])] == f(log[i].0, log[i].1)
  {
    NotYetRequested(f, log, i);
    ReplayKeepsEntries(f, log[..i + 1], log[i + 1..]);
    assert log[..i + 1] + log[i + 1..] == log;
  }

  /** A request whose key no earlier request asked for stores its own result. */
  lemma NotYetRequested(f: (U64, U64) -> U64, log: seq<Request>, i: nat)
    requires i < |log|
    requires forall j :: 0 <= j < i ==> KeyOf(log[j]) != KeyOf(log[i])
    ensures KeyOf(log[i]) in Replay(f, log[..i + 1])
    ensures Replay(f, log[..i + 1])[KeyOf(log[i])] == f(log[i].0, log[i].1)
  {
    var before := log[..i];
    ReplayKeys(f, before);
    assert KeyOf(log[i]) !in RequestedKeys(before);
    assert log[..i + 1][..i] == before;
  }

  /**
   * Where the memoisation is transparent: when every earlier request sharing
   * r's key had r's own arguments, the store holds the computation's result
   * for r after serving it.
   */
  lemma ServedOwnResult(f: (U64, U64) -> U64, log: seq<Request>, r: Request)
    requires forall j :: 0 <= j < |log| && KeyOf(log[j]) == KeyOf(r) ==> log[j] == r
    ensures KeyOf(r) in Replay(f, log + [r])
    ensures Replay(f, log + [r])[KeyOf(r)] == f(r.0, r.1)
  {
    var all := log + [r];
    var i := FirstWithKey(all, KeyOf(r), |log|);
    assert all[i] == r by {
      if i < |log| {
        assert all[i] == log[i];
      }
    }
    FirstRequestWins(f, all, i);
  }

  /** The first request of `log`, at or before `hi`, whose key is `key`. */
  lemma {:induction false} FirstWithKey(log: seq<Request>, key: string, hi: nat) returns (i: nat)
    requires hi < |log| && KeyOf(log[hi]) == key
    ensures i <= hi && KeyOf(log[i]) == key
    ensures forall j :: 0 <= j < i ==> KeyOf(log[j]) != key
    decreases hi
  {
    if j :| 0 <= j < hi && KeyOf(log[j]) == key {
      i := FirstWithKey(log, key, j);
    } else {
      i := hi;
    }
  }

  /** Asking twice in a row is the same as asking once: the second is a hit. */
  lemma RepeatIsHit(f: (U64, U64) -> U64, log: seq<Request>, r: Request)
    ensures Replay(f, log + [r, r]) == Replay(f, log + [r])
    ensures Misses(log + [r, r]) == Misses(log + [r])
  {
    var once := log + [r];
    assert log + [r, r] == once + [r];
    ReplayStep(f, log, r);
    ReplayStep(f, once, r);
    MissesStep(log, r);
    MissesStep(once, r);
    RequestedKeysSnoc(log, r);
  }

  /** Two requests with different keys can be served in either order. */
  lemma OrderIndependent(f: (U64, U64) -> U64, log: seq<Request>, p: Request, q: Request)
    requires KeyOf(p) != KeyOf(q)
    ensures Replay(f, log + [p, q]) == Replay(f, log + [q, p])
  {
    assert (log + [p, q])[..|log| + 1] == log + [p];
    assert (log + [q, p])[..|log| + 1] == log + [q];
    assert (log + [p])[..|log|] == log;
    assert (log + [q])[..|log|] == log;
  }

  /**
   * The consequence of the colliding key: after (n, 10d + e), the request
   * (10n + d, e) does not run the computation and is served the first
   * request's result.
   */
  lemma CollidingRequestServedStale(f: (U64, U64) -> U64, n: U64, d: nat, e: nat)
    requires 1 <= n && 1 <= d <= 9 && e <= 9
    requires 10 * n + d < TWO_TO_THE_64
    ensures Misses([(n, 10 * d + e), (10 * n + d, e)]) == 1
    ensures Replay(f, [(n, 10 * d + e), (10 * n + d, e)])[Key(10 * n + d, e)] == f(n, 10 * d + e)
  {
    KeyNotInjective(n, d, e);
    var first, second: Request := (n, 10 * d + e), (10 * n + d, e);
    var log := [first, second];
    assert log[..1] == [first] == [] + [first];
    assert RequestedKeys([]) == {};
    RequestedKeysSnoc([], first);
    assert Misses([first]) == 1;
    assert Replay(f, [first]) == map[KeyOf(first) := f(first.0, first.1)];
  }

  // ----- the cache -----

  class Cacher {
    /** The computation being cached. */
    const calculation: (U64, U64) -> U64
    /** The stored results, by key. */
    var values: map<string, U64>
    /** Every request served so far, in order. */
    ghost var requests: seq<Request>
    /** How many times the computation has run: the documentation example's `count`. */
    ghost var calls: nat

    ghost predicate Valid()
      reads this
    {
      values == Replay(calculation, requests) && calls == Misses(requests)
    }

    /** `Cacher::new`: an empty store, nothing computed yet. */
    constructor (calculation: (U64, U64) -> U64)
      ensures Valid()
      ensures this.calculation == calculation
      ensures values == map[] && requests == [] && calls == 0
    {
      this.calculation := calculation;
      values := map[];
      requests := [];
      calls := 0;
    }

    /**
     * `value(n, k)`: a hit returns the stored value and changes nothing; a
     * miss runs the computation once on (n, k), stores the result under the
     * key and returns it.
     */
    method Value(n: U64, k: U64) returns (v: U64)
      requires Valid()
      modifies this
      ensures Valid()
      ensures requests == old(requests) + [(n, k)]
      ensures Key(n, k) in old(values) ==>
                v == old(values)[Key(n, k)] && values == old(values) && calls == old(calls)
      ensures Key(n, k) !in old(values) ==>
                v == calculation(n, k) && values == old(values)[Key(n, k) := v] && calls == old(calls) + 1
      ensures Key(n, k) in values && values[Key(n, k)] == v
    {
      var key := Key(n, k);
      ReplayKeys(calculation, requests);
      if key in values {
        v := values[key];
      } else {
        v := calculation(n, k);
        calls := calls + 1;
        values := values[key := v];
      }
      requests := requests + [(n, k)];
      assert requests[..|requests| - 1] == old(requests);
    }

    /** The store has one entry per distinct key requested, and the computation ran that often. */
    lemma StoreCountsDistinctKeys()
      requires Valid()
      ensures |values| == calls == |RequestedKeys(requests)|
    {
      ReplaySize(calculation, requests);
    }
  }

  // ----- the documentation's scenario and the collision, as client code -----

  /**
   * The documentation example: the computation adds its arguments; the first
   * (2, 3) runs it, the second is served from the store, (2, 4) runs it again.
   * `counts` records the call counter before and after each call.
   */
  method AddExample() returns (first: U64, second: U64, third: U64, ghost counts: seq<nat>)
    ensures first == 5 && second == 5 && third == 6
    ensures counts == [0, 1, 1, 2]
  {
    var cacher := new Cacher((x: U64, y: U64) => (x + y) % TWO_TO_THE_64);
    counts := [cacher.calls];
    first := cacher.Value(2, 3);
    counts := counts + [cacher.calls];
    second := cacher.Value(2, 3);
    counts := counts + [cacher.calls];
    assert Key(2, 4) != Key(2, 3) by {
      assert Key(2, 4)[1] == DigitChar(4) && Key(2, 3)[1] == DigitChar(3);
    }
    third := cacher.Value(2, 4);
    counts := counts + [cacher.calls];
  }

  /**
   * The collision as client code: with a computation that tells its arguments
   * apart, value(12, 3) after value(1, 23) returns 23001, the result for
   * (1, 23), and not the 3012 the computation gives for (12, 3).
   */
  method CollisionExample() returns (first: U64, second: U64, ghost count: nat)
    ensures first == 23001 && second == 23001
    ensures count == 1
  {
    var f := (x: U64, y: U64) => (x + 1000 * y) % TWO_TO_THE_64;
    assert f(12, 3) == 3012;
    var cacher := new Cacher(f);
    first := cacher.Value(1, 23);
    KeyCollision();
    second := cacher.Value(12, 3);
    count := cacher.calls;
  }
}
