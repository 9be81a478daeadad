/*
 * The StepInPrimes class: one growable sieve of Eratosthenes shared by every
 * call, extended on demand by `CalculateSieve`, read by `IsPrime`, and
 * consumed by the forward scan `Step` that looks for two primes a fixed gap
 * apart.
 *
 * Entry `i` of the sieve stands for the integer `i + 2`.
 */
module StepsInPrimes {
  import opened Primes

  /** The larger of two integers. */
  function Max(a: int, b: int): (r: int)
  {
    if a < b then b else a
  }

  /*
   * The marking pass of the sieve.
   *
   * Index `j` strikes index `k` when `k` is one of the indices the stride of
   * `v = j + 2` visits: `v * v - 2`, then every `v` further. In terms of the
   * represented integers: `v * v <= k + 2` and `v` divides `k + 2`.
   */
  predicate Strikes(j: int, k: int)
  {
    j >= 0 && (j + 2) * (j + 2) <= k + 2 && Divides(j + 2, k + 2)
  }

  /** Some index below `lim` that is still marked in `s` strikes `k`. */
  predicate StruckBelow(s: seq<bool>, lim: int, k: int)
  {
    exists j :: 0 <= j < lim && j < |s| && s[j] && Strikes(j, k)
  }

  /**
   * The state a marking pass leaves behind in the entries from `from` on:
   * such an entry is still marked exactly when no marked index strikes it.
   * The entries below `from` are whatever earlier passes left there.
   */
  ghost predicate SieveEquation(s: seq<bool>, from: int)
  {
    forall k :: 0 <= k < |s| && from <= k ==> (s[k] <==> !StruckBelow(s, |s|, k))
  }

  /** Every entry of `s` tells the truth about the integer it stands for. */
  ghost predicate Exact(s: seq<bool>)
  {
    forall i :: 0 <= i < |s| ==> (s[i] <==> Prime(i + 2))
  }

  /** The one exact sieve of each length. */
  ghost function ExactSieve(len: nat): (s: seq<bool>)
  {
    seq(len, i => Prime(i + 2))
  }

  lemma ExactIsExactSieve(s: seq<bool>)
    requires Exact(s)
    ensures s == ExactSieve(|s|)
  {
  }

  /** A stride only ever writes past the index it comes from. */
  lemma StrikesForward(j: int, k: int)
    requires Strikes(j, k)
    ensures j + 2 <= k
  {
    var v := j + 2;
    assert v * v >= 2 * v by {
      assert v * v - 2 * v == v * (v - 2);
      assert v * (v - 2) >= 0;
    }
  }

  /**
   * Under an exact prefix, entry `k` is struck exactly when `k + 2` is
   * composite: the strikes that reach `k` come from indices below `k`, and a
   * composite has a prime factor no larger than its square root.
   */
  lemma StruckIffComposite(s: seq<bool>, k: int)
    requires 0 <= k < |s|
    requires forall i :: 0 <= i < k ==> (s[i] <==> Prime(i + 2))
    ensures StruckBelow(s, |s|, k) <==> !Prime(k + 2)
  {
    PrimeIffNoSmallPrimeFactor(k + 2);
    if StruckBelow(s, |s|, k) {
      var j :| 0 <= j < |s| && s[j] && Strikes(j, k);
      StrikesForward(j, k);
      assert Prime(j + 2);
    }
    if !Prime(k + 2) {
      var p :| Prime(p) && p * p <= k + 2 && Divides(p, k + 2);
      assert Strikes(p - 2, k);
      StrikesForward(p - 2, k);
      assert s[p - 2];
    }
  }

  /**
   * The central fact about an incremental pass: if the entries below `from`
   * were exact before it, and the pass leaves the sieve equation in place
   * from `from` on, then the whole sieve is exact.
   */
  lemma {:induction false} SieveEquationExact(s: seq<bool>, from: int)
    requires 0 <= from <= |s|
    requires forall i :: 0 <= i < from ==> (s[i] <==> Prime(i + 2))
    requires SieveEquation(s, from)
    ensures Exact(s)
    decreases |s| - from
  {
    if from < |s| {
      StruckIffComposite(s, from);
      SieveEquationExact(s, from + 1);
    }
  }

  /**
   * Taking index `j` into account: when `t` agrees with `s` up to and
   * including `j`, the indices below `j + 1` marked in `t` strike `k` exactly
   * when those below `j` in `s` do, or `j` itself does.
   */
  lemma StruckBelowStep(s: seq<bool>, t: seq<bool>, j: int, k: int)
    requires |s| == |t| && 0 <= j < |s|
    requires forall i :: 0 <= i <= j ==> s[i] == t[i]
    ensures StruckBelow(t, j + 1, k) <==> StruckBelow(s, j, k) || (s[j] && Strikes(j, k))
  {
    if StruckBelow(t, j + 1, k) {
      var i :| 0 <= i < j + 1 && i < |t| && t[i] && Strikes(i, k);
      assert s[i];
    }
    if StruckBelow(s, j, k) {
      var i :| 0 <= i < j && i < |s| && s[i] && Strikes(i, k);
      assert t[i];
    }
    if s[j] && Strikes(j, k) {
      assert t[j];
    }
  }

  /** Consecutive multiples of `v` are `v` apart: nothing between them is one. */
  lemma NoMultipleBetween(v: int, x: int, y: int)
    requires Divides(v, x) && x < y < x + v
    ensures !Divides(v, y)
  {
    Cofactor(v, x);
    ModOfMultiplePlus(v, x / v, y - x);
  }

  lemma NextMultiple(v: int, x: int)
    requires Divides(v, x)
    ensures Divides(v, x + v)
  {
    Cofactor(v, x);
    assert x + v == v * (x / v + 1);
    DividesProduct(v, x / v + 1);
  }

  /**
   * What `is_prime` answers once the sieve is exact: no for zero and the
   * negatives, yes for 1 and for every prime. Computed by trial division.
   */
  predicate PrimeAnswer(p: int)
  {
    p > 0 && (p == 1 || IsPrimeByTrial(p))
  }

  lemma PrimeAnswerMeaning(p: int)
    ensures PrimeAnswer(p) <==> p > 0 && (p == 1 || Prime(p))
  {
    TrialDivisionDecidesPrime(p);
  }

  /**
   * The largest sieve size that probing the partners of `[m, hi)` asks for:
   * `f + g - 1` for each `f` there that is answered as prime, or 0 when
   * there is none. Sizes are requested one by one, and the sieve only grows,
   * so it ends at the largest request.
   */
  function ScanDemand(g: int, m: int, hi: int): (r: int)
    decreases hi - m
  {
    if hi <= m then 0
    else Max(ScanDemand(g, m, hi - 1), if PrimeAnswer(hi - 1) then hi - 1 + g - 1 else 0)
  }

  /**
   * Every partner probed in `[m, hi)` is within the demand, and the demand
   * is 0 or one of those requests.
   */
  lemma {:induction false} ScanDemandIsLargestRequest(g: int, m: int, hi: int)
    ensures forall f :: m <= f < hi && PrimeAnswer(f) ==> f + g - 1 <= ScanDemand(g, m, hi)
    ensures ScanDemand(g, m, hi) == 0 ||
      exists f :: m <= f < hi && PrimeAnswer(f) && ScanDemand(g, m, hi) == f + g - 1
    decreases hi - m
  {
    if hi > m {
      ScanDemandIsLargestRequest(g, m, hi - 1);
    }
  }

  /** Both `first` and `first + g` are answered as prime. */
  predicate GapPairAt(g: int, first: int)
  {
    PrimeAnswer(first) && PrimeAnswer(first + g)
  }

  /**
   * The pair `step` returns: the least `first` in `[m, n]` with `first` and
   * `first + g` both answered as prime, as `(first, first + g)`, or the
   * sentinel `(0, 0)` when there is none. The second value is not bounded by
   * `n`.
   */
  function FirstGapPair(g: int, m: int, n: int): (r: (int, int))
    decreases n + 1 - m
  {
    if m > n then (0, 0)
    else if GapPairAt(g, m) then (m, m + g)
    else FirstGapPair(g, m + 1, n)
  }

  /**
   * `FirstGapPair` finds the least witness: its result is the sentinel
   * exactly when no `first` in `[m, n]` qualifies, and otherwise a
   * qualifying pair `(first, first + g)` with no qualifying value in
   * `[m, first)`.
   */
  lemma {:induction false} FirstGapPairLeast(g: int, m: int, n: int)
    decreases n + 1 - m
    ensures var r := FirstGapPair(g, m, n);
      (r == (0, 0) || (m <= r.0 <= n && r.1 == r.0 + g && GapPairAt(g, r.0))) &&
      (forall f :: m <= f <= n && f < r.0 ==> !GapPairAt(g, f)) &&
      (r == (0, 0) <==> forall f :: m <= f <= n ==> !GapPairAt(g, f))
  {
    if m <= n && !GapPairAt(g, m) {
      FirstGapPairLeast(g, m + 1, n);
    }
  }

  /**
   * What a scan's result and the sieve size it leaves behind imply: the
   * least-witness facts of `FirstGapPairLeast`, and bounds on the size from
   * every partner that was probed.
   */
  lemma ScanOutcome(g: int, m: int, n: int, pair: (int, int), size: int, oldSize: int)
    requires pair == FirstGapPair(g, m, n) && 0 <= n && 0 <= oldSize
    requires pair == (0, 0) ==> size == Max(Max(oldSize, n), ScanDemand(g, m, n + 1))
    requires pair != (0, 0) ==> size == Max(Max(oldSize, n), ScanDemand(g, m, pair.0 + 1))
    ensures pair == (0, 0) <==> forall f :: m <= f <= n ==> !GapPairAt(g, f)
    ensures pair != (0, 0) ==> m <= pair.0 <= n && pair.1 == pair.0 + g && GapPairAt(g, pair.0)
    ensures forall f :: m <= f <= n && f < pair.0 ==> !GapPairAt(g, f)
    ensures n <= size && oldSize <= size <= Max(oldSize, Max(n, n + g - 1))
    ensures forall f :: m <= f <= n && (pair == (0, 0) || f <= pair.0) && PrimeAnswer(f) && f + g > 2 ==> f + g - 1 <= size
    ensures pair != (0, 0) && pair.1 > 2 ==> pair.1 - 1 <= size
  {
    FirstGapPairLeast(g, m, n);
    var hi := if pair == (0, 0) then n + 1 else pair.0 + 1;
    ScanDemandIsLargestRequest(g, m, hi);
  }

  /** The pairs the test routine `Test_Steps_In_Primes` expects. */
  lemma StepVector2From100()
    ensures FirstGapPair(2, 100, 110) == (101, 103)
  {
  }

  lemma StepVector2From2()
    ensures FirstGapPair(2, 2, 50) == (3, 5)
  {
  }

  lemma StepVector4From100()
    ensures FirstGapPair(4, 100, 110) == (103, 107)
  {
  }

  lemma StepVector6From100()
    ensures FirstGapPair(6, 100, 110) == (101, 107)
  {
  }

  /** The upper half of the search behind `StepVector8From300`. */
  lemma StepVector8From331()
    ensures FirstGapPair(8, 331, 400) == (359, 367)
  {
    assert FirstGapPair(8, 359, 400) == (359, 367);
    assert FirstGapPair(8, 355, 400) == FirstGapPair(8, 359, 400);
    assert FirstGapPair(8, 351, 400) == FirstGapPair(8, 355, 400);
    assert FirstGapPair(8, 347, 400) == FirstGapPair(8, 351, 400);
    assert FirstGapPair(8, 343, 400) == FirstGapPair(8, 347, 400);
    assert FirstGapPair(8, 339, 400) == FirstGapPair(8, 343, 400);
    assert FirstGapPair(8, 335, 400) == FirstGapPair(8, 339, 400);
    assert FirstGapPair(8, 331, 400) == FirstGapPair(8, 335, 400);
  }

  lemma StepVector8From300()
    ensures FirstGapPair(8, 300, 400) == (359, 367)
  {
    StepVector8From331();
    assert FirstGapPair(8, 327, 400) == FirstGapPair(8, 331, 400);
    assert FirstGapPair(8, 323, 400) == FirstGapPair(8, 327, 400);
    assert FirstGapPair(8, 319, 400) == FirstGapPair(8, 323, 400);
    assert FirstGapPair(8, 315, 400) == FirstGapPair(8, 319, 400);
    assert FirstGapPair(8, 311, 400) == FirstGapPair(8, 315, 400);
    assert FirstGapPair(8, 307, 400) == FirstGapPair(8, 311, 400);
    assert FirstGapPair(8, 303, 400) == FirstGapPair(8, 307, 400);
    assert FirstGapPair(8, 300, 400) == FirstGapPair(8, 303, 400);
  }

  lemma StepVector10From300()
    ensures FirstGapPair(10, 300, 400) == (307, 317)
  {
    assert FirstGapPair(10, 307, 400) == (307, 317);
  }

  /**
   * An odd gap from 3 on never qualifies: of `first` and `first + g` one is
   * even and at least 4, so it is not answered as prime.
   */
  lemma OddGapFindsNothing(g: int, m: int, n: int)
    requires g > 0 && g % 2 == 1 && m >= 3
    ensures FirstGapPair(g, m, n) == (0, 0)
  {
    FirstGapPairLeast(g, m, n);
    forall f | m <= f <= n
      ensures !GapPairAt(g, f)
    {
      if f % 2 == 0 {
        assert Divides(2, f);
      } else {
        assert Divides(2, f + g);
      }
    }
  }

  lemma StepVector11From30000()
    ensures FirstGapPair(11, 30000, 100000) == (0, 0)
  {
    OddGapFindsNothing(11, 30000, 100000);
  }

  /**
   * Consequences of answering 1 as prime: a search from 1 may return a pair
   * starting at 1, and a one-point range whose second value is composite
   * yields the sentinel.
   */
  lemma StepEdgeCases()
    ensures FirstGapPair(1, 1, 10) == (1, 2)
    ensures FirstGapPair(2, 7, 7) == (0, 0)
    ensures FirstGapPair(2, 8, 7) == (0, 0)
  {
  }

  /**
   * The sieve shared by every call. The C++ class keeps it in one static
   * vector, created empty when the program starts; here it is the field of
   * the one object every call goes through.
   */
  class StepInPrimes {
    var sieve: seq<bool>

    /** The class invariant: every entry tells the truth about its integer. */
    ghost predicate Valid()
      reads this
    {
      Exact(sieve)
    }

    constructor ()
      ensures sieve == [] && Valid()
    {
      sieve := [];
    }

    /**
     * Extends the sieve to `N` entries. A request below the current size
     * changes nothing; otherwise the new entries start marked and every
     * marked index, old or new, strikes its multiples in the new part only.
     */
    method CalculateSieve(N: nat)
      modifies this
      ensures N >= old(|sieve|) ==> |sieve| == N
      ensures old(|sieve|) <= |sieve| && sieve[..old(|sieve|)] == old(sieve)
      ensures SieveEquation(sieve, old(|sieve|))
      ensures N <= old(|sieve|) ==> sieve == old(sieve)
      ensures old(Valid()) ==> Valid() && sieve == ExactSieve(Max(old(|sieve|), N))
    {
      var n := |sieve|;
      if N < n {
        return;
      }
      sieve := sieve + seq(N - n, _ => true);
      for j := 0 to N
        invariant |sieve| == N
        invariant sieve[..n] == old(sieve)
        invariant forall k :: n <= k < N ==> (sieve[k] <==> !StruckBelow(sieve, j, k))
      {
        ghost var before := sieve;
        if !sieve[j] {
          forall k | n <= k < N
            ensures StruckBelow(sieve, j + 1, k) <==> StruckBelow(before, j, k)
          {
            StruckBelowStep(before, sieve, j, k);
          }
          continue;
        }
        var v := j + 2;
        var k := v * v - 2;
        assert Divides(v, k + 2) by {
          DividesProduct(v, v);
        }
        while k < N
          invariant |sieve| == N
          invariant k + 2 >= v * v && Divides(v, k + 2)
          invariant forall i :: 0 <= i < N ==> (sieve[i] <==> before[i] && !(n <= i < k && Strikes(j, i)))
        {
          if n <= k {
            sieve := sieve[k := false];
          }
          forall i | k < i < k + v
            ensures !Strikes(j, i)
          {
            NoMultipleBetween(v, k + 2, i + 2);
          }
          NextMultiple(v, k + 2);
          k := k + v;
        }
        forall i | 0 <= i <= j
          ensures sieve[i] == before[i]
        {
          if Strikes(j, i) {
            StrikesForward(j, i);
          }
        }
        forall k | n <= k < N
          ensures sieve[k] <==> !StruckBelow(sieve, j + 1, k)
        {
          StruckBelowStep(before, sieve, j, k);
        }
      }
      if old(Valid()) {
        SieveEquationExact(sieve, n);
        ExactIsExactSieve(sieve);
      }
    }

    /**
     * Answers whether `p` is prime from the sieve, first extending it to
     * `p - 1` entries when `p > 2`. Zero and the negatives are not prime;
     * 1 and 2 are answered yes without touching the sieve.
     */
    method IsPrime(p: int) returns (r: bool)
      modifies this
      ensures p <= 2 ==> sieve == old(sieve)
      ensures p > 2 ==> |sieve| == Max(old(|sieve|), p - 1)
      ensures old(|sieve|) <= |sieve| && sieve[..old(|sieve|)] == old(sieve)
      ensures SieveEquation(sieve, old(|sieve|))
      ensures r == (p > 0 && (p == 1 || p == 2 || sieve[p - 2]))
      ensures old(Valid()) ==> (r <==> p == 1 || Prime(p))
      ensures old(Valid()) ==> Valid() && (r <==> PrimeAnswer(p))
    {
      if p <= 0 {
        r := false;
      } else if p == 1 || p == 2 {
        r := true;
      } else {
        CalculateSieve(p - 1);
        r := sieve[p - 2];
      }
      PrimeAnswerMeaning(p);
    }

    /**
     * The scan loop of `step`: tries `first` from `m` to `n`, probing
     * `first` and, when it is answered as prime, its partner `first + g`;
     * stops at the first pair answered as prime on both sides. A sieve that
     * already covers `n` is grown only by the partners it probes.
     */
    method Scan(g: int, m: int, n: int) returns (pair: (int, int))
      requires Valid() && n <= |sieve|
      modifies this
      ensures Valid()
      ensures pair == FirstGapPair(g, m, n)
      ensures pair == (0, 0) ==> |sieve| == Max(old(|sieve|), ScanDemand(g, m, n + 1))
      ensures pair != (0, 0) ==> |sieve| == Max(old(|sieve|), ScanDemand(g, m, pair.0 + 1))
    {
      ghost var target := FirstGapPair(g, m, n);
      pair := (0, 0);
      var first := m;
      while first <= n
        invariant Valid()
        invariant m <= first && (first <= n + 1 || first == m)
        invariant FirstGapPair(g, first, n) == target
        invariant |sieve| == Max(old(|sieve|), ScanDemand(g, m, first))
        decreases n + 1 - first
      {
        var ok := IsPrime(first);
        if ok {
          var next := first + g;
          ok := IsPrime(next);
          if ok {
            pair := (first, next);
            break;
          }
        }
        first := first + 1;
      }
      assert pair == (0, 0) ==> ScanDemand(g, m, first) == ScanDemand(g, m, n + 1);
    }

    /**
     * Scans `first` upward from `m` to `n` for the first `first` such that
     * `first` and `first + g` are both answered as prime, returning the pair
     * or the sentinel `(0, 0)`. The sieve covers at least `n` entries
     * afterwards, and grows past `n` whenever a probed `first + g` lies
     * beyond it: it ends at the largest size ever requested.
     */
    method Step(g: int, m: int, n: int) returns (pair: (int, int))
      requires Valid() && m >= 0 && n >= 0
      modifies this
      ensures Valid()
      ensures pair == FirstGapPair(g, m, n)
      ensures pair == (0, 0) <==> forall f :: m <= f <= n ==> !GapPairAt(g, f)
      ensures pair != (0, 0) ==> m <= pair.0 <= n && pair.1 == pair.0 + g && GapPairAt(g, pair.0)
      ensures forall f :: m <= f <= n && f < pair.0 ==> !GapPairAt(g, f)
      ensures n <= |sieve| && old(|sieve|) <= |sieve| <= Max(old(|sieve|), Max(n, n + g - 1))
      ensures forall f :: m <= f <= n && (pair == (0, 0) || f <= pair.0) && PrimeAnswer(f) && f + g > 2 ==> f + g - 1 <= |sieve|
      ensures pair != (0, 0) && pair.1 > 2 ==> pair.1 - 1 <= |sieve|
      ensures pair == (0, 0) ==> |sieve| == Max(Max(old(|sieve|), n), ScanDemand(g, m, n + 1))
      ensures pair != (0, 0) ==> |sieve| == Max(Max(old(|sieve|), n), ScanDemand(g, m, pair.0 + 1))
    {
      CalculateSieve(n);
      pair := Scan(g, m, n);
      ScanOutcome(g, m, n, pair, |sieve|, old(|sieve|));
    }
  }
}
