# Steps in primes: an incremental sieve of Eratosthenes

This project models the `StepInPrimes` class of the `codewars` repository.
The class keeps one growable table of booleans, the sieve. Entry `i` stands
for the integer `i + 2`. The sieve is shared by every call and only grows.
The class has three operations:

- `calculate_sieve(N)` grows the sieve to `N` entries. New entries start
  marked. Every marked index `j`, old or new, strikes the multiples of
  `v = j + 2` from `v * v` on. Only entries at or past the old size are
  written.
- `is_prime(p)` answers from the sieve. It grows the sieve to `p - 1`
  entries first when `p > 2`.
- `step(g, m, n)` scans `first` upward from `m` to `n`. It returns the first
  `(first, first + g)` where both numbers pass `is_prime`, or `(0, 0)` when
  there is none.

The model is two modules.

- `Primes` holds primality by its definition (`Prime`), the fact that every
  composite has a prime factor no larger than its square root
  (`SmallPrimeFactor`), and a trial-division reference (`IsPrimeByTrial`)
  proved equal to `Prime`.
- `StepsInPrimes` holds the class `StepInPrimes`. Its `sieve` field is a
  `seq<bool>` that the methods reassign. `Valid()` is the invariant "every
  entry tells the truth about its integer".

`CalculateSieve` is specified by the sieve equation. Each entry from the old
size on is still marked exactly when no marked index strikes it.
`SieveEquationExact` proves the central claim from that equation: if the old
entries were exact, the whole sieve is exact afterwards. Old primes go on
striking the new region, and that is what the proof needs.

`is_prime` answers `true` for 1. The conventional definition does not count 1
as prime. The model follows the code, so `Step` from `m = 1` can return
`(1, 1 + g)` (`StepEdgeCases`).

The search `step` is specified by the pure function `FirstGapPair`. The lemma
`FirstGapPairLeast` proves it finds the least witness or the sentinel. The
test routine's expected pairs are proved about that function. `Step` returns
exactly its value whenever the sieve is valid. The size the sieve is left at
is specified by `ScanDemand`, the largest size that probing a partner
`first + g` asked for. `Step` first grows the sieve to `n` entries and then
runs the loop, `Scan`; afterwards the sieve holds exactly the larger of its
old size, `n` and that demand.

## Model

| member | source | states |
|---|---|---|
| `StepsInPrimes.StepInPrimes.constructor` | codewars/StepsInPrimes.cpp:88 | The shared sieve starts empty, and an empty sieve is exact. |
| `StepsInPrimes.StepInPrimes.CalculateSieve` | codewars/StepsInPrimes.cpp:7-47 | A request of at least the current size makes the size exactly `N`, and the old entries are kept unchanged. Every new entry is marked exactly when no marked index `j` with `(j+2)^2 <= k+2` and `(j+2)` dividing `k+2` strikes it. A request of at most the current size leaves the sieve as it was, so calling twice equals calling once. An exact sieve stays exact and equals the exact sieve of the new length. |
| `StepsInPrimes.SieveEquationExact` | codewars/StepsInPrimes.cpp:21-41 | Suppose the entries below the old size were exact and the new entries satisfy the sieve equation. Then every entry `i` is marked exactly when `i + 2` is prime. |
| `StepsInPrimes.StruckIffComposite` | codewars/StepsInPrimes.cpp:29-34 | Suppose the entries below `k` are exact. Then entry `k` is struck by some marked stride exactly when `k + 2` is composite. |
| `StepsInPrimes.StrikesForward` | codewars/StepsInPrimes.cpp:29 | The stride of index `j` starts at `(j+2)^2 - 2`, so it only writes indices at least `j + 2`. Entry `j` is therefore final by the time the outer loop reads it. |
| `StepsInPrimes.StruckBelowStep` | codewars/StepsInPrimes.cpp:21-24 | Each outer iteration adds the strikes of index `j` exactly when `j` is still marked. |
| `Primes.SmallPrimeFactor` | codewars/StepsInPrimes.cpp:29 | Every composite `c` has a prime factor `p` with `p * p <= c`. This is why striking may start at `v * v`. |
| `Primes.LeastDivisorFrom` | codewars/StepsInPrimes.cpp:29 | The least divisor of `c` from `d` on divides `c`, lies in `[d, c]`, and no number between `d` and it divides `c`. |
| `Primes.PrimeIffNoSmallPrimeFactor` | codewars/StepsInPrimes.cpp:21-34 | `v` is prime exactly when `v >= 2` and no prime `p` with `p * p <= v` divides it. Those are the primes whose strides reach `v`. |
| `StepsInPrimes.StepInPrimes.IsPrime` | codewars/StepsInPrimes.cpp:49-52 | `p <= 0` answers false. `p == 1` and `p == 2` answer true and leave the sieve alone. For `p > 2` the sieve grows to exactly `max(old size, p - 1)` entries and the answer is entry `p - 2`. On a valid sieve the answer is true exactly when `p` is 1 or prime, and the sieve stays valid. |
| `StepsInPrimes.PrimeAnswer` | codewars/StepsInPrimes.cpp:51 | The reference for what `is_prime` answers on an exact sieve: no for zero and the negatives, yes for 1, and for other values the verdict of trial division. |
| `StepsInPrimes.PrimeAnswerMeaning` | codewars/StepsInPrimes.cpp:51 | The value `is_prime` returns on an exact sieve is true exactly for 1 and the primes. |
| `Primes.TrialDivisionDecidesPrime` | codewars/StepsInPrimes.cpp:51 | Trial division by 2 and the odd numbers up to the square root agrees with the definition of prime on every integer. |
| `Primes.NoOddFactorFromCorrect` | codewars/StepsInPrimes.cpp:51 | Odd trial division from `d` finds no divisor exactly when no odd number from `d` up to the square root divides `v`. |
| `StepsInPrimes.StepInPrimes.Step` | codewars/StepsInPrimes.cpp:55-86 | On a valid sieve, the result is `(0, 0)` exactly when no `first` in `[m, n]` has `first` and `first + g` both passing `is_prime`. Otherwise it is `(first, first + g)` for the least such `first`, and `first + g` may exceed `n`. The sieve stays valid, and its size afterwards is exactly the largest of the old size, `n`, and `first + g - 1` for every scanned `first` that passed `is_prime` (up to the returned one). So it holds at least `pair.1 - 1` entries for a found pair, and at most `max(old size, n, n + g - 1)`. |
| `StepsInPrimes.StepInPrimes.Scan` | codewars/StepsInPrimes.cpp:69-85 | On a valid sieve that already covers `n`, the loop returns exactly `FirstGapPair(g, m, n)`. It keeps the sieve valid, and leaves its size at the larger of the old size and the demand of the partners probed up to the returned `first`, or up to `n` when nothing qualifies. |
| `StepsInPrimes.ScanDemandIsLargestRequest` | codewars/StepsInPrimes.cpp:77-79 | Every partner `f + g` probed for a scanned `f` that passed `is_prime` asks for at most the demand, and the demand is 0 or one of those requests. |
| `StepsInPrimes.ScanOutcome` | codewars/StepsInPrimes.cpp:69-85 | From the scan's result and the size it leaves, it derives the least-witness facts and the bounds on the size from every probed partner. |
| `StepsInPrimes.FirstGapPair` | codewars/StepsInPrimes.cpp:69-85 | The reference for the loop: the pair at the least `first` in `[m, n]` whose `first` and `first + g` are both answered as prime, or `(0, 0)`. |
| `StepsInPrimes.FirstGapPairLeast` | codewars/StepsInPrimes.cpp:69-85 | The scan's result is the sentinel exactly when no value in `[m, n]` qualifies. Otherwise it is the pair at the least qualifying value. |
| `StepsInPrimes.StepVector2From100` | codewars/StepsInPrimes.cpp:144 | `step(2, 100, 110)` is `(101, 103)`. |
| `StepsInPrimes.StepVector2From2` | codewars/StepsInPrimes.cpp:147 | `step(2, 2, 50)` is `(3, 5)`. |
| `StepsInPrimes.StepVector4From100` | codewars/StepsInPrimes.cpp:148 | `step(4, 100, 110)` is `(103, 107)`. |
| `StepsInPrimes.StepVector6From100` | codewars/StepsInPrimes.cpp:149 | `step(6, 100, 110)` is `(101, 107)`. |
| `StepsInPrimes.StepVector8From300` | codewars/StepsInPrimes.cpp:150 | `step(8, 300, 400)` is `(359, 367)`. |
| `StepsInPrimes.StepVector10From300` | codewars/StepsInPrimes.cpp:151 | `step(10, 300, 400)` is `(307, 317)`. |
| `StepsInPrimes.StepVector11From30000` | codewars/StepsInPrimes.cpp:145 | `step(11, 30000, 100000)` is the sentinel `(0, 0)`. |
| `StepsInPrimes.OddGapFindsNothing` | codewars/StepsInPrimes.cpp:69-85 | For an odd gap `g > 0` and a start `m >= 3`, the scan finds nothing: one of `first` and `first + g` is even and at least 4, so it fails `is_prime`. |
| `StepsInPrimes.StepEdgeCases` | codewars/StepsInPrimes.cpp:51 | Because 1 passes `is_prime`, `step(1, 1, 10)` is `(1, 2)`. A one-point range `[7, 7]` with gap 2 gives the sentinel, since 9 is composite. An empty range gives the sentinel too. |
| `StepsInPrimes.ExactIsExactSieve` | codewars/StepsInPrimes.hpp:7 | An exact sieve is determined by its length. Entry `i` stands for `i + 2`, so the valid state after any call depends only on the sieve's size. |

## Left out

- The `out_of_range` throws in `calculate_sieve` and `step` are not modelled. Each compares a value with its own type's maximum, so neither can fire.
- Fixed-width integers are not modelled. The model uses unbounded integers for `size_t` and `long long`, including the `(j + 2) * (j + 2)` product.
- `Step` requires `m >= 0` and `n >= 0` in place of the `size_t` casts. A negative `n` would ask for an impossibly large sieve. A negative `m` wraps to a value above `n`, so the source returns the sentinel.
- `Step` allows any gap `g`. The cast of `g` to `size_t` and of `first + g` back to `long long` wraps twice on a 64-bit machine. Together they give the mathematical `first + g`, and a negative sum is answered "not prime".
- `Step` requires `Valid()`. The constructor establishes it, and every method keeps it. Without it the answers of `is_prime` are not tied to primality.
- The static field is modelled as the field of the one `StepInPrimes` object that every call goes through.
- `std::vector<bool>` bit-packing and memory exhaustion are not modelled. The sieve is a `seq<bool>` that the methods reassign, so the model does not capture in-place updates of one buffer.
- The test routine (`testequal`, `dotest`, `primes`, `Test_Steps_In_Primes`) is not modelled, because it is console output. Its expected pairs are proved as lemmas about `FirstGapPair`.
- The commented-out printing and the `w` column counter in `calculate_sieve` are not modelled, because they only format output.
