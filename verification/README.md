# A verified model of SmokeRand's exact kernels

SmokeRand is a test suite for pseudorandom number generators with a large collection of generators in C.
This project models the parts of it that carry a theorem over every input or over every run, and proves
those theorems with Dafny. `dafny verify dfyconfig.toml` checks everything.

How the C code is represented:

* A generator's state is a class with the fields of the C struct; its step is a method that updates them in
  place; loops and arrays are kept. Every method is tied to a specification function, and the theorems are
  lemmas about those functions.
* Code that multiplies and carries works on integers with the word sizes as subset types (`u32`, `u64`), so
  that each assignment to a typed variable is also a proof that the C expression does not overflow. Intended
  wrap-around is written as `%`, shifts as multiplication and division by powers of two. Where the C code
  combines two shifted halves with OR, the two halves are disjoint and are added; the one OR whose halves may
  meet, in MIXMAX, is a real OR.
* Ciphers, twisters and MELG work on bit vectors (`bv8`, `bv32`, `bv64`), which wrap around by definition.
* `unsigned_mul128`, `unsigned_muladd128` and `unsigned_add128` are specification functions with an exact
  meaning, and the portable version of the header is proved to compute them (`Int128`).

The files, hardest results first:

| file | contents |
|---|---|
| BerlekampMassey.dfy | the routine of `apps/sr_tiny.c` returns the linear complexity: Massey's bound carried through the in-place loop |
| CarryRecursion.dfy, OneTapRecursion.dfy, FoldedRecursion.dfy, CarryGenerators.dfy, Mwc2110Seeding.dfy | multiply-with-carry in any base, lag and taps is multiplication by the inverse of the base; every digit of a one-tap run, folded or not, as a function of the start; seven generators are instances |
| Mixmax.dfy | MIXMAX with lazy residues, its OR-based rotation, its two modular products and its checksum |
| Inverses.dfy | Newton lifting modulo 2^64 and 2^128, the extended Euclid loop, the two inversive generators |
| Aes.dfy, AesLaws.dfy, GaloisField.dfy, Kuznyechik.dfy, KuznyechikMatrix.dfy, KuznyechikRows.dfy, ByteTables.dfy, Union128.dfy | table AES and table Kuznyechik against FIPS 197 and RFC 7801, and the matrix of L as the sixteenth power of its feedback register |
| ChaCha.dfy | the scalar, row-vector and four-way interleaved ChaCha deliver one stream for ever (RFC 7539) |
| Des.dfy, DesLaws.dfy | DES round trip, the round function table by table, the initial permutation and every bit of every round key (FIPS 46-3) |
| Melg.dfy, MersenneTwister.dfy, LaggedFibonacci.dfy, RingWindow.dfy | in-place block regeneration and the MELG state machine against infinite recurrences |
| Sorting.dfy | the quicksort / insertion sort hybrid and the duplicate spacings of the birthday test |
| ModularGenerators.dfy | reductions modulo 2^61 - 1, 2^127 - 1, 2^31 - 1, 10^15 and a 64-bit composite |
| LimbGenerators.dfy, Int128.dfy | linear congruential generators and 128-bit arithmetic on 16-bit and 32-bit limbs |
| Arithmetic.dfy, BitOperations.dfy | the number theory they share: powers, congruences, quotient and remainder, Euclid's lemma; OR and single bits of numbers |

The functions that a specification and the code share are small, and each has a law that does not mention its
body: linearity together with the images of single bits, an inverse, a polynomial remainder, or a documented value.

Four results are exact conditions under which the code does what it is meant to do:

* `Mixmax.MulwuExact`: the OR-based rotation is multiplication by 2^51 modulo 2^61 - 1 exactly when bits 0-2 and
  bits 61-63 of its argument do not meet. `Mixmax.MulwuLazy` and the loop invariants show that they never do on
  a reachable state, which answers the question in the comment at generators/mixmax.c:209.
* `BerlekampMassey.BerlekampMassey`: work arrays of n cells, as the source allocates them, are enough for every
  input but the empty sequence and 0...01; on those, and on no others, a statement of the routine covers more
  than n cells.
* `ModularGenerators.Lcg127Prime.Next`: the new state is the canonical residue, except that a positive multiple of
  the modulus gives 2^127 - 1 instead of 0. For a positive multiplier and 2^127 - 1 prime that happens if and only
  if the old state is 2^127 - 1 already, and then the generator stays there for ever. The comment at
  generators/lcg127prime.c:94 says that a correct initialization prevents it; `Lcg127Prime.constructor` shows
  that the initialization does, unless both seed words are at least 2^64 - 2.
* `OneTapRecursion.DigitAfter` and `FoldedRecursion.FoldedDigitAfter`: the comment at
  generators/mwc2110_u64.c:90-110 computes digit n as y_n = (U_0 b^-n mod m) mod b. For plain multiply-with-carry
  that is right from every canonical start but the largest, so for every output of a seeded `Mwc8222`. In base
  2^64 - 1, where a positive multiple of the base leaves the base itself in place of 0, it is not: digit n is
  y_n - e_n, plus b if that is below 1 (or 0, if its sum was 0), with a borrow e_n that starts at 0 for U_0 < m
  and at 1 otherwise, and is set after a digit other than 0 with y_n <= e_n. So the form holds exactly when e_n = 0 and y_n is not 0 in place of b
  (`ClosedFormHolds`), which the starting state decides. `CarryGenerators.FailingSeed` gives a seed whose first
  output is 2^64 - 1 where the form gives 0.

## Model

| member | source | states |
|---|---|---|
| `BerlekampMassey.BerlekampMassey` | apps/sr_tiny.c:492-527 | For every bit sequence the result is its linear complexity: some register of that length produces the sequence and no shorter one does. Arrays of n cells keep every access in bounds unless the sequence is empty or 0...01, and exactly on those inputs a statement covers more than n cells |
| `BerlekampMassey.MasseyBound` | apps/sr_tiny.c:507-522 | Massey's lemma: if length L fits N bits and fails on bit N, every register that fits N + 1 bits has length at least N + 1 - L |
| `BerlekampMassey.DoubleSymmetric` | apps/sr_tiny.c:507-522 | The double XOR sum of two registers over one sequence may be summed in either order |
| `BerlekampMassey.DoubleCollapses` | apps/sr_tiny.c:507-522 | When one register fits the last L bits, the double sum is its discrepancy alone |
| `BerlekampMassey.ConvUpdate` | apps/sr_tiny.c:512-514 | The discrepancy of C + x^shift B is the XOR of the two discrepancies, one of them shifted |
| `BerlekampMassey.UpdateFits` | apps/sr_tiny.c:512-520 | After a correction the new register fits one bit more, is zero beyond its new length, is still shortest, and the saved register is the one given up |
| `BerlekampMassey.KeepFits` | apps/sr_tiny.c:507-522 | Without a correction the same register fits one bit more and is still shortest |
| `BerlekampMassey.Correct` | apps/sr_tiny.c:513-519 | The in-place correction with its two copies re-establishes the loop invariant with L = N + 1 - L exactly when 2L <= N; its copies and the XOR cover more than n cells exactly when the new length is n |
| `BerlekampMassey.Discrepancy` | apps/sr_tiny.c:508-511 | The inner loop computes the XOR of the new bit and the feedback, which is 1 when the register gets it wrong |
| `BerlekampMassey.LastJump` | apps/sr_tiny.c:515-519 | The length jumps to n only on 0...01 |
| `BerlekampMassey.XorBytes` | apps/sr_tiny.c:465-483 | Cells of a range are XORed with b, all others keep their value |
| `BerlekampMassey.CopyCells` | apps/sr_tiny.c:513-518 | The first cells of dst become those of src, the others stay |
| `BerlekampMassey.FullComplexity` | apps/sr_tiny.c:513-518 | The complexity is n if and only if the sequence is 0...01 |
| `BerlekampMassey.ConvOneTap` | apps/sr_tiny.c:508-511 | The discrepancy of a register with a single feedback position |
| `BerlekampMassey.ConvOfSilence` | apps/sr_tiny.c:508-511 | With only zeros before the last bit every register shorter than n leaves the last bit as its discrepancy |
| `Sorting.InsertSort` | apps/sr_tiny.c:580-592 | Insertion sort leaves its range sorted and a rearrangement of the old range, all other cells untouched |
| `Sorting.InsertOne` | apps/sr_tiny.c:583-591 | One element sinks into the sorted cells before it |
| `Sorting.ShiftUp` | apps/sr_tiny.c:584-589 | The inner loop moves exactly the larger elements one place up and stops at the place of x[i] |
| `Sorting.InsertedSorted` | apps/sr_tiny.c:583-591 | Putting an element back at the place found keeps the range sorted |
| `Sorting.InsertedRearranges` | apps/sr_tiny.c:583-591 | and rearranges it |
| `Sorting.Partition` | apps/sr_tiny.c:594-608 | The scan around the middle element ends with everything left of i at most and everything right of j at least the pivot, both parts strictly shorter, and a rearranged range |
| `Sorting.SwapSplit` | apps/sr_tiny.c:603-607 | A swap of two misplaced elements extends both sides of the split |
| `Sorting.SplitSorted` | apps/sr_tiny.c:609-622 | Sorting both parts of a finished split sorts the whole range |
| `Sorting.QuickSort` | apps/sr_tiny.c:594-623 | The recursion terminates, stays in [begin, end], and sorts and rearranges the range |
| `Sorting.SortPart` | apps/sr_tiny.c:610-614 | Either sort gives a sorted rearrangement of the part |
| `Sorting.SortedUnique` | apps/sr_tiny.c:629-643 | A multiset has one sorted arrangement |
| `Sorting.SortedExists` | apps/sr_tiny.c:629-643 | and always has one |
| `Sorting.RepeatsDetermined` | apps/sr_tiny.c:629-643 | The number of repeated spacings is a function of the input multiset alone |
| `Sorting.NextElement` | apps/sr_tiny.c:638-641 | In a sorted sequence the next element is new exactly when it differs from its neighbour |
| `Sorting.CountedRepeats` | apps/sr_tiny.c:633-642 | Counting over one sorted arrangement and any rearrangement of its spacings gives that number |
| `Sorting.ReplaceBySpacings` | apps/sr_tiny.c:634-636 | The in-place loop leaves the 32-bit differences of neighbours |
| `Sorting.CountNeighbours` | apps/sr_tiny.c:638-642 | Equal neighbours of sorted cells number their count minus the number of distinct values |
| `Sorting.GetNdups` | apps/sr_tiny.c:629-643 | The result is the number of repeated spacings of the numbers in the array, however they were listed |
| `CarryRecursion.StepDivides` | generators/mall64.c:60-77 | For any base, taps and carry one step satisfies b U' = U + x[0] m exactly |
| `CarryRecursion.RunIsMultiplicative` | generators/mall64.c:60-77 | Over every run of n steps b^n U_n is congruent to U_0 modulo m = A_r b^r + ... + A_1 b - A_0 |
| `CarryRecursion.WeightedTail` | generators/mall64.c:60-77 | How the weighted sum of a window changes when the window moves up by one digit |
| `OneTapRecursion.OneTapModulus` | generators/mwc8222.c:46-53 | For one tap the modulus is a b^r - lead |
| `OneTapRecursion.OneTapDigit` | generators/mwc8222.c:46-53 | With canonical digits and carry below a the state is a residue modulo a b^r - 1 whose value modulo b is the digit to go out next |
| `OneTapRecursion.BaseInverse` | generators/mwc8222.c:46-53 | a b^(r-1) is the inverse of b modulo a b^r - 1 |
| `OneTapRecursion.InverseStep` | generators/mwc8222.c:46-53 | One step multiplies the value by the inverse of b modulo m |
| `OneTapRecursion.LargestRepeats` | generators/mwc8222.c:46-53 | The state with value m is followed by itself and follows no other |
| `OneTapRecursion.RunIsPowerOfInverse` | generators/mwc2110_u64.c:90-110 | Over every run, whatever its digits, U_n is congruent to U_0 b^-n modulo m |
| `OneTapRecursion.LargestStays` | generators/mwc8222.c:46-53 | In a run of canonical states U_n is m if and only if U_0 is |
| `OneTapRecursion.LargestState` | generators/mwc8222.c:46-53 | Of all canonical states only the one with all digits b - 1 and carry a - 1 has the value m |
| `OneTapRecursion.StaysCanonical` | generators/mwc8222.c:46-53 | From a canonical start every state with new digits below b is canonical: the carry stays in [0, a) |
| `OneTapRecursion.DigitAfter` | generators/mwc2110_u64.c:90-110 | From any canonical start and with new digits below b, the digit to go out next after n steps is (U_0 b^-n mod m) mod b, for any inverse of b, if and only if U_0 is not m |
| `OneTapRecursion.DigitTravels` | generators/mwc8222.c:46-53 | A digit anywhere in the window is the digit to go out as many steps later |
| `OneTapRecursion.PlainOutput` | generators/mwc8222.c:46-53 | After any number of steps from a canonical start every digit of the window is its closed form, if and only if the start is not the largest state |
| `OneTapRecursion.StepIsNext` | generators/mwc8222.c:46-53 | A state follows if and only if it is a step of the recursion with the digit that the generator stores |
| `FoldedRecursion.StepsDivide` | generators/mwc2110_u64.c:64-79 | j <= r steps divide by b^j: b^j U_(i+j) is U_i plus m times the number spelt by the j digits that went out |
| `FoldedRecursion.WholeTurn` | generators/mwc2110_u64.c:64-79 | A turn of the whole ring multiplies by a, but for the carry: U_(i+r) = a U_i - c_i m |
| `FoldedRecursion.ResidueStep` | generators/mwc2110_u64.c:90-110 | The residues V_n = U_0 b^-n mod m step as b V_(n+1) = V_n + (V_n mod b) m |
| `FoldedRecursion.FoldedBounds` | generators/mwc2110_u64.c:64-79 | In a run of folded digits no carry is negative and all digits stay in [0, b] |
| `FoldedRecursion.ValueStep` | generators/mwc2110_u64.c:64-79 | One folded step keeps U_n = V_n + e_n m, with the borrow e_n computed from the start |
| `FoldedRecursion.ZeroStep` | generators/mwc2110_u64.c:64-79 | A new digit is 0 if and only if the digit r places back was 0 and a U_(n-r) = U_n |
| `FoldedRecursion.FoldedState` | generators/mwc2110_u64.c:64-79 | In every run of folded digits the value and the zero digits of every state are functions of the start |
| `FoldedRecursion.FoldedDigitAfter` | generators/mwc2110_u64.c:90-110 | Every digit of a run of folded digits is a function of the start, and (U_0 b^-n mod m) mod b gives it if and only if no borrow reaches it and it is not b in place of 0, a condition on the start alone |
| `FoldedRecursion.FoldedOutput` | generators/mwc2110_u64.c:64-88 | The same for a digit anywhere in the window, after any number of steps |
| `FoldedRecursion.NeverZero` | generators/mwc2110_u64.c:64-79 | From a start without the digit 0 no digit is 0, and the borrow is set exactly when y_n is 0, or 1 with a borrow before |
| `FoldedRecursion.EarlyBorrow` | generators/mwc2110_u64.c:90-110 | From a canonical start other than the largest no borrow reaches the first r + 1 digits |
| `FoldedRecursion.FirstNewDigit` | generators/mwc2110_u64.c:90-110 | For the first new digit the closed form fails if and only if the sum a x[0] + c is a positive multiple of b; then the digit is b and the form gives 0 |
| `CarryGenerators.RingStep` | generators/mwc8222.c:46-53 | Overwriting the oldest cell of a ring is one step of the recursion on the digits read around the ring |
| `CarryGenerators.RingNext` | generators/mwc8222.c:46-53 | Overwriting the oldest cell with the stored digit gives the next state on the digits read around the ring |
| `CarryGenerators.Mwc8222.constructor` | generators/mwc8222.c:37-44 | The seeded state is canonical and not the largest, whatever the seeding words |
| `CarryGenerators.Mwc8222.GetBitsRaw` | generators/mwc8222.c:46-53 | A step of the recursion with a = 809430660, b = 2^32, r = 256; the carry stays in range and the wrapping 8-bit index is the ring position |
| `CarryGenerators.Mwc8222.Next` | generators/mwc8222.c:46-53 | The n-th output from any start with digits below 2^32 and carry below a is the closed form (U_0 b^-n mod m) mod b of digit n + 255, for ever, if and only if the start is not the largest state |
| `CarryGenerators.Mall64.Sum` | generators/mall64.c:60-72 | The double-word sum of four products and the carry never wraps |
| `CarryGenerators.Mall64.Next` | generators/mall64.c:60-77 | A step of the four-tap recursion in base 2^64; the carry stays below the sum of the multipliers |
| `CarryGenerators.GmwcModulus` | generators/gmwc128.c:72-85 | The modulus of the generalized recursion is 0xff002aae7d81a646007d084a4d80885f |
| `CarryGenerators.GmwcExact` | generators/gmwc128.c:72-85 | The new digit makes the low word vanish: the division by 2^64 is exact |
| `CarryGenerators.GmwcStep` | generators/gmwc128.c:72-85 | The new digit and carry satisfy b c' - MINUSA0 x' = A1 x + c with no wrap-around of the carry |
| `CarryGenerators.Gmwc128.Next` | generators/gmwc128.c:72-85 | A step of the recursion with leading coefficient -MINUSA0 |
| `CarryGenerators.Mwc2110Split` | generators/mwc2110_u64.c:64-79 | Refolding a double word in base 2^64 - 1 loses nothing; the digit is the base itself if and only if the sum is a positive multiple of it, and the carry is at most the multiplier |
| `CarryGenerators.Mwc2110.Split` | generators/mwc2110_u64.c:64-79 | Digit and carry of one product in base 2^64 - 1, with that condition |
| `CarryGenerators.Mwc2110.constructor` | generators/mwc2110_u64.c:47-61 | The seeding loop fills the cells with the scrambled words of the seed sequence seed += (seed * seed) | 0x40000005, 2^64 - 1 replaced by 0; the state is canonical |
| `CarryGenerators.Mwc2110.SelfTest` | generators/mwc2110_u64.c:111-119 | The start of the self-test: digits 0 to 31 and carry 1, a canonical state |
| `CarryGenerators.Mwc2110.SeedCells` | generators/mwc2110_u64.c:51-60 | The in-place loop computes that word sequence |
| `CarryGenerators.Mwc2110.StepBuffer` | generators/mwc2110_u64.c:64-79 | One iteration of the buffer loop is the next state with a folded digit; the carry is at most the multiplier |
| `CarryGenerators.Mwc2110.FillBuffer` | generators/mwc2110_u64.c:64-79 | The whole loop is 32 such steps, a run of the recursion, and leaves digits up to the base and a carry up to the multiplier |
| `CarryGenerators.Mwc2110.Next` | generators/mwc2110_u64.c:81-88 | From any start with a carry up to the multiplier the n-th output is digit n + 32 as a function of the start, for ever, and equals the closed form if and only if the condition on the start holds; 32 digits are delivered from each buffer |
| `CarryGenerators.FailingSeed` | generators/mwc2110_u64.c:90-110 | Seeded with 0x195d6c926b55e1a9 the generator outputs 2^64 - 1 first, where the closed form gives 0 |
| `CarryGenerators.ShiftSumExact` | generators/kiss11_32.c:56-63 | The wrapped shift-and-add, the borrow of its comparison and the shifted-out part split (2^k - 1) x + c exactly |
| `CarryGenerators.ShiftIsMultiply` | generators/kiss11_32.c:56-63 | t = (x << k) + c and c' = (x >> (w - k)) - (t < x) satisfy (2^k - 1) x + c = c' b + (t - x) with 0 <= c' < 2^k |
| `CarryGenerators.ShiftMultiply` | generators/kiss11_64.c:55-62 | The three assignments compute that digit and that carry |
| `CarryGenerators.Kiss2011.Next` | generators/kiss11_32.c:56-63 | The multiply-with-carry part is a step of the recursion with a = 2^28 - 1, for the 32-bit ring of 2^22 and (generators/kiss11_64.c:55-62) the 64-bit ring of 2^21 words |
| `CarryGenerators.Cmwc4827.Next` | generators/cmwc4827.c:76-83 | The complementary step is a step of the recursion with leading coefficient -1 and carry c + 1, and keeps the carry below 4096 |
| `CarryGenerators.AddDouble` | generators/mall64.c:60-72 | Adding a product to a running double word is exact when the total fits |
| `Mixmax.MulwuValue` | generators/mixmax.c:168-171 | The value of the OR of the two shifts: the rotation minus 2^51 times the bits in which the halves meet |
| `Mixmax.MulwuExact` | generators/mixmax.c:168-171 | It is congruent to 2^51 k if and only if those bits do not meet |
| `Mixmax.MulwuLazy` | generators/mixmax.c:207-209 | They never meet on a partial sum of the loop |
| `Mixmax.MultiplicationsAgree` | generators/mixmax.c:79-109 | On every entry that occurs both versions of fmodmulM61 return the same canonical value, congruent to SPECIAL times the entry |
| `Mixmax.LazyRound` | generators/mixmax.c:205-216 | One round on lazy residues neither overflows nor leaves the lazy range, and is exact modulo 2^61 - 1 |
| `Mixmax.LazyRoundStep` | generators/mixmax.c:207-209 | The two running values after the round are the partial sum and the matrix row |
| `Mixmax.ChecksumFolds` | generators/mixmax.c:215-222 | A 64-bit running sum and the number of its overflows fold to the exact residue of the total |
| `Mixmax.AddCounting` | generators/mixmax.c:215-215 | The comparison after the addition notices exactly the wrap-arounds |
| `Mixmax.AccumulateRows` | generators/mixmax.c:202-216 | The loop applies the matrix without its special entry and sums the new vector |
| `Mixmax.SpecialEntry` | generators/mixmax.c:217-221 | The late addition to entry 2 gives the whole matrix image and the sum of the new vector |
| `Mixmax.IterateRawVec` | generators/mixmax.c:195-223 | One iteration is the matrix map modulo 2^61 - 1 on all 240 entries; the result is the canonical checksum of the new vector |
| `Mixmax.Rng.constructor` | generators/mixmax.c:232-249 | The seeded entries are the low 61 bits of the scrambled congruential sequence (with seed 0 replaced), and the state satisfies the invariant |
| `Mixmax.Rng.GetNext` | generators/mixmax.c:139-150 | The invariant (lazy entries, checksum congruent to the sum of all 240) holds in every reachable state; each call delivers the next entry and iterates when the vector is used up |
| `Inverses.SeedInverse` | generators/icg128_p2.c:50-58 | The first guess (3x) ^ 2 is right modulo 32 for every odd x |
| `Inverses.NewtonSquares` | generators/icg128_p2.c:45-48 | A step squares the error 1 - xy modulo 2^64 |
| `Inverses.NewtonLifts` | generators/icg128_p2.c:45-48 | An inverse modulo b becomes one modulo b^2 |
| `Inverses.ModInv64Correct` | generators/icg128_p2.c:50-58 | Four steps give x y = 1 modulo 2^64 for every odd x |
| `Inverses.InverseUnique` | generators/icg128_p2.c:50-58 | There is only one such residue |
| `Inverses.HighWordCancels` | generators/icg128_p2.c:97-110 | The high word computed from terms cancels the middle column of the product |
| `Inverses.TwoWordProduct` | generators/icg128_p2.c:97-110 | Then the two-word product is 1 modulo 2^128 |
| `Inverses.Icg128.ModInv128` | generators/icg128_p2.c:97-110 | Every odd two-word state is replaced by its inverse modulo 2^128 |
| `Inverses.Icg128.Affine` | generators/icg128_p2.c:126-135 | The word-by-word product and sum are a y + b modulo 2^128 |
| `Inverses.Icg128.Next` | generators/icg128_p2.c:126-135 | Every reachable state stays odd and the step is a x^-1 + b modulo 2^128 |
| `Inverses.CoprimeStep` | generators/icg64.c:45-58 | A division step keeps coprimality and above 1 leaves a remainder, so the loop never divides by zero |
| `Inverses.CofactorBound` | generators/icg64.c:45-58 | Cofactors are bounded by p, the current one by p / 2 |
| `Inverses.BezoutStep` | generators/icg64.c:45-58 | A step keeps the Bezout congruences, the opposite signs and |x1| v + |x2| u = p |
| `Inverses.StepFits` | generators/icg64.c:45-58 | Every intermediate of a step is at most p in size, so nothing overflows 64 bits |
| `Inverses.EuclidInverse` | generators/icg64.c:45-58 | The loop terminates and for a coprime to p returns r with 1 <= r < p and a r = 1 modulo p; for 0 it returns 0 |
| `Inverses.InverseAtEnd` | generators/icg64.c:45-58 | When u is 1 the corrected cofactor is that inverse |
| `Inverses.Icg64.Next` | generators/icg64.c:61-65 | For prime p the state stays in [0, p) and becomes its inverse plus one (0 becomes 1) |
| `Aes.TwiceIsProduct` | generators/aes128.c:251-255 | xtime is multiplication by x: the one polynomial of degree below 8 that differs from x a by a multiple of x^8 + x^4 + x^3 + x + 1 |
| `Aes.MixIsTableSum` | generators/aes128.c:271-299 | A column of MixColumns is the sum of four table entries (section 5.1.3 of FIPS 197) |
| `Aes.FillLookupTables` | generators/aes128.c:290-299 | The loop fills all five tables with the columns of SubBytes and MixColumns, for any byte substitution |
| `Aes.TransformIsMix` | generators/aes128.c:315-321 | Four lookups and the key word are one column of SubBytes, ShiftRows, MixColumns and AddRoundKey |
| `Aes.FinalTransformIsSub` | generators/aes128.c:324-332 | The four masked lookups are one column without MixColumns |
| `Aes.TransformsAreRound` | generators/aes128.c:376-379 | Four transforms with rotated arguments are one round of the cipher |
| `Aes.FinalTransformsAreLastRound` | generators/aes128.c:390-394 | and four final transforms the last round |
| `Aes.TableRound` | generators/aes128.c:375-389 | Four transforms with the key words at rk[p] are round p / 4 of the cipher |
| `Aes.NineRounds` | generators/aes128.c:373-389 | The unrolled loop that is left in the middle does exactly nine rounds |
| `Aes.Encode` | generators/aes128.c:361-400 | The ciphertext is the cipher of sections 5.1 to 5.1.4 of FIPS 197, for every block, key schedule and substitution |
| `Aes.RconIsPower` | generators/aes128.c:339-343 | The constants of the table are the powers of x of section 5.2 |
| `Aes.ExpandFour` | generators/aes128.c:348-355 | One iteration extends the schedule by four words of KeyExpansion |
| `Aes.ExpandKey` | generators/aes128.c:336-355 | The 44 words are those of KeyExpansion (section 5.2), for every key and substitution |
| `Aes.PutU32` | generators/aes128.c:307-313 | Four bytes are stored big-endian, the other cells stay |
| `Aes.GetColumn` | generators/aes128.c:301-305 | get_u32 reads four bytes as a column |
| `Aes.AES128State.constructor` | generators/aes128.c:336-358 | Tables, schedule and an empty buffer at counter 0 |
| `Aes.AES128State.Next` | generators/aes128.c:420-433 | Each call returns the next word of AES-128 of the 128-bit counter, which takes its carry |
| `GaloisField.MultiplyIsProduct` | generators/kuzn.c:105-122 | The product is the one polynomial of degree below 8 that differs from the carryless product by a multiple of x^8 + x^7 + x^6 + x + 1 |
| `GaloisField.MultiplyDistributes` | generators/kuzn.c:113-122 | It distributes over XOR |
| `GaloisField.RemainderUnique` | generators/kuzn.c:105-122 | A remainder of degree below 8 modulo a polynomial of degree 8 is unique |
| `GaloisField.MultiplyDistributesLeft` | generators/kuzn.c:113-122 | It distributes in its first factor too |
| `GaloisField.MultiplyAssociates` | generators/kuzn.c:113-122 | and is associative |
| `GaloisField.MultiplyReduces` | generators/kuzn.c:113-122 | The quotient by which it differs, with degree at most 6 |
| `GaloisField.MultipleLarge` | generators/kuzn.c:113-122 | A nonzero multiple of a polynomial has at least its degree |
| `GaloisField.CarrylessXorLeft` | generators/kuzn.c:113-122 | The carryless product is linear in its first factor |
| `GaloisField.CarrylessXorRight` | generators/kuzn.c:113-122 | and in its second |
| `GaloisField.Gf256Mul` | generators/kuzn.c:113-122 | The loop that stops as soon as a or b is 0 terminates with that product |
| `Union128.PackUnpack` | generators/kuzn.c:74-79 | The byte view and the word view of the union determine each other |
| `Union128.CounterRoundTrip` | generators/aes128.c:425-427 | The 128-bit increment with carry can be taken back |
| `Kuznyechik.PackAdd` | generators/kuzn.c:136-140 | Adding the two words adds all sixteen bytes |
| `Kuznyechik.MatVecLinear` | generators/kuzn.c:124-133 | mul_mat_vec is linear, for every matrix |
| `Kuznyechik.MulMatVec` | generators/kuzn.c:124-133 | The two loops compute the matrix product over the field |
| `Kuznyechik.MakeTableForByte` | generators/kuzn.c:198-222 | One row of the table holds L of every substituted byte at its place; the other rows stay |
| `Kuznyechik.MakeTable` | generators/kuzn.c:228-233 | All sixteen rows are filled |
| `Kuznyechik.LookupStep` | generators/kuzn.c:243-247 | Adding the entry of byte n extends L from the first n substituted bytes to one more |
| `Kuznyechik.ApplyFastLS` | generators/kuzn.c:240-249 | The XOR of sixteen table rows is L of the substituted vector, on all vectors |
| `Kuznyechik.ScheduleRound` | generators/kuzn.c:265-275 | One Feistel round of the schedule (section 4.4 of RFC 7801) |
| `Kuznyechik.ExpandKey` | generators/kuzn.c:256-276 | The ten round keys are the halves of the key and the pairs after 8, 16, 24 and 32 Feistel rounds |
| `Kuznyechik.KuznState.Block` | generators/kuzn.c:282-291 | The block is X[K10] LSX[K9] ... LSX[K1] of the counter, computed by slow S and L (section 4.5 of RFC 7801) |
| `Kuznyechik.KuznState.constructor` | generators/kuzn.c:308-316 | Table, round keys and an empty buffer at counter 0 |
| `Kuznyechik.KuznState.Next` | generators/kuzn.c:508-517 | Each call returns the next word of the cipher of the counter, whose low word counts blocks |
| `Kuznyechik.EncryptInjective` | generators/kuzn.c:282-291 | With a bijective substitution and a nonsingular matrix two counters never share a block |
| `KuznyechikRows.RowFollows` | generators/kuzn.c:175-196 | Each row of Lmat is the row before it after one more move of the feedback register of section 4.2 of RFC 7801 |
| `KuznyechikMatrix.NextRowSum` | generators/kuzn.c:175-196 | The next row applied to a vector is the row applied to the register's next state |
| `KuznyechikMatrix.RowIsFeedback` | generators/kuzn.c:175-196 | Row k of Lmat gives the feedback after k moves |
| `KuznyechikMatrix.LIsSixteenSteps` | generators/kuzn.c:175-196 | apply_L is the register moved sixteen times, on every vector: L = R^16 (section 4.3 of RFC 7801) |
| `KuznyechikMatrix.LNonsingular` | generators/kuzn.c:175-196 | Lmat is nonsingular |
| `KuznyechikMatrix.SourceEncryptInjective` | generators/kuzn.c:282-291 | With the matrix of the source and a bijective substitution two counters never share a block |
| `ChaCha.ShufflesRotate` | generators/chacha.c:344-358 | The two byte shuffles are rotations by 16 and 8 |
| `ChaCha.VerticalIsQuarters` | generators/chacha.c:364-370 | A round on row vectors is four quarter rounds, one a lane (section 2.1 of RFC 7539) |
| `ChaCha.ColumnsAreLanes` | generators/chacha.c:168-172 | Four quarter rounds on columns work on four independent lanes |
| `ChaCha.DiagonalsAreLanes` | generators/chacha.c:173-177 | With the rows rotated so do the diagonal ones |
| `ChaCha.CycleIsDoubleRound` | generators/chacha.c:384-395 | A vertical round, rotated rows, a vertical round and the rotation back are one column round and one diagonal round (section 2.3) |
| `ChaCha.VectorRoundsAreRounds` | generators/chacha.c:384-395 | for any number of cycles |
| `ChaCha.VectorBlock` | generators/chacha.c:374-408 | The vector block with its final addition is the block function |
| `ChaCha.ChaChaState.QRoundInPlace` | generators/chacha.c:137-143 | The twelve in-place assignments are the quarter round |
| `ChaCha.ChaChaState.BlockC99` | generators/chacha.c:161-182 | The scalar loop computes the block function of the input |
| `ChaCha.ChaChaState.BlockAvx` | generators/chacha.c:374-408 | and so does the row-vector one |
| `ChaCha.InputNext` | generators/chacha.c:188-191 | Incrementing word 12 with its carry into word 13 is the next 64-bit counter |
| `ChaCha.ChaChaState.IncCounter` | generators/chacha.c:188-191 | The input moves to the next block |
| `ChaCha.ChaChaState.constructor` | generators/chacha.c:211-228 | The initial state is block 0 of the key |
| `ChaCha.ChaChaState.NextC99` | generators/chacha.c:231-239 | At every position, for ever, the word returned is that word of the key stream |
| `ChaCha.ChaChaState.NextAvx` | generators/chacha.c:412-420 | The same stream from the row-vector version |
| `ChaCha.LoadIsGather` | generators/chacha.c:516-529 | The rows loaded from the permuted layout are those of the four states |
| `ChaCha.GeneratorBlockIsBlock` | generators/chacha.c:516-593 | What the interleaved code computes for generator g is the block function of its state |
| `ChaCha.ChaChaVecState.Block` | generators/chacha.c:516-593 | The output holds the four blocks one after the other |
| `ChaCha.InitialLoaded` | generators/chacha.c:603-632 | The initial layout holds the states of blocks 0 to 3 |
| `ChaCha.ChaChaVecState.constructor` | generators/chacha.c:603-637 | The vector state starts the same stream |
| `ChaCha.BumpGather` | generators/chacha.c:446-452 | Advancing one pair of counter words changes the counter of one generator only |
| `ChaCha.InputAdvances` | generators/chacha.c:122-128 | add_to_ctr32 with 4 moves an input by four blocks, carry included |
| `ChaCha.BumpedLoaded` | generators/chacha.c:446-452 | The four increments move all four generators to their next blocks |
| `ChaCha.ChaChaVecState.IncCounter` | generators/chacha.c:446-452 | in place |
| `ChaCha.ChaChaVecState.Next` | generators/chacha.c:640-648 | At every position the word returned is the same word of the same stream |
| `Des.RoundFunctionExpands` | generators/des.c:287-301 | The rotated and masked words are the expansion E of FIPS 46-3: each table is addressed by a group of E plus its key digit |
| `Des.ByteAt` | generators/des.c:287-301 | In a masked word each byte is a table index below 64 |
| `Des.XorMasked` | generators/des.c:287-301 | Adding a masked subkey to a masked word keeps it masked |
| `Des.BitSwap4Twice` | generators/des.c:303-306 | bitswap by 4 with mask 0x0F0F0F0F is an involution |
| `Des.BitSwap16Twice` | generators/des.c:303-306 | bitswap by 16 with mask 0x0000FFFF is an involution |
| `Des.BitSwap2Twice` | generators/des.c:303-306 | bitswap by 2 with mask 0x33333333 is an involution |
| `Des.BitSwap8Twice` | generators/des.c:303-306 | bitswap by 8 with mask 0x00FF00FF is an involution |
| `Des.BitSwap1Twice` | generators/des.c:303-306 | bitswap by 1 with mask 0x55555555 is an involution |
| `Des.PermutationsInverse` | generators/des.c:308-322 | FP and IP undo each other |
| `Des.InitialPermutationBits` | generators/des.c:308-314 | Every bit of IP's result is the bit of its input that the table IP of FIPS 46-3 names |
| `Des.FeistelInverse` | generators/des.c:333-336 | Running the rounds with the keys reversed from the exchanged halves gives back the exchanged input, for any tables, keys and number of rounds |
| `Des.FeistelAppend` | generators/des.c:333-336 | One more key is one more round at the end |
| `Des.TwoRounds` | generators/des.c:333-336 | Two rounds in place without exchange are two rounds of the network |
| `Des.CryptInverse` | generators/des.c:328-356 | decrypt(encrypt(x)) = x for every block |
| `Des.CryptOfInverse` | generators/des.c:328-356 | encrypt(decrypt(x)) = x for every block |
| `Des.CryptInjective` | generators/des.c:361-365 | Different counters give different outputs |
| `Des.PackKeyDigits` | generators/des.c:240-251 | The unwrapped bytes are the eight 6-bit digits of the round key, highest first, even and odd ones apart |
| `Des.NextHalves` | generators/des.c:226-232 | The rotations of a round continue the rotations before it |
| `Des.FullTurn` | generators/des.c:226-232 | Twenty-eight single rotations are the identity on a 28-bit half, and the shift table adds up to 28 |
| `Des.LastHalves` | generators/des.c:222-234 | The last round key is taken from the halves as PC1 selected them |
| `Des.SelectBits` | generators/des.c:216-221 | The loop computes the selection that ChooseBit describes |
| `Des.ChooseBit` | generators/des.c:216-221 | Entry j of a permuted-choice table, counting from the highest selected bit, is the bit of the word that the entry names |
| `Des.AppendBits` | generators/des.c:217-220 | Appending moves every bit one place up and brings in the selected bit |
| `Des.FillKeySchedule` | generators/des.c:212-253 | All sixteen subkeys are those of the key schedule, masked |
| `Des.DESState.constructor` | generators/des.c:270-275 | Key schedule of the key and counter 0 |
| `Des.DESState.Encrypt` | generators/des.c:328-339 | The in-place two-round loop computes the cipher |
| `Des.DESState.Decrypt` | generators/des.c:344-356 | and the loop that runs down computes it with the keys reversed |
| `Des.DESState.Next` | generators/des.c:361-365 | Each call returns the cipher of the counter and increments it |
| `RingWindow.ReadAhead` | generators/lfib_par.c:105-113 | In a half-refreshed ring the cell k places ahead holds the term k places on |
| `RingWindow.Overwrite` | generators/lfib_par.c:105-113 | Writing the term one round on moves the window by one |
| `MersenneTwister.RefreshTerm` | generators/mt19937.c:57-67 | The assignment of one cell is a term of the recurrence, whatever side of the seam its operands are on |
| `MersenneTwister.MT19937.constructor` | generators/mt19937.c:40-47 | The initial state is the seeding recurrence |
| `MersenneTwister.MT19937.SeedCells` | generators/mt19937.c:40-47 | computed by the seeding loop |
| `MersenneTwister.MT19937.RefreshCell` | generators/mt19937.c:57-67 | One assignment advances the window by one cell |
| `MersenneTwister.MT19937.Refresh` | generators/mt19937.c:57-67 | The three-part loop advances the whole array by 624 terms |
| `MersenneTwister.MT19937.Next` | generators/mt19937.c:57-75 | The n-th output is the tempered term 624 + n of x[k+624] = x[k+397] ^ twist(x[k], x[k+1]), for ever |
| `LaggedFibonacci.LFib.constructor` | generators/lfib_par.c:140-160 | The given cells are the first r terms |
| `LaggedFibonacci.LFib.RefreshCell` | generators/lfib_par.c:108-121 | One assignment is one term |
| `LaggedFibonacci.LFib.Refresh` | generators/lfib_par.c:105-122 | The two loops advance the ring by r terms, for all lags 0 < s < r and both signs |
| `LaggedFibonacci.LFib.Next` | generators/lfib_par.c:99-125 | The n-th output is the upper half of term r + n of X[n] = X[n-r] +- X[n-s], for ever |
| `Melg.StepValues` | generators/melg19937.c:72-84 | The words computed in one step, with indices around the ring, are the next extra word and the next term |
| `Melg.StoreReaches` | generators/melg19937.c:72-84 | Storing the new word moves the window one place, around the ring if need be |
| `Melg.StepReaches` | generators/melg19937.c:72-84 | One step of the recurrence on the ring |
| `Melg.Generator.constructor` | generators/melg19937.c:60-69 | The seeding loop fills the ring and the extra word, and the first handler is installed |
| `Melg.Generator.SeedCells` | generators/melg19937.c:60-69 | by the seeding recurrence |
| `Melg.Generator.CaseGeneric` | generators/melg19937.c:72-84 | With offsets that lead around the ring the generic handler is one step and installs the next handler at the end of its range |
| `Melg.Generator.Advance` | generators/melg19937.c:72-84 | The three assignments common to all handlers |
| `Melg.Generator.LastCase` | generators/melg19937.c:101-111 | The last handler is one step and returns to position 0 |
| `Melg.Generator.Next` | generators/melg19937.c:86-116 | In every reachable state the handler is the one for the range of pos, all indices are in bounds, and each call is the next step of the recurrence |
| `ModularGenerators.FoldPass` | generators/bbs64.c:46-48 | A pass of the reduction loop keeps the residue and, while the high word is not 0, makes the double word smaller |
| `ModularGenerators.Reduce` | generators/bbs64.c:46-48 | The loop terminates with a congruent low word |
| `ModularGenerators.Bbs64.Next` | generators/bbs64.c:38-54 | The new state is exactly x^2 modulo m, from any 64-bit state |
| `ModularGenerators.SquaringsIsPower` | generators/bbs64.c:38-54 | The n-th state is congruent to x0^(2^n) modulo m |
| `ModularGenerators.LcgHp48.Next` | generators/lcg_hp48.c:31-42 | The do-while reduction ends with exactly a x modulo 10^15 |
| `ModularGenerators.Lcg61Prime.Next` | generators/lcg61prime.c:32-42 | No word overflows and the step is exact modulo 2^61 - 1 from any 64-bit state, canonical or shrinking |
| `ModularGenerators.CanonicalAfterThree` | generators/lcg61prime.c:32-42 | The third state from any 64-bit seed is the canonical residue |
| `ModularGenerators.CanonicalStays` | generators/lcg61prime.c:32-42 | and all later ones are |
| `ModularGenerators.RunIsPower61` | generators/lcg61prime.c:32-42 | The n-th state of every run is a^n x0 modulo 2^61 - 1, canonical from the third on |
| `ModularGenerators.Minstd.NextSchrage` | generators/minstd.c:43-54 | Schrage's method stays within 32 bits and gives exactly 16807 x modulo 2^31 - 1 on [0, 2^31 - 1] |
| `ModularGenerators.Minstd.NextFold` | generators/minstd.c:62-72 | The fold gives exactly the same for every 32-bit state |
| `ModularGenerators.Lcg127Prime.constructor` | generators/lcg127prime.c:72-79 | The seeded state is never 0, and is the modulus if and only if both seed words are at least 2^64 - 2 |
| `ModularGenerators.Lcg127Prime.Next` | generators/lcg127prime.c:82-108 | For any multiplier the two-limb fold gives a x modulo 2^127 - 1, and 2^127 - 1 instead of 0 if and only if a x is a positive multiple of it; for 2^127 - 1 prime and a > 0, if and only if x is 2^127 - 1 |
| `ModularGenerators.FoldAt127` | generators/lcg127prime.c:82-108 | The number after the conditional subtraction is the residue, and is the modulus if and only if the product is a positive multiple of it |
| `ModularGenerators.MultiplesOfModulus` | generators/lcg127prime.c:90-97 | For a > 0 the product a x is a positive multiple of the modulus when x is the modulus and, if that is prime, for no other x > 0 |
| `Arithmetic.PrimeDivides` | generators/lcg127prime.c:90-97 | A prime that divides a x with 0 < a below it divides x |
| `LimbGenerators.MulLimb` | apps/sr_tiny.c:341-344 | A product of two limbs plus a carry fits two limbs and is split there |
| `LimbGenerators.Lcg64x16.constructor` | apps/sr_tiny.c:362-368 | The limbs spell the seed |
| `LimbGenerators.Lcg64x16.Next` | apps/sr_tiny.c:371-400 | On every state the 16-bit limbs compute 6906969069 x + 12345 modulo 2^64, no intermediate exceeding 32 bits |
| `LimbGenerators.Rows16` | apps/sr_tiny.c:371-400 | The carries of the rows and of the sums add up to a multiple of 2^64 |
| `LimbGenerators.Lcg128x32.Next` | generators/lcg128.c:171-195 | On every state the 32-bit limbs compute 0xfc0072fa0b15f4fd x + 12345 modulo 2^128 |
| `LimbGenerators.Rows128` | generators/lcg128.c:171-195 | The carries add up to a multiple of 2^128 |
| `LimbGenerators.Lcg96x32.Next` | generators/lcg96.c:107-130 | On every state the 32-bit limbs compute 0xf429e3c0fa75832c3bda4a15 x + 1 modulo 2^96 |
| `LimbGenerators.Rows96` | generators/lcg96.c:107-130 | The carries add up to a multiple of 2^96 |
| `LimbGenerators.RunIsAffine` | apps/sr_tiny.c:371-400 | n steps of any linear congruential generator are one affine map a^n x + c_n, for every run |
| `Int128.AddToLimbs` | include/smokerand/int128defs.h:23-30 | A 64-bit number is added to four limbs modulo 2^128, every carry passed on |
| `Int128.Schoolbook` | include/smokerand/int128defs.h:41-61 | Four partial products with their carries are the limbs of the product, and no sum overflows |
| `Int128.ProductLimbs` | include/smokerand/int128defs.h:41-61 | The four limbs spell a b |
| `Int128.MulAddPortable` | include/smokerand/int128defs.h:41-67 | The portable routine returns the two words of a b + c, for all 64-bit a, b, c |
| `Int128.AddModulo` | include/smokerand/int128defs.h:73-82 | The double-word sum is addition modulo 2^128 |
| `Int128.AddPortable` | include/smokerand/int128defs.h:73-82 | and the portable routine computes it |
| `BitOperations.BitOfOr` | generators/mwc2110_u64.c:55-55 | OR of two numbers works bit by bit |
| `BitOperations.OrOfRemainder` | generators/mwc2110_u64.c:55-55 | The low bits of an OR depend on the low bits of its operands alone |
| `Mwc2110Seeding.NextSeedBits` | generators/mwc2110_u64.c:55-55 | What is added to a seed has the bits of its square and the bits 0, 2 and 30, and no others |
| `Mwc2110Seeding.NextSeedTriangular` | generators/mwc2110_u64.c:55-55 | When two seeds agree on their low k bits, the steps differ by as much as the seeds on their low k + 1 bits: bit k is changed as the lower bits say |
| `Mwc2110Seeding.NextSeedFlips` | generators/mwc2110_u64.c:55-55 | Every step flips the lowest bit |
| `Mwc2110Seeding.NextSeedInjective` | generators/mwc2110_u64.c:55-55 | The step is a permutation of the 64-bit words |
| `Mwc2110Seeding.FailingDigit` | generators/mwc2110_u64.c:51-59 | The value of the first cell for seed 0x195d6c926b55e1a9 |
| `CarryGenerators.Mwc8222Modulus` | generators/mwc8222.c:46-53 | The modulus is 809430660 b^256 - 1 with b = 2^32 |
| `CarryGenerators.Mwc2110Modulus` | generators/mwc2110_u64.c:95-96 | The modulus is a b^32 - 1 with the a and the b of the comment |
| `AesLaws.MixColIsProduct` | generators/aes128.c:271-299 | MixColumns by its definition (section 5.1.3 of FIPS 197): each new byte is the one remainder modulo x^8 + x^4 + x^3 + x + 1 of the sum of the carryless products by 2, 3, 1 and 1 |
| `AesLaws.StateCells` | generators/aes128.c:361-371 | The input fills the state column by column |
| `AesLaws.SubBytesCells` | generators/aes128.c:375-379 | SubBytes replaces every cell by its value (section 5.1.1) |
| `AesLaws.ShiftRowsCells` | generators/aes128.c:375-379 | Cell (r, c) of ShiftRows is cell (r, c + r) modulo 4 (section 5.1.2) |
| `AesLaws.AddRoundKeyCells` | generators/aes128.c:375-379 | AddRoundKey adds cell by cell (section 5.1.4) |
| `AesLaws.TableExample` | generators/aes128.c:260-268 | The documented first entries of the first and the last table |
| `AesLaws.KeyExpansionExample` | generators/aes128.c:336-355 | Words 4 to 8 of the example of appendix A.1 of FIPS 197, for every substitution with the eight values used |
| `AesLaws.RoundExample` | generators/aes128.c:375-379 | Round 1 of the example of appendix B of FIPS 197, for every substitution with the sixteen values used |
| `DesLaws.RoundFunctionByTable` | generators/des.c:287-301 | With all tables but number g zero the round function is that table's entry at the number made of six bits of E, named by the standard's table, and six key bits |
| `DesLaws.RoundFunctionTogether` | generators/des.c:287-301 | The round function of two sets of tables ORed cell by cell is the OR of the two round functions |
| `DesLaws.RotateByBit` | generators/des.c:226-232 | A rotation by n moves bit k of a 28-bit half to k + n modulo 28 |
| `DesLaws.HalvesAtBits` | generators/des.c:222-234 | Each bit of C and of D before a round key is the key bit that PC1 and the rotations name |
| `DesLaws.RoundKeyBit` | generators/des.c:212-253 | Every bit of every round key is the key bit that PC2, the rotations of that round and PC1 lead to |
| `DesLaws.RoundKeyPacked` | generators/des.c:240-251 | The stored subkey is that round key with its digits unwrapped |
| `DesLaws.UpperChoice` | generators/des.c:167-178 | The first half of PC1 takes bits 1, 2, 3 and half of bit 4 of the key bytes, from the last byte to the first |
| `DesLaws.LowerChoice` | generators/des.c:167-178 | The second half takes bits 7, 6 and 5 in the same order |
| `DesLaws.LastChoice` | generators/des.c:167-178 | PC1 ends with the other half of bit 4, so the parity bits are not chosen |
| `DesLaws.SecondChoice` | generators/des.c:180-190 | PC2 chooses 24 of the positions of C and 24 of those of D, all but the eight named |
| `DesLaws.TurnsOf` | generators/des.c:192-196 | One rotation before the keys 1, 2, 9 and 16, two before the others |
| `MersenneTwister.TwistBits` | generators/mt19937.c:49-55 | Up to the matrix 0x9908B0DF, which the lowest bit of v selects, the twist is the top bit of u and the lower 31 bits of v, moved one place down |
| `MersenneTwister.NextTerm` | generators/mt19937.c:57-67 | Term k + 624 is term k + 397 plus the twist of the terms k and k + 1 |
| `MersenneTwister.TemperLinear` | generators/mt19937.c:70-73 | Every output bit of the tempering is a XOR of input bits |
| `MersenneTwister.TemperColumns` | generators/mt19937.c:70-73 | The output bits that each of the 32 input bits enters, which with TemperLinear fixes the tempering |
| `MersenneTwister.UntemperTemper` | generators/mt19937.c:70-73 | Tempering can be taken back: a state word can be read off its output |
| `MersenneTwister.SeedStepBack` | generators/mt19937.c:43-46 | Each step of the seeding can be taken back |
| `MersenneTwister.SeedExample` | generators/mt19937.c:43-46 | The second seeded word for the seed of the self-test |
| `LaggedFibonacci.TermLaw` | generators/lfib_par.c:104-125 | X[n] - X[n-s] = X[n-r] in the additive and X[n] + X[n-s] = X[n-r] in the subtractive generator, for all lags and all n from r on |
| `Melg.NextTerms` | generators/melg19937.c:76-78 | Both recurrences, with the lags 311 and 81 |
| `Melg.MixBits` | generators/melg19937.c:76-76 | The upper 33 bits of one word and the lower 31 of the next |
| `Melg.NextLungLinear` | generators/melg19937.c:77-77 | The new extra word is linear in its three operands |
| `Melg.NextLungColumns` | generators/melg19937.c:77-77 | Where each bit of each operand of the new extra word goes: one place down, with bit 0 selecting the matrix; unchanged; to itself and 23 places up |
| `Melg.NewWordLinear` | generators/melg19937.c:78-78 | The new word is linear in its two operands |
| `Melg.NewWordColumns` | generators/melg19937.c:78-78 | Where each bit goes in the new word: unchanged; to itself and 33 places down |
| `Melg.OutputLinear` | generators/melg19937.c:79-80 | The output is linear in the word and the lagged word |
| `Melg.OutputColumns` | generators/melg19937.c:79-80 | Where each bit goes in the output: to itself and 16 places up; through the mask 0x6aede6fd97b338ec |
| `Melg.SeedStepBack` | generators/melg19937.c:62-65 | Each step of the seeding can be taken back |
| `Melg.SeedExample` | generators/melg19937.c:62-65 | One step of the seeding |
| `Mixmax.RowIsProduct` | generators/mixmax.c:120-122 | The running sums give the rows of the matrix of MIXMAX with m = 2^51 + 1 |
| `Mixmax.ImageIsMatrix` | generators/mixmax.c:195-223 | With the checksum congruent to the sum, an iteration applies that matrix, whose entry (2, 1) is greater by 487013230256099140 |
| `Mixmax.SeedNextHalves` | generators/mixmax.c:243-243 | The halves of the product change places |
| `Mixmax.SeedStepBack` | generators/mixmax.c:243-243 | Each step of the seeding can be taken back |
| `Kuznyechik.ConstantBytes` | generators/kuzn.c:266-267 | Byte k of the constant C_i is the field product of the first entry of row k and i |
| `KuznyechikMatrix.FirstConstant` | generators/kuzn.c:266-267 | The value of C_1 with the matrix of the source (section 4.4 of RFC 7801) |
| `Union128.LittleEndian` | generators/kuzn.c:74-79 | Byte k of the union is bits 8 k to 8 k + 7 of the word |
| `Union128.NextCounterCounts` | generators/aes128.c:425-427 | The two words count: the low word goes up by one, and the high word exactly when it wraps |
| `ChaCha.QuarterExample` | generators/chacha.c:137-145 | The quarter round of the example in section 2.1.1 of RFC 7539 |
| `ChaCha.ConstantsSpell` | generators/chacha.c:58-61 | The constants spell their name |

## Left out

* Command line, batteries, plugin loading, threads, timing, printing and memory allocation, including the failure
  branch of `calloc` in `berlekamp_massey`.
* Floating point: p-values, statistics and the scaling of the output of generators/lcg_hp48.c:43.
* Period lengths, primality and statistical quality. `Inverses.Icg64` takes the primality of p as a hypothesis.
* Seeding from the caller's generator. Seeding loops are modelled for MIXMAX, MT19937, MELG, MWC2110, ChaCha,
  DES, AES, Kuznyechik and the 16-bit generator; the lagged Fibonacci generator and MWC8222 start from arbitrary
  cells, the other multiply-with-carry, KISS and congruential generators from arbitrary states.
* The assembler path of `modadd`, the AES instructions, the 32-bit-counter variants of ChaCha, and other pairs of
  scalar and vector generators, which repeat the argument made for ChaCha.
* The congruential and xorshift components of the KISS generators: only the multiply-with-carry part is modelled.
* Generators whose arithmetic is not exact on some inputs (generators/lcg128prime.c, lcg64prime.c, lcg32prime.c,
  mwc4691.c, kiss4691.c, kiss64.c, mwc64_2p58.c, cswb4288.c, cmwc4096.c, combmrg96.c) and the chaotic mixers.
* `umuladd_128x128p64_c99` in include/smokerand/int128defs.h, the four-row product.
- BerlekampMassey.BerlekampMassey: the number of cells of the three work arrays is a parameter; the source has n. The
  empty sequence is allowed, the source needs n >= 1.
- Sorting.Partition: `begin + end` is an unbounded integer, where the source adds two C ints and can overflow on
  arrays of more than 2^30 numbers.
- Sorting.GetNdups: the array is not empty, as in every call of the source.
- Aes.Encode: the substitution is an arbitrary byte function, so the values of the S-box are not checked; the nine
  rounds and the schedule are cut into methods that the C code writes inline.
- Kuznyechik.ApplyFastLS: the substitution is an arbitrary byte function, so the values of its table are not checked.
- Des.RoundFunctionExpands: the eight tables are arbitrary; that they combine the S-boxes with the permutation P is not
  shown. The entries of PC1 and PC2 are those of the source's tables.
- ChaCha.ChaChaVecState.constructor: the initial layout is one sequence, not the assignments of the loops; a 256-bit
  register is a pair of 128-bit rows.
- ModularGenerators.Lcg127Prime.Next: the primality of 2^127 - 1 is a hypothesis of the form that uses it.
- CarryGenerators.Mwc2110.Next: the outputs are given for carries up to the multiplier; the source asks for a carry
  below it (generators/mwc2110_u64.c:50).
- CarryGenerators.Kiss2011.Next: one class stands for both word sizes, with the base as a parameter.
- Union128.PackUnpack: the union is read in little-endian order, as on the machines the source names.
- LimbGenerators.Lcg64x16.Next: the macros for the two halves of a product are methods on one limb.
