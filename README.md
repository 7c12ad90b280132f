# MT19937 in SharpTwister, modelled in Dafny

SharpTwister's `MersenneTwister` class implements the MT19937 generator of
Matsumoto and Nishimura. A generator holds a vector of 624 32-bit words and a
cursor into that vector.

- `Seed` fills the vector from a seed with a multiplicative recurrence modulo 2^32.
- `Next()` returns the word under the cursor after passing it through a
  tempering bit mixer. When the cursor has reached 624, it first regenerates
  ("twists") the whole vector in place.

The model has two modules.

- `SharpTwister` (`mersenne_twister.dfy`) holds:
  - the constants and the `Mag01` table;
  - `Temper` and its inverse `Untemper`;
  - the seeding recurrence `SeedSpec`;
  - the in-place regeneration `TwistSpec`, with the three-loop reference
    recurrence it must agree with;
  - the value `Snapshot` of a generator and one call of `Next()` on it (`NextState`);
  - the class `MersenneTwister`. Its field `state` is an `array<bv32>` and
    its field `index` is an `int`. Its methods `Seed`, `Next` and `Twist`
    update them in place and are proved against the functions above.
- `Stream` (`stream.dfy`) gives the closed form of the output:
  - of k calls of `Next()`, draw j reads word (cursor + j) mod 624 of the
    vector after (cursor + j) div 624 regenerations;
  - reseeding a generator fixes its whole future output whatever state it
    was in, which is what the differential test relies on.

Words are `bv32`. Its arithmetic wraps modulo 2^32, exactly like C#'s
unchecked `uint` arithmetic. In `Seed`, the source adds the `int` position to
a `uint` product. C# evaluates that sum in `long` and casts it back to
`uint`, which gives the same value modulo 2^32. The position is below 624,
so `i as bv32` is exact.

## Model

| member | source | states |
|---|---|---|
| SharpTwister.Feedback | SharpTwister/MersenneTwister.cs:49-59 | `Mag01[y & 1]` is 0 for an even word and MatrixA for an odd one; the index is always 0 or 1, so it stays inside the table |
| SharpTwister.UndoRight11 | SharpTwister/MersenneTwister.cs:148 | the first tempering stage `y ^= y >> 11` is undone by its inverse, in both orders |
| SharpTwister.UndoLeft7 | SharpTwister/MersenneTwister.cs:149 | the second stage `y ^= (y << 7) & B` is undone by its inverse, in both orders |
| SharpTwister.UndoLeft15 | SharpTwister/MersenneTwister.cs:150 | the third stage `y ^= (y << 15) & C` is its own inverse, in both orders |
| SharpTwister.UndoRight18 | SharpTwister/MersenneTwister.cs:151 | the fourth stage `y ^= y >> 18` is its own inverse, in both orders |
| SharpTwister.TemperBijective | SharpTwister/MersenneTwister.cs:146-154 | Temper is a permutation of the 32-bit words: Untemper inverts it on both sides |
| SharpTwister.TemperInjective | SharpTwister/MersenneTwister.cs:146-154 | two raw words temper to the same output exactly when they are equal |
| SharpTwister.SeedExtend | SharpTwister/MersenneTwister.cs:90-93 | continuing the seeding loop from the words already written yields N words and leaves those words as they were |
| SharpTwister.SeedSpec | SharpTwister/MersenneTwister.cs:86-94 | seeding yields N words and word 0 is the seed |
| SharpTwister.SeedExtendRecurrence | SharpTwister/MersenneTwister.cs:90-93 | a prefix that follows the recurrence, extended by the loop, follows it for all N words |
| SharpTwister.SeedSpecRecurrence | SharpTwister/MersenneTwister.cs:88-93 | after seeding with s, word 0 is s and word i is `1812433253 * (w ^ (w >> 30)) + i` modulo 2^32, with w word i - 1, for 1 <= i < N |
| SharpTwister.SeededUpToExtend | SharpTwister/MersenneTwister.cs:90-93 | one iteration of the seeding loop extends the part that follows the recurrence by one word |
| SharpTwister.SeedRecurrenceUnique | SharpTwister/MersenneTwister.cs:86-94 | a vector that follows the seeding recurrence for s is SeedSpec(s): the seed alone fixes the state |
| SharpTwister.Succ | SharpTwister/MersenneTwister.cs:136-140 | the neighbour read at position i is i + 1, except for the last position, which reads position 0 |
| SharpTwister.Far | SharpTwister/MersenneTwister.cs:137-141 | the word read M positions ahead is i + M before position N - M, and wraps to i + M - N from there on |
| SharpTwister.SweepStep | SharpTwister/MersenneTwister.cs:136-137 | rewriting one position in place keeps N words |
| SharpTwister.Sweep | SharpTwister/MersenneTwister.cs:134-141 | the first k in-place steps, taken in ascending order, keep N words |
| SharpTwister.SweepAt | SharpTwister/MersenneTwister.cs:134-141 | after k in-place steps: positions from k on are untouched; a rewritten position below N - M reads only old words; one from N - M on reads the old next word and the NEW word N - M positions back; the last reads the new words 0 and M - 1 |
| SharpTwister.SweepSatisfiesRecurrence | SharpTwister/MersenneTwister.cs:134-141 | the full in-place pass satisfies the three-loop recurrence of the reference generator |
| SharpTwister.SweepRecurrenceUnique | SharpTwister/MersenneTwister.cs:134-141 | no other vector satisfies that recurrence |
| SharpTwister.TwistSpec | SharpTwister/MersenneTwister.cs:129-144 | regeneration keeps N words |
| SharpTwister.TwistSpecRecurrence | SharpTwister/MersenneTwister.cs:134-141 | a vector is the regenerated vector exactly when it satisfies the three-loop recurrence with the twist rule (mask, shift, Mag01 feedback, xor with the word M ahead) |
| SharpTwister.TwistSpecKeepsLength | SharpTwister/MersenneTwister.cs:62 | regeneration maps every vector of N words to a vector of N words |
| SharpTwister.Step | SharpTwister/MersenneTwister.cs:100-110 | a call of Next() regenerates exactly when the cursor is at N, and restarts the cursor at 1; otherwise the vector is unchanged and the cursor moves on by one; the cursor afterwards lies in 1..N |
| SharpTwister.NextState | SharpTwister/MersenneTwister.cs:100-110 | the same, with TwistSpec as the regeneration |
| SharpTwister.MersenneTwister.constructor | SharpTwister/MersenneTwister.cs:77-80 | a new generator holds SeedSpec(seed) with the cursor at N, although the field initializer had set it to N + 1 |
| SharpTwister.MersenneTwister.Seed | SharpTwister/MersenneTwister.cs:86-94 | from any previous state, the vector becomes SeedSpec(seed) and the cursor N |
| SharpTwister.MersenneTwister.Next | SharpTwister/MersenneTwister.cs:100-110 | the new state is NextState of the old one and the result is Temper of the word just read; without a regeneration only the cursor changes; with one the vector is TwistSpec of the old one and the cursor is 1 |
| SharpTwister.MersenneTwister.NextBounded | SharpTwister/MersenneTwister.cs:117-120 | one call of Next(), its word passed to the scaling conversion |
| SharpTwister.MersenneTwister.NextDouble | SharpTwister/MersenneTwister.cs:124-127 | one call of Next(), its word passed to the conversion to double |
| SharpTwister.MersenneTwister.Twist | SharpTwister/MersenneTwister.cs:129-144 | the in-place loop over positions 0 .. N-2 and the final step at N - 1 together leave TwistSpec of the old vector, and the cursor is 0 |
| Stream.TwistN | SharpTwister/MersenneTwister.cs:129-144 | any number of regenerations keeps N words |
| Stream.Advance | SharpTwister/MersenneTwister.cs:100-110 | the state after k calls of Next() is valid, and its cursor is at least 1 once a call was made |
| Stream.Draws | SharpTwister/MersenneTwister.cs:100-110 | k calls of Next() return k words |
| Stream.DrawIsEmitted | SharpTwister/MersenneTwister.cs:107-109 | draw j is the tempered word behind the cursor once j + 1 calls have been made |
| Stream.AdvanceAt | SharpTwister/MersenneTwister.cs:102-107 | after k >= 1 calls the vector has been regenerated (cursor + k - 1) div N times and the cursor is (cursor + k - 1) mod N + 1: a regeneration happens exactly when the cursor reaches N |
| Stream.DrawsAt | SharpTwister/MersenneTwister.cs:100-110 | draw j returns Temper of word (cursor + j) mod N of the vector after (cursor + j) div N regenerations |
| Stream.Seeded | SharpTwister/MersenneTwister.cs:86-94 | a freshly seeded generator is valid and its cursor is at N |
| Stream.SeededDrawsAt | SharpTwister/MersenneTwister.cs:86-110 | after Seed(s), draw j returns Temper of word j mod N of the seeded vector regenerated j div N + 1 times: the first draw regenerates |
| Stream.Output | SharpTwister/MersenneTwister.cs:86-110 | the first k outputs after Seed(s) are k words |
| Stream.Run | SharpTwister.Tests/MersenneTwisterTests.cs:68-71 | k calls of Next() on a generator return the k draws from its state, and leave the state k calls further on |
| Stream.SeedAndRun | SharpTwister.Tests/MersenneTwisterTests.cs:63-72 | reseeding a generator in any state and drawing k words yields Output(seed, k), a function of the seed and k alone |

## Left out

- The default constructor `MersenneTwister()` seeds from `Environment.TickCount`, a clock; only the explicit-seed constructor is modelled.
- SharpTwister.MersenneTwister.NextBounded: does not model the double-precision product `Next() * (maxValue / 4294967296.0)` or its truncation to `uint`; the conversion is a parameter, so the model only states that one word is drawn and converted.
- SharpTwister.MersenneTwister.NextDouble: does not model the double-precision product `Next() * (1.0 / uint.MaxValue)`; the conversion is a parameter, for the same reason.
- The documentation of `Next()` says its result is less than `UInt32.MaxValue`. The code does not enforce that, and the model does not state it.
- SharpTwister.Tests/mt19937/Mt19937ar.cs binds the native reference library through `DllImport`. Foreign calls are not part of this model.
- The xUnit tests in SharpTwister.Tests/MersenneTwisterTests.cs compare a million outputs with the native library and check golden values. The model states what the sequence is; it does not evaluate it.
- Statistical properties are not stated: the period 2^19937 - 1, equidistribution and uniformity.
- The class has no concurrency, and none is modelled.
- In the `Twist` method, the loop body calls the function Twisted for the new word instead of writing the mask, shift and `Mag01` expression inline. Twisted's body is that expression.
- The cursor value N + 1 from the field initializer is visible only between allocation and the call of `Seed` in the constructor. The class invariant `0 <= index <= N` holds from then on.
