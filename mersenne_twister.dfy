/**
 * The MT19937 Mersenne Twister of Matsumoto and Nishimura, as the class
 * `MersenneTwister` of SharpTwister implements it: a 624-word state vector
 * that is seeded by a linear congruential recurrence, regenerated in place
 * ("twisted") once every 624 draws, and read through a tempering transform.
 *
 * All words are `bv32`, whose arithmetic is modulo 2^32 exactly like the
 * unchecked `uint` arithmetic of the original.
 */
module SharpTwister {

  // Period parameters
  const N: int := 624
  const M: int := 397
  const MatrixA: bv32 := 0x9908b0df
  const UpperMask: bv32 := 0x80000000
  const LowerMask: bv32 := 0x7fffffff
  /** Knuth, TAOCP Vol. 2, 3rd ed., p. 106 */
  const SpectralTestMultiplier: bv32 := 1812433253

  // Tempering bit masks
  const B: bv32 := 0x9d2c5680
  const C: bv32 := 0xefc60000

  /** The two-entry table selected by the low bit of a twisted word. */
  const Mag01: seq<bv32> := [0, MatrixA]

  /** `Mag01[y & 1]`: the index is 0 or 1, so the lookup never leaves the table. */
  function Feedback(y: bv32): (r: bv32)
    ensures y & 1 == 0 ==> r == 0
    ensures y & 1 == 1 ==> r == MatrixA
  {
    assert y & 1 == 0 || y & 1 == 1;
    Mag01[(y & 1) as int]
  }

  /*---------------------------------------------------------------- Temper */

  // The four reassignments of the output bit mixer, one function each.
  // Shifts are logical; the word is 32 bits wide.

  function TemperShiftRight11(y: bv32): bv32 { y ^ (y >> 11) }

  function TemperShiftLeft7(y: bv32): bv32 { y ^ ((y << 7) & B) }

  function TemperShiftLeft15(y: bv32): bv32 { y ^ ((y << 15) & C) }

  function TemperShiftRight18(y: bv32): bv32 { y ^ (y >> 18) }

  /** The output bit mixer. */
  function Temper(next: bv32): bv32
  {
    var y1 := TemperShiftRight11(next);
    var y2 := TemperShiftLeft7(y1);
    var y3 := TemperShiftLeft15(y2);
    TemperShiftRight18(y3)
  }

  // Inverses of the four stages.

  function UndoShiftRight11(z: bv32): bv32 { z ^ (z >> 11) ^ (z >> 22) }

  /** Each round recovers seven more low-order bits. */
  function UndoShiftLeft7(z: bv32): bv32
  {
    var x1 := z ^ ((z << 7) & B);
    var x2 := z ^ ((x1 << 7) & B);
    var x3 := z ^ ((x2 << 7) & B);
    z ^ ((x3 << 7) & B)
  }

  /** One round suffices: C has no bit below position 17, so C << 15 is zero. */
  function UndoShiftLeft15(z: bv32): bv32 { z ^ ((z << 15) & C) }

  function UndoShiftRight18(z: bv32): bv32 { z ^ (z >> 18) }

  /** The inverse of Temper: its stages undone, last stage first. */
  function Untemper(w: bv32): bv32
  {
    UndoShiftRight11(UndoShiftLeft7(UndoShiftLeft15(UndoShiftRight18(w))))
  }

  lemma UndoRight11(y: bv32)
    ensures UndoShiftRight11(TemperShiftRight11(y)) == y
    ensures TemperShiftRight11(UndoShiftRight11(y)) == y
  {
    assert TemperShiftRight11(y) == y ^ (y >> 11);
    assert UndoShiftRight11(y) == y ^ (y >> 11) ^ (y >> 22);
  }

  lemma UndoLeft7(y: bv32)
    ensures UndoShiftLeft7(TemperShiftLeft7(y)) == y
    ensures TemperShiftLeft7(UndoShiftLeft7(y)) == y
  {
  }

  lemma UndoLeft15(y: bv32)
    ensures UndoShiftLeft15(TemperShiftLeft15(y)) == y
    ensures TemperShiftLeft15(UndoShiftLeft15(y)) == y
  {
  }

  lemma UndoRight18(y: bv32)
    ensures UndoShiftRight18(TemperShiftRight18(y)) == y
    ensures TemperShiftRight18(UndoShiftRight18(y)) == y
  {
    assert TemperShiftRight18(y) == y ^ (y >> 18);
    assert UndoShiftRight18(y) == y ^ (y >> 18);
  }

  /** Temper is a permutation of the 32-bit words, with inverse Untemper. */
  lemma TemperBijective(w: bv32)
    ensures Untemper(Temper(w)) == w
    ensures Temper(Untemper(w)) == w
  {
    var y1 := TemperShiftRight11(w);
    var y2 := TemperShiftLeft7(y1);
    var y3 := TemperShiftLeft15(y2);
    UndoRight11(w);
    UndoLeft7(y1);
    UndoLeft15(y2);
    UndoRight18(y3);
    var z1 := UndoShiftRight18(w);
    var z2 := UndoShiftLeft15(z1);
    var z3 := UndoShiftLeft7(z2);
    UndoRight18(w);
    UndoLeft15(z1);
    UndoLeft7(z2);
    UndoRight11(z3);
  }

  /** Distinct raw words give distinct outputs. */
  lemma TemperInjective(a: bv32, b: bv32)
    ensures Temper(a) == Temper(b) <==> a == b
  {
    TemperBijective(a);
    TemperBijective(b);
  }

  /*------------------------------------------------------------------ Seed */

  /**
   * Word i of the seeded vector from word i - 1. The product wraps modulo
   * 2^32, and adding the position i (below N) wraps the same way.
   */
  function SeedWord(prev: bv32, i: int): bv32
    requires 0 <= i < N
  {
    SpectralTestMultiplier * (prev ^ (prev >> 30)) + i as bv32
  }

  /** Runs the seeding loop on from the words p already written, up to N words. */
  function SeedExtend(p: seq<bv32>): (r: seq<bv32>)
    requires 1 <= |p| <= N
    ensures |r| == N && r[..|p|] == p
    decreases N - |p|
  {
    if |p| == N then p
    else SeedExtend(p + [SeedWord(p[|p| - 1], |p|)])
  }

  /** The whole state vector after seeding with s. */
  function SeedSpec(s: bv32): (r: seq<bv32>)
    ensures |r| == N && r[0] == s
  {
    SeedExtend([s])
  }

  /** The first k words of st follow the seeding recurrence. */
  ghost predicate SeededUpTo(s: bv32, st: seq<bv32>, k: int)
  {
    |st| == N && 1 <= k <= N && st[0] == s &&
    forall i :: 1 <= i < k ==> st[i] == SeedWord(st[i - 1], i)
  }

  /** The seeding recurrence, stated word by word for the whole vector. */
  ghost predicate SeedRecurrence(s: bv32, st: seq<bv32>)
  {
    SeededUpTo(s, st, N)
  }

  lemma {:induction false} SeedExtendRecurrence(s: bv32, p: seq<bv32>)
    requires 1 <= |p| <= N && p[0] == s
    requires forall i :: 1 <= i < |p| ==> p[i] == SeedWord(p[i - 1], i)
    ensures SeedRecurrence(s, SeedExtend(p))
    decreases N - |p|
  {
    if |p| < N {
      var p' := p + [SeedWord(p[|p| - 1], |p|)];
      forall i | 1 <= i < |p'|
        ensures p'[i] == SeedWord(p'[i - 1], i)
      {
        if i < |p| {
          assert p'[i] == p[i] && p'[i - 1] == p[i - 1];
        }
      }
      SeedExtendRecurrence(s, p');
    }
  }

  /** SeedSpec satisfies the seeding recurrence ... */
  lemma SeedSpecRecurrence(s: bv32)
    ensures SeedRecurrence(s, SeedSpec(s))
  {
    SeedExtendRecurrence(s, [s]);
  }

  lemma {:induction false} SeedRecurrenceAgree(s: bv32, a: seq<bv32>, b: seq<bv32>, j: int)
    requires SeedRecurrence(s, a) && SeedRecurrence(s, b) && 1 <= j <= N
    ensures forall i :: 0 <= i < j ==> a[i] == b[i]
  {
    if j > 1 {
      SeedRecurrenceAgree(s, a, b, j - 1);
      assert a[j - 1] == SeedWord(a[j - 2], j - 1);
      assert b[j - 1] == SeedWord(b[j - 2], j - 1);
    }
  }

  /** One iteration of the seeding loop extends the seeded prefix by one word. */
  lemma SeededUpToExtend(s: bv32, st: seq<bv32>, k: int)
    requires SeededUpTo(s, st, k) && k < N
    ensures SeededUpTo(s, st[k := SeedWord(st[k - 1], k)], k + 1)
  {
    var w := SeedWord(st[k - 1], k);
    var st' := st[k := w];
    assert st'[k - 1] == st[k - 1];
    forall i | 1 <= i < k + 1
      ensures st'[i] == SeedWord(st'[i - 1], i)
    {
      if i < k {
        assert st'[i] == st[i] && st'[i - 1] == st[i - 1];
      }
    }
  }

  /** ... and it is the only vector that does: the seed alone fixes the state. */
  lemma SeedRecurrenceUnique(s: bv32, st: seq<bv32>)
    requires SeedRecurrence(s, st)
    ensures st == SeedSpec(s)
  {
    SeedSpecRecurrence(s);
    SeedRecurrenceAgree(s, st, SeedSpec(s), N);
  }

  /*----------------------------------------------------------------- Twist */

  /** The position after i, cyclically: the last position is followed by position 0. */
  function Succ(i: int): (r: int)
    requires 0 <= i < N
    ensures i < N - 1 ==> r == i + 1
    ensures i == N - 1 ==> r == 0
  {
    (i + 1) % N
  }

  /** The position M ahead of i, cyclically: from N - M on it wraps into the front. */
  function Far(i: int): (r: int)
    requires 0 <= i < N
    ensures i < N - M ==> r == i + M
    ensures N - M <= i ==> r == i + M - N
  {
    (i + M) % N
  }

  /**
   * The new value of a word: the upper bit of `cur` joined to the lower 31
   * bits of `next`, shifted right once, the feedback polynomial added when
   * the joined word is odd, and the word `far` added.
   */
  function Twisted(cur: bv32, next: bv32, far: bv32): bv32
  {
    var twister := (cur & UpperMask) | (next & LowerMask);
    far ^ (twister >> 1) ^ Feedback(twister)
  }

  /*
   * The order of a regeneration pass does not depend on what a word's new
   * value is, so the pass is stated for any per-word `rule`; TwistSpec
   * instantiates it with Twisted.
   */

  /** Rewriting position i in place, reading the vector as it is at that moment. */
  function SweepStep<T>(st: seq<T>, i: int, rule: (T, T, T) -> T): (r: seq<T>)
    requires |st| == N && 0 <= i < N
    ensures |r| == N
  {
    st[i := rule(st[i], st[Succ(i)], st[Far(i)])]
  }

  /** The vector after positions 0 .. k-1 have been rewritten, in ascending order. */
  function Sweep<T>(st: seq<T>, k: int, rule: (T, T, T) -> T): (r: seq<T>)
    requires |st| == N && 0 <= k <= N
    ensures |r| == N
    decreases k
  {
    if k == 0 then st else SweepStep(Sweep(st, k - 1, rule), k - 1, rule)
  }

  /**
   * The pass written as the three loops of the reference generator: the
   * first N - M words read only old words; the next M - 1 read the old word
   * after them and the NEW word N - M positions back; the last word reads
   * the new words 0 and M - 1.
   */
  ghost predicate SweepRecurrence<T>(s: seq<T>, r: seq<T>, rule: (T, T, T) -> T)
  {
    |s| == N && |r| == N &&
    (forall j {:trigger r[j]} :: 0 <= j < N - M ==> r[j] == rule(s[j], s[j + 1], s[j + M])) &&
    (forall j {:trigger r[j], s[j]} :: N - M <= j < N - 1 ==> r[j] == rule(s[j], s[j + 1], r[j + M - N])) &&
    r[N - 1] == rule(s[N - 1], r[0], r[M - 1])
  }

  /** What the first k steps of the pass have written, word by word. */
  lemma {:induction false} SweepAt<T>(s: seq<T>, k: int, rule: (T, T, T) -> T)
    requires |s| == N && 0 <= k <= N
    ensures forall j :: k <= j < N ==> Sweep(s, k, rule)[j] == s[j]
    ensures forall j {:trigger Sweep(s, k, rule)[j]} :: 0 <= j < k && j < N - M ==>
      Sweep(s, k, rule)[j] == rule(s[j], s[j + 1], s[j + M])
    ensures forall j {:trigger Sweep(s, k, rule)[j], s[j]} :: N - M <= j < k && j < N - 1 ==>
      Sweep(s, k, rule)[j] == rule(s[j], s[j + 1], Sweep(s, k, rule)[j + M - N])
    ensures k == N ==>
      Sweep(s, k, rule)[N - 1] == rule(s[N - 1], Sweep(s, k, rule)[0], Sweep(s, k, rule)[M - 1])
  {
    if k > 0 {
      SweepAt(s, k - 1, rule);
    }
  }

  lemma {:induction false} SweepRecurrenceAgree<T>(s: seq<T>, a: seq<T>, b: seq<T>, j: int, rule: (T, T, T) -> T)
    requires SweepRecurrence(s, a, rule) && SweepRecurrence(s, b, rule) && 0 <= j <= N
    ensures forall i :: 0 <= i < j ==> a[i] == b[i]
  {
    if j > 0 {
      SweepRecurrenceAgree(s, a, b, j - 1, rule);
      var i := j - 1;
      if i < N - M {
        assert a[i] == rule(s[i], s[i + 1], s[i + M]);
        assert b[i] == rule(s[i], s[i + 1], s[i + M]);
      } else if i < N - 1 {
        assert a[i + M - N] == b[i + M - N];
        assert a[i] == rule(s[i], s[i + 1], a[i + M - N]);
        assert b[i] == rule(s[i], s[i + 1], b[i + M - N]);
      } else {
        assert a[0] == b[0] && a[M - 1] == b[M - 1];
      }
      assert a[i] == b[i];
    }
  }

  /** A full in-place pass satisfies the three-loop recurrence ... */
  lemma SweepSatisfiesRecurrence<T>(s: seq<T>, rule: (T, T, T) -> T)
    requires |s| == N
    ensures SweepRecurrence(s, Sweep(s, N, rule), rule)
  {
    SweepAt(s, N, rule);
  }

  /** ... and no other vector does. */
  lemma SweepRecurrenceUnique<T>(s: seq<T>, r: seq<T>, rule: (T, T, T) -> T)
    requires SweepRecurrence(s, r, rule)
    ensures r == Sweep(s, N, rule)
  {
    SweepSatisfiesRecurrence(s, rule);
    SweepRecurrenceAgree(s, r, Sweep(s, N, rule), N, rule);
  }

  /** One full regeneration of the state vector. */
  function TwistSpec(st: seq<bv32>): (r: seq<bv32>)
    requires |st| == N
    ensures |r| == N
  {
    Sweep(st, |st|, Twisted)
  }

  /** TwistSpec is exactly the reference recurrence instantiated with Twisted. */
  lemma TwistSpecRecurrence(s: seq<bv32>, r: seq<bv32>)
    requires |s| == N
    ensures SweepRecurrence(s, r, Twisted) <==> r == TwistSpec(s)
  {
    SweepSatisfiesRecurrence(s, Twisted);
    if SweepRecurrence(s, r, Twisted) {
      SweepRecurrenceUnique(s, r, Twisted);
    }
  }

  /*------------------------------------------------------------------ Next */

  /** The generator's state as a value: the vector and the cursor. */
  datatype Snapshot = Snapshot(words: seq<bv32>, cursor: int)
  {
    predicate Valid()
    {
      |words| == N && 0 <= cursor <= N
    }
  }

  /** A regeneration maps every vector of N words to a vector of N words. */
  ghost predicate KeepsLength(twist: seq<bv32> --> seq<bv32>)
  {
    forall st: seq<bv32> :: |st| == N ==> twist.requires(st) && |twist(st)| == N
  }

  lemma TwistSpecKeepsLength()
    ensures KeepsLength(TwistSpec)
  {
  }

  /**
   * The state one call of Next() leaves, for a regeneration `twist`: when the
   * cursor is exhausted the vector is regenerated and the cursor restarts at
   * the first word, otherwise the cursor moves on. The regeneration is a
   * parameter so that facts about the cursor hold for any of them.
   */
  function Step(g: Snapshot, twist: seq<bv32> --> seq<bv32>): (r: Snapshot)
    requires g.Valid() && KeepsLength(twist)
    ensures r.Valid() && 1 <= r.cursor
    ensures g.cursor < N ==> r == Snapshot(g.words, g.cursor + 1)
    ensures g.cursor == N ==> r == Snapshot(twist(g.words), 1)
  {
    if g.cursor >= N then Snapshot(twist(g.words), 1) else Snapshot(g.words, g.cursor + 1)
  }

  /** The word a call of Next() returned, from the state `h` it left: the tempered word behind the cursor. */
  function Emitted(h: Snapshot): bv32
    requires h.Valid() && 1 <= h.cursor
  {
    Temper(h.words[h.cursor - 1])
  }

  /** The state one call of Next() leaves. */
  function NextState(g: Snapshot): (r: Snapshot)
    requires g.Valid()
    ensures r.Valid() && 1 <= r.cursor
    ensures g.cursor < N ==> r == Snapshot(g.words, g.cursor + 1)
    ensures g.cursor == N ==> r == Snapshot(TwistSpec(g.words), 1)
  {
    TwistSpecKeepsLength();
    Step(g, TwistSpec)
  }

  /*----------------------------------------------------------------- Class */

  class MersenneTwister {
    const state: array<bv32>
    var index: int

    ghost predicate Valid()
      reads this
    {
      state.Length == N && 0 <= index <= N
    }

    ghost function Snap(): Snapshot
      reads this, state
    {
      Snapshot(state[..], index)
    }

    /** The explicit-seed constructor: the cursor starts at N + 1, then Seed runs. */
    constructor (seed: bv32)
      ensures Valid() && fresh(state)
      ensures Snap() == Snapshot(SeedSpec(seed), N)
    {
      state := new bv32[N];
      index := N + 1;
      new;
      Seed(seed);
    }

    /** Overwrites all N words from the seed; the cursor is the loop counter and ends at N. */
    method Seed(seed: bv32)
      requires state.Length == N
      modifies this, state
      ensures Valid()
      ensures state[..] == SeedSpec(seed) && index == N
    {
      state[0] := seed;
      index := 1;
      while index < N
        invariant SeededUpTo(seed, state[..], index)
      {
        SeededUpToExtend(seed, state[..], index);
        state[index] := SeedWord(state[index - 1], index);
        index := index + 1;
      }
      assert SeedRecurrence(seed, state[..]);
      SeedRecurrenceUnique(seed, state[..]);
    }

    /** Returns the next tempered word, twisting first when the cursor has reached N. */
    method Next() returns (r: bv32)
      requires Valid()
      modifies this, state
      ensures Valid() && 1 <= index
      ensures Snap() == NextState(old(Snap())) && r == Emitted(Snap())
      ensures old(index) < N ==> state[..] == old(state[..]) && index == old(index) + 1
      ensures old(index) >= N ==> state[..] == TwistSpec(old(state[..])) && index == 1
    {
      if index >= N {
        Twist();
      }
      var next := state[index];
      index := index + 1;
      r := Temper(next);
    }

    /**
     * `Next(uint maxValue)`: one draw, scaled by the floating-point conversion
     * `scale`, which is a parameter of the model.
     */
    method NextBounded(maxValue: bv32, scale: (bv32, bv32) -> bv32) returns (r: bv32)
      requires Valid()
      modifies this, state
      ensures Valid()
      ensures Snap() == NextState(old(Snap()))
      ensures r == scale(Emitted(Snap()), maxValue)
    {
      var w := Next();
      r := scale(w, maxValue);
    }

    /** `NextDouble()`: one draw, through the conversion `toDouble`, a parameter of the model. */
    method NextDouble<D>(toDouble: bv32 -> D) returns (d: D)
      requires Valid()
      modifies this, state
      ensures Valid()
      ensures Snap() == NextState(old(Snap()))
      ensures d == toDouble(Emitted(Snap()))
    {
      var w := Next();
      d := toDouble(w);
    }

    /** Regenerates the whole vector in place (ascending positions) and resets the cursor. */
    method Twist()
      requires Valid()
      modifies this, state
      ensures Valid() && index == 0
      ensures state[..] == TwistSpec(old(state[..]))
    {
      var twistIndex := 0;
      while twistIndex < N - 1
        invariant 0 <= twistIndex <= N - 1
        invariant state[..] == Sweep(old(state[..]), twistIndex, Twisted)
      {
        state[twistIndex] := Twisted(state[twistIndex], state[twistIndex + 1], state[(twistIndex + M) % N]);
        twistIndex := twistIndex + 1;
      }

      state[N - 1] := Twisted(state[N - 1], state[0], state[M - 1]);

      index := 0;
    }
  }
}
