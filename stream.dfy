/**
 * The output sequence of a MersenneTwister: what successive calls of Next()
 * return, in closed form. The generator regenerates its vector exactly once
 * every N draws, and the sequence after a Seed depends on the seed alone.
 *
 * The closed form only depends on how the cursor moves, so it is proved for
 * any regeneration `twist` that keeps the length of the vector, and used
 * with TwistSpec.
 */
module Stream {
  import opened SharpTwister

  /** The state vector after n regenerations. */
  function TwistN(st: seq<bv32>, n: nat, twist: seq<bv32> --> seq<bv32>): (r: seq<bv32>)
    requires |st| == N && KeepsLength(twist)
    ensures |r| == N
    decreases n
  {
    if n == 0 then st else twist(TwistN(st, n - 1, twist))
  }

  /** The generator's state after k successive calls of Next(). */
  function Advance(g: Snapshot, k: nat, twist: seq<bv32> --> seq<bv32>): (g': Snapshot)
    requires g.Valid() && KeepsLength(twist)
    ensures g'.Valid()
    ensures k >= 1 ==> g'.cursor >= 1
    decreases k
  {
    if k == 0 then g else Step(Advance(g, k - 1, twist), twist)
  }

  /** The words that k successive calls of Next() return, in order. */
  function Draws(g: Snapshot, k: nat, twist: seq<bv32> --> seq<bv32>): (ws: seq<bv32>)
    requires g.Valid() && KeepsLength(twist)
    ensures |ws| == k
    decreases k
  {
    if k == 0 then [] else Draws(g, k - 1, twist) + [Emitted(Advance(g, k, twist))]
  }

  /** Draw j is the word behind the cursor once j + 1 calls have been made. */
  lemma {:induction false} DrawIsEmitted(g: Snapshot, k: nat, j: nat, twist: seq<bv32> --> seq<bv32>)
    requires g.Valid() && KeepsLength(twist) && j < k
    decreases k
    ensures Draws(g, k, twist)[j] == Emitted(Advance(g, j + 1, twist))
  {
    if j < k - 1 {
      DrawIsEmitted(g, k - 1, j, twist);
    }
  }

  /** Moving over one position: either within the vector, or past its end into the next one. */
  lemma PositionStep(x: nat)
    ensures x % N < N - 1 ==> (x + 1) / N == x / N && (x + 1) % N == x % N + 1
    ensures x % N == N - 1 ==> (x + 1) / N == x / N + 1 && (x + 1) % N == 0
  {
  }

  /**
   * After k >= 1 calls the generator has regenerated (cursor + k - 1) div N
   * times, and its cursor is one past the position the last call read.
   */
  lemma {:induction false} AdvanceAt(g: Snapshot, k: nat, twist: seq<bv32> --> seq<bv32>)
    requires g.Valid() && KeepsLength(twist) && k >= 1
    decreases k
    ensures Advance(g, k, twist)
         == Snapshot(TwistN(g.words, (g.cursor + k - 1) / N, twist), (g.cursor + k - 1) % N + 1)
  {
    if k == 1 {
      if g.cursor < N {
        assert g.cursor / N == 0 && g.cursor % N == g.cursor;
      } else {
        assert g.cursor / N == 1 && g.cursor % N == 0;
      }
    } else {
      AdvanceAt(g, k - 1, twist);
      PositionStep(g.cursor + k - 2);
    }
  }

  /**
   * Draw j (counting from 0) reads position (cursor + j) mod N of the vector
   * after (cursor + j) div N regenerations, and returns it tempered.
   */
  lemma DrawsAt(g: Snapshot, k: nat, j: nat, twist: seq<bv32> --> seq<bv32>)
    requires g.Valid() && KeepsLength(twist) && j < k
    ensures Draws(g, k, twist)[j]
         == Temper(TwistN(g.words, (g.cursor + j) / N, twist)[(g.cursor + j) % N])
  {
    DrawIsEmitted(g, k, j, twist);
    AdvanceAt(g, j + 1, twist);
  }

  /** The generator as Seed(s) leaves it. */
  function Seeded(s: bv32): (g: Snapshot)
    ensures g.Valid() && g.cursor == N
  {
    Snapshot(SeedSpec(s), N)
  }

  /**
   * From a fresh seed, draw j returns word j mod N of the vector after
   * j div N + 1 regenerations: the first draw regenerates, and so does every
   * N-th draw after it.
   */
  lemma SeededDrawsAt(s: bv32, k: nat, j: nat, twist: seq<bv32> --> seq<bv32>)
    requires KeepsLength(twist) && j < k
    ensures Draws(Seeded(s), k, twist)[j] == Temper(TwistN(SeedSpec(s), j / N + 1, twist)[j % N])
  {
    DrawsAt(Seeded(s), k, j, twist);
    assert (N + j) / N == j / N + 1 && (N + j) % N == j % N;
  }

  /** The first k words a generator returns after Seed(s). */
  function Output(s: bv32, k: nat): (ws: seq<bv32>)
    ensures |ws| == k
  {
    TwistSpecKeepsLength();
    Draws(Seeded(s), k, TwistSpec)
  }

  /**
   * Draws k more words from `twister` and returns them in order: they are
   * the next k draws from the state it was in.
   */
  method Run(twister: MersenneTwister, k: nat) returns (ws: seq<bv32>)
    requires twister.Valid()
    modifies twister, twister.state
    ensures KeepsLength(TwistSpec)
    ensures twister.Valid()
    ensures twister.Snap() == Advance(old(twister.Snap()), k, TwistSpec)
    ensures ws == Draws(old(twister.Snap()), k, TwistSpec)
  {
    TwistSpecKeepsLength();
    ws := [];
    var i := 0;
    while i < k
      invariant 0 <= i <= k
      invariant twister.Valid()
      invariant twister.Snap() == Advance(old(twister.Snap()), i, TwistSpec)
      invariant ws == Draws(old(twister.Snap()), i, TwistSpec)
    {
      var w := twister.Next();
      ws := ws + [w];
      i := i + 1;
    }
  }

  /**
   * Reseeds an existing generator and draws k words from it, as the
   * differential test does: whatever state the generator was in, the words
   * are the first k outputs of the seed.
   */
  method SeedAndRun(twister: MersenneTwister, seed: bv32, k: nat) returns (ws: seq<bv32>)
    requires twister.Valid()
    modifies twister, twister.state
    ensures ws == Output(seed, k)
  {
    twister.Seed(seed);
    ws := Run(twister, k);
  }
}
