/**
 * `scramble_word`: a word of more than three characters has either its
 * interior (everything but the first and the last character) or all of its
 * characters shuffled by `random.shuffle`; shorter words come back unchanged.
 *
 * The Python runtime enters in two places, both kept abstract in `Runtime`:
 * the built-in `hash` of the word (salted per process, so any function of the
 * word) and the generator behind `random.shuffle`, seen as the schedule of swap
 * draws it produces for a list of `n` items right after `random.seed(x)`.
 */
module Scramble {
  import opened Shuffle

  /** The flags `preserve_boundaries`, `deterministic` and `seed` of one call. */
  datatype Config = Config(preserveBoundaries: bool, deterministic: bool, seed: int)

  /**
   * The swap schedules `random.shuffle` draws, by the value the generator was
   * seeded with and the length of the list: `randbelow(i + 1)` only ever returns
   * some `j` with `0 <= j <= i`.
   */
  type Draws = d: (int, nat) -> seq<nat> | forall x: int, n: nat :: IsSchedule(d(x, n), n)
    witness (x: int, n: nat) => NoSwaps(n)

  /**
   * The parts of the Python runtime that `scramble_word` depends on: `hash(word)`,
   * and `draws(x, n)`, the swap schedule `random.shuffle` draws for `n` items
   * once the generator has been seeded with `x`.
   */
  datatype Runtime = Runtime(hash: string -> int, draws: Draws)

  /**
   * The value the generator is seeded with before the shuffle: `seed + hash(word)`
   * in deterministic mode; otherwise `random.seed()` takes a value from the
   * operating system, which the model receives as `entropy`.
   */
  function SeedFor(word: string, cfg: Config, rt: Runtime, entropy: int): int {
    if cfg.deterministic then cfg.seed + rt.hash(word) else entropy
  }

  /** The word `scramble_word(word, preserve_boundaries, deterministic, seed)` returns. */
  function Scrambled(word: string, cfg: Config, rt: Runtime, entropy: int): (r: string)
    ensures |r| == |word|
  {
    if |word| <= 3 then word
    else
      var x := SeedFor(word, cfg, rt, entropy);
      if cfg.preserveBoundaries then
        var middle := word[1..|word| - 1];
        [word[0]] + FisherYates(middle, rt.draws(x, |middle|)) + [word[|word| - 1]]
      else
        FisherYates(word, rt.draws(x, |word|))
  }

  /** `scramble_word`, building the list `middle` or `letters` and shuffling it in place. */
  method ScrambleWord(word: string, cfg: Config, rt: Runtime, entropy: int) returns (r: string)
    ensures r == Scrambled(word, cfg, rt, entropy)
  {
    if |word| <= 3 {
      return word;  // too short to scramble
    }
    var x := SeedFor(word, cfg, rt, entropy);
    if cfg.preserveBoundaries {
      var middle := new char[|word| - 2](k requires 0 <= k < |word| - 2 => word[k + 1]);
      assert middle[..] == word[1..|word| - 1];
      ShuffleInPlace(middle, rt.draws(x, middle.Length));
      r := [word[0]] + middle[..] + [word[|word| - 1]];
    } else {
      var letters := new char[|word|](k requires 0 <= k < |word| => word[k]);
      assert letters[..] == word;
      ShuffleInPlace(letters, rt.draws(x, letters.Length));
      r := letters[..];
    }
  }

  /** A word of at most three characters is returned as it is, whatever the flags. */
  lemma ShortWordUnchanged(word: string, cfg: Config, rt: Runtime, entropy: int)
    requires |word| <= 3
    ensures Scrambled(word, cfg, rt, entropy) == word
  {
  }

  /** Scrambling only rearranges the characters of the word. */
  lemma ScrambledPermutes(word: string, cfg: Config, rt: Runtime, entropy: int)
    ensures multiset(Scrambled(word, cfg, rt, entropy)) == multiset(word)
  {
    if |word| > 3 {
      var x := SeedFor(word, cfg, rt, entropy);
      if cfg.preserveBoundaries {
        var n := |word|;
        var middle := word[1..n - 1];
        FisherYatesPermutes(middle, rt.draws(x, |middle|));
        assert word == [word[0]] + middle + [word[n - 1]];
      } else {
        FisherYatesPermutes(word, rt.draws(x, |word|));
      }
    }
  }

  /**
   * With `preserve_boundaries` a word of four or more characters keeps its first
   * and its last character, and its interior is a permutation of the original one.
   */
  lemma ScrambledKeepsBoundaries(word: string, cfg: Config, rt: Runtime, entropy: int)
    requires cfg.preserveBoundaries && |word| >= 4
    ensures var r := Scrambled(word, cfg, rt, entropy);
      && r[0] == word[0]
      && r[|r| - 1] == word[|word| - 1]
      && multiset(r[1..|r| - 1]) == multiset(word[1..|word| - 1])
  {
    var n := |word|;
    var middle := word[1..n - 1];
    var js := rt.draws(SeedFor(word, cfg, rt, entropy), |middle|);
    var r := Scrambled(word, cfg, rt, entropy);
    FisherYatesPermutes(middle, js);
    assert r[1..n - 1] == FisherYates(middle, js);
  }

  /**
   * The properties above are all that can be said about arbitrary in-range
   * draws: every word that keeps the boundaries (when asked to) and rearranges
   * the rest comes out of some abstract `Runtime`, in either randomness mode.
   */
  lemma EveryScrambleReachable(word: string, cfg: Config, t: string) returns (rt: Runtime, entropy: int)
    requires |word| >= 4 && |t| == |word|
    requires cfg.preserveBoundaries ==>
      && t[0] == word[0] && t[|t| - 1] == word[|word| - 1]
      && multiset(t[1..|t| - 1]) == multiset(word[1..|word| - 1])
    requires !cfg.preserveBoundaries ==> multiset(t) == multiset(word)
    ensures Scrambled(word, cfg, rt, entropy) == t
  {
    var n := |word|;
    var size := if cfg.preserveBoundaries then n - 2 else n;
    var js: seq<nat>;
    if cfg.preserveBoundaries {
      js := EveryPermutationReachable(word[1..n - 1], t[1..n - 1]);
      assert t == [t[0]] + t[1..n - 1] + [t[n - 1]];
    } else {
      js := EveryPermutationReachable(word, t);
    }
    var draws := (x: int, k: nat) => if k == size then js else NoSwaps(k);
    assert forall x: int, k: nat :: IsSchedule(draws(x, k), k);
    rt := Runtime(w => 0, draws);
    entropy := 0;
  }

  /**
   * In deterministic mode the result depends only on the word, the flags and
   * `seed`: the operating system's entropy plays no part.
   */
  lemma DeterministicIgnoresEntropy(word: string, cfg: Config, rt: Runtime, e1: int, e2: int)
    requires cfg.deterministic
    ensures Scrambled(word, cfg, rt, e1) == Scrambled(word, cfg, rt, e2)
  {
  }
}
