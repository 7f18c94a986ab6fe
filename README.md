# Lexical obfuscation, modelled in Dafny

This project models the word-scrambling core of `lexical_obfuscation.py`.

- `scramble_word` leaves words of at most three characters alone. For a longer word it shuffles either the interior (the first and last characters stay put) or the whole word with `random.shuffle`.
- `obfuscate_text` runs `re.sub` with the pattern `\b\w+\b` and the callback `scramble_match`. Every maximal run of word characters is replaced by its scrambled form, and everything else is copied through.

The project has three modules, one per file:

- `shuffle.dfy`, module `Shuffle`: `random.shuffle` as the back-to-front Fisher–Yates loop over an array.
  - Each step draws `j = randbelow(i + 1)` and swaps `x[i]` with `x[j]`.
  - The draws are an explicit swap schedule `js`, where `js[k]` is the draw for `i = n - 1 - k`. `IsSchedule(js, n)` says that every draw is in range.
  - `ShuffleInPlace` is the in-place method. It is proved equal to the function `FisherYates`, and the lemmas about `FisherYates` say what a shuffle can and cannot do.
- `scramble.dfy`, module `Scramble`: `scramble_word`.
  - `Scrambled` is the function that says which word comes out.
  - `ScrambleWord` is the imperative version. It builds the array `middle` or `letters`, shuffles it in place and joins the result. Its contract ties it to `Scrambled`.
  - The runtime pieces the function depends on are fields of `Runtime`:
    - `hash` is the built-in string hash.
    - `draws(x, n)` is the schedule the generator yields for `n` items after `random.seed(x)`. Its type `Draws` only admits in-range schedules.
  - `SeedFor` picks `seed + hash(word)` in deterministic mode. Otherwise it picks the `entropy` value that `random.seed()` takes from the operating system.
- `obfuscate.dfy`, module `Obfuscate`: `re.sub` with `\b\w+\b` and a callback, and `obfuscate_text` as its instance with `scramble_match`.
  - `\w` is a parameter `w: char -> bool`. `IsBoundary` is `\b`, and `Matches(w, text, i, j)` says that `\b\w+\b` matches `text[i..j]`.
  - `MatchAt` is the match attempt at one offset. Greedy `\w+` takes the whole run, and the leading `\b` rejects offsets inside a run.
  - `SubFrom` is the left-to-right scan of `re.sub`. `Emit` is what it outputs at an offset and `Next` is where it resumes.
  - The callback receives the match's start offset. In non-deterministic mode that offset selects the operating-system seed, `entropy(i)`, used for that word.

Determinism is stated for one `Runtime`, that is, for one fixed `hash`. Python salts the built-in `hash` of strings per process, so deterministic mode reproduces its output only while `hash` stays the same. A design that wants reproducibility across runs would need a stable hash of its own. The model keeps the code's `hash(word)` as an arbitrary function of the word.

## Model

| member | source | states |
|---|---|---|
| `Shuffle.IsSchedule` | lexical_obfuscation.py:47 | the draws `randbelow(i + 1)` can produce for a list of `n` items, one per step; `ScheduleInRange` states what it admits |
| `Shuffle.ScheduleInRange` | lexical_obfuscation.py:47 | a schedule for `n` items is exactly `n - 1` draws (none for an empty list), the draw for `i = n - 1 - k` lying in `0..i`, in both directions |
| `Shuffle.Swap` | lexical_obfuscation.py:47 | the shuffle's step `x[i], x[j] = x[j], x[i]` puts each of the two elements in the other's place and leaves every other element where it was |
| `Shuffle.ShuffleFrom` | lexical_obfuscation.py:47 | the rest of `random.shuffle`'s loop with `m` items left to place yields a list of the same length |
| `Shuffle.FisherYates` | lexical_obfuscation.py:47 | the list `random.shuffle` leaves for a given in-range schedule has the input's length |
| `Shuffle.SwapElements` | lexical_obfuscation.py:47 | one step of the shuffle exchanges exactly the two array cells and nothing else |
| `Shuffle.ShuffleInPlace` | lexical_obfuscation.py:47 | shuffling the array in place leaves exactly `FisherYates` of its old contents, for every in-range schedule |
| `Shuffle.ShuffleFromPermutes` | lexical_obfuscation.py:47 | whatever the draws, each stage of the loop only rearranges the list (same multiset) |
| `Shuffle.FisherYatesPermutes` | lexical_obfuscation.py:55 | the shuffled list is a permutation of the original |
| `Shuffle.ShuffleFromKeepsTail` | lexical_obfuscation.py:47 | the loop never moves an item that has already been placed at the back |
| `Shuffle.ReachableFrom` | lexical_obfuscation.py:47 | from any state of the loop, every arrangement that keeps the placed tail and permutes the rest is produced by some schedule |
| `Shuffle.EveryPermutationReachable` | lexical_obfuscation.py:55 | every permutation of the list is the result of some in-range schedule, so the shuffle's contract rules out no rearrangement |
| `Shuffle.NoSwaps` | lexical_obfuscation.py:47 | drawing `j = i` at every step is an in-range schedule |
| `Shuffle.NoSwapsKeepsOrder` | lexical_obfuscation.py:47 | with those draws the shuffle leaves the list as it was, so a scrambled word can equal the original |
| `Scramble.SeedFor` | lexical_obfuscation.py:42-54 | the value passed to `random.seed`: `seed + hash(word)` in deterministic mode, the operating system's value otherwise; `DeterministicIgnoresEntropy` states what follows from it |
| `Scramble.Scrambled` | lexical_obfuscation.py:24-56 | the word `scramble_word` returns has the length of the input word |
| `Scramble.ScrambleWord` | lexical_obfuscation.py:37-56 | the imperative version returns exactly `Scrambled`: the unchanged short word, or the first character + shuffled `middle` + the last character, or the shuffled `letters` |
| `Scramble.ShortWordUnchanged` | lexical_obfuscation.py:37-38 | a word of at most three characters is returned unchanged, whatever the flags |
| `Scramble.ScrambledPermutes` | lexical_obfuscation.py:40-56 | in both modes the result has the same multiset of characters as the word |
| `Scramble.ScrambledKeepsBoundaries` | lexical_obfuscation.py:40-48 | with `preserve_boundaries` and four or more characters, the first and last characters stay, and the interior is a permutation of the original interior |
| `Scramble.EveryScrambleReachable` | lexical_obfuscation.py:40-56 | conversely, every word that keeps the boundaries (when asked to) and permutes the rest is produced by some abstract `Runtime`, whose draws may be any in-range schedules, in either randomness mode, so the two lemmas above are the tightest contracts over such draws |
| `Scramble.DeterministicIgnoresEntropy` | lexical_obfuscation.py:42-46 | in deterministic mode the result depends only on the word, the flags, `seed` and `hash`, not on operating-system entropy |
| `Obfuscate.IsBoundary` | lexical_obfuscation.py:72 | `\b`: a word character on exactly one side of the offset, the ends of the text counting as non-word; `MatchAtIsTheMatch` states what it makes the matches |
| `Obfuscate.Matches` | lexical_obfuscation.py:72 | `\b\w+\b` matches `text[i..j]`: a boundary at both ends and word characters between; `MatchAtIsTheMatch` relates it to the scan's match attempt |
| `Obfuscate.RunEnd` | lexical_obfuscation.py:72 | the end of a run of word characters lies between its start and the end of the text |
| `Obfuscate.RunEndIsRunEnd` | lexical_obfuscation.py:72 | that end is the first non-word offset: all characters before it are word characters, and no non-word character comes earlier |
| `Obfuscate.RunStart` | lexical_obfuscation.py:72 | the start of the run through an offset is preceded by a non-word character or the start of the text, and everything from it up to the offset is a word character |
| `Obfuscate.MatchAt` | lexical_obfuscation.py:72 | a match attempt at an offset ends after that offset and within the text; `MatchAtIsTheMatch` states that it finds exactly the `\b\w+\b` matches |
| `Obfuscate.MatchAtIsTheMatch` | lexical_obfuscation.py:72 | the match found at an offset is exactly the `\b\w+\b` match starting there, in both directions: the matches are the maximal runs of word characters |
| `Obfuscate.WordCharInMatch` | lexical_obfuscation.py:72 | every word character lies inside some match |
| `Obfuscate.Emit` | lexical_obfuscation.py:78 | what `pattern.sub` outputs at one offset: the callback's replacement of the match starting there, or the character itself; `EmitLength` and `SubFromAtMatch` state its properties |
| `Obfuscate.Next` | lexical_obfuscation.py:78 | the scan of `re.sub` always advances and stays within the text |
| `Obfuscate.SubFrom` | lexical_obfuscation.py:78 | with a length-preserving callback, the substitution emits as many characters as it scans |
| `Obfuscate.ScrambleMatch` | lexical_obfuscation.py:74-76 | the `scramble_match` callback returns replacements of the matched word's length |
| `Obfuscate.ObfuscateText` | lexical_obfuscation.py:58-78 | `obfuscate_text` returns a text of the input's length |
| `Obfuscate.SubFromAtMatch` | lexical_obfuscation.py:78 | a scan at the start of a match first emits the callback's replacement for it |
| `Obfuscate.EmitLength` | lexical_obfuscation.py:78 | with a length-preserving callback, each step emits as much as it passes over |
| `Obfuscate.NextStopsBefore` | lexical_obfuscation.py:78 | the scan never steps over an offset that is not inside a word |
| `Obfuscate.SubFromReaches` | lexical_obfuscation.py:78 | from any such offset on, the output is what a scan starting there emits: matching resumes on the input, never on substituted output |
| `Obfuscate.SubFromPassesThrough` | lexical_obfuscation.py:78 | a non-word character is emitted unchanged at its own index |
| `Obfuscate.SubFromReplaces` | lexical_obfuscation.py:78 | each match is replaced, at its own position, by the callback's result for it |
| `Obfuscate.SubFromPermutes` | lexical_obfuscation.py:78 | with a rearranging callback, the output is a permutation of the input |
| `Obfuscate.SubFromUnchanged` | lexical_obfuscation.py:78 | a callback that returns every match unchanged leaves the text unchanged |
| `Obfuscate.SubFromAgree` | lexical_obfuscation.py:78 | two callbacks that agree on every match produce the same output |
| `Obfuscate.NonWordUnchanged` | lexical_obfuscation.py:72-78 | `obfuscate_text` leaves every non-word character unchanged at the same index |
| `Obfuscate.ReplacesEachMatch` | lexical_obfuscation.py:72-78 | each maximal run of word characters is replaced in place by `scramble_word` of that run, seeded for that word |
| `Obfuscate.WordCharScrambledInPlace` | lexical_obfuscation.py:72-78 | every word character ends up inside the scrambled copy of the run that contains it; with `NonWordUnchanged`, this accounts for every output character |
| `Obfuscate.ObfuscatePermutes` | lexical_obfuscation.py:74-78 | the obfuscated text has the same multiset of characters as the input |
| `Obfuscate.KeepsWordBoundaries` | lexical_obfuscation.py:40-48 | with `preserve_boundaries`, every word of four or more characters keeps its first and last characters in the text, and its interior is permuted |
| `Obfuscate.ShortWordsUnchanged` | lexical_obfuscation.py:37-38 | a text whose words all have at most three characters comes back unchanged |
| `Obfuscate.CatDogUnchanged` | lexical_obfuscation.py:72-78 | "cat dog" comes back unchanged whenever the space is not a word character |
| `Obfuscate.DeterministicObfuscation` | lexical_obfuscation.py:74-76 | in deterministic mode, the same text, flags, `seed` and `hash` give the same output, whatever the operating system supplies |
| `Obfuscate.SameWordSameScramble` | lexical_obfuscation.py:43-44 | in deterministic mode the shuffle is word-specific: two occurrences of the same word in one text are scrambled identically |

## Left out

- `main` and its argument parsing and printing (lexical_obfuscation.py:80-103) are command-line I/O. Their error handling belongs to `argparse`.
- The Mersenne Twister, and how `random.seed` and `_randbelow` turn a seed into draws, are library internals. `Runtime.draws` stands in for them, and every property holds for every in-range schedule. The model does not state that the draws are uniformly distributed.
- The generator's global state is left out. Each call of `scramble_word` reseeds it before its only shuffle, so no state carries from one word to the next. Concurrent callers sharing that state are not modelled.
- `random.seed()` without an argument reads operating-system entropy. That value is the `entropy` parameter: one value per call of `scramble_word`, and one per match offset in `obfuscate_text`.
- The generator's reach is left out. A real generator yields only the schedules its seeds produce: Python's `random.shuffle` documentation notes that beyond 2080 items most permutations lie outside the Mersenne Twister's period, and reachability alone does not make the draws uniform. So `Shuffle.EveryPermutationReachable` and `Scramble.EveryScrambleReachable` show that the model's contracts are tight over arbitrary in-range draws. They make no claim about which words CPython can actually produce.
- The built-in `hash` of a string is salted per process. It is the arbitrary function `Runtime.hash`, so cross-run reproducibility of deterministic mode is not claimed.
- The exact Unicode membership of `\w`, and the `re` flags that would change it, are left out. `\w` is the predicate parameter `w`, and `\b` is defined from it.
- Python strings are sequences of code points. They are `string`, a sequence of `char`, with no normalisation. A Dafny `char` is a Unicode scalar value, so lone surrogates (which a Python `str` can hold, for example from command-line arguments decoded with `surrogateescape`) cannot be represented. They are never `\w`, so the source would only copy them through unchanged.
- The default arguments `preserve_boundaries=True, deterministic=False, seed=42` (lexical_obfuscation.py:24, 58) are not modelled as defaults. Every call takes an explicit `Config`, and the defaults are `Config(true, false, 42)`.
