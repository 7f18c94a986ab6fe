/**
 * `obfuscate_text`: `re.sub` with the pattern `\b\w+\b` and the callback
 * `scramble_match`, which replaces every match by `scramble_word` of the matched
 * word; everything between the matches is copied as it is.
 *
 * The character class `\w` is a parameter `w`; `\b` is the point between a
 * character of `w` and one outside it, where the two ends of the text count as
 * outside. `re.sub` scans the text from the left: where a match starts it emits
 * the replacement and resumes after the match, elsewhere it emits the character
 * and moves one to the right. A scan never looks at what it has emitted. The
 * substitution is modelled for any callback, and `obfuscate_text` is its
 * instance with `scramble_match`.
 *
 * With `deterministic` off every call of `scramble_word` reseeds the generator
 * from the operating system; the model receives those values as `entropy(i)`,
 * one for the word starting at offset `i`.
 */
module Obfuscate {
  import opened Scramble

  datatype Option<T> = None | Some(value: T)

  /** `\b` at offset `p`: a word character on exactly one side of it. */
  predicate IsBoundary(w: char -> bool, text: string, p: nat)
    requires p <= |text|
  {
    (p > 0 && w(text[p - 1])) != (p < |text| && w(text[p]))
  }

  /** `\b\w+\b` matches `text[i..j]`. */
  predicate Matches(w: char -> bool, text: string, i: nat, j: nat)
  {
    && i < j <= |text|
    && IsBoundary(w, text, i)
    && (forall k :: i <= k < j ==> w(text[k]))
    && IsBoundary(w, text, j)
  }

  /** Where the run of word characters from offset `i` on ends. */
  function RunEnd(w: char -> bool, text: string, i: nat): (j: nat)
    requires i <= |text|
    ensures i <= j <= |text|
    decreases |text| - i
  {
    if i < |text| && w(text[i]) then RunEnd(w, text, i + 1) else i
  }

  /**
   * `RunEnd` is the first offset from `i` on that holds no word character: every
   * character before it is one, and it stops at the first one that is not.
   */
  lemma {:induction false} RunEndIsRunEnd(w: char -> bool, text: string, i: nat)
    requires i <= |text|
    ensures var j := RunEnd(w, text, i);
      && (forall k :: i <= k < j ==> w(text[k]))
      && (j == |text| || !w(text[j]))
      && (forall k :: i <= k < |text| && !w(text[k]) ==> j <= k)
    decreases |text| - i
  {
    if i < |text| && w(text[i]) {
      RunEndIsRunEnd(w, text, i + 1);
    }
  }

  /** Where the run of word characters that reaches offset `p` begins. */
  function RunStart(w: char -> bool, text: string, p: nat): (i: nat)
    requires p < |text|
    ensures i <= p
    ensures forall k :: i <= k < p ==> w(text[k])
    ensures i == 0 || !w(text[i - 1])
    decreases p
  {
    if p > 0 && w(text[p - 1]) then RunStart(w, text, p - 1) else p
  }

  /**
   * The match `re.sub` finds at offset `i`, by its end: greedy `\w+` takes the
   * whole run, and `\b` demands that the run does not continue to the left.
   */
  function MatchAt(w: char -> bool, text: string, i: nat): (m: Option<nat>)
    requires i <= |text|
    ensures m.Some? ==> i < m.value <= |text|
  {
    if i < |text| && w(text[i]) && (i == 0 || !w(text[i - 1])) then Some(RunEnd(w, text, i)) else None
  }

  /** `MatchAt` finds exactly the matches of `\b\w+\b`: the maximal runs of word characters. */
  lemma MatchAtIsTheMatch(w: char -> bool, text: string, i: nat, j: nat)
    requires i <= |text|
    ensures Matches(w, text, i, j) <==> MatchAt(w, text, i) == Some(j)
  {
    if i < |text| {
      RunEndIsRunEnd(w, text, i);
    }
    if Matches(w, text, i, j) {
      assert w(text[j - 1]);
    }
    if MatchAt(w, text, i) == Some(j) {
      assert w(text[j - 1]);
    }
  }

  /** Every word character lies inside one of the matches. */
  lemma WordCharInMatch(w: char -> bool, text: string, p: nat) returns (i: nat, j: nat)
    requires p < |text| && w(text[p])
    ensures i <= p < j && Matches(w, text, i, j)
  {
    i := RunStart(w, text, p);
    j := RunEnd(w, text, i);
    RunEndIsRunEnd(w, text, i);
    assert w(text[j - 1]);
  }

  /** A callback of `re.sub`: from where a match starts and the matched text to its replacement. */
  type Replacer = (nat, string) -> string

  /** Every replacement has the length of the text it replaces. */
  ghost predicate KeepsLength(repl: Replacer) {
    forall p: nat, s: string :: |repl(p, s)| == |s|
  }

  /** Every replacement rearranges the text it replaces. */
  ghost predicate Rearranges(repl: Replacer) {
    forall p: nat, s: string :: multiset(repl(p, s)) == multiset(s)
  }

  /** What the scan emits at offset `i`: the replacement of the match that starts there, or the character. */
  function Emit(w: char -> bool, text: string, i: nat, repl: Replacer): string
    requires i < |text|
  {
    match MatchAt(w, text, i)
    case Some(j) => repl(i, text[i..j])
    case None => [text[i]]
  }

  /** Where the scan goes on after offset `i`: past the match that starts there, or at the next character. */
  function Next(w: char -> bool, text: string, i: nat): (n: nat)
    requires i < |text|
    ensures i < n <= |text|
  {
    match MatchAt(w, text, i)
    case Some(j) => j
    case None => i + 1
  }

  /** What `re.sub` with the pattern `\b\w+\b` and the callback `repl` emits for `text[i..]`. */
  function SubFrom(w: char -> bool, text: string, i: nat, repl: Replacer): (r: string)
    requires i <= |text|
    ensures KeepsLength(repl) ==> |r| == |text| - i
    decreases |text| - i
  {
    if i == |text| then [] else Emit(w, text, i, repl) + SubFrom(w, text, Next(w, text, i), repl)
  }

  /** `scramble_match`: the matched word, scrambled with the flags of the call. */
  function ScrambleMatch(cfg: Config, rt: Runtime, entropy: nat -> int): (repl: Replacer)
    ensures KeepsLength(repl)
  {
    var repl := (p: nat, word: string) => Scrambled(word, cfg, rt, entropy(p));
    assert forall p: nat, word: string :: repl(p, word) == Scrambled(word, cfg, rt, entropy(p));
    repl
  }

  /** `obfuscate_text(text, preserve_boundaries, deterministic, seed)`. */
  function ObfuscateText(w: char -> bool, text: string, cfg: Config, rt: Runtime, entropy: nat -> int): (r: string)
    ensures |r| == |text|
  {
    SubFrom(w, text, 0, ScrambleMatch(cfg, rt, entropy))
  }

  /** The first part of a concatenation. */
  lemma SliceFront<T>(a: seq<T>, b: seq<T>)
    ensures (a + b)[0..|a|] == a
  {
  }

  /** A suffix split at `j`. */
  lemma SplitAt<T>(s: seq<T>, i: nat, j: nat)
    requires i <= j <= |s|
    ensures s[i..] == s[i..j] + s[j..]
  {
  }

  /** A slice of a slice. */
  lemma SliceOfSlice<T>(s: seq<T>, i: nat, j: nat, lo: nat, hi: nat)
    requires i <= j <= |s| && lo <= hi <= j - i
    ensures s[i..j][lo..hi] == s[i + lo..i + hi]
  {
    forall k | 0 <= k < hi - lo
      ensures s[i..j][lo..hi][k] == s[i + lo..i + hi][k]
    {
    }
  }

  /** A scan at the start of a match emits the callback's replacement first. */
  lemma SubFromAtMatch(w: char -> bool, text: string, repl: Replacer, i: nat, j: nat)
    requires KeepsLength(repl) && Matches(w, text, i, j)
    ensures SubFrom(w, text, i, repl)[0..j - i] == repl(i, text[i..j])
  {
    MatchAtIsTheMatch(w, text, i, j);
    SliceFront(Emit(w, text, i, repl), SubFrom(w, text, j, repl));
  }

  /** With a length-preserving callback, the scan emits as much as it passes over. */
  lemma EmitLength(w: char -> bool, text: string, i: nat, repl: Replacer)
    requires i < |text| && KeepsLength(repl)
    ensures |Emit(w, text, i, repl)| == Next(w, text, i) - i
  {
  }

  /** An offset that is not inside a run of word characters: the scan never steps over one. */
  predicate OutsideWord(w: char -> bool, text: string, i: nat)
    requires i <= |text|
  {
    i == 0 || i == |text| || !w(text[i - 1]) || !w(text[i])
  }

  /** A scan before an offset outside every word does not jump over that offset. */
  lemma NextStopsBefore(w: char -> bool, text: string, k: nat, i: nat)
    requires k < i <= |text| && OutsideWord(w, text, i)
    ensures Next(w, text, k) <= i
  {
    RunEndIsRunEnd(w, text, k);
  }

  /** Dropping a prefix that covers the first part of a concatenation. */
  lemma DropAfter<T>(a: seq<T>, b: seq<T>, lo: nat)
    requires |a| <= lo <= |a| + |b|
    ensures (a + b)[lo..] == b[lo - |a|..]
  {
  }

  /**
   * A scan from offset `k` does not step over an offset `i` outside every word:
   * from `i` on it emits what a scan from `i` emits.
   */
  lemma {:induction false} SubFromReaches(w: char -> bool, text: string, k: nat, repl: Replacer, i: nat)
    requires k <= i <= |text| && KeepsLength(repl) && (k == i || OutsideWord(w, text, i))
    ensures SubFrom(w, text, k, repl)[i - k..] == SubFrom(w, text, i, repl)
    decreases |text| - k
  {
    if k < i {
      NextStopsBefore(w, text, k, i);
      var n := Next(w, text, k);
      var head := Emit(w, text, k, repl);
      EmitLength(w, text, k, repl);
      SubFromReaches(w, text, n, repl, i);
      DropAfter(head, SubFrom(w, text, n, repl), i - k);
      assert SubFrom(w, text, k, repl) == head + SubFrom(w, text, n, repl);
    }
  }

  /** A character outside `\w` is emitted as it is, where it was. */
  lemma SubFromPassesThrough(w: char -> bool, text: string, repl: Replacer, p: nat)
    requires p < |text| && KeepsLength(repl) && !w(text[p])
    ensures SubFrom(w, text, 0, repl)[p] == text[p]
  {
    SubFromReaches(w, text, 0, repl, p);
    var r := SubFrom(w, text, 0, repl);
    assert r[p] == r[p..][0];
  }

  /** Each match is replaced, at its place, by what the callback returns for it. */
  lemma SubFromReplaces(w: char -> bool, text: string, repl: Replacer, i: nat, j: nat)
    requires KeepsLength(repl) && Matches(w, text, i, j)
    ensures SubFrom(w, text, 0, repl)[i..j] == repl(i, text[i..j])
  {
    SubFromReaches(w, text, 0, repl, i);
    SubFromAtMatch(w, text, repl, i, j);
    var r := SubFrom(w, text, 0, repl);
    assert r[i..j] == r[i..][0..j - i];
  }

  /** With a rearranging callback, what the scan emits at offset `i` rearranges the text it passes over. */
  lemma EmitRearranges(w: char -> bool, text: string, i: nat, repl: Replacer)
    requires i < |text| && Rearranges(repl)
    ensures multiset(Emit(w, text, i, repl)) == multiset(text[i..Next(w, text, i)])
  {
    if MatchAt(w, text, i).None? {
      assert text[i..i + 1] == [text[i]];
    }
  }

  /** Scanning from offset `i` with a rearranging callback, only the characters of `text[i..]` are rearranged. */
  lemma {:induction false} SubFromPermutes(w: char -> bool, text: string, i: nat, repl: Replacer)
    requires i <= |text| && Rearranges(repl)
    ensures multiset(SubFrom(w, text, i, repl)) == multiset(text[i..])
    decreases |text| - i
  {
    if i < |text| {
      var n := Next(w, text, i);
      SubFromPermutes(w, text, n, repl);
      EmitRearranges(w, text, i, repl);
      SplitAt(text, i, n);
      assert SubFrom(w, text, i, repl) == Emit(w, text, i, repl) + SubFrom(w, text, n, repl);
    }
  }

  /** Scanning from offset `i` with a callback that gives every match back unchanged emits `text[i..]`. */
  lemma {:induction false} SubFromUnchanged(w: char -> bool, text: string, i: nat, repl: Replacer)
    requires i <= |text|
    requires forall a: nat, b: nat :: Matches(w, text, a, b) ==> repl(a, text[a..b]) == text[a..b]
    ensures SubFrom(w, text, i, repl) == text[i..]
    decreases |text| - i
  {
    if i < |text| {
      var n := Next(w, text, i);
      MatchAtIsTheMatch(w, text, i, n);
      SubFromUnchanged(w, text, n, repl);
      SplitAt(text, i, n);
    }
  }

  /** Two callbacks that agree on every match give the same substitution. */
  lemma {:induction false} SubFromAgree(w: char -> bool, text: string, i: nat, r1: Replacer, r2: Replacer)
    requires i <= |text|
    requires forall a: nat, b: nat :: Matches(w, text, a, b) ==> r1(a, text[a..b]) == r2(a, text[a..b])
    ensures SubFrom(w, text, i, r1) == SubFrom(w, text, i, r2)
    decreases |text| - i
  {
    if i < |text| {
      var n := Next(w, text, i);
      MatchAtIsTheMatch(w, text, i, n);
      SubFromAgree(w, text, n, r1, r2);
    }
  }

  /** `obfuscate_text` leaves every character outside `\w` in place. */
  lemma NonWordUnchanged(w: char -> bool, text: string, cfg: Config, rt: Runtime, entropy: nat -> int, p: nat)
    requires p < |text| && !w(text[p])
    ensures ObfuscateText(w, text, cfg, rt, entropy)[p] == text[p]
  {
    SubFromPassesThrough(w, text, ScrambleMatch(cfg, rt, entropy), p);
  }

  /** Each maximal run of word characters is replaced, in its place, by `scramble_word` of that run. */
  lemma ReplacesEachMatch(w: char -> bool, text: string, cfg: Config, rt: Runtime, entropy: nat -> int, i: nat, j: nat)
    requires Matches(w, text, i, j)
    ensures ObfuscateText(w, text, cfg, rt, entropy)[i..j] == Scrambled(text[i..j], cfg, rt, entropy(i))
  {
    SubFromReplaces(w, text, ScrambleMatch(cfg, rt, entropy), i, j);
  }

  /**
   * Every word character of the text ends up inside the scrambled copy of the
   * match that contains it; with `NonWordUnchanged` this accounts for every
   * character of the output.
   */
  lemma WordCharScrambledInPlace(w: char -> bool, text: string, cfg: Config, rt: Runtime, entropy: nat -> int, p: nat)
    returns (i: nat, j: nat)
    requires p < |text| && w(text[p])
    ensures i <= p < j && Matches(w, text, i, j)
    ensures ObfuscateText(w, text, cfg, rt, entropy)[i..j] == Scrambled(text[i..j], cfg, rt, entropy(i))
  {
    i, j := WordCharInMatch(w, text, p);
    ReplacesEachMatch(w, text, cfg, rt, entropy, i, j);
  }

  /** `obfuscate_text` keeps every character of the text, the same number of times. */
  lemma ObfuscatePermutes(w: char -> bool, text: string, cfg: Config, rt: Runtime, entropy: nat -> int)
    ensures multiset(ObfuscateText(w, text, cfg, rt, entropy)) == multiset(text)
  {
    var repl := ScrambleMatch(cfg, rt, entropy);
    forall p: nat, s: string ensures multiset(repl(p, s)) == multiset(s) {
      ScrambledPermutes(s, cfg, rt, entropy(p));
    }
    SubFromPermutes(w, text, 0, repl);
    assert text[0..] == text;
  }

  /** With boundaries preserved, every word of four or more characters keeps its first and last character. */
  lemma KeepsWordBoundaries(w: char -> bool, text: string, cfg: Config, rt: Runtime, entropy: nat -> int, i: nat, j: nat)
    requires cfg.preserveBoundaries && Matches(w, text, i, j) && j - i >= 4
    ensures var r := ObfuscateText(w, text, cfg, rt, entropy);
      && r[i] == text[i] && r[j - 1] == text[j - 1]
      && multiset(r[i + 1..j - 1]) == multiset(text[i + 1..j - 1])
  {
    var r := ObfuscateText(w, text, cfg, rt, entropy);
    ReplacesEachMatch(w, text, cfg, rt, entropy, i, j);
    ScrambledKeepsBoundaries(text[i..j], cfg, rt, entropy(i));
    SliceOfSlice(r, i, j, 1, j - i - 1);
    SliceOfSlice(text, i, j, 1, j - i - 1);
  }

  /** A text whose words all have at most three characters comes back unchanged. */
  lemma ShortWordsUnchanged(w: char -> bool, text: string, cfg: Config, rt: Runtime, entropy: nat -> int)
    requires forall a: nat, b: nat :: Matches(w, text, a, b) ==> b - a <= 3
    ensures ObfuscateText(w, text, cfg, rt, entropy) == text
  {
    var repl := ScrambleMatch(cfg, rt, entropy);
    forall a: nat, b: nat | Matches(w, text, a, b) ensures repl(a, text[a..b]) == text[a..b] {
      ShortWordUnchanged(text[a..b], cfg, rt, entropy(a));
    }
    SubFromUnchanged(w, text, 0, repl);
    assert text[0..] == text;
  }

  /** "cat dog" is returned as it is whenever the space is not a word character. */
  lemma CatDogUnchanged(w: char -> bool, cfg: Config, rt: Runtime, entropy: nat -> int)
    requires !w(' ')
    ensures ObfuscateText(w, "cat dog", cfg, rt, entropy) == "cat dog"
  {
    var text := "cat dog";
    forall a: nat, b: nat | Matches(w, text, a, b) ensures b - a <= 3 {
      assert text[3] == ' ';
    }
    ShortWordsUnchanged(w, text, cfg, rt, entropy);
  }

  /**
   * In deterministic mode the same text, flags and `seed` always give the same
   * output, whatever the operating system supplies.
   */
  lemma DeterministicObfuscation(w: char -> bool, text: string, cfg: Config, rt: Runtime, e1: nat -> int, e2: nat -> int)
    requires cfg.deterministic
    ensures ObfuscateText(w, text, cfg, rt, e1) == ObfuscateText(w, text, cfg, rt, e2)
  {
    var r1 := ScrambleMatch(cfg, rt, e1);
    var r2 := ScrambleMatch(cfg, rt, e2);
    forall a: nat, b: nat | Matches(w, text, a, b) ensures r1(a, text[a..b]) == r2(a, text[a..b]) {
      DeterministicIgnoresEntropy(text[a..b], cfg, rt, e1(a), e2(a));
    }
    SubFromAgree(w, text, 0, r1, r2);
  }

  /**
   * In deterministic mode the shuffle is word-specific: two occurrences of the
   * same word in one text are scrambled identically.
   */
  lemma SameWordSameScramble(w: char -> bool, text: string, cfg: Config, rt: Runtime, entropy: nat -> int,
                             i1: nat, j1: nat, i2: nat, j2: nat)
    requires cfg.deterministic && Matches(w, text, i1, j1) && Matches(w, text, i2, j2)
    requires text[i1..j1] == text[i2..j2]
    ensures var r := ObfuscateText(w, text, cfg, rt, entropy);
      r[i1..j1] == r[i2..j2]
  {
    ReplacesEachMatch(w, text, cfg, rt, entropy, i1, j1);
    ReplacesEachMatch(w, text, cfg, rt, entropy, i2, j2);
    DeterministicIgnoresEntropy(text[i1..j1], cfg, rt, entropy(i1), entropy(i2));
  }
}
