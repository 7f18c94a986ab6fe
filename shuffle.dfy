/**
 * Python's `random.shuffle`, the only way `scramble_word` reorders characters.
 *
 * `random.shuffle(x)` runs Fisher-Yates from the back of the list: for each
 * `i` from `len(x) - 1` down to 1 it draws `j = randbelow(i + 1)` (so
 * `0 <= j <= i`) and swaps `x[i]` with `x[j]`. The generator that supplies
 * the draws is not modelled; instead every shuffle is driven by an explicit
 * swap schedule `js`, where `js[k]` is the `j` drawn at step `k`, that is for
 * `i == n - 1 - k`. Every property below holds for every such schedule.
 */
module Shuffle {

  /**
   * `js` is a schedule that `random.shuffle` could draw for a list of `n` items:
   * one draw `js[k] <= n - 1 - k` for each `i == n - 1 - k` from `n - 1` down to 1.
   */
  predicate IsSchedule(js: seq<nat>, n: nat)
    decreases n
  {
    if n <= 1 then js == []
    else |js| == n - 1 && js[0] <= n - 1 && IsSchedule(js[1..], n - 1)
  }

  /**
   * The recursive definition of `IsSchedule` says exactly this: one draw for each
   * of the `n - 1` steps, the draw at step `k` being at most `n - 1 - k`.
   */
  lemma {:induction false} ScheduleInRange(js: seq<nat>, n: nat)
    ensures IsSchedule(js, n) <==>
      && |js| == (if n == 0 then 0 else n - 1)
      && forall k :: 0 <= k < |js| ==> js[k] <= n - 1 - k
    decreases n
  {
    if n > 1 && |js| == n - 1 {
      ScheduleInRange(js[1..], n - 1);
      assert forall k :: 0 <= k < |js| - 1 ==> js[1..][k] == js[k + 1];
    }
  }

  /** `s` with the elements at `i` and `j` exchanged (`x[i], x[j] = x[j], x[i]`). */
  function Swap<T>(s: seq<T>, i: nat, j: nat): (r: seq<T>)
    requires i < |s| && j < |s|
    ensures |r| == |s|
    ensures r[i] == s[j] && r[j] == s[i]
    ensures forall k :: 0 <= k < |s| && k != i && k != j ==> r[k] == s[k]
  {
    s[i := s[j]][j := s[i]]
  }

  /**
   * What is left of the loop of `random.shuffle` once `s[..m]` is the part still
   * to be shuffled and `js` holds the draws still to come: swap `s[m - 1]` with
   * `s[js[0]]`, then go on with one item fewer.
   */
  function ShuffleFrom<T>(s: seq<T>, js: seq<nat>, m: nat): (r: seq<T>)
    requires m <= |s| && IsSchedule(js, m)
    ensures |r| == |s|
    decreases m
  {
    if m <= 1 then s else ShuffleFrom(Swap(s, m - 1, js[0]), js[1..], m - 1)
  }

  /** The list that `random.shuffle(s)` leaves behind when it draws the schedule `js`. */
  function FisherYates<T>(s: seq<T>, js: seq<nat>): (r: seq<T>)
    requires IsSchedule(js, |s|)
    ensures |r| == |s|
  {
    ShuffleFrom(s, js, |s|)
  }

  /** A non-empty list is its front followed by its last element. */
  lemma FrontLast<T>(t: seq<T>)
    requires |t| > 0
    ensures t[..|t| - 1] + [t[|t| - 1]] == t
  {
  }

  /** A swap only rearranges. */
  lemma SwapPermutes<T>(s: seq<T>, i: nat, j: nat)
    requires i < |s| && j < |s|
    ensures multiset(Swap(s, i, j)) == multiset(s)
  {
  }

  /** A swap inside the prefix `s[..m]` leaves the rest alone and rearranges the prefix. */
  lemma SwapInPrefix<T>(s: seq<T>, m: nat, i: nat, j: nat)
    requires i < m <= |s| && j < m
    ensures Swap(s, i, j)[..m] == Swap(s[..m], i, j)
    ensures Swap(s, i, j)[m..] == s[m..]
  {
  }

  /** Whatever the draws, the shuffled list is a permutation of the original. */
  lemma {:induction false} ShuffleFromPermutes<T>(s: seq<T>, js: seq<nat>, m: nat)
    requires m <= |s| && IsSchedule(js, m)
    ensures multiset(ShuffleFrom(s, js, m)) == multiset(s)
    decreases m
  {
    if m > 1 {
      ShuffleFromPermutes(Swap(s, m - 1, js[0]), js[1..], m - 1);
      SwapPermutes(s, m - 1, js[0]);
    }
  }

  /** `random.shuffle` never moves an item that is already in its final place. */
  lemma {:induction false} ShuffleFromKeepsTail<T>(s: seq<T>, js: seq<nat>, m: nat)
    requires m <= |s| && IsSchedule(js, m)
    ensures ShuffleFrom(s, js, m)[m..] == s[m..]
    decreases m
  {
    if m > 1 {
      var u := Swap(s, m - 1, js[0]);
      ShuffleFromKeepsTail(u, js[1..], m - 1);
      SwapInPrefix(s, m, m - 1, js[0]);
      assert u[m - 1..][1..] == u[m..];
    }
  }

  /** `FisherYates` rearranges its input and nothing more. */
  lemma FisherYatesPermutes<T>(s: seq<T>, js: seq<nat>)
    requires IsSchedule(js, |s|)
    ensures multiset(FisherYates(s, js)) == multiset(s)
  {
    ShuffleFromPermutes(s, js, |s|);
  }

  /**
   * One iteration of the shuffle loop: with `cur[..m]` still to be shuffled and
   * the draws `js[k..]` to come, swapping at `m - 1` with `js[k]` leaves
   * `m - 1` items to shuffle with the draws after that one.
   */
  lemma ShuffleStep<T>(cur: seq<T>, js: seq<nat>, k: nat, m: nat)
    requires 2 <= m <= |cur| && k < |js| && IsSchedule(js[k..], m)
    ensures js[k] < m && IsSchedule(js[k + 1..], m - 1)
    ensures ShuffleFrom(Swap(cur, m - 1, js[k]), js[k + 1..], m - 1) == ShuffleFrom(cur, js[k..], m)
  {
    assert js[k..][1..] == js[k + 1..];
  }

  /** `x[i], x[j] = x[j], x[i]` on an array. */
  method SwapElements<T>(a: array<T>, i: nat, j: nat)
    requires i < a.Length && j < a.Length
    modifies a
    ensures a[..] == Swap(old(a[..]), i, j)
  {
    a[i], a[j] := a[j], a[i];
  }

  /** `random.shuffle(a)` in place, with the draws taken from `js`. */
  method ShuffleInPlace<T>(a: array<T>, js: seq<nat>)
    requires IsSchedule(js, a.Length)
    modifies a
    ensures a[..] == FisherYates(old(a[..]), js)
  {
    var n := a.Length;
    var m := n;  // a[..m] is still to be shuffled, a[m..] is final
    assert js[n - m..] == js;
    while m > 1
      invariant 0 <= m <= n && (n > 0 ==> m >= 1)
      invariant IsSchedule(js[n - m..], m)
      invariant ShuffleFrom(a[..], js[n - m..], m) == FisherYates(old(a[..]), js)
    {
      ShuffleStep(a[..], js, n - m, m);
      var i := m - 1;
      var j := js[n - m];
      SwapElements(a, i, j);
      m := m - 1;
    }
  }

  /** The draws that always pick `j == i`, so that every swap is a no-op. */
  function NoSwaps(n: nat): (js: seq<nat>)
    ensures IsSchedule(js, n)
    decreases n
  {
    if n <= 1 then [] else
      var rest := NoSwaps(n - 1);
      assert ([n - 1] + rest)[1..] == rest;
      [n - 1] + rest
  }

  /** Drawing `j == i` every time, `random.shuffle` leaves the list as it was. */
  lemma {:induction false} NoSwapsKeepsOrder<T>(s: seq<T>, m: nat)
    requires m <= |s|
    ensures ShuffleFrom(s, NoSwaps(m), m) == s
    decreases m
  {
    if m > 1 {
      assert NoSwaps(m)[1..] == NoSwaps(m - 1);
      assert Swap(s, m - 1, m - 1) == s;
      NoSwapsKeepsOrder(s, m - 1);
    }
  }

  /** The multiset of a non-empty list splits off its last element. */
  lemma MultisetSnoc<T>(u: seq<T>)
    requires |u| > 0
    ensures multiset(u) == multiset(u[..|u| - 1]) + multiset{u[|u| - 1]}
  {
    FrontLast(u);
  }

  /** Two permutations of each other that end alike are, without that end, still permutations. */
  lemma DropSameLast<T>(u: seq<T>, t: seq<T>)
    requires |u| == |t| > 0 && multiset(u) == multiset(t) && u[|u| - 1] == t[|t| - 1]
    ensures multiset(u[..|u| - 1]) == multiset(t[..|t| - 1])
  {
    var i := |u| - 1;
    calc {
      multiset(u[..i]);
      { MultisetSnoc(u); }
      multiset(u) - multiset{u[i]};
      multiset(t) - multiset{t[i]};
      { MultisetSnoc(t); }
      multiset(t[..i]);
    }
  }

  /** An element of a permutation of `s` occurs somewhere in `s`. */
  lemma IndexOf<T>(s: seq<T>, t: seq<T>, k: nat) returns (j: nat)
    requires multiset(t) == multiset(s) && k < |t|
    ensures j < |s| && s[j] == t[k]
  {
    assert t[k] in multiset(t);
    j :| 0 <= j < |s| && s[j] == t[k];
  }

  /** Permutations of each other have the same length. */
  lemma PermutationLength<T>(s: seq<T>, t: seq<T>)
    requires multiset(t) == multiset(s)
    ensures |t| == |s|
  {
    assert |multiset(t)| == |multiset(s)|;
  }

  /** A permutation of a list of at most one element is that list. */
  lemma ShortPermutation<T>(s: seq<T>, t: seq<T>)
    requires |s| <= 1 && multiset(t) == multiset(s)
    ensures t == s
  {
    PermutationLength(s, t);
    if |s| == 1 {
      var j := IndexOf(s, t, 0);
      assert s == [s[0]] && t == [t[0]];
    }
  }

  /** Lists whose short prefixes are permutations of each other and whose tails agree are equal. */
  lemma SamePrefixAndTail<T>(s: seq<T>, t: seq<T>, m: nat)
    requires m <= 1 && m <= |s| == |t| && s[m..] == t[m..] && multiset(s[..m]) == multiset(t[..m])
    ensures s == t
  {
    ShortPermutation(s[..m], t[..m]);
    assert s == s[..m] + s[m..] && t == t[..m] + t[m..];
  }

  /** Unfolding `ShuffleFrom` once, for a schedule built from its first draw. */
  lemma ShuffleFromCons<T>(s: seq<T>, j: nat, rest: seq<nat>, m: nat)
    requires 2 <= m <= |s| && j < m && IsSchedule(rest, m - 1)
    ensures IsSchedule([j] + rest, m)
    ensures ShuffleFrom(s, [j] + rest, m) == ShuffleFrom(Swap(s, m - 1, j), rest, m - 1)
  {
    assert ([j] + rest)[1..] == rest;
  }

  /**
   * The first draw that steers `s` towards `t`, when `t[..m]` is a permutation
   * of `s[..m]`: an index below `m` holding the element `t` has at `m - 1`.
   * After that swap the two lists agree from `m - 1` on.
   */
  lemma FirstDraw<T>(s: seq<T>, t: seq<T>, m: nat) returns (j: nat)
    requires 2 <= m <= |s| == |t| && s[m..] == t[m..] && multiset(s[..m]) == multiset(t[..m])
    ensures j < m
    ensures var u := Swap(s, m - 1, j);
      u[m - 1..] == t[m - 1..] && multiset(u[..m - 1]) == multiset(t[..m - 1])
  {
    j := IndexOf(s[..m], t[..m], m - 1);
    var u := Swap(s, m - 1, j);
    SwapInPrefix(s, m, m - 1, j);
    SwapPermutes(s[..m], m - 1, j);
    DropSameLast(u[..m], t[..m]);
    assert u[..m][..m - 1] == u[..m - 1] && t[..m][..m - 1] == t[..m - 1];
    assert u[m - 1..] == [u[m - 1]] + u[m..] && t[m - 1..] == [t[m - 1]] + t[m..];
  }

  /**
   * From any state of the loop, every arrangement that keeps the final part and
   * rearranges the rest can still come out.
   */
  lemma {:induction false} ReachableFrom<T>(s: seq<T>, t: seq<T>, m: nat) returns (js: seq<nat>)
    requires m <= |s| == |t| && s[m..] == t[m..] && multiset(s[..m]) == multiset(t[..m])
    ensures IsSchedule(js, m) && ShuffleFrom(s, js, m) == t
    decreases m
  {
    if m <= 1 {
      SamePrefixAndTail(s, t, m);
      js := [];
    } else {
      var j := FirstDraw(s, t, m);
      var rest := ReachableFrom(Swap(s, m - 1, j), t, m - 1);
      ShuffleFromCons(s, j, rest, m);
      js := [j] + rest;
    }
  }

  /**
   * Every rearrangement of `s` is produced by some in-range schedule, so
   * `FisherYatesPermutes` is the tightest statement about arbitrary draws. This
   * is about schedules, not about the schedules a real generator can produce.
   */
  lemma EveryPermutationReachable<T>(s: seq<T>, t: seq<T>) returns (js: seq<nat>)
    requires multiset(t) == multiset(s)
    ensures IsSchedule(js, |s|) && FisherYates(s, js) == t
  {
    PermutationLength(s, t);
    assert s[..|s|] == s && t[..|t|] == t;
    js := ReachableFrom(s, t, |s|);
  }
}
