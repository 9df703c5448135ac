/** The Fisher-Yates shuffle of a copy, as written in both src/lib/utils/shuffle.ts and
    src/lib/utils/emoji.ts. The random draw `Math.floor(Math.random() * (i + 1))` made at
    loop step `i` is the injected value `picks[i]`, which lies in `[0, i]`; `picks[0]` is
    never used because the loop stops before `i == 0`. */
module Shuffling {

  /** Draws a Fisher-Yates pass over `n` elements may use. */
  predicate ValidPicks(picks: seq<nat>, n: nat) {
    |picks| == n && forall i :: 0 <= i < n ==> picks[i] <= i
  }

  /** The destructuring swap `[s[i], s[j]] = [s[j], s[i]]`: `s[i]` is written first, then `s[j]`. */
  function SwapAt<T>(s: seq<T>, i: nat, j: nat): (r: seq<T>)
    requires i < |s| && j < |s|
    ensures |r| == |s|
    ensures r[i] == s[j] && r[j] == s[i]
    ensures forall k :: 0 <= k < |s| && k != i && k != j ==> r[k] == s[k]
  {
    s[i := s[j]][j := s[i]]
  }

  /** A swap only moves two elements: the multiset is unchanged. */
  lemma SwapAtPermutes<T>(s: seq<T>, i: nat, j: nat)
    requires i < |s| && j < |s|
    ensures multiset(SwapAt(s, i, j)) == multiset(s)
  {
  }

  /** The loop `for (i = count - 1; i > 0; i--)` still to run on `s`. */
  function ShuffledFrom<T>(s: seq<T>, picks: seq<nat>, count: nat): (r: seq<T>)
    requires count <= |s| && ValidPicks(picks, |s|)
    decreases count
  {
    if count <= 1 then s
    else ShuffledFrom(SwapAt(s, count - 1, picks[count - 1]), picks, count - 1)
  }

  /** The whole shuffle of `s` under the draws `picks`. */
  function FisherYates<T>(s: seq<T>, picks: seq<nat>): seq<T>
    requires ValidPicks(picks, |s|)
  {
    ShuffledFrom(s, picks, |s|)
  }

  lemma {:induction false} ShuffledFromPermutes<T>(s: seq<T>, picks: seq<nat>, count: nat)
    requires count <= |s| && ValidPicks(picks, |s|)
    ensures |ShuffledFrom(s, picks, count)| == |s|
    ensures multiset(ShuffledFrom(s, picks, count)) == multiset(s)
    decreases count
  {
    if count > 1 {
      SwapAtPermutes(s, count - 1, picks[count - 1]);
      ShuffledFromPermutes(SwapAt(s, count - 1, picks[count - 1]), picks, count - 1);
    }
  }

  /** The shuffle only moves elements around: same length, same multiset. */
  lemma FisherYatesPermutes<T>(s: seq<T>, picks: seq<nat>)
    requires ValidPicks(picks, |s|)
    ensures |FisherYates(s, picks)| == |s|
    ensures multiset(FisherYates(s, picks)) == multiset(s)
  {
    ShuffledFromPermutes(s, picks, |s|);
  }

  /** `shuffleArray` (src/lib/utils/emoji.ts) and the shuffle at the top of `shuffleAssignments`:
      copy the input into a fresh array and swap in place from the last index down to 1.
      The input sequence is a value, so it is untouched. */
  method ShuffleCopy<T>(s: seq<T>, picks: seq<nat>) returns (shuffled: seq<T>)
    requires ValidPicks(picks, |s|)
    ensures shuffled == FisherYates(s, picks)
    ensures |shuffled| == |s| && multiset(shuffled) == multiset(s)
  {
    var a := new T[|s|](k requires 0 <= k < |s| => s[k]);
    assert a[..] == s;
    var i := |s| - 1;
    while i > 0
      invariant -1 <= i < |s|
      invariant ShuffledFrom(a[..], picks, i + 1) == FisherYates(s, picks)
    {
      var j := picks[i];
      var t := a[i];
      a[i] := a[j];
      a[j] := t;
      i := i - 1;
    }
    shuffled := a[..];
    FisherYatesPermutes(s, picks);
  }

  // Index arithmetic for the `% length` expressions of the callers.

  lemma ModBelow(x: int, n: int)
    requires 0 <= x < n
    ensures x % n == x
  {
  }

  lemma ModWrap(x: int, n: int)
    requires 0 < n <= x < 2 * n
    ensures x % n == x - n
  {
    assert x == 1 * n + (x - n);
  }

  /** A value found at two different positions occurs at least twice. */
  lemma RepeatCounts<T>(s: seq<T>, i: nat, j: nat)
    requires i < j < |s| && s[i] == s[j]
    ensures multiset(s)[s[i]] >= 2
  {
    assert s == s[..j] + s[j..];
    assert s[i] in s[..j];
    assert s[j] in s[j..];
  }
}
