/** `shuffleArray` of lib/quiz.ts and the random source it draws from.

    Randomness is injected: every random operation takes a stream of draws
    `rng` and returns what is left of it. A draw for a bound `b` is the next
    number of the stream reduced modulo `b`, so every index in `[0, b)` can be
    chosen; an exhausted stream draws 0. */
module Shuffle {
  function Draw(rng: seq<nat>, bound: nat): (j: nat)
    requires bound > 0
    ensures j < bound
  {
    if rng == [] then 0 else rng[0] % bound
  }

  function Tail(rng: seq<nat>): seq<nat>
  {
    if rng == [] then [] else rng[1..]
  }

  /** The stream left after `k` draws. */
  function Skip(rng: seq<nat>, k: nat): seq<nat>
  {
    if k >= |rng| then [] else rng[k..]
  }

  /** The number of swaps (and draws) Fisher-Yates makes on `n` elements. */
  function Swaps(n: nat): nat
  {
    if n == 0 then 0 else n - 1
  }

  // ---------------------------------------------------------------------
  // shuffleArray

  /** Durstenfeld's Fisher-Yates shuffle on a fresh copy of `s`: for `i` from
      the last index down to 1, swap position `i` with a drawn `j <= i`. */
  method ShuffleArray<T>(s: seq<T>, rng: seq<nat>) returns (shuffled: seq<T>, rest: seq<nat>)
    ensures |shuffled| == |s|
    ensures multiset(shuffled) == multiset(s)
    ensures |s| <= 1 ==> shuffled == s
    ensures rest == Skip(rng, Swaps(|s|))
  {
    var a := new T[|s|](k requires 0 <= k < |s| => s[k]);
    assert a[..] == s;
    rest := ShuffleInPlace(a, rng);
    shuffled := a[..];
  }

  /** The swap loop of `shuffleArray`, on the copy `a`. */
  method ShuffleInPlace<T>(a: array<T>, rng: seq<nat>) returns (rest: seq<nat>)
    modifies a
    ensures multiset(a[..]) == multiset(old(a[..]))
    ensures a.Length <= 1 ==> a[..] == old(a[..])
    ensures rest == Skip(rng, Swaps(a.Length))
  {
    rest := rng;
    if a.Length == 0 {
      return;
    }
    var i := a.Length - 1;
    while i > 0
      invariant 0 <= i < a.Length
      invariant multiset(a[..]) == multiset(old(a[..]))
      invariant a.Length <= 1 ==> a[..] == old(a[..])
      invariant rest == Skip(rng, a.Length - 1 - i)
    {
      var j := Draw(rest, i + 1);
      SkipTail(rng, a.Length - 1 - i);
      rest := Tail(rest);
      Swap(a, i, j);
      i := i - 1;
    }
  }

  /** One more draw from what is left after `k` draws leaves what is left after `k + 1`. */
  lemma SkipTail(rng: seq<nat>, k: nat)
    ensures Tail(Skip(rng, k)) == Skip(rng, k + 1)
  {
  }

  /** `[a[i], a[j]] = [a[j], a[i]]`. */
  method Swap<T>(a: array<T>, i: nat, j: nat)
    requires i < a.Length && j < a.Length
    modifies a
    ensures a[..] == old(a[..])[i := old(a[j])][j := old(a[i])]
    ensures multiset(a[..]) == multiset(old(a[..]))
  {
    SwapKeepsMultiset(a[..], i, j);
    a[i], a[j] := a[j], a[i];
  }

  lemma SwapKeepsMultiset<T>(s: seq<T>, i: nat, j: nat)
    requires i < |s| && j < |s|
    ensures multiset(s[i := s[j]][j := s[i]]) == multiset(s)
  {
    if i != j {
      calc {
        multiset(s[i := s[j]][j := s[i]]);
        multiset(s[i := s[j]]) - multiset{s[i := s[j]][j]} + multiset{s[i]};
        multiset(s) - multiset{s[i]} + multiset{s[j]} - multiset{s[j]} + multiset{s[i]};
        multiset(s);
      }
    }
  }

  lemma PrefixSubMultiset<T>(s: seq<T>, m: nat)
    requires m <= |s|
    ensures multiset(s[..m]) <= multiset(s)
  {
    assert s == s[..m] + s[m..];
  }

}
