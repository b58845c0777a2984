/** Facts about sequences that the folds over requests, output lines and
    balances share. */
module Seqs {
  /** The total of a sequence of integers, summed from the left as a C loop
      over an `int` array does. */
  function Sum(s: seq<int>): int
  {
    if s == [] then 0 else Sum(s[..|s| - 1]) + s[|s| - 1]
  }

  // Prefixes of sequences

  lemma TakeSnoc<T>(xs: seq<T>, i: nat)
    requires i < |xs|
    ensures xs[..i + 1] == xs[..i] + [xs[i]]
  {
  }

  lemma TakeTake<T>(xs: seq<T>, m: nat, n: nat)
    requires n <= m <= |xs|
    ensures xs[..m][..n] == xs[..n]
  {
  }

  lemma TakeAll<T>(xs: seq<T>)
    ensures xs[..|xs|] == xs
  {
  }
}
