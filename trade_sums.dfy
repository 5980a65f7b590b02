/** Sums of signed share deltas: the position a trade column builds up. */
module TradeSums {

  /** Net number of shares bought by the deltas in `s`, summed from the front. */
  function Sum(s: seq<int>): int
  {
    if s == [] then 0 else Sum(s[..|s| - 1]) + s[|s| - 1]
  }

  /** Extending a prefix by one session adds that session's delta. */
  lemma SumPrefixStep(s: seq<int>, k: nat)
    requires k < |s|
    ensures Sum(s[..k + 1]) == Sum(s[..k]) + s[k]
  {
    assert s[..k + 1][..k] == s[..k];
  }

  /** A column whose only non-zero entry can be the first one sums to that entry. */
  lemma {:induction false} SumOfLeadingEntry(s: seq<int>)
    requires |s| > 0
    requires forall i :: 1 <= i < |s| ==> s[i] == 0
    ensures Sum(s) == s[0]
  {
    if |s| > 1 {
      SumOfLeadingEntry(s[..|s| - 1]);
    }
  }
}
