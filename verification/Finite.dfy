/** Counting arguments. */
module Finite {

  /** Distinct numbers below n are at most n many. */
  lemma {:induction false} DistinctShort(line: seq<nat>, n: nat)
    requires forall i :: 0 <= i < |line| ==> line[i] < n
    requires forall i, j :: 0 <= i < j < |line| ==> line[i] != line[j]
    ensures |line| <= n
    decreases n
  {
    if line != [] {
      assert line[0] < n;
      if k :| 0 <= k < |line| && line[k] == n - 1 {
        var rest := line[..k] + line[k + 1..];
        assert forall i :: 0 <= i < |rest| ==> rest[i] == if i < k then line[i] else line[i + 1];
        DistinctShort(rest, n - 1);
      } else {
        DistinctShort(line, n - 1);
      }
    }
  }
}
