/**
 * The comparison harness of test_lcsk.cc: both slow and both fast algorithms run on
 * the same strings, and the sizes and validity of their reconstructions are checked.
 */
module TestLcsk {
  import opened Text
  import opened Counting
  import opened Alignment
  import opened Optimum
  import opened SlowLcsk
  import opened FastSweep
  import opened Validity

  /**
   * `test_lcsk` (lines 49-80) with `only_run_fast_version` 0: every one of its
   * assertions holds — the slow and fast sizes agree for LCSk and for LCSk++, and
   * `ValidLcsk` accepts all four reconstructions — and the size it returns is the best
   * LCSk score.
   */
  method TestLcsk(a: Str, b: Str, k: nat, useAmortized: (nat, nat) -> bool, counter: ObjectCounter)
    returns (size: nat, passed: bool)
    requires k >= 1 && counter.Valid()
    modifies counter
    ensures counter.Valid()
    ensures passed
    ensures size == Best(a, b, k, false)
  {
    var lcskSlow := LcskSparseSlow(a, b, k);
    var lcskppSlow := LcskppSparseSlow(a, b, k);
    var lcskFast := LcsKSparseFast(a, b, k, useAmortized, counter);
    var lcskppFast := LcsKppSparseFast(a, b, k, useAmortized, counter);
    ValidIsAccepted(a, b, k, false, lcskSlow);
    ValidIsAccepted(a, b, k, true, lcskppSlow);
    ValidIsAccepted(a, b, k, false, lcskFast);
    ValidIsAccepted(a, b, k, true, lcskppFast);
    var slowValid := ValidLcsk(a, b, k, lcskSlow, false);
    var slowppValid := ValidLcsk(a, b, k, lcskppSlow, true);
    var fastValid := ValidLcsk(a, b, k, lcskFast, false);
    var fastppValid := ValidLcsk(a, b, k, lcskppFast, true);
    passed := && |lcskSlow| == |lcskFast| && slowValid
              && |lcskppSlow| == |lcskppFast| && slowppValid
              && fastValid && fastppValid;
    size := |lcskFast|;
  }
}
