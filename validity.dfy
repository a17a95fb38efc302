/**
 * `ValidLcsk` (util/lcsk_testing.cc), the executable judge of reconstructions: the
 * check as the source writes it, and the check it evidently means.
 */
module Validity {
  import opened Text
  import opened Alignment

  /** The run test as written: the last run is skipped when it is a single pair. */
  predicate RunsAsWritten(R: seq<int>, k: nat, pp: bool)
    requires k >= 1
  {
    && (forall t :: 0 <= t < |R| - 1 ==> GoodRun(R[t], k, pp))
    && (|R| > 0 ==> GoodRun(Last(R), k, pp) || Last(R) == 1)
  }

  /** What `ValidLcsk` as written accepts. */
  predicate AcceptedAsWritten(a: Str, b: Str, k: nat, pp: bool, r: seq<Pos>)
    requires k >= 1
  {
    && Matched(a, b, r)
    && Increasing(r)
    && RunsAsWritten(Runs(Firsts(r)), k, pp)
    && RunsAsWritten(Runs(Seconds(r)), k, pp)
  }

  /** The source's test of a finished run, `(!lcskpp && run % k != 0) || (lcskpp && run < k)`. */
  lemma BadRunTest(run: nat, k: nat, pp: bool)
    requires k >= 1
    ensures ((!pp && run % k != 0) || (pp && run < k)) <==> !GoodRun(run, k, pp)
  {
    MultipleOfMod(run, k);
  }

  /** Runs finished before position i stay as they are when more values follow. */
  lemma {:induction false} RunsKept(xs: seq<int>, i: nat, m: nat)
    requires 1 <= i < m <= |xs| && xs[i - 1] + 1 != xs[i]
    ensures |RunsOf(xs, m)| > |RunsOf(xs, i)|
    ensures RunsOf(xs, m)[..|RunsOf(xs, i)|] == RunsOf(xs, i)
  {
    var P := RunsOf(xs, i);
    if m > i + 1 {
      RunsKept(xs, i, m - 1);
      var R := RunsOf(xs, m - 1);
      assert RunsOf(xs, m)[..|P|] == R[..|P|];
    }
  }

  lemma AddRunLast(D: seq<int>, o: int, L: int)
    ensures AddRun(D + [o], L, true) == D + [o + L]
    ensures AddRun(D + [o], L, false) == (D + [o]) + [L]
  {
    assert (D + [o])[..|D + [o]| - 1] == D;
  }

  /** A run that ends at i with a bad length is a bad run of xs that is not the last. */
  lemma RejectedRun(xs: seq<int>, i: nat, done: seq<int>, open: int, k: nat, pp: bool)
    requires k >= 1 && 1 <= i < |xs| && xs[i - 1] + 1 != xs[i]
    requires RunsOf(xs, i) == done + [open] && !GoodRun(open, k, pp)
    ensures !RunsAsWritten(RunsOf(xs, |xs|), k, pp)
    ensures !AllGood(RunsOf(xs, |xs|), k, pp)
  {
    RunsKept(xs, i, |xs|);
    var R := RunsOf(xs, |xs|);
    assert R[|done|] == R[..|done| + 1][|done|];
  }

  /** Finished runs all good and an open run: the verdict of both checks. */
  lemma Verdict(R: seq<int>, done: seq<int>, open: int, k: nat, pp: bool)
    requires k >= 1 && R == done + [open] && AllGood(done, k, pp)
    ensures RunsAsWritten(R, k, pp) <==> GoodRun(open, k, pp) || open == 1
    ensures AllGood(R, k, pp) <==> GoodRun(open, k, pp)
  {
    assert forall t :: 0 <= t < |done| ==> R[t] == done[t];
  }

  /**
   * One iteration of the run loop of `ValidLcsk` as written, for one coordinate: the
   * open run grows or is judged, and (done', open') describe the pairs up to i.
   */
  lemma StepAsWritten(xs: seq<int>, i: nat, done: seq<int>, open: int, k: nat, pp: bool)
    returns (done': seq<int>, open': int)
    requires k >= 1 && 1 <= i < |xs|
    requires RunsOf(xs, i) == done + [open] && AllGood(done, k, pp) && open >= 1
    ensures var cons := xs[i - 1] + 1 == xs[i];
      var r1 := if cons then open + 1 else open;
      var check := i + 1 == |xs| || !cons;
      if check && !GoodRun(r1, k, pp) then !RunsAsWritten(RunsOf(xs, |xs|), k, pp)
      else
        && RunsOf(xs, i + 1) == done' + [open'] && AllGood(done', k, pp) && open' >= 1
        && (i + 1 < |xs| ==> open' == if check then 1 else r1)
        && (i + 1 == |xs| ==> GoodRun(open', k, pp) || open' == 1)
  {
    AddRunLast(done, open, 1);
    if xs[i - 1] + 1 == xs[i] {
      done', open' := done, open + 1;
      if i + 1 == |xs| && !GoodRun(open + 1, k, pp) {
        Verdict(RunsOf(xs, i + 1), done, open + 1, k, pp);
      }
    } else if GoodRun(open, k, pp) {
      done', open' := done + [open], 1;
    } else {
      done', open' := done, open;
      RejectedRun(xs, i, done, open, k, pp);
    }
  }

  /** The source's test that rejects a finished run. */
  predicate BadRun(run: int, k: nat, pp: bool)
    requires k >= 1
  {
    (!pp && run % k != 0) || (pp && run < k)
  }

  /**
   * The run loop of `ValidLcsk` as written, for one coordinate: the verdict of the
   * iterations from i on, when the current run has length run.
   */
  function LoopAsWritten(xs: seq<int>, i: nat, run: int, k: nat, pp: bool): bool
    requires k >= 1 && i >= 1
    decreases |xs| - i
  {
    if i >= |xs| then true
    else
      var cons := xs[i - 1] + 1 == xs[i];
      var run' := if cons then run + 1 else run;
      var check := i + 1 == |xs| || !cons;
      if check && BadRun(run', k, pp) then false
      else LoopAsWritten(xs, i + 1, if check then 1 else run', k, pp)
  }

  /** The loop as written judges the runs of xs as `RunsAsWritten` does. */
  lemma {:induction false} LoopAsWrittenMeaning(xs: seq<int>, i: nat, run: int, done: seq<int>, open: int, k: nat, pp: bool)
    requires k >= 1 && 1 <= i <= |xs|
    requires RunsOf(xs, i) == done + [open] && AllGood(done, k, pp) && open >= 1
    requires i < |xs| ==> run == open
    requires i == |xs| ==> GoodRun(open, k, pp) || open == 1
    ensures LoopAsWritten(xs, i, run, k, pp) == RunsAsWritten(RunsOf(xs, |xs|), k, pp)
    decreases |xs| - i
  {
    if i == |xs| {
      Verdict(RunsOf(xs, i), done, open, k, pp);
    } else {
      var done', open' := StepAsWritten(xs, i, done, open, k, pp);
      var cons := xs[i - 1] + 1 == xs[i];
      var run' := if cons then run + 1 else run;
      var check := i + 1 == |xs| || !cons;
      BadRunTest(run', k, pp);
      if !(check && BadRun(run', k, pp)) {
        LoopAsWrittenMeaning(xs, i + 1, if check then 1 else run', done', open', k, pp);
      }
    }
  }

  /** Both run loops as written, from the first pair on, are the `RunsAsWritten` tests. */
  lemma RunLoopsAsWritten(recon: seq<Pos>, k: nat, pp: bool)
    requires k >= 1
    ensures |recon| >= 1 ==> LoopAsWritten(Firsts(recon), 1, 1, k, pp) == RunsAsWritten(Runs(Firsts(recon)), k, pp)
    ensures |recon| >= 1 ==> LoopAsWritten(Seconds(recon), 1, 1, k, pp) == RunsAsWritten(Runs(Seconds(recon)), k, pp)
    ensures |recon| == 0 ==> RunsAsWritten(Runs(Firsts(recon)), k, pp) && RunsAsWritten(Runs(Seconds(recon)), k, pp)
  {
    var xs, ys, n := Firsts(recon), Seconds(recon), |recon|;
    if n >= 1 {
      LoopAsWrittenMeaning(xs, 1, 1, [], 1, k, pp);
      LoopAsWrittenMeaning(ys, 1, 1, [], 1, k, pp);
    } else {
      assert xs == [] && ys == [];
    }
  }

  /** The first loop of `ValidLcsk`: every pair indexes equal characters of a and b. */
  method CharactersMatch(a: Str, b: Str, recon: seq<Pos>) returns (ok: bool)
    ensures ok == Matched(a, b, recon)
  {
    var t := 0;
    while t < |recon|
      invariant 0 <= t <= |recon|
      invariant forall x :: 0 <= x < t ==> 0 <= recon[x].0 < |a| && 0 <= recon[x].1 < |b| && a[recon[x].0] == b[recon[x].1]
    {
      var (i, j) := recon[t];
      if i < 0 || i >= |a| {
        return false;
      }
      if j < 0 || j >= |b| {
        return false;
      }
      if a[i] != b[j] {
        return false;
      }
      t := t + 1;
    }
    return true;
  }

  /** The second loop of `ValidLcsk` as written: pairs increase and runs have good lengths. */
  method RunsCheckAsWritten(k: nat, recon: seq<Pos>, pp: bool) returns (ok: bool)
    requires k >= 1
    ensures ok == (Increasing(recon) && (|recon| >= 1 ==>
      LoopAsWritten(Firsts(recon), 1, 1, k, pp) && LoopAsWritten(Seconds(recon), 1, 1, k, pp)))
  {
    var n := |recon|;
    ghost var xs, ys := Firsts(recon), Seconds(recon);
    var runA, runB := 1, 1;
    var i := 1;
    while i < n
      invariant 1 <= i && (n >= 1 ==> i <= n)
      invariant n >= 1 ==> LoopAsWritten(xs, 1, 1, k, pp) == LoopAsWritten(xs, i, runA, k, pp)
      invariant n >= 1 ==> LoopAsWritten(ys, 1, 1, k, pp) == LoopAsWritten(ys, i, runB, k, pp)
      invariant forall x :: 0 < x < i && x < n ==> recon[x - 1].0 < recon[x].0 && recon[x - 1].1 < recon[x].1
    {
      if recon[i - 1].0 >= recon[i].0 {
        return false;
      }
      if recon[i - 1].1 >= recon[i].1 {
        return false;
      }
      assert xs[i - 1] == recon[i - 1].0 && xs[i] == recon[i].0;
      assert ys[i - 1] == recon[i - 1].1 && ys[i] == recon[i].1;
      ghost var runA0, runB0 := runA, runB;
      if recon[i - 1].0 + 1 == recon[i].0 {
        runA := runA + 1;
      }
      if recon[i - 1].1 + 1 == recon[i].1 {
        runB := runB + 1;
      }
      ghost var checkA, checkB := i + 1 == n || recon[i - 1].0 + 1 != recon[i].0, i + 1 == n || recon[i - 1].1 + 1 != recon[i].1;
      assert LoopAsWritten(xs, i, runA0, k, pp) ==
        if checkA && BadRun(runA, k, pp) then false else LoopAsWritten(xs, i + 1, if checkA then 1 else runA, k, pp);
      assert LoopAsWritten(ys, i, runB0, k, pp) ==
        if checkB && BadRun(runB, k, pp) then false else LoopAsWritten(ys, i + 1, if checkB then 1 else runB, k, pp);
      if i + 1 == n || recon[i - 1].0 + 1 != recon[i].0 {
        if BadRun(runA, k, pp) {
          return false;
        }
        runA := 1;
      }
      if i + 1 == n || recon[i - 1].1 + 1 != recon[i].1 {
        if BadRun(runB, k, pp) {
          return false;
        }
        runB := 1;
      }
      i := i + 1;
    }
    return true;
  }

  /** `ValidLcsk(a, b, k, lcsk_recon, lcskpp)` as written. */
  method ValidLcsk(a: Str, b: Str, k: nat, recon: seq<Pos>, pp: bool) returns (ok: bool)
    requires k >= 1
    ensures ok == AcceptedAsWritten(a, b, k, pp, recon)
  {
    // 1) the characters at the indices match
    ok := CharactersMatch(a, b, recon);
    if !ok {
      return false;
    }
    // 2) the runs of indices have correct lengths
    ok := RunsCheckAsWritten(k, recon, pp);
    RunLoopsAsWritten(recon, k, pp);
  }

  /** One iteration of the run loop of the corrected check, for one coordinate. */
  lemma StepCorrected(xs: seq<int>, i: nat, done: seq<int>, open: int, k: nat, pp: bool)
    returns (done': seq<int>, open': int)
    requires k >= 1 && 1 <= i < |xs|
    requires RunsOf(xs, i) == done + [open] && AllGood(done, k, pp)
    ensures var cons := xs[i - 1] + 1 == xs[i];
      if !cons && !GoodRun(open, k, pp) then !AllGood(RunsOf(xs, |xs|), k, pp)
      else
        && RunsOf(xs, i + 1) == done' + [open'] && AllGood(done', k, pp)
        && open' == if cons then open + 1 else 1
  {
    AddRunLast(done, open, 1);
    if xs[i - 1] + 1 == xs[i] {
      done', open' := done, open + 1;
    } else if GoodRun(open, k, pp) {
      done', open' := done + [open], 1;
    } else {
      done', open' := done, open;
      RejectedRun(xs, i, done, open, k, pp);
    }
  }

  /**
   * The run loop the check evidently means, for one coordinate: a run is judged
   * when it ends, and the run still open after the last pair is judged too.
   */
  function LoopCorrected(xs: seq<int>, i: nat, run: int, k: nat, pp: bool): bool
    requires k >= 1 && i >= 1
    decreases |xs| - i
  {
    if i >= |xs| then !BadRun(run, k, pp)
    else
      var cons := xs[i - 1] + 1 == xs[i];
      if !cons && BadRun(run, k, pp) then false
      else LoopCorrected(xs, i + 1, if cons then run + 1 else 1, k, pp)
  }

  /** The corrected loop judges the runs of xs as `AllGood` does. */
  lemma {:induction false} LoopCorrectedMeaning(xs: seq<int>, i: nat, done: seq<int>, open: int, k: nat, pp: bool)
    requires k >= 1 && 1 <= i <= |xs|
    requires RunsOf(xs, i) == done + [open] && AllGood(done, k, pp) && open >= 0
    ensures LoopCorrected(xs, i, open, k, pp) == AllGood(RunsOf(xs, |xs|), k, pp)
    decreases |xs| - i
  {
    if i == |xs| {
      Verdict(RunsOf(xs, i), done, open, k, pp);
      BadRunTest(open, k, pp);
    } else {
      var done', open' := StepCorrected(xs, i, done, open, k, pp);
      BadRunTest(open, k, pp);
      if xs[i - 1] + 1 == xs[i] || !BadRun(open, k, pp) {
        LoopCorrectedMeaning(xs, i + 1, done', open', k, pp);
      }
    }
  }

  /** Both corrected run loops, from the first pair on, are the `AllGood` tests. */
  lemma RunLoopsCorrected(recon: seq<Pos>, k: nat, pp: bool)
    requires k >= 1
    ensures |recon| >= 1 ==> LoopCorrected(Firsts(recon), 1, 1, k, pp) == AllGood(Runs(Firsts(recon)), k, pp)
    ensures |recon| >= 1 ==> LoopCorrected(Seconds(recon), 1, 1, k, pp) == AllGood(Runs(Seconds(recon)), k, pp)
    ensures |recon| == 0 ==> AllGood(Runs(Firsts(recon)), k, pp) && AllGood(Runs(Seconds(recon)), k, pp)
  {
    var xs, ys, n := Firsts(recon), Seconds(recon), |recon|;
    if n >= 1 {
      LoopCorrectedMeaning(xs, 1, [], 1, k, pp);
      LoopCorrectedMeaning(ys, 1, [], 1, k, pp);
    } else {
      assert xs == [] && ys == [];
    }
  }

  /** The second loop of the corrected check. */
  method RunsCheckCorrected(k: nat, recon: seq<Pos>, pp: bool) returns (ok: bool)
    requires k >= 1
    ensures ok == (Increasing(recon) && (|recon| >= 1 ==>
      LoopCorrected(Firsts(recon), 1, 1, k, pp) && LoopCorrected(Seconds(recon), 1, 1, k, pp)))
  {
    var n := |recon|;
    ghost var xs, ys := Firsts(recon), Seconds(recon);
    var runA, runB := 1, 1;
    var i := 1;
    while i < n
      invariant 1 <= i && (n >= 1 ==> i <= n)
      invariant n >= 1 ==> LoopCorrected(xs, 1, 1, k, pp) == LoopCorrected(xs, i, runA, k, pp)
      invariant n >= 1 ==> LoopCorrected(ys, 1, 1, k, pp) == LoopCorrected(ys, i, runB, k, pp)
      invariant forall x :: 0 < x < i && x < n ==> recon[x - 1].0 < recon[x].0 && recon[x - 1].1 < recon[x].1
    {
      if recon[i - 1].0 >= recon[i].0 {
        return false;
      }
      if recon[i - 1].1 >= recon[i].1 {
        return false;
      }
      assert xs[i - 1] == recon[i - 1].0 && xs[i] == recon[i].0;
      assert ys[i - 1] == recon[i - 1].1 && ys[i] == recon[i].1;
      ghost var consA, consB := recon[i - 1].0 + 1 == recon[i].0, recon[i - 1].1 + 1 == recon[i].1;
      assert LoopCorrected(xs, i, runA, k, pp) ==
        if !consA && BadRun(runA, k, pp) then false else LoopCorrected(xs, i + 1, if consA then runA + 1 else 1, k, pp);
      assert LoopCorrected(ys, i, runB, k, pp) ==
        if !consB && BadRun(runB, k, pp) then false else LoopCorrected(ys, i + 1, if consB then runB + 1 else 1, k, pp);
      if recon[i - 1].0 + 1 == recon[i].0 {
        runA := runA + 1;
      } else {
        if BadRun(runA, k, pp) {
          return false;
        }
        runA := 1;
      }
      if recon[i - 1].1 + 1 == recon[i].1 {
        runB := runB + 1;
      } else {
        if BadRun(runB, k, pp) {
          return false;
        }
        runB := 1;
      }
      i := i + 1;
    }
    if n >= 1 && (BadRun(runA, k, pp) || BadRun(runB, k, pp)) {
      return false;
    }
    return true;
  }

  /**
   * The check `ValidLcsk` evidently means: a run is judged when it ends, and the run
   * still open after the last pair is judged too.
   */
  method ValidLcskCorrected(a: Str, b: Str, k: nat, recon: seq<Pos>, pp: bool) returns (ok: bool)
    requires k >= 1
    ensures ok == ValidAlignment(a, b, k, pp, recon)
  {
    ok := CharactersMatch(a, b, recon);
    if !ok {
      return false;
    }
    ok := RunsCheckCorrected(k, recon, pp);
    RunLoopsCorrected(recon, k, pp);
  }

  /**
   * The diagonal test the run checks leave out: the maximal diagonal stretches of an
   * increasing, matched list, judged as the corrected check judges runs.
   */
  method DiagonalRunsCheck(ghost a: Str, ghost b: Str, k: nat, recon: seq<Pos>, pp: bool) returns (ok: bool)
    requires k >= 1 && Matched(a, b, recon) && Increasing(recon)
    ensures ok == AllGood(Runs(DiagKeys(|a|, recon)), k, pp)
  {
    var n := |recon|;
    ghost var ds := DiagKeys(|a|, recon);
    if n == 0 {
      assert ds == [];
      return true;
    }
    LoopCorrectedMeaning(ds, 1, [], 1, k, pp);
    var run := 1;
    var i := 1;
    while i < n
      invariant 1 <= i <= n
      invariant LoopCorrected(ds, 1, 1, k, pp) == LoopCorrected(ds, i, run, k, pp)
    {
      DiagKeyStep(|a|, recon[i - 1], recon[i]);
      var cons := recon[i - 1].0 + 1 == recon[i].0 && recon[i - 1].1 + 1 == recon[i].1;
      assert cons == (ds[i - 1] + 1 == ds[i]);
      if cons {
        run := run + 1;
      } else {
        if BadRun(run, k, pp) {
          return false;
        }
        run := 1;
      }
      i := i + 1;
    }
    ok := !BadRun(run, k, pp);
  }

  /**
   * A judge that also demands whole diagonal blocks: what a valid LCSk++
   * reconstruction, a chain of k-matches and their one-step extensions, must be.
   */
  method ValidLcskBlocks(a: Str, b: Str, k: nat, recon: seq<Pos>, pp: bool) returns (ok: bool)
    requires k >= 1
    ensures ok == BlockAlignment(a, b, k, pp, recon)
  {
    ok := ValidLcskCorrected(a, b, k, recon, pp);
    if ok {
      ok := DiagonalRunsCheck(a, b, k, recon, pp);
    }
  }

  /** The check as written never rejects a valid reconstruction. */
  lemma ValidIsAccepted(a: Str, b: Str, k: nat, pp: bool, r: seq<Pos>)
    requires k >= 1 && ValidAlignment(a, b, k, pp, r)
    ensures AcceptedAsWritten(a, b, k, pp, r)
  {
  }

  /** The runs of 0, 1, 3 are 0, 1 and then 3 alone. */
  lemma ExampleRuns()
    ensures Runs([0, 1, 3]) == [2, 1]
  {
    var xs := [0, 1, 3];
    assert RunsOf(xs, 1) == [1];
    AddRunLast([], 1, 1);
    assert RunsOf(xs, 2) == [2];
    AddRunLast([], 2, 1);
  }

  /** The example below as the check sees it: equal characters, increasing pairs. */
  lemma ExampleShape(s: Str, r: seq<Pos>)
    requires s == ['a', 'a', 'a', 'a'] && r == [(0, 0), (1, 1), (3, 3)]
    ensures Matched(s, s, r) && Increasing(r)
    ensures Runs(Firsts(r)) == [2, 1] && Runs(Seconds(r)) == [2, 1]
  {
    assert Firsts(r) == [0, 1, 3] && Seconds(r) == [0, 1, 3];
    ExampleRuns();
  }

  /**
   * ... but it accepts an invalid one: with k = 2, the pairs (0, 0), (1, 1), (3, 3) of
   * "aaaa" against itself end with a run of one pair, which no LCS2 can contain.
   */
  lemma TrailingSingletonAccepted()
    ensures var s: Str := ['a', 'a', 'a', 'a'];
      var r: seq<Pos> := [(0, 0), (1, 1), (3, 3)];
      AcceptedAsWritten(s, s, 2, false, r) && !ValidAlignment(s, s, 2, false, r)
  {
    var s: Str := ['a', 'a', 'a', 'a'];
    var r: seq<Pos> := [(0, 0), (1, 1), (3, 3)];
    ExampleShape(s, r);
    assert MultipleOf(2, 2) by { assert MultipleOf(0, 2); }
    assert !MultipleOf(1, 2);
    assert RunsAsWritten([2, 1], 2, false);
    assert !AllGood([2, 1], 2, false);
  }

  /** Two consecutive blocks that do not continue each other make two runs. */
  lemma TwoRuns(xs: seq<int>, m: nat)
    requires 0 < m < |xs| && Consecutive(xs[..m]) && Consecutive(xs[m..]) && xs[m - 1] + 1 != xs[m]
    ensures Runs(xs) == [m, |xs| - m]
  {
    var u, v := xs[..m], xs[m..];
    assert xs == u + v;
    assert [] + u == u;
    RunsAppendBlock([], u);
    RunsAppendBlock(u, v);
  }

  /** Three consecutive blocks, none continuing the one before, make three runs. */
  lemma ThreeRuns(xs: seq<int>, m: nat, n: nat)
    requires 0 < m < n < |xs| && Consecutive(xs[..m]) && Consecutive(xs[m..n]) && Consecutive(xs[n..])
    requires xs[m - 1] + 1 != xs[m] && xs[n - 1] + 1 != xs[n]
    ensures Runs(xs) == [m, n - m, |xs| - n]
  {
    var u, v := xs[..n], xs[n..];
    assert xs == u + v;
    assert u[..m] == xs[..m] && u[m..] == xs[m..n];
    TwoRuns(u, m);
    RunsAppendBlock(u, v);
  }

  lemma ExampleOffDiagonalShape(s: Str, r: seq<Pos>)
    requires s == ['x', 'x', 'x', 'x', 'x', 'x'] && r == [(0, 0), (1, 1), (2, 3), (4, 4), (5, 5)]
    ensures Matched(s, s, r) && Increasing(r)
  {
  }

  lemma ExampleOffDiagonalKeys(r: seq<Pos>)
    requires r == [(0, 0), (1, 1), (2, 3), (4, 4), (5, 5)]
    ensures Firsts(r) == [0, 1, 2, 4, 5] && Seconds(r) == [0, 1, 3, 4, 5]
    ensures DiagKeys(6, r) == [0, 1, -5, 4, 5]
  {
  }

  /**
   * With k = 2, the pairs (0, 0), (1, 1), (2, 3), (4, 4), (5, 5) of "xxxxxx" against
   * itself pass both run tests for LCSk++ (rows 0-2 and 4-5, columns 0-1 and 3-5),
   * yet (2, 3) lies on no diagonal block of two: it is no LCS2++ reconstruction.
   */
  lemma OffDiagonalAccepted(s: Str, r: seq<Pos>)
    requires s == ['x', 'x', 'x', 'x', 'x', 'x'] && r == [(0, 0), (1, 1), (2, 3), (4, 4), (5, 5)]
    ensures AcceptedAsWritten(s, s, 2, true, r)
    ensures ValidAlignment(s, s, 2, true, r)
    ensures !BlockAlignment(s, s, 2, true, r)
  {
    ExampleOffDiagonalShape(s, r);
    ExampleOffDiagonalKeys(r);
    OffDiagonalValid(s, r);
    OffDiagonalNotBlock(s, r);
    ValidIsAccepted(s, s, 2, true, r);
  }

  lemma OffDiagonalValid(s: Str, r: seq<Pos>)
    requires Matched(s, s, r) && Increasing(r)
    requires Firsts(r) == [0, 1, 2, 4, 5] && Seconds(r) == [0, 1, 3, 4, 5]
    ensures ValidAlignment(s, s, 2, true, r)
  {
    TwoRuns(Firsts(r), 3);
    TwoRuns(Seconds(r), 2);
  }

  lemma OffDiagonalNotBlock(s: Str, r: seq<Pos>)
    requires s == ['x', 'x', 'x', 'x', 'x', 'x'] && r == [(0, 0), (1, 1), (2, 3), (4, 4), (5, 5)]
    ensures !BlockAlignment(s, s, 2, true, r)
  {
    ExampleOffDiagonalKeys(r);
    ThreeRuns(DiagKeys(|s|, r), 2, 3);
    assert !GoodRun(Runs(DiagKeys(|s|, r))[1], 2, true);
  }
}
