/**
 * `LcskSlow` (util/lcsk_testing.cc): the full-table dynamic program for the LCSk /
 * LCSk++ length. dp[i][j] is the best of dp[i-1][j], dp[i][j-1] and, for the
 * lengths t of the common suffix of a[..i] and b[..j] up to min(i, j, 2K), the
 * value dp[i-t][j-t] + t when t is a usable block length (exactly K for LCSk, at
 * least K for LCSk++).
 */
module FullTable {
  import opened Text
  import opened Alignment

  function Max(x: int, y: int): int
  {
    if x >= y then x else y
  }

  function Min(x: int, y: int): int
  {
    if x <= y then x else y
  }

  /** `min3`. */
  function Min3(x: int, y: int, z: int): int
  {
    Min(Min(x, y), z)
  }

  /** A common suffix of length t may be taken as one block. */
  predicate Usable(K: nat, pp: bool, t: nat)
  {
    (!pp && t == K) || (pp && t >= K)
  }

  /** The value dp[i][j] of the table; it lies between 0 and min(i, j). */
  function Dp(a: Str, b: Str, K: nat, pp: bool, i: nat, j: nat): (d: int)
    requires i <= |a| && j <= |b|
    ensures 0 <= d <= Min(i, j)
    decreases i + j, 1, 0
  {
    if i == 0 || j == 0 then 0
    else Max(Max(Dp(a, b, K, pp, i - 1, j), Dp(a, b, K, pp, i, j - 1)), Diag(a, b, K, pp, i, j, 1))
  }

  /**
   * The best dp[i-s][j-s] + s over the usable s >= t reached before the diagonal
   * scan stops, at a mismatch or beyond min(i, j, 2K); 0 when there is none.
   */
  function Diag(a: Str, b: Str, K: nat, pp: bool, i: nat, j: nat, t: nat): (d: int)
    requires 1 <= t && i <= |a| && j <= |b|
    ensures 0 <= d <= Min(i, j)
    decreases i + j, 0, 2 * K + 2 - t
  {
    if t > Min3(i, j, 2 * K) || a[i - t] != b[j - t] then 0
    else Max(Cand(a, b, K, pp, i, j, t), Diag(a, b, K, pp, i, j, t + 1))
  }

  /** What a common suffix of length t offers: dp[i-t][j-t] + t when t is usable, else 0. */
  function Cand(a: Str, b: Str, K: nat, pp: bool, i: nat, j: nat, t: nat): int
    requires 1 <= t <= i && t <= j && i <= |a| && j <= |b|
    decreases i + j, 0, 0
  {
    if Usable(K, pp, t) then Dp(a, b, K, pp, i - t, j - t) + t else 0
  }

  /**
   * `LcskSlow(a, b, K, &len, lcskpp)` (lines 269-297): fills row 0 and column 0 with
   * 0, then every cell from its upper and left neighbours and the diagonal scan,
   * which breaks at the first mismatch; the result is the last cell.
   */
  method LcskSlowImpl(a: Str, b: Str, K: nat, pp: bool) returns (len: int)
    ensures len == Dp(a, b, K, pp, |a|, |b|)
  {
    var dp := new int[|a| + 1, |b| + 1];
    for i := 0 to |a| + 1
      invariant forall x :: 0 <= x < i ==> dp[x, 0] == 0
    {
      dp[i, 0] := 0;
    }
    for j := 0 to |b| + 1
      invariant forall x :: 0 <= x <= |a| ==> dp[x, 0] == 0
      invariant forall y :: 0 <= y < j ==> dp[0, y] == 0
    {
      dp[0, j] := 0;
    }
    for i := 1 to |a| + 1
      invariant forall x, y {:trigger dp[x, y]} :: 0 <= x < i && 0 <= y <= |b| ==> dp[x, y] == Dp(a, b, K, pp, x, y)
      invariant forall x :: i <= x <= |a| ==> dp[x, 0] == 0
    {
      FillRow(a, b, K, pp, i, dp);
    }
    len := dp[|a|, |b|];
  }

  /** The inner loop: row i of the table, from the rows above it. */
  method FillRow(a: Str, b: Str, K: nat, pp: bool, i: nat, dp: array2<int>)
    requires 1 <= i <= |a| && dp.Length0 == |a| + 1 && dp.Length1 == |b| + 1
    requires forall x, y {:trigger dp[x, y]} :: 0 <= x < i && 0 <= y <= |b| ==> dp[x, y] == Dp(a, b, K, pp, x, y)
    requires dp[i, 0] == 0
    modifies dp
    ensures forall x, y {:trigger dp[x, y]} :: 0 <= x <= i && 0 <= y <= |b| ==> dp[x, y] == Dp(a, b, K, pp, x, y)
    ensures forall x, y :: i < x <= |a| && 0 <= y <= |b| ==> dp[x, y] == old(dp[x, y])
  {
    for j := 1 to |b| + 1
      invariant forall x, y {:trigger dp[x, y]} :: 0 <= x < i && 0 <= y <= |b| ==> dp[x, y] == Dp(a, b, K, pp, x, y)
      invariant forall y {:trigger dp[i, y]} :: 0 <= y < j ==> dp[i, y] == Dp(a, b, K, pp, i, y)
      invariant forall x, y :: i < x <= |a| && 0 <= y <= |b| ==> dp[x, y] == old(dp[x, y])
    {
      var cur := FillCell(a, b, K, pp, i, j, dp[i - 1, j], dp[i, j - 1], dp);
      dp[i, j] := cur;
    }
  }

  /** The body of the inner loop: one cell of the table, from the cells already filled. */
  method FillCell(a: Str, b: Str, K: nat, pp: bool, i: nat, j: nat, up: int, left: int, dp: array2<int>)
    returns (cur: int)
    requires 1 <= i <= |a| && 1 <= j <= |b|
    requires dp.Length0 == |a| + 1 && dp.Length1 == |b| + 1
    requires up == Dp(a, b, K, pp, i - 1, j) && left == Dp(a, b, K, pp, i, j - 1)
    requires forall x, y {:trigger dp[x, y]} :: 0 <= x < i && 0 <= y <= |b| ==> dp[x, y] == Dp(a, b, K, pp, x, y)
    ensures cur == Dp(a, b, K, pp, i, j)
  {
    cur := Max(up, left);
    var t := 1;
    while t <= Min3(i, j, 2 * K)
      invariant 1 <= t && cur >= 0
      invariant Max(cur, Diag(a, b, K, pp, i, j, t)) == Dp(a, b, K, pp, i, j)
      decreases 2 * K + 1 - t
    {
      if a[i - t] != b[j - t] {
        break;
      }
      if (!pp && t == K) || (pp && t >= K) {
        cur := Max(cur, dp[i - t, j - t] + t);
      }
      t := t + 1;
    }
  }

  /** A table cell bounds every cell above and to the left of it. */
  lemma {:induction false} DpMonotone(a: Str, b: Str, K: nat, pp: bool, i: nat, j: nat, i': nat, j': nat)
    requires i' <= i <= |a| && j' <= j <= |b|
    ensures Dp(a, b, K, pp, i', j') <= Dp(a, b, K, pp, i, j)
    decreases i + j
  {
    if i' < i {
      DpMonotone(a, b, K, pp, i - 1, j, i', j');
    } else if j' < j {
      DpMonotone(a, b, K, pp, i, j - 1, i', j');
    }
  }

  /** For LCSk every table value is a whole number of K-blocks. */
  lemma {:induction false} DpMultiple(a: Str, b: Str, K: nat, i: nat, j: nat)
    requires K >= 1 && i <= |a| && j <= |b|
    ensures MultipleOf(Dp(a, b, K, false, i, j), K)
    decreases i + j, 1, 0
  {
    if i > 0 && j > 0 {
      DpMultiple(a, b, K, i - 1, j);
      DpMultiple(a, b, K, i, j - 1);
      DiagMultiple(a, b, K, i, j, 1);
    }
  }

  lemma {:induction false} DiagMultiple(a: Str, b: Str, K: nat, i: nat, j: nat, t: nat)
    requires K >= 1 && 1 <= t && i <= |a| && j <= |b|
    ensures MultipleOf(Diag(a, b, K, false, i, j, t), K)
    decreases i + j, 0, 2 * K + 1 - t
  {
    if !(t > Min3(i, j, 2 * K) || a[i - t] != b[j - t]) {
      DiagMultiple(a, b, K, i, j, t + 1);
      if t == K {
        DpMultiple(a, b, K, i - t, j - t);
        var d := Dp(a, b, K, false, i - t, j - t);
        assert d + K - K == d;
      }
    }
  }

  /** The block of length L that starts at (r, c). */
  function Run(r: int, c: int, L: nat): (v: seq<Pos>)
    ensures |v| == L && forall x :: 0 <= x < L ==> v[x] == (r + x, c + x)
  {
    seq(L, x => (r + x, c + x))
  }

  lemma RunShape(a: Str, b: Str, r: int, c: int, L: nat)
    requires SameWindow(a, r, b, c, L)
    ensures Matched(a, b, Run(r, c, L)) && Increasing(Run(r, c, L))
    ensures Consecutive(Firsts(Run(r, c, L))) && Consecutive(Seconds(Run(r, c, L)))
  {
    var v := Run(r, c, L);
    forall x | 0 <= x < L ensures a[v[x].0] == b[v[x].1] {
      assert a[r..r + L][x] == b[c..c + L][x];
    }
  }

  /** A window match of length L followed by one equal pair is one of length L + 1. */
  lemma WindowExtend(a: Str, b: Str, r: int, c: int, L: nat)
    requires SameWindow(a, r, b, c, L) && r + L < |a| && c + L < |b| && a[r + L] == b[c + L]
    ensures SameWindow(a, r, b, c, L + 1)
  {
    assert a[r..r + L + 1] == a[r..r + L] + [a[r + L]];
    assert b[c..c + L + 1] == b[c..c + L] + [b[c + L]];
  }

  /** Appending a usable matching block after a valid alignment keeps it valid. */
  lemma AppendRun(a: Str, b: Str, K: nat, pp: bool, u: seq<Pos>, r: nat, c: nat, L: nat)
    requires K >= 1 && ValidAlignment(a, b, K, pp, u) && Usable(K, pp, L)
    requires |u| > 0 ==> u[|u| - 1].0 < r && u[|u| - 1].1 < c
    requires SameWindow(a, r, b, c, L)
    ensures ValidAlignment(a, b, K, pp, u + Run(r, c, L))
  {
    RunShape(a, b, r, c, L);
    JoinValid(a, b, K, pp, u, Run(r, c, L));
  }

  /** One step of the diagonal scan that yields a positive value. */
  lemma DiagStep(a: Str, b: Str, K: nat, pp: bool, i: nat, j: nat, t: nat)
    requires 1 <= t && i <= |a| && j <= |b| && Diag(a, b, K, pp, i, j, t) > 0
    ensures t <= Min3(i, j, 2 * K) && a[i - t] == b[j - t]
    ensures Diag(a, b, K, pp, i, j, t) == Max(Cand(a, b, K, pp, i, j, t), Diag(a, b, K, pp, i, j, t + 1))
  {
  }

  /** a[i-u] == b[j-u] for every u from s to t: the scan passed those lengths. */
  predicate Scanned(a: Str, b: Str, i: nat, j: nat, s: nat, t: nat)
    requires 1 <= s && t <= i <= |a| && t <= j <= |b|
    decreases t + 1 - s
  {
    s > t || (a[i - s] == b[j - s] && Scanned(a, b, i, j, s + 1, t))
  }

  /** A scan that passed the lengths 1 to t found a common suffix of length t. */
  lemma {:induction false} ScannedWindow(a: Str, b: Str, i: nat, j: nat, s: nat, t: nat)
    requires 1 <= s <= t + 1 && t <= i <= |a| && t <= j <= |b| && Scanned(a, b, i, j, s, t)
    ensures SameWindow(a, i - t, b, j - t, t - s + 1)
    decreases t + 1 - s
  {
    if s <= t {
      ScannedWindow(a, b, i, j, s + 1, t);
      WindowExtend(a, b, i - t, j - t, t - s);
    }
  }

  /** A positive diagonal value comes from a usable common suffix of some length t. */
  lemma {:induction false} DiagWitness(a: Str, b: Str, K: nat, pp: bool, i: nat, j: nat, t0: nat) returns (t: nat)
    requires 1 <= t0 && i <= |a| && j <= |b| && Diag(a, b, K, pp, i, j, t0) > 0
    ensures t0 <= t <= Min3(i, j, 2 * K) && Usable(K, pp, t)
    ensures Diag(a, b, K, pp, i, j, t0) == Cand(a, b, K, pp, i, j, t)
    ensures Scanned(a, b, i, j, t0, t)
    decreases 2 * K + 1 - t0
  {
    DiagStep(a, b, K, pp, i, j, t0);
    if Usable(K, pp, t0) && Diag(a, b, K, pp, i, j, t0) == Cand(a, b, K, pp, i, j, t0) {
      t := t0;
      assert Scanned(a, b, i, j, t0 + 1, t);
    } else {
      t := DiagWitness(a, b, K, pp, i, j, t0 + 1);
    }
  }

  /** Where a positive cell's value comes from: the cell above, the cell to the left, or a block. */
  lemma DpCases(a: Str, b: Str, K: nat, pp: bool, i: nat, j: nat) returns (from: int, t: nat)
    requires 1 <= i <= |a| && 1 <= j <= |b|
    ensures from == 0 ==> Dp(a, b, K, pp, i, j) == Dp(a, b, K, pp, i - 1, j)
    ensures from == 1 ==> Dp(a, b, K, pp, i, j) == Dp(a, b, K, pp, i, j - 1)
    ensures from == 2 ==> 1 <= t <= i && t <= j && Usable(K, pp, t)
                          && Dp(a, b, K, pp, i, j) == Dp(a, b, K, pp, i - t, j - t) + t
                          && Scanned(a, b, i, j, 1, t)
    ensures 0 <= from <= 2
  {
    t := 0;
    if Dp(a, b, K, pp, i, j) == Dp(a, b, K, pp, i - 1, j) {
      from := 0;
    } else if Dp(a, b, K, pp, i, j) == Dp(a, b, K, pp, i, j - 1) {
      from := 1;
    } else {
      from := 2;
      assert Dp(a, b, K, pp, i, j) == Diag(a, b, K, pp, i, j, 1) > 0;
      t := DiagWitness(a, b, K, pp, i, j, 1);
      assert Cand(a, b, K, pp, i, j, t) == Dp(a, b, K, pp, i - t, j - t) + t;
    }
  }

  /**
   * Every table value is the length of a valid alignment of a[..i] and b[..j] (its
   * pairs increase, so bounding the last pair bounds them all).
   */
  lemma {:induction false} DpWitness(a: Str, b: Str, K: nat, pp: bool, i: nat, j: nat) returns (w: seq<Pos>)
    requires K >= 1 && i <= |a| && j <= |b|
    ensures ValidAlignment(a, b, K, pp, w) && |w| == Dp(a, b, K, pp, i, j)
    ensures |w| > 0 ==> w[|w| - 1].0 < i && w[|w| - 1].1 < j
    decreases i + j, 1
  {
    if i == 0 || j == 0 {
      w := [];
      EmptyValid(a, b, K, pp);
    } else {
      var from, t := DpCases(a, b, K, pp, i, j);
      if from == 0 {
        w := DpWitness(a, b, K, pp, i - 1, j);
      } else if from == 1 {
        w := DpWitness(a, b, K, pp, i, j - 1);
      } else {
        w := BlockWitness(a, b, K, pp, i, j, t);
      }
    }
  }

  /** The block case of DpWitness: an alignment of the cell before the block, then the block. */
  lemma {:induction false} BlockWitness(a: Str, b: Str, K: nat, pp: bool, i: nat, j: nat, t: nat) returns (w: seq<Pos>)
    requires K >= 1 && 1 <= t <= i <= |a| && t <= j <= |b| && Usable(K, pp, t)
    requires Scanned(a, b, i, j, 1, t)
    ensures ValidAlignment(a, b, K, pp, w) && |w| == Dp(a, b, K, pp, i - t, j - t) + t
    ensures |w| > 0 ==> w[|w| - 1].0 < i && w[|w| - 1].1 < j
    decreases i + j, 0
  {
    var u := DpWitness(a, b, K, pp, i - t, j - t);
    RunLast(u, i - t, j - t, t);
    AppendScanned(a, b, K, pp, u, i, j, t);
    w := u + Run(i - t, j - t, t);
  }

  /** AppendRun for the block a diagonal scan passed. */
  lemma AppendScanned(a: Str, b: Str, K: nat, pp: bool, u: seq<Pos>, i: nat, j: nat, t: nat)
    requires K >= 1 && 1 <= t <= i <= |a| && t <= j <= |b| && Usable(K, pp, t)
    requires ValidAlignment(a, b, K, pp, u) && (|u| > 0 ==> u[|u| - 1].0 < i - t && u[|u| - 1].1 < j - t)
    requires Scanned(a, b, i, j, 1, t)
    ensures ValidAlignment(a, b, K, pp, u + Run(i - t, j - t, t))
  {
    ScannedWindow(a, b, i, j, 1, t);
    AppendRun(a, b, K, pp, u, i - t, j - t, t);
  }

  lemma RunLast(u: seq<Pos>, r: int, c: int, L: nat)
    requires L >= 1
    ensures |u + Run(r, c, L)| == |u| + L
    ensures (u + Run(r, c, L))[|u| + L - 1] == (r + L - 1, c + L - 1)
  {
  }

  /**
   * `LcskSlow` (lines 321-324): the LCSk length; at most min(|a|, |b|), a whole
   * number of K-blocks, and the length of some valid LCSk alignment.
   */
  method LcskSlow(a: Str, b: Str, K: nat) returns (len: int)
    requires K >= 1
    ensures len == Dp(a, b, K, false, |a|, |b|)
    ensures 0 <= len <= Min(|a|, |b|) && len % K == 0
    ensures exists w :: ValidAlignment(a, b, K, false, w) && |w| == len
  {
    len := LcskSlowImpl(a, b, K, false);
    DpMultiple(a, b, K, |a|, |b|);
    MultipleOfMod(len, K);
    var w := DpWitness(a, b, K, false, |a|, |b|);
  }

  /** `LcskppSlow` (lines 326-329): the LCSk++ length, with the same guarantees but the multiple. */
  method LcskppSlow(a: Str, b: Str, K: nat) returns (len: int)
    requires K >= 1
    ensures len == Dp(a, b, K, true, |a|, |b|)
    ensures 0 <= len <= Min(|a|, |b|)
    ensures exists w :: ValidAlignment(a, b, K, true, w) && |w| == len
  {
    len := LcskSlowImpl(a, b, K, true);
    var w := DpWitness(a, b, K, true, |a|, |b|);
  }
}
