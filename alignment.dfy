/**
 * What an LCSk / LCSk++ reconstruction is: a list of matched index pairs, strictly
 * increasing in both strings, whose maximal runs of consecutive indices have length
 * a multiple of k (LCSk) or at least k (LCSk++); and the reconstruction of such a
 * list from a chain of `MatchPair`s.
 */
module Alignment {
  import opened Text
  import opened MatchPairs
  import opened Hashing

  function Last<T>(s: seq<T>): T
    requires |s| > 0
  {
    s[|s| - 1]
  }

  function Firsts(r: seq<Pos>): (xs: seq<int>)
    ensures |xs| == |r| && forall x :: 0 <= x < |r| ==> xs[x] == r[x].0
  {
    seq(|r|, x requires 0 <= x < |r| => r[x].0)
  }

  function Seconds(r: seq<Pos>): (ys: seq<int>)
    ensures |ys| == |r| && forall x :: 0 <= x < |r| ==> ys[x] == r[x].1
  {
    seq(|r|, x requires 0 <= x < |r| => r[x].1)
  }

  lemma ProjectAppend(u: seq<Pos>, v: seq<Pos>)
    ensures Firsts(u + v) == Firsts(u) + Firsts(v)
    ensures Seconds(u + v) == Seconds(u) + Seconds(v)
  {
    assert Firsts(u + v) == Firsts(u) + Firsts(v);
    assert Seconds(u + v) == Seconds(u) + Seconds(v);
  }

  predicate Consecutive(xs: seq<int>)
  {
    forall x :: 0 < x < |xs| ==> xs[x - 1] + 1 == xs[x]
  }

  /** The lengths of the maximal runs of consecutive values in xs, from left to right. */
  function Runs(xs: seq<int>): (r: seq<int>)
    ensures |r| > 0 <==> |xs| > 0
  {
    RunsOf(xs, |xs|)
  }

  /** The runs of the first n values of xs. */
  function RunsOf(xs: seq<int>, n: nat): (r: seq<int>)
    requires n <= |xs|
    ensures |r| > 0 <==> n > 0
  {
    if n == 0 then []
    else AddRun(RunsOf(xs, n - 1), 1, n >= 2 && xs[n - 2] + 1 == xs[n - 1])
  }

  /** Sequences that agree on their first n values have the same runs there. */
  lemma {:induction false} RunsOfAgree(xs: seq<int>, ys: seq<int>, n: nat)
    requires n <= |xs| && n <= |ys|
    requires forall i :: 0 <= i < n ==> xs[i] == ys[i]
    ensures RunsOf(xs, n) == RunsOf(ys, n)
  {
    if n > 0 {
      RunsOfAgree(xs, ys, n - 1);
    }
  }

  /** L more values: they lengthen the last run when they continue it, else form a run. */
  function AddRun(R: seq<int>, L: int, continues: bool): (r: seq<int>)
    ensures |r| > 0
  {
    if continues && |R| > 0 then R[..|R| - 1] + [R[|R| - 1] + L] else R + [L]
  }

  lemma AddRunGrow(R: seq<int>, L: int, continues: bool)
    ensures AddRun(AddRun(R, L, continues), 1, true) == AddRun(R, L + 1, continues)
  {
    var R' := AddRun(R, L, continues);
    if continues && |R| > 0 {
      assert R'[..|R'| - 1] == R[..|R| - 1];
    } else {
      assert R'[..|R'| - 1] == R;
    }
  }

  lemma AddRunConcat(P: seq<int>, Q: seq<int>, L: int, continues: bool)
    requires |Q| > 0
    ensures AddRun(P + Q, L, continues) == P + AddRun(Q, L, continues)
  {
    if continues {
      assert (P + Q)[..|P + Q| - 1] == P + Q[..|Q| - 1];
    }
  }

  /** Runs of xs followed by one more value. */
  lemma RunsSnoc(xs: seq<int>, y: int)
    ensures Runs(xs + [y]) == AddRun(Runs(xs), 1, |xs| > 0 && xs[|xs| - 1] + 1 == y)
  {
    var zs := xs + [y];
    RunsOfAgree(zs, xs, |xs|);
    assert |zs| >= 2 ==> zs[|zs| - 2] == xs[|xs| - 1];
  }

  /** Appending a consecutive block either lengthens the last run or adds a run. */
  lemma {:induction false} RunsAppendBlock(xs: seq<int>, ys: seq<int>)
    requires |ys| >= 1 && Consecutive(ys)
    ensures Runs(xs + ys) == AddRun(Runs(xs), |ys|, |xs| > 0 && xs[|xs| - 1] + 1 == ys[0])
  {
    if |ys| == 1 {
      assert ys == [ys[0]];
      RunsSnoc(xs, ys[0]);
    } else {
      var ys', y := ys[..|ys| - 1], ys[|ys| - 1];
      var c := |xs| > 0 && xs[|xs| - 1] + 1 == ys[0];
      BlockSplit(xs, ys);
      RunsAppendBlock(xs, ys');
      RunsSnoc(xs + ys', y);
      AddRunGrow(Runs(xs), |ys'|, c);
    }
  }

  /** A consecutive block minus its last value, and how the two sides meet. */
  lemma BlockSplit(xs: seq<int>, ys: seq<int>)
    requires |ys| >= 2 && Consecutive(ys)
    ensures var ys', y := ys[..|ys| - 1], ys[|ys| - 1];
      && |ys'| >= 1 && Consecutive(ys') && ys'[0] == ys[0]
      && xs + ys == (xs + ys') + [y]
      && (xs + ys')[|xs + ys'| - 1] + 1 == y
  {
    var ys', y := ys[..|ys| - 1], ys[|ys| - 1];
    assert Consecutive(ys') by {
      forall x | 0 < x < |ys'| ensures ys'[x - 1] + 1 == ys'[x] { assert ys'[x] == ys[x] && ys'[x - 1] == ys[x - 1]; }
    }
    var zs := xs + ys';
    assert xs + ys == zs + [y];
    assert zs[|zs| - 1] == ys[|ys| - 2];
  }

  /** Where consecutive values break, the runs of the two sides are simply joined. */
  lemma {:induction false} RunsAppendBreak(xs: seq<int>, ys: seq<int>)
    requires |xs| >= 1 && |ys| >= 1 && xs[|xs| - 1] + 1 != ys[0]
    ensures Runs(xs + ys) == Runs(xs) + Runs(ys)
  {
    if |ys| == 1 {
      assert ys == [ys[0]];
      RunsSnoc(xs, ys[0]);
      assert Runs(ys) == [1];
    } else {
      var ys', y := ys[..|ys| - 1], ys[|ys| - 1];
      RunsAppendBreak(xs, ys');
      BreakStep(xs, ys', y);
      assert ys' + [y] == ys;
    }
  }

  lemma BreakStep(xs: seq<int>, ys': seq<int>, y: int)
    requires |ys'| >= 1 && Runs(xs + ys') == Runs(xs) + Runs(ys')
    ensures Runs(xs + (ys' + [y])) == Runs(xs) + Runs(ys' + [y])
  {
    var R, Q, c := Runs(xs), Runs(ys'), ys'[|ys'| - 1] + 1 == y;
    calc {
      Runs(xs + (ys' + [y]));
      { assert xs + (ys' + [y]) == (xs + ys') + [y]; }
      Runs((xs + ys') + [y]);
      { RunsSnoc(xs + ys', y); assert (xs + ys')[|xs + ys'| - 1] == ys'[|ys'| - 1]; }
      AddRun(R + Q, 1, c);
      { AddRunConcat(R, Q, 1, c); }
      R + AddRun(Q, 1, c);
      { RunsSnoc(ys', y); }
      R + Runs(ys' + [y]);
    }
  }

  /** n is a multiple of k, stated without division. */
  predicate MultipleOf(n: int, k: nat)
    requires k >= 1
    decreases n
  {
    n == 0 || (n >= k && MultipleOf(n - k, k))
  }

  /** MultipleOf is the `n % k == 0` test of the source, for n >= 0. */
  lemma {:induction false} MultipleOfMod(n: nat, k: nat)
    requires k >= 1
    ensures MultipleOf(n, k) <==> n % k == 0
    decreases n
  {
    if n >= k {
      MultipleOfMod(n - k, k);
      var q, r := n / k, n % k;
      assert n == q * k + r;
      assert n - k == (q - 1) * k + r;
      DivModUnique(q - 1, k, r);
    } else {
      DivModUnique(0, k, n);
    }
  }

  /** A run length accepted for LCSk (a multiple of k) or LCSk++ (at least k). */
  predicate GoodRun(n: int, k: nat, pp: bool)
    requires k >= 1
  {
    if pp then n >= k else MultipleOf(n, k)
  }

  predicate AllGood(R: seq<int>, k: nat, pp: bool)
    requires k >= 1
  {
    forall t :: 0 <= t < |R| ==> GoodRun(R[t], k, pp)
  }

  /** Every pair is inside both strings and its two characters are equal. */
  predicate Matched(a: Str, b: Str, r: seq<Pos>)
  {
    forall x :: 0 <= x < |r| ==> 0 <= r[x].0 < |a| && 0 <= r[x].1 < |b| && a[r[x].0] == b[r[x].1]
  }

  predicate Increasing(r: seq<Pos>)
  {
    forall x :: 0 < x < |r| ==> r[x - 1].0 < r[x].0 && r[x - 1].1 < r[x].1
  }

  /** A valid LCSk (pp false) or LCSk++ (pp true) reconstruction of a and b. */
  predicate ValidAlignment(a: Str, b: Str, k: nat, pp: bool, r: seq<Pos>)
    requires k >= 1
  {
    && Matched(a, b, r)
    && Increasing(r)
    && AllGood(Runs(Firsts(r)), k, pp)
    && AllGood(Runs(Seconds(r)), k, pp)
  }

  /** The x-th pair of an increasing list of pairs inside both strings is at least (x, x). */
  lemma {:induction false} IncreasingFloor(r: seq<Pos>)
    requires Increasing(r) && |r| > 0 && r[0].0 >= 0 && r[0].1 >= 0
    ensures r[|r| - 1].0 >= |r| - 1 && r[|r| - 1].1 >= |r| - 1
  {
    if |r| > 1 {
      IncreasingFloor(r[..|r| - 1]);
    }
  }

  /** A valid reconstruction is no longer than either string. */
  lemma AlignmentLength(a: Str, b: Str, k: nat, pp: bool, r: seq<Pos>)
    requires k >= 1 && ValidAlignment(a, b, k, pp, r)
    ensures |r| <= |a| && |r| <= |b|
  {
    if |r| > 0 {
      IncreasingFloor(r);
    }
  }

  /** q's match ends at least k before p's in both strings: p's match can follow q's whole. */
  predicate FullyBefore(q: MatchPair, p: MatchPair, k: nat)
  {
    q.endRow + k <= p.endRow && q.endCol + k <= p.endCol
  }

  /** p's match ends one step after q's on the same diagonal (an LCSk++ continuation). */
  predicate Diagonal(q: MatchPair, p: MatchPair)
  {
    q.endRow + 1 == p.endRow && q.endCol + 1 == p.endCol
  }

  /** The k pairs of the match ending at (r, c), in ascending order. */
  function Block(r: int, c: int, k: nat): (s: seq<Pos>)
    ensures |s| == k
    ensures forall x :: 0 <= x < k ==> s[x] == (r - k + 1 + x, c - k + 1 + x)
  {
    seq(k, x => (r - k + 1 + x, c - k + 1 + x))
  }

  /** What p adds to the reconstruction: its whole match, or only its last pair for a continuation. */
  function Piece(k: nat, p: MatchPair): seq<Pos>
  {
    if p.prev == Null || FullyBefore(p.prev.to, p, k) then Block(p.endRow, p.endCol, k)
    else [(p.endRow, p.endCol)]
  }

  /** The reconstruction of a chain, in ascending order. */
  function ReconAsc(k: nat, chain: Prev): seq<Pos>
  {
    match chain
    case Null => []
    case Link(p) => ReconAsc(k, p.prev) + Piece(k, p)
  }

  /**
   * p sits on a real k-match, and its links are what the two algorithms create: a
   * first match with dp k, a match after a match that ended before it (dp + k), or,
   * for LCSk++ only, a one-step diagonal continuation (dp + 1).
   */
  predicate WellLinked(a: Str, b: Str, k: nat, pp: bool, p: MatchPair)
  {
    && SameWindow(a, p.endRow - k + 1, b, p.endCol - k + 1, k)
    && match p.prev
       case Null => p.dp == k
       case Link(q) =>
         && WellLinked(a, b, k, pp, q)
         && ((FullyBefore(q, p, k) && p.dp == q.dp + k) || (pp && Diagonal(q, p) && p.dp == q.dp + 1))
  }

  /** Appending a run-shaped block to a valid reconstruction keeps the runs good. */
  lemma RunsJoin(xs: seq<int>, ys: seq<int>, k: nat, pp: bool)
    requires k >= 1 && AllGood(Runs(xs), k, pp)
    requires |ys| >= 1 && Consecutive(ys)
    requires |ys| == k || (pp && |ys| >= k) || (pp && |ys| == 1 && |xs| > 0 && xs[|xs| - 1] + 1 == ys[0])
    ensures AllGood(Runs(xs + ys), k, pp)
  {
    RunsAppendBlock(xs, ys);
    AddRunGood(Runs(xs), |ys|, |xs| > 0 && xs[|xs| - 1] + 1 == ys[0], k, pp);
  }

  lemma AddRunGood(R: seq<int>, L: int, continues: bool, k: nat, pp: bool)
    requires k >= 1 && AllGood(R, k, pp)
    requires L == k || (pp && L >= k) || (pp && L == 1 && continues && |R| > 0)
    ensures AllGood(AddRun(R, L, continues), k, pp)
  {
    var R' := AddRun(R, L, continues);
    if continues && |R| > 0 {
      var last := R[|R| - 1];
      assert GoodRun(last, k, pp);
      if !pp {
        assert MultipleOf(last + k, k) by { assert last + k - k == last; }
      }
      forall t | 0 <= t < |R'| ensures GoodRun(R'[t], k, pp) {
        if t < |R| - 1 { assert R'[t] == R[t]; }
      }
    } else {
      if !pp {
        assert MultipleOf(k, k) by { assert k - k == 0; }
      }
      forall t | 0 <= t < |R'| ensures GoodRun(R'[t], k, pp) {
        if t < |R| { assert R'[t] == R[t]; }
      }
    }
  }

  /** The window of a well-linked pair is a block of matched, consecutive pairs. */
  lemma BlockOfWindow(a: Str, b: Str, k: nat, p: MatchPair)
    requires k >= 1 && SameWindow(a, p.endRow - k + 1, b, p.endCol - k + 1, k)
    ensures var v := Block(p.endRow, p.endCol, k);
      Matched(a, b, v) && Increasing(v) && Consecutive(Firsts(v)) && Consecutive(Seconds(v))
  {
    var i, j := p.endRow - k + 1, p.endCol - k + 1;
    var v := Block(p.endRow, p.endCol, k);
    forall x | 0 <= x < k ensures a[v[x].0] == b[v[x].1] {
      assert a[i..i + k][x] == b[j..j + k][x];
    }
  }

  /** A valid reconstruction followed by a block that continues it properly is valid. */
  lemma JoinValid(a: Str, b: Str, k: nat, pp: bool, u: seq<Pos>, v: seq<Pos>)
    requires k >= 1 && ValidAlignment(a, b, k, pp, u)
    requires Matched(a, b, v) && Increasing(v) && Consecutive(Firsts(v)) && Consecutive(Seconds(v))
    requires |v| == k || (pp && |v| >= k) || (pp && |v| == 1 && |u| > 0 && u[|u| - 1].0 + 1 == v[0].0 && u[|u| - 1].1 + 1 == v[0].1)
    requires |u| > 0 ==> u[|u| - 1].0 < v[0].0 && u[|u| - 1].1 < v[0].1
    ensures ValidAlignment(a, b, k, pp, u + v)
  {
    ProjectAppend(u, v);
    RunsJoin(Firsts(u), Firsts(v), k, pp);
    RunsJoin(Seconds(u), Seconds(v), k, pp);
    JoinIncreasing(u, v);
    JoinMatched(a, b, u, v);
  }

  lemma JoinIncreasing(u: seq<Pos>, v: seq<Pos>)
    requires Increasing(u) && Increasing(v)
    requires |u| > 0 && |v| > 0 ==> u[|u| - 1].0 < v[0].0 && u[|u| - 1].1 < v[0].1
    ensures Increasing(u + v)
  {
    var r := u + v;
    forall x | 0 < x < |r| ensures r[x - 1].0 < r[x].0 && r[x - 1].1 < r[x].1 {
      if x < |u| {
        assert r[x - 1] == u[x - 1] && r[x] == u[x];
      } else if x == |u| {
        assert r[x - 1] == u[|u| - 1] && r[x] == v[0];
      } else {
        assert r[x - 1] == v[x - 1 - |u|] && r[x] == v[x - |u|];
      }
    }
  }

  lemma JoinMatched(a: Str, b: Str, u: seq<Pos>, v: seq<Pos>)
    requires Matched(a, b, u) && Matched(a, b, v)
    ensures Matched(a, b, u + v)
  {
    var r := u + v;
    forall x | 0 <= x < |r| ensures 0 <= r[x].0 < |a| && 0 <= r[x].1 < |b| && a[r[x].0] == b[r[x].1] {
      if x < |u| { assert r[x] == u[x]; } else { assert r[x] == v[x - |u|]; }
    }
  }

  /**
   * The reconstruction of a well-linked pair is a valid alignment of length dp that
   * ends at the pair's end.
   */
  lemma {:induction false} ReconIsValid(a: Str, b: Str, k: nat, pp: bool, p: MatchPair)
    requires k >= 1 && WellLinked(a, b, k, pp, p)
    ensures |ReconAsc(k, Link(p))| == p.dp
    ensures ReconAsc(k, Link(p)) != [] && Last(ReconAsc(k, Link(p))) == (p.endRow, p.endCol)
    ensures ValidAlignment(a, b, k, pp, ReconAsc(k, Link(p)))
  {
    match p.prev
    case Null =>
      ReconStep(a, b, k, pp, p);
    case Link(q) =>
      ReconIsValid(a, b, k, pp, q);
      ReconStep(a, b, k, pp, p);
  }

  /** One link of ReconIsValid: the pair's piece extends its predecessor's reconstruction. */
  lemma ReconStep(a: Str, b: Str, k: nat, pp: bool, p: MatchPair)
    requires k >= 1 && WellLinked(a, b, k, pp, p)
    requires p.prev != Null ==> var q := p.prev.to;
      && |ReconAsc(k, p.prev)| == q.dp
      && ReconAsc(k, p.prev) != [] && Last(ReconAsc(k, p.prev)) == (q.endRow, q.endCol)
      && ValidAlignment(a, b, k, pp, ReconAsc(k, p.prev))
    ensures |ReconAsc(k, Link(p))| == p.dp
    ensures ReconAsc(k, Link(p)) != [] && Last(ReconAsc(k, Link(p))) == (p.endRow, p.endCol)
    ensures ValidAlignment(a, b, k, pp, ReconAsc(k, Link(p)))
  {
    var u, v := ReconAsc(k, p.prev), Piece(k, p);
    assert ReconAsc(k, Link(p)) == u + v;
    PieceFacts(a, b, k, pp, p);
    if p.prev == Null {
      assert u == [];
      EmptyValid(a, b, k, pp);
    }
    assert Last(u + v) == Last(v);
    JoinValid(a, b, k, pp, u, v);
  }

  lemma EmptyValid(a: Str, b: Str, k: nat, pp: bool)
    requires k >= 1
    ensures ValidAlignment(a, b, k, pp, [])
  {
    assert Firsts([]) == [] && Seconds([]) == [];
  }

  /** The piece of a well-linked pair: a proper block that follows its predecessor's end. */
  lemma PieceFacts(a: Str, b: Str, k: nat, pp: bool, p: MatchPair)
    requires k >= 1 && WellLinked(a, b, k, pp, p)
    ensures var v := Piece(k, p);
      && |v| >= 1 && Last(v) == (p.endRow, p.endCol)
      && Matched(a, b, v) && Increasing(v) && Consecutive(Firsts(v)) && Consecutive(Seconds(v))
      && (p.prev == Null ==> |v| == k && p.dp == k)
      && (p.prev != Null ==> var q := p.prev.to;
           && p.dp == q.dp + |v|
           && q.endRow < v[0].0 && q.endCol < v[0].1
           && (|v| == k || (pp && |v| == 1 && q.endRow + 1 == v[0].0 && q.endCol + 1 == v[0].1)))
  {
    if p.prev == Null || FullyBefore(p.prev.to, p, k) {
      BlockPiece(a, b, k, pp, p);
    } else {
      ContinuationPiece(a, b, k, pp, p);
    }
  }

  /** The whole-match case of PieceFacts. */
  lemma BlockPiece(a: Str, b: Str, k: nat, pp: bool, p: MatchPair)
    requires k >= 1 && WellLinked(a, b, k, pp, p)
    requires p.prev == Null || FullyBefore(p.prev.to, p, k)
    ensures var v := Block(p.endRow, p.endCol, k);
      && Piece(k, p) == v && |v| == k && Last(v) == (p.endRow, p.endCol)
      && Matched(a, b, v) && Increasing(v) && Consecutive(Firsts(v)) && Consecutive(Seconds(v))
      && v[0] == (p.endRow - k + 1, p.endCol - k + 1)
      && (p.prev == Null ==> p.dp == k)
      && (p.prev != Null ==> p.dp == p.prev.to.dp + k)
  {
    BlockOfWindow(a, b, k, p);
    var v := Block(p.endRow, p.endCol, k);
    assert v[k - 1] == (p.endRow, p.endCol);
  }

  lemma ContinuationPiece(a: Str, b: Str, k: nat, pp: bool, p: MatchPair)
    requires k >= 1 && WellLinked(a, b, k, pp, p)
    requires p.prev != Null && !FullyBefore(p.prev.to, p, k)
    ensures var v := Piece(k, p);
      && v == [(p.endRow, p.endCol)]
      && Matched(a, b, v) && Increasing(v) && Consecutive(Firsts(v)) && Consecutive(Seconds(v))
      && pp && Diagonal(p.prev.to, p) && p.dp == p.prev.to.dp + 1
  {
    var v := Piece(k, p);
    assert v == [(p.endRow, p.endCol)];
    assert Firsts(v) == [p.endRow] && Seconds(v) == [p.endCol];
    var i, j := p.endRow - k + 1, p.endCol - k + 1;
    assert a[i..i + k][k - 1] == b[j..j + k][k - 1];
  }

  /**
   * The diagonal key of a pair of an alignment of a (0 <= p.0 < n + 1 with n = |a|):
   * its diagonal p.0 - p.1 scaled by n + 1, plus its row. Along a diagonal the key
   * grows by one per step, and between two rows of increasing pairs it grows by exactly
   * one only for a diagonal step (DiagKeyStep), so the runs of the keys are the
   * maximal diagonal stretches of the alignment.
   */
  function DiagKey(n: nat, p: Pos): int
  {
    (p.0 - p.1) * (n + 1) + p.0
  }

  function DiagKeys(n: nat, r: seq<Pos>): (ks: seq<int>)
    ensures |ks| == |r|
    ensures forall x :: 0 <= x < |r| ==> ks[x] == DiagKey(n, r[x])
  {
    seq(|r|, x requires 0 <= x < |r| => DiagKey(n, r[x]))
  }

  /**
   * A valid reconstruction that is also made of whole diagonal blocks: every maximal
   * diagonal stretch has a good length (a multiple of k for LCSk, at least k for
   * LCSk++), as the union of k-matches the two algorithms chain together is.
   */
  predicate BlockAlignment(a: Str, b: Str, k: nat, pp: bool, r: seq<Pos>)
    requires k >= 1
  {
    && ValidAlignment(a, b, k, pp, r)
    && AllGood(Runs(DiagKeys(|a|, r)), k, pp)
  }

  /** Between rows p.0 < q.0 <= n, the key steps by one exactly for a diagonal step. */
  lemma DiagKeyStep(n: nat, p: Pos, q: Pos)
    requires 0 <= p.0 < q.0 <= n
    ensures DiagKey(n, q) == DiagKey(n, p) + 1 <==> q == (p.0 + 1, p.1 + 1)
  {
    var d, e := (q.0 - q.1) - (p.0 - p.1), q.0 - p.0;
    assert DiagKey(n, q) - DiagKey(n, p) == d * (n + 1) + e;
    if d >= 1 {
      assert d * (n + 1) >= n + 1;
    } else if d <= -1 {
      assert d * (n + 1) <= -(n + 1);
    }
  }

  /** One diagonal step raises the key by one. */
  lemma DiagKeyNext(n: nat, p: Pos)
    ensures DiagKey(n, (p.0 + 1, p.1 + 1)) == DiagKey(n, p) + 1
  {
    assert (p.0 + 1) - (p.1 + 1) == p.0 - p.1;
  }

  /** The keys of a block are consecutive. */
  lemma BlockKeys(n: nat, r: int, c: int, k: nat)
    ensures Consecutive(DiagKeys(n, Block(r, c, k)))
  {
    var v := Block(r, c, k);
    forall x | 0 < x < k ensures DiagKey(n, v[x - 1]) + 1 == DiagKey(n, v[x]) {
      DiagKeyNext(n, v[x - 1]);
      assert v[x] == (v[x - 1].0 + 1, v[x - 1].1 + 1);
    }
  }

  lemma DiagKeysAppend(n: nat, u: seq<Pos>, v: seq<Pos>)
    ensures DiagKeys(n, u + v) == DiagKeys(n, u) + DiagKeys(n, v)
  {
    assert forall x :: 0 <= x < |u + v| ==> (u + v)[x] == if x < |u| then u[x] else v[x - |u|];
  }

  /**
   * The reconstruction of a well-linked pair is a block alignment: each pair's piece
   * is a whole block, or one diagonal step that lengthens the block before it.
   */
  lemma {:induction false} ReconIsBlock(a: Str, b: Str, k: nat, pp: bool, p: MatchPair)
    requires k >= 1 && WellLinked(a, b, k, pp, p)
    ensures BlockAlignment(a, b, k, pp, ReconAsc(k, Link(p)))
  {
    ReconIsValid(a, b, k, pp, p);
    match p.prev
    case Null =>
      BlockStep(a, b, k, pp, p);
    case Link(q) =>
      ReconIsBlock(a, b, k, pp, q);
      BlockStep(a, b, k, pp, p);
  }

  /** One link of ReconIsBlock. */
  lemma BlockStep(a: Str, b: Str, k: nat, pp: bool, p: MatchPair)
    requires k >= 1 && WellLinked(a, b, k, pp, p)
    requires p.prev != Null ==> AllGood(Runs(DiagKeys(|a|, ReconAsc(k, p.prev))), k, pp)
    ensures AllGood(Runs(DiagKeys(|a|, ReconAsc(k, Link(p)))), k, pp)
  {
    var u, v := ReconAsc(k, p.prev), Piece(k, p);
    assert ReconAsc(k, Link(p)) == u + v;
    DiagKeysAppend(|a|, u, v);
    if p.prev == Null || FullyBefore(p.prev.to, p, k) {
      BlockPiece(a, b, k, pp, p);
      BlockKeys(|a|, p.endRow, p.endCol, k);
      if p.prev == Null {
        assert DiagKeys(|a|, u) == [];
      }
      RunsJoin(DiagKeys(|a|, u), DiagKeys(|a|, v), k, pp);
    } else {
      ContinuationStep(a, b, k, pp, p);
    }
  }

  /** The continuation case of BlockStep: the new key follows the last one. */
  lemma ContinuationStep(a: Str, b: Str, k: nat, pp: bool, p: MatchPair)
    requires k >= 1 && WellLinked(a, b, k, pp, p)
    requires p.prev != Null && !FullyBefore(p.prev.to, p, k)
    requires AllGood(Runs(DiagKeys(|a|, ReconAsc(k, p.prev))), k, pp)
    ensures AllGood(Runs(DiagKeys(|a|, ReconAsc(k, p.prev) + Piece(k, p))), k, pp)
  {
    var q := p.prev.to;
    var u, v := ReconAsc(k, p.prev), Piece(k, p);
    ContinuationPiece(a, b, k, pp, p);
    ReconIsValid(a, b, k, pp, q);
    var xs, ys := DiagKeys(|a|, u), DiagKeys(|a|, v);
    DiagKeyNext(|a|, (q.endRow, q.endCol));
    assert xs[|xs| - 1] == DiagKey(|a|, Last(u));
    assert ys == [DiagKey(|a|, (p.endRow, p.endCol))];
    DiagKeysAppend(|a|, u, v);
    RunsJoin(xs, ys, k, pp);
  }

  lemma EmptyBlock(a: Str, b: Str, k: nat, pp: bool)
    requires k >= 1
    ensures BlockAlignment(a, b, k, pp, [])
  {
    EmptyValid(a, b, k, pp);
    assert DiagKeys(|a|, []) == [];
  }
}
