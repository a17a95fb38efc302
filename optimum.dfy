/**
 * The value the sparse algorithms compute, defined independently of both: the best
 * dp value of a chain of k-matches in which each match follows a whole match that
 * ends before it starts in both strings, or, for LCSk++, sits one diagonal step after
 * a k-match.
 */
module Optimum {
  import opened Text
  import opened Alignment

  /**
   * The score of the k-match at (i, j): the larger of its whole-match value (Whole)
   * and, for LCSk++, one more than the score of the k-match one diagonal step back.
   */
  function Score(a: Str, b: Str, k: nat, pp: bool, i: int, j: int): (s: nat)
    requires k >= 1
    ensures s >= k
    decreases if i > 0 then i else 0, 2, 0
  {
    var whole := Whole(a, b, k, pp, i, j);
    var cont := if pp && SameWindow(a, i - 1, b, j - 1, k) then Score(a, b, k, pp, i - 1, j - 1) + 1 else 0;
    if whole >= cont then whole else cont
  }

  /** k more than the best score of a k-match ending before (i, j) in both strings. */
  function Whole(a: Str, b: Str, k: nat, pp: bool, i: int, j: int): (w: nat)
    requires k >= 1
    ensures w >= k
    decreases if i > 0 then i else 0, 1, 0
  {
    k + Before(a, b, k, pp, i - k + 1, j - k + 1)
  }

  /** The best score of a k-match at (i', j') with i' < x and j' < y, or 0 when there is none. */
  function Before(a: Str, b: Str, k: nat, pp: bool, x: int, y: int): nat
    requires k >= 1
    decreases if x > 0 then x else 0, 0, if y > 0 then y else 0
  {
    if x <= 0 || y <= 0 then 0
    else
      var above, here := Before(a, b, k, pp, x - 1, y), RowBefore(a, b, k, pp, x - 1, y);
      if above >= here then above else here
  }

  /** The best score of a k-match at (i, j') with j' < y, or 0 when there is none. */
  function RowBefore(a: Str, b: Str, k: nat, pp: bool, i: nat, y: int): nat
    requires k >= 1
    decreases i, 3, if y > 0 then y else 0
  {
    if y <= 0 then 0
    else
      var left := RowBefore(a, b, k, pp, i, y - 1);
      var here := if SameWindow(a, i, b, y - 1, k) then Score(a, b, k, pp, i, y - 1) else 0;
      if left >= here then left else here
  }

  /** The best score over all k-matches of a and b, or 0 when they share no k-window. */
  function Best(a: Str, b: Str, k: nat, pp: bool): nat
    requires k >= 1
  {
    Before(a, b, k, pp, |a|, |b|)
  }

  /** Before bounds the score of every k-match in its range. */
  lemma {:induction false} BeforeUpper(a: Str, b: Str, k: nat, pp: bool, x: int, y: int, i: int, j: int)
    requires k >= 1 && 0 <= i < x && 0 <= j < y && SameWindow(a, i, b, j, k)
    ensures Score(a, b, k, pp, i, j) <= Before(a, b, k, pp, x, y)
    decreases x
  {
    if i < x - 1 {
      BeforeUpper(a, b, k, pp, x - 1, y, i, j);
    } else {
      RowBeforeUpper(a, b, k, pp, i, y, j);
    }
  }

  lemma {:induction false} RowBeforeUpper(a: Str, b: Str, k: nat, pp: bool, i: nat, y: int, j: int)
    requires k >= 1 && 0 <= j < y && SameWindow(a, i, b, j, k)
    ensures Score(a, b, k, pp, i, j) <= RowBefore(a, b, k, pp, i, y)
    decreases y
  {
    if j < y - 1 {
      RowBeforeUpper(a, b, k, pp, i, y - 1, j);
    }
  }

  /** A positive Before is the score of some k-match in its range. */
  lemma {:induction false} BeforeWitness(a: Str, b: Str, k: nat, pp: bool, x: int, y: int) returns (i: int, j: int)
    requires k >= 1
    ensures Before(a, b, k, pp, x, y) > 0 ==>
      0 <= i < x && 0 <= j < y && SameWindow(a, i, b, j, k) && Score(a, b, k, pp, i, j) == Before(a, b, k, pp, x, y)
    decreases x
  {
    if x <= 0 || y <= 0 {
      return 0, 0;
    }
    if Before(a, b, k, pp, x - 1, y) >= RowBefore(a, b, k, pp, x - 1, y) {
      i, j := BeforeWitness(a, b, k, pp, x - 1, y);
    } else {
      i := x - 1;
      j := RowBeforeWitness(a, b, k, pp, x - 1, y);
    }
  }

  lemma {:induction false} RowBeforeWitness(a: Str, b: Str, k: nat, pp: bool, i: nat, y: int) returns (j: int)
    requires k >= 1
    ensures RowBefore(a, b, k, pp, i, y) > 0 ==>
      0 <= j < y && SameWindow(a, i, b, j, k) && Score(a, b, k, pp, i, j) == RowBefore(a, b, k, pp, i, y)
    decreases y
  {
    if y <= 0 {
      return 0;
    }
    if RowBefore(a, b, k, pp, i, y - 1) >= (if SameWindow(a, i, b, y - 1, k) then Score(a, b, k, pp, i, y - 1) else 0) {
      j := RowBeforeWitness(a, b, k, pp, i, y - 1);
    } else {
      j := y - 1;
    }
  }

  /** The best score is 0 exactly when a and b share no k-window. */
  lemma BestZero(a: Str, b: Str, k: nat, pp: bool)
    requires k >= 1
    ensures Best(a, b, k, pp) == 0 <==> forall i, j :: !SameWindow(a, i, b, j, k)
  {
    var i, j := BeforeWitness(a, b, k, pp, |a|, |b|);
    forall i', j' | SameWindow(a, i', b, j', k) ensures Best(a, b, k, pp) > 0 {
      BeforeUpper(a, b, k, pp, |a|, |b|, i', j');
    }
  }

  /** The best score bounds the score of every k-match. */
  lemma BestUpper(a: Str, b: Str, k: nat, pp: bool, i: int, j: int)
    requires k >= 1 && SameWindow(a, i, b, j, k)
    ensures Score(a, b, k, pp, i, j) <= Best(a, b, k, pp)
  {
    BeforeUpper(a, b, k, pp, |a|, |b|, i, j);
  }

  /** Without continuations every score is a whole number of k-matches. */
  lemma {:induction false} ScoreMultiple(a: Str, b: Str, k: nat, i: int, j: int)
    requires k >= 1
    ensures MultipleOf(Score(a, b, k, false, i, j), k)
    decreases if i > 0 then i else 0
  {
    var m := Before(a, b, k, false, i - k + 1, j - k + 1);
    var i', j' := BeforeWitness(a, b, k, false, i - k + 1, j - k + 1);
    if m > 0 {
      ScoreMultiple(a, b, k, i', j');
    }
    assert Score(a, b, k, false, i, j) == k + m;
    assert MultipleOf(k + m, k) by { assert k + m - k == m; }
  }

  /** A positive multiple of k is k times its quotient, which is at least 1. */
  lemma MultipleQuotient(d: int, k: nat)
    requires k >= 1 && d >= k && MultipleOf(d, k)
    ensures d == k * (d / k) && d / k >= 1
  {
    MultipleOfMod(d, k);
  }
}
