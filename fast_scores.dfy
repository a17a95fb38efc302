/**
 * What the fast sweep of fast_simple_lcsk/lcsk.cc computes, in terms of the scores of
 * Optimum: the compressed table is a threshold table (slot s ends at the smallest end
 * column of a k-match whose score reaches s), every pair carries its match's score,
 * and so the last slot holds the best score of all.
 */
module FastScores {
  import opened Text
  import opened MatchPairs
  import opened Events
  import opened MatchMaking
  import opened Alignment
  import opened FastLcsk
  import opened Optimum

  /** P carries the score of the k-match it ends. */
  ghost predicate Scored(a: Str, b: Str, k: nat, pp: bool, P: MatchPair)
    requires k >= 1
  {
    P.dp == Score(a, b, k, pp, P.endRow - k + 1, P.endCol - k + 1)
  }

  /**
   * A k-match at (i, j). The invariants below quantify over k-matches through this
   * name rather than SameWindow itself, so that unfolding a score, which mentions
   * SameWindow one diagonal step back, does not instantiate them again.
   */
  ghost predicate KMatch(a: Str, b: Str, k: nat, i: int, j: int)
  {
    SameWindow(a, i, b, j, k)
  }

  /** The slot of the table a score belongs to: d / k in LCSk, d itself in LCSk++. */
  function Level(k: nat, pp: bool, d: int): int
    requires k >= 1
  {
    if pp then d else d / k
  }

  /** The slot of score d exists and ends no later than column c. */
  predicate Reaches(k: nat, pp: bool, T: seq<MatchPair>, d: int, c: int)
    requires k >= 1
  {
    var s := Level(k, pp, d);
    0 <= s < |T| && T[s].endCol <= c
  }

  /**
   * The table before row `row` is a threshold table: every slot but the sentinel holds
   * a scored pair, and every k-match ending above `row` reaches the slot of its score
   * by its own end column.
   */
  ghost predicate TableScores(a: Str, b: Str, k: nat, pp: bool, row: int, T: seq<MatchPair>)
    requires k >= 1
  {
    && (forall x :: 1 <= x < |T| ==> Scored(a, b, k, pp, T[x]))
    && (forall i, j {:trigger KMatch(a, b, k, i, j)} :: KMatch(a, b, k, i, j) && i + k - 1 < row ==>
          Reaches(k, pp, T, Score(a, b, k, pp, i, j), j + k - 1))
  }

  /** Some event of E is at (r, c). */
  predicate Queued(E: seq<Event>, r: int, c: int)
  {
    exists x :: 0 <= x < |E| && E[x].row == r && E[x].col == c
  }

  /**
   * The end queue once the rows before `next` are queried: every event carries a pair
   * whose dp is the whole-match value of its k-match, and every k-match that starts
   * before `next` and ends on row `lo` or later has its event.
   */
  ghost predicate QueueScores(a: Str, b: Str, k: nat, pp: bool, lo: int, next: int, E: seq<Event>)
    requires k >= 1
  {
    && (forall x :: 0 <= x < |E| ==>
          E[x].pair.Link? && E[x].pair.to.dp == Whole(a, b, k, pp, E[x].row - k + 1, E[x].col - k + 1))
    && (forall i, j {:trigger KMatch(a, b, k, i, j)} :: KMatch(a, b, k, i, j) && lo <= i + k - 1 && i < next ==>
          Queued(E, i + k - 1, j + k - 1))
  }

  /**
   * The previous row's pairs in LCSk++: strictly ascending end columns, each pair
   * scored, and one pair for every k-match that ends on row - 1.
   */
  ghost predicate PrevScores(a: Str, b: Str, k: nat, row: int, R: seq<MatchPair>)
    requires k >= 1
  {
    && StrictlySorted(R)
    && (forall x :: 0 <= x < |R| ==> Scored(a, b, k, true, R[x]))
    && (forall i, j {:trigger KMatch(a, b, k, i, j)} :: KMatch(a, b, k, i, j) && i + k == row ==>
          exists c :: 0 <= c < |R| && R[c].endCol == j + k - 1)
  }

  /** What the sweep keeps about scores before row `row`. */
  ghost predicate ScoresInv(a: Str, b: Str, k: nat, pp: bool, row: int, T: seq<MatchPair>, R: seq<MatchPair>,
                            E: seq<Event>)
    requires k >= 1
  {
    && TableScores(a, b, k, pp, row, T)
    && QueueScores(a, b, k, pp, row, row, E)
    && (pp ==> PrevScores(a, b, k, row, R))
  }

  lemma ScoresStart(a: Str, b: Str, k: nat, pp: bool)
    requires k >= 1
    ensures ScoresInv(a, b, k, pp, 0, [Sentinel()], [], [])
  {
  }

  lemma MulMono(k: nat, u: int, v: int)
    requires u <= v
    ensures k * u <= k * v
  {
    assert k * v == k * u + k * (v - u);
  }

  /**
   * A query on a threshold table, for the k-match at (row, j): the slot before the
   * first one ending at j or later holds the best score of a k-match ending before
   * (row, j) in both strings, so the new pair's dp is the match's whole-match value.
   */
  lemma QueryScore(a: Str, b: Str, k: nat, pp: bool, row: int, T: seq<MatchPair>, j: int)
    requires k >= 1 && TableInv(a, b, k, pp, row, T) && TableScores(a, b, k, pp, row, T)
    requires SameWindow(a, row, b, j, k)
    ensures T[0].endCol < j && QueryPair(k, T, row, j).dp == Whole(a, b, k, pp, row, j)
  {
    QueryPairPending(k, pp, T, row, j);
    QueryAtMost(a, b, k, pp, row, T, j);
    QueryAtLeast(a, b, k, pp, row, T, j);
  }

  /** The slot a query extends scores at most the best before the match. */
  lemma QueryAtMost(a: Str, b: Str, k: nat, pp: bool, row: int, T: seq<MatchPair>, j: int)
    requires k >= 1 && TableInv(a, b, k, pp, row, T) && TableScores(a, b, k, pp, row, T)
    requires T[0].endCol < j
    ensures 0 <= T[FirstAtLeast(T, j) - 1].dp <= Before(a, b, k, pp, row - k + 1, j - k + 1)
  {
    var t := FirstAtLeast(T, j);
    if t - 1 >= 1 {
      assert WellLinked(a, b, k, pp, T[t - 1]) && T[t - 1].endRow < row && Scored(a, b, k, pp, T[t - 1]);
      SlotBelow(a, b, k, pp, row, j, T[t - 1]);
    }
  }

  /** The slot a query extends scores at least the best before the match, when there is one. */
  lemma QueryAtLeast(a: Str, b: Str, k: nat, pp: bool, row: int, T: seq<MatchPair>, j: int)
    requires k >= 1 && TableShape(k, pp, T) && TableScores(a, b, k, pp, row, T)
    requires T[0].endCol < j
    ensures var q := Before(a, b, k, pp, row - k + 1, j - k + 1);
      q > 0 ==> T[FirstAtLeast(T, j) - 1].dp >= q
  {
    var t := FirstAtLeast(T, j);
    var q := Before(a, b, k, pp, row - k + 1, j - k + 1);
    var i', j' := BeforeWitness(a, b, k, pp, row - k + 1, j - k + 1);
    if q > 0 {
      assert KMatch(a, b, k, i', j');
      if !pp {
        ScoreMultiple(a, b, k, i', j');
      }
      SlotAbove(k, pp, T, t, q, j' + k - 1, j);
    }
  }

  /** A filed pair ending before (row, j) in both strings scores at most the best before it. */
  lemma SlotBelow(a: Str, b: Str, k: nat, pp: bool, row: int, j: int, B: MatchPair)
    requires k >= 1 && WellLinked(a, b, k, pp, B) && B.endRow < row && B.endCol < j && Scored(a, b, k, pp, B)
    ensures B.dp <= Before(a, b, k, pp, row - k + 1, j - k + 1)
  {
    WellLinkedBounds(a, b, k, pp, B);
    BeforeUpper(a, b, k, pp, row - k + 1, j - k + 1, B.endRow - k + 1, B.endCol - k + 1);
  }

  /** A positive score q that reaches its slot before column j is at most the dp of the slot before t. */
  lemma SlotAbove(k: nat, pp: bool, T: seq<MatchPair>, t: nat, q: int, c: int, j: int)
    requires k >= 1 && TableShape(k, pp, T) && 1 <= t <= |T| && (t < |T| ==> T[t].endCol >= j)
    requires q >= 1 && Reaches(k, pp, T, q, c) && c < j
    requires !pp ==> q >= k && MultipleOf(q, k)
    ensures T[t - 1].dp >= q
  {
    var s := Level(k, pp, q);
    SlotBeforeFirst(T, t, s, j);
    if !pp {
      MultipleQuotient(q, k);
      MulMono(k, s, t - 1);
    }
  }

  /** A slot ending before column j comes before the first slot ending at j or later. */
  lemma SlotBeforeFirst(T: seq<MatchPair>, t: nat, s: int, j: int)
    requires Sorted(T) && t <= |T| && (t < |T| ==> T[t].endCol >= j)
    requires 0 <= s < |T| && T[s].endCol < j
    ensures s < t
  {
  }

  /**
   * LCSk++: continuing a pair that carries its whole-match value from the previous
   * row's pairs gives it its score.
   */
  lemma RaisedScore(a: Str, b: Str, k: nat, row: int, T: seq<MatchPair>, R: seq<MatchPair>, P: MatchPair)
    requires k >= 1 && PrevRowInv(a, b, k, true, row, T, R) && PrevScores(a, b, k, row, R)
    requires WellLinked(a, b, k, true, P) && P.endRow == row
    requires P.dp == Whole(a, b, k, true, P.endRow - k + 1, P.endCol - k + 1)
    ensures Scored(a, b, k, true, Raised(R, P))
  {
    assert forall x :: 0 <= x < |R| ==> R[x].endRow == P.endRow - 1 && WellLinked(a, b, k, true, R[x]);
    if KMatch(a, b, k, P.endRow - k, P.endCol - k) {
      var c := PrevPairFor(a, b, k, row, R, P);
      RaisedSpec(R, P);
      ContinuedPair(a, b, k, P, R[c], Raised(R, P));
    } else {
      RaisedWithout(a, b, k, R, P);
    }
  }

  /** LCSk++: the previous row holds a scored pair ending one diagonal step before P. */
  lemma PrevPairFor(a: Str, b: Str, k: nat, row: int, R: seq<MatchPair>, P: MatchPair) returns (c: int)
    requires k >= 1 && PrevScores(a, b, k, row, R) && P.endRow == row
    requires forall x :: 0 <= x < |R| ==> R[x].endRow == P.endRow - 1
    requires KMatch(a, b, k, P.endRow - k, P.endCol - k)
    ensures 0 <= c < |R| && R[c].endRow == P.endRow - 1 && R[c].endCol == P.endCol - 1
    ensures Scored(a, b, k, true, R[c])
  {
    c :| 0 <= c < |R| && R[c].endCol == P.endCol - 1;
  }

  /** The other case of RaisedScore: no k-match one step back, so no pair of R ends one column before P. */
  lemma RaisedWithout(a: Str, b: Str, k: nat, R: seq<MatchPair>, P: MatchPair)
    requires k >= 1 && StrictlySorted(R)
    requires forall x :: 0 <= x < |R| ==> R[x].endRow == P.endRow - 1 && WellLinked(a, b, k, true, R[x])
    requires P.dp == Whole(a, b, k, true, P.endRow - k + 1, P.endCol - k + 1)
    requires !SameWindow(a, P.endRow - k, b, P.endCol - k, k)
    ensures Scored(a, b, k, true, Raised(R, P))
  {
    forall c | 0 <= c < |R| ensures R[c].endCol + 1 != P.endCol {
      NoContinuation(a, b, k, P, R[c]);
    }
    RaisedSpec(R, P);
    NotContinuedScore(a, b, k, P.endRow - k + 1, P.endCol - k + 1);
  }

  /** The continuation case of RaisedScore: the pair q of R ends one diagonal step before P. */
  lemma ContinuedPair(a: Str, b: Str, k: nat, P: MatchPair, q: MatchPair, Q: MatchPair)
    requires k >= 1 && SameWindow(a, P.endRow - k, b, P.endCol - k, k)
    requires q.endRow == P.endRow - 1 && q.endCol == P.endCol - 1 && Scored(a, b, k, true, q)
    requires P.dp == Whole(a, b, k, true, P.endRow - k + 1, P.endCol - k + 1)
    requires Q == if q.dp + 1 > P.dp then P.(dp := q.dp + 1, prev := Link(q)) else P
    ensures Scored(a, b, k, true, Q)
  {
    var i, j := P.endRow - k + 1, P.endCol - k + 1;
    assert q.endRow - k + 1 == i - 1 && q.endCol - k + 1 == j - 1;
    ContinuedScore(a, b, k, i, j, P.dp, q.dp);
  }

  /** With a k-match one diagonal step back, a score is the larger of the whole-match value and one more than that match's score. */
  lemma ContinuedScore(a: Str, b: Str, k: nat, i: int, j: int, w: int, s: int)
    requires k >= 1 && SameWindow(a, i - 1, b, j - 1, k)
    requires w == Whole(a, b, k, true, i, j) && s == Score(a, b, k, true, i - 1, j - 1)
    ensures Score(a, b, k, true, i, j) == if s + 1 > w then s + 1 else w
  {
  }

  /** Without a k-match one diagonal step back, a score is the whole-match value. */
  lemma NotContinuedScore(a: Str, b: Str, k: nat, i: int, j: int)
    requires k >= 1 && !SameWindow(a, i - 1, b, j - 1, k)
    ensures Score(a, b, k, true, i, j) == Whole(a, b, k, true, i, j)
  {
  }

  /** A well-linked pair on the row before P cannot end one column before it when no k-match sits one step back. */
  lemma NoContinuation(a: Str, b: Str, k: nat, P: MatchPair, q: MatchPair)
    requires k >= 1 && WellLinked(a, b, k, true, q) && q.endRow == P.endRow - 1
    requires !SameWindow(a, P.endRow - k, b, P.endCol - k, k)
    ensures q.endCol + 1 != P.endCol
  {
  }

  /** Filing a pair in the table: each slot but 0 afterwards holds the pair or what it held before, and the pair's dp is within reach. */
  lemma FiledShape(k: nat, pp: bool, T: seq<MatchPair>, P: MatchPair, e: Event)
    requires k >= 1 && TableShape(k, pp, T) && P.dp >= k && P.endCol == e.col && Pending(k, pp, T, P)
    ensures var W := Filed(k, pp, T, P, e);
      && Reaches(k, pp, W, P.dp, e.col)
      && forall x :: 1 <= x < |W| ==> W[x] == P || (x < |T| && W[x] == T[x])
  {
    if pp {
      FileShapePlus(k, T, P, e.row, e.col);
    } else {
      FileShapePlain(k, T, P, e.col);
      PendingSlot(k, T, P);
    }
  }

  /** A table rebuilt from scored slots and a scored pair has scored slots. */
  lemma ScoredKept(a: Str, b: Str, k: nat, pp: bool, T: seq<MatchPair>, W: seq<MatchPair>, P: MatchPair)
    requires k >= 1 && (forall x :: 1 <= x < |T| ==> Scored(a, b, k, pp, T[x])) && Scored(a, b, k, pp, P)
    requires forall x :: 1 <= x < |W| ==> W[x] == P || (x < |T| && W[x] == T[x])
    ensures forall x :: 1 <= x < |W| ==> Scored(a, b, k, pp, W[x])
  {
  }

  lemma ReachesRefines(k: nat, pp: bool, T: seq<MatchPair>, W: seq<MatchPair>, d: int, c: int)
    requires k >= 1 && Refines(T, W) && Reaches(k, pp, T, d, c)
    ensures Reaches(k, pp, W, d, c)
  {
  }

  /** The matches ending above `row` keep reaching their slots in a refined table. */
  lemma TableScoresRefines(a: Str, b: Str, k: nat, pp: bool, row: int, T: seq<MatchPair>, W: seq<MatchPair>)
    requires k >= 1 && TableScores(a, b, k, pp, row, T) && Refines(T, W)
    requires forall x :: 1 <= x < |W| ==> Scored(a, b, k, pp, W[x])
    ensures TableScores(a, b, k, pp, row, W)
  {
    forall i, j | KMatch(a, b, k, i, j) && i + k - 1 < row
      ensures Reaches(k, pp, W, Score(a, b, k, pp, i, j), j + k - 1)
    {
      ReachesRefines(k, pp, T, W, Score(a, b, k, pp, i, j), j + k - 1);
    }
  }

  /** The end events of `row` carry their whole-match values. */
  ghost predicate RowWhole(a: Str, b: Str, k: nat, pp: bool, row: int, es: seq<Event>)
    requires k >= 1 && AllLinked(es)
  {
    forall x :: 0 <= x < |es| ==> es[x].pair.to.dp == Whole(a, b, k, pp, row - k + 1, es[x].col - k + 1)
  }

  /**
   * One row's filing, all events together: the table stays a threshold table for the
   * matches above `row`, and every filed pair reaches its slot.
   */
  lemma {:induction false} RowScores(a: Str, b: Str, k: nat, pp: bool, row: int, T: seq<MatchPair>,
                                     R: seq<MatchPair>, es: seq<Event>)
    requires k >= 1 && TableInv(a, b, k, pp, row + 1, T) && AllLinked(es)
    requires forall x :: 0 <= x < |es| ==> EndOk(a, b, k, pp, T, es[x]) && es[x].row == row
    requires pp ==> PrevRowInv(a, b, k, true, row, T, R) && PrevScores(a, b, k, row, R)
    requires TableScores(a, b, k, pp, row, T) && RowWhole(a, b, k, pp, row, es)
    ensures var W := RowTable(k, pp, T, R, es);
      && TableScores(a, b, k, pp, row, W)
      && (forall x :: 0 <= x < |es| ==> Reaches(k, pp, W, RaisedPair(pp, R, es[x]).dp, es[x].col))
  {
    if |es| > 0 {
      var es' := es[..|es| - 1];
      var e := es[|es| - 1];
      RowPrefixReady(a, b, k, pp, row, T, es);
      RowScores(a, b, k, pp, row, T, R, es');
      RowTableKeeps(a, b, k, pp, row, T, R, es');
      var W' := RowTable(k, pp, T, R, es');
      RowScoresStep(a, b, k, pp, row, T, W', R, e);
      RowReachesKept(k, pp, W', RowTable(k, pp, T, R, es), R, es);
    }
  }

  /** The requirements of RowScores hold of every prefix of the events. */
  lemma RowPrefixReady(a: Str, b: Str, k: nat, pp: bool, row: int, T: seq<MatchPair>, es: seq<Event>)
    requires k >= 1 && |es| > 0 && AllLinked(es)
    requires forall x :: 0 <= x < |es| ==> EndOk(a, b, k, pp, T, es[x]) && es[x].row == row
    requires RowWhole(a, b, k, pp, row, es)
    ensures var es' := es[..|es| - 1];
      && AllLinked(es') && (forall x :: 0 <= x < |es'| ==> EndOk(a, b, k, pp, T, es'[x]) && es'[x].row == row)
      && RowWhole(a, b, k, pp, row, es')
      && EndOk(a, b, k, pp, T, es[|es| - 1]) && es[|es| - 1].row == row
      && es[|es| - 1].pair.to.dp == Whole(a, b, k, pp, row - k + 1, es[|es| - 1].col - k + 1)
  {
    var es' := es[..|es| - 1];
    assert forall x :: 0 <= x < |es'| ==> es'[x] == es[x];
  }

  /** The events before the last keep reaching their slots after the last is filed. */
  lemma RowReachesKept(k: nat, pp: bool, W': seq<MatchPair>, W: seq<MatchPair>, R: seq<MatchPair>, es: seq<Event>)
    requires k >= 1 && |es| > 0 && AllLinked(es) && Refines(W', W)
    requires var es' := es[..|es| - 1];
      AllLinked(es') && forall x :: 0 <= x < |es'| ==> Reaches(k, pp, W', RaisedPair(pp, R, es'[x]).dp, es'[x].col)
    requires Reaches(k, pp, W, RaisedPair(pp, R, es[|es| - 1]).dp, es[|es| - 1].col)
    ensures forall x :: 0 <= x < |es| ==> Reaches(k, pp, W, RaisedPair(pp, R, es[x]).dp, es[x].col)
  {
    var es' := es[..|es| - 1];
    forall x | 0 <= x < |es| ensures Reaches(k, pp, W, RaisedPair(pp, R, es[x]).dp, es[x].col) {
      if x < |es'| {
        assert es'[x] == es[x];
        ReachesRefines(k, pp, W', W, RaisedPair(pp, R, es[x]).dp, es[x].col);
      }
    }
  }

  /** Every pair a row files is scored. */
  lemma RowPairsScored(a: Str, b: Str, k: nat, pp: bool, row: int, T: seq<MatchPair>, R: seq<MatchPair>,
                       es: seq<Event>)
    requires k >= 1 && AllLinked(es)
    requires forall x :: 0 <= x < |es| ==> EndOk(a, b, k, pp, T, es[x]) && es[x].row == row
    requires pp ==> PrevRowInv(a, b, k, true, row, T, R) && PrevScores(a, b, k, row, R)
    requires RowWhole(a, b, k, pp, row, es)
    ensures forall x :: 0 <= x < |es| ==> Scored(a, b, k, pp, RaisedPair(pp, R, es[x]))
  {
    forall x | 0 <= x < |es| ensures Scored(a, b, k, pp, RaisedPair(pp, R, es[x])) {
      EventPairScored(a, b, k, pp, row, T, T, R, es[x]);
    }
  }

  /** The last event of RowScores. */
  lemma RowScoresStep(a: Str, b: Str, k: nat, pp: bool, row: int, T: seq<MatchPair>, W': seq<MatchPair>,
                      R: seq<MatchPair>, e: Event)
    requires k >= 1 && TableInv(a, b, k, pp, row + 1, W') && Refines(T, W')
    requires EndOk(a, b, k, pp, T, e) && e.row == row
    requires e.pair.to.dp == Whole(a, b, k, pp, row - k + 1, e.col - k + 1)
    requires pp ==> PrevRowInv(a, b, k, true, row, T, R) && PrevScores(a, b, k, row, R)
    requires TableScores(a, b, k, pp, row, W')
    ensures var P := RaisedPair(pp, R, e);
      var W := Filed(k, pp, W', P, e);
      && Scored(a, b, k, pp, P) && Refines(W', W)
      && TableScores(a, b, k, pp, row, W)
      && Reaches(k, pp, W, P.dp, e.col)
  {
    EventPairScored(a, b, k, pp, row, T, W', R, e);
    var P := RaisedPair(pp, R, e);
    FileOk(a, b, k, pp, row, W', P, e.row, e.col);
    FileTableScores(a, b, k, pp, row, W', P, e);
  }

  /** The pair an end event files is well linked, ready and scored. */
  lemma EventPairScored(a: Str, b: Str, k: nat, pp: bool, row: int, T: seq<MatchPair>, W': seq<MatchPair>,
                        R: seq<MatchPair>, e: Event)
    requires k >= 1 && Refines(T, W')
    requires EndOk(a, b, k, pp, T, e) && e.row == row
    requires e.pair.to.dp == Whole(a, b, k, pp, row - k + 1, e.col - k + 1)
    requires pp ==> PrevRowInv(a, b, k, true, row, T, R) && PrevScores(a, b, k, row, R)
    ensures var P := RaisedPair(pp, R, e);
      && WellLinked(a, b, k, pp, P) && P.endRow == row && P.endCol == e.col && Pending(k, pp, W', P)
      && Scored(a, b, k, pp, P)
  {
    var P0 := e.pair.to;
    RefinesKeeps(k, pp, T, W', P0);
    if pp {
      PrevRowRefines(a, b, k, true, row, T, W', R);
      RaisedOk(a, b, k, row, W', R, P0);
      RaisedScore(a, b, k, row, T, R, P0);
    } else {
      ScoreIsWhole(a, b, k, row - k + 1, e.col - k + 1);
    }
  }

  /** Without continuations a score is its whole-match value. */
  lemma ScoreIsWhole(a: Str, b: Str, k: nat, i: int, j: int)
    requires k >= 1
    ensures Score(a, b, k, false, i, j) == Whole(a, b, k, false, i, j)
  {
  }

  /** Filing a scored, ready pair keeps the table a threshold table and puts the pair within reach. */
  lemma FileTableScores(a: Str, b: Str, k: nat, pp: bool, row: int, W': seq<MatchPair>, P: MatchPair, e: Event)
    requires k >= 1 && TableShape(k, pp, W') && TableScores(a, b, k, pp, row, W')
    requires WellLinked(a, b, k, pp, P) && P.endCol == e.col && Pending(k, pp, W', P) && Scored(a, b, k, pp, P)
    requires Refines(W', Filed(k, pp, W', P, e))
    ensures var W := Filed(k, pp, W', P, e);
      && TableScores(a, b, k, pp, row, W) && Reaches(k, pp, W, P.dp, e.col)
  {
    WellLinkedBounds(a, b, k, pp, P);
    FiledShape(k, pp, W', P, e);
    ScoredKept(a, b, k, pp, W', Filed(k, pp, W', P, e), P);
    TableScoresRefines(a, b, k, pp, row, W', Filed(k, pp, W', P, e));
  }

  // ---------------------------------------------------------------------------------
  // The end queue

  /**
   * The queries of row `row`: the end events they queue carry the whole-match values of
   * the row's k-matches, and every k-match starting on the row has its end event.
   */
  lemma QueueScoresAfterQuery(a: Str, b: Str, k: nat, pp: bool, row: int, T: seq<MatchPair>, E: seq<Event>)
    requires k >= 1 && TableInv(a, b, k, pp, row, T) && TableScores(a, b, k, pp, row, T)
    requires EndQueueInv(a, b, k, pp, row, row + k - 1, T, E) && QueueScores(a, b, k, pp, row, row, E)
    ensures var Bs := Begins(row, RowMatches(a, b, k, row));
      AfterSlotZero(T, Bs) && QueueScores(a, b, k, pp, row, row + 1, E + Ends(k, T, Bs))
  {
    QueueAfterQuery(a, b, k, pp, row, T, E);
    var M := RowMatches(a, b, k, row);
    var Bs := Begins(row, M);
    EndsWhole(a, b, k, pp, row, T);
    RowMatchesSpec(a, b, k, row);
    QueueExtend(a, b, k, pp, row, E, Ends(k, T, Bs), M);
  }

  /** The end events queued for the begin events of `row`, one per matching column, with their values. */
  lemma EndsWhole(a: Str, b: Str, k: nat, pp: bool, row: int, T: seq<MatchPair>)
    requires k >= 1 && TableInv(a, b, k, pp, row, T) && TableScores(a, b, k, pp, row, T)
    requires AfterSlotZero(T, Begins(row, RowMatches(a, b, k, row)))
    ensures var M := RowMatches(a, b, k, row);
      var N := Ends(k, T, Begins(row, M));
      && |N| == |M|
      && forall x :: 0 <= x < |N| ==>
           && N[x].row == row + k - 1 && N[x].col == M[x] + k - 1 && N[x].pair.Link?
           && N[x].pair.to.dp == Whole(a, b, k, pp, row, M[x])
  {
    var M := RowMatches(a, b, k, row);
    var Bs := Begins(row, M);
    EndsIndex(k, T, Bs);
    RowMatchesSpec(a, b, k, row);
    forall x | 0 <= x < |M| ensures QueryPair(k, T, row, M[x]).dp == Whole(a, b, k, pp, row, M[x]) {
      assert M[x] in M;
      QueryScore(a, b, k, pp, row, T, M[x]);
    }
  }

  /** Appending the end events of row `row` to the queue moves its completeness on by one row. */
  lemma QueueExtend(a: Str, b: Str, k: nat, pp: bool, row: int, E: seq<Event>, N: seq<Event>, M: seq<int>)
    requires k >= 1 && QueueScores(a, b, k, pp, row, row, E)
    requires forall j :: j in M <==> SameWindow(a, row, b, j, k)
    requires |N| == |M| && forall x :: 0 <= x < |N| ==>
      && N[x].row == row + k - 1 && N[x].col == M[x] + k - 1 && N[x].pair.Link?
      && N[x].pair.to.dp == Whole(a, b, k, pp, row, M[x])
    ensures QueueScores(a, b, k, pp, row, row + 1, E + N)
  {
    var Q := E + N;
    forall x | 0 <= x < |Q|
      ensures Q[x].pair.Link? && Q[x].pair.to.dp == Whole(a, b, k, pp, Q[x].row - k + 1, Q[x].col - k + 1)
    {
      if x < |E| {
        assert Q[x] == E[x];
      } else {
        assert Q[x] == N[x - |E|];
      }
    }
    forall i, j | KMatch(a, b, k, i, j) && row <= i + k - 1 && i < row + 1 ensures Queued(Q, i + k - 1, j + k - 1) {
      if i < row {
        var x :| 0 <= x < |E| && E[x].row == i + k - 1 && E[x].col == j + k - 1;
        assert Q[x] == E[x];
      } else {
        assert j in M;
        var y :| 0 <= y < |M| && M[y] == j;
        assert Q[|E| + y] == N[y];
      }
    }
  }

  /**
   * Before the row update: the queue's row prefix holds the end events of `row`, with
   * their values and in strictly increasing columns, one for every k-match ending on
   * the row; the rest of the queue keeps the property for the next row.
   */
  lemma QueueScoresSplit(a: Str, b: Str, k: nat, pp: bool, row: int, T: seq<MatchPair>, E: seq<Event>)
    requires k >= 1 && EndQueueInv(a, b, k, pp, row, row + k, T, E) && QueueScores(a, b, k, pp, row, row + 1, E)
    ensures var n := RowPrefix(E, row);
      && AllLinked(E[..n]) && RowWhole(a, b, k, pp, row, E[..n])
      && (forall x, y :: 0 <= x < y < n ==> E[..n][x].col < E[..n][y].col)
      && (forall i, j {:trigger KMatch(a, b, k, i, j)} :: KMatch(a, b, k, i, j) && i + k - 1 == row ==>
            Queued(E[..n], row, j + k - 1))
      && QueueScores(a, b, k, pp, row + 1, row + 1, E[n..])
  {
    var n := RowPrefix(E, row);
    assert forall x :: 0 <= x < |E| ==> row <= E[x].row;
    QueueRowsAfter(row, E, n);
    QueuePrefixScores(a, b, k, pp, row, E, n);
    QueueRestScores(a, b, k, pp, row, E, n);
  }

  /** Past the row prefix, a sorted queue holds only events of later rows. */
  lemma QueueRowsAfter(row: int, E: seq<Event>, n: nat)
    requires LexSorted(E) && n == RowPrefix(E, row) && forall x :: 0 <= x < |E| ==> row <= E[x].row
    ensures forall x :: n <= x < |E| ==> E[x].row > row
  {
    forall x | n <= x < |E| ensures E[x].row > row {
      if x > n {
        assert E[n].row < E[x].row || E[n].row == E[x].row;
      }
    }
  }

  lemma QueuePrefixScores(a: Str, b: Str, k: nat, pp: bool, row: int, E: seq<Event>, n: nat)
    requires k >= 1 && LexSorted(E) && QueueScores(a, b, k, pp, row, row + 1, E)
    requires n <= |E| && (forall x :: 0 <= x < n ==> E[x].row == row) && forall x :: n <= x < |E| ==> E[x].row > row
    ensures AllLinked(E[..n]) && RowWhole(a, b, k, pp, row, E[..n])
    ensures forall x, y :: 0 <= x < y < n ==> E[..n][x].col < E[..n][y].col
    ensures forall i, j {:trigger KMatch(a, b, k, i, j)} :: KMatch(a, b, k, i, j) && i + k - 1 == row ==>
      Queued(E[..n], row, j + k - 1)
  {
    var es := E[..n];
    assert forall x :: 0 <= x < n ==> es[x] == E[x];
    forall i, j | KMatch(a, b, k, i, j) && i + k - 1 == row ensures Queued(es, row, j + k - 1) {
      var x :| 0 <= x < |E| && E[x].row == i + k - 1 && E[x].col == j + k - 1;
    }
  }

  lemma QueueRestScores(a: Str, b: Str, k: nat, pp: bool, row: int, E: seq<Event>, n: nat)
    requires k >= 1 && QueueScores(a, b, k, pp, row, row + 1, E)
    requires n <= |E| && (forall x :: 0 <= x < n ==> E[x].row == row)
    ensures QueueScores(a, b, k, pp, row + 1, row + 1, E[n..])
  {
    var rest := E[n..];
    forall x | 0 <= x < |rest|
      ensures rest[x].pair.Link? && rest[x].pair.to.dp == Whole(a, b, k, pp, rest[x].row - k + 1, rest[x].col - k + 1)
    {
      assert rest[x] == E[n + x];
    }
    forall i, j | KMatch(a, b, k, i, j) && row + 1 <= i + k - 1 && i < row + 1
      ensures Queued(rest, i + k - 1, j + k - 1)
    {
      var x :| 0 <= x < |E| && E[x].row == i + k - 1 && E[x].col == j + k - 1;
      assert rest[x - n] == E[x];
    }
  }

  // ---------------------------------------------------------------------------------
  // From row to row, and the end

  /**
   * After the row update: every k-match ending on `row` has had its pair filed, so the
   * table is a threshold table before row + 1.
   */
  lemma TableScoresNext(a: Str, b: Str, k: nat, pp: bool, row: int, W: seq<MatchPair>, R: seq<MatchPair>,
                        es: seq<Event>)
    requires k >= 1 && AllLinked(es) && TableScores(a, b, k, pp, row, W)
    requires forall x :: 0 <= x < |es| ==> es[x].row == row && es[x].col == es[x].pair.to.endCol && es[x].pair.to.endRow == row
    requires forall x :: 0 <= x < |es| ==> Scored(a, b, k, pp, RaisedPair(pp, R, es[x]))
    requires forall x :: 0 <= x < |es| ==> Reaches(k, pp, W, RaisedPair(pp, R, es[x]).dp, es[x].col)
    requires forall i, j {:trigger KMatch(a, b, k, i, j)} :: KMatch(a, b, k, i, j) && i + k - 1 == row ==>
      Queued(es, row, j + k - 1)
    ensures TableScores(a, b, k, pp, row + 1, W)
  {
    forall i, j | KMatch(a, b, k, i, j) && i + k - 1 < row + 1
      ensures Reaches(k, pp, W, Score(a, b, k, pp, i, j), j + k - 1)
    {
      if i + k - 1 == row {
        var x :| 0 <= x < |es| && es[x].row == row && es[x].col == j + k - 1;
        FiledMatchReaches(a, b, k, pp, row, W, R, es[x], i, j);
      }
    }
  }

  lemma FiledMatchReaches(a: Str, b: Str, k: nat, pp: bool, row: int, W: seq<MatchPair>, R: seq<MatchPair>,
                          e: Event, i: int, j: int)
    requires k >= 1 && e.pair.Link? && e.col == e.pair.to.endCol && e.pair.to.endRow == row
    requires i + k - 1 == row && e.col == j + k - 1
    requires Scored(a, b, k, pp, RaisedPair(pp, R, e)) && Reaches(k, pp, W, RaisedPair(pp, R, e).dp, e.col)
    ensures Reaches(k, pp, W, Score(a, b, k, pp, i, j), j + k - 1)
  {
    var P := RaisedPair(pp, R, e);
    assert P.endRow == row && P.endCol == e.col;
  }

  /** LCSk++: the pairs a row files are the previous-row pairs the next row needs. */
  lemma PrevScoresNext(a: Str, b: Str, k: nat, row: int, R: seq<MatchPair>, es: seq<Event>)
    requires k >= 1 && AllLinked(es)
    requires forall x :: 0 <= x < |es| ==> es[x].col == es[x].pair.to.endCol
    requires forall x, y :: 0 <= x < y < |es| ==> es[x].col < es[y].col
    requires forall x :: 0 <= x < |es| ==> Scored(a, b, k, true, RaisedPair(true, R, es[x]))
    requires forall i, j {:trigger KMatch(a, b, k, i, j)} :: KMatch(a, b, k, i, j) && i + k - 1 == row ==>
      Queued(es, row, j + k - 1)
    ensures PrevScores(a, b, k, row + 1, RowPairs(true, R, es))
  {
    var RP := RowPairs(true, R, es);
    assert forall x :: 0 <= x < |es| ==> RP[x].endCol == es[x].col;
    forall i, j | KMatch(a, b, k, i, j) && i + k == row + 1 ensures exists c :: 0 <= c < |RP| && RP[c].endCol == j + k - 1 {
      var x :| 0 <= x < |es| && es[x].row == row && es[x].col == j + k - 1;
      assert RP[x].endCol == j + k - 1;
    }
  }

  /**
   * The row update of `row` as a whole: the table it leaves is a threshold table before
   * row + 1, the rest of the queue and (LCSk++) the row's filed pairs keep their
   * properties for the next row.
   */
  lemma RowUpdateScores(a: Str, b: Str, k: nat, pp: bool, row: int, T: seq<MatchPair>, R: seq<MatchPair>,
                        E: seq<Event>)
    requires k >= 1 && TableInv(a, b, k, pp, row, T) && TableScores(a, b, k, pp, row, T)
    requires EndQueueInv(a, b, k, pp, row, row + k, T, E) && QueueScores(a, b, k, pp, row, row + 1, E)
    requires pp ==> PrevRowInv(a, b, k, true, row, T, R) && PrevScores(a, b, k, row, R)
    ensures var n := RowPrefix(E, row);
      && AllLinked(E[..n])
      && TableScores(a, b, k, pp, row + 1, RowTable(k, pp, T, R, E[..n]))
      && QueueScores(a, b, k, pp, row + 1, row + 1, E[n..])
      && (pp ==> PrevScores(a, b, k, row + 1, RowPairs(pp, R, E[..n])))
  {
    var n := RowPrefix(E, row);
    var es := E[..n];
    QueueBeforeUpdate(a, b, k, pp, row, T, E);
    QueueScoresSplit(a, b, k, pp, row, T, E);
    RowScores(a, b, k, pp, row, T, R, es);
    RowPairsScored(a, b, k, pp, row, T, R, es);
    TableScoresNext(a, b, k, pp, row, RowTable(k, pp, T, R, es), R, es);
    if pp {
      PrevScoresNext(a, b, k, row, R, es);
    }
  }

  /** At the end of the sweep the last slot holds the best score. */
  lemma FinalScore(a: Str, b: Str, k: nat, pp: bool, row: int, T: seq<MatchPair>)
    requires k >= 1 && TableInv(a, b, k, pp, row, T) && TableScores(a, b, k, pp, row, T) && row >= |a|
    ensures T[|T| - 1].dp == Best(a, b, k, pp)
  {
    var L := T[|T| - 1];
    var best := Best(a, b, k, pp);
    var i, j := BeforeWitness(a, b, k, pp, |a|, |b|);
    if |T| >= 2 {
      assert WellLinked(a, b, k, pp, L) && Scored(a, b, k, pp, L);
      WellLinkedBounds(a, b, k, pp, L);
      BestUpper(a, b, k, pp, L.endRow - k + 1, L.endCol - k + 1);
    }
    if best > 0 {
      assert KMatch(a, b, k, i, j);
      if !pp {
        ScoreMultiple(a, b, k, i, j);
      }
      LastAtLeast(k, pp, T, best, j + k - 1);
    }
  }

  /** A positive score that reaches its slot is at most the dp of the last slot. */
  lemma LastAtLeast(k: nat, pp: bool, T: seq<MatchPair>, q: int, c: int)
    requires k >= 1 && TableShape(k, pp, T) && q >= k && Reaches(k, pp, T, q, c)
    requires !pp ==> MultipleOf(q, k)
    ensures T[|T| - 1].dp >= q
  {
    var s := Level(k, pp, q);
    if !pp {
      MultipleQuotient(q, k);
      MulMono(k, s, |T| - 1);
    }
  }
}
