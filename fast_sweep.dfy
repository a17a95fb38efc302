/**
 * The row loop of the fast sparse LCSk / LCSk++ algorithm (fast_simple_lcsk/lcsk.cc,
 * lines 190-243) and what it returns: a valid alignment whose length is the best
 * score of Optimum, the same value the slow algorithm returns.
 */
module FastSweep {
  import opened Text
  import opened Counting
  import opened MatchPairs
  import opened Events
  import opened MatchMaking
  import opened Alignment
  import opened Hashing
  import opened FastLcsk
  import opened Optimum
  import opened FastScores

  /** Lines 208-210: one begin event per matching column, in order. */
  method PushBegins(events: MatchEventsQueue, row: int, rowMatches: seq<int>)
    modifies events`begin
    ensures events.begin == old(events.begin) + Begins(row, rowMatches)
  {
    var t := 0;
    while t < |rowMatches|
      invariant 0 <= t <= |rowMatches|
      invariant events.begin == old(events.begin) + Begins(row, rowMatches[..t])
    {
      events.AddBegin(Event(row, rowMatches[t], Null));
      assert Begins(row, rowMatches[..t + 1]) == Begins(row, rowMatches[..t]) + [Event(row, rowMatches[t], Null)];
      t := t + 1;
    }
    assert rowMatches[..t] == rowMatches;
  }

  /** What holds before row `row` of the sweep. */
  ghost predicate SweepInv(a: Str, b: Str, k: nat, pp: bool, row: int, T: seq<MatchPair>, prevRow: seq<MatchPair>,
                           E: seq<Event>)
    requires k >= 1
  {
    && TableInv(a, b, k, pp, row, T)
    && EndQueueInv(a, b, k, pp, row, row + k - 1, T, E)
    && (if pp then PrevRowInv(a, b, k, true, row, T, prevRow) else prevRow == [])
    && ScoresInv(a, b, k, pp, row, T, prevRow, E)
  }

  function MakerRow(a: Str, k: nat, row: nat): nat
  {
    if row <= WindowCount(a, k) then row else WindowCount(a, k)
  }

  /**
   * One pass of the row loop of `LcsKSparseFastImpl` (lines 206-223): the row's matches
   * become begin events, the queries (amortised or element-wise, as `useAmortized`
   * decides from the table size and the number of begin events) turn them into end
   * events, and the row update files the pairs ending on the row.
   */
  method SweepRow(ghost a: Str, ghost b: Str, k: nat, pp: bool, useAmortized: (nat, nat) -> bool, row: nat,
                  events: MatchEventsQueue, matchMaker: PerfectHashMatchMaker, T: seq<MatchPair>,
                  prevRow: seq<MatchPair>, counter: ObjectCounter)
    returns (T': seq<MatchPair>, prevRow': seq<MatchPair>)
    requires k >= 1 && counter.Valid() && matchMaker.Valid()
    requires matchMaker.a == a && matchMaker.b == b && matchMaker.k == k && matchMaker.row == MakerRow(a, k, row)
    requires events.begin == [] && SweepInv(a, b, k, pp, row, T, prevRow, events.end)
    modifies events, matchMaker`row, matchMaker`bmap, matchMaker.ahasher, counter
    ensures counter.Valid() && matchMaker.Valid() && matchMaker.row == MakerRow(a, k, row + 1)
    ensures events.begin == [] && SweepInv(a, b, k, pp, row + 1, T', prevRow', events.end)
    ensures !pp ==> counter.created == old(counter.created) + |RowMatches(a, b, k, row)|
  {
    QueryRow(a, b, k, pp, useAmortized, row, events, matchMaker, T, counter);
    T', prevRow' := UpdateRow(a, b, k, pp, row, events, T, prevRow, counter);
  }

  /** Lines 206-221: the row's begin events are queried against the table. */
  method QueryRow(ghost a: Str, ghost b: Str, k: nat, pp: bool, useAmortized: (nat, nat) -> bool, row: nat,
                  events: MatchEventsQueue, matchMaker: PerfectHashMatchMaker, T: seq<MatchPair>,
                  counter: ObjectCounter)
    requires k >= 1 && counter.Valid() && matchMaker.Valid()
    requires matchMaker.a == a && matchMaker.b == b && matchMaker.k == k && matchMaker.row == MakerRow(a, k, row)
    requires events.begin == [] && TableInv(a, b, k, pp, row, T) && TableScores(a, b, k, pp, row, T)
    requires EndQueueInv(a, b, k, pp, row, row + k - 1, T, events.end)
    requires QueueScores(a, b, k, pp, row, row, events.end)
    modifies events, matchMaker`row, matchMaker`bmap, matchMaker.ahasher, counter
    ensures counter.Valid() && matchMaker.Valid() && matchMaker.row == MakerRow(a, k, row + 1)
    ensures events.begin == [] && EndQueueInv(a, b, k, pp, row, row + k, T, events.end)
    ensures QueueScores(a, b, k, pp, row, row + 1, events.end)
    ensures counter.created == old(counter.created) + |RowMatches(a, b, k, row)|
  {
    var more, rowMatches := matchMaker.GetNextMatches();
    if !more {
      RowMatchesEmpty(a, b, k, row);
    }
    assert rowMatches == RowMatches(a, b, k, row);
    ghost var E := events.end;
    ghost var Bs := Begins(row, rowMatches);
    PushBegins(events, row, rowMatches);
    assert events.begin == Bs && events.end == E;
    QueueAfterQuery(a, b, k, pp, row, T, E);
    QueueScoresAfterQuery(a, b, k, pp, row, T, E);
    var tableRowSize, numBeginEvents := |T|, |rowMatches|;
    if useAmortized(tableRowSize, numBeginEvents) {
      AmortizedRowQuery(k, row, events, T, counter);
    } else {
      ElementwiseRowQuery(k, row, events, T, counter);
    }
    assert events.end == E + Ends(k, T, Bs);
  }

  /** Lines 222-223: the end events of the row are filed, and the row moves on. */
  method UpdateRow(ghost a: Str, ghost b: Str, k: nat, pp: bool, row: nat, events: MatchEventsQueue,
                   T: seq<MatchPair>, prevRow: seq<MatchPair>, counter: ObjectCounter)
    returns (T': seq<MatchPair>, prevRow': seq<MatchPair>)
    requires k >= 1 && counter.Valid() && TableInv(a, b, k, pp, row, T) && TableScores(a, b, k, pp, row, T)
    requires EndQueueInv(a, b, k, pp, row, row + k, T, events.end)
    requires QueueScores(a, b, k, pp, row, row + 1, events.end)
    requires if pp then PrevRowInv(a, b, k, true, row, T, prevRow) && PrevScores(a, b, k, row, prevRow)
      else prevRow == []
    modifies events`end, counter
    ensures counter.Valid() && SweepInv(a, b, k, pp, row + 1, T', prevRow', events.end)
    ensures !pp ==> counter.created == old(counter.created)
  {
    ghost var E1 := events.end;
    ghost var n := RowPrefix(E1, row);
    RowUpdateKeeps(a, b, k, pp, row, T, prevRow, E1);
    T', prevRow' := RowUpdate(k, row, events, T, prevRow, pp, counter);
    assert events.end == E1[n..];
  }

  /** The ghost side of `UpdateRow`: the row's ends can be filed, and filing them keeps `SweepInv`. */
  lemma RowUpdateKeeps(a: Str, b: Str, k: nat, pp: bool, row: nat, T: seq<MatchPair>, prevRow: seq<MatchPair>,
                       E: seq<Event>)
    requires k >= 1 && TableInv(a, b, k, pp, row, T) && TableScores(a, b, k, pp, row, T)
    requires EndQueueInv(a, b, k, pp, row, row + k, T, E)
    requires QueueScores(a, b, k, pp, row, row + 1, E)
    requires if pp then PrevRowInv(a, b, k, true, row, T, prevRow) && PrevScores(a, b, k, row, prevRow)
      else prevRow == []
    ensures var n := RowPrefix(E, row);
      && FileReady(k, pp, T, E[..n])
      && SweepInv(a, b, k, pp, row + 1, RowTable(k, pp, T, prevRow, E[..n]),
                  if pp then RowPairs(pp, prevRow, E[..n]) else [], E[n..])
  {
    RowTableAfter(a, b, k, pp, row, T, prevRow, E);
    RowUpdateScores(a, b, k, pp, row, T, prevRow, E);
  }

  /** The table part of `RowUpdateKeeps`: filing keeps the table, queue and previous-row invariants. */
  lemma RowTableAfter(a: Str, b: Str, k: nat, pp: bool, row: nat, T: seq<MatchPair>, prevRow: seq<MatchPair>,
                      E: seq<Event>)
    requires k >= 1 && TableInv(a, b, k, pp, row, T) && EndQueueInv(a, b, k, pp, row, row + k, T, E)
    requires pp ==> PrevRowInv(a, b, k, true, row, T, prevRow)
    ensures var n := RowPrefix(E, row); var W := RowTable(k, pp, T, prevRow, E[..n]);
      && FileReady(k, pp, T, E[..n])
      && TableInv(a, b, k, pp, row + 1, W)
      && EndQueueInv(a, b, k, pp, row + 1, row + k, W, E[n..])
      && (pp ==> PrevRowInv(a, b, k, true, row + 1, W, RowPairs(pp, prevRow, E[..n])))
  {
    var n := RowPrefix(E, row);
    QueueBeforeUpdate(a, b, k, pp, row, T, E);
    RowTableKeeps(a, b, k, pp, row, T, prevRow, E[..n]);
    QueueRefines(a, b, k, pp, row + 1, row + k, T, RowTable(k, pp, T, prevRow, E[..n]), E[n..]);
  }

  lemma SweepStart(a: Str, b: Str, k: nat, pp: bool)
    requires k >= 1
    ensures SweepInv(a, b, k, pp, 0, [Sentinel()], [], [])
  {
    ScoresStart(a, b, k, pp);
  }

  /**
   * `LcsKSparseFastImpl` (lines 190-228): sweeps the rows 0..|a| of the match grid and
   * reconstructs the alignment ending at the last slot of the table. The returned
   * alignment is valid: increasing in both strings, made of matching characters and,
   * for LCSk (`pp` false), of whole k-blocks. Without `pp`, exactly one pair object is
   * created for the sentinel and one per k-match (i, j).
   * The decision between the two queries is the parameter `useAmortized`.
   */
  method LcsKSparseFastImpl(a: Str, b: Str, k: nat, pp: bool, useAmortized: (nat, nat) -> bool,
                            counter: ObjectCounter)
    returns (recon: seq<Pos>)
    requires k >= 1 && counter.Valid()
    modifies counter
    ensures counter.Valid()
    ensures ValidAlignment(a, b, k, pp, recon) && BlockAlignment(a, b, k, pp, recon)
    ensures |recon| == Best(a, b, k, pp)
    ensures recon == [] <==> forall i, j :: !SameWindow(a, i, b, j, k)
    ensures !pp ==> |recon| % k == 0
    ensures !pp ==> counter.created == old(counter.created) + 1 + TotalMatches(a, b, k, |a| + 1)
  {
    var events := new MatchEventsQueue();
    var matchMaker := Create(a, b, k, PerfectHash);
    var sentinel := NewMatchPair(counter, -1, -1, 0, Null);
    var T := [sentinel];
    SweepStart(a, b, k, pp);
    T := Sweep(a, b, k, pp, useAmortized, events, matchMaker, T, counter);
    recon := Reconstruct(a, b, k, pp, |a| + 1, T);
    BestZero(a, b, k, pp);
  }

  /** Lines 205-224: the rows 0..|a| in turn, each by `SweepRow`. */
  method Sweep(a: Str, b: Str, k: nat, pp: bool, useAmortized: (nat, nat) -> bool, events: MatchEventsQueue,
               matchMaker: PerfectHashMatchMaker, T0: seq<MatchPair>, counter: ObjectCounter)
    returns (T: seq<MatchPair>)
    requires k >= 1 && counter.Valid() && matchMaker.Valid()
    requires matchMaker.a == a && matchMaker.b == b && matchMaker.k == k && matchMaker.row == 0
    requires events.begin == [] && SweepInv(a, b, k, pp, 0, T0, [], events.end)
    modifies events, matchMaker`row, matchMaker`bmap, matchMaker.ahasher, counter
    ensures counter.Valid() && TableInv(a, b, k, pp, |a| + 1, T) && TableScores(a, b, k, pp, |a| + 1, T)
    ensures !pp ==> counter.created == old(counter.created) + TotalMatches(a, b, k, |a| + 1)
  {
    T := T0;
    var prevRow: seq<MatchPair> := [];
    var row := 0;
    while row <= |a|
      invariant 0 <= row <= |a| + 1
      invariant counter.Valid() && matchMaker.Valid()
      invariant matchMaker.row == MakerRow(a, k, row)
      invariant events.begin == [] && SweepInv(a, b, k, pp, row, T, prevRow, events.end)
      invariant !pp ==> counter.created == old(counter.created) + TotalMatches(a, b, k, row)
    {
      T, prevRow := SweepRow(a, b, k, pp, useAmortized, row, events, matchMaker, T, prevRow, counter);
      row := row + 1;
    }
  }

  /**
   * Lines 226-227: the alignment ending at the last slot of the table, or the empty
   * one when only the sentinel is left.
   */
  method Reconstruct(ghost a: Str, ghost b: Str, k: nat, pp: bool, ghost row: int, T: seq<MatchPair>)
    returns (recon: seq<Pos>)
    requires k >= 1 && TableInv(a, b, k, pp, row, T) && TableScores(a, b, k, pp, row, T) && row >= |a|
    ensures ValidAlignment(a, b, k, pp, recon) && BlockAlignment(a, b, k, pp, recon)
    ensures |recon| == T[|T| - 1].dp == Best(a, b, k, pp)
    ensures !pp ==> |recon| % k == 0
  {
    FinalOk(a, b, k, pp, row, T);
    FinalScore(a, b, k, pp, row, T);
    var best := if T[|T| - 1].endRow != -1 then Link(T[|T| - 1]) else Null;
    recon := FillLcskReconstruction(k, best);
    if !pp {
      ScaledIsMultiple(k, |T| - 1);
    }
  }

  lemma ScaledIsMultiple(k: nat, n: nat)
    requires k >= 1
    ensures (k * n) % k == 0
  {
    DivModUnique(n, k, 0);
    assert n * k + 0 == k * n;
  }

  /** `LcsKSparseFast` (lines 235-238): the LCSk variant. */
  method LcsKSparseFast(a: Str, b: Str, k: nat, useAmortized: (nat, nat) -> bool, counter: ObjectCounter)
    returns (recon: seq<Pos>)
    requires k >= 1 && counter.Valid()
    modifies counter
    ensures counter.Valid() && ValidAlignment(a, b, k, false, recon) && BlockAlignment(a, b, k, false, recon) && |recon| % k == 0
    ensures |recon| == Best(a, b, k, false)
    ensures recon == [] <==> forall i, j :: !SameWindow(a, i, b, j, k)
    ensures counter.created == old(counter.created) + 1 + TotalMatches(a, b, k, |a| + 1)
  {
    recon := LcsKSparseFastImpl(a, b, k, false, useAmortized, counter);
  }

  /** `LcsKppSparseFast` (lines 240-243): the LCSk++ variant. */
  method LcsKppSparseFast(a: Str, b: Str, k: nat, useAmortized: (nat, nat) -> bool, counter: ObjectCounter)
    returns (recon: seq<Pos>)
    requires k >= 1 && counter.Valid()
    modifies counter
    ensures counter.Valid() && ValidAlignment(a, b, k, true, recon) && BlockAlignment(a, b, k, true, recon)
    ensures |recon| == Best(a, b, k, true)
    ensures recon == [] <==> forall i, j :: !SameWindow(a, i, b, j, k)
  {
    recon := LcsKSparseFastImpl(a, b, k, true, useAmortized, counter);
  }
}
