/**
 * The fast sparse LCSk / LCSk++ algorithm (fast_simple_lcsk/lcsk.cc): a sweep over the
 * rows of a that keeps a compressed threshold table of match pairs, turns begin events
 * into pairs ending k-1 rows later, and files each pair in the table when its end row
 * is reached.
 */
module FastLcsk {
  import opened Text
  import opened Counting
  import opened MatchPairs
  import opened Events
  import opened MatchMaking
  import opened Alignment
  import opened Hashing

  /** The pair in slot 0 of the compressed table: ends before every match, dp 0. */
  function Sentinel(): MatchPair
  {
    MatchPair(-1, -1, 0, Null)
  }

  function Reversed<T>(s: seq<T>): (r: seq<T>)
    ensures |r| == |s|
    ensures forall x :: 0 <= x < |s| ==> r[x] == s[|s| - 1 - x]
  {
    seq(|s|, x requires 0 <= x < |s| => s[|s| - 1 - x])
  }

  lemma ReversedAppend<T>(u: seq<T>, v: seq<T>)
    ensures Reversed(u + v) == Reversed(v) + Reversed(u)
  {
    var l, r := Reversed(u + v), Reversed(v) + Reversed(u);
    forall x | 0 <= x < |l| ensures l[x] == r[x] {
      if x < |v| { assert l[x] == v[|v| - 1 - x]; } else { assert l[x] == u[|u| - 1 - (x - |v|)]; }
    }
  }

  // ---------------------------------------------------------------------------------
  // Reconstruction

  /** Every link of the chain is either a whole-match link or a one-step diagonal one. */
  predicate ChainShaped(k: nat, chain: Prev)
  {
    match chain
    case Null => true
    case Link(p) =>
      && (p.prev == Null || FullyBefore(p.prev.to, p, k) || Diagonal(p.prev.to, p))
      && ChainShaped(k, p.prev)
  }

  lemma {:induction false} WellLinkedIsShaped(a: Str, b: Str, k: nat, pp: bool, p: MatchPair)
    requires WellLinked(a, b, k, pp, p)
    ensures ChainShaped(k, Link(p))
  {
    if p.prev.Link? {
      WellLinkedIsShaped(a, b, k, pp, p.prev.to);
    }
  }

  /** The k pairs of a whole match in the order the source pushes them: last one first. */
  function Descending(r: int, c: int, j: nat): (s: seq<Pos>)
    ensures |s| == j && forall x :: 0 <= x < j ==> s[x] == (r - x, c - x)
  {
    seq(j, x => (r - x, c - x))
  }

  lemma DescendingIsBlock(r: int, c: int, k: nat)
    ensures Reversed(Descending(r, c, k)) == Block(r, c, k)
  {
  }

  /** The inner loop of `FillLcskReconstruction`: pushes (r, c), (r - 1, c - 1), ... k pairs. */
  method PushWholeMatch(desc: seq<Pos>, r: int, c: int, k: nat) returns (desc': seq<Pos>)
    ensures desc' == desc + Descending(r, c, k)
  {
    desc' := desc;
    var j, r', c' := 0, r, c;
    while j < k
      invariant 0 <= j <= k && r' == r - j && c' == c - j
      invariant desc' == desc + Descending(r, c, j)
    {
      desc' := desc' + [(r', c')];
      j, r', c' := j + 1, r' - 1, c' - 1;
    }
  }

  /** One step of the walk: the pairs pushed for ft's match are its piece, reversed. */
  lemma FillStep(k: nat, best: Prev, ft: Prev, before: seq<Pos>, desc: seq<Pos>, piece: seq<Pos>)
    requires ft.Link? && ReconAsc(k, best) == ReconAsc(k, ft) + Reversed(before)
    requires piece == Piece(k, ft.to) && Reversed(desc) == piece + Reversed(before)
    ensures ReconAsc(k, best) == ReconAsc(k, ft.to.prev) + Reversed(desc)
  {
    var x := ReconAsc(k, ft.to.prev);
    assert ReconAsc(k, ft) == x + piece;
    ConcatAssoc(x, piece, Reversed(before));
  }

  lemma ConcatAssoc<T>(x: seq<T>, y: seq<T>, z: seq<T>)
    ensures (x + y) + z == x + (y + z)
  {
  }

  /**
   * `FillLcskReconstruction`: walks the `prev` chain from `best`, pushing each match's
   * pairs last-first (all k of them, or only the last one for a continuation, which
   * the source asserts is a one-step diagonal), then reverses: the ascending
   * reconstruction of the chain.
   */
  method FillLcskReconstruction(k: nat, best: Prev) returns (recon: seq<Pos>)
    requires ChainShaped(k, best)
    ensures recon == ReconAsc(k, best)
  {
    var desc: seq<Pos> := [];
    var ft := best;
    while ft.Link?
      invariant ChainShaped(k, ft)
      invariant ReconAsc(k, best) == ReconAsc(k, ft) + Reversed(desc)
      decreases ft
    {
      var p := ft.to;
      var r, c := p.endRow, p.endCol;
      ghost var before := desc;
      ghost var piece: seq<Pos>;
      if p.prev == Null || (p.prev.to.endRow + k <= p.endRow && p.prev.to.endCol + k <= p.endCol) {
        desc := PushWholeMatch(desc, r, c, k);
        piece := Block(p.endRow, p.endCol, k);
        DescendingIsBlock(p.endRow, p.endCol, k);
        ReversedAppend(before, Descending(p.endRow, p.endCol, k));
      } else {
        assert p.prev.to.endRow + 1 == p.endRow && p.prev.to.endCol + 1 == p.endCol;
        desc := desc + [(r, c)];
        piece := [(r, c)];
        ReversedAppend(before, [(r, c)]);
      }
      FillStep(k, best, ft, before, desc, piece);
      ft := p.prev;
    }
    recon := Reversed(desc);
  }

  // ---------------------------------------------------------------------------------
  // The compressed table and the queries

  /** The end columns along the table never decrease. */
  predicate Sorted(T: seq<MatchPair>)
  {
    forall x, y :: 0 <= x < y < |T| ==> T[x].endCol <= T[y].endCol
  }

  /** T' keeps every slot of T, and the end column at each slot can only have dropped. */
  predicate Refines(T: seq<MatchPair>, T': seq<MatchPair>)
  {
    |T| <= |T'| && forall x :: 0 <= x < |T| ==> T'[x].endCol <= T[x].endCol
  }

  /** The first slot whose end column is at least j, or |T| when there is none. */
  function FirstAtLeast(T: seq<MatchPair>, j: int): (t: nat)
    ensures t <= |T|
    ensures forall x :: 0 <= x < t ==> T[x].endCol < j
    ensures t < |T| ==> T[t].endCol >= j
  {
    if |T| == 0 || T[0].endCol >= j then 0
    else
      var t := 1 + FirstAtLeast(T[1..], j);
      assert forall x :: 1 <= x < t ==> T[x] == T[1..][x - 1];
      t
  }

  /** A scan or a search that stops at the first slot not below j stops at FirstAtLeast. */
  lemma FirstAtLeastUnique(T: seq<MatchPair>, j: int, t: nat)
    requires t <= |T| && forall x :: 0 <= x < t ==> T[x].endCol < j
    requires t < |T| ==> T[t].endCol >= j
    ensures t == FirstAtLeast(T, j)
  {
  }

  /**
   * The pair built for a begin event at (i, j): its match ends at (i + k - 1, j + k - 1);
   * it extends `prev_best`, the last slot whose end column is below j, unless that is
   * the sentinel (dp 0), in which case it starts a chain with dp k.
   */
  function QueryPair(k: nat, T: seq<MatchPair>, i: int, j: int): MatchPair
    requires |T| >= 1 && T[0].endCol < j
  {
    var prevBest := T[FirstAtLeast(T, j) - 1];
    if prevBest.dp > 0 then MatchPair(i + k - 1, j + k - 1, prevBest.dp + k, Link(prevBest))
    else MatchPair(i + k - 1, j + k - 1, k, Null)
  }

  /** The end event queued for a begin event. */
  function EndOf(k: nat, T: seq<MatchPair>, e: Event): Event
    requires |T| >= 1 && T[0].endCol < e.col
  {
    Event(e.row + k - 1, e.col + k - 1, Link(QueryPair(k, T, e.row, e.col)))
  }

  /** Every event's column lies after slot 0's end column. */
  predicate AfterSlotZero(T: seq<MatchPair>, es: seq<Event>)
  {
    |T| >= 1 && forall x :: 0 <= x < |es| ==> T[0].endCol < es[x].col
  }

  /** The end events queued, in order, for a list of begin events. */
  function Ends(k: nat, T: seq<MatchPair>, es: seq<Event>): (r: seq<Event>)
    requires AfterSlotZero(T, es)
    ensures |r| == |es|
  {
    if |es| == 0 then []
    else
      assert AfterSlotZero(T, es[..|es| - 1]);
      Ends(k, T, es[..|es| - 1]) + [EndOf(k, T, es[|es| - 1])]
  }

  lemma EndsStep(k: nat, T: seq<MatchPair>, es: seq<Event>, c: nat)
    requires c < |es| && AfterSlotZero(T, es)
    ensures AfterSlotZero(T, es[..c]) && AfterSlotZero(T, es[..c + 1])
    ensures Ends(k, T, es[..c + 1]) == Ends(k, T, es[..c]) + [EndOf(k, T, es[c])]
  {
    assert forall x :: 0 <= x < c ==> es[..c][x] == es[x] && es[..c + 1][x] == es[x];
    assert es[..c + 1][c] == es[c];
    assert es[..c + 1][..c] == es[..c];
  }

  /** What one pass of a row query's loop does to the two queues, in terms of B0 and E0. */
  lemma QueueStep(k: nat, T: seq<MatchPair>, B0: seq<Event>, n: nat, c: nat, E0: seq<Event>)
    requires c < n <= |B0| && AfterSlotZero(T, B0[..n])
    ensures AfterSlotZero(T, B0[..c]) && AfterSlotZero(T, B0[..c + 1])
    ensures (E0 + Ends(k, T, B0[..c])) + [EndOf(k, T, B0[c])] == E0 + Ends(k, T, B0[..c + 1])
    ensures B0[c + 1..] != [] ==> B0[c + 1..][0] == B0[c + 1] && B0[c + 1..][1..] == B0[c + 2..]
  {
    EndsStep(k, T, B0[..n], c);
    assert B0[..n][..c] == B0[..c] && B0[..n][..c + 1] == B0[..c + 1];
    ConcatAssoc(E0, Ends(k, T, B0[..c]), [EndOf(k, T, B0[c])]);
  }

  /** The columns of the events never decrease. */
  predicate ColsAscending(es: seq<Event>)
  {
    forall x, y :: 0 <= x < y < |es| ==> es[x].col <= es[y].col
  }

  /**
   * `AmortizedRowQuery`: pops the begin events of `row` and scans the threshold index
   * forward, never back, across them; each event gets a new pair and an end event.
   */
  method AmortizedRowQuery(k: nat, row: int, events: MatchEventsQueue, T: seq<MatchPair>, counter: ObjectCounter)
    requires counter.Valid()
    requires AfterSlotZero(T, events.begin[..RowPrefix(events.begin, row)])
    requires ColsAscending(events.begin[..RowPrefix(events.begin, row)])
    modifies events`begin, events`end, counter
    ensures counter.Valid()
    ensures var B0 := old(events.begin); var n := RowPrefix(B0, row);
      && events.begin == B0[n..]
      && events.end == old(events.end) + Ends(k, T, B0[..n])
      && counter.created == old(counter.created) + n
  {
    ghost var B0, E0 := events.begin, events.end;
    ghost var n := RowPrefix(B0, row);
    ghost var c := 0;
    assert forall x :: 0 <= x < n ==> B0[..n][x] == B0[x];
    var currThresholdIndex: nat := 0;
    var ok, event := events.PopBegin(row, Event(0, 0, Null));
    while ok
      invariant c <= n
      invariant ok ==> c < n && event == B0[c] && events.begin == B0[c + 1..]
      invariant !ok ==> c == n && events.begin == B0[n..]
      invariant events.end == E0 + Ends(k, T, B0[..c])
      invariant counter.Valid() && counter.created == old(counter.created) + c
      invariant currThresholdIndex <= |T|
      invariant ok ==> forall x :: 0 <= x < currThresholdIndex ==> T[x].endCol < event.col
      decreases n - c
    {
      var endEvent;
      currThresholdIndex, endEvent := AmortizedQuery(k, T, event, currThresholdIndex, counter);
      events.AddEnd(endEvent);
      QueueStep(k, T, B0, n, c, E0);
      c := c + 1;
      ok, event := events.PopBegin(row, event);
      if ok {
        assert B0[..n][c - 1].col <= B0[..n][c].col;
      }
    }
  }

  /**
   * The body of `AmortizedRowQuery`'s loop for one begin event at (i, j): the scan
   * moves the index from `start` to the first slot whose end column is not below j,
   * and the new pair, built from the slot before it, is carried by an end event.
   */
  method AmortizedQuery(k: nat, T: seq<MatchPair>, event: Event, start: nat, counter: ObjectCounter)
    returns (t: nat, endEvent: Event)
    requires counter.Valid() && |T| >= 1 && T[0].endCol < event.col
    requires start <= |T| && forall x :: 0 <= x < start ==> T[x].endCol < event.col
    modifies counter
    ensures counter.Valid() && counter.created == old(counter.created) + 1
    ensures t == FirstAtLeast(T, event.col) && endEvent == EndOf(k, T, event)
  {
    var i, j := event.row, event.col;
    t := start;
    while t < |T| && T[t].endCol < j
      invariant t <= |T|
      invariant forall x :: 0 <= x < t ==> T[x].endCol < j
    {
      t := t + 1;
    }
    FirstAtLeastUnique(T, j, t);
    var prevBest := T[t - 1];
    var matchPair := NewMatchPair(counter, i + k - 1, j + k - 1, k, Null);
    if prevBest.dp > 0 {
      matchPair := matchPair.(dp := prevBest.dp + k, prev := Link(prevBest));
    }
    endEvent := Event(i + k - 1, j + k - 1, Link(matchPair));
  }

  /** `std::lower_bound` by end column on a sorted table: the first slot not below j. */
  method LowerBound(T: seq<MatchPair>, j: int) returns (t: nat)
    requires Sorted(T)
    ensures t == FirstAtLeast(T, j)
  {
    var lo, hi := 0, |T|;
    while lo < hi
      invariant 0 <= lo <= hi <= |T|
      invariant forall x :: 0 <= x < lo ==> T[x].endCol < j
      invariant forall x :: hi <= x < |T| ==> T[x].endCol >= j
    {
      var mid := (lo + hi) / 2;
      if T[mid].endCol < j {
        lo := mid + 1;
      } else {
        hi := mid;
      }
    }
    FirstAtLeastUnique(T, j, lo);
    return lo;
  }

  /**
   * `ElementwiseRowQuery`: the same as `AmortizedRowQuery`, with a binary search per
   * event. Its search key is a freshly built pair that is then reused as the new pair,
   * so exactly one object is created per event here too.
   */
  method ElementwiseRowQuery(k: nat, row: int, events: MatchEventsQueue, T: seq<MatchPair>, counter: ObjectCounter)
    requires counter.Valid() && Sorted(T)
    requires AfterSlotZero(T, events.begin[..RowPrefix(events.begin, row)])
    modifies events`begin, events`end, counter
    ensures counter.Valid()
    ensures var B0 := old(events.begin); var n := RowPrefix(B0, row);
      && events.begin == B0[n..]
      && events.end == old(events.end) + Ends(k, T, B0[..n])
      && counter.created == old(counter.created) + n
  {
    ghost var B0, E0 := events.begin, events.end;
    ghost var n := RowPrefix(B0, row);
    ghost var c := 0;
    assert forall x :: 0 <= x < n ==> B0[..n][x] == B0[x];
    var ok, event := events.PopBegin(row, Event(0, 0, Null));
    while ok
      invariant c <= n
      invariant ok ==> c < n && event == B0[c] && events.begin == B0[c + 1..]
      invariant !ok ==> c == n && events.begin == B0[n..]
      invariant events.end == E0 + Ends(k, T, B0[..c])
      invariant counter.Valid() && counter.created == old(counter.created) + c
      decreases n - c
    {
      var endEvent := ElementwiseQuery(k, T, event, counter);
      events.AddEnd(endEvent);
      QueueStep(k, T, B0, n, c, E0);
      c := c + 1;
      ok, event := events.PopBegin(row, event);
    }
  }
  /**
   * The body of `ElementwiseRowQuery`'s loop for one begin event at (i, j): the search
   * key is a new pair with end column j, which is then rewritten into the pair for the
   * event and carried by an end event.
   */
  method ElementwiseQuery(k: nat, T: seq<MatchPair>, event: Event, counter: ObjectCounter)
    returns (endEvent: Event)
    requires counter.Valid() && Sorted(T) && |T| >= 1 && T[0].endCol < event.col
    modifies counter
    ensures counter.Valid() && counter.created == old(counter.created) + 1
    ensures endEvent == EndOf(k, T, event)
  {
    var i, j := event.row, event.col;
    var dummyMatchPair := NewMatchPair(counter, 0, j, 0, Null);
    var t := LowerBound(T, dummyMatchPair.endCol);
    var prevBest := T[t - 1];
    var matchPair := dummyMatchPair.(endRow := i + k - 1, endCol := j + k - 1, dp := k);
    if prevBest.dp > 0 {
      matchPair := matchPair.(dp := prevBest.dp + k, prev := Link(prevBest));
    }
    endEvent := Event(i + k - 1, j + k - 1, Link(matchPair));
  }


  // ---------------------------------------------------------------------------------
  // The row update

  /**
   * The LCSk++ continuation of P by the pairs R of the previous row: the first pair of
   * R whose end column is not below P's minus one; when it ends exactly one column
   * before P and would give P a larger dp, P is relinked to it with its dp plus one.
   */
  function Raised(R: seq<MatchPair>, P: MatchPair): MatchPair
  {
    var c := FirstAtLeast(R, P.endCol - 1);
    if c < |R| && R[c].endCol + 1 == P.endCol && R[c].dp + 1 > P.dp then P.(dp := R[c].dp + 1, prev := Link(R[c]))
    else P
  }

  /** The end columns strictly increase along R. */
  predicate StrictlySorted(R: seq<MatchPair>)
  {
    forall x, y :: 0 <= x < y < |R| ==> R[x].endCol < R[y].endCol
  }

  /**
   * On a previous row with distinct end columns, P is raised exactly when some pair of
   * that row ends one column before it with a dp that, plus one, beats P's.
   */
  lemma RaisedSpec(R: seq<MatchPair>, P: MatchPair)
    requires StrictlySorted(R)
    ensures forall c :: 0 <= c < |R| && R[c].endCol + 1 == P.endCol ==>
      Raised(R, P) == if R[c].dp + 1 > P.dp then P.(dp := R[c].dp + 1, prev := Link(R[c])) else P
    ensures (forall c :: 0 <= c < |R| ==> R[c].endCol + 1 != P.endCol) ==> Raised(R, P) == P
  {
  }

  /**
   * The continuation step of `RowUpdate` for P (lines 85-97): the index moves on from
   * `start` past the pairs ending more than one column before P.
   */
  method Continuation(R: seq<MatchPair>, start: nat, P: MatchPair) returns (c: nat, P': MatchPair)
    requires start <= |R| && forall x :: 0 <= x < start ==> R[x].endCol + 1 < P.endCol
    ensures c == FirstAtLeast(R, P.endCol - 1) && P' == Raised(R, P)
  {
    c := start;
    while c < |R| && R[c].endCol + 1 < P.endCol
      invariant c <= |R|
      invariant forall x :: 0 <= x < c ==> R[x].endCol + 1 < P.endCol
    {
      c := c + 1;
    }
    FirstAtLeastUnique(R, P.endCol - 1, c);
    P' := P;
    if c < |R| && R[c].endCol + 1 == P.endCol {
      var continuationDp := R[c].dp + 1;
      if continuationDp > P.dp {
        P' := P'.(dp := continuationDp, prev := Link(R[c]));
      }
    }
  }

  /** The padding loop (lines 102-106): placeholders (i + 1, j + 1, idx) up to slot dp. */
  function Padded(T: seq<MatchPair>, i: int, j: int, dp: int): seq<MatchPair>
    decreases dp + 1 - |T|
  {
    if |T| > dp then T else Padded(T + [MatchPair(i + 1, j + 1, |T|, Null)], i, j, dp)
  }

  /**
   * The write loop (lines 108-110): from slot idx down, while above lo and the slot's
   * end column is beyond j, the slot receives P.
   */
  function WrittenDown(T: seq<MatchPair>, P: MatchPair, j: int, idx: int, lo: int): seq<MatchPair>
    decreases idx - lo
  {
    if idx > lo && 0 <= idx < |T| && j < T[idx].endCol then WrittenDown(T[idx := P], P, j, idx - 1, lo) else T
  }

  /** The LCSk++ write of P, whose end event is at column j on row i. */
  function PadWrite(k: nat, T: seq<MatchPair>, P: MatchPair, i: int, j: int): seq<MatchPair>
  {
    WrittenDown(Padded(T, i, j, P.dp), P, j, P.dp, P.dp - k)
  }

  lemma {:induction false} PaddedSpec(T: seq<MatchPair>, i: int, j: int, dp: int)
    ensures |Padded(T, i, j, dp)| == if |T| > dp then |T| else dp + 1
    ensures forall x :: 0 <= x < |T| ==> Padded(T, i, j, dp)[x] == T[x]
    ensures forall x :: |T| <= x < |Padded(T, i, j, dp)| ==> Padded(T, i, j, dp)[x].endCol == j + 1
    decreases dp + 1 - |T|
  {
    if |T| <= dp {
      var T' := T + [MatchPair(i + 1, j + 1, |T|, Null)];
      PaddedSpec(T', i, j, dp);
      assert forall x :: 0 <= x < |T| ==> T'[x] == T[x];
    }
  }

  /**
   * When the slots of (lo, idx] that lie beyond j form an upper segment, the write loop
   * gives P to exactly those slots.
   */
  lemma {:induction false} WrittenDownSpec(T: seq<MatchPair>, P: MatchPair, j: int, idx: int, lo: int)
    requires -1 <= lo && idx < |T|
    requires forall x, y :: lo < x <= y <= idx && j < T[x].endCol ==> j < T[y].endCol
    ensures |WrittenDown(T, P, j, idx, lo)| == |T|
    ensures forall x :: 0 <= x < |T| ==>
      WrittenDown(T, P, j, idx, lo)[x] == if lo < x <= idx && j < T[x].endCol then P else T[x]
    decreases idx - lo
  {
    if idx > lo && 0 <= idx < |T| && j < T[idx].endCol {
      var T' := T[idx := P];
      WrittenDownSpec(T', P, j, idx - 1, lo);
    } else if idx > lo {
      assert forall x :: lo < x <= idx ==> j >= T[x].endCol;
    }
  }

  /**
   * The LCSk++ write, slot by slot: P lands in every slot of (dp - k, dp] that is new
   * or whose end column is beyond j; every other slot keeps its pair.
   */
  lemma PadWriteSpec(k: nat, T: seq<MatchPair>, P: MatchPair, i: int, j: int)
    requires Sorted(T) && P.dp >= k && P.dp < |T| + k
    ensures var W := PadWrite(k, T, P, i, j);
      && |W| == (if |T| > P.dp then |T| else P.dp + 1)
      && forall x :: 0 <= x < |W| ==>
           W[x] == if P.dp - k < x <= P.dp && (x >= |T| || j < T[x].endCol) then P else T[x]
  {
    var dp := P.dp;
    var T' := Padded(T, i, j, dp);
    PaddedSpec(T, i, j, dp);
    forall x, y | dp - k < x <= y <= dp && j < T'[x].endCol ensures j < T'[y].endCol {
      if y < |T| {
        assert T'[x] == T[x] && T'[y] == T[y];
      }
    }
    WrittenDownSpec(T', P, j, dp, dp - k);
  }

  /**
   * What the write keeps: the table stays sorted, refines the old one and keeps slot 0;
   * slot dp ends no later than j; only slots in (dp - k, dp] change, and to P.
   */
  lemma PadWriteKeeps(k: nat, T: seq<MatchPair>, P: MatchPair, i: int, j: int)
    requires Sorted(T) && |T| >= 1 && P.dp >= k && P.dp < |T| + k
    requires T[P.dp - k].endCol <= j && P.endCol == j
    ensures var W := PadWrite(k, T, P, i, j);
      && Sorted(W) && Refines(T, W) && W[0] == T[0] && |W| > P.dp && W[P.dp].endCol <= j
      && forall x :: 0 <= x < |W| ==> (W[x] == P && P.dp - k < x <= P.dp) || (x < |T| && W[x] == T[x])
  {
    var W := PadWrite(k, T, P, i, j);
    PadWriteSpec(k, T, P, i, j);
    var dp := P.dp;
    forall x, y | 0 <= x < y < |W| ensures W[x].endCol <= W[y].endCol {
      var wx := dp - k < x <= dp && (x >= |T| || j < T[x].endCol);
      var wy := dp - k < y <= dp && (y >= |T| || j < T[y].endCol);
      if wx && !wy {
        assert T[x].endCol <= T[y].endCol;
      } else if !wx && wy {
        if x <= dp - k { assert T[x].endCol <= T[dp - k].endCol; }
      } else if !wx && !wy {
        assert T[x].endCol <= T[y].endCol;
      }
    }
  }

  /**
   * The LCSk++ branch's filing of P (lines 101-110): pads the table up to slot dp,
   * counting each placeholder, then writes P downwards from slot dp.
   */
  method PadAndWrite(k: nat, T: seq<MatchPair>, P: MatchPair, i: int, j: int, counter: ObjectCounter)
    returns (T': seq<MatchPair>)
    requires counter.Valid() && P.dp + 1 >= k
    modifies counter
    ensures counter.Valid()
    ensures counter.created == old(counter.created) + (if |T| > P.dp then 0 else P.dp + 1 - |T|)
    ensures T' == PadWrite(k, T, P, i, j)
  {
    var dp := P.dp;
    T' := T;
    while |T'| <= dp
      invariant |T| <= |T'| && (|T'| > |T| ==> |T'| <= dp + 1)
      invariant Padded(T', i, j, dp) == Padded(T, i, j, dp)
      invariant counter.Valid() && counter.created == old(counter.created) + (|T'| - |T|)
      decreases dp + 1 - |T'|
    {
      var idx := |T'|;
      var dummy := NewMatchPair(counter, i + 1, j + 1, idx, Null);
      T' := T' + [dummy];
    }
    var idx := dp;
    while idx > dp - k && j < T'[idx].endCol
      invariant -1 <= dp - k <= idx <= dp < |T'|
      invariant WrittenDown(T', P, j, idx, dp - k) == PadWrite(k, T, P, i, j)
      decreases idx
    {
      T' := T'[idx := P];
      idx := idx - 1;
    }
  }

  /** The LCSk write (lines 112-117): slot dp / k is appended, or replaced by an earlier end. */
  function WriteLcsk(k: nat, T: seq<MatchPair>, P: MatchPair, j: int): seq<MatchPair>
    requires k >= 1
  {
    var idx := P.dp / k;
    if idx == |T| then T + [P]
    else if 0 <= idx < |T| && j < T[idx].endCol then T[idx := P]
    else T
  }

  /** Lines 112-117 in place: the slot is one past the end or within the table. */
  method LcskWrite(k: nat, T: seq<MatchPair>, P: MatchPair, j: int) returns (T': seq<MatchPair>)
    requires k >= 1 && P.dp >= 0 && P.dp / k <= |T|
    ensures T' == WriteLcsk(k, T, P, j) && |T'| >= |T|
  {
    T' := T;
    var idx := P.dp / k;
    if idx == |T'| {
      T' := T' + [P];
    } else if j < T'[idx].endCol {
      T' := T'[idx := P];
    }
  }

  predicate AllLinked(es: seq<Event>)
  {
    forall x :: 0 <= x < |es| ==> es[x].pair.Link?
  }

  /** The pair an end event files: continued first in LCSk++. */
  function RaisedPair(pp: bool, R: seq<MatchPair>, e: Event): MatchPair
    requires e.pair.Link?
  {
    if pp then Raised(R, e.pair.to) else e.pair.to
  }

  /** Filing P, which came with end event e, in T. */
  function Filed(k: nat, pp: bool, T: seq<MatchPair>, P: MatchPair, e: Event): seq<MatchPair>
    requires k >= 1
  {
    if pp then PadWrite(k, T, P, e.row, e.col) else WriteLcsk(k, T, P, e.col)
  }

  /** The table after the end events es, in order, have filed their pairs into T. */
  function RowTable(k: nat, pp: bool, T: seq<MatchPair>, R: seq<MatchPair>, es: seq<Event>): seq<MatchPair>
    requires k >= 1 && AllLinked(es)
  {
    if |es| == 0 then T
    else
      var e := es[|es| - 1];
      assert AllLinked(es[..|es| - 1]);
      Filed(k, pp, RowTable(k, pp, T, R, es[..|es| - 1]), RaisedPair(pp, R, e), e)
  }

  /** The pairs the end events es file, kept as the next row's previous-row pairs. */
  function RowPairs(pp: bool, R: seq<MatchPair>, es: seq<Event>): (r: seq<MatchPair>)
    requires AllLinked(es)
    ensures |r| == |es| && forall x :: 0 <= x < |es| ==> r[x] == RaisedPair(pp, R, es[x])
  {
    seq(|es|, x requires 0 <= x < |es| => RaisedPair(pp, R, es[x]))
  }

  /** What `RowUpdate` needs of the end events of its row, whatever the table holds. */
  predicate FileReady(k: nat, pp: bool, T: seq<MatchPair>, es: seq<Event>)
    requires k >= 1
  {
    && AllLinked(es) && ColsAscending(es)
    && forall x :: 0 <= x < |es| ==>
         && es[x].col == es[x].pair.to.endCol && es[x].pair.to.dp >= k
         && (!pp ==> es[x].pair.to.dp / k <= |T|)
  }

  lemma RowTableStep(k: nat, pp: bool, T: seq<MatchPair>, R: seq<MatchPair>, E0: seq<Event>, n: nat, c: nat)
    requires k >= 1 && c < n <= |E0| && FileReady(k, pp, T, E0[..n])
    ensures AllLinked(E0[..c]) && AllLinked(E0[..c + 1]) && E0[c].pair.Link?
    ensures E0[c].col == E0[c].pair.to.endCol && E0[c].pair.to.dp >= k && (!pp ==> E0[c].pair.to.dp / k <= |T|)
    ensures c + 1 < n ==> E0[c + 1].pair.Link? && E0[c + 1].col == E0[c + 1].pair.to.endCol
    ensures c + 1 < n ==> E0[c].col <= E0[c + 1].col
    ensures RowTable(k, pp, T, R, E0[..c + 1])
         == Filed(k, pp, RowTable(k, pp, T, R, E0[..c]), RaisedPair(pp, R, E0[c]), E0[c])
    ensures RowPairs(pp, R, E0[..c + 1]) == RowPairs(pp, R, E0[..c]) + [RaisedPair(pp, R, E0[c])]
  {
    var es := E0[..n];
    assert es[c] == E0[c];
    assert c + 1 < n ==> es[c + 1] == E0[c + 1];
    assert forall x :: 0 <= x <= c ==> E0[..c + 1][x] == es[x];
    assert E0[..c + 1][..c] == E0[..c];
  }

  /**
   * `RowUpdate`: pops the end events of `row`; in LCSk++ each pair is first continued
   * from the previous row's pairs (scanned forward across the row) and then filed by
   * `PadAndWrite`, and the filed pairs become the next previous row; in LCSk each pair
   * goes to slot dp / k.
   */
  method RowUpdate(k: nat, row: int, events: MatchEventsQueue, T: seq<MatchPair>, prevRow: seq<MatchPair>,
                   pp: bool, counter: ObjectCounter)
    returns (T': seq<MatchPair>, currRow: seq<MatchPair>)
    requires k >= 1 && counter.Valid()
    requires FileReady(k, pp, T, events.end[..RowPrefix(events.end, row)])
    modifies events`end, counter
    ensures counter.Valid()
    ensures var E0 := old(events.end); var n := RowPrefix(E0, row);
      && events.end == E0[n..]
      && AllLinked(E0[..n])
      && T' == RowTable(k, pp, T, prevRow, E0[..n])
      && currRow == (if pp then RowPairs(pp, prevRow, E0[..n]) else [])
      && (!pp ==> counter.created == old(counter.created))
  {
    ghost var E0 := events.end;
    ghost var n := RowPrefix(E0, row);
    ghost var c := 0;
    assert E0[..0] == [];
    T', currRow := T, [];
    var currContinuationIndex: nat := 0;
    var ok, event := events.PopEnd(row, Event(0, 0, Null));
    while ok
      invariant c <= n && AllLinked(E0[..c])
      invariant ok ==> c < n && event == E0[c] && events.end == E0[c + 1..]
      invariant !ok ==> c == n && events.end == E0[n..]
      invariant T' == RowTable(k, pp, T, prevRow, E0[..c])
      invariant currRow == (if pp then RowPairs(pp, prevRow, E0[..c]) else [])
      invariant !pp ==> |T'| >= |T|
      invariant counter.Valid() && (!pp ==> counter.created == old(counter.created))
      invariant currContinuationIndex <= |prevRow|
      invariant ok && pp ==>
        event.pair.Link? && forall x :: 0 <= x < currContinuationIndex ==> prevRow[x].endCol + 1 < event.pair.to.endCol
      decreases n - c
    {
      RowTableStep(k, pp, T, prevRow, E0, n, c);
      var i, j := event.row, event.col;
      var matchPairEnd := event.pair.to;
      if pp {
        currContinuationIndex, matchPairEnd := Continuation(prevRow, currContinuationIndex, matchPairEnd);
        currRow := currRow + [matchPairEnd];
        T' := PadAndWrite(k, T', matchPairEnd, i, j, counter);
      } else {
        T' := LcskWrite(k, T', matchPairEnd, j);
      }
      c := c + 1;
      ok, event := events.PopEnd(row, event);
    }
  }

  // ---------------------------------------------------------------------------------
  // Invariants of the sweep

  /** The pair P links to, the sentinel standing for a null link. */
  function Pred(P: MatchPair): MatchPair
  {
    if P.prev.Link? then P.prev.to else Sentinel()
  }

  /**
   * The slot a pair waiting in an end event is filed relative to: in LCSk the slot of
   * its predecessor (dp / k), in LCSk++ the slot numbered by its predecessor's dp.
   */
  function Anchor(k: nat, pp: bool, P: MatchPair): int
    requires k >= 1
  {
    if pp then Pred(P).dp else Pred(P).dp / k
  }

  /** What filing P in T relies on: its anchor slot exists and ends before P does. */
  predicate Pending(k: nat, pp: bool, T: seq<MatchPair>, P: MatchPair)
    requires k >= 1
  {
    var s := Anchor(k, pp, P);
    && 0 <= s < |T| && T[s].endCol < P.endCol
    && if pp then P.dp - k <= Pred(P).dp else P.dp == Pred(P).dp + k && Pred(P).dp == k * s
  }

  /** Slot W.dp of T exists and ends no later than W. */
  predicate Covered(T: seq<MatchPair>, W: MatchPair)
  {
    0 <= W.dp < |T| && T[W.dp].endCol <= W.endCol
  }

  /**
   * The compressed table before row `row` is updated: its shape (TableShape) and its
   * pairs (TableLinks).
   */
  ghost predicate TableInv(a: Str, b: Str, k: nat, pp: bool, row: int, T: seq<MatchPair>)
    requires k >= 1
  {
    TableShape(k, pp, T) && TableLinks(a, b, k, pp, row, T)
  }

  /**
   * Slot 0 is the sentinel and end columns never decrease; in LCSk slot x holds dp
   * k * x, in LCSk++ a dp of at least x whose own slot ends no later than the pair.
   */
  predicate TableShape(k: nat, pp: bool, T: seq<MatchPair>)
  {
    && |T| >= 1 && T[0] == Sentinel() && Sorted(T)
    && (forall x :: 0 <= x < |T| ==> if pp then Covered(T, T[x]) && x <= T[x].dp else T[x].dp == k * x)
  }

  /** Every slot but 0 holds a well-linked pair ending above `row`. */
  ghost predicate TableLinks(a: Str, b: Str, k: nat, pp: bool, row: int, T: seq<MatchPair>)
  {
    forall x :: 1 <= x < |T| ==> WellLinked(a, b, k, pp, T[x]) && T[x].endRow < row
  }

  /** An end event carries a well-linked pair ending at the event's position, ready to be filed. */
  ghost predicate EndOk(a: Str, b: Str, k: nat, pp: bool, T: seq<MatchPair>, e: Event)
    requires k >= 1
  {
    && e.pair.Link? && WellLinked(a, b, k, pp, e.pair.to)
    && e.row == e.pair.to.endRow && e.col == e.pair.to.endCol
    && Pending(k, pp, T, e.pair.to)
  }

  /** Ordered by row, then strictly by column. */
  predicate LexSorted(E: seq<Event>)
  {
    forall x, y :: 0 <= x < y < |E| ==> E[x].row < E[y].row || (E[x].row == E[y].row && E[x].col < E[y].col)
  }

  /** The end queue: ready events on rows in [lo, hi), in row-then-column order. */
  ghost predicate EndQueueInv(a: Str, b: Str, k: nat, pp: bool, lo: int, hi: int, T: seq<MatchPair>, E: seq<Event>)
    requires k >= 1
  {
    && (forall x :: 0 <= x < |E| ==> EndOk(a, b, k, pp, T, E[x]) && lo <= E[x].row < hi)
    && LexSorted(E)
  }

  /** The previous row's pairs (LCSk++): well linked, ending on row - 1, covered by T. */
  ghost predicate PrevRowInv(a: Str, b: Str, k: nat, pp: bool, row: int, T: seq<MatchPair>, R: seq<MatchPair>)
  {
    forall x :: 0 <= x < |R| ==> WellLinked(a, b, k, pp, R[x]) && R[x].endRow == row - 1 && Covered(T, R[x])
  }

  /** A well-linked pair has dp at least k and both of its windows inside the strings. */
  lemma {:induction false} WellLinkedBounds(a: Str, b: Str, k: nat, pp: bool, P: MatchPair)
    requires WellLinked(a, b, k, pp, P)
    ensures P.dp >= k
    ensures P.endRow - k + 1 >= 0 && P.endCol - k + 1 >= 0 && P.endRow < |a| && P.endCol < |b|
  {
    if P.prev.Link? {
      WellLinkedBounds(a, b, k, pp, P.prev.to);
    }
  }

  /** Pending and Covered survive a refinement of the table. */
  lemma RefinesKeeps(k: nat, pp: bool, T: seq<MatchPair>, T': seq<MatchPair>, P: MatchPair)
    requires k >= 1 && Refines(T, T')
    ensures Pending(k, pp, T, P) ==> Pending(k, pp, T', P)
    ensures Covered(T, P) ==> Covered(T', P)
  {
  }

  lemma RefinesTrans(T: seq<MatchPair>, T': seq<MatchPair>, T'': seq<MatchPair>)
    requires Refines(T, T') && Refines(T', T'')
    ensures Refines(T, T'')
  {
  }

  /**
   * A query on a table that satisfies the invariant, for a k-match at (row, j): the new
   * pair ends at (row + k - 1, j + k - 1), is well linked, and is ready to be filed.
   */
  lemma QueryPairOk(a: Str, b: Str, k: nat, pp: bool, row: int, T: seq<MatchPair>, j: int)
    requires k >= 1 && TableInv(a, b, k, pp, row, T) && SameWindow(a, row, b, j, k)
    ensures T[0].endCol < j
    ensures var P := QueryPair(k, T, row, j);
      && P.endRow == row + k - 1 && P.endCol == j + k - 1
      && WellLinked(a, b, k, pp, P) && Pending(k, pp, T, P)
  {
    QueryPairPending(k, pp, T, row, j);
    QueryPairLinked(a, b, k, pp, row, T, j);
  }

  /** The queried pair ends the window at (row, j) and links to a pair fully before it. */
  lemma QueryPairLinked(a: Str, b: Str, k: nat, pp: bool, row: int, T: seq<MatchPair>, j: int)
    requires k >= 1 && TableInv(a, b, k, pp, row, T) && SameWindow(a, row, b, j, k) && T[0].endCol < j
    ensures var P := QueryPair(k, T, row, j);
      && P.endRow == row + k - 1 && P.endCol == j + k - 1 && WellLinked(a, b, k, pp, P)
  {
    var t := FirstAtLeast(T, j);
    var B := T[t - 1];
    var P := QueryPair(k, T, row, j);
    if B.dp > 0 {
      assert t - 1 >= 1;
      assert WellLinked(a, b, k, pp, B) && B.endRow < row && B.endCol < j;
      assert P.prev == Link(B) && P.dp == B.dp + k && FullyBefore(B, P, k);
    } else {
      assert P.prev == Null && P.dp == k;
    }
  }

  lemma QueryPairPending(k: nat, pp: bool, T: seq<MatchPair>, row: int, j: int)
    requires k >= 1 && TableShape(k, pp, T) && j >= 0
    ensures T[0].endCol < j && Pending(k, pp, T, QueryPair(k, T, row, j))
  {
    var t := FirstAtLeast(T, j);
    var B := T[t - 1];
    var P := QueryPair(k, T, row, j);
    if B.dp > 0 {
      assert Pred(P) == B && P.dp == B.dp + k && B.endCol < j;
      if pp {
        assert Covered(T, B);
      } else {
        assert B.dp == (t - 1) * k;
        DivModUnique(t - 1, k, 0);
        assert Anchor(k, pp, P) == t - 1;
      }
    } else {
      assert Pred(P) == Sentinel() && P.dp == k;
      assert Anchor(k, pp, P) == 0;
    }
  }

  /**
   * Filing one pair that ends on `row` keeps the table invariant (for the next row),
   * refines the table, and in LCSk++ leaves the pair covered.
   */
  lemma FileOk(a: Str, b: Str, k: nat, pp: bool, row: int, T: seq<MatchPair>, P: MatchPair, i: int, j: int)
    requires k >= 1 && TableInv(a, b, k, pp, row + 1, T)
    requires WellLinked(a, b, k, pp, P) && P.endRow == row && P.endCol == j && Pending(k, pp, T, P)
    ensures var W := if pp then PadWrite(k, T, P, i, j) else WriteLcsk(k, T, P, j);
      && TableInv(a, b, k, pp, row + 1, W) && Refines(T, W) && (pp ==> Covered(W, P))
  {
    WellLinkedBounds(a, b, k, pp, P);
    var W := if pp then PadWrite(k, T, P, i, j) else WriteLcsk(k, T, P, j);
    if pp {
      FileShapePlus(k, T, P, i, j);
    } else {
      FileShapePlain(k, T, P, j);
    }
    FileLinks(a, b, k, pp, row + 1, T, P, W);
  }

  /** A table whose slots are P or old ones keeps its links when P is well linked. */
  lemma FileLinks(a: Str, b: Str, k: nat, pp: bool, row: int, T: seq<MatchPair>, P: MatchPair, W: seq<MatchPair>)
    requires TableLinks(a, b, k, pp, row, T) && WellLinked(a, b, k, pp, P) && P.endRow < row
    requires forall x :: 1 <= x < |W| ==> W[x] == P || (x < |T| && W[x] == T[x])
    ensures TableLinks(a, b, k, pp, row, W)
  {
  }

  lemma FileShapePlus(k: nat, T: seq<MatchPair>, P: MatchPair, i: int, j: int)
    requires k >= 1 && TableShape(k, true, T) && P.dp >= k && P.endCol == j && Pending(k, true, T, P)
    ensures var W := PadWrite(k, T, P, i, j);
      && TableShape(k, true, W) && Refines(T, W) && Covered(W, P)
      && forall x :: 1 <= x < |W| ==> W[x] == P || (x < |T| && W[x] == T[x])
  {
    var s := Pred(P).dp;
    assert T[P.dp - k].endCol <= T[s].endCol;
    PadWriteKeeps(k, T, P, i, j);
    var W := PadWrite(k, T, P, i, j);
    forall x | 0 <= x < |W| ensures Covered(W, W[x]) && x <= W[x].dp {
      if !(W[x] == P && P.dp - k < x <= P.dp) {
        assert Covered(T, T[x]);
        RefinesKeeps(k, true, T, W, T[x]);
      }
    }
  }

  lemma FileShapePlain(k: nat, T: seq<MatchPair>, P: MatchPair, j: int)
    requires k >= 1 && TableShape(k, false, T) && P.endCol == j && Pending(k, false, T, P)
    ensures var W := WriteLcsk(k, T, P, j);
      && TableShape(k, false, W) && Refines(T, W)
      && forall x :: 1 <= x < |W| ==> W[x] == P || (x < |T| && W[x] == T[x])
  {
    var s := Anchor(k, false, P);
    assert P.dp == (s + 1) * k;
    DivModUnique(s + 1, k, 0);
    var idx := s + 1;
    assert P.dp / k == idx && idx >= 1;
    var W := WriteLcsk(k, T, P, j);
    if idx == |T| {
      assert W == T + [P];
      forall x, y | 0 <= x < y < |W| ensures W[x].endCol <= W[y].endCol {
        if y == |T| { assert T[x].endCol <= T[s].endCol; }
      }
    } else if j < T[idx].endCol {
      assert W == T[idx := P];
      forall x, y | 0 <= x < y < |W| ensures W[x].endCol <= W[y].endCol {
        if y == idx { assert T[x].endCol <= T[s].endCol; }
        else if x == idx { assert T[idx].endCol <= T[y].endCol; }
      }
    }
  }

  /** The previous row's pairs stay covered when the table is refined. */
  lemma PrevRowRefines(a: Str, b: Str, k: nat, pp: bool, row: int, T: seq<MatchPair>, T': seq<MatchPair>, R: seq<MatchPair>)
    requires PrevRowInv(a, b, k, pp, row, T, R) && Refines(T, T')
    ensures PrevRowInv(a, b, k, pp, row, T', R)
  {
    forall x | 0 <= x < |R| ensures Covered(T', R[x]) {
      assert Covered(T, R[x]);
    }
  }

  /**
   * Continuing a ready pair from the previous row's pairs keeps it well linked and
   * ready: a continuation is a one-step diagonal from a covered pair.
   */
  lemma RaisedOk(a: Str, b: Str, k: nat, row: int, T: seq<MatchPair>, R: seq<MatchPair>, P: MatchPair)
    requires k >= 1 && PrevRowInv(a, b, k, true, row, T, R)
    requires WellLinked(a, b, k, true, P) && P.endRow == row && Pending(k, true, T, P)
    ensures var P' := Raised(R, P);
      && P'.endRow == P.endRow && P'.endCol == P.endCol && P'.dp >= P.dp
      && WellLinked(a, b, k, true, P') && Pending(k, true, T, P')
  {
    var c := FirstAtLeast(R, P.endCol - 1);
    if c < |R| && R[c].endCol + 1 == P.endCol && R[c].dp + 1 > P.dp {
      var P' := Raised(R, P);
      assert P' == P.(dp := R[c].dp + 1, prev := Link(R[c]));
      assert WellLinked(a, b, k, true, R[c]) && R[c].endRow == row - 1 && Covered(T, R[c]);
      assert Diagonal(R[c], P');
      assert Pred(P') == R[c];
    }
  }

  /**
   * One row's filing, all events together: the table invariant moves on to the next
   * row, the table is refined, and the filed pairs are the next row's previous row.
   */
  lemma {:induction false} RowTableKeeps(a: Str, b: Str, k: nat, pp: bool, row: int, T: seq<MatchPair>,
                                        R: seq<MatchPair>, es: seq<Event>)
    requires k >= 1 && TableInv(a, b, k, pp, row + 1, T) && AllLinked(es)
    requires forall x :: 0 <= x < |es| ==> EndOk(a, b, k, pp, T, es[x]) && es[x].row == row
    requires pp ==> PrevRowInv(a, b, k, true, row, T, R)
    ensures var W := RowTable(k, pp, T, R, es);
      && TableInv(a, b, k, pp, row + 1, W) && Refines(T, W)
      && (pp ==> PrevRowInv(a, b, k, true, row + 1, W, RowPairs(pp, R, es)))
  {
    if |es| > 0 {
      var es' := es[..|es| - 1];
      var e := es[|es| - 1];
      assert forall x :: 0 <= x < |es'| ==> es'[x] == es[x];
      RowTableKeeps(a, b, k, pp, row, T, R, es');
      RowPairsLast(pp, R, es);
      FileStepKeeps(a, b, k, pp, row, T, RowTable(k, pp, T, R, es'), R, RowPairs(pp, R, es'), e);
    }
  }

  /** The last event of RowTableKeeps. */
  lemma FileStepKeeps(a: Str, b: Str, k: nat, pp: bool, row: int, T: seq<MatchPair>, W': seq<MatchPair>,
                      R: seq<MatchPair>, RP: seq<MatchPair>, e: Event)
    requires k >= 1 && TableInv(a, b, k, pp, row + 1, W') && Refines(T, W')
    requires EndOk(a, b, k, pp, T, e) && e.row == row
    requires pp ==> PrevRowInv(a, b, k, true, row, T, R) && PrevRowInv(a, b, k, true, row + 1, W', RP)
    ensures var W := Filed(k, pp, W', RaisedPair(pp, R, e), e);
      && TableInv(a, b, k, pp, row + 1, W) && Refines(T, W)
      && (pp ==> PrevRowInv(a, b, k, true, row + 1, W, RP + [RaisedPair(pp, R, e)]))
  {
    if pp {
      FileStepPlus(a, b, k, row, T, W', R, RP, e);
    } else {
      FileStepPlain(a, b, k, row, T, W', e);
    }
  }

  lemma FileStepPlain(a: Str, b: Str, k: nat, row: int, T: seq<MatchPair>, W': seq<MatchPair>, e: Event)
    requires k >= 1 && TableInv(a, b, k, false, row + 1, W') && Refines(T, W')
    requires EndOk(a, b, k, false, T, e) && e.row == row
    ensures var W := WriteLcsk(k, W', e.pair.to, e.col);
      && TableInv(a, b, k, false, row + 1, W) && Refines(T, W)
  {
    var P := e.pair.to;
    RefinesKeeps(k, false, T, W', P);
    FileOk(a, b, k, false, row, W', P, e.row, e.col);
    RefinesTrans(T, W', WriteLcsk(k, W', P, e.col));
  }

  lemma FileStepPlus(a: Str, b: Str, k: nat, row: int, T: seq<MatchPair>, W': seq<MatchPair>,
                     R: seq<MatchPair>, RP: seq<MatchPair>, e: Event)
    requires k >= 1 && TableInv(a, b, k, true, row + 1, W') && Refines(T, W')
    requires EndOk(a, b, k, true, T, e) && e.row == row
    requires PrevRowInv(a, b, k, true, row, T, R) && PrevRowInv(a, b, k, true, row + 1, W', RP)
    ensures var W := PadWrite(k, W', Raised(R, e.pair.to), e.row, e.col);
      && TableInv(a, b, k, true, row + 1, W) && Refines(T, W)
      && PrevRowInv(a, b, k, true, row + 1, W, RP + [Raised(R, e.pair.to)])
  {
    var P0 := e.pair.to;
    RefinesKeeps(k, true, T, W', P0);
    PrevRowRefines(a, b, k, true, row, T, W', R);
    RaisedOk(a, b, k, row, W', R, P0);
    var P := Raised(R, P0);
    FileOk(a, b, k, true, row, W', P, e.row, e.col);
    var W := PadWrite(k, W', P, e.row, e.col);
    RefinesTrans(T, W', W);
    PrevRowRefines(a, b, k, true, row + 1, W', W, RP);
    PrevRowSnoc(a, b, k, row + 1, W, RP, P);
  }

  lemma PrevRowSnoc(a: Str, b: Str, k: nat, row: int, W: seq<MatchPair>, RP: seq<MatchPair>, P: MatchPair)
    requires PrevRowInv(a, b, k, true, row, W, RP)
    requires WellLinked(a, b, k, true, P) && P.endRow == row - 1 && Covered(W, P)
    ensures PrevRowInv(a, b, k, true, row, W, RP + [P])
  {
    var RP' := RP + [P];
    forall x | 0 <= x < |RP'|
      ensures WellLinked(a, b, k, true, RP'[x]) && RP'[x].endRow == row - 1 && Covered(W, RP'[x])
    {
      if x < |RP| { assert RP'[x] == RP[x]; }
    }
  }

  lemma RowPairsLast(pp: bool, R: seq<MatchPair>, es: seq<Event>)
    requires |es| > 0 && AllLinked(es)
    ensures AllLinked(es[..|es| - 1])
    ensures RowPairs(pp, R, es) == RowPairs(pp, R, es[..|es| - 1]) + [RaisedPair(pp, R, es[|es| - 1])]
  {
    var es' := es[..|es| - 1];
    assert forall x :: 0 <= x < |es'| ==> es'[x] == es[x];
  }

  // ---------------------------------------------------------------------------------
  // The sweep

  /** The begin events of row `row`, one per matching column, in the order of M. */
  function Begins(row: int, M: seq<int>): (r: seq<Event>)
    ensures |r| == |M| && forall x :: 0 <= x < |M| ==> r[x] == Event(row, M[x], Null)
  {
    seq(|M|, x requires 0 <= x < |M| => Event(row, M[x], Null))
  }

  lemma {:induction false} EndsIndex(k: nat, T: seq<MatchPair>, es: seq<Event>)
    requires AfterSlotZero(T, es)
    ensures forall x :: 0 <= x < |es| ==> Ends(k, T, es)[x] == EndOf(k, T, es[x])
  {
    if |es| > 0 {
      var es' := es[..|es| - 1];
      assert AfterSlotZero(T, es');
      EndsIndex(k, T, es');
      assert forall x :: 0 <= x < |es'| ==> es'[x] == es[x];
    }
  }

  /** A queue whose events are all on `row` is drained whole. */
  lemma {:induction false} RowPrefixAll(q: seq<Event>, row: int)
    requires forall x :: 0 <= x < |q| ==> q[x].row == row
    ensures RowPrefix(q, row) == |q|
  {
    if |q| > 0 {
      assert forall x :: 0 <= x < |q| - 1 ==> q[1..][x] == q[x + 1];
      RowPrefixAll(q[1..], row);
    }
  }

  /**
   * The queries of row `row` on a table satisfying the invariant: the begin events are
   * after slot 0 and in column order, and the end events they queue extend the end
   * queue with ready events on row row + k - 1, in column order.
   */
  lemma QueueAfterQuery(a: Str, b: Str, k: nat, pp: bool, row: int, T: seq<MatchPair>, E: seq<Event>)
    requires k >= 1 && TableInv(a, b, k, pp, row, T) && EndQueueInv(a, b, k, pp, row, row + k - 1, T, E)
    ensures var Bs := Begins(row, RowMatches(a, b, k, row));
      && RowPrefix(Bs, row) == |Bs| && Bs[..|Bs|] == Bs
      && AfterSlotZero(T, Bs) && ColsAscending(Bs)
      && EndQueueInv(a, b, k, pp, row, row + k, T, E + Ends(k, T, Bs))
  {
    var M := RowMatches(a, b, k, row);
    var Bs := Begins(row, M);
    RowMatchesSpec(a, b, k, row);
    RowPrefixAll(Bs, row);
    assert Bs[..|Bs|] == Bs;
    forall x | 0 <= x < |Bs| ensures SameWindow(a, row, b, M[x], k) && T[0].endCol < Bs[x].col {
      assert M[x] in M;
      QueryPairOk(a, b, k, pp, row, T, M[x]);
    }
    EndsIndex(k, T, Bs);
    var N := Ends(k, T, Bs);
    forall x | 0 <= x < |N| ensures EndOk(a, b, k, pp, T, N[x]) && N[x].row == row + k - 1 && N[x].col == M[x] + k - 1 {
      QueryPairOk(a, b, k, pp, row, T, M[x]);
    }
    QueueAppend(a, b, k, pp, row, T, E, N);
  }

  lemma QueueAppend(a: Str, b: Str, k: nat, pp: bool, row: int, T: seq<MatchPair>, E: seq<Event>, N: seq<Event>)
    requires k >= 1 && EndQueueInv(a, b, k, pp, row, row + k - 1, T, E)
    requires forall x :: 0 <= x < |N| ==> EndOk(a, b, k, pp, T, N[x]) && N[x].row == row + k - 1
    requires forall x, y :: 0 <= x < y < |N| ==> N[x].col < N[y].col
    ensures EndQueueInv(a, b, k, pp, row, row + k, T, E + N)
  {
    var Q := E + N;
    forall x, y | 0 <= x < y < |Q| ensures Q[x].row < Q[y].row || (Q[x].row == Q[y].row && Q[x].col < Q[y].col) {
      if y < |E| { assert Q[x] == E[x] && Q[y] == E[y]; }
      else if x < |E| { assert Q[x] == E[x] && Q[y] == N[y - |E|]; }
      else { assert Q[x] == N[x - |E|] && Q[y] == N[y - |E|]; }
    }
    forall x | 0 <= x < |Q| ensures EndOk(a, b, k, pp, T, Q[x]) && row <= Q[x].row < row + k {
      if x < |E| { assert Q[x] == E[x]; } else { assert Q[x] == N[x - |E|]; }
    }
  }

  /**
   * Before the row update: the end events of `row` are the queue's row prefix, ready
   * for `RowUpdate`; the rest lie on later rows.
   */
  lemma QueueBeforeUpdate(a: Str, b: Str, k: nat, pp: bool, row: int, T: seq<MatchPair>, E: seq<Event>)
    requires k >= 1 && EndQueueInv(a, b, k, pp, row, row + k, T, E)
    ensures var n := RowPrefix(E, row);
      && FileReady(k, pp, T, E[..n])
      && (forall x :: 0 <= x < n ==> EndOk(a, b, k, pp, T, E[..n][x]) && E[..n][x].row == row)
      && EndQueueInv(a, b, k, pp, row + 1, row + k, T, E[n..])
  {
    var n := RowPrefix(E, row);
    QueuePrefixReady(a, b, k, pp, row, T, E, n);
    QueueRestLater(a, b, k, pp, row, T, E, n);
  }

  lemma QueuePrefixReady(a: Str, b: Str, k: nat, pp: bool, row: int, T: seq<MatchPair>, E: seq<Event>, n: nat)
    requires k >= 1 && EndQueueInv(a, b, k, pp, row, row + k, T, E)
    requires n <= |E| && forall x :: 0 <= x < n ==> E[x].row == row
    ensures FileReady(k, pp, T, E[..n])
    ensures forall x :: 0 <= x < n ==> EndOk(a, b, k, pp, T, E[..n][x]) && E[..n][x].row == row
  {
    var es := E[..n];
    forall x | 0 <= x < n
      ensures es[x] == E[x] && EndOk(a, b, k, pp, T, es[x])
      ensures es[x].pair.to.dp >= k && (!pp ==> es[x].pair.to.dp / k <= |T|)
    {
      WellLinkedBounds(a, b, k, pp, E[x].pair.to);
      if !pp {
        PendingSlot(k, T, E[x].pair.to);
      }
    }
    forall x, y | 0 <= x < y < n ensures es[x].col <= es[y].col {
      assert es[x] == E[x] && es[y] == E[y];
    }
  }

  /** In LCSk a ready pair's slot dp / k is at most the table's size. */
  lemma PendingSlot(k: nat, T: seq<MatchPair>, P: MatchPair)
    requires k >= 1 && Pending(k, false, T, P)
    ensures P.dp / k <= |T|
  {
    var s := Anchor(k, false, P);
    assert P.dp == (s + 1) * k;
    DivModUnique(s + 1, k, 0);
  }

  lemma QueueRestLater(a: Str, b: Str, k: nat, pp: bool, row: int, T: seq<MatchPair>, E: seq<Event>, n: nat)
    requires k >= 1 && EndQueueInv(a, b, k, pp, row, row + k, T, E)
    requires n == RowPrefix(E, row)
    ensures EndQueueInv(a, b, k, pp, row + 1, row + k, T, E[n..])
  {
    var rest := E[n..];
    forall x | 0 <= x < |rest| ensures rest[x] == E[n + x] && rest[x].row > row {
      if x > 0 { assert E[n].row < E[n + x].row || E[n].row == E[n + x].row; }
    }
    forall x, y | 0 <= x < y < |rest|
      ensures rest[x].row < rest[y].row || (rest[x].row == rest[y].row && rest[x].col < rest[y].col)
    {
      assert rest[x] == E[n + x] && rest[y] == E[n + y];
    }
  }

  /** The queue stays ready when the table is refined. */
  lemma QueueRefines(a: Str, b: Str, k: nat, pp: bool, lo: int, hi: int, T: seq<MatchPair>, W: seq<MatchPair>, E: seq<Event>)
    requires k >= 1 && EndQueueInv(a, b, k, pp, lo, hi, T, E) && Refines(T, W)
    ensures EndQueueInv(a, b, k, pp, lo, hi, W, E)
  {
    forall x | 0 <= x < |E| ensures EndOk(a, b, k, pp, W, E[x]) {
      RefinesKeeps(k, pp, T, W, E[x].pair.to);
    }
  }

  /**
   * The end of the sweep: `best` is the last slot unless that is the sentinel; its
   * chain is one the reconstruction can walk, and rebuilds a valid alignment whose
   * length is the last slot's dp (k times the slot number in LCSk).
   */
  lemma FinalOk(a: Str, b: Str, k: nat, pp: bool, row: int, T: seq<MatchPair>)
    requires k >= 1 && TableInv(a, b, k, pp, row, T)
    ensures var last := T[|T| - 1];
      var best := if last.endRow != -1 then Link(last) else Null;
      && ChainShaped(k, best)
      && ValidAlignment(a, b, k, pp, ReconAsc(k, best))
      && BlockAlignment(a, b, k, pp, ReconAsc(k, best))
      && |ReconAsc(k, best)| == last.dp
      && (!pp ==> |ReconAsc(k, best)| == k * (|T| - 1))
  {
    var last := T[|T| - 1];
    if |T| == 1 {
      EmptyBlock(a, b, k, pp);
    } else {
      assert WellLinked(a, b, k, pp, last);
      WellLinkedBounds(a, b, k, pp, last);
      WellLinkedIsShaped(a, b, k, pp, last);
      ReconIsValid(a, b, k, pp, last);
      ReconIsBlock(a, b, k, pp, last);
    }
  }

  /** The number of k-matches (i, j) with i < n. */
  function TotalMatches(a: Str, b: Str, k: nat, n: nat): nat
  {
    if n == 0 then 0 else TotalMatches(a, b, k, n - 1) + |RowMatches(a, b, k, n - 1)|
  }
}
