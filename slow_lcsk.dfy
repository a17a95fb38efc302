/**
 * The reference sparse algorithm of util/lcsk_testing.cc: every k-match by hashing
 * (`get_matches`), the quadratic dynamic program over the sorted matches
 * (`LcskSparseSlow`) and the reconstruction that follows its links
 * (`fill_lcsk_reconstruction`).
 */
module SlowLcsk {
  import opened Text
  import opened Hashing
  import opened Alphabet
  import opened MatchMaking
  import opened MatchPairs
  import opened Alignment
  import opened FastLcsk
  import opened Optimum

  // ---------------------------------------------------------------------------------
  // get_matches

  /** p comes before q in the standard order of pairs. */
  predicate PairLess(p: Pos, q: Pos)
  {
    p.0 < q.0 || (p.0 == q.0 && p.1 < q.1)
  }

  /** Strictly ascending in the standard order of pairs: sorted, each pair once. */
  predicate PairsAscending(M: seq<Pos>)
  {
    forall x, y :: 0 <= x < y < |M| ==> PairLess(M[x], M[y])
  }

  /** What `is_sorted` accepts: no pair is smaller than one before it. */
  predicate PairsSorted(M: seq<Pos>)
  {
    forall x, y :: 0 <= x < y < |M| ==> !PairLess(M[y], M[x])
  }

  predicate NoRepeats(s: seq<Pos>)
  {
    forall x, y :: 0 <= x < y < |s| ==> s[x] != s[y]
  }

  /** The pairs (i, j) for the listed i, in that order. */
  function WithColumn(rows: seq<int>, j: int): (r: seq<Pos>)
    ensures |r| == |rows| && forall t :: 0 <= t < |rows| ==> r[t] == (rows[t], j)
  {
    seq(|rows|, t requires 0 <= t < |rows| => (rows[t], j))
  }

  /** The k-matches (i, j) of column j, by ascending i. */
  function Column(a: Str, b: Str, k: nat, j: int): seq<Pos>
  {
    WithColumn(MatchesUpTo(b, j, a, k, WindowCount(a, k)), j)
  }

  /** The pairs collected for the first n windows of b, in the order they are pushed. */
  function Pushed(a: Str, b: Str, k: nat, n: nat): seq<Pos>
  {
    if n == 0 then [] else Pushed(a, b, k, n - 1) + Column(a, b, k, n - 1)
  }

  lemma ColumnSpec(a: Str, b: Str, k: nat, j: int)
    ensures forall p :: p in Column(a, b, k, j) <==> p.1 == j && SameWindow(a, p.0, b, j, k)
    ensures forall x, y :: 0 <= x < y < |Column(a, b, k, j)| ==> Column(a, b, k, j)[x].0 < Column(a, b, k, j)[y].0
  {
    var rows := MatchesUpTo(b, j, a, k, WindowCount(a, k));
    MatchesUpToSpec(b, j, a, k, WindowCount(a, k));
    var C := Column(a, b, k, j);
    forall p ensures p in C <==> p.1 == j && SameWindow(a, p.0, b, j, k) {
      if p in C {
        var t :| 0 <= t < |C| && C[t] == p;
        assert rows[t] in rows;
      }
      if p.1 == j && SameWindow(a, p.0, b, j, k) {
        assert p.0 in rows;
        var t :| 0 <= t < |rows| && rows[t] == p.0;
        assert C[t] == p;
      }
    }
  }

  /** The collected pairs are exactly the k-matches with j < n, each once. */
  lemma {:induction false} PushedSpec(a: Str, b: Str, k: nat, n: nat)
    ensures forall p :: p in Pushed(a, b, k, n) <==> 0 <= p.1 < n && SameWindow(a, p.0, b, p.1, k)
    ensures NoRepeats(Pushed(a, b, k, n))
  {
    if n > 0 {
      PushedSpec(a, b, k, n - 1);
      ColumnSpec(a, b, k, n - 1);
      var P, C := Pushed(a, b, k, n - 1), Column(a, b, k, n - 1);
      var R := P + C;
      forall x, y | 0 <= x < y < |R| ensures R[x] != R[y] {
        if x < |P| && y >= |P| {
          assert R[x] in P && R[y] in C;
        } else if x >= |P| {
          assert R[x] == C[x - |P|] && R[y] == C[y - |P|];
        }
      }
    }
  }

  /** One more pair, put in its place in an ascending list. */
  function Insert(s: seq<Pos>, x: Pos): (r: seq<Pos>)
    requires PairsAscending(s) && x !in s
    ensures PairsAscending(r) && |r| == |s| + 1
    ensures forall p :: p in r <==> p in s || p == x
  {
    if |s| == 0 then [x]
    else if PairLess(x, s[0]) then
      assert forall y :: 0 < y < |s| ==> PairLess(s[0], s[y]);
      [x] + s
    else
      var rest := Insert(s[1..], x);
      assert forall p :: p in s[1..] ==> PairLess(s[0], p);
      assert forall y :: 0 <= y < |rest| ==> rest[y] in rest;
      assert s == [s[0]] + s[1..];
      [s[0]] + rest
  }

  /** `sort` (line 114): the same pairs, ascending. */
  method SortPairs(raw: seq<Pos>) returns (sorted: seq<Pos>)
    requires NoRepeats(raw)
    ensures PairsAscending(sorted) && |sorted| == |raw|
    ensures forall p :: p in sorted <==> p in raw
  {
    sorted := [];
    var t := 0;
    while t < |raw|
      invariant 0 <= t <= |raw| && PairsAscending(sorted) && |sorted| == t
      invariant forall p :: p in sorted <==> p in raw[..t]
    {
      assert raw[t] !in raw[..t];
      sorted := Insert(sorted, raw[t]);
      assert raw[..t + 1] == raw[..t] + [raw[t]];
      t := t + 1;
    }
    assert raw[..t] == raw;
  }

  /** (x mod m) * sigma + d and x * sigma + d leave the same remainder mod m. */
  lemma ModStep(x: int, m: int, sigma: int, d: int)
    requires m > 0
    ensures ((x % m) * sigma + d) % m == (x * sigma + d) % m
  {
    var q, r := x / m, x % m;
    var y := r * sigma + d;
    var s, v := y / m, y % m;
    assert x * sigma + d == (q * sigma + s) * m + v by {
      assert x == q * m + r;
      assert y == s * m + v;
      assert x * sigma == q * sigma * m + r * sigma;
    }
    DivModUnique(q * sigma + s, m, v);
    DivModUnique(s, m, v);
  }

  /** The prefix s[..i] reduced mod sigma^k is the hash of its last k characters. */
  lemma PrefixHash(ids: IdTable, sigma: nat, s: Str, i: nat, k: nat)
    requires k <= i <= |s| && IdsBelow(ids, s, sigma) && Pow(sigma, k) > 0
    ensures Value(ids, sigma, s[..i]) % Pow(sigma, k) == WindowHash(ids, sigma, s, i - k, k)
  {
    var u, v := s[..i - k], s[i - k..i];
    assert s[..i] == u + v;
    ValueAppend(ids, sigma, u, v);
    assert IdsBelow(ids, v, sigma) by {
      forall t | 0 <= t < |v| ensures 0 <= Id(ids, v[t]) < sigma { assert v[t] == s[i - k + t]; }
    }
    ValueBound(ids, sigma, v);
    DivModUnique(Value(ids, sigma, u), Pow(sigma, k), Value(ids, sigma, v));
  }

  /** One step of the rolling hash of lines 93-94 and 103-104. */
  lemma RollingStep(ids: IdTable, sigma: nat, s: Str, i: nat, k: nat, hashMod: nat, h: int)
    requires i < |s| && IdsBelow(ids, s, sigma) && hashMod == Pow(sigma, k)
    requires h == if i == 0 then 0 else Value(ids, sigma, s[..i]) % hashMod
    ensures hashMod >= 1
    ensures (h * sigma + Id(ids, s[i])) % hashMod == Value(ids, sigma, s[..i + 1]) % hashMod
    ensures i + 1 >= k ==> (h * sigma + Id(ids, s[i])) % hashMod == WindowHash(ids, sigma, s, i + 1 - k, k)
  {
    assert sigma >= 1 by { assert 0 <= Id(ids, s[i]) < sigma; }
    assert s[..i + 1][..i] == s[..i];
    assert Value(ids, sigma, s[..i + 1]) == Value(ids, sigma, s[..i]) * sigma + Id(ids, s[i]);
    if i > 0 {
      ModStep(Value(ids, sigma, s[..i]), hashMod, sigma, Id(ids, s[i]));
    } else {
      assert s[..0] == [];
    }
    if i + 1 >= k {
      PrefixHash(ids, sigma, s, i + 1, k);
    }
  }

  /** How many windows of length k end within the first i characters. */
  function WindowsIn(i: nat, k: nat): nat
  {
    if i >= k then i - k + 1 else 0
  }

  lemma FourPow(k: nat)
    ensures Pow(4, k) == Pow(2, 2 * k)
  {
    if k > 0 {
      FourPow(k - 1);
      assert Pow(2, 2 * k) == 2 * (2 * Pow(2, 2 * (k - 1)));
    }
  }

  /** Lines 91-99: every window start of a goes into the bucket of its hash. */
  method IndexWindows(a: Str, k: nat, aid: IdTable, sigma: nat, hashMod: nat) returns (index: map<int, seq<int>>)
    requires k >= 1 && IdsBelow(aid, a, sigma) && hashMod == Pow(sigma, k)
    ensures forall h :: Get(index, h) == BucketUpTo(aid, sigma, a, k, h, WindowCount(a, k))
  {
    index := map[];
    var rollingHash := 0;
    var i := 0;
    ghost var n := 0;
    while i < |a|
      invariant 0 <= i <= |a| && n == WindowsIn(i, k) && n <= WindowCount(a, k)
      invariant i > 0 ==> hashMod >= 1
      invariant rollingHash == if i == 0 then 0 else Value(aid, sigma, a[..i]) % hashMod
      invariant forall h :: Get(index, h) == BucketUpTo(aid, sigma, a, k, h, n)
    {
      rollingHash, index := IndexStep(a, k, aid, sigma, hashMod, i, n, rollingHash, index);
      i := i + 1;
      n := WindowsIn(i, k);
    }
  }

  /** One pass of the loop of lines 92-99. */
  method IndexStep(a: Str, k: nat, aid: IdTable, sigma: nat, hashMod: nat, i: nat, ghost n: nat, rollingHash: int,
                   index: map<int, seq<int>>)
    returns (rollingHash': int, index': map<int, seq<int>>)
    requires k >= 1 && IdsBelow(aid, a, sigma) && hashMod == Pow(sigma, k) && i < |a| && n == WindowsIn(i, k)
    requires rollingHash == if i == 0 then 0 else Value(aid, sigma, a[..i]) % hashMod
    requires n <= WindowCount(a, k) && forall h :: Get(index, h) == BucketUpTo(aid, sigma, a, k, h, n)
    ensures hashMod >= 1 && rollingHash' == Value(aid, sigma, a[..i + 1]) % hashMod
    ensures WindowsIn(i + 1, k) <= WindowCount(a, k)
    ensures forall h :: Get(index', h) == BucketUpTo(aid, sigma, a, k, h, WindowsIn(i + 1, k))
  {
    RollingStep(aid, sigma, a, i, k, hashMod, rollingHash);
    rollingHash' := (rollingHash * sigma + Id(aid, a[i])) % hashMod;
    if i + 1 >= k {
      assert WindowsIn(i, k) == i - k + 1 && WindowsIn(i + 1, k) == i - k + 2;
      index' := index[rollingHash' := Get(index, rollingHash') + [i - k + 1]];
      BucketStep(aid, sigma, a, k, index, i - k + 1, rollingHash', index');
    } else {
      index' := index;
      assert WindowsIn(i + 1, k) == 0;
    }
  }

  /** Start n goes to the end of the bucket of its window's hash. */
  lemma BucketStep(aid: IdTable, sigma: nat, a: Str, k: nat, index: map<int, seq<int>>, n: nat, h0: int,
                   index': map<int, seq<int>>)
    requires n < WindowCount(a, k) && h0 == WindowHash(aid, sigma, a, n, k)
    requires forall h :: Get(index, h) == BucketUpTo(aid, sigma, a, k, h, n)
    requires index' == index[h0 := Get(index, h0) + [n]]
    ensures forall h :: Get(index', h) == BucketUpTo(aid, sigma, a, k, h, n + 1)
  {
  }

  lemma ConsistentSwap(ids: IdTable, u: Str, v: Str)
    requires Consistent(ids, u, v)
    ensures Consistent(ids, v, u)
  {
    forall i, j | 0 <= i < |v| && 0 <= j < |u| && Id(ids, v[i]) == Id(ids, u[j]) ensures v[i] == u[j] {
    }
  }

  /** Lines 108-110: a pair for every start of a in the bucket. */
  method PushPositions(raw: seq<Pos>, positions: seq<int>, j: int) returns (raw': seq<Pos>)
    ensures raw' == raw + WithColumn(positions, j)
  {
    raw' := raw;
    var t := 0;
    while t < |positions|
      invariant 0 <= t <= |positions|
      invariant raw' == raw + WithColumn(positions[..t], j)
    {
      raw' := raw' + [(positions[t], j)];
      t := t + 1;
      assert WithColumn(positions[..t], j) == WithColumn(positions[..t - 1], j) + [(positions[t - 1], j)];
    }
    assert positions[..t] == positions;
  }

  /** Lines 101-112: each window of b is looked up, and its matches in a are collected. */
  method CollectPairs(a: Str, b: Str, k: nat, aid: IdTable, sigma: nat, hashMod: nat, index: map<int, seq<int>>)
    returns (raw: seq<Pos>)
    requires k >= 1 && hashMod == Pow(sigma, k)
    requires IdsBelow(aid, a, sigma) && IdsBelow(aid, b, sigma) && Consistent(aid, a, b)
    requires forall h :: Get(index, h) == BucketUpTo(aid, sigma, a, k, h, WindowCount(a, k))
    ensures raw == Pushed(a, b, k, WindowCount(b, k))
  {
    ConsistentSwap(aid, a, b);
    raw := [];
    var rollingHash := 0;
    var i := 0;
    while i < |b|
      invariant 0 <= i <= |b|
      invariant i > 0 ==> hashMod >= 1
      invariant rollingHash == if i == 0 then 0 else Value(aid, sigma, b[..i]) % hashMod
      invariant raw == Pushed(a, b, k, WindowsIn(i, k))
    {
      RollingStep(aid, sigma, b, i, k, hashMod, rollingHash);
      rollingHash := (rollingHash * sigma + Id(aid, b[i])) % hashMod;
      if i + 1 >= k {
        var positions := Get(index, rollingHash);
        BucketIsMatches(aid, sigma, b, i - k + 1, a, k, WindowCount(a, k));
        raw := PushPositions(raw, positions, i - k + 1);
      }
      i := i + 1;
    }
  }

  /** Lines 84-89: sigma^k, which for a four-letter alphabet is 2^(2k). */
  method HashModulus(sigma: nat, k: nat) returns (hashMod: nat)
    ensures hashMod == Pow(sigma, k)
    ensures sigma == 4 ==> hashMod == Pow(2, 2 * k)
  {
    hashMod := 1;
    var t := 0;
    while t < k
      invariant 0 <= t <= k && hashMod == Pow(sigma, t)
    {
      hashMod := hashMod * sigma;
      t := t + 1;
    }
    if sigma == 4 {
      FourPow(k);
      assert hashMod == Pow(2, 2 * k);
    }
  }

  /**
   * `get_matches` (lines 59-115): every pair (i, j) with a[i, i+k) == b[j, j+k), each
   * once, in the standard order of pairs.
   */
  method GetMatches(a: Str, b: Str, k: nat) returns (matches: seq<Pos>)
    requires k >= 1
    ensures PairsAscending(matches)
    ensures forall p :: p in matches <==> SameWindow(a, p.0, b, p.1, k)
  {
    var aid, sigma := PrepareAlphabet(a, b);
    AlphabetIsPerfect(a, b, aid, sigma);
    var hashMod := HashModulus(sigma, k);
    var index := IndexWindows(a, k, aid, sigma, hashMod);
    var raw := CollectPairs(a, b, k, aid, sigma, hashMod, index);
    PushedSpec(a, b, k, WindowCount(b, k));
    matches := SortPairs(raw);
  }

  // ---------------------------------------------------------------------------------
  // LcskSparseSlow and fill_lcsk_reconstruction

  /** Match j ends before match i starts, in both strings: i may follow j's whole match. */
  predicate EndsBefore(M: seq<Pos>, k: nat, j: nat, i: nat)
    requires j < |M| && i < |M|
  {
    M[j].0 + k <= M[i].0 && M[j].1 + k <= M[i].1
  }

  /** Match i starts one step after match j on the same diagonal. */
  predicate Continues(M: seq<Pos>, j: nat, i: nat)
    requires j < |M| && i < |M|
  {
    M[j].0 + 1 == M[i].0 && M[j].1 + 1 == M[i].1
  }

  /**
   * The best value match j, whose dp value is dj, offers match i: dj + k after a
   * whole match, dj + 1 after a continuation (LCSk++ only), and 0 when it offers none.
   */
  function Offer(M: seq<Pos>, k: nat, pp: bool, dj: int, j: nat, i: nat): int
    requires j < |M| && i < |M|
  {
    var whole := if EndsBefore(M, k, j, i) then dj + k else 0;
    var cont := if pp && Continues(M, j, i) then dj + 1 else 0;
    if whole >= cont then whole else cont
  }

  /** d is what the link from i to r gives, by one of the two rules. */
  predicate Achieves(M: seq<Pos>, k: nat, pp: bool, dr: int, r: nat, i: nat, d: int)
    requires r < |M| && i < |M|
  {
    (EndsBefore(M, k, r, i) && d == dr + k) || (pp && Continues(M, r, i) && d == dr + 1)
  }

  /**
   * The dynamic program at match i: dp[i] is k, or what its link prev[i] offers; no
   * earlier match offers more; and prev[i] is the last match offering that much.
   */
  ghost predicate DpAt(M: seq<Pos>, k: nat, pp: bool, dp: seq<int>, prev: seq<int>, i: nat)
    requires i < |M| && |dp| == |M| && |prev| == |M|
  {
    && dp[i] >= k
    && -1 <= prev[i] < i
    && (prev[i] == -1 ==> dp[i] == k)
    && (prev[i] != -1 ==> Achieves(M, k, pp, dp[prev[i]], prev[i], i, dp[i]))
    && (forall j :: 0 <= j < i ==> Offer(M, k, pp, dp[j], j, i) <= dp[i])
    && (forall j :: prev[i] < j < i ==> Offer(M, k, pp, dp[j], j, i) < dp[i])
  }

  ghost predicate DpTable(M: seq<Pos>, k: nat, pp: bool, dp: seq<int>, prev: seq<int>, n: nat)
    requires n <= |M| && |dp| == |M| && |prev| == |M|
  {
    forall i :: 0 <= i < n ==> DpAt(M, k, pp, dp, prev, i)
  }

  /**
   * The inner loop of lines 172-191: scans j = i-1 down to 0, taking a predecessor only
   * when it offers strictly more than the best so far.
   */
  method BestLink(M: seq<Pos>, k: nat, pp: bool, dp: seq<int>, i: nat) returns (d: int, r: int)
    requires k >= 1 && i < |M| == |dp|
    requires forall x :: 0 <= x < i ==> dp[x] >= k
    ensures d >= k && -1 <= r < i
    ensures r == -1 ==> d == k
    ensures r != -1 ==> Achieves(M, k, pp, dp[r], r, i, d)
    ensures forall j :: 0 <= j < i ==> Offer(M, k, pp, dp[j], j, i) <= d
    ensures forall j :: r < j < i ==> Offer(M, k, pp, dp[j], j, i) < d
  {
    d, r := k, -1;
    var j := i - 1;
    while j >= 0
      invariant -1 <= j < i && d >= k && (r == -1 || j < r < i)
      invariant r == -1 ==> d == k
      invariant r != -1 ==> Achieves(M, k, pp, dp[r], r, i, d)
      invariant forall t :: j < t < i ==> Offer(M, k, pp, dp[t], t, i) <= d
      invariant forall t :: j < t < i && r < t ==> Offer(M, k, pp, dp[t], t, i) < d
    {
      ghost var d0, r0 := d, r;
      if M[j].0 + k <= M[i].0 && M[j].1 + k <= M[i].1 {
        if dp[j] + k > d {
          d, r := dp[j] + k, j;
        }
      }
      if pp && M[j].0 + 1 == M[i].0 && M[j].1 + 1 == M[i].1 {
        if dp[j] + 1 > d {
          d, r := dp[j] + 1, j;
        }
      }
      OfferStep(M, k, pp, dp[j], j, i, d0, r0, d, r);
      j := j - 1;
    }
  }

  /** One step of BestLink: j's offer is recorded, strictly below d unless j became the link. */
  lemma OfferStep(M: seq<Pos>, k: nat, pp: bool, dj: int, j: nat, i: nat, d0: int, r0: int, d: int, r: int)
    requires k >= 1 && j < i < |M| && dj >= k && d0 >= k
    requires r0 == -1 ==> d0 == k
    requires r0 != j
    requires var whole := if EndsBefore(M, k, j, i) && dj + k > d0 then dj + k else d0;
             var cont := pp && Continues(M, j, i) && dj + 1 > whole;
             (d, r) == (if cont then (dj + 1, j) else if whole > d0 then (whole, j) else (d0, r0))
    ensures d >= d0 && Offer(M, k, pp, dj, j, i) <= d
    ensures r != j ==> r == r0 && d == d0
    ensures r0 == -1 ==> Offer(M, k, pp, dj, j, i) < d || r == j
    ensures r == j ==> Achieves(M, k, pp, dj, j, i, d)
  {
  }

  lemma DpTableStep(M: seq<Pos>, k: nat, pp: bool, dp: seq<int>, prev: seq<int>, i: nat, d: int, r: int)
    requires i < |M| && |dp| == |M| && |prev| == |M| && DpTable(M, k, pp, dp, prev, i)
    requires d >= k && -1 <= r < i
    requires r == -1 ==> d == k
    requires r != -1 ==> Achieves(M, k, pp, dp[r], r, i, d)
    requires forall j :: 0 <= j < i ==> Offer(M, k, pp, dp[j], j, i) <= d
    requires forall j :: r < j < i ==> Offer(M, k, pp, dp[j], j, i) < d
    ensures DpTable(M, k, pp, dp[i := d], prev[i := r], i + 1)
  {
    var dp', prev' := dp[i := d], prev[i := r];
    forall x | 0 <= x < i + 1 ensures DpAt(M, k, pp, dp', prev', x) {
      if x < i {
        assert DpAt(M, k, pp, dp, prev, x);
        assert forall j :: 0 <= j <= x ==> dp'[j] == dp[j];
      }
    }
  }

  /** The pairs the reconstruction takes for match i: its whole match, or its last pair. */
  function SlowPiece(M: seq<Pos>, k: nat, P: seq<int>, i: nat): seq<Pos>
    requires i < |M| == |P| && -1 <= P[i] < i
  {
    var r, c := M[i].0 + k - 1, M[i].1 + k - 1;
    if P[i] == -1 || EndsBefore(M, k, P[i], i) then Block(r, c, k) else [(r, c)]
  }

  predicate Backward(P: seq<int>)
  {
    forall x :: 0 <= x < |P| ==> -1 <= P[x] < x
  }

  /** The reconstruction, in ascending order, of the links from match i back. */
  function SlowRecon(M: seq<Pos>, k: nat, P: seq<int>, i: int): seq<Pos>
    requires |M| == |P| && Backward(P) && -1 <= i < |M|
    decreases i + 1
  {
    if i == -1 then [] else SlowRecon(M, k, P, P[i]) + SlowPiece(M, k, P, i)
  }

  /** The chain of match pairs the links from match i describe. */
  ghost function ChainOf(M: seq<Pos>, k: nat, dp: seq<int>, P: seq<int>, i: nat): MatchPair
    requires |M| == |P| == |dp| && Backward(P) && i < |M|
    decreases i
  {
    MatchPair(M[i].0 + k - 1, M[i].1 + k - 1, dp[i], if P[i] == -1 then Null else Link(ChainOf(M, k, dp, P, P[i])))
  }

  ghost function ChainFrom(M: seq<Pos>, k: nat, dp: seq<int>, P: seq<int>, i: int): Prev
    requires |M| == |P| == |dp| && Backward(P) && -1 <= i < |M|
  {
    if i == -1 then Null else Link(ChainOf(M, k, dp, P, i))
  }

  /** Walking the index links reconstructs the same pairs as walking the chain. */
  lemma {:induction false} SlowReconIsChain(M: seq<Pos>, k: nat, dp: seq<int>, P: seq<int>, i: int)
    requires |M| == |P| == |dp| && Backward(P) && -1 <= i < |M|
    ensures SlowRecon(M, k, P, i) == ReconAsc(k, ChainFrom(M, k, dp, P, i))
    decreases i + 1
  {
    if i != -1 {
      SlowReconIsChain(M, k, dp, P, P[i]);
    }
  }

  /** What the dynamic program promises about every link: it points back and adds k or 1. */
  predicate LinksOk(M: seq<Pos>, k: nat, pp: bool, dp: seq<int>, P: seq<int>)
    requires |M| == |P| == |dp|
  {
    forall x :: 0 <= x < |M| ==>
      && -1 <= P[x] < x
      && (P[x] == -1 ==> dp[x] == k)
      && (P[x] != -1 ==> Achieves(M, k, pp, dp[P[x]], P[x], x, dp[x]))
  }

  lemma DpTableLinks(M: seq<Pos>, k: nat, pp: bool, dp: seq<int>, P: seq<int>)
    requires |M| == |P| == |dp| && DpTable(M, k, pp, dp, P, |M|)
    ensures LinksOk(M, k, pp, dp, P) && Backward(P)
  {
    forall x | 0 <= x < |M|
      ensures -1 <= P[x] < x
      ensures P[x] == -1 ==> dp[x] == k
      ensures P[x] != -1 ==> Achieves(M, k, pp, dp[P[x]], P[x], x, dp[x])
    {
      assert DpAt(M, k, pp, dp, P, x);
    }
  }

  /** Every listed pair starts a k-match. */
  predicate AllMatch(a: Str, b: Str, M: seq<Pos>, k: nat)
  {
    forall x :: 0 <= x < |M| ==> SameWindow(a, M[x].0, b, M[x].1, k)
  }

  /** Links that keep the dynamic program's promise describe well-linked chains. */
  lemma {:induction false} ChainWellLinked(a: Str, b: Str, M: seq<Pos>, k: nat, pp: bool, dp: seq<int>,
                                           P: seq<int>, i: nat)
    requires i < |M| == |P| == |dp| && LinksOk(M, k, pp, dp, P) && Backward(P) && AllMatch(a, b, M, k)
    ensures WellLinked(a, b, k, pp, ChainOf(M, k, dp, P, i))
    decreases i
  {
    var p := ChainOf(M, k, dp, P, i);
    assert SameWindow(a, M[i].0, b, M[i].1, k);
    LinkAt(M, k, pp, dp, P, i);
    if P[i] != -1 {
      ChainWellLinked(a, b, M, k, pp, dp, P, P[i]);
    }
    WellLinkedIntro(a, b, k, pp, p);
  }

  lemma WellLinkedIntro(a: Str, b: Str, k: nat, pp: bool, p: MatchPair)
    requires SameWindow(a, p.endRow - k + 1, b, p.endCol - k + 1, k)
    requires p.prev == Null ==> p.dp == k
    requires p.prev.Link? ==> WellLinked(a, b, k, pp, p.prev.to)
    requires p.prev.Link? ==> (FullyBefore(p.prev.to, p, k) && p.dp == p.prev.to.dp + k)
                              || (pp && Diagonal(p.prev.to, p) && p.dp == p.prev.to.dp + 1)
    ensures WellLinked(a, b, k, pp, p)
  {
  }

  lemma LinkAt(M: seq<Pos>, k: nat, pp: bool, dp: seq<int>, P: seq<int>, x: nat)
    requires x < |M| == |P| == |dp| && LinksOk(M, k, pp, dp, P)
    ensures -1 <= P[x] < x
    ensures P[x] == -1 ==> dp[x] == k
    ensures P[x] != -1 ==> Achieves(M, k, pp, dp[P[x]], P[x], x, dp[x])
  {
  }

  lemma SlowFillStep(M: seq<Pos>, k: nat, P: seq<int>, last: int, i: nat, before: seq<Pos>, desc: seq<Pos>,
                     piece: seq<Pos>)
    requires |M| == |P| && Backward(P) && -1 <= last < |M| && i < |M|
    requires SlowRecon(M, k, P, last) == SlowRecon(M, k, P, i) + Reversed(before)
    requires piece == SlowPiece(M, k, P, i) && Reversed(desc) == piece + Reversed(before)
    ensures SlowRecon(M, k, P, last) == SlowRecon(M, k, P, P[i]) + Reversed(desc)
  {
    var x := SlowRecon(M, k, P, P[i]);
    assert SlowRecon(M, k, P, i) == x + piece;
    ConcatAssoc(x, piece, Reversed(before));
  }

  /**
   * `fill_lcsk_reconstruction` (lines 117-152): follows the links from `lastIdx`,
   * pushing each match's pairs last-first (all k of them, or only the last pair of a
   * continuation, which the source asserts happens only for LCSk++ and only one step
   * down the diagonal), then reverses.
   */
  method FillReconstruction(M: seq<Pos>, k: nat, prevIdx: seq<int>, lastIdx: int, pp: bool)
    returns (recon: seq<Pos>)
    requires |M| == |prevIdx| && Backward(prevIdx) && -1 <= lastIdx < |M|
    requires forall x :: 0 <= x < |M| && prevIdx[x] != -1 ==>
               EndsBefore(M, k, prevIdx[x], x) || (pp && Continues(M, prevIdx[x], x))
    ensures recon == SlowRecon(M, k, prevIdx, lastIdx)
  {
    var desc: seq<Pos> := [];
    var i := lastIdx;
    while i != -1
      invariant -1 <= i < |M|
      invariant SlowRecon(M, k, prevIdx, lastIdx) == SlowRecon(M, k, prevIdx, i) + Reversed(desc)
      decreases i + 1
    {
      var r := M[i].0 + k - 1;
      var c := M[i].1 + k - 1;
      ghost var before := desc;
      ghost var piece: seq<Pos>;
      var p := prevIdx[i];
      if p == -1 || (M[p].0 + k <= M[i].0 && M[p].1 + k <= M[i].1) {
        desc := PushWholeMatch(desc, r, c, k);
        piece := Block(r, c, k);
        DescendingIsBlock(r, c, k);
        ReversedAppend(before, Descending(r, c, k));
      } else {
        assert pp;
        assert M[p].0 + 1 == M[i].0 && M[p].1 + 1 == M[i].1;
        desc := desc + [(r, c)];
        piece := [(r, c)];
        ReversedAppend(before, [(r, c)]);
      }
      SlowFillStep(M, k, prevIdx, lastIdx, i, before, desc, piece);
      i := p;
    }
    recon := Reversed(desc);
  }

  /**
   * `LcskSparseSlow` on matches (lines 155-200): for each match in order, the best
   * link found by BestLink; the best index moves only on a strictly larger value, so
   * it is the first maximum. The source writes dp[i] and recon[i] in place while it
   * scans j; only entries below i are read, so scanning with two locals and
   * storing them after is the same computation.
   */
  method SparseDp(M: seq<Pos>, k: nat, pp: bool) returns (recon: seq<Pos>, dp: seq<int>, prev: seq<int>, bestIdx: nat)
    requires k >= 1 && PairsSorted(M)
    ensures |dp| == |prev| == |M| && Backward(prev)
    ensures DpTable(M, k, pp, dp, prev, |M|)
    ensures |M| == 0 ==> recon == []
    ensures |M| > 0 ==> bestIdx < |M| && recon == SlowRecon(M, k, prev, bestIdx)
    ensures |M| > 0 ==> (forall x :: 0 <= x < |M| ==> dp[x] <= dp[bestIdx])
    ensures |M| > 0 ==> (forall x :: 0 <= x < bestIdx ==> dp[x] < dp[bestIdx])
  {
    if |M| == 0 {
      return [], [], [], 0;
    }
    var n := |M|;
    dp, prev, bestIdx := seq(n, _ => 0), seq(n, _ => 0), 0;
    var i := 0;
    while i < n
      invariant 0 <= i <= n && |dp| == |prev| == n
      invariant DpTable(M, k, pp, dp, prev, i)
      invariant forall x :: 0 <= x < i ==> dp[x] >= k
      invariant i == 0 ==> bestIdx == 0
      invariant i > 0 ==> bestIdx < i
      invariant forall x :: 0 <= x < i ==> dp[x] <= dp[bestIdx]
      invariant forall x :: 0 <= x < bestIdx ==> dp[x] < dp[bestIdx]
    {
      var d, r := BestLink(M, k, pp, dp, i);
      DpTableStep(M, k, pp, dp, prev, i, d, r);
      dp, prev := dp[i := d], prev[i := r];
      if dp[i] > dp[bestIdx] {
        bestIdx := i;
      }
      i := i + 1;
    }
    DpTableLinks(M, k, pp, dp, prev);
    forall x | 0 <= x < |M| && prev[x] != -1
      ensures EndsBefore(M, k, prev[x], x) || (pp && Continues(M, prev[x], x))
    {
      LinkAt(M, k, pp, dp, prev, x);
    }
    recon := FillReconstruction(M, k, prev, bestIdx, pp);
  }

  /** Following the links from any match gives a valid alignment as long as its dp value. */
  lemma SlowReconValid(a: Str, b: Str, M: seq<Pos>, k: nat, pp: bool, dp: seq<int>, P: seq<int>, i: nat)
    requires k >= 1 && i < |M| == |P| == |dp| && DpTable(M, k, pp, dp, P, |M|) && AllMatch(a, b, M, k)
    ensures Backward(P)
    ensures ValidAlignment(a, b, k, pp, SlowRecon(M, k, P, i)) && BlockAlignment(a, b, k, pp, SlowRecon(M, k, P, i))
    ensures |SlowRecon(M, k, P, i)| == dp[i] && SlowRecon(M, k, P, i) != []
  {
    DpTableLinks(M, k, pp, dp, P);
    ChainWellLinked(a, b, M, k, pp, dp, P, i);
    SlowReconIsChain(M, k, dp, P, i);
    ReconIsValid(a, b, k, pp, ChainOf(M, k, dp, P, i));
    ReconIsBlock(a, b, k, pp, ChainOf(M, k, dp, P, i));
  }

  /**
   * On sorted matches, every possible predecessor of a match comes before it, so the
   * table's value at i is the best over all matches, not only the earlier ones.
   */
  lemma DpBellman(M: seq<Pos>, k: nat, pp: bool, dp: seq<int>, P: seq<int>, i: nat)
    requires k >= 1 && PairsSorted(M) && i < |M| == |P| == |dp| && DpTable(M, k, pp, dp, P, |M|)
    ensures forall j :: 0 <= j < |M| ==> Offer(M, k, pp, dp[j], j, i) <= dp[i]
    ensures forall j :: 0 <= j < |M| && (EndsBefore(M, k, j, i) || (pp && Continues(M, j, i))) ==> j < i
  {
    assert DpAt(M, k, pp, dp, P, i);
    forall j | 0 <= j < |M| && (EndsBefore(M, k, j, i) || (pp && Continues(M, j, i))) ensures j < i {
      assert PairLess(M[j], M[i]);
      assert j != i;
    }
  }

  /** Without continuations every dp value is a whole number of k-matches. */
  lemma {:induction false} DpMultiple(M: seq<Pos>, k: nat, dp: seq<int>, P: seq<int>, i: nat)
    requires k >= 1 && i < |M| == |P| == |dp| && LinksOk(M, k, false, dp, P)
    ensures MultipleOf(dp[i], k)
    decreases i
  {
    LinkAt(M, k, false, dp, P, i);
    if P[i] != -1 {
      DpMultiple(M, k, dp, P, P[i]);
    }
  }

  /**
   * Over the list of all k-matches, ascending, the dynamic program's value at every
   * match is that match's score.
   */
  lemma {:induction false} DpIsScore(a: Str, b: Str, M: seq<Pos>, k: nat, pp: bool, dp: seq<int>, P: seq<int>,
                                     x: nat)
    requires k >= 1 && PairsSorted(M) && x < |M| == |P| == |dp| && DpTable(M, k, pp, dp, P, |M|)
    requires forall p :: p in M <==> SameWindow(a, p.0, b, p.1, k)
    ensures dp[x] == Score(a, b, k, pp, M[x].0, M[x].1)
    decreases x
  {
    var i, j := M[x].0, M[x].1;
    assert DpAt(M, k, pp, dp, P, x);
    if P[x] != -1 {
      DpIsScore(a, b, M, k, pp, dp, P, P[x]);
    }
    DpAtMost(a, b, M, k, pp, dp, P, x);
    var y := WholeLink(a, b, M, k, pp, dp, P, x);
    if y != -1 {
      DpIsScore(a, b, M, k, pp, dp, P, y);
    }
    var z := ContinuationLink(a, b, M, k, pp, dp, P, x);
    if z != -1 {
      DpIsScore(a, b, M, k, pp, dp, P, z);
    }
  }

  /** The match whose score Whole at x adds k to, when there is one: before x, with dp + k at most x's. */
  lemma WholeLink(a: Str, b: Str, M: seq<Pos>, k: nat, pp: bool, dp: seq<int>, P: seq<int>, x: nat) returns (y: int)
    requires k >= 1 && PairsSorted(M) && x < |M| == |P| == |dp| && DpTable(M, k, pp, dp, P, |M|)
    requires forall p :: p in M <==> SameWindow(a, p.0, b, p.1, k)
    ensures -1 <= y < x
    ensures var before := Before(a, b, k, pp, M[x].0 - k + 1, M[x].1 - k + 1);
      if y == -1 then before == 0 else dp[y] + k <= dp[x] && Score(a, b, k, pp, M[y].0, M[y].1) == before
  {
    var i, j := M[x].0, M[x].1;
    var i', j' := BeforeWitness(a, b, k, pp, i - k + 1, j - k + 1);
    if Before(a, b, k, pp, i - k + 1, j - k + 1) > 0 {
      assert (i', j') in M;
      y :| 0 <= y < |M| && M[y] == (i', j');
      assert EndsBefore(M, k, y, x);
      DpBellman(M, k, pp, dp, P, x);
      assert Offer(M, k, pp, dp[y], y, x) <= dp[x];
    } else {
      y := -1;
    }
  }

  /** The k-match one diagonal step before x, in LCSk++: before x, with dp + 1 at most x's. */
  lemma ContinuationLink(a: Str, b: Str, M: seq<Pos>, k: nat, pp: bool, dp: seq<int>, P: seq<int>, x: nat)
    returns (z: int)
    requires k >= 1 && PairsSorted(M) && x < |M| == |P| == |dp| && DpTable(M, k, pp, dp, P, |M|)
    requires forall p :: p in M <==> SameWindow(a, p.0, b, p.1, k)
    ensures -1 <= z < x
    ensures if z == -1 then !(pp && SameWindow(a, M[x].0 - 1, b, M[x].1 - 1, k))
      else M[z] == (M[x].0 - 1, M[x].1 - 1) && dp[z] + 1 <= dp[x]
  {
    var i, j := M[x].0, M[x].1;
    if pp && SameWindow(a, i - 1, b, j - 1, k) {
      assert (i - 1, j - 1) in M;
      z :| 0 <= z < |M| && M[z] == (i - 1, j - 1);
      assert Continues(M, z, x);
      DpBellman(M, k, pp, dp, P, x);
      assert Offer(M, k, pp, dp[z], z, x) <= dp[x];
    } else {
      z := -1;
    }
  }

  /** The upper half of DpIsScore: the link of x offers at most x's score. */
  lemma DpAtMost(a: Str, b: Str, M: seq<Pos>, k: nat, pp: bool, dp: seq<int>, P: seq<int>, x: nat)
    requires k >= 1 && PairsSorted(M) && x < |M| == |P| == |dp| && DpTable(M, k, pp, dp, P, |M|)
    requires forall p :: p in M <==> SameWindow(a, p.0, b, p.1, k)
    requires -1 <= P[x] < x && (P[x] != -1 ==> dp[P[x]] == Score(a, b, k, pp, M[P[x]].0, M[P[x]].1))
    ensures dp[x] <= Score(a, b, k, pp, M[x].0, M[x].1)
  {
    var i, j := M[x].0, M[x].1;
    assert DpAt(M, k, pp, dp, P, x);
    var r := P[x];
    if r != -1 {
      assert M[r] in M;
      if EndsBefore(M, k, r, x) && dp[x] == dp[r] + k {
        BeforeUpper(a, b, k, pp, i - k + 1, j - k + 1, M[r].0, M[r].1);
      }
    }
  }

  /**
   * The whole sparse dynamic program: the length of the reconstruction from the first
   * maximum is the best score of all k-matches.
   */
  lemma SlowBest(a: Str, b: Str, M: seq<Pos>, k: nat, pp: bool, dp: seq<int>, P: seq<int>, bestIdx: nat)
    requires k >= 1 && PairsSorted(M) && 0 < |M| == |P| == |dp| && DpTable(M, k, pp, dp, P, |M|)
    requires forall p :: p in M <==> SameWindow(a, p.0, b, p.1, k)
    requires bestIdx < |M| && forall x :: 0 <= x < |M| ==> dp[x] <= dp[bestIdx]
    ensures dp[bestIdx] == Best(a, b, k, pp)
  {
    assert M[bestIdx] in M;
    DpIsScore(a, b, M, k, pp, dp, P, bestIdx);
    BestUpper(a, b, k, pp, M[bestIdx].0, M[bestIdx].1);
    BestZero(a, b, k, pp);
    var i, j := BeforeWitness(a, b, k, pp, |a|, |b|);
    assert (i, j) in M;
    var y :| 0 <= y < |M| && M[y] == (i, j);
    DpIsScore(a, b, M, k, pp, dp, P, y);
  }

  /**
   * `LcskSparseSlow(a, b, k, ...)` (lines 202-208): all k-matches, then the dynamic
   * program over them. The result is a valid alignment, empty exactly when a and b
   * share no k-window, and as long as the best dp value.
   */
  method LcskSparseSlowImpl(a: Str, b: Str, k: nat, pp: bool) returns (recon: seq<Pos>)
    requires k >= 1
    ensures ValidAlignment(a, b, k, pp, recon) && BlockAlignment(a, b, k, pp, recon)
    ensures recon == [] <==> forall i, j :: !SameWindow(a, i, b, j, k)
    ensures |recon| == Best(a, b, k, pp)
    ensures !pp ==> |recon| % k == 0
  {
    var matches := GetMatches(a, b, k);
    assert PairsSorted(matches);
    var dp, prev, bestIdx;
    recon, dp, prev, bestIdx := SparseDp(matches, k, pp);
    if |matches| == 0 {
      EmptyBlock(a, b, k, pp);
      forall i, j ensures !SameWindow(a, i, b, j, k) {
        assert (i, j) !in matches;
      }
      BestZero(a, b, k, pp);
    } else {
      assert matches[0] in matches;
      assert AllMatch(a, b, matches, k) by {
        forall x | 0 <= x < |matches| ensures SameWindow(a, matches[x].0, b, matches[x].1, k) {
          assert matches[x] in matches;
        }
      }
      SlowReconValid(a, b, matches, k, pp, dp, prev, bestIdx);
      SlowBest(a, b, matches, k, pp, dp, prev, bestIdx);
      if !pp {
        DpTableLinks(matches, k, pp, dp, prev);
        DpMultiple(matches, k, dp, prev, bestIdx);
        MultipleOfMod(|recon|, k);
      }
    }
  }

  /** `LcskSparseSlow` (lines 301-304): the LCSk variant. */
  method LcskSparseSlow(a: Str, b: Str, k: nat) returns (recon: seq<Pos>)
    requires k >= 1
    ensures ValidAlignment(a, b, k, false, recon) && BlockAlignment(a, b, k, false, recon) && |recon| % k == 0
    ensures recon == [] <==> forall i, j :: !SameWindow(a, i, b, j, k)
    ensures |recon| == Best(a, b, k, false)
  {
    recon := LcskSparseSlowImpl(a, b, k, false);
  }

  /** `LcskppSparseSlow` (lines 306-309): the LCSk++ variant. */
  method LcskppSparseSlow(a: Str, b: Str, k: nat) returns (recon: seq<Pos>)
    requires k >= 1
    ensures ValidAlignment(a, b, k, true, recon) && BlockAlignment(a, b, k, true, recon)
    ensures recon == [] <==> forall i, j :: !SameWindow(a, i, b, j, k)
    ensures |recon| == Best(a, b, k, true)
  {
    recon := LcskSparseSlowImpl(a, b, k, true);
  }
}
