/**
 * Match makers (fast_simple_lcsk/match_maker.{h,cc}): on its i-th successful call,
 * `GetNextMatches` lists, in ascending order, every j with a[i, i+k) == b[j, j+k).
 */
module MatchMaking {
  import opened Text
  import opened Hashing
  import opened Alphabet

  /** The ascending list of the j < n with a[i, i+k) == b[j, j+k). */
  function MatchesUpTo(a: Str, i: int, b: Str, k: nat, n: nat): seq<int>
  {
    if n == 0 then []
    else MatchesUpTo(a, i, b, k, n - 1) + (if SameWindow(a, i, b, n - 1, k) then [n - 1] else [])
  }

  /** What the i-th call of `GetNextMatches` must return: all matching columns of row i. */
  function RowMatches(a: Str, b: Str, k: nat, i: int): seq<int>
  {
    MatchesUpTo(a, i, b, k, WindowCount(b, k))
  }

  predicate StrictlyIncreasing(s: seq<int>)
  {
    forall x, y :: 0 <= x < y < |s| ==> s[x] < s[y]
  }

  lemma {:induction false} MatchesUpToSpec(a: Str, i: int, b: Str, k: nat, n: nat)
    ensures forall j :: j in MatchesUpTo(a, i, b, k, n) <==> 0 <= j < n && SameWindow(a, i, b, j, k)
    ensures StrictlyIncreasing(MatchesUpTo(a, i, b, k, n))
  {
    if n > 0 {
      MatchesUpToSpec(a, i, b, k, n - 1);
      var m := MatchesUpTo(a, i, b, k, n - 1);
      forall x | 0 <= x < |m| ensures m[x] < n - 1 { assert m[x] in m; }
    }
  }

  /** Row i's list holds exactly the matching columns, each once, in ascending order. */
  lemma RowMatchesSpec(a: Str, b: Str, k: nat, i: int)
    ensures forall j :: j in RowMatches(a, b, k, i) <==> SameWindow(a, i, b, j, k)
    ensures StrictlyIncreasing(RowMatches(a, b, k, i))
  {
    MatchesUpToSpec(a, i, b, k, WindowCount(b, k));
  }

  /** A row without a window of a has no matches. */
  lemma RowMatchesEmpty(a: Str, b: Str, k: nat, i: int)
    requires !HasWindow(a, i, k)
    ensures RowMatches(a, b, k, i) == []
  {
    MatchesUpToEmpty(a, i, b, k, WindowCount(b, k));
  }

  lemma {:induction false} MatchesUpToEmpty(a: Str, i: int, b: Str, k: nat, n: nat)
    requires !HasWindow(a, i, k)
    ensures MatchesUpTo(a, i, b, k, n) == []
  {
    if n > 0 {
      MatchesUpToEmpty(a, i, b, k, n - 1);
    }
  }

  /** The ascending list of the j < n whose window of b hashes to h (a bucket of `bmap_`). */
  function BucketUpTo(ids: IdTable, sigma: nat, b: Str, k: nat, h: int, n: nat): seq<int>
    requires n <= WindowCount(b, k)
  {
    if n == 0 then []
    else BucketUpTo(ids, sigma, b, k, h, n - 1) + (if WindowHash(ids, sigma, b, n - 1, k) == h then [n - 1] else [])
  }

  /** The bucket of a's window at i is the list of its matches, because the hash is perfect. */
  lemma {:induction false} BucketIsMatches(ids: IdTable, sigma: nat, a: Str, i: nat, b: Str, k: nat, n: nat)
    requires i + k <= |a| && n <= WindowCount(b, k)
    requires IdsBelow(ids, a, sigma) && IdsBelow(ids, b, sigma) && Consistent(ids, a, b)
    ensures BucketUpTo(ids, sigma, b, k, WindowHash(ids, sigma, a, i, k), n) == MatchesUpTo(a, i, b, k, n)
  {
    if n > 0 {
      BucketIsMatches(ids, sigma, a, i, b, k, n - 1);
      WindowHashPerfect(ids, sigma, a, i, b, n - 1, k);
    }
  }

  /** `bmap_[hash]`: the bucket of hash, empty when there is none. */
  function Get(m: map<int, seq<int>>, h: int): seq<int>
  {
    if h in m then m[h] else []
  }

  datatype MatchMakerType = Naive | PerfectHash

  /** `NaiveMatchMaker`: compares row's window of a with every window of b. */
  class NaiveMatchMaker {
    const a: Str
    const b: Str
    const k: nat
    var row: nat

    constructor (a: Str, b: Str, k: nat)
      ensures this.a == a && this.b == b && this.k == k && row == 0
    {
      this.a, this.b, this.k := a, b, k;
      row := 0;
    }

    method GetNextMatches() returns (more: bool, matches: seq<int>)
      modifies this`row
      ensures more <==> old(row) + k <= |a|
      ensures more ==> matches == RowMatches(a, b, k, old(row)) && row == old(row) + 1
      ensures !more ==> matches == [] && row == old(row)
    {
      matches := [];
      if row + k > |a| {
        return false, matches;
      }
      var bIndex := 0;
      while bIndex <= |b| - k
        invariant 0 <= bIndex <= WindowCount(b, k)
        invariant matches == MatchesUpTo(a, row, b, k, bIndex)
      {
        if a[row..row + k] == b[bIndex..bIndex + k] {
          matches := matches + [bIndex];
        }
        bIndex := bIndex + 1;
      }
      row := row + 1;
      more := true;
    }
  }

  /**
   * `PerfectHashMatchMaker`: hashes row's window of a with a rolling hasher and
   * looks the hash up in `bmap`, the buckets of the windows of b.
   */
  class PerfectHashMatchMaker {
    const a: Str
    const b: Str
    const k: nat
    var row: nat
    const charToId: IdTable
    const sigma: nat
    const ahasher: RollingHasher
    var bmap: map<int, seq<int>>

    ghost predicate Valid()
      reads this, ahasher
    {
      && k >= 1
      && TableOf(charToId, FirstOccurrences(a + b))
      && sigma == |FirstOccurrences(a + b)|
      && ahasher.Valid()
      && ahasher.s == a && ahasher.k == k && ahasher.ids == charToId && ahasher.sigma == sigma
      && ahasher.col == row
      && IdsBelow(charToId, a, sigma) && IdsBelow(charToId, b, sigma) && Consistent(charToId, a, b)
      && (forall h :: Get(bmap, h) == BucketUpTo(charToId, sigma, b, k, h, WindowCount(b, k)))
    }

    /** Builds the alphabet from a then b, a hasher over a, and the buckets of b. */
    constructor (a: Str, b: Str, k: nat)
      requires k >= 1
      ensures Valid() && fresh(ahasher)
      ensures this.a == a && this.b == b && this.k == k && row == 0
    {
      this.a, this.b, this.k := a, b, k;
      row := 0;
      var ids, s := PrepareAlphabet(a, b);
      AlphabetIsPerfect(a, b, ids, s);
      charToId, sigma := ids, s;
      ahasher := new RollingHasher(a, k, ids, s);
      bmap := map[];
      new;
      InitBMap(b);
    }

    /** Fills `bmap`: start i of b goes to the end of the bucket of its window's hash. */
    method InitBMap(b: Str)
      requires b == this.b && k >= 1
      requires IdsBelow(charToId, b, sigma)
      modifies this`bmap
      ensures forall h :: Get(bmap, h) == BucketUpTo(charToId, sigma, b, k, h, WindowCount(b, k))
    {
      bmap := map[];
      var bhasher := new RollingHasher(b, k, charToId, sigma);
      var hash := 0;
      var ok;
      var i := 0;
      while i + k <= |b|
        invariant 0 <= i <= WindowCount(b, k)
        invariant bhasher.Valid() && bhasher.col == i
        invariant bhasher.s == b && bhasher.k == k && bhasher.ids == charToId && bhasher.sigma == sigma
        invariant forall h :: Get(bmap, h) == BucketUpTo(charToId, sigma, b, k, h, i)
      {
        ok, hash := bhasher.Next(hash);
        assert ok;
        bmap := bmap[hash := Get(bmap, hash) + [i]];
        i := i + 1;
      }
      ok, hash := bhasher.Next(hash);
      assert !ok;
    }

    method GetNextMatches() returns (more: bool, matches: seq<int>)
      requires Valid()
      modifies this`row, this`bmap, ahasher
      ensures Valid()
      ensures more <==> old(row) + k <= |a|
      ensures more ==> matches == RowMatches(a, b, k, old(row)) && row == old(row) + 1
      ensures !more ==> matches == [] && row == old(row)
    {
      matches := [];
      var hash := 0;
      var ok;
      if row + k > |a| {
        ok, hash := ahasher.Next(hash);
        assert !ok;
        return false, matches;
      }
      ok, hash := ahasher.Next(hash);
      assert ok;
      var bucket := Get(bmap, hash);
      LookupKeeps(bmap, hash);
      bmap := bmap[hash := bucket];
      BucketIsMatches(charToId, sigma, a, row, b, k, WindowCount(b, k));
      matches := CopyBucket(bucket);
      row := row + 1;
      more := true;
    }
  }

  /** `bmap_[hash]` inserts an empty bucket for a missing hash, which changes no lookup. */
  lemma LookupKeeps(m: map<int, seq<int>>, h: int)
    ensures forall h' :: Get(m[h := Get(m, h)], h') == Get(m, h')
  {
  }

  /** The loop of lines 58-60: every entry of the bucket is pushed, in order. */
  method CopyBucket(bucket: seq<int>) returns (matches: seq<int>)
    ensures matches == bucket
  {
    matches := [];
    var t := 0;
    while t < |bucket|
      invariant 0 <= t <= |bucket|
      invariant matches == bucket[..t]
    {
      matches := matches + [bucket[t]];
      t := t + 1;
    }
    assert bucket[..t] == bucket;
  }

  /**
   * `MatchMaker::Create`: the `NAIVE` case has no `break` and falls through, so a
   * perfect-hash match maker is built whatever `kind` asks for.
   */
  method Create(a: Str, b: Str, k: nat, kind: MatchMakerType) returns (m: PerfectHashMatchMaker)
    requires k >= 1
    ensures fresh(m) && fresh(m.ahasher) && m.Valid()
    ensures m.a == a && m.b == b && m.k == k && m.row == 0
  {
    match kind
    case Naive =>
      var naive := new NaiveMatchMaker(a, b, k);
      m := new PerfectHashMatchMaker(a, b, k);
    case PerfectHash =>
      m := new PerfectHashMatchMaker(a, b, k);
  }

  /**
   * Runs a naive and a perfect-hash match maker side by side until both are
   * exhausted: they produce the same list at every row, and one list per window of a.
   */
  method RunBoth(a: Str, b: Str, k: nat) returns (naiveRows: seq<seq<int>>, hashRows: seq<seq<int>>)
    requires k >= 1
    ensures naiveRows == hashRows
    ensures |hashRows| == WindowCount(a, k)
    ensures forall i :: 0 <= i < |hashRows| ==> hashRows[i] == RowMatches(a, b, k, i)
  {
    var naive := new NaiveMatchMaker(a, b, k);
    var hashed := new PerfectHashMatchMaker(a, b, k);
    naiveRows, hashRows := RunRows(naive, hashed);
    RowsSpec(a, b, k, WindowCount(a, k));
  }

  /** Both makers from row 0 until both say they are done: the lists of all rows, twice. */
  method RunRows(naive: NaiveMatchMaker, hashed: PerfectHashMatchMaker)
    returns (naiveRows: seq<seq<int>>, hashRows: seq<seq<int>>)
    requires hashed.Valid() && naive.a == hashed.a && naive.b == hashed.b && naive.k == hashed.k
    requires naive.row == 0 && hashed.row == 0
    modifies naive`row, hashed`row, hashed`bmap, hashed.ahasher
    ensures naiveRows == hashRows == Rows(hashed.a, hashed.b, hashed.k, WindowCount(hashed.a, hashed.k))
  {
    naiveRows, hashRows := [], [];
    for row := 0 to WindowCount(hashed.a, hashed.k)
      invariant hashed.Valid()
      invariant naive.row == hashed.row == row
      invariant naiveRows == hashRows == Rows(hashed.a, hashed.b, hashed.k, row)
    {
      var m1, r1, m2, r2 := StepBoth(naive, hashed);
      naiveRows, hashRows := naiveRows + [r1], hashRows + [r2];
    }
    var m1, r1, m2, r2 := StepBoth(naive, hashed);
    assert !m1 && !m2;
  }

  /** The lists of the first n rows. */
  function Rows(a: Str, b: Str, k: nat, n: nat): seq<seq<int>>
  {
    if n == 0 then [] else Rows(a, b, k, n - 1) + [RowMatches(a, b, k, n - 1)]
  }

  lemma {:induction false} RowsSpec(a: Str, b: Str, k: nat, n: nat)
    ensures |Rows(a, b, k, n)| == n
    ensures forall i :: 0 <= i < n ==> Rows(a, b, k, n)[i] == RowMatches(a, b, k, i)
  {
    if n > 0 {
      RowsSpec(a, b, k, n - 1);
    }
  }

  /** One call of `GetNextMatches` on each maker, both at the same row: the same answer. */
  method StepBoth(naive: NaiveMatchMaker, hashed: PerfectHashMatchMaker)
    returns (naiveMore: bool, naiveMatches: seq<int>, hashMore: bool, hashMatches: seq<int>)
    requires hashed.Valid() && naive.a == hashed.a && naive.b == hashed.b && naive.k == hashed.k
    requires naive.row == hashed.row
    modifies naive`row, hashed`row, hashed`bmap, hashed.ahasher
    ensures hashed.Valid() && naive.row == hashed.row
    ensures naiveMore == hashMore && naiveMatches == hashMatches
    ensures naiveMore <==> old(naive.row) + naive.k <= |naive.a|
    ensures naiveMore ==> naiveMatches == RowMatches(naive.a, naive.b, naive.k, old(naive.row))
    ensures naive.row == if naiveMore then old(naive.row) + 1 else old(naive.row)
  {
    naiveMore, naiveMatches := naive.GetNextMatches();
    hashMore, hashMatches := hashed.GetNextMatches();
  }

  /**
   * `InitBMap` built without assertions: line 90's call to the hasher's `Next` goes
   * with the assert around it, so the hash stays 0 and the first n windows of b all
   * join bucket 0.
   */
  function BucketsWithoutAsserts(b: Str, k: nat, n: nat): map<int, seq<int>>
    requires n <= WindowCount(b, k)
  {
    if n == 0 then map[]
    else
      var m := BucketsWithoutAsserts(b, k, n - 1);
      m[0 := Get(m, 0) + [n - 1]]
  }

  /**
   * `PerfectHashMatchMaker::GetNextMatches` built without assertions: line 57 loses its
   * call to `Next` as well, so every row looks up bucket 0.
   */
  function RowWithoutAsserts(a: Str, b: Str, k: nat, row: int): seq<int>
  {
    if row + k > |a| then [] else Get(BucketsWithoutAsserts(b, k, WindowCount(b, k)), 0)
  }

  /** Without assertions bucket 0 holds every window start and no other bucket exists. */
  lemma {:induction false} BucketsWithoutAssertsSpec(b: Str, k: nat, n: nat)
    requires n <= WindowCount(b, k)
    ensures Get(BucketsWithoutAsserts(b, k, n), 0) == seq(n, j => j)
    ensures forall h :: h != 0 ==> Get(BucketsWithoutAsserts(b, k, n), h) == []
  {
    if n > 0 {
      BucketsWithoutAssertsSpec(b, k, n - 1);
      var m := BucketsWithoutAsserts(b, k, n - 1);
      assert BucketsWithoutAsserts(b, k, n) == m[0 := Get(m, 0) + [n - 1]];
      assert seq(n, j => j) == seq(n - 1, j => j) + [n - 1];
      forall h | h != 0 ensures Get(BucketsWithoutAsserts(b, k, n), h) == [] {
        assert Get(m, h) == [];
      }
    }
  }

  /** ... so each row of a is matched against every window of b, equal or not. */
  lemma RowWithoutAssertsAll(a: Str, b: Str, k: nat, row: int)
    requires row + k <= |a|
    ensures forall j :: j in RowWithoutAsserts(a, b, k, row) <==> 0 <= j < WindowCount(b, k)
  {
    BucketsWithoutAssertsSpec(b, k, WindowCount(b, k));
    var s := seq(WindowCount(b, k), j => j);
    forall j | 0 <= j < WindowCount(b, k) ensures j in s {
      assert s[j] == j;
    }
  }

  /** With a = b = "ab" and k = 1, row 0 returns columns 0 and 1, though only 0 matches. */
  lemma WithoutAssertsMismatch(a: Str, b: Str)
    requires a == ['a', 'b'] && b == ['a', 'b']
    ensures RowWithoutAsserts(a, b, 1, 0) == [0, 1]
    ensures RowMatches(a, b, 1, 0) == [0]
  {
    BucketsWithoutAssertsSpec(b, 1, 2);
    assert seq(2, j => j) == [0, 1];
    assert SameWindow(a, 0, b, 0, 1) by { assert a[0..1] == b[0..1]; }
    assert !SameWindow(a, 0, b, 1, 1) by { assert a[0..1][0] != b[1..2][0]; }
    assert WindowCount(b, 1) == 2;
    assert MatchesUpTo(a, 0, b, 1, 1) == [0];
    assert MatchesUpTo(a, 0, b, 1, 2) == [0];
  }
}
